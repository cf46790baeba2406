/**
 * The employee directory: the search box, and the add/edit dialog with its
 * required fields and its id and role defaults.
 */
module Employees {
  import opened Wrappers
  import opened Types
  import opened Text

  // ---------------------------------------------------------------- search

  /** An employee matches the search text when it occurs, ignoring letter case, in the name or the code. */
  predicate Matches(e: Employee, filter: string) {
    var f := ToLower(filter);
    Contains(ToLower(e.name), f) || Contains(ToLower(e.code), f)
  }

  /** `filtered`: the employees matching the search text, in list order. */
  function Search(emps: seq<Employee>, filter: string): (r: seq<Employee>)
    ensures forall e :: e in r <==> e in emps && Matches(e, filter)
    ensures |r| <= |emps|
  {
    if emps == [] then []
    else
      assert emps == [emps[0]] + emps[1..];
      (if Matches(emps[0], filter) then [emps[0]] else []) + Search(emps[1..], filter)
  }

  /** The empty text occurs everywhere, so an empty search box lists everyone. */
  lemma {:induction false} EmptySearchKeepsAll(emps: seq<Employee>)
    ensures Search(emps, "") == emps
  {
    if emps != [] {
      var e := emps[0];
      assert OccursAt(ToLower(e.name), ToLower(""), 0);
      EmptySearchKeepsAll(emps[1..]);
      assert emps == [e] + emps[1..];
    }
  }

  /** The search ignores the letter case of the search text: lower-casing it first finds the same employees. */
  lemma {:induction false} SearchIgnoresCase(emps: seq<Employee>, filter: string)
    ensures Search(emps, ToLower(filter)) == Search(emps, filter)
  {
    ToLowerIdempotent(filter);
    if emps != [] {
      SearchIgnoresCase(emps[1..], filter);
    }
  }

  /** Typing an employee's code, in any letter case, finds that employee. */
  lemma CodeFindsEmployee(emps: seq<Employee>, i: int, typed: string)
    requires 0 <= i < |emps| && ToLower(typed) == ToLower(emps[i].code)
    ensures emps[i] in Search(emps, typed)
  {
    var c := ToLower(emps[i].code);
    assert c[0..|c|] == c;
    assert OccursAt(c, ToLower(typed), 0);
  }

  // ---------------------------------------------------------------- dialog

  /**
   * The dialog's fields: the partial employee being edited. A field the
   * form never set is `None`.
   */
  datatype Form = Form(
    name: Option<string>,
    code: Option<string>,
    department: Option<string>,
    role: Option<Role>,
    username: Option<string>,
    password: Option<string>,
    avatar: Option<string>)

  /** `handleOpenModal`: a copy of the employee being edited, or a new form with role User and an empty department. */
  function OpenForm(editing: Option<Employee>): (f: Form)
    ensures editing.None? ==> f.role == Some(User) && f.department == Some("") && f.name.None? && f.code.None?
    ensures editing.Some? ==> f.name == Some(editing.value.name) && f.code == Some(editing.value.code) &&
                              f.department == Some(editing.value.department) && f.role == Some(editing.value.role)
  {
    match editing
    case None => Form(None, None, Some(""), Some(User), None, None, None)
    case Some(e) => Form(Some(e.name), Some(e.code), Some(e.department), Some(e.role), e.username, e.password, e.avatar)
  }

  /** A text field counts as filled when it is set and not empty. */
  predicate Filled(field: Option<string>) {
    field.Some? && field.value != ""
  }

  datatype SaveError = MissingRequiredField

  /** The id a new employee gets: "ID" followed by a number below 10000 drawn at random. */
  function NewId(draw: nat): (id: string)
    requires draw < 10000
    ensures |id| >= 3 && id[..2] == "ID"
    ensures AllDigits(id[2..]) && DigitsValue(id[2..]) == draw
    ensures |id| > 3 ==> id[2] != '0'
  {
    var digits := NatToString(draw);
    assert ("ID" + digits)[2..] == digits;
    "ID" + digits
  }

  /**
   * `handleSave`: rejected when the name, code or department is not
   * filled; otherwise the employee to store, which keeps the id of the
   * employee being edited (a new one gets `NewId(draw)`) and takes role
   * User when the form has none.
   */
  function HandleSave(editing: Option<Employee>, f: Form, draw: nat): (r: Result<Employee, SaveError>)
    requires draw < 10000
    ensures r.Failure? <==> !(Filled(f.name) && Filled(f.code) && Filled(f.department))
    ensures r.Success? && editing.Some? ==> r.value.id == editing.value.id
    ensures r.Success? && editing.None? ==> r.value.id == NewId(draw)
    ensures r.Success? ==> r.value.name == f.name.value && r.value.code == f.code.value &&
                           r.value.department == f.department.value
    ensures r.Success? ==> r.value.role == f.role.GetOr(User)
    ensures r.Success? ==> r.value.username == f.username && r.value.password == f.password && r.value.avatar == f.avatar
  {
    if !(Filled(f.name) && Filled(f.code) && Filled(f.department)) then Failure(MissingRequiredField)
    else
      var id := if editing.Some? then editing.value.id else NewId(draw);
      Success(Employee(id, f.code.value, f.name.value, f.department.value, f.username, f.password,
                       f.role.GetOr(User), f.avatar))
  }

  /** Opening an employee and saving without changes stores the same employee. */
  lemma EditRoundTrip(e: Employee, draw: nat)
    requires draw < 10000 && e.name != "" && e.code != "" && e.department != ""
    ensures HandleSave(Some(e), OpenForm(Some(e)), draw) == Success(e)
  {
  }

  /** A new employee whose role was left as the form opened it is saved as a User. */
  lemma NewEmployeeIsUser(name: string, code: string, department: string, draw: nat)
    requires draw < 10000 && name != "" && code != "" && department != ""
    ensures var f := OpenForm(None).(name := Some(name), code := Some(code), department := Some(department));
            HandleSave(None, f, draw).Success? && HandleSave(None, f, draw).value.role == User
  {
  }

  /** A new form saved before anything is typed is rejected: name and code are missing. */
  lemma BlankNewFormRejected(draw: nat)
    requires draw < 10000
    ensures HandleSave(None, OpenForm(None), draw) == Failure(MissingRequiredField)
  {
  }
}
