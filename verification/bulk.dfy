/**
 * Bulk attendance: picking employees and days, and submitting one status
 * for every picked employee on every picked day.
 *
 * A JavaScript `Set` is modelled as a sequence without duplicates in
 * insertion order. The picked days are held as the dates their
 * `YYYY-MM-DD` keys spell (`DateTextRoundTrip` shows the text loses
 * nothing).
 */
module Bulk {
  import opened Wrappers
  import opened Types
  import opened Text
  import opened Calendar
  import opened Store
  import opened Tally

  // ---------------------------------------------------------------- toggling

  /** `s.has(x) ? s.delete(x) : s.add(x)` on an insertion-ordered set. */
  function Toggle<T(==,!new)>(s: seq<T>, x: T): (r: seq<T>)
    requires NoDup(s)
    ensures NoDup(r)
    ensures x in r <==> x !in s
    ensures forall y :: y != x ==> (y in r <==> y in s)
  {
    if x in s then Remove(s, x) else s + [x]
  }

  /** `s` without `x`, the others kept in order. */
  function Remove<T(==,!new)>(s: seq<T>, x: T): (r: seq<T>)
    requires NoDup(s)
    ensures NoDup(r) && x !in r
    ensures forall y :: y != x ==> (y in r <==> y in s)
    ensures |r| == if x in s then |s| - 1 else |s|
    ensures x !in s ==> r == s
  {
    if s == [] then []
    else
      var tail := Remove(s[1..], x);
      if s[0] == x then
        assert x !in s[1..];
        tail
      else
        assert s[0] !in tail;
        assert s == [s[0]] + s[1..];
        [s[0]] + tail
  }

  /** Toggling the same element twice gives back the same members. */
  lemma ToggleTwice<T(!new)>(s: seq<T>, x: T)
    requires NoDup(s)
    ensures forall y :: y in Toggle(Toggle(s, x), x) <==> y in s
    ensures x !in s ==> Toggle(Toggle(s, x), x) == s
  {
    if x !in s {
      RemoveLast(s, x);
    }
  }

  /** Removing the element just appended restores the sequence. */
  lemma {:induction false} RemoveLast<T(!new)>(s: seq<T>, x: T)
    requires NoDup(s) && x !in s
    ensures NoDup(s + [x])
    ensures Remove(s + [x], x) == s
  {
    if s == [] {
      assert Remove([x], x) == Remove([x][1..], x);
      assert [x][1..] == [];
    } else {
      assert (s + [x])[1..] == s[1..] + [x];
      RemoveLast(s[1..], x);
      assert s == [s[0]] + s[1..];
    }
  }

  /** `new Set(xs)`: the distinct elements of `xs` in first-occurrence order. */
  function Distinct<T(==,!new)>(xs: seq<T>): (r: seq<T>)
    ensures NoDup(r)
    ensures forall y :: y in r <==> y in xs
  {
    if xs == [] then []
    else
      var init := Distinct(xs[..|xs| - 1]);
      var last := xs[|xs| - 1];
      assert xs == xs[..|xs| - 1] + [last];
      if last in init then init else init + [last]
  }

  function Ids(emps: seq<Employee>): (ids: seq<string>)
    ensures |ids| == |emps|
    ensures forall i :: 0 <= i < |emps| ==> ids[i] == emps[i].id
  {
    seq(|emps|, i requires 0 <= i < |emps| => emps[i].id)
  }

  /**
   * `toggleAll`: when as many employees are picked as are listed, none
   * stay picked; otherwise every listed employee is picked.
   */
  function ToggleAll(picked: seq<string>, emps: seq<Employee>): (r: seq<string>)
    ensures |picked| == |emps| ==> r == []
    ensures |picked| != |emps| ==> NoDup(r) && forall id :: id in r <==> exists i :: 0 <= i < |emps| && emps[i].id == id
  {
    if |picked| == |emps| then []
    else
      var r := Distinct(Ids(emps));
      assert forall id :: id in Ids(emps) <==> exists i :: 0 <= i < |emps| && emps[i].id == id by {
        forall id ensures id in Ids(emps) <==> exists i :: 0 <= i < |emps| && emps[i].id == id {
          if id in Ids(emps) {
            var i :| 0 <= i < |Ids(emps)| && Ids(emps)[i] == id;
          }
        }
      }
      r
  }

  /**
   * The employees listed and preselected when the page loads: a User sees
   * only the entries with their own id, the first of them picked; an Admin
   * sees everyone, none picked.
   */
  function LoadEmployees(session: Session, all: seq<Employee>): (r: (seq<Employee>, seq<string>))
    ensures session.role == User ==> forall e :: e in r.0 <==> e in all && e.id == session.userId
    ensures session.role == User ==> r.1 == (if r.0 == [] then [] else [session.userId])
    ensures session.role == Admin ==> r == (all, [])
  {
    if session.role == User then
      var me := WithId(all, session.userId);
      (me, if me == [] then [] else [me[0].id])
    else (all, [])
  }

  // ---------------------------------------------------------------- day keys

  /** A moment of local or UTC time: a date and a minute of that day. */
  datatype Moment = Moment(date: Date, minute: int)

  predicate ValidMoment(t: Moment) {
    ValidDate(t.date) && 0 <= t.minute < 1440
  }

  /** Moving a moment by less than a day. */
  function AddMinutes(t: Moment, delta: int): (r: Moment)
    requires ValidMoment(t) && -1440 < delta < 1440
    ensures ValidMoment(r)
  {
    var m := t.minute + delta;
    if m < 0 then Moment(PrevDay(t.date), m + 1440)
    else if m >= 1440 then Moment(NextDay(t.date), m - 1440)
    else Moment(t.date, m)
  }

  /**
   * The day `handleSubmit` saves for a day picked in the calendar, as
   * written, for a browser whose local time is `offset` minutes ahead of
   * UTC. `toggleDate` keys the day by `toISOString()` of its local
   * midnight, which is the UTC date; `handleSubmit` reads the key with
   * `new Date(key)`, which is UTC midnight, and saves its local date.
   */
  function SubmittedDateAsWritten(picked: Date, offset: int): (d: Date)
    requires ValidDate(picked) && -1440 < offset < 1440
    ensures ValidDate(d)
  {
    var key := AddMinutes(Moment(picked, 0), -offset).date;
    AddMinutes(Moment(key, 0), offset).date
  }

  /** As written, every time zone but UTC saves the day before the one picked. */
  lemma SubmittedDateShifts(picked: Date, offset: int)
    requires ValidDate(picked) && -1440 < offset < 1440
    ensures offset == 0 ==> SubmittedDateAsWritten(picked, offset) == picked
    ensures offset != 0 ==> SubmittedDateAsWritten(picked, offset) == PrevDay(picked)
  {
  }

  /** In Vietnam (UTC+7), picking 15 May 2024 saves 14 May 2024. */
  lemma SubmittedDateShiftExample()
    ensures SubmittedDateAsWritten(Date(2024, 5, 15), 420) == Date(2024, 5, 14)
  {
    SubmittedDateShifts(Date(2024, 5, 15), 420);
  }

  /**
   * The `YYYY-MM-DD` key of a picked day, built from its local year, month
   * and day.
   */
  function DayKey(picked: Date): string
    requires ValidDate(picked)
  {
    DateText(picked.year, picked.month, picked.day)
  }

  /** `y-m-d` read back as a local date: three parts, each a whole number. */
  function ParseDayKey(key: string): (r: Option<Date>)
    ensures r.Some? ==> r.value.year >= 0 && r.value.month >= 0 && r.value.day >= 0
  {
    var parts := Split(key, '-');
    if |parts| != 3 then None
    else
      match (WholeNumber(parts[0]), WholeNumber(parts[1]), WholeNumber(parts[2]))
      case (Some(y), Some(m), Some(d)) => Some(Date(y, m, d))
      case _ => None
  }

  /** `Number(t)` when it is a whole number of at least 0. */
  function WholeNumber(t: string): (r: Option<nat>)
    ensures r.Some? ==> ToNumber(t) == Finite(r.value as real)
  {
    var n := ToNumber(t);
    if n.Finite? && n.value >= 0.0 && n.value.Floor as real == n.value then Some(n.value.Floor) else None
  }

  /** The key of a day splits into its year, month and day texts. */
  lemma SplitDayKey(picked: Date)
    requires ValidDate(picked) && picked.year >= 0
    ensures Split(DayKey(picked), '-') == [NatToString(picked.year), PadStart2(picked.month), PadStart2(picked.day)]
  {
    var y := NatToString(picked.year);
    var m := PadStart2(picked.month);
    var d := PadStart2(picked.day);
    var parts := [y, m, d];
    NotInDigits(y, '-');
    NotInDigits(m, '-');
    NotInDigits(d, '-');
    JoinThree(y, m, d, '-');
    assert DayKey(picked) == Join(parts, '-');
    SplitJoin(parts, '-');
  }

  lemma WholeNumberOfDigits(t: string)
    requires |t| > 0 && AllDigits(t)
    ensures WholeNumber(t) == Some(DigitsValue(t))
  {
    ToNumberOfDigits(t);
  }

  /** The date of a key read back as a local date is the date picked. */
  lemma DateTextRoundTrip(picked: Date)
    requires ValidDate(picked) && picked.year >= 0
    ensures ParseDayKey(DayKey(picked)) == Some(picked)
  {
    SplitDayKey(picked);
    WholeNumberOfDigits(NatToString(picked.year));
    WholeNumberOfDigits(PadStart2(picked.month));
    WholeNumberOfDigits(PadStart2(picked.day));
  }

  /** The day the corrected page saves for a picked day: the key read back as a local date. */
  function SubmittedDate(picked: Date): (d: Date)
    requires ValidDate(picked) && picked.year >= 0
    ensures d == picked
  {
    DateTextRoundTrip(picked);
    ParseDayKey(DayKey(picked)).value
  }

  /** `toggleDate(day)` on the days picked in the month shown. */
  function ToggleDate(picked: seq<Date>, year: int, month: int, day: int): (r: seq<Date>)
    requires NoDup(picked) && ValidDate(Date(year, month, day))
    ensures NoDup(r)
    ensures Date(year, month, day) in r <==> Date(year, month, day) !in picked
    ensures forall d :: d != Date(year, month, day) ==> (d in r <==> d in picked)
  {
    Toggle(picked, Date(year, month, day))
  }

  // ---------------------------------------------------------------- submit

  /** What the page holds when Save is pressed. */
  datatype Form = Form(employees: seq<string>, dates: seq<Date>, status: Status, overtime: string, multiplier: string)

  datatype BulkError = NothingPicked

  /** The record `handleSubmit` passes to the bulk save: overtime only when its input is not empty. */
  function TemplateRecord(f: Form, timestamp: string): (r: Record)
    ensures r.status == f.status && r.timestamp == timestamp
    ensures f.overtime == "" ==> r.overtimeHours.None? && r.overtimeMultiplier.None?
    ensures f.overtime != "" ==> r.overtimeHours == FieldOf(ParseFloat(f.overtime)) &&
                                 r.overtimeMultiplier == FieldOf(ParseFloat(f.multiplier))
  {
    if f.overtime == "" then Bare(f.status, timestamp)
    else Bare(f.status, timestamp).(overtimeHours := FieldOf(ParseFloat(f.overtime)),
                                   overtimeMultiplier := FieldOf(ParseFloat(f.multiplier)))
  }

  /**
   * The record every row of a submit carries: 0 overtime hours and a 1.5
   * multiplier when the overtime input is empty, or when its text (or the
   * multiplier's) does not read as a non-zero number.
   */
  function SubmittedRecord(f: Form, timestamp: string): (r: Record)
    ensures r.status == f.status && r.timestamp == timestamp
    ensures r.overtimeHours == Some(if f.overtime == "" then 0.0 else ParseFloat(f.overtime).Or(0.0))
    ensures r.overtimeMultiplier == Some(if f.overtime == "" then 1.5 else ParseFloat(f.multiplier).Or(1.5))
    ensures r.checkOutTime.None? && r.latitude.None? && r.longitude.None? && r.deviceInfo.None? && r.distance.None?
  {
    OrElseFieldOf(ParseFloat(f.overtime), 0.0);
    OrElseFieldOf(ParseFloat(f.multiplier), 1.5);
    BulkRecord(TemplateRecord(f, timestamp))
  }

  /**
   * `handleSubmit`: with no employee or no day picked it is rejected and
   * nothing is written; otherwise every picked employee gets the same record
   * on every picked day, in employee-major order, and each row sends the
   * status, the time and both overtime columns.
   */
  function Submit(f: Form, timestamp: string): (r: Result<seq<Payload>, BulkError>)
    requires AllValid(f.dates)
    ensures r.Failure? <==> f.employees == [] || f.dates == []
    ensures r.Success? ==> |r.value| == |f.employees| * |f.dates|
    ensures r.Success? ==> r.value == FanOut(f.employees, f.dates, TemplateRecord(f, timestamp))
    ensures r.Success? ==> forall p :: 0 <= p < |r.value| ==>
              r.value[p].record == SubmittedRecord(f, timestamp) && r.value[p].sent == OvertimeFields()
  {
    if f.employees == [] || f.dates == [] then Failure(NothingPicked)
    else
      var template := TemplateRecord(f, timestamp);
      FanOutRecords(f.employees, f.dates, template);
      Success(SaveBulkAttendance(f.employees, f.dates, template).value)
  }

  /**
   * The form after a submit: after a save the days are cleared, and the
   * employees too for an Admin only; a rejected or failed submit leaves the
   * form as it was.
   */
  function AfterSubmit(f: Form, role: Role, saved: bool): (g: Form)
    ensures !saved ==> g == f
    ensures saved ==> g.dates == [] && g.status == f.status && g.overtime == f.overtime && g.multiplier == f.multiplier
    ensures saved ==> g.employees == (if role == Admin then [] else f.employees)
  {
    if !saved then f
    else f.(dates := [], employees := if role == Admin then [] else f.employees)
  }

  /** A User who saves keeps themselves picked and can submit again as soon as a day is picked. */
  lemma UserKeepsSelection(f: Form, timestamp: string, day: Date)
    requires AllValid(f.dates) && f.employees != [] && ValidDate(day)
    ensures var g := AfterSubmit(f, User, true);
            Submit(g.(dates := [day]), timestamp).Success?
  {
  }
}
