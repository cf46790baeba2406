/**
 * The entities of the attendance tracker: roles, the six attendance
 * statuses, attendance records with their optional fields, employees,
 * the session, the system settings and leave/overtime requests.
 * The short labels are the ones the status table shows in calendar cells.
 */
module Types {
  import opened Wrappers

  datatype Role = Admin | User

  datatype Status = Present | Absent | Late | Leave | Halfday | EarlyLeave

  /**
   * A JavaScript number as the pages handle it: a finite value or NaN
   * (what `parseFloat` / `Number` return for text that is not a number).
   * Every comparison with NaN is false and NaN is falsy.
   */
  datatype Number = Finite(value: real) | NaN {

    /** JavaScript truthiness: defined, not NaN and not zero. */
    predicate Truthy() {
      Finite? && value != 0.0
    }

    /** `n || d` for a number `n`. */
    function Or(d: real): real {
      if Truthy() then value else d
    }

    /** `n > x`: false whenever `n` is NaN. */
    predicate Above(x: real) {
      Finite? && value > x
    }

    /** `n < x`: false whenever `n` is NaN. */
    predicate Below(x: real) {
      Finite? && value < x
    }

    /** `n === x`: false whenever `n` is NaN. */
    predicate Is(x: real) {
      Finite? && value == x
    }
  }

  /**
   * One attendance entry for one employee and one day. `timestamp` is the
   * check-in time as displayed text; every other field may be undefined.
   */
  datatype Record = Record(
    status: Status,
    timestamp: string,
    checkOutTime: Option<string>,
    overtimeHours: Option<real>,
    overtimeMultiplier: Option<real>,
    latitude: Option<real>,
    longitude: Option<real>,
    deviceInfo: Option<string>,
    distance: Option<int>)

  /** `Math.round`: the nearest integer, halves rounding up. */
  function Round(x: real): (n: int)
    ensures n as real - 0.5 <= x < n as real + 0.5
  {
    (x + 0.5).Floor
  }

  /** A record carrying only its status and check-in time. */
  function Bare(status: Status, timestamp: string): (r: Record)
    ensures r.status == status && r.timestamp == timestamp
    ensures r.overtimeHours.None? && r.overtimeMultiplier.None? && r.checkOutTime.None?
  {
    Record(status, timestamp, None, None, None, None, None, None, None)
  }

  /** JavaScript truthiness of an optional numeric field. */
  predicate Truthy(x: Option<real>) {
    x.Some? && x.value != 0.0
  }

  /** `x || d` for an optional numeric field. */
  function OrElse(x: Option<real>, d: real): real {
    if Truthy(x) then x.value else d
  }

  /**
   * The optional field a number becomes once stored: JSON encodes NaN as
   * `null`, so a NaN field reads back as undefined.
   */
  function FieldOf(n: Number): (r: Option<real>)
    ensures r.Some? <==> n.Finite?
    ensures r.Some? ==> r.value == n.value
  {
    match n
    case Finite(v) => Some(v)
    case NaN => None
  }

  /** Storing a number and reading it back with `|| d` is the number with `|| d`. */
  lemma OrElseFieldOf(n: Number, d: real)
    ensures OrElse(FieldOf(n), d) == n.Or(d)
  {
  }

  datatype Employee = Employee(
    id: string,
    code: string,
    name: string,
    department: string,
    username: Option<string>,
    password: Option<string>,
    role: Role,
    avatar: Option<string>)

  /** `employees.filter(e => e.id === id)`. */
  function WithId(all: seq<Employee>, id: string): (r: seq<Employee>)
    ensures forall e :: e in r <==> e in all && e.id == id
    ensures forall i :: 0 <= i < |r| ==> r[i].id == id
    ensures |r| <= |all|
  {
    if all == [] then []
    else
      assert all == [all[0]] + all[1..];
      (if all[0].id == id then [all[0]] else []) + WithId(all[1..], id)
  }

  /** The logged-in user, as kept in session storage. */
  datatype Session = Session(userId: string, username: string, name: string, role: Role)

  /** A session of the User role; no session at all reads as not a User. */
  predicate IsUserSession(session: Option<Session>) {
    session.Some? && session.value.role == User
  }

  /**
   * The employees a page works on after its role filter: a User only
   * themselves, anyone else (or no session) everyone.
   */
  function Scope(session: Option<Session>, emps: seq<Employee>): (r: seq<Employee>)
    ensures IsUserSession(session) ==> forall e :: e in r <==> e in emps && e.id == session.value.userId
    ensures IsUserSession(session) ==> forall i :: 0 <= i < |r| ==> r[i].id == session.value.userId
    ensures !IsUserSession(session) ==> r == emps
  {
    if IsUserSession(session) then WithId(emps, session.value.userId) else emps
  }

  datatype SystemSettings = SystemSettings(
    workStartTime: string,
    workEndTime: string,
    officeLat: Number,
    officeLng: Number,
    allowedRadius: Number)

  datatype RequestType = LeaveRequest | OvertimeRequest

  datatype RequestStatus = Pending | Approved | Rejected

  datatype Request = Request(
    id: int,
    employeeId: string,
    employeeName: Option<string>,
    kind: RequestType,
    startDate: string,
    endDate: string,
    reason: string,
    status: RequestStatus,
    createdAt: Option<string>)

  /** The one-character label a calendar or export cell shows for a status. */
  function ShortLabel(s: Status): string {
    match s
    case Present => "✓"
    case Halfday => "½"
    case Absent => "✕"
    case Late => "M"
    case EarlyLeave => "S"
    case Leave => "P"
  }

  /** Distinct statuses show distinct labels, and no label is empty. */
  lemma ShortLabelInjective(a: Status, b: Status)
    ensures |ShortLabel(a)| == 1
    ensures ShortLabel(a) == ShortLabel(b) ==> a == b
  {
  }
}
