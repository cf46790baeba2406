/**
 * The statistics page for one month: the employees in scope, the four
 * counters (present, late, absent, leave) overall, per department and per
 * day, the summary and the pie and bar series.
 *
 * The scan visits, for every employee in scope, the days 1..n of the month
 * (n the length of the month) and the record stored under each day's
 * two-digit key. Each record found is a `Mark`; `Marks` lists them in scan
 * order and is the reference the computed figures are checked against.
 */
module Statistics {
  import opened Wrappers
  import opened Types
  import opened Text
  import opened Calendar
  import opened Store
  import opened Tally

  // ---------------------------------------------------------------- scope

  /** The single bucket a User's figures are grouped under. */
  const PersonalGroup: string := "Cá nhân"

  /** The bucket an employee's records are grouped under. */
  function GroupKey(session: Option<Session>, e: Employee): (g: string)
    ensures IsUserSession(session) ==> g == PersonalGroup
    ensures !IsUserSession(session) ==> g == e.department
  {
    if IsUserSession(session) then PersonalGroup else e.department
  }

  // ---------------------------------------------------------------- counters

  datatype Counts = Counts(present: nat, late: nat, absent: nat, leave: nat) {
    function Plus(o: Counts): Counts {
      Counts(present + o.present, late + o.late, absent + o.absent, leave + o.leave)
    }

    function Sum(): nat {
      present + late + absent + leave
    }
  }

  function Zero(): Counts { Counts(0, 0, 0, 0) }

  /**
   * What one record adds: present and half day count as present; late,
   * absent and leave count in their own counter; early leave counts
   * nowhere.
   */
  function Contribution(s: Status): (k: Counts)
    ensures k.present + k.late + k.absent + k.leave == (if s == EarlyLeave then 0 else 1)
    ensures k.present == 1 <==> s == Present || s == Halfday
    ensures k.late == 1 <==> s == Late
    ensures k.absent == 1 <==> s == Absent
    ensures k.leave == 1 <==> s == Leave
  {
    match s
    case Present => Counts(1, 0, 0, 0)
    case Halfday => Counts(1, 0, 0, 0)
    case Late => Counts(0, 1, 0, 0)
    case Absent => Counts(0, 0, 1, 0)
    case Leave => Counts(0, 0, 0, 1)
    case EarlyLeave => Zero()
  }

  /** One record found by the scan: its group, its day and its status. */
  datatype Mark = Mark(group: string, day: int, status: Status)

  predicate MarkPresent(m: Mark) { m.status == Present || m.status == Halfday }
  predicate MarkLate(m: Mark) { m.status == Late }
  predicate MarkAbsent(m: Mark) { m.status == Absent }
  predicate MarkLeave(m: Mark) { m.status == Leave }
  predicate MarkCounted(m: Mark) { m.status != EarlyLeave }

  /** The four counters over a list of marks. */
  function MarkCounts(ms: seq<Mark>): Counts {
    Counts(Count(ms, MarkPresent), Count(ms, MarkLate), Count(ms, MarkAbsent), Count(ms, MarkLeave))
  }

  lemma PlusZero(c: Counts)
    ensures c.Plus(Zero()) == c && Zero().Plus(c) == c
  {
  }

  lemma PlusAssoc(a: Counts, b: Counts, c: Counts)
    ensures a.Plus(b).Plus(c) == a.Plus(b.Plus(c))
  {
  }

  /** The order two counters are added in does not matter. */
  lemma PlusSwap(a: Counts, b: Counts, c: Counts)
    ensures a.Plus(b).Plus(c) == a.Plus(c).Plus(b)
  {
  }

  lemma MarkCountsAppend(a: seq<Mark>, b: seq<Mark>)
    ensures MarkCounts(a + b) == MarkCounts(a).Plus(MarkCounts(b))
  {
    MarkCountsAppendFields(a, b);
    PlusOfFields(MarkCounts(a + b), MarkCounts(a), MarkCounts(b));
  }

  /** Each counter over two runs of records is the sum of the counters over each run. */
  lemma MarkCountsAppendFields(a: seq<Mark>, b: seq<Mark>)
    ensures MarkCounts(a + b).present == MarkCounts(a).present + MarkCounts(b).present
    ensures MarkCounts(a + b).late == MarkCounts(a).late + MarkCounts(b).late
    ensures MarkCounts(a + b).absent == MarkCounts(a).absent + MarkCounts(b).absent
    ensures MarkCounts(a + b).leave == MarkCounts(a).leave + MarkCounts(b).leave
  {
    CountAppend(a, b, MarkPresent);
    CountAppend(a, b, MarkLate);
    CountAppend(a, b, MarkAbsent);
    CountAppend(a, b, MarkLeave);
  }

  /** Counters that add up field by field are the sum. */
  lemma PlusOfFields(x: Counts, y: Counts, z: Counts)
    requires x.present == y.present + z.present && x.late == y.late + z.late
    requires x.absent == y.absent + z.absent && x.leave == y.leave + z.leave
    ensures x == y.Plus(z)
  {
  }

  /** The four counters together count every mark but early leave. */
  lemma {:induction false} MarkCountsSum(ms: seq<Mark>)
    ensures MarkCounts(ms).Sum() == Count(ms, MarkCounted)
  {
    if ms != [] {
      assert ms == [ms[0]] + ms[1..];
      MarkCountsAppend([ms[0]], ms[1..]);
      CountAppend([ms[0]], ms[1..], MarkCounted);
      MarkCountsSum(ms[1..]);
      MarkCountsOne(ms[0]);
    }
  }

  lemma MarkCountsOne(m: Mark)
    ensures MarkCounts([m]) == Contribution(m.status)
    ensures Count([m], MarkCounted) == Contribution(m.status).Sum()
  {
    CountSingle(m, MarkPresent);
    CountSingle(m, MarkLate);
    CountSingle(m, MarkAbsent);
    CountSingle(m, MarkLeave);
    CountSingle(m, MarkCounted);
  }

  /** The records of one employee on days d..n, in day order. */
  function DayMarks(group: string, md: MonthData, d: nat, n: int): (ms: seq<Mark>)
    ensures forall i :: 0 <= i < |ms| ==> ms[i].group == group && d <= ms[i].day <= n
    ensures forall i :: 0 <= i < |ms| ==> PadStart2(ms[i].day) in md && ms[i].status == md[PadStart2(ms[i].day)].status
    decreases n - d
  {
    if d > n then []
    else
      var rest := DayMarks(group, md, d + 1, n);
      if PadStart2(d) in md then [Mark(group, d, md[PadStart2(d)].status)] + rest else rest
  }

  /** Only the keys of days 1..n are looked at. */
  lemma {:induction false} DayMarksOnlyScanDays(group: string, md: MonthData, md': MonthData, d: nat, n: int)
    requires forall k: nat :: d <= k <= n ==> (PadStart2(k) in md <==> PadStart2(k) in md')
    requires forall k: nat :: d <= k <= n && PadStart2(k) in md ==> md[PadStart2(k)].status == md'[PadStart2(k)].status
    ensures DayMarks(group, md, d, n) == DayMarks(group, md', d, n)
    decreases n - d
  {
    if d <= n {
      DayMarksOnlyScanDays(group, md, md', d + 1, n);
    }
  }

  /** Every record the scan finds for the employees `emps`, employee by employee. */
  function Marks(session: Option<Session>, emps: seq<Employee>, att: AttendanceMap, month: int, n: int)
    : (ms: seq<Mark>)
    ensures forall i :: 0 <= i < |ms| ==> 1 <= ms[i].day <= n
  {
    if emps == [] then []
    else
      DayMarks(GroupKey(session, emps[0]), MonthOf(att, emps[0].id, month), 1, n) +
      Marks(session, emps[1..], att, month, n)
  }

  // ---------------------------------------------------------------- figures

  /** One point of the daily trend. */
  datatype DayStats = DayStats(day: int, present: nat, late: nat)

  /** The running figures: overall counters, per-group counters in first-seen order, the daily trend. */
  datatype Stats = Stats(totals: Counts, depts: seq<(string, Counts)>, daily: seq<DayStats>)

  predicate HasKey(depts: seq<(string, Counts)>, key: string) {
    exists i :: 0 <= i < |depts| && depts[i].0 == key
  }

  predicate KeysDistinct(depts: seq<(string, Counts)>) {
    forall i, j :: 0 <= i < j < |depts| ==> depts[i].0 != depts[j].0
  }

  /** `if (!deptStats[key]) deptStats[key] = zeros`. */
  function Register(depts: seq<(string, Counts)>, key: string): (r: seq<(string, Counts)>)
    ensures HasKey(r, key)
    ensures forall k :: HasKey(r, k) <==> HasKey(depts, k) || k == key
    ensures KeysDistinct(depts) ==> KeysDistinct(r)
  {
    if HasKey(depts, key) then depts
    else
      var r := depts + [(key, Zero())];
      assert r[|depts|].0 == key;
      assert forall k :: HasKey(r, k) ==> HasKey(depts, k) || k == key by {
        forall k | HasKey(r, k) ensures HasKey(depts, k) || k == key {
          var i :| 0 <= i < |r| && r[i].0 == k;
          if i < |depts| {
            assert depts[i].0 == k;
          }
        }
      }
      assert forall k :: HasKey(depts, k) ==> HasKey(r, k) by {
        forall k | HasKey(depts, k) ensures HasKey(r, k) {
          var i :| 0 <= i < |depts| && depts[i].0 == k;
          assert r[i].0 == k;
        }
      }
      r
  }

  /** Adding `k` to the counters of group `key`. */
  function AddTo(depts: seq<(string, Counts)>, key: string, k: Counts): (r: seq<(string, Counts)>)
    ensures |r| == |depts|
    ensures forall i :: 0 <= i < |r| ==> r[i].0 == depts[i].0
    ensures forall i :: 0 <= i < |r| ==> r[i].1 == if depts[i].0 == key then depts[i].1.Plus(k) else depts[i].1
  {
    seq(|depts|, i requires 0 <= i < |depts| => if depts[i].0 == key then (key, depts[i].1.Plus(k)) else depts[i])
  }

  function Bump(d: DayStats, k: Counts): DayStats {
    DayStats(d.day, d.present + k.present, d.late + k.late)
  }

  /** The figures after one more record. */
  function StepMark(st: Stats, m: Mark): Stats {
    var k := Contribution(m.status);
    Stats(st.totals.Plus(k), AddTo(st.depts, m.group, k),
          if 1 <= m.day <= |st.daily| then st.daily[m.day - 1 := Bump(st.daily[m.day - 1], k)] else st.daily)
  }

  function StepMarks(st: Stats, ms: seq<Mark>): Stats
    decreases |ms|
  {
    if ms == [] then st else StepMarks(StepMark(st, ms[0]), ms[1..])
  }

  /** One iteration of `employees.forEach`: register the group, then scan the days. */
  function StepEmployee(st: Stats, session: Option<Session>, e: Employee, att: AttendanceMap, month: int, n: int): Stats {
    var g := GroupKey(session, e);
    StepMarks(st.(depts := Register(st.depts, g)), DayMarks(g, MonthOf(att, e.id, month), 1, n))
  }

  function StepEmployees(st: Stats, session: Option<Session>, emps: seq<Employee>, att: AttendanceMap, month: int, n: int)
    : Stats
    decreases |emps|
  {
    if emps == [] then st else StepEmployees(StepEmployee(st, session, emps[0], att, month, n), session, emps[1..], att, month, n)
  }

  function InitialStats(n: nat): Stats {
    Stats(Zero(), [], seq(n, i requires 0 <= i < n => DayStats(i + 1, 0, 0)))
  }

  /** `fetchData`: the figures for `month` of `year`. */
  function FetchStats(session: Option<Session>, emps: seq<Employee>, att: AttendanceMap, month: int, year: int): Stats
    requires 1 <= month <= 12
  {
    var n := DaysInMonth(year, month);
    StepEmployees(InitialStats(n), session, Scope(session, emps), att, month, n)
  }

  // ---------------------------------------------------------------- invariant

  function SumDepts(depts: seq<(string, Counts)>): Counts {
    if depts == [] then Zero() else depts[0].1.Plus(SumDepts(depts[1..]))
  }

  function SumPresent(daily: seq<DayStats>): nat {
    if daily == [] then 0 else daily[0].present + SumPresent(daily[1..])
  }

  function SumLate(daily: seq<DayStats>): nat {
    if daily == [] then 0 else daily[0].late + SumLate(daily[1..])
  }

  /** What the scan keeps true: group counters and the daily trend add up to the overall counters. */
  predicate Consistent(st: Stats, n: int) {
    |st.daily| == n &&
    (forall i :: 0 <= i < n ==> st.daily[i].day == i + 1) &&
    KeysDistinct(st.depts) &&
    SumDepts(st.depts) == st.totals &&
    SumPresent(st.daily) == st.totals.present &&
    SumLate(st.daily) == st.totals.late
  }

  lemma {:induction false} SumDeptsAbsent(depts: seq<(string, Counts)>, key: string, k: Counts)
    requires !HasKey(depts, key)
    ensures AddTo(depts, key, k) == depts
  {
  }

  lemma {:induction false} SumDeptsAddTo(depts: seq<(string, Counts)>, key: string, k: Counts)
    requires KeysDistinct(depts) && HasKey(depts, key)
    ensures SumDepts(AddTo(depts, key, k)) == SumDepts(depts).Plus(k)
  {
    var rest := depts[1..];
    AddToTail(depts, key, k);
    KeysTail(depts, key);
    if depts[0].0 == key {
      SumDeptsAbsent(rest, key, k);
      PlusSwap(depts[0].1, k, SumDepts(rest));
    } else {
      SumDeptsAddTo(rest, key, k);
      PlusAssoc(depts[0].1, SumDepts(rest), k);
    }
  }

  /** Behind the first group, the keys stay distinct; the first group's key does not recur, and any other key is still there. */
  lemma KeysTail(depts: seq<(string, Counts)>, key: string)
    requires KeysDistinct(depts) && HasKey(depts, key)
    ensures KeysDistinct(depts[1..])
    ensures depts[0].0 == key ==> !HasKey(depts[1..], key)
    ensures depts[0].0 != key ==> HasKey(depts[1..], key)
  {
    var rest := depts[1..];
    assert forall j :: 0 <= j < |rest| ==> rest[j] == depts[j + 1];
    if depts[0].0 != key {
      var i :| 0 <= i < |depts| && depts[i].0 == key;
      assert rest[i - 1].0 == key;
    }
  }

  /** `AddTo` works one group at a time, from the front. */
  lemma AddToTail(depts: seq<(string, Counts)>, key: string, k: Counts)
    requires depts != []
    ensures SumDepts(AddTo(depts, key, k)) == AddTo(depts, key, k)[0].1.Plus(SumDepts(AddTo(depts[1..], key, k)))
    ensures AddTo(depts, key, k)[0].1 == if depts[0].0 == key then depts[0].1.Plus(k) else depts[0].1
  {
    var r := AddTo(depts, key, k);
    assert r[1..] == AddTo(depts[1..], key, k);
  }

  lemma {:induction false} SumDeptsRegister(depts: seq<(string, Counts)>, key: string)
    ensures SumDepts(Register(depts, key)) == SumDepts(depts)
  {
    if !HasKey(depts, key) {
      SumDeptsSnocZero(depts, key);
    }
  }

  lemma {:induction false} SumDeptsSnocZero(depts: seq<(string, Counts)>, key: string)
    ensures SumDepts(depts + [(key, Zero())]) == SumDepts(depts)
  {
    var one := [(key, Zero())];
    if depts == [] {
      assert depts + one == one;
      assert one[1..] == [];
      PlusZero(Zero());
    } else {
      var d := depts + one;
      assert d[0] == depts[0];
      assert d[1..] == depts[1..] + one;
      SumDeptsSnocZero(depts[1..], key);
      assert SumDepts(d) == d[0].1.Plus(SumDepts(d[1..]));
    }
  }

  lemma {:induction false} SumDailyBump(daily: seq<DayStats>, i: int, k: Counts)
    requires 0 <= i < |daily|
    ensures SumPresent(daily[i := Bump(daily[i], k)]) == SumPresent(daily) + k.present
    ensures SumLate(daily[i := Bump(daily[i], k)]) == SumLate(daily) + k.late
  {
    var d' := daily[i := Bump(daily[i], k)];
    if i == 0 {
      assert d'[1..] == daily[1..];
    } else {
      assert d'[1..] == daily[1..][i - 1 := Bump(daily[i], k)];
      SumDailyBump(daily[1..], i - 1, k);
    }
  }

  /** Adding to one group's counters keeps the set of groups. */
  lemma AddToKeys(depts: seq<(string, Counts)>, g: string, k: Counts)
    ensures forall key :: HasKey(AddTo(depts, g, k), key) <==> HasKey(depts, key)
  {
    var r := AddTo(depts, g, k);
    forall key ensures HasKey(r, key) <==> HasKey(depts, key) {
      if HasKey(r, key) {
        var i :| 0 <= i < |r| && r[i].0 == key;
        assert depts[i].0 == key;
      }
      if HasKey(depts, key) {
        var i :| 0 <= i < |depts| && depts[i].0 == key;
        assert r[i].0 == key;
      }
    }
  }

  lemma StepMarkConsistent(st: Stats, m: Mark, n: int)
    requires Consistent(st, n) && HasKey(st.depts, m.group) && 1 <= m.day <= n
    ensures Consistent(StepMark(st, m), n)
    ensures forall key :: HasKey(StepMark(st, m).depts, key) <==> HasKey(st.depts, key)
  {
    var k := Contribution(m.status);
    SumDeptsAddTo(st.depts, m.group, k);
    SumDailyBump(st.daily, m.day - 1, k);
    AddToKeys(st.depts, m.group, k);
  }

  /** The overall counters after a run of records are the counters before plus the run's counts. */
  lemma {:induction false} StepMarksTotals(st: Stats, ms: seq<Mark>)
    ensures StepMarks(st, ms).totals == st.totals.Plus(MarkCounts(ms))
    decreases |ms|
  {
    if ms != [] {
      var m, rest := ms[0], ms[1..];
      StepMarksTotals(StepMark(st, m), rest);
      assert ms == [m] + rest;
      MarkCountsAppend([m], rest);
      MarkCountsOne(m);
      PlusAssoc(st.totals, Contribution(m.status), MarkCounts(rest));
    } else {
      assert MarkCounts(ms) == Zero();
      PlusZero(st.totals);
    }
  }

  /** A run of records keeps the set of groups. */
  lemma {:induction false} StepMarksKeys(st: Stats, ms: seq<Mark>)
    ensures forall key :: HasKey(StepMarks(st, ms).depts, key) <==> HasKey(st.depts, key)
    decreases |ms|
  {
    if ms != [] {
      var m := ms[0];
      AddToKeys(st.depts, m.group, Contribution(m.status));
      StepMarksKeys(StepMark(st, m), ms[1..]);
    }
  }

  lemma {:induction false} StepMarksConsistent(st: Stats, ms: seq<Mark>, n: int)
    requires Consistent(st, n)
    requires forall i :: 0 <= i < |ms| ==> HasKey(st.depts, ms[i].group) && 1 <= ms[i].day <= n
    ensures Consistent(StepMarks(st, ms), n)
    decreases |ms|
  {
    if ms != [] {
      var m, rest := ms[0], ms[1..];
      var st' := StepMark(st, m);
      StepMarkConsistent(st, m, n);
      assert forall i :: 0 <= i < |rest| ==> rest[i] == ms[i + 1];
      assert forall i :: 0 <= i < |rest| ==> HasKey(st'.depts, rest[i].group) && 1 <= rest[i].day <= n;
      StepMarksConsistent(st', rest, n);
      assert StepMarks(st, ms) == StepMarks(st', rest);
    }
  }

  lemma {:induction false} StepEmployeesConsistent(st: Stats, session: Option<Session>, emps: seq<Employee>,
                                                    att: AttendanceMap, month: int, n: int)
    requires Consistent(st, n)
    ensures Consistent(StepEmployees(st, session, emps, att, month, n), n)
    ensures StepEmployees(st, session, emps, att, month, n).totals == st.totals.Plus(MarkCounts(Marks(session, emps, att, month, n)))
    decreases |emps|
  {
    if emps != [] {
      var e := emps[0];
      var g := GroupKey(session, e);
      var ms := DayMarks(g, MonthOf(att, e.id, month), 1, n);
      var st1 := st.(depts := Register(st.depts, g));
      SumDeptsRegister(st.depts, g);
      assert Consistent(st1, n);
      StepMarksConsistent(st1, ms, n);
      StepMarksTotals(st1, ms);
      var st2 := StepMarks(st1, ms);
      var rest := Marks(session, emps[1..], att, month, n);
      StepEmployeesConsistent(st2, session, emps[1..], att, month, n);
      MarkCountsAppend(ms, rest);
      PlusAssoc(st.totals, MarkCounts(ms), MarkCounts(rest));
    } else {
      assert MarkCounts([]) == Zero();
      PlusZero(st.totals);
    }
  }

  lemma InitialConsistent(n: nat)
    ensures Consistent(InitialStats(n), n)
  {
    var d := InitialStats(n).daily;
    ZeroDaily(d);
  }

  lemma {:induction false} ZeroDaily(d: seq<DayStats>)
    requires forall i :: 0 <= i < |d| ==> d[i].present == 0 && d[i].late == 0
    ensures SumPresent(d) == 0 && SumLate(d) == 0
  {
    if d != [] {
      ZeroDaily(d[1..]);
    }
  }

  /**
   * The figures of `fetchData`: the daily trend has one entry per day of
   * the month, numbered 1..n; the overall counters count the scanned
   * records of each kind; the group counters and the daily trend add up to
   * them; and the summary total counts every scanned record but early leave.
   */
  lemma FetchStatsFacts(session: Option<Session>, emps: seq<Employee>, att: AttendanceMap, month: int, year: int)
    requires 1 <= month <= 12
    ensures var st := FetchStats(session, emps, att, month, year);
            var n := DaysInMonth(year, month);
            var ms := Marks(session, Scope(session, emps), att, month, n);
            |st.daily| == n && (forall i :: 0 <= i < n ==> st.daily[i].day == i + 1) &&
            st.totals == MarkCounts(ms) &&
            SumDepts(st.depts) == st.totals &&
            SumPresent(st.daily) == st.totals.present && SumLate(st.daily) == st.totals.late &&
            Summary(st).total == Count(ms, MarkCounted)
  {
    var n := DaysInMonth(year, month);
    var ms := Marks(session, Scope(session, emps), att, month, n);
    InitialConsistent(n);
    StepEmployeesConsistent(InitialStats(n), session, Scope(session, emps), att, month, n);
    MarkCountsSum(ms);
  }

  // ---------------------------------------------------------------- a User's figures

  /** The scan over employees who all have one id reads only that id's month. */
  lemma {:induction false} MarksOfOneEmployee(session: Option<Session>, emps: seq<Employee>, att: AttendanceMap,
                                              att': AttendanceMap, id: string, month: int, n: int)
    requires forall i :: 0 <= i < |emps| ==> emps[i].id == id
    requires MonthOf(att, id, month) == MonthOf(att', id, month)
    ensures forall st :: StepEmployees(st, session, emps, att, month, n) == StepEmployees(st, session, emps, att', month, n)
    decreases |emps|
  {
    if emps != [] {
      MarksOfOneEmployee(session, emps[1..], att, att', id, month, n);
    }
  }

  /**
   * A User's figures depend only on their own month of attendance: two
   * stores that agree on it give the same figures, whatever else they hold.
   */
  lemma UserSeesOnlyOwnData(session: Option<Session>, emps: seq<Employee>, att: AttendanceMap, att': AttendanceMap,
                            month: int, year: int)
    requires 1 <= month <= 12 && IsUserSession(session)
    requires MonthOf(att, session.value.userId, month) == MonthOf(att', session.value.userId, month)
    ensures FetchStats(session, emps, att, month, year) == FetchStats(session, emps, att', month, year)
  {
    MarksOfOneEmployee(session, Scope(session, emps), att, att', session.value.userId, month, DaysInMonth(year, month));
  }

  // ---------------------------------------------------------------- charts

  datatype SummaryRow = SummaryRow(total: nat, present: nat, late: nat, absent: nat, leave: nat)

  function Summary(st: Stats): (s: SummaryRow)
    ensures s.total == s.present + s.late + s.absent + s.leave
    ensures s.present == st.totals.present && s.late == st.totals.late
    ensures s.absent == st.totals.absent && s.leave == st.totals.leave
  {
    SummaryRow(st.totals.Sum(), st.totals.present, st.totals.late, st.totals.absent, st.totals.leave)
  }

  /**
   * The percentage under the present card: present over total, times 100,
   * rounded to the nearest whole percent; 0 when nothing was counted.
   */
  function PresentShare(s: SummaryRow): (p: int)
    requires s.total == s.present + s.late + s.absent + s.leave
    ensures s.total == 0 ==> p == 0
    ensures 0 <= p <= 100
    ensures s.total > 0 ==> p as real - 0.5 <= s.present as real / s.total as real * 100.0 < p as real + 0.5
  {
    if s.total == 0 then 0 else Round(s.present as real / s.total as real * 100.0)
  }

  datatype Category = PresentSlice | LateSlice | AbsentSlice | LeaveSlice

  function SliceValue(c: Counts, cat: Category): nat {
    match cat
    case PresentSlice => c.present
    case LateSlice => c.late
    case AbsentSlice => c.absent
    case LeaveSlice => c.leave
  }

  /** The pie: the four categories in order, keeping those with a value above 0. */
  function Pie(c: Counts): (pie: seq<(Category, nat)>)
    ensures forall cat :: (cat, SliceValue(c, cat)) in pie <==> SliceValue(c, cat) > 0
    ensures forall i :: 0 <= i < |pie| ==> pie[i].1 == SliceValue(c, pie[i].0) && pie[i].1 > 0
    ensures forall i, j :: 0 <= i < j < |pie| ==> pie[i].0 != pie[j].0
  {
    var all := [(PresentSlice, c.present), (LateSlice, c.late), (AbsentSlice, c.absent), (LeaveSlice, c.leave)];
    assert forall cat :: (cat, SliceValue(c, cat)) in all;
    KeepPositive(all)
  }

  /** No category appears twice. */
  predicate DistinctKeys(xs: seq<(Category, nat)>) {
    forall i, j :: 0 <= i < j < |xs| ==> xs[i].0 != xs[j].0
  }

  /** The slices of `xs` with a value above 0, in order. */
  function KeepPositive(xs: seq<(Category, nat)>): (r: seq<(Category, nat)>)
    requires DistinctKeys(xs)
    ensures forall e :: e in r <==> e in xs && e.1 > 0
    ensures DistinctKeys(r)
    ensures |r| <= |xs|
  {
    if xs == [] then []
    else
      var rest := KeepPositive(xs[1..]);
      HeadKeyFresh(xs, rest);
      assert xs == [xs[0]] + xs[1..];
      (if xs[0].1 > 0 then [xs[0]] else []) + rest
  }

  /**
   * With distinct keys, the head's category is in no slice drawn from the
   * tail, so putting the head in front keeps the keys distinct.
   */
  lemma HeadKeyFresh(xs: seq<(Category, nat)>, rest: seq<(Category, nat)>)
    requires DistinctKeys(xs) && |xs| > 0 && DistinctKeys(rest)
    requires forall e :: e in rest ==> e in xs[1..]
    ensures DistinctKeys([xs[0]] + rest)
  {
    forall e | e in rest ensures e.0 != xs[0].0 {
      var j :| 0 <= j < |xs[1..]| && xs[1..][j] == e;
      assert xs[j + 1] == e;
    }
    var r := [xs[0]] + rest;
    forall i, j | 0 <= i < j < |r| ensures r[i].0 != r[j].0 {
      if i == 0 {
        assert r[j] == rest[j - 1];
        assert rest[j - 1] in rest;
      } else {
        assert r[i] == rest[i - 1] && r[j] == rest[j - 1];
      }
    }
  }

  /** One bar per group, in first-seen order: present, late and absent (leave is not drawn). */
  function Bars(depts: seq<(string, Counts)>): (bars: seq<(string, nat, nat, nat)>)
    ensures |bars| == |depts|
    ensures forall i :: 0 <= i < |bars| ==>
              bars[i] == (depts[i].0, depts[i].1.present, depts[i].1.late, depts[i].1.absent)
  {
    seq(|depts|, i requires 0 <= i < |depts| => (depts[i].0, depts[i].1.present, depts[i].1.late, depts[i].1.absent))
  }

  /** The column totals of the bars: present, late and absent. */
  function BarSums(bars: seq<(string, nat, nat, nat)>): (nat, nat, nat) {
    if bars == [] then (0, 0, 0)
    else
      var rest := BarSums(bars[1..]);
      (bars[0].1 + rest.0, bars[0].2 + rest.1, bars[0].3 + rest.2)
  }

  /** The bars' columns add up to the present, late and absent counters summed over the groups. */
  lemma {:induction false} BarSumsOfDepts(depts: seq<(string, Counts)>)
    ensures BarSums(Bars(depts)) == (SumDepts(depts).present, SumDepts(depts).late, SumDepts(depts).absent)
  {
    if depts != [] {
      assert Bars(depts)[1..] == Bars(depts[1..]);
      BarSumsOfDepts(depts[1..]);
    }
  }

  /**
   * The department bars agree with the summary: their present, late and
   * absent columns add up to the summary's present, late and absent.
   */
  lemma BarsMatchSummary(session: Option<Session>, emps: seq<Employee>, att: AttendanceMap, month: int, year: int)
    requires 1 <= month <= 12
    ensures var st := FetchStats(session, emps, att, month, year);
            var s := Summary(st);
            BarSums(Bars(st.depts)) == (s.present, s.late, s.absent)
  {
    FetchStatsFacts(session, emps, att, month, year);
    BarSumsOfDepts(FetchStats(session, emps, att, month, year).depts);
  }
}
