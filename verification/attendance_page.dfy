/**
 * The attendance calendar of one employee for one month: who is shown,
 * what the day editor starts with, what choosing a status saves, and the
 * work-day and overtime totals under the calendar.
 */
module AttendancePage {
  import opened Wrappers
  import opened Types
  import opened Text
  import opened Calendar
  import opened Store
  import opened Tally

  // ---------------------------------------------------------------- employee shown

  /** `employees.find(e => e.id === id)`: the first employee with that id. */
  function FindEmployee(emps: seq<Employee>, id: string): (r: Option<Employee>)
    ensures r.None? <==> forall i :: 0 <= i < |emps| ==> emps[i].id != id
    ensures r.Some? ==> r.value.id == id && r.value in emps
  {
    if emps == [] then None
    else if emps[0].id == id then Some(emps[0])
    else FindEmployee(emps[1..], id)
  }

  /**
   * The employee selected after loading: for a User their own entry, or the
   * first employee when they are not listed; for an Admin the first
   * employee. `None` leaves the selection empty.
   */
  function InitialSelection(session: Session, emps: seq<Employee>): (r: Option<string>)
    ensures emps == [] ==> r.None?
    ensures session.role == User && (exists i :: 0 <= i < |emps| && emps[i].id == session.userId) ==>
              r == Some(session.userId)
    ensures session.role == User && (forall i :: 0 <= i < |emps| ==> emps[i].id != session.userId) && emps != [] ==>
              r == Some(emps[0].id)
    ensures session.role == Admin && emps != [] ==> r == Some(emps[0].id)
  {
    match session.role
    case User =>
      (match FindEmployee(emps, session.userId)
       case Some(me) => Some(me.id)
       case None => if emps == [] then None else Some(emps[0].id))
    case Admin => if emps == [] then None else Some(emps[0].id)
  }

  // ---------------------------------------------------------------- day editor

  /**
   * The text of a number input. `Shown(n)` is `String(n)` of a number the
   * page wrote there, which `parseFloat` reads back as `n`; `Typed(t)` is
   * any other text.
   */
  datatype FieldText = Typed(text: string) | Shown(n: real)

  function ReadField(f: FieldText): Number {
    match f
    case Typed(t) => ParseFloat(t)
    case Shown(n) => Finite(n)
  }

  /** The open day editor: the date and its overtime and multiplier inputs. */
  datatype Editor = Editor(date: Date, overtime: FieldText, multiplier: FieldText)

  /**
   * `handleDateClick(day)`. A User's click does nothing. Otherwise the
   * editor opens on the day with the day's overtime and multiplier (1.5 if
   * none), or, when the day has no overtime, an empty overtime and the
   * suggested multiplier: "2.0" on a Sunday, "1.5" on any other day.
   */
  function DateClick(role: Role, md: MonthData, date: Date): (r: Option<Editor>)
    requires ValidDate(date)
    ensures role == User <==> r.None?
    ensures r.Some? ==> r.value.date == date
    ensures r.Some? && PadStart2(date.day) in md && Truthy(md[PadStart2(date.day)].overtimeHours) ==>
              ReadField(r.value.overtime) == Finite(md[PadStart2(date.day)].overtimeHours.value)
    ensures r.Some? && !(PadStart2(date.day) in md && Truthy(md[PadStart2(date.day)].overtimeHours)) ==>
              r.value.overtime == Typed("")
  {
    if role == User then None
    else
      var day := PadStart2(date.day);
      if day in md && Truthy(md[day].overtimeHours) then
        var rec := md[day];
        Some(Editor(date, Shown(rec.overtimeHours.value), Shown(OrElse(rec.overtimeMultiplier, 1.5))))
      else
        Some(Editor(date, Typed(""), Typed(if Weekday(date) == 0 then "2.0" else "1.5")))
  }

  lemma SuggestedMultiplierTexts()
    ensures ParseFloat("2.0") == Finite(2.0)
    ensures ParseFloat("1.5") == Finite(1.5)
  {
    ParseFloatOneDecimal(2, 0);
    ParseFloatOneDecimal(1, 5);
    assert [DigitChar(2), '.', DigitChar(0)] == "2.0";
    assert [DigitChar(1), '.', DigitChar(5)] == "1.5";
  }

  /**
   * The multiplier the editor suggests for a day without overtime reads as
   * 2.0 on a Sunday and 1.5 on every other day; for a day with overtime it
   * is the stored multiplier, or 1.5 when that is unset or zero.
   */
  lemma EditorMultiplier(md: MonthData, date: Date)
    requires ValidDate(date)
    ensures var day := PadStart2(date.day);
            var mult := ReadField(DateClick(Admin, md, date).value.multiplier);
            if day in md && Truthy(md[day].overtimeHours) then mult == Finite(OrElse(md[day].overtimeMultiplier, 1.5))
            else mult == Finite(if Weekday(date) == 0 then 2.0 else 1.5)
  {
    SuggestedMultiplierTexts();
  }

  /**
   * `handleStatusSelect`: choosing "clear" (`None`) saves no record, which
   * deletes the day; choosing a status saves that status and the time, and
   * the overtime hours with the multiplier only when the hours read as a
   * number above 0. The record defines no other property, so no other
   * column is sent. Without a date or an employee nothing is saved.
   */
  function StatusSelect(choice: Option<Status>, editor: Option<Editor>, employeeId: string, timestamp: string)
    : (w: Option<Write>)
    requires editor.Some? ==> ValidDate(editor.value.date)
    ensures w.Some? <==> editor.Some? && employeeId != ""
    ensures w.Some? ==> (w.value.Delete? <==> choice.None?)
    ensures w.Some? && w.value.Delete? ==> w.value.key == DateKey(employeeId, editor.value.date)
    ensures w.Some? && w.value.Upsert? ==>
              var p := w.value.payload;
              p.key == DateKey(employeeId, editor.value.date) &&
              p.record.status == choice.value && p.record.timestamp == timestamp &&
              (ReadField(editor.value.overtime).Above(0.0) ==> p.sent == OvertimeFields()) &&
              (!ReadField(editor.value.overtime).Above(0.0) ==> p.sent == {}) &&
              (p.sent != {} ==> p.record.overtimeHours.Some? && p.record.overtimeHours.value > 0.0 &&
                                p.record.overtimeMultiplier == FieldOf(ReadField(editor.value.multiplier))) &&
              (forall f :: f !in p.sent ==> IsNull(Get(p.record, f)))
  {
    if editor.None? || employeeId == "" then None
    else
      var e := editor.value;
      var ot := ReadField(e.overtime);
      var record :=
        match choice
        case None => None
        case Some(status) =>
          if ot.Above(0.0) then Some(Bare(status, timestamp).(overtimeHours := Some(ot.value),
                                                               overtimeMultiplier := FieldOf(ReadField(e.multiplier))))
          else Some(Bare(status, timestamp));
      Some(SaveAttendance(employeeId, e.date.month, PadStart2(e.date.day), record,
                          if ot.Above(0.0) then OvertimeFields() else {}))
  }

  /** Clearing a day and reading the table back leaves that day without a record. */
  lemma ClearThenRead(t: seq<Row>, editor: Editor, employeeId: string, timestamp: string)
    requires ValidDate(editor.date) && employeeId != ""
    ensures Lookup(FoldRows(Apply(t, StatusSelect(None, Some(editor), employeeId, timestamp).value)),
                   DateKey(employeeId, editor.date)) == None
  {
    SaveThenRead(t, employeeId, editor.date.month, PadStart2(editor.date.day), None, {},
                 DateKey(employeeId, editor.date));
  }

  /**
   * Re-marking a recorded day without typing overtime changes only its
   * status and time: the day keeps its overtime, check-out time, position,
   * device and distance, and these still count in the month totals.
   */
  lemma RemarkKeepsColumns(t: seq<Row>, status: Status, editor: Editor, employeeId: string, timestamp: string)
    requires ValidDate(editor.date) && employeeId != "" && !ReadField(editor.overtime).Above(0.0)
    requires Lookup(FoldRows(t), DateKey(employeeId, editor.date)).Some?
    ensures var k := DateKey(employeeId, editor.date);
            Lookup(FoldRows(Apply(t, StatusSelect(Some(status), Some(editor), employeeId, timestamp).value)), k) ==
            Some(Lookup(FoldRows(t), k).value.(status := status, timestamp := timestamp))
  {
    var k := DateKey(employeeId, editor.date);
    var before := Lookup(FoldRows(t), k).value;
    var w := StatusSelect(Some(status), Some(editor), employeeId, timestamp).value;
    ApplyLookup(t, w, k);
    var now := Stored(Some(before), w.payload);
    RecordsEqual(now, before.(status := status, timestamp := timestamp));
  }

  // ---------------------------------------------------------------- totals

  predicate IsPresent(r: Record) { r.status == Present }
  predicate IsHalfday(r: Record) { r.status == Halfday }
  predicate IsLateDay(r: Record) { r.status == Late }

  /** What one record adds to the overtime total: hours times multiplier (1 when unset), if it has hours. */
  function OvertimeWeight(r: Record): real {
    if Truthy(r.overtimeHours) then r.overtimeHours.value * OrElse(r.overtimeMultiplier, 1.0) else 0.0
  }

  /**
   * The `forEach` under the calendar: a present or late day counts 1, a
   * half day 0.5, every other status 0; overtime adds hours times
   * multiplier.
   */
  method MonthTotals(recs: seq<Record>) returns (workDays: real, overtimeTotal: real)
    ensures workDays == Count(recs, IsPresent) as real + 0.5 * Count(recs, IsHalfday) as real +
                        Count(recs, IsLateDay) as real
    ensures overtimeTotal == Total(recs, OvertimeWeight)
  {
    workDays, overtimeTotal := 0.0, 0.0;
    ghost var present, halfdays, late := 0, 0, 0;
    var i := 0;
    while i < |recs|
      invariant 0 <= i <= |recs|
      invariant present == Count(recs[..i], IsPresent) && halfdays == Count(recs[..i], IsHalfday) &&
                late == Count(recs[..i], IsLateDay)
      invariant workDays == present as real + 0.5 * halfdays as real + late as real
      invariant overtimeTotal == Total(recs[..i], OvertimeWeight)
    {
      var rec := recs[i];
      assert recs[..i + 1] == recs[..i] + [rec];
      MonthTotalsStep(recs[..i], rec);
      if rec.status == Present {
        workDays, present := workDays + 1.0, present + 1;
      }
      if rec.status == Halfday {
        workDays, halfdays := workDays + 0.5, halfdays + 1;
      }
      if rec.status == Late {
        workDays, late := workDays + 1.0, late + 1;
      }
      if Truthy(rec.overtimeHours) {
        overtimeTotal := overtimeTotal + rec.overtimeHours.value * OrElse(rec.overtimeMultiplier, 1.0);
      }
      i := i + 1;
    }
    assert recs[..i] == recs;
  }

  /** One more record adds its own share to each count and to the overtime total. */
  lemma MonthTotalsStep(p: seq<Record>, rec: Record)
    ensures Count(p + [rec], IsPresent) == Count(p, IsPresent) + (if rec.status == Present then 1 else 0)
    ensures Count(p + [rec], IsHalfday) == Count(p, IsHalfday) + (if rec.status == Halfday then 1 else 0)
    ensures Count(p + [rec], IsLateDay) == Count(p, IsLateDay) + (if rec.status == Late then 1 else 0)
    ensures Total(p + [rec], OvertimeWeight) == Total(p, OvertimeWeight) + OvertimeWeight(rec)
  {
    CountAppend(p, [rec], IsPresent);
    CountAppend(p, [rec], IsHalfday);
    CountAppend(p, [rec], IsLateDay);
    TotalAppend(p, [rec], OvertimeWeight);
    assert [rec][1..] == [];
  }

  /** The work days never exceed the number of recorded days. */
  lemma {:induction false} WorkDaysBound(recs: seq<Record>)
    ensures Count(recs, IsPresent) + Count(recs, IsHalfday) + Count(recs, IsLateDay) <= |recs|
  {
    if recs != [] {
      WorkDaysBound(recs[1..]);
    }
  }

  /** The totals do not depend on the order the month's records are visited in. */
  lemma MonthTotalsOrderFree(md: MonthData, k1: seq<string>, k2: seq<string>)
    requires Enumerates(md, k1) && Enumerates(md, k2)
    ensures Count(ValuesOf(md, k1), IsPresent) == Count(ValuesOf(md, k2), IsPresent)
    ensures Count(ValuesOf(md, k1), IsHalfday) == Count(ValuesOf(md, k2), IsHalfday)
    ensures Count(ValuesOf(md, k1), IsLateDay) == Count(ValuesOf(md, k2), IsLateDay)
    ensures Total(ValuesOf(md, k1), OvertimeWeight) == Total(ValuesOf(md, k2), OvertimeWeight)
  {
    CountOverValues(md, k1, k2, IsPresent);
    CountOverValues(md, k1, k2, IsHalfday);
    CountOverValues(md, k1, k2, IsLateDay);
    TotalOverValues(md, k1, k2, OvertimeWeight);
  }

  // ---------------------------------------------------------------- calendar grid

  /** Blank cells before day 1 in a Monday-first grid. */
  function StartingEmptyCells(year: int, month: int): (n: int)
    requires 1 <= month <= 12
    ensures 0 <= n < 7
    ensures n == 0 <==> Weekday(Date(year, month, 1)) == 1
  {
    LeadingEmptyCells(Weekday(Date(year, month, 1)))
  }
}
