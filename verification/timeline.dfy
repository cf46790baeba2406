/**
 * The month timeline: one row per employee and one column per day, with a
 * work-day total per row, and the spreadsheet export of the same grid.
 *
 * The timeline's own rules differ from the attendance calendar's: a late
 * day contributes nothing to the row's work days, and the export's
 * overtime column adds raw hours without any multiplier.
 */
module Timeline {
  import opened Wrappers
  import opened Types
  import opened Text
  import opened Calendar
  import opened Store
  import opened Tally

  // ---------------------------------------------------------------- rows shown

  /** The department choice that keeps everyone. */
  const AllDepartments: string := "All"

  /** `filteredEmployees`: "All" keeps every employee, any other choice those of that department, in order. */
  function DeptFilter(emps: seq<Employee>, dept: string): (r: seq<Employee>)
    ensures dept == AllDepartments ==> r == emps
    ensures dept != AllDepartments ==> forall e :: e in r <==> e in emps && e.department == dept
    ensures |r| <= |emps|
  {
    if dept == AllDepartments then emps else OfDepartment(emps, dept)
  }

  function OfDepartment(emps: seq<Employee>, dept: string): (r: seq<Employee>)
    ensures forall e :: e in r <==> e in emps && e.department == dept
    ensures |r| <= |emps|
  {
    if emps == [] then []
    else
      assert emps == [emps[0]] + emps[1..];
      (if emps[0].department == dept then [emps[0]] else []) + OfDepartment(emps[1..], dept)
  }

  /** The rows of the timeline: the role filter applied at load time, then the department filter. */
  function Roster(session: Option<Session>, emps: seq<Employee>, dept: string): (r: seq<Employee>)
    ensures IsUserSession(session) ==> forall i :: 0 <= i < |r| ==> r[i].id == session.value.userId
    ensures forall e :: e in r ==> e in emps
    ensures !IsUserSession(session) && dept == AllDepartments ==> r == emps
  {
    DeptFilter(Scope(session, emps), dept)
  }

  // ---------------------------------------------------------------- day columns

  /** The records of days d..n of a month, in day order (days without a record are skipped). */
  function DayRecords(md: MonthData, d: nat, n: int): (recs: seq<Record>)
    ensures |recs| <= if d <= n then n - d + 1 else 0
    decreases n - d
  {
    if d > n then []
    else (if PadStart2(d) in md then [md[PadStart2(d)]] else []) + DayRecords(md, d + 1, n)
  }

  predicate IsPresent(r: Record) { r.status == Present }
  predicate IsHalfday(r: Record) { r.status == Halfday }

  /** The work days of one row: 1 per present day, 0.5 per half day, nothing for any other status. */
  function WorkDays(recs: seq<Record>): real {
    Count(recs, IsPresent) as real + 0.5 * Count(recs, IsHalfday) as real
  }

  /** Raw overtime hours of a record that has some; the multiplier is not applied. */
  function RawOvertime(r: Record): real {
    if Truthy(r.overtimeHours) then r.overtimeHours.value else 0.0
  }

  /** What day `d` adds to the row's work total: the running sum the grid keeps while drawing the row. */
  function DayWork(md: MonthData, d: nat): real {
    var day := PadStart2(d);
    if day in md && md[day].status == Present then 1.0
    else if day in md && md[day].status == Halfday then 0.5
    else 0.0
  }

  /** The work total the grid shows at the end of the row: the day contributions of days d..n. */
  function GridWork(md: MonthData, d: nat, n: int): real
    decreases n - d
  {
    if d > n then 0.0 else DayWork(md, d) + GridWork(md, d + 1, n)
  }

  /** The grid's running total is the work days of the row's records. */
  lemma {:induction false} GridWorkIsWorkDays(md: MonthData, d: nat, n: int)
    ensures GridWork(md, d, n) == WorkDays(DayRecords(md, d, n))
    decreases n - d
  {
    if d <= n {
      GridWorkIsWorkDays(md, d + 1, n);
      var here := if PadStart2(d) in md then [md[PadStart2(d)]] else [];
      CountAppend(here, DayRecords(md, d + 1, n), IsPresent);
      CountAppend(here, DayRecords(md, d + 1, n), IsHalfday);
      if here != [] {
        assert here[1..] == [];
      }
    }
  }

  /** A row's work total lies between 0 and the number of days scanned; late days never raise it. */
  lemma {:induction false} GridWorkBounds(md: MonthData, d: nat, n: int)
    ensures 0.0 <= GridWork(md, d, n)
    ensures d <= n ==> GridWork(md, d, n) <= (n - d + 1) as real
    decreases n - d
  {
    if d <= n {
      GridWorkBounds(md, d + 1, n);
    }
  }

  /** Changing a day's status from late to absent, or back, leaves the row total unchanged. */
  lemma {:induction false} LateCountsNothing(md: MonthData, key: string, r: Record, d: nat, n: int)
    requires r.status == Late
    ensures GridWork(md[key := r], d, n) == GridWork(md[key := r.(status := Absent)], d, n)
    decreases n - d
  {
    if d <= n {
      LateCountsNothing(md, key, r, d + 1, n);
    }
  }

  // ---------------------------------------------------------------- weekend columns

  /** The weekday caption over a day column, Sunday first. */
  function DayCaption(weekday: int): string
    requires 0 <= weekday < 7
  {
    ["CN", "T2", "T3", "T4", "T5", "T6", "T7"][weekday]
  }

  /** A column is shaded as weekend when its day is a Sunday or a Saturday. */
  predicate IsWeekend(date: Date)
    requires 1 <= date.month <= 12
  {
    Weekday(date) == 0 || Weekday(date) == 6
  }

  /** Shaded columns are exactly those captioned Sunday ("CN") or Saturday ("T7"). */
  lemma WeekendIffCaption(date: Date)
    requires 1 <= date.month <= 12
    ensures IsWeekend(date) <==> DayCaption(Weekday(date)) in {"CN", "T7"}
  {
  }

  // ---------------------------------------------------------------- month navigation

  /**
   * `changeMonth(offset)`: the first of the month `offset` months away,
   * with the month index carried into the year as the date constructor
   * does.
   */
  function ShiftMonth(year: int, month: int, offset: int): (r: (int, int))
    requires 1 <= month <= 12
    ensures 1 <= r.1 <= 12
    ensures r.0 * 12 + (r.1 - 1) == year * 12 + (month - 1) + offset
  {
    var index := year * 12 + (month - 1) + offset;
    (index / 12, index % 12 + 1)
  }

  /** Going forward and then back by the same number of months returns to the month shown. */
  lemma ShiftMonthBack(year: int, month: int, offset: int)
    requires 1 <= month <= 12
    ensures var (y, m) := ShiftMonth(year, month, offset); ShiftMonth(y, m, -offset) == (year, month)
  {
    var (y, m) := ShiftMonth(year, month, offset);
    var (y', m') := ShiftMonth(y, m, -offset);
    assert y' * 12 + (m' - 1) == year * 12 + (month - 1);
    MonthIndexUnique(y', m', year, month);
  }

  lemma MonthIndexUnique(y: int, m: int, y': int, m': int)
    requires 1 <= m <= 12 && 1 <= m' <= 12
    requires y * 12 + (m - 1) == y' * 12 + (m' - 1)
    ensures y == y' && m == m'
  {
  }

  // ---------------------------------------------------------------- export

  /** A spreadsheet cell. */
  datatype SheetCell = TextCell(text: string) | NumberCell(value: real)

  /** The export header: code, name, department, the day numbers 1..n, then the two totals. */
  function Header(n: nat): (h: seq<SheetCell>)
    ensures |h| == 3 + n + 2
    ensures h[0] == TextCell("Mã NV") && h[1] == TextCell("Tên NV") && h[2] == TextCell("Phòng ban")
    ensures forall i :: 1 <= i <= n ==> h[2 + i] == TextCell(NatToString(i))
    ensures h[3 + n] == TextCell("Tổng công") && h[4 + n] == TextCell("Tăng ca")
  {
    [TextCell("Mã NV"), TextCell("Tên NV"), TextCell("Phòng ban")] +
    seq(n, i requires 0 <= i < n => TextCell(NatToString(i + 1))) +
    [TextCell("Tổng công"), TextCell("Tăng ca")]
  }

  /** The export cell of day `d`: the status's short label when the day has a record, otherwise empty. */
  function DayCell(md: MonthData, d: nat): SheetCell {
    var day := PadStart2(d);
    if day in md then TextCell(ShortLabel(md[day].status)) else TextCell("")
  }

  /** `row` is the export line of employee `e` whose month is `md`, in a month of `n` days. */
  predicate ExportedRow(e: Employee, md: MonthData, n: nat, row: seq<SheetCell>) {
    |row| == 3 + n + 2 &&
    row[0] == TextCell(e.code) && row[1] == TextCell(e.name) && row[2] == TextCell(e.department) &&
    (forall i :: 1 <= i <= n ==> row[2 + i] == DayCell(md, i)) &&
    row[3 + n] == NumberCell(WorkDays(DayRecords(md, 1, n))) &&
    row[4 + n] == NumberCell(Total(DayRecords(md, 1, n), RawOvertime))
  }

  /** `row` is the export line of employee `e` for `month` of the attendance map. */
  predicate ExportedLine(e: Employee, att: AttendanceMap, month: int, n: nat, row: seq<SheetCell>) {
    ExportedRow(e, MonthOf(att, e.id, month), n, row)
  }

  /**
   * One employee's export row, built day by day as the export loop does:
   * code, name, department, one cell per day, the work total and the raw
   * overtime total.
   */
  method ExportRow(e: Employee, md: MonthData, n: nat) returns (row: seq<SheetCell>)
    ensures ExportedRow(e, md, n, row)
  {
    var cells, totalWork, totalOt := DayColumns(md, n);
    var head := [TextCell(e.code), TextCell(e.name), TextCell(e.department)];
    row := head + cells + [NumberCell(totalWork), NumberCell(totalOt)];
    assert forall i :: 0 <= i < n ==> row[3 + i] == cells[i];
  }

  /** The day cells of one export row, and the work and raw overtime totals gathered on the way. */
  method DayColumns(md: MonthData, n: nat) returns (cells: seq<SheetCell>, totalWork: real, totalOt: real)
    ensures |cells| == n
    ensures forall i :: 1 <= i <= n ==> cells[i - 1] == DayCell(md, i)
    ensures totalWork == WorkDays(DayRecords(md, 1, n))
    ensures totalOt == Total(DayRecords(md, 1, n), RawOvertime)
  {
    cells := [];
    totalWork, totalOt := 0.0, 0.0;
    ghost var seen: seq<Record> := [];
    var i := 1;
    while i <= n
      invariant 1 <= i <= n + 1
      invariant |cells| == i - 1
      invariant forall j :: 1 <= j < i ==> cells[j - 1] == DayCell(md, j)
      invariant seen + DayRecords(md, i, n) == DayRecords(md, 1, n)
      invariant totalWork == WorkDays(seen)
      invariant totalOt == Total(seen, RawOvertime)
    {
      var day := PadStart2(i);
      var cell := TextCell("");
      if day in md {
        var rec := md[day];
        cell := TextCell(ShortLabel(rec.status));
        SeenStep(md, seen, i, n);
        if rec.status == Present {
          totalWork := totalWork + 1.0;
        }
        if rec.status == Halfday {
          totalWork := totalWork + 0.5;
        }
        if Truthy(rec.overtimeHours) {
          totalOt := totalOt + rec.overtimeHours.value;
        }
        seen := seen + [rec];
      } else {
        assert DayRecords(md, i, n) == DayRecords(md, i + 1, n);
      }
      assert cell == DayCell(md, i);
      AppendCell(cells, cell, md, i);
      cells := cells + [cell];
      i := i + 1;
    }
    assert seen == DayRecords(md, 1, n);
  }

  /** Appending the cell of day i extends the day-by-day correspondence by one day. */
  lemma AppendCell(cells: seq<SheetCell>, cell: SheetCell, md: MonthData, i: nat)
    requires |cells| == i - 1 && cell == DayCell(md, i)
    requires forall j :: 1 <= j < i ==> cells[j - 1] == DayCell(md, j)
    ensures forall j :: 1 <= j <= i ==> (cells + [cell])[j - 1] == DayCell(md, j)
  {
  }

  /** One day with a record moves that record from the days still to scan to the days seen. */
  lemma SeenStep(md: MonthData, seen: seq<Record>, i: nat, n: int)
    requires i <= n && PadStart2(i) in md
    ensures var rec := md[PadStart2(i)];
            seen + [rec] + DayRecords(md, i + 1, n) == seen + DayRecords(md, i, n) &&
            WorkDays(seen + [rec]) == WorkDays(seen) + (if rec.status == Present then 1.0 else 0.0) +
                                      (if rec.status == Halfday then 0.5 else 0.0) &&
            Total(seen + [rec], RawOvertime) == Total(seen, RawOvertime) + RawOvertime(rec)
  {
    var rec := md[PadStart2(i)];
    var rest := DayRecords(md, i + 1, n);
    assert DayRecords(md, i, n) == [rec] + rest;
    assert seen + [rec] + rest == seen + ([rec] + rest);
    WorkDaysSnoc(seen, rec);
    TotalSnoc(seen, rec);
  }

  lemma WorkDaysSnoc(seen: seq<Record>, rec: Record)
    ensures WorkDays(seen + [rec]) == WorkDays(seen) + (if rec.status == Present then 1.0 else 0.0) +
                                      (if rec.status == Halfday then 0.5 else 0.0)
  {
    CountAppend(seen, [rec], IsPresent);
    CountAppend(seen, [rec], IsHalfday);
    assert [rec][1..] == [];
  }

  lemma TotalSnoc(seen: seq<Record>, rec: Record)
    ensures Total(seen + [rec], RawOvertime) == Total(seen, RawOvertime) + RawOvertime(rec)
  {
    TotalAppend(seen, [rec], RawOvertime);
    assert [rec][1..] == [];
  }

  /** An empty export cell means exactly that the day has no record: no short label is empty. */
  lemma ShortLabelNotEmpty(md: MonthData, d: nat)
    ensures DayCell(md, d) == TextCell("") <==> PadStart2(d) !in md
  {
    if PadStart2(d) in md {
      var s := md[PadStart2(d)].status;
      assert |ShortLabel(s)| == 1;
    }
  }

  /** The export's work column equals the total the timeline grid shows for the same row. */
  lemma ExportMatchesGrid(md: MonthData, n: nat)
    ensures WorkDays(DayRecords(md, 1, n)) == GridWork(md, 1, n)
  {
    GridWorkIsWorkDays(md, 1, n);
  }


  /** Appending the line of employee k keeps every line below the header the line of its employee. */
  lemma ExtendLines(rows: seq<Employee>, att: AttendanceMap, month: int, n: nat, sheet: seq<seq<SheetCell>>,
                    row: seq<SheetCell>, k: nat)
    requires k < |rows| && |sheet| == k + 1 && ExportedLine(rows[k], att, month, n, row)
    requires forall i :: 1 <= i <= k ==> ExportedLine(rows[i - 1], att, month, n, sheet[i])
    ensures forall i :: 1 <= i <= k + 1 ==> ExportedLine(rows[i - 1], att, month, n, (sheet + [row])[i])
  {
    var next := sheet + [row];
    forall i | 1 <= i <= k + 1 ensures ExportedLine(rows[i - 1], att, month, n, next[i]) {
      if i <= k {
        assert next[i] == sheet[i];
      }
    }
  }

  /**
   * The export sheet: the header, then one line per employee shown, each
   * with that employee's day cells and totals for the month.
   */
  method Export(rows: seq<Employee>, att: AttendanceMap, month: int, year: int) returns (sheet: seq<seq<SheetCell>>)
    requires 1 <= month <= 12
    ensures |sheet| == |rows| + 1
    ensures sheet[0] == Header(DaysInMonth(year, month))
    ensures forall i :: 1 <= i < |sheet| ==> ExportedLine(rows[i - 1], att, month, DaysInMonth(year, month), sheet[i])
  {
    var n := DaysInMonth(year, month);
    var header := Header(n);
    sheet := [header];
    var k := 0;
    while k < |rows|
      invariant 0 <= k <= |rows|
      invariant |sheet| == k + 1 && sheet[0] == header
      invariant forall i :: 1 <= i <= k ==> ExportedLine(rows[i - 1], att, month, n, sheet[i])
    {
      var row := ExportRow(rows[k], MonthOf(att, rows[k].id, month), n);
      assert ExportedLine(rows[k], att, month, n, row);
      ExtendLines(rows, att, month, n, sheet, row, k);
      sheet := sheet + [row];
      k := k + 1;
    }
  }
}
