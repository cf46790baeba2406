/**
 * The Gregorian calendar facts the pages take from JavaScript `Date`:
 * month lengths (`new Date(y, m, 0).getDate()`), the weekday
 * (`getDay()`, 0 = Sunday) and stepping one day forward or back.
 */
module Calendar {

  predicate IsLeap(y: int) {
    y % 4 == 0 && (y % 100 != 0 || y % 400 == 0)
  }

  /** The number of days of month `m` (1-based) in year `y`. */
  function DaysInMonth(y: int, m: int): int
    requires 1 <= m <= 12
  {
    if m == 2 then (if IsLeap(y) then 29 else 28)
    else if m == 4 || m == 6 || m == 9 || m == 11 then 30
    else 31
  }

  /** A calendar date with a 1-based month. */
  datatype Date = Date(year: int, month: int, day: int)

  predicate ValidDate(d: Date) {
    1 <= d.month <= 12 && 1 <= d.day <= DaysInMonth(d.year, d.month)
  }

  function MonthTerm(m: int): int
    requires 1 <= m <= 12
  {
    [0, 3, 2, 5, 0, 3, 5, 1, 4, 6, 2, 4][m - 1]
  }

  /** Days contributed by the years before `y`, modulo the week. */
  function YearShift(y: int): int {
    y + y / 4 - y / 100 + y / 400
  }

  /** A count of days since a fixed origin, congruent to the weekday modulo 7. */
  function DayIndex(d: Date): int
    requires 1 <= d.month <= 12
  {
    var y := if d.month < 3 then d.year - 1 else d.year;
    YearShift(y) + MonthTerm(d.month) + d.day
  }

  /** `getDay()` of a date: 0 is Sunday, 6 is Saturday. */
  function Weekday(d: Date): (w: int)
    requires 1 <= d.month <= 12
    ensures 0 <= w < 7
  {
    DayIndex(d) % 7
  }

  /** The date after `d`. */
  function NextDay(d: Date): (r: Date)
    requires ValidDate(d)
    ensures ValidDate(r)
  {
    if d.day < DaysInMonth(d.year, d.month) then Date(d.year, d.month, d.day + 1)
    else if d.month < 12 then Date(d.year, d.month + 1, 1)
    else Date(d.year + 1, 1, 1)
  }

  /** The date before `d`. */
  function PrevDay(d: Date): (r: Date)
    requires ValidDate(d)
    ensures ValidDate(r)
  {
    if d.day > 1 then Date(d.year, d.month, d.day - 1)
    else if d.month > 1 then Date(d.year, d.month - 1, DaysInMonth(d.year, d.month - 1))
    else Date(d.year - 1, 12, 31)
  }

  /**
   * `new Date(y, m, 0).getDate()`: day 0 of the next month is the day
   * before its first, which is the last day of month `m`; February has 29
   * days exactly in leap years.
   */
  lemma DaysInMonthIsDayZero(y: int, m: int)
    requires 1 <= m <= 12
    ensures var next := if m < 12 then Date(y, m + 1, 1) else Date(y + 1, 1, 1);
            ValidDate(next) && PrevDay(next) == Date(y, m, DaysInMonth(y, m))
    ensures 28 <= DaysInMonth(y, m) <= 31
    ensures DaysInMonth(y, 2) == 29 <==> IsLeap(y)
  {
  }

  /** Stepping back then forward, or forward then back, returns to the same date. */
  lemma NextPrevInverse(d: Date)
    requires ValidDate(d)
    ensures NextDay(PrevDay(d)) == d
    ensures PrevDay(NextDay(d)) == d
  {
  }

  lemma DivStep(y: int, k: int)
    requires k == 4 || k == 100 || k == 400
    ensures y / k - (y - 1) / k == if y % k == 0 then 1 else 0
  {
    var q, r := (y - 1) / k, (y - 1) % k;
    DivModUnique(y - 1, k, q, r);
    if r == k - 1 {
      DivModUnique(y, k, q + 1, 0);
    } else {
      DivModUnique(y, k, q, r + 1);
    }
  }

  /** For the leap-year divisors, quotient and remainder are the only ones that rebuild `y`. */
  lemma DivModUnique(y: int, k: int, q: int, r: int)
    requires k == 4 || k == 100 || k == 400
    ensures 0 <= r < k && y == k * q + r <==> y / k == q && y % k == r
  {
    if k == 4 {
    } else if k == 100 {
    } else {
    }
  }

  /** A multiple of 400 is a multiple of 100, and a multiple of 100 is a multiple of 4. */
  lemma DivisorChain(y: int)
    ensures y % 400 == 0 ==> y % 100 == 0
    ensures y % 100 == 0 ==> y % 4 == 0
  {
    if y % 400 == 0 {
      var q := y / 400;
      assert y == 400 * q;
      DivModUnique(y, 100, 4 * q, 0);
    }
    if y % 100 == 0 {
      var q := y / 100;
      assert y == 100 * q;
      DivModUnique(y, 4, 25 * q, 0);
    }
  }

  /** A year adds one weekday, and a leap year one more. */
  lemma YearShiftStep(y: int)
    ensures YearShift(y) - YearShift(y - 1) == if IsLeap(y) then 2 else 1
  {
    DivStep(y, 4);
    DivStep(y, 100);
    DivStep(y, 400);
    DivisorChain(y);
  }

  /** Two numbers whose difference is one more than a multiple of 7 fall on consecutive residues. */
  lemma NextResidue(a: int, b: int)
    requires (b - a) % 7 == 1
    ensures b % 7 == (a % 7 + 1) % 7
  {
    var k := (b - a) / 7;
    assert b == a + 1 + 7 * k;
    assert a == 7 * (a / 7) + a % 7;
  }

  /** At the end of a month other than February and December the index jumps back by 27 or 34. */
  lemma MonthEndStep(y: int, m: int)
    requires 1 <= m <= 11 && m != 2
    ensures var jump := MonthTerm(m + 1) + 1 - MonthTerm(m) - DaysInMonth(y, m);
            jump == -27 || jump == -34
  {
  }

  /** Consecutive dates fall on consecutive weekdays, across months and years. */
  lemma NextDayWeekday(d: Date)
    requires ValidDate(d)
    ensures Weekday(NextDay(d)) == (Weekday(d) + 1) % 7
  {
    var a, b := DayIndex(d), DayIndex(NextDay(d));
    IndexStep(d);
    JumpResidue(b - a);
    NextResidue(a, b);
  }

  /** Each possible index jump is one more than a multiple of 7. */
  lemma JumpResidue(jump: int)
    requires jump == 1 || jump == -27 || jump == -34
    ensures jump % 7 == 1
  {
  }

  /** From one date to the next the day index moves by 1, or jumps back by 27 or 34 at a month end. */
  lemma IndexStep(d: Date)
    requires ValidDate(d)
    ensures var jump := DayIndex(NextDay(d)) - DayIndex(d);
            jump == 1 || jump == -27 || jump == -34
  {
    if d.day < DaysInMonth(d.year, d.month) {
    } else if d.month == 2 {
      FebruaryEndStep(d.year, d.day);
    } else if d.month < 12 {
      MonthEndStep(d.year, d.month);
      var a, b := DayIndex(d), DayIndex(NextDay(d));
      assert b - a == MonthTerm(d.month + 1) + 1 - MonthTerm(d.month) - DaysInMonth(d.year, d.month);
    } else {
      var a, b := DayIndex(d), DayIndex(NextDay(d));
      assert b - a == -34;
    }
  }

  /** From the last day of February to 1 March the index moves by -27, the year shift absorbing the leap day. */
  lemma FebruaryEndStep(y: int, day: int)
    requires day == DaysInMonth(y, 2)
    ensures DayIndex(Date(y, 3, 1)) - DayIndex(Date(y, 2, day)) == -27
  {
    YearShiftStep(y);
  }

  /** The lengths of the twelve months add up to the length of the year. */
  lemma YearLength(y: int)
    ensures DaysInMonth(y, 1) + DaysInMonth(y, 2) + DaysInMonth(y, 3) + DaysInMonth(y, 4)
          + DaysInMonth(y, 5) + DaysInMonth(y, 6) + DaysInMonth(y, 7) + DaysInMonth(y, 8)
          + DaysInMonth(y, 9) + DaysInMonth(y, 10) + DaysInMonth(y, 11) + DaysInMonth(y, 12)
          == if IsLeap(y) then 366 else 365
  {
  }

  /** The weekday is anchored on the real calendar: 1 January 2024 was a Monday. */
  lemma WeekdayAnchor()
    ensures Weekday(Date(2024, 1, 1)) == 1
    ensures Weekday(Date(1970, 1, 1)) == 4
  {
  }

  /**
   * The number of empty cells before day 1 in a calendar whose weeks start
   * on Monday, given the weekday of the first of the month.
   */
  function LeadingEmptyCells(firstWeekday: int): (n: int)
    requires 0 <= firstWeekday < 7
    ensures 0 <= n < 7
    ensures n == 0 <==> firstWeekday == 1
    ensures (n + 1) % 7 == firstWeekday
  {
    (firstWeekday + 6) % 7
  }
}
