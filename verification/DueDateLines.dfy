/**
 Where each rule of the resolver lands on the month line: the stepping stones from the rules, which
 speak of years, months and days, to statements about earlier and later.
 */
module DueDateLines {
  import opened Options
  import opened Calendar
  import opened CivilDates
  import opened DueDate

  ghost function Day(k: int, d: int): int {
    MonthStart(k) + d - 1
  }

  /** An earlier month, or an earlier day of the same month, is an earlier date. */
  lemma DaysInOrder(j: int, d: int, k: int, e: int)
    requires j <= k && 1 <= d <= LastDay(j) && 1 <= e <= LastDay(k)
    requires j == k ==> d <= e
    ensures Day(j, d) <= Day(k, e)
  {
    hide MonthStart, LastDay;
    LastDayOnLine(j);
    LastDayOnLine(k);
    if j < k { MonthsGrow(j + 1, k); }
  }

  lemma ReadDay(k: int, d: int)
    requires 1 <= d <= LastDay(k)
    ensures MonthIndex(Day(k, d)) == k && DateOf(Day(k, d)) == d
    ensures YearOf(Day(k, d)) == k / 12 && MonthOf(Day(k, d)) == k % 12
  {
    hide MonthStart, LastDay, MonthIndex, DateOf;
    LastDayOnLine(k);
    InMonth(k, d);
  }

  /** What a day built in the month of `c` is. */
  lemma CivilInMonthOf(c: int, d: int)
    requires 1 <= d <= LastDay(MonthIndex(c))
    ensures Civil(YearOf(c), MonthOf(c), d) == Day(MonthIndex(c), d)
    ensures LastDayOfMonth(YearOf(c), MonthOf(c)) == LastDay(MonthIndex(c))
  {
    hide MonthStart, MonthIndex, Civil, LastDayOfMonth;
    OnMonthLine(c);
    CivilOnLine(YearOf(c), MonthOf(c), d);
  }

  lemma LastDayOfStated(y: int, m0: int)
    requires 0 <= m0 < 12
    ensures LastDayOfMonth(y, m0) == LastDay(12 * y + m0)
  {
    hide LastDayOfMonth;
    assert (12 * y + m0) / 12 == y && (12 * y + m0) % 12 == m0;
  }

  lemma ValidLands(y: int, m0: int, d: int)
    ensures ValidCivil(y, m0, d).Some?
       <==> 0 <= m0 < 12 && 1970 <= y <= 2999 && 1 <= d <= LastDay(12 * y + m0)
    ensures ValidCivil(y, m0, d).Some? ==> ValidCivil(y, m0, d).value == Day(12 * y + m0, d)
  {
    hide MonthStart, LastDay, LastDayOfMonth, Civil;
    if 0 <= m0 < 12 {
      LastDayOfStated(y, m0);
      if 1 <= d <= LastDayOfMonth(y, m0) { CivilOnLine(y, m0, d); }
    }
  }

  // ---- Months with no year stated ----

  /** The year a month and day are read in: the anchor's, or the next when that is far behind. */
  ghost function RollYear(base: int, m0: int, d: int): int {
    YearOf(base) + if base - Day(12 * YearOf(base) + m0, d) > 60 then 1 else 0
  }

  lemma RollYearMonotone(a: int, b: int, m0: int, d: int, e: int)
    requires a <= b && (YearOf(a) == YearOf(b) ==> d == e)
    ensures RollYear(a, m0, d) <= RollYear(b, m0, e)
  {
    hide YearOf, MonthStart;
    MonthsInOrder(a, b);
  }

  lemma BaseInItsYear(base: int)
    ensures MonthStart(12 * YearOf(base)) <= base < MonthStart(12 * YearOf(base) + 12)
  {
    hide MonthStart, MonthIndex, YearOf;
    OnMonthLine(base);
    MonthsGrow(12 * YearOf(base), MonthIndex(base));
    MonthsGrow(MonthIndex(base) + 1, 12 * YearOf(base) + 12);
  }

  /** Where a month and day with no year land. */
  lemma RollLands(base: int, m0: int, d: int)
    requires RollToFuture(base, m0, d).Some?
    ensures var y := RollYear(base, m0, d);
            && 0 <= m0 < 12 && 1970 <= y <= 2999 && 1 <= d <= LastDay(12 * y + m0)
            && RollToFuture(base, m0, d).value == Day(12 * y + m0, d)
  {
    hide YearOf, MonthStart, LastDay, ValidCivil;
    ValidLands(YearOf(base), m0, d);
    ValidLands(YearOf(base) + 1, m0, d);
  }

  /** A month and day with no year stated land at most 60 days back and at most a year ahead. */
  lemma RollWindow(base: int, m0: int, d: int)
    requires RollToFuture(base, m0, d).Some?
    ensures base - 60 <= RollToFuture(base, m0, d).value <= base + 365
  {
    hide YearOf, MonthStart, LastDay, RollToFuture;
    RollLands(base, m0, d);
    BaseInItsYear(base);
    var y := YearOf(base);
    YearLater(12 * y);
    YearLater(12 * y + m0);
    LastDayOnLine(12 * y + m0);
    LastDayOnLine(12 * y + 12 + m0);
    MonthsGrow(12 * y + m0 + 1, 12 * y + 12);
    MonthsGrow(12 * y + 12, 12 * y + 12 + m0);
  }

  /**
   They land nowhere exactly when the date does not exist in the anchor's year, or lies more than
   60 days behind and is 29 February or would fall in year 3000.
   */
  lemma RollNothing(base: int, m0: int, d: int)
    ensures RollToFuture(base, m0, d).None? <==>
        var y := YearOf(base);
        || !(0 <= m0 < 12 && 1970 <= y <= 2999 && RealDate(y, m0, d))
        || (base - Day(12 * y + m0, d) > 60 && ((m0 == 1 && d == 29) || y == 2999))
  {
    hide YearOf, MonthStart, LastDay, LastDayOfMonth, ValidCivil, IsLeap;
    var y := YearOf(base);
    ValidLands(y, m0, d);
    ValidLands(y + 1, m0, d);
    if 0 <= m0 < 12 {
      LastDayOfStated(y, m0);
      LastDayOfStated(y + 1, m0);
      LastDayIsReal(y, m0);
      LastDayIsReal(y + 1, m0);
      NoTwoLeapYears(y);
    }
  }

  lemma NoTwoLeapYears(y: int)
    ensures !(IsLeap(y) && IsLeap(y + 1))
  {
  }

  // ---- Days of a month ----

  ghost function PositionDay(position: MonthPosition, k: int): int {
    if position.Early? then 5 else if position.Mid? then 15 else LastDay(k)
  }

  lemma PositionLands(position: MonthPosition, c: int)
    ensures var k := MonthIndex(c);
            && 1 <= PositionDay(position, k) <= LastDay(k)
            && PositionInMonth(position, c) == Day(k, PositionDay(position, k))
  {
    hide MonthStart, LastDay, LastDayOfMonth, Civil, MonthIndex, YearOf, MonthOf;
    var k := MonthIndex(c);
    LastDayOnLine(k);
    CivilInMonthOf(c, 5);
    CivilInMonthOf(c, 15);
    CivilInMonthOf(c, LastDay(k));
  }

  ghost function WeekCloseDay(nth: NthWeek, k: int): int {
    match nth
    case First => 7
    case Second => 14
    case Third => 21
    case Fourth => 28
    case Last => LastDay(k)
  }

  lemma WeekCloseLands(nth: NthWeek, c: int)
    ensures var k := MonthIndex(c);
            && 1 <= WeekCloseDay(nth, k) <= LastDay(k)
            && WeekClose(nth, c) == Day(k, WeekCloseDay(nth, k))
  {
    hide MonthStart, LastDay, LastDayOfMonth, Civil, MonthIndex, YearOf, MonthOf;
    var k := MonthIndex(c);
    LastDayOnLine(k);
    CivilInMonthOf(c, WeekCloseDay(nth, k));
    CivilInMonthOf(c, LastDay(k));
  }

  lemma EndOfMonthLands(c: int, n: int)
    ensures EndOfMonth(c, n) == Day(MonthIndex(c) + n, LastDay(MonthIndex(c) + n))
    ensures 1 <= LastDay(MonthIndex(c) + n)
  {
    hide EndOfMonth, LastDay;
    EndOfMonthOnLine(c, n);
    LastDayOnLine(MonthIndex(c) + n);
  }

  lemma StartOfMonthLands(c: int, n: int)
    ensures StartOfMonth(c, n) == Day(MonthIndex(c) + n, 1)
    ensures 1 <= LastDay(MonthIndex(c) + n)
    ensures MonthIndex(StartOfMonth(c, n)) == MonthIndex(c) + n
  {
    hide StartOfMonth, LastDay, MonthIndex;
    StartOfMonthOnLine(c, n);
    LastDayOnLine(MonthIndex(c) + n);
  }

  /** The day of the anchor's month that an ordinal names, and what is done when it has passed. */
  lemma OrdinalLands(day: nat, base: int)
    requires 1 <= day <= 31
    ensures var k := MonthIndex(base);
            ResolveOrdinalDay(day, base) == Some(
              if 1970 <= YearOf(base) <= 2999 && day <= LastDay(k) && Day(k, day) > base then Day(k, day)
              else Day(k + 1, Min(day, LastDay(k + 1))))
    ensures 1 <= Min(day, LastDay(MonthIndex(base) + 1)) <= LastDay(MonthIndex(base) + 1)
  {
    hide MonthStart, LastDay, LastDayOfMonth, Civil, MonthIndex, YearOf, MonthOf, ValidCivil, StartOfMonth;
    var k := MonthIndex(base);
    OnMonthLine(base);
    LastDayOnLine(k);
    LastDayOnLine(k + 1);
    ValidLands(YearOf(base), MonthOf(base), day);
    StartOfMonthLands(base, 1);
    CivilInMonthOf(StartOfMonth(base, 1), 1);
    CivilInMonthOf(StartOfMonth(base, 1), Min(day, LastDay(k + 1)));
  }

  // ---- Quarters and years ----

  lemma QuarterLands(quarter: Quarter, atStart: bool, year: int)
    ensures QuarterAt(quarter, atStart, year)
         == if atStart then MonthStart(12 * year + 3 * quarter - 3) else MonthStart(12 * year + 3 * quarter) - 1
  {
    hide MonthStart, LastDay, Civil, EndOfMonth, MonthIndex;
    var k := 12 * year + 3 * quarter - 3;
    LastDayIsReal(year, 3 * quarter - 3);
    CivilOnLine(year, 3 * quarter - 3, 1);
    LastDayOnLine(k);
    InMonth(k, 1);
    EndOfMonthOnLine(MonthStart(k), 2);
    LastDayOnLine(k + 2);
    assert k + 2 != 1;
  }

  lemma QuarterLater(quarter: Quarter, atStart: bool, year: int, year': int)
    requires year <= year'
    ensures QuarterAt(quarter, atStart, year) <= QuarterAt(quarter, atStart, year')
  {
    hide MonthStart, QuarterAt;
    QuarterLands(quarter, atStart, year);
    QuarterLands(quarter, atStart, year');
    MonthsGrow(12 * year + 3 * quarter - 3, 12 * year' + 3 * quarter - 3);
    MonthsGrow(12 * year + 3 * quarter, 12 * year' + 3 * quarter);
  }

  lemma YearEndsLand(y: int)
    ensures Civil(y, 11, 31) == MonthStart(12 * y + 12) - 1
    ensures Civil(y, 0, 1) == MonthStart(12 * y)
  {
    hide MonthStart, LastDay, Civil, IsLeap;
    LastDayIsReal(y, 11);
    LastDayIsReal(y, 0);
    CivilOnLine(y, 11, 31);
    CivilOnLine(y, 0, 1);
    MonthStep(12 * y + 11);
    assert (12 * y + 11) / 12 == y && (12 * y + 11) % 12 == 11;
  }
}
