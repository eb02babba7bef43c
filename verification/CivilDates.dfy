/**
 Civil-date primitives of the due-date resolver (packages/core/src/dateResolve.ts:78-157),
 on day numbers. Months are read on the month line of `Calendar`.
 */
module CivilDates {
  import opened Calendar

  // ---- Construction ----

  /** `Date.UTC` reads a year in 0..99 as one in 1900..1999. */
  function LegacyYear(year: int): int {
    if 0 <= year < 100 then 1900 + year else year
  }

  /** A date in `year`; years 0..99 are read by `Date.UTC` as 1900..1999 and then put back. */
  function Civil(year: int, month0: int, day: int): int {
    var n := DayNumber(LegacyYear(year), month0, day);
    if 0 <= year < 100 then DayNumber(year, MonthOf(n), DateOf(n)) else n
  }

  /** The source puts years 0..99 back after `Date.UTC`, but not here. */
  function LastDayOfMonth(year: int, month0: int): int {
    DateOf(DayNumber(LegacyYear(year), month0 + 1, 0))
  }

  /** The last day `LastDayOfMonth` reports for month `k` of the month line. */
  ghost function LastDay(k: int): int {
    LastDayOfMonth(k / 12, k % 12)
  }

  lemma LastDayValue(year: int, m0: int)
    requires 0 <= m0 < 12
    ensures LastDayOfMonth(year, m0) == MonthLength(LegacyYear(year), m0)
  {
    hide MonthLength, MonthStart;
    var k := 12 * LegacyYear(year) + m0;
    MonthStep(k);
    MonthUnique(MonthStart(k + 1) - 1, k);
    assert k / 12 == LegacyYear(year) && k % 12 == m0;
  }

  lemma LegacyLeap(year: int)
    ensures IsLeap(LegacyYear(year)) == IsLeap(year) <==> year != 0
    ensures IsLeap(0) && !IsLeap(1900)
  {
  }

  /** The reported length is the real one for every month but February of year 0. */
  lemma LastDayIsReal(year: int, m0: int)
    requires 0 <= m0 < 12
    ensures 28 <= LastDayOfMonth(year, m0) <= MonthLength(year, m0)
    ensures LastDayOfMonth(year, m0) == MonthLength(year, m0) <==> !(year == 0 && m0 == 1)
  {
    hide MonthStart, IsLeap, LastDayOfMonth;
    LastDayValue(year, m0);
    LegacyLeap(year);
  }

  lemma LegacyLastDay(year: int, m0: int)
    requires 0 <= year < 100 && 0 <= m0 < 12
    ensures LastDayOfMonth(year, m0) == LastDayOfMonth(1900 + year, m0) <= MonthLength(1900 + year, m0)
  {
    hide MonthLength, MonthStart, DateOf;
    LastDayIsReal(1900 + year, m0);
  }

  lemma LastDayOnLine(k: int)
    ensures 28 <= LastDay(k) <= MonthDays(k) <= 31
    ensures MonthStart(k + 1) == MonthStart(k) + MonthDays(k)
    ensures LastDay(k) == MonthDays(k) <==> k != 1
  {
    LastDayIsReal(k / 12, k % 12);
    MonthStep(k);
  }

  /** Putting years 0..99 back never moves a day the source would accept. */
  lemma CivilOnLine(year: int, m0: int, d: int)
    requires 0 <= m0 < 12 && 1 <= d <= LastDayOfMonth(year, m0)
    ensures Civil(year, m0, d) == MonthStart(12 * year + m0) + d - 1
  {
    hide MonthLength, MonthStart, LastDayOfMonth, IsLeap;
    LastDayIsReal(year, m0);
    if 0 <= year < 100 {
      LegacyLastDay(year, m0);
      BuildThenRead(1900 + year, m0, d);
    }
  }

  /** Outside years 0..99 a date is built exactly, impossible days carrying over. */
  lemma CivilOutsideTwoDigitYears(year: int, month0: int, day: int)
    requires year < 0 || year >= 100
    ensures Civil(year, month0, day) == MonthStart(12 * year + month0) + day - 1
  {
  }

  // ---- Days, months and quarters ----

  function AddDays(c: int, n: int): int {
    c + n
  }

  /** 0 = Sunday .. 6 = Saturday; day 0 was a Thursday. */
  function DayOfWeek(c: int): (w: int)
    ensures 0 <= w < 7
  {
    (c + 4) % 7
  }

  /**
   The weekday of a date from its year, month and day, by Zeller's congruence: January and February
   count as months 13 and 14 of the year before, and 0 is a Saturday.
   */
  ghost function Zeller(year: int, month: int, day: int): int
    requires 1 <= month <= 12
  {
    var m, y := if month < 3 then month + 12 else month, if month < 3 then year - 1 else year;
    (day + 13 * (m + 1) / 5 + y + y / 4 - y / 100 + y / 400) % 7
  }

  lemma LeapDaysUpTo(y: int)
    ensures DayFromYear(y + 1) == y + y / 4 - y / 100 + y / 400 - 3 + 7 * (52 * y - 102737)
  {
  }

  /** Days of the months, March to February, against the fifths of 13. */
  lemma ZellerMonths(month0: int) returns (k: int)
    requires 0 <= month0 < 12
    ensures var m, table := if month0 < 2 then month0 + 13 else month0 + 1,
                            [0, 31, -306, -275, -245, -214, -184, -153, -122, -92, -61, -31][month0];
            table == 13 * (m + 1) / 5 + 6 + 7 * k
  {
    k := [-6, -2, -46, -42, -38, -34, -30, -26, -22, -18, -14, -10][month0];
  }

  lemma SameRemainder(a: int, b: int, k: int)
    requires a == b + 7 * k
    ensures a % 7 == b % 7
  {
  }

  /** Every date falls on the weekday Zeller's congruence gives it. */
  lemma WeekdayOfDate(year: int, month0: int, day: int)
    requires 0 <= month0 < 12
    ensures DayOfWeek(DayNumber(year, month0, day)) == (Zeller(year, month0 + 1, day) + 6) % 7
  {
    hide IsLeap, DayNumber, DayFromYear;
    var m, y := if month0 < 2 then month0 + 13 else month0 + 1, if month0 < 2 then year - 1 else year;
    var leaps := y / 4 - y / 100 + y / 400;
    var sum := day + 13 * (m + 1) / 5 + y + leaps;
    MakeDayCounts(year, month0, day);
    LeapDaysUpTo(y);
    LeapYearsCount(y);
    var k := ZellerMonths(month0);
    assert MakeDay(year, month0, day) + 4 == sum + 6 + 7 * (52 * y - 102737 + k);
    SameRemainder(DayNumber(year, month0, day) + 4, sum + 6, 52 * y - 102737 + k);
    SameRemainder(sum + 6, sum % 7 + 6, sum / 7);
  }

  function Min(a: int, b: int): (r: int)
    ensures r <= a && r <= b && (r == a || r == b)
  {
    if a <= b then a else b
  }

  function AddMonths(c: int, n: int): int {
    var m := MonthOf(c) + n;
    var y, m0 := YearOf(c) + m / 12, m % 12;
    Civil(y, m0, Min(DateOf(c), LastDayOfMonth(y, m0)))
  }

  function StartOfMonth(c: int, monthsAhead: int): int {
    var t := AddMonths(Civil(YearOf(c), MonthOf(c), 1), monthsAhead);
    Civil(YearOf(t), MonthOf(t), 1)
  }

  function EndOfMonth(c: int, monthsAhead: int): int {
    var t := StartOfMonth(c, monthsAhead);
    Civil(YearOf(t), MonthOf(t), LastDayOfMonth(YearOf(t), MonthOf(t)))
  }

  function QuarterStart(c: int, quartersAhead: int): int {
    var q := MonthOf(c) / 3 + quartersAhead;
    Civil(YearOf(c) + q / 4, q % 4 * 3, 1)
  }

  function QuarterEnd(c: int, quartersAhead: int): int {
    EndOfMonth(QuarterStart(c, quartersAhead), 2)
  }

  /** A day inside month `k` is read back as that day of month `k`. */
  lemma InMonth(k: int, d: int)
    requires 1 <= d <= MonthDays(k)
    ensures MonthIndex(MonthStart(k) + d - 1) == k && DateOf(MonthStart(k) + d - 1) == d
  {
    MonthStep(k);
    MonthUnique(MonthStart(k) + d - 1, k);
  }

  /** Month arithmetic lands `n` months on, on the same day or the last one there is. */
  lemma AddMonthsLands(c: int, n: int)
    ensures var k := MonthIndex(c) + n;
            && AddMonths(c, n) == MonthStart(k) + Min(DateOf(c), LastDay(k)) - 1
            && MonthIndex(AddMonths(c, n)) == k
            && DateOf(AddMonths(c, n)) == Min(DateOf(c), LastDay(k))
  {
    hide Civil, LastDayOfMonth, MonthStart, MonthIndex, MonthDays, DateOf;
    OnMonthLine(c);
    var k := MonthIndex(c) + n;
    var m := MonthOf(c) + n;
    assert YearOf(c) + m / 12 == k / 12 && m % 12 == k % 12;
    LastDayOnLine(k);
    CivilOnLine(k / 12, k % 12, Min(DateOf(c), LastDay(k)));
    InMonth(k, Min(DateOf(c), LastDay(k)));
  }

  /** A later date never lands earlier. */
  lemma AddMonthsMonotone(a: int, b: int, n: int)
    requires a <= b
    ensures AddMonths(a, n) <= AddMonths(b, n)
  {
    hide *;
    AddMonthsLands(a, n);
    AddMonthsLands(b, n);
    MonthsInOrder(a, b);
    OnMonthLine(a);
    OnMonthLine(b);
    var j, k := MonthIndex(a) + n, MonthIndex(b) + n;
    LastDayOnLine(j);
    LastDayOnLine(k);
    if j < k { MonthsGrow(j + 1, k); }
  }

  /** More months never land earlier. */
  lemma AddMonthsGrows(c: int, n: int, n': int)
    requires n <= n'
    ensures AddMonths(c, n) <= AddMonths(c, n')
    ensures n < n' ==> AddMonths(c, n) < AddMonths(c, n')
  {
    hide *;
    AddMonthsLands(c, n);
    AddMonthsLands(c, n');
    OnMonthLine(c);
    var j, k := MonthIndex(c) + n, MonthIndex(c) + n';
    LastDayOnLine(j);
    LastDayOnLine(k);
    if j < k { MonthsGrow(j + 1, k); }
  }

  /**
   Two month additions land in the same month as their sum, and on the same day exactly when the
   month in between did not clamp the day below what the last month allows.
   */
  lemma AddMonthsCompose(c: int, a: int, b: int)
    ensures MonthIndex(AddMonths(AddMonths(c, a), b)) == MonthIndex(AddMonths(c, a + b))
    ensures 0 <= AddMonths(c, a + b) - AddMonths(AddMonths(c, a), b) <= 3
    ensures AddMonths(AddMonths(c, a), b) == AddMonths(c, a + b)
       <==> DateOf(c) <= LastDay(MonthIndex(c) + a) || LastDay(MonthIndex(c) + a + b) <= LastDay(MonthIndex(c) + a)
    ensures DateOf(c) <= 28 ==> AddMonths(AddMonths(c, a), b) == AddMonths(c, a + b)
  {
    hide *;
    AddMonthsLands(c, a);
    AddMonthsLands(AddMonths(c, a), b);
    AddMonthsLands(c, a + b);
    OnMonthLine(c);
    LastDayOnLine(MonthIndex(c) + a);
    LastDayOnLine(MonthIndex(c) + a + b);
  }

  lemma StartOfMonthOnLine(c: int, n: int)
    ensures StartOfMonth(c, n) == MonthStart(MonthIndex(c) + n)
    ensures MonthIndex(StartOfMonth(c, n)) == MonthIndex(c) + n
  {
    hide Civil, LastDayOfMonth, MonthStart, MonthIndex, AddMonths, MonthDays;
    var k := MonthIndex(c);
    OnMonthLine(c);
    LastDayOnLine(k);
    CivilOnLine(YearOf(c), MonthOf(c), 1);
    InMonth(k, 1);
    AddMonthsLands(MonthStart(k), n);
    LastDayOnLine(k + n);
    OnMonthLine(MonthStart(k + n));
    CivilOnLine((k + n) / 12, (k + n) % 12, 1);
  }

  lemma EndOfMonthOnLine(c: int, n: int)
    ensures EndOfMonth(c, n) == MonthStart(MonthIndex(c) + n) + LastDay(MonthIndex(c) + n) - 1
    ensures MonthIndex(EndOfMonth(c, n)) == MonthIndex(c) + n
  {
    hide Civil, LastDayOfMonth, MonthStart, MonthIndex, StartOfMonth, MonthDays;
    var k := MonthIndex(c) + n;
    StartOfMonthOnLine(c, n);
    OnMonthLine(StartOfMonth(c, n));
    LastDayOnLine(k);
    CivilOnLine(k / 12, k % 12, LastDay(k));
    InMonth(k, LastDay(k));
  }

  /** Each month ends the day before the next begins; the one exception is February of year 0. */
  lemma MonthsTile(c: int, n: int)
    ensures EndOfMonth(c, n) + 1 == StartOfMonth(c, n + 1) <==> MonthIndex(c) + n != 1
    ensures StartOfMonth(c, 0) <= c < StartOfMonth(c, 1)
    ensures MonthIndex(c) != 1 ==> c <= EndOfMonth(c, 0)
  {
    hide *;
    EndOfMonthOnLine(c, n);
    EndOfMonthOnLine(c, 0);
    StartOfMonthOnLine(c, n + 1);
    StartOfMonthOnLine(c, 0);
    StartOfMonthOnLine(c, 1);
    LastDayOnLine(MonthIndex(c) + n);
    LastDayOnLine(MonthIndex(c));
    OnMonthLine(c);
  }

  ghost function QuarterIndex(c: int): int {
    MonthIndex(c) / 3
  }

  lemma QuarterOfMonth(y: int, m0: int, n: int)
    requires 0 <= m0 < 12
    ensures var q := m0 / 3 + n; 12 * (y + q / 4) + q % 4 * 3 == 3 * ((12 * y + m0) / 3 + n)
  {
    assert (12 * y + m0) / 3 == 4 * y + m0 / 3;
  }

  lemma QuarterStartOnLine(c: int, n: int)
    ensures QuarterStart(c, n) == MonthStart(3 * (QuarterIndex(c) + n))
    ensures MonthIndex(QuarterStart(c, n)) == 3 * (QuarterIndex(c) + n)
  {
    hide Civil, LastDayOfMonth, MonthStart, MonthIndex, MonthDays, MonthLength;
    OnMonthLine(c);
    QuarterOfMonth(YearOf(c), MonthOf(c), n);
    var q := MonthOf(c) / 3 + n;
    var k := 3 * (QuarterIndex(c) + n);
    LastDayIsReal(YearOf(c) + q / 4, q % 4 * 3);
    CivilOnLine(YearOf(c) + q / 4, q % 4 * 3, 1);
    LastDayOnLine(k);
    InMonth(k, 1);
  }

  /** Quarters tile the calendar: each ends the day before the next begins, and holds its dates. */
  lemma QuartersTile(c: int, n: int)
    ensures QuarterEnd(c, n) + 1 == QuarterStart(c, n + 1)
    ensures QuarterStart(c, 0) <= c <= QuarterEnd(c, 0)
  {
    hide QuarterStart, QuarterEnd, MonthStart, MonthIndex;
    QuarterEndOnLine(c, n);
    QuarterEndOnLine(c, 0);
    QuarterStartOnLine(c, n + 1);
    QuarterStartOnLine(c, 0);
    OnMonthLine(c);
    var k := MonthIndex(c);
    MonthsGrow(3 * (k / 3), k);
    MonthsGrow(k + 1, 3 * (k / 3) + 3);
  }

  lemma QuarterEndOnLine(c: int, n: int)
    ensures QuarterEnd(c, n) == MonthStart(3 * (QuarterIndex(c) + n) + 3) - 1
  {
    hide QuarterStart, EndOfMonth, MonthStart, MonthIndex, MonthDays, LastDay;
    var k := 3 * (QuarterIndex(c) + n);
    QuarterStartOnLine(c, n);
    EndOfMonthOnLine(QuarterStart(c, n), 2);
    LastDayOnLine(k + 2);
  }

  // ---- Weeks ----

  const SUNDAY: int := 0
  const MONDAY: int := 1
  const FRIDAY: int := 5
  const SATURDAY: int := 6

  function MondayOfWeek(c: int): int {
    var d := DayOfWeek(c);
    AddDays(c, -(if d == 0 then 6 else d - 1))
  }

  function NextWeekdayAfter(from: int, target: int): int {
    var r := (target - DayOfWeek(from) + 7) % 7;
    AddDays(from, if r == 0 then 7 else r)
  }

  function WeekdayNextWeek(anchor: int, target: int): int {
    var monday := AddDays(MondayOfWeek(anchor), 7);
    AddDays(monday, if target == 0 then 6 else target - 1)
  }

  function EndOfThisWeek(base: int): int {
    var friday := AddDays(MondayOfWeek(base), 4);
    if friday < base then AddDays(friday, 7) else friday
  }

  /** The unique Monday among the seven days ending at `c`. */
  lemma MondayOfWeekIsUnique(c: int, n: int)
    ensures c - 7 < n <= c && DayOfWeek(n) == MONDAY <==> n == MondayOfWeek(c)
  {
  }

  /** The first later day carrying that weekday. */
  lemma NextWeekdayIsLeast(from: int, target: int, n: int)
    requires 0 <= target < 7
    ensures from < NextWeekdayAfter(from, target) && DayOfWeek(NextWeekdayAfter(from, target)) == target
    ensures from < n && DayOfWeek(n) == target ==> NextWeekdayAfter(from, target) <= n
  {
  }

  /** "next Friday" names one day for the whole ISO week, whatever day it is said on. */
  lemma WeekdayNextWeekIsFixed(a: int, b: int, target: int)
    requires 0 <= target < 7
    ensures DayOfWeek(WeekdayNextWeek(a, target)) == target
    ensures MondayOfWeek(WeekdayNextWeek(a, target)) == MondayOfWeek(a) + 7
    ensures WeekdayNextWeek(a, target) == WeekdayNextWeek(b, target) <==> MondayOfWeek(a) == MondayOfWeek(b)
  {
    var ma := MondayOfWeek(a);
    MondayOfWeekIsUnique(a, ma);
    InNextWeekOf(ma, if target == 0 then 6 else target - 1);
    hide MondayOfWeek, DayOfWeek;
    MondayOfWeekIsUnique(WeekdayNextWeek(a, target), ma + 7);
  }

  /** It is the next one to occur, or the one a week later when that one still falls in this week. */
  lemma InNextWeekOf(monday: int, i: int)
    requires DayOfWeek(monday) == MONDAY && 0 <= i < 7
    ensures DayOfWeek(monday + 7) == MONDAY && DayOfWeek(monday + 7 + i) == (i + 1) % 7
  {
  }

  lemma WeekdayNextWeekOrNext(a: int, target: int)
    requires 0 <= target < 7
    ensures WeekdayNextWeek(a, target) - NextWeekdayAfter(a, target)
         == if MondayOfWeek(NextWeekdayAfter(a, target)) == MondayOfWeek(a) then 7 else 0
  {
    var next := NextWeekdayAfter(a, target);
    WeekdayNextWeekIsFixed(a, a, target);
    NextWeekdayIsLeast(a, target, WeekdayNextWeek(a, target));
    MondayOfWeekIsUnique(next, MondayOfWeek(a));
    MondayOfWeekIsUnique(next, MondayOfWeek(a) + 7);
  }

  /** The first Friday on or after `c`. */
  lemma EndOfThisWeekIsLeast(c: int, n: int)
    ensures c <= EndOfThisWeek(c) && DayOfWeek(EndOfThisWeek(c)) == FRIDAY
    ensures c <= n && DayOfWeek(n) == FRIDAY ==> EndOfThisWeek(c) <= n
  {
  }

  // ---- Business days ----

  const MAX_DURATION_DAYS: int := 3650

  predicate IsWeekday(c: int) {
    DayOfWeek(c) != SUNDAY && DayOfWeek(c) != SATURDAY
  }

  /** Monday to Friday of every week, and no other day. */
  lemma WorkingWeek(monday: int, i: int)
    requires DayOfWeek(monday) == 1 && 0 <= i < 7
    ensures IsWeekday(monday + i) <==> i < 5
  {
  }

  /** Weekdays after `c` up to and including `d`. */
  ghost function WeekdaysIn(c: int, d: int): (n: nat)
    requires c <= d
    ensures n <= d - c
    decreases d - c
  {
    if c == d then 0 else WeekdaysIn(c, d - 1) + if IsWeekday(d) then 1 else 0
  }

  /** The first day on or after `c` with `n` weekdays behind it. */
  ghost predicate IsNthWeekdayAfter(c: int, n: int, d: int) {
    c <= d && WeekdaysIn(c, d) == n && (d == c || IsWeekday(d))
  }

  /** Closed form: step back onto the Friday of a weekend, then five days a week. */
  function BusinessDaysAfter(c: int, n: int): int {
    if n <= 0 then c else
      var w := (DayOfWeek(c) + 6) % 7;
      var v := Min(w, 4);
      c - (w - v) + n + 2 * ((v + n) / 5)
  }

  /** What the loop of the source computes: a count past the ceiling is cut to it. */
  function BusinessDaysCapped(c: int, n: int): int {
    BusinessDaysAfter(c, Min(n, MAX_DURATION_DAYS))
  }

  /** The loop of the source; a count past the ceiling is cut to it, a negative one adds nothing. */
  method AddBusinessDays(c: int, n: int) returns (d: int)
    ensures IsNthWeekdayAfter(c, if n > 0 then Min(n, 3650) else 0, d)
    ensures d == BusinessDaysCapped(c, n)
  {
    d := c;
    var left := Min(n, MAX_DURATION_DAYS);
    ghost var wanted := if left > 0 then left else 0;
    while left > 0
      invariant c <= d
      invariant left > 0 || WeekdaysIn(c, d) == wanted
      invariant left > 0 ==> WeekdaysIn(c, d) + left == wanted
      invariant left > 0 || d == c || IsWeekday(d)
      decreases left, if DayOfWeek(d) == FRIDAY then 2 else if DayOfWeek(d) == SATURDAY then 1 else 0
    {
      d := AddDays(d, 1);
      var w := DayOfWeek(d);
      if w != 0 && w != 6 { left := left - 1; }
    }
    BusinessDaysCount(c, wanted);
    NthWeekdayUnique(c, wanted, d, BusinessDaysAfter(c, wanted));
  }

  /** The loop's answer is the least day with that many weekdays behind it, so there is only one. */
  lemma NthWeekdayIsLeast(c: int, n: int, d: int, e: int)
    requires IsNthWeekdayAfter(c, n, d) && c <= e && WeekdaysIn(c, e) == n
    ensures d <= e
  {
    if e < d {
      WeekdaysGrow(c, e, d - 1);
    }
  }

  lemma NthWeekdayUnique(c: int, n: int, d: int, e: int)
    requires IsNthWeekdayAfter(c, n, d) && IsNthWeekdayAfter(c, n, e)
    ensures d == e
  {
    NthWeekdayIsLeast(c, n, d, e);
    NthWeekdayIsLeast(c, n, e, d);
  }

  lemma {:induction false} WeekdaysGrow(c: int, d: int, e: int)
    requires c <= d <= e
    ensures WeekdaysIn(c, d) <= WeekdaysIn(c, e)
    decreases e - d
  {
    if d < e { WeekdaysGrow(c, d, e - 1); }
  }

  /** The closed form counts right: `n` weekdays lie between, and the last day is one of them. */
  lemma {:induction false} BusinessDaysCount(c: int, n: int)
    requires 0 <= n
    ensures IsNthWeekdayAfter(c, n, BusinessDaysAfter(c, n))
    decreases n
  {
    if n > 0 {
      BusinessDaysCount(c, n - 1);
      BusinessDaysStep(c, n);
      var p, d := BusinessDaysAfter(c, n - 1), BusinessDaysAfter(c, n);
      WeekdaysSkip(c, p, d);
    }
  }

  /** From one business day to the next only weekend days are stepped over. */
  lemma BusinessDaysStep(c: int, n: int)
    requires 0 < n
    ensures var p, d := BusinessDaysAfter(c, n - 1), BusinessDaysAfter(c, n);
            p < d && IsWeekday(d) && forall e :: p < e < d ==> !IsWeekday(e)
  {
    hide DayOfWeek, BusinessDaysAfter, IsWeekday, Min;
    var p, d := BusinessDaysAfter(c, n - 1), BusinessDaysAfter(c, n);
    var monday, w, k := BusinessDayPlace(c, n);
    var q := k / 5;
    DayInWeek(monday, q, k % 5);
    if n > 1 {
      var monday', w', k' := BusinessDayPlace(c, n - 1);
    }
    assert if k % 5 > 0 then p == d - 1 else d - 3 <= p < d by { assert 5 * q + k % 5 == k; }
    forall e | p < e < d
      ensures !IsWeekday(e)
    {
      DayInWeek(monday, q - 1, e - monday - 7 * (q - 1));
    }
  }

  /** The `n`-th business day is the `k`-th of the weeks from the Monday before the start. */
  lemma BusinessDayPlace(c: int, n: int) returns (monday: int, w: int, k: int)
    requires 0 < n
    ensures w == (DayOfWeek(c) + 6) % 7 && monday == c - w && DayOfWeek(monday) == MONDAY && 0 <= w < 7
    ensures k == (if w < 4 then w else 4) + n && BusinessDaysAfter(c, n) == monday + 7 * (k / 5) + k % 5
    ensures BusinessDaysAfter(c, 0) == c
  {
    w := (DayOfWeek(c) + 6) % 7;
    monday := c - w;
    k := Min(w, 4) + n;
    assert 5 * (k / 5) + k % 5 == k;
  }

  lemma DayInWeek(monday: int, q: int, r: int)
    requires DayOfWeek(monday) == MONDAY && 0 <= r < 7
    ensures IsWeekday(monday + 7 * q + r) <==> r < 5
  {
    assert DayOfWeek(monday + 7 * q) == MONDAY;
    WorkingWeek(monday + 7 * q, r);
  }

  lemma {:induction false} WeekdaysSkip(c: int, p: int, d: int)
    requires c <= p < d && IsWeekday(d) && forall e :: p < e < d ==> !IsWeekday(e)
    ensures WeekdaysIn(c, d) == WeekdaysIn(c, p) + 1
    decreases d - p
  {
    if p + 1 < d {
      assert !IsWeekday(p + 1);
      WeekdaysSkip(c, p + 1, d);
    }
  }

  lemma {:induction false} WeekdaysSplit(c: int, d: int, e: int)
    requires c <= d <= e
    ensures WeekdaysIn(c, e) == WeekdaysIn(c, d) + WeekdaysIn(d, e)
    decreases e - d
  {
    if d < e { WeekdaysSplit(c, d, e - 1); }
  }

  /** A later start never finishes earlier. */
  lemma BusinessDaysMonotone(a: int, b: int, n: int)
    requires a <= b
    ensures a <= BusinessDaysAfter(a, n) <= BusinessDaysAfter(b, n)
  {
    if n > 0 {
      hide BusinessDaysAfter;
      BusinessDaysCount(a, n);
      BusinessDaysCount(b, n);
      var d, e := BusinessDaysAfter(a, n), BusinessDaysAfter(b, n);
      WeekdaysSplit(a, b, e);
      if e < d { WeekdaysGrow(a, e, d - 1); }
    }
  }

  /** Adding `a` business days and then `b` is adding `a + b`. */
  lemma BusinessDaysCompose(c: int, a: int, b: int)
    requires 0 <= a && 0 <= b
    ensures BusinessDaysAfter(BusinessDaysAfter(c, a), b) == BusinessDaysAfter(c, a + b)
  {
    hide BusinessDaysAfter, IsWeekday;
    BusinessDaysCount(c, a);
    var d := BusinessDaysAfter(c, a);
    BusinessDaysCount(d, b);
    BusinessDaysCount(c, a + b);
    WeekdaysSplit(c, d, BusinessDaysAfter(d, b));
    NthWeekdayUnique(c, a + b, BusinessDaysAfter(d, b), BusinessDaysAfter(c, a + b));
  }

  lemma BusinessDaysStrict(c: int, m: int, n: int)
    requires 0 <= m < n
    ensures BusinessDaysAfter(c, m) < BusinessDaysAfter(c, n)
  {
    hide BusinessDaysAfter, IsWeekday;
    BusinessDaysCompose(c, m, n - m);
    BusinessDaysCount(BusinessDaysAfter(c, m), n - m);
  }

  /** With the ceiling, two additions are one addition of the sum unless the sum passes the ceiling. */
  lemma BusinessDaysCappedCompose(c: int, a: int, b: int)
    requires 0 <= a && 0 <= b
    ensures BusinessDaysCapped(BusinessDaysCapped(c, a), b) == BusinessDaysCapped(c, a + b)
       <==> a + b <= 3650 || a == 0 || b == 0
  {
    hide BusinessDaysAfter;
    var a', b', s := Min(a, MAX_DURATION_DAYS), Min(b, MAX_DURATION_DAYS), Min(a + b, MAX_DURATION_DAYS);
    BusinessDaysCompose(c, a', b');
    if s < a' + b' { BusinessDaysStrict(c, s, a' + b'); }
  }
}
