/**
 The proleptic Gregorian calendar behind the source's civil dates.

 A civil date is carried as a day number (days since 1970-01-01). The source carries it as
 12:00 UTC on that day, so the day number is the whole of what it reads back.
 A month is one number too, `12 * year + month0`, which makes months a line like days are.

 The calendar is defined by counting month lengths. `MakeDay` is the closed form of ECMA-262
 section 21.4.1 that `Date.UTC` evaluates, and `MakeDayCounts` proves the two agree.
 */
module Calendar {

  predicate IsLeap(y: int) {
    y % 4 == 0 && (y % 100 != 0 || y % 400 == 0)
  }

  function MonthLength(y: int, m0: int): (d: int)
    requires 0 <= m0 < 12
    ensures 28 <= d <= 31
  {
    if m0 == 1 then (if IsLeap(y) then 29 else 28)
    else if m0 == 3 || m0 == 5 || m0 == 8 || m0 == 10 then 30
    else 31
  }

  function MonthDays(k: int): int {
    MonthLength(k / 12, k % 12)
  }

  const EPOCH_MONTH: int := 12 * 1970

  /** The day number of the first day of month `k`, by counting from January 1970. */
  function MonthStart(k: int): int
    decreases if k < EPOCH_MONTH then EPOCH_MONTH - k else k - EPOCH_MONTH
  {
    if k == EPOCH_MONTH then 0
    else if k > EPOCH_MONTH then MonthStart(k - 1) + MonthDays(k - 1)
    else MonthStart(k + 1) - MonthDays(k)
  }

  /** Day number of a date; out-of-range months and days carry over, as in `Date.UTC`. */
  function DayNumber(year: int, month0: int, day: int): int {
    MonthStart(12 * year + month0) + day - 1
  }

  // ---- Months are a line ----

  lemma MonthStep(k: int)
    ensures MonthStart(k + 1) == MonthStart(k) + MonthDays(k)
    ensures 28 <= MonthDays(k) <= 31
  {
  }

  lemma {:induction false} MonthsGrow(j: int, k: int)
    requires j <= k
    ensures MonthStart(j) + 28 * (k - j) <= MonthStart(k) <= MonthStart(j) + 31 * (k - j)
    decreases k - j
  {
    if j < k {
      MonthsGrow(j, k - 1);
      MonthStep(k - 1);
    }
  }

  // ---- Reading a day back ----

  function MonthUp(n: int, k: int): (r: int)
    requires MonthStart(k) <= n
    ensures MonthStart(r) <= n < MonthStart(r + 1)
    decreases n - MonthStart(k)
  {
    MonthStep(k);
    if MonthStart(k + 1) <= n then MonthUp(n, k + 1) else k
  }

  function MonthDown(n: int, k: int): (r: int)
    ensures MonthStart(r) <= n < MonthStart(r + 1)
    decreases MonthStart(k) - n
  {
    MonthStep(k - 1);
    if MonthStart(k) <= n then MonthUp(n, k) else MonthDown(n, k - 1)
  }

  /** The last month that starts on or before `n`. */
  function MonthIndex(n: int): (k: int)
    ensures MonthStart(k) <= n < MonthStart(k + 1)
  {
    MonthDown(n, EPOCH_MONTH)
  }

  /** getUTCFullYear */
  function YearOf(n: int): int {
    MonthIndex(n) / 12
  }

  /** getUTCMonth */
  function MonthOf(n: int): (m0: int)
    ensures 0 <= m0 < 12
  {
    MonthIndex(n) % 12
  }

  /** getUTCDate */
  function DateOf(n: int): (d: int)
    ensures 1 <= d <= MonthDays(MonthIndex(n))
  {
    MonthStep(MonthIndex(n));
    n - MonthStart(MonthIndex(n)) + 1
  }

  /** Every day lies in exactly one month. */
  lemma MonthUnique(n: int, k: int)
    requires MonthStart(k) <= n < MonthStart(k + 1)
    ensures MonthIndex(n) == k
  {
    var j := MonthIndex(n);
    if j < k { MonthsGrow(j + 1, k); }
    if k < j { MonthsGrow(k + 1, j); }
  }

  /** What reading a day back says about its place on the month line. */
  lemma OnMonthLine(n: int)
    ensures MonthStart(MonthIndex(n)) <= n < MonthStart(MonthIndex(n) + 1)
    ensures n == MonthStart(MonthIndex(n)) + DateOf(n) - 1
    ensures 1 <= DateOf(n) <= MonthDays(MonthIndex(n))
    ensures MonthIndex(n) == 12 * YearOf(n) + MonthOf(n) && 0 <= MonthOf(n) < 12
    ensures MonthIndex(n) / 12 == YearOf(n) && MonthIndex(n) % 12 == MonthOf(n)
  {
  }

  // ---- The views agree ----

  predicate RealDate(y: int, m0: int, d: int) {
    0 <= m0 < 12 && 1 <= d <= MonthLength(y, m0)
  }

  /** Building a real date and reading it back returns the same year, month and day. */
  lemma BuildThenRead(y: int, m0: int, d: int)
    requires RealDate(y, m0, d)
    ensures var n := DayNumber(y, m0, d); YearOf(n) == y && MonthOf(n) == m0 && DateOf(n) == d
  {
    var k := 12 * y + m0;
    assert k / 12 == y && k % 12 == m0;
    MonthStep(k);
    MonthUnique(DayNumber(y, m0, d), k);
  }

  /** Reading any day back gives a real date, and building that date gives the day. */
  lemma ReadThenBuild(n: int)
    ensures RealDate(YearOf(n), MonthOf(n), DateOf(n))
    ensures DayNumber(YearOf(n), MonthOf(n), DateOf(n)) == n
  {
  }

  /** The calendar successor of a date written as year, month and day. */
  function NextDate(y: int, m0: int, d: int): (int, int, int)
    requires RealDate(y, m0, d)
  {
    if d < MonthLength(y, m0) then (y, m0, d + 1)
    else if m0 < 11 then (y, m0 + 1, 1)
    else (y + 1, 0, 1)
  }

  lemma NextDateNumber(y: int, m0: int, d: int)
    requires RealDate(y, m0, d)
    ensures var (y', m0', d') := NextDate(y, m0, d);
            RealDate(y', m0', d') && DayNumber(y', m0', d') == DayNumber(y, m0, d) + 1
  {
    hide MonthLength, MonthStart;
    MonthStep(12 * y + m0);
    assert (12 * y + m0) / 12 == y && (12 * y + m0) % 12 == m0;
  }

  /** Adding one to the day number is the calendar successor. */
  lemma AddOneIsSuccessor(n: int)
    ensures RealDate(YearOf(n), MonthOf(n), DateOf(n))
    ensures (YearOf(n + 1), MonthOf(n + 1), DateOf(n + 1)) == NextDate(YearOf(n), MonthOf(n), DateOf(n))
  {
    hide *;
    ReadThenBuild(n);
    NextDateNumber(YearOf(n), MonthOf(n), DateOf(n));
    var (y, m0, d) := NextDate(YearOf(n), MonthOf(n), DateOf(n));
    BuildThenRead(y, m0, d);
  }

  /** Later days are in the same month or a later one. */
  lemma MonthsInOrder(a: int, b: int)
    requires a <= b
    ensures MonthIndex(a) <= MonthIndex(b)
    ensures YearOf(a) <= YearOf(b)
  {
    var j, k := MonthIndex(a), MonthIndex(b);
    if k < j { MonthsGrow(k + 1, j); }
  }

  predicate DateBefore(y: int, m0: int, d: int, y': int, m0': int, d': int) {
    y < y' || (y == y' && (m0 < m0' || (m0 == m0' && d < d')))
  }

  /** Day numbers are ordered exactly as (year, month, day) triples are. */
  lemma SameOrder(a: int, b: int)
    ensures a < b <==> DateBefore(YearOf(a), MonthOf(a), DateOf(a), YearOf(b), MonthOf(b), DateOf(b))
  {
    if a < b { MonthsInOrder(a, b); } else { MonthsInOrder(b, a); }
  }

  // ---- The closed form the platform evaluates ----

  /** Days in year `y` before month `m0`, the table of ECMA-262. */
  function DaysBeforeMonth(y: int, m0: int): int
    requires 0 <= m0 <= 12
  {
    [0, 31, 59, 90, 120, 151, 181, 212, 243, 273, 304, 334, 365][m0] + if m0 >= 2 && IsLeap(y) then 1 else 0
  }

  function DayFromYear(y: int): int {
    365 * (y - 1970) + (y - 1969) / 4 - (y - 1901) / 100 + (y - 1601) / 400
  }

  function MakeDay(year: int, month0: int, day: int): int {
    DayFromYear(year + month0 / 12) + DaysBeforeMonth(year + month0 / 12, month0 % 12) + day - 1
  }

  lemma YearTable(y: int)
    ensures DaysBeforeMonth(y, 12) == if IsLeap(y) then 366 else 365
  {
  }

  /** The table adds up the lengths of the months. */
  lemma TableStep(y: int, m0: int)
    requires 0 <= m0 < 12
    ensures DaysBeforeMonth(y, m0 + 1) == DaysBeforeMonth(y, m0) + MonthLength(y, m0)
  {
  }

  lemma LeapYearsCount(y: int)
    ensures DayFromYear(y + 1) == DayFromYear(y) + (if IsLeap(y) then 366 else 365)
  {
    assert (y - 1968) / 4 - (y - 1969) / 4 == if y % 4 == 0 then 1 else 0;
    assert (y - 1900) / 100 - (y - 1901) / 100 == if y % 100 == 0 then 1 else 0;
    assert (y - 1600) / 400 - (y - 1601) / 400 == if y % 400 == 0 then 1 else 0;
    assert y % 100 == 0 ==> y % 4 == 0;
    assert y % 400 == 0 ==> y % 100 == 0;
  }

  lemma {:induction false} YearsCount(y: int)
    ensures DayFromYear(y) == MonthStart(12 * y)
    decreases if y < 1970 then 1970 - y else y - 1970
  {
    if y > 1970 {
      YearsCount(y - 1);
      LeapYearsCount(y - 1);
      YearTable(y - 1);
      MonthsCount(y - 1, 12);
    } else if y < 1970 {
      YearsCount(y + 1);
      LeapYearsCount(y);
      YearTable(y);
      MonthsCount(y, 12);
    }
  }

  lemma {:induction false} MonthsCount(y: int, m0: int)
    requires 0 <= m0 <= 12
    ensures MonthStart(12 * y + m0) == MonthStart(12 * y) + DaysBeforeMonth(y, m0)
    decreases m0
  {
    if m0 > 0 {
      hide DaysBeforeMonth, MonthLength;
      MonthsCount(y, m0 - 1);
      TableStep(y, m0 - 1);
      MonthStep(12 * y + m0 - 1);
      assert (12 * y + m0 - 1) / 12 == y && (12 * y + m0 - 1) % 12 == m0 - 1;
    }
  }

  /** The closed form of `Date.UTC` is the counted calendar, for every year, month and day. */
  lemma MakeDayCounts(year: int, month0: int, day: int)
    ensures MakeDay(year, month0, day) == DayNumber(year, month0, day)
  {
    var y, m0 := year + month0 / 12, month0 % 12;
    assert 12 * y + m0 == 12 * year + month0;
    YearsCount(y);
    MonthsCount(y, m0);
  }

  lemma LeapShift(y: int, z: int, m0: int)
    requires 0 <= m0 <= 12
    ensures DaysBeforeMonth(y, m0) - DaysBeforeMonth(z, m0)
         == if m0 < 2 then 0 else (if IsLeap(y) then 1 else 0) - (if IsLeap(z) then 1 else 0)
  {
    hide IsLeap;
  }

  /** Twelve months on is 365 or 366 days on. */
  lemma YearLater(k: int)
    ensures MonthStart(k) + 365 <= MonthStart(k + 12) <= MonthStart(k) + 366
  {
    hide MonthStart, IsLeap, DaysBeforeMonth;
    var y, m0 := k / 12, k % 12;
    MonthsCount(y, m0);
    MonthsCount(y, 12);
    MonthsCount(y + 1, m0);
    YearTable(y);
    LeapShift(y + 1, y, m0);
  }
}
