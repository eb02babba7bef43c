/**
 What each phrase means, said about the date it resolves to: its weekday, its month, its day of the
 month and its place against the anchor. The resolver builds dates; here they are only read.
 */
module DueDateMeaning {
  import opened Options
  import opened Calendar
  import opened CivilDates
  import opened DueDate
  import opened DueDateCounts
  import opened DueDateLines
  import opened DueDateLaws
  import opened DueDateBounds

  const FIRST_YEAR: int := 1970
  const LAST_YEAR: int := 2999

  ghost predicate ClosesMonth(x: int) {
    MonthIndex(x + 1) == MonthIndex(x) + 1
  }

  ghost predicate ClosesQuarter(x: int) {
    QuarterIndex(x + 1) == QuarterIndex(x) + 1
  }

  ghost predicate OpensQuarter(x: int) {
    QuarterIndex(x - 1) == QuarterIndex(x) - 1
  }

  ghost predicate At(x: int, k: int, d: int) {
    MonthIndex(x) == k && DateOf(x) == d
  }

  /** The same day of month `k`, or its last day when it has no such day. */
  ghost predicate SameDayIn(x: int, k: int, d: int) {
    MonthIndex(x) == k && (DateOf(x) == d || (DateOf(x) < d && ClosesMonth(x)))
  }

  ghost predicate InNextWeek(x: int, base: int, weekday: int) {
    MondayOfWeek(x) == MondayOfWeek(base) + 7 && DayOfWeek(x) == weekday
  }

  ghost predicate InPosition(x: int, position: MonthPosition) {
    if position.Early? then DateOf(x) == 5 else if position.Mid? then DateOf(x) == 15 else ClosesMonth(x)
  }

  ghost predicate ClosesWeek(x: int, nth: NthWeek) {
    match nth
    case First => DateOf(x) == 7
    case Second => DateOf(x) == 14
    case Third => DateOf(x) == 21
    case Fourth => DateOf(x) == 28
    case Last => ClosesMonth(x)
  }

  /** The day of quarter `q` of year `z` that `x` claims to be. */
  ghost predicate BoundsQuarter(x: int, q: Quarter, z: int, atStart: bool) {
    QuarterIndex(x) == 4 * z + q - 1 && (if atStart then OpensQuarter(x) else ClosesQuarter(x))
  }

  /** Some day `d` of month `k` is ahead of the anchor or at most 60 days behind it. */
  ghost predicate Recent(base: int, k: int, d: int) {
    exists n :: base - n <= 60 && At(n, k, d)
  }

  ghost predicate RecentClose(base: int, k: int) {
    exists n :: base - n <= 60 && MonthIndex(n) == k && ClosesMonth(n)
  }

  /** The year of a month and day said without one: the anchor's, unless they are long gone in it. */
  ghost function SaidYear(base: int, m0: int, d: int): int {
    YearOf(base) + if Recent(base, 12 * YearOf(base) + m0, d) then 0 else 1
  }

  /** The year of a month that is due by its close. */
  ghost function ClosingYear(base: int, m0: int): int {
    YearOf(base) + if RecentClose(base, 12 * YearOf(base) + m0) then 0 else 1
  }

  /** Half a day stays on the anchor's date; beyond it every day begun counts. */
  ghost predicate HoursOn(base: int, n: int, x: int) {
    if n <= 12 then x == base else 24 * (x - base - 1) < n <= 24 * (x - base)
  }

  function FullYear(z: nat): int {
    if z < 100 then 2000 + z else z
  }

  /** A count of days, weeks, months or hours from the anchor. */
  ghost predicate MeansDuration(p: Phrase, base: int, x: int) {
    match p
    case BusinessDays(count) => exists n :: CountIs(count, n) && IsNthWeekdayAfter(base, Min(n, 3650), x)
    case Days(count) => CountIs(count, x - base)
    case Weeks(count) => exists n :: CountIs(count, n) && x - base == 7 * n <= 3650
    case Months(count) => exists n :: CountIs(count, n) && n <= 120 && SameDayIn(x, MonthIndex(base) + n, DateOf(base))
    case Hours(count) => exists n :: CountIs(count, n) && HoursOn(base, n, x)
    case _ => false
  }

  ghost predicate Means(p: Phrase, base: int, x: int) {
    var k, y := MonthIndex(base), YearOf(base);
    match p
    case Immediate => x == base
    case Tomorrow => x == base + 1
    case DayAfterTomorrow => x == base + 2
    case YearMonthDay(z, m, d) => At(x, 12 * z + m - 1, d)
    case NumericDate(m, d, Some(z)) => At(x, 12 * FullYear(z) + m - 1, d)
    case NumericDate(m, d, None) => At(x, 12 * SaidYear(base, m - 1, d) + m - 1, d)
    case MonthDay(m0, d, Some(z)) => At(x, 12 * z + m0, d)
    case MonthDay(m0, d, None) => At(x, 12 * SaidYear(base, m0, d) + m0, d)
    case PartOfMonth(position, m0) =>
      && MonthIndex(x) == 12 * (if position.EndOf? && y == LAST_YEAR then y else SaidYear(base, m0, 1)) + m0
      && InPosition(x, position)
    case OrdinalDay(d) =>
      if 1970 <= y <= 2999 && exists n :: base < n && At(n, k, d) then At(x, k, d)
      else SameDayIn(x, k + 1, d)
    case ThisWeek => base <= x < base + 7 && DayOfWeek(x) == FRIDAY
    case NextWeekMonday => InNextWeek(x, base, MONDAY)
    case NextWeekWednesday => InNextWeek(x, base, 3)
    case NextWeekFriday => InNextWeek(x, base, FRIDAY)
    case ThisMonth => MonthIndex(x) == k && ClosesMonth(x)
    case NextMonthEnd => MonthIndex(x) == k + 1 && ClosesMonth(x)
    case NextMonthStart => At(x, k + 1, 1)
    case NextMonthEarly => At(x, k + 1, 5)
    case NextMonthMid => At(x, k + 1, 15)
    case NextMonth => SameDayIn(x, k + 1, DateOf(base))
    case ThisQuarter => QuarterIndex(x) == QuarterIndex(base) && ClosesQuarter(x)
    case NextQuarterEnd => QuarterIndex(x) == QuarterIndex(base) + 1 && ClosesQuarter(x)
    case NextQuarterStart => QuarterIndex(x) == QuarterIndex(base) + 1 && OpensQuarter(x)
    case ThisYear => At(x, 12 * y + 11, 31)
    case NextYearEnd => At(x, 12 * y + 23, 31)
    case NextYearStart => At(x, 12 * y + 12, 1)
    case NamedQuarter(q, atStart, Some(z)) => BoundsQuarter(x, q, z, atStart)
    case NamedQuarter(q, atStart, None) =>
      if exists n :: base <= n && BoundsQuarter(n, q, y, atStart) then BoundsQuarter(x, q, y, atStart)
      else BoundsQuarter(x, q, y + 1, atStart)
    case WeekOfMonth(nth, Some(m0)) => MonthIndex(x) == 12 * SaidYear(base, m0, 1) + m0 && ClosesWeek(x, nth)
    case WeekOfMonth(nth, None) =>
      if exists n :: base <= n && MonthIndex(n) == k && ClosesWeek(n, nth)
      then MonthIndex(x) == k && ClosesWeek(x, nth)
      else MonthIndex(x) == k + 1 && ClosesWeek(x, nth)
    case WeekdayOfNextWeek(w) => InNextWeek(x, base, w)
    case ComingWeekday(w) => base < x <= base + 7 && DayOfWeek(x) == w
    case Fortnight => x == base + 14
    case BareMonth(atStart, m0, Some(z)) =>
      MonthIndex(x) == 12 * z + m0 && (if atStart then DateOf(x) == 1 else ClosesMonth(x))
    case BareMonth(true, m0, None) => At(x, 12 * SaidYear(base, m0, 1) + m0, 1)
    case BareMonth(false, m0, None) => MonthIndex(x) == 12 * ClosingYear(base, m0) + m0 && ClosesMonth(x)
    case EndOfStatedYear(z) => At(x, 12 * z + 11, 31)
    case _ => MeansDuration(p, base, x)
  }

  // ---- Reading dates off the month line ----

  lemma AtOnLine(n: int, k: int, d: int)
    ensures At(n, k, d) <==> 1 <= d <= MonthDays(k) && n == Day(k, d)
  {
    hide MonthStart, MonthIndex, DateOf;
    OnMonthLine(n);
    if 1 <= d <= MonthDays(k) { InMonth(k, d); }
  }

  lemma SaidYearIsRollYear(base: int, m0: int, d: int)
    requires RealDate(YearOf(base), m0, d)
    ensures SaidYear(base, m0, d) == RollYear(base, m0, d)
  {
    hide MonthStart, MonthIndex, YearOf, At;
    var k := 12 * YearOf(base) + m0;
    AtOnLine(Day(k, d), k, d);
    forall n | At(n, k, d) ensures n == Day(k, d) { AtOnLine(n, k, d); }
  }

  lemma ClosingYearIsBareYear(base: int, m0: Month0)
    requires YearOf(base) != 0
    ensures ClosingYear(base, m0) == BareYear(false, m0, None, base)
  {
    hide MonthStart, MonthIndex, YearOf, ClosesMonth, LastDay;
    var k := 12 * YearOf(base) + m0;
    LastDayOnLine(k);
    LastDayCloses(k);
    forall n | MonthIndex(n) == k && ClosesMonth(n) ensures n == Day(k, LastDay(k)) { ClosesMonthOnLine(n); }
  }

  lemma ClosesMonthOnLine(x: int)
    ensures ClosesMonth(x) <==> x + 1 == MonthStart(MonthIndex(x) + 1)
  {
    hide MonthStart, MonthIndex;
    OnMonthLine(x);
    OnMonthLine(x + 1);
    MonthStep(MonthIndex(x) + 1);
    if x + 1 < MonthStart(MonthIndex(x) + 1) { MonthUnique(x + 1, MonthIndex(x)); }
    else { MonthUnique(x + 1, MonthIndex(x) + 1); }
  }

  lemma LastDayCloses(k: int)
    requires k != 1
    ensures ClosesMonth(Day(k, LastDay(k))) && MonthIndex(Day(k, LastDay(k))) == k
  {
    hide MonthStart, MonthIndex, LastDay;
    LastDayOnLine(k);
    ReadDay(k, LastDay(k));
    ClosesMonthOnLine(Day(k, LastDay(k)));
  }

  lemma QuarterBoundsOnLine(x: int)
    ensures ClosesQuarter(x) <==> x + 1 == MonthStart(3 * QuarterIndex(x) + 3)
    ensures OpensQuarter(x) <==> x == MonthStart(3 * QuarterIndex(x))
  {
    hide MonthIndex, MonthStart;
    OnMonthLine(x);
    OnMonthLine(x + 1);
    OnMonthLine(x - 1);
    var k, q := MonthIndex(x), QuarterIndex(x);
    MonthsGrow(3 * q, k);
    MonthsGrow(k + 1, 3 * q + 3);
    MonthStep(3 * q + 3);
    MonthStep(3 * q - 1);
    if x + 1 == MonthStart(3 * q + 3) { MonthUnique(x + 1, 3 * q + 3); }
    else { MonthsInOrder(x, x + 1); MonthBelow(x + 1, 3 * q + 3); }
    if x == MonthStart(3 * q) { MonthUnique(x - 1, 3 * q - 1); }
    else { MonthsInOrder(x - 1, x); MonthAbove(x - 1, 3 * q); }
  }

  lemma MonthBelow(n: int, k: int)
    requires n < MonthStart(k)
    ensures MonthIndex(n) < k
  {
    hide MonthStart, MonthIndex;
    OnMonthLine(n);
    if k <= MonthIndex(n) { MonthsGrow(k, MonthIndex(n)); }
  }

  lemma MonthAbove(n: int, k: int)
    requires MonthStart(k) <= n
    ensures k <= MonthIndex(n)
  {
    hide MonthStart, MonthIndex;
    OnMonthLine(n);
    if MonthIndex(n) < k { MonthsGrow(MonthIndex(n) + 1, k); }
  }

  lemma AddMonthsMeans(c: int, n: int)
    requires MonthIndex(c) + n != 1
    ensures SameDayIn(AddMonths(c, n), MonthIndex(c) + n, DateOf(c))
  {
    hide MonthStart, MonthIndex, LastDay, AddMonths, DateOf;
    var k := MonthIndex(c) + n;
    AddMonthsLands(c, n);
    LastDayOnLine(k);
    if LastDay(k) < DateOf(c) { LastDayCloses(k); }
  }

  lemma PositionMeans(position: MonthPosition, k: int)
    requires k != 1
    ensures var x := Day(k, PositionDay(position, k)); MonthIndex(x) == k && InPosition(x, position)
  {
    hide MonthStart, MonthIndex, LastDay, DateOf;
    LastDayOnLine(k);
    ReadDay(k, PositionDay(position, k));
    LastDayCloses(k);
  }

  lemma WeekCloseMeans(nth: NthWeek, k: int)
    requires k != 1
    ensures var x := Day(k, WeekCloseDay(nth, k)); MonthIndex(x) == k && ClosesWeek(x, nth)
  {
    hide MonthStart, MonthIndex, LastDay, DateOf;
    LastDayOnLine(k);
    ReadDay(k, WeekCloseDay(nth, k));
    LastDayCloses(k);
  }

  lemma ClosesWeekUnique(nth: NthWeek, x: int, n: int)
    requires MonthIndex(x) == MonthIndex(n) && ClosesWeek(x, nth) && ClosesWeek(n, nth)
    ensures x == n
  {
    hide MonthStart, MonthIndex, DateOf;
    OnMonthLine(x);
    OnMonthLine(n);
    ClosesMonthOnLine(x);
    ClosesMonthOnLine(n);
  }

  lemma BoundsQuarterOnLine(x: int, q: Quarter, z: int, atStart: bool)
    ensures BoundsQuarter(x, q, z, atStart) <==> x == QuarterAt(q, atStart, z)
  {
    hide MonthStart, MonthIndex, QuarterAt, ClosesQuarter, OpensQuarter;
    QuarterLands(q, atStart, z);
    QuarterBoundsOnLine(x);
    var k := 12 * z + 3 * q - 3;
    MonthStep(k);
    MonthStep(k + 2);
    if x == QuarterAt(q, atStart, z) { MonthUnique(x, if atStart then k else k + 2); }
  }

  // ---- The reading of every phrase ----

  lemma StatedDateMeans(y: int, m0: int, d: int)
    requires ValidCivil(y, m0, d).Some?
    ensures At(ValidCivil(y, m0, d).value, 12 * y + m0, d)
  {
    hide MonthStart, MonthIndex, LastDay, ValidCivil, DateOf;
    ValidLands(y, m0, d);
    ReadDay(12 * y + m0, d);
  }

  lemma RolledDateMeans(base: int, m0: int, d: int)
    requires RollToFuture(base, m0, d).Some?
    ensures RealDate(YearOf(base), m0, d)
    ensures At(RollToFuture(base, m0, d).value, 12 * SaidYear(base, m0, d) + m0, d)
  {
    hide MonthStart, MonthIndex, LastDay, RollToFuture, RollYear, SaidYear, DateOf, YearOf, MonthLength;
    RollLands(base, m0, d);
    RollNothing(base, m0, d);
    SaidYearIsRollYear(base, m0, d);
    ReadDay(12 * RollYear(base, m0, d) + m0, d);
  }

  lemma AtUnique(x: int, n: int)
    requires MonthIndex(x) == MonthIndex(n) && DateOf(x) == DateOf(n)
    ensures x == n
  {
    hide MonthStart, MonthIndex, DateOf;
    OnMonthLine(x);
    OnMonthLine(n);
  }

  lemma OrdinalMeans(d: nat, base: int)
    requires 1 <= d <= 31 && MonthIndex(base) > 1
    ensures Means(OrdinalDay(d), base, ResolveOrdinalDay(d, base).value)
  {
    hide MonthStart, MonthIndex, LastDay, ResolveOrdinalDay, DateOf, YearOf;
    var k := MonthIndex(base);
    OrdinalLands(d, base);
    LastDayOnLine(k);
    LastDayOnLine(k + 1);
    if d <= LastDay(k) { ReadDay(k, d); assert At(Day(k, d), k, d); }
    forall n | At(n, k, d)
      ensures d <= LastDay(k) && n == Day(k, d)
    {
      OnMonthLine(n);
    }
    ReadDay(k + 1, Min(d, LastDay(k + 1)));
    LastDayCloses(k + 1);
  }

  lemma NamedQuarterMeans(q: Quarter, atStart: bool, z: Option<nat>, base: int)
    ensures Means(NamedQuarter(q, atStart, z), base, ResolveNamedQuarter(q, atStart, z, base))
  {
    hide MonthStart, MonthIndex, YearOf, QuarterAt, BoundsQuarter;
    var x := ResolveNamedQuarter(q, atStart, z, base);
    if z.Some? {
      BoundsQuarterOnLine(x, q, z.value, atStart);
    } else {
      var y := YearOf(base);
      BoundsQuarterOnLine(x, q, y, atStart);
      BoundsQuarterOnLine(x, q, y + 1, atStart);
      forall n | BoundsQuarter(n, q, y, atStart) ensures n == QuarterAt(q, atStart, y) {
        BoundsQuarterOnLine(n, q, y, atStart);
      }
    }
  }

  lemma WeekOfMonthMeans(nth: NthWeek, named: Option<Month0>, base: int)
    requires ResolveWeekOfMonth(nth, named, base).Some?
    requires MonthIndex(base) > 1 || named.Some?
    ensures Means(WeekOfMonth(nth, named), base, ResolveWeekOfMonth(nth, named, base).value)
  {
    hide MonthStart, MonthIndex, LastDay, RollToFuture, WeekClose, YearOf, StartOfMonth, DateOf, ClosesWeek, RollYear, SaidYear;
    if named.Some? {
      var m0 := named.value;
      var target := RollToFuture(base, m0, 1).value;
      RolledDateMeans(base, m0, 1);
      RollLands(base, m0, 1);
      SaidYearIsRollYear(base, m0, 1);
      WeekCloseLands(nth, target);
      WeekCloseMeans(nth, MonthIndex(target));
    } else {
      var k := MonthIndex(base);
      WeekCloseLands(nth, base);
      WeekCloseMeans(nth, k);
      StartOfMonthLands(base, 1);
      WeekCloseLands(nth, StartOfMonth(base, 1));
      WeekCloseMeans(nth, k + 1);
      forall n | MonthIndex(n) == k && ClosesWeek(n, nth) ensures n == WeekClose(nth, base) {
        ClosesWeekUnique(nth, n, WeekClose(nth, base));
      }
    }
  }

  lemma PartMeans(position: MonthPosition, m0: Month0, base: int)
    requires ResolvePartOfMonth(position, m0, base).Some?
    ensures Means(PartOfMonth(position, m0), base, ResolvePartOfMonth(position, m0, base).value)
  {
    hide MonthStart, MonthIndex, LastDay, ResolveBareMonth, RollToFuture, RollYear, SaidYear, InPosition, PositionInMonth, YearOf;
    PartLands(position, m0, base);
    PositionMeans(position, 12 * PartYear(m0, base) + m0);
    RollNothing(base, m0, 1);
    if RollToFuture(base, m0, 1).Some? { SaidYearIsRollYear(base, m0, 1); }
    if YearOf(base) == LAST_YEAR { PartYearAtTheEnd(position, m0, base); }
  }

  /** In the last year "end of september" cannot roll on, and means that September. */
  lemma PartYearAtTheEnd(position: MonthPosition, m0: Month0, base: int)
    requires ResolvePartOfMonth(position, m0, base).Some? && YearOf(base) == LAST_YEAR
    ensures PartYear(m0, base) == LAST_YEAR
    ensures RollToFuture(base, m0, 1).None? ==> position.EndOf?
  {
    hide MonthStart, LastDay, ResolveBareMonth, RollToFuture, PositionInMonth, YearOf;
    PartLands(position, m0, base);
    NearbyYears(base, m0);
  }

  lemma BareMeans(atStart: bool, m0: Month0, z: Option<nat>, base: int)
    requires ResolveBareMonth(atStart, m0, z, base).Some?
    ensures Means(BareMonth(atStart, m0, z), base, ResolveBareMonth(atStart, m0, z, base).value)
  {
    hide MonthStart, MonthIndex, LastDay, ResolveBareMonth, BareYear, DateOf, SaidYear, ClosingYear, YearOf;
    BareLands(atStart, m0, z, base);
    var k := 12 * BareYear(atStart, m0, z, base) + m0;
    LastDayOnLine(k);
    ReadDay(k, 1);
    LastDayCloses(k);
    BareYearIsRead(atStart, m0, z, base);
  }

  lemma BareYearIsRead(atStart: bool, m0: Month0, z: Option<nat>, base: int)
    requires ResolveBareMonth(atStart, m0, z, base).Some?
    ensures BareYear(atStart, m0, z, base)
         == if z.Some? then z.value else if atStart then SaidYear(base, m0, 1) else ClosingYear(base, m0)
  {
    hide MonthStart, LastDay, RollToFuture, SaidYear, ClosingYear, RollYear, YearOf, MonthLength, ResolveBareMonth;
    if z.None? {
      BareExists(atStart, m0, base);
      RollNothing(base, m0, BareDay(atStart, base, m0));
      if atStart { SaidYearIsRollYear(base, m0, 1); } else { ClosingYearIsBareYear(base, m0); }
    }
  }

  lemma MonthsMean(base: int, n: int)
    requires MonthIndex(base) + n > 1
    ensures MonthIndex(EndOfMonth(base, n)) == MonthIndex(base) + n && ClosesMonth(EndOfMonth(base, n))
    ensures At(StartOfMonth(base, n), MonthIndex(base) + n, 1)
    ensures At(PositionInMonth(Early, StartOfMonth(base, n)), MonthIndex(base) + n, 5)
    ensures At(PositionInMonth(Mid, StartOfMonth(base, n)), MonthIndex(base) + n, 15)
  {
    hide MonthStart, MonthIndex, LastDay, StartOfMonth, EndOfMonth, PositionInMonth, DateOf;
    var k := MonthIndex(base) + n;
    EndOfMonthLands(base, n);
    LastDayCloses(k);
    StartOfMonthLands(base, n);
    ReadDay(k, 1);
    PositionLands(Early, StartOfMonth(base, n));
    PositionLands(Mid, StartOfMonth(base, n));
    PositionMeans(Early, k);
    PositionMeans(Mid, k);
  }

  lemma QuartersMean(base: int, n: int)
    ensures QuarterIndex(QuarterStart(base, n)) == QuarterIndex(base) + n && OpensQuarter(QuarterStart(base, n))
    ensures QuarterIndex(QuarterEnd(base, n)) == QuarterIndex(base) + n && ClosesQuarter(QuarterEnd(base, n))
  {
    hide MonthStart, MonthIndex, QuarterStart, QuarterEnd, OpensQuarter, ClosesQuarter;
    var k := 3 * (QuarterIndex(base) + n);
    QuarterStartOnLine(base, n);
    QuarterEndOnLine(base, n);
    MonthStep(k + 2);
    MonthUnique(MonthStart(k + 3) - 1, k + 2);
    QuarterBoundsOnLine(QuarterStart(base, n));
    QuarterBoundsOnLine(QuarterEnd(base, n));
  }

  lemma YearEndsMean(y: int)
    ensures At(Civil(y, 11, 31), 12 * y + 11, 31) && At(Civil(y, 0, 1), 12 * y, 1)
  {
    hide MonthStart, MonthIndex, LastDay, Civil, DateOf, IsLeap;
    LastDayIsReal(y, 11);
    LastDayIsReal(y, 0);
    LastDayOfStated(y, 11);
    LastDayOfStated(y, 0);
    CivilOnLine(y, 11, 31);
    CivilOnLine(y, 0, 1);
    ReadDay(12 * y + 11, 31);
    ReadDay(12 * y, 1);
  }

  lemma WeeksMean(base: int, w: int)
    requires 0 <= w < 7
    ensures base <= EndOfThisWeek(base) < base + 7 && DayOfWeek(EndOfThisWeek(base)) == FRIDAY
    ensures InNextWeek(WeekdayNextWeek(base, w), base, w)
    ensures InNextWeek(MondayOfWeek(base) + 7, base, MONDAY) && InNextWeek(MondayOfWeek(base) + 9, base, 3)
    ensures InNextWeek(MondayOfWeek(base) + 11, base, FRIDAY)
    ensures base < NextWeekdayAfter(base, w) <= base + 7 && DayOfWeek(NextWeekdayAfter(base, w)) == w
  {
    EndOfThisWeekIsLeast(base, base);
    NextWeekdayIsLeast(base, w, base);
    WeekdayNextWeekIsFixed(base, base, w);
    WeekdayNextWeekIsFixed(base, base, MONDAY);
    WeekdayNextWeekIsFixed(base, base, 3);
    WeekdayNextWeekIsFixed(base, base, FRIDAY);
  }

  lemma DurationMeans(p: Phrase, base: int)
    requires IsDuration(p) && ResolveDuration(p, base).Some? && MonthIndex(base) > 1
    ensures MeansDuration(p, base, ResolveDuration(p, base).value)
  {
    hide MonthStart, MonthIndex, ParseCount, CountIs, AddMonths, BusinessDaysAfter, DateOf, SameDayIn, IsNthWeekdayAfter;
    TheCount(p.count);
    var n := ParseCount(p.count).value;
    assert CountIs(p.count, n);
    var x := ResolveDuration(p, base).value;
    match p
    case BusinessDays(_) => BusinessDaysCount(base, Min(n, 3650)); assert IsNthWeekdayAfter(base, Min(n, 3650), x);
    case Months(_) => AddMonthsMeans(base, n); assert SameDayIn(x, MonthIndex(base) + n, DateOf(base));
    case Hours(_) => assert HoursOn(base, n, x);
    case _ =>
  }

  lemma NamedDatesMean(p: Phrase, base: int)
    requires NamesMonth(p) && Match(p, base).Some?
    ensures Means(p, base, Match(p, base).value)
  {
    hide ValidCivil, RollToFuture, SaidYear, ClosingYear, RollYear, ResolveBareMonth, ResolvePartOfMonth, ResolveWeekOfMonth, MonthIndex,
      DateOf, ClosesMonth, At, YearOf;
    match p
    case YearMonthDay(y, m, d) => StatedDateMeans(y, m - 1, d);
    case NumericDate(m, d, Some(z)) => StatedDateMeans(FullYear(z), m - 1, d);
    case NumericDate(m, d, None) => RolledDateMeans(base, m - 1, d);
    case MonthDay(m0, d, Some(z)) => StatedDateMeans(z, m0, d);
    case MonthDay(m0, d, None) => RolledDateMeans(base, m0, d);
    case PartOfMonth(position, m0) => PartMeans(position, m0, base);
    case WeekOfMonth(nth, named) => WeekOfMonthMeans(nth, named, base);
    case BareMonth(atStart, m0, z) => BareMeans(atStart, m0, z, base);
  }

  /** A resolved date is what its phrase means, from every anchor after year 0's February. */
  lemma MatchMeans(p: Phrase, base: int)
    requires Match(p, base).Some? && MonthIndex(base) > 1
    ensures Means(p, base, Match(p, base).value)
  {
    hide Civil, LastDayOfMonth, MonthStart, MonthIndex, DateOf, MonthOf, ValidCivil, ResolveOrdinalDay,
      ResolveNamedQuarter, ResolveWeekOfMonth, ResolveDuration, PositionInMonth, AddMonths, StartOfMonth, EndOfMonth,
      QuarterStart, QuarterEnd, MondayOfWeek, EndOfThisWeek, NextWeekdayAfter, WeekdayNextWeek, ClosesMonth,
      ClosesQuarter, OpensQuarter, InNextWeek, SameDayIn, At, YearOf, SaidYear, ClosingYear, MeansDuration,
      InPosition, ClosesWeek, BoundsQuarter;
    if NamesMonth(p) {
      NamedDatesMean(p, base);
    } else {
      match p
      case EndOfStatedYear(y) => StatedDateMeans(y, 11, 31);
      case OrdinalDay(d) => OrdinalInRange(d, base); OrdinalMeans(d, base);
      case NamedQuarter(q, atStart, z) => NamedQuarterMeans(q, atStart, z, base);
      case WeekOfMonth(nth, named) => WeekOfMonthMeans(nth, named, base);
      case WeekdayOfNextWeek(w) => WeeksMean(base, w);
      case ComingWeekday(w) => WeeksMean(base, w);
      case ThisWeek | NextWeekMonday | NextWeekWednesday | NextWeekFriday => WeeksMean(base, MONDAY);
      case BusinessDays(_) | Days(_) | Weeks(_) | Months(_) | Hours(_) => DurationMeans(p, base);
      case NextMonth => AddMonthsMeans(base, 1);
      case ThisYear | NextYearEnd | NextYearStart => YearEndsMean(YearOf(base)); YearEndsMean(YearOf(base) + 1);
      case ThisQuarter | NextQuarterEnd | NextQuarterStart => QuartersMean(base, 0); QuartersMean(base, 1);
      case _ => MonthsMean(base, 0); MonthsMean(base, 1);
    }
  }

  // ---- The reading fixes the date ----

  lemma SameDayUnique(x: int, n: int, k: int, d: int)
    requires SameDayIn(x, k, d) && SameDayIn(n, k, d)
    ensures x == n
  {
    hide MonthStart, MonthIndex, DateOf, ClosesMonth;
    OnMonthLine(x);
    OnMonthLine(n);
    ClosesMonthOnLine(x);
    ClosesMonthOnLine(n);
    MonthStep(k);
  }

  lemma ClosesUnique(x: int, n: int)
    ensures MonthIndex(x) == MonthIndex(n) && ClosesMonth(x) && ClosesMonth(n) ==> x == n
    ensures QuarterIndex(x) == QuarterIndex(n) && ClosesQuarter(x) && ClosesQuarter(n) ==> x == n
    ensures QuarterIndex(x) == QuarterIndex(n) && OpensQuarter(x) && OpensQuarter(n) ==> x == n
  {
    hide MonthStart, MonthIndex, ClosesMonth, ClosesQuarter, OpensQuarter;
    ClosesMonthOnLine(x);
    ClosesMonthOnLine(n);
    QuarterBoundsOnLine(x);
    QuarterBoundsOnLine(n);
  }

  lemma WeekPlaceUnique(x: int, n: int, base: int)
    requires DayOfWeek(x) == DayOfWeek(n)
    requires MondayOfWeek(x) == MondayOfWeek(n) || (base <= x < base + 7 && base <= n < base + 7)
      || (base < x <= base + 7 && base < n <= base + 7)
    ensures x == n
  {
  }

  ghost predicate Agree(x: int, n: int) {
    MonthIndex(x) == MonthIndex(n) && DateOf(x) == DateOf(n)
  }

  /** No two dates carry the meaning of one phrase, so the meaning is all there is to know. */
  lemma MeaningIsUnique(p: Phrase, base: int, x: int, n: int)
    requires Means(p, base, x) && Means(p, base, n)
    ensures x == n
  {
    hide Means;
    if NamesMonth(p) {
      NamedMeaningIsUnique(p, base, x, n);
    } else if IsDuration(p) {
      assert MeansDuration(p, base, x) && MeansDuration(p, base, n) by { DurationIsMeant(p, base, x); DurationIsMeant(p, base, n); }
      DurationMeaningIsUnique(p, base, x, n);
    } else if NamesWeek(p) {
      WeekMeaningIsUnique(p, base, x, n);
    } else {
      PeriodMeaningIsUnique(p, base, x, n);
    }
  }

  lemma DurationIsMeant(p: Phrase, base: int, x: int)
    requires IsDuration(p)
    ensures Means(p, base, x) <==> MeansDuration(p, base, x)
  {
    hide MeansDuration;
  }

  predicate NamesWeek(p: Phrase) {
    p.ThisWeek? || p.NextWeekMonday? || p.NextWeekWednesday? || p.NextWeekFriday? || p.WeekdayOfNextWeek? || p.ComingWeekday?
  }

  lemma WeekMeaningIsUnique(p: Phrase, base: int, x: int, n: int)
    requires NamesWeek(p) && Means(p, base, x) && Means(p, base, n)
    ensures x == n
  {
    hide MonthIndex, DateOf, MondayOfWeek, DayOfWeek, YearOf, MeansDuration;
    WeekPlaceUnique(x, n, base);
  }

  lemma PeriodMeaningIsUnique(p: Phrase, base: int, x: int, n: int)
    requires !NamesMonth(p) && !IsDuration(p) && !NamesWeek(p) && Means(p, base, x) && Means(p, base, n)
    ensures x == n
  {
    hide MonthIndex, DateOf, ClosesMonth, ClosesQuarter, OpensQuarter, MondayOfWeek, DayOfWeek, SaidYear, ClosingYear,
      ClosesWeek, SameDayIn, MeansDuration, YearOf;
    match p
    case OrdinalDay(d) => OrdinalUnique(d, base, x, n);
    case NextMonthStart | NextMonthEarly | NextMonthMid => AtUnique(x, n);
    case ThisYear | NextYearEnd | NextYearStart | EndOfStatedYear(_) => AtUnique(x, n);
    case NextMonth => SameDayUnique(x, n, MonthIndex(base) + 1, DateOf(base));
    case ThisMonth | NextMonthEnd => ClosesUnique(x, n);
    case ThisQuarter | NextQuarterEnd | NextQuarterStart | NamedQuarter(_, _, _) => ClosesUnique(x, n);
    case WeekOfMonth(nth, _) => ClosesWeekUnique(nth, x, n);
    case _ =>
  }

  lemma DurationMeaningIsUnique(p: Phrase, base: int, x: int, n: int)
    requires IsDuration(p) && MeansDuration(p, base, x) && MeansDuration(p, base, n)
    ensures x == n
  {
    hide MonthIndex, DateOf, SameDayIn, IsNthWeekdayAfter, ParseCount, CountIs;
    TheCount(p.count);
    var count := ParseCount(p.count).value;
    if p.BusinessDays? { NthWeekdayUnique(base, Min(count, MAX_DURATION_DAYS), x, n); }
    if p.Months? { SameDayUnique(x, n, MonthIndex(base) + count, DateOf(base)); }
  }

  lemma OrdinalUnique(d: nat, base: int, x: int, n: int)
    requires Means(OrdinalDay(d), base, x) && Means(OrdinalDay(d), base, n)
    ensures x == n
  {
    hide MonthStart, MonthIndex, DateOf, SameDayIn, YearOf;
    if SameDayIn(x, MonthIndex(base) + 1, d) && SameDayIn(n, MonthIndex(base) + 1, d) {
      SameDayUnique(x, n, MonthIndex(base) + 1, d);
    } else {
      AtUnique(x, n);
    }
  }

  lemma NamedMeaningIsUnique(p: Phrase, base: int, x: int, n: int)
    requires NamesMonth(p) && Means(p, base, x) && Means(p, base, n)
    ensures x == n
  {
    hide MonthStart, MonthIndex, DateOf, ClosesMonth, SaidYear, ClosingYear, ClosesWeek, YearOf;
    if p.WeekOfMonth? {
      ClosesWeekUnique(p.nth, x, n);
    } else {
      ClosesUnique(x, n);
      if Agree(x, n) { AtUnique(x, n); }
    }
  }
}
