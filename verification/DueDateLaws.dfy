/**
 What every resolved due date satisfies, whatever the phrase and whatever the day it was said on.
 */
module DueDateLaws {
  import opened Options
  import opened Calendar
  import opened CivilDates
  import opened IsoText
  import opened DueDate
  import opened DueDateLines

  // ---- Months named in a phrase ----

  ghost function BareDay(atStart: bool, base: int, m0: int): int {
    if atStart then 1 else LastDay(12 * YearOf(base) + m0)
  }

  /** The year a bare month is read in; its close is what decides when it rolls on. */
  ghost function BareYear(atStart: bool, m0: int, statedYear: Option<nat>, base: int): int {
    if statedYear.Some? then statedYear.value else RollYear(base, m0, BareDay(atStart, base, m0))
  }

  lemma BareLands(atStart: bool, m0: int, statedYear: Option<nat>, base: int)
    requires 0 <= m0 < 12 && ResolveBareMonth(atStart, m0, statedYear, base).Some?
    ensures var y := BareYear(atStart, m0, statedYear, base); var k := 12 * y + m0;
            && 1970 <= y <= 2999
            && ResolveBareMonth(atStart, m0, statedYear, base).value == Day(k, if atStart then 1 else LastDay(k))
  {
    hide MonthStart, LastDay, LastDayOfMonth, ValidCivil, RollToFuture, EndOfMonth, RollYear, YearOf, Day;
    var y := BareYear(atStart, m0, statedYear, base);
    var d := if atStart then 1
             else LastDayOfMonth(if statedYear.Some? then statedYear.value else YearOf(base), m0);
    LastDayOfStated(if statedYear.Some? then statedYear.value else YearOf(base), m0);
    LastDayOfStated(y, m0);
    if statedYear.Some? { ValidLands(y, m0, d); } else { RollLands(base, m0, d); }
    ReadDay(12 * y + m0, d);
    EndOfMonthLands(Day(12 * y + m0, d), 0);
  }

  lemma BareExists(atStart: bool, m0: int, base: int)
    requires 0 <= m0 < 12
    ensures ResolveBareMonth(atStart, m0, None, base).Some?
       <==> RollToFuture(base, m0, BareDay(atStart, base, m0)).Some?
  {
    hide MonthStart, LastDay, LastDayOfMonth, RollToFuture, EndOfMonth, YearOf;
    LastDayOfStated(YearOf(base), m0);
  }

  ghost function PartYear(m0: int, base: int): int {
    if RollToFuture(base, m0, 1).Some? then RollYear(base, m0, 1)
    else RollYear(base, m0, BareDay(false, base, m0))
  }

  lemma PartLands(position: MonthPosition, m0: int, base: int)
    requires 0 <= m0 < 12 && ResolvePartOfMonth(position, m0, base).Some?
    ensures var y := PartYear(m0, base); var k := 12 * y + m0;
            && 1970 <= y <= 2999 && 1 <= PositionDay(position, k) <= LastDay(k)
            && ResolvePartOfMonth(position, m0, base).value == Day(k, PositionDay(position, k))
    ensures RollToFuture(base, m0, 1).None? ==> YearOf(base) == PartYear(m0, base) == 2999
  {
    hide MonthStart, LastDay, RollToFuture, PositionInMonth, RollYear, YearOf, Day, ResolveBareMonth, IsLeap, MonthLength;
    if RollToFuture(base, m0, 1).Some? {
      RollLands(base, m0, 1);
      ReadDay(12 * RollYear(base, m0, 1) + m0, 1);
      PositionLands(position, Day(12 * RollYear(base, m0, 1) + m0, 1));
    } else {
      BareLands(false, m0, None, base);
      LastDayOnLine(12 * PartYear(m0, base) + m0);
      RollNothing(base, m0, 1);
      BareExists(false, m0, base);
      RollNothing(base, m0, BareDay(false, base, m0));
      NearbyYears(base, m0);
    }
  }

  lemma NearbyYears(base: int, m0: int)
    ensures YearOf(base) <= PartYear(m0, base) <= YearOf(base) + 1
  {
    hide MonthStart, LastDay, RollToFuture, YearOf, Day;
  }

  lemma PartYearMonotone(a: int, b: int, position: MonthPosition, m0: int)
    requires a <= b && 0 <= m0 < 12
    requires ResolvePartOfMonth(position, m0, a).Some? && ResolvePartOfMonth(position, m0, b).Some?
    ensures PartYear(m0, a) <= PartYear(m0, b)
  {
    hide MonthStart, LastDay, RollToFuture, RollYear, YearOf, Day, ResolvePartOfMonth, PositionDay;
    PartLands(position, m0, a);
    PartLands(position, m0, b);
    MonthsInOrder(a, b);
    NearbyYears(b, m0);
    RollYearMonotone(a, b, m0, 1, 1);
  }

  // ---- A later anchor never gives an earlier date ----

  lemma RollMonotone(a: int, b: int, m0: int, d: int)
    requires a <= b && RollToFuture(a, m0, d).Some? && RollToFuture(b, m0, d).Some?
    ensures RollToFuture(a, m0, d).value <= RollToFuture(b, m0, d).value
  {
    hide MonthStart, LastDay, RollToFuture, RollYear, Day;
    RollLands(a, m0, d);
    RollLands(b, m0, d);
    RollYearMonotone(a, b, m0, d, d);
    DaysInOrder(12 * RollYear(a, m0, d) + m0, d, 12 * RollYear(b, m0, d) + m0, d);
  }

  lemma BareMonotone(a: int, b: int, atStart: bool, m0: int, statedYear: Option<nat>)
    requires a <= b && 0 <= m0 < 12
    requires ResolveBareMonth(atStart, m0, statedYear, a).Some? && ResolveBareMonth(atStart, m0, statedYear, b).Some?
    ensures ResolveBareMonth(atStart, m0, statedYear, a).value <= ResolveBareMonth(atStart, m0, statedYear, b).value
  {
    hide MonthStart, LastDay, RollYear, YearOf, Day, ResolveBareMonth;
    BareLands(atStart, m0, statedYear, a);
    BareLands(atStart, m0, statedYear, b);
    RollYearMonotone(a, b, m0, BareDay(atStart, a, m0), BareDay(atStart, b, m0));
    var j, k := 12 * BareYear(atStart, m0, statedYear, a) + m0, 12 * BareYear(atStart, m0, statedYear, b) + m0;
    LastDayOnLine(j);
    LastDayOnLine(k);
    DaysInOrder(j, if atStart then 1 else LastDay(j), k, if atStart then 1 else LastDay(k));
  }

  lemma PartMonotone(a: int, b: int, position: MonthPosition, m0: int)
    requires a <= b && 0 <= m0 < 12
    requires ResolvePartOfMonth(position, m0, a).Some? && ResolvePartOfMonth(position, m0, b).Some?
    ensures ResolvePartOfMonth(position, m0, a).value <= ResolvePartOfMonth(position, m0, b).value
  {
    hide MonthStart, LastDay, PartYear, Day, ResolvePartOfMonth;
    PartLands(position, m0, a);
    PartLands(position, m0, b);
    PartYearMonotone(a, b, position, m0);
    var j, k := 12 * PartYear(m0, a) + m0, 12 * PartYear(m0, b) + m0;
    DaysInOrder(j, PositionDay(position, j), k, PositionDay(position, k));
  }

  lemma WeekOfMonthMonotone(a: int, b: int, nth: NthWeek, named: Option<Month0>)
    requires a <= b
    requires ResolveWeekOfMonth(nth, named, a).Some? && ResolveWeekOfMonth(nth, named, b).Some?
    ensures ResolveWeekOfMonth(nth, named, a).value <= ResolveWeekOfMonth(nth, named, b).value
  {
    hide MonthStart, LastDay, RollToFuture, Day, WeekClose, StartOfMonth, MonthIndex;
    if named.Some? {
      RollMonotone(a, b, named.value, 1);
      WeekCloseMonotone(RollToFuture(a, named.value, 1).value, RollToFuture(b, named.value, 1).value, nth);
    } else {
      WeekCloseMonotone(a, b, nth);
      StartOfMonthLands(a, 1);
      StartOfMonthLands(b, 1);
      MonthsInOrder(a, b);
      LastDayOnLine(MonthIndex(a) + 1);
      DaysInOrder(MonthIndex(a) + 1, 1, MonthIndex(b) + 1, 1);
      WeekCloseMonotone(StartOfMonth(a, 1), StartOfMonth(b, 1), nth);
      if WeekClose(nth, a) < a && WeekClose(nth, b) >= b {
        NextMonthWhenPassed(a, b, nth);
      }
      WeekCloseLater(b, nth);
    }
  }

  lemma WeekCloseMonotone(a: int, b: int, nth: NthWeek)
    requires a <= b
    ensures WeekClose(nth, a) <= WeekClose(nth, b)
  {
    hide MonthStart, LastDay, Day, WeekClose, MonthIndex;
    WeekCloseLands(nth, a);
    WeekCloseLands(nth, b);
    MonthsInOrder(a, b);
    DaysInOrder(MonthIndex(a), WeekCloseDay(nth, MonthIndex(a)), MonthIndex(b), WeekCloseDay(nth, MonthIndex(b)));
  }

  lemma WeekCloseLater(b: int, nth: NthWeek)
    ensures WeekClose(nth, b) <= WeekClose(nth, StartOfMonth(b, 1))
    ensures b <= WeekClose(nth, StartOfMonth(b, 1))
  {
    hide MonthStart, LastDay, WeekClose, MonthIndex, StartOfMonth;
    StartOfMonthLands(b, 1);
    WeekCloseLands(nth, StartOfMonth(b, 1));
    OnMonthLine(b);
    WeekCloseMonotone(b, StartOfMonth(b, 1), nth);
  }

  lemma NextMonthWhenPassed(a: int, b: int, nth: NthWeek)
    requires a <= b && WeekClose(nth, a) < a && WeekClose(nth, b) >= b
    ensures WeekClose(nth, StartOfMonth(a, 1)) <= WeekClose(nth, b)
  {
    hide MonthStart, LastDay, WeekClose, MonthIndex, StartOfMonth, WeekCloseDay;
    MonthsInOrder(a, b);
    StartOfMonthLands(a, 1);
    WeekCloseLands(nth, a);
    WeekCloseLands(nth, b);
    WeekCloseLands(nth, StartOfMonth(a, 1));
    OnMonthLine(b);
    if MonthIndex(a) < MonthIndex(b) {
      MonthsGrow(MonthIndex(a) + 1, MonthIndex(b));
      WeekCloseMonotone(StartOfMonth(a, 1), b, nth);
    }
  }

  lemma OrdinalMonotone(a: int, b: int, day: nat)
    requires a <= b && 1 <= day <= 31
    ensures ResolveOrdinalDay(day, a).value <= ResolveOrdinalDay(day, b).value
  {
    hide MonthStart, LastDay, MonthIndex, YearOf, ResolveOrdinalDay;
    OrdinalLands(day, a);
    OrdinalLands(day, b);
    MonthsInOrder(a, b);
    OnMonthLine(a);
    OnMonthLine(b);
    var j, k := MonthIndex(a), MonthIndex(b);
    LastDayOnLine(j);
    LastDayOnLine(j + 1);
    LastDayOnLine(k);
    LastDayOnLine(k + 1);
    if j < k {
      MonthsGrow(j + 1, k);
      MonthsGrow(j + 2, k + 1);
      DaysInOrder(j + 1, Min(day, LastDay(j + 1)), k + 1, Min(day, LastDay(k + 1)));
      if day <= LastDay(k) { DaysInOrder(j + 1, Min(day, LastDay(j + 1)), k, day); }
    }
  }

  lemma NamedQuarterMonotone(a: int, b: int, quarter: Quarter, atStart: bool, statedYear: Option<nat>)
    requires a <= b
    ensures ResolveNamedQuarter(quarter, atStart, statedYear, a) <= ResolveNamedQuarter(quarter, atStart, statedYear, b)
  {
    hide YearOf, QuarterAt;
    MonthsInOrder(a, b);
    var y, z := YearOf(a), YearOf(b);
    QuarterLater(quarter, atStart, y, z);
    QuarterLater(quarter, atStart, y + 1, z + 1);
    QuarterLater(quarter, atStart, z, z + 1);
    if y < z { QuarterLater(quarter, atStart, y + 1, z); }
  }

  lemma DurationMonotone(a: int, b: int, p: Phrase)
    requires a <= b && (p.BusinessDays? || p.Days? || p.Weeks? || p.Months? || p.Hours?)
    requires ResolveDuration(p, a).Some? && ResolveDuration(p, b).Some?
    ensures ResolveDuration(p, a).value <= ResolveDuration(p, b).value
  {
    hide BusinessDaysAfter, AddMonths, ParseCount;
    var n := ParseCount(p.count).value;
    BusinessDaysMonotone(a, b, Min(n, MAX_DURATION_DAYS));
    AddMonthsMonotone(a, b, n);
  }

  lemma MonthsAheadMonotone(a: int, b: int)
    requires a <= b
    ensures forall n :: EndOfMonth(a, n) <= EndOfMonth(b, n) && StartOfMonth(a, n) <= StartOfMonth(b, n)
    ensures forall n :: QuarterStart(a, n) <= QuarterStart(b, n) && QuarterEnd(a, n) <= QuarterEnd(b, n)
  {
    hide *;
    MonthsInOrder(a, b);
    forall n
      ensures EndOfMonth(a, n) <= EndOfMonth(b, n) && StartOfMonth(a, n) <= StartOfMonth(b, n)
      ensures QuarterStart(a, n) <= QuarterStart(b, n) && QuarterEnd(a, n) <= QuarterEnd(b, n)
    {
      MonthAheadMonotone(a, b, n);
      QuarterAheadMonotone(a, b, n);
    }
  }

  lemma MonthAheadMonotone(a: int, b: int, n: int)
    requires a <= b
    ensures EndOfMonth(a, n) <= EndOfMonth(b, n) && StartOfMonth(a, n) <= StartOfMonth(b, n)
  {
    hide *;
    MonthsInOrder(a, b);
    EndOfMonthLands(a, n);
    EndOfMonthLands(b, n);
    StartOfMonthLands(a, n);
    StartOfMonthLands(b, n);
    var j, k := MonthIndex(a) + n, MonthIndex(b) + n;
    DaysInOrder(j, LastDay(j), k, LastDay(k));
    DaysInOrder(j, 1, k, 1);
  }

  lemma QuarterAheadMonotone(a: int, b: int, n: int)
    requires a <= b
    ensures QuarterStart(a, n) <= QuarterStart(b, n) && QuarterEnd(a, n) <= QuarterEnd(b, n)
  {
    hide MonthIndex, MonthStart, QuarterStart, QuarterEnd;
    MonthsInOrder(a, b);
    QuarterStartOnLine(a, n);
    QuarterStartOnLine(b, n);
    QuarterEndOnLine(a, n);
    QuarterEndOnLine(b, n);
    MonthsGrow(3 * (QuarterIndex(a) + n), 3 * (QuarterIndex(b) + n));
    MonthsGrow(3 * (QuarterIndex(a) + n) + 3, 3 * (QuarterIndex(b) + n) + 3);
  }

  lemma YearEndsMonotone(y: int, z: int)
    requires y <= z
    ensures Civil(y, 11, 31) <= Civil(z, 11, 31) && Civil(y, 0, 1) <= Civil(z, 0, 1)
  {
    hide *;
    YearEndsLand(y);
    YearEndsLand(z);
    MonthsGrow(12 * y + 12, 12 * z + 12);
    MonthsGrow(12 * y, 12 * z);
  }

  lemma PositionMonotone(a: int, b: int, position: MonthPosition)
    requires a <= b
    ensures PositionInMonth(position, a) <= PositionInMonth(position, b)
  {
    hide MonthStart, LastDay, Day, PositionInMonth, MonthIndex;
    PositionLands(position, a);
    PositionLands(position, b);
    MonthsInOrder(a, b);
    DaysInOrder(MonthIndex(a), PositionDay(position, MonthIndex(a)), MonthIndex(b), PositionDay(position, MonthIndex(b)));
  }

  lemma WeeksMonotone(a: int, b: int, target: int)
    requires a <= b && 0 <= target < 7
    ensures MondayOfWeek(a) <= MondayOfWeek(b) && EndOfThisWeek(a) <= EndOfThisWeek(b)
    ensures NextWeekdayAfter(a, target) <= NextWeekdayAfter(b, target)
    ensures WeekdayNextWeek(a, target) <= WeekdayNextWeek(b, target)
  {
    hide NextWeekdayAfter, EndOfThisWeek, DayOfWeek;
    assert MondayOfWeek(a) <= MondayOfWeek(b) by { MondaysInOrder(a, b); }
    NextWeekdayIsLeast(b, target, b);
    NextWeekdayIsLeast(a, target, NextWeekdayAfter(b, target));
    EndOfThisWeekIsLeast(b, b);
    EndOfThisWeekIsLeast(a, EndOfThisWeek(b));
  }

  lemma MondaysInOrder(a: int, b: int)
    requires a <= b
    ensures MondayOfWeek(a) <= MondayOfWeek(b)
  {
    MondayOfWeekIsUnique(a, MondayOfWeek(a));
    MondayOfWeekIsUnique(b, MondayOfWeek(b));
    MondayOfWeekIsUnique(a, MondayOfWeek(b));
  }

  /** Said later, never due earlier: for every phrase, whenever both anchors resolve it. */
  lemma MatchMonotone(p: Phrase, a: int, b: int)
    requires a <= b && Match(p, a).Some? && Match(p, b).Some?
    ensures Match(p, a).value <= Match(p, b).value
  {
    hide Civil, LastDayOfMonth, MonthStart, MonthIndex, YearOf, MonthOf, DateOf, ValidCivil, RollToFuture,
      ResolveBareMonth, ResolvePartOfMonth, ResolveOrdinalDay, ResolveNamedQuarter, ResolveWeekOfMonth,
      ResolveDuration, PositionInMonth, AddMonths, StartOfMonth, EndOfMonth, QuarterStart, QuarterEnd,
      MondayOfWeek, EndOfThisWeek, NextWeekdayAfter, WeekdayNextWeek;
    match p
    case NumericDate(m, d, None) => RollMonotone(a, b, m - 1, d);
    case MonthDay(m0, d, None) => RollMonotone(a, b, m0, d);
    case PartOfMonth(position, m0) => PartMonotone(a, b, position, m0);
    case OrdinalDay(d) => OrdinalInRange(d, a); OrdinalMonotone(a, b, d);
    case NextMonthEarly => MonthsAheadMonotone(a, b); PositionMonotone(StartOfMonth(a, 1), StartOfMonth(b, 1), Early);
    case NextMonthMid => MonthsAheadMonotone(a, b); PositionMonotone(StartOfMonth(a, 1), StartOfMonth(b, 1), Mid);
    case NextMonth => AddMonthsMonotone(a, b, 1);
    case ThisYear | NextYearEnd | NextYearStart =>
      MonthsInOrder(a, b);
      YearEndsMonotone(YearOf(a), YearOf(b));
      YearEndsMonotone(YearOf(a) + 1, YearOf(b) + 1);
    case NamedQuarter(q, atStart, y) => NamedQuarterMonotone(a, b, q, atStart, y);
    case WeekOfMonth(nth, named) => WeekOfMonthMonotone(a, b, nth, named);
    case BareMonth(atStart, m0, y) => BareMonotone(a, b, atStart, m0, y);
    case BusinessDays(_) | Days(_) | Weeks(_) | Months(_) | Hours(_) => DurationMonotone(a, b, p);
    case WeekdayOfNextWeek(w) => WeeksMonotone(a, b, w);
    case ComingWeekday(w) => WeeksMonotone(a, b, w);
    case ThisWeek | NextWeekMonday | NextWeekWednesday | NextWeekFriday => WeeksMonotone(a, b, MONDAY);
    case _ => MonthsAheadMonotone(a, b);
  }

  lemma OrdinalInRange(day: nat, base: int)
    ensures ResolveOrdinalDay(day, base).Some? <==> 1 <= day <= 31
  {
    hide Civil, LastDayOfMonth, ValidCivil, StartOfMonth, YearOf, MonthOf;
  }

  /** The same in the stored text: said later, never stored as an earlier string. */
  lemma ResolveMonotone(p: Phrase, a: int, b: int)
    requires a <= b && Resolve(p, a).Some? && Resolve(p, b).Some?
    ensures !TextBefore(Resolve(p, b).value, Resolve(p, a).value)
  {
    hide Match, IsoOf, TextBefore;
    MatchMonotone(p, a, b);
    IsoOrder(Match(p, b).value, Match(p, a).value);
  }
}
