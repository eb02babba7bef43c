/**
 How far from the anchor a due date can fall, which counts escape the ceiling, and where two
 readings of one month come apart.
 */
module DueDateBounds {
  import opened Options
  import opened Calendar
  import opened CivilDates
  import opened IsoText
  import opened DueDate
  import opened DueDateLines
  import opened DueDateLaws

  predicate StatesNoYear(p: Phrase) {
    match p
    case YearMonthDay(_, _, _) => false
    case EndOfStatedYear(_) => false
    case NumericDate(_, _, y) => y.None?
    case MonthDay(_, _, y) => y.None?
    case NamedQuarter(_, _, y) => y.None?
    case BareMonth(_, _, y) => y.None?
    case _ => true
  }

  predicate NamesMonth(p: Phrase) {
    match p
    case YearMonthDay(_, _, _) => true
    case NumericDate(_, _, _) => true
    case MonthDay(_, _, _) => true
    case PartOfMonth(_, _) => true
    case BareMonth(_, _, _) => true
    case WeekOfMonth(_, named) => named.Some?
    case _ => false
  }

  predicate IsDuration(p: Phrase) {
    p.BusinessDays? || p.Days? || p.Weeks? || p.Months? || p.Hours?
  }

  // ---- Named months reach back at most 60 days ----

  lemma PartWindow(position: MonthPosition, m0: int, base: int)
    requires 0 <= m0 < 12 && ResolvePartOfMonth(position, m0, base).Some?
    ensures base - 60 <= ResolvePartOfMonth(position, m0, base).value
  {
    hide MonthStart, LastDay, LastDayOfMonth, RollToFuture, PositionInMonth, YearOf, Day, ResolveBareMonth;
    if RollToFuture(base, m0, 1).Some? {
      RollWindow(base, m0, 1);
      RollLands(base, m0, 1);
      var k := 12 * RollYear(base, m0, 1) + m0;
      ReadDay(k, 1);
      PositionLands(position, Day(k, 1));
      DaysInOrder(k, 1, k, PositionDay(position, k));
    } else {
      BareWindow(false, m0, base);
    }
  }

  lemma BareWindow(atStart: bool, m0: int, base: int)
    requires 0 <= m0 < 12 && ResolveBareMonth(atStart, m0, None, base).Some?
    ensures base - 60 <= ResolveBareMonth(atStart, m0, None, base).value
  {
    hide MonthStart, LastDay, LastDayOfMonth, RollToFuture, YearOf, Day, ResolveBareMonth, RollYear;
    var d := BareDay(atStart, base, m0);
    BareExists(atStart, m0, base);
    BareLands(atStart, m0, None, base);
    RollWindow(base, m0, d);
    RollLands(base, m0, d);
    var k := 12 * RollYear(base, m0, d) + m0;
    DaysInOrder(k, d, k, if atStart then 1 else LastDay(k));
  }

  lemma WeekOfMonthWindow(nth: NthWeek, named: Option<Month0>, base: int)
    requires ResolveWeekOfMonth(nth, named, base).Some?
    ensures base - 60 <= ResolveWeekOfMonth(nth, named, base).value
    ensures named.None? ==> base <= ResolveWeekOfMonth(nth, named, base).value
  {
    hide MonthStart, LastDay, RollToFuture, YearOf, Day, WeekClose, StartOfMonth;
    if named.Some? {
      var m0 := named.value;
      RollWindow(base, m0, 1);
      RollLands(base, m0, 1);
      var k := 12 * RollYear(base, m0, 1) + m0;
      ReadDay(k, 1);
      WeekCloseLands(nth, Day(k, 1));
      DaysInOrder(k, 1, k, WeekCloseDay(nth, k));
    } else {
      WeekCloseLater(base, nth);
    }
  }

  // ---- Phrases that name no month ----

  lemma OrdinalAfter(day: nat, base: int)
    requires 1 <= day <= 31
    ensures base < ResolveOrdinalDay(day, base).value
  {
    hide MonthStart, LastDay, MonthIndex, YearOf, ResolveOrdinalDay;
    OrdinalLands(day, base);
    OnMonthLine(base);
  }

  lemma NamedQuarterAfter(quarter: Quarter, atStart: bool, base: int)
    ensures base <= ResolveNamedQuarter(quarter, atStart, None, base)
  {
    hide YearOf, QuarterAt, MonthStart;
    var y := YearOf(base);
    BaseInItsYear(base);
    QuarterLands(quarter, atStart, y + 1);
    MonthsGrow(12 * y + 12, 12 * y + 12 + 3 * quarter - 3);
    MonthsGrow(12 * y + 12, 12 * y + 12 + 3 * quarter);
  }

  lemma PeriodsAfter(base: int)
    ensures base < StartOfMonth(base, 1) && base < QuarterStart(base, 1) && base < AddMonths(base, 1)
    ensures base < EndOfMonth(base, 1) && base <= QuarterEnd(base, 0) <= QuarterEnd(base, 1)
    ensures MonthIndex(base) != 1 ==> base <= EndOfMonth(base, 0)
    ensures base <= Civil(YearOf(base), 11, 31) <= Civil(YearOf(base) + 1, 11, 31)
    ensures base < Civil(YearOf(base) + 1, 0, 1)
  {
    hide *;
    MonthsTile(base, 0);
    EndOfMonthLands(base, 1);
    StartOfMonthLands(base, 1);
    DaysInOrder(MonthIndex(base) + 1, 1, MonthIndex(base) + 1, LastDay(MonthIndex(base) + 1));
    QuartersTile(base, 0);
    QuartersTile(base, 1);
    QuarterStartOnLine(base, 1);
    QuarterStartOnLine(base, 2);
    MonthsGrow(3 * (QuarterIndex(base) + 1), 3 * (QuarterIndex(base) + 2));
    AddMonthsGrows(base, 0, 1);
    AddMonthsLands(base, 1);
    OnMonthLine(base);
    LastDayOnLine(MonthIndex(base) + 1);
    YearEndsLand(YearOf(base));
    YearEndsLand(YearOf(base) + 1);
    YearEndsMonotone(YearOf(base), YearOf(base) + 1);
    BaseInItsYear(base);
  }

  lemma WeeksAfter(base: int, target: int)
    requires 0 <= target < 7
    ensures base <= EndOfThisWeek(base) && base < MondayOfWeek(base) + 7
    ensures base < NextWeekdayAfter(base, target) && base < WeekdayNextWeek(base, target)
  {
    EndOfThisWeekIsLeast(base, base);
    NextWeekdayIsLeast(base, target, base);
    MondayOfWeekIsUnique(base, MondayOfWeek(base));
  }

  lemma PositionAfter(position: MonthPosition, base: int)
    ensures base < PositionInMonth(position, StartOfMonth(base, 1))
  {
    hide MonthStart, LastDay, MonthIndex, PositionInMonth, StartOfMonth;
    StartOfMonthLands(base, 1);
    PositionLands(position, StartOfMonth(base, 1));
    OnMonthLine(base);
  }

  lemma DurationAfter(p: Phrase, base: int)
    requires IsDuration(p) && ResolveDuration(p, base).Some? && MonthIndex(base) != 1
    ensures base <= ResolveDuration(p, base).value
  {
    hide BusinessDaysAfter, AddMonths, ParseCount;
    var n := ParseCount(p.count).value;
    BusinessDaysMonotone(base, base, Min(n, MAX_DURATION_DAYS));
    AddNothing(base);
    AddMonthsGrows(base, 0, n);
  }

  lemma AddNothing(base: int)
    requires MonthIndex(base) != 1
    ensures AddMonths(base, 0) == base
  {
    hide *;
    AddMonthsLands(base, 0);
    OnMonthLine(base);
    LastDayOnLine(MonthIndex(base));
  }

  // ---- The two windows ----

  lemma AfterUnlessMonthNamed(p: Phrase, base: int)
    requires StatesNoYear(p) && !NamesMonth(p) && Match(p, base).Some? && MonthIndex(base) != 1
    ensures base <= Match(p, base).value
  {
    hide Civil, LastDayOfMonth, MonthStart, MonthIndex, YearOf, MonthOf, DateOf,
      ResolveOrdinalDay, ResolveNamedQuarter, ResolveWeekOfMonth, ResolveDuration, PositionInMonth,
      AddMonths, StartOfMonth, EndOfMonth, QuarterStart, QuarterEnd,
      MondayOfWeek, EndOfThisWeek, NextWeekdayAfter, WeekdayNextWeek;
    match p
    case OrdinalDay(d) => OrdinalInRange(d, base); OrdinalAfter(d, base);
    case NamedQuarter(q, atStart, _) => NamedQuarterAfter(q, atStart, base);
    case WeekOfMonth(nth, named) => WeekOfMonthWindow(nth, named, base);
    case NextMonthEarly => PositionAfter(Early, base);
    case NextMonthMid => PositionAfter(Mid, base);
    case WeekdayOfNextWeek(w) => WeeksAfter(base, w);
    case ComingWeekday(w) => WeeksAfter(base, w);
    case ThisWeek | NextWeekMonday | NextWeekWednesday | NextWeekFriday => WeeksAfter(base, MONDAY);
    case BusinessDays(_) | Days(_) | Weeks(_) | Months(_) | Hours(_) => DurationAfter(p, base);
    case _ => PeriodsAfter(base);
  }

  lemma FourDigitYearIsLate(c: int)
    requires IsoOf(c).Some?
    ensures MonthStart(2) <= c
  {
    hide MonthStart, MonthIndex, YearOf;
    OnMonthLine(c);
    MonthsGrow(2, MonthIndex(c));
  }

  /** A phrase naming neither a year nor a month is stored as a date on or after the anchor. */
  lemma OnOrAfterAnchor(p: Phrase, base: int)
    requires StatesNoYear(p) && !NamesMonth(p) && Resolve(p, base).Some?
    ensures base <= Match(p, base).value
  {
    hide Match, IsoOf, MonthStart, MonthIndex;
    if MonthIndex(base) != 1 {
      AfterUnlessMonthNamed(p, base);
    } else {
      FourDigitYearIsLate(Match(p, base).value);
    }
  }

  /** A phrase stating no year is stored as a date at most 60 days before the anchor. */
  lemma AtMostSixtyDaysBack(p: Phrase, base: int)
    requires StatesNoYear(p) && Resolve(p, base).Some?
    ensures base - 60 <= Match(p, base).value
  {
    hide Civil, LastDayOfMonth, MonthStart, MonthIndex, YearOf, RollToFuture, ResolveBareMonth, ResolvePartOfMonth,
      ResolveWeekOfMonth, IsoOf, WeekClose;
    if !NamesMonth(p) {
      hide Match;
      OnOrAfterAnchor(p, base);
    } else {
      match p
      case NumericDate(m, d, _) => RollWindow(base, m - 1, d);
      case MonthDay(m0, d, _) => RollWindow(base, m0, d);
      case PartOfMonth(position, m0) => PartWindow(position, m0, base);
      case BareMonth(atStart, m0, _) => BareWindow(atStart, m0, base);
      case WeekOfMonth(nth, named) => WeekOfMonthWindow(nth, named, base);
    }
  }

  // ---- The ceiling on counts ----

  /** A count passes the ceiling exactly when a numeral past it stands among other words. */
  lemma CountCeiling(words: seq<CountWord>)
    requires ParseCount(words).Some?
    ensures ParseCount(words).value > 3650
       <==> |words| != 1 && exists w :: w in words && w.Numeral? && w.n > 3650
  {
    var kept := Without(words, Filler);
    var meaningful := Without(kept, Article);
    if |words| != 1 || !words[0].Numeral? {
      var rest := if |kept| == 1 then kept else meaningful;
      assert rest[0] in rest;
      forall w | w in words && w.Numeral?
        ensures w == rest[0]
      {
        assert w in kept && w in meaningful;
        assert |rest| == 1;
      }
    }
  }

  /** The same numeral is refused alone and accepted behind "next": "99999 days", "next 99999 days". */
  lemma CeilingLeaks(n: nat, base: int)
    ensures Match(Days([Numeral(n)]), base) == if n <= 3650 then Some(base + n) else None
    ensures Match(Days([Filler, Numeral(n)]), base) == Some(base + n)
  {
    var words := [Filler, Numeral(n)];
    assert words[1..] == [Numeral(n)] && words[1..][1..] == [];
    assert Without([Numeral(n)], Filler) == [Numeral(n)] by { assert [Numeral(n)][1..] == []; }
    assert Without(words, Filler) == [Numeral(n)];
  }

  /** Weeks, months and business days stay near the anchor; days and hours do when the count does. */
  lemma DurationReach(p: Phrase, base: int)
    requires IsDuration(p) && Match(p, base).Some?
    requires p.Days? || p.Hours? ==> ParseCount(p.count).value <= 3650
    ensures Match(p, base).value <= base + 5110
  {
    hide AddMonths, ParseCount, MonthStart, LastDay, MonthIndex;
    if p.Months? {
      var n := ParseCount(p.count).value;
      AddMonthsLands(base, n);
      OnMonthLine(base);
      LastDayOnLine(MonthIndex(base) + n);
      MonthsGrow(MonthIndex(base), MonthIndex(base) + n);
    }
  }

  // ---- "september" and "end of september" ----

  /**
   A bare month resolves to nothing exactly for anchors outside the years of the range, and once its
   close is long gone and next year has no such day: February after a leap day, any month in the last year.
   */
  lemma BareMonthNothing(m0: Month0, base: int)
    ensures var y := YearOf(base); var k := 12 * y + m0;
            Match(BareMonth(false, m0, None), base).None? <==>
            !(1970 <= y <= 2999) || (base - Day(k, LastDay(k)) > 60 && (y == 2999 || (m0 == 1 && IsLeap(y))))
  {
    hide MonthStart, LastDay, RollToFuture, YearOf, ResolveBareMonth, IsLeap, LastDayOfMonth;
    var y := YearOf(base);
    BareExists(false, m0, base);
    RollNothing(base, m0, BareDay(false, base, m0));
    LastDayOfStated(y, m0);
    LastDayIsReal(y, m0);
  }

  /** On 1 May 2028, "february" is lost and "end of february" is the last day of February 2029. */
  lemma LeapFebruaryIsLost()
    ensures var may := Day(12 * 2028 + 4, 1);
            && Match(BareMonth(false, 1, None), may) == None
            && Match(PartOfMonth(EndOf, 1), may) == Some(Day(12 * 2029 + 1, 28))
  {
    hide MonthStart, RollToFuture, YearOf, ResolveBareMonth, ResolvePartOfMonth, LastDay;
    var k := 12 * 2028 + 1;
    var may := Day(k + 3, 1);
    LastDayOnLine(k + 3);
    ReadDay(k + 3, 1);
    MonthStep(k);
    MonthStep(k + 1);
    MonthStep(k + 2);
    LastDayOnLine(k);
    BareMonthNothing(1, may);
    EndOfFebruaryRolls(may);
  }

  lemma EndOfFebruaryRolls(may: int)
    requires YearOf(may) == 2028 && may - Day(12 * 2028 + 1, 1) > 60
    ensures Match(PartOfMonth(EndOf, 1), may) == Some(Day(12 * 2029 + 1, 28))
  {
    hide MonthStart, RollToFuture, YearOf, ResolveBareMonth, ResolvePartOfMonth, LastDay;
    RollNothing(may, 1, 1);
    PartExists(1, may);
    PartLands(EndOf, 1, may);
    LastDayOnLine(12 * 2029 + 1);
  }

  /**
   "end of september" rolls on with the 1st and "september" with the 30th, so the two name the same
   day except while the 1st is more than 60 days behind and the close is not, and except for the
   Februaries that bare "february" loses. Outside the range, and in its last year, they never differ.
   */
  lemma EndOfMonthVersusMonth(m0: Month0, base: int)
    ensures var y := YearOf(base); var k := 12 * y + m0;
            var firstGone, closeGone := base - Day(k, 1) > 60, base - Day(k, LastDay(k)) > 60;
            Match(PartOfMonth(EndOf, m0), base) == Match(BareMonth(false, m0, None), base)
            <==> !(1970 <= y <= 2998) || ((firstGone ==> closeGone) && !(m0 == 1 && IsLeap(y) && closeGone))
  {
    hide MonthStart, LastDay, RollToFuture, YearOf, ResolveBareMonth, ResolvePartOfMonth, IsLeap, LastDayOfMonth;
    var y := YearOf(base);
    var k := 12 * y + m0;
    LastDayOfStated(y, m0);
    LastDayIsReal(y, m0);
    LastDayOnLine(k);
    LastDayOnLine(k + 12);
    MonthsGrow(k + 1, k + 12);
    BareMonthNothing(m0, base);
    RollNothing(base, m0, 1);
    if 1970 <= y <= 2998 {
      PartExists(m0, base);
      PartLands(EndOf, m0, base);
      if Match(BareMonth(false, m0, None), base).Some? { BareLands(false, m0, None, base); }
    } else {
      SameAtTheEnds(m0, base);
    }
  }

  lemma SameAtTheEnds(m0: Month0, base: int)
    requires !(1970 <= YearOf(base) <= 2998)
    ensures Match(PartOfMonth(EndOf, m0), base) == Match(BareMonth(false, m0, None), base)
  {
    hide MonthStart, LastDay, RollToFuture, YearOf, ResolveBareMonth, PositionInMonth;
    if RollToFuture(base, m0, 1).Some? {
      RollNothing(base, m0, 1);
      LastYearIsKept(m0, base);
    }
  }

  lemma LastYearIsKept(m0: Month0, base: int)
    requires YearOf(base) == 2999 && RollToFuture(base, m0, 1).Some?
    ensures Match(PartOfMonth(EndOf, m0), base) == Match(BareMonth(false, m0, None), base)
  {
    hide MonthStart, LastDay, RollToFuture, YearOf, ResolveBareMonth, ResolvePartOfMonth, IsLeap;
    var k := 12 * 2999 + m0;
    RollNothing(base, m0, 1);
    LastDayOnLine(k);
    BareMonthNothing(m0, base);
    PartExists(m0, base);
    PartLands(EndOf, m0, base);
    BareLands(false, m0, None, base);
  }

  /** Between the two rolls the readings are a year apart. */
  lemma AYearApart(m0: Month0, base: int)
    requires var k := 12 * YearOf(base) + m0;
             1970 <= YearOf(base) <= 2998 && base - Day(k, 1) > 60 && base - Day(k, LastDay(k)) <= 60
    ensures var k := 12 * YearOf(base) + m0;
            && Match(BareMonth(false, m0, None), base) == Some(Day(k, LastDay(k)))
            && Match(PartOfMonth(EndOf, m0), base) == Some(Day(k + 12, LastDay(k + 12)))
  {
    hide MonthStart, RollToFuture, YearOf, ResolveBareMonth, ResolvePartOfMonth, LastDay;
    BareMonthNothing(m0, base);
    BareLands(false, m0, None, base);
    RollNothing(base, m0, 1);
    PartExists(m0, base);
    PartLands(EndOf, m0, base);
  }

  /** On 15 November 2026, "september" is last September and "end of september" the next. */
  lemma SeptembersDiffer()
    ensures var november := Day(12 * 2026 + 10, 15);
            && Match(BareMonth(false, 8, None), november) == Some(Day(12 * 2026 + 8, 30))
            && Match(PartOfMonth(EndOf, 8), november) == Some(Day(12 * 2027 + 8, 30))
  {
    hide MonthStart, YearOf, Match, LastDay;
    var k := 12 * 2026 + 8;
    LastDayOnLine(k + 2);
    ReadDay(k + 2, 15);
    MonthStep(k);
    MonthStep(k + 1);
    LastDayOnLine(k);
    LastDayOnLine(k + 12);
    AYearApart(8, Day(k + 2, 15));
  }

  lemma PartExists(m0: Month0, base: int)
    requires RollToFuture(base, m0, 1).Some?
    ensures Match(PartOfMonth(EndOf, m0), base).Some?
  {
    hide RollToFuture, PositionInMonth;
  }
}
