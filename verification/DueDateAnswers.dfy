/**
 When the due-phrase resolver answers at all, and that its answer is then the one date the phrase
 means: every null of packages/core/src/dateResolve.ts:441-647 is accounted for.
 */
module DueDateAnswers {
  import opened Options
  import opened Calendar
  import opened CivilDates
  import opened IsoText
  import opened DueDate
  import opened DueDateCounts
  import opened DueDateLines
  import opened DueDateLaws
  import opened DueDateBounds
  import opened DueDateMeaning

  predicate InYears(y: int) {
    FIRST_YEAR <= y <= LAST_YEAR
  }

  predicate Gone(base: int, m0: int, d: int) {
    base - DayNumber(YearOf(base), m0, d) > 60
  }

  /** A month and day said without a year exist in the anchor's, and need no year past the last. */
  predicate Rolls(base: int, m0: int, d: int) {
    && InYears(YearOf(base)) && RealDate(YearOf(base), m0, d)
    && !(YearOf(base) == LAST_YEAR && Gone(base, m0, d))
  }

  /** Read off the phrase and the anchor alone: months and years in range, and no lost leap day. */
  predicate InRange(p: Phrase, base: int) {
    match p
    case YearMonthDay(z, m, _) => InYears(z) && 1 <= m <= 12
    case NumericDate(m, _, Some(z)) => InYears(FullYear(z)) && 1 <= m <= 12
    case NumericDate(m, d, None) => Rolls(base, m - 1, d)
    case MonthDay(_, _, Some(z)) => InYears(z)
    case MonthDay(m0, d, None) => Rolls(base, m0, d)
    case PartOfMonth(position, m0) =>
      Rolls(base, m0, 1) || (position.EndOf? && Rolls(base, m0, MonthLength(YearOf(base), m0)))
    case OrdinalDay(d) => d <= 31
    case WeekOfMonth(_, Some(m0)) => Rolls(base, m0, 1)
    case BareMonth(_, _, Some(z)) => InYears(z)
    case BareMonth(true, m0, None) => Rolls(base, m0, 1)
    case BareMonth(false, m0, None) =>
      && Rolls(base, m0, MonthLength(YearOf(base), m0))
      && !(m0 == 1 && IsLeap(YearOf(base)) && Gone(base, 1, 29))
    case EndOfStatedYear(z) => InYears(z)
    case _ => true
  }

  // ---- Months that are named ----

  lemma RollNothingOutside(base: int, m0: int, d: int)
    ensures RollToFuture(base, m0, d).Some? ==> Rolls(base, m0, d)
    ensures Rolls(base, m0, d) && !(m0 == 1 && d == 29 && Gone(base, m0, d)) ==> RollToFuture(base, m0, d).Some?
  {
    hide YearOf, MonthStart, RollToFuture, MonthLength;
    RollNothing(base, m0, d);
  }

  lemma StatedResolves(z: int, m0: int, d: int, x: int)
    ensures ValidCivil(z, m0, d).Some? ==> InYears(z) && 0 <= m0 < 12
    ensures At(x, 12 * z + m0, d) && InYears(z) && 0 <= m0 < 12 ==> ValidCivil(z, m0, d).Some?
  {
    hide MonthStart, ValidCivil, LastDay, At;
    AtOnLine(x, 12 * z + m0, d);
    ValidLands(z, m0, d);
    LastDayOnLine(12 * z + m0);
  }

  /** A leap day long gone has no next year to be in. */
  lemma RolledResolves(base: int, m0: int, d: int, x: int)
    ensures RollToFuture(base, m0, d).Some? ==> Rolls(base, m0, d)
    ensures At(x, 12 * SaidYear(base, m0, d) + m0, d) && Rolls(base, m0, d) ==> RollToFuture(base, m0, d).Some?
  {
    hide MonthStart, At, RollToFuture, SaidYear, YearOf, IsLeap;
    RollNothingOutside(base, m0, d);
    if m0 == 1 && d == 29 && Rolls(base, m0, d) {
      SaidYearIsRollYear(base, m0, d);
      AtOnLine(x, 12 * SaidYear(base, m0, d) + m0, d);
      NoTwoLeapYears(YearOf(base));
    }
  }

  lemma FirstResolves(base: int, m0: Month0)
    ensures RollToFuture(base, m0, 1).Some? <==> Rolls(base, m0, 1)
  {
    hide YearOf, MonthStart, RollToFuture, Rolls;
    RollNothingOutside(base, m0, 1);
  }

  lemma BareResolves(atStart: bool, m0: Month0, base: int)
    ensures ResolveBareMonth(atStart, m0, None, base).Some? <==> InRange(BareMonth(atStart, m0, None), base)
  {
    hide MonthStart, RollToFuture, YearOf, IsLeap, ResolveBareMonth, LastDay, LastDayOfMonth;
    var y := YearOf(base);
    BareExists(atStart, m0, base);
    RollNothing(base, m0, BareDay(atStart, base, m0));
    LastDayOfStated(y, m0);
    LastDayIsReal(y, m0);
  }

  lemma BareStatedResolves(atStart: bool, m0: Month0, z: nat, base: int)
    ensures ResolveBareMonth(atStart, m0, Some(z), base).Some? <==> InYears(z)
  {
    hide MonthStart, LastDayOfMonth, LastDay, EndOfMonth, ValidCivil;
    LastDayOfStated(z, m0);
    LastDayOnLine(12 * z + m0);
    ValidLands(z, m0, if atStart then 1 else LastDayOfMonth(z, m0));
  }

  lemma PartResolves(position: MonthPosition, m0: Month0, base: int)
    ensures ResolvePartOfMonth(position, m0, base).Some? <==> InRange(PartOfMonth(position, m0), base)
  {
    hide MonthStart, RollToFuture, YearOf, ResolveBareMonth, LastDay, PositionInMonth, MonthLength;
    RollNothing(base, m0, 1);
    BareResolves(false, m0, base);
  }

  lemma NamedDatesResolve(p: Phrase, base: int, x: int)
    requires NamesMonth(p)
    ensures Match(p, base).Some? ==> InRange(p, base)
    ensures Means(p, base, x) && InRange(p, base) ==> Match(p, base).Some?
  {
    hide MonthIndex, DateOf, At, ValidCivil, RollToFuture, ResolvePartOfMonth, ResolveBareMonth, SaidYear, ClosingYear,
      YearOf, Rolls, WeekClose;
    match p
    case YearMonthDay(z, m, d) => StatedResolves(z, m - 1, d, x);
    case NumericDate(m, d, Some(z)) => StatedResolves(FullYear(z), m - 1, d, x);
    case NumericDate(m, d, None) => RolledResolves(base, m - 1, d, x);
    case MonthDay(m0, d, Some(z)) => StatedResolves(z, m0, d, x);
    case MonthDay(m0, d, None) => RolledResolves(base, m0, d, x);
    case PartOfMonth(position, m0) => PartResolves(position, m0, base);
    case WeekOfMonth(_, named) => FirstResolves(base, named.value);
    case BareMonth(atStart, m0, None) => BareResolves(atStart, m0, base);
    case BareMonth(atStart, m0, Some(z)) => BareStatedResolves(atStart, m0, z, base);
  }

  // ---- Every phrase ----

  /** A date in range is refused only when no date has the meaning, and nothing else is ever answered. */
  lemma AnswersInRange(p: Phrase, base: int, x: int)
    ensures Match(p, base).Some? ==> InRange(p, base)
    ensures Means(p, base, x) && InRange(p, base) ==> Match(p, base).Some?
  {
    hide Match, Means, InRange;
    if NamesMonth(p) {
      NamedDatesResolve(p, base, x);
    } else if IsDuration(p) {
      DurationResolves(p, base, x);
    } else if p.EndOfStatedYear? {
      YearResolves(p.year, base, x);
    } else if p.OrdinalDay? {
      OrdinalResolves(p.day, base, x);
    } else {
      AlwaysResolves(p, base);
    }
  }

  lemma AlwaysResolves(p: Phrase, base: int)
    requires !NamesMonth(p) && !IsDuration(p) && !p.EndOfStatedYear? && !p.OrdinalDay?
    ensures Match(p, base).Some? && InRange(p, base)
  {
  }

  lemma YearResolves(z: nat, base: int, x: int)
    ensures Match(EndOfStatedYear(z), base).Some? ==> InRange(EndOfStatedYear(z), base)
    ensures Means(EndOfStatedYear(z), base, x) && InRange(EndOfStatedYear(z), base) ==> Match(EndOfStatedYear(z), base).Some?
  {
    hide ValidCivil, At;
    StatedResolves(z, 11, 31, x);
  }

  lemma OrdinalResolves(d: nat, base: int, x: int)
    ensures Match(OrdinalDay(d), base).Some? ==> InRange(OrdinalDay(d), base)
    ensures Means(OrdinalDay(d), base, x) && InRange(OrdinalDay(d), base) ==> Match(OrdinalDay(d), base).Some?
  {
    hide ResolveOrdinalDay, MonthIndex, YearOf;
    OrdinalInRange(d, base);
  }

  lemma DurationResolves(p: Phrase, base: int, x: int)
    requires IsDuration(p)
    ensures InRange(p, base)
    ensures Means(p, base, x) ==> Match(p, base).Some?
  {
    hide ParseCount, CountIs, HoursOn, Min, SameDayIn, IsNthWeekdayAfter, MonthIndex, DateOf, AddMonths, BusinessDaysCapped;
    TheCount(p.count);
    DurationIsMeant(p, base, x);
    assert Match(p, base) == ResolveDuration(p, base);
    hide Means, Match;
  }

  /** The resolver answers with a date exactly when that date is what the phrase means and is in range. */
  lemma MatchIsTheMeaning(p: Phrase, base: int, x: int)
    requires MonthIndex(base) > 1
    ensures Match(p, base) == Some(x) <==> Means(p, base, x) && InRange(p, base)
  {
    hide Match, Means, MonthIndex, InRange;
    AnswersInRange(p, base, x);
    if Match(p, base).Some? {
      MatchMeans(p, base);
      if Means(p, base, x) { MeaningIsUnique(p, base, x, Match(p, base).value); }
    }
  }

  /** The same of the text that is stored: it is the meaning's, or nothing. */
  lemma ResolveIsTheMeaning(p: Phrase, base: int, x: int)
    requires MonthIndex(base) > 1 && IsoOf(x).Some?
    ensures Resolve(p, base) == IsoOf(x) <==> Means(p, base, x) && InRange(p, base)
  {
    hide Match, Means, MonthIndex, InRange, IsoOf;
    MatchIsTheMeaning(p, base, x);
    var hit := Match(p, base);
    if hit.Some? && IsoOf(hit.value).Some? { IsoOrder(hit.value, x); }
  }
}
