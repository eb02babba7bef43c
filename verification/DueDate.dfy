/**
 The due-phrase resolver (packages/core/src/dateResolve.ts:361-647): from a classified phrase and
 the civil date it was said on to the civil date it means, or to nothing.

 A `Phrase` is what the resolver's patterns read off the normalised text, one constructor a rule.
 */
module DueDate {
  import opened Options
  import opened Calendar
  import opened CivilDates
  import opened IsoText

  type Month0 = m: int | 0 <= m < 12
  type Weekday = w: int | 0 <= w < 7
  type Quarter = q: int | 1 <= q <= 4 witness 1

  /** The values of the number words, "one" to "twelve" with "couple" and "few" among them. */
  type NumberWord = n: nat | 1 <= n <= 12 witness 1

  /** A word of a count; `Named` is a number word, `Article` is "a" or "an". */
  datatype CountWord = Numeral(n: nat) | Named(value: NumberWord) | Article | Filler | Unknown

  /** `EndOf` is "end of september", which a later rule also matches; `End` is "end september". */
  datatype MonthPosition = Early | Mid | Late | End | EndOf

  datatype NthWeek = First | Second | Third | Fourth | Last

  datatype Phrase =
    | Immediate
    | Tomorrow
    | DayAfterTomorrow
    | YearMonthDay(year: nat, month: nat, day: nat)
    | NumericDate(month: nat, day: nat, statedYear: Option<nat>)
    | MonthDay(month0: Month0, day: nat, statedYear: Option<nat>)
    | PartOfMonth(position: MonthPosition, month0: Month0)
    | OrdinalDay(day: nat)
    | ThisWeek
    | NextWeekMonday
    | NextWeekWednesday
    | NextWeekFriday
    | ThisMonth
    | NextMonthEnd
    | NextMonthStart
    | NextMonthEarly
    | NextMonthMid
    | NextMonth
    | ThisQuarter
    | NextQuarterEnd
    | NextQuarterStart
    | ThisYear
    | NextYearEnd
    | NextYearStart
    | NamedQuarter(quarter: Quarter, atStart: bool, statedYear: Option<nat>)
    | WeekOfMonth(nth: NthWeek, named: Option<Month0>)
    | WeekdayOfNextWeek(weekday: Weekday)
    | ComingWeekday(weekday: Weekday)
    | Fortnight
    | BusinessDays(count: seq<CountWord>)
    | Days(count: seq<CountWord>)
    | Weeks(count: seq<CountWord>)
    | Months(count: seq<CountWord>)
    | Hours(count: seq<CountWord>)
    | BareMonth(atStart: bool, month0: Month0, statedYear: Option<nat>)
    | EndOfStatedYear(year: nat)

  // ---- Counts ----

  function WordValue(w: CountWord): Option<nat> {
    match w
    case Numeral(n) => Some(n)
    case Named(value) => Some(value)
    case Article => Some(1)
    case _ => None
  }

  function Without(words: seq<CountWord>, noise: CountWord): (kept: seq<CountWord>)
    ensures forall w :: w in kept <==> w in words && w != noise
  {
    if words == [] then []
    else (if words[0] == noise then [] else [words[0]]) + Without(words[1..], noise)
  }

  /** Only a bare numeral is held to the ceiling. */
  function ParseCount(words: seq<CountWord>): Option<nat> {
    if |words| == 1 && words[0].Numeral? then
      (if words[0].n <= MAX_DURATION_DAYS then Some(words[0].n) else None)
    else
      var kept := Without(words, Filler);
      if |kept| == 1 then WordValue(kept[0])
      else
        var meaningful := Without(kept, Article);
        if |meaningful| == 1 then WordValue(meaningful[0]) else None
  }

  // ---- Rules ----

  function ValidCivil(year: int, month0: int, day: int): Option<int> {
    if month0 < 0 || month0 > 11 || day < 1 || year < 1970 || year > 2999 then None
    else if day > LastDayOfMonth(year, month0) then None
    else Some(Civil(year, month0, day))
  }

  function RollToFuture(base: int, month0: int, day: int): Option<int> {
    var sameYear := ValidCivil(YearOf(base), month0, day);
    if sameYear.None? then None
    else if base - sameYear.value > 60 then ValidCivil(YearOf(base) + 1, month0, day)
    else sameYear
  }

  function PositionInMonth(position: MonthPosition, c: int): int {
    if position.Early? then Civil(YearOf(c), MonthOf(c), 5)
    else if position.Mid? then Civil(YearOf(c), MonthOf(c), 15)
    else Civil(YearOf(c), MonthOf(c), LastDayOfMonth(YearOf(c), MonthOf(c)))
  }

  function ResolveBareMonth(atStart: bool, month0: int, statedYear: Option<nat>, base: int): Option<int>
    requires 0 <= month0 < 12
  {
    var day := if atStart then 1
               else LastDayOfMonth(if statedYear.Some? then statedYear.value else YearOf(base), month0);
    var hit := if statedYear.Some? then ValidCivil(statedYear.value, month0, day)
               else RollToFuture(base, month0, day);
    if hit.None? then None
    else Some(if atStart then hit.value else EndOfMonth(hit.value, 0))
  }

  function ResolvePartOfMonth(position: MonthPosition, month0: int, base: int): Option<int>
    requires 0 <= month0 < 12
  {
    var target := RollToFuture(base, month0, 1);
    if target.Some? then Some(PositionInMonth(position, target.value))
    else if position.EndOf? then ResolveBareMonth(false, month0, None, base)
    else None
  }

  function ResolveOrdinalDay(day: nat, base: int): Option<int> {
    if !(1 <= day <= 31) then None else
      var here := ValidCivil(YearOf(base), MonthOf(base), day);
      if here.Some? && here.value > base then here
      else
        var next := StartOfMonth(base, 1);
        Some(Civil(YearOf(next), MonthOf(next), Min(day, LastDayOfMonth(YearOf(next), MonthOf(next)))))
  }

  function QuarterAt(quarter: Quarter, atStart: bool, year: int): int {
    var start := Civil(year, (quarter - 1) * 3, 1);
    if atStart then start else EndOfMonth(start, 2)
  }

  function ResolveNamedQuarter(quarter: Quarter, atStart: bool, statedYear: Option<nat>, base: int): int {
    if statedYear.Some? then QuarterAt(quarter, atStart, statedYear.value)
    else if QuarterAt(quarter, atStart, YearOf(base)) < base then QuarterAt(quarter, atStart, YearOf(base) + 1)
    else QuarterAt(quarter, atStart, YearOf(base))
  }

  function WeekClose(nth: NthWeek, c: int): int {
    match nth
    case First => Civil(YearOf(c), MonthOf(c), 7)
    case Second => Civil(YearOf(c), MonthOf(c), 14)
    case Third => Civil(YearOf(c), MonthOf(c), 21)
    case Fourth => Civil(YearOf(c), MonthOf(c), 28)
    case Last => Civil(YearOf(c), MonthOf(c), LastDayOfMonth(YearOf(c), MonthOf(c)))
  }

  function ResolveWeekOfMonth(nth: NthWeek, named: Option<Month0>, base: int): Option<int> {
    var target := if named.Some? then RollToFuture(base, named.value, 1) else Some(base);
    if target.None? then None
    else
      var here := WeekClose(nth, target.value);
      if named.Some? || here >= base then Some(here)
      else Some(WeekClose(nth, StartOfMonth(target.value, 1)))
  }

  function ResolveDuration(p: Phrase, base: int): Option<int>
    requires p.BusinessDays? || p.Days? || p.Weeks? || p.Months? || p.Hours?
  {
    var count := ParseCount(p.count);
    if count.None? then None else
      var n := count.value;
      match p
      case BusinessDays(_) => Some(BusinessDaysCapped(base, n))
      case Days(_) => Some(AddDays(base, n))
      case Weeks(_) => if n * 7 <= MAX_DURATION_DAYS then Some(AddDays(base, n * 7)) else None
      case Months(_) => if n <= 120 then Some(AddMonths(base, n)) else None
      case Hours(_) => Some(if n <= 12 then base else AddDays(base, (n + 23) / 24))
  }

  function Match(p: Phrase, base: int): Option<int> {
    match p
    case Immediate => Some(base)
    case Tomorrow => Some(AddDays(base, 1))
    case DayAfterTomorrow => Some(AddDays(base, 2))
    case YearMonthDay(y, m, d) => ValidCivil(y, m - 1, d)
    case NumericDate(m, d, y) =>
      if y.Some? then ValidCivil(if y.value < 100 then 2000 + y.value else y.value, m - 1, d)
      else RollToFuture(base, m - 1, d)
    case MonthDay(m0, d, y) =>
      if y.Some? then ValidCivil(y.value, m0, d) else RollToFuture(base, m0, d)
    case PartOfMonth(position, m0) => ResolvePartOfMonth(position, m0, base)
    case OrdinalDay(d) => ResolveOrdinalDay(d, base)
    case ThisWeek => Some(EndOfThisWeek(base))
    case NextWeekMonday => Some(AddDays(MondayOfWeek(base), 7))
    case NextWeekWednesday => Some(AddDays(MondayOfWeek(base), 9))
    case NextWeekFriday => Some(AddDays(MondayOfWeek(base), 11))
    case ThisMonth => Some(EndOfMonth(base, 0))
    case NextMonthEnd => Some(EndOfMonth(base, 1))
    case NextMonthStart => Some(StartOfMonth(base, 1))
    case NextMonthEarly => Some(PositionInMonth(Early, StartOfMonth(base, 1)))
    case NextMonthMid => Some(PositionInMonth(Mid, StartOfMonth(base, 1)))
    case NextMonth => Some(AddMonths(base, 1))
    case ThisQuarter => Some(QuarterEnd(base, 0))
    case NextQuarterEnd => Some(QuarterEnd(base, 1))
    case NextQuarterStart => Some(QuarterStart(base, 1))
    case ThisYear => Some(Civil(YearOf(base), 11, 31))
    case NextYearEnd => Some(Civil(YearOf(base) + 1, 11, 31))
    case NextYearStart => Some(Civil(YearOf(base) + 1, 0, 1))
    case NamedQuarter(q, atStart, y) => Some(ResolveNamedQuarter(q, atStart, y, base))
    case WeekOfMonth(nth, named) => ResolveWeekOfMonth(nth, named, base)
    case WeekdayOfNextWeek(w) => Some(WeekdayNextWeek(base, w))
    case ComingWeekday(w) => Some(NextWeekdayAfter(base, w))
    case Fortnight => Some(AddDays(base, 14))
    case BareMonth(atStart, m0, y) => ResolveBareMonth(atStart, m0, y, base)
    case EndOfStatedYear(y) => ValidCivil(y, 11, 31)
    case _ => ResolveDuration(p, base)
  }

  /** The stored due date: nothing when the phrase means nothing or leaves the four-digit years. */
  function Resolve(p: Phrase, base: int): Option<string> {
    var hit := Match(p, base);
    if hit.None? then None else IsoOf(hit.value)
  }
}
