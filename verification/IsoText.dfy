/**
 YYYY-MM-DD text of civil dates (packages/core/src/dateResolve.ts:232-256): the third view of the
 calendar line, and the one that is stored and compared as a string.
 */
module IsoText {
  import opened Options
  import opened Calendar
  import opened CivilDates

  // ---- Fixed-width decimal text ----

  predicate IsDigit(c: char) {
    '0' <= c <= '9'
  }

  predicate AllDigits(s: string) {
    forall i :: 0 <= i < |s| ==> IsDigit(s[i])
  }

  function Digit(d: int): (c: char)
    requires 0 <= d < 10
    ensures IsDigit(c)
  {
    '0' + d as char
  }

  function DigitValue(c: char): (d: int)
    requires IsDigit(c)
    ensures 0 <= d < 10 && Digit(d) == c
  {
    c as int - '0' as int
  }

  function Pow10(w: nat): (p: nat)
    ensures p > 0
  {
    if w == 0 then 1 else 10 * Pow10(w - 1)
  }

  /** `n` in `w` digits, zero-padded. */
  function Padded(n: nat, w: nat): (s: string)
    ensures |s| == w && AllDigits(s)
  {
    if w == 0 then "" else Padded(n / 10, w - 1) + [Digit(n % 10)]
  }

  function Value(s: string): (n: nat)
    requires AllDigits(s)
    ensures n < Pow10(|s|)
  {
    if |s| == 0 then 0 else 10 * Value(s[..|s| - 1]) + DigitValue(s[|s| - 1])
  }

  lemma {:induction false} ValueOfPadded(n: nat, w: nat)
    requires n < Pow10(w)
    ensures Value(Padded(n, w)) == n
  {
    if w > 0 {
      ValueOfPadded(n / 10, w - 1);
      var s := Padded(n, w);
      assert s[..w - 1] == Padded(n / 10, w - 1);
    }
  }

  lemma {:induction false} PaddedOfValue(s: string)
    requires AllDigits(s)
    ensures Padded(Value(s), |s|) == s
    decreases |s|
  {
    if |s| > 0 {
      PaddedOfValue(s[..|s| - 1]);
      assert s == s[..|s| - 1] + [s[|s| - 1]];
    }
  }

  /** String order, as `<` on JavaScript strings. */
  predicate TextBefore(s: string, t: string) {
    |t| > 0 && (|s| == 0 || s[0] < t[0] || (s[0] == t[0] && TextBefore(s[1..], t[1..])))
  }

  lemma {:induction false} TextBeforeSplit(s: string, t: string, x: string, y: string)
    requires |s| == |t|
    ensures TextBefore(s + x, t + y) <==> TextBefore(s, t) || (s == t && TextBefore(x, y))
    decreases |s|
  {
    if |s| == 0 {
      assert s + x == x && t + y == y;
    } else {
      TextBeforeSplit(s[1..], t[1..], x, y);
      assert (s + x)[1..] == s[1..] + x && (t + y)[1..] == t[1..] + y;
    }
  }

  lemma {:induction false} PaddedOrder(m: nat, n: nat, w: nat)
    requires m < Pow10(w) && n < Pow10(w)
    ensures TextBefore(Padded(m, w), Padded(n, w)) <==> m < n
    ensures Padded(m, w) == Padded(n, w) <==> m == n
  {
    ValueOfPadded(m, w);
    ValueOfPadded(n, w);
    if w > 0 {
      PaddedOrder(m / 10, n / 10, w - 1);
      TextBeforeSplit(Padded(m / 10, w - 1), Padded(n / 10, w - 1), [Digit(m % 10)], [Digit(n % 10)]);
    }
  }

  // ---- Dates as text ----

  function DateText(year: nat, month: nat, day: nat): string {
    Padded(year, 4) + "-" + Padded(month, 2) + "-" + Padded(day, 2)
  }

  /** The source's `^(\d{4})-(\d{2})-(\d{2})$`, already trimmed. */
  predicate DateShaped(s: string) {
    |s| == 10 && s[4] == '-' && s[7] == '-' && AllDigits(s[..4]) && AllDigits(s[5..7]) && AllDigits(s[8..])
  }

  function TextYear(s: string): nat
    requires DateShaped(s)
  {
    Value(s[..4])
  }

  function TextMonth(s: string): nat
    requires DateShaped(s)
  {
    Value(s[5..7])
  }

  function TextDay(s: string): nat
    requires DateShaped(s)
  {
    Value(s[8..])
  }

  /** A civil date as text, or nothing outside the four-digit years. */
  function IsoOf(c: int): (s: Option<string>)
    ensures s.Some? <==> 1000 <= YearOf(c) <= 9999
  {
    var y := YearOf(c);
    if y < 1000 || y > 9999 then None else Some(DateText(y, MonthOf(c) + 1, DateOf(c)))
  }

  function ShiftIsoDate(s: string, days: int): Option<string> {
    if !DateShaped(s) then None
    else IsoOf(AddDays(Civil(TextYear(s), TextMonth(s) - 1, TextDay(s)), days))
  }

  /** Text written from a date reads back as its year, month and day. */
  lemma ReadText(year: nat, month: nat, day: nat)
    requires year < 10000 && month < 100 && day < 100
    ensures var s := DateText(year, month, day);
            DateShaped(s) && TextYear(s) == year && TextMonth(s) == month && TextDay(s) == day
  {
    var s := DateText(year, month, day);
    assert s[..4] == Padded(year, 4) && s[5..7] == Padded(month, 2) && s[8..] == Padded(day, 2);
    assert Pow10(4) == 10000 by { assert Pow10(2) == 100; }
    ValueOfPadded(year, 4);
    ValueOfPadded(month, 2);
    ValueOfPadded(day, 2);
  }

  /** Date-shaped text is the text of the numbers read from it. */
  lemma WriteText(s: string)
    requires DateShaped(s)
    ensures DateText(TextYear(s), TextMonth(s), TextDay(s)) == s
    ensures TextYear(s) < 10000 && TextMonth(s) < 100 && TextDay(s) < 100
  {
    PaddedOfValue(s[..4]);
    PaddedOfValue(s[5..7]);
    PaddedOfValue(s[8..]);
    assert s == s[..4] + "-" + s[5..7] + "-" + s[8..];
    assert Pow10(4) == 10000 by { assert Pow10(2) == 100; }
  }

  lemma DateTextOrder(y: nat, m: nat, d: nat, y': nat, m': nat, d': nat)
    requires y < 10000 && m < 100 && d < 100 && y' < 10000 && m' < 100 && d' < 100
    ensures TextBefore(DateText(y, m, d), DateText(y', m', d')) <==> DateBefore(y, m, d, y', m', d')
  {
    hide Padded, TextBefore;
    assert Pow10(4) == 10000 by { assert Pow10(2) == 100; }
    PaddedOrder(y, y', 4);
    PaddedOrder(m, m', 2);
    PaddedOrder(d, d', 2);
    var dd, dd' := Padded(d, 2), Padded(d', 2);
    var md, md' := Padded(m, 2) + ("-" + dd), Padded(m', 2) + ("-" + dd');
    assert DateText(y, m, d) == Padded(y, 4) + ("-" + md) && DateText(y', m', d') == Padded(y', 4) + ("-" + md');
    TextBeforeSplit(Padded(y, 4), Padded(y', 4), "-" + md, "-" + md');
    DashBefore(md, md');
    TextBeforeSplit(Padded(m, 2), Padded(m', 2), "-" + dd, "-" + dd');
    DashBefore(dd, dd');
  }

  lemma DashBefore(x: string, y: string)
    ensures TextBefore("-" + x, "-" + y) <==> TextBefore(x, y)
  {
    assert ("-" + x)[1..] == x && ("-" + y)[1..] == y;
  }

  /** On stored dates, string order is date order. */
  lemma IsoOrder(a: int, b: int)
    requires IsoOf(a).Some? && IsoOf(b).Some?
    ensures TextBefore(IsoOf(a).value, IsoOf(b).value) <==> a < b
    ensures IsoOf(a) == IsoOf(b) <==> a == b
  {
    hide YearOf, MonthOf, DateOf, DateText, MonthIndex;
    OnMonthLine(a);
    OnMonthLine(b);
    IsoReads(a);
    IsoReads(b);
    ReadThenBuild(a);
    ReadThenBuild(b);
    SameOrder(a, b);
    DateTextOrder(YearOf(a), MonthOf(a) + 1, DateOf(a), YearOf(b), MonthOf(b) + 1, DateOf(b));
  }

  /** Text of a date names a real date, and that date. */
  lemma IsoReads(c: int)
    requires IsoOf(c).Some?
    ensures var s := IsoOf(c).value;
            && DateShaped(s) && RealDate(TextYear(s), TextMonth(s) - 1, TextDay(s))
            && Civil(TextYear(s), TextMonth(s) - 1, TextDay(s)) == c
            && 1000 <= TextYear(s) == YearOf(c)
  {
    hide MonthIndex, DateText, YearOf, MonthOf, DateOf, MonthLength, MonthStart;
    OnMonthLine(c);
    ReadThenBuild(c);
    ReadText(YearOf(c), MonthOf(c) + 1, DateOf(c));
  }

  /** Shifting the text of a date is adding days to the date. */
  lemma ShiftAdds(c: int, n: int)
    requires IsoOf(c).Some?
    ensures ShiftIsoDate(IsoOf(c).value, n) == IsoOf(c + n)
  {
    hide IsoOf, DateShaped, Civil;
    IsoReads(c);
  }

  /** Shifting by `a` and then by `b` is shifting by `a + b`, even from an impossible day. */
  lemma ShiftComposes(s: string, a: int, b: int)
    requires ShiftIsoDate(s, a).Some?
    ensures ShiftIsoDate(ShiftIsoDate(s, a).value, b) == ShiftIsoDate(s, a + b)
  {
    hide IsoOf, DateShaped, Civil;
    IsoReads(Civil(TextYear(s), TextMonth(s) - 1, TextDay(s)) + a);
  }

  /** Not shifting returns the text itself exactly when it is a real date of a four-digit year. */
  lemma ShiftByNothing(s: string)
    requires DateShaped(s)
    ensures ShiftIsoDate(s, 0) == Some(s)
       <==> TextYear(s) >= 1000 && RealDate(TextYear(s), TextMonth(s) - 1, TextDay(s))
  {
    hide ShiftIsoDate, DateShaped, RealDate;
    var y, m0: int, d := TextYear(s), TextMonth(s) - 1, TextDay(s);
    if y >= 1000 && RealDate(y, m0, d) { RealTextIsKept(s); }
    if ShiftIsoDate(s, 0) == Some(s) { KeptTextIsReal(s); }
  }

  lemma RealTextIsKept(s: string)
    requires DateShaped(s) && TextYear(s) >= 1000 && RealDate(TextYear(s), TextMonth(s) - 1, TextDay(s))
    ensures ShiftIsoDate(s, 0) == Some(s)
  {
    hide DateShaped, MonthLength, MonthStart, MonthIndex, YearOf, MonthOf, DateOf, DateText;
    WriteText(s);
    BuildThenRead(TextYear(s), TextMonth(s) - 1, TextDay(s));
  }

  lemma KeptTextIsReal(s: string)
    requires DateShaped(s) && ShiftIsoDate(s, 0) == Some(s)
    ensures TextYear(s) >= 1000 && RealDate(TextYear(s), TextMonth(s) - 1, TextDay(s))
  {
    hide DateShaped, IsoOf, Civil, RealDate;
    IsoReads(Civil(TextYear(s), TextMonth(s) - 1, TextDay(s)));
  }

  /** A shift is undone by the opposite shift, from every real date whose shift is still a date. */
  lemma ShiftBack(s: string, n: int)
    requires DateShaped(s) && TextYear(s) >= 1000 && RealDate(TextYear(s), TextMonth(s) - 1, TextDay(s))
    requires ShiftIsoDate(s, n).Some?
    ensures ShiftIsoDate(ShiftIsoDate(s, n).value, -n) == Some(s)
  {
    hide *;
    ShiftComposes(s, n, -n);
    ShiftByNothing(s);
  }

  /** Nothing rejects 31 February: it is read as a day of March. */
  lemma ImpossibleDayCarries(year: nat, day: nat)
    requires 1000 <= year <= 9999 && MonthLength(year, 1) < day <= 31
    ensures ShiftIsoDate(DateText(year, 2, day), 0) == Some(DateText(year, 3, day - MonthLength(year, 1)))
  {
    hide MonthStart, IsLeap, DateText, MonthIndex, YearOf, MonthOf, DateOf, Civil;
    ReadText(year, 2, day);
    CivilOutsideTwoDigitYears(year, 1, day);
    var d := day - MonthLength(year, 1);
    MonthStep(12 * year + 1);
    assert DayNumber(year, 1, day) == DayNumber(year, 2, d);
    BuildThenRead(year, 2, d);
  }
}
