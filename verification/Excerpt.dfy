/**
 Transcript excerpts (packages/core/src/evidenceDetail.ts:127-171): the quoted line and the lines
 around it, reaching back to what it answered and on to the reply.
 */
module Excerpt {
  import opened Options

  const CONTEXT_LINES: nat := 3
  const REACH: nat := 12

  /** A line of a transcript: its speaker, whether it has words, and whether it holds the quote. */
  datatype Row = Row(who: Option<string>, hasWords: bool, matches: bool)

  /** A line of the excerpt, by its place in the transcript. */
  datatype Shown = Shown(row: nat, isQuote: bool)

  /** A named speaker other than `me`. */
  predicate IsOther(row: Row, me: string) {
    row.who.Some? && row.who.value != me
  }

  predicate Named(who: Option<string>) {
    who.Some? && who.value != ""
  }

  ghost predicate NoOther(rows: seq<Row>, from: int, to: int, me: string)
    requires 0 <= from && to <= |rows|
  {
    forall i :: from <= i < to ==> !IsOther(rows[i], me)
  }

  ghost predicate FirstMatch(rows: seq<Row>, at: int) {
    0 <= at < |rows| && rows[at].matches && forall i :: 0 <= i < at ==> !rows[i].matches
  }

  function Max(a: int, b: int): int {
    if a >= b then a else b
  }

  function Min(a: int, b: int): int {
    if a <= b then a else b
  }

  /**
   Where the window opens: at least `lines` back; further only across the speaker's own lines, and
   then until another speaker, the reach or the first line.
   */
  ghost predicate Opens(rows: seq<Row>, at: int, lines: nat, start: int)
    requires 0 <= at < |rows|
  {
    var least := Max(0, at - lines);
    && 0 <= start <= least
    && (start < least ==> Named(rows[at].who) && at - start <= REACH && NoOther(rows, start + 1, at, rows[at].who.value))
    && (Named(rows[at].who) ==>
          start == 0 || at - start >= REACH || exists i :: start <= i < at && IsOther(rows[i], rows[at].who.value))
  }

  ghost predicate Closes(rows: seq<Row>, at: int, lines: nat, end: int)
    requires 0 <= at < |rows|
  {
    var most := Min(|rows| - 1, at + lines);
    && most <= end < |rows|
    && (end > most ==> Named(rows[at].who) && end - at <= REACH && NoOther(rows, at + 1, end, rows[at].who.value))
    && (Named(rows[at].who) ==>
          end == |rows| - 1 || end - at >= REACH || exists i :: at < i <= end && IsOther(rows[i], rows[at].who.value))
  }

  function ShownRows(rows: seq<Row>, from: nat, to: nat, at: nat): seq<Shown>
    requires from <= to <= |rows|
    decreases |rows| - from
  {
    if from == to then []
    else (if from == at || rows[from].hasWords then [Shown(from, from == at)] else []) + ShownRows(rows, from + 1, to, at)
  }

  ghost predicate IsExcerpt(rows: seq<Row>, lines: nat, at: int, start: int, end: int, r: seq<Shown>) {
    && FirstMatch(rows, at) && Opens(rows, at, lines, start) && Closes(rows, at, lines, end)
    && r == ShownRows(rows, start, end + 1, at)
  }

  method NoOtherBetween(rows: seq<Row>, from: nat, to: nat, me: string) returns (r: bool)
    requires from <= to <= |rows|
    ensures r <==> NoOther(rows, from, to, me)
  {
    for i := from to to
      invariant NoOther(rows, from, i, me)
    {
      if IsOther(rows[i], me) { return false; }
    }
    return true;
  }

  method ExcerptAround(rows: seq<Row>, lines: nat) returns (r: Option<seq<Shown>>)
    ensures r.None? <==> forall i :: 0 <= i < |rows| ==> !rows[i].matches
    ensures r.Some? ==> exists at, start, end :: IsExcerpt(rows, lines, at, start, end, r.value)
  {
    var at := 0;
    while at < |rows| && !rows[at].matches
      invariant 0 <= at <= |rows|
      invariant forall i :: 0 <= i < at ==> !rows[i].matches
    {
      at := at + 1;
    }
    if at == |rows| { return None; }
    var me := if rows[at].who.Some? then rows[at].who.value else "";
    var start, end := Max(0, at - lines), Min(|rows| - 1, at + lines);
    var going := true;
    while going && me != "" && start > 0 && at - start < REACH
      invariant 0 <= start <= Max(0, at - lines)
      invariant start < Max(0, at - lines) ==> Named(rows[at].who) && at - start <= REACH && NoOther(rows, start + 1, at, me)
      invariant !going ==> exists i :: start <= i < at && IsOther(rows[i], me)
      decreases going, start
    {
      going := NoOtherBetween(rows, start, at, me);
      if going { start := start - 1; }
    }
    going := true;
    while going && me != "" && end < |rows| - 1 && end - at < REACH
      invariant Min(|rows| - 1, at + lines) <= end < |rows|
      invariant end > Min(|rows| - 1, at + lines) ==> Named(rows[at].who) && end - at <= REACH && NoOther(rows, at + 1, end, me)
      invariant !going ==> exists i :: at < i <= end && IsOther(rows[i], me)
      decreases going, |rows| - end
    {
      going := NoOtherBetween(rows, at + 1, end + 1, me);
      if going { end := end + 1; }
    }
    r := Some(ShownRows(rows, start, end + 1, at));
    assert IsExcerpt(rows, lines, at, start, end, r.value);
  }

  /** The window is fixed by the transcript: it opens and closes in one place only. */
  lemma WindowUnique(rows: seq<Row>, at: int, lines: nat, start: int, start': int, end: int, end': int)
    requires 0 <= at < |rows|
    requires Opens(rows, at, lines, start) && Opens(rows, at, lines, start')
    requires Closes(rows, at, lines, end) && Closes(rows, at, lines, end')
    ensures start == start' && end == end'
  {
  }

  /** It never reaches past the lines asked for or twelve, whichever is more. */
  lemma WindowBounded(rows: seq<Row>, at: int, lines: nat, start: int, end: int)
    requires 0 <= at < |rows| && Opens(rows, at, lines, start) && Closes(rows, at, lines, end)
    ensures at - start <= (if lines < 12 then 12 else lines) && end - at <= (if lines < 12 then 12 else lines)
    ensures start <= at - lines || start == 0
    ensures at + lines <= end || end == |rows| - 1
    ensures 0 <= start <= at <= end < |rows|
  {
  }

  /** Past the lines asked for, only the ends of the window can belong to someone else. */
  lemma SteppedOverAreOwn(rows: seq<Row>, at: int, lines: nat, start: int, end: int, i: int)
    requires 0 <= at < |rows| && Opens(rows, at, lines, start) && Closes(rows, at, lines, end)
    requires start < i < at - lines || at + lines < i < end
    ensures rows[at].who.Some? && rows[at].who.value != "" && (rows[i].who.None? || rows[i].who == rows[at].who)
  {
  }

  /** The speaker of line `i` is known, and not the quoted one. */
  ghost predicate SomeoneElse(rows: seq<Row>, at: int, i: int) {
    0 <= at < |rows| && 0 <= i < |rows| && rows[i].who.Some? && rows[i].who != rows[at].who
  }

  /**
   The window is as wide as the lines asked for exactly when it may stop there: the quoted line has no
   named speaker, or somebody else speaks within it, or the text or twelve lines end there.
   */
  lemma StopsAtAnother(rows: seq<Row>, at: int, lines: nat, start: int, end: int)
    requires 0 <= at < |rows| && Opens(rows, at, lines, start) && Closes(rows, at, lines, end)
    ensures rows[at].who.None? || rows[at].who.value == "" ==> start == Max(0, at - lines) && end == Min(|rows| - 1, at + lines)
    ensures rows[at].who.Some? && rows[at].who.value != "" ==>
      start == 0 || at - start >= 12 || exists i :: start <= i < at && SomeoneElse(rows, at, i)
    ensures rows[at].who.Some? && rows[at].who.value != "" ==>
      end == |rows| - 1 || end - at >= 12 || exists i :: at < i <= end && SomeoneElse(rows, at, i)
    ensures forall i :: start < i < at - lines || at + lines < i < end ==> !SomeoneElse(rows, at, i)
    ensures forall i :: SomeoneElse(rows, at, i) && at - lines <= i < at ==> start == Max(0, at - lines)
    ensures forall i :: SomeoneElse(rows, at, i) && at < i <= at + lines ==> end == Min(|rows| - 1, at + lines)
  {
    if Named(rows[at].who) {
      var me := rows[at].who.value;
      assert forall i :: 0 <= i < |rows| ==> (IsOther(rows[i], me) <==> SomeoneElse(rows, at, i));
    }
  }

  ghost predicate InWindow(rows: seq<Row>, from: nat, to: nat, at: nat, s: Shown)
    requires to <= |rows|
  {
    from <= s.row < to && (s.isQuote <==> s.row == at) && (s.isQuote || rows[s.row].hasWords)
  }

  ghost predicate OnlyQuote(r: seq<Shown>, k: int, at: int) {
    0 <= k < |r| && r[k].row == at && forall j :: 0 <= j < |r| ==> (r[j].isQuote <==> j == k)
  }

  ghost predicate Ascending(r: seq<Shown>) {
    forall j, k :: 0 <= j < k < |r| ==> r[j].row < r[k].row
  }

  /** The excerpt is the window in order, without wordless lines, with the match the one quote in it. */
  lemma {:induction false} ShownRowsAre(rows: seq<Row>, from: nat, to: nat, at: nat)
    requires from <= to <= |rows|
    ensures forall s :: s in ShownRows(rows, from, to, at) <==> InWindow(rows, from, to, at, s)
    ensures Ascending(ShownRows(rows, from, to, at))
    decreases |rows| - from
  {
    if from < to {
      ShownRowsAre(rows, from + 1, to, at);
      var rest := ShownRows(rows, from + 1, to, at);
      assert forall k :: 0 <= k < |rest| ==> rest[k] in rest;
    }
  }

  /** Exactly one line of an excerpt is marked as the quote. */
  lemma OneQuote(rows: seq<Row>, lines: nat, at: int, start: int, end: int, r: seq<Shown>)
    requires IsExcerpt(rows, lines, at, start, end, r)
    ensures exists k :: OnlyQuote(r, k, at)
  {
    WindowBounded(rows, at, lines, start, end);
    ShownRowsAre(rows, start, end + 1, at);
    assert InWindow(rows, start, end + 1, at, Shown(at, true));
    var k :| 0 <= k < |r| && r[k] == Shown(at, true);
    forall j | 0 <= j < |r|
      ensures r[j].isQuote <==> j == k
    {
      assert r[j] in r;
      assert j < k ==> r[j].row < r[k].row;
      assert k < j ==> r[k].row < r[j].row;
    }
    assert OnlyQuote(r, k, at);
  }
}
