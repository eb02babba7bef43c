/**
 Change-history detectors (packages/core/src/counterEvidence.ts:252-308): a close date that keeps
 moving, and a deal that went backwards. Histories arrive newest first.
 */
module Signals {
  import opened Options

  /** An observation by the text its value renders to. */
  datatype Row = Row(id: string, text: string, observedAt: int)

  datatype Slip = Slip(moves: nat, values: seq<string>, latest: Row)

  datatype Regression = Regression(from: Row, to: Row, drop: nat)

  function Reversed(rows: seq<Row>): (r: seq<Row>)
    ensures |r| == |rows| && forall i :: 0 <= i < |r| ==> r[i] == rows[|rows| - 1 - i]
  {
    if rows == [] then [] else Reversed(rows[1..]) + [rows[0]]
  }

  /** How often the value changed along an oldest-first history. */
  function Changes(seen: seq<Row>): nat {
    if |seen| < 2 then 0
    else Changes(seen[..|seen| - 1]) + if seen[|seen| - 1].text != seen[|seen| - 2].text then 1 else 0
  }

  /** The first row of each run of equal values. */
  function Runs(seen: seq<Row>): (runs: seq<Row>)
    ensures seen != [] ==> runs != []
  {
    if seen == [] then []
    else
      var before, last := Runs(seen[..|seen| - 1]), seen[|seen| - 1];
      if |seen| > 1 && seen[|seen| - 2].text == last.text then before else before + [last]
  }

  function Texts(rows: seq<Row>): (r: seq<string>)
    ensures |r| == |rows| && forall i :: 0 <= i < |rows| ==> r[i] == rows[i].text
  {
    if rows == [] then [] else Texts(rows[..|rows| - 1]) + [rows[|rows| - 1].text]
  }

  lemma {:induction false} RunsAre(seen: seq<Row>)
    requires seen != []
    ensures |Runs(seen)| == Changes(seen) + 1
    ensures Runs(seen)[0] == seen[0] && Runs(seen)[|Runs(seen)| - 1].text == seen[|seen| - 1].text
    ensures forall i :: 0 < i < |Runs(seen)| ==> Runs(seen)[i - 1].text != Runs(seen)[i].text
    ensures forall r :: r in Runs(seen) ==> r in seen
  {
    if |seen| > 1 {
      var before := seen[..|seen| - 1];
      RunsAre(before);
      assert before[|before| - 1] == seen[|seen| - 2];
    } else {
      assert seen[..0] == [];
    }
  }

  ghost predicate ChangesAt(seen: seq<Row>, i: int) {
    0 < i < |seen| && seen[i].text != seen[i - 1].text
  }

  /** The runs are the rows that differ from the row before them, in order, and there are as many changes. */
  lemma {:induction false} RunsStart(seen: seq<Row>, n: nat)
    requires n < |seen|
    ensures Runs(seen[..n + 1]) == if n == 0 || seen[n].text != seen[n - 1].text then Runs(seen[..n]) + [seen[n]] else Runs(seen[..n])
    ensures Changes(seen) == |set i | 0 < i < |seen| && ChangesAt(seen, i)|
  {
    assert seen[..n + 1] == seen[..n] + [seen[n]];
    OneMoreRow(seen[..n], seen[n]);
    if n == 0 { NoRuns(); }
    ChangesCount(seen, |seen|);
    assert seen[..|seen|] == seen;
  }

  lemma {:induction false} ChangesCount(seen: seq<Row>, n: nat)
    requires n <= |seen|
    ensures Changes(seen[..n]) == |set i | 0 < i < n && ChangesAt(seen, i)|
  {
    if n > 1 {
      ChangesCount(seen, n - 1);
      assert seen[..n][..n - 1] == seen[..n - 1];
      var before := set i | 0 < i < n - 1 && ChangesAt(seen, i);
      assert (set i | 0 < i < n && ChangesAt(seen, i))
          == if ChangesAt(seen, n - 1) then before + {n - 1} else before;
    } else {
      assert (set i | 0 < i < n && ChangesAt(seen, i)) == {};
    }
  }

  function Summary(seen: seq<Row>): Slip
    requires seen != []
  {
    Slip(Changes(seen), Texts(Runs(seen)), Runs(seen)[|Runs(seen)| - 1])
  }

  /** The current value has stood since row `i`. */
  ghost predicate StoodSince(seen: seq<Row>, i: int) {
    && 0 <= i < |seen| && (i == 0 || ChangesAt(seen, i))
    && forall j :: i < j < |seen| ==> !ChangesAt(seen, j)
  }

  lemma {:induction false} LastRunStands(seen: seq<Row>) returns (i: int)
    requires seen != []
    ensures StoodSince(seen, i) && seen[i] == Runs(seen)[|Runs(seen)| - 1]
  {
    var n := |seen| - 1;
    assert seen == seen[..n] + [seen[n]];
    hide Runs;
    OneMoreRow(seen[..n], seen[n]);
    if n > 0 && seen[n - 1].text == seen[n].text {
      i := LastRunStands(seen[..n]);
      assert forall j :: i < j < n ==> (ChangesAt(seen, j) <==> ChangesAt(seen[..n], j));
    } else {
      i := n;
    }
  }

  /**
   What a slip reports: how often the value changed, the values in turn from the first to the current
   one, and the row the current one was first seen in.
   */
  lemma SlipReports(seen: seq<Row>)
    requires seen != []
    ensures var slip := Summary(seen);
            && slip.moves == |set i | 0 < i < |seen| && ChangesAt(seen, i)| && |slip.values| == slip.moves + 1
            && slip.values[0] == seen[0].text && slip.values[slip.moves] == seen[|seen| - 1].text
            && (forall i :: 0 < i <= slip.moves ==> slip.values[i - 1] != slip.values[i])
            && exists i :: StoodSince(seen, i) && slip.latest == seen[i]
  {
    hide Runs, Changes;
    RunsAre(seen);
    ChangesCount(seen, |seen|);
    assert seen[..|seen|] == seen;
    var i := LastRunStands(seen);
  }

  /** `hist` holds the close-date rows, newest first; `parse` is `Date.parse` on a rendered value. */
  method CloseDateSlipped(hist: seq<Row>, parse: string -> Option<int>) returns (r: Option<Slip>)
    ensures var seen := Reversed(hist);
            r.Some? <==> Changes(seen) >= 1 && !PulledBack(parse, seen)
    ensures r.Some? ==> hist != [] && r.value == Summary(Reversed(hist))
  {
    if |hist| < 2 { return None; }
    hide Reversed, Changes, Texts, Runs;
    var seen := Reversed(hist);
    assert Runs([]) == [] by { NoRuns(); }
    var runs: seq<Row> := [];
    for i := 0 to |seen|
      invariant runs == Runs(seen[..i])
      invariant i > 0 ==> runs != [] && runs[|runs| - 1].text == seen[i - 1].text
    {
      assert seen[..i + 1] == seen[..i] + [seen[i]];
      OneMoreRow(seen[..i], seen[i]);
      if runs == [] || runs[|runs| - 1].text != seen[i].text { runs := runs + [seen[i]]; }
    }
    assert seen[..|seen|] == seen;
    RunsAre(seen);
    if |runs| < 2 { return None; }
    var first, last := parse(runs[0].text), parse(runs[|runs| - 1].text);
    if first.Some? && last.Some? && last.value <= first.value { return None; }
    return Some(Slip(|runs| - 1, Texts(runs), runs[|runs| - 1]));
  }

  lemma NoRuns()
    ensures Runs([]) == []
  {
  }

  lemma OneMoreRow(seen: seq<Row>, r: Row)
    ensures var again := seen != [] && seen[|seen| - 1].text == r.text;
            Runs(seen + [r]) == if again then Runs(seen) else Runs(seen) + [r]
  {
    assert (seen + [r])[..|seen|] == seen;
  }

  /** Both ends are dates and the last is not after the first. */
  ghost predicate PulledBack(parse: string -> Option<int>, seen: seq<Row>) {
    && seen != [] && parse(seen[0].text).Some? && parse(seen[|seen| - 1].text).Some?
    && parse(seen[|seen| - 1].text).value <= parse(seen[0].text).value
  }

  /** A date that ends where it began, or before, was not put off. */
  lemma PulledBackIs(parse: string -> Option<int>, seen: seq<Row>, first: int, last: int)
    requires seen != [] && parse(seen[0].text) == Some(first) && parse(seen[|seen| - 1].text) == Some(last)
    ensures PulledBack(parse, seen) <==> last <= first
  {
  }

  /** Observing the current value again, however often, changes nothing the detector reports. */
  lemma {:induction false} ReobservingChangesNothing(seen: seq<Row>, again: seq<Row>, parse: string -> Option<int>)
    requires seen != [] && forall r :: r in again ==> r.text == seen[|seen| - 1].text
    ensures Changes(seen + again) == Changes(seen) && Runs(seen + again) == Runs(seen)
    ensures PulledBack(parse, seen + again) <==> PulledBack(parse, seen)
    decreases |again|
  {
    if again == [] {
      assert seen + again == seen;
    } else {
      var n := |again| - 1;
      ReobservingChangesNothing(seen, again[..n], parse);
      assert (seen + again)[..|seen| + n] == seen + again[..n];
      assert again[n] in again && (n > 0 ==> again[n - 1] in again);
    }
  }

  /** Moves that put the date further out. */
  function OutwardMoves(parse: string -> Option<int>, runs: seq<Row>): nat {
    if |runs| < 2 then 0
    else OutwardMoves(parse, runs[..|runs| - 1]) + if MovesOut(parse, runs[|runs| - 2], runs[|runs| - 1]) then 1 else 0
  }

  predicate MovesOut(parse: string -> Option<int>, a: Row, b: Row) {
    parse(a.text).Some? && parse(b.text).Some? && parse(a.text).value < parse(b.text).value
  }

  /**
   Every change of value is reported as a move, also one that pulls the date in: the report is the
   number of moves outward exactly when every change in the history was outward.
   */
  lemma {:induction false} CountsEveryMove(parse: string -> Option<int>, seen: seq<Row>)
    requires seen != []
    ensures OutwardMoves(parse, Runs(seen)) <= Summary(seen).moves
    ensures OutwardMoves(parse, Runs(seen)) == Summary(seen).moves <==> AllOutward(parse, seen)
  {
    hide Runs, Changes, OutwardMoves, AllOutward, MovesOut, Texts;
    if |seen| > 1 {
      var before, last := seen[..|seen| - 1], seen[|seen| - 1];
      CountsEveryMove(parse, before);
      RunsAre(before);
      RunsAre(seen);
      AllOutwardSoFar(parse, seen);
      assert seen == before + [last];
      OneMoreRow(before, last);
      OneMoreRun(parse, Runs(before), last);
      SameMove(parse, Runs(before)[|Runs(before)| - 1], before[|before| - 1], last);
    } else {
      assert seen == [seen[0]];
      NothingMoved(parse, seen[0]);
    }
  }

  lemma SameMove(parse: string -> Option<int>, a: Row, a': Row, b: Row)
    requires a.text == a'.text
    ensures MovesOut(parse, a, b) <==> MovesOut(parse, a', b)
  {
  }

  lemma NothingMoved(parse: string -> Option<int>, r: Row)
    ensures Runs([r]) == [r] && Changes([r]) == 0 && OutwardMoves(parse, [r]) == 0 && AllOutward(parse, [r])
  {
    assert [r][..0] == [];
  }

  lemma OneMoreRun(parse: string -> Option<int>, runs: seq<Row>, r: Row)
    requires runs != []
    ensures OutwardMoves(parse, runs + [r]) == OutwardMoves(parse, runs) + if MovesOut(parse, runs[|runs| - 1], r) then 1 else 0
  {
    assert (runs + [r])[..|runs|] == runs;
  }

  ghost predicate AllOutward(parse: string -> Option<int>, seen: seq<Row>) {
    forall i :: 0 < i < |seen| && seen[i].text != seen[i - 1].text ==> MovesOut(parse, seen[i - 1], seen[i])
  }

  lemma AllOutwardSoFar(parse: string -> Option<int>, seen: seq<Row>)
    requires |seen| > 1
    ensures var before, a, b := seen[..|seen| - 1], seen[|seen| - 2], seen[|seen| - 1];
            AllOutward(parse, seen) <==> AllOutward(parse, before) && (b.text != a.text ==> MovesOut(parse, a, b))
  {
    var before := seen[..|seen| - 1];
    assert forall i :: 0 <= i < |before| ==> before[i] == seen[i];
  }

  /**
   1 September, put off to 1 October and pulled in to 15 September: the detector speaks, of two moves,
   and one of them was outward.
   */
  lemma PullingInIsCounted(parse: string -> Option<int>, sep1: Row, oct1: Row, sep15: Row)
    requires sep1.text == "2026-09-01" && oct1.text == "2026-10-01" && sep15.text == "2026-09-15"
    requires parse(sep1.text) == Some(1788220800000) && parse(oct1.text) == Some(1790812800000)
    requires parse(sep15.text) == Some(1789430400000)
    ensures var seen := Reversed([sep15, oct1, sep1]);
            && Changes(seen) >= 1 && !PulledBack(parse, seen)
            && Summary(seen).moves == 2 && OutwardMoves(parse, Runs(seen)) == 1
  {
    hide Reversed, Changes, Runs, OutwardMoves;
    assert oct1.text[6] != sep1.text[6] && oct1.text[6] != sep15.text[6];
    ThreeRuns(sep1, oct1, sep15);
    OutwardOfThree(parse, sep1, oct1, sep15);
  }

  lemma ThreeRuns(a: Row, b: Row, c: Row)
    requires a.text != b.text && b.text != c.text
    ensures Reversed([c, b, a]) == [a, b, c] && Runs([a, b, c]) == [a, b, c] && Changes([a, b, c]) == 2
  {
    hide Changes, Runs;
    NoRuns();
    OneMoreRow([], a);
    OneMoreRow([a], b);
    OneMoreRow([a, b], c);
    assert [] + [a] == [a] && [a] + [b] == [a, b] && [a, b] + [c] == [a, b, c];
    RunsAre([a, b, c]);
  }

  lemma OutwardOfThree(parse: string -> Option<int>, a: Row, b: Row, c: Row)
    ensures OutwardMoves(parse, [a, b, c]) == (if MovesOut(parse, a, b) then 1 else 0) + if MovesOut(parse, b, c) then 1 else 0
  {
    hide MovesOut;
    assert [a, b, c][..2] == [a, b] && [a, b][..1] == [a];
    assert OutwardMoves(parse, [a]) == 0;
    assert OutwardMoves(parse, [a, b]) == if MovesOut(parse, a, b) then 1 else 0;
  }

  // ---- Stages ----

  /** How far the ladder drops from row `i - 1` to row `i`, when both stages are known, and nothing otherwise. */
  function Fall(rank: string -> Option<nat>, seen: seq<Row>, i: int): int
    requires 0 < i < |seen|
  {
    var a, b := rank(seen[i - 1].text), rank(seen[i].text);
    if a.Some? && b.Some? then a.value - b.value else 0
  }

  ghost predicate NeverFalls(rank: string -> Option<nat>, seen: seq<Row>, n: int)
    requires n <= |seen|
  {
    forall i :: 0 < i < n ==> Fall(rank, seen, i) <= 0
  }

  /** `hist` holds the stage rows, newest first; `rank` is the ladder, by rendered value. */
  method StageRegressed(hist: seq<Row>, rank: string -> Option<nat>) returns (r: Option<Regression>)
    ensures r.None? <==> NeverFalls(rank, Reversed(hist), |hist|)
    ensures r.Some? ==> exists i :: EarliestWorst(rank, Reversed(hist), |hist|, i, r.value)
  {
    r := None;
    if |hist| < 2 { return; }
    hide Fall, Reversed;
    var seen := Reversed(hist);
    ghost var at := 0;
    for i := 1 to |seen|
      invariant r.None? ==> NeverFalls(rank, seen, i)
      invariant r.Some? ==> EarliestWorst(rank, seen, i, at, r.value)
    {
      var fall := Fall(rank, seen, i);
      if fall > 0 && (r.None? || fall > r.value.drop) {
        r := Some(Regression(seen[i - 1], seen[i], fall));
        at := i;
      }
    }
    assert r.Some? ==> Fall(rank, seen, at) > 0;
  }

  /** Row `i` is the first of the deepest falls among the first `n` rows. */
  ghost predicate EarliestWorst(rank: string -> Option<nat>, seen: seq<Row>, n: int, i: int, r: Regression) {
    && 0 < i < n <= |seen| && r == Regression(seen[i - 1], seen[i], r.drop)
    && r.drop == Fall(rank, seen, i) > 0
    && (forall j :: 0 < j < n ==> Fall(rank, seen, j) <= r.drop)
    && (forall j :: 0 < j < i ==> Fall(rank, seen, j) < r.drop)
  }

  /** The two stages are on the ladder and the deal stands lower at row `i` than right before it, by `drop`. */
  ghost predicate Drops(rank: string -> Option<nat>, seen: seq<Row>, i: int, drop: int) {
    && 0 < i < |seen| && rank(seen[i - 1].text).Some? && rank(seen[i].text).Some? && drop > 0
    && rank(seen[i].text).value + drop == rank(seen[i - 1].text).value
  }

  /** What is reported is the first drop of the most ranks, between neighbours. */
  lemma WorstIs(rank: string -> Option<nat>, seen: seq<Row>, i: int, r: Regression)
    requires EarliestWorst(rank, seen, |seen|, i, r)
    ensures Drops(rank, seen, i, r.drop) && r.from == seen[i - 1] && r.to == seen[i]
    ensures forall j, drop :: Drops(rank, seen, j, drop) ==> drop <= r.drop && (j < i ==> drop < r.drop)
  {
    forall j, drop | Drops(rank, seen, j, drop)
      ensures drop <= r.drop && (j < i ==> drop < r.drop)
    {
      assert Fall(rank, seen, j) == drop;
    }
  }

  lemma NothingDrops(rank: string -> Option<nat>, seen: seq<Row>)
    ensures NeverFalls(rank, seen, |seen|) <==> forall i, drop :: !Drops(rank, seen, i, drop)
  {
    if NeverFalls(rank, seen, |seen|) {
      forall i, drop
        ensures !Drops(rank, seen, i, drop)
      {
        if 0 < i < |seen| { assert Fall(rank, seen, i) <= 0; }
      }
    } else {
      var i :| 0 < i < |seen| && Fall(rank, seen, i) > 0;
      assert Drops(rank, seen, i, Fall(rank, seen, i));
    }
  }

  /** The lowest rank so far against a later one: how far the deal really fell. */
  ghost predicate FellOverall(rank: string -> Option<nat>, seen: seq<Row>, i: int, j: int) {
    && 0 <= i < j < |seen| && rank(seen[i].text).Some? && rank(seen[j].text).Some?
    && rank(seen[j].text).value < rank(seen[i].text).value
  }

  /** With every stage known, a deal that ever stood lower than before is reported. */
  lemma {:induction false} FallIsSeen(rank: string -> Option<nat>, seen: seq<Row>, i: int, j: int)
    requires FellOverall(rank, seen, i, j) && forall k :: i <= k <= j ==> rank(seen[k].text).Some?
    ensures exists k :: i < k <= j && Fall(rank, seen, k) > 0
    decreases j - i
  {
    if Fall(rank, seen, j) <= 0 && i + 1 < j {
      FallIsSeen(rank, seen, i, j - 1);
    }
  }

  /** A stage the ladder does not know hides the fall on either side of it. */
  lemma UnknownStageHidesFall(a: Row, custom: Row, b: Row, rank: string -> Option<nat>)
    requires rank(a.text).Some? && rank(b.text).Some? && rank(b.text).value < rank(a.text).value && rank(custom.text).None?
    ensures FellOverall(rank, [a, custom, b], 0, 2)
    ensures NeverFalls(rank, [a, custom, b], 3)
  {
  }
}
