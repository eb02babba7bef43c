/**
 What a count said in words is (packages/core/src/dateResolve.ts:374-390), about the words themselves.
 */
module DueDateCounts {
  import opened Options
  import opened DueDate

  /** The word names the number: a numeral, or a number word. */
  predicate Says(w: CountWord, n: int) {
    match w
    case Numeral(m) => m == n
    case Named(value) => value == n
    case _ => false
  }

  /** Word `i` is the only one that is no filler and, when `articles` may be passed over, no article. */
  ghost predicate OnlyWord(words: seq<CountWord>, i: int, articles: bool) {
    && 0 <= i < |words|
    && forall j :: 0 <= j < |words| && j != i ==> words[j].Filler? || (articles && words[j].Article?)
  }

  ghost predicate LoneArticle(words: seq<CountWord>) {
    exists i :: OnlyWord(words, i, false) && words[i].Article?
  }

  ghost predicate LoneNumber(words: seq<CountWord>, n: int) {
    exists i :: OnlyWord(words, i, true) && Says(words[i], n)
  }

  /**
   The words count `n`: a lone article counts one, a lone number itself, whatever fillers are around it
   and, for the number, articles. A numeral with no word beside it is held to 3650.
   */
  ghost predicate CountIs(words: seq<CountWord>, n: int) {
    || (n == 1 && LoneArticle(words))
    || (LoneNumber(words, n) && (|words| == 1 && words[0].Numeral? ==> n <= 3650))
  }

  // ---- What the noise leaves ----

  /** The words that are neither filler nor article. */
  ghost function Spoken(words: seq<CountWord>): seq<CountWord> {
    if words == [] then []
    else (if words[0].Filler? || words[0].Article? then [] else [words[0]]) + Spoken(words[1..])
  }

  lemma {:induction false} SpokenIsKept(words: seq<CountWord>)
    ensures Without(Without(words, Filler), Article) == Spoken(words)
  {
    if words != [] {
      SpokenIsKept(words[1..]);
      var rest := Without(words[1..], Filler);
      if words[0].Filler? {
        assert Without(words, Filler) == rest;
      } else {
        assert Without(words, Filler) == [words[0]] + rest && ([words[0]] + rest)[1..] == rest;
      }
    }
  }

  lemma {:induction false} OneKept(words: seq<CountWord>, i: int)
    requires OnlyWord(words, i, false) && !words[i].Filler?
    ensures Without(words, Filler) == [words[i]]
  {
    if i > 0 {
      OneKept(words[1..], i - 1);
    } else {
      assert forall w :: w in words[1..] ==> w.Filler?;
      assert Without(words[1..], Filler) == [] by { NoneIn(Without(words[1..], Filler)); }
    }
  }

  lemma NoneIn(s: seq<CountWord>)
    ensures s == [] || exists w :: w in s
  {
    if s != [] { assert s[0] in s; }
  }

  lemma {:induction false} KeptOne(words: seq<CountWord>) returns (i: int)
    requires |Without(words, Filler)| == 1
    ensures OnlyWord(words, i, false) && words[i] == Without(words, Filler)[0] && !words[i].Filler?
  {
    if words[0].Filler? {
      var k := KeptOne(words[1..]);
      i := k + 1;
    } else {
      i := 0;
      assert Without(words[1..], Filler) == [];
      forall j | 1 <= j < |words| ensures words[j].Filler? {
        assert words[j] in words[1..];
        assert words[j] !in Without(words[1..], Filler);
      }
    }
  }

  lemma {:induction false} OneSpoken(words: seq<CountWord>, i: int)
    requires OnlyWord(words, i, true) && !words[i].Filler? && !words[i].Article?
    ensures Spoken(words) == [words[i]]
  {
    if i > 0 {
      OneSpoken(words[1..], i - 1);
    } else {
      NothingSpoken(words[1..]);
    }
  }

  lemma {:induction false} NothingSpoken(words: seq<CountWord>)
    ensures Spoken(words) == [] <==> forall j :: 0 <= j < |words| ==> words[j].Filler? || words[j].Article?
  {
    if words != [] {
      NothingSpoken(words[1..]);
      assert forall j :: 1 <= j < |words| ==> words[j] == words[1..][j - 1];
    }
  }

  lemma {:induction false} SpokenOne(words: seq<CountWord>) returns (i: int)
    requires |Spoken(words)| == 1
    ensures OnlyWord(words, i, true) && words[i] == Spoken(words)[0] && !words[i].Filler? && !words[i].Article?
  {
    if words[0].Filler? || words[0].Article? {
      var k := SpokenOne(words[1..]);
      i := k + 1;
    } else {
      i := 0;
      NothingSpoken(words[1..]);
      assert forall j :: 1 <= j < |words| ==> words[j] == words[1..][j - 1];
    }
  }

  // ---- The resolver's count ----

  lemma CountIsFound(words: seq<CountWord>, n: nat)
    requires CountIs(words, n)
    ensures ParseCount(words) == Some(n)
  {
    SpokenIsKept(words);
    if n == 1 && LoneArticle(words) {
      var i :| OnlyWord(words, i, false) && words[i].Article?;
      OneKept(words, i);
    } else {
      var i :| OnlyWord(words, i, true) && Says(words[i], n);
      OneSpoken(words, i);
      if |words| != 1 || !words[0].Numeral? { NumberIsLast(words, i); }
    }
  }

  lemma NumberIsLast(words: seq<CountWord>, i: int)
    requires OnlyWord(words, i, true) && (words[i].Numeral? || words[i].Named?) && Spoken(words) == [words[i]]
    ensures |Without(words, Filler)| == 1 ==> Without(words, Filler) == [words[i]]
  {
    var kept := Without(words, Filler);
    assert words[i] in kept;
  }

  lemma FoundIsCount(words: seq<CountWord>)
    requires ParseCount(words).Some?
    ensures CountIs(words, ParseCount(words).value)
  {
    if |words| == 1 && words[0].Numeral? {
      assert OnlyWord(words, 0, true);
    } else {
      SpokenIsKept(words);
      var kept := Without(words, Filler);
      if |kept| == 1 {
        var i := KeptOne(words);
        if !words[i].Article? { assert OnlyWord(words, i, true); }
      } else {
        var i := SpokenOne(words);
      }
    }
  }

  /** The resolver reads a count off the words exactly when they count it, and no other. */
  lemma CountIsRead(words: seq<CountWord>, n: nat)
    ensures ParseCount(words) == Some(n) <==> CountIs(words, n)
  {
    if CountIs(words, n) { CountIsFound(words, n); }
    if ParseCount(words).Some? { FoundIsCount(words); }
  }

  lemma TheCount(words: seq<CountWord>)
    ensures forall n :: CountIs(words, n) <==> ParseCount(words).Some? && ParseCount(words).value == n
  {
    hide ParseCount;
    forall n: int | CountIs(words, n)
      ensures ParseCount(words) == Some(n)
    {
      CountIsFound(words, n);
    }
    if ParseCount(words).Some? { FoundIsCount(words); }
  }

  /** So "a week" is one week, and "the next two weeks" and "a couple of weeks" are two. */
  lemma CountsSaid()
    ensures ParseCount([Article]) == Some(1) && ParseCount([Filler, Filler, Named(2)]) == Some(2)
    ensures ParseCount([Article, Named(2), Filler]) == Some(2)
  {
    assert OnlyWord([Article], 0, false);
    CountIsRead([Article], 1);
    assert OnlyWord([Filler, Filler, Named(2)], 2, true);
    CountIsRead([Filler, Filler, Named(2)], 2);
    assert OnlyWord([Article, Named(2), Filler], 1, true);
    CountIsRead([Article, Named(2), Filler], 2);
  }
}
