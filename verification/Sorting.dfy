/**
 The stable `Array.prototype.sort` of ECMA-262 section 23.1.3.30, as a function of the list and a
 strict ordering.
 */
module Sorting {

  ghost predicate StrictWeak<T(!new)>(lt: (T, T) -> bool) {
    && (forall x, y :: lt(x, y) ==> !lt(y, x))
    && (forall x, y, z :: !lt(x, y) && !lt(y, z) ==> !lt(x, z))
  }

  function Insert<T>(lt: (T, T) -> bool, x: T, s: seq<T>): (r: seq<T>)
    ensures multiset(r) == multiset{x} + multiset(s) && |r| == |s| + 1
  {
    if s != [] && lt(s[0], x) then
      assert s == [s[0]] + s[1..];
      [s[0]] + Insert(lt, x, s[1..])
    else [x] + s
  }

  function Sort<T>(lt: (T, T) -> bool, s: seq<T>): (r: seq<T>)
    ensures multiset(r) == multiset(s) && |r| == |s|
  {
    if s == [] then [] else
      assert s == [s[0]] + s[1..];
      Insert(lt, s[0], Sort(lt, s[1..]))
  }

  ghost predicate Sorted<T>(lt: (T, T) -> bool, s: seq<T>) {
    forall i, j :: 0 <= i < j < |s| ==> !lt(s[j], s[i])
  }

  /** The members no ordering separates from `x`, in their order. */
  ghost function Alike<T>(lt: (T, T) -> bool, s: seq<T>, x: T): seq<T> {
    if s == [] then [] else (if !lt(s[0], x) && !lt(x, s[0]) then [s[0]] else []) + Alike(lt, s[1..], x)
  }

  lemma Members<T>(lt: (T, T) -> bool, s: seq<T>)
    ensures forall x :: x in Sort(lt, s) <==> x in s
  {
    assert forall x :: x in Sort(lt, s) <==> x in multiset(Sort(lt, s));
  }

  lemma {:induction false} InsertSorted<T(!new)>(lt: (T, T) -> bool, x: T, s: seq<T>)
    requires StrictWeak(lt) && Sorted(lt, s)
    ensures Sorted(lt, Insert(lt, x, s))
  {
    var r := Insert(lt, x, s);
    if s != [] && lt(s[0], x) {
      InsertSorted(lt, x, s[1..]);
      var rest := Insert(lt, x, s[1..]);
      forall j | 0 <= j < |rest|
        ensures !lt(rest[j], s[0])
      {
        assert rest[j] in multiset(rest);
        assert rest[j] == x || rest[j] in s[1..];
      }
    } else if s != [] {
      forall j | 0 <= j < |s|
        ensures !lt(s[j], x)
      {
        if j > 0 { assert !lt(s[j], s[0]); }
      }
    }
  }

  /** Sorting puts the list in order. */
  lemma {:induction false} SortSorts<T(!new)>(lt: (T, T) -> bool, s: seq<T>)
    requires StrictWeak(lt)
    ensures Sorted(lt, Sort(lt, s))
  {
    if s != [] {
      SortSorts(lt, s[1..]);
      InsertSorted(lt, s[0], Sort(lt, s[1..]));
    }
  }

  lemma {:induction false} InsertStable<T(!new)>(lt: (T, T) -> bool, x: T, s: seq<T>, y: T)
    requires StrictWeak(lt)
    ensures Alike(lt, Insert(lt, x, s), y) == Alike(lt, [x] + s, y)
  {
    assert ([x] + s)[1..] == s;
    if s != [] && lt(s[0], x) {
      InsertStable(lt, x, s[1..], y);
      assert ([x] + s[1..])[1..] == s[1..];
      var r := Insert(lt, x, s[1..]);
      assert ([s[0]] + r)[1..] == r;
    }
  }

  /** Sorting is stable: what the ordering does not separate keeps its order. */
  lemma {:induction false} SortStable<T(!new)>(lt: (T, T) -> bool, s: seq<T>, y: T)
    requires StrictWeak(lt)
    ensures Alike(lt, Sort(lt, s), y) == Alike(lt, s, y)
  {
    if s != [] {
      SortStable(lt, s[1..], y);
      InsertStable(lt, s[0], Sort(lt, s[1..]), y);
      assert ([s[0]] + Sort(lt, s[1..]))[1..] == Sort(lt, s[1..]);
    }
  }

  // ---- Where each member ends up ----

  /** `s[j]` comes out before `s[i]`: it is ordered first, or nothing orders them and it stood first. */
  ghost predicate Precedes<T>(lt: (T, T) -> bool, s: seq<T>, j: int, i: int)
    requires 0 <= j < |s| && 0 <= i < |s|
  {
    lt(s[j], s[i]) || (j < i && !lt(s[i], s[j]))
  }

  /** How many of the first `n` members come out before `s[i]`. */
  ghost function Ahead<T>(lt: (T, T) -> bool, s: seq<T>, n: nat, i: int): nat
    requires n <= |s| && 0 <= i < |s|
  {
    if n == 0 then 0 else Ahead(lt, s, n - 1, i) + if Precedes(lt, s, n - 1, i) then 1 else 0
  }

  ghost function Place<T>(lt: (T, T) -> bool, s: seq<T>, i: int): nat
    requires 0 <= i < |s|
  {
    Ahead(lt, s, |s|, i)
  }

  ghost function Below<T>(lt: (T, T) -> bool, s: seq<T>, x: T): nat {
    if s == [] then 0 else (if lt(s[0], x) then 1 else 0) + Below(lt, s[1..], x)
  }

  lemma {:induction false} InsertBelow<T>(lt: (T, T) -> bool, y: T, s: seq<T>, x: T)
    ensures Below(lt, Insert(lt, y, s), x) == Below(lt, s, x) + if lt(y, x) then 1 else 0
  {
    if s != [] && lt(s[0], y) {
      InsertBelow(lt, y, s[1..], x);
    }
  }

  lemma {:induction false} SortBelow<T>(lt: (T, T) -> bool, s: seq<T>, x: T)
    ensures Below(lt, Sort(lt, s), x) == Below(lt, s, x)
  {
    if s != [] {
      SortBelow(lt, s[1..], x);
      InsertBelow(lt, s[0], Sort(lt, s[1..]), x);
    }
  }

  lemma {:induction false} InsertPlace<T(!new)>(lt: (T, T) -> bool, x: T, s: seq<T>)
    requires StrictWeak(lt) && Sorted(lt, s)
    ensures var k := Below(lt, s, x); k <= |s| && Insert(lt, x, s) == s[..k] + [x] + s[k..]
    ensures forall j :: 0 <= j < |s| ==> (lt(s[j], x) <==> j < Below(lt, s, x))
  {
    if s != [] {
      InsertPlace(lt, x, s[1..]);
      var k := Below(lt, s[1..], x);
      forall j | 1 <= j < |s|
        ensures lt(s[j], x) <==> j - 1 < k
      {
        assert s[1..][j - 1] == s[j];
      }
      if |s| > 1 && !lt(s[0], x) { assert !lt(s[1], s[0]) && s[1..][0] == s[1]; }
    }
  }

  lemma {:induction false} AheadOfFirst<T>(lt: (T, T) -> bool, s: seq<T>, n: nat)
    requires 0 < n <= |s|
    ensures Ahead(lt, s, n, 0) == Below(lt, s[1..n], s[0]) + if lt(s[0], s[0]) then 1 else 0
  {
    if n > 1 {
      AheadOfFirst(lt, s, n - 1);
      assert s[1..n] == s[1..n - 1] + [s[n - 1]];
      BelowAppend(lt, s[1..n - 1], s[n - 1], s[0]);
    }
  }

  lemma {:induction false} BelowAppend<T>(lt: (T, T) -> bool, s: seq<T>, y: T, x: T)
    ensures Below(lt, s + [y], x) == Below(lt, s, x) + if lt(y, x) then 1 else 0
  {
    if s != [] {
      BelowAppend(lt, s[1..], y, x);
      assert (s + [y])[1..] == s[1..] + [y];
    }
  }

  lemma {:induction false} AheadOfLater<T(!new)>(lt: (T, T) -> bool, s: seq<T>, n: nat, i: int)
    requires StrictWeak(lt) && 0 < n <= |s| && 0 < i < |s|
    ensures Ahead(lt, s, n, i) == Ahead(lt, s[1..], n - 1, i - 1) + if lt(s[i], s[0]) then 0 else 1
  {
    if n > 1 {
      AheadOfLater(lt, s, n - 1, i);
      assert Precedes(lt, s, n - 1, i) <==> Precedes(lt, s[1..], n - 2, i - 1);
    }
  }

  /** Each member ends up exactly behind those that come out before it. */
  lemma {:induction false} SortPlaces<T(!new)>(lt: (T, T) -> bool, s: seq<T>, i: int)
    requires StrictWeak(lt) && 0 <= i < |s|
    ensures Place(lt, s, i) < |s| && Sort(lt, s)[Place(lt, s, i)] == s[i]
  {
    hide Sorted, Insert, Ahead, Below;
    var x, rest := s[0], Sort(lt, s[1..]);
    SortSorts(lt, s[1..]);
    InsertPlace(lt, x, rest);
    var p := Below(lt, rest, x);
    assert Sort(lt, s) == rest[..p] + [x] + rest[p..];
    if i == 0 {
      assert !lt(x, x);
      AheadOfFirst(lt, s, |s|);
      assert s[1..|s|] == s[1..];
      SortBelow(lt, s[1..], x);
    } else {
      SortPlaces(lt, s[1..], i - 1);
      AheadOfLater(lt, s, |s|, i);
      var k := Place(lt, s[1..], i - 1);
      assert rest[k] == s[i];
      assert lt(s[i], x) <==> k < p;
    }
  }

  lemma {:induction false} AheadCounts<T>(lt: (T, T) -> bool, s: seq<T>, n: nat, i: int)
    requires n <= |s| && 0 <= i < |s|
    ensures Ahead(lt, s, n, i) == |set j | 0 <= j < n && Precedes(lt, s, j, i)|
  {
    if n > 0 {
      AheadCounts(lt, s, n - 1, i);
      var before := set j | 0 <= j < n - 1 && Precedes(lt, s, j, i);
      var upTo := set j | 0 <= j < n && Precedes(lt, s, j, i);
      assert upTo == if Precedes(lt, s, n - 1, i) then before + {n - 1} else before;
    }
  }

  lemma {:induction false} FewerAhead<T(!new)>(lt: (T, T) -> bool, s: seq<T>, n: nat, i: int, j: int)
    requires StrictWeak(lt) && 0 <= i < |s| && 0 <= j < |s| && n <= |s| && Precedes(lt, s, i, j)
    ensures Ahead(lt, s, n, i) <= Ahead(lt, s, n, j)
    ensures i < n ==> Ahead(lt, s, n, i) < Ahead(lt, s, n, j)
  {
    if n > 0 {
      FewerAhead(lt, s, n - 1, i, j);
    }
  }

  /** No two members share a place. */
  lemma PlacesOrder<T(!new)>(lt: (T, T) -> bool, s: seq<T>, i: int, j: int)
    requires StrictWeak(lt) && 0 <= i < |s| && 0 <= j < |s| && i != j
    ensures Place(lt, s, i) < Place(lt, s, j) <==> Precedes(lt, s, i, j)
  {
    if Precedes(lt, s, i, j) {
      FewerAhead(lt, s, |s|, i, j);
    } else {
      FewerAhead(lt, s, |s|, j, i);
    }
  }
}
