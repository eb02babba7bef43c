/**
 The `counts[k] = (counts[k] ?? 0) + 1` idiom of the read paths: a record of counts that keeps its
 keys in the order they were first seen.
 */
module Tally {

  datatype Entry = Entry(key: string, count: nat)

  function Bump(counts: seq<Entry>, key: string): (r: seq<Entry>)
    ensures forall k :: Get(r, k) == Get(counts, k) + if k == key then 1 else 0
    ensures Total(r) == Total(counts) + 1
  {
    if counts == [] then [Entry(key, 1)]
    else if counts[0].key == key then [Entry(key, counts[0].count + 1)] + counts[1..]
    else [counts[0]] + Bump(counts[1..], key)
  }

  function Get(counts: seq<Entry>, key: string): nat {
    if counts == [] then 0 else if counts[0].key == key then counts[0].count else Get(counts[1..], key)
  }

  function Total(counts: seq<Entry>): nat {
    if counts == [] then 0 else counts[0].count + Total(counts[1..])
  }

  /** Counting a whole list of keys, first to last. */
  function CountAll(keys: seq<string>): seq<Entry> {
    if keys == [] then [] else Bump(CountAll(keys[..|keys| - 1]), keys[|keys| - 1])
  }

  lemma CountOneMore(keys: seq<string>, key: string)
    ensures CountAll(keys + [key]) == Bump(CountAll(keys), key)
  {
    assert (keys + [key])[..|keys|] == keys;
  }

  /** One entry a key, none of them empty. */
  ghost predicate OnePerKey(counts: seq<Entry>) {
    && (forall i, j :: 0 <= i < j < |counts| ==> counts[i].key != counts[j].key)
    && (forall i :: 0 <= i < |counts| ==> counts[i].count > 0)
  }

  ghost predicate HasKey(counts: seq<Entry>, key: string) {
    exists e :: e in counts && e.key == key
  }

  lemma {:induction false} BumpKeys(counts: seq<Entry>, key: string, k: string)
    requires HasKey(Bump(counts, key), k)
    ensures k == key || HasKey(counts, k)
  {
    if counts != [] && counts[0].key != key && counts[0].key != k {
      BumpKeys(counts[1..], key, k);
      if k != key {
        var e :| e in counts[1..] && e.key == k;
        assert e in counts;
      }
    } else if counts != [] && counts[0].key == k {
      assert counts[0] in counts;
    }
  }

  lemma OnePerKeyHead(head: Entry, rest: seq<Entry>)
    requires OnePerKey(rest) && head.count > 0 && !HasKey(rest, head.key)
    ensures OnePerKey([head] + rest)
  {
    assert forall j :: 0 <= j < |rest| ==> rest[j] in rest;
  }

  lemma {:induction false} BumpKeepsKeys(counts: seq<Entry>, key: string)
    requires OnePerKey(counts)
    ensures OnePerKey(Bump(counts, key))
  {
    if counts != [] && counts[0].key != key {
      var head, rest := counts[0], Bump(counts[1..], key);
      BumpKeepsKeys(counts[1..], key);
      assert OnePerKey([head] + rest) by {
        if HasKey(rest, head.key) { BumpKeys(counts[1..], key, head.key); }
        OnePerKeyHead(head, rest);
      }
    }
  }

  lemma {:induction false} GetIsEntry(counts: seq<Entry>, i: int)
    requires OnePerKey(counts) && 0 <= i < |counts|
    ensures Get(counts, counts[i].key) == counts[i].count
  {
    if i > 0 {
      assert counts[1..][i - 1] == counts[i];
      GetIsEntry(counts[1..], i - 1);
    }
  }

  lemma {:induction false} Occurrences(keys: seq<string>, n: nat, k: string)
    requires n <= |keys|
    ensures multiset(keys[..n])[k] == |set i | 0 <= i < n && keys[i] == k|
  {
    if n > 0 {
      Occurrences(keys, n - 1, k);
      var before := set i | 0 <= i < n - 1 && keys[i] == k;
      assert keys[..n] == keys[..n - 1] + [keys[n - 1]];
      assert (set i | 0 <= i < n && keys[i] == k) == if keys[n - 1] == k then before + {n - 1} else before;
    }
  }

  lemma {:induction false} BumpNew(counts: seq<Entry>, key: string)
    requires !HasKey(counts, key)
    ensures Bump(counts, key) == counts + [Entry(key, 1)]
  {
    if counts != [] {
      assert counts[0] in counts && forall e :: e in counts[1..] ==> e in counts;
      BumpNew(counts[1..], key);
    }
  }

  lemma {:induction false} BumpOld(counts: seq<Entry>, key: string, i: int)
    requires OnePerKey(counts) && 0 <= i < |counts| && counts[i].key == key
    ensures Bump(counts, key) == counts[i := Entry(key, counts[i].count + 1)]
  {
    if i > 0 {
      assert counts[1..][i - 1] == counts[i];
      BumpOld(counts[1..], key, i - 1);
    }
  }

  lemma {:induction false} KeysCounted(keys: seq<string>, k: string)
    ensures HasKey(CountAll(keys), k) <==> k in keys
  {
    CountsAreExact(keys);
    var counts := CountAll(keys);
    if HasKey(counts, k) {
      var i :| 0 <= i < |counts| && counts[i].key == k;
      GetIsEntry(counts, i);
    } else {
      GetNothing(counts, k);
    }
    assert k in keys <==> k in multiset(keys);
  }

  lemma {:induction false} GetNothing(counts: seq<Entry>, k: string)
    requires !HasKey(counts, k)
    ensures Get(counts, k) == 0
  {
    if counts != [] {
      assert counts[0] in counts && forall e :: e in counts[1..] ==> e in counts;
      GetNothing(counts[1..], k);
    }
  }

  ghost predicate OneMoreAt(before: seq<Entry>, after: seq<Entry>, k: string, i: int) {
    0 <= i < |before| && before[i].key == k && after == before[i := Entry(k, before[i].count + 1)]
  }

  /** Entries stand in the order their keys were first met: a new key goes last, a known one stays put. */
  lemma CountsInOrder(keys: seq<string>, k: string)
    ensures k !in keys ==> CountAll(keys + [k]) == CountAll(keys) + [Entry(k, 1)]
    ensures k in keys ==> exists i :: OneMoreAt(CountAll(keys), CountAll(keys + [k]), k, i)
  {
    CountOneMore(keys, k);
    CountsAreExact(keys);
    KeysCounted(keys, k);
    var counts := CountAll(keys);
    if k in keys {
      var i :| 0 <= i < |counts| && counts[i].key == k;
      BumpOld(counts, k, i);
      assert OneMoreAt(counts, CountAll(keys + [k]), k, i);
    } else {
      BumpNew(counts, k);
    }
  }

  /** Nothing is lost or counted twice: each key has one entry, its count is exact, and the counts add up. */
  lemma {:induction false} CountsAreExact(keys: seq<string>)
    ensures OnePerKey(CountAll(keys)) && Total(CountAll(keys)) == |keys|
    ensures forall k :: Get(CountAll(keys), k) == multiset(keys)[k]
  {
    if keys != [] {
      var n := |keys| - 1;
      CountsAreExact(keys[..n]);
      BumpKeepsKeys(CountAll(keys[..n]), keys[n]);
      assert keys == keys[..n] + [keys[n]];
    }
  }
}
