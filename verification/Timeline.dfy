/**
 The timeline of an assembled context (packages/core/src/context.ts:324-340 and 407-428): which events
 are kept, and how they are tiered by age.
 */
module Timeline {
  import opened Sorting
  import opened Tally

  const MIN_TIMELINE_EVENTS: nat := 8
  const DAY: int := 86400000

  /** An observation; `notable` is what the source's event pattern finds in its property. */
  datatype Event = Event(id: string, at: int, notable: bool, kind: string)

  ghost predicate NewestFirst(events: seq<Event>) {
    forall i, j :: 0 <= i < j < |events| ==> events[i].at >= events[j].at
  }

  ghost predicate UniqueIds(events: seq<Event>) {
    forall i, j :: 0 <= i < j < |events| ==> events[i].id != events[j].id
  }

  function Since(events: seq<Event>, cutoff: int): (r: seq<Event>)
    ensures forall e :: e in r <==> e in events && e.at >= cutoff
    ensures |r| <= |events|
  {
    if events == [] then []
    else (if events[0].at >= cutoff then [events[0]] else []) + Since(events[1..], cutoff)
  }

  function Notable(events: seq<Event>): (r: seq<Event>)
    ensures forall e :: e in r <==> e in events && e.notable
  {
    if events == [] then []
    else (if events[0].notable then [events[0]] else []) + Notable(events[1..])
  }

  /** Everything in the window, or the latest few when the window holds less than that. */
  function Windowed(events: seq<Event>, cutoff: int): seq<Event> {
    var inWindow := Since(events, cutoff);
    if |inWindow| >= MIN_TIMELINE_EVENTS then inWindow
    else if |events| <= MIN_TIMELINE_EVENTS then events
    else events[..MIN_TIMELINE_EVENTS]
  }

  /** `Map.set` under the event's id. */
  function Put(kept: seq<Event>, e: Event): (r: seq<Event>)
    ensures e in r && forall x :: x in r ==> x == e || x in kept
    ensures forall x :: x in kept && x.id != e.id ==> x in r
  {
    if kept == [] then [e]
    else if kept[0].id == e.id then [e] + kept[1..]
    else [kept[0]] + Put(kept[1..], e)
  }

  function PutAll(events: seq<Event>): seq<Event> {
    if events == [] then [] else PutIfNamed(PutAll(events[..|events| - 1]), events[|events| - 1])
  }

  /** An observation without an id is left out. */
  function PutIfNamed(kept: seq<Event>, e: Event): seq<Event> {
    if e.id == "" then kept else Put(kept, e)
  }

  predicate Newer(a: Event, b: Event) {
    a.at > b.at
  }

  function Timeline(events: seq<Event>, cutoff: int): seq<Event> {
    Sort(Newer, PutAll(Notable(events) + Windowed(events, cutoff)))
  }

  method AssembleTimeline(events: seq<Event>, cutoff: int) returns (r: seq<Event>)
    ensures r == Timeline(events, cutoff)
  {
    hide Notable, Windowed, Put, Sort;
    var source := Notable(events) + Windowed(events, cutoff);
    var byId: seq<Event> := [];
    for i := 0 to |source|
      invariant byId == PutAll(source[..i])
    {
      assert source[..i + 1][..i] == source[..i];
      if source[i].id != "" { byId := Put(byId, source[i]); }
    }
    assert source[..|source|] == source;
    r := Sort(Newer, byId);
  }

  // ---- What the timeline keeps ----

  lemma {:induction false} PutKeepsIds(kept: seq<Event>, e: Event)
    requires UniqueIds(kept)
    ensures UniqueIds(Put(kept, e))
  {
    if kept != [] && kept[0].id != e.id {
      PutKeepsIds(kept[1..], e);
      var rest := Put(kept[1..], e);
      forall j | 0 <= j < |rest|
        ensures rest[j].id != kept[0].id
      {
        assert rest[j] in rest;
      }
    }
  }

  /** Over a list where an id names one event, the Map holds each event once. */
  lemma {:induction false} PutAllKeeps(events: seq<Event>)
    requires forall x, y :: x in events && y in events && x.id == y.id ==> x == y
    ensures UniqueIds(PutAll(events))
    ensures forall e :: e in PutAll(events) <==> e in events && e.id != ""
  {
    if events != [] {
      var rest, e := events[..|events| - 1], events[|events| - 1];
      assert events == rest + [e];
      PutAllKeeps(rest);
      if e.id != "" { PutKeepsIds(PutAll(rest), e); }
    }
  }

  lemma {:induction false} SinceIsPrefix(events: seq<Event>, cutoff: int)
    requires NewestFirst(events)
    ensures Since(events, cutoff) == events[..|Since(events, cutoff)|]
  {
    if events != [] {
      hide NewestFirst, Since;
      var e, rest := events[0], events[1..];
      assert events == [e] + rest;
      TailIsOlder(events);
      SinceHead(e, rest, cutoff);
      if e.at < cutoff {
        NoneSince(rest, cutoff);
      } else {
        SinceIsPrefix(rest, cutoff);
        var n := |Since(rest, cutoff)|;
        PrefixHead(e, rest, n);
      }
    }
  }

  lemma PrefixHead(e: Event, rest: seq<Event>, n: nat)
    requires n <= |rest|
    ensures ([e] + rest)[..1 + n] == [e] + rest[..n]
  {
  }

  lemma SinceHead(e: Event, rest: seq<Event>, cutoff: int)
    ensures Since([e] + rest, cutoff) == if e.at >= cutoff then [e] + Since(rest, cutoff) else Since(rest, cutoff)
  {
    assert ([e] + rest)[1..] == rest;
  }

  lemma TailIsOlder(events: seq<Event>)
    requires NewestFirst(events) && events != []
    ensures NewestFirst(events[1..]) && forall i :: 0 <= i < |events[1..]| ==> events[1..][i].at <= events[0].at
  {
  }

  lemma {:induction false} NoneSince(events: seq<Event>, cutoff: int)
    requires forall i :: 0 <= i < |events| ==> events[i].at < cutoff
    ensures Since(events, cutoff) == []
  {
    if events != [] { NoneSince(events[1..], cutoff); }
  }

  lemma NewerOrders()
    ensures StrictWeak(Newer)
  {
  }

  /**
   An observation with an id is on the timeline exactly when it is in the window, notable, or among
   the eight latest; the timeline is newest first and holds nothing twice.
   */
  lemma TimelineKeeps(events: seq<Event>, cutoff: int)
    requires NewestFirst(events) && UniqueIds(events)
    ensures var r := Timeline(events, cutoff);
            && NewestFirst(r) && UniqueIds(r)
            && (forall e :: e in r ==> e in events)
            && forall i :: 0 <= i < |events| ==>
                 (events[i] in r <==> events[i].id != "" && (events[i].at >= cutoff || events[i].notable || i < 8))
  {
    var windowed := Windowed(events, cutoff);
    var source := Notable(events) + windowed;
    var merged := PutAll(source);
    SinceIsPrefix(events, cutoff);
    assert forall e :: e in source ==> e in events;
    PutAllKeeps(source);
    NewerOrders();
    SortSorts(Newer, merged);
    Members(Newer, merged);
    SortKeepsIds(merged);
    var r := Timeline(events, cutoff);
    forall i | 0 <= i < |events|
      ensures events[i] in r <==> events[i].id != "" && (events[i].at >= cutoff || events[i].notable || i < 8)
    {
      WindowedHas(events, cutoff, i);
    }
  }

  lemma WindowedHas(events: seq<Event>, cutoff: int, i: int)
    requires NewestFirst(events) && UniqueIds(events) && 0 <= i < |events|
    ensures events[i] in Windowed(events, cutoff) <==> events[i].at >= cutoff || i < 8
  {
    SinceIsPrefix(events, cutoff);
    var n := |Since(events, cutoff)|;
    assert events[i] in events[..n] <==> i < n by {
      if events[i] in events[..n] {
        var j :| 0 <= j < n && events[j] == events[i];
        assert j == i;
      }
    }
    assert events[i].at >= cutoff <==> i < n by {
      assert events[i] in Since(events, cutoff) <==> events[i].at >= cutoff;
    }
    if MIN_TIMELINE_EVENTS < |events| && events[i] in events[..MIN_TIMELINE_EVENTS] {
      var j :| 0 <= j < MIN_TIMELINE_EVENTS && events[j] == events[i];
      assert j == i;
    }
  }

  lemma SortKeepsIds(events: seq<Event>)
    requires UniqueIds(events)
    ensures UniqueIds(Sort(Newer, events))
  {
    var r := Sort(Newer, events);
    DistinctIds(events);
    Members(Newer, events);
    assert forall i :: 0 <= i < |r| ==> r[i] in events;
    assert multiset(r) == multiset(events);
    forall i, j | 0 <= i < j < |r|
      ensures r[i].id != r[j].id
    {
      if r[i].id == r[j].id { TwiceIn(r, i, j); }
    }
  }

  lemma {:induction false} DistinctIds(events: seq<Event>)
    requires UniqueIds(events)
    ensures forall x :: multiset(events)[x] <= 1
    ensures forall x, y :: x in events && y in events && x.id == y.id ==> x == y
  {
    if events != [] {
      DistinctIds(events[1..]);
      assert events == [events[0]] + events[1..];
      assert events[0] !in events[1..];
    }
  }

  lemma TwiceIn(s: seq<Event>, i: int, j: int)
    requires 0 <= i < j < |s| && s[i] == s[j]
    ensures multiset(s)[s[i]] >= 2
  {
    assert s == s[..j] + s[j..];
    assert s[i] in s[..j] && s[j] in s[j..];
  }

  // ---- Its order ----

  /** The observations that are notable, or that are not, in their order; those without an id are dropped. */
  ghost function Picked(events: seq<Event>, notable: bool): seq<Event> {
    if events == [] then []
    else
      var e, before := events[|events| - 1], Picked(events[..|events| - 1], notable);
      if e.id != "" && e.notable == notable then before + [e] else before
  }

  lemma {:induction false} PickedAre(events: seq<Event>, notable: bool)
    ensures forall e :: e in Picked(events, notable) <==> e in events && e.id != "" && e.notable == notable
  {
    if events != [] { PickedAre(events[..|events| - 1], notable); }
  }

  lemma {:induction false} PutKnown(kept: seq<Event>, e: Event)
    requires UniqueIds(kept) && e in kept
    ensures Put(kept, e) == kept
  {
    if kept[0] != e { PutKnown(kept[1..], e); }
  }

  lemma {:induction false} PutNew(kept: seq<Event>, e: Event)
    requires forall x :: x in kept ==> x.id != e.id
    ensures Put(kept, e) == kept + [e]
  {
    if kept != [] { PutNew(kept[1..], e); }
  }

  ghost predicate OneEventAnId(events: seq<Event>) {
    forall x, y :: x in events && y in events && x.id == y.id ==> x == y
  }

  lemma PutOne(events: seq<Event>, e: Event)
    requires OneEventAnId(events + [e])
    ensures PutAll(events + [e])
         == if e.id == "" || e in events then PutAll(events) else PutAll(events) + [e]
  {
    assert (events + [e])[..|events|] == events;
    assert forall x :: x in events ==> x in events + [e];
    assert e in events + [e];
    PutAllKeeps(events);
    if e.id != "" {
      if e in events { PutKnown(PutAll(events), e); } else { PutNew(PutAll(events), e); }
    }
  }

  lemma {:induction false} NotableAppend(events: seq<Event>, e: Event)
    ensures Notable(events + [e]) == if e.notable then Notable(events) + [e] else Notable(events)
  {
    if events != [] {
      NotableAppend(events[1..], e);
      assert (events + [e])[1..] == events[1..] + [e];
    } else {
      assert (events + [e])[1..] == [];
    }
  }

  lemma {:induction false} NotableIsPicked(events: seq<Event>)
    requires UniqueIds(events)
    ensures PutAll(Notable(events)) == Picked(events, true)
  {
    if events != [] {
      var before, e := events[..|events| - 1], events[|events| - 1];
      assert events == before + [e];
      NotableIsPicked(before);
      NotableAppend(before, e);
      assert forall x :: x in before ==> x.id != e.id;
      DistinctIds(events);
      if e.notable {
        assert OneEventAnId(Notable(before) + [e]);
        PutOne(Notable(before), e);
      }
    }
  }

  /** Merging the window into the notable events adds what is not among them, in order. */
  lemma {:induction false} MergeAdds(events: seq<Event>, w: nat)
    requires UniqueIds(events) && w <= |events|
    ensures PutAll(Notable(events) + events[..w]) == Picked(events, true) + Picked(events[..w], false)
  {
    hide PutAll, Notable, Picked;
    var notable := Notable(events);
    if w == 0 {
      NotableIsPicked(events);
      assert events[..0] == [] && notable + [] == notable;
      NothingPicked();
    } else {
      var e, before := events[w - 1], events[..w - 1];
      MergeAdds(events, w - 1);
      assert events[..w] == before + [e];
      assert notable + (before + [e]) == notable + before + [e];
      PickedAppend(before, e, false);
      NewInWindow(events, w - 1);
      PutOne(notable + before, e);
    }
  }

  lemma NothingPicked()
    ensures Picked([], false) == []
  {
  }

  lemma PickedAppend(events: seq<Event>, e: Event, notable: bool)
    ensures Picked(events + [e], notable)
         == if e.id != "" && e.notable == notable then Picked(events, notable) + [e] else Picked(events, notable)
  {
    assert (events + [e])[..|events|] == events;
  }

  lemma NewInWindow(events: seq<Event>, w: nat)
    requires UniqueIds(events) && w < |events|
    ensures OneEventAnId(Notable(events) + events[..w] + [events[w]])
    ensures events[w] in Notable(events) + events[..w] <==> events[w].notable
  {
    hide Notable;
    DistinctIds(events);
    assert forall x :: x in Notable(events) + events[..w] + [events[w]] ==> x in events;
    forall i | 0 <= i < w
      ensures events[..w][i] != events[w]
    {
      assert events[i].id != events[w].id;
    }
  }

  ghost predicate WindowEnds(events: seq<Event>, cutoff: int, w: int) {
    0 <= w <= |events| && forall i :: 0 <= i < |events| ==> (i < w <==> events[i].at >= cutoff || i < 8)
  }

  ghost predicate NotableLead(events: seq<Event>, w: int, r: seq<Event>) {
    0 <= w <= |events| && r == Sort(Newer, Picked(events, true) + Picked(events[..w], false))
  }

  /** Events of one time stand notable ones first, and otherwise as they came. */
  lemma TimelineOrder(events: seq<Event>, cutoff: int)
    requires NewestFirst(events) && UniqueIds(events)
    ensures exists w :: WindowEnds(events, cutoff, w) && NotableLead(events, w, Timeline(events, cutoff))
  {
    hide Sort, Picked, PutAll, Notable;
    var w := |Windowed(events, cutoff)|;
    SinceIsPrefix(events, cutoff);
    assert Windowed(events, cutoff) == events[..w];
    forall i | 0 <= i < |events|
      ensures i < w <==> events[i].at >= cutoff || i < 8
    {
      WindowedHas(events, cutoff, i);
      assert i < w ==> events[..w][i] == events[i];
      if events[i] in events[..w] {
        var j :| 0 <= j < w && events[..w][j] == events[i];
        assert j == i;
      }
    }
    MergeAdds(events, w);
    assert WindowEnds(events, cutoff, w);
  }

  // ---- Tiers ----

  datatype Item = Full(event: Event) | Brief(event: Event) | Older(kind: string, count: nat)

  predicate IsRecent(e: Event, now: int) {
    now - e.at < 30 * DAY
  }

  function ItemFor(e: Event, now: int): Item {
    if now - e.at < 7 * DAY then Full(e) else Brief(e)
  }

  /** The events of the last thirty days, one item each. */
  function RecentItems(events: seq<Event>, now: int): seq<Item> {
    if events == [] then []
    else
      var e, before := events[|events| - 1], RecentItems(events[..|events| - 1], now);
      if IsRecent(e, now) then before + [ItemFor(e, now)] else before
  }

  /** The kinds of everything older. */
  function OlderKinds(events: seq<Event>, now: int): seq<string> {
    if events == [] then []
    else
      var e, before := events[|events| - 1], OlderKinds(events[..|events| - 1], now);
      if IsRecent(e, now) then before else before + [e.kind]
  }

  function CountItems(counts: seq<Entry>): seq<Item> {
    if counts == [] then []
    else CountItems(counts[..|counts| - 1]) + [Older(counts[|counts| - 1].key, counts[|counts| - 1].count)]
  }

  method CompressTimeline(events: seq<Event>, now: int) returns (items: seq<Item>)
    ensures items == RecentItems(events, now) + CountItems(CountAll(OlderKinds(events, now)))
  {
    hide IsRecent, ItemFor;
    items := [];
    var olderCounts: seq<Entry> := [];
    for i := 0 to |events|
      invariant items == RecentItems(events[..i], now)
      invariant olderCounts == CountAll(OlderKinds(events[..i], now))
    {
      OneMoreEvent(events[..i], events[i], now);
      CountOneMore(OlderKinds(events[..i], now), events[i].kind);
      assert events[..i + 1] == events[..i] + [events[i]];
      if IsRecent(events[i], now) {
        items := items + [ItemFor(events[i], now)];
      } else {
        olderCounts := Bump(olderCounts, events[i].kind);
      }
    }
    assert events[..|events|] == events;
    for i := 0 to |olderCounts|
      invariant items == RecentItems(events, now) + CountItems(olderCounts[..i])
    {
      assert olderCounts[..i + 1][..i] == olderCounts[..i];
      items := items + [Older(olderCounts[i].key, olderCounts[i].count)];
    }
    assert olderCounts[..|olderCounts|] == olderCounts;
  }

  lemma OneMoreEvent(events: seq<Event>, e: Event, now: int)
    ensures IsRecent(e, now) ==> RecentItems(events + [e], now) == RecentItems(events, now) + [ItemFor(e, now)]
    ensures IsRecent(e, now) ==> OlderKinds(events + [e], now) == OlderKinds(events, now)
    ensures !IsRecent(e, now) ==> RecentItems(events + [e], now) == RecentItems(events, now)
    ensures !IsRecent(e, now) ==> OlderKinds(events + [e], now) == OlderKinds(events, now) + [e.kind]
  {
    hide IsRecent, ItemFor;
    assert (events + [e])[..|events|] == events;
  }

  /** How many events an item stands for. */
  function Weight(items: seq<Item>): nat {
    if items == [] then 0
    else Weight(items[..|items| - 1]) + if items[|items| - 1].Older? then items[|items| - 1].count else 1
  }

  lemma {:induction false} WeightAdds(a: seq<Item>, b: seq<Item>)
    ensures Weight(a + b) == Weight(a) + Weight(b)
    decreases |b|
  {
    if b == [] {
      assert a + b == a;
    } else {
      WeightAdds(a, b[..|b| - 1]);
      assert (a + b)[..|a + b| - 1] == a + b[..|b| - 1];
    }
  }

  lemma {:induction false} CountItemsWeigh(counts: seq<Entry>)
    ensures Weight(CountItems(counts)) == Total(counts) && |CountItems(counts)| == |counts|
    ensures forall i :: 0 <= i < |counts| ==> CountItems(counts)[i] == Older(counts[i].key, counts[i].count)
    decreases |counts|
  {
    if counts != [] {
      var n := |counts| - 1;
      CountItemsWeigh(counts[..n]);
      TotalAppend(counts[..n], counts[n]);
      assert counts == counts[..n] + [counts[n]];
      WeightAdds(CountItems(counts[..n]), [Older(counts[n].key, counts[n].count)]);
      var last := [Older(counts[n].key, counts[n].count)];
      assert last[..0] == [];
    }
  }

  lemma {:induction false} TotalAppend(counts: seq<Entry>, e: Entry)
    ensures Total(counts + [e]) == Total(counts) + e.count
  {
    if counts != [] {
      TotalAppend(counts[1..], e);
      assert (counts + [e])[1..] == counts[1..] + [e];
    }
  }

  lemma {:induction false} RecentAndOlder(events: seq<Event>, now: int)
    ensures Weight(RecentItems(events, now)) + |OlderKinds(events, now)| == |events|
    ensures forall x :: x in RecentItems(events, now) ==> !x.Older?
  {
    hide IsRecent;
    if events != [] {
      var e, before := events[|events| - 1], events[..|events| - 1];
      assert events == before + [e];
      RecentAndOlder(before, now);
      OneMoreEvent(before, e, now);
      WeightAdds(RecentItems(before, now), [ItemFor(e, now)]);
      assert [ItemFor(e, now)][..0] == [];
    }
  }

  /** An event of the last 7 days is told in full, one of the last 30 in brief; the rest are only counted. */
  lemma {:induction false} TieredByAge(events: seq<Event>, now: int, e: Event)
    ensures Full(e) in RecentItems(events, now) <==> e in events && now - e.at < 604800000
    ensures Brief(e) in RecentItems(events, now) <==> e in events && 604800000 <= now - e.at < 2592000000
  {
    if events != [] {
      TieredByAge(events[..|events| - 1], now, e);
      assert events == events[..|events| - 1] + [events[|events| - 1]];
    }
  }

  /** An event of kind `k` thirty days old or more. */
  ghost predicate IsOlder(e: Event, now: int, k: string) {
    now - e.at >= 2592000000 && e.kind == k
  }

  ghost function OlderOnes(events: seq<Event>, now: int, k: string, n: nat): set<int>
    requires n <= |events|
  {
    set i | 0 <= i < n && IsOlder(events[i], now, k)
  }

  lemma OneMoreOlder(events: seq<Event>, now: int, k: string, n: nat)
    requires 0 < n <= |events|
    ensures |OlderOnes(events, now, k, n)| == |OlderOnes(events, now, k, n - 1)| + if IsOlder(events[n - 1], now, k) then 1 else 0
  {
    hide IsOlder;
    var before := OlderOnes(events, now, k, n - 1);
    assert OlderOnes(events, now, k, n) == if IsOlder(events[n - 1], now, k) then before + {n - 1} else before;
  }

  lemma OneMoreKind(events: seq<Event>, e: Event, now: int, k: string)
    ensures multiset(OlderKinds(events + [e], now))[k]
         == multiset(OlderKinds(events, now))[k] + if IsOlder(e, now, k) then 1 else 0
  {
    hide OlderKinds, RecentItems;
    OneMoreEvent(events, e, now);
  }

  lemma {:induction false} OlderKindsCount(events: seq<Event>, now: int, n: nat, k: string)
    requires n <= |events|
    ensures multiset(OlderKinds(events[..n], now))[k] == |OlderOnes(events, now, k, n)|
  {
    hide IsOlder;
    if n > 0 {
      hide OlderKinds, OlderOnes;
      OlderKindsCount(events, now, n - 1, k);
      assert events[..n] == events[..n - 1] + [events[n - 1]];
      OneMoreKind(events[..n - 1], events[n - 1], now, k);
      OneMoreOlder(events, now, k, n);
    } else {
      assert OlderKinds([], now) == [] && events[..0] == [];
    }
  }

  /** Compressing loses no event: the items stand for as many as came in, and each older kind for its own. */
  lemma TimelineConserved(events: seq<Event>, now: int)
    ensures var counts := CountAll(OlderKinds(events, now));
            && Weight(RecentItems(events, now) + CountItems(counts)) == |events|
            && OnePerKey(counts)
            && forall k :: Get(counts, k) == |OlderOnes(events, now, k, |events|)|
  {
    hide CountAll, OlderKinds, RecentItems, Weight, CountItems, Get, OnePerKey;
    forall k
      ensures multiset(OlderKinds(events, now))[k]
           == |OlderOnes(events, now, k, |events|)|
    {
      OlderKindsCount(events, now, |events|, k);
      assert events[..|events|] == events;
    }
    var kinds := OlderKinds(events, now);
    RecentAndOlder(events, now);
    CountsAreExact(kinds);
    CountItemsWeigh(CountAll(kinds));
    WeightAdds(RecentItems(events, now), CountItems(CountAll(kinds)));
  }

  /** On a newest-first timeline every full item comes before every brief one. */
  lemma {:induction false} FullBeforeBrief(events: seq<Event>, now: int)
    requires NewestFirst(events)
    ensures var r := RecentItems(events, now);
            && (forall x :: x in r ==> !x.Older? && x.event in events && x == ItemFor(x.event, now))
            && (forall i, j :: 0 <= i < j < |r| && r[i].Brief? ==> r[j].Brief?)
            && forall i, j :: 0 <= i < j < |r| ==> r[i].event.at >= r[j].event.at
  {
    if events != [] {
      var e, before := events[|events| - 1], events[..|events| - 1];
      FullBeforeBrief(before, now);
      OneMoreEvent(before, e, now);
      assert events == before + [e];
      hide RecentItems, IsRecent, NewestFirst, ItemFor;
      var r := RecentItems(before, now);
      forall i | 0 <= i < |r|
        ensures r[i].event.at >= e.at && (r[i].Brief? ==> ItemFor(e, now).Brief?)
      {
        assert r[i] in r;
        OldestLast(events, r[i].event);
        OlderStaysBrief(r[i].event, e, now);
      }
      assert ItemFor(e, now).event == e && !ItemFor(e, now).Older? by { OlderStaysBrief(e, e, now); }
    }
  }

  lemma OlderStaysBrief(newer: Event, older: Event, now: int)
    requires newer.at >= older.at
    ensures ItemFor(newer, now).Brief? ==> ItemFor(older, now).Brief?
    ensures !ItemFor(older, now).Older? && ItemFor(older, now).event == older
  {
  }

  lemma OldestLast(events: seq<Event>, e: Event)
    requires NewestFirst(events) && e in events
    ensures e.at >= events[|events| - 1].at
  {
    var k :| 0 <= k < |events| && events[k] == e;
  }
}
