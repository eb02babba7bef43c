/**
 Compressing an account's history (packages/core/src/evidence.ts:246-323): counts of everything, the
 span it covers, and the interactions that prove most.
 */
module Evidence {
  import opened Options
  import opened Sorting
  import opened Tally
  import opened IsoText

  /** An interaction, read, with what it proves already scored. */
  datatype Observation = Observation(what: string, source: string, observed: Option<string>, occurred: Option<string>,
                                     body: string, sourceRef: Option<string>, score: int)

  datatype Item = Item(what: string, source: string, when: Option<string>, detail: Option<string>, sourceRef: Option<string>)

  datatype Note = Note(shown: nat, total: nat)

  datatype Summary = Summary(total: nat, byType: seq<Entry>, firstSeen: Option<string>, lastSeen: Option<string>,
                             note: Option<Note>)

  function When(o: Observation): Option<string> {
    if o.observed.Some? then o.observed else o.occurred
  }

  function Key(o: Observation): string {
    if o.what == "" then "other" else o.what
  }

  function ItemOf(o: Observation): Item {
    Item(o.what, o.source, When(o), if o.body == "" then None else Some(o.body), o.sourceRef)
  }

  /** `later` is how the texts of two times collate. */
  function Outranks(later: (string, string) -> bool): (Observation, Observation) -> bool {
    (a: Observation, b: Observation) =>
      a.score > b.score || (a.score == b.score && later(Text(a.observed), Text(b.observed)))
  }

  function Text(t: Option<string>): string {
    if t.Some? then t.value else ""
  }

  function Keys(obs: seq<Observation>): (r: seq<string>)
    ensures |r| == |obs| && forall i :: 0 <= i < |obs| ==> r[i] == Key(obs[i])
  {
    if obs == [] then [] else Keys(obs[..|obs| - 1]) + [Key(obs[|obs| - 1])]
  }

  /** The time `t` was seen, on some observation that has a time. */
  ghost predicate Seen(obs: seq<Observation>, t: string) {
    t != "" && exists o :: o in obs && (o.observed == Some(t) || (o.observed.None? && o.occurred == Some(t)))
  }

  ghost predicate IsEarliest(obs: seq<Observation>, t: Option<string>) {
    match t
    case None => forall u :: !Seen(obs, u)
    case Some(first) => Seen(obs, first) && forall u :: Seen(obs, u) ==> !TextBefore(u, first)
  }

  ghost predicate IsLatest(obs: seq<Observation>, t: Option<string>) {
    match t
    case None => forall u :: !Seen(obs, u)
    case Some(last) => Seen(obs, last) && forall u :: Seen(obs, u) ==> !TextBefore(last, u)
  }

  function Items(obs: seq<Observation>): (r: seq<Item>)
    ensures |r| == |obs| && forall i :: 0 <= i < |obs| ==> r[i] == ItemOf(obs[i])
  {
    if obs == [] then [] else [ItemOf(obs[0])] + Items(obs[1..])
  }

  function KeyActivity(obs: seq<Observation>, budget: nat, later: (string, string) -> bool): seq<Item> {
    var ranked := Sort(Outranks(later), obs);
    Items(if budget < |ranked| then ranked[..budget] else ranked)
  }

  method CompressAccount(obs: seq<Observation>, budget: nat, later: (string, string) -> bool)
    returns (activity: seq<Item>, summary: Summary)
    ensures activity == KeyActivity(obs, budget, later)
    ensures summary.total == |obs| && summary.byType == CountAll(Keys(obs))
    ensures IsEarliest(obs, summary.firstSeen) && IsLatest(obs, summary.lastSeen)
    ensures summary.note == if |obs| > budget then Some(Note(budget, |obs|)) else None
  {
    hide IsEarliest, IsLatest, CountAll, Key;
    var byType: seq<Entry> := [];
    var earliest: Option<string>, latest: Option<string> := None, None;
    assert CountAll([]) == [] && IsEarliest([], None) && IsLatest([], None) by { NothingSeen(); }
    for i := 0 to |obs|
      invariant byType == CountAll(Keys(obs[..i]))
      invariant IsEarliest(obs[..i], earliest) && IsLatest(obs[..i], latest)
    {
      var o, before := obs[i], obs[..i];
      assert obs[..i + 1] == before + [o] && (before + [o])[..i] == before;
      CountOneMore(Keys(before), Key(o));
      byType := Bump(byType, Key(o));
      NextSpan(before, o, earliest, latest);
      var t := When(o);
      if t.Some? && t.value != "" {
        if earliest.None? || TextBefore(t.value, earliest.value) { earliest := t; }
        if latest.None? || TextBefore(latest.value, t.value) { latest := t; }
      }
    }
    assert obs[..|obs|] == obs;
    var ranked := Sort(Outranks(later), obs);
    var kept := if budget < |ranked| then ranked[..budget] else ranked;
    activity := Items(kept);
    summary := Summary(|obs|, byType, earliest, latest, if |obs| > |activity| then Some(Note(|activity|, |obs|)) else None);
  }

  lemma NothingSeen()
    ensures CountAll([]) == [] && IsEarliest([], None) && IsLatest([], None)
  {
  }

  lemma {:induction false} TextBeforeChain(s: string, t: string, u: string)
    requires TextBefore(s, t) && TextBefore(t, u)
    ensures TextBefore(s, u)
  {
    if s != [] && s[0] == t[0] == u[0] { TextBeforeChain(s[1..], t[1..], u[1..]); }
  }

  lemma {:induction false} TextNotBeforeSelf(s: string)
    ensures !TextBefore(s, s)
  {
    if s != [] { TextNotBeforeSelf(s[1..]); }
  }

  function Earlier(t: Option<string>, seen: Option<string>): Option<string> {
    if t.Some? && t.value != "" && (seen.None? || TextBefore(t.value, seen.value)) then t else seen
  }

  function Later(t: Option<string>, seen: Option<string>): Option<string> {
    if t.Some? && t.value != "" && (seen.None? || TextBefore(seen.value, t.value)) then t else seen
  }

  lemma NextSpan(obs: seq<Observation>, o: Observation, earliest: Option<string>, latest: Option<string>)
    requires IsEarliest(obs, earliest) && IsLatest(obs, latest)
    ensures IsEarliest(obs + [o], Earlier(When(o), earliest)) && IsLatest(obs + [o], Later(When(o), latest))
  {
    hide TextBefore, When, Seen;
    SeenOneMore(obs, o);
    forall u, t | TextBefore(u, t) && earliest.Some? && TextBefore(t, earliest.value)
      ensures TextBefore(u, earliest.value)
    {
      TextBeforeChain(u, t, earliest.value);
    }
    forall u, t | TextBefore(t, u) && latest.Some? && TextBefore(latest.value, t)
      ensures TextBefore(latest.value, u)
    {
      TextBeforeChain(latest.value, t, u);
    }
    if When(o).Some? { TextNotBeforeSelf(When(o).value); }
  }

  lemma SeenOneMore(obs: seq<Observation>, o: Observation)
    ensures forall t :: Seen(obs + [o], t) <==> Seen(obs, t) || (t != "" && When(o) == Some(t))
  {
    forall t | Seen(obs, t) ensures Seen(obs + [o], t) {
      var x :| x in obs && When(x) == Some(t);
      assert x in obs + [o];
    }
    assert o in obs + [o];
  }

  lemma OutranksOrders(later: (string, string) -> bool)
    requires StrictWeak(later)
    ensures StrictWeak(Outranks(later))
  {
    var lt := Outranks(later);
    forall x, y | lt(x, y)
      ensures !lt(y, x)
    {
      var a, b := Text(x.observed), Text(y.observed);
      if later(a, b) { assert !later(b, a); }
    }
    forall x, y, z | !lt(x, y) && !lt(y, z)
      ensures !lt(x, z)
    {
      var a, b, c := Text(x.observed), Text(y.observed), Text(z.observed);
      assert !later(a, b) && !later(b, c) ==> !later(a, c);
    }
  }

  /** Observation `j` is more telling than `i`: a higher score, then a later time, then the first met. */
  ghost predicate StandsBefore(obs: seq<Observation>, later: (string, string) -> bool, j: int, i: int)
    requires 0 <= j < |obs| && 0 <= i < |obs|
  {
    var t := if obs[j].observed.Some? then obs[j].observed.value else "";
    var u := if obs[i].observed.Some? then obs[i].observed.value else "";
    || obs[j].score > obs[i].score
    || (obs[j].score == obs[i].score && (later(t, u) || (!later(u, t) && j < i)))
  }

  /** How many observations stand before `i`. */
  ghost function PlaceOf(obs: seq<Observation>, later: (string, string) -> bool, i: int): nat
    requires 0 <= i < |obs|
  {
    |set j | 0 <= j < |obs| && StandsBefore(obs, later, j, i)|
  }

  lemma PrecedesIsStandsBefore(obs: seq<Observation>, later: (string, string) -> bool, j: int, i: int)
    requires StrictWeak(later) && 0 <= j < |obs| && 0 <= i < |obs|
    ensures Precedes(Outranks(later), obs, j, i) <==> StandsBefore(obs, later, j, i)
  {
    var t, u := Text(obs[j].observed), Text(obs[i].observed);
    if later(t, u) { assert !later(u, t); }
  }

  lemma PlaceIsPlaceOf(obs: seq<Observation>, later: (string, string) -> bool, i: int)
    requires StrictWeak(later) && 0 <= i < |obs|
    ensures Place(Outranks(later), obs, i) == PlaceOf(obs, later, i)
  {
    hide Precedes, StandsBefore, Outranks;
    AheadCounts(Outranks(later), obs, |obs|, i);
    forall j | 0 <= j < |obs|
      ensures Precedes(Outranks(later), obs, j, i) <==> StandsBefore(obs, later, j, i)
    {
      PrecedesIsStandsBefore(obs, later, j, i);
    }
    assert (set j | 0 <= j < |obs| && Precedes(Outranks(later), obs, j, i)) == set j | 0 <= j < |obs| && StandsBefore(obs, later, j, i);
  }

  /** What is shown of an observation, its reference intact. */
  ghost predicate Shows(item: Item, o: Observation) {
    && item.what == o.what && item.source == o.source && item.sourceRef == o.sourceRef
    && item.when == (if o.observed.Some? then o.observed else o.occurred)
    && (item.detail.None? <==> o.body == "") && (item.detail.Some? ==> item.detail.value == o.body)
  }

  /** An observation is shown exactly when fewer than `budget` stand before it, and at that place. */
  lemma KeyActivityIsTop(obs: seq<Observation>, budget: nat, later: (string, string) -> bool, i: int)
    requires StrictWeak(later) && 0 <= i < |obs|
    ensures var shown, place := KeyActivity(obs, budget, later), PlaceOf(obs, later, i);
            && |shown| == (if budget < |obs| then budget else |obs|)
            && (place < |shown| <==> place < budget)
            && (place < |shown| ==> Shows(shown[place], obs[i]))
  {
    hide PlaceOf, Place, Outranks, StrictWeak, Sort;
    OutranksOrders(later);
    SortPlaces(Outranks(later), obs, i);
    PlaceIsPlaceOf(obs, later, i);
  }

  /** Nothing left out stands before what is shown, and no two observations share a place. */
  lemma NothingBetterOmitted(obs: seq<Observation>, later: (string, string) -> bool, i: int, j: int)
    requires StrictWeak(later) && 0 <= i < |obs| && 0 <= j < |obs| && i != j
    ensures PlaceOf(obs, later, i) < PlaceOf(obs, later, j) <==> StandsBefore(obs, later, i, j)
  {
    OutranksOrders(later);
    hide Place, PlaceOf, StandsBefore, Precedes, Outranks;
    PlaceIsPlaceOf(obs, later, i);
    PlaceIsPlaceOf(obs, later, j);
    PlacesOrder(Outranks(later), obs, i, j);
    PrecedesIsStandsBefore(obs, later, i, j);
  }

  /** An observation with nothing to call it counts under "other". */
  ghost predicate FiledUnder(o: Observation, key: string) {
    if o.what == "" then key == "other" else key == o.what
  }

  /** The counts by type are those of the whole history, shown or not, and add up to it. */
  lemma EverythingIsCounted(obs: seq<Observation>, key: string)
    ensures Total(CountAll(Keys(obs))) == |obs| && OnePerKey(CountAll(Keys(obs)))
    ensures Get(CountAll(Keys(obs)), key) == |set i | 0 <= i < |obs| && FiledUnder(obs[i], key)|
  {
    hide CountAll, Total, OnePerKey, Get, Keys;
    var keys := Keys(obs);
    CountsAreExact(keys);
    Occurrences(keys, |obs|, key);
    assert keys[..|obs|] == keys;
    assert (set i | 0 <= i < |keys| && keys[i] == key) == set i | 0 <= i < |obs| && FiledUnder(obs[i], key);
  }
}
