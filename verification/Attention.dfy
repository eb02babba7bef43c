/**
 Attention items (packages/core/src/attention.ts): which scheduled meetings are still on, dropping
 records that are not deals, and splitting the item budget.
 */
module Attention {

  // ---- Meetings still on ----

  /** An entity and a start minute. */
  datatype Slot = Slot(entity: string, minute: int)

  /** `takenOff`: a cancellation, or a label that says declined or cancelled. */
  datatype Row = Row(id: string, slot: Slot, scheduled: bool, takenOff: bool)

  ghost predicate SlotOff(rows: seq<Row>, slot: Slot) {
    exists r :: r in rows && r.slot == slot && r.takenOff
  }

  /** Row `i` is a meeting still on: scheduled, its slot never taken off, and the first to claim it. */
  ghost predicate StillOn(rows: seq<Row>, i: int)
    requires 0 <= i < |rows|
  {
    && rows[i].scheduled && !SlotOff(rows, rows[i].slot)
    && forall j :: 0 <= j < i ==> !(rows[j].scheduled && rows[j].slot == rows[i].slot)
  }

  /** The rows still on among the first `n`, in order. */
  ghost function Kept(rows: seq<Row>, n: nat): seq<Row>
    requires n <= |rows|
  {
    if n == 0 then [] else Kept(rows, n - 1) + if StillOn(rows, n - 1) then [rows[n - 1]] else []
  }

  method MeetingsStillOn(rows: seq<Row>) returns (out: seq<Row>)
    ensures out == Kept(rows, |rows|)
  {
    var off: set<Slot> := {};
    for i := 0 to |rows|
      invariant forall s :: s in off <==> SlotOff(rows[..i], s)
    {
      assert rows[..i + 1] == rows[..i] + [rows[i]];
      if rows[i].takenOff { off := off + {rows[i].slot}; }
    }
    assert rows[..|rows|] == rows;
    var seen: set<Slot> := {};
    out := [];
    for i := 0 to |rows|
      invariant out == Kept(rows, i)
      invariant forall j :: 0 <= j < i && rows[j].scheduled && rows[j].slot !in off ==> rows[j].slot in seen
      invariant forall s :: s in seen ==> exists j :: 0 <= j < i && rows[j].scheduled && rows[j].slot == s
    {
      if rows[i].scheduled {
        var slot := rows[i].slot;
        if slot !in off && slot !in seen {
          seen := seen + {slot};
          out := out + [rows[i]];
        }
      }
    }
  }

  lemma {:induction false} KeptAre(rows: seq<Row>, n: nat)
    requires n <= |rows|
    ensures forall r :: r in Kept(rows, n) ==> exists i :: 0 <= i < n && StillOn(rows, i) && rows[i] == r
    ensures forall i :: 0 <= i < n && StillOn(rows, i) ==> rows[i] in Kept(rows, n)
    ensures forall j, k :: 0 <= j < k < |Kept(rows, n)| ==> Kept(rows, n)[j].slot != Kept(rows, n)[k].slot
  {
    if n > 0 {
      KeptAre(rows, n - 1);
      var before := Kept(rows, n - 1);
      if StillOn(rows, n - 1) {
        forall j | 0 <= j < |before|
          ensures before[j].slot != rows[n - 1].slot
        {
          assert before[j] in before;
        }
      }
    }
  }

  /** Rows still on come out in the order they came in: each right after those of the rows before it. */
  lemma {:induction false} KeptInOrder(rows: seq<Row>, i: nat, n: nat)
    requires i < n <= |rows|
    ensures (if StillOn(rows, i) then Kept(rows, i) + [rows[i]] else Kept(rows, i)) <= Kept(rows, n)
  {
    hide StillOn;
    KeptGrows(rows, i + 1, n);
  }

  lemma {:induction false} KeptGrows(rows: seq<Row>, i: nat, n: nat)
    requires i <= n <= |rows|
    ensures Kept(rows, i) <= Kept(rows, n)
    decreases n
  {
    hide StillOn;
    if i < n { KeptGrows(rows, i, n - 1); }
  }

  ghost predicate HasMeeting(rows: seq<Row>, slot: Slot) {
    !SlotOff(rows, slot) && exists i :: 0 <= i < |rows| && rows[i].scheduled && rows[i].slot == slot
  }

  lemma FirstOfSlot(rows: seq<Row>, slot: Slot, i: nat) returns (k: nat)
    requires i < |rows| && rows[i].scheduled && rows[i].slot == slot && !SlotOff(rows, slot)
    ensures k <= i && StillOn(rows, k) && rows[k].slot == slot
    decreases i
  {
    if j: nat :| j < i && rows[j].scheduled && rows[j].slot == slot {
      k := FirstOfSlot(rows, slot, j);
    } else {
      k := i;
    }
  }

  /** Every slot with a meeting that was never taken off has exactly one row, and no other slot has any. */
  lemma OneRowPerSlot(rows: seq<Row>, slot: Slot)
    ensures var out := Kept(rows, |rows|);
            (exists r :: r in out && r.slot == slot) <==> HasMeeting(rows, slot)
    ensures var out := Kept(rows, |rows|);
            forall r, r' :: r in out && r' in out && r.slot == slot && r'.slot == slot ==> r == r'
  {
    KeptAre(rows, |rows|);
    if HasMeeting(rows, slot) {
      var i :| 0 <= i < |rows| && rows[i].scheduled && rows[i].slot == slot;
      var k := FirstOfSlot(rows, slot, i);
      assert rows[k] in Kept(rows, |rows|);
    }
  }

  /** Filtering a second time changes nothing. */
  lemma StillOnIdempotent(rows: seq<Row>)
    ensures var out := Kept(rows, |rows|); Kept(out, |out|) == out
  {
    var out := Kept(rows, |rows|);
    KeptAre(rows, |rows|);
    forall r | r in out
      ensures r.scheduled && !r.takenOff
    {
      var i :| 0 <= i < |rows| && StillOn(rows, i) && rows[i] == r;
      assert rows[i] in rows;
    }
    forall i | 0 <= i < |out|
      ensures StillOn(out, i)
    {
      assert out[i] in out;
      forall r | r in out && r.slot == out[i].slot ensures !r.takenOff {}
    }
    KeepsAll(out, |out|);
    assert out[..|out|] == out;
  }

  lemma {:induction false} KeepsAll(rows: seq<Row>, n: nat)
    requires n <= |rows| && forall i :: 0 <= i < |rows| ==> StillOn(rows, i)
    ensures Kept(rows, n) == rows[..n]
  {
    if n > 0 { KeepsAll(rows, n - 1); }
  }

  // ---- Dropping records in place ----

  datatype Item = Item(entity: string, title: string)

  function Without(items: seq<Item>, drop: set<string>): seq<Item> {
    if items == [] then []
    else (if items[0].entity in drop then [] else [items[0]]) + Without(items[1..], drop)
  }

  /** One of the lists of attention items, spliced in place. */
  class ItemList {
    var items: seq<Item>

    constructor (items: seq<Item>)
      ensures this.items == items
    {
      this.items := items;
    }

    /** Walks back from the end so that removing one item leaves the indices still to come alone. */
    method DropAll(drop: set<string>)
      modifies this
      ensures items == Without(old(items), drop)
    {
      var i := |items|;
      while i > 0
        invariant 0 <= i <= |old(items)| && i <= |items|
        invariant items == old(items)[..i] + Without(old(items)[i..], drop)
      {
        i := i - 1;
        assert old(items)[i..][1..] == old(items)[i + 1..];
        if items[i].entity in drop { items := items[..i] + items[i + 1..]; }
      }
      assert old(items)[0..] == old(items);
    }
  }

  lemma WithoutHead(x: Item, items: seq<Item>, drop: set<string>)
    ensures Without([x] + items, drop) == if x.entity in drop then Without(items, drop) else [x] + Without(items, drop)
  {
    assert ([x] + items)[1..] == items;
  }

  /** What is left of two lists put together is what is left of each, so the order is kept. */
  lemma {:induction false} WithoutJoins(a: seq<Item>, b: seq<Item>, drop: set<string>)
    ensures Without(a + b, drop) == Without(a, drop) + Without(b, drop)
  {
    hide Without;
    if a == [] {
      assert [] + b == b;
      NothingLeft(drop);
    } else {
      var x, rest := a[0], a[1..];
      assert a == [x] + rest && a + b == [x] + (rest + b);
      WithoutJoins(rest, b, drop);
      WithoutHead(x, rest + b, drop);
      WithoutHead(x, rest, drop);
    }
  }

  lemma NothingLeft(drop: set<string>)
    ensures Without([], drop) == []
  {
  }

  lemma WithoutOne(x: Item, drop: set<string>)
    ensures Without([x], drop) == if x.entity in drop then [] else [x]
  {
  }

  /** Dropped records are all gone and every other item is left as often as it was. */
  lemma {:induction false} WithoutKeeps(items: seq<Item>, drop: set<string>, x: Item)
    ensures multiset(Without(items, drop))[x] == if x.entity in drop then 0 else multiset(items)[x]
  {
    if items != [] {
      WithoutKeeps(items[1..], drop, x);
      assert items == [items[0]] + items[1..];
    }
  }

  // ---- The budget ----

  function Take<T>(s: seq<T>, n: int): (r: seq<T>)
    requires n >= 0
    ensures |r| == if n < |s| then n else |s|
  {
    if n < |s| then s[..n] else s
  }

  function Leads(flags: seq<Item>, upcoming: seq<Item>, hot: seq<Item>, commitments: seq<Item>): seq<Item> {
    Take(flags, 15) + upcoming + Take(hot, 12) + commitments
  }

  function Budgeted(leads: seq<Item>, goingDark: seq<Item>, decayed: seq<Item>, limit: nat): seq<Item> {
    var shown := Take(leads, limit);
    var rest := limit - |shown|;
    var half := (rest + 1) / 2;
    var dark := Take(goingDark, half);
    Take(shown + dark + Take(decayed, rest - |dark|), limit)
  }

  /** The items shown: flags, upcoming calls, hot accounts and commitments lead. */
  function Shown(flags: seq<Item>, upcoming: seq<Item>, hot: seq<Item>, commitments: seq<Item>,
                 goingDark: seq<Item>, decayed: seq<Item>, limit: nat): seq<Item> {
    Budgeted(Leads(flags, upcoming, hot, commitments), goingDark, decayed, limit)
  }

  /** The lead lists come first, warm accounts never crowd the rest out, and nothing is shown past the limit. */
  lemma BudgetHolds(flags: seq<Item>, upcoming: seq<Item>, hot: seq<Item>, commitments: seq<Item>,
                    goingDark: seq<Item>, decayed: seq<Item>, limit: nat)
    ensures var items := Shown(flags, upcoming, hot, commitments, goingDark, decayed, limit);
            |items| <= limit && Take(Leads(flags, upcoming, hot, commitments), limit) <= items
    ensures var items := Shown(flags, upcoming, hot, commitments, goingDark, decayed, limit);
            limit >= 27 + |upcoming| + |commitments| ==> forall x :: x in upcoming || x in commitments ==> x in items
  {
    var leads := Leads(flags, upcoming, hot, commitments);
    var items := Shown(flags, upcoming, hot, commitments, goingDark, decayed, limit);
    if limit >= 27 + |upcoming| + |commitments| {
      assert Take(leads, limit) == leads;
      assert forall x :: x in leads ==> x in items by { assert items[..|leads|] == leads; }
    }
  }

  /** With room for everything, everything is shown, in this order. */
  lemma AllShown(flags: seq<Item>, upcoming: seq<Item>, hot: seq<Item>, commitments: seq<Item>,
                 goingDark: seq<Item>, decayed: seq<Item>, limit: nat)
    requires |flags| <= 15 && |hot| <= 12
    requires |flags| + |upcoming| + |hot| + |commitments| + 2 * |goingDark| <= limit + 1
    requires |flags| + |upcoming| + |hot| + |commitments| + |goingDark| + |decayed| <= limit
    ensures Shown(flags, upcoming, hot, commitments, goingDark, decayed, limit)
         == flags + upcoming + hot + commitments + goingDark + decayed
  {
    assert Leads(flags, upcoming, hot, commitments) == flags + upcoming + hot + commitments;
  }

  /** Flags past the fifteenth and warm accounts past the twelfth make no difference. */
  lemma LeadsAreCapped(flags: seq<Item>, upcoming: seq<Item>, hot: seq<Item>, commitments: seq<Item>)
    requires |flags| >= 15 && |hot| >= 12
    ensures Leads(flags, upcoming, hot, commitments) == Leads(flags[..15], upcoming, hot[..12], commitments)
    ensures |Leads(flags, upcoming, hot, commitments)| == 27 + |upcoming| + |commitments|
  {
  }

  /**
   Half of what the leads leave goes to each list. Decayed facts may use what going-dark leaves, not
   the other way round, so room is wasted exactly when decayed facts run short while going-dark overflows.
   */
  lemma BudgetFills(flags: seq<Item>, upcoming: seq<Item>, hot: seq<Item>, commitments: seq<Item>,
                    goingDark: seq<Item>, decayed: seq<Item>, limit: nat)
    ensures var leads := Leads(flags, upcoming, hot, commitments);
            var all := |leads| + |goingDark| + |decayed|; var rest := limit - |Take(leads, limit)|;
            |Shown(flags, upcoming, hot, commitments, goingDark, decayed, limit)| == (if all < limit then all else limit)
            <==> !(|goingDark| > (rest + 1) / 2 && |decayed| < rest / 2)
  {
    var rest := limit - |Take(Leads(flags, upcoming, hot, commitments), limit)|;
    assert rest == (rest + 1) / 2 + rest / 2;
  }
}
