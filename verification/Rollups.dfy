/**
 Grouping and rollups of a query (packages/core/src/query.ts:409-446 and 467-493).
 */
module Rollups {
  import opened Tally

  datatype Row = Row(entity: string, at: int, kind: string, source: string, value: string)

  datatype Group = Group(entity: string, matches: nat, latest: Row)

  // ---- Grouping by entity ----

  /** The rows of one entity. */
  function Of(rows: seq<Row>, entity: string): (r: seq<Row>)
    ensures forall x :: x in r <==> x in rows && x.entity == entity
  {
    if rows == [] then []
    else
      var last, before := rows[|rows| - 1], Of(rows[..|rows| - 1], entity);
      if last.entity == entity then before + [last] else before
  }

  /** The first of the latest rows. */
  ghost predicate FirstLatest(rows: seq<Row>, r: Row) {
    exists i :: 0 <= i < |rows| && IsFirstLatest(rows, i) && rows[i] == r
  }

  ghost predicate IsFirstLatest(rows: seq<Row>, i: int)
    requires 0 <= i < |rows|
  {
    && (forall j :: 0 <= j < |rows| ==> rows[j].at <= rows[i].at)
    && (forall j :: 0 <= j < i ==> rows[j].at < rows[i].at)
  }

  ghost predicate GroupOk(rows: seq<Row>, g: Group) {
    var own := Of(rows, g.entity);
    own != [] && g.matches == |own| && FirstLatest(own, g.latest)
  }

  /** One group an entity, each with its row count and its most recent row. */
  ghost predicate GroupsOk(rows: seq<Row>, groups: seq<Group>) {
    && (forall i, j :: 0 <= i < j < |groups| ==> groups[i].entity != groups[j].entity)
    && (forall i :: 0 <= i < |groups| ==> GroupOk(rows, groups[i]))
    && (forall r :: r in rows ==> exists i :: 0 <= i < |groups| && groups[i].entity == r.entity)
  }

  function Matches(groups: seq<Group>): nat {
    if groups == [] then 0 else groups[0].matches + Matches(groups[1..])
  }

  lemma {:induction false} MatchesUpdate(groups: seq<Group>, i: nat, g: Group)
    requires i < |groups|
    ensures Matches(groups[i := g]) == Matches(groups) - groups[i].matches + g.matches
  {
    if i > 0 {
      MatchesUpdate(groups[1..], i - 1, g);
      assert groups[i := g][1..] == groups[1..][i - 1 := g];
    } else {
      assert groups[i := g][1..] == groups[1..];
    }
  }

  lemma {:induction false} MatchesAppend(groups: seq<Group>, g: Group)
    ensures Matches(groups + [g]) == Matches(groups) + g.matches
  {
    if groups != [] {
      MatchesAppend(groups[1..], g);
      assert (groups + [g])[1..] == groups[1..] + [g];
    }
  }

  lemma OfAppend(rows: seq<Row>, r: Row, entity: string)
    ensures r.entity == entity ==> Of(rows + [r], entity) == Of(rows, entity) + [r]
    ensures r.entity != entity ==> Of(rows + [r], entity) == Of(rows, entity)
  {
    assert (rows + [r])[..|rows|] == rows;
  }

  lemma {:induction false} NoneOf(rows: seq<Row>, entity: string)
    requires forall x :: x in rows ==> x.entity != entity
    ensures Of(rows, entity) == []
  {
    if rows != [] { NoneOf(rows[..|rows| - 1], entity); }
  }

  /** A group after one more row of its entity: the row stands for it only if it is strictly newer. */
  function Grown(g: Group, r: Row): Group {
    g.(matches := g.matches + 1, latest := if r.at > g.latest.at then r else g.latest)
  }

  lemma AddToGroup(rows: seq<Row>, r: Row, g: Group)
    requires g.entity == r.entity && GroupOk(rows, g)
    ensures GroupOk(rows + [r], Grown(g, r))
  {
    hide Of;
    var own := Of(rows, r.entity);
    OfAppend(rows, r, r.entity);
    var i :| 0 <= i < |own| && IsFirstLatest(own, i) && own[i] == g.latest;
    var k := if r.at > g.latest.at then |own| else i;
    assert IsFirstLatest(own + [r], k);
  }

  lemma OtherGroup(rows: seq<Row>, r: Row, g: Group)
    requires g.entity != r.entity && GroupOk(rows, g)
    ensures GroupOk(rows + [r], g)
  {
    hide Of, FirstLatest;
    OfAppend(rows, r, g.entity);
  }

  lemma NewGroup(rows: seq<Row>, r: Row)
    requires forall x :: x in rows ==> x.entity != r.entity
    ensures GroupOk(rows + [r], Group(r.entity, 1, r))
  {
    hide Of;
    OfAppend(rows, r, r.entity);
    NoneOf(rows, r.entity);
    assert IsFirstLatest([r], 0);
  }

  function IndexOf(groups: seq<Group>, entity: string): (i: nat)
    ensures i <= |groups| && (i < |groups| ==> groups[i].entity == entity)
    ensures forall j :: 0 <= j < i ==> groups[j].entity != entity
  {
    if groups == [] || groups[0].entity == entity then 0 else 1 + IndexOf(groups[1..], entity)
  }

  function AddRow(groups: seq<Group>, r: Row): seq<Group> {
    var k := IndexOf(groups, r.entity);
    if k == |groups| then groups + [Group(r.entity, 1, r)] else groups[k := Grown(groups[k], r)]
  }

  lemma AddRowKeepsGroups(rows: seq<Row>, groups: seq<Group>, r: Row)
    requires GroupsOk(rows, groups)
    ensures GroupsOk(rows + [r], AddRow(groups, r)) && Matches(AddRow(groups, r)) == Matches(groups) + 1
  {
    hide GroupOk, Matches;
    var k, after := IndexOf(groups, r.entity), AddRow(groups, r);
    if k == |groups| {
      NewGroup(rows, r);
      MatchesAppend(groups, Group(r.entity, 1, r));
    } else {
      AddToGroup(rows, r, groups[k]);
      MatchesUpdate(groups, k, Grown(groups[k], r));
    }
    forall i | 0 <= i < |after|
      ensures GroupOk(rows + [r], after[i])
    {
      if i != k { OtherGroup(rows, r, groups[i]); }
    }
    forall x | x in rows + [r]
      ensures exists i :: 0 <= i < |after| && after[i].entity == x.entity
    {
      if x in rows {
        var i :| 0 <= i < |groups| && groups[i].entity == x.entity;
        assert after[i].entity == x.entity;
      } else {
        assert after[k].entity == x.entity;
      }
    }
  }

  method GroupByEntity(rows: seq<Row>) returns (groups: seq<Group>)
    ensures GroupsOk(rows, groups) && Matches(groups) == |rows| && InOrderMet(rows, groups)
  {
    hide GroupsOk, Matches, InOrderMet;
    groups := [];
    assert GroupsOk([], []) && Matches([]) == 0 && InOrderMet([], []) by { NoGroups(); }
    for n := 0 to |rows|
      invariant GroupsOk(rows[..n], groups) && Matches(groups) == n && InOrderMet(rows[..n], groups)
    {
      var r := rows[n];
      assert rows[..n + 1] == rows[..n] + [r];
      AddRowKeepsOrder(rows[..n], groups, r);
      AddRowKeepsGroups(rows[..n], groups, r);
      var k := IndexOf(groups, r.entity);
      if k == |groups| {
        groups := groups + [Group(r.entity, 1, r)];
      } else {
        var latest := groups[k].latest;
        if r.at > groups[k].latest.at { latest := r; }
        groups := groups[k := Group(groups[k].entity, groups[k].matches + 1, latest)];
      }
    }
    assert rows[..|rows|] == rows;
  }

  /** Groups stand in the order their entities were first met. */
  ghost predicate InOrderMet(rows: seq<Row>, groups: seq<Group>) {
    |groups| == |Firsts(rows)| && forall i :: 0 <= i < |groups| ==> groups[i].entity == Firsts(rows)[i].entity
  }

  lemma AddRowKeepsOrder(rows: seq<Row>, groups: seq<Group>, r: Row)
    requires InOrderMet(rows, groups)
    ensures InOrderMet(rows + [r], AddRow(groups, r))
  {
    hide Firsts;
    OneMoreRow(rows, r);
    var firsts, k := Firsts(rows), IndexOf(groups, r.entity);
    if HasEntity(firsts, r.entity) {
      var i :| 0 <= i < |firsts| && firsts[i].entity == r.entity;
      assert groups[i].entity == r.entity;
    }
    if k < |groups| { assert firsts[k] in firsts; }
  }

  lemma NoGroups()
    ensures GroupsOk([], []) && Matches([]) == 0 && InOrderMet([], [])
  {
  }

  // ---- Rollups ----

  function Kinds(rows: seq<Row>): (r: seq<string>)
    ensures |r| == |rows| && forall i :: 0 <= i < |rows| ==> r[i] == rows[i].kind
  {
    if rows == [] then [] else Kinds(rows[..|rows| - 1]) + [rows[|rows| - 1].kind]
  }

  function Sources(rows: seq<Row>): (r: seq<string>)
    ensures |r| == |rows| && forall i :: 0 <= i < |rows| ==> r[i] == rows[i].source
  {
    if rows == [] then [] else Sources(rows[..|rows| - 1]) + [rows[|rows| - 1].source]
  }

  /** The first row of each entity, in the order the entities appear. */
  function Firsts(rows: seq<Row>): seq<Row> {
    if rows == [] then []
    else
      var before, r := Firsts(rows[..|rows| - 1]), rows[|rows| - 1];
      if HasEntity(before, r.entity) then before else before + [r]
  }

  function Values(rows: seq<Row>): (r: seq<string>)
    ensures |r| == |rows| && forall i :: 0 <= i < |rows| ==> r[i] == rows[i].value
  {
    if rows == [] then [] else Values(rows[..|rows| - 1]) + [rows[|rows| - 1].value]
  }

  lemma OneMoreRow(rows: seq<Row>, r: Row)
    ensures Kinds(rows + [r]) == Kinds(rows) + [r.kind] && Sources(rows + [r]) == Sources(rows) + [r.source]
    ensures Values(rows + [r]) == Values(rows) + [r.value]
    ensures HasEntity(Firsts(rows), r.entity) ==> Firsts(rows + [r]) == Firsts(rows)
    ensures !HasEntity(Firsts(rows), r.entity) ==> Firsts(rows + [r]) == Firsts(rows) + [r]
  {
    assert (rows + [r])[..|rows|] == rows;
  }

  predicate HasEntity(rows: seq<Row>, entity: string) {
    exists x :: x in rows && x.entity == entity
  }

  method Rollup(rows: seq<Row>) returns (byType: seq<Entry>, bySource: seq<Entry>, byValue: seq<Entry>)
    ensures byType == CountAll(Kinds(rows)) && bySource == CountAll(Sources(rows)) && byValue == CountAll(Values(Firsts(rows)))
  {
    hide HasEntity, CountAll, Kinds, Sources, Values, Firsts;
    byType, bySource, byValue := [], [], [];
    NothingCounted();
    var valueByEntity: seq<Row> := [];
    for n := 0 to |rows|
      invariant byType == CountAll(Kinds(rows[..n])) && bySource == CountAll(Sources(rows[..n]))
      invariant valueByEntity == Firsts(rows[..n])
    {
      assert rows[..n + 1] == rows[..n] + [rows[n]];
      OneMoreRow(rows[..n], rows[n]);
      CountOneMore(Kinds(rows[..n]), rows[n].kind);
      CountOneMore(Sources(rows[..n]), rows[n].source);
      byType := Bump(byType, rows[n].kind);
      bySource := Bump(bySource, rows[n].source);
      if !HasEntity(valueByEntity, rows[n].entity) { valueByEntity := valueByEntity + [rows[n]]; }
    }
    assert rows[..|rows|] == rows;
    for n := 0 to |valueByEntity|
      invariant byValue == CountAll(Values(valueByEntity[..n]))
    {
      assert valueByEntity[..n + 1] == valueByEntity[..n] + [valueByEntity[n]];
      OneMoreRow(valueByEntity[..n], valueByEntity[n]);
      CountOneMore(Values(valueByEntity[..n]), valueByEntity[n].value);
      byValue := Bump(byValue, valueByEntity[n].value);
    }
    assert valueByEntity[..|valueByEntity|] == valueByEntity;
  }

  lemma NothingCounted()
    ensures CountAll([]) == [] && Kinds([]) == [] && Sources([]) == [] && Values([]) == [] && Firsts([]) == []
  {
  }

  /** Types and sources each account for every row. */
  lemma RollupsAddUp(rows: seq<Row>)
    ensures Total(CountAll(Kinds(rows))) == |rows| && Total(CountAll(Sources(rows))) == |rows|
    ensures Total(CountAll(Values(Firsts(rows)))) == |Firsts(rows)|
  {
    CountsAreExact(Kinds(rows));
    CountsAreExact(Sources(rows));
    CountsAreExact(Values(Firsts(rows)));
  }

  ghost predicate IsFirst(rows: seq<Row>, x: Row) {
    Of(rows, x.entity) != [] && Of(rows, x.entity)[0] == x
  }

  ghost predicate OneAnEntity(rows: seq<Row>) {
    forall i, j :: 0 <= i < j < |rows| ==> rows[i].entity != rows[j].entity
  }

  /** One row an entity, and the first it has. */
  lemma {:induction false} FirstsAre(rows: seq<Row>)
    ensures forall x :: x in Firsts(rows) ==> x in rows && IsFirst(rows, x)
    ensures forall x :: x in rows ==> HasEntity(Firsts(rows), x.entity)
    ensures OneAnEntity(Firsts(rows))
  {
    if rows != [] {
      hide Of, Firsts, IsFirst, OneAnEntity, HasEntity;
      var before, r := rows[..|rows| - 1], rows[|rows| - 1];
      FirstsAre(before);
      assert rows == before + [r];
      OneMoreRow(before, r);
      forall x | x in Firsts(before)
        ensures IsFirst(rows, x)
      {
        StillFirst(before, r, x);
      }
      if !HasEntity(Firsts(before), r.entity) { NewFirst(before, r); }
      assert forall x :: x in rows ==> HasEntity(Firsts(rows), x.entity) by { StillHave(before, r); }
    } else {
      assert Firsts(rows) == [];
    }
  }

  lemma StillFirst(rows: seq<Row>, r: Row, x: Row)
    requires IsFirst(rows, x)
    ensures IsFirst(rows + [r], x)
  {
    hide Of;
    OfAppend(rows, r, x.entity);
  }

  lemma NewFirst(rows: seq<Row>, r: Row)
    requires !HasEntity(Firsts(rows), r.entity) && OneAnEntity(Firsts(rows))
    requires forall x :: x in rows ==> HasEntity(Firsts(rows), x.entity)
    ensures IsFirst(rows + [r], r) && OneAnEntity(Firsts(rows) + [r])
  {
    hide Of, Firsts;
    NoneOf(rows, r.entity);
    OfAppend(rows, r, r.entity);
    var firsts := Firsts(rows);
    assert forall i :: 0 <= i < |firsts| ==> firsts[i] in firsts;
  }

  lemma StillHave(rows: seq<Row>, r: Row)
    requires forall x :: x in rows ==> HasEntity(Firsts(rows), x.entity)
    ensures forall x :: x in rows + [r] ==> HasEntity(Firsts(rows + [r]), x.entity)
  {
    hide Firsts;
    OneMoreRow(rows, r);
  }

  lemma SameEntities(rows: seq<Row>, groups: seq<Group>)
    requires GroupsOk(rows, groups)
    ensures (set i | 0 <= i < |Firsts(rows)| :: Firsts(rows)[i].entity) == set i | 0 <= i < |groups| :: groups[i].entity
  {
    hide Firsts, FirstLatest;
    FirstsAre(rows);
    var firsts := Firsts(rows);
    forall i | 0 <= i < |firsts|
      ensures exists j :: 0 <= j < |groups| && groups[j].entity == firsts[i].entity
    {
      assert firsts[i] in firsts;
    }
    forall j | 0 <= j < |groups|
      ensures exists i :: 0 <= i < |firsts| && firsts[i].entity == groups[j].entity
    {
      assert Of(rows, groups[j].entity)[0] in Of(rows, groups[j].entity);
      assert HasEntity(firsts, groups[j].entity);
    }
  }

  /** As many values are counted as there are entities. */
  lemma ValuesCountEntities(rows: seq<Row>, groups: seq<Group>)
    requires GroupsOk(rows, groups)
    ensures Total(CountAll(Values(Firsts(rows)))) == |groups|
  {
    hide Firsts, GroupOk, HasEntity, IsFirst;
    RollupsAddUp(rows);
    FirstsAre(rows);
    SameEntities(rows, groups);
    FirstEntities(Firsts(rows), |Firsts(rows)|);
    GroupEntities(groups, |groups|);
  }

  lemma {:induction false} FirstEntities(firsts: seq<Row>, n: nat)
    requires n <= |firsts| && OneAnEntity(firsts)
    ensures |set i | 0 <= i < n :: firsts[i].entity| == n
  {
    if n > 0 {
      FirstEntities(firsts, n - 1);
      var before := set i | 0 <= i < n - 1 :: firsts[i].entity;
      assert (set i | 0 <= i < n :: firsts[i].entity) == before + {firsts[n - 1].entity};
      assert firsts[n - 1].entity !in before;
    }
  }

  lemma {:induction false} GroupEntities(groups: seq<Group>, n: nat)
    requires n <= |groups| && forall i, j :: 0 <= i < j < |groups| ==> groups[i].entity != groups[j].entity
    ensures |set i | 0 <= i < n :: groups[i].entity| == n
  {
    if n > 0 {
      GroupEntities(groups, n - 1);
      var before := set i | 0 <= i < n - 1 :: groups[i].entity;
      assert (set i | 0 <= i < n :: groups[i].entity) == before + {groups[n - 1].entity};
      assert groups[n - 1].entity !in before;
    }
  }

  /** The row whose value is counted is the representative exactly when no row of the entity is later. */
  lemma CountedIsLatest(rows: seq<Row>, g: Group)
    requires GroupOk(rows, g)
    ensures Of(rows, g.entity)[0] == g.latest <==> forall r :: r in Of(rows, g.entity) ==> r.at <= Of(rows, g.entity)[0].at
  {
    var own := Of(rows, g.entity);
    var i :| 0 <= i < |own| && IsFirstLatest(own, i) && own[i] == g.latest;
    assert own[0] in own && own[i] in own;
  }

  /** Newest-first rows always are: each entity is counted under its representative's value. */
  lemma {:induction false} NewestFirstCountsLatest(rows: seq<Row>, g: Group)
    requires forall i, j :: 0 <= i < j < |rows| ==> rows[i].at >= rows[j].at
    requires GroupOk(rows, g)
    ensures Of(rows, g.entity)[0] == g.latest
  {
    FirstIsNewest(rows, g.entity);
    CountedIsLatest(rows, g);
  }

  lemma {:induction false} FirstIsNewest(rows: seq<Row>, entity: string)
    requires forall i, j :: 0 <= i < j < |rows| ==> rows[i].at >= rows[j].at
    ensures Of(rows, entity) != [] ==> forall r :: r in Of(rows, entity) ==> r.at <= Of(rows, entity)[0].at
  {
    if rows != [] {
      var before := rows[..|rows| - 1];
      FirstIsNewest(before, entity);
      assert forall r :: r in Of(before, entity) ==> r in before;
    }
  }

  /** Rows ranked by relevance need not be: an older stage can be the one that is counted. */
  lemma RankedRowsCountStale()
    ensures var demo, won := Row("acme", 1, "stage", "crm", "demo"), Row("acme", 2, "stage", "crm", "closed_won");
            GroupOk([demo, won], Group("acme", 2, won)) && Firsts([demo, won]) == [demo]
  {
    hide Of, GroupOk, Firsts;
    var demo, won := Row("acme", 1, "stage", "crm", "demo"), Row("acme", 2, "stage", "crm", "closed_won");
    NewGroup([], demo);
    assert [] + [demo] == [demo];
    AddToGroup([demo], won, Group("acme", 1, demo));
    assert [demo] + [won] == [demo, won];
    NoFirsts();
    OneMoreRow([], demo);
    OneMoreRow([demo], won);
  }

  lemma NoFirsts()
    ensures Firsts([]) == []
  {
  }
}
