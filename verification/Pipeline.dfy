/**
 Account stages (packages/core/src/pipeline.ts): the fold that reads an account's stage off its
 people, and the plan of moves that makes the fold read a chosen stage.
 */
module Pipeline {
  import opened Options

  datatype Stage =
    | Identified | Connected | Interested | MeetingBooked | Discovery | Demo | Negotiation | ClosedWon
    | ClosedLost | Disqualified | Churned

  /** A person with the stage `normalizeStage` found, if any. */
  datatype Person = Person(id: string, stage: Option<Stage>)

  datatype Move = Move(id: string, from: Option<Stage>, to: Stage)

  function Rank(s: Stage): nat {
    match s
    case Identified => 0
    case Connected => 1
    case Interested => 2
    case MeetingBooked => 3
    case Discovery => 4
    case Demo => 5
    case Negotiation => 6
    case ClosedWon => 7
    case ClosedLost => 8
    case Disqualified => 8
    case Churned => 9
  }

  predicate IsExit(s: Stage) {
    s.ClosedLost? || s.Disqualified? || s.Churned?
  }

  /** `PIPELINE_LADDER` and `TERMINAL_STAGES`, lowest first. */
  const Ladder: seq<Stage> := [Identified, Connected, Interested, MeetingBooked, Discovery, Demo, Negotiation, ClosedWon]
  const Exits: seq<Stage> := [ClosedLost, Disqualified, Churned]

  /**
   A stage ranks where it stands on the ladder. The exits are what the ladder leaves, and all stand
   above it: the first two on one rank, so that neither outranks the other, and churned on top.
   */
  lemma RankIsLadder(s: Stage)
    ensures if IsExit(s) then s in Exits && s !in Ladder else s in Ladder && s !in Exits
    ensures forall i :: 0 <= i < |Ladder| && Ladder[i] == s ==> Rank(s) == i
    ensures IsExit(s) ==> Rank(s) == if s == Churned then |Ladder| + 1 else |Ladder|
  {
    if !IsExit(s) {
      assert Ladder[Rank(s)] == s;
    }
  }

  /** Someone with no stage yet is a live lead. */
  predicate IsLive(s: Option<Stage>) {
    s.None? || !IsExit(s.value)
  }

  function Stages(people: seq<Person>): (s: seq<Option<Stage>>)
    ensures |s| == |people| && forall i :: 0 <= i < |s| ==> s[i] == people[i].stage
  {
    if people == [] then [] else [people[0].stage] + Stages(people[1..])
  }

  // ---- Reading the account ----

  function LiveOnes(stages: seq<Option<Stage>>): (live: seq<Option<Stage>>)
    ensures forall s :: s in live <==> s in stages && IsLive(s)
  {
    if stages == [] then []
    else (if IsLive(stages[0]) then [stages[0]] else []) + LiveOnes(stages[1..])
  }

  function Further(best: Option<Stage>, s: Option<Stage>): Option<Stage> {
    if s.None? then best
    else if best.None? || Rank(s.value) > Rank(best.value) then s
    else best
  }

  function Furthest(best: Option<Stage>, stages: seq<Option<Stage>>): Option<Stage>
    decreases |stages|
  {
    if stages == [] then best else Furthest(Further(best, stages[0]), stages[1..])
  }

  function AccountStage(stages: seq<Option<Stage>>): Option<Stage> {
    var live := LiveOnes(stages);
    Furthest(None, if live != [] then live else stages)
  }

  /** `t` stands at `i`, nothing outranks it, and everything before `i` ranks strictly below. */
  ghost predicate FirstFurthest(stages: seq<Option<Stage>>, t: Stage, i: int) {
    && 0 <= i < |stages| && stages[i] == Some(t)
    && (forall j :: 0 <= j < |stages| && stages[j].Some? ==> Rank(stages[j].value) <= Rank(t))
    && (forall j :: 0 <= j < i && stages[j].Some? ==> Rank(stages[j].value) < Rank(t))
  }

  lemma {:induction false} FurthestIs(best: Option<Stage>, stages: seq<Option<Stage>>)
    ensures var r := Furthest(best, stages);
            && (r.None? <==> best.None? && forall j :: 0 <= j < |stages| ==> stages[j].None?)
            && (r.Some? && r == best ==> forall j :: 0 <= j < |stages| && stages[j].Some? ==> Rank(stages[j].value) <= Rank(r.value))
            && (r.Some? && r != best ==>
                (best.Some? ==> Rank(best.value) < Rank(r.value)) && exists i :: FirstFurthest(stages, r.value, i))
    decreases |stages|
  {
    if stages != [] {
      var head, tail := stages[0], stages[1..];
      var next, r := Further(best, head), Furthest(best, stages);
      FurthestIs(next, tail);
      assert forall j :: 0 < j < |stages| ==> stages[j] == tail[j - 1];
      if r.Some? && r != best {
        if r == next {
          assert FirstFurthest(stages, r.value, 0);
        } else {
          var i :| FirstFurthest(tail, r.value, i);
          assert FirstFurthest(stages, r.value, i + 1);
        }
      }
    }
  }

  /** Reading a whole list: its first furthest stage, or nothing when nobody has one. */
  lemma FurthestOf(stages: seq<Option<Stage>>, t: Stage)
    ensures Furthest(None, stages) == Some(t) <==> exists i :: FirstFurthest(stages, t, i)
  {
    FurthestIs(None, stages);
    if i :| FirstFurthest(stages, t, i) {
      var r := Furthest(None, stages);
      assert stages[i].Some?;
      var k :| FirstFurthest(stages, r.value, k);
      assert stages[k].Some?;
    }
  }

  lemma WhoIsLive(stages: seq<Option<Stage>>)
    ensures LiveOnes(stages) == [] <==> forall s :: s in stages ==> !IsLive(s)
    ensures forall i :: 0 <= i < |LiveOnes(stages)| ==> LiveOnes(stages)[i] in stages && IsLive(LiveOnes(stages)[i])
  {
    var live := LiveOnes(stages);
    assert forall i :: 0 <= i < |live| ==> live[i] in live;
    if live == [] {
      forall s | s in stages ensures !IsLive(s) { assert s !in live; }
    } else {
      assert live[0] in stages;
    }
  }

  /** Only an account nobody is live at reads an exit: the first of the furthest. */
  lemma ClosedReading(stages: seq<Option<Stage>>, t: Stage)
    requires IsExit(t)
    ensures AccountStage(stages) == Some(t)
       <==> (forall s :: s in stages ==> !IsLive(s)) && exists i :: FirstFurthest(stages, t, i)
  {
    hide Furthest, Rank, LiveOnes;
    WhoIsLive(stages);
    FurthestOf(LiveOnes(stages), t);
    FurthestOf(stages, t);
  }

  /** No stage is read exactly when nobody is there, or someone without a stage is and all others have left. */
  lemma NothingToRead(stages: seq<Option<Stage>>)
    ensures AccountStage(stages) == None
       <==> (forall s :: s in stages && s.Some? ==> IsExit(s.value)) && (stages == [] || None in stages)
  {
    hide Furthest, Rank, LiveOnes;
    var live := LiveOnes(stages);
    WhoIsLive(stages);
    FurthestIs(None, live);
    FurthestIs(None, stages);
    forall s | s in stages && IsLive(s)
      ensures exists i :: 0 <= i < |live| && live[i] == s
    {
      assert s in live;
    }
    assert stages == [] || stages[0] in stages;
  }

  /** An open account reads `t` exactly when someone is at `t` and no live person is further along. */
  lemma OpenReading(stages: seq<Option<Stage>>, t: Stage)
    requires !IsExit(t)
    ensures AccountStage(stages) == Some(t)
       <==> Some(t) in stages && forall s :: s in stages && s.Some? && !IsExit(s.value) ==> Rank(s.value) <= Rank(t)
  {
    var live := LiveOnes(stages);
    var pool := if live != [] then live else stages;
    FurthestOf(pool, t);
    if AccountStage(stages) == Some(t) {
      var i :| FirstFurthest(pool, t, i);
      assert Some(t) in pool;
      assert Some(t) in live;
      forall s | s in stages && s.Some? && !IsExit(s.value)
        ensures Rank(s.value) <= Rank(t)
      {
        assert s in live;
        var j :| 0 <= j < |live| && live[j] == s;
      }
    }
    if Some(t) in stages && forall s :: s in stages && s.Some? && !IsExit(s.value) ==> Rank(s.value) <= Rank(t) {
      assert Some(t) in live;
      var i := FirstAt(live, Some(t));
      forall j | 0 <= j < i && live[j].Some?
        ensures Rank(live[j].value) < Rank(t)
      {
        assert live[j] in live && live[j] in stages;
        assert live[j] != Some(t);
      }
      forall j | 0 <= j < |live| && live[j].Some?
        ensures Rank(live[j].value) <= Rank(t)
      {
        assert live[j] in live && live[j] in stages;
      }
      assert FirstFurthest(live, t, i);
    }
  }

  ghost function FirstAt(stages: seq<Option<Stage>>, s: Option<Stage>): (i: nat)
    requires s in stages
    ensures i < |stages| && stages[i] == s && forall j :: 0 <= j < i ==> stages[j] != s
  {
    if stages[0] == s then 0 else
      assert s in stages[1..];
      1 + FirstAt(stages[1..], s)
  }

  // ---- Planning ----

  /** People who cannot stay where they are: the live ones for an exit, those further along otherwise. */
  predicate MustMove(p: Person, target: Stage) {
    if IsExit(target) then IsLive(p.stage)
    else p.stage.Some? && !IsExit(p.stage.value) && Rank(p.stage.value) > Rank(target)
  }

  /** `Map.set`: an id keeps its first place and its last value. */
  function SetMove(moves: seq<Move>, m: Move): (r: seq<Move>)
    ensures forall id :: HasMove(r, id) <==> HasMove(moves, id) || id == m.id
  {
    if moves == [] then [m]
    else if moves[0].id == m.id then [m] + moves[1..]
    else [moves[0]] + SetMove(moves[1..], m)
  }

  predicate HasMove(moves: seq<Move>, id: string) {
    if moves == [] then false else moves[0].id == id || HasMove(moves[1..], id)
  }

  function Forced(people: seq<Person>, target: Stage): seq<Move> {
    if people == [] then []
    else
      var p, before := people[|people| - 1], Forced(people[..|people| - 1], target);
      if MustMove(p, target) then SetMove(before, Move(p.id, p.stage, target)) else before
  }

  function LivePeople(people: seq<Person>): (live: seq<Person>)
    ensures forall p :: p in live <==> p in people && IsLive(p.stage)
  {
    if people == [] then []
    else (if IsLive(people[0].stage) then [people[0]] else []) + LivePeople(people[1..])
  }

  predicate SomeoneAt(live: seq<Person>, moves: seq<Move>, target: Stage) {
    exists p :: p in live && (HasMove(moves, p.id) || p.stage == Some(target))
  }

  /** The first live person, or the first of all when nobody is live. */
  ghost predicate IsPrimary(people: seq<Person>, i: int) {
    && 0 <= i < |people|
    && if IsLive(people[i].stage) then forall j :: 0 <= j < i ==> !IsLive(people[j].stage)
       else i == 0 && forall j :: 0 <= j < |people| ==> !IsLive(people[j].stage)
  }

  lemma {:induction false} FirstLive(people: seq<Person>) returns (i: int)
    requires people != []
    ensures IsPrimary(people, i)
    ensures people[i] == if LivePeople(people) != [] then LivePeople(people)[0] else people[0]
  {
    i := 0;
    if !IsLive(people[0].stage) && |people| > 1 {
      var k := FirstLive(people[1..]);
      if IsLive(people[k + 1].stage) { i := k + 1; }
    }
  }

  lemma PrimaryExists(people: seq<Person>)
    requires people != []
    ensures var p := if LivePeople(people) != [] then LivePeople(people)[0] else people[0];
            exists i :: IsPrimary(people, i) && people[i] == p
  {
    var i := FirstLive(people);
  }

  /** `people` is ordered primary first. */
  function Primary(people: seq<Person>): (p: Person)
    requires people != []
    ensures p in people && (LivePeople(people) != [] ==> IsLive(p.stage))
    ensures exists i :: IsPrimary(people, i) && people[i] == p
  {
    PrimaryExists(people);
    var live := LivePeople(people);
    if live != [] then live[0] else people[0]
  }

  lemma PrimaryOnly(people: seq<Person>)
    requires people != []
    ensures forall i :: IsPrimary(people, i) ==> people[i] == Primary(people)
  {
    hide LivePeople, Primary, IsLive;
    var p := Primary(people);
    var k :| IsPrimary(people, k) && people[k] == p;
    forall i | IsPrimary(people, i)
      ensures i == k
    {
    }
  }

  function Plan(people: seq<Person>, target: Stage): seq<Move> {
    var forced := Forced(people, target);
    if IsExit(target) || people == [] || SomeoneAt(LivePeople(people), forced, target) then forced
    else
      var p := Primary(people);
      SetMove(forced, Move(p.id, p.stage, target))
  }

  /** The source fills its `moves` Map in one pass, then adds the primary person if nobody is at the target. */
  method PlanAccountStage(people: seq<Person>, target: Stage) returns (moves: seq<Move>)
    ensures moves == Plan(people, target)
  {
    moves := [];
    for i := 0 to |people|
      invariant moves == Forced(people[..i], target)
    {
      assert people[..i + 1][..i] == people[..i];
      if MustMove(people[i], target) {
        moves := SetMove(moves, Move(people[i].id, people[i].stage, target));
      }
    }
    assert people[..|people|] == people;
    if IsExit(target) || people == [] { return; }
    if !SomeoneAt(LivePeople(people), moves, target) {
      var p := Primary(people);
      moves := SetMove(moves, Move(p.id, p.stage, target));
    }
  }

  // ---- Applying a plan ----

  function MoveFor(moves: seq<Move>, id: string): Move
    requires HasMove(moves, id)
  {
    if moves[0].id == id then moves[0] else MoveFor(moves[1..], id)
  }

  /** The callers' writes: each moved person takes the stage of their move. */
  function Apply(people: seq<Person>, moves: seq<Move>): (r: seq<Person>)
    ensures |r| == |people|
    ensures forall i :: 0 <= i < |r| ==>
              r[i] == if HasMove(moves, people[i].id) then people[i].(stage := Some(MoveFor(moves, people[i].id).to))
                      else people[i]
  {
    if people == [] then [] else
      var p := people[0];
      [if HasMove(moves, p.id) then p.(stage := Some(MoveFor(moves, p.id).to)) else p] + Apply(people[1..], moves)
  }

  ghost predicate UniqueIds(people: seq<Person>) {
    forall i, j :: 0 <= i < j < |people| ==> people[i].id != people[j].id
  }

  ghost predicate AllTo(moves: seq<Move>, target: Stage) {
    forall m :: m in moves ==> m.to == target
  }

  lemma {:induction false} SetMoveTo(moves: seq<Move>, m: Move)
    requires AllTo(moves, m.to)
    ensures AllTo(SetMove(moves, m), m.to)
    ensures |SetMove(moves, m)| == |moves| + if HasMove(moves, m.id) then 0 else 1
  {
    if moves != [] && moves[0].id != m.id { SetMoveTo(moves[1..], m); }
  }

  lemma {:induction false} MoveForTo(moves: seq<Move>, id: string, target: Stage)
    requires HasMove(moves, id) && AllTo(moves, target)
    ensures MoveFor(moves, id).to == target
  {
    if moves[0].id != id { MoveForTo(moves[1..], id, target); }
  }

  /** How many people must move. */
  ghost function MustMoveCount(people: seq<Person>, target: Stage): nat {
    if people == [] then 0
    else MustMoveCount(people[..|people| - 1], target) + if MustMove(people[|people| - 1], target) then 1 else 0
  }

  /** The first pass moves exactly the people who must, each once. */
  lemma {:induction false} ForcedMoves(people: seq<Person>, target: Stage)
    requires UniqueIds(people)
    ensures AllTo(Forced(people, target), target)
    ensures forall p :: p in people ==> (HasMove(Forced(people, target), p.id) <==> MustMove(p, target))
    ensures forall id :: HasMove(Forced(people, target), id) ==> exists p :: p in people && p.id == id
    ensures |Forced(people, target)| == MustMoveCount(people, target)
  {
    if people != [] {
      var rest, p := people[..|people| - 1], people[|people| - 1];
      assert people == rest + [p];
      ForcedMoves(rest, target);
      assert forall q :: q in rest ==> q.id != p.id;
      assert !HasMove(Forced(rest, target), p.id);
      hide MustMove;
      if MustMove(p, target) { SetMoveTo(Forced(rest, target), Move(p.id, p.stage, target)); }
    }
  }

  /** Nobody must move and no live person is at the target. */
  ghost predicate NobodyAt(people: seq<Person>, target: Stage) {
    forall q :: q in people ==> !MustMove(q, target) && (IsLive(q.stage) ==> q.stage != Some(target))
  }

  /** Whom the whole plan moves. */
  ghost predicate Moved(people: seq<Person>, target: Stage, p: Person)
    requires people != []
  {
    MustMove(p, target) || (!IsExit(target) && NobodyAt(people, target) && exists i :: IsPrimary(people, i) && people[i] == p)
  }

  lemma WhoIsAt(people: seq<Person>, target: Stage)
    requires UniqueIds(people) && !IsExit(target)
    ensures SomeoneAt(LivePeople(people), Forced(people, target), target) <==> !NobodyAt(people, target)
  {
    hide Forced, LivePeople;
    ForcedMoves(people, target);
    assert forall p :: p in people && MustMove(p, target) ==> p in LivePeople(people);
  }

  lemma PlanMoves(people: seq<Person>, target: Stage)
    requires UniqueIds(people) && people != []
    ensures AllTo(Plan(people, target), target)
    ensures forall p :: p in people ==> (HasMove(Plan(people, target), p.id) <==> Moved(people, target, p))
  {
    hide Primary, IsPrimary, MustMove, LivePeople, Forced, SomeoneAt, IsLive, NobodyAt;
    ForcedMoves(people, target);
    PrimaryOnly(people);
    var forced := Forced(people, target);
    var primary := Primary(people);
    SetMoveTo(forced, Move(primary.id, primary.stage, target));
    if !IsExit(target) { WhoIsAt(people, target); }
    assert forall p :: p in people && p.id == primary.id ==> p == primary;
  }

  /** A move names one of the people and says where they stood. */
  ghost predicate Records(people: seq<Person>, target: Stage, m: Move) {
    exists p :: p in people && m == Move(p.id, p.stage, target)
  }

  lemma {:induction false} SetMoveOf(moves: seq<Move>, m: Move)
    ensures forall x :: x in SetMove(moves, m) ==> x == m || x in moves
  {
    if moves != [] && moves[0].id != m.id { SetMoveOf(moves[1..], m); }
  }

  lemma {:induction false} ForcedRecords(people: seq<Person>, target: Stage)
    ensures forall m :: m in Forced(people, target) ==> Records(people, target, m)
  {
    if people != [] {
      var before, p := people[..|people| - 1], people[|people| - 1];
      ForcedRecords(before, target);
      SetMoveOf(Forced(before, target), Move(p.id, p.stage, target));
      forall m | Records(before, target, m) ensures Records(people, target, m) {
        var q :| q in before && m == Move(q.id, q.stage, target);
        assert q in people;
      }
    }
  }

  // ---- The whole plan ----

  /** One move for everyone who must, in the people's order. */
  function MovesOf(people: seq<Person>, target: Stage): seq<Move> {
    if people == [] then []
    else
      var p := people[0];
      (if MustMove(p, target) then [Move(p.id, p.stage, target)] else []) + MovesOf(people[1..], target)
  }

  lemma {:induction false} MovesOfAppend(people: seq<Person>, p: Person, target: Stage)
    ensures MovesOf(people + [p], target)
         == if MustMove(p, target) then MovesOf(people, target) + [Move(p.id, p.stage, target)] else MovesOf(people, target)
  {
    hide MustMove;
    if people != [] {
      MovesOfAppend(people[1..], p, target);
      assert (people + [p])[1..] == people[1..] + [p];
    } else {
      assert (people + [p])[1..] == [];
    }
  }

  lemma {:induction false} SetNewMove(moves: seq<Move>, m: Move)
    requires !HasMove(moves, m.id)
    ensures SetMove(moves, m) == moves + [m]
  {
    if moves != [] { SetNewMove(moves[1..], m); }
  }

  lemma {:induction false} ForcedIsMovesOf(people: seq<Person>, target: Stage)
    requires UniqueIds(people)
    ensures Forced(people, target) == MovesOf(people, target)
  {
    if people != [] {
      hide MustMove;
      var before, p := people[..|people| - 1], people[|people| - 1];
      assert people == before + [p];
      ForcedIsMovesOf(before, target);
      ForcedMoves(before, target);
      assert forall q :: q in before ==> q.id != p.id;
      MovesOfAppend(before, p, target);
      if MustMove(p, target) { SetNewMove(Forced(before, target), Move(p.id, p.stage, target)); }
    }
  }

  /**
   The plan moves whoever must, in order; for an open target nobody is or gets to, it moves one person:
   the first who is live, or the first of all.
   */
  lemma PlanIs(people: seq<Person>, target: Stage)
    requires UniqueIds(people)
    ensures IsExit(target) || people == [] || !NobodyAt(people, target) ==> Plan(people, target) == MovesOf(people, target)
    ensures !IsExit(target) && people != [] && NobodyAt(people, target) ==>
      exists i :: IsPrimary(people, i) && Plan(people, target) == [Move(people[i].id, people[i].stage, target)]
  {
    hide Forced, LivePeople, MovesOf, SomeoneAt, Primary, IsPrimary;
    ForcedIsMovesOf(people, target);
    if !IsExit(target) && people != [] {
      WhoIsAt(people, target);
      if NobodyAt(people, target) {
        NobodyForced(people, target);
        var p := Primary(people);
        assert SetMove([], Move(p.id, p.stage, target)) == [Move(p.id, p.stage, target)];
      }
    }
  }

  /** Every move of a plan takes somebody from where they stand to the target. */
  lemma PlanRecords(people: seq<Person>, target: Stage)
    ensures forall m :: m in Plan(people, target) ==> Records(people, target, m)
  {
    ForcedRecords(people, target);
    if people != [] {
      var p := Primary(people);
      SetMoveOf(Forced(people, target), Move(p.id, p.stage, target));
    }
  }

  lemma ApplyPlan(people: seq<Person>, target: Stage)
    requires UniqueIds(people) && people != []
    ensures var after := Apply(people, Plan(people, target));
            forall i :: 0 <= i < |people| ==>
              after[i] == people[i].(stage := if Moved(people, target, people[i]) then Some(target) else people[i].stage)
  {
    PlanMoves(people, target);
    var moves := Plan(people, target);
    forall i | 0 <= i < |people|
      ensures Apply(people, moves)[i] == people[i].(stage := if Moved(people, target, people[i]) then Some(target) else people[i].stage)
    {
      assert people[i] in people;
      if HasMove(moves, people[i].id) { MoveForTo(moves, people[i].id, target); }
    }
  }

  // ---- The plan is right ----

  ghost predicate PlannedStages(people: seq<Person>, target: Stage, stages: seq<Option<Stage>>) {
    && people != [] && |stages| == |people|
    && forall i :: 0 <= i < |people| ==>
         stages[i] == if Moved(people, target, people[i]) then Some(target) else people[i].stage
  }

  lemma SomeoneArrives(people: seq<Person>, target: Stage, stages: seq<Option<Stage>>)
    requires !IsExit(target) && PlannedStages(people, target, stages)
    ensures Some(target) in stages
  {
    hide Primary, Rank;
    var q := Primary(people);
    if !NobodyAt(people, target) {
      q :| q in people && (MustMove(q, target) || (IsLive(q.stage) && q.stage == Some(target)));
    }
    var i :| 0 <= i < |people| && people[i] == q;
    assert stages[i] == Some(target);
  }

  lemma NobodyFurther(people: seq<Person>, target: Stage, stages: seq<Option<Stage>>, s: Option<Stage>)
    requires !IsExit(target) && PlannedStages(people, target, stages)
    requires s in stages && s.Some? && !IsExit(s.value)
    ensures Rank(s.value) <= Rank(target)
  {
    hide Primary, Rank, NobodyAt;
    var i :| 0 <= i < |stages| && stages[i] == s;
  }

  /** After an open plan the account reads the target. */
  lemma OpenPlanReaches(people: seq<Person>, target: Stage)
    requires UniqueIds(people) && people != [] && !IsExit(target)
    ensures AccountStage(Stages(Apply(people, Plan(people, target)))) == Some(target)
  {
    hide Plan, AccountStage, Apply, Primary, Moved, IsExit, Rank;
    var stages := Stages(Apply(people, Plan(people, target)));
    ApplyPlan(people, target);
    OpenReading(stages, target);
    SomeoneArrives(people, target, stages);
    forall s | s in stages && s.Some? && !IsExit(s.value)
      ensures Rank(s.value) <= Rank(target)
    {
      NobodyFurther(people, target, stages, s);
    }
  }

  /** Planning again, once the plan is applied, moves nobody. */
  lemma ReplanIsEmpty(people: seq<Person>, target: Stage)
    requires UniqueIds(people)
    ensures Plan(Apply(people, Plan(people, target)), target) == []
  {
    if people != [] {
      hide Plan, AccountStage, Apply, Forced, LivePeople;
      var after := Apply(people, Plan(people, target));
      NobodyMustAfter(people, target);
      if !IsExit(target) {
        OpenPlanReaches(people, target);
        OpenReading(Stages(after), target);
        SomeoneThere(after, target);
      }
      NobodyForced(after, target);
      PlanIsForced(after, target);
    }
  }

  lemma NobodyMustAfter(people: seq<Person>, target: Stage)
    requires UniqueIds(people) && people != []
    ensures forall p :: p in Apply(people, Plan(people, target)) ==> !MustMove(p, target)
  {
    hide Plan, Apply, Primary;
    var after := Apply(people, Plan(people, target));
    ApplyPlan(people, target);
    forall i | 0 <= i < |after|
      ensures !MustMove(after[i], target)
    {
      assert after[i].stage == Some(target) || after[i] == people[i];
    }
  }

  lemma SomeoneThere(people: seq<Person>, target: Stage)
    requires Some(target) in Stages(people) && !IsExit(target)
    ensures exists p :: p in LivePeople(people) && p.stage == Some(target)
  {
    var i :| 0 <= i < |people| && Stages(people)[i] == Some(target);
    assert people[i] in LivePeople(people);
  }

  lemma PlanIsForced(people: seq<Person>, target: Stage)
    requires IsExit(target) || people == [] || exists p :: p in LivePeople(people) && p.stage == Some(target)
    ensures Plan(people, target) == Forced(people, target)
  {
  }

  lemma {:induction false} NobodyForced(people: seq<Person>, target: Stage)
    requires forall p :: p in people ==> !MustMove(p, target)
    ensures Forced(people, target) == []
  {
    if people != [] { NobodyForced(people[..|people| - 1], target); }
  }

  // ---- The plan is the smallest ----

  /** How many people a reassignment changes. */
  ghost function Changed(people: seq<Person>, after: seq<Option<Stage>>): nat
    requires |people| == |after|
  {
    if people == [] then 0
    else Changed(people[..|people| - 1], after[..|people| - 1]) + if people[|people| - 1].stage != after[|people| - 1] then 1 else 0
  }

  lemma {:induction false} MustMoveAreChanged(people: seq<Person>, after: seq<Option<Stage>>, target: Stage)
    requires |people| == |after|
    requires forall i :: 0 <= i < |people| && MustMove(people[i], target) ==> after[i] != people[i].stage
    ensures MustMoveCount(people, target) <= Changed(people, after)
  {
    if people != [] { MustMoveAreChanged(people[..|people| - 1], after[..|people| - 1], target); }
  }

  lemma {:induction false} SomethingChanged(people: seq<Person>, after: seq<Option<Stage>>)
    requires |people| == |after|
    ensures Changed(people, after) == 0 ==> forall i :: 0 <= i < |people| ==> after[i] == people[i].stage
  {
    if people != [] {
      var n := |people| - 1;
      SomethingChanged(people[..n], after[..n]);
      assert forall i :: 0 <= i < n ==> people[..n][i] == people[i] && after[..n][i] == after[i];
    }
  }

  /** Whoever is further along has to move in any reassignment that reaches the target. */
  lemma FurtherAlongMustChange(people: seq<Person>, after: seq<Option<Stage>>, target: Stage, i: nat)
    requires |people| == |after| && !IsExit(target) && AccountStage(after) == Some(target)
    requires i < |people| && MustMove(people[i], target)
    ensures after[i] != people[i].stage
  {
    OpenReading(after, target);
    assert after[i] in after;
  }

  /** No reassignment that makes the account read an open target changes fewer people than the plan moves. */
  lemma OpenPlanIsSmallest(people: seq<Person>, after: seq<Option<Stage>>, target: Stage)
    requires UniqueIds(people) && |people| == |after| && !IsExit(target)
    requires AccountStage(after) == Some(target)
    ensures |Plan(people, target)| <= Changed(people, after)
  {
    hide AccountStage, Primary;
    ForcedMoves(people, target);
    forall i: nat | i < |people| && MustMove(people[i], target)
      ensures after[i] != people[i].stage
    {
      FurtherAlongMustChange(people, after, target, i);
    }
    MustMoveAreChanged(people, after, target);
    WhoIsAt(people, target);
    if people != [] && NobodyAt(people, target) {
      var forced, p := Forced(people, target), Primary(people);
      NobodyForced(people, target);
      SetMoveTo(forced, Move(p.id, p.stage, target));
      SomethingChanged(people, after);
      assert Changed(people, after) == 0 ==> Stages(people) == after;
      NotYetThere(people, target);
    }
  }

  lemma NotYetThere(people: seq<Person>, target: Stage)
    requires !IsExit(target) && NobodyAt(people, target)
    ensures AccountStage(Stages(people)) != Some(target)
  {
    hide AccountStage, Rank;
    var stages := Stages(people);
    OpenReading(stages, target);
    assert forall i :: 0 <= i < |stages| ==> people[i] in people && stages[i] != Some(target);
  }

  lemma {:induction false} NoneMust(people: seq<Person>, target: Stage)
    requires forall p :: p in people ==> !MustMove(p, target)
    ensures MustMoveCount(people, target) == 0
  {
    if people != [] { NoneMust(people[..|people| - 1], target); }
  }

  lemma {:induction false} ChangedOnlyMust(people: seq<Person>, after: seq<Option<Stage>>, target: Stage)
    requires |people| == |after|
    requires forall i :: 0 <= i < |people| && after[i] != people[i].stage ==> MustMove(people[i], target)
    ensures Changed(people, after) <= MustMoveCount(people, target)
  {
    if people != [] { ChangedOnlyMust(people[..|people| - 1], after[..|people| - 1], target); }
  }

  lemma {:induction false} ChangedOnlyAt(people: seq<Person>, after: seq<Option<Stage>>, k: int)
    requires |people| == |after|
    requires forall i :: 0 <= i < |people| && i != k ==> after[i] == people[i].stage
    ensures Changed(people, after) <= if 0 <= k < |people| then 1 else 0
  {
    if people != [] { ChangedOnlyAt(people[..|people| - 1], after[..|people| - 1], k); }
  }

  lemma PlanSize(people: seq<Person>, target: Stage)
    requires UniqueIds(people) && people != [] && !IsExit(target)
    ensures |Plan(people, target)| == if NobodyAt(people, target) then 1 else MustMoveCount(people, target)
  {
    hide Primary, LivePeople, Forced, SomeoneAt, Rank;
    ForcedMoves(people, target);
    WhoIsAt(people, target);
    if NobodyAt(people, target) {
      var p := Primary(people);
      NobodyForced(people, target);
      SetMoveTo(Forced(people, target), Move(p.id, p.stage, target));
    }
  }

  lemma FewChange(people: seq<Person>, target: Stage, stages: seq<Option<Stage>>)
    requires UniqueIds(people) && !IsExit(target) && PlannedStages(people, target, stages)
    ensures Changed(people, stages) <= if NobodyAt(people, target) then 1 else MustMoveCount(people, target)
  {
    hide Primary, Rank, Changed, MustMoveCount, MustMove;
    if NobodyAt(people, target) {
      var k :| 0 <= k < |people| && people[k] == Primary(people);
      PrimaryOnly(people);
      ChangedOnlyAt(people, stages, k);
    } else {
      ChangedOnlyMust(people, stages, target);
    }
  }

  /** Every planned move changes someone: the plan itself changes exactly as many people as it lists. */
  lemma OpenPlanChanges(people: seq<Person>, target: Stage)
    requires UniqueIds(people) && people != [] && !IsExit(target)
    ensures Changed(people, Stages(Apply(people, Plan(people, target)))) == |Plan(people, target)|
  {
    hide Apply, AccountStage, Plan, Moved, Changed;
    var stages := Stages(Apply(people, Plan(people, target)));
    ApplyPlan(people, target);
    OpenPlanReaches(people, target);
    OpenPlanIsSmallest(people, stages, target);
    PlanSize(people, target);
    FewChange(people, target, stages);
  }

  // ---- Exits ----

  /** An exit moves exactly the live people, and leaves nobody live. */
  lemma ExitPlanMoves(people: seq<Person>, target: Stage)
    requires UniqueIds(people) && IsExit(target)
    ensures forall p :: p in people ==> (HasMove(Plan(people, target), p.id) <==> IsLive(p.stage))
    ensures forall p :: p in Apply(people, Plan(people, target)) ==> !IsLive(p.stage)
  {
    if people != [] {
      PlanMoves(people, target);
      ApplyPlan(people, target);
    }
  }

  /** Person `i` is at the exit afterwards, and nobody who had left before stands in the way. */
  ghost predicate ReadsExit(people: seq<Person>, target: Stage, i: int) {
    && 0 <= i < |people| && (IsLive(people[i].stage) || people[i].stage == Some(target))
    && forall j :: 0 <= j < |people| && !IsLive(people[j].stage) ==>
         && Rank(people[j].stage.value) <= Rank(target)
         && (j < i ==> Rank(people[j].stage.value) < Rank(target) || people[j].stage == Some(target))
  }

  /**
   After an exit the account reads the target exactly when some person is at it by then and nobody who
   had exited before outranks it, or ties with it from an earlier place.
   */
  lemma ExitPlanReaches(people: seq<Person>, target: Stage)
    requires UniqueIds(people) && IsExit(target)
    ensures AccountStage(Stages(Apply(people, Plan(people, target)))) == Some(target)
       <==> exists i :: ReadsExit(people, target, i)
  {
    if people != [] {
      hide Plan, Apply, Primary, Furthest, AccountStage, ReadsExit, Rank;
      ApplyPlan(people, target);
      ExitReading(people, Stages(Apply(people, Plan(people, target))), target);
    }
  }

  lemma ExitReading(people: seq<Person>, stages: seq<Option<Stage>>, target: Stage)
    requires IsExit(target) && |stages| == |people|
    requires forall i :: 0 <= i < |people| ==> stages[i] == if IsLive(people[i].stage) then Some(target) else people[i].stage
    ensures AccountStage(stages) == Some(target) <==> exists i :: ReadsExit(people, target, i)
  {
    hide Furthest, Rank, FirstFurthest, ReadsExit;
    NoneLive(stages);
    FurthestOf(stages, target);
    if i :| ReadsExit(people, target, i) { ExitIsFurthest(people, stages, target, i); }
    if k :| FirstFurthest(stages, target, k) { FurthestIsExit(people, stages, target, k); }
  }

  lemma ExitIsFurthest(people: seq<Person>, stages: seq<Option<Stage>>, target: Stage, i: int)
    requires IsExit(target) && |stages| == |people| && ReadsExit(people, target, i)
    requires forall i :: 0 <= i < |people| ==> stages[i] == if IsLive(people[i].stage) then Some(target) else people[i].stage
    ensures exists k :: FirstFurthest(stages, target, k)
  {
    hide Rank;
    assert stages[i] == Some(target);
    var k := FirstAt(stages, Some(target));
    assert FirstFurthest(stages, target, k);
  }

  lemma FurthestIsExit(people: seq<Person>, stages: seq<Option<Stage>>, target: Stage, k: int)
    requires IsExit(target) && |stages| == |people| && FirstFurthest(stages, target, k)
    requires forall i :: 0 <= i < |people| ==> stages[i] == if IsLive(people[i].stage) then Some(target) else people[i].stage
    ensures ReadsExit(people, target, k)
  {
    hide Rank;
  }

  lemma {:induction false} NoneLive(stages: seq<Option<Stage>>)
    requires forall i :: 0 <= i < |stages| ==> !IsLive(stages[i])
    ensures LiveOnes(stages) == []
  {
    if stages != [] { NoneLive(stages[1..]); }
  }

  /** A churned contact keeps the account reading churned, whatever exit the rest are given. */
  lemma ExitPlanCanMiss()
    ensures var people := [Person("a", Some(Negotiation)), Person("b", Some(Churned))];
            AccountStage(Stages(Apply(people, Plan(people, ClosedLost)))) != Some(ClosedLost)
  {
    var people := [Person("a", Some(Negotiation)), Person("b", Some(Churned))];
    ExitPlanReaches(people, ClosedLost);
    assert !IsLive(people[1].stage);
  }
}
