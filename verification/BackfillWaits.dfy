/**
 Which calls of a backfill begin while the shared wait is not over: a worker looks at it once before
 it sleeps, and not again when it wakes (apps/cli/src/backfill.js:117-128).
 */
module BackfillWaits {
  import opened Options
  import opened Backfill
  import opened BackfillLaws

  // ---- What the wait is made of ----

  /** A plan-limit hit whose own wait is not over at `t`. */
  ghost predicate HitReaches(cfg: Config, a: Action, t: int) {
    a.Fails? && a.fault.PlanLimit? && t < a.t2 + cfg.limitWaitMs
  }

  ghost predicate SomeHitReaches(cfg: Config, schedule: seq<Action>, t: int) {
    exists k :: 0 <= k < |schedule| && HitReaches(cfg, schedule[k], t)
  }

  lemma StepMovesWait(cfg: Config, s: State, a: Action, t: int)
    requires Enabled(s, a)
    ensures t < Step(cfg, s, a).shared.waitUntil <==> t < s.shared.waitUntil || HitReaches(cfg, a, t)
  {
  }

  /** In every run the shared wait reaches past `t` exactly when some plan-limit hit's own wait does. */
  lemma {:induction false} WaitIsItsHits(cfg: Config, start: nat, schedule: seq<Action>, t: int)
    requires After(cfg, start, schedule).Some? && t >= 0
    ensures t < After(cfg, start, schedule).value.shared.waitUntil <==> SomeHitReaches(cfg, schedule, t)
    decreases |schedule|
  {
    if schedule != [] {
      var before, a := schedule[..|schedule| - 1], schedule[|schedule| - 1];
      hide Enabled, Step;
      WaitIsItsHits(cfg, start, before, t);
      StepMovesWait(cfg, After(cfg, start, before).value, a, t);
      assert schedule == before + [a];
      assert SomeHitReaches(cfg, schedule, t) <==> SomeHitReaches(cfg, before, t) || HitReaches(cfg, a, t) by {
        OneMoreHit(cfg, before, a, t);
      }
    }
  }

  lemma OneMoreHit(cfg: Config, schedule: seq<Action>, a: Action, t: int)
    ensures SomeHitReaches(cfg, schedule + [a], t) <==> SomeHitReaches(cfg, schedule, t) || HitReaches(cfg, a, t)
  {
    var longer := schedule + [a];
    if k :| 0 <= k < |schedule| && HitReaches(cfg, schedule[k], t) { assert longer[k] == schedule[k]; }
    assert longer[|schedule|] == a;
  }

  // ---- Where calls begin ----

  /** The reading of the clock at which a step takes worker `i` to the top of its loop or out of its sleep. */
  function LooksAt(a: Action, i: nat): Option<int> {
    match a
    case LeasePage(_, _, _, _, _, starts) => if i < |starts| then Some(starts[i]) else None
    case Fails(j, _, _, _, t3) => if i == j then Some(t3) else None
    case Wake(j, t) => if i == j then Some(t) else None
    case _ => None
  }

  ghost predicate CallsNow(s: State, i: nat) {
    i < |Current(s)| && Current(s)[i].phase.Calling?
  }

  /** Step `a` has worker `i` begin a call at `t`. */
  ghost predicate Begins(cfg: Config, s: State, a: Action, i: nat, t: int) {
    Enabled(s, a) && LooksAt(a, i) == Some(t) && CallsNow(Step(cfg, s, a), i)
  }

  /** No other step begins a call: who is calling after it was calling before. */
  lemma OnlyTheseBegin(cfg: Config, s: State, a: Action, i: nat)
    requires Enabled(s, a) && CallsNow(Step(cfg, s, a), i) && LooksAt(a, i).None?
    ensures |Step(cfg, s, a).pages| == |s.pages| && CallsNow(s, i)
  {
  }

  /**
   At the top of the loop a worker calls once the wait is over, and sleeps to its end before that; it
   does not get there again after an ordinary failure with two behind it.
   */
  lemma LoopTopChecks(cfg: Config, s: State, a: Action, i: nat, t: int)
    requires Enabled(s, a) && LooksAt(a, i) == Some(t) && !a.Wake?
    ensures var r := Step(cfg, s, a); var wait := r.shared.waitUntil;
            && i < |Current(r)|
            && (Current(r)[i].phase == PostingError || Current(r)[i].phase == if wait <= t then Calling else Sleeping(wait))
    ensures Current(Step(cfg, s, a))[i].phase == PostingError
       <==> a.Fails? && a.fault.Ordinary? && |Current(s)[i].faults| >= 2
  {
  }

  /**
   A call begins inside the wait exactly when its worker comes out of its sleep less than one wait
   after some hit. Calls begun at the top of the loop never do.
   */
  lemma BeginsInsideTheWait(cfg: Config, start: nat, schedule: seq<Action>, a: Action, i: nat, t: int)
    requires After(cfg, start, schedule).Some? && Begins(cfg, After(cfg, start, schedule).value, a, i, t)
    ensures t < Step(cfg, After(cfg, start, schedule).value, a).shared.waitUntil
       <==> a == Wake(i, t) && SomeHitReaches(cfg, schedule, t)
  {
    var s := After(cfg, start, schedule).value;
    if a.Wake? {
      WaitGrows(cfg, start, schedule, 0);
      WaitIsItsHits(cfg, start, schedule, t);
    } else {
      LoopTopChecks(cfg, s, a, i, t);
    }
  }

  ghost predicate Inside(cfg: Config, start: nat, schedule: seq<Action>, i: nat, t: int) {
    && After(cfg, start, schedule).Some?
    && var s := After(cfg, start, schedule).value;
       Begins(cfg, s, Wake(i, t), i, t) && t < Step(cfg, s, Wake(i, t)).shared.waitUntil
  }

  /** It can happen under every setting but one: only without any wait does no run have such a call. */
  lemma CallsInsideTheWait(cfg: Config)
    ensures (exists start, schedule, i, t :: Inside(cfg, start, schedule, i, t)) <==> cfg.limitWaitMs > 0
  {
    if cfg.limitWaitMs > 0 {
      TwoHits(cfg);
    } else if start, schedule, i, t :| Inside(cfg, start, schedule, i, t) {
      NoWaitNoSleep(cfg, start, schedule, i, t);
    }
  }

  lemma NoWaitNoSleep(cfg: Config, start: nat, schedule: seq<Action>, i: nat, t: int)
    requires cfg.limitWaitMs == 0
    ensures !Inside(cfg, start, schedule, i, t)
  {
    if After(cfg, start, schedule).Some? { WaitGrows(cfg, start, schedule, 0); }
  }

  ghost predicate TwoCalls(s: State, first: Phase, second: Phase, waitUntil: int, now: int) {
    && |Current(s)| == 2 && Current(s)[0].phase == first && Current(s)[1].phase == second
    && s.shared.waitUntil == waitUntil && s.now == now
  }

  lemma TwoLeased(cfg: Config) returns (schedule: seq<Action>)
    ensures After(cfg, 0, schedule).Some? && TwoCalls(After(cfg, 0, schedule).value, Calling, Calling, 0, 0)
  {
    var lease := LeasePage(None, 2, 0, 0, 0, [0, 0]);
    assert Ascending([0, 0], 0) by { assert [0, 0][1..] == [0] && [0][1..] == []; }
    Extend(cfg, 0, [], lease);
    schedule := [] + [lease];
  }

  lemma HitOnce(cfg: Config, s: State, i: nat, t: int)
    requires cfg.limitWaitMs > 0 && CallsNow(s, i) && s.now <= t && s.shared.waitUntil <= t + cfg.limitWaitMs
    ensures Enabled(s, Fails(i, PlanLimit, t, t, t))
    ensures var r := Step(cfg, s, Fails(i, PlanLimit, t, t, t));
            && |Current(r)| == |Current(s)| && r.shared.waitUntil == t + cfg.limitWaitMs && r.now == t
            && Current(r)[i].phase == Sleeping(t + cfg.limitWaitMs)
            && forall j :: 0 <= j < |Current(s)| && j != i ==> Current(r)[j] == Current(s)[j]
  {
  }

  /** Two calls hit the limit one moment apart; the first wakes when its own wait is over and calls. */
  lemma TwoHits(cfg: Config)
    requires cfg.limitWaitMs > 0
    ensures exists schedule :: Inside(cfg, 0, schedule, 0, cfg.limitWaitMs)
  {
    var wait := cfg.limitWaitMs;
    var first, second := Fails(0, PlanLimit, 0, 0, 0), Fails(1, PlanLimit, 1, 1, 1);
    var schedule := TwoLeased(cfg);
    assert After(cfg, 0, schedule + [first] + [second]).Some?
        && TwoCalls(After(cfg, 0, schedule + [first] + [second]).value, Sleeping(wait), Sleeping(1 + wait), 1 + wait, 1) by {
      hide Step, Enabled, After;
      HitOnce(cfg, After(cfg, 0, schedule).value, 0, 0);
      Extend(cfg, 0, schedule, first);
      HitOnce(cfg, After(cfg, 0, schedule + [first]).value, 1, 1);
      Extend(cfg, 0, schedule + [first], second);
    }
    WakesInside(cfg, schedule + [first] + [second]);
  }

  lemma WakesInside(cfg: Config, schedule: seq<Action>)
    requires cfg.limitWaitMs > 0 && After(cfg, 0, schedule).Some?
    requires var wait := cfg.limitWaitMs;
             TwoCalls(After(cfg, 0, schedule).value, Sleeping(wait), Sleeping(1 + wait), 1 + wait, 1)
    ensures Inside(cfg, 0, schedule, 0, cfg.limitWaitMs)
  {
    hide After;
  }
}
