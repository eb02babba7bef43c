/**
 The own-model backfill loop (apps/cli/src/backfill.js:97-143) as a transition system.

 One step is the code between two awaits. The environment chooses which await ends next and how, and
 every reading of the clock; readings never go back. `pages` keeps every page ever leased, one
 worker a call, so a state remembers what became of each leased call.
 */
module Backfill {
  import opened Options

  datatype Config = Config(limitWaitMs: nat, progressMs: nat)

  const RETRIES: int := 2

  // ---- Progress lines ----

  datatype Reading = Reading(finished: bool, total: nat, done: nat)

  datatype Line = WrappingUp | ReadOf(done: nat, total: nat) | ReadsDone(answered: nat) | Pulling

  function ProgressLine(reading: Option<Reading>, answered: nat): Line {
    if reading.Some? && reading.value.finished then WrappingUp
    else if reading.Some? && reading.value.total != 0 then ReadOf(reading.value.done, reading.value.total)
    else if answered != 0 then ReadsDone(answered)
    else Pulling
  }

  // ---- What the workers share ----

  datatype Printed = Printed(line: Line, at: int)

  /** A plan-limit message, logged between the two readings around it. */
  datatype Notice = Notice(from: int, to: int)

  /** The closure's variables, and the log they led to. */
  datatype Shared = Shared(waitUntil: int, answered: nat, lastLine: Option<Line>, lastAt: Option<int>,
                           printed: seq<Printed>, notices: seq<Notice>)

  function Least(a: int, b: int): int {
    if a <= b then a else b
  }

  predicate KeepsQuiet(cfg: Config, s: Shared, line: Line, t1: int, t2: int) {
    s.lastAt.Some? &&
    ((s.lastLine == Some(line) && t1 - s.lastAt.value < cfg.progressMs)
     || t2 - s.lastAt.value < Least(cfg.progressMs, 1000))
  }

  function Say(cfg: Config, s: Shared, line: Line, t1: int, t2: int, t3: int): Shared {
    if KeepsQuiet(cfg, s, line, t1, t2) then s
    else s.(lastLine := Some(line), lastAt := Some(t3), printed := s.printed + [Printed(line, t3)])
  }

  function HitLimit(cfg: Config, s: Shared, t1: int, t2: int): Shared {
    s.(notices := if t1 >= s.waitUntil then s.notices + [Notice(t1, t2)] else s.notices,
       waitUntil := if s.waitUntil >= t2 + cfg.limitWaitMs then s.waitUntil else t2 + cfg.limitWaitMs)
  }

  // ---- Workers ----

  datatype Fault = PlanLimit | Ordinary

  datatype Phase =
    | Sleeping(until: int)   // waiting out the plan limit
    | Calling                // the model is answering
    | Posting                // the answer is on its way to the server
    | PostingError           // the error is on its way to the server
    | Answered
    | GaveUp
    | Threw

  /** `faults` are the failed attempts in order, so the attempt number is their count. */
  datatype Worker = Worker(phase: Phase, faults: seq<Fault>, accepted: nat)

  predicate Returned(w: Worker) {
    w.phase.Answered? || w.phase.GaveUp?
  }

  /** The top of the attempt loop: sleep once if the shared wait is not over, else call. */
  function Begin(waitUntil: int, t: int): Phase {
    if t < waitUntil then Sleeping(waitUntil) else Calling
  }

  /** The catch block, up to its next await. */
  function AfterFault(w: Worker, fault: Fault, waitUntil: int, t: int): Worker {
    var faults := w.faults + [fault];
    if fault.Ordinary? && |w.faults| >= RETRIES then w.(phase := PostingError, faults := faults)
    else w.(phase := Begin(waitUntil, t), faults := faults)
  }

  // ---- The loop ----

  datatype Main = Leasing | Resuming | Pausing | Working | Done | Crashed

  datatype State = State(now: int, main: Main, shared: Shared, pages: seq<seq<Worker>>)

  /** A run starts at some time after the epoch. */
  function Init(start: nat): State {
    State(start, Leasing, Shared(0, 0, None, None, [], []), [])
  }

  datatype Action =
    | LeaseEnds(t: int)
    | LeaseThrows(t: int)
    | LeasePaused(t: int)
    | LeasePage(reading: Option<Reading>, calls: nat, t1: int, t2: int, t3: int, starts: seq<int>)
    | Resumed(t: int)
    | ResumeThrows(t: int)
    | PollAgain(t: int)
    | Barrier(t: int)
    | Wake(i: nat, t: int)
    | RunAnswers(i: nat, t: int)
    | Fails(i: nat, fault: Fault, t1: int, t2: int, t3: int)   // the run, the parse or the post
    | PostAccepted(i: nat, t: int)
    | ErrorAccepted(i: nat, t: int)
    | ErrorRefused(i: nat, t: int)

  function Current(s: State): seq<Worker> {
    if s.pages == [] then [] else s.pages[|s.pages| - 1]
  }

  function SetWorker(s: State, i: nat, w: Worker): (r: State)
    requires i < |Current(s)|
  {
    var last := |s.pages| - 1;
    s.(pages := s.pages[last := s.pages[last][i := w]])
  }

  predicate Ascending(ts: seq<int>, from: int) {
    if ts == [] then true else from <= ts[0] && Ascending(ts[1..], ts[0])
  }

  function LastOf(ts: seq<int>, from: int): int {
    if ts == [] then from else ts[|ts| - 1]
  }

  predicate AllReturned(page: seq<Worker>) {
    forall i :: 0 <= i < |page| ==> Returned(page[i])
  }

  predicate Enabled(s: State, a: Action) {
    match a
    case LeaseEnds(t) => s.main.Leasing? && s.now <= t
    case LeaseThrows(t) => s.main.Leasing? && s.now <= t
    case LeasePaused(t) => s.main.Leasing? && s.now <= t
    case LeasePage(_, calls, t1, t2, t3, starts) =>
      s.main.Leasing? && s.now <= t1 <= t2 <= t3 && |starts| == calls && Ascending(starts, t3)
    case Resumed(t) => s.main.Resuming? && s.now <= t
    case ResumeThrows(t) => s.main.Resuming? && s.now <= t
    case PollAgain(t) => s.main.Pausing? && s.now <= t
    case Barrier(t) => s.main.Working? && s.now <= t && AllReturned(Current(s))
    case Wake(i, t) =>
      i < |Current(s)| && Current(s)[i].phase.Sleeping? && s.now <= t && Current(s)[i].phase.until <= t
    case RunAnswers(i, t) => i < |Current(s)| && Current(s)[i].phase.Calling? && s.now <= t
    case Fails(i, _, t1, t2, t3) =>
      i < |Current(s)| && (Current(s)[i].phase.Calling? || Current(s)[i].phase.Posting?) && s.now <= t1 <= t2 <= t3
    case PostAccepted(i, t) => i < |Current(s)| && Current(s)[i].phase.Posting? && s.now <= t
    case ErrorAccepted(i, t) => i < |Current(s)| && Current(s)[i].phase.PostingError? && s.now <= t
    case ErrorRefused(i, t) => i < |Current(s)| && Current(s)[i].phase.PostingError? && s.now <= t
  }

  /** The workers of a fresh page, each run up to its first await. */
  function Fresh(waitUntil: int, starts: seq<int>): (page: seq<Worker>)
    ensures |page| == |starts|
    ensures forall i :: 0 <= i < |page| ==> page[i] == Worker(Begin(waitUntil, starts[i]), [], 0)
  {
    if starts == [] then [] else [Worker(Begin(waitUntil, starts[0]), [], 0)] + Fresh(waitUntil, starts[1..])
  }

  function Step(cfg: Config, s: State, a: Action): State
    requires Enabled(s, a)
  {
    match a
    case LeaseEnds(t) => s.(now := t, main := Done)
    case LeaseThrows(t) => s.(now := t, main := Crashed)
    case LeasePaused(t) => s.(now := t, main := Resuming)
    case LeasePage(reading, calls, t1, t2, t3, starts) =>
      var shared := Say(cfg, s.shared, ProgressLine(reading, s.shared.answered), t1, t2, t3);
      if calls == 0 then s.(now := t3, main := Pausing, shared := shared)
      else State(LastOf(starts, t3), Working, shared, s.pages + [Fresh(shared.waitUntil, starts)])
    case Resumed(t) => s.(now := t, main := Pausing)
    case ResumeThrows(t) => s.(now := t, main := Crashed)
    case PollAgain(t) => s.(now := t, main := Leasing)
    case Barrier(t) => s.(now := t, main := Leasing)
    case Wake(i, t) => SetWorker(s, i, Current(s)[i].(phase := Calling)).(now := t)
    case RunAnswers(i, t) => SetWorker(s, i, Current(s)[i].(phase := Posting)).(now := t)
    case Fails(i, fault, t1, t2, t3) =>
      var shared := if fault.PlanLimit? then HitLimit(cfg, s.shared, t1, t2) else s.shared;
      SetWorker(s, i, AfterFault(Current(s)[i], fault, shared.waitUntil, t3)).(now := t3, shared := shared)
    case PostAccepted(i, t) =>
      var w := Current(s)[i];
      SetWorker(s, i, w.(phase := Answered, accepted := w.accepted + 1))
        .(now := t, shared := s.shared.(answered := s.shared.answered + 1))
    case ErrorAccepted(i, t) =>
      var w := Current(s)[i];
      SetWorker(s, i, w.(phase := GaveUp, accepted := w.accepted + 1)).(now := t)
    case ErrorRefused(i, t) =>
      SetWorker(s, i, Current(s)[i].(phase := Threw)).(now := t, main := Crashed)
  }

  /** The state after a schedule, or nothing when some step of it could not happen. */
  function After(cfg: Config, start: nat, schedule: seq<Action>): Option<State>
    decreases |schedule|
  {
    if schedule == [] then Some(Init(start))
    else
      var before := After(cfg, start, schedule[..|schedule| - 1]);
      var a := schedule[|schedule| - 1];
      if before.Some? && Enabled(before.value, a) then Some(Step(cfg, before.value, a)) else None
  }
}
