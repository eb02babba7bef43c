/**
 What holds in every state of every run of the backfill loop, under every interleaving of its workers.
 */
module BackfillLaws {
  import opened Options
  import opened Backfill

  // ---- One call ----

  function Count(faults: seq<Fault>, f: Fault): nat {
    if faults == [] then 0 else Count(faults[..|faults| - 1], f) + if faults[|faults| - 1] == f then 1 else 0
  }

  /** The call has been given up: its error is on its way, delivered or refused. */
  predicate Abandoned(w: Worker) {
    w.phase.PostingError? || w.phase.GaveUp? || w.phase.Threw?
  }

  /** From the third on, failed attempts are plan limits, but for the one that makes the loop give up. */
  ghost predicate WorkerOk(w: Worker) {
    && w.accepted == (if Returned(w) then 1 else 0)
    && (Abandoned(w) ==> |w.faults| > RETRIES && w.faults[|w.faults| - 1].Ordinary?)
    && (forall k :: RETRIES <= k < (if Abandoned(w) then |w.faults| - 1 else |w.faults|) ==> w.faults[k].PlanLimit?)
  }

  // ---- The whole state ----

  function CountAnswered(page: seq<Worker>): nat {
    if page == [] then 0 else CountAnswered(page[..|page| - 1]) + if page[|page| - 1].phase.Answered? then 1 else 0
  }

  function TotalAnswered(pages: seq<seq<Worker>>): nat {
    if pages == [] then 0 else TotalAnswered(pages[..|pages| - 1]) + CountAnswered(pages[|pages| - 1])
  }

  /** A page is only behind another, or the loop only out of its barrier, once all its calls returned. */
  ghost predicate PagesSettled(s: State) {
    && (forall p :: 0 <= p < |s.pages| - 1 ==> AllReturned(s.pages[p]))
    && (!s.main.Working? && !s.main.Crashed? ==> AllReturned(Current(s)))
  }

  ghost predicate WorkersOk(pages: seq<seq<Worker>>) {
    forall p, i :: 0 <= p < |pages| && 0 <= i < |pages[p]| ==> WorkerOk(pages[p][i])
  }

  ghost predicate LogOk(cfg: Config, s: Shared, now: int) {
    && s.waitUntil <= now + cfg.limitWaitMs
    && (forall i :: 0 <= i < |s.notices| - 1 ==> s.notices[i].to + cfg.limitWaitMs <= s.notices[i + 1].from)
    && (s.notices != [] ==> s.notices[|s.notices| - 1].to + cfg.limitWaitMs <= s.waitUntil)
    && (forall i :: 0 <= i < |s.notices| ==> s.notices[i].from <= s.notices[i].to)
    && (s.lastLine.None? <==> s.printed == []) && (s.lastAt.None? <==> s.printed == [])
    && (s.printed != [] ==> Printed(s.lastLine.value, s.lastAt.value) == s.printed[|s.printed| - 1])
    && (forall i :: 0 <= i < |s.printed| - 1 ==> SpacedOut(cfg, s.printed[i], s.printed[i + 1]))
  }

  /** Two lines printed one after the other keep their distance, the same line twice a longer one. */
  ghost predicate SpacedOut(cfg: Config, p: Printed, q: Printed) {
    && q.at - p.at >= Least(cfg.progressMs, 1000)
    && (p.line == q.line ==> q.at - p.at >= cfg.progressMs)
  }

  ghost predicate Inv(cfg: Config, s: State) {
    PagesSettled(s) && WorkersOk(s.pages) && LogOk(cfg, s.shared, s.now) && s.shared.answered == TotalAnswered(s.pages)
  }

  // ---- Every step keeps it ----

  lemma SayKeepsLog(cfg: Config, s: Shared, line: Line, now: int, t1: int, t2: int, t3: int)
    requires LogOk(cfg, s, now) && now <= t1 <= t2 <= t3
    ensures LogOk(cfg, Say(cfg, s, line, t1, t2, t3), t3)
  {
    var r := Say(cfg, s, line, t1, t2, t3);
    if r != s {
      forall i | 0 <= i < |r.printed| - 1
        ensures SpacedOut(cfg, r.printed[i], r.printed[i + 1])
      {
        assert r.printed[i] == s.printed[i];
        if i + 1 < |s.printed| { assert r.printed[i + 1] == s.printed[i + 1]; }
      }
    }
  }

  lemma HitLimitKeepsLog(cfg: Config, s: Shared, now: int, t1: int, t2: int)
    requires LogOk(cfg, s, now) && now <= t1 <= t2
    ensures LogOk(cfg, HitLimit(cfg, s, t1, t2), t2)
    ensures s.waitUntil <= HitLimit(cfg, s, t1, t2).waitUntil
  {
  }

  lemma FaultKeepsWorker(w: Worker, fault: Fault, waitUntil: int, t: int)
    requires WorkerOk(w) && (w.phase.Calling? || w.phase.Posting?)
    ensures WorkerOk(AfterFault(w, fault, waitUntil, t))
  {
  }

  lemma {:induction false} AscendingEnds(ts: seq<int>, from: int)
    requires Ascending(ts, from)
    ensures from <= LastOf(ts, from)
    decreases |ts|
  {
    if |ts| > 1 { AscendingEnds(ts[1..], ts[0]); }
  }

  lemma {:induction false} CountAnsweredUpdate(page: seq<Worker>, i: nat, w: Worker)
    requires i < |page|
    ensures CountAnswered(page[i := w])
         == CountAnswered(page) - (if page[i].phase.Answered? then 1 else 0) + (if w.phase.Answered? then 1 else 0)
  {
    var n := |page| - 1;
    if i < n {
      CountAnsweredUpdate(page[..n], i, w);
      assert page[i := w][..n] == page[..n][i := w];
    } else {
      assert page[i := w][..n] == page[..n];
    }
  }

  lemma {:induction false} NoneAnsweredYet(page: seq<Worker>)
    requires forall i :: 0 <= i < |page| ==> !page[i].phase.Answered?
    ensures CountAnswered(page) == 0
  {
    if page != [] { NoneAnsweredYet(page[..|page| - 1]); }
  }

  /** Replacing one worker of the current page. */
  lemma SetWorkerKeeps(cfg: Config, s: State, i: nat, w: Worker)
    requires Inv(cfg, s) && i < |Current(s)| && WorkerOk(w) && !Returned(Current(s)[i])
    ensures var r := SetWorker(s, i, w);
            && PagesSettled(r) && WorkersOk(r.pages)
            && TotalAnswered(r.pages) == TotalAnswered(s.pages) + if w.phase.Answered? then 1 else 0
  {
    var r, last := SetWorker(s, i, w), |s.pages| - 1;
    assert r.pages[..last] == s.pages[..last];
    CountAnsweredUpdate(s.pages[last], i, w);
  }

  lemma LaterLogOk(cfg: Config, s: Shared, now: int, later: int)
    requires LogOk(cfg, s, now) && now <= later
    ensures LogOk(cfg, s, later)
    ensures LogOk(cfg, s.(answered := s.answered + 1), later)
  {
  }

  /** A new page comes after settled ones, with nothing answered on it. */
  lemma PageKeepsInv(cfg: Config, s: State, page: seq<Worker>, shared: Shared, now: int)
    requires Inv(cfg, s) && s.main.Leasing? && LogOk(cfg, shared, now) && shared.answered == s.shared.answered
    requires forall i :: 0 <= i < |page| ==> !Returned(page[i]) && WorkerOk(page[i])
    ensures Inv(cfg, State(now, Working, shared, s.pages + [page]))
  {
    hide LogOk, WorkerOk;
    NoneAnsweredYet(page);
    assert (s.pages + [page])[..|s.pages|] == s.pages;
    assert s.pages != [] ==> Current(s) == s.pages[|s.pages| - 1];
  }

  /** One worker moves on: the log, the counter and the barrier all stand. */
  lemma WorkerKeepsInv(cfg: Config, s: State, i: nat, w: Worker, shared: Shared, now: int, main: Main)
    requires Inv(cfg, s) && i < |Current(s)| && WorkerOk(w) && !Returned(Current(s)[i])
    requires LogOk(cfg, shared, now) && (main == s.main || main.Crashed?)
    requires shared.answered == s.shared.answered + if w.phase.Answered? then 1 else 0
    ensures Inv(cfg, SetWorker(s, i, w).(now := now, shared := shared, main := main))
  {
    hide LogOk, WorkerOk;
    SetWorkerKeeps(cfg, s, i, w);
  }

  lemma WorkerAt(cfg: Config, s: State, i: nat)
    requires Inv(cfg, s) && i < |Current(s)|
    ensures WorkerOk(Current(s)[i])
  {
  }

  lemma LeasePageKeepsInv(cfg: Config, s: State, a: Action)
    requires Inv(cfg, s) && Enabled(s, a) && a.LeasePage?
    ensures Inv(cfg, Step(cfg, s, a)) && s.now <= Step(cfg, s, a).now
  {
    hide LogOk, Say, PagesSettled, WorkersOk, TotalAnswered;
    var line := ProgressLine(a.reading, s.shared.answered);
    SayKeepsLog(cfg, s.shared, line, s.now, a.t1, a.t2, a.t3);
    SayKeepsCount(cfg, s.shared, line, a.t1, a.t2, a.t3);
    AscendingEnds(a.starts, a.t3);
    var shared := Say(cfg, s.shared, line, a.t1, a.t2, a.t3);
    if a.calls == 0 {
      PausingSettled(s, Step(cfg, s, a));
    } else {
      LaterLogOk(cfg, shared, a.t3, LastOf(a.starts, a.t3));
      PageKeepsInv(cfg, s, Fresh(shared.waitUntil, a.starts), shared, LastOf(a.starts, a.t3));
    }
  }

  lemma PausingSettled(s: State, r: State)
    requires PagesSettled(s) && s.main.Leasing? && r.pages == s.pages
    ensures PagesSettled(r)
  {
  }

  lemma SayKeepsCount(cfg: Config, s: Shared, line: Line, t1: int, t2: int, t3: int)
    ensures Say(cfg, s, line, t1, t2, t3).answered == s.answered
    ensures Say(cfg, s, line, t1, t2, t3).waitUntil == s.waitUntil
  {
  }

  lemma WorkerStepKeepsInv(cfg: Config, s: State, a: Action)
    requires Inv(cfg, s) && Enabled(s, a)
    requires a.Wake? || a.RunAnswers? || a.PostAccepted? || a.ErrorAccepted? || a.ErrorRefused?
    ensures Inv(cfg, Step(cfg, s, a))
  {
    hide LogOk, Inv;
    var w := Current(s)[a.i];
    WorkerAt(cfg, s, a.i);
    assert LogOk(cfg, s.shared, s.now) by { InvLog(cfg, s); }
    LaterLogOk(cfg, s.shared, s.now, a.t);
    match a
    case Wake(i, t) => WorkerKeepsInv(cfg, s, i, w.(phase := Calling), s.shared, t, s.main);
    case RunAnswers(i, t) => WorkerKeepsInv(cfg, s, i, w.(phase := Posting), s.shared, t, s.main);
    case PostAccepted(i, t) =>
      WorkerKeepsInv(cfg, s, i, w.(phase := Answered, accepted := w.accepted + 1),
                     s.shared.(answered := s.shared.answered + 1), t, s.main);
    case ErrorAccepted(i, t) => WorkerKeepsInv(cfg, s, i, w.(phase := GaveUp, accepted := w.accepted + 1), s.shared, t, s.main);
    case ErrorRefused(i, t) => WorkerKeepsInv(cfg, s, i, w.(phase := Threw), s.shared, t, Crashed);
  }

  lemma InvLog(cfg: Config, s: State)
    requires Inv(cfg, s)
    ensures LogOk(cfg, s.shared, s.now)
  {
  }

  lemma FailureKeepsInv(cfg: Config, s: State, a: Action)
    requires Inv(cfg, s) && Enabled(s, a) && a.Fails?
    ensures Inv(cfg, Step(cfg, s, a)) && s.shared.waitUntil <= Step(cfg, s, a).shared.waitUntil
  {
    hide LogOk, Inv, WorkerOk;
    var w := Current(s)[a.i];
    WorkerAt(cfg, s, a.i);
    InvLog(cfg, s);
    HitLimitKeepsLog(cfg, s.shared, s.now, a.t1, a.t2);
    var shared := if a.fault.PlanLimit? then HitLimit(cfg, s.shared, a.t1, a.t2) else s.shared;
    LaterLogOk(cfg, s.shared, s.now, a.t2);
    LaterLogOk(cfg, shared, a.t2, a.t3);
    FaultKeepsWorker(w, a.fault, shared.waitUntil, a.t3);
    WorkerKeepsInv(cfg, s, a.i, AfterFault(w, a.fault, shared.waitUntil, a.t3), shared, a.t3, s.main);
  }

  /** Steps of the loop itself touch no worker. */
  lemma MainStepKeepsInv(cfg: Config, s: State, a: Action)
    requires Inv(cfg, s) && Enabled(s, a)
    requires a.LeaseEnds? || a.LeaseThrows? || a.LeasePaused? || a.Resumed? || a.ResumeThrows? || a.PollAgain? || a.Barrier?
    ensures Inv(cfg, Step(cfg, s, a))
  {
    hide LogOk, WorkersOk;
    LaterLogOk(cfg, s.shared, s.now, a.t);
  }

  /** Every step keeps the invariant, and neither the clock nor the shared wait ever goes back. */
  lemma StepKeepsInv(cfg: Config, s: State, a: Action)
    requires Inv(cfg, s) && Enabled(s, a)
    ensures Inv(cfg, Step(cfg, s, a))
    ensures s.shared.waitUntil <= Step(cfg, s, a).shared.waitUntil
    ensures s.now <= Step(cfg, s, a).now
  {
    match a
    case LeasePage(reading, _, t1, t2, t3, _) =>
      hide LogOk, Inv, Say;
      LeasePageKeepsInv(cfg, s, a);
      SayKeepsCount(cfg, s.shared, ProgressLine(reading, s.shared.answered), t1, t2, t3);
    case Fails(_, _, _, _, _) => hide LogOk, Inv; FailureKeepsInv(cfg, s, a);
    case LeaseEnds(_) | LeaseThrows(_) | LeasePaused(_) | Resumed(_) | ResumeThrows(_) | PollAgain(_) | Barrier(_) =>
      hide LogOk, Inv;
      MainStepKeepsInv(cfg, s, a);
    case _ => hide LogOk, Inv; WorkerStepKeepsInv(cfg, s, a);
  }

  /** The invariant holds in every state of every run. */
  lemma {:induction false} EveryRun(cfg: Config, start: nat, schedule: seq<Action>)
    requires After(cfg, start, schedule).Some?
    ensures Inv(cfg, After(cfg, start, schedule).value)
    decreases |schedule|
  {
    if schedule != [] {
      var n := |schedule| - 1;
      EveryRun(cfg, start, schedule[..n]);
      StepKeepsInv(cfg, After(cfg, start, schedule[..n]).value, schedule[n]);
    }
  }

  // ---- What follows for whole runs ----

  /** No state that may lease has a call in flight, and by then every call has its one answer. */
  lemma LeasesOnlyWhenSettled(cfg: Config, start: nat, schedule: seq<Action>)
    requires After(cfg, start, schedule).Some?
    ensures var s := After(cfg, start, schedule).value;
            s.main.Leasing? || s.main.Done? ==>
              forall p, i :: 0 <= p < |s.pages| && 0 <= i < |s.pages[p]| ==> Returned(s.pages[p][i]) && s.pages[p][i].accepted == 1
  {
    EveryRun(cfg, start, schedule);
    var s := After(cfg, start, schedule).value;
    assert s.pages != [] ==> Current(s) == s.pages[|s.pages| - 1];
  }

  /** No call is ever answered twice, and only a call that returned has been answered. */
  lemma AnsweredOnce(cfg: Config, start: nat, schedule: seq<Action>, p: int, i: int)
    requires After(cfg, start, schedule).Some?
    requires var s := After(cfg, start, schedule).value; 0 <= p < |s.pages| && 0 <= i < |s.pages[p]|
    ensures var w := After(cfg, start, schedule).value.pages[p][i]; w.accepted <= 1 && (w.accepted == 1 <==> Returned(w))
  {
    EveryRun(cfg, start, schedule);
  }

  /** The number reported at the end is the number of answers the server accepted. */
  lemma AnsweredIsAccepted(cfg: Config, start: nat, schedule: seq<Action>)
    requires After(cfg, start, schedule).Some?
    ensures var s := After(cfg, start, schedule).value; s.shared.answered == TotalAnswered(s.pages)
  {
    EveryRun(cfg, start, schedule);
  }

  /** Attempts begun so far. */
  function Attempts(w: Worker): nat {
    |w.faults| + if Abandoned(w) then 0 else 1
  }

  lemma {:induction false} CountsAddUp(faults: seq<Fault>)
    ensures Count(faults, PlanLimit) + Count(faults, Ordinary) == |faults|
  {
    if faults != [] { CountsAddUp(faults[..|faults| - 1]); }
  }

  lemma {:induction false} OnlyLimitsAfter(faults: seq<Fault>, n: nat)
    requires n <= |faults| && forall k :: n <= k < |faults| ==> faults[k].PlanLimit?
    ensures Count(faults, Ordinary) == Count(faults[..n], Ordinary)
    decreases |faults|
  {
    if n < |faults| {
      assert faults[..|faults| - 1][..n] == faults[..n];
      OnlyLimitsAfter(faults[..|faults| - 1], n);
    } else {
      assert faults[..n] == faults;
    }
  }

  /** No call takes more attempts than its plan-limit hits and three. */
  lemma AttemptsBounded(cfg: Config, start: nat, schedule: seq<Action>, p: int, i: int)
    requires After(cfg, start, schedule).Some?
    requires var s := After(cfg, start, schedule).value; 0 <= p < |s.pages| && 0 <= i < |s.pages[p]|
    ensures var w := After(cfg, start, schedule).value.pages[p][i]; Attempts(w) <= Count(w.faults, PlanLimit) + 3
  {
    EveryRun(cfg, start, schedule);
    WorkerAttempts(After(cfg, start, schedule).value.pages[p][i]);
  }

  lemma WorkerAttempts(w: Worker)
    requires WorkerOk(w)
    ensures Attempts(w) <= Count(w.faults, PlanLimit) + RETRIES + 1
    ensures Abandoned(w) ==> Count(w.faults, Ordinary) == RETRIES + 1 - Count(w.faults[..RETRIES], PlanLimit)
  {
    CountsAddUp(w.faults);
    var before := if Abandoned(w) then w.faults[..|w.faults| - 1] else w.faults;
    var n := if |before| <= RETRIES then |before| else RETRIES;
    OnlyLimitsAfter(before, n);
    CountsAddUp(before[..n]);
    if Abandoned(w) { assert before[..RETRIES] == w.faults[..RETRIES]; }
  }

  /**
   An error answer follows at least three attempts, but plan limits among the first two use the
   retries up: the call failed in its own right three times less one for each of those.
   */
  lemma GivenUpAfter(cfg: Config, start: nat, schedule: seq<Action>, p: int, i: int)
    requires After(cfg, start, schedule).Some?
    requires var s := After(cfg, start, schedule).value; 0 <= p < |s.pages| && 0 <= i < |s.pages[p]| && Abandoned(s.pages[p][i])
    ensures var w := After(cfg, start, schedule).value.pages[p][i];
            && |w.faults| >= 3 && w.faults[|w.faults| - 1].Ordinary?
            && Count(w.faults, Ordinary) == 3 - Count(w.faults[..2], PlanLimit)
            && (Count(w.faults, Ordinary) == 3 <==> w.faults[0].Ordinary? && w.faults[1].Ordinary?)
  {
    hide WorkerOk, After, Count, LogOk, PagesSettled, TotalAnswered, Abandoned;
    EveryRun(cfg, start, schedule);
    WorkerGivenUp(After(cfg, start, schedule).value.pages[p][i]);
  }

  lemma WorkerGivenUp(w: Worker)
    requires WorkerOk(w) && Abandoned(w)
    ensures |w.faults| >= 3 && w.faults[|w.faults| - 1].Ordinary?
    ensures Count(w.faults, Ordinary) == 3 - Count(w.faults[..2], PlanLimit)
    ensures Count(w.faults, Ordinary) == 3 <==> w.faults[0].Ordinary? && w.faults[1].Ordinary?
  {
    WorkerAttempts(w);
    FirstTwo(w.faults[0], w.faults[1]);
    assert w.faults[..2] == [w.faults[0], w.faults[1]];
  }

  lemma FirstTwo(f: Fault, g: Fault)
    ensures Count([f, g], PlanLimit) == (if f.PlanLimit? then 1 else 0) + if g.PlanLimit? then 1 else 0
  {
    assert [f, g][..1] == [f] && [f][..0] == [];
    assert Count([f], PlanLimit) == if f.PlanLimit? then 1 else 0;
  }

  /** Over any stretch of a run the shared wait only grows, and it never reaches past one full wait from now. */
  lemma {:induction false} WaitGrows(cfg: Config, start: nat, schedule: seq<Action>, n: nat)
    requires After(cfg, start, schedule).Some? && n <= |schedule|
    ensures After(cfg, start, schedule[..n]).Some?
    ensures var early, late := After(cfg, start, schedule[..n]).value, After(cfg, start, schedule).value;
            && early.shared.waitUntil <= late.shared.waitUntil <= late.now + cfg.limitWaitMs
            && early.now <= late.now
    decreases |schedule|
  {
    EveryRun(cfg, start, schedule);
    if n == |schedule| {
      assert schedule[..n] == schedule;
    } else {
      var m := |schedule| - 1;
      assert schedule[..m][..n] == schedule[..n];
      WaitGrows(cfg, start, schedule[..m], n);
      EveryRun(cfg, start, schedule[..m]);
      StepKeepsInv(cfg, After(cfg, start, schedule[..m]).value, schedule[m]);
    }
  }

  lemma {:induction false} NoticesSpread(notices: seq<Notice>, wait: nat, i: int, j: int)
    requires 0 <= i < j < |notices|
    requires forall k :: 0 <= k < |notices| ==> notices[k].from <= notices[k].to
    requires forall k :: 0 <= k < |notices| - 1 ==> notices[k].to + wait <= notices[k + 1].from
    ensures notices[i].to + wait <= notices[j].from
    decreases j - i
  {
    if i + 1 < j { NoticesSpread(notices, wait, i, j - 1); }
  }

  /** Two plan-limit messages are never logged less than a full wait apart, whoever hits the limit. */
  lemma NoticesApart(cfg: Config, start: nat, schedule: seq<Action>, i: int, j: int)
    requires After(cfg, start, schedule).Some?
    requires 0 <= i < j < |After(cfg, start, schedule).value.shared.notices|
    ensures var notices := After(cfg, start, schedule).value.shared.notices; notices[i].to + cfg.limitWaitMs <= notices[j].from
  {
    EveryRun(cfg, start, schedule);
    NoticesSpread(After(cfg, start, schedule).value.shared.notices, cfg.limitWaitMs, i, j);
  }

  /** Consecutive progress lines keep their distance. */
  lemma LinesApart(cfg: Config, start: nat, schedule: seq<Action>, i: int)
    requires After(cfg, start, schedule).Some?
    requires 0 <= i < |After(cfg, start, schedule).value.shared.printed| - 1
    ensures var printed := After(cfg, start, schedule).value.shared.printed; SpacedOut(cfg, printed[i], printed[i + 1])
  {
    EveryRun(cfg, start, schedule);
  }

  lemma {:induction false} ThrowingCrashes(cfg: Config, start: nat, schedule: seq<Action>)
    requires After(cfg, start, schedule).Some?
    ensures CrashedIfThrown(After(cfg, start, schedule).value)
    decreases |schedule|
  {
    if schedule != [] {
      var before, a := schedule[..|schedule| - 1], schedule[|schedule| - 1];
      hide CrashedIfThrown, Step, Enabled;
      ThrowingCrashes(cfg, start, before);
      StepCrashes(cfg, After(cfg, start, before).value, a);
    }
  }

  ghost predicate CrashedIfThrown(s: State) {
    s.main.Crashed? || forall i :: 0 <= i < |Current(s)| ==> !Current(s)[i].phase.Threw?
  }

  lemma StepCrashes(cfg: Config, s: State, a: Action)
    requires Enabled(s, a) && CrashedIfThrown(s)
    ensures CrashedIfThrown(Step(cfg, s, a))
  {
    var r := Step(cfg, s, a);
    if a.LeasePage? && a.calls > 0 {
      assert Current(r) == Fresh(r.shared.waitUntil, a.starts);
    } else if a.Wake? || a.RunAnswers? || a.Fails? || a.PostAccepted? || a.ErrorAccepted? {
      assert forall j :: 0 <= j < |Current(s)| && j != a.i ==> Current(r)[j] == Current(s)[j];
      assert !Current(r)[a.i].phase.Threw?;
    } else if !a.ErrorRefused? {
      assert Current(r) == Current(s);
    }
  }

  /** No run gets stuck: until it is done or has thrown there is always a step that can come next. */
  lemma NeverStuck(cfg: Config, start: nat, schedule: seq<Action>)
    requires After(cfg, start, schedule).Some?
    ensures var s := After(cfg, start, schedule).value; s.main.Done? || s.main.Crashed? || exists a :: Enabled(s, a)
  {
    ThrowingCrashes(cfg, start, schedule);
    var s := After(cfg, start, schedule).value;
    hide After;
    if s.main.Leasing? { assert Enabled(s, LeaseEnds(s.now)); }
    if s.main.Resuming? { assert Enabled(s, Resumed(s.now)); }
    if s.main.Pausing? { assert Enabled(s, PollAgain(s.now)); }
    if s.main.Working? {
      if AllReturned(Current(s)) {
        assert Enabled(s, Barrier(s.now));
      } else {
        var i: nat :| i < |Current(s)| && !Returned(Current(s)[i]);
        WorkerGoesOn(s, i);
      }
    }
  }

  lemma WorkerGoesOn(s: State, i: nat)
    requires i < |Current(s)| && !Returned(Current(s)[i]) && !Current(s)[i].phase.Threw?
    ensures exists a :: Enabled(s, a)
  {
    match Current(s)[i].phase
    case Sleeping(until) => assert Enabled(s, Wake(i, if s.now < until then until else s.now));
    case Calling => assert Enabled(s, RunAnswers(i, s.now));
    case Posting => assert Enabled(s, PostAccepted(i, s.now));
    case PostingError => assert Enabled(s, ErrorAccepted(i, s.now));
  }

  /** A step of one of the calls in flight. */
  predicate IsCallStep(a: Action) {
    a.Wake? || a.RunAnswers? || a.Fails? || a.PostAccepted? || a.ErrorAccepted? || a.ErrorRefused?
  }

  /**
   How the loop goes on: it leases after a poll's pause or the barrier and at no other time, pauses after
   an empty page or a resume, ends when the server says so, and throws when the server, a resume or a
   refused error does. A call's step moves the loop only when it throws.
   */
  lemma LoopTurns(cfg: Config, s: State, a: Action)
    requires Enabled(s, a)
    ensures var r := Step(cfg, s, a).main; var stays := IsCallStep(a) && !a.ErrorRefused?;
            && (r == Leasing <==> a.PollAgain? || a.Barrier? || (stays && s.main == Leasing))
            && (r == Resuming <==> a.LeasePaused? || (stays && s.main == Resuming))
            && (r == Pausing <==> a.Resumed? || (a.LeasePage? && a.calls == 0) || (stays && s.main == Pausing))
            && (r == Working <==> (a.LeasePage? && a.calls > 0) || (stays && s.main == Working))
            && (r == Done <==> a.LeaseEnds? || (stays && s.main == Done))
            && (r == Crashed <==> a.LeaseThrows? || a.ResumeThrows? || a.ErrorRefused? || (stays && s.main == Crashed))
  {
  }

  /** A run that is done was told so by the server with its last step, and is over. */
  lemma DoneAtTheEnd(cfg: Config, start: nat, schedule: seq<Action>)
    requires After(cfg, start, schedule).Some? && After(cfg, start, schedule).value.main.Done?
    ensures schedule != [] && schedule[|schedule| - 1].LeaseEnds?
    ensures forall a :: !Enabled(After(cfg, start, schedule).value, a)
  {
    LeasesOnlyWhenSettled(cfg, start, schedule);
    var s, n := After(cfg, start, schedule).value, |schedule| - 1;
    if schedule != [] {
      var before := After(cfg, start, schedule[..n]).value;
      LoopTurns(cfg, before, schedule[n]);
      if before.main.Done? { DoneIsOver(cfg, start, schedule[..n], schedule[n]); }
    }
    forall a
      ensures !Enabled(s, a)
    {
      DoneIsOver(cfg, start, schedule, a);
    }
  }

  lemma DoneIsOver(cfg: Config, start: nat, schedule: seq<Action>, a: Action)
    requires After(cfg, start, schedule).Some? && After(cfg, start, schedule).value.main.Done?
    ensures !Enabled(After(cfg, start, schedule).value, a)
  {
    var s := After(cfg, start, schedule).value;
    LeasesOnlyWhenSettled(cfg, start, schedule);
    hide After;
    assert s.pages != [] ==> Current(s) == s.pages[|s.pages| - 1];
    assert forall i :: 0 <= i < |Current(s)| ==> Returned(Current(s)[i]);
  }

  // ---- Runs that show the limits of the protocol ----

  lemma Extend(cfg: Config, start: nat, schedule: seq<Action>, a: Action)
    requires After(cfg, start, schedule).Some? && Enabled(After(cfg, start, schedule).value, a)
    ensures After(cfg, start, schedule + [a]) == Some(Step(cfg, After(cfg, start, schedule).value, a))
  {
    assert (schedule + [a])[..|schedule|] == schedule;
  }

  ghost predicate OneCall(s: State, phase: Phase, faults: seq<Fault>, waitUntil: int) {
    |s.pages| == 1 && |s.pages[0]| == 1 && s.pages[0][0].phase == phase && s.pages[0][0].faults == faults
    && s.shared.waitUntil == waitUntil <= s.now
  }

  ghost predicate OneCallGivenUp(s: State) {
    |s.pages| == 1 && |s.pages[0]| == 1 && s.pages[0][0].phase.GaveUp?
    && s.pages[0][0].faults == [PlanLimit, PlanLimit, Ordinary]
  }

  /** The only call hits the limit, sleeps the whole wait and calls again. */
  lemma LimitAndWake(cfg: Config, schedule: seq<Action>, faults: seq<Fault>, waitUntil: int) returns (longer: seq<Action>)
    requires cfg.limitWaitMs > 0
    requires After(cfg, 0, schedule).Some? && OneCall(After(cfg, 0, schedule).value, Calling, faults, waitUntil)
    ensures var t := After(cfg, 0, schedule).value.now + cfg.limitWaitMs;
            After(cfg, 0, longer).Some? && OneCall(After(cfg, 0, longer).value, Calling, faults + [PlanLimit], t)
  {
    var t := After(cfg, 0, schedule).value.now;
    var fail, wake := Fails(0, PlanLimit, t, t, t), Wake(0, t + cfg.limitWaitMs);
    Extend(cfg, 0, schedule, fail);
    Extend(cfg, 0, schedule + [fail], wake);
    longer := schedule + [fail] + [wake];
  }

  /** A call can be given up after failing once in its own right: two plan limits count as its retries. */
  lemma GivenUpAfterOneFailure(cfg: Config)
    requires cfg.limitWaitMs > 0
    ensures exists schedule :: After(cfg, 0, schedule).Some? && OneCallGivenUp(After(cfg, 0, schedule).value)
  {
    var lease := LeasePage(None, 1, 0, 0, 0, [0]);
    Extend(cfg, 0, [], lease);
    var schedule := LimitAndWake(cfg, [] + [lease], [], 0);
    schedule := LimitAndWake(cfg, schedule, [] + [PlanLimit], After(cfg, 0, schedule).value.shared.waitUntil);
    var t := After(cfg, 0, schedule).value.now;
    var fail, posted := Fails(0, Ordinary, t, t, t), ErrorAccepted(0, t);
    Extend(cfg, 0, schedule, fail);
    Extend(cfg, 0, schedule + [fail], posted);
    schedule := schedule + [fail] + [posted];
  }
}
