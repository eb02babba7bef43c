/**
 What a backfill prints, over every run (apps/cli/src/backfill.js:97-114 and 123-128): a line that is due
 is printed, one that is not is held back, and nothing else prints.
 */
module BackfillSays {
  import opened Options
  import opened Backfill
  import opened BackfillLaws
  import opened BackfillWaits

  // ---- Progress lines ----

  /** The line a reading of the server and the number of answers call for. */
  ghost predicate Tells(reading: Option<Reading>, answered: nat, line: Line) {
    match line
    case WrappingUp => reading.Some? && reading.value.finished
    case ReadOf(done, total) =>
      reading.Some? && !reading.value.finished && total > 0 && reading.value.done == done && reading.value.total == total
    case ReadsDone(n) => Unread(reading) && answered == n > 0
    case Pulling => Unread(reading) && answered == 0
  }

  ghost predicate Unread(reading: Option<Reading>) {
    reading.None? || (!reading.value.finished && reading.value.total == 0)
  }

  /** There is always a line, and never two. */
  lemma ProgressLineTells(reading: Option<Reading>, answered: nat, line: Line)
    ensures Tells(reading, answered, line) <==> line == ProgressLine(reading, answered)
  {
  }

  /** Nothing was printed yet, or not too lately: a second ago, and longer for what was printed last. */
  ghost predicate Due(cfg: Config, printed: seq<Printed>, line: Line, t1: int, t2: int) {
    printed == [] ||
    var last := printed[|printed| - 1];
    && (last.line != line || t1 - last.at >= cfg.progressMs)
    && (t2 - last.at >= cfg.progressMs || t2 - last.at >= 1000)
  }

  /** A page's line is printed, at the time of printing, exactly when it is due by what was printed before. */
  lemma LineIsPrintedWhenDue(cfg: Config, start: nat, schedule: seq<Action>, a: Action)
    requires After(cfg, start, schedule + [a]).Some? && a.LeasePage?
    ensures After(cfg, start, schedule).Some?
    ensures var before, after := After(cfg, start, schedule).value.shared, After(cfg, start, schedule + [a]).value.shared;
            exists line :: Tells(a.reading, before.answered, line)
              && after.printed == if Due(cfg, before.printed, line, a.t1, a.t2) then before.printed + [Printed(line, a.t3)] else before.printed
  {
    LastStep(cfg, start, schedule, a);
    EveryRun(cfg, start, schedule);
    var s := After(cfg, start, schedule).value;
    InvLog(cfg, s);
    var line := ProgressLine(a.reading, s.shared.answered);
    ProgressLineTells(a.reading, s.shared.answered, line);
    SaidWhenDue(cfg, s.shared, s.now, line, a.t1, a.t2, a.t3);
  }

  lemma SaidWhenDue(cfg: Config, s: Shared, now: int, line: Line, t1: int, t2: int, t3: int)
    requires LogOk(cfg, s, now)
    ensures Say(cfg, s, line, t1, t2, t3).printed == if Due(cfg, s.printed, line, t1, t2) then s.printed + [Printed(line, t3)] else s.printed
  {
  }

  /** No other step prints a progress line. */
  lemma OnlyPagesPrint(cfg: Config, s: State, a: Action)
    requires Enabled(s, a) && !a.LeasePage?
    ensures Step(cfg, s, a).shared.printed == s.shared.printed
  {
  }

  lemma LastStep(cfg: Config, start: nat, schedule: seq<Action>, a: Action)
    requires After(cfg, start, schedule + [a]).Some?
    ensures After(cfg, start, schedule).Some? && Enabled(After(cfg, start, schedule).value, a)
    ensures After(cfg, start, schedule + [a]).value == Step(cfg, After(cfg, start, schedule).value, a)
  {
    assert (schedule + [a])[..|schedule|] == schedule;
  }

  // ---- Plan-limit notices ----

  /** A hit is announced exactly when no earlier hit's wait is still on; nothing else announces. */
  lemma NoticeWhenNoneIsOn(cfg: Config, start: nat, schedule: seq<Action>, a: Action)
    requires After(cfg, start, schedule + [a]).Some?
    ensures After(cfg, start, schedule).Some?
    ensures var before, after := After(cfg, start, schedule).value.shared, After(cfg, start, schedule + [a]).value.shared;
            after.notices == if a.Fails? && a.fault.PlanLimit? && !SomeHitReaches(cfg, schedule, a.t1)
                             then before.notices + [Notice(a.t1, a.t2)] else before.notices
  {
    LastStep(cfg, start, schedule, a);
    if a.Fails? && a.fault.PlanLimit? {
      WaitGrows(cfg, start, schedule, 0);
      WaitIsItsHits(cfg, start, schedule, a.t1);
    }
  }
}
