/**
 The closures of `runBackfill` and the fold of `parseAnswer` in their own form
 (apps/cli/src/backfill.js:43-59 and 110-131): variables updated in place, each block tied to the
 step of `Backfill` it is.
 */
module BackfillClosure {
  import opened Options
  import opened Backfill

  /** The variables `runBackfill` shares with its workers, and the log they led to. */
  class Closure {
    const cfg: Config
    var waitUntil: int
    var answered: nat
    var lastLine: Option<Line>
    var lastAt: Option<int>
    var printed: seq<Printed>
    var notices: seq<Notice>

    ghost function View(): Shared
      reads this
    {
      Shared(waitUntil, answered, lastLine, lastAt, printed, notices)
    }

    constructor (cfg: Config)
      ensures this.cfg == cfg && View() == Init(0).shared
    {
      this.cfg := cfg;
      waitUntil, answered, lastLine, lastAt := 0, 0, None, None;
      printed, notices := [], [];
    }

    /** `say`; `t1`, `t2` and `t3` are its three readings of the clock. */
    method Announce(line: Line, t1: int, t2: int, t3: int)
      modifies this
      ensures View() == Say(cfg, old(View()), line, t1, t2, t3)
    {
      if lastAt.Some? && lastLine == Some(line) && t1 - lastAt.value < cfg.progressMs { return; }
      if lastAt.Some? && t2 - lastAt.value < Least(cfg.progressMs, 1000) { return; }
      lastLine := Some(line);
      lastAt := Some(t3);
      printed := printed + [Printed(line, t3)];
    }

    /** The plan-limit branch of the catch block. */
    method OnPlanLimit(t1: int, t2: int)
      modifies this
      ensures View() == HitLimit(cfg, old(View()), t1, t2)
    {
      if t1 >= waitUntil { notices := notices + [Notice(t1, t2)]; }
      if waitUntil < t2 + cfg.limitWaitMs { waitUntil := t2 + cfg.limitWaitMs; }
    }

    /** The server took an answer. */
    method OnAccepted()
      modifies this
      ensures View() == old(View()).(answered := old(answered) + 1)
    {
      answered := answered + 1;
    }

    /**
     The end of an attempt, with the clock's readings from there to the next await: the worker returns,
     or the catch block ends in another attempt, a sleep or an error answer. `attempt` is the loop's counter.
     */
    method AttemptEnds(w: Worker, attempt: nat, fault: Option<Fault>, t1: int, t2: int, t3: int) returns (after: Worker)
      requires attempt == |w.faults|
      modifies this
      ensures fault.None? ==> View() == old(View()).(answered := old(answered) + 1)
      ensures fault.None? ==> after == w.(phase := Answered, accepted := w.accepted + 1)
      ensures fault == Some(PlanLimit) ==> View() == HitLimit(cfg, old(View()), t1, t2)
      ensures fault == Some(Ordinary) ==> View() == old(View())
      ensures fault.Some? ==> after == AfterFault(w, fault.value, waitUntil, t3)
    {
      match fault
      case None =>
        OnAccepted();
        return w.(phase := Answered, accepted := w.accepted + 1);
      case Some(f) =>
        var faults := w.faults + [f];
        if f.PlanLimit? {
          OnPlanLimit(t1, t2);
        } else if attempt >= RETRIES {
          return w.(phase := PostingError, faults := faults);
        }
        if t3 < waitUntil { return w.(phase := Sleeping(waitUntil), faults := faults); }
        return w.(phase := Calling, faults := faults);
    }
  }

  // ---- Reading Codex's output ----

  datatype Usage = Usage(input: nat, output: nat)

  /** A line of output: not JSON, the JSON null, or an event that may hold a message and token counts. */
  datatype OutputLine = NotJson | JsonNull | Event(message: Option<string>, usage: Option<Usage>)

  datatype Parsed = Answer(text: string, usage: Usage) | NoAnswer | NotAnObject

  ghost predicate LastMessage(lines: seq<OutputLine>, text: string) {
    || (text == "" && forall k :: 0 <= k < |lines| && lines[k].Event? ==> lines[k].message.None?)
    || exists i :: 0 <= i < |lines| && lines[i].Event? && lines[i].message == Some(text)
         && forall k :: i < k < |lines| && lines[k].Event? ==> lines[k].message.None?
  }

  ghost predicate LastUsage(lines: seq<OutputLine>, usage: Usage) {
    || (usage == Usage(0, 0) && forall k :: 0 <= k < |lines| && lines[k].Event? ==> lines[k].usage.None?)
    || exists i :: 0 <= i < |lines| && lines[i].Event? && lines[i].usage == Some(usage)
         && forall k :: i < k < |lines| && lines[k].Event? ==> lines[k].usage.None?
  }

  /** The answer is the last message and the usage the last one counted; a null line is an error. */
  method ParseCodex(lines: seq<OutputLine>) returns (r: Parsed)
    ensures r.NotAnObject? <==> JsonNull in lines
    ensures r.Answer? ==> r.text != "" && LastMessage(lines, r.text) && LastUsage(lines, r.usage)
    ensures r.NoAnswer? ==> LastMessage(lines, "")
  {
    hide LastMessage, LastUsage;
    var text, usage := "", Usage(0, 0);
    NothingRead();
    for i := 0 to |lines|
      invariant JsonNull !in lines[..i]
      invariant LastMessage(lines[..i], text) && LastUsage(lines[..i], usage)
    {
      assert lines[..i + 1] == lines[..i] + [lines[i]];
      OneMoreLine(lines[..i], lines[i], text, usage);
      match lines[i]
      case NotJson =>
      case JsonNull => return NotAnObject;
      case Event(message, counted) =>
        if message.Some? { text := message.value; }
        if counted.Some? { usage := counted.value; }
    }
    assert lines[..|lines|] == lines;
    r := if text == "" then NoAnswer else Answer(text, usage);
  }

  lemma NothingRead()
    ensures LastMessage([], "") && LastUsage([], Usage(0, 0))
  {
  }

  /** A line that says nothing leaves both as they were; one that speaks or counts becomes the last. */
  lemma OneMoreLine(lines: seq<OutputLine>, line: OutputLine, text: string, usage: Usage)
    requires LastMessage(lines, text) && LastUsage(lines, usage)
    ensures LastMessage(lines + [line], if line.Event? && line.message.Some? then line.message.value else text)
    ensures LastUsage(lines + [line], if line.Event? && line.usage.Some? then line.usage.value else usage)
  {
    var after := lines + [line];
    assert after[|lines|] == line && forall k :: 0 <= k < |lines| ==> after[k] == lines[k];
  }
}
