/** sctp_server.py: what a cancelled handler still does. */
module Cancellation {
  import opened Wrappers
  import opened SbcAp
  import opened Engine
  import opened EngineInvariant

  /** A cancelled connection is where it was, or has ended. */
  ghost predicate Ended(t: Task, u: Task) {
    && u.cancelled && t.log <= u.log && t.arrivals == u.arrivals
    && ((u.phase == t.phase && u.log == t.log) || (u.phase.Closed? && |u.log| <= |t.log| + 1))
  }

  /** With the store call or the send that it was awaiting, a cancelled connection ends. */
  lemma CancelledStep(codec: Codec, s: State, a: Step, c: nat)
    requires c in s.tasks && s.tasks[c].cancelled && !s.tasks[c].phase.Closed?
    ensures c in Do(codec, s, a).tasks && Ended(s.tasks[c], Do(codec, s, a).tasks[c])
    ensures TaskOf(a) == Some(c) && Enabled(s, a) && !a.Cancel? ==> Do(codec, s, a).tasks[c].phase.Closed?
  {
  }

  lemma ClosedStep(codec: Codec, s: State, a: Step, c: nat)
    requires c in s.tasks && s.tasks[c].phase.Closed?
    ensures c in Do(codec, s, a).tasks && Do(codec, s, a).tasks[c] == s.tasks[c]
  {
  }

  /**
   * Whatever happens after a cancellation, the connection receives nothing more and saves at most one more row, the one
   * it was awaiting; and once it has done anything it has ended.
   */
  lemma {:induction false} CancelledRun(codec: Codec, s: State, schedule: seq<Step>, c: nat)
    requires c in s.tasks && s.tasks[c].cancelled && !s.tasks[c].phase.Closed?
    ensures c in Exec(codec, s, schedule).tasks && Ended(s.tasks[c], Exec(codec, s, schedule).tasks[c])
  {
    if schedule != [] {
      var before := Exec(codec, s, schedule[..|schedule| - 1]);
      CancelledRun(codec, s, schedule[..|schedule| - 1], c);
      if before.tasks[c].phase.Closed? {
        ClosedStep(codec, before, schedule[|schedule| - 1], c);
      } else {
        CancelledStep(codec, before, schedule[|schedule| - 1], c);
      }
    }
  }

  /** A cancellation is remembered; it interrupts nothing by itself. */
  lemma CancelMarks(codec: Codec, s: State, c: nat)
    requires c in s.tasks && !s.tasks[c].phase.Closed?
    ensures Do(codec, s, Cancel(c)) == s.(tasks := s.tasks[c := s.tasks[c].(cancelled := true)])
  {
  }

  /** An idle connection, or a cancelled one, can be closed at any time; its log stays. */
  lemma CloseEnds(codec: Codec, s: State, c: nat)
    requires c in s.tasks && !s.tasks[c].phase.Closed? && (s.tasks[c].phase.Idle? || s.tasks[c].cancelled)
    ensures var t := Do(codec, s, Close(c));
      c in t.tasks && t.tasks[c].phase.Closed? && t.tasks[c].log == s.tasks[c].log && t.db == s.db
  {
  }

  /** A failure ends the handling of the message, not the connection. */
  lemma FailReturns(codec: Codec, s: State, c: nat)
    requires c in s.tasks && !s.tasks[c].phase.Closed? && !s.tasks[c].phase.Idle? && !s.tasks[c].cancelled
    ensures var t := Do(codec, s, Fail(c));
      c in t.tasks && t.tasks[c].phase.Idle? && t.tasks[c].log == s.tasks[c].log && t.db == s.db
  {
  }
}
