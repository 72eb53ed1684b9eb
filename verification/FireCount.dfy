/** How often a rule fires, under every interleaving of the evaluations that hold it. */
module FireCount {
  import opened SbcAp
  import opened Store
  import opened Rules
  import opened Engine
  import opened EngineInvariant

  lemma {:induction false} SubsetSize(a: set<nat>, b: set<nat>)
    requires a <= b
    ensures |a| <= |b|
  {
    if a != {} {
      var x :| x in a;
      SubsetSize(a - {x}, b - {x});
    }
  }

  /** The evaluations between their snapshot and their increment that hold rule `r`. */
  function Window(s: State, r: nat): set<nat> {
    set c | c in s.tasks && s.tasks[c].phase.Chosen? && s.tasks[c].phase.rule.id == r
  }

  /** The counter and the evaluations still to increment it, together. */
  ghost predicate Bounded(s: State, r: nat, n: nat) {
    r in s.db.rules ==>
      && (s.db.rules[r].spec.count > 0 ==> s.db.rules[r].fired + |Window(s, r)| <= s.db.rules[r].spec.count - 1 + n)
      && (s.db.rules[r].spec.count < 0 ==> s.db.rules[r].fired == 0 && Window(s, r) == {})
  }

  /** Only a snapshot adds an evaluation to a window, and an increment takes its own away. */
  lemma WindowStep(codec: Codec, s: State, a: Step, r: nat)
    ensures var w := Window(Do(codec, s, a), r);
      || w <= Window(s, r)
      || (a.Snapshot? && Enabled(s, a) && w <= Window(s, r) + {a.c}
          && Rules.Chosen(s.db, s.tasks[a.c].phase.msg).Some?
          && Rules.Chosen(s.db, s.tasks[a.c].phase.msg).value.id == r)
  {
  }

  lemma IncrementLeaves(codec: Codec, s: State, c: nat)
    requires Enabled(s, Increment(c))
    ensures var r := s.tasks[c].phase.rule.id;
      c in Window(s, r) && Window(Do(codec, s, Increment(c)), r) == Window(s, r) - {c}
  {
  }

  /** Rows, sessions, peers and phases do not touch the rules. */
  lemma RulesKept(codec: Codec, s: State, a: Step)
    requires !a.CreateRule? && !a.RemoveRule? && !a.RemoveAllRules? && !a.Reset? && !a.Increment?
    ensures Do(codec, s, a).db.rules == s.db.rules
  {
  }

  /** Nothing but an increment by an evaluation that holds it moves the counter of a rule. */
  lemma CounterStep(codec: Codec, s: State, a: Step, r: nat)
    requires Valid(s.db) && r in s.db.rules && r in Do(codec, s, a).db.rules
    ensures var (db, db') := (s.db, Do(codec, s, a).db);
      if a.Increment? && Enabled(s, a) && s.tasks[a.c].phase.rule.id == r
      then db'.rules[r] == db.rules[r].(fired := db.rules[r].fired + 1)
      else db'.rules[r] == db.rules[r]
  {
    if !a.CreateRule? && !a.RemoveRule? && !a.RemoveAllRules? && !a.Reset? && !a.Increment? {
      RulesKept(codec, s, a);
    }
  }

  /** A rule that was not there has just been created, and nothing else has changed. */
  lemma NewRule(codec: Codec, s: State, a: Step, r: nat)
    requires r !in s.db.rules && r in Do(codec, s, a).db.rules
    ensures a.CreateRule? && r == s.db.lastRule + 1 && Do(codec, s, a) == s.(db := SaveRule(s.db, a.spec))
  {
  }

  /** A rule just created is held by nobody. */
  lemma FreshRule(codec: Codec, s: State, a: Step, r: nat)
    requires Inv(codec, s) && r !in s.db.rules && r in Do(codec, s, a).db.rules
    ensures Do(codec, s, a).db.rules[r].fired == 0 && Window(Do(codec, s, a), r) == {}
  {
    NewRule(codec, s, a, r);
    HeldRules(codec, s);
  }

  lemma KeptBounded(codec: Codec, s: State, a: Step, r: nat, n: nat)
    requires Inv(codec, s) && Bounded(s, r, n) && |Window(Do(codec, s, a), r)| <= n
    requires r in s.db.rules && r in Do(codec, s, a).db.rules
    requires !(a.Increment? && Enabled(s, a) && s.tasks[a.c].phase.rule.id == r)
    ensures Bounded(Do(codec, s, a), r, n)
  {
    CounterStep(codec, s, a, r);
    WindowStep(codec, s, a, r);
    if Window(Do(codec, s, a), r) <= Window(s, r) {
      SubsetSize(Window(Do(codec, s, a), r), Window(s, r));
    } else {
      ChosenIsLowest(s.db, s.tasks[a.c].phase.msg);
    }
  }

  lemma CountedBounded(codec: Codec, s: State, c: nat, r: nat, n: nat)
    requires Valid(s.db) && Bounded(s, r, n) && r in s.db.rules
    requires Enabled(s, Increment(c)) && s.tasks[c].phase.rule.id == r
    ensures Bounded(Do(codec, s, Increment(c)), r, n)
  {
    IncrementLeaves(codec, s, c);
  }

  lemma StepBounded(codec: Codec, s: State, a: Step, r: nat, n: nat)
    requires Inv(codec, s) && Bounded(s, r, n) && |Window(Do(codec, s, a), r)| <= n
    ensures Bounded(Do(codec, s, a), r, n)
  {
    if r in Do(codec, s, a).db.rules {
      if r !in s.db.rules {
        FreshRule(codec, s, a, r);
      } else if a.Increment? && Enabled(s, a) && s.tasks[a.c].phase.rule.id == r {
        CountedBounded(codec, s, a.c, r, n);
      } else {
        KeptBounded(codec, s, a, r, n);
      }
    }
  }

  /** At no time of the run are more than `n` evaluations of rule `r` between snapshot and increment. */
  ghost predicate AtMost(codec: Codec, session: string, schedule: seq<Step>, r: nat, n: nat) {
    forall i :: 0 <= i <= |schedule| ==> |Window(At(codec, Init(session), schedule, i), r)| <= n
  }

  lemma NextBounded(codec: Codec, session: string, schedule: seq<Step>, r: nat, n: nat, k: nat)
    requires k < |schedule| && |Window(At(codec, Init(session), schedule, k + 1), r)| <= n
    requires Bounded(At(codec, Init(session), schedule, k), r, n)
    ensures Bounded(At(codec, Init(session), schedule, k + 1), r, n)
  {
    AlwaysInv(codec, session, schedule[..k]);
    AtStep(codec, Init(session), schedule, k);
    StepBounded(codec, At(codec, Init(session), schedule, k), schedule[k], r, n);
  }

  lemma {:induction false} RunBounded(codec: Codec, session: string, schedule: seq<Step>, r: nat, n: nat, k: nat)
    requires k <= |schedule| && AtMost(codec, session, schedule, r, n)
    ensures Bounded(At(codec, Init(session), schedule, k), r, n)
  {
    if k > 0 {
      RunBounded(codec, session, schedule, r, n, k - 1);
      NextBounded(codec, session, schedule, r, n, k - 1);
    }
  }

  /**
   * The fire-count bound: with at most `n` evaluations in the window at once, a rule with a positive count never fires
   * more than count + n - 1 times, and a rule with a negative count never fires.
   */
  lemma FireBound(codec: Codec, session: string, schedule: seq<Step>, r: nat, n: nat)
    requires AtMost(codec, session, schedule, r, n)
    requires r in Exec(codec, Init(session), schedule).db.rules
    ensures var rule := Exec(codec, Init(session), schedule).db.rules[r];
      && (rule.spec.count > 0 ==> rule.fired <= rule.spec.count + n - 1)
      && (rule.spec.count < 0 ==> rule.fired == 0)
  {
    RunBounded(codec, session, schedule, r, n, |schedule|);
    assert schedule[..|schedule|] == schedule;
  }

  // ----- connections as the bound

  /** Only connections numbered below `n` are opened. */
  predicate OpensBelow(schedule: seq<Step>, n: nat) {
    forall i :: 0 <= i < |schedule| && schedule[i].Open? ==> schedule[i].c < n
  }

  lemma {:induction false} TasksBelow(codec: Codec, session: string, schedule: seq<Step>, n: nat)
    requires OpensBelow(schedule, n)
    ensures forall c :: c in Exec(codec, Init(session), schedule).tasks ==> c < n
  {
    if schedule != [] {
      TasksBelow(codec, session, schedule[..|schedule| - 1], n);
      var m := Exec(codec, Init(session), schedule[..|schedule| - 1]);
      forall c | c in Exec(codec, Init(session), schedule).tasks ensures c < n {
        StepTasks(codec, m, schedule[|schedule| - 1], c);
      }
    }
  }

  lemma {:induction false} NumbersBelow(a: set<nat>, n: nat)
    requires forall x :: x in a ==> x < n
    ensures |a| <= n
  {
    if n == 0 {
      assert a == {};
    } else {
      NumbersBelow(a - {n - 1}, n - 1);
    }
  }

  lemma ConnectionsAtMost(codec: Codec, session: string, schedule: seq<Step>, r: nat, n: nat)
    requires OpensBelow(schedule, n)
    ensures AtMost(codec, session, schedule, r, n)
  {
    forall i | 0 <= i <= |schedule|
      ensures |Window(At(codec, Init(session), schedule, i), r)| <= n
    {
      TasksBelow(codec, session, schedule[..i], n);
      NumbersBelow(Window(At(codec, Init(session), schedule, i), r), n);
    }
  }

  /** With at most `n` connections; a single connection keeps every rule within its count. */
  lemma FireBoundByConnections(codec: Codec, session: string, schedule: seq<Step>, r: nat, n: nat)
    requires OpensBelow(schedule, n)
    requires r in Exec(codec, Init(session), schedule).db.rules
    ensures var rule := Exec(codec, Init(session), schedule).db.rules[r];
      && (rule.spec.count > 0 ==> rule.fired <= rule.spec.count + n - 1)
      && (rule.spec.count < 0 ==> rule.fired == 0)
  {
    ConnectionsAtMost(codec, session, schedule, r, n);
    FireBound(codec, session, schedule, r, n);
  }
}
