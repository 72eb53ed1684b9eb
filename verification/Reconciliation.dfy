/** Counters against the log, and counters against the increments performed. */
module Reconciliation {
  import opened Wrappers
  import opened SbcAp
  import opened Store
  import opened Rules
  import opened Engine
  import opened EngineInvariant
  import opened FireCount

  /** The outbound rows that name rule `r`. */
  function RowsOf(s: State, r: nat): set<nat> {
    set id | id in s.db.messages && s.db.messages[id].f.ruleId == Some(r)
  }

  predicate IsPending(t: Task, r: nat) {
    (t.phase.Replying? || t.phase.Sent? || t.phase.Logging?) && t.phase.rule.id == r
  }

  /** The evaluations of rule `r` past their increment and before their row is saved. */
  function PendingOf(s: State, r: nat): set<nat> {
    set c | c in s.tasks && IsPending(s.tasks[c], r)
  }

  ghost predicate RowRules(db: Db) {
    forall id :: id in db.messages && db.messages[id].f.ruleId.Some? ==> db.messages[id].f.ruleId.value <= db.lastRule
  }

  ghost predicate Reconciled(s: State, r: nat) {
    r in s.db.rules ==> |RowsOf(s, r)| + |PendingOf(s, r)| <= s.db.rules[r].fired
  }

  lemma SavedRule(codec: Codec, s: State, a: Step)
    requires Inv(codec, s) && Enabled(s, a) && (a.LogInbound? || a.LogReply? || a.LogManual?)
    ensures var f := if a.LogManual? then ManualFields(codec, a.raw, a.session, a.seconds, a.microseconds)
                     else s.tasks[a.c].phase.fields;
      && Do(codec, s, a).db == SaveMessage(s.db, f)
      && f.ruleId == (if a.LogReply? then Some(s.tasks[a.c].phase.rule.id) else None)
      && (a.LogReply? ==> s.tasks[a.c].phase.rule.id <= s.db.lastRule)
  {
    if !a.LogManual? {
      assert TaskOk(codec, s.db, s.tasks[a.c]);
    }
  }

  lemma StepRowRules(codec: Codec, s: State, a: Step)
    requires Inv(codec, s) && RowRules(s.db)
    ensures RowRules(Do(codec, s, a).db)
  {
    if Enabled(s, a) && (a.LogInbound? || a.LogReply? || a.LogManual?) {
      SavedRule(codec, s, a);
    }
  }

  lemma RowStep(codec: Codec, s: State, a: Step, r: nat, id: nat)
    requires Inv(codec, s) && id in RowsOf(Do(codec, s, a), r)
    ensures id in RowsOf(s, r) || (LogsRule(s, a, r) && id == s.db.lastMessage + 1)
  {
    if Enabled(s, a) && (a.LogInbound? || a.LogReply? || a.LogManual?) {
      SavedRule(codec, s, a);
    }
  }

  /** The rows of a rule grow by one when its reply is logged, and never otherwise. */
  lemma RowsStep(codec: Codec, s: State, a: Step, r: nat)
    requires Inv(codec, s)
    ensures RowsOf(Do(codec, s, a), r) <=
      RowsOf(s, r) + if LogsRule(s, a, r) then {s.db.lastMessage + 1} else {}
  {
    forall id | id in RowsOf(Do(codec, s, a), r)
      ensures id in RowsOf(s, r) || (LogsRule(s, a, r) && id == s.db.lastMessage + 1)
    {
      RowStep(codec, s, a, r, id);
    }
  }

  lemma PendingTask(codec: Codec, s: State, a: Step, r: nat, c: nat)
    requires c in PendingOf(Do(codec, s, a), r)
    ensures (c in PendingOf(s, r) && !(LogsRule(s, a, r) && a.c == c)) || (IncrementsRule(s, a, r) && a.c == c)
  {
    StepTasks(codec, s, a, c);
    if TaskOf(a) != Some(c) {
      if c in s.tasks {
        OtherTasks(codec, s, a, c);
      }
    }
  }

  /** An evaluation becomes pending by its increment and stops with its row. */
  lemma PendingStep(codec: Codec, s: State, a: Step, r: nat)
    ensures var p := PendingOf(Do(codec, s, a), r);
      if IncrementsRule(s, a, r) then p <= PendingOf(s, r) + {a.c}
      else if LogsRule(s, a, r) then
        a.c in PendingOf(s, r) && p <= PendingOf(s, r) - {a.c}
      else p <= PendingOf(s, r)
  {
    forall c | c in PendingOf(Do(codec, s, a), r)
      ensures (c in PendingOf(s, r) && !(LogsRule(s, a, r) && a.c == c)) || (IncrementsRule(s, a, r) && a.c == c)
    {
      PendingTask(codec, s, a, r, c);
    }
  }

  lemma FreshRuleUnused(codec: Codec, s: State, a: Step, r: nat)
    requires Inv(codec, s) && RowRules(s.db) && r !in s.db.rules && r in Do(codec, s, a).db.rules
    ensures RowsOf(Do(codec, s, a), r) == {} && PendingOf(Do(codec, s, a), r) == {}
  {
    NewRule(codec, s, a, r);
    HeldRules(codec, s);
  }

  lemma OneMore(a: set<nat>, b: set<nat>, x: nat)
    requires a <= b + {x}
    ensures |a| <= |b| + 1
  {
    SubsetSize(a, b + {x});
  }

  lemma OneLess(a: set<nat>, b: set<nat>, x: nat)
    requires x in b && a <= b - {x}
    ensures |a| <= |b| - 1
  {
    SubsetSize(a, b - {x});
  }

  /** Whether the step is this one, by an evaluation that holds rule `r`. */
  predicate IncrementsRule(s: State, a: Step, r: nat) {
    a.Increment? && Enabled(s, a) && s.tasks[a.c].phase.rule.id == r
  }

  predicate LogsRule(s: State, a: Step, r: nat) {
    a.LogReply? && Enabled(s, a) && s.tasks[a.c].phase.rule.id == r
  }

  lemma StepReconciled(codec: Codec, s: State, a: Step, r: nat)
    requires Inv(codec, s) && RowRules(s.db) && Reconciled(s, r)
    ensures Reconciled(Do(codec, s, a), r)
  {
    var s' := Do(codec, s, a);
    if r in s'.db.rules {
      if r !in s.db.rules {
        FreshRuleUnused(codec, s, a, r);
      } else {
        StepCounts(codec, s, a, r);
      }
    }
  }

  lemma StepCounts(codec: Codec, s: State, a: Step, r: nat)
    requires Inv(codec, s) && r in s.db.rules && r in Do(codec, s, a).db.rules
    ensures |RowsOf(Do(codec, s, a), r)| + |PendingOf(Do(codec, s, a), r)| - Do(codec, s, a).db.rules[r].fired
         <= |RowsOf(s, r)| + |PendingOf(s, r)| - s.db.rules[r].fired
  {
    var s' := Do(codec, s, a);
    CounterStep(codec, s, a, r);
    RowsStep(codec, s, a, r);
    PendingStep(codec, s, a, r);
    if LogsRule(s, a, r) {
      OneMore(RowsOf(s', r), RowsOf(s, r), s.db.lastMessage + 1);
      OneLess(PendingOf(s', r), PendingOf(s, r), a.c);
    } else if IncrementsRule(s, a, r) {
      SubsetSize(RowsOf(s', r), RowsOf(s, r));
      OneMore(PendingOf(s', r), PendingOf(s, r), a.c);
    } else {
      SubsetSize(RowsOf(s', r), RowsOf(s, r));
      SubsetSize(PendingOf(s', r), PendingOf(s, r));
    }
  }

  lemma {:induction false} RunReconciled(codec: Codec, session: string, schedule: seq<Step>, r: nat)
    ensures RowRules(Exec(codec, Init(session), schedule).db)
    ensures Reconciled(Exec(codec, Init(session), schedule), r)
  {
    if schedule != [] {
      var before := schedule[..|schedule| - 1];
      RunReconciled(codec, session, before, r);
      AlwaysInv(codec, session, before);
      StepRowRules(codec, Exec(codec, Init(session), before), schedule[|schedule| - 1]);
      StepReconciled(codec, Exec(codec, Init(session), before), schedule[|schedule| - 1], r);
    }
  }

  /** After every schedule, the logged and the pending replies of an existing rule never exceed its counter. */
  lemma LogWithinCounter(codec: Codec, session: string, schedule: seq<Step>, r: nat)
    requires r in Exec(codec, Init(session), schedule).db.rules
    ensures var s := Exec(codec, Init(session), schedule);
      |RowsOf(s, r)| + |PendingOf(s, r)| <= s.db.rules[r].fired
  {
    RunReconciled(codec, session, schedule, r);
  }

  // ----- conservation

  function CounterIn(rules: map<nat, Rule>, r: nat): nat {
    if r in rules then rules[r].fired else 0
  }

  lemma {:induction false} SumExcept(rules: map<nat, Rule>, rules': map<nat, Rule>, r: nat, hi: nat)
    requires forall x :: x < hi && x != r ==> (x in rules <==> x in rules')
    requires forall x :: x < hi && x != r && x in rules ==> rules[x].fired == rules'[x].fired
    ensures r < hi ==>
      SumFired(rules', hi) + CounterIn(rules, r) == SumFired(rules, hi) + CounterIn(rules', r)
    ensures r >= hi ==> SumFired(rules', hi) == SumFired(rules, hi)
  {
    if hi > 0 {
      SumExcept(rules, rules', r, hi - 1);
    }
  }

  lemma {:induction false} SumOfNone(hi: nat)
    ensures SumFired(map[], hi) == 0
  {
    if hi > 0 {
      SumOfNone(hi - 1);
    }
  }

  /** Every increment performed is in the counter of an existing rule, was retired with its rule, or missed its rule. */
  ghost predicate Conserved(s: State) {
    s.increments == AllFired(s.db) + s.missed + s.retired
  }

  lemma InsertedSum(db: Db, spec: Spec)
    requires Valid(db)
    ensures AllFired(SaveRule(db, spec)) == AllFired(db)
  {
    var hi := db.lastRule + 1;
    SumExcept(db.rules, SaveRule(db, spec).rules, hi, hi);
    assert SumFired(SaveRule(db, spec).rules, hi + 1) == SumFired(SaveRule(db, spec).rules, hi);
  }

  lemma DeletedSum(db: Db, id: nat)
    requires Valid(db)
    ensures AllFired(DeleteRule(db, id)) + FiredOf(db, id) == AllFired(db)
  {
    SumExcept(db.rules, DeleteRule(db, id).rules, id, db.lastRule + 1);
  }

  lemma IncrementedSum(db: Db, id: nat)
    requires Valid(db)
    ensures AllFired(IncrementFired(db, id)) == AllFired(db) + if id in db.rules then 1 else 0
  {
    SumExcept(db.rules, IncrementFired(db, id).rules, id, db.lastRule + 1);
  }

  /** What a step does to the increments, the sum of the counters and the two other accounts. */
  lemma StepAccounts(codec: Codec, s: State, a: Step)
    requires Valid(s.db)
    ensures var s' := Do(codec, s, a);
      s'.increments - s.increments == AllFired(s'.db) - AllFired(s.db) + s'.missed - s.missed + s'.retired - s.retired
  {
    if Enabled(s, a) {
      match a {
        case CreateRule(spec) => InsertedSum(s.db, spec);
        case RemoveRule(id) => DeletedSum(s.db, id);
        case Increment(c) => IncrementedSum(s.db, s.tasks[c].phase.rule.id);
        case RemoveAllRules => SumOfNone(s.db.lastRule + 1);
        case Reset(_) => SumOfNone(s.db.lastRule + 1);
        case _ => assert AllFired(Apply(codec, s, a).db) == AllFired(s.db);
      }
    }
  }

  predicate Removes(a: Step) {
    a.RemoveRule? || a.RemoveAllRules? || a.Reset?
  }

  /** Without removals every id given out is still there. */
  ghost predicate AllRulesThere(s: State) {
    (forall r :: 1 <= r <= s.db.lastRule ==> r in s.db.rules) && s.missed == 0 && s.retired == 0
  }

  lemma StepAllThere(codec: Codec, s: State, a: Step)
    requires Inv(codec, s) && AllRulesThere(s) && !Removes(a)
    ensures AllRulesThere(Do(codec, s, a))
  {
    if a.Increment? && Enabled(s, a) {
      assert TaskOk(codec, s.db, s.tasks[a.c]);
    }
  }

  /**
   * After every schedule the increments performed are accounted for, and when no rule was ever removed they are
   * exactly the sum of the counters.
   */
  lemma {:induction false} IncrementsConserved(codec: Codec, session: string, schedule: seq<Step>)
    ensures Conserved(Exec(codec, Init(session), schedule))
    ensures (forall i :: 0 <= i < |schedule| ==> !Removes(schedule[i])) ==>
      var s := Exec(codec, Init(session), schedule); AllRulesThere(s) && s.increments == AllFired(s.db)
  {
    if schedule == [] {
      SumOfNone(1);
    } else {
      var before := schedule[..|schedule| - 1];
      IncrementsConserved(codec, session, before);
      AlwaysInv(codec, session, before);
      StepAccounts(codec, Exec(codec, Init(session), before), schedule[|schedule| - 1]);
      if forall i :: 0 <= i < |schedule| ==> !Removes(schedule[i]) {
        assert forall i :: 0 <= i < |before| ==> before[i] == schedule[i];
        StepAllThere(codec, Exec(codec, Init(session), before), schedule[|schedule| - 1]);
      }
    }
  }
}
