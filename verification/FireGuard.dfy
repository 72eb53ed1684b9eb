/** When a rule keeps within its count: the exact guard on its snapshots. */
module FireGuard {
  import opened SbcAp
  import opened Engine
  import opened EngineInvariant
  import opened FireCount

  /** The counter of a rule and the evaluations still to increment it are together within a positive count. */
  ghost predicate Within(s: State, r: nat) {
    r in s.db.rules && s.db.rules[r].spec.count > 0 ==>
      s.db.rules[r].fired + |Window(s, r)| <= s.db.rules[r].spec.count
  }

  /** A snapshot that takes the rule finds room for one more evaluation. */
  ghost predicate FindsRoom(codec: Codec, s: State, a: Step, r: nat) {
    a.Snapshot? && Enabled(s, a) && a.c in Window(Do(codec, s, a), r) && r in s.db.rules
    && s.db.rules[r].spec.count > 0 ==>
      s.db.rules[r].fired + |Window(s, r)| < s.db.rules[r].spec.count
  }

  /** The evaluation that takes a snapshot holds no rule yet. */
  lemma NotYetHolding(codec: Codec, s: State, c: nat, r: nat)
    requires Enabled(s, Snapshot(c))
    ensures c !in Window(s, r)
    ensures c in Window(Do(codec, s, Snapshot(c)), r) ==> Window(Do(codec, s, Snapshot(c)), r) == Window(s, r) + {c}
    ensures c !in Window(Do(codec, s, Snapshot(c)), r) ==> Window(Do(codec, s, Snapshot(c)), r) == Window(s, r)
    ensures Do(codec, s, Snapshot(c)).db == s.db
  {
  }

  lemma OtherWindows(codec: Codec, s: State, a: Step, r: nat)
    requires !(a.Snapshot? && Enabled(s, a))
    ensures Window(Do(codec, s, a), r) <= Window(s, r)
  {
  }

  /** From a state within the count, a step leads to one within the count if and only if its snapshot finds room. */
  lemma WithinStep(codec: Codec, s: State, a: Step, r: nat)
    requires Inv(codec, s) && Within(s, r)
    ensures Within(Do(codec, s, a), r) <==> FindsRoom(codec, s, a, r)
  {
    if a.Snapshot? && Enabled(s, a) {
      NotYetHolding(codec, s, a.c, r);
    } else {
      OthersKeepWithin(codec, s, a, r);
    }
  }

  lemma OthersKeepWithin(codec: Codec, s: State, a: Step, r: nat)
    requires Inv(codec, s) && Within(s, r) && !(a.Snapshot? && Enabled(s, a))
    ensures Within(Do(codec, s, a), r)
  {
    OtherWindows(codec, s, a, r);
    SubsetSize(Window(Do(codec, s, a), r), Window(s, r));
    if r in Do(codec, s, a).db.rules {
      if r !in s.db.rules {
        FreshRule(codec, s, a, r);
      } else {
        CounterStep(codec, s, a, r);
        if a.Increment? && Enabled(s, a) && s.tasks[a.c].phase.rule.id == r {
          IncrementLeaves(codec, s, a.c);
        }
      }
    }
  }

  ghost predicate WithinThroughout(codec: Codec, session: string, schedule: seq<Step>, r: nat) {
    forall k :: 0 <= k <= |schedule| ==> Within(At(codec, Init(session), schedule, k), r)
  }

  ghost predicate AlwaysFindsRoom(codec: Codec, session: string, schedule: seq<Step>, r: nat) {
    forall k :: 0 <= k < |schedule| ==> FindsRoom(codec, At(codec, Init(session), schedule, k), schedule[k], r)
  }

  lemma WithinNext(codec: Codec, session: string, schedule: seq<Step>, r: nat, k: nat)
    requires k < |schedule| && Within(At(codec, Init(session), schedule, k), r)
    ensures Within(At(codec, Init(session), schedule, k + 1), r)
       <==> FindsRoom(codec, At(codec, Init(session), schedule, k), schedule[k], r)
  {
    AlwaysInv(codec, session, schedule[..k]);
    AtStep(codec, Init(session), schedule, k);
    WithinStep(codec, At(codec, Init(session), schedule, k), schedule[k], r);
  }

  lemma {:induction false} RoomKeepsWithin(codec: Codec, session: string, schedule: seq<Step>, r: nat, k: nat)
    requires k <= |schedule| && AlwaysFindsRoom(codec, session, schedule, r)
    ensures Within(At(codec, Init(session), schedule, k), r)
  {
    if k > 0 {
      RoomKeepsWithin(codec, session, schedule, r, k - 1);
      WithinNext(codec, session, schedule, r, k - 1);
    }
  }

  /**
   * Over any run, counter and open evaluations of a rule stay within a positive count if and only if every snapshot
   * that took the rule found room.
   */
  lemma WithinIffRoom(codec: Codec, session: string, schedule: seq<Step>, r: nat)
    ensures WithinThroughout(codec, session, schedule, r) <==> AlwaysFindsRoom(codec, session, schedule, r)
  {
    if AlwaysFindsRoom(codec, session, schedule, r) {
      forall k | 0 <= k <= |schedule| ensures Within(At(codec, Init(session), schedule, k), r) {
        RoomKeepsWithin(codec, session, schedule, r, k);
      }
    }
    if WithinThroughout(codec, session, schedule, r) {
      forall k | 0 <= k < |schedule|
        ensures FindsRoom(codec, At(codec, Init(session), schedule, k), schedule[k], r)
      {
        WithinNext(codec, session, schedule, r, k);
      }
    }
  }

  // ----- what the open evaluations will do

  predicate OnlyIncrements(steps: seq<Step>) {
    forall i :: 0 <= i < |steps| ==> steps[i].Increment?
  }

  lemma IncrementCounts(codec: Codec, s: State, c: nat, r: nat)
    requires r in s.db.rules && c in Window(s, r)
    ensures var t := Do(codec, s, Increment(c));
      && r in t.db.rules && t.db.rules[r] == s.db.rules[r].(fired := s.db.rules[r].fired + 1)
      && Window(t, r) == Window(s, r) - {c}
  {
    IncrementLeaves(codec, s, c);
  }

  lemma ExecFirst(codec: Codec, s: State, a: Step, rest: seq<Step>)
    ensures Exec(codec, s, [a] + rest) == Exec(codec, Do(codec, s, a), rest)
  {
    ExecConcat(codec, s, [a], rest);
    assert [a][..0] == [];
    assert Exec(codec, s, [a]) == Do(codec, s, a);
  }

  /** From any state the evaluations that hold a rule can all increment it. */
  lemma {:induction false} HoldersIncrement(codec: Codec, s: State, r: nat) returns (steps: seq<Step>)
    requires r in s.db.rules
    ensures OnlyIncrements(steps)
    ensures var t := Exec(codec, s, steps);
      r in t.db.rules && t.db.rules[r] == s.db.rules[r].(fired := s.db.rules[r].fired + |Window(s, r)|)
    decreases |Window(s, r)|
  {
    if Window(s, r) == {} {
      steps := [];
    } else {
      var c :| c in Window(s, r);
      IncrementCounts(codec, s, c, r);
      var rest := HoldersIncrement(codec, Do(codec, s, Increment(c)), r);
      steps := [Increment(c)] + rest;
      ExecFirst(codec, s, Increment(c), rest);
    }
  }

  /** Some increments of evaluations that are open now take the counter past a positive count. */
  ghost predicate CanOvershoot(codec: Codec, s: State, r: nat) {
    exists steps :: OnlyIncrements(steps) && Overshot(Exec(codec, s, steps), r)
  }

  ghost predicate Overshot(s: State, r: nat) {
    r in s.db.rules && s.db.rules[r].spec.count > 0 && s.db.rules[r].fired > s.db.rules[r].spec.count
  }

  lemma {:induction false} IncrementsKeepWithin(codec: Codec, s: State, steps: seq<Step>, r: nat)
    requires Inv(codec, s) && Within(s, r) && OnlyIncrements(steps)
    ensures Inv(codec, Exec(codec, s, steps)) && Within(Exec(codec, s, steps), r)
  {
    if steps != [] {
      var last := |steps| - 1;
      IncrementsKeepWithin(codec, s, steps[..last], r);
      StepKeepsInv(codec, Exec(codec, s, steps[..last]), steps[last]);
      OthersKeepWithin(codec, Exec(codec, s, steps[..last]), steps[last], r);
    }
  }

  /**
   * The bound is what decides: the evaluations open in a state can take a rule past its count if and only if the state
   * is not within it.
   */
  lemma OvershootIffNotWithin(codec: Codec, s: State, r: nat)
    requires Inv(codec, s)
    ensures CanOvershoot(codec, s, r) <==> !Within(s, r)
  {
    if !Within(s, r) {
      var steps := HoldersIncrement(codec, s, r);
      assert Overshot(Exec(codec, s, steps), r);
    } else {
      forall steps | OnlyIncrements(steps) ensures !Overshot(Exec(codec, s, steps), r) {
        IncrementsKeepWithin(codec, s, steps, r);
      }
    }
  }

  /** If every snapshot that takes a rule finds room, the counter never passes a positive count. */
  lemma RoomKeepsCount(codec: Codec, session: string, schedule: seq<Step>, r: nat)
    requires AlwaysFindsRoom(codec, session, schedule, r)
    ensures !Overshot(Exec(codec, Init(session), schedule), r)
  {
    RoomKeepsWithin(codec, session, schedule, r, |schedule|);
    assert schedule[..|schedule|] == schedule;
  }
}
