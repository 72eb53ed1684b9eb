/** Rules that are deleted or reset away, while evaluations that took them are still in flight. */
module Isolation {
  import opened SbcAp
  import opened Store
  import opened Rules
  import opened Engine
  import opened EngineInvariant

  lemma AtGrows(codec: Codec, session: string, schedule: seq<Step>, i: nat, j: nat)
    requires i <= j <= |schedule|
    ensures Inv(codec, At(codec, Init(session), schedule, i)) && Inv(codec, At(codec, Init(session), schedule, j))
    ensures Grows(At(codec, Init(session), schedule, i).db, At(codec, Init(session), schedule, j).db)
  {
    AlwaysInv(codec, session, schedule[..i]);
    RunGrows(codec, Exec(codec, Init(session), schedule[..i]), schedule[i..j]);
    ExecConcat(codec, Init(session), schedule[..i], schedule[i..j]);
    assert schedule[..i] + schedule[i..j] == schedule[..j];
  }

  /**
   * Ids are never used again: a rule found at a later moment under an id given out before an earlier one already
   * existed then, with the same conditions and action and a counter that has only grown.
   */
  lemma RuleIdsNeverReused(codec: Codec, session: string, schedule: seq<Step>, i: nat, j: nat, r: nat)
    requires i <= j <= |schedule|
    requires r in At(codec, Init(session), schedule, j).db.rules
    ensures var (early, late) := (At(codec, Init(session), schedule, i).db, At(codec, Init(session), schedule, j).db);
      && (r <= early.lastRule <==> r in early.rules)
      && (r in early.rules ==> late.rules[r].spec == early.rules[r].spec && early.rules[r].fired <= late.rules[r].fired)
  {
    AtGrows(codec, session, schedule, i, j);
  }

  /**
   * An evaluation that holds a rule at moment `i` and performs its increment at moment `j` changes no rule created in
   * between, and changes nothing at all when its rule has been deleted or reset away.
   */
  lemma InFlightIncrement(codec: Codec, session: string, schedule: seq<Step>, i: nat, j: nat, c: nat)
    requires i <= j < |schedule| && schedule[j] == Increment(c)
    requires c in At(codec, Init(session), schedule, i).tasks && c in At(codec, Init(session), schedule, j).tasks
    requires At(codec, Init(session), schedule, i).tasks[c].phase.Chosen?
    requires At(codec, Init(session), schedule, j).tasks[c].phase
          == At(codec, Init(session), schedule, i).tasks[c].phase
    ensures var (early, before, after) := (At(codec, Init(session), schedule, i).db,
        At(codec, Init(session), schedule, j).db, At(codec, Init(session), schedule, j + 1).db);
      && after.rules.Keys == before.rules.Keys
      && (forall r :: r in after.rules && r !in early.rules ==> after.rules[r] == before.rules[r])
      && (At(codec, Init(session), schedule, i).tasks[c].phase.rule.id !in before.rules ==> after == before)
  {
    AtGrows(codec, session, schedule, i, j);
    AtStep(codec, Init(session), schedule, j);
    HeldRules(codec, At(codec, Init(session), schedule, i));
    LateIncrement(codec, At(codec, Init(session), schedule, i).db, At(codec, Init(session), schedule, j), c);
  }

  lemma LateIncrement(codec: Codec, early: Db, s: State, c: nat)
    requires Grows(early, s.db) && Enabled(s, Increment(c)) && s.tasks[c].phase.rule.id <= early.lastRule
    ensures var (before, after) := (s.db, Do(codec, s, Increment(c)).db);
      && after.rules.Keys == before.rules.Keys
      && (forall r :: r in after.rules && r !in early.rules ==> after.rules[r] == before.rules[r])
      && (s.tasks[c].phase.rule.id !in before.rules ==> after == before)
  {
  }

  lemma ResetEmpties(codec: Codec, s: State, session: string)
    ensures Do(codec, s, Reset(session)).db.rules == map[] && Do(codec, s, Reset(session)).db.lastRule == s.db.lastRule
  {
  }

  /** The rule that a snapshot after a reset takes was created after that reset. */
  lemma AfterReset(codec: Codec, session: string, schedule: seq<Step>, i: nat, j: nat, msg: Message)
    requires i < j <= |schedule| && schedule[i].Reset?
    requires Rules.Chosen(At(codec, Init(session), schedule, j).db, msg).Some?
    ensures var (early, late) := (At(codec, Init(session), schedule, i).db, At(codec, Init(session), schedule, j).db);
      && Rules.Chosen(late, msg).value.id > early.lastRule
      && Rules.Chosen(late, msg).value.id !in early.rules
  {
    AtGrows(codec, session, schedule, i, j);
    AtGrows(codec, session, schedule, i + 1, j);
    AtStep(codec, Init(session), schedule, i);
    ResetEmpties(codec, At(codec, Init(session), schedule, i), schedule[i].session);
    SnapshotAfter(At(codec, Init(session), schedule, i).db, At(codec, Init(session), schedule, i + 1).db,
                  At(codec, Init(session), schedule, j).db, msg);
  }

  lemma SnapshotAfter(early: Db, emptied: Db, late: Db, msg: Message)
    requires Valid(early) && Valid(late) && Grows(emptied, late)
    requires emptied.rules == map[] && emptied.lastRule == early.lastRule && Rules.Chosen(late, msg).Some?
    ensures Rules.Chosen(late, msg).value.id > early.lastRule && Rules.Chosen(late, msg).value.id !in early.rules
  {
    ChosenIsLowest(late, msg);
  }

  /** The connections and the messages are as they were. */
  ghost predicate RulesOnly(s: State, t: State) {
    t.tasks == s.tasks && t.db.messages == s.db.messages && t.db.lastMessage == s.db.lastMessage
  }

  /** What the requests for rules do, and that they leave the connections and the messages alone. */
  lemma RuleRequests(codec: Codec, s: State, spec: Spec, id: nat)
    ensures var t := Do(codec, s, CreateRule(spec));
      && RulesOnly(s, t) && t.db.session == s.db.session
      && t.db.rules == s.db.rules[s.db.lastRule + 1 := Rule(s.db.lastRule + 1, spec, 0)]
    ensures var t := Do(codec, s, RemoveRule(id));
      RulesOnly(s, t) && t.db.session == s.db.session && t.db.rules == s.db.rules - {id}
    ensures var t := Do(codec, s, RemoveAllRules);
      RulesOnly(s, t) && t.db.session == s.db.session && t.db.rules == map[]
  {
  }

  /** A reset changes the session and empties the rules; deleting the messages changes nothing else. */
  lemma ResetRequests(codec: Codec, s: State, session: string)
    ensures var t := Do(codec, s, Reset(session)); RulesOnly(s, t) && t.db.session == session && t.db.rules == map[]
    ensures var t := Do(codec, s, RemoveAllMessages);
      t.tasks == s.tasks && t.db.messages == map[] && t.db.session == s.db.session && t.db.rules == s.db.rules
  {
  }
}
