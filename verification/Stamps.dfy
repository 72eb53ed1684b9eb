/** main.py, rules.py: the session and the time of every logged row are those of its own step. */
module Stamps {
  import opened Wrappers
  import opened SbcAp
  import opened Store
  import opened Engine
  import opened EngineInvariant
  import opened LogOrder
  import Decoder

  /** The fields of a row to be saved: for a reply or not, the number of the arrival, and the fields. */
  type Stamp = (bool, nat, Fields)

  ghost predicate LogStamped(t: Task, given: iset<Stamp>) {
    forall i :: 0 <= i < |t.log| ==> (t.log[i].kind.Reply?, t.log[i].index, t.log[i].row.f) in given
  }

  ghost predicate PhaseStamped(t: Task, given: iset<Stamp>) {
    t.phase.Stamped? || t.phase.Logging? ==>
      |t.arrivals| > 0 && (t.phase.Logging?, |t.arrivals| - 1, t.phase.fields) in given
  }

  ghost predicate AllStamped(t: Task, given: iset<Stamp>) {
    LogStamped(t, given) && PhaseStamped(t, given)
  }

  /** In this step the connection reads the session and the clock for these fields. */
  ghost predicate Reads(s: State, a: Step, c: nat, x: Stamp) {
    && c in s.tasks && Enabled(s, a) && |s.tasks[c].arrivals| == x.1 + 1
    && x.2.sessionId == s.db.session
    && if x.0 then
         a == ReadSessionAgain(c, x.2.seconds, x.2.microseconds) && s.tasks[c].phase.Sent?
       else
         a == ReadSession(c, x.2.seconds, x.2.microseconds)
         && s.tasks[c].phase == Arrived(s.tasks[c].arrivals[x.1])
  }

  lemma StampIsRead(codec: Codec, s: State, a: Step, c: nat)
    requires Inv(codec, s) && (a.ReadSession? || a.ReadSessionAgain?) && a.c == c && Enabled(s, a)
    ensures |s.tasks[c].arrivals| > 0
    ensures var p := Do(codec, s, a).tasks[c].phase;
      p.Stamped? || p.Logging? ==> Reads(s, a, c, (p.Logging?, |s.tasks[c].arrivals| - 1, p.fields))
  {
    assert TaskOk(codec, s.db, s.tasks[c]);
  }

  predicate Plain(a: Step) {
    !a.ReadSession? && !a.ReadSessionAgain? && !a.LogInbound? && !a.LogReply?
  }

  lemma PlainStep(codec: Codec, s: State, a: Step, c: nat)
    requires c in s.tasks && (Plain(a) || !Enabled(s, a))
    ensures var t, u := s.tasks[c], Do(codec, s, a).tasks[c];
      t.log == u.log
      && ((u.phase == t.phase && u.arrivals == t.arrivals) || !(u.phase.Stamped? || u.phase.Logging?))
  {
  }

  lemma StampStep(codec: Codec, s: State, a: Step, c: nat)
    requires (a.ReadSession? || a.ReadSessionAgain?) && a.c == c && Enabled(s, a)
    ensures var t, u := s.tasks[c], Do(codec, s, a).tasks[c]; t.log == u.log && t.arrivals == u.arrivals
  {
  }

  lemma StampsStay(t: Task, u: Task, given: iset<Stamp>, more: iset<Stamp>)
    requires AllStamped(t, given) && given <= more && t.log == u.log
    requires u.phase.Stamped? || u.phase.Logging? ==>
      |u.arrivals| > 0 && (u.phase.Logging?, |u.arrivals| - 1, u.phase.fields) in more
    ensures AllStamped(u, more)
  {
  }

  /** A row is saved with the fields that were stamped. */
  lemma SaveStep(codec: Codec, s: State, a: Step, c: nat)
    requires Inv(codec, s) && (a.LogInbound? || a.LogReply?) && a.c == c && Enabled(s, a)
    ensures var t, u := s.tasks[c], Do(codec, s, a).tasks[c];
      && |t.arrivals| > 0 && !(u.phase.Stamped? || u.phase.Logging?) && |u.log| == |t.log| + 1 && t.log <= u.log
      && u.log[|t.log|].kind.Reply? == t.phase.Logging?
      && u.log[|t.log|].index == |t.arrivals| - 1 && u.log[|t.log|].row.f == t.phase.fields
  {
    assert TaskOk(codec, s.db, s.tasks[c]);
  }

  lemma SaveStamped(t: Task, u: Task, given: iset<Stamp>)
    requires AllStamped(t, given) && (t.phase.Stamped? || t.phase.Logging?)
    requires |t.arrivals| > 0 && !(u.phase.Stamped? || u.phase.Logging?) && |u.log| == |t.log| + 1 && t.log <= u.log
    requires u.log[|t.log|].kind.Reply? == t.phase.Logging?
    requires u.log[|t.log|].index == |t.arrivals| - 1 && u.log[|t.log|].row.f == t.phase.fields
    ensures AllStamped(u, given)
  {
    forall i | 0 <= i < |u.log| ensures (u.log[i].kind.Reply?, u.log[i].index, u.log[i].row.f) in given {
      assert i < |t.log| ==> u.log[i] == t.log[i];
    }
  }

  lemma OwnStep(codec: Codec, s: State, a: Step, c: nat, given: iset<Stamp>, more: iset<Stamp>)
    requires Inv(codec, s) && TaskOf(a) == Some(c) && !Plain(a) && Enabled(s, a)
    requires AllStamped(s.tasks[c], given) && given <= more && AllRead(s, a, c, more)
    ensures AllStamped(Do(codec, s, a).tasks[c], more)
  {
    var t, u := s.tasks[c], Do(codec, s, a).tasks[c];
    if a.ReadSession? || a.ReadSessionAgain? {
      StampIsRead(codec, s, a, c);
      StampStep(codec, s, a, c);
      StampsStay(t, u, given, more);
    } else {
      SaveStep(codec, s, a, c);
      StampsStay(t, t, given, more);
      SaveStamped(t, u, more);
    }
  }

  lemma PlainStamps(codec: Codec, s: State, a: Step, c: nat, given: iset<Stamp>, more: iset<Stamp>)
    requires c in s.tasks && AllStamped(s.tasks[c], given) && given <= more && (Plain(a) || !Enabled(s, a))
    ensures AllStamped(Do(codec, s, a).tasks[c], more)
  {
    PlainStep(codec, s, a, c);
    StampsStay(s.tasks[c], Do(codec, s, a).tasks[c], given, more);
  }

  ghost predicate AllRead(s: State, a: Step, c: nat, more: iset<Stamp>) {
    forall x :: Reads(s, a, c, x) ==> x in more
  }

  lemma StepStamps(codec: Codec, s: State, a: Step, c: nat, given: iset<Stamp>, more: iset<Stamp>)
    requires Inv(codec, s) && c in s.tasks && AllStamped(s.tasks[c], given) && given <= more
    requires AllRead(s, a, c, more)
    ensures c in Do(codec, s, a).tasks && AllStamped(Do(codec, s, a).tasks[c], more)
  {
    LogStep(codec, s, a, c);
    if TaskOf(a) != Some(c) {
      OtherTasks(codec, s, a, c);
      StampsStay(s.tasks[c], s.tasks[c], given, more);
    } else if Plain(a) || !Enabled(s, a) {
      PlainStamps(codec, s, a, c, given, more);
    } else {
      OwnStep(codec, s, a, c, given, more);
    }
  }

  // ----- over runs

  ghost predicate ReadsAt(codec: Codec, session: string, schedule: seq<Step>, c: nat, i: nat, x: Stamp)
    requires i < |schedule|
  {
    Reads(At(codec, Init(session), schedule, i), schedule[i], c, x)
  }

  ghost predicate ReadsBefore(codec: Codec, session: string, schedule: seq<Step>, c: nat, k: nat, x: Stamp)
    requires k <= |schedule|
  {
    exists i: nat :: i < k && ReadsAt(codec, session, schedule, c, i, x)
  }

  ghost function ReadBy(codec: Codec, session: string, schedule: seq<Step>, c: nat, k: nat): iset<Stamp>
    requires k <= |schedule|
  {
    iset x: Stamp | ReadsBefore(codec, session, schedule, c, k, x)
  }

  lemma ReadByNext(codec: Codec, session: string, schedule: seq<Step>, c: nat, k: nat, x: Stamp)
    requires k < |schedule|
    ensures x in ReadBy(codec, session, schedule, c, k) ==> x in ReadBy(codec, session, schedule, c, k + 1)
    ensures ReadsAt(codec, session, schedule, c, k, x) ==> x in ReadBy(codec, session, schedule, c, k + 1)
  {
  }

  lemma NextStamps(codec: Codec, s: State, a: Step, c: nat, given: iset<Stamp>, more: iset<Stamp>)
    requires Inv(codec, s) && (c in s.tasks ==> AllStamped(s.tasks[c], given)) && given <= more
    requires AllRead(s, a, c, more)
    ensures var next := Do(codec, s, a); c in next.tasks ==> AllStamped(next.tasks[c], more)
  {
    if c in s.tasks {
      StepStamps(codec, s, a, c, given, more);
    } else if c in Do(codec, s, a).tasks {
      StepTasks(codec, s, a, c);
    }
  }

  lemma {:induction false} RunStamps(codec: Codec, session: string, schedule: seq<Step>, c: nat, k: nat)
    requires k <= |schedule|
    ensures var s := At(codec, Init(session), schedule, k);
      c in s.tasks ==> AllStamped(s.tasks[c], ReadBy(codec, session, schedule, c, k))
  {
    if k > 0 {
      var s := At(codec, Init(session), schedule, k - 1);
      var more := ReadBy(codec, session, schedule, c, k);
      RunStamps(codec, session, schedule, c, k - 1);
      AlwaysInv(codec, session, schedule[..k - 1]);
      AtStep(codec, Init(session), schedule, k - 1);
      forall x | Reads(s, schedule[k - 1], c, x) ensures x in more {
        ReadByNext(codec, session, schedule, c, k - 1, x);
      }
      forall x | x in ReadBy(codec, session, schedule, c, k - 1) ensures x in more {
        ReadByNext(codec, session, schedule, c, k - 1, x);
      }
      NextStamps(codec, s, schedule[k - 1], c, ReadBy(codec, session, schedule, c, k - 1), more);
    }
  }

  /**
   * After any schedule, every row in a connection's log has a step of its own in which the connection read the session
   * and the clock for it: the row's session is the one that the store held then, its times are those of that step, and
   * that step belongs to the row's arrival, before its save for an arrival and after its send for a reply.
   */
  lemma EveryRowIsStamped(codec: Codec, session: string, schedule: seq<Step>, c: nat, k: nat)
    requires var s := Exec(codec, Init(session), schedule); c in s.tasks && k < |s.tasks[c].log|
    ensures var e := Exec(codec, Init(session), schedule).tasks[c].log[k];
      exists i: nat :: i < |schedule|
        && ReadsAt(codec, session, schedule, c, i, (e.kind.Reply?, e.index, e.row.f))
  {
    RunStamps(codec, session, schedule, c, |schedule|);
    assert schedule[..|schedule|] == schedule;
    var e := Exec(codec, Init(session), schedule).tasks[c].log[k];
    assert (e.kind.Reply?, e.index, e.row.f) in ReadBy(codec, session, schedule, c, |schedule|);
  }

  // ----- rows of the send endpoint

  /** This step is the send endpoint's save of this row. */
  ghost predicate Saves(codec: Codec, s: State, a: Step, id: nat, f: Fields) {
    && a.LogManual? && id == s.db.lastMessage + 1
    && f.sessionId == a.session && f.seconds == a.seconds && f.microseconds == a.microseconds
    && f.direction == "outbound" && f.transport == "sctp" && f.localPort == None && f.peerAddr == None
    && f.ruleId == None && Shows(codec, a.raw, f)
  }

  ghost predicate ManualSaved(codec: Codec, session: string, schedule: seq<Step>, k: nat, id: nat, f: Fields)
    requires k <= |schedule|
  {
    exists i: nat :: i < k && Saves(codec, At(codec, Init(session), schedule, i), schedule[i], id, f)
  }

  lemma ManualOrigin(codec: Codec, s: State, a: Step, id: nat)
    requires Inv(codec, s)
    requires id in Do(codec, s, a).manual && id in Do(codec, s, a).db.messages
    ensures (id in s.manual && id in s.db.messages && Do(codec, s, a).db.messages[id] == s.db.messages[id])
      || Saves(codec, s, a, id, Do(codec, s, a).db.messages[id].f)
  {
    StepGrows(codec, s, a);
    ManualStep(codec, s, a, id);
    if a.LogManual? {
      Decoder.DecodeKeepsOctets(codec, a.raw);
    }
  }

  /** After any schedule, every stored row of the send endpoint was saved by one of its steps, with its stamps. */
  lemma {:induction false} EveryManualRowIsStamped(codec: Codec, session: string, schedule: seq<Step>, k: nat, id: nat)
    requires k <= |schedule|
    requires var s := At(codec, Init(session), schedule, k); id in s.manual && id in s.db.messages
    ensures ManualSaved(codec, session, schedule, k, id, At(codec, Init(session), schedule, k).db.messages[id].f)
  {
    if k > 0 {
      var s := At(codec, Init(session), schedule, k - 1);
      AlwaysInv(codec, session, schedule[..k - 1]);
      AtStep(codec, Init(session), schedule, k - 1);
      ManualOrigin(codec, s, schedule[k - 1], id);
      if id in s.manual && id in s.db.messages
         && At(codec, Init(session), schedule, k).db.messages[id] == s.db.messages[id] {
        EveryManualRowIsStamped(codec, session, schedule, k - 1, id);
      }
    }
  }
}
