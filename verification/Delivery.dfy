/** sctp_server.py, rules.py: which logged replies were delivered, after any schedule. */
module Delivery {
  import opened Wrappers
  import opened Octets
  import opened SbcAp
  import opened Store
  import opened Rules
  import opened Engine
  import opened EngineInvariant
  import opened RuleEngine
  import opened LogOrder
  import Encoder

  /** A reply: its rule, the message it answers, and the number of that message's arrival. */
  type Answer = (Rule, Message, nat)

  /** Every reply that the connection logged answers the row before it and is one of these. */
  ghost predicate LogGiven(t: Task, given: iset<Answer>) {
    forall i :: 0 <= i < |t.log| && t.log[i].kind.Reply? ==>
      i > 0 && (t.log[i].kind.rule, t.log[i - 1].row, t.log[i].index) in given
  }

  /** So is the one that is about to be logged. */
  ghost predicate PhaseGiven(t: Task, given: iset<Answer>) {
    t.phase.Sent? || t.phase.Logging? ==>
      |t.arrivals| > 0 && (t.phase.rule, t.phase.msg, |t.arrivals| - 1) in given
  }

  ghost predicate AllGiven(t: Task, given: iset<Answer>) {
    LogGiven(t, given) && PhaseGiven(t, given)
  }

  /** The message that a connection answers names the connection's peer. */
  lemma AnswersPeer(codec: Codec, db: Db, t: Task, msg: Message)
    requires TaskOk(codec, db, t) && Current(t, msg)
    ensures msg.f.peerAddr == Some(t.addr)
  {
    assert EntryOk(codec, t, |t.log| - 1);
  }

  lemma GivenStays(t: Task, u: Task, given: iset<Answer>, more: iset<Answer>)
    requires AllGiven(t, given) && given <= more && t.log == u.log
    requires (u.phase == t.phase && u.arrivals == t.arrivals) || !(u.phase.Sent? || u.phase.Logging?)
    ensures AllGiven(u, more)
  {
  }

  /** The steps of a connection that neither send nor log. */
  predicate Plain(a: Step) {
    !a.Send? && !a.ReadSessionAgain? && !a.LogReply? && !a.LogInbound?
  }

  lemma PlainStep(codec: Codec, s: State, a: Step, c: nat)
    requires c in s.tasks && Plain(a)
    ensures var t, u := s.tasks[c], Do(codec, s, a).tasks[c];
      t.log == u.log
      && ((u.phase == t.phase && u.arrivals == t.arrivals) || !(u.phase.Sent? || u.phase.Logging?))
  {
  }

  lemma SendGives(codec: Codec, s: State, c: nat, ok: bool, given: iset<Answer>, more: iset<Answer>)
    requires Inv(codec, s) && Enabled(s, Send(c, ok)) && AllGiven(s.tasks[c], given) && given <= more
    requires Do(codec, s, Send(c, ok)).tasks[c].phase.Sent? ==>
      (s.tasks[c].phase.rule, s.tasks[c].phase.msg, |s.tasks[c].arrivals| - 1) in more
    ensures AllGiven(Do(codec, s, Send(c, ok)).tasks[c], more)
  {
    var t, u := s.tasks[c], Do(codec, s, Send(c, ok)).tasks[c];
    assert TaskOk(codec, s.db, t);
    GivenStays(t, u.(phase := Idle), given, more);
  }

  lemma StampGives(codec: Codec, s: State, a: Step, given: iset<Answer>, more: iset<Answer>)
    requires a.ReadSessionAgain? && Enabled(s, a) && AllGiven(s.tasks[a.c], given) && given <= more
    ensures AllGiven(Do(codec, s, a).tasks[a.c], more)
  {
  }

  lemma LoggedGives(t: Task, given: iset<Answer>, row: Message)
    requires LogGiven(t, given) && t.phase.Logging? && Current(t, t.phase.msg)
    requires (t.phase.rule, t.phase.msg, |t.arrivals| - 1) in given
    ensures LogGiven(Logged(t, row, Reply(t.phase.rule)), given)
  {
    var u := Logged(t, row, Reply(t.phase.rule));
    assert u.log[|t.log| - 1] == t.log[|t.log| - 1];
    forall i | 0 <= i < |u.log| && u.log[i].kind.Reply?
      ensures i > 0 && (u.log[i].kind.rule, u.log[i - 1].row, u.log[i].index) in given
    {
      assert i < |t.log| ==> u.log[i] == t.log[i] && (i > 0 ==> u.log[i - 1] == t.log[i - 1]);
    }
  }

  lemma LogReplyGives(codec: Codec, s: State, c: nat, given: iset<Answer>)
    requires Inv(codec, s) && Enabled(s, LogReply(c)) && AllGiven(s.tasks[c], given)
    ensures AllGiven(Do(codec, s, LogReply(c)).tasks[c], given)
  {
    var t := s.tasks[c];
    assert TaskOk(codec, s.db, t);
    LoggedGives(t, given, SavedRow(s.db, t.phase.fields));
  }

  lemma LogInboundGives(codec: Codec, s: State, c: nat, given: iset<Answer>)
    requires Enabled(s, LogInbound(c)) && AllGiven(s.tasks[c], given)
    ensures AllGiven(Do(codec, s, LogInbound(c)).tasks[c], given)
  {
    var t, u := s.tasks[c], Do(codec, s, LogInbound(c)).tasks[c];
    forall i | 0 <= i < |u.log| && u.log[i].kind.Reply?
      ensures i > 0 && (u.log[i].kind.rule, u.log[i - 1].row, u.log[i].index) in given
    {
      assert u.log[i] == t.log[i] && (i > 0 ==> u.log[i - 1] == t.log[i - 1]);
    }
  }

  lemma PlainGives(codec: Codec, s: State, a: Step, c: nat, given: iset<Answer>, more: iset<Answer>)
    requires c in s.tasks && AllGiven(s.tasks[c], given) && given <= more && (Plain(a) || !Enabled(s, a))
    ensures AllGiven(Do(codec, s, a).tasks[c], more)
  {
    if Plain(a) {
      PlainStep(codec, s, a, c);
    }
    GivenStays(s.tasks[c], Do(codec, s, a).tasks[c], given, more);
  }

  lemma OwnGives(codec: Codec, s: State, a: Step, c: nat, given: iset<Answer>, more: iset<Answer>)
    requires Inv(codec, s) && TaskOf(a) == Some(c) && !Plain(a) && Enabled(s, a)
    requires AllGiven(s.tasks[c], given) && given <= more
    requires a.Send? && Do(codec, s, a).tasks[c].phase.Sent? ==>
      (s.tasks[c].phase.rule, s.tasks[c].phase.msg, |s.tasks[c].arrivals| - 1) in more
    ensures c in Do(codec, s, a).tasks && AllGiven(Do(codec, s, a).tasks[c], more)
  {
    match a
    case Send(_, ok) => SendGives(codec, s, c, ok, given, more);
    case ReadSessionAgain(_, _, _) => StampGives(codec, s, a, given, more);
    case LogReply(_) =>
      GivenStays(s.tasks[c], s.tasks[c], given, more);
      LogReplyGives(codec, s, c, more);
    case LogInbound(_) =>
      GivenStays(s.tasks[c], s.tasks[c], given, more);
      LogInboundGives(codec, s, c, more);
  }

  /** A step keeps it that every reply of a connection has been sent off, if the step's own send is added. */
  lemma StepGives(codec: Codec, s: State, a: Step, c: nat, given: iset<Answer>, more: iset<Answer>)
    requires Inv(codec, s) && c in s.tasks && AllGiven(s.tasks[c], given) && given <= more
    requires a.Send? && a.c == c && Enabled(s, a) && Do(codec, s, a).tasks[c].phase.Sent? ==>
      (s.tasks[c].phase.rule, s.tasks[c].phase.msg, |s.tasks[c].arrivals| - 1) in more
    ensures c in Do(codec, s, a).tasks && AllGiven(Do(codec, s, a).tasks[c], more)
  {
    LogStep(codec, s, a, c);
    if TaskOf(a) != Some(c) {
      OtherTasks(codec, s, a, c);
      GivenStays(s.tasks[c], s.tasks[c], given, more);
    } else if Plain(a) || !Enabled(s, a) {
      PlainGives(codec, s, a, c, given, more);
    } else {
      OwnGives(codec, s, a, c, given, more);
    }
  }

  // ----- the send of each reply

  /** What is delivered by a send of this reply that does not raise: the reply, if the peer is registered now. */
  function Outcome(codec: Codec, peers: set<string>, rule: Rule, msg: Message): seq<(string, Bytes)>
    requires ReplyTo(codec, rule, msg).Some?
  {
    if msg.f.peerAddr.Some? && msg.f.peerAddr.value != "" && msg.f.peerAddr.value in peers then
      [(msg.f.peerAddr.value, ReplyTo(codec, rule, msg).value)]
    else
      []
  }

  /** From `s` to `next` the connection sends the reply of this rule to the message of its n-th arrival. */
  ghost predicate Sends(codec: Codec, s: State, a: Step, next: State, c: nat, x: Answer) {
    && a.Send? && a.c == c && Enabled(s, a) && |s.tasks[c].arrivals| == x.2 + 1
    && ReplyTo(codec, x.0, x.1).Some?
    && s.tasks[c].phase == Replying(x.0, x.1, ReplyTo(codec, x.0, x.1).value)
    && next.delivered == s.delivered + Outcome(codec, s.peers, x.0, x.1)
  }

  /** A send after which the reply goes on to the log has not raised. */
  lemma SentOff(codec: Codec, s: State, a: Step, c: nat)
    requires Inv(codec, s) && a.Send? && a.c == c && Enabled(s, a) && Do(codec, s, a).tasks[c].phase.Sent?
    ensures |s.tasks[c].arrivals| > 0
    ensures Sends(codec, s, a, Do(codec, s, a), c,
                  (s.tasks[c].phase.rule, s.tasks[c].phase.msg, |s.tasks[c].arrivals| - 1))
  {
    assert TaskOk(codec, s.db, s.tasks[c]);
  }

  ghost predicate SendsAt(codec: Codec, session: string, schedule: seq<Step>, c: nat, i: nat, x: Answer)
    requires i < |schedule|
  {
    Sends(codec, At(codec, Init(session), schedule, i), schedule[i], At(codec, Init(session), schedule, i + 1), c, x)
  }

  ghost predicate SendsBefore(codec: Codec, session: string, schedule: seq<Step>, c: nat, k: nat, x: Answer)
    requires k <= |schedule|
  {
    exists i: nat :: i < k && SendsAt(codec, session, schedule, c, i, x)
  }

  /** The replies that the connection has sent in the first k steps. */
  ghost function SentBy(codec: Codec, session: string, schedule: seq<Step>, c: nat, k: nat): iset<Answer>
    requires k <= |schedule|
  {
    iset x: Answer | SendsBefore(codec, session, schedule, c, k, x)
  }

  lemma SentByNext(codec: Codec, session: string, schedule: seq<Step>, c: nat, k: nat, x: Answer)
    requires k < |schedule|
    ensures x in SentBy(codec, session, schedule, c, k) ==> x in SentBy(codec, session, schedule, c, k + 1)
    ensures SendsAt(codec, session, schedule, c, k, x) ==> x in SentBy(codec, session, schedule, c, k + 1)
  {
  }

  lemma NextGives(codec: Codec, s: State, a: Step, c: nat, given: iset<Answer>, more: iset<Answer>)
    requires Inv(codec, s) && (c in s.tasks ==> AllGiven(s.tasks[c], given)) && given <= more
    requires forall x :: Sends(codec, s, a, Do(codec, s, a), c, x) ==> x in more
    ensures var next := Do(codec, s, a); c in next.tasks ==> AllGiven(next.tasks[c], more)
  {
    if c in s.tasks {
      if a.Send? && a.c == c && Enabled(s, a) && Do(codec, s, a).tasks[c].phase.Sent? {
        SentOff(codec, s, a, c);
      }
      StepGives(codec, s, a, c, given, more);
    } else if c in Do(codec, s, a).tasks {
      StepTasks(codec, s, a, c);
    }
  }

  lemma {:induction false} RunGives(codec: Codec, session: string, schedule: seq<Step>, c: nat, k: nat)
    requires k <= |schedule|
    ensures var s := At(codec, Init(session), schedule, k);
      c in s.tasks ==> AllGiven(s.tasks[c], SentBy(codec, session, schedule, c, k))
  {
    if k > 0 {
      var s := At(codec, Init(session), schedule, k - 1);
      var more := SentBy(codec, session, schedule, c, k);
      RunGives(codec, session, schedule, c, k - 1);
      AlwaysInv(codec, session, schedule[..k - 1]);
      AtStep(codec, Init(session), schedule, k - 1);
      forall x | Sends(codec, s, schedule[k - 1], Do(codec, s, schedule[k - 1]), c, x) ensures x in more {
        SentByNext(codec, session, schedule, c, k - 1, x);
      }
      forall x | x in SentBy(codec, session, schedule, c, k - 1) ensures x in more {
        SentByNext(codec, session, schedule, c, k - 1, x);
      }
      NextGives(codec, s, schedule[k - 1], c, SentBy(codec, session, schedule, c, k - 1), more);
    }
  }

  lemma {:induction false} DeliveredKept(codec: Codec, session: string, schedule: seq<Step>, i: nat, k: nat)
    requires i <= k <= |schedule|
    ensures At(codec, Init(session), schedule, i).delivered <= At(codec, Init(session), schedule, k).delivered
  {
    if i < k {
      DeliveredKept(codec, session, schedule, i, k - 1);
      AtStep(codec, Init(session), schedule, k - 1);
      DeliveredGrows(codec, At(codec, Init(session), schedule, k - 1), schedule[k - 1]);
    }
  }

  lemma DeliveredGrows(codec: Codec, s: State, a: Step)
    ensures s.delivered <= Do(codec, s, a).delivered
  {
  }

  /** The reply that the k-th entry of a log holds. */
  function AnswerOf(t: Task, k: nat): Answer
    requires 0 < k < |t.log| && t.log[k].kind.Reply?
  {
    (t.log[k].kind.rule, t.log[k - 1].row, t.log[k].index)
  }

  /**
   * After any schedule, every reply in a log has a send of its own: at that moment the connection was sending that
   * rule's reply to the message of the row before it, which is the message of the same arrival, and exactly if the
   * connection's address was registered then, the reply was delivered to it, and otherwise nothing was.
   */
  lemma EveryReplyHasItsSend(codec: Codec, session: string, schedule: seq<Step>, c: nat, k: nat)
    requires var s := Exec(codec, Init(session), schedule);
      c in s.tasks && k < |s.tasks[c].log| && s.tasks[c].log[k].kind.Reply?
    ensures var t := Exec(codec, Init(session), schedule).tasks[c];
      && k > 0 && t.log[k - 1].row.f.peerAddr == Some(t.addr)
      && exists i: nat :: i < |schedule| && SendsAt(codec, session, schedule, c, i, AnswerOf(t, k))
  {
    var s := Exec(codec, Init(session), schedule);
    AlwaysInv(codec, session, schedule);
    RunGives(codec, session, schedule, c, |schedule|);
    assert schedule[..|schedule|] == schedule;
    assert TaskOk(codec, s.db, s.tasks[c]);
    assert EntryOk(codec, s.tasks[c], k) && EntryOk(codec, s.tasks[c], k - 1);
    assert AnswerOf(s.tasks[c], k) in SentBy(codec, session, schedule, c, |schedule|);
  }

  /** No two replies of a log share a send. */
  lemma SendsAreDistinct(codec: Codec, session: string, schedule: seq<Step>, c: nat, j: nat, k: nat, i: nat)
    requires i < |schedule|
    requires var s := Exec(codec, Init(session), schedule);
      && c in s.tasks && 0 < j < k < |s.tasks[c].log|
      && s.tasks[c].log[j].kind.Reply? && s.tasks[c].log[k].kind.Reply?
    ensures var t := Exec(codec, Init(session), schedule).tasks[c];
      SendsAt(codec, session, schedule, c, i, AnswerOf(t, j)) ==>
        !SendsAt(codec, session, schedule, c, i, AnswerOf(t, k))
  {
    var s := Exec(codec, Init(session), schedule);
    ConnectionLog(codec, session, schedule, c);
    assert s.tasks[c].log[j].index != s.tasks[c].log[k].index;
  }

  /** The connection's address is registered at each of its sends. */
  ghost predicate AlwaysFindsPeer(codec: Codec, session: string, schedule: seq<Step>, c: nat) {
    forall i :: 0 <= i < |schedule| ==> FindsPeer(At(codec, Init(session), schedule, i), schedule[i], c)
  }

  ghost predicate FindsPeer(s: State, a: Step, c: nat) {
    a.Send? && a.c == c && Enabled(s, a) ==> s.tasks[c].addr != "" && s.tasks[c].addr in s.peers
  }

  /** A send that finds the peer delivers. */
  lemma SendDelivers(codec: Codec, s: State, a: Step, next: State, c: nat, x: Answer)
    requires Inv(codec, s) && Sends(codec, s, a, next, c, x) && FindsPeer(s, a, c)
    ensures x.1.f.peerAddr.Some? && (x.1.f.peerAddr.value, ReplyTo(codec, x.0, x.1).value) in next.delivered
  {
    assert TaskOk(codec, s.db, s.tasks[c]);
    AnswersPeer(codec, s.db, s.tasks[c], x.1);
    assert next.delivered[|s.delivered|] == (x.1.f.peerAddr.value, ReplyTo(codec, x.0, x.1).value);
  }

  lemma SendIsDelivered(codec: Codec, session: string, schedule: seq<Step>, c: nat, i: nat, x: Answer)
    requires i < |schedule| && SendsAt(codec, session, schedule, c, i, x)
    requires FindsPeer(At(codec, Init(session), schedule, i), schedule[i], c)
    ensures ReplyTo(codec, x.0, x.1).Some? && x.1.f.peerAddr.Some?
    ensures (x.1.f.peerAddr.value, ReplyTo(codec, x.0, x.1).value) in Exec(codec, Init(session), schedule).delivered
  {
    AlwaysInv(codec, session, schedule[..i]);
    SendDelivers(codec, At(codec, Init(session), schedule, i), schedule[i],
                 At(codec, Init(session), schedule, i + 1), c, x);
    DeliveredKept(codec, session, schedule, i + 1, |schedule|);
    assert schedule[..|schedule|] == schedule;
  }

  /**
   * After any schedule: if a connection's address is registered at each of its sends, every reply in its log, which its
   * rule makes of the row before it, was sent to that address.
   */
  lemma LoggedIsDelivered(codec: Codec, session: string, schedule: seq<Step>, c: nat, k: nat)
    requires AlwaysFindsPeer(codec, session, schedule, c)
    requires var s := Exec(codec, Init(session), schedule);
      c in s.tasks && k < |s.tasks[c].log| && s.tasks[c].log[k].kind.Reply?
    ensures var s := Exec(codec, Init(session), schedule); var t := s.tasks[c];
      && k > 0 && ReplyTo(codec, t.log[k].kind.rule, t.log[k - 1].row).Some?
      && (t.addr, ReplyTo(codec, t.log[k].kind.rule, t.log[k - 1].row).value) in s.delivered
  {
    EveryReplyHasItsSend(codec, session, schedule, c, k);
    var x := AnswerOf(Exec(codec, Init(session), schedule).tasks[c], k);
    var i: nat :| i < |schedule| && SendsAt(codec, session, schedule, c, i, x);
    SendIsDelivered(codec, session, schedule, c, i, x);
  }

  // ----- nothing is delivered to an address that is not registered

  ghost predicate NotSentTo(delivered: seq<(string, Bytes)>, addr: string) {
    forall i :: 0 <= i < |delivered| ==> delivered[i].0 != addr
  }

  lemma SendElsewhere(codec: Codec, s: State, a: Step, addr: string)
    requires NotSentTo(s.delivered, addr) && (a.Send? ==> addr !in s.peers)
    ensures NotSentTo(Do(codec, s, a).delivered, addr)
  {
  }

  lemma {:induction false} RunElsewhere(codec: Codec, session: string, schedule: seq<Step>, addr: string, k: nat)
    requires k <= |schedule|
    requires forall i :: 0 <= i < |schedule| && schedule[i].Send? ==>
      addr !in At(codec, Init(session), schedule, i).peers
    ensures NotSentTo(At(codec, Init(session), schedule, k).delivered, addr)
  {
    if k > 0 {
      RunElsewhere(codec, session, schedule, addr, k - 1);
      AtStep(codec, Init(session), schedule, k - 1);
      SendElsewhere(codec, At(codec, Init(session), schedule, k - 1), schedule[k - 1], addr);
    }
  }

  /** After any schedule: an address that is registered at no send has been sent nothing, whatever the log says. */
  lemma UnknownGetsNothing(codec: Codec, session: string, schedule: seq<Step>, addr: string)
    requires forall i :: 0 <= i < |schedule| && schedule[i].Send? ==>
      addr !in At(codec, Init(session), schedule, i).peers
    ensures forall reply :: (addr, reply) !in Exec(codec, Init(session), schedule).delivered
  {
    RunElsewhere(codec, session, schedule, addr, |schedule|);
    assert schedule[..|schedule|] == schedule;
  }

  // ----- a run that logs a reply and delivers nothing

  lemma ReplyingUnknown(codec: Codec, s: State, c: nat, w: World)
    requires c in s.tasks && s.tasks[c].phase.Replying? && !s.tasks[c].cancelled
    requires !Reaches(s.peers, s.tasks[c].phase.msg)
    ensures var t := SendAndLog(codec, s, c, w);
      && t.delivered == s.delivered && c in t.tasks && |t.tasks[c].log| == |s.tasks[c].log| + 1
      && var e := t.tasks[c].log[|s.tasks[c].log|];
         e.kind == Reply(s.tasks[c].phase.rule) && e.row.id in t.db.messages && t.db.messages[e.row.id] == e.row
  {
  }

  /** A runtime that encodes everything and decodes nothing. */
  function OneReply(): Codec {
    Codec((p: Pdu) => Some([1]), (b: Bytes) => None)
  }

  const ANSWER_ALL := Spec(true, "*", None, None, None, "auto_reply", Some("WRR_SUCCESS"), 0, 0)

  const WORLD := World({}, true, 0, 0)

  function Received(): seq<Step> {
    [CreateRule(ANSWER_ALL), Open(0, "peer", 1), Arrive(0, [0]), ReadSession(0, 0, 0), LogInbound(0)]
  }

  /** One rule, one connection, one message; nobody is registered. */
  function Silent(): seq<Step> {
    Received() + Steps(0, WORLD)
  }

  /** A message is logged, the one rule answers everything, and nothing was ever sent. */
  ghost predicate Waiting(s: State) {
    && Valid(s.db) && s.db.rules == map[1 := Rule(1, ANSWER_ALL, 0)] && s.peers == {} && s.delivered == []
    && 0 in s.tasks && s.tasks[0].phase.Saved? && !s.tasks[0].cancelled && |s.tasks[0].log| == 1
  }

  lemma ExecFive(codec: Codec, s: State, steps: seq<Step>)
    requires |steps| == 5
    ensures Exec(codec, s, steps)
         == Do(codec, Do(codec, Do(codec, Do(codec, Do(codec, s, steps[0]), steps[1]), steps[2]), steps[3]), steps[4])
  {
    AtStep(codec, s, steps, 0);
    AtStep(codec, s, steps, 1);
    AtStep(codec, s, steps, 2);
    AtStep(codec, s, steps, 3);
    AtStep(codec, s, steps, 4);
    assert steps[..5] == steps;
  }

  lemma FirstTwo(codec: Codec)
    ensures var s := Do(codec, Do(codec, Init("s"), CreateRule(ANSWER_ALL)), Open(0, "peer", 1));
      && s.db == SaveRule(Empty("s"), ANSWER_ALL) && s.peers == {} && s.delivered == []
      && s.tasks == map[0 := Task("peer", 1, Idle, false, [], [], {})]
  {
  }

  lemma NextThree(codec: Codec, s: State)
    requires s.db == SaveRule(Empty("s"), ANSWER_ALL) && s.peers == {} && s.delivered == []
    requires s.tasks == map[0 := Task("peer", 1, Idle, false, [], [], {})]
    ensures Waiting(Do(codec, Do(codec, Do(codec, s, Arrive(0, [0])), ReadSession(0, 0, 0)), LogInbound(0)))
  {
    var s1 := Do(codec, s, Arrive(0, [0]));
    assert s1.tasks[0].phase == Arrived([0]);
    var s2 := Do(codec, s1, ReadSession(0, 0, 0));
    assert s2.tasks[0].phase.Stamped? && s2.db == s.db;
  }

  lemma ReceivedWaits(codec: Codec)
    ensures Waiting(Exec(codec, Init("s"), Received()))
  {
    ExecFive(codec, Init("s"), Received());
    FirstTwo(codec);
    NextThree(codec, Do(codec, Do(codec, Init("s"), CreateRule(ANSWER_ALL)), Open(0, "peer", 1)));
  }

  lemma AnswersAll(s: State, msg: Message)
    requires Waiting(s)
    ensures ReplyWanted(OneReply(), s.db, msg) == Some((Rule(1, ANSWER_ALL, 0), [1]))
  {
    ChosenIsLowest(s.db, msg);
    assert Declared(s.db.rules[1], msg);
    assert Rules.Chosen(s.db, msg).Some?;
    assert Encoder.TemplateOf("WRR_SUCCESS") == Some(Encoder.WrrSuccess);
  }

  lemma WaitingIsSilent(s: State)
    requires Waiting(s)
    ensures var t := Exec(OneReply(), s, Steps(0, WORLD));
      && t.delivered == [] && 0 in t.tasks && |t.tasks[0].log| == 2
      && var e := t.tasks[0].log[1]; e.kind.Reply? && e.row.id in t.db.messages && t.db.messages[e.row.id] == e.row
  {
    var msg := s.tasks[0].phase.msg;
    var counted := Do(OneReply(), Do(OneReply(), s, Snapshot(0)), Increment(0));
    ExecSteps(OneReply(), s, 0, WORLD);
    Counts(OneReply(), s, 0);
    AnswersAll(s, msg);
    LogStep(OneReply(), s, Snapshot(0), 0);
    LogStep(OneReply(), Do(OneReply(), s, Snapshot(0)), Increment(0), 0);
    ReplyingUnknown(OneReply(), counted, 0, WORLD);
  }

  /** The run ends with a reply in the log and in the table, and with nothing delivered to anybody. */
  lemma LoggedWithoutDelivery()
    ensures var s := Exec(OneReply(), Init("s"), Silent());
      && s.delivered == [] && 0 in s.tasks && |s.tasks[0].log| == 2
      && var e := s.tasks[0].log[1]; e.kind.Reply? && e.row.id in s.db.messages && s.db.messages[e.row.id] == e.row
  {
    ReceivedWaits(OneReply());
    ExecConcat(OneReply(), Init("s"), Received(), Steps(0, WORLD));
    WaitingIsSilent(Exec(OneReply(), Init("s"), Received()));
  }

  // ----- who is registered

  lemma PeersSet(codec: Codec, s: State, peers: set<string>)
    ensures Do(codec, s, SetPeers(peers)) == s.(peers := peers)
  {
  }

  lemma ReplyIsSent(codec: Codec, s: State, c: nat)
    requires Inv(codec, s) && c in s.tasks && s.tasks[c].phase.Replying?
    ensures ReplyTo(codec, s.tasks[c].phase.rule, s.tasks[c].phase.msg) == Some(s.tasks[c].phase.reply)
    ensures Do(codec, s, Send(c, true)).delivered
         == s.delivered + Outcome(codec, s.peers, s.tasks[c].phase.rule, s.tasks[c].phase.msg)
  {
    assert TaskOk(codec, s.db, s.tasks[c]);
  }

  /** Whoever is registered when a reply is sent gets it, and nobody else does. */
  lemma RegisteredThenSent(codec: Codec, s: State, peers: set<string>, c: nat)
    requires Inv(codec, s) && c in s.tasks && s.tasks[c].phase.Replying?
    ensures ReplyTo(codec, s.tasks[c].phase.rule, s.tasks[c].phase.msg).Some?
    ensures Do(codec, Do(codec, s, SetPeers(peers)), Send(c, true)).delivered
         == s.delivered + Outcome(codec, peers, s.tasks[c].phase.rule, s.tasks[c].phase.msg)
  {
    StepKeepsInv(codec, s, SetPeers(peers));
    PeersSet(codec, s, peers);
    ReplyIsSent(codec, s.(peers := peers), c);
  }
}
