/** rules.py: an evaluation that runs alone on the store, and the steps of the interleaved model that it refines. */
module RuleEngine {
  import opened Wrappers
  import opened Octets
  import opened SbcAp
  import opened Store
  import opened Rules
  import opened Engine
  import Base64

  /** What the world decides during an evaluation: who can be reached, whether the send raises, and the clock. */
  datatype World = World(peers: set<string>, sendOk: bool, seconds: int, microseconds: nat)

  /** The octets to send for the message, and the rule that wants them sent. */
  function ReplyWanted(codec: Codec, db: Db, msg: Message): Option<(Rule, Bytes)> {
    match Rules.Chosen(db, msg)
    case None => None
    case Some(rule) =>
      match ReplyTo(codec, rule, msg)
      case None => None
      case Some(reply) => Some((rule, reply))
  }

  /** The store after the count and before the send. */
  function Counted(db: Db, msg: Message): Db {
    match Rules.Chosen(db, msg)
    case None => db
    case Some(rule) => IncrementFired(db, rule.id)
  }

  /** The store after an evaluation that nothing interrupts. */
  function Evaluated(codec: Codec, db: Db, msg: Message, w: World): Db {
    var counted := Counted(db, msg);
    match ReplyWanted(codec, db, msg)
    case None => counted
    case Some((rule, reply)) =>
      if Reaches(w.peers, msg) && !w.sendOk then counted
      else SaveMessage(counted, ReplyFields(codec, rule, msg, reply, db.session, w.seconds, w.microseconds))
  }

  /** What such an evaluation sends. */
  function Delivered(codec: Codec, db: Db, msg: Message, w: World): Option<Bytes> {
    match ReplyWanted(codec, db, msg)
    case None => None
    case Some((_, reply)) => if Reaches(w.peers, msg) && w.sendOk then Some(reply) else None
  }

  /** Whether an address can be sent to. */
  predicate Registered(w: World, msg: Message) {
    msg.f.peerAddr.Some? && msg.f.peerAddr.value != "" && msg.f.peerAddr.value in w.peers
  }

  /**
   * An evaluation sends these octets if and only if they are what the encoder makes of the template of the chosen rule,
   * the peer is registered, and the send does not raise.
   */
  lemma EvaluationSends(codec: Codec, db: Db, msg: Message, w: World)
    ensures forall reply :: Delivered(codec, db, msg, w) == Some(reply) <==>
      && Rules.Chosen(db, msg).Some? && Encodes(codec, Rules.Chosen(db, msg).value, msg, reply)
      && Registered(w, msg) && w.sendOk
  {
    if Rules.Chosen(db, msg).Some? {
      forall reply ensures ReplyTo(codec, Rules.Chosen(db, msg).value, msg) == Some(reply)
                      <==> Encodes(codec, Rules.Chosen(db, msg).value, msg, reply)
      {
        RepliesItsTemplate(codec, Rules.Chosen(db, msg).value, msg, reply);
      }
    }
  }

  /** It counts the chosen rule once and no other, whether or not there is anything to send. */
  lemma EvaluationCounts(codec: Codec, db: Db, msg: Message, w: World, r: nat)
    requires Valid(db) && r in db.rules
    ensures var next := Evaluated(codec, db, msg, w);
      && r in next.rules && next.rules[r].spec == db.rules[r].spec
      && next.rules[r].fired
         == db.rules[r].fired + if Rules.Chosen(db, msg).Some? && Rules.Chosen(db, msg).value.id == r then 1 else 0
  {
    ChosenIsLowest(db, msg);
  }

  /** A row for these octets that goes back the way the message came. */
  predicate AnswerRow(f: Fields, rule: Rule, msg: Message, reply: Bytes, session: string, w: World) {
    && f.rawB64 == Base64.Encode(reply) && f.ruleId == Some(rule.id)
    && f.direction == "outbound" && f.peerAddr == msg.f.peerAddr && f.localPort == msg.f.localPort
    && f.transport == msg.f.transport
    && f.sessionId == session && f.seconds == w.seconds && f.microseconds == w.microseconds
  }

  lemma ReplyFieldsAnswer(codec: Codec, rule: Rule, msg: Message, reply: Bytes, session: string, w: World)
    ensures var f := ReplyFields(codec, rule, msg, reply, session, w.seconds, w.microseconds);
      AnswerRow(f, rule, msg, reply, session, w)
  {
  }

  lemma EvaluationSaves(codec: Codec, db: Db, msg: Message, w: World, reply: Bytes)
    requires Rules.Chosen(db, msg).Some? && Encodes(codec, Rules.Chosen(db, msg).value, msg, reply)
    requires !(Registered(w, msg) && !w.sendOk)
    ensures Evaluated(codec, db, msg, w)
         == SaveMessage(Counted(db, msg), ReplyFields(codec, Rules.Chosen(db, msg).value, msg, reply, db.session,
                                                      w.seconds, w.microseconds))
  {
    RepliesItsTemplate(codec, Rules.Chosen(db, msg).value, msg, reply);
  }

  lemma CountedKeepsMessages(db: Db, msg: Message)
    ensures KeepsMessages(db, Counted(db, msg)) && Counted(db, msg).session == db.session
  {
  }

  /**
   * If the chosen rule's template gives octets and their send does not raise, one row is logged: it holds the octets,
   * the session and the time, and goes back the way the message came.
   */
  lemma EvaluationLogs(codec: Codec, db: Db, msg: Message, w: World, reply: Bytes)
    requires Rules.Chosen(db, msg).Some? && Encodes(codec, Rules.Chosen(db, msg).value, msg, reply)
    requires !(Registered(w, msg) && !w.sendOk)
    ensures var next := Evaluated(codec, db, msg, w); var id := db.lastMessage + 1;
      && next.lastMessage == id && id in next.messages && next.messages == db.messages[id := next.messages[id]]
      && AnswerRow(next.messages[id].f, Rules.Chosen(db, msg).value, msg, reply, db.session, w)
  {
    var rule := Rules.Chosen(db, msg).value;
    var f := ReplyFields(codec, rule, msg, reply, db.session, w.seconds, w.microseconds);
    EvaluationSaves(codec, db, msg, w, reply);
    CountedKeepsMessages(db, msg);
    MessageUpdates(Counted(db, msg), f);
    ReplyFieldsAnswer(codec, rule, msg, reply, db.session, w);
  }

  /** Otherwise nothing is logged. */
  lemma EvaluationLogsNothing(codec: Codec, db: Db, msg: Message, w: World)
    requires Rules.Chosen(db, msg).Some? && !(Registered(w, msg) && !w.sendOk) ==>
      forall reply :: !Encodes(codec, Rules.Chosen(db, msg).value, msg, reply)
    ensures var next := Evaluated(codec, db, msg, w);
      next.messages == db.messages && next.lastMessage == db.lastMessage
  {
    if Rules.Chosen(db, msg).Some? && ReplyTo(codec, Rules.Chosen(db, msg).value, msg).Some? {
      var rule := Rules.Chosen(db, msg).value;
      RepliesItsTemplate(codec, rule, msg, ReplyTo(codec, rule, msg).value);
    }
  }

  class RuleEngine {
    const store: Store

    constructor (store: Store)
      ensures this.store == store
    {
      this.store := store;
    }

    /** `evaluate` with `_execute`. */
    method Evaluate(codec: Codec, msg: Message, w: World) returns (delivered: Option<Bytes>)
      requires Valid(store.View())
      modifies store
      ensures Valid(store.View())
      ensures store.View() == Evaluated(codec, old(store.View()), msg, w)
      ensures delivered == Delivered(codec, old(store.View()), msg, w)
      ensures delivered.Some? ==>
        && Rules.Chosen(old(store.View()), msg).Some?
        && Encodes(codec, Rules.Chosen(old(store.View()), msg).value, msg, delivered.value)
    {
      EvaluationSends(codec, store.View(), msg, w);
      var rules := store.ActiveRules();
      var rule := FindMatch(rules, msg);
      if rule.None? {
        return None;
      }
      store.Increment(rule.value.id);
      var reply := ReplyTo(codec, rule.value, msg);
      if reply.None? {
        return None;
      }
      delivered := None;
      if Reaches(w.peers, msg) {
        if !w.sendOk {
          return None;
        }
        delivered := reply;
      }
      var row := store.Save(
        ReplyFields(codec, rule.value, msg, reply.value, store.session, w.seconds, w.microseconds));
    }
  }

  // ----- the interleaved model, when nothing interleaves

  function Steps(c: nat, w: World): seq<Step> {
    [Snapshot(c), Increment(c), Send(c, w.sendOk), ReadSessionAgain(c, w.seconds, w.microseconds), LogReply(c)]
  }

  lemma ExecSteps(codec: Codec, s: State, c: nat, w: World)
    ensures Exec(codec, s, Steps(c, w))
         == SendAndLog(codec, Do(codec, Do(codec, s, Snapshot(c)), Increment(c)), c, w)
  {
    var steps := Steps(c, w);
    AtStep(codec, s, steps, 0);
    AtStep(codec, s, steps, 1);
    AtStep(codec, s, steps, 2);
    AtStep(codec, s, steps, 3);
    AtStep(codec, s, steps, 4);
    assert steps[..5] == steps;
  }

  function SendAndLog(codec: Codec, s: State, c: nat, w: World): State {
    Do(codec, Do(codec, Do(codec, s, Send(c, w.sendOk)), ReadSessionAgain(c, w.seconds, w.microseconds)), LogReply(c))
  }

  function Wants(wanted: Option<(Rule, Bytes)>, msg: Message): Phase {
    match wanted
    case None => Idle
    case Some((rule, reply)) => Replying(rule, msg, reply)
  }

  lemma Counts(codec: Codec, s: State, c: nat)
    requires c in s.tasks && s.tasks[c].phase.Saved? && !s.tasks[c].cancelled
    ensures var msg := s.tasks[c].phase.msg; var t := Do(codec, Do(codec, s, Snapshot(c)), Increment(c));
      && t.db == Counted(s.db, msg) && t.delivered == s.delivered && t.peers == s.peers
      && c in t.tasks && !t.tasks[c].cancelled
      && t.tasks[c].phase == Wants(ReplyWanted(codec, s.db, msg), msg)
  {
  }

  lemma NothingToSend(codec: Codec, s: State, c: nat, w: World)
    requires c in s.tasks && s.tasks[c].phase.Idle?
    ensures SendAndLog(codec, s, c, w) == s
  {
  }

  lemma SendsAndLogs(codec: Codec, s: State, c: nat, w: World)
    requires c in s.tasks && s.tasks[c].phase.Replying? && !s.tasks[c].cancelled && s.peers == w.peers
    ensures var Replying(rule, msg, reply) := s.tasks[c].phase; var t := SendAndLog(codec, s, c, w);
      && t.db == (if Reaches(w.peers, msg) && !w.sendOk then s.db
                  else SaveMessage(s.db, ReplyFields(codec, rule, msg, reply, s.db.session, w.seconds, w.microseconds)))
      && t.delivered
         == s.delivered + (if Reaches(w.peers, msg) && w.sendOk then [(msg.f.peerAddr.value, reply)] else [])
      && c in t.tasks && t.tasks[c].phase.Idle?
  {
  }

  /** With nothing in between, the five steps of an evaluation do to the store and to the peers what `Evaluate` does. */
  lemma AloneRefines(codec: Codec, s: State, c: nat, w: World)
    requires c in s.tasks && s.tasks[c].phase.Saved? && !s.tasks[c].cancelled && s.peers == w.peers
    ensures var msg := s.tasks[c].phase.msg; var t := Exec(codec, s, Steps(c, w));
      && t.db == Evaluated(codec, s.db, msg, w)
      && t.delivered == s.delivered
           + (match Delivered(codec, s.db, msg, w) case None => [] case Some(reply) => [(msg.f.peerAddr.value, reply)])
      && c in t.tasks && t.tasks[c].phase.Idle?
  {
    ExecSteps(codec, s, c, w);
    Counts(codec, s, c);
    var t := Do(codec, Do(codec, s, Snapshot(c)), Increment(c));
    if t.tasks[c].phase.Idle? {
      NothingToSend(codec, t, c, w);
    } else {
      SendsAndLogs(codec, t, c, w);
    }
  }
}
