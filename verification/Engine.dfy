/**
 * The message pipeline of many connections over one store, as interleaved steps.
 *
 * A connection handles one message after another; every `await` of `_on_message`, `evaluate` and `_execute` ends a
 * step, and the steps of different connections, of the API and of the send endpoint interleave in any order.
 * A schedule is any sequence of steps; a step that is not enabled changes nothing, so every schedule is a run.
 */
module Engine {
  import opened Octets
  import opened SbcAp
  import opened Store
  import opened Rules

  /** What a connection is awaiting. */
  datatype Phase =
    | Idle                                                // recv
    | Arrived(raw: Bytes)                                 // get_current_session_id of _on_message
    | Stamped(fields: Fields)                             // save_message of _on_message
    | Saved(msg: Message)                                 // hub broadcast, then get_rules
    | Chosen(rule: Rule, msg: Message)                    // the delay, then increment_fired
    | Replying(rule: Rule, msg: Message, reply: Bytes)    // send_to_peer
    | Sent(rule: Rule, msg: Message, reply: Bytes)        // get_current_session_id of _execute
    | Logging(rule: Rule, msg: Message, fields: Fields)   // save_message of _execute
    | Closed

  datatype Kind = Inbound | Reply(rule: Rule)

  /** A row that a connection saved, with the number of the arrival it belongs to. */
  datatype Entry = Entry(row: Message, kind: Kind, index: nat)

  /**
   * A connection. `arrivals`, `log` and `lost` are history: what was received, which rows were saved for it,
   * and which arrivals were given up before their row was saved.
   */
  datatype Task = Task(
    addr: string,
    port: int,
    phase: Phase,
    cancelled: bool,
    arrivals: seq<Bytes>,
    log: seq<Entry>,
    lost: set<nat>)

  /**
   * `peers` are the addresses that send_to_peer can reach; `delivered` is the history of its sends. `increments`
   * counts the increment steps performed, `missed` those whose rule was gone, and `retired` adds up the counters
   * of the rules removed. `manual` are the octets of the rows of the send endpoint, by
   * their ids.
   */
  datatype State = State(
    db: Db,
    tasks: map<nat, Task>,
    peers: set<string>,
    delivered: seq<(string, Bytes)>,
    increments: nat,
    missed: nat,
    retired: nat,
    manual: map<nat, Bytes>)

  datatype Step =
    | Open(c: nat, addr: string, port: int)
    | Arrive(c: nat, raw: Bytes)
    | ReadSession(c: nat, seconds: int, microseconds: nat)
    | LogInbound(c: nat)
    | Snapshot(c: nat)
    | Increment(c: nat)
    | Send(c: nat, ok: bool)
    | ReadSessionAgain(c: nat, seconds: int, microseconds: nat)
    | LogReply(c: nat)
    | Fail(c: nat)
    | Cancel(c: nat)
    | Close(c: nat)
    | CreateRule(spec: Spec)
    | RemoveRule(id: nat)
    | RemoveAllRules
    | RemoveAllMessages
    | Reset(session: string)
    | LogManual(raw: Bytes, session: string, seconds: int, microseconds: nat)
    | SetPeers(peers: set<string>)

  /** The largest message that one recv gives. */
  const RECV_LIMIT: nat := 65535

  function Init(session: string): State {
    State(Empty(session), map[], {}, [], 0, 0, 0, map[])
  }

  predicate Enabled(s: State, a: Step) {
    match a
    case Open(c, _, _) => c !in s.tasks
    case Arrive(c, raw) => c in s.tasks && s.tasks[c].phase.Idle? && !s.tasks[c].cancelled && 0 < |raw| <= RECV_LIMIT
    case ReadSession(c, _, _) => c in s.tasks && s.tasks[c].phase.Arrived?
    case LogInbound(c) => c in s.tasks && s.tasks[c].phase.Stamped?
    case Snapshot(c) => c in s.tasks && s.tasks[c].phase.Saved?
    case Increment(c) => c in s.tasks && s.tasks[c].phase.Chosen?
    case Send(c, _) => c in s.tasks && s.tasks[c].phase.Replying?
    case ReadSessionAgain(c, _, _) => c in s.tasks && s.tasks[c].phase.Sent?
    case LogReply(c) => c in s.tasks && s.tasks[c].phase.Logging?
    case Fail(c) => c in s.tasks && !s.tasks[c].phase.Idle? && !s.tasks[c].phase.Closed? && !s.tasks[c].cancelled
    case Cancel(c) => c in s.tasks && !s.tasks[c].phase.Closed?
    case Close(c) => c in s.tasks && (s.tasks[c].phase.Idle? || (s.tasks[c].cancelled && !s.tasks[c].phase.Closed?))
    case _ => true
  }

  /** The arrivals lost so far if the current one is given up now. */
  function LostNow(t: Task): set<nat> {
    if (t.phase.Arrived? || t.phase.Stamped?) && |t.arrivals| > 0 then t.lost + {|t.arrivals| - 1} else t.lost
  }

  function Abandon(t: Task, p: Phase): Task {
    t.(phase := p, lost := LostNow(t))
  }

  /** A handler that was cancelled while it awaited a store call ends with that call, whose effect stays. */
  function Settle(t: Task, p: Phase): Task {
    var u := t.(phase := p);
    if t.cancelled then Abandon(u, Closed) else u
  }

  function SettleIn(s: State, c: nat, p: Phase): State
    requires c in s.tasks
  {
    s.(tasks := s.tasks[c := Settle(s.tasks[c], p)])
  }

  /** The task with one more row in its history. */
  function Logged(t: Task, row: Message, kind: Kind): Task {
    t.(log := t.log + [Entry(row, kind, if |t.arrivals| > 0 then |t.arrivals| - 1 else 0)])
  }

  /** `send_to_peer` finds nobody for an address that is not registered, and then nothing is sent. */
  predicate Reachable(s: State, msg: Message) {
    Reaches(s.peers, msg)
  }

  function AfterSnapshot(db: Db, msg: Message): Phase {
    match Rules.Chosen(db, msg)
    case None => Idle
    case Some(rule) => Chosen(rule, msg)
  }

  /** Once the increment has returned, `_execute` ends unless there are octets to send. */
  function AfterIncrement(codec: Codec, t: Task): Phase
    requires t.phase.Chosen?
  {
    match ReplyTo(codec, t.phase.rule, t.phase.msg)
    case None => Idle
    case Some(reply) => Replying(t.phase.rule, t.phase.msg, reply)
  }

  /** A send that raises ends the evaluation; an unknown peer does not. */
  function AfterSend(s: State, t: Task, ok: bool): Phase
    requires t.phase.Replying?
  {
    if Reachable(s, t.phase.msg) && !ok then Idle else Sent(t.phase.rule, t.phase.msg, t.phase.reply)
  }

  function FiredOf(db: Db, id: nat): nat {
    if id in db.rules then db.rules[id].fired else 0
  }

  /** The counters of all rules, added up. */
  function SumFired(rules: map<nat, Rule>, hi: nat): nat {
    if hi == 0 then 0 else SumFired(rules, hi - 1) + if hi - 1 in rules then rules[hi - 1].fired else 0
  }

  function AllFired(db: Db): nat {
    SumFired(db.rules, db.lastRule + 1)
  }

  function Apply(codec: Codec, s: State, a: Step): State
    requires Enabled(s, a)
  {
    match a
    case Open(c, addr, port) => s.(tasks := s.tasks[c := Task(addr, port, Idle, false, [], [], {})])
    case Arrive(c, raw) =>
      var t := s.tasks[c];
      s.(tasks := s.tasks[c := t.(phase := Arrived(raw), arrivals := t.arrivals + [raw])])
    case ReadSession(c, seconds, microseconds) =>
      var t := s.tasks[c];
      SettleIn(s, c, Stamped(InboundFields(codec, t.phase.raw, s.db.session, t.addr, t.port, seconds, microseconds)))
    case LogInbound(c) =>
      var t := s.tasks[c];
      var row := SavedRow(s.db, t.phase.fields);
      s.(db := SaveMessage(s.db, t.phase.fields),
         tasks := s.tasks[c := Settle(Logged(t, row, Inbound), Saved(row))])
    case Snapshot(c) =>
      var msg := s.tasks[c].phase.msg;
      SettleIn(s, c, AfterSnapshot(s.db, msg))
    case Increment(c) =>
      var id := s.tasks[c].phase.rule.id;
      SettleIn(s, c, AfterIncrement(codec, s.tasks[c])).(
        db := IncrementFired(s.db, id),
        increments := s.increments + 1,
        missed := s.missed + if id in s.db.rules then 0 else 1)
    case Send(c, ok) =>
      var Replying(_, msg, reply) := s.tasks[c].phase;
      SettleIn(s, c, AfterSend(s, s.tasks[c], ok)).(
        delivered := s.delivered + if Reachable(s, msg) && ok then [(msg.f.peerAddr.value, reply)] else [])
    case ReadSessionAgain(c, seconds, microseconds) =>
      var Sent(rule, msg, reply) := s.tasks[c].phase;
      SettleIn(s, c, Logging(rule, msg, ReplyFields(codec, rule, msg, reply, s.db.session, seconds, microseconds)))
    case LogReply(c) =>
      var t := s.tasks[c];
      var row := SavedRow(s.db, t.phase.fields);
      s.(db := SaveMessage(s.db, t.phase.fields),
         tasks := s.tasks[c := Settle(Logged(t, row, Reply(t.phase.rule)), Idle)])
    case Fail(c) => s.(tasks := s.tasks[c := Abandon(s.tasks[c], Idle)])
    case Cancel(c) => s.(tasks := s.tasks[c := s.tasks[c].(cancelled := true)])
    case Close(c) => s.(tasks := s.tasks[c := Abandon(s.tasks[c], Closed)])
    case CreateRule(spec) => s.(db := SaveRule(s.db, spec))
    case RemoveRule(id) => s.(db := DeleteRule(s.db, id), retired := s.retired + FiredOf(s.db, id))
    case RemoveAllRules => s.(db := DeleteAllRules(s.db), retired := s.retired + AllFired(s.db))
    case RemoveAllMessages => s.(db := DeleteAllMessages(s.db))
    case Reset(session) => s.(db := ResetSession(s.db, session), retired := s.retired + AllFired(s.db))
    case LogManual(raw, session, seconds, microseconds) => s.(
      db := SaveMessage(s.db, ManualFields(codec, raw, session, seconds, microseconds)),
      manual := s.manual[s.db.lastMessage + 1 := raw])
    case SetPeers(peers) => s.(peers := peers)
  }

  function Do(codec: Codec, s: State, a: Step): State {
    if Enabled(s, a) then Apply(codec, s, a) else s
  }

  /** The state after a schedule. */
  function Exec(codec: Codec, s: State, schedule: seq<Step>): State {
    if schedule == [] then s
    else Do(codec, Exec(codec, s, schedule[..|schedule| - 1]), schedule[|schedule| - 1])
  }

  /** The state after the first `n` steps. */
  function At(codec: Codec, s: State, schedule: seq<Step>, n: nat): State
    requires n <= |schedule|
  {
    Exec(codec, s, schedule[..n])
  }

  lemma AtStep(codec: Codec, s: State, schedule: seq<Step>, n: nat)
    requires n < |schedule|
    ensures At(codec, s, schedule, n + 1) == Do(codec, At(codec, s, schedule, n), schedule[n])
  {
    assert schedule[..n + 1][..n] == schedule[..n];
  }

  lemma {:induction false} ExecConcat(codec: Codec, s: State, a: seq<Step>, b: seq<Step>)
    ensures Exec(codec, s, a + b) == Exec(codec, Exec(codec, s, a), b)
    decreases |b|
  {
    if b == [] {
      assert a + b == a;
    } else {
      ExecConcat(codec, s, a, b[..|b| - 1]);
      assert (a + b)[..|a + b| - 1] == a + b[..|b| - 1];
    }
  }
}
