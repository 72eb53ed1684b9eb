/** What every schedule of the pipeline keeps: the tables, each connection's place in its work, and its log. */
module EngineInvariant {
  import opened Wrappers
  import opened Octets
  import opened SbcAp
  import opened Store
  import opened Rules
  import opened Engine

  /** Key counters never go down, and no row or rule appears under an old key; a rule's counter never goes down. */
  ghost predicate Grows(db: Db, db': Db) {
    && db.lastMessage <= db'.lastMessage && db.lastRule <= db'.lastRule
    && (forall id :: id in db'.messages && id <= db.lastMessage ==>
          id in db.messages && db'.messages[id] == db.messages[id])
    && (forall r :: r in db'.rules && r <= db.lastRule ==>
          r in db.rules && db'.rules[r].spec == db.rules[r].spec && db.rules[r].fired <= db'.rules[r].fired)
  }

  /** The row is the one `_on_message` saves for these octets. */
  ghost predicate IsInbound(codec: Codec, addr: string, port: int, raw: Bytes, f: Fields) {
    f == InboundFields(codec, raw, f.sessionId, addr, port, f.seconds, f.microseconds)
  }

  /** The row is the one `_execute` saves for this rule's reply to this message. */
  ghost predicate IsReply(codec: Codec, rule: Rule, msg: Message, f: Fields) {
    && ReplyTo(codec, rule, msg).Some?
    && f == ReplyFields(codec, rule, msg, ReplyTo(codec, rule, msg).value, f.sessionId, f.seconds, f.microseconds)
  }

  /**
   * One entry of a connection's log: the row of an arrival later than all before it, or, directly after the row of an
   * arrival, the reply of a rule that matched that row.
   */
  ghost predicate EntryOk(codec: Codec, t: Task, i: nat)
    requires i < |t.log|
  {
    var e := t.log[i];
    && e.index < |t.arrivals| && e.index !in t.lost
    && match e.kind
       case Inbound =>
         && IsInbound(codec, t.addr, t.port, t.arrivals[e.index], e.row.f)
         && (i > 0 ==> t.log[i - 1].index < e.index)
       case Reply(rule) =>
         && i > 0 && t.log[i - 1].kind.Inbound? && t.log[i - 1].index == e.index
         && Match(rule, t.log[i - 1].row) && IsReply(codec, rule, t.log[i - 1].row, e.row.f)
  }

  ghost predicate LogOk(codec: Codec, t: Task) {
    forall i :: 0 <= i < |t.log| ==> EntryOk(codec, t, i)
  }

  /** The ids of the log ascend, and a row still in the table is the row that was saved. */
  ghost predicate IdsOk(db: Db, t: Task) {
    && (forall i, j :: 0 <= i < j < |t.log| ==> t.log[i].row.id < t.log[j].row.id)
    && (forall i :: 0 <= i < |t.log| ==>
          && 1 <= t.log[i].row.id <= db.lastMessage
          && (t.log[i].row.id in db.messages ==> db.messages[t.log[i].row.id] == t.log[i].row))
  }

  ghost predicate HasRow(t: Task, k: nat) {
    exists i :: 0 <= i < |t.log| && t.log[i].kind.Inbound? && t.log[i].index == k
  }

  /** Each of the first `n` arrivals was saved or lost. */
  ghost predicate Covered(t: Task, n: nat) {
    && (forall k :: 0 <= k < n ==> k in t.lost || HasRow(t, k))
    && (forall k :: k in t.lost ==> k < n)
  }

  /** All arrivals but the current one are dealt with. */
  ghost predicate Pending(t: Task) {
    && |t.arrivals| > 0
    && Covered(t, |t.arrivals| - 1)
    && forall i :: 0 <= i < |t.log| ==> t.log[i].index < |t.arrivals| - 1
  }

  /** The row of the current arrival is the last one saved. */
  ghost predicate Current(t: Task, msg: Message) {
    && |t.arrivals| > 0
    && Covered(t, |t.arrivals|)
    && |t.log| > 0
    && t.log[|t.log| - 1] == Entry(msg, Inbound, |t.arrivals| - 1)
  }

  /** A rule taken from a snapshot: it matched, and if it still exists only its counter has moved. */
  ghost predicate TakenRule(db: Db, rule: Rule, msg: Message) {
    && Match(rule, msg)
    && 1 <= rule.id <= db.lastRule
    && (rule.id in db.rules ==> db.rules[rule.id].spec == rule.spec && rule.fired <= db.rules[rule.id].fired)
  }

  ghost predicate PhaseOk(codec: Codec, db: Db, t: Task) {
    match t.phase
    case Idle => Covered(t, |t.arrivals|)
    case Closed => Covered(t, |t.arrivals|)
    case Arrived(raw) => Pending(t) && raw == t.arrivals[|t.arrivals| - 1]
    case Stamped(f) => Pending(t) && IsInbound(codec, t.addr, t.port, t.arrivals[|t.arrivals| - 1], f)
    case Saved(msg) => Current(t, msg)
    case Chosen(rule, msg) => Current(t, msg) && TakenRule(db, rule, msg)
    case Replying(rule, msg, reply) =>
      Current(t, msg) && TakenRule(db, rule, msg) && ReplyTo(codec, rule, msg) == Some(reply)
    case Sent(rule, msg, reply) =>
      Current(t, msg) && TakenRule(db, rule, msg) && ReplyTo(codec, rule, msg) == Some(reply)
    case Logging(rule, msg, f) =>
      Current(t, msg) && TakenRule(db, rule, msg) && IsReply(codec, rule, msg, f)
  }

  ghost predicate TaskOk(codec: Codec, db: Db, t: Task) {
    LogOk(codec, t) && IdsOk(db, t) && PhaseOk(codec, db, t)
  }

  ghost predicate TasksOk(codec: Codec, s: State) {
    forall c :: c in s.tasks ==> TaskOk(codec, s.db, s.tasks[c])
  }

  /** No row was saved for two connections, or for a connection and the send endpoint. */
  ghost predicate Separate(s: State) {
    && (forall c, d :: c in s.tasks && d in s.tasks && c != d ==> Apart(s.tasks[c].log, s.tasks[d].log))
    && (forall c :: c in s.tasks ==> NoneOf(s.tasks[c].log, s.manual.Keys))
    && (forall id :: id in s.manual ==> id <= s.db.lastMessage)
  }

  ghost predicate Apart(a: seq<Entry>, b: seq<Entry>) {
    forall i, j :: 0 <= i < |a| && 0 <= j < |b| ==> a[i].row.id != b[j].row.id
  }

  ghost predicate NoneOf(log: seq<Entry>, ids: set<nat>) {
    forall i :: 0 <= i < |log| ==> log[i].row.id !in ids
  }

  ghost predicate InLog(s: State, c: nat, id: nat) {
    c in s.tasks && exists i :: 0 <= i < |s.tasks[c].log| && s.tasks[c].log[i].row.id == id
  }

  /** The row is the one `send_bytes` saves for these octets. */
  ghost predicate IsManual(codec: Codec, raw: Bytes, f: Fields) {
    f == ManualFields(codec, raw, f.sessionId, f.seconds, f.microseconds)
  }

  ghost predicate RowOwned(codec: Codec, s: State, id: nat)
    requires id in s.db.messages
  {
    (id in s.manual && IsManual(codec, s.manual[id], s.db.messages[id].f)) || exists c :: InLog(s, c, id)
  }

  /** Every stored row was saved for some connection or by the send endpoint. */
  ghost predicate Owned(codec: Codec, s: State) {
    forall id :: id in s.db.messages ==> RowOwned(codec, s, id)
  }

  ghost predicate Inv(codec: Codec, s: State) {
    Valid(s.db) && TasksOk(codec, s) && Separate(s)
  }

  /** An evaluation only ever holds a rule whose id has been given out. */
  lemma HeldRules(codec: Codec, s: State)
    requires Inv(codec, s)
    ensures forall c :: c in s.tasks && HoldsRule(s.tasks[c].phase) ==> s.tasks[c].phase.rule.id <= s.db.lastRule
  {
    forall c | c in s.tasks && HoldsRule(s.tasks[c].phase)
      ensures s.tasks[c].phase.rule.id <= s.db.lastRule
    {
      assert TaskOk(codec, s.db, s.tasks[c]);
    }
  }

  predicate HoldsRule(p: Phase) {
    p.Chosen? || p.Replying? || p.Sent? || p.Logging?
  }

  // ----- one task

  /** Entries stay in order while history grows. */
  lemma EntryStays(codec: Codec, t: Task, u: Task, i: nat)
    requires i < |t.log| && EntryOk(codec, t, i)
    requires t.addr == u.addr && t.port == u.port && t.log <= u.log && t.arrivals <= u.arrivals
    requires t.log[i].index !in u.lost
    ensures EntryOk(codec, u, i)
  {
    assert u.log[i] == t.log[i];
    assert i > 0 ==> u.log[i - 1] == t.log[i - 1];
  }

  /** Rows are found again after the log has grown. */
  lemma RowsStay(t: Task, u: Task)
    requires t.log <= u.log
    ensures forall k :: HasRow(t, k) ==> HasRow(u, k)
  {
    forall k | HasRow(t, k) ensures HasRow(u, k) {
      var i :| 0 <= i < |t.log| && t.log[i].kind.Inbound? && t.log[i].index == k;
      assert u.log[i] == t.log[i];
    }
  }

  /** The log of a task whose history has not changed. */
  lemma SameHistory(codec: Codec, db: Db, t: Task, u: Task)
    requires LogOk(codec, t) && IdsOk(db, t)
    requires t.addr == u.addr && t.port == u.port && t.log == u.log && t.arrivals == u.arrivals && t.lost == u.lost
    ensures LogOk(codec, u) && IdsOk(db, u)
    ensures forall k :: HasRow(t, k) ==> HasRow(u, k)
  {
    RowsStay(t, u);
    forall i | 0 <= i < |u.log| ensures EntryOk(codec, u, i) {
      EntryStays(codec, t, u, i);
    }
  }

  lemma LostIsUnlogged(codec: Codec, db: Db, t: Task, i: nat)
    requires TaskOk(codec, db, t) && i < |t.log|
    ensures t.log[i].index !in LostNow(t)
  {
    assert EntryOk(codec, t, i);
  }

  lemma AbandonOk(codec: Codec, db: Db, t: Task, p: Phase)
    requires TaskOk(codec, db, t) && (p.Idle? || p.Closed?)
    ensures TaskOk(codec, db, Abandon(t, p))
  {
    var u := Abandon(t, p);
    RowsStay(t, u);
    assert Covered(u, |u.arrivals|);
    forall i | 0 <= i < |u.log| ensures EntryOk(codec, u, i) {
      LostIsUnlogged(codec, db, t, i);
      EntryStays(codec, t, u, i);
    }
  }

  lemma SettleOk(codec: Codec, db: Db, t: Task, p: Phase)
    requires TaskOk(codec, db, t.(phase := p))
    ensures TaskOk(codec, db, Settle(t, p))
  {
    if t.cancelled {
      AbandonOk(codec, db, t.(phase := p), Closed);
    }
  }

  /** What the phases say about a history that has not changed. */
  lemma SamePlace(t: Task, u: Task)
    requires t.log == u.log && t.arrivals == u.arrivals && t.lost == u.lost
    ensures forall n :: Covered(t, n) ==> Covered(u, n)
    ensures Pending(t) ==> Pending(u)
    ensures forall msg :: Current(t, msg) ==> Current(u, msg)
  {
    RowsStay(t, u);
  }

  /** Moving on without a new row. */
  lemma PhaseMove(codec: Codec, db: Db, t: Task, p: Phase)
    requires TaskOk(codec, db, t) && PhaseOk(codec, db, t.(phase := p))
    ensures TaskOk(codec, db, Settle(t, p))
  {
    SameHistory(codec, db, t, t.(phase := p));
    SettleOk(codec, db, t, p);
  }

  lemma FrameOk(codec: Codec, db: Db, db': Db, t: Task)
    requires TaskOk(codec, db, t) && Grows(db, db')
    ensures TaskOk(codec, db', t)
  {
  }

  lemma ArriveOk(codec: Codec, db: Db, t: Task, raw: Bytes)
    requires TaskOk(codec, db, t) && t.phase.Idle?
    ensures TaskOk(codec, db, t.(phase := Arrived(raw), arrivals := t.arrivals + [raw]))
  {
    var u := t.(phase := Arrived(raw), arrivals := t.arrivals + [raw]);
    RowsStay(t, u);
    forall i | 0 <= i < |u.log| ensures EntryOk(codec, u, i) && u.log[i].index < |u.arrivals| - 1 {
      EntryStays(codec, t, u, i);
    }
  }

  lemma ReadSessionOk(codec: Codec, db: Db, t: Task, f: Fields)
    requires TaskOk(codec, db, t) && t.phase.Arrived? && IsInbound(codec, t.addr, t.port, t.phase.raw, f)
    ensures TaskOk(codec, db, Settle(t, Stamped(f)))
  {
    SamePlace(t, t.(phase := Stamped(f)));
    PhaseMove(codec, db, t, Stamped(f));
  }

  /** One more row with a fresh id. */
  lemma NewRowIds(db: Db, t: Task, f: Fields, kind: Kind)
    requires IdsOk(db, t)
    ensures IdsOk(SaveMessage(db, f), Logged(t, SavedRow(db, f), kind))
  {
  }

  lemma InboundEntryOk(codec: Codec, t: Task, row: Message)
    requires LogOk(codec, t) && Pending(t) && IsInbound(codec, t.addr, t.port, t.arrivals[|t.arrivals| - 1], row.f)
    ensures LogOk(codec, Logged(t, row, Inbound))
  {
    var u := Logged(t, row, Inbound);
    forall i | 0 <= i < |u.log| ensures EntryOk(codec, u, i) {
      if i < |t.log| {
        EntryStays(codec, t, u, i);
      } else {
        assert i > 0 ==> u.log[i - 1] == t.log[i - 1];
      }
    }
  }

  lemma InboundCurrent(t: Task, row: Message)
    requires Pending(t)
    ensures Current(Logged(t, row, Inbound).(phase := Saved(row)), row)
  {
    var u := Logged(t, row, Inbound).(phase := Saved(row));
    RowsStay(t, u);
    assert u.log[|t.log|] == Entry(row, Inbound, |t.arrivals| - 1);
    assert HasRow(u, |t.arrivals| - 1);
  }

  lemma SavedOk(codec: Codec, db: Db, t: Task, row: Message)
    requires LogOk(codec, t) && IdsOk(db, t) && Current(t.(phase := Saved(row)), row)
    ensures TaskOk(codec, db, Settle(t, Saved(row)))
  {
    SameHistory(codec, db, t, t.(phase := Saved(row)));
    SettleOk(codec, db, t, Saved(row));
  }

  lemma LogInboundOk(codec: Codec, db: Db, t: Task)
    requires TaskOk(codec, db, t) && t.phase.Stamped?
    ensures var row := SavedRow(db, t.phase.fields);
      TaskOk(codec, SaveMessage(db, t.phase.fields), Settle(Logged(t, row, Inbound), Saved(row)))
  {
    var row := SavedRow(db, t.phase.fields);
    NewRowIds(db, t, t.phase.fields, Inbound);
    InboundEntryOk(codec, t, row);
    InboundCurrent(t, row);
    SavedOk(codec, SaveMessage(db, t.phase.fields), Logged(t, row, Inbound), row);
  }

  lemma LastReplyOk(codec: Codec, t: Task, row: Message, rule: Rule, msg: Message)
    requires LogOk(codec, t) && Current(t, msg) && Match(rule, msg) && IsReply(codec, rule, msg, row.f)
    ensures EntryOk(codec, Logged(t, row, Reply(rule)), |t.log|)
  {
    var u := Logged(t, row, Reply(rule));
    var n := |t.log|;
    assert EntryOk(codec, t, n - 1);
    assert u.log[n - 1] == Entry(msg, Inbound, |t.arrivals| - 1);
    assert u.log[n] == Entry(row, Reply(rule), |t.arrivals| - 1);
  }

  lemma ReplyEntryOk(codec: Codec, t: Task, row: Message, rule: Rule, msg: Message)
    requires LogOk(codec, t) && Current(t, msg) && Match(rule, msg) && IsReply(codec, rule, msg, row.f)
    ensures LogOk(codec, Logged(t, row, Reply(rule)))
  {
    var u := Logged(t, row, Reply(rule));
    LastReplyOk(codec, t, row, rule, msg);
    forall i | 0 <= i < |t.log| ensures EntryOk(codec, u, i) {
      EntryStays(codec, t, u, i);
    }
  }

  lemma LogReplyOk(codec: Codec, db: Db, t: Task)
    requires TaskOk(codec, db, t) && t.phase.Logging?
    ensures var row := SavedRow(db, t.phase.fields);
      TaskOk(codec, SaveMessage(db, t.phase.fields), Settle(Logged(t, row, Reply(t.phase.rule)), Idle))
  {
    var row := SavedRow(db, t.phase.fields);
    var db' := SaveMessage(db, t.phase.fields);
    var l := Logged(t, row, Reply(t.phase.rule));
    NewRowIds(db, t, t.phase.fields, Reply(t.phase.rule));
    ReplyEntryOk(codec, t, row, t.phase.rule, t.phase.msg);
    FinishedOk(codec, db', t, l);
    SettleOk(codec, db', l, Idle);
  }

  lemma FinishedOk(codec: Codec, db: Db, t: Task, l: Task)
    requires LogOk(codec, l) && IdsOk(db, l)
    requires Covered(t, |t.arrivals|) && t.log <= l.log && t.lost == l.lost && t.arrivals == l.arrivals
    ensures TaskOk(codec, db, l.(phase := Idle))
  {
    SameHistory(codec, db, l, l.(phase := Idle));
    RowsStay(t, l.(phase := Idle));
  }

  lemma SnapshotOk(codec: Codec, db: Db, t: Task)
    requires Valid(db) && TaskOk(codec, db, t) && t.phase.Saved?
    ensures TaskOk(codec, db, Settle(t, AfterSnapshot(db, t.phase.msg)))
  {
    var msg := t.phase.msg;
    ChosenIsLowest(db, msg);
    SamePlace(t, t.(phase := AfterSnapshot(db, msg)));
    PhaseMove(codec, db, t, AfterSnapshot(db, msg));
  }

  /** An evaluation that ends, or goes on with the same rule and message. */
  lemma AfterSnapshotOk(codec: Codec, db: Db, t: Task, p: Phase)
    requires TaskOk(codec, db, t)
    requires t.phase.Chosen? || t.phase.Replying? || t.phase.Sent?
    requires p.Idle? || Continues(codec, t, p)
    ensures TaskOk(codec, db, Settle(t, p))
  {
    SamePlace(t, t.(phase := p));
    PhaseMove(codec, db, t, p);
  }

  ghost predicate Continues(codec: Codec, t: Task, p: Phase)
    requires t.phase.Chosen? || t.phase.Replying? || t.phase.Sent?
  {
    && (p.Replying? || p.Sent? || p.Logging?) && p.rule == t.phase.rule && p.msg == t.phase.msg
    && (p.Logging? ==> IsReply(codec, p.rule, p.msg, p.fields))
    && (!p.Logging? ==> ReplyTo(codec, p.rule, p.msg) == Some(p.reply))
  }

  // ----- the database

  lemma SaveGrows(db: Db, f: Fields)
    requires Valid(db)
    ensures Valid(SaveMessage(db, f)) && Grows(db, SaveMessage(db, f))
  {
  }

  lemma RuleGrows(db: Db, spec: Spec)
    requires Valid(db)
    ensures Valid(SaveRule(db, spec)) && Grows(db, SaveRule(db, spec))
  {
  }

  lemma IncrementGrows(db: Db, id: nat)
    requires Valid(db)
    ensures Valid(IncrementFired(db, id)) && Grows(db, IncrementFired(db, id))
  {
  }

  /** Dropping rows or rules, or changing the session. */
  lemma RemovalGrows(db: Db, db': Db)
    requires Valid(db) && db'.lastMessage == db.lastMessage && db'.lastRule == db.lastRule
    requires forall id :: id in db'.messages ==> id in db.messages && db'.messages[id] == db.messages[id]
    requires forall id :: id in db'.rules ==> id in db.rules && db'.rules[id] == db.rules[id]
    ensures Valid(db') && Grows(db, db')
  {
  }

  lemma StepGrows(codec: Codec, s: State, a: Step)
    requires Valid(s.db)
    ensures Valid(Do(codec, s, a).db) && Grows(s.db, Do(codec, s, a).db)
  {
    if !Enabled(s, a) {
      RemovalGrows(s.db, s.db);
    } else {
      match a {
        case LogInbound(c) => SaveGrows(s.db, s.tasks[c].phase.fields);
        case LogReply(c) => SaveGrows(s.db, s.tasks[c].phase.fields);
        case LogManual(raw, session, seconds, microseconds) =>
          SaveGrows(s.db, ManualFields(codec, raw, session, seconds, microseconds));
        case CreateRule(spec) => RuleGrows(s.db, spec);
        case Increment(c) => IncrementGrows(s.db, s.tasks[c].phase.rule.id);
        case _ => RemovalGrows(s.db, Apply(codec, s, a).db);
      }
    }
  }

  lemma GrowsTransitive(a: Db, b: Db, c: Db)
    requires Grows(a, b) && Grows(b, c)
    ensures Grows(a, c)
  {
  }

  // ----- whole steps

  /** The task of a step, if it is a step of a connection that exists. */
  function TaskOf(a: Step): Option<nat> {
    match a
    case Arrive(c, _) => Some(c)
    case ReadSession(c, _, _) => Some(c)
    case LogInbound(c) => Some(c)
    case Snapshot(c) => Some(c)
    case Increment(c) => Some(c)
    case Send(c, _) => Some(c)
    case ReadSessionAgain(c, _, _) => Some(c)
    case LogReply(c) => Some(c)
    case Fail(c) => Some(c)
    case Cancel(c) => Some(c)
    case Close(c) => Some(c)
    case _ => None
  }

  /** A step touches at most one connection. */
  lemma OtherTasks(codec: Codec, s: State, a: Step, c: nat)
    requires c in s.tasks && TaskOf(a) != Some(c)
    ensures c in Do(codec, s, a).tasks && Do(codec, s, a).tasks[c] == s.tasks[c]
  {
  }

  lemma StepTasks(codec: Codec, s: State, a: Step, c: nat)
    requires c in Do(codec, s, a).tasks
    ensures c in s.tasks || (a.Open? && a.c == c)
    ensures c !in s.tasks ==> Do(codec, s, a).tasks[c] == Task(a.addr, a.port, Idle, false, [], [], {})
  {
  }

  predicate UpToSnapshot(a: Step) {
    a.Arrive? || a.ReadSession? || a.LogInbound? || a.Snapshot?
  }

  predicate UpToReply(a: Step) {
    a.Increment? || a.Send? || a.ReadSessionAgain? || a.LogReply?
  }

  lemma UpToSnapshotOk(codec: Codec, s: State, a: Step)
    requires Inv(codec, s) && Enabled(s, a) && UpToSnapshot(a)
    ensures a.c in s.tasks && TaskOk(codec, Apply(codec, s, a).db, Apply(codec, s, a).tasks[a.c])
  {
    var t := s.tasks[a.c];
    match a {
      case Arrive(_, raw) => ArriveOk(codec, s.db, t, raw);
      case ReadSession(_, seconds, microseconds) =>
        ReadSessionOk(codec, s.db, t,
          InboundFields(codec, t.phase.raw, s.db.session, t.addr, t.port, seconds, microseconds));
      case LogInbound(_) => LogInboundOk(codec, s.db, t);
      case Snapshot(_) => SnapshotOk(codec, s.db, t);
    }
  }

  lemma UpToReplyOk(codec: Codec, s: State, a: Step)
    requires Inv(codec, s) && Enabled(s, a) && UpToReply(a)
    ensures a.c in s.tasks && TaskOk(codec, Apply(codec, s, a).db, Apply(codec, s, a).tasks[a.c])
  {
    match a {
      case Increment(c) => IncrementOk(codec, s, a, c);
      case Send(c, ok) => SendOk(codec, s, c, ok);
      case ReadSessionAgain(c, seconds, microseconds) =>
        ReadSessionAgainOk(codec, s.db, s.tasks[c], seconds, microseconds);
      case LogReply(c) => LogReplyStepOk(codec, s, c);
    }
  }

  lemma SendOk(codec: Codec, s: State, c: nat, ok: bool)
    requires Inv(codec, s) && Enabled(s, Send(c, ok))
    ensures TaskOk(codec, Apply(codec, s, Send(c, ok)).db, Apply(codec, s, Send(c, ok)).tasks[c])
  {
    AfterSnapshotOk(codec, s.db, s.tasks[c], AfterSend(s, s.tasks[c], ok));
  }

  lemma LogReplyStepOk(codec: Codec, s: State, c: nat)
    requires Inv(codec, s) && Enabled(s, LogReply(c))
    ensures TaskOk(codec, Apply(codec, s, LogReply(c)).db, Apply(codec, s, LogReply(c)).tasks[c])
  {
    LogReplyOk(codec, s.db, s.tasks[c]);
  }

  lemma EndOk(codec: Codec, s: State, a: Step)
    requires Inv(codec, s) && Enabled(s, a) && (a.Fail? || a.Cancel? || a.Close?)
    ensures a.c in s.tasks && TaskOk(codec, Apply(codec, s, a).db, Apply(codec, s, a).tasks[a.c])
  {
    match a {
      case Fail(c) => AbandonOk(codec, s.db, s.tasks[c], Idle);
      case Cancel(c) => CancelOk(codec, s.db, s.tasks[c]);
      case Close(c) => AbandonOk(codec, s.db, s.tasks[c], Closed);
    }
  }

  lemma OwnTaskOk(codec: Codec, s: State, a: Step, c: nat)
    requires Inv(codec, s) && Enabled(s, a) && TaskOf(a) == Some(c)
    ensures c in s.tasks && c in Apply(codec, s, a).tasks
    ensures TaskOk(codec, Apply(codec, s, a).db, Apply(codec, s, a).tasks[c])
  {
    if UpToSnapshot(a) {
      UpToSnapshotOk(codec, s, a);
    } else if UpToReply(a) {
      UpToReplyOk(codec, s, a);
    } else {
      EndOk(codec, s, a);
    }
  }

  lemma IncrementOk(codec: Codec, s: State, a: Step, c: nat)
    requires Inv(codec, s) && Enabled(s, a) && a == Increment(c)
    ensures TaskOk(codec, Apply(codec, s, a).db, Apply(codec, s, a).tasks[c])
  {
    var s' := Apply(codec, s, a);
    StepGrows(codec, s, a);
    FrameOk(codec, s.db, s'.db, s.tasks[c]);
    AfterSnapshotOk(codec, s'.db, s.tasks[c], AfterIncrement(codec, s.tasks[c]));
  }

  lemma ReadSessionAgainOk(codec: Codec, db: Db, t: Task, seconds: int, microseconds: nat)
    requires TaskOk(codec, db, t) && t.phase.Sent?
    ensures var f := ReplyFields(codec, t.phase.rule, t.phase.msg, t.phase.reply, db.session, seconds, microseconds);
      TaskOk(codec, db, Settle(t, Logging(t.phase.rule, t.phase.msg, f)))
  {
    var f := ReplyFields(codec, t.phase.rule, t.phase.msg, t.phase.reply, db.session, seconds, microseconds);
    AfterSnapshotOk(codec, db, t, Logging(t.phase.rule, t.phase.msg, f));
  }

  lemma CancelOk(codec: Codec, db: Db, t: Task)
    requires TaskOk(codec, db, t)
    ensures TaskOk(codec, db, t.(cancelled := true))
  {
    SameHistory(codec, db, t, t.(cancelled := true));
  }

  lemma StepTasksOk(codec: Codec, s: State, a: Step)
    requires Inv(codec, s)
    ensures TasksOk(codec, Do(codec, s, a))
  {
    var s' := Do(codec, s, a);
    StepGrows(codec, s, a);
    forall c | c in s'.tasks ensures TaskOk(codec, s'.db, s'.tasks[c]) {
      StepTasks(codec, s, a, c);
      if c in s.tasks {
        if Enabled(s, a) && TaskOf(a) == Some(c) {
          OwnTaskOk(codec, s, a, c);
        } else {
          if Enabled(s, a) {
            OtherTasks(codec, s, a, c);
          }
          FrameOk(codec, s.db, s'.db, s.tasks[c]);
        }
      }
    }
  }

  /** What a step adds to the log of a connection. */
  function Added(s: State, a: Step, c: nat): (entries: seq<Entry>)
    requires c in s.tasks
    ensures forall i :: 0 <= i < |entries| ==> entries[i].row.id == s.db.lastMessage + 1 && TaskOf(a) == Some(c)
  {
    var n := |s.tasks[c].arrivals|;
    var index := if n > 0 then n - 1 else 0;
    if TaskOf(a) != Some(c) || !Enabled(s, a) then []
    else
      match a
      case LogInbound(_) => [Entry(SavedRow(s.db, s.tasks[c].phase.fields), Inbound, index)]
      case LogReply(_) => [Entry(SavedRow(s.db, s.tasks[c].phase.fields), Reply(s.tasks[c].phase.rule), index)]
      case _ => []
  }

  /** The rows of a connection are only added to, by its own steps, under the next id. */
  lemma LogStep(codec: Codec, s: State, a: Step, c: nat)
    requires c in s.tasks
    ensures c in Do(codec, s, a).tasks && Do(codec, s, a).tasks[c].log == s.tasks[c].log + Added(s, a, c)
  {
  }

  /** A row of a log is an old row or the one just saved. */
  lemma LogOrigin(codec: Codec, s: State, a: Step, c: nat, i: nat)
    requires Inv(codec, s)
    requires var s' := Do(codec, s, a); c in s'.tasks && i < |s'.tasks[c].log|
    ensures var id := Do(codec, s, a).tasks[c].log[i].row.id;
      || (id == s.db.lastMessage + 1 && TaskOf(a) == Some(c))
      || (id <= s.db.lastMessage && c in s.tasks && i < |s.tasks[c].log| && s.tasks[c].log[i].row.id == id)
  {
    StepTasks(codec, s, a, c);
    if c in s.tasks {
      LogStep(codec, s, a, c);
      assert TaskOk(codec, s.db, s.tasks[c]);
      var n := |s.tasks[c].log|;
      assert i >= n ==> Do(codec, s, a).tasks[c].log[i] == Added(s, a, c)[i - n];
    }
  }

  lemma PairSeparate(codec: Codec, s: State, a: Step, c: nat, d: nat)
    requires Inv(codec, s) && c != d && c in Do(codec, s, a).tasks && d in Do(codec, s, a).tasks
    ensures Apart(Do(codec, s, a).tasks[c].log, Do(codec, s, a).tasks[d].log)
  {
    var x, y := Do(codec, s, a).tasks[c].log, Do(codec, s, a).tasks[d].log;
    forall i, j | 0 <= i < |x| && 0 <= j < |y| ensures x[i].row.id != y[j].row.id {
      LogOrigin(codec, s, a, c, i);
      LogOrigin(codec, s, a, d, j);
      assert c in s.tasks && d in s.tasks ==> Apart(s.tasks[c].log, s.tasks[d].log);
    }
  }

  lemma ManualStep(codec: Codec, s: State, a: Step, id: nat)
    requires id in Do(codec, s, a).manual
    ensures id in s.manual || (id == s.db.lastMessage + 1 && TaskOf(a) == None)
  {
  }

  lemma ManualSeparate(codec: Codec, s: State, a: Step, c: nat)
    requires Inv(codec, s) && c in Do(codec, s, a).tasks
    ensures NoneOf(Do(codec, s, a).tasks[c].log, Do(codec, s, a).manual.Keys)
  {
    var log, ids := Do(codec, s, a).tasks[c].log, Do(codec, s, a).manual.Keys;
    assert c in s.tasks ==> NoneOf(s.tasks[c].log, s.manual.Keys);
    forall i | 0 <= i < |log| ensures log[i].row.id !in ids {
      LogOrigin(codec, s, a, c, i);
      if log[i].row.id in ids {
        ManualStep(codec, s, a, log[i].row.id);
      }
    }
  }

  lemma ManualIds(codec: Codec, s: State, a: Step)
    requires Inv(codec, s)
    ensures forall id :: id in Do(codec, s, a).manual ==> id <= Do(codec, s, a).db.lastMessage
  {
    StepGrows(codec, s, a);
  }

  lemma LogsSeparate(codec: Codec, s: State, a: Step, c: nat)
    requires Inv(codec, s) && c in Do(codec, s, a).tasks
    ensures NoneOf(Do(codec, s, a).tasks[c].log, Do(codec, s, a).manual.Keys)
    ensures forall d :: d in Do(codec, s, a).tasks && c != d ==>
      Apart(Do(codec, s, a).tasks[c].log, Do(codec, s, a).tasks[d].log)
  {
    ManualSeparate(codec, s, a, c);
    forall d | d in Do(codec, s, a).tasks && c != d
      ensures Apart(Do(codec, s, a).tasks[c].log, Do(codec, s, a).tasks[d].log)
    {
      PairSeparate(codec, s, a, c, d);
    }
  }

  lemma StepSeparate(codec: Codec, s: State, a: Step, next: State)
    requires Inv(codec, s) && next == Do(codec, s, a)
    ensures Separate(next)
  {
    ManualIds(codec, s, a);
    forall c | c in next.tasks
      ensures NoneOf(next.tasks[c].log, next.manual.Keys)
      ensures forall d :: d in next.tasks && c != d ==> Apart(next.tasks[c].log, next.tasks[d].log)
    {
      LogsSeparate(codec, s, a, c);
    }
  }

  lemma StepKeepsInv(codec: Codec, s: State, a: Step)
    requires Inv(codec, s)
    ensures Inv(codec, Do(codec, s, a))
  {
    StepGrows(codec, s, a);
    StepTasksOk(codec, s, a);
    StepSeparate(codec, s, a, Do(codec, s, a));
  }

  /** The invariant holds after every schedule. */
  lemma {:induction false} AlwaysInv(codec: Codec, session: string, schedule: seq<Step>)
    ensures Inv(codec, Exec(codec, Init(session), schedule))
  {
    if schedule != [] {
      AlwaysInv(codec, session, schedule[..|schedule| - 1]);
      StepKeepsInv(codec, Exec(codec, Init(session), schedule[..|schedule| - 1]), schedule[|schedule| - 1]);
    }
  }

  lemma SaveOwned(codec: Codec, s: State, a: Step, id: nat)
    requires Enabled(s, a) && id == s.db.lastMessage + 1 && Do(codec, s, a).db.lastMessage == id
    ensures id in Do(codec, s, a).db.messages && RowOwned(codec, Do(codec, s, a), id)
  {
    var s' := Do(codec, s, a);
    if a.LogInbound? || a.LogReply? {
      var l := s'.tasks[a.c].log;
      assert l[|l| - 1].row.id == id;
      assert InLog(s', a.c, id);
    }
  }

  lemma StillInLog(codec: Codec, s: State, a: Step, c: nat, id: nat)
    requires InLog(s, c, id)
    ensures InLog(Do(codec, s, a), c, id)
  {
    LogStep(codec, s, a, c);
    var i :| 0 <= i < |s.tasks[c].log| && s.tasks[c].log[i].row.id == id;
    assert Do(codec, s, a).tasks[c].log[i] == s.tasks[c].log[i];
  }

  lemma ManualStays(codec: Codec, s: State, a: Step, id: nat)
    requires id in s.manual && id <= s.db.lastMessage
    ensures id in Do(codec, s, a).manual && Do(codec, s, a).manual[id] == s.manual[id]
  {
  }

  lemma StepOwned(codec: Codec, s: State, a: Step, next: State)
    requires Inv(codec, s) && Owned(codec, s) && next == Do(codec, s, a)
    ensures Owned(codec, next)
  {
    StepGrows(codec, s, a);
    forall id | id in next.db.messages ensures RowOwned(codec, next, id) {
      if id <= s.db.lastMessage {
        assert RowOwned(codec, s, id);
        if id in s.manual && IsManual(codec, s.manual[id], s.db.messages[id].f) {
          ManualStays(codec, s, a, id);
        } else {
          var c :| InLog(s, c, id);
          StillInLog(codec, s, a, c, id);
        }
      } else {
        SaveOwned(codec, s, a, id);
      }
    }
  }

  /** Every row in the table is in some connection's log or was saved by the send endpoint. */
  lemma {:induction false} AlwaysOwned(codec: Codec, session: string, schedule: seq<Step>)
    ensures Owned(codec, Exec(codec, Init(session), schedule))
  {
    if schedule != [] {
      var before := schedule[..|schedule| - 1];
      AlwaysInv(codec, session, before);
      AlwaysOwned(codec, session, before);
      var now := Exec(codec, Init(session), schedule);
      StepOwned(codec, Exec(codec, Init(session), before), schedule[|schedule| - 1], now);
    }
  }

  /** From one moment of a run to any later one, key counters and rows change only as `Grows` allows. */
  lemma {:induction false} RunGrows(codec: Codec, s: State, schedule: seq<Step>)
    requires Inv(codec, s)
    ensures Inv(codec, Exec(codec, s, schedule)) && Grows(s.db, Exec(codec, s, schedule).db)
  {
    if schedule != [] {
      var before := schedule[..|schedule| - 1];
      RunGrows(codec, s, before);
      var m := Exec(codec, s, before);
      StepKeepsInv(codec, m, schedule[|schedule| - 1]);
      StepGrows(codec, m, schedule[|schedule| - 1]);
      GrowsTransitive(s.db, m.db, Exec(codec, s, schedule).db);
    }
  }
}
