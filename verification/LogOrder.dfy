/** The order and the content of what a connection logs, in every interleaving with the others. */
module LogOrder {
  import opened Wrappers
  import opened Octets
  import opened SbcAp
  import opened Store
  import opened Rules
  import opened Engine
  import opened EngineInvariant
  import Base64
  import Decoder
  import Encoder
  import Hex

  /** Each entry after the first is the row of a later arrival or the reply to the row before it. */
  ghost predicate Stepwise(t: Task) {
    forall j :: 0 < j < |t.log| ==>
      if t.log[j].kind.Inbound? then t.log[j - 1].index < t.log[j].index
      else t.log[j - 1].kind.Inbound? && t.log[j - 1].index == t.log[j].index
  }

  lemma LogStepwise(codec: Codec, t: Task)
    requires LogOk(codec, t)
    ensures Stepwise(t)
  {
    forall j | 0 < j < |t.log|
      ensures if t.log[j].kind.Inbound? then t.log[j - 1].index < t.log[j].index
              else t.log[j - 1].kind.Inbound? && t.log[j - 1].index == t.log[j].index
    {
      assert EntryOk(codec, t, j);
    }
  }

  /** Arrival numbers never go back, and they repeat only from the row of an arrival to the reply right after it. */
  lemma {:induction false} ArrivalOrder(t: Task, i: nat, j: nat)
    requires Stepwise(t) && i < j < |t.log|
    ensures t.log[i].index <= t.log[j].index
    ensures t.log[i].index == t.log[j].index ==> j == i + 1 && t.log[i].kind.Inbound? && t.log[j].kind.Reply?
    decreases j
  {
    if i < j - 1 {
      ArrivalOrder(t, i, j - 1);
    }
  }

  /** The arrivals whose handling is over. */
  function Handled(t: Task): nat {
    if t.phase.Idle? || t.phase.Closed? || |t.arrivals| == 0 then |t.arrivals| else |t.arrivals| - 1
  }

  /** By ascending id: the row of an arrival, at most one reply to it, the row of a later arrival, and so on. */
  ghost predicate InArrivalOrder(t: Task) {
    && (forall i, j :: 0 <= i < j < |t.log| ==> t.log[i].row.id < t.log[j].row.id)
    && (forall i, j :: 0 <= i < j < |t.log| ==> t.log[i].index <= t.log[j].index)
    && (forall i, j :: 0 <= i < j < |t.log| && t.log[i].index == t.log[j].index ==>
          j == i + 1 && t.log[i].kind.Inbound? && t.log[j].kind.Reply?)
    && (forall i :: 0 <= i < |t.log| && t.log[i].kind.Reply? ==>
          i > 0 && t.log[i - 1].kind.Inbound? && t.log[i - 1].index == t.log[i].index)
  }

  /** The row holds the octets of its arrival and names the connection's peer. */
  ghost predicate HoldsArrival(t: Task, e: Entry) {
    && e.index < |t.arrivals|
    && e.row.f.direction == "inbound" && e.row.f.peerAddr == Some(t.addr) && e.row.f.localPort == Some(t.port)
    && Base64.Decode(e.row.f.rawB64) == Some(t.arrivals[e.index])
  }

  /** The rows of arrivals hold their octets, and an arrival that is over has its row unless it was lost. */
  ghost predicate ArrivalsLogged(t: Task) {
    && (forall i :: 0 <= i < |t.log| && t.log[i].kind.Inbound? ==> HoldsArrival(t, t.log[i]))
    && (forall k :: 0 <= k < Handled(t) ==> (k in t.lost <==> !HasRow(t, k)))
  }

  /** The table holds the rows of the log unchanged for as long as it holds them. */
  ghost predicate RowsKept(db: Db, t: Task) {
    forall i :: 0 <= i < |t.log| && t.log[i].row.id in db.messages ==> db.messages[t.log[i].row.id] == t.log[i].row
  }

  lemma TaskInOrder(codec: Codec, db: Db, t: Task)
    requires TaskOk(codec, db, t)
    ensures InArrivalOrder(t)
  {
    LogStepwise(codec, t);
    forall i, j | 0 <= i < j < |t.log|
      ensures t.log[i].index <= t.log[j].index
      ensures t.log[i].index == t.log[j].index ==> j == i + 1 && t.log[i].kind.Inbound? && t.log[j].kind.Reply?
    {
      ArrivalOrder(t, i, j);
    }
    forall i | 0 <= i < |t.log| && t.log[i].kind.Reply?
      ensures i > 0 && t.log[i - 1].kind.Inbound? && t.log[i - 1].index == t.log[i].index
    {
      assert EntryOk(codec, t, i);
    }
  }

  lemma InboundRow(codec: Codec, t: Task, i: nat)
    requires LogOk(codec, t) && i < |t.log| && t.log[i].kind.Inbound?
    ensures HoldsArrival(t, t.log[i])
  {
    assert EntryOk(codec, t, i);
    Decoder.DecodeKeepsOctets(codec, t.arrivals[t.log[i].index]);
  }

  lemma LostOrLogged(codec: Codec, db: Db, t: Task, k: nat)
    requires TaskOk(codec, db, t) && k < Handled(t)
    ensures k in t.lost <==> !HasRow(t, k)
  {
    if HasRow(t, k) {
      var i :| 0 <= i < |t.log| && t.log[i].kind.Inbound? && t.log[i].index == k;
      assert EntryOk(codec, t, i);
    }
  }

  lemma TaskLogged(codec: Codec, db: Db, t: Task)
    requires TaskOk(codec, db, t)
    ensures ArrivalsLogged(t)
  {
    forall i | 0 <= i < |t.log| && t.log[i].kind.Inbound? ensures HoldsArrival(t, t.log[i]) {
      InboundRow(codec, t, i);
    }
    forall k | 0 <= k < Handled(t) ensures k in t.lost <==> !HasRow(t, k) {
      LostOrLogged(codec, db, t, k);
    }
  }

  /** Every row of the log is in the table. */
  ghost predicate RowsThere(db: Db, t: Task) {
    forall i :: 0 <= i < |t.log| ==> t.log[i].row.id in db.messages
  }

  ghost predicate AllRowsThere(s: State) {
    forall c :: c in s.tasks ==> RowsThere(s.db, s.tasks[c])
  }

  lemma MessagesStay(codec: Codec, s: State, a: Step)
    requires a != RemoveAllMessages
    ensures s.db.messages.Keys <= Do(codec, s, a).db.messages.Keys
  {
  }

  lemma AddedRowsThere(codec: Codec, s: State, a: Step, c: nat, i: nat)
    requires c in s.tasks && i < |Added(s, a, c)|
    ensures Added(s, a, c)[i].row.id in Do(codec, s, a).db.messages
  {
  }

  lemma StepRowsThere(codec: Codec, s: State, a: Step, c: nat)
    requires AllRowsThere(s) && a != RemoveAllMessages && c in Do(codec, s, a).tasks
    ensures RowsThere(Do(codec, s, a).db, Do(codec, s, a).tasks[c])
  {
    if c in s.tasks {
      var n := |s.tasks[c].log|;
      assert RowsThere(s.db, s.tasks[c]);
      LogStep(codec, s, a, c);
      MessagesStay(codec, s, a);
      forall i | n <= i < |Do(codec, s, a).tasks[c].log|
        ensures Do(codec, s, a).tasks[c].log[i].row.id in Do(codec, s, a).db.messages
      {
        AddedRowsThere(codec, s, a, c, i - n);
      }
    }
  }

  lemma {:induction false} RunRowsThere(codec: Codec, session: string, schedule: seq<Step>)
    requires RemoveAllMessages !in schedule
    ensures AllRowsThere(Exec(codec, Init(session), schedule))
  {
    if schedule != [] {
      var last := |schedule| - 1;
      RunRowsThere(codec, session, schedule[..last]);
      forall c | c in Exec(codec, Init(session), schedule).tasks
        ensures RowsThere(Exec(codec, Init(session), schedule).db, Exec(codec, Init(session), schedule).tasks[c])
      {
        StepRowsThere(codec, Exec(codec, Init(session), schedule[..last]), schedule[last], c);
      }
    }
  }

  /**
   * The log of every connection, after any schedule of any number of connections; and as long as messages are not
   * deleted, all of it is in the table.
   */
  lemma ConnectionLog(codec: Codec, session: string, schedule: seq<Step>, c: nat)
    requires c in Exec(codec, Init(session), schedule).tasks
    ensures var s := Exec(codec, Init(session), schedule);
      InArrivalOrder(s.tasks[c]) && ArrivalsLogged(s.tasks[c]) && RowsKept(s.db, s.tasks[c])
    ensures RemoveAllMessages !in schedule ==>
      var s := Exec(codec, Init(session), schedule); RowsThere(s.db, s.tasks[c])
  {
    AlwaysInv(codec, session, schedule);
    var s := Exec(codec, Init(session), schedule);
    assert TaskOk(codec, s.db, s.tasks[c]);
    TaskInOrder(codec, s.db, s.tasks[c]);
    TaskLogged(codec, s.db, s.tasks[c]);
    if RemoveAllMessages !in schedule {
      RunRowsThere(codec, session, schedule);
    }
  }

  /**
   * A logged reply, after any schedule: it stands right after the row of its message, the rule it names matched that
   * row, it names the connection's peer, and with an inverse runtime it repeats both identifiers of a request that
   * carries them, for every template that has them.
   */
  lemma LoggedReply(codec: Codec, session: string, schedule: seq<Step>, c: nat, i: nat, mi: nat, sn: nat)
    requires Encoder.InvertsReplies(codec)
    requires var s := Exec(codec, Init(session), schedule);
      && c in s.tasks && i < |s.tasks[c].log| && s.tasks[c].log[i].kind.Reply?
      && s.tasks[c].log[i].index < |s.tasks[c].arrivals|
      && Encoder.Carries(codec, s.tasks[c].arrivals[s.tasks[c].log[i].index], ID_MESSAGE_IDENTIFIER, mi)
      && Encoder.Carries(codec, s.tasks[c].arrivals[s.tasks[c].log[i].index], ID_SERIAL_NUMBER, sn)
    ensures var t := Exec(codec, Init(session), schedule).tasks[c]; var rule := t.log[i].kind.rule;
      && i > 0 && Declared(rule, t.log[i - 1].row)
      && rule.spec.action == "auto_reply" && rule.spec.replyTemplate.Some?
      && t.log[i].row.f.ruleId == Some(rule.id)
      && t.log[i].row.f.direction == "outbound" && t.log[i].row.f.peerAddr == Some(t.addr)
      && Encoder.TemplateOf(rule.spec.replyTemplate.value).Some?
      && t.log[i].row.f.pduType == Some(Encoder.ReplyType(Encoder.TemplateOf(rule.spec.replyTemplate.value).value))
      && (Encoder.Echoes(rule.spec.replyTemplate.value) ==>
            && t.log[i].row.f.messageIdentifier == t.log[i - 1].row.f.messageIdentifier
            && t.log[i].row.f.serialNumber == t.log[i - 1].row.f.serialNumber)
  {
    AlwaysInv(codec, session, schedule);
    var s := Exec(codec, Init(session), schedule);
    var t := s.tasks[c];
    assert TaskOk(codec, s.db, t);
    assert EntryOk(codec, t, i) && EntryOk(codec, t, i - 1);
    var raw := t.arrivals[t.log[i].index];
    ReplyRow(codec, raw, t.addr, t.port, t.log[i - 1].row, t.log[i].kind.rule, t.log[i].row, mi, sn);
  }

  lemma ReplyRow(codec: Codec, raw: Bytes, addr: string, port: int, inRow: Message, rule: Rule, row: Message,
                 mi: nat, sn: nat)
    requires Encoder.InvertsReplies(codec)
    requires Encoder.Carries(codec, raw, ID_MESSAGE_IDENTIFIER, mi) && Encoder.Carries(codec, raw, ID_SERIAL_NUMBER, sn)
    ensures IsInbound(codec, addr, port, raw, inRow.f) && Match(rule, inRow) && IsReply(codec, rule, inRow, row.f) ==>
      AnswersRow(addr, inRow, rule, row)
  {
    if IsInbound(codec, addr, port, raw, inRow.f) && Match(rule, inRow) && IsReply(codec, rule, inRow, row.f) {
      MatchIsDeclared(rule, inRow);
      Encoder.EchoEndToEnd(codec, raw, mi, sn, rule.spec.replyTemplate.value);
    }
  }

  /** The row names a rule that applied to the row before it, and the peer, and repeats the identifiers. */
  ghost predicate AnswersRow(addr: string, inRow: Message, rule: Rule, row: Message) {
    && Declared(rule, inRow) && rule.spec.action == "auto_reply" && rule.spec.replyTemplate.Some?
    && row.f.ruleId == Some(rule.id) && row.f.direction == "outbound" && row.f.peerAddr == Some(addr)
    && Encoder.TemplateOf(rule.spec.replyTemplate.value).Some?
    && row.f.pduType == Some(Encoder.ReplyType(Encoder.TemplateOf(rule.spec.replyTemplate.value).value))
    && (Encoder.Echoes(rule.spec.replyTemplate.value) ==>
          row.f.messageIdentifier == inRow.f.messageIdentifier && row.f.serialNumber == inRow.f.serialNumber)
  }

  /** The columns of a row are what the decoder finds in these octets. */
  predicate Shows(codec: Codec, raw: Bytes, f: Fields) {
    var dm := Decoder.Decode(codec, raw);
    && f.protocol == dm.protocol && f.pduType == dm.pduType && f.decoded == dm.decoded
    && f.messageIdentifier == dm.messageIdentifier && f.serialNumber == dm.serialNumber
    && Hex.FromHex(Hex.RemoveSpaces(f.rawHex)) == Some(raw) && Base64.Decode(f.rawB64) == Some(raw)
  }

  lemma InboundShows(codec: Codec, addr: string, port: int, raw: Bytes, f: Fields)
    requires IsInbound(codec, addr, port, raw, f)
    ensures Shows(codec, raw, f)
  {
    Decoder.DecodeKeepsOctets(codec, raw);
  }

  lemma ReplyShows(codec: Codec, rule: Rule, msg: Message, f: Fields)
    requires IsReply(codec, rule, msg, f)
    ensures ReplyTo(codec, rule, msg).Some? && Shows(codec, ReplyTo(codec, rule, msg).value, f)
  {
    Decoder.DecodeKeepsOctets(codec, ReplyTo(codec, rule, msg).value);
  }

  /**
   * After any schedule, the row of an arrival shows the octets that arrived, and the row of a reply the octets that its
   * rule makes of the row before it.
   */
  lemma LoggedOctets(codec: Codec, session: string, schedule: seq<Step>, c: nat, i: nat)
    requires var s := Exec(codec, Init(session), schedule); c in s.tasks && i < |s.tasks[c].log|
    ensures var t := Exec(codec, Init(session), schedule).tasks[c]; var e := t.log[i];
      match e.kind
      case Inbound => e.index < |t.arrivals| && Shows(codec, t.arrivals[e.index], e.row.f)
      case Reply(rule) =>
        && i > 0 && ReplyTo(codec, rule, t.log[i - 1].row).Some?
        && Shows(codec, ReplyTo(codec, rule, t.log[i - 1].row).value, e.row.f)
  {
    AlwaysInv(codec, session, schedule);
    var s := Exec(codec, Init(session), schedule);
    EntryShows(codec, s.db, s.tasks[c], i);
  }

  lemma EntryShows(codec: Codec, db: Db, t: Task, i: nat)
    requires TaskOk(codec, db, t) && i < |t.log|
    ensures var e := t.log[i];
      match e.kind
      case Inbound => e.index < |t.arrivals| && Shows(codec, t.arrivals[e.index], e.row.f)
      case Reply(rule) =>
        && i > 0 && ReplyTo(codec, rule, t.log[i - 1].row).Some?
        && Shows(codec, ReplyTo(codec, rule, t.log[i - 1].row).value, e.row.f)
  {
    assert EntryOk(codec, t, i);
    var e := t.log[i];
    match e.kind
    case Inbound => InboundShows(codec, t.addr, t.port, t.arrivals[e.index], e.row.f);
    case Reply(rule) => ReplyShows(codec, rule, t.log[i - 1].row, e.row.f);
  }

  /** The row of an arrival: received over SCTP on the connection's port from its peer, for no rule. */
  predicate IsArrivalRow(f: Fields, addr: string, port: int) {
    f.direction == "inbound" && f.transport == "sctp" && f.localPort == Some(port) && f.peerAddr == Some(addr)
    && f.ruleId == None
  }

  /** The row of a reply: the other direction on the same way, for its rule. */
  predicate IsReplyRow(f: Fields, request: Fields, rule: Rule) {
    f.direction == "outbound" && f.transport == request.transport && f.localPort == request.localPort
    && f.peerAddr == request.peerAddr && f.ruleId == Some(rule.id)
  }

  /** The octets of the row are those that the encoder makes of the rule's own template, and the columns are theirs. */
  ghost predicate AnswersWithTemplate(codec: Codec, rule: Rule, request: Message, f: Fields) {
    && Base64.Decode(f.rawB64).Some? && Encodes(codec, rule, request, Base64.Decode(f.rawB64).value)
    && Shows(codec, Base64.Decode(f.rawB64).value, f)
  }

  /**
   * After any schedule: the rows of a connection's arrivals name its peer and port, and each reply's row goes back the
   * same way, names its rule, and holds exactly what the encoder makes of that rule's template for the row before it.
   */
  lemma LoggedRows(codec: Codec, session: string, schedule: seq<Step>, c: nat, i: nat)
    requires var s := Exec(codec, Init(session), schedule); c in s.tasks && i < |s.tasks[c].log|
    ensures var t := Exec(codec, Init(session), schedule).tasks[c]; var e := t.log[i];
      match e.kind
      case Inbound => IsArrivalRow(e.row.f, t.addr, t.port)
      case Reply(rule) =>
        && i > 0 && IsReplyRow(e.row.f, t.log[i - 1].row.f, rule)
        && AnswersWithTemplate(codec, rule, t.log[i - 1].row, e.row.f)
  {
    AlwaysInv(codec, session, schedule);
    var s := Exec(codec, Init(session), schedule);
    assert TaskOk(codec, s.db, s.tasks[c]);
    EntryRow(codec, s.tasks[c], i);
  }

  lemma EntryRow(codec: Codec, t: Task, i: nat)
    requires LogOk(codec, t) && i < |t.log|
    ensures var e := t.log[i];
      match e.kind
      case Inbound => IsArrivalRow(e.row.f, t.addr, t.port)
      case Reply(rule) =>
        && i > 0 && IsReplyRow(e.row.f, t.log[i - 1].row.f, rule)
        && AnswersWithTemplate(codec, rule, t.log[i - 1].row, e.row.f)
  {
    assert EntryOk(codec, t, i);
    match t.log[i].kind
    case Inbound =>
    case Reply(rule) => ReplyRowOf(codec, rule, t.log[i - 1].row, t.log[i].row.f);
  }

  lemma ReplyRowOf(codec: Codec, rule: Rule, msg: Message, f: Fields)
    requires IsReply(codec, rule, msg, f)
    ensures IsReplyRow(f, msg.f, rule) && AnswersWithTemplate(codec, rule, msg, f)
  {
    var reply := ReplyTo(codec, rule, msg).value;
    ReplyShows(codec, rule, msg, f);
    RepliesItsTemplate(codec, rule, msg, reply);
  }
}
