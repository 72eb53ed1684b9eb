/** From a run of the pipeline to what a reader of the exported capture sees, and the runs that the export fails. */
module Capture {
  import opened Wrappers
  import opened Octets
  import opened SbcAp
  import opened Tables
  import opened Store
  import opened Rules
  import opened Packet
  import opened Export
  import opened Engine
  import opened EngineInvariant
  import Base64
  import Decoder

  // ----- the exported rows

  lemma ExportedIsStored(db: Db, session: Option<string>, m: Message)
    requires Valid(db) && m in Exported(db, session)
    ensures m.id in db.messages && db.messages[m.id] == m && Exportable(session, m)
  {
    FilterMembers(session, GetMessages(db, 0, ALL, EXPORT_LIMIT), m);
    GetMessagesAnswer(db, 0, ALL, EXPORT_LIMIT);
  }

  /** Before the thousandth id every stored row that can be exported is. */
  lemma StoredIsExported(db: Db, session: Option<string>, id: nat)
    requires Valid(db) && db.lastMessage < EXPORT_LIMIT && id in db.messages && Exportable(session, db.messages[id])
    ensures db.messages[id] in Exported(db, session)
  {
    RowIsCandidate(db, id);
    ScanSize(db.messages, After(0, ALL), db.lastMessage + 1);
    FilterMembers(session, GetMessages(db, 0, ALL, EXPORT_LIMIT), db.messages[id]);
  }

  // ----- from the run to the capture

  /** What the capture shows of an entry of a log: its time, its direction and its octets. */
  ghost predicate EntryShown(codec: Codec, t: Task, i: nat, shown: Shown)
    requires i < |t.log|
  {
    && shown.seconds == t.log[i].row.f.seconds && shown.microseconds == t.log[i].row.f.microseconds
    && match t.log[i].kind
       case Inbound =>
         && t.log[i].index < |t.arrivals|
         && shown.packet == Expected(t.arrivals[t.log[i].index], true)
       case Reply(rule) =>
         && i > 0 && ReplyTo(codec, rule, t.log[i - 1].row).Some?
         && shown.packet == Expected(ReplyTo(codec, rule, t.log[i - 1].row).value, false)
  }

  lemma EntryPayload(codec: Codec, db: Db, t: Task, i: nat)
    requires TaskOk(codec, db, t) && i < |t.log|
    ensures match t.log[i].kind
      case Inbound =>
        && t.log[i].index < |t.arrivals| && t.log[i].row.f.direction == "inbound"
        && Base64.Decode(t.log[i].row.f.rawB64) == Some(t.arrivals[t.log[i].index])
      case Reply(rule) =>
        && i > 0 && t.log[i].row.f.direction == "outbound"
        && ReplyTo(codec, rule, t.log[i - 1].row).Some?
        && Base64.Decode(t.log[i].row.f.rawB64) == ReplyTo(codec, rule, t.log[i - 1].row)
  {
    assert EntryOk(codec, t, i);
    match t.log[i].kind
    case Inbound => Decoder.DecodeKeepsOctets(codec, t.arrivals[t.log[i].index]);
    case Reply(rule) => Decoder.DecodeKeepsOctets(codec, ReplyTo(codec, rule, t.log[i - 1].row).value);
  }

  lemma EntryExpected(codec: Codec, db: Db, t: Task, i: nat, m: Message)
    requires TaskOk(codec, db, t) && i < |t.log| && m == t.log[i].row && Fits(m)
    ensures EntryShown(codec, t, i, ExpectedOf(m))
  {
    EntryPayload(codec, db, t, i);
  }

  /** The row is that of some connection's entry, or the send endpoint's. */
  ghost predicate HasOrigin(s: State, id: nat) {
    id in s.manual || exists c :: InLog(s, c, id)
  }

  /** The entry that this row was saved for is shown so, or the octets that went through the send endpoint. */
  ghost predicate RowShown(codec: Codec, s: State, m: Message, shown: Shown) {
    && (forall c, i :: c in s.tasks && 0 <= i < |s.tasks[c].log| && s.tasks[c].log[i].row.id == m.id ==>
          EntryShown(codec, s.tasks[c], i, shown))
    && (m.id in s.manual ==> ManualShown(m, s.manual[m.id], shown))
  }

  /** A row of the send endpoint, for these octets. */
  ghost predicate ManualShown(m: Message, raw: Bytes, shown: Shown) {
    shown.seconds == m.f.seconds && shown.microseconds == m.f.microseconds && shown.packet == Expected(raw, false)
  }

  lemma ManualIsNotLogged(codec: Codec, s: State, id: nat)
    requires Inv(codec, s) && id in s.manual
    ensures forall c :: !InLog(s, c, id)
  {
    forall c | c in s.tasks ensures !InLog(s, c, id) {
      assert NoneOf(s.tasks[c].log, s.manual.Keys);
    }
  }

  lemma ManualExpected(codec: Codec, s: State, m: Message)
    requires Inv(codec, s) && Owned(codec, s) && Fits(m) && m.id in s.db.messages && s.db.messages[m.id] == m
    requires m.id in s.manual
    ensures ManualShown(m, s.manual[m.id], ExpectedOf(m))
  {
    assert RowOwned(codec, s, m.id);
    ManualIsNotLogged(codec, s, m.id);
    Decoder.DecodeKeepsOctets(codec, s.manual[m.id]);
  }

  lemma RowExpected(codec: Codec, s: State, m: Message)
    requires Inv(codec, s) && Owned(codec, s) && Fits(m) && m.id in s.db.messages && s.db.messages[m.id] == m
    ensures RowShown(codec, s, m, ExpectedOf(m))
  {
    if m.id in s.manual {
      ManualExpected(codec, s, m);
    }
    forall c, i | c in s.tasks && 0 <= i < |s.tasks[c].log| && s.tasks[c].log[i].row.id == m.id
      ensures EntryShown(codec, s.tasks[c], i, ExpectedOf(m))
    {
      assert TaskOk(codec, s.db, s.tasks[c]);
      EntryExpected(codec, s.db, s.tasks[c], i, m);
    }
  }

  function FileAfter(s: State, session: Option<string>): Option<Bytes> {
    FileOf(session, GetMessages(s.db, 0, ALL, EXPORT_LIMIT))
  }

  /** What a reader is shown are the exported rows in their order, each as its origin says. */
  ghost predicate Captures(codec: Codec, s: State, filter: Option<string>, shown: Option<seq<Shown>>) {
    var rows := Exported(s.db, filter);
    && shown.Some? && |shown.value| == |rows|
    && forall k :: 0 <= k < |rows| ==> HasOrigin(s, rows[k].id) && RowShown(codec, s, rows[k], shown.value[k])
  }

  /**
   * From the wire to the capture: after any schedule, whenever the export returns a file, a reader of it shows the
   * exported rows in their order, the row of an arrival with the octets that arrived, the row of a reply with the
   * octets that its rule made of the row before it, and the row of the send endpoint with the octets that it sent.
   */
  lemma RunIsCaptured(codec: Codec, session: string, schedule: seq<Step>, filter: Option<string>)
    ensures var s := Exec(codec, Init(session), schedule);
      FileAfter(s, filter).Some? ==> Captures(codec, s, filter, ReadPcap(FileAfter(s, filter).value))
  {
    var s := Exec(codec, Init(session), schedule);
    AlwaysInv(codec, session, schedule);
    AlwaysOwned(codec, session, schedule);
    StateIsCaptured(codec, s, filter);
  }

  lemma StateIsCaptured(codec: Codec, s: State, filter: Option<string>)
    requires Inv(codec, s) && Owned(codec, s)
    ensures FileAfter(s, filter).Some? ==> Captures(codec, s, filter, ReadPcap(FileAfter(s, filter).value))
  {
    if FileAfter(s, filter).Some? {
      PcapRoundTrip(s.db, filter);
      ExpectedIsCaptured(codec, s, filter);
    }
  }

  lemma ExpectedIsCaptured(codec: Codec, s: State, filter: Option<string>)
    requires Inv(codec, s) && Owned(codec, s) && AllFit(Exported(s.db, filter))
    ensures Captures(codec, s, filter, Some(ExpectedList(Exported(s.db, filter))))
  {
    var rows := Exported(s.db, filter);
    forall k | 0 <= k < |rows|
      ensures HasOrigin(s, rows[k].id) && RowShown(codec, s, rows[k], ExpectedList(rows)[k])
    {
      ExportedIsStored(s.db, filter, rows[k]);
      RowExpected(codec, s, rows[k]);
    }
  }

  // ----- a message that is too long

  /** After any schedule: an exported row of an arrival longer than 65484 octets makes the export raise. */
  lemma LongArrivalFails(codec: Codec, session: string, schedule: seq<Step>, filter: Option<string>, c: nat, i: nat)
    requires var s := Exec(codec, Init(session), schedule);
      && c in s.tasks && i < |s.tasks[c].log| && s.tasks[c].log[i].kind.Inbound?
      && s.tasks[c].log[i].index < |s.tasks[c].arrivals|
      && |s.tasks[c].arrivals[s.tasks[c].log[i].index]| > 65484
      && s.tasks[c].log[i].row in Exported(s.db, filter)
    ensures FileAfter(Exec(codec, Init(session), schedule), filter) == None
  {
    var s := Exec(codec, Init(session), schedule);
    AlwaysInv(codec, session, schedule);
    LongRowFails(codec, s.db, s.tasks[c], i, filter);
  }

  lemma LongRowFails(codec: Codec, db: Db, t: Task, i: nat, filter: Option<string>)
    requires TaskOk(codec, db, t) && i < |t.log| && t.log[i].kind.Inbound? && t.log[i].index < |t.arrivals|
    requires |t.arrivals[t.log[i].index]| > 65484 && t.log[i].row in Exported(db, filter)
    ensures FileOf(filter, GetMessages(db, 0, ALL, EXPORT_LIMIT)) == None
  {
    EntryPayload(codec, db, t, i);
    ExportReturns(db, filter);
    var k :| 0 <= k < |Exported(db, filter)| && Exported(db, filter)[k] == t.log[i].row;
    assert !Fits(Exported(db, filter)[k]);
  }

  /** One connection that receives one message. */
  function OneArrival(raw: Bytes): seq<Step> {
    [Open(0, "peer", 1), Arrive(0, raw), ReadSession(0, 0, 0), LogInbound(0)]
  }

  lemma OneArrivalSteps(codec: Codec, raw: Bytes)
    ensures Exec(codec, Init("s"), OneArrival(raw))
         == Do(codec, Do(codec, Do(codec, Do(codec, Init("s"), Open(0, "peer", 1)), Arrive(0, raw)),
                 ReadSession(0, 0, 0)), LogInbound(0))
  {
    var steps := OneArrival(raw);
    AtStep(codec, Init("s"), steps, 0);
    AtStep(codec, Init("s"), steps, 1);
    AtStep(codec, Init("s"), steps, 2);
    AtStep(codec, Init("s"), steps, 3);
    assert steps[..4] == steps;
  }

  lemma Arrives(codec: Codec, raw: Bytes)
    requires 0 < |raw| <= RECV_LIMIT
    ensures var s := Do(codec, Do(codec, Init("s"), Open(0, "peer", 1)), Arrive(0, raw));
      s.db == Empty("s") && s.tasks == map[0 := Task("peer", 1, Arrived(raw), false, [raw], [], {})]
  {
    var waiting := Do(codec, Init("s"), Open(0, "peer", 1));
    assert waiting.tasks == map[0 := Task("peer", 1, Idle, false, [], [], {})];
    assert [] + [raw] == [raw];
  }

  lemma ArrivedIsLogged(codec: Codec, s: State, raw: Bytes)
    requires s.db == Empty("s") && s.tasks == map[0 := Task("peer", 1, Arrived(raw), false, [raw], [], {})]
    ensures HoldsOne(Do(codec, Do(codec, s, ReadSession(0, 0, 0)), LogInbound(0)), raw)
  {
    var stamped := Do(codec, s, ReadSession(0, 0, 0));
    assert stamped.tasks[0].phase.Stamped? && stamped.db == s.db;
  }

  /** One connection has received this message, and its row is the only one. */
  ghost predicate HoldsOne(s: State, raw: Bytes) {
    && s.db.lastMessage == 1 && 0 in s.tasks && |s.tasks[0].log| == 1 && s.tasks[0].arrivals == [raw]
    && s.tasks[0].log[0].kind.Inbound? && s.tasks[0].log[0].index == 0
    && 1 in s.db.messages && s.db.messages[1] == s.tasks[0].log[0].row
  }

  lemma ArrivalLogged(codec: Codec, raw: Bytes)
    requires 0 < |raw| <= RECV_LIMIT
    ensures HoldsOne(Exec(codec, Init("s"), OneArrival(raw)), raw)
  {
    OneArrivalSteps(codec, raw);
    Arrives(codec, raw);
    ArrivedIsLogged(codec, Do(codec, Do(codec, Init("s"), Open(0, "peer", 1)), Arrive(0, raw)), raw);
  }

  lemma RowExportable(m: Message, raw: Bytes)
    requires Base64.Decode(m.f.rawB64) == Some(raw) && raw != []
    ensures Exportable(None, m)
  {
    if m.f.rawB64 == "" {
      EmptyText();
    }
  }

  lemma EmptyText()
    ensures Base64.Decode("") == Some([])
  {
    Base64.DecodeUndoesEncode([]);
  }

  /** The runs: one message longer than 65484 octets, which `recv` allows, and the export of the log raises. */
  lemma LongArrivalRun(codec: Codec, raw: Bytes)
    requires 65484 < |raw| <= RECV_LIMIT
    ensures FileAfter(Exec(codec, Init("s"), OneArrival(raw)), None) == None
  {
    ArrivalLogged(codec, raw);
    AlwaysInv(codec, "s", OneArrival(raw));
    OneRowFails(codec, Exec(codec, Init("s"), OneArrival(raw)), raw);
  }

  lemma OneRowFails(codec: Codec, s: State, raw: Bytes)
    requires Inv(codec, s) && HoldsOne(s, raw) && |raw| > 65484
    ensures FileAfter(s, None) == None
  {
    assert TaskOk(codec, s.db, s.tasks[0]);
    EntryPayload(codec, s.db, s.tasks[0], 0);
    RowExportable(s.db.messages[1], raw);
    StoredIsExported(s.db, None, 1);
    LongRowFails(codec, s.db, s.tasks[0], 0, None);
  }

  // ----- a log that is too long

  /** The send endpoint is given the same octets again and again. */
  function Sends(raw: Bytes, n: nat): seq<Step> {
    if n == 0 then [] else Sends(raw, n - 1) + [LogManual(raw, "s", 0, 0)]
  }

  /** A log of n rows with these fields. */
  ghost predicate Filled(db: Db, f: Fields, n: nat) {
    && db.lastMessage == n && 0 !in db.messages
    && forall id :: 1 <= id <= n ==> id in db.messages && db.messages[id] == Message(id, f)
  }

  lemma FillsOne(codec: Codec, s: State, raw: Bytes, n: nat)
    requires Filled(s.db, ManualFields(codec, raw, "s", 0, 0), n)
    ensures Filled(Do(codec, s, LogManual(raw, "s", 0, 0)).db, ManualFields(codec, raw, "s", 0, 0), n + 1)
  {
  }

  lemma {:induction false} SendsFill(codec: Codec, raw: Bytes, n: nat)
    ensures Filled(Exec(codec, Init("s"), Sends(raw, n)).db, ManualFields(codec, raw, "s", 0, 0), n)
  {
    if n > 0 {
      var before := Sends(raw, n - 1);
      SendsFill(codec, raw, n - 1);
      FillsOne(codec, Exec(codec, Init("s"), before), raw, n - 1);
      assert Sends(raw, n)[..|before|] == before;
    }
  }

  lemma FilledIsCut(db: Db, f: Fields, n: nat, session: Option<string>)
    requires Filled(db, f, n) && n > EXPORT_LIMIT
    ensures Message(n, f) in AllRows(db) && Message(n, f) !in Exported(db, session)
  {
    var rows := GetMessages(db, 0, ALL, EXPORT_LIMIT);
    DenseScan(db.messages, After(0, ALL), n + 1);
    assert AllRows(db)[n - 1] == Message(n, f);
    assert forall i :: 0 <= i < |rows| ==> rows[i] == AllRows(db)[i] && rows[i].id == i + 1;
    FilterMembers(session, rows, Message(n, f));
  }

  lemma ManualExportable(codec: Codec, raw: Bytes, id: nat)
    requires raw != []
    ensures Exportable(None, Message(id, ManualFields(codec, raw, "s", 0, 0)))
  {
    Decoder.DecodeKeepsOctets(codec, raw);
    RowExportable(Message(id, ManualFields(codec, raw, "s", 0, 0)), raw);
  }

  /**
   * The runs: after any number above a thousand of messages through the send endpoint, the last one is stored and could
   * be exported, and is not in the export.
   */
  lemma LastRowMissing(codec: Codec, raw: Bytes, n: nat)
    requires raw != [] && n > EXPORT_LIMIT
    ensures var db := Exec(codec, Init("s"), Sends(raw, n)).db;
      var last := Message(n, ManualFields(codec, raw, "s", 0, 0));
      && n in db.messages && db.messages[n] == last && Exportable(None, last)
      && last in AllRows(db) && last !in Exported(db, None)
  {
    var f := ManualFields(codec, raw, "s", 0, 0);
    ManualExportable(codec, raw, n);
    SendsFill(codec, raw, n);
    FilledIsCut(Exec(codec, Init("s"), Sends(raw, n)).db, f, n, None);
  }
}
