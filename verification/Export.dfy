/** export.py: which rows are exported, the PCAP file they make, and a reader that takes the file apart again. */
module Export {
  import opened Wrappers
  import opened Octets
  import opened Tables
  import opened Store
  import opened Packet
  import Base64

  const EXPORT_LIMIT := 1000

  // ----- selection

  /** The session filter: a missing or empty session id lets every row through. */
  predicate InSession(session: Option<string>, m: Message) {
    session == None || session == Some("") || session == Some(m.f.sessionId)
  }

  /** The payload of a row, unless it has none or it does not decode. */
  function Payload(m: Message): Option<Bytes> {
    if m.f.rawB64 == "" then None else Base64.Decode(m.f.rawB64)
  }

  predicate Exportable(session: Option<string>, m: Message) {
    InSession(session, m) && Payload(m).Some?
  }

  function Filter(session: Option<string>, rows: seq<Message>): seq<Message> {
    if rows == [] then []
    else Filter(session, rows[..|rows| - 1])
         + if Exportable(session, rows[|rows| - 1]) then [rows[|rows| - 1]] else []
  }

  /** The rows of the log in the order of their ids. */
  function AllRows(db: Db): seq<Message> {
    HitList(db, 0, ALL)
  }

  /** The rows that become packets. */
  function Exported(db: Db, session: Option<string>): seq<Message> {
    Filter(session, GetMessages(db, 0, ALL, EXPORT_LIMIT))
  }

  lemma {:induction false} FilterConcat(session: Option<string>, a: seq<Message>, b: seq<Message>)
    ensures Filter(session, a + b) == Filter(session, a) + Filter(session, b)
    decreases |b|
  {
    if b == [] {
      assert a + b == a;
    } else {
      FilterConcat(session, a, b[..|b| - 1]);
      assert (a + b)[..|a + b| - 1] == a + b[..|b| - 1];
    }
  }

  lemma {:induction false} FilterEmpty(session: Option<string>, rows: seq<Message>)
    ensures Filter(session, rows) == [] <==> forall i :: 0 <= i < |rows| ==> !Exportable(session, rows[i])
  {
    if rows != [] {
      FilterEmpty(session, rows[..|rows| - 1]);
      var last := |rows| - 1;
      assert forall i :: 0 <= i < last ==> rows[..last][i] == rows[i];
    }
  }

  /**
   * The export is a prefix, in the order of ids, of all exportable rows of the session, and it is all of them exactly
   * when no exportable row stands after the first thousand rows of the log; in particular when there are no more.
   */
  lemma ExportIsPrefix(db: Db, session: Option<string>)
    ensures Exported(db, session) <= Filter(session, AllRows(db))
    ensures Exported(db, session) == Filter(session, AllRows(db))
       <==> forall i :: EXPORT_LIMIT <= i < |AllRows(db)| ==> !Exportable(session, AllRows(db)[i])
  {
    var rows := AllRows(db);
    var first := Prefix(rows, EXPORT_LIMIT);
    var rest := rows[|first|..];
    assert rows == first + rest;
    FilterConcat(session, first, rest);
    FilterEmpty(session, rest);
    assert forall i :: |first| <= i < |rows| ==> rest[i - |first|] == rows[i];
  }

  lemma RowIsCandidate(db: Db, id: nat)
    requires Valid(db) && id in db.messages
    ensures db.messages[id] in AllRows(db)
  {
    var i := ScanComplete(db.messages, After(0, ALL), db.lastMessage + 1, id);
  }

  /** The candidates are exactly the stored rows, in ascending order of id. */
  lemma AllRowsAreStored(db: Db)
    requires Valid(db)
    ensures forall i, j :: 0 <= i < j < |AllRows(db)| ==> AllRows(db)[i].id < AllRows(db)[j].id
    ensures forall m :: m in AllRows(db) <==> m.id in db.messages && db.messages[m.id] == m
  {
    ScanOrder(db.messages, After(0, ALL), (m: Message) => m.id, db.lastMessage + 1);
    forall m: Message | m.id in db.messages && db.messages[m.id] == m ensures m in AllRows(db) {
      RowIsCandidate(db, m.id);
    }
  }

  lemma {:induction false} FilterMembers(session: Option<string>, rows: seq<Message>, m: Message)
    ensures m in Filter(session, rows) <==> m in rows && Exportable(session, m)
  {
    if rows != [] {
      var last := |rows| - 1;
      FilterMembers(session, rows[..last], m);
      assert rows == rows[..last] + [rows[last]];
    }
  }

  /**
   * The exported rows are those of the first thousand rows of the log whose session is the one asked for, if one is,
   * and whose base 64 is not empty and decodes.
   */
  lemma ExportedRows(db: Db, session: Option<string>, m: Message)
    ensures m in Exported(db, session) <==>
      && m in Prefix(AllRows(db), 1000)
      && (session.Some? && session.value != "" ==> m.f.sessionId == session.value)
      && m.f.rawB64 != "" && Base64.Decode(m.f.rawB64).Some?
  {
    FilterMembers(session, GetMessages(db, 0, ALL, EXPORT_LIMIT), m);
  }

  // ----- the file

  /** Magic, version 2.4, zone, accuracy, snapshot length and Ethernet link type, little-endian. */
  function GlobalHeader(): (h: Bytes)
    ensures |h| == 24
  {
    HeaderOf(0xA1B2C3D4, 2, 4, 0, 0, 65535, 1)
  }

  /** Format `<IHHiIII`, for a zone that is not negative. */
  function HeaderOf(magic: nat, major: nat, minor: nat, zone: nat, accuracy: nat, snapLength: nat, link: nat)
    : (h: Bytes)
    requires magic < 0x1_0000_0000 && major < 0x1_0000 && minor < 0x1_0000 && zone < 0x8000_0000
    requires accuracy < 0x1_0000_0000 && snapLength < 0x1_0000_0000 && link < 0x1_0000_0000
    ensures |h| == 24
  {
    LE32(magic) + LE16(major) + LE16(minor) + LE32(zone) + LE32(accuracy) + LE32(snapLength) + LE32(link)
  }

  datatype AnyRecord = AnyRecord(seconds: nat, microseconds: nat, frame: Bytes)

  /** A record whose times and length the four 32-bit fields can hold. */
  type Record = r: AnyRecord |
    r.seconds < 0x1_0000_0000 && r.microseconds < 0x1_0000_0000 && |r.frame| < 0x1_0000_0000
    witness AnyRecord(0, 0, [])

  function RecordHeader(r: Record): (h: Bytes)
    ensures |h| == 16
  {
    LE32(r.seconds) + LE32(r.microseconds) + LE32(|r.frame|) + LE32(|r.frame|)
  }

  function RecordBytes(r: Record): Bytes {
    RecordHeader(r) + r.frame
  }

  /** The record of a row; None where `struct.pack` raises on a length or on a time. */
  function RecordOf(m: Message): Option<Record> {
    match Payload(m)
    case None => None
    case Some(payload) =>
      match BuildPacket(payload, m.f.direction == "inbound")
      case None => None
      case Some(frame) =>
        if 0 <= m.f.seconds < 0x1_0000_0000 && m.f.microseconds < 0x1_0000_0000 && |frame| < 0x1_0000_0000 then
          Some(AnyRecord(m.f.seconds, m.f.microseconds, frame))
        else
          None
  }

  /** What the loop appends for a row. */
  function Packed(m: Message): Option<Bytes> {
    match RecordOf(m)
    case None => None
    case Some(r) => Some(RecordBytes(r))
  }

  function PackAll(rows: seq<Message>): (chunks: seq<Option<Bytes>>)
    ensures |chunks| == |rows| && forall i :: 0 <= i < |rows| ==> chunks[i] == Packed(rows[i])
  {
    seq(|rows|, i requires 0 <= i < |rows| => Packed(rows[i]))
  }

  /** The buffer after appending these pieces, if all of them could be packed. */
  function Appended(buf: Bytes, chunks: seq<Option<Bytes>>): Option<Bytes> {
    if chunks == [] then Some(buf)
    else
      match (Appended(buf, chunks[..|chunks| - 1]), chunks[|chunks| - 1])
      case (Some(b), Some(chunk)) => Some(b + chunk)
      case _ => None
  }

  function FileOf(session: Option<string>, rows: seq<Message>): Option<Bytes> {
    Appended(GlobalHeader(), PackAll(Filter(session, rows)))
  }

  lemma FilterNext(session: Option<string>, rows: seq<Message>, i: nat)
    requires i < |rows|
    ensures Filter(session, rows[..i + 1]) == Filter(session, rows[..i])
            + if Exportable(session, rows[i]) then [rows[i]] else []
  {
    assert rows[..i + 1][..i] == rows[..i];
  }

  lemma AppendedNext(buf: Bytes, chunks: seq<Option<Bytes>>, chunk: Option<Bytes>)
    ensures Appended(buf, chunks + [chunk]) == Joined(Appended(buf, chunks), chunk)
  {
    assert (chunks + [chunk])[..|chunks|] == chunks;
  }

  function Joined(buf: Option<Bytes>, chunk: Option<Bytes>): Option<Bytes> {
    if buf.Some? && chunk.Some? then Some(buf.value + chunk.value) else None
  }

  lemma PackNext(rows: seq<Message>, m: Message)
    ensures PackAll(rows + [m]) == PackAll(rows) + [Packed(m)]
  {
  }

  /** One more row: skipped, appended, or the end of the export. */
  lemma FileNext(session: Option<string>, rows: seq<Message>, i: nat)
    requires i < |rows|
    ensures FileOf(session, rows[..i + 1])
         == if Exportable(session, rows[i]) then Joined(FileOf(session, rows[..i]), Packed(rows[i]))
            else FileOf(session, rows[..i])
  {
    var some := Filter(session, rows[..i]);
    FilterNext(session, rows, i);
    if Exportable(session, rows[i]) {
      PackNext(some, rows[i]);
      AppendedNext(GlobalHeader(), PackAll(some), Packed(rows[i]));
    } else {
      assert some + [] == some;
    }
  }

  lemma {:induction false} AppendedStaysNone(buf: Bytes, a: seq<Option<Bytes>>, b: seq<Option<Bytes>>)
    requires Appended(buf, a) == None
    ensures Appended(buf, a + b) == None
    decreases |b|
  {
    if b == [] {
      assert a + b == a;
    } else {
      var last := |b| - 1;
      AppendedStaysNone(buf, a, b[..last]);
      AppendedNext(buf, a + b[..last], b[last]);
      assert a + b == a + b[..last] + [b[last]];
    }
  }

  lemma PackConcat(a: seq<Message>, b: seq<Message>)
    ensures PackAll(a + b) == PackAll(a) + PackAll(b)
  {
  }

  lemma PackSplit(session: Option<string>, rows: seq<Message>, i: nat)
    requires i <= |rows|
    ensures PackAll(Filter(session, rows)) == PackAll(Filter(session, rows[..i])) + PackAll(Filter(session, rows[i..]))
  {
    FilterConcat(session, rows[..i], rows[i..]);
    assert rows[..i] + rows[i..] == rows;
    PackConcat(Filter(session, rows[..i]), Filter(session, rows[i..]));
  }

  /** Once a row cannot be packed the export has failed, whatever rows follow. */
  lemma FailureStays(session: Option<string>, rows: seq<Message>, i: nat)
    requires i <= |rows|
    ensures FileOf(session, rows[..i]) == None ==> FileOf(session, rows) == None
  {
    PackSplit(session, rows, i);
    if FileOf(session, rows[..i]) == None {
      AppendedStaysNone(GlobalHeader(), PackAll(Filter(session, rows[..i])), PackAll(Filter(session, rows[i..])));
    }
  }

  /** The body of the loop of `export_pcap`: skip the row, append its record, or raise. */
  method AppendRow(session: Option<string>, rows: seq<Message>, i: nat, buf: Bytes) returns (next: Option<Bytes>)
    requires i < |rows|
    ensures FileOf(session, rows[..i]) == Some(buf) ==> next == FileOf(session, rows[..i + 1])
  {
    FileNext(session, rows, i);
    if !InSession(session, rows[i]) || rows[i].f.rawB64 == "" {
      return Some(buf);
    }
    var raw := Base64.Decode(rows[i].f.rawB64);
    if raw.None? {
      return Some(buf);
    }
    var chunk := Packed(rows[i]);
    if chunk.None? {
      return None;
    }
    next := Some(buf + chunk.value);
  }

  /** `export_pcap`: one pass over the rows; None is the exception that leaves it. */
  method ExportPcap(store: Store, session: Option<string>) returns (file: Option<Bytes>)
    requires Valid(store.View())
    ensures file == FileOf(session, GetMessages(store.View(), 0, ALL, EXPORT_LIMIT))
  {
    var rows := store.Get(0, ALL, EXPORT_LIMIT);
    var buf := GlobalHeader();
    for i := 0 to |rows|
      invariant FileOf(session, rows[..i]) == Some(buf)
    {
      var next := AppendRow(session, rows, i, buf);
      if next.None? {
        FailureStays(session, rows, i + 1);
        return None;
      }
      buf := next.value;
    }
    assert rows[..|rows|] == rows;
    file := Some(buf);
  }

  /** The rows whose payload and time fit their fields. */
  predicate Fits(m: Message) {
    && Payload(m).Some? && |Payload(m).value| <= 65484
    && 0 <= m.f.seconds < 0x1_0000_0000 && m.f.microseconds < 0x1_0000_0000
  }

  lemma RecordFits(m: Message)
    ensures RecordOf(m).Some? <==> Fits(m)
  {
    if Payload(m).Some? {
      PacketSize(Payload(m).value, m.f.direction == "inbound");
    }
  }

  lemma {:induction false} AllAppended(buf: Bytes, chunks: seq<Option<Bytes>>)
    ensures Appended(buf, chunks).Some? <==> forall i :: 0 <= i < |chunks| ==> chunks[i].Some?
  {
    if chunks != [] {
      var last := |chunks| - 1;
      AllAppended(buf, chunks[..last]);
      assert forall i :: 0 <= i < last ==> chunks[..last][i] == chunks[i];
    }
  }

  /** The export returns a file exactly when every exported row fits. */
  lemma ExportReturns(db: Db, session: Option<string>)
    ensures FileOf(session, GetMessages(db, 0, ALL, EXPORT_LIMIT)).Some?
       <==> forall i :: 0 <= i < |Exported(db, session)| ==> Fits(Exported(db, session)[i])
  {
    var rows := Exported(db, session);
    AllAppended(GlobalHeader(), PackAll(rows));
    forall i | 0 <= i < |rows| ensures PackAll(rows)[i].Some? <==> Fits(rows[i]) {
      RecordFits(rows[i]);
    }
  }

  // ----- the reader

  /** Takes one record off the front of a file by the length in its header. */
  function ReadRecord(b: Bytes): (r: Option<(Record, Bytes)>)
    ensures r.Some? ==> |r.value.1| < |b|
  {
    if |b| < 16 then None
    else
      var length := ReadLE32(b[8..12]);
      if ReadLE32(b[12..16]) != length || |b| < 16 + length then None
      else Some((AnyRecord(ReadLE32(b[..4]), ReadLE32(b[4..8]), b[16..16 + length]), b[16 + length..]))
  }

  function ReadRecords(b: Bytes): Option<seq<Record>>
    decreases |b|
  {
    if b == [] then Some([])
    else
      match ReadRecord(b)
      case None => None
      case Some((r, rest)) =>
        match ReadRecords(rest)
        case None => None
        case Some(rs) => Some([r] + rs)
  }

  /** What a packet analyser shows of one record: its time and its dissected frame. */
  datatype Shown = Shown(seconds: nat, microseconds: nat, packet: Dissection)

  function ShowAll(rs: seq<Record>): Option<seq<Shown>> {
    if rs == [] then Some([])
    else
      match (Dissect(rs[0].frame), ShowAll(rs[1..]))
      case (Some(d), Some(rest)) => Some([Shown(rs[0].seconds, rs[0].microseconds, d)] + rest)
      case _ => None
  }

  /** Reads a little-endian Ethernet capture of version 2.4. */
  function ReadPcap(b: Bytes): Option<seq<Shown>> {
    if |b| < 24 || ReadLE32(b[..4]) != 0xA1B2C3D4 || ReadLE16(b[4..6]) != 2 || ReadLE16(b[6..8]) != 4
       || ReadLE32(b[20..24]) != 1 then None
    else
      match ReadRecords(b[24..])
      case None => None
      case Some(rs) => ShowAll(rs)
  }

  /** What must be shown of a row. */
  function ExpectedOf(m: Message): Shown
    requires Payload(m).Some? && m.f.seconds >= 0
  {
    Shown(m.f.seconds, m.f.microseconds, Expected(Payload(m).value, m.f.direction == "inbound"))
  }

  // ----- the reader undoes the writer

  lemma RecordFields(r: Record)
    ensures var h := RecordHeader(r);
      && ReadLE32(h[..4]) == r.seconds && ReadLE32(h[4..8]) == r.microseconds
      && ReadLE32(h[8..12]) == |r.frame| && ReadLE32(h[12..16]) == |r.frame|
  {
    var h := RecordHeader(r);
    var n := LE32(|r.frame|);
    Piece(h, [], LE32(r.seconds), LE32(r.microseconds) + n + n);
    Piece(h, LE32(r.seconds), LE32(r.microseconds), n + n);
    Piece(h, LE32(r.seconds) + LE32(r.microseconds), n, n);
    Piece(h, LE32(r.seconds) + LE32(r.microseconds) + n, n, []);
  }

  lemma RecordCut(h: Bytes, r: Record, rest: Bytes)
    requires |h| == 16 && ReadLE32(h[..4]) == r.seconds && ReadLE32(h[4..8]) == r.microseconds
    requires ReadLE32(h[8..12]) == |r.frame| && ReadLE32(h[12..16]) == |r.frame|
    ensures ReadRecord(h + r.frame + rest) == Some((r, rest))
  {
    var b := h + r.frame + rest;
    assert b[..4] == h[..4] && b[4..8] == h[4..8] && b[8..12] == h[8..12] && b[12..16] == h[12..16];
    assert b[16..16 + |r.frame|] == r.frame && b[16 + |r.frame|..] == rest;
  }

  /** Pieces one after the other. */
  function Concat(chunks: seq<Bytes>): Bytes {
    if chunks == [] then [] else chunks[0] + Concat(chunks[1..])
  }

  lemma {:induction false} ConcatNext(chunks: seq<Bytes>, chunk: Bytes)
    ensures Concat(chunks + [chunk]) == Concat(chunks) + chunk
  {
    if chunks == [] {
      assert chunks + [chunk] == [chunk];
      assert Concat([chunk][1..]) == [];
    } else {
      ConcatNext(chunks[1..], chunk);
      assert (chunks + [chunk])[1..] == chunks[1..] + [chunk];
    }
  }

  /** Appending piece by piece gives the header and the pieces one after the other. */
  lemma {:induction false} AppendedConcat(buf: Bytes, chunks: seq<Option<Bytes>>, pieces: seq<Bytes>)
    requires |chunks| == |pieces| && forall i :: 0 <= i < |pieces| ==> chunks[i] == Some(pieces[i])
    ensures Appended(buf, chunks) == Some(buf + Concat(pieces))
  {
    if pieces == [] {
      assert buf + [] == buf;
    } else {
      var last := |pieces| - 1;
      AppendedConcat(buf, chunks[..last], pieces[..last]);
      assert pieces == pieces[..last] + [pieces[last]];
      ConcatNext(pieces[..last], pieces[last]);
      Regroup(buf, Concat(pieces[..last]), pieces[last]);
    }
  }

  lemma Regroup(a: Bytes, b: Bytes, c: Bytes)
    ensures a + b + c == a + (b + c)
  {
  }

  function Pieces(rs: seq<Record>): (pieces: seq<Bytes>)
    ensures |pieces| == |rs| && forall i :: 0 <= i < |rs| ==> pieces[i] == RecordBytes(rs[i])
  {
    seq(|rs|, i requires 0 <= i < |rs| => RecordBytes(rs[i]))
  }

  /** The octets of a list of records. */
  function Body(rs: seq<Record>): Bytes {
    Concat(Pieces(rs))
  }

  lemma ReadRecordBytes(r: Record, rest: Bytes)
    ensures ReadRecord(RecordBytes(r) + rest) == Some((r, rest))
    ensures RecordBytes(r) + rest != []
  {
    RecordFields(r);
    RecordCut(RecordHeader(r), r, rest);
  }

  lemma BodyNext(rs: seq<Record>)
    requires rs != []
    ensures Body(rs) == RecordBytes(rs[0]) + Body(rs[1..])
  {
    assert Pieces(rs)[1..] == Pieces(rs[1..]);
  }

  lemma ReadNext(b: Bytes, r: Record, rest: Bytes, rs: seq<Record>)
    requires b != [] && ReadRecord(b) == Some((r, rest)) && ReadRecords(rest) == Some(rs)
    ensures ReadRecords(b) == Some([r] + rs)
  {
  }

  lemma {:induction false} ReadBody(rs: seq<Record>)
    ensures ReadRecords(Body(rs)) == Some(rs)
  {
    if rs != [] {
      ReadBody(rs[1..]);
      BodyNext(rs);
      ReadRecordBytes(rs[0], Body(rs[1..]));
      ReadNext(Body(rs), rs[0], Body(rs[1..]), rs[1..]);
      assert rs == [rs[0]] + rs[1..];
    }
  }

  lemma HeaderCut(a: Bytes, b: Bytes, c: Bytes, rest: Bytes, link: Bytes)
    requires |a| == 4 && |b| == 2 && |c| == 2 && |rest| == 12 && |link| == 4
    ensures var h := a + b + c + rest + link;
      h[..4] == a && h[4..6] == b && h[6..8] == c && h[20..24] == link
  {
  }

  lemma HeaderFields(magic: nat, major: nat, minor: nat, zone: nat, accuracy: nat, snapLength: nat, link: nat)
    requires magic < 0x1_0000_0000 && major < 0x1_0000 && minor < 0x1_0000 && zone < 0x8000_0000
    requires accuracy < 0x1_0000_0000 && snapLength < 0x1_0000_0000 && link < 0x1_0000_0000
    ensures var h := HeaderOf(magic, major, minor, zone, accuracy, snapLength, link);
      && ReadLE32(h[..4]) == magic && ReadLE16(h[4..6]) == major
      && ReadLE16(h[6..8]) == minor && ReadLE32(h[20..24]) == link
  {
    var a, b, c, rest := LE32(magic), LE16(major), LE16(minor), LE32(zone) + LE32(accuracy) + LE32(snapLength);
    HeaderCut(a, b, c, rest, LE32(link));
    assert HeaderOf(magic, major, minor, zone, accuracy, snapLength, link) == a + b + c + rest + LE32(link);
  }

  lemma Quarters(n: nat)
    requires n < 0x1_0000_0000
    ensures n / 65536 / 256 == n / 0x100_0000 && n / 65536 % 256 == n / 65536 - n / 0x100_0000 * 256
    ensures n % 65536 / 256 == n / 256 % 256 && n % 65536 % 256 == n % 256
  {
  }

  lemma Backwards(a: Byte, b: Byte, c: Byte, d: Byte)
    ensures Reversed([a, b, c, d]) == [d, c, b, a]
  {
  }

  lemma Octets32(n: nat)
    requires n < 0x1_0000_0000
    ensures LE32(n) == [n % 256, n / 256 % 256, n / 65536 % 256, n / 0x100_0000]
  {
    Quarters(n);
    Backwards(n / 0x100_0000, n / 65536 % 256, n / 256 % 256, n % 256);
    assert U32(n) == [n / 0x100_0000, n / 65536 % 256, n / 256 % 256, n % 256];
  }

  /** The header to the octet: magic, version 2.4, zone and accuracy 0, snapshot length 65535, Ethernet. */
  lemma GlobalOctets()
    ensures GlobalHeader() == [0xD4, 0xC3, 0xB2, 0xA1, 2, 0, 4, 0, 0, 0, 0, 0, 0, 0, 0, 0, 0xFF, 0xFF, 0, 0, 1, 0, 0, 0]
  {
    GlobalPieces();
    HeaderIsSum(0xA1B2C3D4, 2, 4, 0, 0, 65535, 1);
    Assembled(LE32(0xA1B2C3D4), LE16(2), LE16(4), LE32(0), LE32(65535), LE32(1));
  }

  lemma HeaderIsSum(magic: nat, major: nat, minor: nat, zone: nat, accuracy: nat, snapLength: nat, link: nat)
    requires magic < 0x1_0000_0000 && major < 0x1_0000 && minor < 0x1_0000 && zone < 0x8000_0000
    requires accuracy < 0x1_0000_0000 && snapLength < 0x1_0000_0000 && link < 0x1_0000_0000
    ensures HeaderOf(magic, major, minor, zone, accuracy, snapLength, link)
         == LE32(magic) + LE16(major) + LE16(minor) + LE32(zone) + LE32(accuracy) + LE32(snapLength) + LE32(link)
  {
  }

  lemma GlobalPieces()
    ensures LE32(0xA1B2C3D4) == [0xD4, 0xC3, 0xB2, 0xA1] && LE16(2) == [2, 0] && LE16(4) == [4, 0]
    ensures LE32(0) == [0, 0, 0, 0] && LE32(65535) == [0xFF, 0xFF, 0, 0] && LE32(1) == [1, 0, 0, 0]
  {
    Octets32(0xA1B2C3D4);
    Octets16(2);
    Octets16(4);
    Octets32(0);
    Octets32(65535);
    Octets32(1);
  }

  lemma Assembled(magic: Bytes, major: Bytes, minor: Bytes, zero: Bytes, snapLength: Bytes, link: Bytes)
    requires magic == [0xD4, 0xC3, 0xB2, 0xA1] && major == [2, 0] && minor == [4, 0] && zero == [0, 0, 0, 0]
    requires snapLength == [0xFF, 0xFF, 0, 0] && link == [1, 0, 0, 0]
    ensures magic + major + minor + zero + zero + snapLength + link
         == [0xD4, 0xC3, 0xB2, 0xA1, 2, 0, 4, 0, 0, 0, 0, 0, 0, 0, 0, 0, 0xFF, 0xFF, 0, 0, 1, 0, 0, 0]
  {
  }

  lemma Octets16(n: nat)
    requires n < 0x1_0000
    ensures LE16(n) == [n % 256, n / 256]
  {
    var b := U16(n);
    assert Reversed(b) == [b[1], b[0]];
  }

  /** A frame fits the snapshot length that the header declares exactly up to 65472 octets of payload. */
  lemma FrameFitsHeader(payload: Bytes, inbound: bool)
    requires |payload| <= 65484
    ensures BuildPacket(payload, inbound).Some?
    ensures |BuildPacket(payload, inbound).value| <= ReadLE32(GlobalHeader()[16..20]) <==> |payload| <= 65472
  {
    SizeBound(payload, inbound);
    SnapLength();
  }

  lemma SnapLength()
    ensures ReadLE32(GlobalHeader()[16..20]) == 65535
  {
    GlobalOctets();
    var s: Bytes := [0xFF, 0xFF, 0, 0];
    assert GlobalHeader()[16..20] == s;
    Octets32(65535);
    assert LE32(65535) == s;
  }

  lemma GlobalFields()
    ensures var h := GlobalHeader();
      ReadLE32(h[..4]) == 0xA1B2C3D4 && ReadLE16(h[4..6]) == 2 && ReadLE16(h[6..8]) == 4 && ReadLE32(h[20..24]) == 1
  {
    HeaderFields(0xA1B2C3D4, 2, 4, 0, 0, 65535, 1);
  }

  lemma ReadAfterHeader(h: Bytes, body: Bytes)
    requires |h| == 24
    requires ReadLE32(h[..4]) == 0xA1B2C3D4 && ReadLE32(h[20..24]) == 1
    requires ReadLE16(h[4..6]) == 2 && ReadLE16(h[6..8]) == 4
    ensures ReadPcap(h + body) == match ReadRecords(body) case None => None case Some(rs) => ShowAll(rs)
  {
    var b := h + body;
    assert b[..4] == h[..4] && b[4..6] == h[4..6] && b[6..8] == h[6..8] && b[20..24] == h[20..24] && b[24..] == body;
  }

  lemma RecordShown(m: Message)
    requires Fits(m)
    ensures RecordOf(m).Some?
    ensures var r := RecordOf(m).value;
      Dissect(r.frame).Some? && Shown(r.seconds, r.microseconds, Dissect(r.frame).value) == ExpectedOf(m)
  {
    RecordFits(m);
    DissectUndoesBuild(Payload(m).value, m.f.direction == "inbound");
  }

  lemma {:induction false} ShowEach(rs: seq<Record>, want: seq<Shown>)
    requires |rs| == |want|
    requires forall i :: 0 <= i < |rs| ==>
      Dissect(rs[i].frame).Some? && Shown(rs[i].seconds, rs[i].microseconds, Dissect(rs[i].frame).value) == want[i]
    ensures ShowAll(rs) == Some(want)
  {
    if rs != [] {
      ShowEach(rs[1..], want[1..]);
      assert want == [want[0]] + want[1..];
    }
  }

  ghost predicate AllFit(rows: seq<Message>) {
    forall i :: 0 <= i < |rows| ==> Fits(rows[i])
  }

  /** What must be shown of the exported rows, in their order. */
  ghost function ExpectedList(rows: seq<Message>): (want: seq<Shown>)
    requires AllFit(rows)
    ensures |want| == |rows| && forall i :: 0 <= i < |rows| ==> Fits(rows[i]) && want[i] == ExpectedOf(rows[i])
  {
    seq(|rows|, i requires 0 <= i < |rows| && Fits(rows[i]) => ExpectedOf(rows[i]))
  }

  ghost function RecordList(rows: seq<Message>): (rs: seq<Record>)
    requires AllFit(rows)
    ensures |rs| == |rows| && forall i :: 0 <= i < |rows| ==> RecordOf(rows[i]) == Some(rs[i])
  {
    assert forall i :: 0 <= i < |rows| ==> RecordOf(rows[i]).Some? by {
      forall i | 0 <= i < |rows| ensures RecordOf(rows[i]).Some? {
        RecordFits(rows[i]);
      }
    }
    seq(|rows|, i requires 0 <= i < |rows| && RecordOf(rows[i]).Some? => RecordOf(rows[i]).value)
  }

  lemma ShowRows(rows: seq<Message>)
    requires AllFit(rows)
    ensures ShowAll(RecordList(rows)) == Some(ExpectedList(rows))
  {
    var rs := RecordList(rows);
    forall i | 0 <= i < |rs|
      ensures Dissect(rs[i].frame).Some?
      ensures Shown(rs[i].seconds, rs[i].microseconds, Dissect(rs[i].frame).value) == ExpectedList(rows)[i]
    {
      RecordShown(rows[i]);
    }
    ShowEach(rs, ExpectedList(rows));
  }

  lemma PackedRecords(rows: seq<Message>)
    requires AllFit(rows)
    ensures Appended(GlobalHeader(), PackAll(rows)) == Some(GlobalHeader() + Body(RecordList(rows)))
  {
    AppendedConcat(GlobalHeader(), PackAll(rows), Pieces(RecordList(rows)));
  }

  lemma ReadFile(rs: seq<Record>)
    ensures ReadPcap(GlobalHeader() + Body(rs)) == ShowAll(rs)
  {
    GlobalFields();
    ReadAfterHeader(GlobalHeader(), Body(rs));
    ReadBody(rs);
  }

  /**
   * The round trip: whenever the export returns a file, reading it shows exactly the exported rows, in order, each
   * with its time, its direction's addresses and its payload to the octet.
   */
  lemma PcapRoundTrip(db: Db, session: Option<string>)
    requires FileOf(session, GetMessages(db, 0, ALL, EXPORT_LIMIT)).Some?
    ensures AllFit(Exported(db, session))
    ensures ReadPcap(FileOf(session, GetMessages(db, 0, ALL, EXPORT_LIMIT)).value)
         == Some(ExpectedList(Exported(db, session)))
  {
    var rows := Exported(db, session);
    ExportReturns(db, session);
    PackedRecords(rows);
    ShowRows(rows);
    ReadFile(RecordList(rows));
  }
}
