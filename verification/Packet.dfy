/** The Ethernet, IPv4 and SCTP wrapping that `_build_packet` puts around a payload, and a dissector for it. */
module Packet {
  import opened Wrappers
  import opened Octets
  import opened Checksum

  const MAC_PROBE: Bytes := [0x02, 0, 0, 0, 0, 0x01]
  const MAC_PEER: Bytes := [0x02, 0, 0, 0, 0, 0x02]
  const IP_PROBE: Bytes := [0x7F, 0, 0, 0x01]
  const IP_PEER: Bytes := [0x0A, 0, 0, 0x02]
  const SCTP_PORT: nat := 29168
  const PPID: nat := 24

  function PaddingOf(chunkLength: nat): (p: nat)
    ensures p < 4 && (chunkLength + p) % 4 == 0
  {
    (4 - chunkLength % 4) % 4
  }

  function CeilQuarter(n: nat): nat {
    (n + 3) / 4
  }

  lemma PaddedLength(n: nat)
    ensures n + PaddingOf(16 + n) == 4 * CeilQuarter(n)
  {
  }

  /** The 16 octets before the user data of a DATA chunk (section 3.3.1 of RFC 4960). */
  function ChunkHeader(length: nat): (h: Bytes)
    requires length < 0x1_0000
    ensures |h| == 16
  {
    [0x00, 0x03] + U16(length) + U32(1) + U16(0) + U16(0) + U32(PPID)
  }

  /** The common header of section 3.1 of RFC 4960; the CRC-32c field is left zero. */
  function SctpHeader(): (h: Bytes)
    ensures |h| == 12
  {
    U16(SCTP_PORT) + U16(SCTP_PORT) + U32(0) + U32(0)
  }

  /** The header of section 3.1 of RFC 791 with its checksum field still zero. */
  function Ipv4Blank(total: nat, src: Bytes, dst: Bytes): (h: Bytes)
    requires total < 0x1_0000 && |src| == 4 && |dst| == 4
    ensures |h| == 20 && h[10] == 0 && h[11] == 0
  {
    [0x45, 0x00] + U16(total) + U16(0) + U16(0x4000) + [64, 132] + U16(0) + src + dst
  }

  function Ipv4Header(total: nat, src: Bytes, dst: Bytes): (h: Bytes)
    requires total < 0x1_0000 && |src| == 4 && |dst| == 4
    ensures |h| == 20
  {
    var blank := Ipv4Blank(total, src, dst);
    WithWord(blank, 10, InternetChecksum(blank))
  }

  function EthernetHeader(inbound: bool): (h: Bytes)
    ensures |h| == 14
  {
    (if inbound then MAC_PROBE + MAC_PEER else MAC_PEER + MAC_PROBE) + [0x08, 0x00]
  }

  function Sctp(payload: Bytes): (s: Bytes)
    requires 16 + |payload| < 0x1_0000
    ensures |s| == 28 + 4 * CeilQuarter(|payload|)
  {
    PaddedLength(|payload|);
    SctpHeader() + (ChunkHeader(16 + |payload|) + (payload + Zeros(PaddingOf(16 + |payload|))))
  }

  function SourceIp(inbound: bool): (a: Bytes)
    ensures |a| == 4
  {
    if inbound then IP_PEER else IP_PROBE
  }

  /** The frame around an SCTP packet that the 16-bit total length can describe. */
  function Frame(sctp: Bytes, inbound: bool): (f: Bytes)
    requires 20 + |sctp| < 0x1_0000
    ensures |f| == 34 + |sctp|
  {
    EthernetHeader(inbound) + (Ipv4Header(20 + |sctp|, SourceIp(inbound), SourceIp(!inbound)) + sctp)
  }

  /** `_build_packet`; None when a 16-bit length field cannot be packed. */
  function BuildPacket(payload: Bytes, inbound: bool): Option<Bytes> {
    if 16 + |payload| >= 0x1_0000 || 20 + |Sctp(payload)| >= 0x1_0000 then None
    else Some(Frame(Sctp(payload), inbound))
  }

  /** Every field that a dissector shows for an Ethernet frame with one SCTP DATA chunk. */
  datatype Dissection = Dissection(
    dstMac: Bytes, srcMac: Bytes,
    tos: nat, ident: nat, fragment: nat, ttl: nat, srcIp: Bytes, dstIp: Bytes,
    srcPort: nat, dstPort: nat, tag: nat, crc: nat,
    flags: nat, tsn: nat, stream: nat, sequence: nat, ppid: nat,
    payload: Bytes)

  /** IPv4 version, header length, total length, protocol and header checksum decide where the SCTP packet is. */
  function DissectIpv4(ip: Bytes): (r: Option<(Bytes, Bytes)>)
    ensures r.Some? ==> |r.value.0| >= 20
  {
    if |ip| < 20 then None
    else
      var headerLength := ip[0] % 16 * 4;
      var total := ReadU16(ip[2..4]);
      if ip[0] / 16 != 4 || headerLength < 20 || total < headerLength || |ip| < total
         || ip[9] != 132 || InternetChecksum(ip[..headerLength]) != 0 then None
      else Some((ip[..headerLength], ip[headerLength..total]))
  }

  /** The common header and the first chunk, cut at the chunk's declared length. */
  function DissectSctp(s: Bytes): (r: Option<(Bytes, Bytes)>)
    ensures r.Some? ==> |r.value.0| == 12 && |r.value.1| >= 16
  {
    if |s| < 28 || s[12] != 0 then None
    else
      var length := ReadU16(s[14..16]);
      if length < 16 || |s| < 12 + length then None
      else Some((s[..12], s[12..12 + length]))
  }

  function Show(eth: Bytes, ip: Bytes, ports: Bytes, chunk: Bytes): Dissection
    requires |eth| >= 12 && |ip| >= 20 && |ports| == 12 && |chunk| >= 16
  {
    Dissection(
      eth[..6], eth[6..12],
      ip[1], ReadU16(ip[4..6]), ReadU16(ip[6..8]), ip[8], ip[12..16], ip[16..20],
      ReadU16(ports[..2]), ReadU16(ports[2..4]), ReadU32(ports[4..8]), ReadU32(ports[8..12]),
      chunk[1], ReadU32(chunk[4..8]), ReadU16(chunk[8..10]), ReadU16(chunk[10..12]), ReadU32(chunk[12..16]),
      chunk[16..])
  }

  /** Walks a frame by its own type and length fields. */
  function Dissect(frame: Bytes): Option<Dissection> {
    if |frame| < 14 || frame[12..14] != [0x08, 0x00] then None
    else
      match DissectIpv4(frame[14..])
      case None => None
      case Some((ip, sctp)) =>
        match DissectSctp(sctp)
        case None => None
        case Some((ports, chunk)) => Some(Show(frame[..14], ip, ports, chunk))
  }

  /**
   * What the frame of a logged message must show: from the peer 02:00:00:00:00:02 at 10.0.0.2 to the probe
   * 02:00:00:00:00:01 at 127.0.0.1 when it came in, and the other way when it went out, both on port 29168.
   */
  function Expected(payload: Bytes, inbound: bool): Dissection {
    if inbound then
      Dissection(
        [2, 0, 0, 0, 0, 1], [2, 0, 0, 0, 0, 2], 0, 0, 0x4000, 64, [10, 0, 0, 2], [127, 0, 0, 1],
        29168, 29168, 0, 0, 0x03, 1, 0, 0, 24, payload)
    else
      Dissection(
        [2, 0, 0, 0, 0, 2], [2, 0, 0, 0, 0, 1], 0, 0, 0x4000, 64, [127, 0, 0, 1], [10, 0, 0, 2],
        29168, 29168, 0, 0, 0x03, 1, 0, 0, 24, payload)
  }

  // ----- proofs

  /** The fields that the writer puts into a frame. */
  function Written(payload: Bytes, inbound: bool): Dissection {
    Dissection(
      if inbound then MAC_PROBE else MAC_PEER, if inbound then MAC_PEER else MAC_PROBE,
      0, 0, 0x4000, 64, SourceIp(inbound), SourceIp(!inbound),
      SCTP_PORT, SCTP_PORT, 0, 0, 0x03, 1, 0, 0, PPID, payload)
  }

  /** A piece of a concatenation is found at its offset. */
  lemma Piece(s: Bytes, before: Bytes, x: Bytes, after: Bytes)
    requires s == before + x + after
    ensures s[|before|..|before| + |x|] == x
  {
  }

  ghost predicate EthernetShows(eth: Bytes, e: Dissection) {
    |eth| == 14 && eth[..6] == e.dstMac && eth[6..12] == e.srcMac && eth[12..] == [0x08, 0x00]
  }

  ghost predicate Ipv4Shows(h: Bytes, total: nat, e: Dissection) {
    && |h| == 20 && h[0] == 0x45 && h[1] == e.tos && ReadU16(h[2..4]) == total && ReadU16(h[4..6]) == e.ident
    && ReadU16(h[6..8]) == e.fragment && h[8] == e.ttl && h[9] == 132 && h[12..16] == e.srcIp && h[16..20] == e.dstIp
  }

  ghost predicate PortsShow(p: Bytes, e: Dissection) {
    && |p| == 12 && ReadU16(p[..2]) == e.srcPort && ReadU16(p[2..4]) == e.dstPort
    && ReadU32(p[4..8]) == e.tag && ReadU32(p[8..12]) == e.crc
  }

  ghost predicate ChunkShows(c: Bytes, length: nat, e: Dissection) {
    && |c| >= 16 && c[0] == 0 && c[1] == e.flags && ReadU16(c[2..4]) == length && ReadU32(c[4..8]) == e.tsn
    && ReadU16(c[8..10]) == e.stream && ReadU16(c[10..12]) == e.sequence && ReadU32(c[12..16]) == e.ppid
  }

  lemma Ipv4BlankShows(total: nat, e: Dissection)
    requires total < 0x1_0000 && |e.srcIp| == 4 && |e.dstIp| == 4
    requires e.tos == 0 && e.ident == 0 && e.fragment == 0x4000 && e.ttl == 64
    ensures Ipv4Shows(Ipv4Blank(total, e.srcIp, e.dstIp), total, e)
  {
    var b := Ipv4Blank(total, e.srcIp, e.dstIp);
    Piece(b, [0x45, 0x00], U16(total), b[4..]);
    Piece(b, b[..4], U16(0), b[6..]);
    Piece(b, b[..6], U16(0x4000), b[8..]);
    Piece(b, b[..12], e.srcIp, b[16..]);
    Piece(b, b[..16], e.dstIp, []);
  }

  lemma ChecksumKeepsFields(b: Bytes, w: nat, total: nat, e: Dissection)
    requires w < 0x1_0000 && Ipv4Shows(b, total, e)
    ensures Ipv4Shows(WithWord(b, 10, w), total, e)
  {
    var h := WithWord(b, 10, w);
    assert h[..10] == b[..10] && h[0] == h[..10][0] && h[1] == h[..10][1] && h[8] == h[..10][8] && h[9] == h[..10][9];
    WithWordElsewhere(b, 10, w, 2, 4);
    WithWordElsewhere(b, 10, w, 4, 6);
    WithWordElsewhere(b, 10, w, 6, 8);
    WithWordElsewhere(b, 10, w, 12, 16);
    WithWordElsewhere(b, 10, w, 16, 20);
  }

  lemma Ipv4Fields(total: nat, payload: Bytes, inbound: bool)
    requires total < 0x1_0000
    ensures var e := Written(payload, inbound); Ipv4Shows(Ipv4Header(total, e.srcIp, e.dstIp), total, e)
  {
    var e := Written(payload, inbound);
    var b := Ipv4Blank(total, e.srcIp, e.dstIp);
    Ipv4BlankShows(total, e);
    ChecksumKeepsFields(b, InternetChecksum(b), total, e);
  }

  lemma WithWordElsewhere(b: Bytes, i: nat, w: nat, j: nat, k: nat)
    requires i + 2 <= |b| && w < 0x1_0000
    requires j <= k <= i || i + 2 <= j <= k <= |b|
    ensures WithWord(b, i, w)[j..k] == b[j..k]
  {
    var r := WithWord(b, i, w);
    assert r[..i] == b[..i] && r[i + 2..] == b[i + 2..];
    forall x | j <= x < k ensures r[x] == b[x] {
      if k <= i {
        assert r[..i][x] == b[..i][x];
      } else {
        assert r[i + 2..][x - i - 2] == b[i + 2..][x - i - 2];
      }
    }
  }

  /** Every IPv4 header built passes the receiver's test. */
  lemma Ipv4Verifies(total: nat, src: Bytes, dst: Bytes)
    requires total < 0x1_0000 && |src| == 4 && |dst| == 4
    ensures InternetChecksum(Ipv4Header(total, src, dst)) == 0
  {
    var b := Ipv4Blank(total, src, dst);
    ChecksumVerifies(b, 10, InternetChecksum(b));
  }

  lemma ChunkFields(length: nat, payload: Bytes, inbound: bool)
    requires length < 0x1_0000
    ensures ChunkShows(ChunkHeader(length), length, Written(payload, inbound))
  {
    var h := ChunkHeader(length);
    Piece(h, [0x00, 0x03], U16(length), h[4..]);
    Piece(h, h[..4], U32(1), h[8..]);
    Piece(h, h[..8], U16(0), h[10..]);
    Piece(h, h[..10], U16(0), h[12..]);
    Piece(h, h[..12], U32(PPID), []);
  }

  lemma ChunkWithPayload(h: Bytes, length: nat, e: Dissection, p: Bytes)
    requires |h| == 16 && ChunkShows(h, length, e)
    ensures ChunkShows(h + p, length, e) && (h + p)[16..] == p
  {
    var c := h + p;
    assert c[2..4] == h[2..4] && c[4..8] == h[4..8] && c[8..10] == h[8..10] && c[10..12] == h[10..12];
    assert c[12..16] == h[12..16];
  }

  lemma SctpFields(payload: Bytes, inbound: bool)
    ensures PortsShow(SctpHeader(), Written(payload, inbound))
  {
    var h := SctpHeader();
    Piece(h, [], U16(SCTP_PORT), h[2..]);
    Piece(h, h[..2], U16(SCTP_PORT), h[4..]);
    Piece(h, h[..4], U32(0), h[8..]);
    Piece(h, h[..8], U32(0), []);
  }

  lemma EthernetFields(payload: Bytes, inbound: bool)
    ensures EthernetShows(EthernetHeader(inbound), Written(payload, inbound))
  {
  }

  lemma Ipv4Cut(h: Bytes, s: Bytes, e: Dissection)
    requires Ipv4Shows(h, 20 + |s|, e)
    requires InternetChecksum(h) == 0
    ensures DissectIpv4(h + s) == Some((h, s))
  {
    var ip := h + s;
    assert ip[..20] == h && ip[20..20 + |s|] == s && ip[2..4] == h[2..4];
  }

  /** The chunk length cuts the padding off, whatever octets the payload ends in. */
  lemma SctpCut(ports: Bytes, chunk: Bytes, payload: Bytes, padding: Bytes, e: Dissection)
    requires |ports| == 12 && |chunk| == 16 && ChunkShows(chunk, 16 + |payload|, e)
    ensures DissectSctp(ports + (chunk + (payload + padding))) == Some((ports, chunk + payload))
  {
    var s := ports + (chunk + (payload + padding));
    assert s[14..16] == chunk[2..4] && s[..12] == ports && s[12..28 + |payload|] == chunk + payload;
  }

  lemma FrameCut(eth: Bytes, rest: Bytes)
    requires |eth| == 14 && eth[12..] == [0x08, 0x00]
    ensures (eth + rest)[..14] == eth && (eth + rest)[12..14] == [0x08, 0x00] && (eth + rest)[14..] == rest
  {
    assert (eth + rest)[12..14] == eth[12..];
  }

  lemma ShownFields(eth: Bytes, ip: Bytes, ports: Bytes, chunk: Bytes, total: nat, length: nat, e: Dissection)
    requires EthernetShows(eth, e) && Ipv4Shows(ip, total, e) && PortsShow(ports, e)
    requires ChunkShows(chunk, length, e) && chunk[16..] == e.payload
    ensures Show(eth, ip, ports, chunk) == e
  {
  }

  /** A frame around any SCTP packet that dissects. */
  lemma FrameDissected(sctp: Bytes, ports: Bytes, chunk: Bytes, payload: Bytes, inbound: bool)
    requires 20 + |sctp| < 0x1_0000 && DissectSctp(sctp) == Some((ports, chunk))
    requires PortsShow(ports, Written(payload, inbound))
    requires ChunkShows(chunk, 16 + |payload|, Written(payload, inbound)) && chunk[16..] == payload
    ensures Dissect(Frame(sctp, inbound)) == Some(Written(payload, inbound))
  {
    var e := Written(payload, inbound);
    var total := 20 + |sctp|;
    var h := Ipv4Header(total, e.srcIp, e.dstIp);
    EthernetFields(payload, inbound);
    FrameCut(EthernetHeader(inbound), h + sctp);
    Ipv4Fields(total, payload, inbound);
    Ipv4Verifies(total, e.srcIp, e.dstIp);
    Ipv4Cut(h, sctp, e);
    ShownFields(EthernetHeader(inbound), h, ports, chunk, total, 16 + |payload|, e);
  }

  /** Dissecting a built frame shows the addresses of its direction, the constants and the payload. */
  lemma DissectUndoesBuild(payload: Bytes, inbound: bool)
    requires BuildPacket(payload, inbound).Some?
    ensures Dissect(BuildPacket(payload, inbound).value) == Some(Expected(payload, inbound))
  {
    DissectWritten(payload, inbound);
    WrittenIsExpected(payload, inbound);
  }

  lemma WrittenIsExpected(payload: Bytes, inbound: bool)
    ensures Written(payload, inbound) == Expected(payload, inbound)
  {
  }

  lemma DissectWritten(payload: Bytes, inbound: bool)
    requires BuildPacket(payload, inbound).Some?
    ensures Dissect(BuildPacket(payload, inbound).value) == Some(Written(payload, inbound))
  {
    DissectFrame(payload, inbound);
  }

  lemma DissectFrame(payload: Bytes, inbound: bool)
    requires 16 + |payload| < 0x1_0000 && 20 + |Sctp(payload)| < 0x1_0000
    ensures Dissect(Frame(Sctp(payload), inbound)) == Some(Written(payload, inbound))
  {
    var chunk := ChunkHeader(16 + |payload|);
    SctpFields(payload, inbound);
    ChunkFields(16 + |payload|, payload, inbound);
    SctpDissected(payload, Written(payload, inbound));
    FrameDissected(Sctp(payload), SctpHeader(), chunk + payload, payload, inbound);
  }

  lemma SctpDissected(payload: Bytes, e: Dissection)
    requires 16 + |payload| < 0x1_0000 && ChunkShows(ChunkHeader(16 + |payload|), 16 + |payload|, e)
    ensures var chunk := ChunkHeader(16 + |payload|) + payload;
      && DissectSctp(Sctp(payload)) == Some((SctpHeader(), chunk))
      && ChunkShows(chunk, 16 + |payload|, e) && chunk[16..] == payload
  {
    var chunk := ChunkHeader(16 + |payload|);
    SctpCut(SctpHeader(), chunk, payload, Zeros(PaddingOf(16 + |payload|)), e);
    ChunkWithPayload(chunk, 16 + |payload|, e, payload);
  }

  /** The exact payload bound and the exact frame size. */
  lemma PacketSize(payload: Bytes, inbound: bool)
    ensures BuildPacket(payload, inbound).Some? <==> |payload| <= 65484
    ensures BuildPacket(payload, inbound).Some? ==>
      |BuildPacket(payload, inbound).value| == 62 + 4 * CeilQuarter(|payload|)
  {
    FitBound(|payload|);
  }

  lemma FitBound(n: nat)
    ensures 16 + n < 0x1_0000 && 48 + 4 * CeilQuarter(n) < 0x1_0000 <==> n <= 65484
    ensures 62 + 4 * CeilQuarter(n) <= 65535 <==> n <= 65472
  {
  }

  lemma LengthField(eth: Bytes, h: Bytes, rest: Bytes)
    requires |eth| == 14 && |h| == 20
    ensures (eth + (h + rest))[16..18] == h[2..4]
  {
  }

  /** The IPv4 length field is the frame less its Ethernet header, and up to 65472 octets fit the snapshot length. */
  lemma SizeBound(payload: Bytes, inbound: bool)
    requires |payload| <= 65484
    ensures BuildPacket(payload, inbound).Some?
    ensures var frame := BuildPacket(payload, inbound).value;
      && |frame| == 62 + 4 * CeilQuarter(|payload|)
      && ReadU16(frame[16..18]) == |frame| - 14
      && (|frame| <= 65535 <==> |payload| <= 65472)
  {
    PacketSize(payload, inbound);
    FitBound(|payload|);
    FrameLength(Sctp(payload), inbound);
  }

  lemma FrameLength(sctp: Bytes, inbound: bool)
    requires 20 + |sctp| < 0x1_0000
    ensures ReadU16(Frame(sctp, inbound)[16..18]) == 20 + |sctp|
  {
    var h := Ipv4Header(20 + |sctp|, SourceIp(inbound), SourceIp(!inbound));
    Ipv4Fields(20 + |sctp|, [], inbound);
    LengthField(EthernetHeader(inbound), h, sctp);
  }

  /** The payload starts after 62 octets, and what follows it are zeros. */
  lemma PaddingIsZero(payload: Bytes, inbound: bool)
    requires |payload| <= 65484
    ensures BuildPacket(payload, inbound).Some?
    ensures var frame := BuildPacket(payload, inbound).value; var end := 62 + |payload|;
      |frame| >= end && frame[62..end] == payload && forall i :: end <= i < |frame| ==> frame[i] == 0
  {
    PacketSize(payload, inbound);
    var head := EthernetHeader(inbound)
      + Ipv4Header(20 + |Sctp(payload)|, SourceIp(inbound), SourceIp(!inbound))
      + SctpHeader() + ChunkHeader(16 + |payload|);
    var tail := Zeros(PaddingOf(16 + |payload|));
    assert |head| == 62;
    Behind(EthernetHeader(inbound), Ipv4Header(20 + |Sctp(payload)|, SourceIp(inbound), SourceIp(!inbound)),
           SctpHeader(), ChunkHeader(16 + |payload|), payload + tail);
    Then(head, payload, tail);
  }

  lemma Behind(a: Bytes, b: Bytes, c: Bytes, d: Bytes, e: Bytes)
    ensures a + (b + (c + (d + e))) == (a + b + c + d) + e
  {
  }

  lemma Then(head: Bytes, payload: Bytes, tail: Bytes)
    ensures (head + (payload + tail))[|head|..|head| + |payload|] == payload
    ensures forall i :: |head| + |payload| <= i < |head + (payload + tail)| ==>
      (head + (payload + tail))[i] == tail[i - |head| - |payload|]
  {
  }
}
