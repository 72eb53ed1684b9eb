/** encoder.py above the ASN.1 runtime, and the echo of the identifiers through a reply. */
module Encoder {
  import opened Wrappers
  import opened Octets
  import opened SbcAp
  import opened Decoder
  import Hex

  /** `kwarg or inherited`: a missing or empty argument gives way. */
  function Or(given: Option<string>, inherited: Option<string>): Option<string> {
    if given.Some? && given.value != "" then given else inherited
  }

  datatype Overrides = Overrides(messageIdentifier: Option<string>, serialNumber: Option<string>)

  const NO_OVERRIDES := Overrides(None, None)

  /** `_mi_sn`. */
  function MiSn(inbound: Option<DecodedMessage>, given: Overrides): (int, int) {
    var mi := if inbound.Some? then inbound.value.messageIdentifier else None;
    var sn := if inbound.Some? then inbound.value.serialNumber else None;
    (Hex.ParseHex(Or(given.messageIdentifier, mi)), Hex.ParseHex(Or(given.serialNumber, sn)))
  }

  function Identifiers(mi: int, sn: int): seq<Ie> {
    [Ie(ID_MESSAGE_IDENTIFIER, "reject", Tagged("Message-Identifier", Bits(mi, 16))),
     Ie(ID_SERIAL_NUMBER, "reject", Tagged("Serial-Number", Bits(sn, 16)))]
  }

  /** The identifiers come first and no later IE has one of their ids. */
  predicate LeadsWith(ies: seq<Ie>, mi: int, sn: int) {
    && |ies| >= 2 && ies[0] == Identifiers(mi, sn)[0] && ies[1] == Identifiers(mi, sn)[1]
    && forall i :: 2 <= i < |ies| ==> ies[i].id != ID_MESSAGE_IDENTIFIER && ies[i].id != ID_SERIAL_NUMBER
  }

  function Cause(cause: int): Ie {
    Ie(ID_CAUSE, "ignore", Tagged("Cause", Number(cause)))
  }

  const PLMN: Bytes := [0x14, 0xF6, 0x10]
  const UNKNOWN_TAI := Record(map["pLMNidentity" := Raw(PLMN), "tAC" := Raw([0x00, 0x99])])
  const ECGI := Record(map["pLMNidentity" := Raw(PLMN), "cell-ID" := Bits(0x0123456, 28)])

  function WrrResponse(mi: int, sn: int, cause: int, unknownTais: seq<Val>): (p: Pdu)
    ensures LeadsWith(p.ies, mi, sn)
  {
    Pdu("successfulOutcome", 0, "reject", "Write-Replace-Warning-Response",
        Identifiers(mi, sn) + [Cause(cause)]
        + if unknownTais == [] then []
          else [Ie(22, "ignore", Tagged("List-of-TAIs",
                   List(seq(|unknownTais|, i requires 0 <= i < |unknownTais| =>
                     Record(map["tai" := unknownTais[i]])))))])
  }

  function SwrResponse(mi: int, sn: int, cause: int): (p: Pdu)
    ensures LeadsWith(p.ies, mi, sn)
  {
    Pdu("successfulOutcome", 1, "reject", "Stop-Warning-Response", Identifiers(mi, sn) + [Cause(cause)])
  }

  function ErrInd(cause: int): (p: Pdu)
    ensures forall i :: 0 <= i < |p.ies| ==> p.ies[i].id == ID_CAUSE
  {
    Pdu("initiatingMessage", 2, "ignore", "Error-Indication", [Cause(cause)])
  }

  function Wrwi(mi: int, sn: int): (p: Pdu)
    ensures LeadsWith(p.ies, mi, sn)
  {
    Pdu("initiatingMessage", 3, "ignore", "Write-Replace-Warning-Indication",
        Identifiers(mi, sn)
        + [Ie(23, "reject", Tagged("Broadcast-Scheduled-Area-List",
              Record(map["cellId-Broadcast-List" := List([Record(map["eCGI" := ECGI])])])))])
  }

  function Swi(mi: int, sn: int): (p: Pdu)
    ensures LeadsWith(p.ies, mi, sn)
  {
    Pdu("initiatingMessage", 4, "ignore", "Stop-Warning-Indication",
        Identifiers(mi, sn)
        + [Ie(25, "reject", Tagged("Broadcast-Cancelled-Area-List",
              Record(map["cellID-Cancelled-List" :=
                List([Record(map["eCGI" := ECGI, "numberOfBroadcasts" := Number(1)])])])))])
  }

  datatype Template =
    | WrrSuccess | WrrPartial | WrrPermanentFailure | WrrTransientFailure
    | SwrSuccess | SwrNotFound
    | ErrIndSemantic | ErrIndTransferSyntax
    | WrwiScheduled | WrwiCancelled | SwiCancelled

  /** The names that `encode` knows; the timeout templates yield no PDU, like an unknown name. */
  function TemplateOf(name: string): Option<Template> {
    if name == "WRR_SUCCESS" then Some(WrrSuccess)
    else if name == "WRR_PARTIAL" then Some(WrrPartial)
    else if name == "WRR_PERMANENT_FAILURE" then Some(WrrPermanentFailure)
    else if name == "WRR_TRANSIENT_FAILURE" then Some(WrrTransientFailure)
    else if name == "SWR_SUCCESS" then Some(SwrSuccess)
    else if name == "SWR_NOT_FOUND" then Some(SwrNotFound)
    else if name == "ERR_IND_SEMANTIC" then Some(ErrIndSemantic)
    else if name == "ERR_IND_TRANSFER_SYNTAX" then Some(ErrIndTransferSyntax)
    else if name == "WRWI_SCHEDULED" then Some(WrwiScheduled)
    else if name == "WRWI_CANCELLED" then Some(WrwiCancelled)
    else if name == "SWI_CANCELLED" then Some(SwiCancelled)
    else None
  }

  predicate IsErrorIndication(t: Template) {
    t.ErrIndSemantic? || t.ErrIndTransferSyntax?
  }

  /** The PDU of a template; the cancelled form of a WRWI is sent as a Stop-Warning-Indication. */
  function Build(template: Template, mi: int, sn: int): (p: Pdu)
    ensures !IsErrorIndication(template) ==> LeadsWith(p.ies, mi, sn)
    ensures IsErrorIndication(template) ==> forall i :: 0 <= i < |p.ies| ==> p.ies[i].id == ID_CAUSE
  {
    match template
    case WrrSuccess => WrrResponse(mi, sn, 0, [])
    case WrrPartial => WrrResponse(mi, sn, 0, [UNKNOWN_TAI])
    case WrrPermanentFailure => WrrResponse(mi, sn, 1, [])
    case WrrTransientFailure => WrrResponse(mi, sn, 7, [])
    case SwrSuccess => SwrResponse(mi, sn, 0)
    case SwrNotFound => SwrResponse(mi, sn, 3)
    case ErrIndSemantic => ErrInd(14)
    case ErrIndTransferSyntax => ErrInd(11)
    case WrwiScheduled => Wrwi(mi, sn)
    case WrwiCancelled => Swi(mi, sn)
    case SwiCancelled => Swi(mi, sn)
  }

  /** `encode`: None for timeouts, unknown names and failures of the runtime. */
  function Encode(codec: Codec, template: string, inbound: Option<DecodedMessage>, given: Overrides): Option<Bytes> {
    var (mi, sn) := MiSn(inbound, given);
    match TemplateOf(template)
    case None => None
    case Some(t) => codec.toAper(Build(t, mi, sn))
  }

  /** The templates whose PDU carries both identifiers. */
  predicate Echoes(template: string) {
    TemplateOf(template).Some? && !IsErrorIndication(TemplateOf(template).value)
  }

  /** The message that a template stands for, as the decoder names it. */
  function ReplyType(t: Template): string {
    match t
    case WrrSuccess | WrrPartial | WrrPermanentFailure | WrrTransientFailure => "WRR_RESP"
    case SwrSuccess | SwrNotFound => "SWR_RESP"
    case ErrIndSemantic | ErrIndTransferSyntax => "ERR_IND"
    case WrwiScheduled => "WRWI"
    case WrwiCancelled | SwiCancelled => "SWI"
  }

  predicate InRange(n: int) {
    0 <= n < 0x1_0000
  }

  /** What is assumed of the runtime: it decodes the reply PDUs that it encodes to what they were. */
  ghost predicate InvertsReplies(codec: Codec) {
    forall t: Template, mi: int, sn: int {:trigger codec.Inverts(Build(t, mi, sn))} ::
      InRange(mi) && InRange(sn) ==> codec.Inverts(Build(t, mi, sn))
  }

  /** What a decoder finds in an echoing PDU. */
  lemma EchoingPduDecodes(p: Pdu, mi: int, sn: int)
    requires LeadsWith(p.ies, mi, sn)
    ensures HexStr(Second(IeVal(p.ies, ID_MESSAGE_IDENTIFIER))) == Some(Some(Hex.HexText(mi)))
    ensures HexStr(Second(IeVal(p.ies, ID_SERIAL_NUMBER))) == Some(Some(Hex.HexText(sn)))
  {
    IeValIsFirst(p.ies, ID_MESSAGE_IDENTIFIER, 0);
    IeValIsFirst(p.ies, ID_SERIAL_NUMBER, 1);
  }

  lemma ErrorPduDecodes(t: Template, mi: int, sn: int)
    requires IsErrorIndication(t)
    ensures var p := Build(t, mi, sn);
      && HexStr(Second(IeVal(p.ies, ID_MESSAGE_IDENTIFIER))) == Some(None)
      && HexStr(Second(IeVal(p.ies, ID_SERIAL_NUMBER))) == Some(None)
  {
    var p := Build(t, mi, sn);
    IeValAbsent(p.ies, ID_MESSAGE_IDENTIFIER);
    IeValAbsent(p.ies, ID_SERIAL_NUMBER);
  }

  /** Decoding what the runtime encoded. */
  lemma DecodeEncoded(codec: Codec, p: Pdu, mi: Option<string>, sn: Option<string>)
    requires codec.Inverts(p) && codec.toAper(p).Some?
    requires HexStr(Second(IeVal(p.ies, ID_MESSAGE_IDENTIFIER))) == Some(mi)
    requires HexStr(Second(IeVal(p.ies, ID_SERIAL_NUMBER))) == Some(sn)
    ensures Decode(codec, codec.toAper(p).value) == Described(p, mi, sn, codec.toAper(p).value)
  {
  }

  lemma BuiltType(t: Template, mi: int, sn: int)
    ensures PduType(Build(t, mi, sn)) == Some(ReplyType(t))
  {
  }

  /** What a built PDU shows when it is decoded again. */
  lemma BuiltDecodes(codec: Codec, t: Template, mi: int, sn: int)
    requires InvertsReplies(codec) && codec.toAper(Build(t, mi, sn)).Some? && InRange(mi) && InRange(sn)
    ensures var reply := Decode(codec, codec.toAper(Build(t, mi, sn)).value);
      && reply.protocol == "SBc-AP" && reply.pduType == Some(ReplyType(t))
      && reply.messageIdentifier == (if IsErrorIndication(t) then None else Some(Hex.HexText(mi)))
      && reply.serialNumber == (if IsErrorIndication(t) then None else Some(Hex.HexText(sn)))
  {
    var p := Build(t, mi, sn);
    assert codec.Inverts(Build(t, mi, sn));
    BuiltType(t, mi, sn);
    if IsErrorIndication(t) {
      ErrorPduDecodes(t, mi, sn);
      DecodeEncoded(codec, p, None, None);
    } else {
      EchoingPduDecodes(p, mi, sn);
      DecodeEncoded(codec, p, Some(Hex.HexText(mi)), Some(Hex.HexText(sn)));
    }
  }

  /** What a reply shows when it is decoded again, for every template that yields octets. */
  lemma ReplyIdentifiers(codec: Codec, template: string, inbound: Option<DecodedMessage>, given: Overrides)
    requires InvertsReplies(codec)
    requires Encode(codec, template, inbound, given).Some?
    requires InRange(MiSn(inbound, given).0) && InRange(MiSn(inbound, given).1)
    ensures var reply := Decode(codec, Encode(codec, template, inbound, given).value);
      && reply.protocol == "SBc-AP"
      && TemplateOf(template).Some? && reply.pduType == Some(ReplyType(TemplateOf(template).value))
      && (Echoes(template) ==>
            && reply.messageIdentifier == Some(Hex.HexText(MiSn(inbound, given).0))
            && reply.serialNumber == Some(Hex.HexText(MiSn(inbound, given).1)))
      && (!Echoes(template) ==> reply.messageIdentifier == None && reply.serialNumber == None)
  {
    var (mi, sn) := MiSn(inbound, given);
    BuiltDecodes(codec, TemplateOf(template).value, mi, sn);
  }

  /** The reduced message that the rule engine hands to the encoder. */
  function Brief(pduType: Option<string>, mi: Option<string>, sn: Option<string>): DecodedMessage {
    DecodedMessage("raw", pduType, mi, sn, None, "", "")
  }

  /** The octets that the rule engine sends for a template in answer to a message with these columns. */
  function Reply(codec: Codec, template: string, pduType: Option<string>, mi: Option<string>, sn: Option<string>)
    : Option<Bytes>
  {
    Encode(codec, template, Some(Brief(pduType, mi, sn)), NO_OVERRIDES)
  }

  /** An identifier column whose text denotes a 16-bit number, or that is empty (which is read as 0). */
  predicate Readable(column: Option<string>) {
    InRange(Hex.ParseHex(column))
  }

  predicate CanonicalColumn(column: Option<string>) {
    column.Some? && Hex.Canonical(column.value)
  }

  /** A column comes back as the same text exactly when it is present and canonical. */
  lemma ColumnEcho(column: Option<string>)
    requires Readable(column)
    ensures Some(Hex.HexText(Hex.ParseHex(column))) == column <==> CanonicalColumn(column)
  {
    if column.Some? {
      Hex.FilterMatches(column.value, Hex.ParseHex(column));
    }
  }

  /**
   * The echo, exactly: a reply repeats the identifiers of the request it answers if and only if its template carries
   * identifiers and the request's columns are present and canonical, or it carries none and the request has none.
   */
  lemma EchoExact(codec: Codec, template: string, pduType: Option<string>, mi: Option<string>, sn: Option<string>)
    requires InvertsReplies(codec) && Readable(mi) && Readable(sn)
    requires Reply(codec, template, pduType, mi, sn).Some?
    ensures var reply := Decode(codec, Reply(codec, template, pduType, mi, sn).value);
      && (reply.messageIdentifier == mi <==> if Echoes(template) then CanonicalColumn(mi) else mi == None)
      && (reply.serialNumber == sn <==> if Echoes(template) then CanonicalColumn(sn) else sn == None)
  {
    ReplyIdentifiers(codec, template, Some(Brief(pduType, mi, sn)), NO_OVERRIDES);
    ColumnEcho(mi);
    ColumnEcho(sn);
  }

  /** A decoded identifier column of a 16-bit field is canonical and readable. */
  lemma DecodedColumn(v: nat)
    requires v < 0x1_0000
    ensures CanonicalColumn(Some(Hex.HexText(v))) && Readable(Some(Hex.HexText(v)))
  {
    Hex.PrintedIsCanonical(v);
    Hex.ParsePrinted(v);
  }

  /** The first IE with the id in a decoded request carries this 16-bit value. */
  predicate Carries(codec: Codec, raw: Bytes, id: int, v: nat) {
    && raw != [] && codec.fromAper(raw).Some?
    && Second(IeVal(codec.fromAper(raw).value.ies, id)).Bits?
    && Second(IeVal(codec.fromAper(raw).value.ies, id)).value == v < 0x1_0000
  }

  lemma CarriedColumns(codec: Codec, request: Bytes, mi: nat, sn: nat)
    requires Carries(codec, request, ID_MESSAGE_IDENTIFIER, mi) && Carries(codec, request, ID_SERIAL_NUMBER, sn)
    ensures Decode(codec, request).messageIdentifier == Some(Hex.HexText(mi))
    ensures Decode(codec, request).serialNumber == Some(Hex.HexText(sn))
  {
  }

  /** From the octets of a request to the columns of its logged reply. */
  lemma EchoEndToEnd(codec: Codec, request: Bytes, mi: nat, sn: nat, template: string)
    requires InvertsReplies(codec)
    requires Carries(codec, request, ID_MESSAGE_IDENTIFIER, mi) && Carries(codec, request, ID_SERIAL_NUMBER, sn)
    ensures Decode(codec, request).messageIdentifier == Some(Hex.HexText(mi))
    ensures Decode(codec, request).serialNumber == Some(Hex.HexText(sn))
    ensures var dm := Decode(codec, request);
      Reply(codec, template, dm.pduType, dm.messageIdentifier, dm.serialNumber).Some? ==>
        var reply := Decode(codec, Reply(codec, template, dm.pduType, dm.messageIdentifier, dm.serialNumber).value);
        && TemplateOf(template).Some? && reply.pduType == Some(ReplyType(TemplateOf(template).value))
        && (Echoes(template) ==>
              reply.messageIdentifier == dm.messageIdentifier && reply.serialNumber == dm.serialNumber)
        && (!Echoes(template) ==> reply.messageIdentifier == None && reply.serialNumber == None)
  {
    var dm := Decode(codec, request);
    CarriedColumns(codec, request, mi, sn);
    DecodedColumn(mi);
    DecodedColumn(sn);
    if Reply(codec, template, dm.pduType, dm.messageIdentifier, dm.serialNumber).Some? {
      ReplyIdentifiers(codec, template, Some(Brief(dm.pduType, dm.messageIdentifier, dm.serialNumber)), NO_OVERRIDES);
      EchoExact(codec, template, dm.pduType, dm.messageIdentifier, dm.serialNumber);
    }
  }

  // ----- requests whose identifiers are not echoed

  /** A request without a Message-Identifier; the reply of an echoing template says that it was 0. */
  lemma MissingBecomesZero(codec: Codec, request: Bytes, sn: nat, template: string)
    requires InvertsReplies(codec) && Echoes(template)
    requires request != [] && codec.fromAper(request).Some?
    requires IeVal(codec.fromAper(request).value.ies, ID_MESSAGE_IDENTIFIER) == Absent
    requires Carries(codec, request, ID_SERIAL_NUMBER, sn)
    ensures Decode(codec, request).messageIdentifier == None
    ensures var dm := Decode(codec, request);
      var reply := Reply(codec, template, dm.pduType, dm.messageIdentifier, dm.serialNumber);
      reply.Some? ==> Decode(codec, reply.value).messageIdentifier == Some("0x0000")
  {
    var dm := Decode(codec, request);
    DecodedColumn(sn);
    if Reply(codec, template, dm.pduType, dm.messageIdentifier, dm.serialNumber).Some? {
      ReplyIdentifiers(codec, template, Some(Brief(dm.pduType, dm.messageIdentifier, dm.serialNumber)), NO_OVERRIDES);
      ZeroText();
    }
  }

  lemma ZeroText()
    ensures Hex.HexText(0) == "0x0000"
  {
  }

  /** A write-replace request with only these IEs. */
  function Request(ies: seq<Ie>): Pdu {
    Pdu("initiatingMessage", 0, "reject", "Write-Replace-Warning-Request", ies)
  }

  /** A runtime that knows two requests, one without a Message-Identifier, and one reply to each. */
  function FourMessages(): Codec {
    Codec(
      (p: Pdu) =>
        if p == Build(WrrSuccess, 0, 2) then Some([3])
        else if p == Build(ErrIndSemantic, 1, 2) then Some([4])
        else None,
      (b: Bytes) =>
        if b == [1] then Some(Request(Identifiers(0, 2)[1..]))
        else if b == [2] then Some(Request(Identifiers(1, 2)))
        else if b == [3] then Some(Build(WrrSuccess, 0, 2))
        else if b == [4] then Some(Build(ErrIndSemantic, 1, 2))
        else None)
  }

  lemma FourMessagesInvert()
    ensures InvertsReplies(FourMessages())
  {
    assert Build(WrrSuccess, 0, 2).procedureCode != Build(ErrIndSemantic, 1, 2).procedureCode;
  }

  lemma SuccessOctets(pduType: Option<string>)
    ensures Reply(FourMessages(), "WRR_SUCCESS", pduType, None, Some(Hex.HexText(2))) == Some([3])
  {
    Hex.ParsePrinted(2);
    assert TemplateOf("WRR_SUCCESS") == Some(WrrSuccess);
    assert MiSn(Some(Brief(pduType, None, Some(Hex.HexText(2)))), NO_OVERRIDES) == (0, 2);
  }

  lemma SerialNumberOnly()
    ensures Carries(FourMessages(), [1], ID_SERIAL_NUMBER, 2)
    ensures IeVal(FourMessages().fromAper([1]).value.ies, ID_MESSAGE_IDENTIFIER) == Absent
  {
    var ies := Identifiers(0, 2)[1..];
    assert |ies| == 1 && ies[0].id == ID_SERIAL_NUMBER;
  }

  lemma SerialColumn(codec: Codec, request: Bytes, sn: nat)
    requires Carries(codec, request, ID_SERIAL_NUMBER, sn)
    requires IeVal(codec.fromAper(request).value.ies, ID_MESSAGE_IDENTIFIER) == Absent
    ensures Decode(codec, request).messageIdentifier == None
    ensures Decode(codec, request).serialNumber == Some(Hex.HexText(sn))
  {
  }

  /** A reply of WRR_SUCCESS to the request without a Message-Identifier carries one. */
  lemma InventedIdentifier()
    ensures var codec := FourMessages(); var dm := Decode(codec, [1]);
      && InvertsReplies(codec) && dm.messageIdentifier == None && dm.serialNumber == Some(Hex.HexText(2))
      && Reply(codec, "WRR_SUCCESS", dm.pduType, dm.messageIdentifier, dm.serialNumber) == Some([3])
      && Decode(codec, [3]).messageIdentifier == Some("0x0000")
  {
    FourMessagesInvert();
    SerialNumberOnly();
    SerialColumn(FourMessages(), [1], 2);
    SuccessOctets(Decode(FourMessages(), [1]).pduType);
    MissingBecomesZero(FourMessages(), [1], 2, "WRR_SUCCESS");
  }

  lemma ErrorOctets(pduType: Option<string>, mi: Option<string>, sn: Option<string>)
    ensures Reply(FourMessages(), "ERR_IND_SEMANTIC", pduType, mi, sn) == Some([4])
  {
    var (m, n) := MiSn(Some(Brief(pduType, mi, sn)), NO_OVERRIDES);
    assert TemplateOf("ERR_IND_SEMANTIC") == Some(ErrIndSemantic);
    assert Build(ErrIndSemantic, m, n) == Build(ErrIndSemantic, 1, 2);
    assert Build(ErrIndSemantic, m, n).procedureCode != Build(WrrSuccess, 0, 2).procedureCode;
  }

  lemma BothCarried()
    ensures Carries(FourMessages(), [2], ID_MESSAGE_IDENTIFIER, 1) && Carries(FourMessages(), [2], ID_SERIAL_NUMBER, 2)
  {
  }

  lemma ErrorDecoded()
    ensures Decode(FourMessages(), [4]).messageIdentifier == None && Decode(FourMessages(), [4]).serialNumber == None
  {
    FourMessagesInvert();
    assert Build(ErrIndSemantic, 1, 2).procedureCode != Build(WrrSuccess, 0, 2).procedureCode;
    BuiltDecodes(FourMessages(), ErrIndSemantic, 1, 2);
  }

  /** A reply of ERR_IND_SEMANTIC to the request with both identifiers carries neither. */
  lemma DroppedIdentifiers()
    ensures var codec := FourMessages(); var dm := Decode(codec, [2]);
      && InvertsReplies(codec)
      && dm.messageIdentifier == Some(Hex.HexText(1)) && dm.serialNumber == Some(Hex.HexText(2))
      && Reply(codec, "ERR_IND_SEMANTIC", dm.pduType, dm.messageIdentifier, dm.serialNumber) == Some([4])
      && Decode(codec, [4]).messageIdentifier == None && Decode(codec, [4]).serialNumber == None
  {
    var dm := Decode(FourMessages(), [2]);
    FourMessagesInvert();
    BothCarried();
    CarriedColumns(FourMessages(), [2], 1, 2);
    ErrorOctets(dm.pduType, dm.messageIdentifier, dm.serialNumber);
    ErrorDecoded();
  }

  // ----- the templates by name

  /** The name is a template of this message type, with the identifiers or without. */
  predicate Stands(name: string, messageType: string, echoes: bool) {
    TemplateOf(name).Some? && ReplyType(TemplateOf(name).value) == messageType && Echoes(name) == echoes
  }

  lemma WrrTemplates()
    ensures Stands("WRR_SUCCESS", "WRR_RESP", true)
    ensures Stands("WRR_PARTIAL", "WRR_RESP", true)
    ensures Stands("WRR_PERMANENT_FAILURE", "WRR_RESP", true)
    ensures Stands("WRR_TRANSIENT_FAILURE", "WRR_RESP", true)
    ensures TemplateOf("WRR_SUCCESS") == Some(WrrSuccess) && TemplateOf("WRR_PARTIAL") == Some(WrrPartial)
    ensures TemplateOf("WRR_PERMANENT_FAILURE") == Some(WrrPermanentFailure)
    ensures TemplateOf("WRR_TRANSIENT_FAILURE") == Some(WrrTransientFailure)
  {
  }

  lemma SwrTemplates()
    ensures Stands("SWR_SUCCESS", "SWR_RESP", true)
    ensures Stands("SWR_NOT_FOUND", "SWR_RESP", true)
    ensures TemplateOf("SWR_SUCCESS") == Some(SwrSuccess) && TemplateOf("SWR_NOT_FOUND") == Some(SwrNotFound)
  {
  }

  lemma ErrTemplates()
    ensures Stands("ERR_IND_SEMANTIC", "ERR_IND", false)
    ensures Stands("ERR_IND_TRANSFER_SYNTAX", "ERR_IND", false)
    ensures TemplateOf("ERR_IND_SEMANTIC") == Some(ErrIndSemantic)
    ensures TemplateOf("ERR_IND_TRANSFER_SYNTAX") == Some(ErrIndTransferSyntax)
  {
  }

  lemma IndicationTemplates()
    ensures Stands("WRWI_SCHEDULED", "WRWI", true)
    ensures Stands("WRWI_CANCELLED", "SWI", true)
    ensures Stands("SWI_CANCELLED", "SWI", true)
  {
  }

  /** Names that are none of these yield nothing. */
  lemma UnknownTemplate(codec: Codec, name: string, inbound: Option<DecodedMessage>, given: Overrides)
    requires name != "WRR_SUCCESS" && name != "WRR_PARTIAL" && name != "WRR_PERMANENT_FAILURE"
    requires name != "WRR_TRANSIENT_FAILURE" && name != "SWR_SUCCESS" && name != "SWR_NOT_FOUND"
    requires name != "ERR_IND_SEMANTIC" && name != "ERR_IND_TRANSFER_SYNTAX"
    requires name != "WRWI_SCHEDULED" && name != "WRWI_CANCELLED" && name != "SWI_CANCELLED"
    ensures Encode(codec, name, inbound, given) == None
  {
  }

  /** The timeout templates are among them. */
  lemma TimeoutsYieldNothing(codec: Codec, inbound: Option<DecodedMessage>, given: Overrides)
    ensures Encode(codec, "WRR_TIMEOUT", inbound, given) == None && Encode(codec, "SWR_TIMEOUT", inbound, given) == None
  {
    assert "WRR_TIMEOUT"[4] == 'T' && "SWR_TIMEOUT"[4] == 'T';
    assert "WRR_SUCCESS"[4] == 'S' && "WRR_PARTIAL"[4] == 'P' && "SWR_SUCCESS"[4] == 'S';
    UnknownTemplate(codec, "WRR_TIMEOUT", inbound, given);
    UnknownTemplate(codec, "SWR_TIMEOUT", inbound, given);
  }

  /** The cause that each template reports. */
  lemma TemplateCauses(t: Template, mi: int, sn: int)
    ensures IeVal(Build(t, mi, sn).ies, 1) ==
      match t
      case WrrSuccess | WrrPartial | SwrSuccess => Tagged("Cause", Number(0))
      case WrrPermanentFailure => Tagged("Cause", Number(1))
      case WrrTransientFailure => Tagged("Cause", Number(7))
      case SwrNotFound => Tagged("Cause", Number(3))
      case ErrIndSemantic => Tagged("Cause", Number(14))
      case ErrIndTransferSyntax => Tagged("Cause", Number(11))
      case WrwiScheduled | WrwiCancelled | SwiCancelled => Absent
  {
    var ies := Build(t, mi, sn).ies;
    match t
    case WrrSuccess | WrrPartial | WrrPermanentFailure | WrrTransientFailure | SwrSuccess | SwrNotFound =>
      IeValIsFirst(ies, 1, 2);
    case ErrIndSemantic | ErrIndTransferSyntax =>
      IeValIsFirst(ies, 1, 0);
    case WrwiScheduled | WrwiCancelled | SwiCancelled =>
      IeValAbsent(ies, 1);
  }

  /** An argument that is given and not empty wins; otherwise the request's column counts, and 0 without either. */
  lemma ArgumentsWin(inbound: DecodedMessage, given: Overrides)
    ensures given.messageIdentifier.Some? && given.messageIdentifier.value != "" ==>
      MiSn(Some(inbound), given).0 == Hex.ParseHex(given.messageIdentifier)
    ensures given.messageIdentifier in {None, Some("")} ==>
      MiSn(Some(inbound), given).0 == Hex.ParseHex(inbound.messageIdentifier)
    ensures given.serialNumber.Some? && given.serialNumber.value != "" ==>
      MiSn(Some(inbound), given).1 == Hex.ParseHex(given.serialNumber)
    ensures given.serialNumber in {None, Some("")} ==>
      MiSn(Some(inbound), given).1 == Hex.ParseHex(inbound.serialNumber)
    ensures MiSn(None, NO_OVERRIDES) == (0, 0)
  {
  }

  /** Only the partial success lists unknown areas, one of them. */
  lemma UnknownAreas(t: Template, mi: int, sn: int)
    ensures var v := IeVal(Build(t, mi, sn).ies, 22);
      if t.WrrPartial? then
        v == Tagged("List-of-TAIs",
                    List([Record(map["tai" := Record(map["pLMNidentity" := Raw([0x14, 0xF6, 0x10]),
                                                         "tAC" := Raw([0x00, 0x99])])])]))
      else
        v == Absent
  {
    var ies := Build(t, mi, sn).ies;
    if t.WrrPartial? {
      IeValIsFirst(ies, 22, 3);
      var items := ies[3].value.content.items;
      assert items == [items[0]];
    } else {
      IeValAbsent(ies, 22);
    }
  }

  /** The PDU of each template: its direction, procedure and name. */
  lemma BuiltNames(t: Template, mi: int, sn: int)
    ensures var p := Build(t, mi, sn);
      match ReplyType(t)
      case "WRR_RESP" => IsPdu(p, "successfulOutcome", 0, "Write-Replace-Warning-Response")
      case "SWR_RESP" => IsPdu(p, "successfulOutcome", 1, "Stop-Warning-Response")
      case "ERR_IND" => IsPdu(p, "initiatingMessage", 2, "Error-Indication")
      case "WRWI" => IsPdu(p, "initiatingMessage", 3, "Write-Replace-Warning-Indication")
      case _ => IsPdu(p, "initiatingMessage", 4, "Stop-Warning-Indication")
  {
    match t
    case WrrSuccess | WrrPartial | WrrPermanentFailure | WrrTransientFailure =>
    case SwrSuccess | SwrNotFound => assert "SWR_RESP"[0] != "WRR_RESP"[0];
    case _ =>
  }

  predicate IsPdu(p: Pdu, direction: string, code: int, name: string) {
    p.direction == direction && p.procedureCode == code && p.name == name
  }

  /** The identifiers as IEs of 16 bits. */
  lemma IdentifierIes(t: Template, mi: int, sn: int)
    requires !IsErrorIndication(t)
    ensures var ies := Build(t, mi, sn).ies;
      && IeVal(ies, 5) == Tagged("Message-Identifier", Bits(mi, 16))
      && IeVal(ies, 11) == Tagged("Serial-Number", Bits(sn, 16))
  {
    var ies := Build(t, mi, sn).ies;
    IeValIsFirst(ies, 5, 0);
    IeValIsFirst(ies, 11, 1);
  }
}
