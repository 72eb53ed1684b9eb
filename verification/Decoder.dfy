/** decoder.py above the ASN.1 runtime. */
module Decoder {
  import opened Wrappers
  import opened Octets
  import opened SbcAp
  import Hex
  import Base64

  /** A key of the flattened dictionary: a string, which is an IE name or an id in decimal, or a number. */
  datatype Key = Named(name: string) | Bit(value: int)

  type Flat = map<Key, Val>

  datatype DecodedMessage = DecodedMessage(
    protocol: string,
    pduType: Option<string>,
    messageIdentifier: Option<string>,
    serialNumber: Option<string>,
    decoded: Option<Flat>,
    rawHex: string,
    rawB64: string)

  /** The keys of `_PROC_MAP`: initiating and successful message. */
  function ProcedureKeys(code: int): Option<(string, string)> {
    match code
    case 0 => Some(("WRR_REQ", "WRR_RESP"))
    case 1 => Some(("SWR_REQ", "SWR_RESP"))
    case 2 => Some(("ERR_IND", "ERR_IND"))
    case 3 => Some(("WRWI", "WRWI"))
    case 4 => Some(("SWI", "SWI"))
    case 5 => Some(("PWS_RESTART", "PWS_RESTART"))
    case 6 => Some(("PWS_FAILURE", "PWS_FAILURE"))
    case _ => None
  }

  function PduType(p: Pdu): Option<string> {
    match ProcedureKeys(p.procedureCode)
    case None => None
    case Some(keys) => Some(if p.direction == "initiatingMessage" then keys.0 else keys.1)
  }

  /** `_ie_val`. */
  function IeVal(ies: seq<Ie>, id: int): Val {
    if ies == [] then Absent
    else if ies[0].id == id then ies[0].value
    else IeVal(ies[1..], id)
  }

  /** The value found is that of the first IE with the id. */
  lemma {:induction false} IeValIsFirst(ies: seq<Ie>, id: int, i: nat)
    requires i < |ies| && ies[i].id == id
    requires forall j :: 0 <= j < i ==> ies[j].id != id
    ensures IeVal(ies, id) == ies[i].value
  {
    if i > 0 {
      assert ies[0].id != id;
      IeValIsFirst(ies[1..], id, i - 1);
    }
  }

  lemma {:induction false} IeValAbsent(ies: seq<Ie>, id: int)
    requires forall j :: 0 <= j < |ies| ==> ies[j].id != id
    ensures IeVal(ies, id) == Absent
  {
    if ies != [] {
      IeValAbsent(ies[1..], id);
    }
  }

  /** `x[1]` of a tuple, anything else unchanged. */
  function Second(v: Val): Val {
    match v
    case Tagged(_, content) => content
    case Bits(_, width) => Number(width)
    case _ => v
  }

  /** `_hex_str`: Some(None) where it returns None, and None where formatting a name as a number raises. */
  function HexStr(v: Val): Option<Option<string>> {
    match v
    case Bits(value, _) => Some(Some(Hex.HexText(value)))
    case Number(n) => Some(Some(Hex.HexText(n)))
    case Tagged(_, _) => None
    case _ => Some(None)
  }

  function Numeral(n: nat): string {
    (if n < 10 then "" else Numeral(n / 10)) + [Hex.Digit(n % 10)]
  }

  /** `str(n)`. */
  function Decimal(n: int): string {
    if n < 0 then "-" + Numeral(-n) else Numeral(n)
  }

  function KeyOf(ie: Ie): Key {
    match ie.value
    case Tagged(name, _) => Named(name)
    case Bits(value, _) => Bit(value)
    case _ => Named(Decimal(ie.id))
  }

  /** The dictionary of a list: a later IE with the same key replaces an earlier one. */
  function Flatten(ies: seq<Ie>): Flat {
    if ies == [] then map[]
    else
      var ie := ies[|ies| - 1];
      Flatten(ies[..|ies| - 1])[KeyOf(ie) := Second(ie.value)]
  }

  /** `_ies_to_dict`. */
  method IesToDict(ies: seq<Ie>) returns (result: Flat)
    ensures result == Flatten(ies)
  {
    result := map[];
    for i := 0 to |ies|
      invariant result == Flatten(ies[..i])
    {
      assert ies[..i + 1][..i] == ies[..i];
      match ies[i].value {
        case Tagged(name, content) => result := result[Named(name) := content];
        case Bits(value, width) => result := result[Bit(value) := Number(width)];
        case _ => result := result[Named(Decimal(ies[i].id)) := ies[i].value];
      }
    }
    assert ies[..|ies|] == ies;
  }

  /** The dictionary shows the last IE of a key, while the identifier columns show the first IE of an id. */
  lemma {:induction false} FlattenIsLast(ies: seq<Ie>, i: nat)
    requires i < |ies|
    requires forall j :: i < j < |ies| ==> KeyOf(ies[j]) != KeyOf(ies[i])
    ensures KeyOf(ies[i]) in Flatten(ies) && Flatten(ies)[KeyOf(ies[i])] == Second(ies[i].value)
  {
    if i < |ies| - 1 {
      var rest := ies[..|ies| - 1];
      assert KeyOf(ies[|ies| - 1]) != KeyOf(ies[i]);
      FlattenIsLast(rest, i);
    }
  }

  lemma {:induction false} FlattenKeys(ies: seq<Ie>, k: Key)
    ensures k in Flatten(ies) <==> exists i :: 0 <= i < |ies| && KeyOf(ies[i]) == k
  {
    if ies != [] {
      var rest := ies[..|ies| - 1];
      FlattenKeys(rest, k);
      assert forall i :: 0 <= i < |rest| ==> rest[i] == ies[i];
      if k in Flatten(rest) {
        var i :| 0 <= i < |rest| && KeyOf(rest[i]) == k;
        assert KeyOf(ies[i]) == k;
      }
    }
  }

  function RawOnly(raw: Bytes): DecodedMessage {
    DecodedMessage("raw", None, None, None, None, Hex.Spaced(raw), Base64.Encode(raw))
  }

  function Described(p: Pdu, mi: Option<string>, sn: Option<string>, raw: Bytes): DecodedMessage {
    DecodedMessage("SBc-AP", PduType(p), mi, sn, Some(Flatten(p.ies)), Hex.Spaced(raw), Base64.Encode(raw))
  }

  /** `decode`: any failure falls back to the raw form. */
  function Decode(codec: Codec, raw: Bytes): DecodedMessage {
    if raw == [] then RawOnly(raw)
    else
      match codec.fromAper(raw)
      case None => RawOnly(raw)
      case Some(p) =>
        match (HexStr(Second(IeVal(p.ies, ID_MESSAGE_IDENTIFIER))), HexStr(Second(IeVal(p.ies, ID_SERIAL_NUMBER))))
        case (Some(mi), Some(sn)) => Described(p, mi, sn, raw)
        case _ => RawOnly(raw)
  }

  /** Whatever happens in decoding, the logged dump and base 64 are those of the octets. */
  lemma DecodeKeepsOctets(codec: Codec, raw: Bytes)
    ensures Hex.FromHex(Hex.RemoveSpaces(Decode(codec, raw).rawHex)) == Some(raw)
    ensures Base64.Decode(Decode(codec, raw).rawB64) == Some(raw)
  {
    Hex.FromSpaced(raw);
    Base64.DecodeUndoesEncode(raw);
  }

  // ----- what each message is decoded to

  /** The raw form: octets that are empty, that the runtime refuses, or whose identifiers are nested names. */
  predicate Undecodable(codec: Codec, raw: Bytes) {
    || raw == [] || codec.fromAper(raw).None?
    || Second(IeVal(codec.fromAper(raw).value.ies, 5)).Tagged?
    || Second(IeVal(codec.fromAper(raw).value.ies, 11)).Tagged?
  }

  lemma DecodedOrRaw(codec: Codec, raw: Bytes)
    ensures var dm := Decode(codec, raw);
      if Undecodable(codec, raw) then
        dm.protocol == "raw" && dm.pduType == None && dm.messageIdentifier == None && dm.serialNumber == None
        && dm.decoded == None
      else
        dm.protocol == "SBc-AP" && dm.decoded == Some(Flatten(codec.fromAper(raw).value.ies))
  {
  }

  /** The names of the messages, by procedure code, as requests and as answers. */
  const REQUESTS := ["WRR_REQ", "SWR_REQ", "ERR_IND", "WRWI", "SWI", "PWS_RESTART", "PWS_FAILURE"]
  const ANSWERS := ["WRR_RESP", "SWR_RESP", "ERR_IND", "WRWI", "SWI", "PWS_RESTART", "PWS_FAILURE"]

  /** The type that a decoded PDU is given: by its code and its direction, and none for an unknown code. */
  lemma DecodedType(codec: Codec, raw: Bytes)
    requires !Undecodable(codec, raw)
    ensures var p := codec.fromAper(raw).value; var code := p.procedureCode;
      Decode(codec, raw).pduType
        == if 0 <= code < 7 then Some(if p.direction == "initiatingMessage" then REQUESTS[code] else ANSWERS[code])
           else None
  {
    NamesOf(codec.fromAper(raw).value);
  }

  lemma NamesOf(p: Pdu)
    ensures var code := p.procedureCode;
      PduType(p)
        == if 0 <= code < 7 then Some(if p.direction == "initiatingMessage" then REQUESTS[code] else ANSWERS[code])
           else None
  {
    match p.procedureCode
    case 0 =>
    case 1 =>
    case 2 =>
    case 3 =>
    case 4 =>
    case 5 =>
    case 6 =>
    case _ =>
  }

  lemma RequestsDiffer(i: nat, j: nat)
    requires i < j < 7
    ensures REQUESTS[i] != REQUESTS[j]
  {
    match i
    case 0 => assert REQUESTS[0][2] == 'R' && (REQUESTS[j][0] != 'W' || REQUESTS[j][2] != 'R');
    case 1 => assert REQUESTS[1][2] == 'R' && (REQUESTS[j][0] != 'S' || REQUESTS[j][2] != 'R');
    case 2 => assert REQUESTS[2][0] == 'E' && REQUESTS[j][0] != 'E';
    case 3 => assert |REQUESTS[3]| == 4 && |REQUESTS[j]| != 4;
    case 4 => assert |REQUESTS[4]| == 3 && |REQUESTS[j]| != 3;
    case _ => assert REQUESTS[5] == "PWS_RESTART" && REQUESTS[6][4] == 'F' && REQUESTS[5][4] == 'R';
  }

  /** Requests of different procedures are never given the same type. */
  lemma RequestsAreTold(codec: Codec, x: Bytes, y: Bytes)
    requires !Undecodable(codec, x) && !Undecodable(codec, y)
    requires var (p, q) := (codec.fromAper(x).value, codec.fromAper(y).value);
      && p.direction == q.direction == "initiatingMessage"
      && 0 <= p.procedureCode < 7 && 0 <= q.procedureCode < 7 && p.procedureCode != q.procedureCode
    ensures Decode(codec, x).pduType != Decode(codec, y).pduType
  {
    var i, j := codec.fromAper(x).value.procedureCode, codec.fromAper(y).value.procedureCode;
    DecodedType(codec, x);
    DecodedType(codec, y);
    if i < j {
      RequestsDiffer(i, j);
    } else {
      RequestsDiffer(j, i);
    }
  }

  /** The identifier column for the value of an IE: the number, however it is wrapped, or none. */
  predicate ShowsNumber(v: Val, column: Option<string>) {
    && (v.Number? ==> column == Some(Hex.HexText(v.n)))
    && (v.Tagged? && v.content.Bits? ==> column == Some(Hex.HexText(v.content.value)))
    && (v.Tagged? && v.content.Number? ==> column == Some(Hex.HexText(v.content.n)))
    && (v.Absent? || v.Text? || v.Raw? || v.List? || v.Record? ==> column == None)
  }

  /** The columns come from the first IE 5 and the first IE 11. */
  lemma DecodedIdentifiers(codec: Codec, raw: Bytes)
    requires !Undecodable(codec, raw)
    ensures var ies := codec.fromAper(raw).value.ies; var dm := Decode(codec, raw);
      ShowsNumber(IeVal(ies, 5), dm.messageIdentifier) && ShowsNumber(IeVal(ies, 11), dm.serialNumber)
  {
  }

  /** The dictionary key of an IE: the name of its value, else its id in decimal; the value shown is the second part. */
  lemma KeysOfIes(id: int, criticality: string, name: string, content: Val, v: Val)
    ensures KeyOf(Ie(id, criticality, Tagged(name, content))) == Named(name)
    ensures Flatten([Ie(id, criticality, Tagged(name, content))]) == map[Named(name) := content]
    ensures v.Number? || v.Text? || v.Raw? || v.List? || v.Record? || v.Absent? ==>
      Flatten([Ie(id, criticality, v)]) == map[Named(Decimal(id)) := v]
    ensures v.Bits? ==> Flatten([Ie(id, criticality, v)]) == map[Bit(v.value) := Number(v.width)]
  {
    var x, y := Ie(id, criticality, Tagged(name, content)), Ie(id, criticality, v);
    assert [x][..0] == [] && [y][..0] == [];
  }

  /** The decimal text: digits only, no leading zero, and the number that they denote. */
  lemma {:induction false} NumeralDigits(n: nat)
    ensures Numeral(n) != "" && (n >= 10 ==> Numeral(n)[0] != '0')
    ensures forall i :: 0 <= i < |Numeral(n)| ==> '0' <= Numeral(n)[i] <= '9'
    ensures Denotes(Numeral(n)) == n
  {
    if n >= 10 {
      NumeralDigits(n / 10);
      assert Numeral(n)[..|Numeral(n)| - 1] == Numeral(n / 10);
      if n / 10 < 10 {
        assert Numeral(n / 10) == "" + [Hex.Digit(n / 10)];
        assert Hex.DigitValue('0') == Some(0);
      }
    }
  }

  function Denotes(s: string): int {
    if s == "" then 0 else 10 * Denotes(s[..|s| - 1]) + (s[|s| - 1] as int - '0' as int)
  }

  /** A negative number has its sign first. */
  lemma DecimalSign(n: int)
    ensures if n < 0 then Decimal(n) == "-" + Numeral(-n) else Decimal(n) == Numeral(n)
  {
  }
}
