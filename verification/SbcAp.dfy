/** SBc-AP PDUs as the Python values that the ASN.1 runtime takes and gives. */
module SbcAp {
  import opened Wrappers
  import opened Octets

  /**
   * `Bits` is the pair of a BIT STRING, `Tagged` the pair of a name and a value, both Python tuples; `Record` is a
   * Python dictionary, whose order does not count.
   */
  datatype Val =
    | Absent
    | Number(n: int)
    | Text(s: string)
    | Raw(octets: Bytes)
    | Bits(value: int, width: nat)
    | Tagged(name: string, content: Val)
    | List(items: seq<Val>)
    | Record(fields: map<string, Val>)

  datatype Ie = Ie(id: int, criticality: string, value: Val)

  datatype Pdu = Pdu(direction: string, procedureCode: int, criticality: string, name: string, ies: seq<Ie>)

  const ID_CAUSE := 1
  const ID_MESSAGE_IDENTIFIER := 5
  const ID_SERIAL_NUMBER := 11

  /** The aligned-PER runtime: `to_aper` and `from_aper`, None where they raise or the module is missing. */
  datatype Codec = Codec(toAper: Pdu -> Option<Bytes>, fromAper: Bytes -> Option<Pdu>)
  {
    /** This PDU is not encoded, or its octets are not empty and decode to it. */
    predicate Inverts(p: Pdu) {
      toAper(p).Some? ==> toAper(p).value != [] && fromAper(toAper(p).value) == Some(p)
    }
  }
}
