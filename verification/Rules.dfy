/** rules.py: matching, first match, and what a rule does once it has matched. */
module Rules {
  import opened Wrappers
  import opened Octets
  import opened SbcAp
  import opened Store
  import Decoder
  import Encoder

  /** `_match`, guard by guard. */
  predicate Match(rule: Rule, msg: Message) {
    if !rule.spec.active then false
    else if rule.spec.matchPduType != "*" && Some(rule.spec.matchPduType) != msg.f.pduType then false
    else if rule.spec.matchMessageIdentifier != None && rule.spec.matchMessageIdentifier != msg.f.messageIdentifier then
      false
    else if rule.spec.matchSerialNumber != None && rule.spec.matchSerialNumber != msg.f.serialNumber then false
    else if rule.spec.matchPeerAddr != None && rule.spec.matchPeerAddr != msg.f.peerAddr then false
    else if rule.spec.count != 0 && rule.fired >= rule.spec.count then false
    else true
  }

  /** A filter column that is None matches anything. */
  predicate Agrees(filter: Option<string>, column: Option<string>) {
    filter == None || filter == column
  }

  /** The conjunction of section 7 of DESIGN.md. */
  predicate Declared(rule: Rule, msg: Message) {
    && (rule.spec.matchPduType == "*" || Some(rule.spec.matchPduType) == msg.f.pduType)
    && Agrees(rule.spec.matchMessageIdentifier, msg.f.messageIdentifier)
    && Agrees(rule.spec.matchSerialNumber, msg.f.serialNumber)
    && Agrees(rule.spec.matchPeerAddr, msg.f.peerAddr)
    && (rule.spec.count == 0 || rule.fired < rule.spec.count)
    && rule.spec.active
  }

  /** The first rule of a snapshot that matches. */
  function FirstMatch(rules: seq<Rule>, msg: Message): (r: Option<Rule>)
    ensures r.Some? ==> r.value in rules && Match(r.value, msg)
  {
    if rules == [] then None
    else if Match(rules[0], msg) then Some(rules[0])
    else FirstMatch(rules[1..], msg)
  }

  lemma {:induction false} FirstMatchAt(rules: seq<Rule>, msg: Message, i: nat)
    requires i < |rules| && Match(rules[i], msg)
    requires forall j :: 0 <= j < i ==> !Match(rules[j], msg)
    ensures FirstMatch(rules, msg) == Some(rules[i])
  {
    if i > 0 {
      assert !Match(rules[0], msg);
      FirstMatchAt(rules[1..], msg, i - 1);
    }
  }

  lemma {:induction false} FirstMatchNone(rules: seq<Rule>, msg: Message)
    requires forall j :: 0 <= j < |rules| ==> !Match(rules[j], msg)
    ensures FirstMatch(rules, msg) == None
  {
    if rules != [] {
      FirstMatchNone(rules[1..], msg);
    }
  }

  /** The loop of `evaluate` up to its early return. */
  method FindMatch(rules: seq<Rule>, msg: Message) returns (r: Option<Rule>)
    ensures r == FirstMatch(rules, msg)
    ensures r.None? ==> forall i :: 0 <= i < |rules| ==> !Declared(rules[i], msg)
    ensures r.Some? ==> exists i :: 0 <= i < |rules| && rules[i] == r.value && Declared(rules[i], msg)
                                 && forall j :: 0 <= j < i ==> !Declared(rules[j], msg)
  {
    for i := 0 to |rules|
      invariant forall j :: 0 <= j < i ==> !Match(rules[j], msg)
    {
      if Match(rules[i], msg) {
        FirstMatchAt(rules, msg, i);
        return Some(rules[i]);
      }
    }
    FirstMatchNone(rules, msg);
    return None;
  }

  lemma {:induction false} FirstMatchIndex(rules: seq<Rule>, msg: Message) returns (i: nat)
    ensures i <= |rules| && forall j :: 0 <= j < i ==> !Match(rules[j], msg)
    ensures i < |rules| ==> FirstMatch(rules, msg) == Some(rules[i]) && Match(rules[i], msg)
    ensures i == |rules| ==> FirstMatch(rules, msg) == None
  {
    if rules == [] {
      i := 0;
    } else if Match(rules[0], msg) {
      i := 0;
    } else {
      var k := FirstMatchIndex(rules[1..], msg);
      i := k + 1;
      forall j | 0 <= j < i ensures !Match(rules[j], msg) {
        assert j > 0 ==> rules[j] == rules[1..][j - 1];
      }
    }
  }

  lemma MatchIsDeclared(rule: Rule, msg: Message)
    ensures Match(rule, msg) <==> Declared(rule, msg)
  {
  }

  /** The rule that an evaluation of `msg` against the stored rules executes. */
  function Chosen(db: Db, msg: Message): Option<Rule> {
    FirstMatch(GetRules(db), msg)
  }

  lemma UnmatchedBefore(db: Db, msg: Message, i: nat, id: nat)
    requires Valid(db) && id in db.rules
    requires i <= |GetRules(db)| && (i < |GetRules(db)| ==> id < GetRules(db)[i].id)
    requires forall j :: 0 <= j < i ==> !Match(GetRules(db)[j], msg)
    ensures !Declared(db.rules[id], msg)
  {
    GetRulesAnswer(db);
    var rules := GetRules(db);
    if db.rules[id].spec.active {
      var j :| 0 <= j < |rules| && rules[j] == db.rules[id];
      MatchIsDeclared(rules[j], msg);
    }
  }

  /**
   * For every table, whatever its counts: the rule executed is the one of lowest id that satisfies the documented
   * conjunction, and none is executed exactly when no rule satisfies it.
   */
  lemma ChosenIsLowest(db: Db, msg: Message)
    requires Valid(db)
    ensures Chosen(db, msg).None? <==> forall id :: id in db.rules ==> !Declared(db.rules[id], msg)
    ensures Chosen(db, msg).Some? ==>
      var r := Chosen(db, msg).value;
      && r.id in db.rules && db.rules[r.id] == r && Declared(r, msg)
      && forall id :: id in db.rules && id < r.id ==> !Declared(db.rules[id], msg)
  {
    GetRulesAnswer(db);
    var rules := GetRules(db);
    var i := FirstMatchIndex(rules, msg);
    forall id | id in db.rules && (i < |rules| ==> id < rules[i].id)
      ensures !Declared(db.rules[id], msg)
    {
      UnmatchedBefore(db, msg, i, id);
    }
    if i < |rules| {
      MatchIsDeclared(rules[i], msg);
    }
  }

  /** The octets that `_execute` sends: only for auto_reply, with a template, when the encoder gives octets. */
  function ReplyTo(codec: Codec, rule: Rule, msg: Message): Option<Bytes> {
    if rule.spec.action == "auto_reply" && rule.spec.replyTemplate.Some? && rule.spec.replyTemplate.value != "" then
      Encoder.Reply(codec, rule.spec.replyTemplate.value, msg.f.pduType, msg.f.messageIdentifier, msg.f.serialNumber)
    else
      None
  }

  /** A reply goes to the address of the message, if there is one and it is registered. */
  predicate Reaches(peers: set<string>, msg: Message) {
    msg.f.peerAddr.Some? && msg.f.peerAddr.value != "" && msg.f.peerAddr.value in peers
  }

  /** The row that `_on_message` saves for octets received from a peer. */
  function InboundFields(codec: Codec, raw: Bytes, session: string, addr: string, port: int, seconds: int,
                         microseconds: nat): Fields {
    var dm := Decoder.Decode(codec, raw);
    Fields(session, seconds, microseconds, "inbound", "sctp", Some(port), Some(addr), dm.protocol, dm.pduType,
           dm.messageIdentifier, dm.serialNumber, dm.decoded, dm.rawHex, dm.rawB64, None)
  }

  /** The row that `_execute` saves for a reply. */
  function ReplyFields(codec: Codec, rule: Rule, msg: Message, raw: Bytes, session: string, seconds: int,
                       microseconds: nat): Fields {
    var dm := Decoder.Decode(codec, raw);
    Fields(session, seconds, microseconds, "outbound", msg.f.transport, msg.f.localPort, msg.f.peerAddr, dm.protocol,
           dm.pduType, dm.messageIdentifier, dm.serialNumber, dm.decoded, dm.rawHex, dm.rawB64, Some(rule.id))
  }

  /** The row that `send_bytes` logs: no port, no peer and no rule. */
  function ManualFields(codec: Codec, raw: Bytes, session: string, seconds: int, microseconds: nat): Fields {
    var dm := Decoder.Decode(codec, raw);
    Fields(session, seconds, microseconds, "outbound", "sctp", None, None, dm.protocol, dm.pduType,
           dm.messageIdentifier, dm.serialNumber, dm.decoded, dm.rawHex, dm.rawB64, None)
  }

  /** These octets are what the encoder makes of the rule's own template for the message's type and identifiers. */
  predicate Encodes(codec: Codec, rule: Rule, msg: Message, reply: Bytes) {
    && rule.spec.action == "auto_reply" && rule.spec.replyTemplate.Some? && rule.spec.replyTemplate.value != ""
    && Encoder.Encode(codec, rule.spec.replyTemplate.value,
                      Some(Decoder.DecodedMessage("raw", msg.f.pduType, msg.f.messageIdentifier, msg.f.serialNumber,
                                                  None, "", "")),
                      Encoder.NO_OVERRIDES) == Some(reply)
  }

  /** A rule replies if and only if it is to reply, has a template, and the encoder makes octets of that template. */
  lemma RepliesItsTemplate(codec: Codec, rule: Rule, msg: Message, reply: Bytes)
    ensures ReplyTo(codec, rule, msg) == Some(reply) <==> Encodes(codec, rule, msg, reply)
  {
  }

  /** With a runtime that undoes itself, the reply decodes to the message of that template. */
  lemma ReplyHasType(codec: Codec, rule: Rule, msg: Message, reply: Bytes)
    requires Encoder.InvertsReplies(codec) && Encodes(codec, rule, msg, reply)
    requires Encoder.Readable(msg.f.messageIdentifier) && Encoder.Readable(msg.f.serialNumber)
    ensures Encoder.TemplateOf(rule.spec.replyTemplate.value).Some?
    ensures Decoder.Decode(codec, reply).pduType
         == Some(Encoder.ReplyType(Encoder.TemplateOf(rule.spec.replyTemplate.value).value))
  {
    var request :=
      Decoder.DecodedMessage("raw", msg.f.pduType, msg.f.messageIdentifier, msg.f.serialNumber, None, "", "");
    ReadableArguments(request);
    Encoder.ReplyIdentifiers(codec, rule.spec.replyTemplate.value, Some(request), Encoder.NO_OVERRIDES);
  }

  lemma ReadableArguments(request: Decoder.DecodedMessage)
    requires Encoder.Readable(request.messageIdentifier) && Encoder.Readable(request.serialNumber)
    ensures Encoder.InRange(Encoder.MiSn(Some(request), Encoder.NO_OVERRIDES).0)
    ensures Encoder.InRange(Encoder.MiSn(Some(request), Encoder.NO_OVERRIDES).1)
  {
  }
}
