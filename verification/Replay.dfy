/** main.py, decoder.py: sending again what was logged. */
module Replay {
  import opened Wrappers
  import opened Octets
  import opened SbcAp
  import opened Store
  import opened Engine
  import opened EngineInvariant
  import opened Rules
  import Base64
  import Decoder
  import Hex

  /** The octets that `send_bytes` makes of a hex text; None is its answer 400. */
  function Submit(hex: string): Option<Bytes> {
    if hex == "" then None else Hex.FromHex(Hex.RemoveSpaces(hex))
  }

  /** The dump and the base 64 of a row are those of these octets. */
  predicate Holds(f: Fields, raw: Bytes) {
    f.rawHex == Hex.Spaced(raw) && f.rawB64 == Base64.Encode(raw)
  }

  /** A dump can be submitted and gives its octets back if and only if it is not empty. */
  lemma SubmitSpaced(raw: Bytes)
    ensures Submit(Hex.Spaced(raw)) == Some(raw) <==> raw != []
    ensures Submit(Hex.Spaced(raw)) == None <==> raw == []
  {
    Hex.FromSpaced(raw);
  }

  lemma DecodeHolds(codec: Codec, raw: Bytes)
    ensures Decoder.Decode(codec, raw).rawHex == Hex.Spaced(raw)
    ensures Decoder.Decode(codec, raw).rawB64 == Base64.Encode(raw)
  {
  }

  /**
   * A row that holds octets, whoever saved it, gives them back when its dump is submitted, and the new row has the same
   * dump and the same base 64. Only an empty message cannot be submitted again.
   */
  lemma ReplayRoundTrip(codec: Codec, f: Fields, raw: Bytes, session: string, seconds: int, microseconds: nat)
    requires Holds(f, raw)
    ensures raw != [] <==> Submit(f.rawHex) == Some(raw)
    ensures raw != [] ==>
      var again := ManualFields(codec, Submit(f.rawHex).value, session, seconds, microseconds);
      again.rawHex == f.rawHex && again.rawB64 == f.rawB64
  {
    SubmitSpaced(raw);
    DecodeHolds(codec, raw);
  }

  /** The failing input: a blank is accepted as no octets, and the dump that is then logged is refused. */
  lemma BlankCannotBeReplayed(codec: Codec, session: string, seconds: int, microseconds: nat)
    ensures Submit(" ") == Some([])
    ensures Submit(ManualFields(codec, [], session, seconds, microseconds).rawHex) == None
  {
    assert " "[1..] == "";
    assert Hex.RemoveSpaces(" ") == "";
  }

  /** The text that was submitted and the dump that is logged differ only in case and white space. */
  lemma SubmittedDump(codec: Codec, hex: string, session: string, seconds: int, microseconds: nat)
    requires Submit(hex).Some?
    ensures Hex.RemoveSpaces(ManualFields(codec, Submit(hex).value, session, seconds, microseconds).rawHex)
         == Hex.Normal(hex)
  {
    var raw := Submit(hex).value;
    DecodeHolds(codec, raw);
    Hex.SpacedWithoutSpaces(raw);
    Hex.FromHexSound(Hex.RemoveSpaces(hex));
    NormalWithoutSpaces(hex);
  }

  lemma {:induction false} NormalWithoutSpaces(s: string)
    ensures Hex.Normal(Hex.RemoveSpaces(s)) == Hex.Normal(s)
  {
    if s != "" {
      NormalWithoutSpaces(s[1..]);
      if s[0] == ' ' {
        assert Hex.RemoveSpaces(s) == Hex.RemoveSpaces(s[1..]);
      } else {
        assert Hex.RemoveSpaces(s) == [s[0]] + Hex.RemoveSpaces(s[1..]);
        assert Hex.RemoveSpaces(s)[1..] == Hex.RemoveSpaces(s[1..]);
      }
    }
  }

  // ----- every row that a connection logs

  ghost predicate Received(t: Task) {
    forall k :: 0 <= k < |t.arrivals| ==> 0 < |t.arrivals[k]| <= RECV_LIMIT
  }

  ghost predicate AllReceived(s: State) {
    forall c: nat :: c in s.tasks ==> Received(s.tasks[c])
  }

  lemma StepReceives(codec: Codec, s: State, a: Step)
    requires AllReceived(s)
    ensures AllReceived(Do(codec, s, a))
  {
    forall c: nat | c in Do(codec, s, a).tasks ensures Received(Do(codec, s, a).tasks[c]) {
      assert c in s.tasks ==> Received(s.tasks[c]);
    }
  }

  lemma {:induction false} AlwaysReceived(codec: Codec, session: string, schedule: seq<Step>)
    ensures AllReceived(Exec(codec, Init(session), schedule))
  {
    if schedule != [] {
      AlwaysReceived(codec, session, schedule[..|schedule| - 1]);
      StepReceives(codec, Exec(codec, Init(session), schedule[..|schedule| - 1]), schedule[|schedule| - 1]);
    }
  }

  /** After any schedule, the dump of every received message that a connection logged can be submitted again. */
  lemma LoggedCanBeReplayed(codec: Codec, session: string, schedule: seq<Step>, c: nat, i: nat)
    requires var s := Exec(codec, Init(session), schedule);
      c in s.tasks && i < |s.tasks[c].log| && s.tasks[c].log[i].kind.Inbound?
    ensures var t := Exec(codec, Init(session), schedule).tasks[c]; var e := t.log[i];
      && e.index < |t.arrivals| && |t.arrivals[e.index]| <= RECV_LIMIT
      && Submit(e.row.f.rawHex) == Some(t.arrivals[e.index])
  {
    AlwaysInv(codec, session, schedule);
    AlwaysReceived(codec, session, schedule);
    var s := Exec(codec, Init(session), schedule);
    InboundReplays(codec, s.db, s.tasks[c], i);
  }

  lemma InboundReplays(codec: Codec, db: Db, t: Task, i: nat)
    requires TaskOk(codec, db, t) && Received(t) && i < |t.log| && t.log[i].kind.Inbound?
    ensures t.log[i].index < |t.arrivals| && |t.arrivals[t.log[i].index]| <= RECV_LIMIT
    ensures Submit(t.log[i].row.f.rawHex) == Some(t.arrivals[t.log[i].index])
  {
    assert EntryOk(codec, t, i);
    var raw := t.arrivals[t.log[i].index];
    DecodeHolds(codec, raw);
    SubmitSpaced(raw);
  }

  /** A waiting connection receives any message of 1 to 65535 octets, and no other. */
  lemma Reception(codec: Codec, s: State, c: nat, raw: Bytes)
    requires c in s.tasks && s.tasks[c].phase.Idle? && !s.tasks[c].cancelled
    ensures var t := Do(codec, s, Arrive(c, raw));
      if 1 <= |raw| <= 65535 then
        && c in t.tasks && t.tasks[c].phase == Arrived(raw) && t.tasks[c].arrivals == s.tasks[c].arrivals + [raw]
        && t.tasks[c].log == s.tasks[c].log && t.db == s.db
      else
        t == s
  {
  }

  /** Blanks do not matter, not even inside an octet, as long as there is any text. */
  lemma BlanksDoNotMatter(a: string, b: string)
    requires a != "" && b != "" && Hex.RemoveSpaces(a) == Hex.RemoveSpaces(b)
    ensures Submit(a) == Submit(b)
  {
  }
}
