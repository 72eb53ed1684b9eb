/** store.py: two tables with AUTOINCREMENT keys and a session id under one lock. */
module Store {
  import opened Wrappers
  import opened Tables
  import Decoder

  /** What a caller supplies of a `messages` row; the timestamp is taken apart into seconds and microseconds. */
  datatype Fields = Fields(
    sessionId: string,
    seconds: int,
    microseconds: nat,
    direction: string,
    transport: string,
    localPort: Option<int>,
    peerAddr: Option<string>,
    protocol: string,
    pduType: Option<string>,
    messageIdentifier: Option<string>,
    serialNumber: Option<string>,
    decoded: Option<Decoder.Flat>,
    rawHex: string,
    rawB64: string,
    ruleId: Option<nat>)

  datatype Message = Message(id: nat, f: Fields)

  /** What a caller supplies of a `rules` row. */
  datatype Spec = Spec(
    active: bool,
    matchPduType: string,
    matchMessageIdentifier: Option<string>,
    matchSerialNumber: Option<string>,
    matchPeerAddr: Option<string>,
    action: string,
    replyTemplate: Option<string>,
    delayMs: int,
    count: int)

  datatype Rule = Rule(id: nat, spec: Spec, fired: nat)

  /** `lastMessage` and `lastRule` are the highest keys ever given out, which AUTOINCREMENT remembers across deletes. */
  datatype Db = Db(
    messages: map<nat, Message>,
    lastMessage: nat,
    rules: map<nat, Rule>,
    lastRule: nat,
    session: string)

  ghost predicate Valid(db: Db) {
    && (forall id :: id in db.messages ==> db.messages[id].id == id && 1 <= id <= db.lastMessage)
    && (forall id :: id in db.rules ==> db.rules[id].id == id && 1 <= id <= db.lastRule)
  }

  function Empty(session: string): Db {
    Db(map[], 0, map[], 0, session)
  }

  // ----- messages

  function SaveMessage(db: Db, f: Fields): Db {
    var id := db.lastMessage + 1;
    db.(messages := db.messages[id := Message(id, f)], lastMessage := id)
  }

  /** The row that `save_message` gives back. */
  function SavedRow(db: Db, f: Fields): Message {
    Message(db.lastMessage + 1, f)
  }

  datatype Query = Query(direction: Option<string>, pduType: Option<string>)

  const ALL := Query(None, None)

  /** A filter that is missing or empty lets everything through. */
  predicate Passes(filter: Option<string>, column: Option<string>) {
    filter == None || filter == Some("") || filter == column
  }

  predicate Wanted(q: Query, m: Message) {
    Passes(q.direction, Some(m.f.direction)) && Passes(q.pduType, m.f.pduType)
  }

  function Clamp(limit: int): (l: nat)
    ensures 1 <= l <= 1000
  {
    var low := if limit < 1 then 1 else limit;
    if low > 1000 then 1000 else low
  }

  /** The WHERE clause. */
  function After(sinceId: int, q: Query): Message -> bool {
    (m: Message) => m.id > sinceId && Wanted(q, m)
  }

  /** The rows after the cursor that pass the filters, in the order of their ids. */
  function HitList(db: Db, sinceId: int, q: Query): seq<Message> {
    Scan(db.messages, After(sinceId, q), db.lastMessage + 1)
  }

  function GetMessages(db: Db, sinceId: int, q: Query, limit: int): seq<Message> {
    Prefix(HitList(db, sinceId, q), Clamp(limit))
  }

  function DeleteAllMessages(db: Db): Db {
    db.(messages := map[])
  }

  // ----- rules

  function SaveRule(db: Db, spec: Spec): Db {
    var id := db.lastRule + 1;
    db.(rules := db.rules[id := Rule(id, spec, 0)], lastRule := id)
  }

  function IsActive(): Rule -> bool {
    (r: Rule) => r.spec.active
  }

  function GetRules(db: Db): seq<Rule> {
    Scan(db.rules, IsActive(), db.lastRule + 1)
  }

  function DeleteRule(db: Db, id: nat): Db {
    db.(rules := db.rules - {id})
  }

  function DeleteAllRules(db: Db): Db {
    db.(rules := map[])
  }

  function IncrementFired(db: Db, id: nat): Db {
    if id in db.rules then
      db.(rules := db.rules[id := db.rules[id].(fired := db.rules[id].fired + 1)])
    else
      db
  }

  /** A new session id and no rules; the messages stay. */
  function ResetSession(db: Db, session: string): Db {
    db.(session := session, rules := map[])
  }

  /** A row that the query wants, and how the answer may end before it. */
  lemma HitAnswered(db: Db, sinceId: int, q: Query, limit: int, id: nat)
    requires Valid(db) && id in db.messages && id > sinceId && Wanted(q, db.messages[id])
    ensures var r := GetMessages(db, sinceId, q, limit);
      |r| < Clamp(limit) || id <= r[|r| - 1].id ==> db.messages[id] in r
  {
    var hits, r := HitList(db, sinceId, q), GetMessages(db, sinceId, q, limit);
    ScanOrder(db.messages, After(sinceId, q), (m: Message) => m.id, db.lastMessage + 1);
    var i := ScanComplete(db.messages, After(sinceId, q), db.lastMessage + 1, id);
    if |r| < Clamp(limit) || id <= r[|r| - 1].id {
      assert i < |r| && r[i] == hits[i];
    }
  }

  /** The row has the direction and the message type that a filter names, where it names one. */
  ghost predicate Meets(q: Query, m: Message) {
    && (q.direction.Some? && q.direction.value != "" ==> m.f.direction == q.direction.value)
    && (q.pduType.Some? && q.pduType.value != "" ==> m.f.pduType == q.pduType)
  }

  lemma WantedMeets(q: Query, m: Message)
    ensures Wanted(q, m) <==> Meets(q, m)
  {
  }

  function Min(a: int, b: int): int {
    if a < b then a else b
  }

  function Max(a: int, b: int): int {
    if a < b then b else a
  }

  lemma ClampIs(limit: int)
    ensures Clamp(limit) == Min(Max(1, limit), 1000)
  {
  }

  /**
   * What a query answers: rows of the table that pass the filters after the cursor, in strictly ascending order of id,
   * at most the clamped limit, and no such row is left out before the last one answered or when there is room for it.
   */
  ghost predicate IsAnswer(db: Db, sinceId: int, q: Query, limit: int, r: seq<Message>) {
    && |r| <= Min(Max(1, limit), 1000)
    && (forall i, j :: 0 <= i < j < |r| ==> r[i].id < r[j].id)
    && (forall i :: 0 <= i < |r| ==>
          r[i].id in db.messages && r[i] == db.messages[r[i].id] && r[i].id > sinceId && Meets(q, r[i]))
    && (forall id | id in db.messages && id > sinceId && Meets(q, db.messages[id]) ::
          |r| < Min(Max(1, limit), 1000) || id <= r[|r| - 1].id ==> db.messages[id] in r)
  }

  lemma AnsweredRows(db: Db, sinceId: int, q: Query, limit: int)
    requires Valid(db)
    ensures var r := GetMessages(db, sinceId, q, limit);
      && |r| <= Clamp(limit)
      && (forall i, j :: 0 <= i < j < |r| ==> r[i].id < r[j].id)
      && (forall i :: 0 <= i < |r| ==>
            r[i].id in db.messages && r[i] == db.messages[r[i].id] && r[i].id > sinceId && Meets(q, r[i]))
  {
    ScanOrder(db.messages, After(sinceId, q), (m: Message) => m.id, db.lastMessage + 1);
  }

  lemma GetMessagesAnswer(db: Db, sinceId: int, q: Query, limit: int)
    requires Valid(db)
    ensures IsAnswer(db, sinceId, q, limit, GetMessages(db, sinceId, q, limit))
  {
    var r := GetMessages(db, sinceId, q, limit);
    AnsweredRows(db, sinceId, q, limit);
    ClampIs(limit);
    forall id | id in db.messages && id > sinceId && Meets(q, db.messages[id])
      ensures |r| < Clamp(limit) || id <= r[|r| - 1].id ==> db.messages[id] in r
    {
      WantedMeets(q, db.messages[id]);
      HitAnswered(db, sinceId, q, limit, id);
    }
  }

  /** The rules come in strictly ascending order of id, exactly the active ones. */
  ghost predicate IsSnapshot(db: Db, r: seq<Rule>) {
    && (forall i, j :: 0 <= i < j < |r| ==> r[i].id < r[j].id)
    && (forall i :: 0 <= i < |r| ==> r[i].id in db.rules && r[i] == db.rules[r[i].id] && r[i].spec.active)
    && (forall id :: id in db.rules && db.rules[id].spec.active ==> db.rules[id] in r)
  }

  lemma GetRulesAnswer(db: Db)
    requires Valid(db)
    ensures IsSnapshot(db, GetRules(db))
  {
    ScanOrder(db.rules, IsActive(), (r: Rule) => r.id, db.lastRule + 1);
    forall id | id in db.rules && db.rules[id].spec.active ensures db.rules[id] in GetRules(db) {
      var i := ScanComplete(db.rules, IsActive(), db.lastRule + 1, id);
    }
  }

  /** Every operation keeps the tables valid, never lowers a key counter, and gives out only fresh keys. */
  lemma OperationsKeepValid(db: Db, f: Fields, spec: Spec, id: nat, session: string)
    requires Valid(db)
    ensures Valid(SaveMessage(db, f)) && SavedRow(db, f).id !in db.messages
    ensures SaveMessage(db, f).messages[SavedRow(db, f).id] == SavedRow(db, f)
    ensures Valid(SaveRule(db, spec)) && SaveRule(db, spec).lastRule !in db.rules
    ensures Valid(DeleteRule(db, id)) && Valid(DeleteAllRules(db)) && Valid(DeleteAllMessages(db))
    ensures Valid(IncrementFired(db, id)) && Valid(ResetSession(db, session))
    ensures ResetSession(db, session).messages == db.messages
  {
  }

  /** What each update of the messages leaves, and what it leaves alone. */
  lemma MessageUpdates(db: Db, f: Fields)
    ensures var next := SaveMessage(db, f);
      && next.messages == db.messages[db.lastMessage + 1 := Message(db.lastMessage + 1, f)]
      && next.lastMessage == db.lastMessage + 1
      && next.rules == db.rules && next.lastRule == db.lastRule && next.session == db.session
    ensures var next := DeleteAllMessages(db);
      && |next.messages| == 0 && next.lastMessage == db.lastMessage
      && next.rules == db.rules && next.lastRule == db.lastRule && next.session == db.session
  {
  }

  /** Saving or removing rules, or all but those of one id, touches nothing else. */
  lemma RuleUpdates(db: Db, spec: Spec, id: nat)
    ensures var next := SaveRule(db, spec);
      && next.rules == db.rules[db.lastRule + 1 := Rule(db.lastRule + 1, spec, 0)]
      && next.lastRule == db.lastRule + 1 && KeepsMessages(db, next) && next.session == db.session
    ensures var next := DeleteRule(db, id);
      && next.rules.Keys == db.rules.Keys - {id} && (forall r :: r in next.rules ==> next.rules[r] == db.rules[r])
      && next.lastRule == db.lastRule && KeepsMessages(db, next) && next.session == db.session
    ensures var next := DeleteAllRules(db);
      && |next.rules| == 0 && next.lastRule == db.lastRule && KeepsMessages(db, next) && next.session == db.session
    ensures var next := IncrementFired(db, id);
      && next.rules.Keys == db.rules.Keys && next.lastRule == db.lastRule
      && KeepsMessages(db, next) && next.session == db.session
      && forall r :: r in db.rules ==>
           next.rules[r].spec == db.rules[r].spec && next.rules[r].id == db.rules[r].id
           && next.rules[r].fired == db.rules[r].fired + if r == id then 1 else 0
  {
  }

  lemma EmptyStore(session: string)
    ensures var db := Empty(session);
      && Valid(db) && |db.messages| == 0 && |db.rules| == 0 && db.lastMessage == 0 && db.lastRule == 0
      && db.session == session
  {
  }

  predicate KeepsMessages(db: Db, next: Db) {
    next.messages == db.messages && next.lastMessage == db.lastMessage
  }

  /** A reset stores the new session id and removes every rule, and keeps the messages and both key counters. */
  lemma ResetUpdates(db: Db, session: string)
    ensures var next := ResetSession(db, session);
      next.session == session && |next.rules| == 0 && next.lastRule == db.lastRule && KeepsMessages(db, next)
  {
  }

  /** The store object; each method is one critical section. */
  class Store {
    var messages: map<nat, Message>
    var lastMessage: nat
    var rules: map<nat, Rule>
    var lastRule: nat
    var session: string

    ghost function View(): Db
      reads this
    {
      Db(messages, lastMessage, rules, lastRule, session)
    }

    constructor (session: string)
      ensures View() == Empty(session) && Valid(View())
    {
      messages, lastMessage, rules, lastRule := map[], 0, map[], 0;
      this.session := session;
    }

    method Save(f: Fields) returns (row: Message)
      requires Valid(View())
      modifies this`messages, this`lastMessage
      ensures Valid(View())
      ensures View() == SaveMessage(old(View()), f) && row == SavedRow(old(View()), f)
      ensures row.id !in old(messages) && row.id in messages && messages[row.id] == row
    {
      lastMessage := lastMessage + 1;
      row := Message(lastMessage, f);
      messages := messages[lastMessage := row];
    }

    method Get(sinceId: int, q: Query, limit: int) returns (rows: seq<Message>)
      requires Valid(View())
      ensures rows == GetMessages(View(), sinceId, q, limit)
      ensures IsAnswer(View(), sinceId, q, limit, rows)
    {
      GetMessagesAnswer(View(), sinceId, q, limit);
      rows := Prefix(Scan(messages, After(sinceId, q), lastMessage + 1), Clamp(limit));
    }

    method AddRule(spec: Spec) returns (rule: Rule)
      requires Valid(View())
      modifies this`rules, this`lastRule
      ensures Valid(View())
      ensures View() == SaveRule(old(View()), spec)
      ensures rule == Rule(old(lastRule) + 1, spec, 0) && rule.id !in old(rules)
      ensures rule.id in rules && rules[rule.id] == rule
    {
      lastRule := lastRule + 1;
      rule := Rule(lastRule, spec, 0);
      rules := rules[lastRule := rule];
    }

    method ActiveRules() returns (r: seq<Rule>)
      requires Valid(View())
      ensures r == GetRules(View())
      ensures IsSnapshot(View(), r)
    {
      GetRulesAnswer(View());
      r := Scan(rules, IsActive(), lastRule + 1);
    }

    method RemoveRule(id: nat) returns (count: nat)
      requires Valid(View())
      modifies this`rules
      ensures Valid(View()) && View() == DeleteRule(old(View()), id)
      ensures count == |old(rules)| - |rules|
    {
      count := if id in rules then 1 else 0;
      ghost var before := rules;
      rules := rules - {id};
      assert rules.Keys == before.Keys - {id};
      assert |before.Keys| == |before| && |rules.Keys| == |rules|;
    }

    method RemoveAllRules() returns (count: nat)
      requires Valid(View())
      modifies this`rules
      ensures Valid(View()) && View() == DeleteAllRules(old(View())) && count == |old(rules)|
    {
      count := |rules|;
      rules := map[];
    }

    method RemoveAllMessages() returns (count: nat)
      requires Valid(View())
      modifies this`messages
      ensures Valid(View()) && View() == DeleteAllMessages(old(View())) && count == |old(messages)|
    {
      count := |messages|;
      messages := map[];
    }

    method Reset(newId: string) returns (messageCount: nat, ruleCount: nat)
      requires Valid(View())
      modifies this`session, this`rules
      ensures Valid(View()) && View() == ResetSession(old(View()), newId)
      ensures messageCount == |messages| && ruleCount == |old(rules)|
    {
      session := newId;
      messageCount, ruleCount := |messages|, |rules|;
      rules := map[];
    }

    method Increment(id: nat)
      requires Valid(View())
      modifies this`rules
      ensures Valid(View()) && View() == IncrementFired(old(View()), id)
    {
      if id in rules {
        rules := rules[id := rules[id].(fired := rules[id].fired + 1)];
      }
    }
  }
}
