/** A reader of the message log that always asks for what comes after the last id it received. */
module Polling {
  import opened Tables
  import opened Store

  /** What may happen between two polls, and the poll itself. A session reset is here because it keeps the messages. */
  datatype Event = Save(f: Fields) | DeleteAll | Reset(session: string) | Poll(limit: int)

  /** `cursor` is the `since_id` of the next poll. */
  datatype Reader = Reader(db: Db, cursor: nat, received: seq<Message>)

  function Cursor(before: nat, rows: seq<Message>): nat {
    if rows == [] then before else rows[|rows| - 1].id
  }

  function Polled(r: Reader, q: Query, limit: int): Reader {
    var rows := GetMessages(r.db, r.cursor, q, limit);
    r.(received := r.received + rows, cursor := Cursor(r.cursor, rows))
  }

  function Next(r: Reader, q: Query, e: Event): Reader {
    match e
    case Save(f) => r.(db := SaveMessage(r.db, f))
    case DeleteAll => r.(db := DeleteAllMessages(r.db))
    case Reset(session) => r.(db := ResetSession(r.db, session))
    case Poll(limit) => Polled(r, q, limit)
  }

  function Run(db: Db, q: Query, events: seq<Event>): Reader {
    if events == [] then Reader(db, 0, [])
    else Next(Run(db, q, events[..|events| - 1]), q, events[|events| - 1])
  }

  lemma RunNext(db: Db, q: Query, events: seq<Event>, e: Event)
    ensures Run(db, q, events + [e]) == Next(Run(db, q, events), q, e)
  {
    assert (events + [e])[..|events|] == events;
  }

  // ----- what every step keeps

  /** The rows of the log that the filter wants are all received up to this id. */
  ghost predicate Complete(db: Db, q: Query, received: seq<Message>, upTo: int) {
    forall id :: id in db.messages && id <= upTo && Wanted(q, db.messages[id]) ==> db.messages[id] in received
  }

  ghost predicate Ascending(rows: seq<Message>) {
    forall i, j :: 0 <= i < j < |rows| ==> rows[i].id < rows[j].id
  }

  ghost predicate Within(q: Query, rows: seq<Message>, low: int, high: int) {
    forall i :: 0 <= i < |rows| ==> low < rows[i].id <= high && Wanted(q, rows[i])
  }

  ghost predicate Caught(r: Reader, q: Query) {
    && Valid(r.db) && r.cursor <= r.db.lastMessage
    && Ascending(r.received) && Within(q, r.received, 0, r.cursor)
    && Complete(r.db, q, r.received, r.cursor)
    && r.cursor == Cursor(0, r.received)
  }

  /** One answer: wanted rows between the old and the new cursor, ascending, and all of those. */
  lemma Answer(db: Db, q: Query, cursor: nat, limit: int)
    requires Valid(db) && cursor <= db.lastMessage
    ensures var rows := GetMessages(db, cursor, q, limit);
      && Ascending(rows) && Within(q, rows, cursor, Cursor(cursor, rows))
      && cursor <= Cursor(cursor, rows) <= db.lastMessage
      && (forall id :: id in db.messages && cursor < id <= Cursor(cursor, rows) && Wanted(q, db.messages[id])
            ==> db.messages[id] in rows)
      && (|rows| < Clamp(limit) ==>
            forall id :: id in db.messages && cursor < id && Wanted(q, db.messages[id]) ==> db.messages[id] in rows)
  {
    var rows := GetMessages(db, cursor, q, limit);
    GetMessagesAnswer(db, cursor, q, limit);
    ClampIs(limit);
    forall m ensures Wanted(q, m) <==> Meets(q, m) {
      WantedMeets(q, m);
    }
    if rows != [] {
      assert rows[|rows| - 1].id in db.messages;
    }
  }

  lemma Joined(q: Query, a: seq<Message>, b: seq<Message>, middle: int, high: int)
    requires Ascending(a) && Within(q, a, 0, middle) && Ascending(b) && Within(q, b, middle, high)
    requires 0 <= middle <= high
    ensures Ascending(a + b) && Within(q, a + b, 0, high)
  {
  }

  lemma PollKeeps(r: Reader, q: Query, limit: int)
    requires Caught(r, q)
    ensures Caught(Polled(r, q, limit), q)
  {
    var rows := GetMessages(r.db, r.cursor, q, limit);
    Answer(r.db, q, r.cursor, limit);
    Joined(q, r.received, rows, r.cursor, Cursor(r.cursor, rows));
    assert Complete(r.db, q, r.received + rows, Cursor(r.cursor, rows));
  }

  lemma SaveKeeps(db: Db, q: Query, received: seq<Message>, cursor: nat, f: Fields)
    requires Valid(db) && cursor <= db.lastMessage && Complete(db, q, received, cursor)
    ensures Valid(SaveMessage(db, f)) && Complete(SaveMessage(db, f), q, received, cursor)
  {
  }

  lemma NextKeeps(r: Reader, q: Query, e: Event)
    requires Caught(r, q)
    ensures Caught(Next(r, q, e), q)
  {
    match e
    case Save(f) => SaveKeeps(r.db, q, r.received, r.cursor, f);
    case Poll(limit) => PollKeeps(r, q, limit);
    case _ =>
  }

  lemma {:induction false} AlwaysCaught(db: Db, q: Query, events: seq<Event>)
    requires Valid(db)
    ensures Caught(Run(db, q, events), q)
  {
    if events != [] {
      var last := |events| - 1;
      AlwaysCaught(db, q, events[..last]);
      NextKeeps(Run(db, q, events[..last]), q, events[last]);
    }
  }

  /**
   * For any interleaving of saves, deletes, resets and polls: the ids received rise strictly, so no row comes twice;
   * every received row was wanted; and every wanted row still in the log up to the cursor has been received.
   */
  lemma ReceivesInOrder(db: Db, q: Query, events: seq<Event>)
    requires Valid(db)
    ensures var r := Run(db, q, events);
      && (forall i, j :: 0 <= i < j < |r.received| ==> r.received[i].id < r.received[j].id)
      && (forall i :: 0 <= i < |r.received| ==> Wanted(q, r.received[i]) && r.received[i].id <= r.cursor)
      && (forall id :: id in r.db.messages && id <= r.cursor && Wanted(q, r.db.messages[id])
            ==> r.db.messages[id] in r.received)
      && (r.received != [] ==> r.cursor == r.received[|r.received| - 1].id)
  {
    AlwaysCaught(db, q, events);
  }

  /** A poll that answers fewer rows than it may has caught up: every wanted row in the log has been received. */
  lemma ShortAnswerCatchesUp(db: Db, q: Query, events: seq<Event>, limit: int)
    requires Valid(db)
    requires var r := Run(db, q, events); |GetMessages(r.db, r.cursor, q, limit)| < Clamp(limit)
    ensures var r := Run(db, q, events + [Poll(limit)]);
      forall id :: id in r.db.messages && Wanted(q, r.db.messages[id]) ==> r.db.messages[id] in r.received
  {
    var r := Run(db, q, events);
    AlwaysCaught(db, q, events);
    Answer(r.db, q, r.cursor, limit);
    RunNext(db, q, events, Poll(limit));
  }

  ghost predicate Stored(db: Db, row: Message) {
    row.id in db.messages && db.messages[row.id] == row
  }

  lemma NextStores(r: Reader, q: Query, e: Event, row: Message)
    requires Valid(r.db) && Stored(r.db, row) && e != DeleteAll
    ensures Stored(Next(r, q, e).db, row)
  {
  }

  lemma RunStores(db: Db, q: Query, events: seq<Event>, e: Event, row: Message)
    requires Valid(Run(db, q, events).db) && Stored(Run(db, q, events).db, row) && e != DeleteAll
    ensures Stored(Run(db, q, events + [e]).db, row)
  {
    RunNext(db, q, events, e);
    NextStores(Run(db, q, events), q, e, row);
  }

  lemma {:induction false} StaysStored(db: Db, q: Query, before: seq<Event>, row: Message, after: seq<Event>)
    requires Valid(db) && Stored(Run(db, q, before).db, row) && DeleteAll !in after
    ensures Stored(Run(db, q, before + after).db, row)
    decreases |after|
  {
    if after == [] {
      assert before + after == before;
    } else {
      var last := |after| - 1;
      StaysStored(db, q, before, row, after[..last]);
      AlwaysCaught(db, q, before + after[..last]);
      RunStores(db, q, before + after[..last], after[last], row);
      assert before + after[..last] + [after[last]] == before + after;
    }
  }

  lemma NextReceives(r: Reader, q: Query, e: Event)
    ensures r.received <= Next(r, q, e).received
  {
  }

  /** What has been received stays received, in its place. */
  lemma {:induction false} ReceivedGrows(db: Db, q: Query, before: seq<Event>, after: seq<Event>)
    ensures Run(db, q, before).received <= Run(db, q, before + after).received
    decreases |after|
  {
    if after == [] {
      assert before + after == before;
    } else {
      var last := |after| - 1;
      ReceivedGrows(db, q, before, after[..last]);
      NextReceives(Run(db, q, before + after[..last]), q, after[last]);
      RunNext(db, q, before + after[..last], after[last]);
      assert before + after[..last] + [after[last]] == before + after;
    }
  }

  /** Up to the first delete a saved row stays stored, and it was received by the time the cursor passes it. */
  lemma SavedUpToDelete(db: Db, q: Query, before: seq<Event>, f: Fields, after: seq<Event>)
    requires Valid(db) && DeleteAll !in after && Wanted(q, SavedRow(Run(db, q, before).db, f))
    ensures var row := SavedRow(Run(db, q, before).db, f);
      var r := Run(db, q, before + [Save(f)] + after);
      Stored(r.db, row) && (row.id <= r.cursor ==> row in r.received)
  {
    RunNext(db, q, before, Save(f));
    StaysStored(db, q, before + [Save(f)], SavedRow(Run(db, q, before).db, f), after);
    AlwaysCaught(db, q, before + [Save(f)] + after);
  }

  /**
   * A row that is saved, wanted and not deleted before the cursor passes it is received: if after some events without a
   * delete the cursor has reached it, it is among the received rows then and ever after, whatever follows.
   */
  lemma SavedIsReceived(db: Db, q: Query, before: seq<Event>, f: Fields, until: seq<Event>, later: seq<Event>)
    requires Valid(db) && DeleteAll !in until && Wanted(q, SavedRow(Run(db, q, before).db, f))
    requires SavedRow(Run(db, q, before).db, f).id <= Run(db, q, before + [Save(f)] + until).cursor
    ensures SavedRow(Run(db, q, before).db, f) in Run(db, q, before + [Save(f)] + until + later).received
  {
    SavedUpToDelete(db, q, before, f, until);
    ReceivedGrows(db, q, before + [Save(f)] + until, later);
  }

  // ----- draining without writes

  lemma HitsAscend(db: Db, q: Query, cursor: nat)
    requires Valid(db)
    ensures Ascending(HitList(db, cursor, q))
  {
    ScanOrder(db.messages, After(cursor, q), (m: Message) => m.id, db.lastMessage + 1);
  }

  /** The hits after a higher cursor are the end of the hits, from the first one above it. */
  lemma HigherCursor(db: Db, q: Query, cursor: nat, high: nat) returns (k: nat)
    requires Valid(db) && cursor <= high
    ensures k <= |HitList(db, cursor, q)| && HitList(db, high, q) == HitList(db, cursor, q)[k..]
    ensures forall i :: 0 <= i < |HitList(db, cursor, q)| ==> (i < k <==> HitList(db, cursor, q)[i].id <= high)
  {
    k := ScanCut(db.messages, After(cursor, q), After(high, q), (m: Message) => m.id, high, db.lastMessage + 1);
  }

  lemma HitsAreHigher(db: Db, q: Query, cursor: nat, i: nat)
    requires Valid(db) && i < |HitList(db, cursor, q)|
    ensures HitList(db, cursor, q)[i].id > cursor
  {
    ScanOrder(db.messages, After(cursor, q), (m: Message) => m.id, db.lastMessage + 1);
  }

  lemma CutIsAt(hits: seq<Message>, n: nat, k: nat)
    requires Ascending(hits) && 0 < n <= |hits| && k <= |hits|
    requires forall i :: 0 <= i < |hits| ==> (i < k <==> hits[i].id <= hits[n - 1].id)
    ensures k == n
  {
    var last := n - 1;
    assert hits[last].id <= hits[n - 1].id;
    if n < |hits| {
      assert hits[last].id < hits[n].id;
    }
  }

  /** After receiving the first n hits, the hits that remain are the others. */
  lemma RestOfHits(db: Db, q: Query, cursor: nat, n: nat)
    requires Valid(db) && n <= |HitList(db, cursor, q)|
    ensures HitList(db, Cursor(cursor, HitList(db, cursor, q)[..n]), q) == HitList(db, cursor, q)[n..]
  {
    var hits := HitList(db, cursor, q);
    if n > 0 {
      HitsAscend(db, q, cursor);
      HitsAreHigher(db, q, cursor, n - 1);
      var k := HigherCursor(db, q, cursor, hits[n - 1].id);
      CutIsAt(hits, n, k);
    }
  }

  function Polls(limits: seq<int>): (events: seq<Event>)
    ensures |events| == |limits| && forall i :: 0 <= i < |limits| ==> events[i] == Poll(limits[i])
  {
    seq(|limits|, i requires 0 <= i < |limits| => Poll(limits[i]))
  }

  /** How many rows these polls may receive together. */
  function Room(limits: seq<int>): nat {
    if limits == [] then 0 else Room(limits[..|limits| - 1]) + Clamp(limits[|limits| - 1])
  }

  lemma PrefixGrows<T>(s: seq<T>, m: nat, n: nat)
    ensures var p := Prefix(s, m);
      s == p + s[|p|..] && p == s[..|p|] && p + Prefix(s[|p|..], n) == Prefix(s, m + n)
  {
  }

  lemma CursorOf(a: seq<Message>, b: seq<Message>)
    ensures Cursor(Cursor(0, a), b) == Cursor(0, a + b)
  {
  }

  /** A reader that has received as many hits as there is room for. */
  function Drained(db: Db, q: Query, room: nat): Reader {
    var got := Prefix(HitList(db, 0, q), room);
    Reader(db, Cursor(0, got), got)
  }

  lemma DrainStep(db: Db, q: Query, room: nat, limit: int)
    requires Valid(db)
    ensures Polled(Drained(db, q, room), q, limit) == Drained(db, q, room + Clamp(limit))
    ensures GetMessages(db, Drained(db, q, room).cursor, q, limit)
         == Prefix(HitList(db, 0, q)[|Drained(db, q, room).received|..], Clamp(limit))
  {
    var hits := HitList(db, 0, q);
    var got := Prefix(hits, room);
    PrefixGrows(hits, room, Clamp(limit));
    RestOfHits(db, q, 0, |got|);
    CursorOf(got, Prefix(hits[|got|..], Clamp(limit)));
  }

  lemma RunPoll(db: Db, q: Query, limits: seq<int>)
    requires limits != []
    ensures var last := |limits| - 1;
      Run(db, q, Polls(limits)) == Polled(Run(db, q, Polls(limits[..last])), q, limits[last])
  {
    var last := |limits| - 1;
    assert Polls(limits) == Polls(limits[..last]) + [Poll(limits[last])];
    RunNext(db, q, Polls(limits[..last]), Poll(limits[last]));
  }

  lemma DrainPoll(db: Db, q: Query, r: Reader, room: nat, limit: int)
    requires Valid(db) && r == Drained(db, q, room)
    ensures Polled(r, q, limit) == Drained(db, q, room + Clamp(limit))
  {
    DrainStep(db, q, room, limit);
  }

  /** While nothing is written, polls receive the hits one after the other, as many as there is room for. */
  lemma {:induction false} Drain(db: Db, q: Query, limits: seq<int>)
    requires Valid(db)
    ensures Run(db, q, Polls(limits)) == Drained(db, q, Room(limits))
  {
    if limits == [] {
      NothingDrained(db, q);
    } else {
      var last := |limits| - 1;
      Drain(db, q, limits[..last]);
      RunPoll(db, q, limits);
      DrainPoll(db, q, Run(db, q, Polls(limits[..last])), Room(limits[..last]), limits[last]);
    }
  }

  lemma NothingDrained(db: Db, q: Query)
    ensures Run(db, q, Polls([])) == Drained(db, q, Room([]))
  {
  }

  function Repeat(limit: int, n: nat): (limits: seq<int>)
    ensures |limits| == n && forall i :: 0 <= i < n ==> limits[i] == limit
  {
    seq(n, i => limit)
  }

  lemma {:induction false} RoomOfRepeat(limit: int, n: nat)
    ensures Room(Repeat(limit, n)) == n * Clamp(limit)
  {
    if n > 0 {
      RoomOfRepeat(limit, n - 1);
      assert Repeat(limit, n)[..n - 1] == Repeat(limit, n - 1);
      assert n * Clamp(limit) == (n - 1) * Clamp(limit) + Clamp(limit);
    }
  }

  function CeilDiv(k: nat, l: nat): nat
    requires l > 0
  {
    (k + l - 1) / l
  }

  lemma MulOrder(a: nat, b: nat, l: nat)
    requires a <= b
    ensures a * l <= b * l
  {
  }

  lemma CeilDivBound(n: nat, k: nat, l: nat)
    requires l > 0
    ensures n < CeilDiv(k, l) <==> n * l < k
  {
    var c := CeilDiv(k, l);
    var top := c * l;
    assert top <= k + l - 1 < top + l;
    if n < c {
      MulOrder(n + 1, c, l);
      assert (n + 1) * l == n * l + l;
    } else {
      MulOrder(c, n, l);
    }
  }

  lemma Remaining<T>(s: seq<T>, room: nat, l: nat)
    requires l > 0
    ensures Prefix(s[|Prefix(s, room)|..], l) != [] <==> room < |s|
    ensures room >= |s| ==> Prefix(s, room) == s
  {
  }

  /** With one limit and no writes, exactly the first ceil(k / L) polls answer rows, and then all k are received. */
  lemma DrainCount(db: Db, q: Query, limit: int, n: nat)
    requires Valid(db)
    ensures var hits := HitList(db, 0, q);
      var r := Run(db, q, Polls(Repeat(limit, n)));
      && (GetMessages(r.db, r.cursor, q, limit) != [] <==> n < CeilDiv(|hits|, Clamp(limit)))
      && (n >= CeilDiv(|hits|, Clamp(limit)) ==> r.received == hits)
  {
    var hits := HitList(db, 0, q);
    var room := n * Clamp(limit);
    Drain(db, q, Repeat(limit, n));
    RoomOfRepeat(limit, n);
    CeilDivBound(n, |hits|, Clamp(limit));
    DrainStep(db, q, room, limit);
    Remaining(hits, room, Clamp(limit));
  }

  /** The reader itself has not moved. */
  predicate SameReader(r: Reader, n: Reader) {
    n.cursor == r.cursor && n.received == r.received
  }

  /** What happens to the log between two polls. */
  lemma BetweenPolls(r: Reader, q: Query, f: Fields, session: string)
    ensures SameReader(r, Next(r, q, Save(f))) && Next(r, q, Save(f)).db.messages
         == r.db.messages[r.db.lastMessage + 1 := Message(r.db.lastMessage + 1, f)]
    ensures SameReader(r, Next(r, q, DeleteAll)) && Next(r, q, DeleteAll).db.messages == map[]
    ensures SameReader(r, Next(r, q, Reset(session))) && Next(r, q, Reset(session)).db.messages == r.db.messages
    ensures Next(r, q, Reset(session)).db.session == session && Next(r, q, Reset(session)).db.rules == map[]
  {
  }
}
