/** sctp_server.py: the server object, whose methods are the sections that the coroutines run without a break. */
module SctpServer {
  import opened Wrappers
  import opened Registration
  import Broadcast

  /** One listener's dictionaries, shared by its accept loop, its handlers and `stop`. */
  class Listener {
    const port: Port
    var peers: map<Addr, nat>
    var peerTasks: map<Addr, nat>

    constructor (port: Port)
      ensures this.port == port && peers == map[] && peerTasks == map[]
    {
      this.port := port;
      peers, peerTasks := map[], map[];
    }
  }

  /** The `peers` of the registered listeners in the order of the dictionary. */
  function TableOf(s: State, order: seq<Port>): (t: Broadcast.Table)
    ensures |t| == |order| && forall i :: 0 <= i < |t| ==> t[i] == PeersAt(s, order[i])
  {
    seq(|order|, i requires 0 <= i < |order| => PeersAt(s, order[i]))
  }

  function PeersAt(s: State, port: Port): map<Addr, nat> {
    if port in s.listeners && s.listeners[port] < |s.entries| then s.entries[s.listeners[port]].peers else map[]
  }

  /** Distinct objects with the fields of the model's entries. */
  ghost predicate Mirrors(made: seq<Listener>, entries: seq<Entry>)
    reads made
  {
    && |made| == |entries|
    && (forall i, j :: 0 <= i < j < |made| ==> made[i] != made[j])
    && (forall i :: 0 <= i < |made| ==> entries[i] == Entry(made[i].port, made[i].peers, made[i].peerTasks))
  }

  lemma MirrorsRegister(made: seq<Listener>, entries: seq<Entry>, entry: Listener)
    requires Mirrors(made, entries) && entry !in made
    ensures Mirrors(made + [entry], entries + [Entry(entry.port, entry.peers, entry.peerTasks)])
  {
  }

  /** The dictionary of objects and the model's dictionary of their numbers. */
  ghost predicate Indexed(listeners: map<Port, Listener>, made: seq<Listener>, numbers: map<Port, nat>) {
    && listeners.Keys == numbers.Keys
    && forall p :: p in listeners ==> numbers[p] < |made| && listeners[p] == made[numbers[p]]
  }

  lemma IndexedRegister(listeners: map<Port, Listener>, made: seq<Listener>, numbers: map<Port, nat>, port: Port,
                        entry: Listener)
    requires Indexed(listeners, made, numbers)
    ensures Indexed(listeners[port := entry], made + [entry], numbers[port := |made|])
  {
  }

  class SctpServer {
    /** The dictionary of listeners, and its keys in the order in which they were put in. */
    var listeners: map<Port, Listener>
    var order: seq<Port>
    /** Numbers the accepted connections. */
    var accepted: nat
    /** The state of the registration model, and the objects of its entries. */
    ghost var view: State
    ghost var made: seq<Listener>

    ghost predicate Valid()
      reads this, made
    {
      && Linked(view)
      && Mirrors(made, view.entries)
      && Indexed(listeners, made, view.listeners)
      && Ordered(order, listeners.Keys)
      && accepted == |view.handlers|
    }

    ghost function Table(): Broadcast.Table
      reads this
    {
      TableOf(view, order)
    }

    constructor ()
      ensures Valid() && view == NOTHING
    {
      listeners, order, accepted := map[], [], 0;
      view, made := NOTHING, [];
    }

    /** `start` up to its await. */
    method BeginStart(port: Port) returns (ok: bool)
      requires Valid()
      modifies this`view
      ensures Valid() && view == Do(old(view), Step.BeginStart(port))
      ensures ok <==> port !in listeners
    {
      ok := port !in listeners;
      StepLinks(view, Step.BeginStart(port));
      view := Do(view, Step.BeginStart(port));
    }

    /** `start` after its await. */
    method Register(port: Port) returns (entry: Listener)
      requires Valid() && port in view.starting
      modifies this
      ensures Valid() && view == Do(old(view), Step.Register(port))
      ensures fresh(entry) && port in listeners && listeners[port] == entry && made == old(made) + [entry]
      ensures order == if port in old(listeners) then old(order) else old(order) + [port]
    {
      StepLinks(view, Step.Register(port));
      entry := new Listener(port);
      MirrorsRegister(made, view.entries, entry);
      IndexedRegister(listeners, made, view.listeners, port, entry);
      OrderedPut(order, listeners.Keys, port);
      assert listeners[port := entry].Keys == listeners.Keys + {port};
      order := Put(order, port);
      listeners := listeners[port := entry];
      made := made + [entry];
      view := Do(view, Step.Register(port));
    }

    /** `stop` up to its first await. */
    method Pop(port: Port) returns (entry: Option<Listener>)
      requires Valid()
      modifies this`listeners, this`order, this`view
      ensures Valid() && view == Do(old(view), Step.Pop(port))
      ensures entry == if port in old(listeners) then Some(old(listeners)[port]) else None
      ensures order == Dropped(old(order), port)
    {
      StepLinks(view, Step.Pop(port));
      if port in listeners {
        entry := Some(listeners[port]);
        order := Dropped(order, port);
        listeners := listeners - {port};
      } else {
        entry := None;
        NothingDropped(order, port);
      }
      view := Do(view, Step.Pop(port));
    }

    /** An accept loop, after its await. */
    method Accept(entry: Listener, addr: Addr, ghost e: nat) returns (connection: nat)
      requires Valid() && e < |made| && entry == made[e]
      modifies this`accepted, this`view, entry
      ensures Valid() && view == Do(old(view), Step.Accept(e, addr))
      ensures connection == |old(view).handlers| && addr in entry.peers && entry.peers[addr] == connection
    {
      StepLinks(view, Step.Accept(e, addr));
      connection := accepted;
      accepted := accepted + 1;
      entry.peers := entry.peers[addr := connection];
      entry.peerTasks := entry.peerTasks[addr := connection];
      view := Do(view, Step.Accept(e, addr));
    }

    /** A handler's finally block up to its await. */
    method Cleanup(port: Port, addr: Addr, ghost handler: nat)
      requires Valid() && handler < |view.handlers| && view.handlers[handler].live
      requires view.handlers[handler].port == port && view.handlers[handler].addr == addr
      modifies this`view, made
      ensures Valid() && view == Do(old(view), Step.Cleanup(handler))
    {
      StepLinks(view, Step.Cleanup(handler));
      if port in listeners {
        var entry := listeners[port];
        entry.peers := entry.peers - {addr};
        entry.peerTasks := entry.peerTasks - {addr};
      }
      view := Do(view, Step.Cleanup(handler));
    }

    /** The dictionaries that both loops below go over. */
    method Snapshot() returns (t: Broadcast.Table)
      requires Valid()
      ensures t == Table()
    {
      t := [];
      for i := 0 to |order|
        invariant |t| == i && forall j :: 0 <= j < i ==> t[j] == Table()[j]
      {
        assert order[i] in listeners;
        t := t + [listeners[order[i]].peers];
      }
    }

    /** `send_to_peer`. */
    method SendToPeer(addr: Addr) returns (connection: Option<nat>)
      requires Valid()
      ensures connection == Broadcast.Target(Table(), addr)
    {
      var t := Snapshot();
      connection := Broadcast.SendToPeer(t, addr);
    }

    /** The loops of `send_bytes`, when the sends to `refuses` raise. */
    method SendToAll(refuses: set<nat>) returns (sent: seq<nat>, raised: bool)
      requires Valid()
      ensures raised <==> Broadcast.SomeRefused(Table(), |Table()|, refuses)
      ensures !raised ==> |sent| == Broadcast.Registrations(Table(), |Table()|)
      ensures !raised ==> Broadcast.SentUpTo(Table(), |Table()|, sent)
      ensures raised ==> Broadcast.CutShort(Table(), |Table()|, refuses, sent)
    {
      DistinctTable(view, order);
      var t := Snapshot();
      sent, raised := Broadcast.SendToAll(t, refuses);
    }
  }

  ghost predicate NoRepeats(order: seq<Port>) {
    forall i, j :: 0 <= i < j < |order| ==> order[i] != order[j]
  }

  /** The keys of a dictionary, each once. */
  ghost predicate Ordered(order: seq<Port>, keys: set<Port>) {
    (forall p :: p in order <==> p in keys) && NoRepeats(order)
  }

  /** Giving a key a value leaves the key where it is, or puts it last. */
  function Put(order: seq<Port>, port: Port): seq<Port> {
    if port in order then order else order + [port]
  }

  lemma OrderedPut(order: seq<Port>, keys: set<Port>, port: Port)
    requires Ordered(order, keys)
    ensures Ordered(Put(order, port), keys + {port})
  {
  }

  function Dropped(order: seq<Port>, port: Port): (r: seq<Port>)
    ensures forall p :: p in r <==> p in order && p != port
    ensures NoRepeats(order) ==> NoRepeats(r)
  {
    if order == [] then []
    else
      var rest := Dropped(order[1..], port);
      assert order == [order[0]] + order[1..];
      assert NoRepeats(order) ==> order[0] !in order[1..] && NoRepeats(order[1..]);
      if order[0] == port then rest else [order[0]] + rest
  }

  lemma {:induction false} NothingDropped(order: seq<Port>, port: Port)
    requires port !in order
    ensures Dropped(order, port) == order
  {
    if order != [] {
      NothingDropped(order[1..], port);
      assert order == [order[0]] + order[1..];
    }
  }

  /** The other keys stay in their order: those before the dropped key, then those after it. */
  lemma {:induction false} DroppedAt(order: seq<Port>, k: nat)
    requires NoRepeats(order) && k < |order|
    ensures Dropped(order, order[k]) == order[..k] + order[k + 1..]
  {
    if k == 0 {
      NothingDropped(order[1..], order[0]);
    } else {
      DroppedAt(order[1..], k - 1);
      assert order[1..][k - 1] == order[k] && order[0] != order[k];
      assert order[..k] == [order[0]] + order[1..][..k - 1] && order[1..][k..] == order[k + 1..];
    }
  }

  /** The same connection is never registered twice, because it was accepted by one listener from one address. */
  lemma DistinctTable(s: State, order: seq<Port>)
    requires Linked(s) && Ordered(order, s.listeners.Keys)
    ensures Broadcast.Distinct(TableOf(s, order))
  {
    var t := TableOf(s, order);
    forall i: nat, a: Addr | i < |t| && a in t[i] ensures Broadcast.Once(t, i, a) {
      forall j, b | 0 <= j < |t| && b in t[j] && t[j][b] == t[i][a] ensures j == i && b == a {
        var e, f := s.listeners[order[i]], s.listeners[order[j]];
        assert order[i] in order && order[j] in order;
        assert EntryOk(s, e) && EntryOk(s, f);
        assert PeerOk(s, e, a, t[i][a]) && PeerOk(s, f, b, t[j][b]);
        assert s.entries[e].port == order[i] && s.entries[f].port == order[j];
      }
    }
  }

  // ----- does a reply reach the connection that its request came on

  lemma TargetIs(t: Broadcast.Table, k: nat, a: string)
    requires Broadcast.Distinct(t) && k < |t| && a in t[k]
    ensures Broadcast.Target(t, a) == Some(t[k][a]) <==> forall j :: 0 <= j < k ==> a !in t[j]
  {
    var i := Broadcast.First(t, a);
    assert Broadcast.Once(t, k, a);
    if forall j :: 0 <= j < k ==> a !in t[j] {
      assert i == k;
    }
  }

  /**
   * While registrations are exact, bytes for the address of a live connection go to that connection if and only if no
   * listener before its own holds the address too.
   */
  lemma ReachesItself(s: State, order: seq<Port>, k: nat, addr: Addr, h: nat)
    requires Linked(s) && Exact(s) && Ordered(order, s.listeners.Keys) && k < |order| && order[k] in s.listeners
    requires LiveOf(s, s.listeners[order[k]], addr, h)
    ensures Broadcast.Target(TableOf(s, order), addr) == Some(h)
       <==> forall j :: 0 <= j < k ==> addr !in PeersAt(s, order[j])
  {
    var t := TableOf(s, order);
    var e := s.listeners[order[k]];
    assert Registered(s, e) && Holds(s, e, addr, h);
    DistinctTable(s, order);
    assert t[k] == s.entries[e].peers;
    TargetIs(t, k, addr);
  }

  /**
   * Over any disciplined run, at every point: a reply for the address of a live connection of a registered listener
   * goes to that connection if and only if no listener before its own holds the address too.
   */
  lemma ReplyReachesItsConnection(steps: seq<Step>, n: nat, order: seq<Port>, k: nat, addr: Addr, h: nat)
    requires Disciplined(steps) && n <= |steps|
    requires var s := Before(steps, n);
      && Ordered(order, s.listeners.Keys) && k < |order| && order[k] in s.listeners
      && LiveOf(s, s.listeners[order[k]], addr, h)
    ensures var s := Before(steps, n);
      Broadcast.Target(TableOf(s, order), addr) == Some(h)
      <==> forall j :: 0 <= j < k ==> addr !in PeersAt(s, order[j])
  {
    DisciplineHolds(steps, n);
    AlwaysLinked(steps[..n]);
    ReachesItself(Before(steps, n), order, k, addr, h);
  }

  // ----- one address under two listeners

  /** Two listeners have each accepted a connection from this address. */
  function Shared(addr: Addr): State {
    State(multiset{}, map[1 := 0, 2 := 1],
      [Entry(1, map[addr := 0], map[addr := 0]), Entry(2, map[addr := 1], map[addr := 1])],
      [Handler(0, 1, addr, true), Handler(1, 2, addr, true)])
  }

  lemma SharedStarts()
    ensures Do(Do(Do(Do(NOTHING, BeginStart(1)), Step.Register(1)), BeginStart(2)), Step.Register(2))
         == State(multiset{}, map[1 := 0, 2 := 1], [Entry(1, map[], map[]), Entry(2, map[], map[])], [])
  {
    var s := Do(Do(NOTHING, BeginStart(1)), Step.Register(1));
    assert s == State(multiset{}, map[1 := 0], [Entry(1, map[], map[])], []);
    var t := Do(Do(s, BeginStart(2)), Step.Register(2));
    assert t.starting == multiset{} && t.listeners == map[1 := 0, 2 := 1];
  }

  lemma SharedAccepts(addr: Addr)
    ensures Do(Do(State(multiset{}, map[1 := 0, 2 := 1], [Entry(1, map[], map[]), Entry(2, map[], map[])], []),
                  Step.Accept(0, addr)), Step.Accept(1, addr))
         == Shared(addr)
  {
    var s := State(multiset{}, map[1 := 0, 2 := 1], [Entry(1, map[], map[]), Entry(2, map[], map[])], []);
    var t := Do(s, Step.Accept(0, addr));
    assert t.entries == [Entry(1, map[addr := 0], map[addr := 0]), Entry(2, map[], map[])];
    assert t.handlers == [Handler(0, 1, addr, true)];
    var u := Do(t, Step.Accept(1, addr));
    assert u.entries == Shared(addr).entries && u.handlers == Shared(addr).handlers;
  }

  lemma SharedCopies(addr: Addr)
    ensures var t := TableOf(Shared(addr), [1, 2]);
      && !Broadcast.Disjoint(t) && Broadcast.Copies(t, 2, 0) == 2 && Broadcast.Copies(t, 2, 1) == 0
      && LiveOf(Shared(addr), 1, addr, 1) && Broadcast.Target(t, addr) == Some(0)
  {
    var t := TableOf(Shared(addr), [1, 2]);
    assert t == [map[addr := 0], map[addr := 1]];
    Broadcast.SharedAddress(addr, 0, 1);
  }

  /**
   * A run with one address under two listeners: a broadcast sends two copies to the one connection and none to the
   * other, which is live, and a reply to the other goes to the first.
   */
  lemma TwoCopies(addr: Addr)
    ensures var s := Run([BeginStart(1), Step.Register(1), BeginStart(2), Step.Register(2),
                          Step.Accept(0, addr), Step.Accept(1, addr)]);
      var t := TableOf(s, [1, 2]);
      && !Broadcast.Disjoint(t) && Broadcast.Copies(t, 2, 0) == 2 && Broadcast.Copies(t, 2, 1) == 0
      && LiveOf(s, 1, addr, 1) && Broadcast.Target(t, addr) == Some(0)
  {
    var first := [BeginStart(1), Step.Register(1), BeginStart(2), Step.Register(2)];
    RunFour([], BeginStart(1), Step.Register(1), BeginStart(2), Step.Register(2));
    assert [] + first == first;
    RunNext(first, Step.Accept(0, addr));
    RunNext(first + [Step.Accept(0, addr)], Step.Accept(1, addr));
    assert first + [Step.Accept(0, addr)] + [Step.Accept(1, addr)]
        == [BeginStart(1), Step.Register(1), BeginStart(2), Step.Register(2), Step.Accept(0, addr),
            Step.Accept(1, addr)];
    SharedStarts();
    SharedAccepts(addr);
    SharedCopies(addr);
  }
}
