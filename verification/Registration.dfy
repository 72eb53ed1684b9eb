/** sctp_server.py: which connections a listener believes it has, over all interleavings of its coroutines. */
module Registration {

  type Port = nat
  type Addr = string

  /** A listener's dictionaries. A connection and the task that handles it carry the same number. */
  datatype Entry = Entry(port: Port, peers: map<Addr, nat>, peerTasks: map<Addr, nat>)

  /** The coroutine of one accepted connection; `entry` is the listener whose accept loop made it. */
  datatype Handler = Handler(entry: nat, port: Port, addr: Addr, live: bool)

  /**
   * `starting` are the calls of `start` between their check and their registration. `entries` are all listeners ever
   * made, also those that `stop` took out of `listeners`: their accept loops and handlers may still run.
   */
  datatype State = State(
    starting: multiset<Port>,
    listeners: map<Port, nat>,
    entries: seq<Entry>,
    handlers: seq<Handler>)

  const NOTHING := State(multiset{}, map[], [], [])

  /** The atomic sections between two awaits. */
  datatype Step =
    | BeginStart(port: Port)      // start: the check that nobody listens on the port yet
    | FailStart(port: Port)       // start: the socket could not be made
    | Register(port: Port)        // start: the new entry, whatever is registered by now
    | Pop(port: Port)             // stop: takes the entry out of the table
    | Accept(entry: nat, addr: Addr) // an accept loop, which holds on to its entry: both dictionaries
    | Cleanup(handler: nat)       // a handler's finally block: pops from whatever is registered under its port now
    | Vanish(handler: nat)        // a handler that stop cancelled before its first step: its finally block never runs

  ghost predicate Registered(s: State, e: nat) {
    e < |s.entries| && s.entries[e].port in s.listeners && s.listeners[s.entries[e].port] == e
  }

  ghost predicate Enabled(s: State, step: Step) {
    match step
    case BeginStart(port) => port !in s.listeners
    case FailStart(port) => port in s.starting
    case Register(port) => port in s.starting
    case Pop(port) => port in s.listeners
    case Accept(e, addr) => e < |s.entries|
    case Cleanup(h) => h < |s.handlers| && s.handlers[h].live
    case Vanish(h) => h < |s.handlers| && s.handlers[h].live && !Registered(s, s.handlers[h].entry)
  }

  function Without(e: Entry, addr: Addr): Entry {
    e.(peers := e.peers - {addr}, peerTasks := e.peerTasks - {addr})
  }

  function With(e: Entry, addr: Addr, id: nat): Entry {
    e.(peers := e.peers[addr := id], peerTasks := e.peerTasks[addr := id])
  }

  function Ended(hs: seq<Handler>, h: nat): seq<Handler>
    requires h < |hs|
  {
    hs[h := hs[h].(live := false)]
  }

  /** The pops of a finally block on the table as it is now. */
  function Popped(listeners: map<Port, nat>, entries: seq<Entry>, port: Port, addr: Addr): seq<Entry> {
    if port in listeners && listeners[port] < |entries| then
      entries[listeners[port] := Without(entries[listeners[port]], addr)]
    else
      entries
  }

  function Apply(s: State, step: Step): State
    requires Enabled(s, step)
  {
    match step
    case BeginStart(port) => s.(starting := s.starting + multiset{port})
    case FailStart(port) => s.(starting := s.starting - multiset{port})
    case Register(port) => s.(
      starting := s.starting - multiset{port},
      entries := s.entries + [Entry(port, map[], map[])],
      listeners := s.listeners[port := |s.entries|])
    case Pop(port) => s.(listeners := s.listeners - {port})
    case Accept(e, addr) => s.(
      entries := s.entries[e := With(s.entries[e], addr, |s.handlers|)],
      handlers := s.handlers + [Handler(e, s.entries[e].port, addr, true)])
    case Cleanup(h) => s.(
      entries := Popped(s.listeners, s.entries, s.handlers[h].port, s.handlers[h].addr),
      handlers := Ended(s.handlers, h))
    case Vanish(h) => s.(handlers := Ended(s.handlers, h))
  }

  /** A step that cannot be taken changes nothing. */
  ghost function Do(s: State, step: Step): State {
    if Enabled(s, step) then Apply(s, step) else s
  }

  ghost function Run(steps: seq<Step>): State {
    if steps == [] then NOTHING else Do(Run(steps[..|steps| - 1]), steps[|steps| - 1])
  }

  // ----- what every step keeps

  ghost predicate EntryOk(s: State, e: nat)
    requires e < |s.entries|
  {
    && s.entries[e].peers == s.entries[e].peerTasks
    && forall a :: a in s.entries[e].peers ==> PeerOk(s, e, a, s.entries[e].peers[a])
  }

  /** A registered connection was accepted by this listener from this address. */
  ghost predicate PeerOk(s: State, e: nat, a: Addr, h: nat) {
    h < |s.handlers| && s.handlers[h].entry == e && s.handlers[h].addr == a
  }

  ghost predicate HandlerOk(s: State, h: nat)
    requires h < |s.handlers|
  {
    s.handlers[h].entry < |s.entries| && s.entries[s.handlers[h].entry].port == s.handlers[h].port
  }

  ghost predicate Linked(s: State) {
    && (forall p :: p in s.listeners ==> s.listeners[p] < |s.entries| && s.entries[s.listeners[p]].port == p)
    && (forall e :: 0 <= e < |s.entries| ==> EntryOk(s, e))
    && (forall h :: 0 <= h < |s.handlers| ==> HandlerOk(s, h))
  }

  lemma AcceptLinks(s: State, e: nat, addr: Addr)
    requires Linked(s) && e < |s.entries|
    ensures Linked(Apply(s, Accept(e, addr)))
  {
    var t := Apply(s, Accept(e, addr));
    forall i | 0 <= i < |t.entries| ensures EntryOk(t, i) {
      assert EntryOk(s, i);
      assert forall a :: a in s.entries[i].peers ==> PeerOk(s, i, a, s.entries[i].peers[a]);
    }
    forall h | 0 <= h < |t.handlers| ensures HandlerOk(t, h) {
      assert h < |s.handlers| ==> HandlerOk(s, h);
    }
  }

  lemma CleanupLinks(s: State, h: nat)
    requires Linked(s) && Enabled(s, Cleanup(h))
    ensures Linked(Apply(s, Cleanup(h)))
  {
    var t := Apply(s, Cleanup(h));
    forall i | 0 <= i < |t.entries| ensures EntryOk(t, i) {
      assert EntryOk(s, i);
      assert forall a :: a in s.entries[i].peers ==> PeerOk(s, i, a, s.entries[i].peers[a]);
    }
    forall k | 0 <= k < |t.handlers| ensures HandlerOk(t, k) {
      assert HandlerOk(s, k);
    }
  }

  lemma OthersLink(s: State, step: Step)
    requires Linked(s) && Enabled(s, step) && !step.Accept? && !step.Cleanup?
    ensures Linked(Apply(s, step))
  {
    var t := Apply(s, step);
    forall i | 0 <= i < |t.entries| ensures EntryOk(t, i) {
      if i < |s.entries| {
        assert EntryOk(s, i);
        assert forall a :: a in s.entries[i].peers ==> PeerOk(s, i, a, s.entries[i].peers[a]);
      }
    }
    forall k | 0 <= k < |t.handlers| ensures HandlerOk(t, k) {
      assert HandlerOk(s, k);
    }
  }

  lemma StepLinks(s: State, step: Step)
    requires Linked(s)
    ensures Linked(Do(s, step))
  {
    if Enabled(s, step) {
      match step
      case Accept(e, addr) => AcceptLinks(s, e, addr);
      case Cleanup(h) => CleanupLinks(s, h);
      case _ => OthersLink(s, step);
    }
  }

  lemma {:induction false} AlwaysLinked(steps: seq<Step>)
    ensures Linked(Run(steps))
  {
    if steps != [] {
      AlwaysLinked(steps[..|steps| - 1]);
      StepLinks(Run(steps[..|steps| - 1]), steps[|steps| - 1]);
    }
  }

  /**
   * In every reachable state each listener, registered or not, has the same addresses in `peers` and `peer_tasks`, and
   * under each address the connection and the task that handles that very connection, which the listener accepted from
   * that address.
   */
  lemma PeersMatchTasks(steps: seq<Step>, e: nat)
    requires e < |Run(steps).entries|
    ensures var s := Run(steps);
      var entry := s.entries[e];
      && entry.peers.Keys == entry.peerTasks.Keys
      && forall a :: a in entry.peers ==>
           entry.peers[a] == entry.peerTasks[a] && PeerOk(s, e, a, entry.peers[a])
  {
    AlwaysLinked(steps);
    assert EntryOk(Run(steps), e);
  }

  // ----- a registered listener's peers are exactly its live connections

  ghost predicate LiveOf(s: State, e: nat, a: Addr, h: nat) {
    PeerOk(s, e, a, h) && s.handlers[h].live
  }

  ghost predicate Holds(s: State, e: nat, a: Addr, h: nat)
    requires e < |s.entries|
  {
    a in s.entries[e].peers && s.entries[e].peers[a] == h
  }

  /** Every registered listener's `peers` are exactly its connections whose handler has not reached its end. */
  ghost predicate Exact(s: State) {
    forall e: nat, a: Addr, h: nat :: Registered(s, e) ==> (Holds(s, e, a, h) <==> LiveOf(s, e, a, h))
  }

  /** What the step finds in the dictionaries it is about to change: checked before it, it decides. */
  ghost predicate Guard(s: State, step: Step) {
    match step
    case Accept(e, a) => Registered(s, e) ==> a !in s.entries[e].peers
    case Cleanup(h) =>
      h < |s.handlers| && s.handlers[h].port in s.listeners && s.listeners[s.handlers[h].port] < |s.entries| ==>
        var entry := s.entries[s.listeners[s.handlers[h].port]];
        s.handlers[h].addr in entry.peers ==> entry.peers[s.handlers[h].addr] == h
    case _ => true
  }

  lemma AcceptExact(s: State, e: nat, a: Addr)
    requires Linked(s) && Exact(s) && e < |s.entries|
    ensures Exact(Apply(s, Accept(e, a))) <==> Guard(s, Accept(e, a))
  {
    var t := Apply(s, Accept(e, a));
    if Guard(s, Accept(e, a)) {
      forall e': nat, a': Addr, h': nat | Registered(t, e') ensures Holds(t, e', a', h') <==> LiveOf(t, e', a', h') {
        assert Registered(s, e');
        assert Holds(s, e', a', h') <==> LiveOf(s, e', a', h');
        if e' == e && a' == a && h' < |s.handlers| {
          assert !Holds(s, e, a, h');
        }
        assert EntryOk(s, e');
      }
    } else {
      var h := s.entries[e].peers[a];
      assert Holds(s, e, a, h) && LiveOf(s, e, a, h);
      assert Registered(t, e) && LiveOf(t, e, a, h) && !Holds(t, e, a, h);
    }
  }

  lemma CleanupExact(s: State, h: nat)
    requires Linked(s) && Exact(s) && Enabled(s, Cleanup(h))
    ensures Exact(Apply(s, Cleanup(h))) <==> Guard(s, Cleanup(h))
  {
    var t := Apply(s, Cleanup(h));
    var me := s.handlers[h];
    assert HandlerOk(s, h);
    if Guard(s, Cleanup(h)) {
      forall e: nat, a: Addr, k: nat | Registered(t, e) ensures Holds(t, e, a, k) <==> LiveOf(t, e, a, k) {
        assert Registered(s, e);
        assert Holds(s, e, a, k) <==> LiveOf(s, e, a, k);
        if e == me.entry && a == me.addr {
          assert Holds(s, e, a, h) <==> LiveOf(s, e, a, h);
        }
      }
    } else {
      var e := s.listeners[me.port];
      var k := s.entries[e].peers[me.addr];
      assert Registered(s, e) && Holds(s, e, me.addr, k) && LiveOf(s, e, me.addr, k);
      assert Registered(t, e) && LiveOf(t, e, me.addr, k) && !Holds(t, e, me.addr, k);
    }
  }

  lemma RegisterExact(s: State, port: Port)
    requires Linked(s) && Exact(s) && Enabled(s, Register(port))
    ensures Exact(Apply(s, Register(port)))
  {
    var t := Apply(s, Register(port));
    forall e: nat, a: Addr, h: nat | Registered(t, e) ensures Holds(t, e, a, h) <==> LiveOf(t, e, a, h) {
      if e < |s.entries| {
        assert Registered(s, e);
        assert Holds(s, e, a, h) <==> LiveOf(s, e, a, h);
      } else if h < |s.handlers| {
        assert HandlerOk(s, h);
      }
    }
  }

  lemma OthersExact(s: State, step: Step)
    requires Linked(s) && Exact(s) && Enabled(s, step) && !step.Accept? && !step.Cleanup? && !step.Register?
    ensures Exact(Apply(s, step))
  {
    var t := Apply(s, step);
    forall e: nat, a: Addr, h: nat | Registered(t, e) ensures Holds(t, e, a, h) <==> LiveOf(t, e, a, h) {
      assert Registered(s, e);
      assert Holds(s, e, a, h) <==> LiveOf(s, e, a, h);
    }
  }

  /** A step keeps the registrations exact if and only if its guard holds. */
  lemma StepExact(s: State, step: Step)
    requires Linked(s) && Exact(s) && Enabled(s, step)
    ensures Exact(Do(s, step)) <==> Guard(s, step)
  {
    match step
    case Accept(e, a) => AcceptExact(s, e, a);
    case Cleanup(h) => CleanupExact(s, h);
    case Register(port) => RegisterExact(s, port);
    case _ => OthersExact(s, step);
  }

  /** The state before the i-th step. */
  ghost function Before(steps: seq<Step>, i: nat): State
    requires i <= |steps|
  {
    Run(steps[..i])
  }

  ghost predicate ExactThroughout(steps: seq<Step>) {
    forall i :: 0 <= i <= |steps| ==> Exact(Before(steps, i))
  }

  ghost predicate Guarded(steps: seq<Step>, i: nat)
    requires i < |steps|
  {
    Enabled(Before(steps, i), steps[i]) ==> Guard(Before(steps, i), steps[i])
  }

  lemma BeforeNext(steps: seq<Step>, i: nat)
    requires i < |steps|
    ensures Before(steps, i + 1) == Do(Before(steps, i), steps[i])
  {
    assert steps[..i + 1][..i] == steps[..i];
  }

  lemma GuardedStep(steps: seq<Step>, i: nat)
    requires i < |steps| && Exact(Before(steps, i))
    ensures Exact(Before(steps, i + 1)) <==> Guarded(steps, i)
  {
    BeforeNext(steps, i);
    AlwaysLinked(steps[..i]);
    if Enabled(Before(steps, i), steps[i]) {
      StepExact(Before(steps, i), steps[i]);
    }
  }

  lemma {:induction false} GuardedUpTo(steps: seq<Step>, n: nat)
    requires n <= |steps| && forall i :: 0 <= i < n ==> Guarded(steps, i)
    ensures forall i :: 0 <= i <= n ==> Exact(Before(steps, i))
  {
    if n > 0 {
      GuardedUpTo(steps, n - 1);
      GuardedStep(steps, n - 1);
    }
  }

  /** Over a whole run the registrations are exact at every point if and only if every step taken met its guard. */
  lemma ExactIffGuarded(steps: seq<Step>)
    ensures ExactThroughout(steps) <==> forall i :: 0 <= i < |steps| ==> Guarded(steps, i)
  {
    if forall i :: 0 <= i < |steps| ==> Guarded(steps, i) {
      GuardedUpTo(steps, |steps|);
    }
    if ExactThroughout(steps) {
      forall i | 0 <= i < |steps| ensures Guarded(steps, i) {
        assert Exact(Before(steps, i)) && Exact(Before(steps, i + 1));
        GuardedStep(steps, i);
      }
    }
  }

  // ----- the discipline a caller can rely on

  /** Nobody accepts from an address on a port while an earlier handler for that address and port is still running. */
  ghost predicate Polite(s: State, step: Step) {
    step.Accept? && step.entry < |s.entries| ==>
      forall h :: 0 <= h < |s.handlers| && s.handlers[h].live ==>
        s.handlers[h].port != s.entries[step.entry].port || s.handlers[h].addr != step.addr
  }

  ghost predicate Disciplined(steps: seq<Step>) {
    forall i :: 0 <= i < |steps| ==> Polite(Before(steps, i), steps[i])
  }

  ghost predicate NoTwins(s: State) {
    forall h, k :: 0 <= h < k < |s.handlers| && s.handlers[h].live && s.handlers[k].live ==>
      s.handlers[h].port != s.handlers[k].port || s.handlers[h].addr != s.handlers[k].addr
  }

  lemma PeerIsLive(s: State, e: nat, a: Addr) returns (h: nat)
    requires Linked(s) && Exact(s) && Registered(s, e) && a in s.entries[e].peers
    ensures Holds(s, e, a, h) && h < |s.handlers| && s.handlers[h].live
    ensures s.handlers[h].port == s.entries[e].port && s.handlers[h].addr == a
  {
    h := s.entries[e].peers[a];
    assert Holds(s, e, a, h) && LiveOf(s, e, a, h);
    assert HandlerOk(s, h);
  }

  lemma PoliteStep(s: State, step: Step)
    requires Linked(s) && Exact(s) && NoTwins(s) && Enabled(s, step) && Polite(s, step)
    ensures NoTwins(Do(s, step)) && Guard(s, step)
  {
    if step.Accept? && Registered(s, step.entry) && step.addr in s.entries[step.entry].peers {
      var h := PeerIsLive(s, step.entry, step.addr);
    }
    if step.Cleanup? && s.handlers[step.handler].port in s.listeners {
      var e := s.listeners[s.handlers[step.handler].port];
      if s.handlers[step.handler].addr in s.entries[e].peers {
        var k := PeerIsLive(s, e, s.handlers[step.handler].addr);
      }
    }
  }

  lemma {:induction false} DisciplineHolds(steps: seq<Step>, n: nat)
    requires n <= |steps| && Disciplined(steps)
    ensures Exact(Before(steps, n)) && NoTwins(Before(steps, n))
  {
    if n > 0 {
      DisciplineHolds(steps, n - 1);
      BeforeNext(steps, n - 1);
      AlwaysLinked(steps[..n - 1]);
      var s := Before(steps, n - 1);
      if Enabled(s, steps[n - 1]) {
        assert Polite(s, steps[n - 1]);
        PoliteStep(s, steps[n - 1]);
        StepExact(s, steps[n - 1]);
      }
    }
  }

  /**
   * If no address is accepted again on a port while an earlier handler for both is still running, then at every point
   * of the run, across stops and restarts, every registered listener's peers are exactly its live connections.
   */
  lemma DisciplinedIsExact(steps: seq<Step>)
    requires Disciplined(steps)
    ensures ExactThroughout(steps)
  {
    forall i | 0 <= i <= |steps| ensures Exact(Before(steps, i)) {
      DisciplineHolds(steps, i);
    }
  }

  /**
   * Without it the registration of a live connection is lost: stop and restart port 1 while the handler of the first
   * connection still runs; the same address connects again; the first handler's clean-up removes the second connection.
   */
  lemma StaleCleanup(addr: Addr)
    ensures var steps := [BeginStart(1), Register(1), Accept(0, addr), Pop(1), BeginStart(1), Register(1),
                          Accept(1, addr), Cleanup(0)];
      var s := Run(steps);
      Registered(s, 1) && LiveOf(s, 1, addr, 1) && s.entries[1].peers == map[]
  {
    var first := [BeginStart(1), Register(1), Accept(0, addr), Pop(1)];
    RunFour([], BeginStart(1), Register(1), Accept(0, addr), Pop(1));
    assert [] + first == first;
    StaleFirst(addr);
    RunFour(first, BeginStart(1), Register(1), Accept(1, addr), Cleanup(0));
    assert first + [BeginStart(1), Register(1), Accept(1, addr), Cleanup(0)]
        == [BeginStart(1), Register(1), Accept(0, addr), Pop(1), BeginStart(1), Register(1), Accept(1, addr),
            Cleanup(0)];
    StaleSecond(addr);
  }

  lemma RunNext(steps: seq<Step>, a: Step)
    ensures Run(steps + [a]) == Do(Run(steps), a)
  {
    assert (steps + [a])[..|steps|] == steps;
  }

  lemma RunFour(steps: seq<Step>, a: Step, b: Step, c: Step, d: Step)
    ensures Run(steps + [a, b, c, d]) == Do(Do(Do(Do(Run(steps), a), b), c), d)
  {
    RunTwo(steps, a, b);
    RunTwo(steps + [a, b], c, d);
    assert steps + [a, b, c, d] == steps + [a, b] + [c, d];
  }

  lemma RunTwo(steps: seq<Step>, a: Step, b: Step)
    ensures Run(steps + [a, b]) == Do(Do(Run(steps), a), b)
  {
    RunNext(steps, a);
    RunNext(steps + [a], b);
    assert steps + [a, b] == steps + [a] + [b];
  }

  function Stopped(addr: Addr): State {
    State(multiset{}, map[], [Entry(1, map[addr := 0], map[addr := 0])], [Handler(0, 1, addr, true)])
  }

  lemma StaleFirst(addr: Addr)
    ensures Do(Do(Do(Do(NOTHING, BeginStart(1)), Register(1)), Accept(0, addr)), Pop(1)) == Stopped(addr)
  {
    var s := Do(Do(NOTHING, BeginStart(1)), Register(1));
    assert s == State(multiset{}, map[1 := 0], [Entry(1, map[], map[])], []);
    var t := Do(s, Accept(0, addr));
    assert t.entries == [Entry(1, map[addr := 0], map[addr := 0])];
  }

  lemma StaleSecond(addr: Addr)
    ensures var s := Do(Do(Do(Do(Stopped(addr), BeginStart(1)), Register(1)), Accept(1, addr)), Cleanup(0));
      Registered(s, 1) && LiveOf(s, 1, addr, 1) && s.entries[1].peers == map[]
  {
    var s := Do(Do(Stopped(addr), BeginStart(1)), Register(1));
    assert s.starting == multiset{} && s.listeners == map[1 := 1];
    assert s.entries == Stopped(addr).entries + [Entry(1, map[], map[])];
    var t := Do(s, Accept(1, addr));
    assert t.entries[1] == Entry(1, map[addr := 1], map[addr := 1]);
  }

  // ----- what becomes of starts and of handlers

  function EntriesOn(entries: seq<Entry>, port: Port): nat {
    if entries == [] then 0
    else EntriesOn(entries[..|entries| - 1], port) + if entries[|entries| - 1].port == port then 1 else 0
  }

  lemma {:induction false} SamePorts(a: seq<Entry>, b: seq<Entry>, port: Port)
    requires |a| == |b| && forall i :: 0 <= i < |a| ==> a[i].port == b[i].port
    ensures EntriesOn(a, port) == EntriesOn(b, port)
  {
    if a != [] {
      SamePorts(a[..|a| - 1], b[..|b| - 1], port);
    }
  }

  lemma EntriesNext(a: seq<Entry>, e: Entry, port: Port)
    ensures EntriesOn(a + [e], port) == EntriesOn(a, port) + if e.port == port then 1 else 0
  {
    assert (a + [e])[..|a|] == a;
  }

  /** A start that passes its check is open until it fails or makes a listener. */
  lemma StartsStep(s: State, step: Step, port: Port)
    requires Linked(s)
    ensures Do(s, step).starting[port] + EntriesOn(Do(s, step).entries, port)
         == s.starting[port] + EntriesOn(s.entries, port)
            + (if step == BeginStart(port) && port !in s.listeners then 1 else 0)
            - (if step == FailStart(port) && s.starting[port] > 0 then 1 else 0)
  {
    if step.Register? && Enabled(s, step) {
      EntriesNext(s.entries, Entry(step.port, map[], map[]), port);
    } else {
      SamePorts(s.entries, Do(s, step).entries, port);
    }
  }

  /** How many starts on a port passed their check, less those that failed, in a run. */
  ghost function Started(steps: seq<Step>, port: Port): int {
    if steps == [] then 0
    else
      var before := Run(steps[..|steps| - 1]);
      var step := steps[|steps| - 1];
      Started(steps[..|steps| - 1], port)
      + (if step == BeginStart(port) && port !in before.listeners then 1 else 0)
      - (if step == FailStart(port) && before.starting[port] > 0 then 1 else 0)
  }

  /** In every run the listeners made on a port and the starts still open on it are the starts that did not fail. */
  lemma {:induction false} StartsBalance(steps: seq<Step>, port: Port)
    ensures Run(steps).starting[port] + EntriesOn(Run(steps).entries, port) == Started(steps, port)
  {
    if steps != [] {
      var last := |steps| - 1;
      StartsBalance(steps[..last], port);
      AlwaysLinked(steps[..last]);
      StartsStep(Run(steps[..last]), steps[last], port);
    }
  }

  /** A handler lives until its own clean-up, or until it vanishes, as only one of a stopped listener can. */
  lemma HandlerEnds(s: State, step: Step, h: nat)
    requires h < |s.handlers| && s.handlers[h].live
    ensures h < |Do(s, step).handlers|
    ensures Do(s, step).handlers[h].live <==>
      step != Cleanup(h) && (step == Vanish(h) ==> Registered(s, s.handlers[h].entry))
  {
  }
}
