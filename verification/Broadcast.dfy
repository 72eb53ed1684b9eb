/** main.py, sctp_server.py: who gets how many copies when bytes are sent to all peers of all listeners. */
module Broadcast {
  import opened Wrappers

  /** The `peers` of the listeners in the order of the dictionary that holds them; an address leads to a connection. */
  type Table = seq<map<string, nat>>

  /** The first listener that holds the address, or the number of listeners. */
  function First(t: Table, a: string): (i: nat)
    ensures i <= |t| && (i < |t| ==> a in t[i]) && forall j :: 0 <= j < i ==> a !in t[j]
  {
    if t == [] || a in t[0] then 0 else First(t[1..], a) + 1
  }

  /** The connection that bytes for this address are sent to. */
  function Target(t: Table, a: string): Option<nat> {
    if First(t, a) < |t| then Some(t[First(t, a)][a]) else None
  }

  /** How many listeners hold the address. */
  function Holders(t: Table, a: string): nat {
    if t == [] then 0 else Holders(t[..|t| - 1], a) + if a in t[|t| - 1] then 1 else 0
  }

  /** One of these addresses leads to this connection. */
  ghost predicate Reached(t: Table, addrs: set<string>, c: nat) {
    exists a :: a in addrs && Target(t, a) == Some(c)
  }

  /** How many of the first n listeners have an address that leads to this connection. */
  ghost function Copies(t: Table, n: nat, c: nat): nat
    requires n <= |t|
  {
    if n == 0 then 0 else Copies(t, n - 1, c) + if Reached(t, t[n - 1].Keys, c) then 1 else 0
  }

  /** The connections registered with the first n listeners. */
  function Registrations(t: Table, n: nat): nat
    requires n <= |t|
  {
    if n == 0 then 0 else Registrations(t, n - 1) + |t[n - 1]|
  }

  /** The connection under this address of this listener is registered nowhere else. */
  ghost predicate Once(t: Table, i: nat, a: string)
    requires i < |t| && a in t[i]
  {
    forall j, b :: 0 <= j < |t| && b in t[j] && t[j][b] == t[i][a] ==> j == i && b == a
  }

  /** Every connection is registered once. */
  ghost predicate Distinct(t: Table) {
    forall i: nat, a: string {:trigger Once(t, i, a)} :: i < |t| && a in t[i] ==> Once(t, i, a)
  }

  lemma SameTarget(t: Table, a: string, b: string)
    requires Distinct(t) && Target(t, a).Some? && Target(t, a) == Target(t, b)
    ensures a == b
  {
    assert Once(t, First(t, a), a);
  }

  lemma ReachedBy(t: Table, i: nat, a: string, addrs: set<string>)
    requires Distinct(t) && i < |t| && a in t[i]
    ensures Reached(t, addrs, t[i][a]) <==> a in addrs && First(t, a) == i
  {
    var c := t[i][a];
    if a in addrs && First(t, a) == i {
      assert Target(t, a) == Some(c);
    }
    if Reached(t, addrs, c) {
      assert Once(t, i, a);
      var b :| b in addrs && Target(t, b) == Some(c);
      assert t[First(t, b)][b] == t[i][a];
    }
  }

  lemma {:induction false} CopiesOf(t: Table, n: nat, i: nat, a: string)
    requires Distinct(t) && n <= |t| && i < |t| && a in t[i]
    ensures Copies(t, n, t[i][a]) == if First(t, a) == i then Holders(t[..n], a) else 0
  {
    if n > 0 {
      CopiesOf(t, n - 1, i, a);
      ReachedBy(t, i, a, t[n - 1].Keys);
      assert t[..n][..n - 1] == t[..n - 1];
    }
  }

  /**
   * A connection gets one copy for every listener that holds its address if its own listener is the first of them, and
   * none otherwise.
   */
  lemma CopiesPerConnection(t: Table, i: nat, a: string)
    requires Distinct(t) && i < |t| && a in t[i]
    ensures Copies(t, |t|, t[i][a]) == if forall j :: 0 <= j < i ==> a !in t[j] then Holders(t, a) else 0
  {
    CopiesOf(t, |t|, i, a);
    assert t[..|t|] == t;
  }

  lemma {:induction false} HoldersCount(t: Table, n: nat, i: nat, a: string)
    requires i < n <= |t| && a in t[i]
    ensures Holders(t[..n], a) >= 1
    ensures Holders(t[..n], a) == 1 <==> forall j :: 0 <= j < n && j != i ==> a !in t[j]
  {
    assert t[..n][..n - 1] == t[..n - 1];
    if i < n - 1 {
      HoldersCount(t, n - 1, i, a);
    } else {
      NoHolders(t, n - 1, a);
    }
  }

  lemma {:induction false} NoHolders(t: Table, n: nat, a: string)
    requires n <= |t|
    ensures Holders(t[..n], a) == 0 <==> forall j :: 0 <= j < n ==> a !in t[j]
  {
    if n > 0 {
      assert t[..n][..n - 1] == t[..n - 1];
      NoHolders(t, n - 1, a);
    }
  }

  ghost predicate Disjoint(t: Table) {
    forall i, j, a :: 0 <= i < j < |t| && a in t[i] ==> a !in t[j]
  }

  lemma OneCopy(t: Table, i: nat, a: string)
    requires Distinct(t) && i < |t| && a in t[i]
    ensures Copies(t, |t|, t[i][a]) == 1 <==> forall j :: 0 <= j < |t| && j != i ==> a !in t[j]
  {
    CopiesPerConnection(t, i, a);
    HoldersCount(t, |t|, i, a);
    assert t[..|t|] == t;
  }

  /** Every connection gets exactly one copy if and only if no address is registered with two listeners. */
  lemma OneCopyEach(t: Table)
    requires Distinct(t)
    ensures (forall i, a :: 0 <= i < |t| && a in t[i] ==> Copies(t, |t|, t[i][a]) == 1) <==> Disjoint(t)
  {
    forall i, a | 0 <= i < |t| && a in t[i]
      ensures Copies(t, |t|, t[i][a]) == 1 <==> forall j :: 0 <= j < |t| && j != i ==> a !in t[j]
    {
      OneCopy(t, i, a);
    }
  }

  lemma ReachedByOne(t: Table, a: string, c: nat)
    ensures Reached(t, {a}, c) <==> Target(t, a) == Some(c)
  {
    if Target(t, a) == Some(c) {
      assert a in {a};
    }
  }

  lemma CopiesOfTwo(t: Table, c: nat)
    requires |t| == 2
    ensures Copies(t, 2, c)
         == (if Reached(t, t[0].Keys, c) then 1 else 0) + (if Reached(t, t[1].Keys, c) then 1 else 0)
  {
    assert Copies(t, 0, c) == 0;
    assert Copies(t, 1, c) == if Reached(t, t[0].Keys, c) then 1 else 0;
  }

  /** Two listeners with the same single address: both sends go to the connection of the first. */
  lemma SharedAddress(a: string, x: nat, y: nat)
    requires x != y
    ensures var t := [map[a := x], map[a := y]];
      && !Disjoint(t) && Copies(t, 2, x) == 2 && Copies(t, 2, y) == 0 && Target(t, a) == Some(x)
  {
    var t := [map[a := x], map[a := y]];
    assert a in t[0] && a in t[1];
    assert t[0].Keys == {a} && t[1].Keys == {a};
    assert First(t, a) == 0;
    ReachedByOne(t, a, x);
    ReachedByOne(t, a, y);
    CopiesOfTwo(t, x);
    CopiesOfTwo(t, y);
  }

  // ----- for the loop

  /** `sent` is `before` and one send for each connection that one of these addresses leads to. */
  ghost predicate SentTo(t: Table, before: seq<nat>, addrs: set<string>, sent: seq<nat>) {
    forall c :: multiset(sent)[c] == multiset(before)[c] + (if Reached(t, addrs, c) then 1 else 0)
  }

  /** `sent` is what the first n listeners make. */
  ghost predicate SentUpTo(t: Table, n: nat, sent: seq<nat>)
    requires n <= |t|
  {
    forall c :: multiset(sent)[c] == Copies(t, n, c)
  }

  lemma NextAddress(t: Table, addrs: set<string>, a: string, c: nat)
    requires Distinct(t) && a !in addrs && Target(t, a).Some?
    ensures Reached(t, addrs + {a}, c) <==> Reached(t, addrs, c) || Target(t, a) == Some(c)
    ensures !(Reached(t, addrs, c) && Target(t, a) == Some(c))
  {
    if Reached(t, addrs, c) {
      var b :| b in addrs && Target(t, b) == Some(c);
      assert b in addrs + {a};
      if Target(t, a) == Some(c) {
        SameTarget(t, a, b);
      }
    }
    if Target(t, a) == Some(c) {
      assert a in addrs + {a};
    }
  }

  lemma SendNext(t: Table, before: seq<nat>, addrs: set<string>, sent: seq<nat>, a: string)
    requires Distinct(t) && a !in addrs && Target(t, a).Some? && SentTo(t, before, addrs, sent)
    ensures SentTo(t, before, addrs + {a}, sent + [Target(t, a).value])
  {
    var id := Target(t, a).value;
    forall c ensures multiset(sent + [id])[c] == multiset(before)[c] + (if Reached(t, addrs + {a}, c) then 1 else 0) {
      NextAddress(t, addrs, a, c);
      assert multiset(sent + [id])[c] == multiset(sent)[c] + (if c == id then 1 else 0);
    }
  }

  lemma ListenerDone(t: Table, n: nat, before: seq<nat>, sent: seq<nat>)
    requires n < |t| && SentUpTo(t, n, before) && SentTo(t, before, t[n].Keys, sent)
    ensures SentUpTo(t, n + 1, sent)
  {
  }

  /** `send_to_peer`: the first listener that holds the address; None when it returns without sending. */
  method SendToPeer(t: Table, addr: string) returns (connection: Option<nat>)
    ensures connection == Target(t, addr)
    ensures connection == None <==> forall i :: 0 <= i < |t| ==> addr !in t[i]
  {
    for i := 0 to |t|
      invariant forall j :: 0 <= j < i ==> addr !in t[j]
    {
      if addr in t[i] {
        assert First(t, addr) == i;
        return Some(t[i][addr]);
      }
    }
    assert First(t, addr) == |t|;
    connection := None;
  }

  /** Sending to one of these addresses raises. */
  ghost predicate Refused(t: Table, addrs: set<string>, refuses: set<nat>) {
    exists a :: a in addrs && Target(t, a).Some? && Target(t, a).value in refuses
  }

  /** Sending to some address of the first n listeners raises. */
  ghost predicate SomeRefused(t: Table, n: nat, refuses: set<nat>)
    requires n <= |t|
  {
    exists i :: 0 <= i < n && Refused(t, t[i].Keys, refuses)
  }

  /** No more than the broadcast would send, and nothing to a connection whose send raises. */
  ghost predicate CutShort(t: Table, n: nat, refuses: set<nat>, sent: seq<nat>)
    requires n <= |t|
  {
    forall c :: multiset(sent)[c] <= Copies(t, n, c) && (c in refuses ==> c !in sent)
  }

  lemma {:induction false} CopiesGrow(t: Table, m: nat, n: nat, c: nat)
    requires m <= n <= |t|
    ensures Copies(t, m, c) <= Copies(t, n, c)
    decreases n
  {
    if m < n {
      CopiesGrow(t, m, n - 1, c);
    }
  }

  lemma CutShortOf(t: Table, i: nat, done: set<string>, refuses: set<nat>, before: seq<nat>, sent: seq<nat>)
    requires i < |t| && SentUpTo(t, i, before) && done <= t[i].Keys && SentTo(t, before, done, sent)
    requires forall c :: c in sent ==> c !in refuses
    ensures CutShort(t, |t|, refuses, sent)
  {
    forall c ensures multiset(sent)[c] <= Copies(t, |t|, c) {
      CopiesGrow(t, i + 1, |t|, c);
      if Reached(t, done, c) {
        assert Reached(t, t[i].Keys, c);
      }
    }
  }

  /** The inner loop of `send_bytes`, over the addresses of one listener; `left` is not empty if a send raised. */
  method SendToEach(t: Table, addrs: set<string>, refuses: set<nat>, before: seq<nat>)
    returns (sent: seq<nat>, left: set<string>)
    requires Distinct(t) && forall a :: a in addrs ==> Target(t, a).Some?
    requires forall c :: c in before ==> c !in refuses
    ensures left <= addrs && SentTo(t, before, addrs - left, sent) && |sent| + |left| == |before| + |addrs|
    ensures forall c :: c in sent ==> c !in refuses
    ensures left != {} <==> Refused(t, addrs, refuses)
  {
    sent, left := before, addrs;
    assert addrs - left == {};
    while left != {}
      invariant left <= addrs && |sent| + |left| == |before| + |addrs| && SentTo(t, before, addrs - left, sent)
      invariant forall c :: c in sent ==> c !in refuses
      invariant forall a :: a in addrs - left ==> Target(t, a).value !in refuses
      decreases |left|
    {
      var addr :| addr in left;
      var connection := SendToPeer(t, addr);
      if connection.value in refuses {
        return;
      }
      SendNext(t, before, addrs - left, sent, addr);
      assert addrs - left + {addr} == addrs - (left - {addr});
      sent := sent + [connection.value];
      left := left - {addr};
    }
    assert addrs - left == addrs;
  }

  /** The inner loop for the next listener, with the account of all listeners so far. */
  method SendToNext(t: Table, i: nat, refuses: set<nat>, before: seq<nat>) returns (sent: seq<nat>, raised: bool)
    requires Distinct(t) && i < |t| && SentUpTo(t, i, before) && |before| == Registrations(t, i)
    requires forall c :: c in before ==> c !in refuses
    ensures raised <==> Refused(t, t[i].Keys, refuses)
    ensures forall c :: c in sent ==> c !in refuses
    ensures !raised ==> |sent| == Registrations(t, i + 1) && SentUpTo(t, i + 1, sent)
    ensures raised ==> CutShort(t, |t|, refuses, sent)
  {
    var left;
    sent, left := SendToEach(t, t[i].Keys, refuses, before);
    raised := left != {};
    if raised {
      CutShortOf(t, i, t[i].Keys - left, refuses, before, sent);
    } else {
      assert t[i].Keys - left == t[i].Keys;
      ListenerDone(t, i, before, sent);
    }
  }

  /**
   * The loops of `send_bytes`, while the table stays as it is and the sends to `refuses` raise: one send for each
   * registered address, or the exception of the first send that raises.
   */
  method SendToAll(t: Table, refuses: set<nat>) returns (sent: seq<nat>, raised: bool)
    requires Distinct(t)
    ensures raised <==> SomeRefused(t, |t|, refuses)
    ensures !raised ==> |sent| == Registrations(t, |t|) && SentUpTo(t, |t|, sent)
    ensures raised ==> CutShort(t, |t|, refuses, sent)
  {
    sent, raised := [], false;
    for i := 0 to |t|
      invariant !raised && |sent| == Registrations(t, i) && SentUpTo(t, i, sent) && !SomeRefused(t, i, refuses)
      invariant forall c :: c in sent ==> c !in refuses
    {
      sent, raised := SendToNext(t, i, refuses, sent);
      if raised {
        return;
      }
    }
  }
}
