/** Reading the rows of a table in the order of their ids. */
module Tables {
  /** The rows below `hi` that are kept, as a scan of the primary key meets them. */
  function Scan<R>(t: map<nat, R>, keep: R -> bool, hi: nat): seq<R> {
    if hi == 0 then []
    else Scan(t, keep, hi - 1) + if hi - 1 in t && keep(t[hi - 1]) then [t[hi - 1]] else []
  }

  /** Each row knows its id. */
  ghost predicate Keyed<R>(t: map<nat, R>, idOf: R -> nat) {
    forall id :: id in t ==> idOf(t[id]) == id
  }

  ghost predicate Increasing<R>(s: seq<R>, idOf: R -> nat) {
    forall i, j :: 0 <= i < j < |s| ==> idOf(s[i]) < idOf(s[j])
  }

  /** A scan gives rows that are kept, in strictly ascending order of id. */
  lemma {:induction false} ScanOrder<R>(t: map<nat, R>, keep: R -> bool, idOf: R -> nat, hi: nat)
    requires Keyed(t, idOf)
    ensures Increasing(Scan(t, keep, hi), idOf)
    ensures forall i :: 0 <= i < |Scan(t, keep, hi)| ==>
      var r := Scan(t, keep, hi)[i]; idOf(r) < hi && idOf(r) in t && r == t[idOf(r)] && keep(r)
  {
    if hi > 0 {
      ScanOrder(t, keep, idOf, hi - 1);
    }
  }

  /** A scan misses no row that is kept. */
  lemma {:induction false} ScanComplete<R>(t: map<nat, R>, keep: R -> bool, hi: nat, id: nat) returns (i: nat)
    requires id in t && id < hi && keep(t[id])
    ensures i < |Scan(t, keep, hi)| && Scan(t, keep, hi)[i] == t[id]
  {
    if id == hi - 1 {
      i := |Scan(t, keep, hi - 1)|;
    } else {
      i := ScanComplete(t, keep, hi - 1, id);
    }
  }

  /** Keeping only the rows above some id cuts rows off the front of the scan. */
  lemma {:induction false} ScanCut<R>(t: map<nat, R>, keep: R -> bool, above: R -> bool, idOf: R -> nat, high: int,
                                      hi: nat)
    returns (n: nat)
    requires Keyed(t, idOf) && forall id :: id in t ==> (above(t[id]) <==> keep(t[id]) && id > high)
    ensures n <= |Scan(t, keep, hi)| && Scan(t, above, hi) == Scan(t, keep, hi)[n..]
    ensures forall i :: 0 <= i < |Scan(t, keep, hi)| ==> (i < n <==> idOf(Scan(t, keep, hi)[i]) <= high)
  {
    ScanOrder(t, keep, idOf, hi);
    if hi <= high + 1 {
      n := |Scan(t, keep, hi)|;
      ScanNone(t, above, hi);
    } else if hi == 0 {
      n := 0;
    } else {
      n := ScanCut(t, keep, above, idOf, high, hi - 1);
      CutEarlier(Scan(t, keep, hi - 1), Scan(t, keep, hi)[|Scan(t, keep, hi - 1)|..], n);
    }
  }

  lemma {:induction false} ScanNone<R>(t: map<nat, R>, keep: R -> bool, hi: nat)
    requires forall id :: id in t && id < hi ==> !keep(t[id])
    ensures Scan(t, keep, hi) == []
  {
    if hi > 0 {
      ScanNone(t, keep, hi - 1);
    }
  }

  lemma CutEarlier<T>(a: seq<T>, b: seq<T>, n: nat)
    requires n <= |a|
    ensures (a + b)[n..] == a[n..] + b
  {
  }

  /** A scan of a table in which no id is missing and every row is kept. */
  lemma {:induction false} DenseScan<R>(t: map<nat, R>, keep: R -> bool, hi: nat)
    requires hi >= 1 && 0 !in t && forall id :: 1 <= id < hi ==> id in t && keep(t[id])
    ensures |Scan(t, keep, hi)| == hi - 1
    ensures forall i :: 0 <= i < hi - 1 ==> Scan(t, keep, hi)[i] == t[i + 1]
  {
    if hi > 1 {
      DenseScan(t, keep, hi - 1);
    }
  }

  lemma {:induction false} ScanSize<R>(t: map<nat, R>, keep: R -> bool, hi: nat)
    ensures |Scan(t, keep, hi)| <= hi
  {
    if hi > 0 {
      ScanSize(t, keep, hi - 1);
    }
  }

  function Prefix<T>(s: seq<T>, n: nat): (p: seq<T>)
    ensures p <= s && (|p| == n || (|p| < n && p == s))
  {
    if n < |s| then s[..n] else s
  }
}
