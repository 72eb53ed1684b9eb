/** The Internet checksum (sections 1 and 2 of RFC 1071) as `_checksum` computes it. */
module Checksum {
  import opened Octets

  const MODULUS: nat := 0xFFFF

  /** Sum of the big-endian 16-bit words of an even-length string. */
  function WordSum(d: Bytes): nat
    requires |d| % 2 == 0
  {
    if d == [] then 0 else ReadU16(d[..2]) + WordSum(d[2..])
  }

  /** An odd trailing octet is completed with a zero octet. */
  function Padded(d: Bytes): (p: Bytes)
    ensures |p| % 2 == 0 && d <= p
  {
    if |d| % 2 == 1 then d + [0] else d
  }

  /** The one's complement sum: the residue modulo 65535, written 65535 when a non-zero sum has residue 0. */
  function OnesComplement(s: nat): (r: nat)
    ensures r <= MODULUS
    ensures r % MODULUS == s % MODULUS
    ensures r == 0 <==> s == 0
  {
    if s == 0 then 0 else if s % MODULUS == 0 then MODULUS else s % MODULUS
  }

  function InternetChecksum(d: Bytes): (c: nat)
    ensures c <= 0xFFFF
  {
    MODULUS - OnesComplement(WordSum(Padded(d)))
  }

  /** The three clauses on OnesComplement determine it. */
  lemma OnesComplementUnique(s: nat, r: nat)
    requires r <= MODULUS && r % MODULUS == s % MODULUS && (r == 0 <==> s == 0)
    ensures r == OnesComplement(s)
  {
    if r < MODULUS {
      assert r % MODULUS == r;
    }
  }

  lemma FoldKeepsResidue(s: nat)
    ensures (s % 0x1_0000 + s / 0x1_0000) % MODULUS == s % MODULUS
  {
    var lo, hi := s % 0x1_0000, s / 0x1_0000;
    assert s == lo + hi + MODULUS * hi;
    CongruentAdd(lo + hi, hi);
  }

  lemma CongruentAdd(a: int, k: int)
    ensures (a + MODULUS * k) % MODULUS == a % MODULUS
  {
  }

  /** `_checksum`: the fold loop of the source computes the one's complement sum. */
  method ComputeChecksum(data: Bytes) returns (c: nat)
    ensures c == InternetChecksum(data)
  {
    var d := data;
    if |d| % 2 != 0 {
      d := d + [0];
    }
    var s: nat := WordSum(d);
    ghost var s0 := s;
    while s / 0x1_0000 != 0
      invariant s % MODULUS == s0 % MODULUS
      invariant s == 0 <==> s0 == 0
      decreases s
    {
      FoldKeepsResidue(s);
      s := s % 0x1_0000 + s / 0x1_0000;
    }
    OnesComplementUnique(s0, s);
    c := 0xFFFF - s % 0x1_0000;
  }

  // ----- independence of order, grouping and byte order (section 2 of RFC 1071)

  /** The 16-bit words of an even-length string. */
  function Words(d: Bytes): (w: seq<nat>)
    requires |d| % 2 == 0
    ensures |w| == |d| / 2
    ensures forall i :: 0 <= i < |w| ==> w[i] == ReadU16(d[2 * i..2 * i + 2])
  {
    seq(|d| / 2, i requires 0 <= i < |d| / 2 => ReadU16(d[2 * i..2 * i + 2]))
  }

  function Total(w: seq<nat>): nat {
    if w == [] then 0 else w[0] + Total(w[1..])
  }

  lemma {:induction false} WordSumIsTotal(d: Bytes)
    requires |d| % 2 == 0
    ensures WordSum(d) == Total(Words(d))
  {
    if d != [] {
      WordSumIsTotal(d[2..]);
      forall i | 0 <= i < |d| / 2 - 1
        ensures Words(d)[1..][i] == Words(d[2..])[i]
      {
        assert d[2..][2 * i..2 * i + 2] == d[2 * (i + 1)..2 * (i + 1) + 2];
      }
      assert Words(d)[1..] == Words(d[2..]);
    }
  }

  function Without(w: seq<nat>, i: nat): seq<nat>
    requires i < |w|
  {
    w[..i] + w[i + 1..]
  }

  lemma WithoutMultiset(w: seq<nat>, i: nat)
    requires i < |w|
    ensures multiset(Without(w, i)) == multiset(w) - multiset{w[i]}
  {
    assert w == w[..i] + [w[i]] + w[i + 1..];
  }

  lemma {:induction false} TotalWithout(w: seq<nat>, i: nat)
    requires i < |w|
    ensures Total(w) == w[i] + Total(Without(w, i))
  {
    if i == 0 {
      assert Without(w, 0) == w[1..];
    } else {
      TotalWithout(w[1..], i - 1);
      assert Without(w, i)[0] == w[0] && Without(w, i)[1..] == Without(w[1..], i - 1);
    }
  }

  lemma {:induction false} TotalOfPermutation(v: seq<nat>, w: seq<nat>)
    requires multiset(v) == multiset(w)
    ensures Total(v) == Total(w)
    decreases |v|
  {
    if v == [] {
      assert |multiset(w)| == 0;
    } else {
      assert v[0] in multiset(w);
      var i :| 0 <= i < |w| && w[i] == v[0];
      WithoutMultiset(v, 0);
      WithoutMultiset(w, i);
      TotalOfPermutation(Without(v, 0), Without(w, i));
      TotalWithout(v, 0);
      TotalWithout(w, i);
    }
  }

  /** Reordering the 16-bit words of a string does not change its checksum. */
  lemma ReorderingKeepsChecksum(d: Bytes, e: Bytes)
    requires |d| % 2 == 0 && |e| % 2 == 0
    requires multiset(Words(d)) == multiset(Words(e))
    ensures InternetChecksum(d) == InternetChecksum(e)
  {
    WordSumIsTotal(d);
    WordSumIsTotal(e);
    TotalOfPermutation(Words(d), Words(e));
  }

  lemma {:induction false} WordSumSplit(a: Bytes, b: Bytes)
    requires |a| % 2 == 0 && |b| % 2 == 0
    ensures WordSum(a + b) == WordSum(a) + WordSum(b)
  {
    if a == [] {
      assert a + b == b;
    } else {
      WordSumSplit(a[2..], b);
      assert (a + b)[..2] == a[..2] && (a + b)[2..] == a[2..] + b;
    }
  }

  /** One's complement addition of two 16-bit quantities, with end-around carry. */
  function EndAroundAdd(x: nat, y: nat): nat {
    OnesComplement(x + y)
  }

  /** Split at an even offset, the partial sums combine by one's complement addition. */
  lemma SplitCombines(a: Bytes, b: Bytes)
    requires |a| % 2 == 0
    ensures MODULUS - InternetChecksum(a + b)
         == EndAroundAdd(MODULUS - InternetChecksum(a), MODULUS - InternetChecksum(b))
  {
    assert Padded(a + b) == a + Padded(b);
    WordSumSplit(a, Padded(b));
    SumOfResidues(WordSum(a), WordSum(Padded(b)));
  }

  lemma SumOfResidues(s: nat, t: nat)
    ensures OnesComplement(s + t) == EndAroundAdd(OnesComplement(s), OnesComplement(t))
  {
    SumCongruent(s, OnesComplement(s), t, OnesComplement(t));
    OnesComplementUnique(OnesComplement(s) + OnesComplement(t), OnesComplement(s + t));
  }

  lemma SumCongruent(s: nat, s': nat, t: nat, t': nat)
    requires s % MODULUS == s' % MODULUS && t % MODULUS == t' % MODULUS
    ensures (s + t) % MODULUS == (s' + t') % MODULUS
  {
    var k := s / MODULUS - s' / MODULUS + t / MODULUS - t' / MODULUS;
    assert s + t == s' + t' + MODULUS * k;
    CongruentAdd(s' + t', k);
  }

  /** A 16-bit quantity with its two octets exchanged. */
  function SwapWord(w: nat): (r: nat)
    requires w < 0x1_0000
    ensures r < 0x1_0000
  {
    w % 256 * 256 + w / 256
  }

  /** Every 16-bit word with its two octets exchanged. */
  function SwapBytes(d: Bytes): (r: Bytes)
    requires |d| % 2 == 0
    ensures |r| == |d|
    ensures forall i :: 0 <= i < |d| / 2 ==> r[2 * i] == d[2 * i + 1] && r[2 * i + 1] == d[2 * i]
  {
    seq(|d|, i requires 0 <= i < |d| => if i % 2 == 0 then d[i + 1] else d[i - 1])
  }

  lemma SwapWordIsTimes256(w: nat)
    requires w < 0x1_0000
    ensures SwapWord(w) % MODULUS == (256 * w) % MODULUS
    ensures SwapWord(w) == 0 <==> w == 0
  {
    assert 256 * w == SwapWord(w) + MODULUS * (w / 256);
    CongruentAdd(SwapWord(w), w / 256);
  }

  lemma {:induction false} SwappedSum(d: Bytes)
    requires |d| % 2 == 0
    ensures WordSum(SwapBytes(d)) % MODULUS == (256 * WordSum(d)) % MODULUS
    ensures WordSum(SwapBytes(d)) == 0 <==> WordSum(d) == 0
  {
    if d != [] {
      SwappedSum(d[2..]);
      var e := SwapBytes(d);
      var w := ReadU16(d[..2]);
      assert e[0] == d[1] && e[1] == d[0] by { assert e[2 * 0] == d[2 * 0 + 1]; }
      assert e[2..] == SwapBytes(d[2..]);
      assert ReadU16(e[..2]) == SwapWord(w);
      SwapWordIsTimes256(w);
      SumCongruent(SwapWord(w), 256 * w, WordSum(e[2..]), 256 * WordSum(d[2..]));
    }
  }

  lemma Times256Congruent(s: nat, r: nat)
    requires s % MODULUS == r % MODULUS
    ensures (256 * s) % MODULUS == (256 * r) % MODULUS
  {
    var k := s / MODULUS - r / MODULUS;
    assert 256 * s == 256 * r + MODULUS * (256 * k);
    CongruentAdd(256 * r, 256 * k);
  }

  lemma SwapOfComplement(r: nat)
    requires r <= MODULUS
    ensures MODULUS - SwapWord(r) == SwapWord(MODULUS - r)
  {
    var hi, lo := r / 256, r % 256;
    assert MODULUS - r == (255 - hi) * 256 + (255 - lo);
    assert (MODULUS - r) / 256 == 255 - hi && (MODULUS - r) % 256 == 255 - lo;
  }

  /** Summing in the other byte order gives the checksum in the other byte order. */
  lemma ByteOrderIndependence(d: Bytes)
    requires |d| % 2 == 0
    ensures InternetChecksum(SwapBytes(d)) == SwapWord(InternetChecksum(d))
  {
    var s := WordSum(d);
    var r := OnesComplement(s);
    SwappedSum(d);
    SwapWordIsTimes256(r);
    Times256Congruent(s, r);
    OnesComplementUnique(WordSum(SwapBytes(d)), SwapWord(r));
    SwapOfComplement(r);
  }

  // ----- writing and verifying a header checksum (section 1 of RFC 1071)

  /** `h` with the two octets at `i` replaced by the field `w`, as line 113 of export.py does. */
  function WithWord(h: Bytes, i: nat, w: nat): (r: Bytes)
    requires i + 2 <= |h| && w < 0x1_0000
    ensures |r| == |h|
  {
    h[..i] + U16(w) + h[i + 2..]
  }

  lemma WordSumWithWord(h: Bytes, i: nat, w: nat)
    requires |h| % 2 == 0 && i % 2 == 0 && i + 2 <= |h| && w < 0x1_0000
    ensures WordSum(WithWord(h, i, w)) == WordSum(h[..i]) + w + WordSum(h[i + 2..])
  {
    var r := WithWord(h, i, w);
    assert r == h[..i] + (U16(w) + h[i + 2..]);
    WordSumSplit(h[..i], U16(w) + h[i + 2..]);
    WordSumSplit(U16(w), h[i + 2..]);
    assert U16(w)[..2] == U16(w) && U16(w)[2..] == [];
  }

  /**
   * A header whose checksum word is zero verifies after exactly one word is written there:
   * its checksum, which has a second form 0xFFFF when it is zero.
   */
  lemma ChecksumVerifies(h: Bytes, i: nat, w: nat)
    requires |h| % 2 == 0 && i % 2 == 0 && i + 2 <= |h| && w < 0x1_0000
    requires h[i] == 0 && h[i + 1] == 0
    ensures InternetChecksum(WithWord(h, i, w)) == 0
       <==> w == InternetChecksum(h) || (InternetChecksum(h) == 0 && w == 0xFFFF)
  {
    assert h == WithWord(h, i, 0);
    WordSumWithWord(h, i, 0);
    WordSumWithWord(h, i, w);
    var s := WordSum(h);
    var c := InternetChecksum(h);
    assert WordSum(WithWord(h, i, w)) == s + w;
    assert (s + c) % MODULUS == 0 by {
      SumCongruent(s, OnesComplement(s), c, c);
    }
    if (s + w) % MODULUS == 0 {
      var k := (s + w) / MODULUS - (s + c) / MODULUS;
      assert w - c == MODULUS * k;
      assert -1 <= k <= 1;
    }
    if w == 0xFFFF && c == 0 {
      CongruentAdd(s, 1);
    }
  }
}
