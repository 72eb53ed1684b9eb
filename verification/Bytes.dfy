/** Octets and the fixed-width integer fields that `struct.pack` writes. */
module Octets {
  type Byte = b: int | 0 <= b < 256
  type Bytes = seq<Byte>

  /** Format `!H`. */
  function U16(n: nat): (b: Bytes)
    requires n < 0x1_0000
    ensures |b| == 2 && ReadU16(b) == n
  {
    [n / 256, n % 256]
  }

  function ReadU16(b: Bytes): (n: nat)
    requires |b| == 2
    ensures n < 0x1_0000
  {
    (b[0] as int) * 256 + b[1] as int
  }

  /** Format `!I`. */
  function U32(n: nat): (b: Bytes)
    requires n < 0x1_0000_0000
    ensures |b| == 4 && ReadU32(b) == n
  {
    var b := U16(n / 0x1_0000) + U16(n % 0x1_0000);
    assert b[..2] == U16(n / 0x1_0000) && b[2..] == U16(n % 0x1_0000);
    b
  }

  function ReadU32(b: Bytes): (n: nat)
    requires |b| == 4
    ensures n < 0x1_0000_0000
  {
    0x1_0000 * ReadU16(b[..2]) + ReadU16(b[2..])
  }

  /** The octets of a field in the other byte order. */
  function Reversed(b: Bytes): (r: Bytes)
    ensures |r| == |b|
    ensures forall i :: 0 <= i < |b| ==> r[i] == b[|b| - 1 - i]
  {
    if b == [] then [] else Reversed(b[1..]) + [b[0]]
  }

  lemma ReversedTwice(b: Bytes)
    ensures Reversed(Reversed(b)) == b
  {
  }

  /** Format `<I`. */
  function LE32(n: nat): (b: Bytes)
    requires n < 0x1_0000_0000
    ensures |b| == 4 && ReadLE32(b) == n
  {
    ReversedTwice(U32(n));
    Reversed(U32(n))
  }

  function ReadLE32(b: Bytes): (n: nat)
    requires |b| == 4
    ensures n < 0x1_0000_0000
  {
    ReadU32(Reversed(b))
  }

  /** Format `<H`. */
  function LE16(n: nat): (b: Bytes)
    requires n < 0x1_0000
    ensures |b| == 2 && ReadLE16(b) == n
  {
    ReversedTwice(U16(n));
    Reversed(U16(n))
  }

  function ReadLE16(b: Bytes): (n: nat)
    requires |b| == 2
    ensures n < 0x1_0000
  {
    ReadU16(Reversed(b))
  }

  /** `b"\x00" * n`. */
  function Zeros(n: nat): (b: Bytes)
    ensures |b| == n && forall i :: 0 <= i < n ==> b[i] == 0
  {
    seq(n, _ => 0)
  }
}
