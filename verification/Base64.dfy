/** Base 64 (section 4 of RFC 4648): `base64.b64encode` and the lenient `base64.b64decode`. */
module Base64 {
  import opened Wrappers
  import opened Octets

  type Sextet = n: int | 0 <= n < 64

  function Symbol(n: Sextet): char {
    if n < 26 then ('A' as int + n) as char
    else if n < 52 then ('a' as int + n - 26) as char
    else if n < 62 then ('0' as int + n - 52) as char
    else if n == 62 then '+'
    else '/'
  }

  function Value(c: char): Option<Sextet> {
    if 'A' <= c <= 'Z' then Some(c as int - 'A' as int)
    else if 'a' <= c <= 'z' then Some(c as int - 'a' as int + 26)
    else if '0' <= c <= '9' then Some(c as int - '0' as int + 52)
    else if c == '+' then Some(62)
    else if c == '/' then Some(63)
    else None
  }

  lemma SymbolValue(n: Sextet)
    ensures Value(Symbol(n)) == Some(n) && Symbol(n) != '=' && Symbol(n) < 128 as char
  {
  }

  // ----- octets and groups of six bits

  /** 24-bit groups cut into four; a final group of one or two octets gives two or three. */
  function Split(raw: Bytes): (x: seq<Sextet>)
    ensures |x| == (4 * |raw| + 2) / 3
  {
    if |raw| == 0 then []
    else if |raw| == 1 then [raw[0] / 4, raw[0] % 4 * 16]
    else if |raw| == 2 then [raw[0] / 4, raw[0] % 4 * 16 + raw[1] / 16, raw[1] % 16 * 4]
    else
      [raw[0] / 4, raw[0] % 4 * 16 + raw[1] / 16, raw[1] % 16 * 4 + raw[2] / 64, raw[2] % 64] + Split(raw[3..])
  }

  function First(a: int, b: int): Byte
    requires 0 <= a < 64 && 0 <= b < 64
  {
    a * 4 + b / 16
  }

  function Second(b: int, c: int): Byte
    requires 0 <= b < 64 && 0 <= c < 64
  {
    b % 16 * 16 + c / 4
  }

  function Third(c: int, d: int): Byte
    requires 0 <= c < 64 && 0 <= d < 64
  {
    c % 4 * 64 + d
  }

  function Join(x: seq<Sextet>): Bytes {
    if |x| < 2 then []
    else if |x| == 2 then [First(x[0], x[1])]
    else if |x| == 3 then [First(x[0], x[1]), Second(x[1], x[2])]
    else [First(x[0], x[1]), Second(x[1], x[2]), Third(x[2], x[3])] + Join(x[4..])
  }

  lemma Regrouped(a: Byte, b: Byte, c: Byte)
    ensures First(a / 4, a % 4 * 16 + b / 16) == a
    ensures Second(a % 4 * 16 + b / 16, b % 16 * 4 + c / 64) == b
    ensures Third(b % 16 * 4 + c / 64, c % 64) == c
  {
  }

  lemma {:induction false} JoinUndoesSplit(raw: Bytes)
    ensures Join(Split(raw)) == raw
  {
    if |raw| == 1 {
      Regrouped(raw[0], 0, 0);
    } else if |raw| == 2 {
      Regrouped(raw[0], raw[1], 0);
    } else if |raw| >= 3 {
      Regrouped(raw[0], raw[1], raw[2]);
      JoinUndoesSplit(raw[3..]);
      assert Split(raw)[4..] == Split(raw[3..]);
    }
  }

  // ----- groups of six bits and text

  function Symbols(x: seq<Sextet>): (s: string)
    ensures |s| == |x|
  {
    if x == [] then "" else [Symbol(x[0])] + Symbols(x[1..])
  }

  function Padding(n: nat): string {
    if n % 4 == 2 then "==" else if n % 4 == 3 then "=" else ""
  }

  /** `base64.b64encode`. */
  function Encode(raw: Bytes): (s: string)
    ensures s == "" <==> raw == []
  {
    Symbols(Split(raw)) + Padding(|Split(raw)|)
  }

  /**
   * One pass over the text with `q` symbols already in the current group of four:
   * characters outside the alphabet are skipped, enough `=` signs end the data,
   * and text that ends inside a group is an error.
   */
  function Collect(s: string, q: nat, pads: nat): Option<seq<Sextet>>
    requires q < 4
    decreases |s|
  {
    if s == [] then
      if q == 0 then Some([]) else None
    else if s[0] == '=' then
      if q >= 2 && q + pads + 1 >= 4 then Some([])
      else Collect(s[1..], q, if q >= 2 then pads + 1 else pads)
    else
      match Value(s[0])
      case None => Collect(s[1..], q, pads)
      case Some(n) =>
        match Collect(s[1..], (q + 1) % 4, 0)
        case None => None
        case Some(x) => Some([n] + x)
  }

  /** `base64.b64decode` of a str; None is the exception that the export loop skips. */
  function Decode(s: string): Option<Bytes> {
    if exists i :: 0 <= i < |s| && s[i] >= 128 as char then None
    else
      match Collect(s, 0, 0)
      case None => None
      case Some(x) => Some(Join(x))
  }

  lemma CollectPadding(q: nat)
    requires q < 4 && q != 1
    ensures Collect(Padding(q), q, 0) == Some([])
  {
    if q == 2 {
      assert "=="[1..] == "=";
      assert Collect("=", 2, 1) == Some([]);
    }
  }

  lemma {:induction false} CollectSymbols(x: seq<Sextet>, q: nat)
    requires q < 4 && (q + |x|) % 4 != 1
    ensures Collect(Symbols(x) + Padding(q + |x|), q, 0) == Some(x)
  {
    var s := Symbols(x) + Padding(q + |x|);
    if x == [] {
      assert s == Padding(q);
      CollectPadding(q);
    } else {
      SymbolValue(x[0]);
      var q' := (q + 1) % 4;
      CollectSymbols(x[1..], q');
      assert Padding(q + |x|) == Padding(q' + |x[1..]|) by {
        assert (q + |x|) % 4 == (q' + |x[1..]|) % 4;
      }
      assert s[0] == Symbol(x[0]) && [x[0]] + x[1..] == x;
      assert s[1..] == Symbols(x[1..]) + Padding(q' + |x[1..]|);
    }
  }

  lemma {:induction false} SymbolsAreAscii(x: seq<Sextet>)
    ensures forall i :: 0 <= i < |x| ==> Symbols(x)[i] < 128 as char
  {
    if x != [] {
      SymbolValue(x[0]);
      SymbolsAreAscii(x[1..]);
    }
  }

  lemma DecodeUndoesEncode(raw: Bytes)
    ensures Decode(Encode(raw)) == Some(raw)
  {
    SymbolsAreAscii(Split(raw));
    assert |Split(raw)| % 4 != 1;
    CollectSymbols(Split(raw), 0);
    JoinUndoesSplit(raw);
  }

  // ----- the text form

  lemma SplitGroup(a: Byte, b: Byte, c: Byte, rest: Bytes)
    ensures Split([a, b, c] + rest) == Split([a, b, c]) + Split(rest) && |Split([a, b, c])| == 4
  {
    var raw := [a, b, c] + rest;
    assert raw[0] == a && raw[1] == b && raw[2] == c && raw[3..] == rest && [a, b, c][3..] == [];
  }

  lemma PaddingGroup(x: seq<Sextet>, y: seq<Sextet>)
    requires |x| == 4
    ensures Padding(|x + y|) == Padding(|y|) && Padding(|x|) == ""
  {
  }

  /** Three octets are encoded by themselves. */
  lemma EncodeGroup(a: Byte, b: Byte, c: Byte, rest: Bytes)
    ensures Encode([a, b, c] + rest) == Encode([a, b, c]) + Encode(rest)
  {
    var x, y := Split([a, b, c]), Split(rest);
    SplitGroup(a, b, c, rest);
    SymbolsConcat(x, y);
    PaddingGroup(x, y);
    assert Symbols(x) + Symbols(y) + Padding(|y|) == Symbols(x) + "" + (Symbols(y) + Padding(|y|));
  }

  lemma {:induction false} SymbolsConcat(x: seq<Sextet>, y: seq<Sextet>)
    ensures Symbols(x + y) == Symbols(x) + Symbols(y)
  {
    if x == [] {
      assert x + y == y;
    } else {
      SymbolsConcat(x[1..], y);
      assert (x + y)[1..] == x[1..] + y;
    }
  }

  lemma Symbols2(a: Sextet, b: Sextet)
    ensures Symbols([a, b]) == [Symbol(a), Symbol(b)]
  {
    assert [a, b][1..] == [b] && [b][1..] == [];
  }

  lemma Symbols3(a: Sextet, b: Sextet, c: Sextet)
    ensures Symbols([a, b, c]) == [Symbol(a), Symbol(b), Symbol(c)]
  {
    assert [a, b, c][1..] == [b, c];
    Symbols2(b, c);
  }

  lemma Symbols4(a: Sextet, b: Sextet, c: Sextet, d: Sextet)
    ensures Symbols([a, b, c, d]) == [Symbol(a), Symbol(b), Symbol(c), Symbol(d)]
  {
    assert [a, b, c, d][1..] == [b, c, d];
    Symbols3(b, c, d);
  }

  /** The first three test vectors of section 10 of RFC 4648. */
  lemma TestVectors()
    ensures Encode([102]) == "Zg==" && Encode([102, 111]) == "Zm8=" && Encode([102, 111, 111]) == "Zm9v"
  {
    Symbols2(25, 32);
    Symbols3(25, 38, 60);
    Symbols4(25, 38, 61, 47);
    assert [102, 111, 111][3..] == [];
    assert Split([102, 111, 111]) == [25, 38, 61, 47];
  }

  /** The second halves of the others. */
  lemma MoreVectors()
    ensures Encode([98]) == "Yg==" && Encode([98, 97]) == "YmE=" && Encode([98, 97, 114]) == "YmFy"
  {
    Symbols2(24, 32);
    Symbols3(24, 38, 4);
    Symbols4(24, 38, 5, 50);
    assert [98, 97, 114][3..] == [];
    assert Split([98, 97, 114]) == [24, 38, 5, 50];
  }

  lemma EncodedLength(raw: Bytes)
    ensures |Encode(raw)| == (|raw| + 2) / 3 * 4
  {
    LengthArithmetic(|raw|);
  }

  lemma LengthArithmetic(n: nat)
    ensures var x := (4 * n + 2) / 3;
      x + (if x % 4 == 2 then 2 else if x % 4 == 3 then 1 else 0) == (n + 2) / 3 * 4
  {
    assert n == 3 * (n / 3) + n % 3;
  }

  /** The symbols of the groups of six bits, and then nothing but `=`. */
  lemma EncodedForm(raw: Bytes)
    ensures |Split(raw)| <= |Encode(raw)|
    ensures forall i :: 0 <= i < |Split(raw)| ==> Value(Encode(raw)[i]) == Some(Split(raw)[i])
    ensures forall i :: |Split(raw)| <= i < |Encode(raw)| ==> Encode(raw)[i] == '='
  {
    var x := Split(raw);
    SymbolsHaveValues(x);
    TextOf(Symbols(x), Padding(|x|), x);
  }

  lemma TextOf(s: string, padding: string, x: seq<Sextet>)
    requires |s| == |x| && forall i :: 0 <= i < |x| ==> Value(s[i]) == Some(x[i])
    requires forall i :: 0 <= i < |padding| ==> padding[i] == '='
    ensures forall i :: 0 <= i < |x| ==> Value((s + padding)[i]) == Some(x[i])
    ensures forall i :: |x| <= i < |s + padding| ==> (s + padding)[i] == '='
  {
  }

  lemma {:induction false} SymbolsHaveValues(x: seq<Sextet>)
    ensures forall i :: 0 <= i < |x| ==> Value(Symbols(x)[i]) == Some(x[i])
  {
    if x != [] {
      SymbolValue(x[0]);
      SymbolsHaveValues(x[1..]);
    }
  }

  predicate Foreign(c: char) {
    Value(c) == None && c != '='
  }

  lemma {:induction false} CollectSkips(a: string, c: char, b: string, q: nat, pads: nat)
    requires q < 4 && Foreign(c)
    ensures Collect(a + [c] + b, q, pads) == Collect(a + b, q, pads)
    decreases |a|
  {
    var s, t := a + [c] + b, a + b;
    if a == "" {
      assert s[1..] == b && t == b;
    } else {
      assert s[0] == a[0] && s[1..] == a[1..] + [c] + b;
      assert t[0] == a[0] && t[1..] == a[1..] + b;
      if a[0] == '=' {
        CollectSkips(a[1..], c, b, q, if q >= 2 then pads + 1 else pads);
      } else if Value(a[0]).None? {
        CollectSkips(a[1..], c, b, q, pads);
      } else {
        CollectSkips(a[1..], c, b, (q + 1) % 4, 0);
      }
    }
  }

  /** A character outside the alphabet changes nothing anywhere in the text; one outside ASCII makes decoding fail. */
  lemma DecodeSkips(a: string, c: char, b: string)
    requires Foreign(c)
    ensures c < 128 as char ==> Decode(a + [c] + b) == Decode(a + b)
    ensures c >= 128 as char ==> Decode(a + [c] + b) == None
  {
    var s, t := a + [c] + b, a + b;
    assert s[|a|] == c;
    CollectSkips(a, c, b, 0, 0);
    if c < 128 as char {
      assert forall i :: 0 <= i < |t| ==> t[i] == s[if i < |a| then i else i + 1];
      assert forall i :: 0 <= i < |s| && i != |a| ==> s[i] == t[if i < |a| then i else i - 1];
    }
  }

  lemma {:induction false} CollectIncomplete(x: seq<Sextet>, q: nat)
    requires q < 4 && (q + |x|) % 4 != 0
    ensures Collect(Symbols(x), q, 0) == None
  {
    if x != [] {
      SymbolValue(x[0]);
      CollectIncomplete(x[1..], (q + 1) % 4);
      assert Symbols(x)[1..] == Symbols(x[1..]);
    }
  }

  /** Symbols that break off inside a group of four do not decode. */
  lemma DecodeIncomplete(x: seq<Sextet>)
    requires |x| % 4 != 0
    ensures Decode(Symbols(x)) == None
  {
    CollectIncomplete(x, 0);
  }
}
