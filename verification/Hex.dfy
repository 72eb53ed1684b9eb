/** Hexadecimal text: the identifier numerals of decoder.py and encoder.py, and the octet dumps of the log. */
module Hex {
  import opened Wrappers
  import opened Octets

  /** A lower-case digit. */
  function Digit(n: nat): (c: char)
    requires n < 16
    ensures DigitValue(c) == Some(n) && IsLower(c)
  {
    if n < 10 then ('0' as int + n) as char else ('a' as int + n - 10) as char
  }

  function DigitValue(c: char): (v: Option<nat>)
    ensures v.Some? ==> v.value < 16
  {
    if '0' <= c <= '9' then Some(c as int - '0' as int)
    else if 'a' <= c <= 'f' then Some(c as int - 'a' as int + 10)
    else if 'A' <= c <= 'F' then Some(c as int - 'A' as int + 10)
    else None
  }

  predicate IsLower(c: char) {
    '0' <= c <= '9' || 'a' <= c <= 'f'
  }

  /** ASCII white space, which both `int` and `bytes.fromhex` skip. */
  predicate IsSpace(c: char) {
    9 <= c as int <= 13 || c == ' '
  }

  // ----- numerals

  /** The digits of `v`, most significant first, without leading zeros. */
  function Digits(v: nat): (s: string)
    ensures |s| >= 1
  {
    if v < 16 then [Digit(v)] else Digits(v / 16) + [Digit(v % 16)]
  }

  function PadTo(width: nat, s: string): (r: string) {
    if |s| < width then seq(width - |s|, _ => '0') + s else s
  }

  /** `f"0x{n:04x}"`. */
  function HexText(n: int): string {
    if n < 0 then "0x-" + PadTo(3, Digits(-n)) else "0x" + PadTo(4, Digits(n))
  }

  /** Digits, with single underscores allowed between them. */
  function Grouped(s: string): Option<nat> {
    if s == "" then None
    else
      var rest := s[..|s| - 1];
      match DigitValue(s[|s| - 1])
      case None => None
      case Some(d) =>
        if rest == "" then Some(d)
        else
          match Grouped(if rest[|rest| - 1] == '_' then rest[..|rest| - 1] else rest)
          case None => None
          case Some(n) => Some(16 * n + d)
  }

  function Strip(s: string): string {
    if s == "" then ""
    else if IsSpace(s[0]) then Strip(s[1..])
    else if IsSpace(s[|s| - 1]) then Strip(s[..|s| - 1])
    else s
  }

  /** `int(s, 16)` on ASCII text: white space, sign, `0x` prefix and digit groups. */
  function PythonInt(s: string): Option<int> {
    var t := Strip(s);
    var signed := t != "" && (t[0] == '+' || t[0] == '-');
    var u := if signed then t[1..] else t;
    match Unsigned(u)
    case None => None
    case Some(n) => Some(if signed && t[0] == '-' then -(n as int) else n)
  }

  /** An optional prefix, which one underscore may follow, and digit groups. */
  function Unsigned(u: string): Option<nat> {
    if |u| >= 2 && u[0] == '0' && (u[1] == 'x' || u[1] == 'X') then
      Grouped(if |u| > 2 && u[2] == '_' then u[3..] else u[2..])
    else
      Grouped(u)
  }

  /** `_parse_hex` with its default 0. */
  function ParseHex(val: Option<string>): int {
    match val
    case None => 0
    case Some(s) =>
      match PythonInt(s)
      case None => 0
      case Some(n) => n
  }

  /** What `HexText` prints for naturals, read off the text alone. */
  predicate Canonical(f: string) {
    && |f| >= 6
    && f[0] == '0' && f[1] == 'x'
    && (forall i :: 2 <= i < |f| ==> IsLower(f[i]))
    && (|f| > 6 ==> f[2] != '0')
  }

  predicate AllLower(s: string) {
    forall i :: 0 <= i < |s| ==> IsLower(s[i])
  }

  lemma {:induction false} GroupedDigits(v: nat)
    ensures AllLower(Digits(v)) && Grouped(Digits(v)) == Some(v)
    ensures |Digits(v)| > 1 ==> Digits(v)[0] != '0'
  {
    if v >= 16 {
      GroupedDigits(v / 16);
      var s := Digits(v);
      assert s[..|s| - 1] == Digits(v / 16);
      if |Digits(v / 16)| == 1 {
        assert v / 16 < 16;
        assert DigitValue('0') == Some(0);
      }
    }
  }

  lemma {:induction false} GroupedLeadingZero(s: string)
    requires AllLower(s) && s != ""
    ensures Grouped(s).Some?
    ensures Grouped("0" + s) == Grouped(s)
  {
    var t := "0" + s;
    assert t[..|t| - 1] == "0" + s[..|s| - 1];
    if |s| > 1 {
      GroupedLeadingZero(s[..|s| - 1]);
      assert IsLower(s[|s| - 2]);
    } else {
      assert s[..0] == "" && "0" + "" == "0";
      assert Grouped("0") == Some(0) by { assert "0"[..0] == ""; }
    }
  }

  lemma {:induction false} GroupedPadded(width: nat, s: string)
    requires AllLower(s) && s != ""
    ensures AllLower(PadTo(width, s)) && Grouped(PadTo(width, s)) == Grouped(s)
    decreases width
  {
    if |s| < width {
      GroupedPadded(width - 1, s);
      PadOne(width, s);
      GroupedLeadingZero(PadTo(width - 1, s));
    }
  }

  lemma PadOne(width: nat, s: string)
    requires |s| < width
    ensures PadTo(width, s) == "0" + PadTo(width - 1, s)
  {
  }

  lemma StripNothing(s: string)
    requires s != "" && !IsSpace(s[0]) && !IsSpace(s[|s| - 1])
    ensures Strip(s) == s
  {
  }

  /** Reading `0x` followed by lower-case digits reads the digits. */
  lemma PrefixedValue(d: string)
    requires AllLower(d) && d != ""
    ensures PythonInt("0x" + d) == Grouped(d)
  {
    var s := "0x" + d;
    assert s[|s| - 1] == d[|d| - 1];
    StripNothing(s);
    assert s[2..] == d && s[2] == d[0] && IsLower(d[0]);
  }

  /** Parsing undoes printing, for every natural. */
  lemma ParsePrinted(v: nat)
    ensures PythonInt(HexText(v)) == Some(v)
    ensures ParseHex(Some(HexText(v))) == v
  {
    GroupedDigits(v);
    GroupedPadded(4, Digits(v));
    PrefixedValue(PadTo(4, Digits(v)));
  }

  lemma PrintedIsCanonical(v: nat)
    ensures Canonical(HexText(v))
  {
    GroupedDigits(v);
    GroupedPadded(4, Digits(v));
    var d := PadTo(4, Digits(v));
    forall i | 2 <= i < |HexText(v)| ensures IsLower(HexText(v)[i]) {
      assert HexText(v)[i] == d[i - 2];
    }
  }

  lemma {:induction false} ZeroValue(s: string)
    requires AllLower(s) && s != "" && Grouped(s) == Some(0)
    ensures forall i :: 0 <= i < |s| ==> s[i] == '0'
  {
    var rest := s[..|s| - 1];
    if rest != "" {
      assert IsLower(rest[|rest| - 1]);
      GroupedLeadingZero(rest);
      ZeroValue(rest);
    }
  }

  lemma DigitOfLower(c: char)
    requires IsLower(c)
    ensures DigitValue(c).Some? && Digit(DigitValue(c).value) == c
  {
  }

  lemma GroupedLast(e: string, c: char)
    requires AllLower(e) && e != "" && IsLower(c)
    ensures Grouped(e).Some? && Grouped(e + [c]) == Some(16 * Grouped(e).value + DigitValue(c).value)
  {
    GroupedLeadingZero(e);
    var d := e + [c];
    assert d[..|d| - 1] == e && IsLower(e[|e| - 1]);
  }

  lemma DigitsLast(m: nat, n: nat)
    requires m > 0 && n < 16
    ensures Digits(16 * m + n) == Digits(m) + [Digit(n)]
  {
    assert (16 * m + n) / 16 == m && (16 * m + n) % 16 == n;
  }

  lemma PadLast(width: nat, s: string, c: char)
    requires width >= 1
    ensures PadTo(width, s + [c]) == PadTo(width - 1, s) + [c]
  {
  }

  /** The digit string is the printed form, at this width, of its value. */
  ghost predicate Prints(width: nat, d: string) {
    Grouped(d).Some? && PadTo(width, Digits(Grouped(d).value)) == d
  }

  lemma PrintsLast(width: nat, e: string, c: char)
    requires AllLower(e) && e != "" && IsLower(c)
    requires Prints(if width == 0 then 0 else width - 1, e) && Grouped(e).value > 0
    ensures Prints(width, e + [c])
  {
    GroupedLast(e, c);
    DigitOfLower(c);
    DigitsLast(Grouped(e).value, DigitValue(c).value);
    PadLast(if width == 0 then 1 else width, Digits(Grouped(e).value), c);
  }

  lemma PrintsOne(width: nat, c: char)
    requires IsLower(c) && width <= 1
    ensures Prints(width, [c])
  {
    DigitOfLower(c);
    assert [c][..0] == "";
  }

  lemma PrintsAfterZeros(e: string, c: char)
    requires AllLower(e) && e != "" && IsLower(c) && Grouped(e) == Some(0)
    ensures Prints(|e| + 1, e + [c])
  {
    GroupedLast(e, c);
    DigitOfLower(c);
    ZeroValue(e);
    assert PadTo(|e| + 1, [c]) == e + [c];
  }

  /** A digit string without superfluous zeros is the printed form of its value. */
  lemma {:induction false} PrintParsed(width: nat, d: string)
    requires width <= |d| && d != "" && AllLower(d)
    requires |d| > width ==> d[0] != '0'
    ensures Prints(width, d)
    decreases |d|
  {
    var e, c := d[..|d| - 1], d[|d| - 1];
    assert d == e + [c];
    if e == "" {
      assert d == [c];
      PrintsOne(width, c);
    } else {
      GroupedLast(e, c);
      if Grouped(e) == Some(0) {
        ZeroValue(e);
        assert e[0] == d[0];
        PrintsAfterZeros(e, c);
      } else {
        PrintParsed(if width == 0 then 0 else width - 1, e);
        PrintsLast(width, e, c);
      }
    }
  }

  /**
   * A filter equals the text of a decoded identifier exactly when the filter is in canonical form
   * and denotes the same number; any other spelling of the number never matches.
   */
  lemma FilterMatches(f: string, v: nat)
    ensures f == HexText(v) <==> Canonical(f) && ParseHex(Some(f)) == v
  {
    ParsePrinted(v);
    PrintedIsCanonical(v);
    if Canonical(f) && ParseHex(Some(f)) == v {
      var d := f[2..];
      forall i | 0 <= i < |d| ensures IsLower(d[i]) {
        assert d[i] == f[i + 2];
      }
      assert f == "0x" + d;
      PrefixedValue(d);
      PrintParsed(4, d);
    }
  }

  lemma PrintInjective(v: nat, w: nat)
    requires HexText(v) == HexText(w)
    ensures v == w
  {
    ParsePrinted(v);
    ParsePrinted(w);
  }

  // ----- octet dumps

  function Pair(b: Byte): (s: string)
    ensures |s| == 2
  {
    [Digit(b / 16), Digit(b % 16)]
  }

  /** `raw.hex(" ")`, the `raw_hex` column. */
  function Spaced(raw: Bytes): (s: string)
    ensures s == "" <==> raw == []
  {
    if raw == [] then "" else if |raw| == 1 then Pair(raw[0]) else Pair(raw[0]) + " " + Spaced(raw[1..])
  }

  function Compact(raw: Bytes): string {
    if raw == [] then "" else Pair(raw[0]) + Compact(raw[1..])
  }

  /** `s.replace(" ", "")`. */
  function RemoveSpaces(s: string): string {
    if s == "" then "" else (if s[0] == ' ' then "" else [s[0]]) + RemoveSpaces(s[1..])
  }

  /** `bytes.fromhex(s)`; None is its ValueError. */
  function FromHex(s: string): Option<Bytes> {
    if s == "" then Some([])
    else if IsSpace(s[0]) then FromHex(s[1..])
    else if |s| == 1 then None
    else
      match (DigitValue(s[0]), DigitValue(s[1]))
      case (Some(hi), Some(lo)) =>
        (match FromHex(s[2..])
         case None => None
         case Some(t) => Some([16 * hi + lo] + t))
      case _ => None
  }

  lemma RemoveSpacesConcat(a: string, b: string)
    ensures RemoveSpaces(a + b) == RemoveSpaces(a) + RemoveSpaces(b)
  {
    if a == "" {
      assert a + b == b;
    } else {
      assert (a + b)[1..] == a[1..] + b;
      RemoveSpacesConcat(a[1..], b);
    }
  }

  lemma PairWithoutSpaces(b: Byte)
    ensures RemoveSpaces(Pair(b)) == Pair(b)
  {
    var s := Pair(b);
    assert s[1..] == [Digit(b % 16)] && s[1..][1..] == "";
    assert RemoveSpaces(s[1..]) == s[1..];
  }

  lemma {:induction false} SpacedWithoutSpaces(raw: Bytes)
    ensures RemoveSpaces(Spaced(raw)) == Compact(raw)
  {
    if raw != [] {
      PairWithoutSpaces(raw[0]);
      SpacedWithoutSpaces(raw[1..]);
      if |raw| == 1 {
        assert Compact(raw[1..]) == "";
      } else {
        assert RemoveSpaces(" ") == "" by { assert " "[1..] == ""; }
        RemoveSpacesConcat(Pair(raw[0]) + " ", Spaced(raw[1..]));
        RemoveSpacesConcat(Pair(raw[0]), " ");
      }
    }
  }

  lemma {:induction false} FromCompact(raw: Bytes)
    ensures FromHex(Compact(raw)) == Some(raw)
  {
    if raw != [] {
      FromCompact(raw[1..]);
      var s := Compact(raw);
      assert s[0] == Digit(raw[0] / 16) && s[1] == Digit(raw[0] % 16) && s[2..] == Compact(raw[1..]);
      assert [raw[0]] + raw[1..] == raw;
    }
  }

  /** Cleaning and parsing the logged dump gives the octets back. */
  lemma FromSpaced(raw: Bytes)
    ensures FromHex(RemoveSpaces(Spaced(raw))) == Some(raw)
  {
    SpacedWithoutSpaces(raw);
    FromCompact(raw);
  }

  function Lower(c: char): char {
    if 'A' <= c <= 'F' then (c as int - 'A' as int + 'a' as int) as char else c
  }

  /** The text in lower case without white space. */
  function Normal(s: string): string {
    if s == "" then "" else (if IsSpace(s[0]) then "" else [Lower(s[0])]) + Normal(s[1..])
  }

  lemma PairOfDigits(h: char, l: char)
    requires DigitValue(h).Some? && DigitValue(l).Some?
    ensures Pair(16 * DigitValue(h).value + DigitValue(l).value) == [Lower(h), Lower(l)]
  {
    var hi, lo := DigitValue(h).value, DigitValue(l).value;
    assert (16 * hi + lo) / 16 == hi && (16 * hi + lo) % 16 == lo;
  }

  lemma NormalPair(s: string)
    requires |s| >= 2 && !IsSpace(s[0]) && !IsSpace(s[1])
    ensures Normal(s) == [Lower(s[0]), Lower(s[1])] + Normal(s[2..])
  {
    assert s[1..][1..] == s[2..];
  }

  /** Whatever text is accepted, its octets print as that text in lower case without white space. */
  lemma {:induction false} FromHexSound(s: string)
    requires FromHex(s).Some?
    ensures Compact(FromHex(s).value) == Normal(s)
    decreases |s|
  {
    if s == "" {
    } else if IsSpace(s[0]) {
      FromHexSound(s[1..]);
    } else {
      FromHexSound(s[2..]);
      PairOfDigits(s[0], s[1]);
      NormalPair(s);
      assert FromHex(s).value[1..] == FromHex(s[2..]).value;
    }
  }

  // ----- what is accepted and what is refused

  lemma DigitValues(c: char)
    ensures DigitValue(c).Some? <==> c in "0123456789abcdefABCDEF"
    ensures '0' <= c <= '9' ==> DigitValue(c) == Some(c as int - 48)
    ensures 'a' <= c <= 'f' ==> DigitValue(c) == Some(c as int - 87)
    ensures 'A' <= c <= 'F' ==> DigitValue(c) == Some(c as int - 55)
  {
  }

  lemma SpaceCharacters(c: char)
    ensures IsSpace(c) <==> c in [9 as char, 10 as char, 11 as char, 12 as char, 13 as char, 32 as char]
  {
  }

  /** The dump: two lower-case digits for each octet, with one blank between octets. */
  lemma {:induction false} SpacedForm(raw: Bytes, i: nat)
    requires i < |raw|
    ensures |Spaced(raw)| == 3 * |raw| - 1
    ensures Spaced(raw)[3 * i] == Digit(raw[i] / 16) && Spaced(raw)[3 * i + 1] == Digit(raw[i] % 16)
    ensures i + 1 < |raw| ==> Spaced(raw)[3 * i + 2] == ' '
  {
    if |raw| > 1 {
      SpacedForm(raw[1..], if i == 0 then 0 else i - 1);
    }
  }

  /** A negative number is printed with its sign after the prefix, at least six characters in all. */
  lemma NegativeText(v: nat)
    requires v > 0
    ensures var s := HexText(-(v as int)); |s| >= 6 && s[..3] == "0x-" && Grouped(s[3..]) == Some(v)
  {
    GroupedDigits(v);
    GroupedPadded(3, Digits(v));
    assert HexText(-(v as int))[3..] == PadTo(3, Digits(v));
  }

  predicate AllSpace(s: string) {
    forall i :: 0 <= i < |s| ==> IsSpace(s[i])
  }

  predicate AllDigits(s: string) {
    forall i :: 0 <= i < |s| ==> DigitValue(s[i]).Some?
  }

  /** The number that digits of either case denote. */
  function Magnitude(d: string): nat
    requires AllDigits(d)
  {
    if d == "" then 0 else 16 * Magnitude(d[..|d| - 1]) + DigitValue(d[|d| - 1]).value
  }

  lemma {:induction false} GroupedMagnitude(d: string)
    requires AllDigits(d) && d != ""
    ensures Grouped(d) == Some(Magnitude(d))
  {
    var rest := d[..|d| - 1];
    if rest != "" {
      GroupedMagnitude(rest);
      assert rest[|rest| - 1] == d[|d| - 2];
    }
  }

  lemma {:induction false} StripSpaces(lead: string, core: string, trail: string)
    requires AllSpace(lead) && AllSpace(trail)
    requires core != "" && !IsSpace(core[0]) && !IsSpace(core[|core| - 1])
    ensures Strip(lead + core + trail) == core
    decreases |lead| + |trail|
  {
    var s := lead + core + trail;
    if lead != "" {
      StripSpaces(lead[1..], core, trail);
      assert s[0] == lead[0] && s[1..] == lead[1..] + core + trail;
    } else if trail != "" {
      StripSpaces(lead, core, trail[..|trail| - 1]);
      assert s[0] == core[0] && s[|s| - 1] == trail[|trail| - 1];
      assert s[..|s| - 1] == lead + core + trail[..|trail| - 1];
    } else {
      assert s == core;
    }
  }

  /** Nothing, or one sign. */
  predicate IsSign(s: string) {
    s == "" || (|s| == 1 && (s[0] == '+' || s[0] == '-'))
  }

  /** Nothing, or `0x` in either case. */
  predicate IsPrefix(s: string) {
    s == "" || (|s| == 2 && s[0] == '0' && (s[1] == 'x' || s[1] == 'X'))
  }

  function Signed(sign: string, n: nat): int {
    if sign != "" && sign[0] == '-' then -(n as int) else n
  }

  lemma UnsignedValue(prefix: string, d: string)
    requires IsPrefix(prefix) && AllDigits(d) && d != ""
    ensures Unsigned(prefix + d) == Some(Magnitude(d))
  {
    GroupedMagnitude(d);
    var u := prefix + d;
    if prefix == "" {
      assert u == d;
    } else {
      assert u[0] == '0' && u[2..] == d && u[2] == d[0];
    }
  }

  lemma PlainValue(u: string, n: nat)
    requires u != "" && DigitValue(u[0]).Some? && !IsSpace(u[|u| - 1]) && Unsigned(u) == Some(n)
    ensures !IsSpace(u[0]) && PythonInt(u) == Some(n)
  {
    StripNothing(u);
  }

  lemma MarkedValue(c: char, u: string, n: nat)
    requires (c == '+' || c == '-') && u != "" && !IsSpace(u[|u| - 1]) && Unsigned(u) == Some(n)
    ensures PythonInt([c] + u) == Some(Signed([c], n))
  {
    var core := [c] + u;
    assert core[|core| - 1] == u[|u| - 1] && core[1..] == u;
    StripNothing(core);
  }

  lemma SignedValue(sign: string, u: string, n: nat)
    requires IsSign(sign) && u != "" && DigitValue(u[0]).Some? && !IsSpace(u[|u| - 1])
    requires Unsigned(u) == Some(n)
    ensures var core := sign + u;
      !IsSpace(core[0]) && !IsSpace(core[|core| - 1]) && PythonInt(core) == Some(Signed(sign, n))
  {
    var core := sign + u;
    assert core[|core| - 1] == u[|u| - 1];
    if sign == "" {
      assert core == u;
      PlainValue(u, n);
    } else {
      assert sign == [sign[0]];
      MarkedValue(sign[0], u, n);
    }
  }

  lemma CoreValue(sign: string, prefix: string, d: string)
    requires IsSign(sign) && IsPrefix(prefix) && AllDigits(d) && d != ""
    ensures var core := sign + prefix + d;
      && !IsSpace(core[0]) && !IsSpace(core[|core| - 1])
      && PythonInt(core) == Some(Signed(sign, Magnitude(d)))
  {
    UnsignedValue(prefix, d);
    PrefixEnds(prefix, d);
    SignedValue(sign, prefix + d, Magnitude(d));
    assert sign + prefix + d == sign + (prefix + d);
  }

  lemma PrefixEnds(prefix: string, d: string)
    requires IsPrefix(prefix) && AllDigits(d) && d != ""
    ensures var u := prefix + d; DigitValue(u[0]).Some? && !IsSpace(u[|u| - 1])
  {
    var u := prefix + d;
    assert u[|u| - 1] == d[|d| - 1];
    if prefix == "" {
      assert u[0] == d[0];
    } else {
      assert u[0] == '0';
    }
  }

  /** Numerals of either case are read with white space around them, a sign and a prefix. */
  lemma ReadsSpelling(lead: string, sign: string, prefix: string, d: string, trail: string)
    requires AllSpace(lead) && AllSpace(trail)
    requires IsSign(sign) && IsPrefix(prefix) && AllDigits(d) && d != ""
    ensures PythonInt(lead + (sign + prefix + d) + trail)
         == Some(Signed(sign, Magnitude(d)))
  {
    var core := sign + prefix + d;
    CoreValue(sign, prefix, d);
    StripSpaces(lead, core, trail);
    StripNothing(core);
    SameStripped(lead + core + trail, core);
  }

  lemma SameStripped(s: string, t: string)
    requires Strip(s) == Strip(t)
    ensures PythonInt(s) == PythonInt(t)
  {
  }

  lemma {:induction false} GroupedCharacters(s: string)
    requires Grouped(s).Some?
    ensures s != "" && DigitValue(s[0]).Some? && DigitValue(s[|s| - 1]).Some?
    ensures forall i :: 0 <= i < |s| ==> DigitValue(s[i]).Some? || s[i] == '_'
    ensures forall i :: 0 <= i < |s| - 1 && s[i] == '_' ==> s[i + 1] != '_'
  {
    var rest := s[..|s| - 1];
    if rest != "" {
      var inner := if rest[|rest| - 1] == '_' then rest[..|rest| - 1] else rest;
      GroupedCharacters(inner);
      assert forall i :: 0 <= i < |inner| ==> inner[i] == s[i];
    }
  }

  lemma {:induction false} StripKeeps(s: string, i: nat)
    requires i < |s| && !IsSpace(s[i])
    ensures s[i] in Strip(s)
  {
    if IsSpace(s[0]) {
      StripKeeps(s[1..], i - 1);
    } else if IsSpace(s[|s| - 1]) {
      StripKeeps(s[..|s| - 1], i);
    }
  }

  lemma UnsignedCharacters(u: string, k: nat)
    requires Unsigned(u).Some? && k < |u|
    ensures u[k] in "xX_" || DigitValue(u[k]).Some?
  {
    if |u| >= 2 && u[0] == '0' && (u[1] == 'x' || u[1] == 'X') {
      var skipped := if |u| > 2 && u[2] == '_' then 3 else 2;
      GroupedCharacters(u[skipped..]);
      assert k >= skipped ==> u[k] == u[skipped..][k - skipped];
    } else {
      GroupedCharacters(u);
    }
  }

  /** Whatever is read has no other characters than these. */
  lemma ReadCharacters(s: string, i: nat)
    requires PythonInt(s).Some? && i < |s|
    ensures IsSpace(s[i]) || s[i] in "+-xX_" || DigitValue(s[i]).Some?
  {
    if !IsSpace(s[i]) {
      StripKeeps(s, i);
      var t := Strip(s);
      var signed := t[0] == '+' || t[0] == '-';
      var u := if signed then t[1..] else t;
      var j :| 0 <= j < |t| && t[j] == s[i];
      if !signed || j > 0 {
        UnsignedCharacters(u, if signed then j - 1 else j);
      }
    }
  }

  lemma RefusesEmpty()
    ensures PythonInt("") == None && ParseHex(Some("")) == 0 && ParseHex(None) == 0 && PythonInt("0x") == None
  {
    StripNothing("0x");
    assert "0x"[2..] == "";
  }

  function Joined(x: Option<Bytes>, y: Option<Bytes>): Option<Bytes> {
    if x.Some? && y.Some? then Some(x.value + y.value) else None
  }

  lemma JoinedTwice(x: Option<Bytes>, y: Option<Bytes>, z: Option<Bytes>)
    ensures Joined(Joined(x, y), z) == Joined(x, Joined(y, z))
  {
    if x.Some? && y.Some? && z.Some? {
      assert x.value + y.value + z.value == x.value + (y.value + z.value);
    }
  }

  /** The octet of two digits. */
  function Octet(h: char, l: char): Option<Bytes> {
    if DigitValue(h).Some? && DigitValue(l).Some? then Some([16 * DigitValue(h).value + DigitValue(l).value]) else None
  }

  lemma FromHexPair(h: char, l: char, s: string)
    requires !IsSpace(h)
    ensures FromHex([h, l] + s) == Joined(Octet(h, l), FromHex(s))
  {
    assert ([h, l] + s)[2..] == s;
  }

  /** Text after text that is accepted: the octets of both. */
  lemma {:induction false} FromHexConcat(a: string, b: string)
    requires FromHex(a).Some?
    ensures FromHex(a + b) == Joined(FromHex(a), FromHex(b))
    decreases |a|
  {
    if a == "" {
      assert a + b == b;
      assert FromHex(b).Some? ==> [] + FromHex(b).value == FromHex(b).value;
    } else if IsSpace(a[0]) {
      assert (a + b)[1..] == a[1..] + b;
      FromHexConcat(a[1..], b);
    } else {
      assert a == [a[0], a[1]] + a[2..] && a + b == [a[0], a[1]] + (a[2..] + b);
      FromHexPair(a[0], a[1], a[2..]);
      FromHexPair(a[0], a[1], a[2..] + b);
      FromHexConcat(a[2..], b);
      JoinedTwice(Octet(a[0], a[1]), FromHex(a[2..]), FromHex(b));
    }
  }

  lemma {:induction false} FromHexGap(gap: string)
    requires AllSpace(gap)
    ensures FromHex(gap) == Some([])
  {
    if gap != "" {
      FromHexGap(gap[1..]);
    }
  }

  /** Two digits for each octet. */
  predicate Spells(raw: Bytes, s: string) {
    |s| == 2 * |raw|
    && (raw != [] ==>
          DigitValue(s[0]) == Some(raw[0] / 16) && DigitValue(s[1]) == Some(raw[0] % 16) && Spells(raw[1..], s[2..]))
  }

  /** Pairs of digits of either case are read as their octets. */
  lemma {:induction false} FromHexPairs(raw: Bytes, s: string)
    requires Spells(raw, s)
    ensures FromHex(s) == Some(raw)
  {
    if raw != [] {
      FromHexPairs(raw[1..], s[2..]);
      assert raw == [raw[0]] + raw[1..];
    }
  }

  /** A pair that is broken off or split by white space is refused. */
  lemma SplitPair(h: char, c: char, s: string)
    requires DigitValue(h).Some? && IsSpace(c)
    ensures FromHex([h]) == None && FromHex([h, c] + s) == None
  {
  }

  function Shifted(n: Option<nat>, d: nat): Option<nat> {
    if n.Some? then Some(16 * n.value + d) else None
  }

  lemma GroupedAfterDigit(s: string)
    requires |s| >= 2 && s[|s| - 2] != '_' && DigitValue(s[|s| - 1]).Some?
    ensures Grouped(s) == Shifted(Grouped(s[..|s| - 1]), DigitValue(s[|s| - 1]).value)
  {
  }

  lemma GroupedAfterUnderscore(s: string)
    requires |s| >= 3 && s[|s| - 2] == '_' && DigitValue(s[|s| - 1]).Some?
    ensures Grouped(s) == Shifted(Grouped(s[..|s| - 2]), DigitValue(s[|s| - 1]).value)
  {
    assert s[..|s| - 1][..|s| - 2] == s[..|s| - 2];
  }

  lemma FirstAfterUnderscore(a: string, d: char)
    requires AllDigits(a) && a != "" && DigitValue(d).Some?
    ensures Grouped(a + "_" + [d]) == Grouped(a + [d])
  {
    var s, t := a + "_" + [d], a + [d];
    assert a[|a| - 1] in a;
    assert s[..|s| - 2] == a && t[..|t| - 1] == a && s[|s| - 2] == '_' && t[|t| - 2] == a[|a| - 1];
    GroupedAfterUnderscore(s);
    GroupedAfterDigit(t);
  }

  lemma NextDigit(s: string, d: char)
    requires s != "" && s[|s| - 1] != '_' && DigitValue(d).Some?
    ensures Grouped(s + [d]) == Shifted(Grouped(s), DigitValue(d).value)
  {
    assert (s + [d])[..|s|] == s;
    GroupedAfterDigit(s + [d]);
  }

  /** One underscore may stand between digits. */
  lemma {:induction false} UnderscoreBetween(a: string, b: string)
    requires AllDigits(a) && AllDigits(b) && a != "" && b != ""
    ensures Grouped(a + "_" + b) == Grouped(a + b)
    decreases |b|
  {
    var c, d := b[..|b| - 1], b[|b| - 1];
    if c == "" {
      assert b == [d];
      FirstAfterUnderscore(a, d);
    } else {
      UnderscoreBetween(a, c);
      assert c[|c| - 1] == b[|c| - 1];
      NextDigit(a + "_" + c, d);
      NextDigit(a + c, d);
      assert a + "_" + b == a + "_" + c + [d] && a + b == a + c + [d];
    }
  }

  /** One may also follow the prefix. */
  lemma UnderscoreAfterPrefix(d: string)
    requires AllDigits(d) && d != ""
    ensures Unsigned("0x_" + d) == Some(Magnitude(d)) && Unsigned("0X_" + d) == Some(Magnitude(d))
  {
    GroupedMagnitude(d);
    assert ("0x_" + d)[3..] == d && ("0X_" + d)[3..] == d;
  }
}
