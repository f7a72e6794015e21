/**
 `encodeURIComponent`, section 19.2.6.4 of ECMA-262 (2023), and the decoding of percent escapes and
 UTF-8 that a server does. Strings are sequences of UTF-16 code units.
 */
module Percent {
  import opened Wrappers

  newtype CodeUnit = x: int | 0 <= x < 0x1_0000

  type Str = seq<CodeUnit>

  /** The code units of an ASCII literal. */
  function U(s: string): (r: Str)
    ensures |r| == |s| && forall i :: 0 <= i < |r| ==> r[i] < 0x80
    ensures forall i :: 0 <= i < |s| && s[i] < '\U{0080}' ==> r[i] as int == s[i] as int
  {
    seq(|s|, i requires 0 <= i < |s| => (s[i] as int % 0x80) as CodeUnit)
  }

  predicate IsHigh(c: CodeUnit) {
    0xD800 <= c <= 0xDBFF
  }

  predicate IsLow(c: CodeUnit) {
    0xDC00 <= c <= 0xDFFF
  }

  predicate NoSurrogates(s: Str) {
    forall i :: 0 <= i < |s| ==> !IsHigh(s[i]) && !IsLow(s[i])
  }

  /** Letters, digits and the marks - _ . ! ~ * ' ( ) */
  predicate Unescaped(c: CodeUnit) {
    || 0x41 <= c <= 0x5A || 0x61 <= c <= 0x7A || 0x30 <= c <= 0x39
    || c == 0x2D || c == 0x5F || c == 0x2E || c == 0x21 || c == 0x7E || c == 0x2A || c == 0x27 || c == 0x28 || c == 0x29
  }

  function HexDigit(d: int): CodeUnit
    requires 0 <= d < 16
  {
    if d < 10 then (0x30 + d) as CodeUnit else (0x41 + d - 10) as CodeUnit
  }

  function Octet(b: int): Str
    requires 0 <= b < 0x100
  {
    [0x25, HexDigit(b / 16), HexDigit(b % 16)]
  }

  /** The escapes of the UTF-8 form of a code point. */
  function Escapes(cp: int): (r: Str)
    requires 0 <= cp < 0x11_0000
    ensures 3 <= |r| <= (if cp < 0x1_0000 then 9 else 12)
  {
    if cp < 0x80 then Octet(cp)
    else if cp < 0x800 then Octet(0xC0 + cp / 0x40) + Octet(0x80 + cp % 0x40)
    else if cp < 0x1_0000 then
      Octet(0xE0 + cp / 0x1000) + Octet(0x80 + cp / 0x40 % 0x40) + Octet(0x80 + cp % 0x40)
    else
      Octet(0xF0 + cp / 0x4_0000) + Octet(0x80 + cp / 0x1000 % 0x40) + Octet(0x80 + cp / 0x40 % 0x40)
      + Octet(0x80 + cp % 0x40)
  }

  function CodePoint(high: CodeUnit, low: CodeUnit): int
    requires IsHigh(high) && IsLow(low)
  {
    (high as int - 0xD800) * 0x400 + (low as int - 0xDC00) + 0x1_0000
  }

  /** How many code units the first character takes; none if it is half of a pair. */
  function FirstWidth(s: Str): nat
    requires s != []
  {
    if IsLow(s[0]) then 0
    else if !IsHigh(s[0]) then 1
    else if |s| > 1 && IsLow(s[1]) then 2 else 0
  }

  /** One character: a plain code unit, or a pair. */
  predicate OneChar(u: Str) {
    || (|u| == 1 && !IsHigh(u[0]) && !IsLow(u[0]))
    || (|u| == 2 && IsHigh(u[0]) && IsLow(u[1]))
  }

  function EncodeChar(u: Str): (r: Str)
    requires OneChar(u)
    ensures |u| <= |r| <= 9 * |u|
  {
    if |u| == 2 then Escapes(CodePoint(u[0], u[1]))
    else if Unescaped(u[0]) then [u[0]] else Escapes(u[0] as int)
  }

  /** The encoded string, or None where the source throws a URIError. */
  function Encode(s: Str): Option<Str>
    decreases |s|
  {
    if s == [] then Some([])
    else if FirstWidth(s) == 0 then None
    else
      match Encode(s[FirstWidth(s)..])
      case Some(rest) => Some(EncodeChar(s[..FirstWidth(s)]) + rest)
      case None => None
  }

  predicate WellFormed(s: Str) {
    Encode(s).Some?
  }

  /** No code unit grows more than ninefold, and none vanishes. */
  lemma {:induction false} EncodeGrowth(s: Str)
    requires WellFormed(s)
    ensures |s| <= |Encode(s).value| <= 9 * |s|
    decreases |s|
  {
    if s != [] {
      EncodeGrowth(s[FirstWidth(s)..]);
    }
  }

  function Join(x: Option<Str>, y: Option<Str>): Option<Str> {
    if x.Some? && y.Some? then Some(x.value + y.value) else None
  }

  lemma FirstCharOfJoin(a: Str, b: Str)
    requires a != [] && FirstWidth(a) > 0
    ensures FirstWidth(a + b) == FirstWidth(a) <= |a|
    ensures (a + b)[..FirstWidth(a)] == a[..FirstWidth(a)]
    ensures (a + b)[FirstWidth(a)..] == a[FirstWidth(a)..] + b
  {
    assert (a + b)[0] == a[0];
    assert FirstWidth(a) == 2 ==> (a + b)[1] == a[1];
  }

  lemma JoinAssociates(c: Str, x: Option<Str>, y: Option<Str>)
    ensures Join(Some(c), Join(x, y)) == Join(Join(Some(c), x), y)
  {
    if x.Some? && y.Some? {
      assert c + (x.value + y.value) == c + x.value + y.value;
    }
  }

  /** The encoding of a string is that of its first character, then that of the rest. */
  lemma EncodeUnfolds(s: Str)
    requires s != [] && FirstWidth(s) > 0
    ensures Encode(s) == Join(Some(EncodeChar(s[..FirstWidth(s)])), Encode(s[FirstWidth(s)..]))
  {
  }

  /** Encoding goes character by character, so that it distributes over a join behind a well-formed
      string. */
  lemma {:induction false} EncodeJoins(a: Str, b: Str)
    requires WellFormed(a)
    ensures Encode(a + b) == Join(Encode(a), Encode(b))
    decreases |a|
  {
    if a == [] {
      EncodeJoinsEmpty(a, b);
    } else {
      EncodeJoins(a[FirstWidth(a)..], b);
      EncodeJoinsStep(a, b);
    }
  }

  lemma EncodeJoinsEmpty(a: Str, b: Str)
    requires a == []
    ensures Encode(a + b) == Join(Encode(a), Encode(b))
  {
    assert a + b == b;
    assert Encode(a) == Some([]);
    var y := Encode(b);
    if y.Some? {
      assert [] + y.value == y.value;
    }
  }

  lemma EncodeJoinsStep(a: Str, b: Str)
    requires a != [] && FirstWidth(a) > 0
    requires Encode(a[FirstWidth(a)..] + b) == Join(Encode(a[FirstWidth(a)..]), Encode(b))
    ensures Encode(a + b) == Join(Encode(a), Encode(b))
  {
    var w := FirstWidth(a);
    EncodeUnfolds(a);
    FirstCharOfJoin(a, b);
    EncodeUnfolds(a + b);
    JoinAssociates(EncodeChar(a[..w]), Encode(a[w..]), Encode(b));
  }

  lemma {:induction false} PlainIsWellFormed(s: Str)
    requires NoSurrogates(s)
    ensures WellFormed(s)
    decreases |s|
  {
    if s != [] {
      PlainIsWellFormed(s[1..]);
    }
  }

  /** A tail of a well-formed string is well-formed exactly when it does not begin inside a pair. */
  lemma {:induction false} TailWellFormed(s: Str, i: nat)
    requires WellFormed(s) && i < |s|
    ensures WellFormed(s[i..]) <==> !IsLow(s[i])
    decreases |s|
  {
    var w := FirstWidth(s);
    if i == 0 {
      assert s[0..] == s;
    } else if i < w {
      assert i == 1 && w == 2;
    } else {
      assert s[w..][i - w..] == s[i..];
      TailWellFormed(s[w..], i - w);
    }
  }

  /** So is the part in front of it. */
  lemma {:induction false} FrontWellFormed(s: Str, i: nat)
    requires WellFormed(s) && i < |s|
    ensures WellFormed(s[..i]) <==> !IsLow(s[i])
    decreases |s|
  {
    var w := FirstWidth(s);
    var front := s[..i];
    if i == 0 {
      assert front == [];
    } else if i < w {
      assert front == [s[0]];
    } else {
      assert s[w..][..i - w] == front[w..] && s[w..][i - w] == s[i];
      FrontWellFormed(s[w..], i - w);
      assert FirstWidth(front) == w;
    }
  }

  /** What is broken stays broken unless the next character completes it. */
  lemma {:induction false} IllFormedStays(a: Str, b: Str)
    requires !WellFormed(a) && (b == [] || !IsLow(b[0]))
    ensures !WellFormed(a + b)
    decreases |a|
  {
    var w := FirstWidth(a);
    if w > 0 {
      FirstCharOfJoin(a, b);
      IllFormedStays(a[w..], b);
    } else {
      assert (a + b)[0] == a[0];
      assert |a| > 1 ==> (a + b)[1] == a[1];
    }
  }

  /** A string in front of a plain character is well-formed exactly when both sides are. */
  lemma JoinWellFormed(a: Str, b: Str)
    requires b == [] || !IsLow(b[0])
    ensures WellFormed(a + b) <==> WellFormed(a) && WellFormed(b)
  {
    if WellFormed(a) {
      EncodeJoins(a, b);
    } else {
      IllFormedStays(a, b);
    }
  }

  // ----- Decoding -----

  function HexValue(c: CodeUnit): (d: int)
    ensures d == -1 || 0 <= d < 16
  {
    if 0x30 <= c <= 0x39 then c as int - 0x30
    else if 0x41 <= c <= 0x46 then c as int - 0x41 + 10
    else if 0x61 <= c <= 0x66 then c as int - 0x61 + 10
    else -1
  }

  /** The value of an escape at this position, or -1. */
  function OctetAt(s: Str, at: nat): (b: int)
    ensures b == -1 || (0 <= b < 0x100 && at + 3 <= |s|)
  {
    if at + 3 <= |s| && s[at] == 0x25 && HexValue(s[at + 1]) >= 0 && HexValue(s[at + 2]) >= 0
    then 16 * HexValue(s[at + 1]) + HexValue(s[at + 2]) else -1
  }

  /** The payload of a continuation byte of UTF-8 at this position, or -1. */
  function MoreAt(s: Str, at: nat): (b: int)
    ensures b == -1 || (0 <= b < 0x40 && at + 3 <= |s|)
  {
    if 0x80 <= OctetAt(s, at) < 0xC0 then OctetAt(s, at) - 0x80 else -1
  }

  /** A code point in UTF-16. */
  function Utf16(cp: int): Str
    requires 0 <= cp < 0x11_0000
  {
    if cp < 0x1_0000 then [cp as CodeUnit]
    else [(0xD800 + (cp - 0x1_0000) / 0x400) as CodeUnit, (0xDC00 + (cp - 0x1_0000) % 0x400) as CodeUnit]
  }

  /** The first character of an encoded string, and how many code units it takes there; none if there
      is no character. */
  function DecodeFirst(s: Str): (r: (Str, nat))
    requires s != []
    ensures r.1 <= |s|
  {
    var b := OctetAt(s, 0);
    if s[0] != 0x25 then (if s[0] < 0x80 then ([s[0]], 1) else ([], 0))
    else if 0 <= b < 0x80 then (Utf16(b), 3)
    else if 0xC0 <= b < 0xE0 && MoreAt(s, 3) >= 0 then (Utf16((b - 0xC0) * 0x40 + MoreAt(s, 3)), 6)
    else if 0xE0 <= b < 0xF0 && MoreAt(s, 3) >= 0 && MoreAt(s, 6) >= 0 then
      (Utf16((b - 0xE0) * 0x1000 + MoreAt(s, 3) * 0x40 + MoreAt(s, 6)), 9)
    else if 0xF0 <= b < 0xF8 && MoreAt(s, 3) >= 0 && MoreAt(s, 6) >= 0 && MoreAt(s, 9) >= 0
            && (b - 0xF0) * 0x4_0000 + MoreAt(s, 3) * 0x1000 + MoreAt(s, 6) * 0x40 + MoreAt(s, 9) < 0x11_0000 then
      (Utf16((b - 0xF0) * 0x4_0000 + MoreAt(s, 3) * 0x1000 + MoreAt(s, 6) * 0x40 + MoreAt(s, 9)), 12)
    else ([], 0)
  }

  function Decode(s: Str): Option<Str>
    decreases |s|
  {
    if s == [] then Some([])
    else if DecodeFirst(s).1 == 0 then None
    else
      match Decode(s[DecodeFirst(s).1..])
      case Some(rest) => Some(DecodeFirst(s).0 + rest)
      case None => None
  }

  lemma HexReadsBack(d: int)
    requires 0 <= d < 16
    ensures HexValue(HexDigit(d)) == d && HexDigit(d) as int == "0123456789ABCDEF"[d] as int
  {
  }

  /** An escape is read back wherever it stands. */
  lemma OctetReadsBack(s: Str, at: nat, b: int)
    requires 0 <= b < 0x100 && at + 3 <= |s| && s[at..at + 3] == Octet(b)
    ensures OctetAt(s, at) == b
  {
    assert s[at] == Octet(b)[0] && s[at + 1] == Octet(b)[1] && s[at + 2] == Octet(b)[2];
    HexReadsBack(b / 16);
    HexReadsBack(b % 16);
  }

  /** The UTF-8 form of a code point. */
  function Utf8(cp: int): (b: seq<int>)
    requires 0 <= cp < 0x11_0000
    ensures |b| > 0 && forall i :: 0 <= i < |b| ==> 0 <= b[i] < 0x100
  {
    if cp < 0x80 then [cp]
    else if cp < 0x800 then [0xC0 + cp / 0x40, 0x80 + cp % 0x40]
    else if cp < 0x1_0000 then [0xE0 + cp / 0x1000, 0x80 + cp / 0x40 % 0x40, 0x80 + cp % 0x40]
    else [0xF0 + cp / 0x4_0000, 0x80 + cp / 0x1000 % 0x40, 0x80 + cp / 0x40 % 0x40, 0x80 + cp % 0x40]
  }

  /** The escapes of a code point are those of its bytes, one behind the other. */
  lemma EscapesAt(cp: int, i: nat)
    requires 0 <= cp < 0x11_0000 && i < |Utf8(cp)|
    ensures |Escapes(cp)| == 3 * |Utf8(cp)| && Escapes(cp)[3 * i..3 * i + 3] == Octet(Utf8(cp)[i])
  {
  }

  lemma EscapeReadsBack(cp: int, rest: Str, i: nat)
    requires 0 <= cp < 0x11_0000 && i < |Utf8(cp)|
    ensures OctetAt(Escapes(cp) + rest, 3 * i) == Utf8(cp)[i]
  {
    EscapesAt(cp, i);
    var s := Escapes(cp) + rest;
    assert s[3 * i..3 * i + 3] == Escapes(cp)[3 * i..3 * i + 3];
    OctetReadsBack(s, 3 * i, Utf8(cp)[i]);
  }

  lemma Sextets(cp: int)
    requires 0 <= cp < 0x11_0000
    ensures cp == cp / 0x40 * 0x40 + cp % 0x40
    ensures cp == cp / 0x1000 * 0x1000 + cp / 0x40 % 0x40 * 0x40 + cp % 0x40
    ensures cp == cp / 0x4_0000 * 0x4_0000 + cp / 0x1000 % 0x40 * 0x1000 + cp / 0x40 % 0x40 * 0x40 + cp % 0x40
  {
    var a := cp / 0x40;
    var b := a / 0x40;
    assert cp / 0x1000 == b && cp / 0x4_0000 == b / 0x40;
  }

  lemma FirstEscape(cp: int, rest: Str)
    requires 0 <= cp < 0x11_0000
    ensures Escapes(cp) != [] && (Escapes(cp) + rest)[0] == 0x25
  {
    EscapesAt(cp, 0);
    assert Escapes(cp)[0..3][0] == Octet(Utf8(cp)[0])[0];
  }

  lemma MoreReadsBack(cp: int, rest: Str, i: nat)
    requires 0 <= cp < 0x11_0000 && 0 < i < |Utf8(cp)|
    ensures MoreAt(Escapes(cp) + rest, 3 * i) == Utf8(cp)[i] - 0x80
  {
    EscapeReadsBack(cp, rest, i);
  }

  lemma EscapesReadBack(cp: int, rest: Str)
    requires 0 <= cp < 0x11_0000
    ensures DecodeFirst(Escapes(cp) + rest) == (Utf16(cp), |Escapes(cp)|)
  {
    FirstEscape(cp, rest);
    var s := Escapes(cp) + rest;
    if cp < 0x80 {
      OneReadsBack(cp, rest);
    } else if cp < 0x800 {
      TwoReadBack(cp, rest);
    } else if cp < 0x1_0000 {
      ThreeReadBack(cp, rest);
    } else {
      FourReadBack(cp, rest);
    }
  }

  lemma OneReadsBack(cp: int, rest: Str)
    requires 0 <= cp < 0x80
    ensures OctetAt(Escapes(cp) + rest, 0) == cp && |Escapes(cp)| == 3
  {
    EscapeReadsBack(cp, rest, 0);
    EscapesAt(cp, 0);
  }

  lemma TwoReadBack(cp: int, rest: Str)
    requires 0x80 <= cp < 0x800
    ensures var s := Escapes(cp) + rest;
            && |Escapes(cp)| == 6 && 0xC0 <= OctetAt(s, 0) < 0xE0 && MoreAt(s, 3) >= 0
            && (OctetAt(s, 0) - 0xC0) * 0x40 + MoreAt(s, 3) == cp
  {
    EscapeReadsBack(cp, rest, 0);
    MoreReadsBack(cp, rest, 1);
    EscapesAt(cp, 0);
    Sextets(cp);
  }

  lemma ThreeReadBack(cp: int, rest: Str)
    requires 0x800 <= cp < 0x1_0000
    ensures var s := Escapes(cp) + rest;
            && |Escapes(cp)| == 9 && 0xE0 <= OctetAt(s, 0) < 0xF0 && MoreAt(s, 3) >= 0 && MoreAt(s, 6) >= 0
            && (OctetAt(s, 0) - 0xE0) * 0x1000 + MoreAt(s, 3) * 0x40 + MoreAt(s, 6) == cp
  {
    EscapeReadsBack(cp, rest, 0);
    MoreReadsBack(cp, rest, 1);
    MoreReadsBack(cp, rest, 2);
    EscapesAt(cp, 0);
    Sextets(cp);
  }

  lemma FourReadBack(cp: int, rest: Str)
    requires 0x1_0000 <= cp < 0x11_0000
    ensures var s := Escapes(cp) + rest;
            && |Escapes(cp)| == 12 && 0xF0 <= OctetAt(s, 0) < 0xF8
            && MoreAt(s, 3) >= 0 && MoreAt(s, 6) >= 0 && MoreAt(s, 9) >= 0
            && (OctetAt(s, 0) - 0xF0) * 0x4_0000 + MoreAt(s, 3) * 0x1000 + MoreAt(s, 6) * 0x40 + MoreAt(s, 9) == cp
  {
    EscapeReadsBack(cp, rest, 0);
    MoreReadsBack(cp, rest, 1);
    MoreReadsBack(cp, rest, 2);
    MoreReadsBack(cp, rest, 3);
    EscapesAt(cp, 0);
    Sextets(cp);
  }

  lemma PlainReadsBack(c: CodeUnit, rest: Str)
    requires c < 0x80 && c != 0x25
    ensures DecodeFirst([c] + rest) == ([c], 1)
  {
    assert ([c] + rest)[0] == c;
  }

  lemma CharReadsBack(u: Str, rest: Str)
    requires OneChar(u)
    ensures DecodeFirst(EncodeChar(u) + rest) == (u, |EncodeChar(u)|)
  {
    if |u| == 2 {
      EscapesReadBack(CodePoint(u[0], u[1]), rest);
      PairReadsBack(u[0], u[1]);
      assert u == [u[0], u[1]];
    } else {
      assert u == [u[0]];
      UnitReadsBack(u[0], rest);
    }
  }

  lemma UnitReadsBack(c: CodeUnit, rest: Str)
    requires !IsHigh(c) && !IsLow(c)
    ensures DecodeFirst(EncodeChar([c]) + rest) == ([c], |EncodeChar([c])|)
  {
    if Unescaped(c) {
      PlainReadsBack(c, rest);
    } else {
      EscapesReadBack(c as int, rest);
    }
  }

  lemma PairReadsBack(high: CodeUnit, low: CodeUnit)
    requires IsHigh(high) && IsLow(low)
    ensures Utf16(CodePoint(high, low)) == [high, low]
  {
    var h, l := high as int - 0xD800, low as int - 0xDC00;
    assert CodePoint(high, low) - 0x1_0000 == h * 0x400 + l;
    assert (h * 0x400 + l) / 0x400 == h && (h * 0x400 + l) % 0x400 == l;
  }

  /** What is encoded is what is decoded, for every well-formed string. */
  lemma {:induction false} EncodeReadsBack(s: Str)
    requires WellFormed(s)
    ensures Decode(Encode(s).value) == Some(s)
    decreases |s|
  {
    if s != [] {
      var w := FirstWidth(s);
      EncodeReadsBack(s[w..]);
      EncodeUnfolds(s);
      CharReadsBack(s[..w], Encode(s[w..]).value);
      DecodeBehind(EncodeChar(s[..w]), Encode(s[w..]).value, s[..w], s[w..]);
      assert s == s[..w] + s[w..];
    }
  }

  lemma DecodeBehind(code: Str, rest: Str, first: Str, others: Str)
    requires code != [] && DecodeFirst(code + rest) == (first, |code|) && Decode(rest) == Some(others)
    ensures Decode(code + rest) == Some(first + others)
  {
    assert (code + rest)[|code|..] == rest;
  }

  /** Nothing in an encoded string has a meaning in a URL: it is letters, digits, marks and escapes. */
  predicate Harmless(c: CodeUnit) {
    || c == 0x25 || 0x30 <= c <= 0x39 || 0x41 <= c <= 0x5A || 0x61 <= c <= 0x7A
    || c == 0x2D || c == 0x5F || c == 0x2E || c == 0x21 || c == 0x7E || c == 0x2A || c == 0x27 || c == 0x28 || c == 0x29
  }

  lemma {:induction false} EncodedIsHarmless(s: Str)
    requires WellFormed(s)
    ensures forall c :: c in Encode(s).value ==> Harmless(c)
    decreases |s|
  {
    if s != [] {
      var w := FirstWidth(s);
      EncodedIsHarmless(s[w..]);
      CharIsHarmless(s[..w]);
      EncodeUnfolds(s);
    }
  }

  /** What is harmless, but for the percent sign itself, stays as it is. */
  lemma HarmlessStays(c: CodeUnit)
    requires Harmless(c) && c != 0x25
    ensures Encode([c]) == Some([c])
  {
    assert [c][1..] == [];
    assert Encode([c][1..]) == Some([]);
    assert [c][..1] == [c] && [c] + [] == [c];
  }

  lemma CharIsHarmless(u: Str)
    requires OneChar(u)
    ensures forall c :: c in EncodeChar(u) ==> Harmless(c)
  {
    if |u| == 2 {
      EscapesAreHarmless(CodePoint(u[0], u[1]));
    } else if !Unescaped(u[0]) {
      EscapesAreHarmless(u[0] as int);
    }
  }

  lemma OctetIsHarmless(b: int)
    requires 0 <= b < 0x100
    ensures forall c :: c in Octet(b) ==> Harmless(c)
  {
  }

  lemma EscapesAreHarmless(cp: int)
    requires 0 <= cp < 0x11_0000
    ensures forall c :: c in Escapes(cp) ==> Harmless(c)
  {
    var b := Utf8(cp);
    EscapesAt(cp, 0);
    forall i | 0 <= i < |Escapes(cp)| ensures Harmless(Escapes(cp)[i]) {
      EscapesAt(cp, i / 3);
      OctetIsHarmless(b[i / 3]);
      assert Escapes(cp)[i] == Escapes(cp)[3 * (i / 3)..3 * (i / 3) + 3][i % 3];
      assert Escapes(cp)[i] in Octet(b[i / 3]);
    }
  }
}
