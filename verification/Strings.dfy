/**
 Rust strings. A `string` here is a sequence of Unicode scalar values, which is what a `str` holds;
 `Encode` is its UTF-8 form (section 3 of RFC 3629), and `str::len()` is `ByteLength`.
 */
module Strings {
  import opened Outcomes
  import opened Collections

  type byte = x: int | 0 <= x < 256

  function EncodeChar(c: char): (b: seq<byte>)
    ensures 1 <= |b| <= 4
  {
    var n := c as int;
    if n < 0x80 then [n]
    else if n < 0x800 then [0xC0 + n / 64, 0x80 + n % 64]
    else if n < 0x10000 then [0xE0 + n / 4096, 0x80 + n / 64 % 64, 0x80 + n % 64]
    else [0xF0 + n / 262144, 0x80 + n / 4096 % 64, 0x80 + n / 64 % 64, 0x80 + n % 64]
  }

  function Encode(s: string): seq<byte> {
    if s == [] then [] else EncodeChar(s[0]) + Encode(s[1..])
  }

  function ByteLength(s: string): nat {
    |Encode(s)|
  }

  predicate IsContinuation(b: byte) {
    0x80 <= b < 0xC0
  }

  /** The payload bits of a byte whose leading bits are `mark`. */
  function Bits(b: byte, mark: byte): int {
    b - mark
  }

  /** One scalar value and the number of bytes it takes, as `str::from_utf8` accepts it. */
  function DecodeFirst(b: seq<byte>): (r: Option<(char, nat)>)
    requires b != []
    ensures r.Some? ==> 1 <= r.value.1 <= |b|
  {
    if b[0] < 0x80 then
      Some((b[0] as char, 1))
    else if 0xC2 <= b[0] < 0xE0 && |b| >= 2 && IsContinuation(b[1]) then
      Some(((Bits(b[0], 0xC0) * 64 + Bits(b[1], 0x80)) as char, 2))
    else if 0xE0 <= b[0] < 0xF0 && |b| >= 3 && IsContinuation(b[1]) && IsContinuation(b[2]) then
      var n := Bits(b[0], 0xE0) * 4096 + Bits(b[1], 0x80) * 64 + Bits(b[2], 0x80);
      if 0x800 <= n && !(0xD800 <= n < 0xE000) then Some((n as char, 3)) else None
    else if 0xF0 <= b[0] < 0xF5 && |b| >= 4 && IsContinuation(b[1]) && IsContinuation(b[2]) && IsContinuation(b[3]) then
      var n := Bits(b[0], 0xF0) * 262144 + Bits(b[1], 0x80) * 4096 + Bits(b[2], 0x80) * 64 + Bits(b[3], 0x80);
      if 0x10000 <= n < 0x110000 then Some((n as char, 4)) else None
    else
      None
  }

  function Decode(b: seq<byte>): Option<string> {
    if b == [] then Some("")
    else match DecodeFirst(b)
      case None => None
      case Some((c, n)) =>
        match Decode(b[n..])
        case None => None
        case Some(rest) => Some([c] + rest)
  }

  /** Base-64 digits, most significant first, are recovered by division and remainder. */
  lemma DigitsOf(d3: int, d2: int, d1: int, d0: int, n: int)
    requires 0 <= d3 && 0 <= d2 < 64 && 0 <= d1 < 64 && 0 <= d0 < 64
    requires n == d3 * 262144 + d2 * 4096 + d1 * 64 + d0
    ensures n % 64 == d0 && n / 64 % 64 == d1 && n / 4096 % 64 == d2 && n / 262144 == d3
    ensures n / 64 == d3 * 4096 + d2 * 64 + d1 && n / 4096 == d3 * 64 + d2
  {
    assert n / 64 == d3 * 4096 + d2 * 64 + d1;
    assert n / 4096 == d3 * 64 + d2;
    assert n / 262144 == d3;
  }

  lemma DigitsSum(n: nat)
    ensures n == n / 64 * 64 + n % 64
    ensures n == n / 4096 * 4096 + n / 64 % 64 * 64 + n % 64
    ensures n == n / 262144 * 262144 + n / 4096 % 64 * 4096 + n / 64 % 64 * 64 + n % 64
  {
    var q := n / 64;
    var p := q / 64;
    assert q == n / 4096 * 64 + q % 64 by { assert q / 64 == n / 4096; }
    assert p == n / 4096 && p / 64 == n / 262144;
  }

  lemma DecodeFirstOfEncoded(c: char, rest: seq<byte>)
    ensures DecodeFirst(EncodeChar(c) + rest) == Some((c, |EncodeChar(c)|))
  {
    DigitsSum(c as int);
  }

  lemma EncodedOfDecodeFirst(b: seq<byte>)
    requires b != [] && DecodeFirst(b).Some?
    ensures EncodeChar(DecodeFirst(b).value.0) == b[..DecodeFirst(b).value.1]
  {
    var (c, n) := DecodeFirst(b).value;
    if n == 2 {
      DigitsOf(0, 0, Bits(b[0], 0xC0), Bits(b[1], 0x80), c as int);
    } else if n == 3 {
      DigitsOf(0, Bits(b[0], 0xE0), Bits(b[1], 0x80), Bits(b[2], 0x80), c as int);
    } else if n == 4 {
      DigitsOf(Bits(b[0], 0xF0), Bits(b[1], 0x80), Bits(b[2], 0x80), Bits(b[3], 0x80), c as int);
    }
  }

  /** A byte sequence is valid UTF-8 for `s` exactly when it is the encoding of `s`. */
  lemma {:induction false} DecodeIsInverseOfEncode(b: seq<byte>, s: string)
    ensures Decode(b) == Some(s) <==> b == Encode(s)
    decreases |b| + |s|
  {
    if b == Encode(s) && s != [] {
      DecodeFirstOfEncoded(s[0], Encode(s[1..]));
      assert b[|EncodeChar(s[0])|..] == Encode(s[1..]);
      DecodeIsInverseOfEncode(Encode(s[1..]), s[1..]);
      assert [s[0]] + s[1..] == s;
    }
    if b != [] && Decode(b) == Some(s) {
      var n := DecodeFirst(b).value.1;
      EncodedOfDecodeFirst(b);
      DecodeIsInverseOfEncode(b[n..], s[1..]);
      assert b == b[..n] + b[n..];
    }
  }

  /** An encoded string in front of other bytes is decoded first. */
  lemma {:induction false} DecodeAfter(p: string, rest: seq<byte>)
    ensures Decode(Encode(p) + rest) == PrefixedBy(p, Decode(rest))
    decreases |p|
  {
    hide EncodeChar, Decode, PrefixedBy;
    if p == "" {
      assert Encode(p) + rest == rest;
      PrefixesJoin("", "", Decode(rest));
    } else {
      DecodeAfter(p[1..], rest);
      Associates(EncodeChar(p[0]), Encode(p[1..]), rest);
      DecodeCons(p[0], Encode(p[1..]) + rest);
      assert p == [p[0]] + p[1..];
      PrefixesJoin([p[0]], p[1..], Decode(rest));
    }
  }

  lemma PrefixesJoin(a: string, b: string, s: Option<string>)
    ensures PrefixedBy(a, PrefixedBy(b, s)) == PrefixedBy(a + b, s) && PrefixedBy("", s) == s
  {
    if s.Some? {
      assert a + (b + s.value) == a + b + s.value && "" + s.value == s.value;
    }
  }

  function PrefixedBy(p: string, s: Option<string>): Option<string> {
    match s
    case None => None
    case Some(text) => Some(p + text)
  }

  lemma DecodeCons(c: char, tail: seq<byte>)
    ensures Decode(EncodeChar(c) + tail) == PrefixedBy([c], Decode(tail))
  {
    hide EncodeChar, DecodeFirst;
    DecodeFirstOfEncoded(c, tail);
    assert (EncodeChar(c) + tail)[|EncodeChar(c)|..] == tail;
  }

  lemma {:induction false} EncodeAppend(a: string, b: string)
    ensures Encode(a + b) == Encode(a) + Encode(b)
  {
    if a == [] {
      assert a + b == b;
    } else {
      hide EncodeChar;
      EncodeAppend(a[1..], b);
      assert (a + b)[1..] == a[1..] + b;
      Associates(EncodeChar(a[0]), Encode(a[1..]), Encode(b));
    }
  }

  lemma {:induction false} EncodeAtLeastLength(s: string)
    ensures |s| <= |Encode(s)| && (s != [] ==> Encode(s) != [])
  {
    if s != [] {
      EncodeAtLeastLength(s[1..]);
    }
  }

  predicate Ascii(s: string) {
    forall i :: 0 <= i < |s| ==> s[i] as int < 0x80
  }

  lemma {:induction false} EncodeAscii(s: string)
    requires Ascii(s)
    ensures |Encode(s)| == |s| && forall i :: 0 <= i < |s| ==> Encode(s)[i] == s[i] as int
  {
    if s != [] {
      assert EncodeChar(s[0]) == [s[0] as int];
      EncodeAscii(s[1..]);
      forall i | 0 <= i < |s| ensures Encode(s)[i] == s[i] as int {
        if i > 0 {
          assert Encode(s)[i] == Encode(s[1..])[i - 1];
        }
      }
    }
  }

  /** The Unicode property White_Space, which `str::trim` strips. */
  predicate IsWhiteSpace(c: char) {
    var n := c as int;
    || 9 <= n <= 13 || n == 0x20 || n == 0x85 || n == 0xA0 || n == 0x1680 || 0x2000 <= n <= 0x200A
    || n == 0x2028 || n == 0x2029 || n == 0x202F || n == 0x205F || n == 0x3000
  }

  function TrimStart(s: string): string {
    if s != [] && IsWhiteSpace(s[0]) then TrimStart(s[1..]) else s
  }

  function TrimEnd(s: string): string {
    if s != [] && IsWhiteSpace(s[|s| - 1]) then TrimEnd(s[..|s| - 1]) else s
  }

  function Trim(s: string): string {
    TrimEnd(TrimStart(s))
  }

  /** The numbers of at most `k` hexadecimal digits are those below this. */
  function Power16(k: nat): nat {
    if k == 0 then 1 else 16 * Power16(k - 1)
  }

  predicate IsAsciiAlphanumeric(c: char) {
    'a' <= c <= 'z' || 'A' <= c <= 'Z' || '0' <= c <= '9'
  }

  predicate IsAsciiGraphic(c: char) {
    '!' <= c <= '~'
  }

  const MAXIMUM_IDENTIFIER_BYTES := 128

  /** `valid_identifier` of room.rs and conductor.rs, which hold the same code. */
  predicate ValidIdentifier(value: string) {
    && value != []
    && ByteLength(value) <= MAXIMUM_IDENTIFIER_BYTES
    && forall i :: 0 <= i < |value| ==>
         IsAsciiAlphanumeric(value[i]) || (value[i] in "._-" && i > 0)
  }

  /** `str::cmp`: comparing scalar values in order is the same as comparing UTF-8 bytes in order. */
  predicate LexLeq(a: string, b: string) {
    a == [] || (b != [] && (a[0] < b[0] || (a[0] == b[0] && LexLeq(a[1..], b[1..]))))
  }

  lemma {:induction false} LexTotal(a: string, b: string)
    ensures LexLeq(a, b) || LexLeq(b, a)
  {
    if a != [] && b != [] {
      LexTotal(a[1..], b[1..]);
    }
  }

  lemma {:induction false} LexAntisymmetric(a: string, b: string)
    requires LexLeq(a, b) && LexLeq(b, a)
    ensures a == b
  {
    if a != [] && b != [] {
      LexAntisymmetric(a[1..], b[1..]);
      assert a == [a[0]] + a[1..] && b == [b[0]] + b[1..];
    }
  }

  lemma {:induction false} LexTransitive(a: string, b: string, c: string)
    requires LexLeq(a, b) && LexLeq(b, c)
    ensures LexLeq(a, c)
  {
    if a != [] && a[0] == b[0] == c[0] {
      LexTransitive(a[1..], b[1..], c[1..]);
    }
  }
}
