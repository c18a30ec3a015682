/** The derived identifiers of a conductor operation: two FNV-1a digests over length-prefixed parts, in hexadecimal. */
module StableIdentifiers {
  import opened Collections
  import opened Strings

  const WORD := 0x1_0000_0000_0000_0000
  const FNV_PRIME := 0x0000_0100_0000_01b3
  const FIRST_SEED := 0xcbf2_9ce4_8422_2325
  const SECOND_SEED := 0x8422_2325_cbf2_9ce4
  const SECOND_MASK := 0xa5

  type u64 = x: int | 0 <= x < 0x1_0000_0000_0000_0000

  function Xor(a: nat, b: nat): nat {
    if a == 0 && b == 0 then 0 else 2 * Xor(a / 2, b / 2) + (a % 2 + b % 2) % 2
  }

  function Pow2(k: nat): nat {
    if k == 0 then 1 else 2 * Pow2(k - 1)
  }

  lemma XorBits(a: nat, b: nat)
    ensures Xor(a, b) == 2 * Xor(a / 2, b / 2) + (a % 2 + b % 2) % 2
    ensures Xor(a, b) / 2 == Xor(a / 2, b / 2) && Xor(a, b) % 2 == (a % 2 + b % 2) % 2
  {}

  lemma XorZero()
    ensures Xor(0, 0) == 0
  {}

  lemma {:induction false} XorUndoes(a: nat, b: nat)
    ensures Xor(Xor(a, b), b) == a
    decreases a + b
  {
    hide Xor;
    if a == 0 && b == 0 {
      XorZero();
    } else {
      XorUndoes(a / 2, b / 2);
      XorBits(a, b);
      XorBits(Xor(a, b), b);
    }
  }

  lemma {:induction false} XorCommutes(a: nat, b: nat)
    ensures Xor(a, b) == Xor(b, a)
  {
    if a != 0 || b != 0 {
      XorCommutes(a / 2, b / 2);
    }
  }

  lemma {:induction false} XorBound(a: nat, b: nat, k: nat)
    requires a < Pow2(k) && b < Pow2(k)
    ensures Xor(a, b) < Pow2(k)
  {
    if k > 0 {
      XorBound(a / 2, b / 2, k - 1);
    }
  }

  lemma Powers()
    ensures Pow2(8) == 256 && Pow2(64) == WORD
  {
    assert Pow2(8) == 256;
    assert Pow2(16) == 0x1_0000;
    assert Pow2(24) == 0x100_0000;
    assert Pow2(32) == 0x1_0000_0000;
    assert Pow2(40) == 0x100_0000_0000;
    assert Pow2(48) == 0x1_0000_0000_0000;
    assert Pow2(56) == 0x100_0000_0000_0000;
  }

  /** `fnv_step`: xor, then a wrapping multiplication. */
  function FnvStep(state: u64, b: byte): u64 {
    Xor(state, b) * FNV_PRIME % WORD
  }

  const PRIME_INVERSE := 0xce965057aff6957b

  lemma TimesPrimeIsInjective(x: u64, y: u64)
    requires x * FNV_PRIME % WORD == y * FNV_PRIME % WORD
    ensures x == y
  {
    var kx, ky := x * FNV_PRIME / WORD, y * FNV_PRIME / WORD;
    assert (x - y) * FNV_PRIME == (kx - ky) * WORD;
    assert x - y == ((kx - ky) * PRIME_INVERSE - (x - y) * (FNV_PRIME * PRIME_INVERSE / WORD)) * WORD;
  }

  function Absorb(state: u64, bytes: seq<byte>): u64
    decreases |bytes|
  {
    if bytes == [] then state else Absorb(FnvStep(state, bytes[0]), bytes[1..])
  }

  /** The second digest sees every byte with the mask applied. */
  function Masked(bytes: seq<byte>): (r: seq<byte>)
    ensures |r| == |bytes| && forall i :: 0 <= i < |bytes| ==> r[i] == MaskByte(bytes[i])
  {
    seq(|bytes|, i requires 0 <= i < |bytes| => MaskByte(bytes[i]))
  }

  function MaskByte(b: byte): byte {
    Powers();
    XorBound(b, SECOND_MASK, 8);
    Xor(b, SECOND_MASK)
  }

  /** `u64::to_le_bytes`, for a word of `width` bytes. */
  function LittleEndian(n: nat, width: nat): (r: seq<byte>)
    ensures |r| == width
  {
    if width == 0 then [] else [n % 256] + LittleEndian(n / 256, width - 1)
  }

  function Part(part: string): seq<byte> {
    LittleEndian(ByteLength(part), 8) + Encode(part)
  }

  /** The bytes both digests absorb: every part after its length. */
  function Stream(parts: seq<string>): seq<byte> {
    if parts == [] then [] else Part(parts[0]) + Stream(parts[1..])
  }

  const HEX := "0123456789abcdef"

  function HexDigits(n: nat, width: nat): (r: string)
    ensures |r| == width
  {
    if width == 0 then "" else HexDigits(n / 16, width - 1) + [HEX[n % 16]]
  }

  function StableIdentifier(prefix: string, parts: seq<string>): string {
    var bytes := Stream(parts);
    prefix + "-" + (HexDigits(Absorb(FIRST_SEED, bytes), 16) + HexDigits(Absorb(SECOND_SEED, Masked(bytes)), 16))
  }

  // ---- The loop of `stable_identifier` ----

  lemma {:induction false} AbsorbAppend(state: u64, a: seq<byte>, b: seq<byte>)
    ensures Absorb(state, a + b) == Absorb(Absorb(state, a), b)
    decreases |a|
  {
    if a == [] {
      assert a + b == b;
    } else {
      assert (a + b)[1..] == a[1..] + b;
      AbsorbAppend(FnvStep(state, a[0]), a[1..], b);
    }
  }

  lemma MaskedAppend(a: seq<byte>, b: seq<byte>)
    ensures Masked(a + b) == Masked(a) + Masked(b)
  {}

  /** Both digests take the bytes one at a time. */
  method AbsorbBoth(bytes: seq<byte>, first: u64, second: u64) returns (first': u64, second': u64)
    ensures first' == Absorb(first, bytes) && second' == Absorb(second, Masked(bytes))
  {
    first', second' := first, second;
    for i := 0 to |bytes|
      invariant first' == Absorb(first, bytes[..i])
      invariant second' == Absorb(second, Masked(bytes)[..i])
    {
      AbsorbAppend(first, bytes[..i], [bytes[i]]);
      AbsorbAppend(second, Masked(bytes)[..i], [MaskByte(bytes[i])]);
      assert bytes[..i] + [bytes[i]] == bytes[..i + 1];
      assert Masked(bytes)[..i] + [MaskByte(bytes[i])] == Masked(bytes)[..i + 1];
      first' := FnvStep(first', bytes[i]);
      second' := FnvStep(second', MaskByte(bytes[i]));
    }
    assert bytes[..|bytes|] == bytes && Masked(bytes)[..|bytes|] == Masked(bytes);
  }

  method ComputeStableIdentifier(prefix: string, parts: seq<string>) returns (id: string)
    ensures id == StableIdentifier(prefix, parts)
  {
    var first: u64, second: u64 := FIRST_SEED, SECOND_SEED;
    for i := 0 to |parts|
      invariant Absorb(first, Stream(parts[i..])) == Absorb(FIRST_SEED, Stream(parts))
      invariant Absorb(second, Masked(Stream(parts[i..]))) == Absorb(SECOND_SEED, Masked(Stream(parts)))
    {
      hide Absorb, Part, MaskByte, Masked;
      var rest := Stream(parts[i + 1..]);
      assert parts[i..][1..] == parts[i + 1..];
      MaskedAppend(Part(parts[i]), rest);
      AbsorbAppend(first, Part(parts[i]), rest);
      AbsorbAppend(second, Masked(Part(parts[i])), Masked(rest));
      first, second := AbsorbBoth(Part(parts[i]), first, second);
    }
    id := prefix + "-" + (HexDigits(first, 16) + HexDigits(second, 16));
  }

  // ---- One differing byte ----

  lemma FnvStepIsInjective(s: u64, b: byte, s': u64, b': byte)
    requires FnvStep(s, b) == FnvStep(s', b')
    ensures b == b' ==> s == s'
    ensures s == s' ==> b == b'
  {
    Powers();
    XorBound(s, b, 64);
    XorBound(s', b', 64);
    TimesPrimeIsInjective(Xor(s, b), Xor(s', b'));
    XorUndoes(s, b);
    XorUndoes(s', b');
    XorCommutes(s, b);
    XorCommutes(s', b');
    XorUndoes(b, s);
    XorUndoes(b', s');
  }

  lemma {:induction false} SameTailKeepsDifference(s: u64, s': u64, bytes: seq<byte>)
    requires s != s'
    ensures Absorb(s, bytes) != Absorb(s', bytes)
    decreases |bytes|
  {
    if bytes != [] {
      hide FnvStep;
      if FnvStep(s, bytes[0]) == FnvStep(s', bytes[0]) {
        FnvStepIsInjective(s, bytes[0], s', bytes[0]);
      }
      SameTailKeepsDifference(FnvStep(s, bytes[0]), FnvStep(s', bytes[0]), bytes[1..]);
    }
  }

  /** Every step of the digest is a bijection of the state, so one changed byte is never absorbed away. */
  lemma OneByteChangesDigest(seed: u64, head: seq<byte>, b: byte, b': byte, tail: seq<byte>)
    requires b != b'
    ensures Absorb(seed, head + [b] + tail) != Absorb(seed, head + [b'] + tail)
  {
    var s := Absorb(seed, head);
    AbsorbAppend(seed, head, [b]);
    AbsorbAppend(seed, head + [b], tail);
    AbsorbAppend(seed, head, [b']);
    AbsorbAppend(seed, head + [b'], tail);
    hide FnvStep;
    if FnvStep(s, b) == FnvStep(s, b') {
      FnvStepIsInjective(s, b, s, b');
    }
    SameTailKeepsDifference(FnvStep(s, b), FnvStep(s, b'), tail);
  }

  lemma HexIsDistinct(i: nat, j: nat)
    requires i < 16 && j < 16 && HEX[i] == HEX[j]
    ensures i == j
  {
    assert forall k :: 0 <= k < 16 ==> HEX[k] as int == if k < 10 then 48 + k else 87 + k;
  }

  lemma {:induction false} HexIsInjective(n: nat, m: nat, width: nat)
    requires n < Power16(width) && m < Power16(width) && HexDigits(n, width) == HexDigits(m, width)
    ensures n == m
  {
    if width > 0 {
      var a, b := HexDigits(n, width), HexDigits(m, width);
      assert a[..width - 1] == HexDigits(n / 16, width - 1) && b[..width - 1] == HexDigits(m / 16, width - 1);
      assert a[width - 1] == HEX[n % 16] && b[width - 1] == HEX[m % 16];
      HexIsInjective(n / 16, m / 16, width - 1);
      HexIsDistinct(n % 16, m % 16);
    }
  }

  lemma WordInHex()
    ensures Power16(16) == WORD
  {
    assert Power16(4) == 0x1_0000;
    assert Power16(8) == 0x1_0000_0000;
    assert Power16(12) == 0x1_0000_0000_0000;
  }

  lemma SameIdentifierSameDigest(prefix: string, parts: seq<string>, parts': seq<string>)
    requires StableIdentifier(prefix, parts) == StableIdentifier(prefix, parts')
    ensures Absorb(FIRST_SEED, Stream(parts)) == Absorb(FIRST_SEED, Stream(parts'))
  {
    hide Absorb, Stream, HexDigits;
    var h, h' := HexDigits(Absorb(FIRST_SEED, Stream(parts)), 16), HexDigits(Absorb(FIRST_SEED, Stream(parts')), 16);
    var n := |prefix| + 1;
    assert StableIdentifier(prefix, parts)[n..n + 16] == h;
    assert StableIdentifier(prefix, parts')[n..n + 16] == h';
    WordInHex();
    HexIsInjective(Absorb(FIRST_SEED, Stream(parts)), Absorb(FIRST_SEED, Stream(parts')), 16);
  }

  // ---- The stream names its parts ----

  lemma {:induction false} LittleEndianIsInjective(n: nat, m: nat, width: nat)
    requires n < Power16(2 * width) && m < Power16(2 * width) && LittleEndian(n, width) == LittleEndian(m, width)
    ensures n == m
  {
    if width > 0 {
      var a, b := LittleEndian(n, width), LittleEndian(m, width);
      assert a[0] == n % 256 && b[0] == m % 256;
      assert a[1..] == LittleEndian(n / 256, width - 1) && b[1..] == LittleEndian(m / 256, width - 1);
      assert Power16(2 * width) == 256 * Power16(2 * (width - 1))
        by { assert Power16(2 * width - 1) == 16 * Power16(2 * (width - 1)); }
      LittleEndianIsInjective(n / 256, m / 256, width - 1);
    }
  }

  lemma EncodeIsInjective(a: string, b: string)
    requires Encode(a) == Encode(b)
    ensures a == b
  {
    DecodeIsInverseOfEncode(Encode(a), a);
    DecodeIsInverseOfEncode(Encode(a), b);
  }

  predicate Sized(parts: seq<string>) {
    forall i :: 0 <= i < |parts| ==> ByteLength(parts[i]) < WORD
  }

  /** The length prefixes make the byte stream name its parts, and how many there are. */
  lemma {:induction false} StreamIsInjective(parts: seq<string>, parts': seq<string>)
    requires Sized(parts) && Sized(parts') && Stream(parts) == Stream(parts')
    ensures parts == parts'
  {
    if parts != [] && parts' != [] {
      var a, a' := parts[0], parts'[0];
      var s := Stream(parts);
      assert s[..8] == LittleEndian(ByteLength(a), 8) && s[..8] == LittleEndian(ByteLength(a'), 8);
      WordInHex();
      LittleEndianIsInjective(ByteLength(a), ByteLength(a'), 8);
      assert s[8..8 + ByteLength(a)] == Encode(a) && s[8..8 + ByteLength(a)] == Encode(a');
      EncodeIsInjective(a, a');
      assert s[8 + ByteLength(a)..] == Stream(parts[1..]) && s[8 + ByteLength(a)..] == Stream(parts'[1..]);
      StreamIsInjective(parts[1..], parts'[1..]);
      assert parts == [a] + parts[1..] && parts' == [a'] + parts'[1..];
    }
  }

  lemma {:induction false} StreamAppend(a: seq<string>, b: seq<string>)
    ensures Stream(a + b) == Stream(a) + Stream(b)
  {
    if a == [] {
      assert a + b == b;
    } else {
      hide Part;
      assert (a + b)[1..] == a[1..] + b;
      StreamAppend(a[1..], b);
      Associates(Part(a[0]), Stream(a[1..]), Stream(b));
    }
  }

  /** Two inputs of equal part lengths that differ in exactly one byte never share an identifier. */
  lemma OneByteChangesIdentifier(
    prefix: string, before: seq<string>, part: string, part': string, after: seq<string>, i: nat)
    requires i < ByteLength(part) == ByteLength(part')
    requires Encode(part)[i] != Encode(part')[i]
    requires forall k :: 0 <= k < ByteLength(part) && k != i ==> Encode(part)[k] == Encode(part')[k]
    ensures StableIdentifier(prefix, before + [part] + after) != StableIdentifier(prefix, before + [part'] + after)
  {
    hide Absorb, Stream, StableIdentifier, Encode, LittleEndian;
    var e, e' := Encode(part), Encode(part');
    var size := LittleEndian(ByteLength(part), 8);
    var head, tail := Stream(before) + size + e[..i], e[i + 1..] + Stream(after);
    StreamAround(before, part, after);
    StreamAround(before, part', after);
    assert e[..i] == e'[..i] && e[i + 1..] == e'[i + 1..];
    assert Stream(before + [part] + after) == head + [e[i]] + tail;
    assert Stream(before + [part'] + after) == head + [e'[i]] + tail;
    OneByteChangesDigest(FIRST_SEED, head, e[i], e'[i], tail);
    if StableIdentifier(prefix, before + [part] + after) == StableIdentifier(prefix, before + [part'] + after) {
      SameIdentifierSameDigest(prefix, before + [part] + after, before + [part'] + after);
    }
  }

  lemma StreamAround(before: seq<string>, part: string, after: seq<string>)
    ensures Stream(before + [part] + after)
            == Stream(before) + (LittleEndian(ByteLength(part), 8) + Encode(part)) + Stream(after)
  {
    hide Stream, Part, Encode, LittleEndian;
    StreamAppend(before, [part]);
    StreamAppend(before + [part], after);
    StreamOfOne(part);
  }

  lemma StreamOfOne(part: string)
    ensures Stream([part]) == LittleEndian(ByteLength(part), 8) + Encode(part)
  {
    hide Encode, LittleEndian;
    assert [part][1..] == [] && Part(part) + [] == Part(part);
  }

  // ---- Validity ----

  lemma {:induction false} HexIsAlphanumeric(n: nat, width: nat)
    ensures forall i :: 0 <= i < width ==> IsAsciiAlphanumeric(HexDigits(n, width)[i])
  {
    if width > 0 {
      HexIsAlphanumeric(n / 16, width - 1);
      var h := HexDigits(n / 16, width - 1);
      forall i | 0 <= i < width ensures IsAsciiAlphanumeric(HexDigits(n, width)[i]) {
        if i < width - 1 { assert HexDigits(n, width)[i] == h[i]; }
      }
    }
  }

  lemma ValidIsAscii(s: string)
    requires forall i :: 0 <= i < |s| ==> IsAsciiAlphanumeric(s[i]) || s[i] in "._-"
    ensures Ascii(s)
  {}

  /** Every derived identifier is itself a valid identifier, within the 128 bytes allowed. */
  lemma DerivedIsValid(prefix: string, parts: seq<string>)
    requires ValidIdentifier(prefix) && |prefix| <= 95
    ensures ValidIdentifier(StableIdentifier(prefix, parts))
  {
    hide Absorb, Stream, HexDigits;
    var bytes := Stream(parts);
    var first, second := Absorb(FIRST_SEED, bytes), Absorb(SECOND_SEED, Masked(bytes));
    HexIsAlphanumeric(first, 16);
    HexIsAlphanumeric(second, 16);
    var id := StableIdentifier(prefix, parts);
    var a, b := HexDigits(first, 16), HexDigits(second, 16);
    forall i | 0 <= i < |id| ensures IsAsciiAlphanumeric(id[i]) || (id[i] in "._-" && i > 0) {
      var n := |prefix| + 1;
      if i < |prefix| {
        assert id[i] == prefix[i];
      } else if i == |prefix| {
        assert id[i] == '-';
      } else if i < n + 16 {
        assert id[i] == a[i - n];
      } else {
        assert id[i] == b[i - n - 16];
      }
    }
    ValidIsAscii(id);
    EncodeAscii(id);
  }
}
