/**
 What the texts, bytes and numbers underneath mean, told another way than they are computed: trimming, order,
 UTF-8, identifiers as the program checks them byte by byte, and the digits of derived identifiers.
 */
module TextLaws {
  import opened Strings
  import opened DispatchRecords
  import opened StableIdentifiers
  import opened ChunkedEncoder
  import opened ChunkedAnswers

  // ---- Trimming and order ----

  predicate Blank(s: string) {
    forall i :: 0 <= i < |s| ==> IsWhiteSpace(s[i])
  }

  /** `t` is `s` without the white space around it. */
  ghost predicate IsTrimmed(s: string, t: string) {
    && (t != "" ==> !IsWhiteSpace(t[0]) && !IsWhiteSpace(t[|t| - 1]))
    && exists a, b :: Blank(a) && Blank(b) && s == a + t + b
  }

  lemma {:induction false} TrimStartLeaves(s: string)
    ensures var t := TrimStart(s);
            && |t| <= |s| && t == s[|s| - |t|..] && Blank(s[..|s| - |t|]) && (t != "" ==> !IsWhiteSpace(t[0]))
  {
    if s != "" && IsWhiteSpace(s[0]) {
      TrimStartLeaves(s[1..]);
      var n := |s| - |TrimStart(s)|;
      assert s[..n] == [s[0]] + s[1..][..n - 1];
    }
  }

  lemma {:induction false} TrimEndLeaves(s: string)
    ensures var t := TrimEnd(s);
            && |t| <= |s| && t == s[..|t|] && Blank(s[|t|..]) && (t != "" ==> !IsWhiteSpace(t[|t| - 1]))
  {
    if s != "" && IsWhiteSpace(s[|s| - 1]) {
      var front := s[..|s| - 1];
      TrimEndLeaves(front);
      var n := |TrimEnd(s)|;
      assert s[n..] == front[n..] + [s[|s| - 1]];
    }
  }

  /** Trimming takes the white space on both sides, all of it and nothing else. */
  lemma TrimsExactly(s: string)
    ensures IsTrimmed(s, Trim(s))
  {
    hide IsWhiteSpace;
    var u := TrimStart(s);
    TrimStartLeaves(s);
    TrimEndLeaves(u);
    var t := TrimEnd(u);
    var a, b := s[..|s| - |u|], u[|t|..];
    assert s == a + u && u == t + b && a + (t + b) == a + t + b;
  }

  /** The order of a dictionary: a text comes before its extensions, or smaller at the first difference. */
  lemma {:induction false} LexIsDictionaryOrder(a: string, b: string)
    ensures LexLeq(a, b) <==>
              || a <= b
              || exists i :: 0 <= i < |a| && i < |b| && a[..i] == b[..i] && a[i] < b[i]
  {
    if a != "" && b != "" {
      LexIsDictionaryOrder(a[1..], b[1..]);
      if a[0] == b[0] {
        DifferAlike(a, b);
      } else if LexLeq(a, b) {
        assert a[..0] == b[..0];
      }
      if i :| 0 <= i < |a| && i < |b| && a[..i] == b[..i] && a[i] < b[i] {
        if i > 0 { assert a[0] == a[..i][0] == b[..i][0] == b[0]; }
      }
    }
  }

  lemma DifferAlike(a: string, b: string)
    requires a != "" && b != "" && a[0] == b[0]
    ensures a <= b <==> a[1..] <= b[1..]
    ensures (exists i :: 0 <= i < |a| && i < |b| && a[..i] == b[..i] && a[i] < b[i])
            <==> exists i :: 0 <= i < |a[1..]| && i < |b[1..]| && a[1..][..i] == b[1..][..i] && a[1..][i] < b[1..][i]
  {
    assert a == [a[0]] + a[1..] && b == [b[0]] + b[1..];
    if i :| 0 <= i < |a| && i < |b| && a[..i] == b[..i] && a[i] < b[i] {
      var j := i - 1;
      assert a[1..][..j] == a[..i][1..] && b[1..][..j] == b[..i][1..] && a[1..][j] < b[1..][j];
    }
    if i :| 0 <= i < |a[1..]| && i < |b[1..]| && a[1..][..i] == b[1..][..i] && a[1..][i] < b[1..][i] {
      var j := i + 1;
      assert a[..j] == [a[0]] + a[1..][..i] && b[..j] == [b[0]] + b[1..][..i] && a[j] < b[j];
    }
  }

  // ---- UTF-8 ----

  /** Section 3 of RFC 3629: the ranges, the octets, and the bits each of them carries. */
  lemma EncodedAsInTheTable(c: char)
    ensures var n, e := c as int, EncodeChar(c);
            && (n <= 0x7F <==> |e| == 1) && (0x80 <= n <= 0x7FF <==> |e| == 2)
            && (0x800 <= n <= 0xFFFF <==> |e| == 3) && (0x10000 <= n <==> |e| == 4)
            && (|e| == 1 ==> e[0] == n)
            && (|e| == 2 ==> 0xC2 <= e[0] <= 0xDF && n == Bits(e[0], 0xC0) * 64 + Bits(e[1], 0x80))
            && (|e| == 3 ==>
                  0xE0 <= e[0] <= 0xEF && n == Bits(e[0], 0xE0) * 4096 + Bits(e[1], 0x80) * 64 + Bits(e[2], 0x80))
            && (|e| == 4 ==>
                  && 0xF0 <= e[0] <= 0xF4
                  && n == Bits(e[0], 0xF0) * 262144 + Bits(e[1], 0x80) * 4096
                          + Bits(e[2], 0x80) * 64 + Bits(e[3], 0x80))
            && forall i :: 1 <= i < |e| ==> 0x80 <= e[i] <= 0xBF
  {
    DigitsSum(c as int);
  }

  // ---- Identifiers, byte by byte ----

  predicate AlphanumericByte(b: byte) {
    0x30 <= b <= 0x39 || 0x41 <= b <= 0x5A || 0x61 <= b <= 0x7A
  }

  lemma {:induction false} AsciiBytesAreAscii(s: string)
    requires forall b <- Encode(s) :: b < 0x80
    ensures Ascii(s)
  {
    if s != "" {
      assert forall b <- EncodeChar(s[0]) :: b in Encode(s);
      assert EncodeChar(s[0])[0] in EncodeChar(s[0]);
      assert forall b <- Encode(s[1..]) :: b in Encode(s);
      EncodedAsInTheTable(s[0]);
      AsciiBytesAreAscii(s[1..]);
    }
  }

  /** The rooms' and the conductor's `valid_identifier`: 1 to 128 bytes, the first of them a letter or digit. */
  lemma IdentifiersOnBytes(value: string)
    ensures var bytes := Encode(value);
            ValidIdentifier(value) <==>
              && 1 <= |bytes| <= 128
              && forall i :: 0 <= i < |bytes| ==>
                   AlphanumericByte(bytes[i]) || (i > 0 && (bytes[i] == 0x2E || bytes[i] == 0x5F || bytes[i] == 0x2D))
  {
    hide Encode;
    EncodeAtLeastLength(value);
    EmptyEncodes();
    if forall b <- Encode(value) :: b < 0x80 { AsciiBytesAreAscii(value); }
    if ValidIdentifier(value) { ValidIsAscii(value); }
    if Ascii(value) { EncodeAscii(value); }
  }

  lemma EmptyEncodes()
    ensures Encode("") == []
  {}

  predicate EntityByte(b: byte) {
    AlphanumericByte(b) || b == 0x2D || b == 0x5F
  }

  lemma CharsOfIds(c: char)
    ensures IsAsciiAlphanumeric(c) || c in "-_:" <==> c as int < 0x80 && (EntityByte(c as int) || c as int == 0x3A)
    ensures IsAsciiAlphanumeric(c) || c in "-_" <==> c as int < 0x80 && EntityByte(c as int)
    ensures IsAsciiGraphic(c) <==> 0x21 <= c as int <= 0x7E
  {
    assert c in "-_:" <==> c == '-' || c == '_' || c == ':';
    assert c in "-_" <==> c == '-' || c == '_';
  }

  /** The ledger's three checks on bytes: dispatch ids, entity ids and timestamps. */
  lemma LedgerTextsOnBytes(value: string)
    ensures var bytes := Encode(value);
            && (ValidDispatchId(value) <==> 1 <= |bytes| <= 384 && forall b <- bytes :: EntityByte(b) || b == 0x3A)
            && (ValidEntityId(value) <==> 1 <= |bytes| <= 128 && forall b <- bytes :: EntityByte(b))
            && (ValidTimestamp(value) <==> 1 <= |bytes| <= 64 && forall b <- bytes :: 0x21 <= b <= 0x7E)
  {
    hide Encode, EntityByte, IsAsciiAlphanumeric, IsAsciiGraphic;
    EncodeAtLeastLength(value);
    EmptyEncodes();
    EntityBytesAreAscii();
    forall c: char
      ensures IsAsciiAlphanumeric(c) || c in "-_:" <==> c as int < 0x80 && (EntityByte(c as int) || c as int == 0x3A)
      ensures IsAsciiAlphanumeric(c) || c in "-_" <==> c as int < 0x80 && EntityByte(c as int)
      ensures IsAsciiGraphic(c) <==> 0x21 <= c as int <= 0x7E
    {
      CharsOfIds(c);
    }
    if forall b <- Encode(value) :: b < 0x80 { AsciiBytesAreAscii(value); }
    if forall c <- value :: c as int < 0x80 {
      AsciiOfChars(value);
      CharsAndBytes(value);
    }
  }

  lemma AsciiOfChars(s: string)
    requires forall c <- s :: c as int < 0x80
    ensures Ascii(s)
  {
    forall i | 0 <= i < |s| ensures s[i] as int < 0x80 {
      assert s[i] in s;
    }
  }

  lemma EntityBytesAreAscii()
    ensures forall b: byte :: EntityByte(b) ==> b < 0x80
  {}

  lemma CharsAndBytes(s: string)
    requires Ascii(s)
    ensures |Encode(s)| == |s|
    ensures forall c <- s :: c as int in Encode(s)
    ensures forall b <- Encode(s) :: exists c <- s :: c as int == b
  {
    hide Encode;
    EncodeAscii(s);
    forall c | c in s ensures c as int in Encode(s) {
      var i: nat :| i < |s| && s[i] == c;
      assert Encode(s)[i] == c as int;
    }
    forall b | b in Encode(s) ensures exists c <- s :: c as int == b {
      var i: nat :| i < |s| && Encode(s)[i] == b;
      assert s[i] in s;
    }
  }

  // ---- Numbers ----

  /** The number these bytes stand for when the lowest comes first. */
  function FromLowest(bytes: seq<byte>): nat {
    if bytes == [] then 0 else bytes[0] + 256 * FromLowest(bytes[1..])
  }

  function Power256(k: nat): nat {
    if k == 0 then 1 else 256 * Power256(k - 1)
  }

  /** `to_le_bytes`: the lowest byte comes first. */
  lemma {:induction false} LittleEndianIsPositional(n: nat, width: nat)
    requires n < Power256(width)
    ensures FromLowest(LittleEndian(n, width)) == n
  {
    if width > 0 {
      LittleEndianIsPositional(n / 256, width - 1);
      assert LittleEndian(n, width)[1..] == LittleEndian(n / 256, width - 1);
    }
  }

  /** `{:016x}` and the like: the digits of `n` in lower case, with leading zeros. */
  lemma {:induction false} HexDigitsSpell(n: nat, width: nat) returns (digits: seq<nat>)
    requires n < Power16(width)
    ensures |digits| == width && Number(digits) == n
    ensures forall i :: 0 <= i < width ==> digits[i] < 16 && HexDigits(n, width)[i] == "0123456789abcdef"[digits[i]]
  {
    if width == 0 {
      digits := [];
    } else {
      var front := HexDigitsSpell(n / 16, width - 1);
      digits := front + [n % 16];
      assert digits[..width - 1] == front;
    }
  }

  /** `{:X}`: the digits of `n` in upper case, without leading zeros. */
  lemma {:induction false} UpperHexSpells(n: nat) returns (digits: seq<nat>)
    ensures |digits| == |UpperHex(n)| && Number(digits) == n && (n > 0 ==> digits[0] != 0)
    ensures forall i :: 0 <= i < |digits| ==> digits[i] < 16 && UpperHex(n)[i] == "0123456789ABCDEF"[digits[i]]
  {
    if n < 16 {
      digits := [n];
      assert digits[..0] == [];
    } else {
      var front := UpperHexSpells(n / 16);
      digits := front + [n % 16];
      assert digits[..|front|] == front;
    }
  }

  function Bit(n: nat, i: nat): nat {
    if i == 0 then n % 2 else Bit(n / 2, i - 1)
  }

  /** Bit `i` of an exclusive or is set exactly where the bits differ. */
  lemma {:induction false} XorIsBitwise(a: nat, b: nat, i: nat)
    ensures Bit(Xor(a, b), i) == if Bit(a, i) == Bit(b, i) then 0 else 1
    decreases i
  {
    hide Xor;
    XorBits(a, b);
    if i > 0 {
      XorIsBitwise(a / 2, b / 2, i - 1);
    }
  }

  lemma {:induction false} XorOfLowBits(high: nat, a: nat, b: nat, k: nat)
    requires a < Pow2(k) && b < Pow2(k)
    ensures Xor(Pow2(k) * high + a, b) == Pow2(k) * high + Xor(a, b)
  {
    hide Xor;
    if k == 0 {
      XorWithNothing(high);
      XorZero();
    } else {
      var n := Pow2(k) * high + a;
      assert n == 2 * (Pow2(k - 1) * high + a / 2) + a % 2 by { assert Pow2(k) * high == 2 * (Pow2(k - 1) * high); }
      XorOfLowBits(high, a / 2, b / 2, k - 1);
      XorBits(n, b);
      XorBits(a, b);
    }
  }

  lemma {:induction false} XorWithNothing(a: nat)
    ensures Xor(a, 0) == a
  {
    if a > 0 { XorWithNothing(a / 2); }
  }

  /** The published digest of the one letter `a` under 64-bit FNV-1a. */
  lemma DigestOfOneLetter()
    ensures Absorb(FIRST_SEED, Encode("a")) == 0xaf63_dc4c_8601_ec8c
  {
    hide Xor;
    XorOfLowBits(0xcb_f29c_e484_2223, 0x25, 0x61, 8);
    Powers();
    LowBits();
    assert Encode("a") == [97];
    DigestOfOneByte(FIRST_SEED, 97);
    assert 0xcbf2_9ce4_8422_2344 * FNV_PRIME % WORD == 0xaf63_dc4c_8601_ec8c;
  }

  lemma LowBits()
    ensures Xor(0x25, 0x61) == 0x44
  {
    hide Xor;
    XorBits(0x25, 0x61);
    XorBits(0x12, 0x30);
    XorBits(0x09, 0x18);
    XorBits(0x04, 0x0C);
    XorBits(0x02, 0x06);
    XorBits(0x01, 0x03);
    XorBits(0x00, 0x01);
    XorZero();
  }

  lemma DigestOfOneByte(state: u64, b: byte)
    ensures Absorb(state, [b]) == Xor(state, b) * FNV_PRIME % WORD
  {
    assert [b][1..] == [];
  }

  /** A derived identifier: its prefix, a dash, and two digests of sixteen digits each. */
  lemma IdentifierShape(prefix: string, parts: seq<string>)
    ensures var id, bytes := StableIdentifier(prefix, parts), Stream(parts);
            var n := |prefix| + 1;
            && |id| == n + 32 && id[..n] == prefix + "-"
            && id[n..n + 16] == HexDigits(Absorb(FIRST_SEED, bytes), 16)
            && id[n + 16..] == HexDigits(Absorb(SECOND_SEED, Masked(bytes)), 16)
  {
    hide Stream, Absorb, HexDigits, Masked;
  }
}
