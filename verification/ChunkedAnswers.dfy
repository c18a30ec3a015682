/**
 The parts of the relay stream that the laws about whole streams take as given: which texts are chunk sizes, what a
 trailer section is, and which error ends a stream that goes wrong, for all bytes.
 */
module ChunkedAnswers {
  import opened Outcomes
  import opened Collections
  import opened Strings
  import opened ChunkedStream
  import opened ChunkedFrames
  import opened ChunkedEncoder

  // ---- Sizes ----

  /** The number these hexadecimal digits stand for. */
  function Number(digits: seq<nat>): nat {
    if digits == [] then 0 else 16 * Number(digits[..|digits| - 1]) + digits[|digits| - 1]
  }

  /** The text spells these digits, each in upper or lower case. */
  predicate Spells(s: string, digits: seq<nat>) {
    && |s| == |digits|
    && forall i :: 0 <= i < |s| ==>
         digits[i] < 16 && (s[i] == "0123456789abcdef"[digits[i]] || s[i] == "0123456789ABCDEF"[digits[i]])
  }

  lemma DigitValue(c: char, d: nat)
    requires d < 16
    ensures (c == "0123456789abcdef"[d] || c == "0123456789ABCDEF"[d]) <==> HexValue(c) == Some(d)
  {
    assert "0123456789abcdef"[d] as int == if d < 10 then 48 + d else 87 + d;
    assert "0123456789ABCDEF"[d] as int == if d < 10 then 48 + d else 55 + d;
  }

  function Within(n: nat): Option<nat> {
    if n < 0x1_0000_0000_0000_0000 then Some(n) else None
  }

  /** A spelt number is read as itself if it fits in 64 bits, with or without a plus sign, and not at all otherwise. */
  lemma SizesArePositional(s: string, digits: seq<nat>)
    requires Spells(s, digits) && s != ""
    ensures ParseHex(s) == Within(Number(digits)) && ParseHex("+" + s) == Within(Number(digits))
  {
    hide ParseDigits;
    DigitsArePositional(s, digits);
    DigitValue(s[0], digits[0]);
    assert ("+" + s)[1..] == s;
  }

  lemma {:induction false} DigitsArePositional(s: string, digits: seq<nat>)
    requires Spells(s, digits)
    ensures ParseDigits(s, 0) == Within(Number(digits))
    decreases |s|
  {
    if s != "" {
      var n := |s| - 1;
      DigitsArePositional(s[..n], digits[..n]);
      DigitsAppend(s[..n], [s[n]], 0);
      DigitValue(s[n], digits[n]);
      assert s[..n] + [s[n]] == s;
      hide ParseDigits;
      if Within(Number(digits[..n])).Some? {
        OneDigit(s[n], Number(digits[..n]));
      }
    }
  }

  lemma OneDigit(c: char, acc: nat)
    ensures ParseDigits([c], acc) ==
            match HexValue(c)
            case None => None
            case Some(d) => Within(16 * acc + d)
  {
    assert [c][1..] == "";
  }

  /** Nothing else is a size: no empty text, and none with another character, a second sign included. */
  lemma OthersAreNoSizes(s: string, i: nat)
    requires i < |s| && HexValue(s[i]).None? && (s[i] == '+' ==> i > 0)
    ensures ParseHex(s) == None && ParseHex("") == None && ParseHex("+") == None
  {
    hide ParseDigits;
    if s[0] == '+' { NoOtherDigits(s[1..], i - 1, 0); } else { NoOtherDigits(s, i, 0); }
  }

  lemma {:induction false} NoOtherDigits(s: string, i: nat, acc: nat)
    requires i < |s| && HexValue(s[i]).None?
    ensures ParseDigits(s, acc) == None
    decreases |s|
  {
    if i > 0 && HexValue(s[0]).Some? {
      NoOtherDigits(s[1..], i - 1, acc * 16 + HexValue(s[0]).value);
    }
  }

  // ---- Trailers ----

  /** Header fields, each a line of its own, none of them blank. */
  predicate Fields(fields: seq<seq<byte>>) {
    forall f <- fields :: IsLine(f, |f|) && f != [13, 10] && f != [10]
  }

  /** A trailer section of at most 8 KiB, from `taken` on: fields and then a blank line. */
  predicate TrailerSection(fields: seq<seq<byte>>, blank: seq<byte>, input: seq<byte>, rest: seq<byte>, taken: nat) {
    && Fields(fields) && (blank == [13, 10] || blank == [10])
    && input == Join(fields) + (blank + rest)
    && taken + |Join(fields)| + |blank| <= 8 * 1024
  }

  lemma {:induction false} FieldsAreSkipped(fields: seq<seq<byte>>, rest: seq<byte>, taken: nat)
    requires Fields(fields) && taken + |Join(fields)| <= 8 * 1024
    ensures ReadTrailers(Join(fields) + rest, taken) == ReadTrailers(rest, taken + |Join(fields)|)
    decreases |fields|
  {
    hide ReadTrailers, IsLine;
    if fields == [] {
      assert Join(fields) + rest == rest;
    } else {
      var f, tail := fields[0], fields[1..];
      assert f in fields && forall x <- tail :: x in fields;
      Associates(f, Join(tail), rest);
      OneFieldIsSkipped(f, Join(tail) + rest, taken);
      FieldsAreSkipped(tail, rest, taken + |f|);
    }
  }

  lemma OneFieldIsSkipped(f: seq<byte>, rest: seq<byte>, taken: nat)
    requires IsLine(f, |f|) && f != [13, 10] && f != [10] && taken + |f| <= 8 * 1024
    ensures ReadTrailers(f + rest, taken) == ReadTrailers(rest, taken + |f|)
  {
    hide ReadBoundedLine;
    ReadsLine(f, rest, MAXIMUM_STREAM_HEADER_BYTES - taken);
  }

  /** The trailer section is read exactly when there is one, up to its blank line and no further. */
  lemma TrailersExactly(input: seq<byte>, rest: seq<byte>)
    ensures ReadTrailers(input, 0) == (Ok(()), rest) <==>
              exists fields, blank :: TrailerSection(fields, blank, input, rest, 0)
  {
    hide ReadTrailers;
    if ReadTrailers(input, 0) == (Ok(()), rest) {
      var fields, blank := TrailersAreFields(input, rest, 0);
      assert TrailerSection(fields, blank, input, rest, 0);
    }
    if fields, blank :| TrailerSection(fields, blank, input, rest, 0) {
      FieldsAreSkipped(fields, blank + rest, 0);
      BlankEnds(blank, rest, |Join(fields)|);
    }
  }

  lemma BlankEnds(blank: seq<byte>, rest: seq<byte>, taken: nat)
    requires (blank == [13, 10] || blank == [10]) && taken + |blank| <= 8 * 1024
    ensures ReadTrailers(blank + rest, taken) == (Ok(()), rest)
  {
    hide ReadBoundedLine;
    ReadsLine(blank, rest, MAXIMUM_STREAM_HEADER_BYTES - taken);
  }

  lemma {:induction false} TrailersAreFields(input: seq<byte>, rest: seq<byte>, taken: nat)
    returns (fields: seq<seq<byte>>, blank: seq<byte>)
    requires ReadTrailers(input, taken) == (Ok(()), rest)
    ensures TrailerSection(fields, blank, input, rest, taken)
    decreases |input|
  {
    hide ReadBoundedLine;
    var (line, after) := ReadBoundedLine(input, MAXIMUM_STREAM_HEADER_BYTES - taken);
    if IsBlank(line.value) {
      fields, blank := [], line.value;
      assert Join([]) + (blank + rest) == blank + rest;
    } else {
      fields, blank := TrailersAreFields(after, rest, taken + |line.value|);
      MoreFields(line.value, fields, blank, after, rest, taken);
      fields := [line.value] + fields;
    }
  }

  lemma MoreFields(
    line: seq<byte>, fields: seq<seq<byte>>, blank: seq<byte>, after: seq<byte>, rest: seq<byte>, taken: nat)
    requires IsLine(line, |line|) && line != [13, 10] && line != [10]
    requires TrailerSection(fields, blank, after, rest, taken + |line|)
    ensures TrailerSection([line] + fields, blank, line + after, rest, taken)
  {
    hide IsLine;
    var all := [line] + fields;
    assert all[1..] == fields;
    Associates(line, Join(fields), blank + rest);
  }

  /** If the fields break off, the error is that of the line that cannot be read. */
  lemma BrokenTrailers(fields: seq<seq<byte>>, rest: seq<byte>)
    requires Fields(fields) && |Join(fields)| <= 8 * 1024
    requires ReadBoundedLine(rest, 8 * 1024 - |Join(fields)|).0.Err?
    ensures ReadTrailers(Join(fields) + rest, 0).0 == Err(ReadBoundedLine(rest, 8 * 1024 - |Join(fields)|).0.error)
  {
    hide ReadBoundedLine;
    FieldsAreSkipped(fields, rest, 0);
  }

  // ---- Errors ----

  /** The chunk of `n` bytes at the front of `rest` is whole and ends as it must. */
  predicate IsWhole(rest: seq<byte>, n: nat) {
    n + 2 <= |rest| && rest[n] == 13 && rest[n + 1] == 10
  }

  /**
   Behind a size line, for any bytes at all: a chunk that does not fit or does not end with CRLF is a protocol
   error, one that is cut off means that the stream is gone, and only a whole chunk is added to the buffer.
   */
  lemma ChunkAnswersExactly(sizeLine: seq<byte>, n: nat, rest: seq<byte>, d: seq<byte>)
    requires IsLine(sizeLine, 64) && ParseSize(sizeLine) == Some(n) && n > 0 && LF !in d
    ensures var (frame, r) := ReadFrame(Response(sizeLine + rest, d, false));
            if |d| + n > 8 * 1024 then frame == Err(Protocol) && r == Response(rest, d, false)
            else if |rest| < n + 2 then frame == Err(Unavailable) && r.input == [] && d <= r.decoded
            else if !IsWhole(rest, n) then frame == Err(Protocol) && r.decoded == d + rest[..n]
            else (frame, r) == ReadFrame(Response(rest[n + 2..], d + rest[..n], false))
  {
    hide ParseSize, ReadTrailers, ReadBoundedLine, IsLine;
    ReadsLine(sizeLine, rest, MAXIMUM_CHUNK_SIZE_LINE_BYTES);
    assert FindNewline(d).None?;
    assert |rest| >= n + 2 ==> (rest[n..n + 2] == CRLF <==> rest[n] == 13 && rest[n + 1] == 10);
  }

  /**
   Without a size line there is no frame: the stream is gone if nothing at all follows, and anything else that is not
   one is a protocol error. So is the end of the stream, reached or reached before, with no line left.
   */
  lemma NoChunkAnswersExactly(input: seq<byte>, d: seq<byte>)
    requires LF !in d
    ensures ReadFrame(Response([], d, false)).0 == Err(Unavailable)
    ensures input != [] && (forall line :: IsLine(line, 64) ==> !(line <= input)) ==>
              ReadFrame(Response(input, d, false)).0 == Err(Protocol)
    ensures forall line, rest :: IsLine(line, 64) && input == line + rest && ParseSize(line).None? ==>
              ReadFrame(Response(input, d, false)) == (Err(Protocol), Response(rest, d, false))
    ensures forall line, rest :: IsLine(line, 64) && input == line + rest && ParseSize(line) == Some(0) ==>
              ReadFrame(Response(input, d, false)).0
              == Err(match ReadTrailers(rest, 0).0 case Ok(_) => Protocol case Err(e) => e)
    ensures ReadFrame(Response(input, d, true)) == (Err(Protocol), Response(input, d, true))
  {
    hide ParseSize, ReadTrailers, ReadBoundedLine, IsLine;
    assert FindNewline(d).None?;
    BoundedLineIsRead([], MAXIMUM_CHUNK_SIZE_LINE_BYTES);
    BoundedLineIsRead(input, MAXIMUM_CHUNK_SIZE_LINE_BYTES);
    forall line, rest | IsLine(line, 64) && input == line + rest
      ensures ReadBoundedLine(input, MAXIMUM_CHUNK_SIZE_LINE_BYTES) == (Ok(line), rest)
    {
      ReadsLine(line, rest, MAXIMUM_CHUNK_SIZE_LINE_BYTES);
    }
  }

  /** The encoder takes exactly the values whose text leaves room for the line feed. */
  lemma EncodesExactly(json: seq<byte>)
    ensures EncodeJson(json).Ok? <==> |json| < 8 * 1024
    ensures EncodeJson(json).Err? ==> EncodeJson(json) == Err(Protocol)
  {}
}
