/**
 Which chunk extensions the decoder takes. Section 7.1.1 of RFC 9112 lets white space stand before the
 semicolon, any number of extensions follow it, and any octet above 127 appear in a quoted value.
 */
module ChunkExtensions {
  import opened Outcomes
  import opened Collections
  import opened Strings
  import opened ChunkedStream
  import opened ChunkedFrames
  import opened ChunkedEncoder

  /** A chunk size: hexadecimal digits of either case, with any number of leading zeros. */
  predicate IsSize(size: string) {
    size != "" && forall i :: 0 <= i < |size| ==> IsHex(size[i])
  }

  /** BWS: spaces and horizontal tabs. */
  predicate IsBws(w: string) {
    forall i :: 0 <= i < |w| ==> w[i] == ' ' || w[i] == '\t'
  }

  /** A size line whose extension is an arbitrary run of bytes. */
  function ExtendedLine(size: string, bws: string, extension: seq<byte>): seq<byte> {
    Encode(size + bws + ";") + (extension + CRLF)
  }

  /** The lines the decoder takes: nothing before the semicolon, short enough, and valid UTF-8. */
  predicate IsTaken(size: string, bws: string, extension: seq<byte>) {
    var line := ExtendedLine(size, bws, extension);
    bws == "" && |line| <= MAXIMUM_CHUNK_SIZE_LINE_BYTES && Decode(line).Some?
  }

  lemma {:induction false} TrimEndKeeps(p: string, rest: string)
    requires p != "" && !IsWhiteSpace(p[|p| - 1])
    ensures p <= TrimEnd(p + rest)
    decreases |rest|
  {
    var t := p + rest;
    if rest == "" {
      assert t == p;
    } else {
      TrimEndKeeps(p, rest[..|rest| - 1]);
      assert t[..|t| - 1] == p + rest[..|rest| - 1];
    }
  }

  lemma {:induction false} StopsAtSemicolon(s: string, rest: string)
    requires forall i :: 0 <= i < |s| ==> s[i] != ';'
    ensures BeforeSemicolon(s + ";" + rest) == s
  {
    var t := s + ";" + rest;
    if s != "" {
      StopsAtSemicolon(s[1..], rest);
      assert t[1..] == s[1..] + ";" + rest && [s[0]] + s[1..] == s;
    }
  }

  /** What is parsed as the size is the text before the first semicolon. */
  lemma SizeIsBeforeSemicolon(size: string, rest: string, line: seq<byte>)
    requires size != "" && !IsWhiteSpace(size[0]) && forall i :: 0 <= i < |size| ==> size[i] != ';'
    requires Decode(line) == Some(size + ";" + rest)
    ensures ParseSize(line) == ParseHex(size)
  {
    hide Decode, IsWhiteSpace, ParseHex;
    var p := size + ";";
    var text := p + rest;
    assert TrimStart(text) == text;
    assert !IsWhiteSpace(';') by { SemicolonIsVisible(); }
    TrimEndKeeps(p, rest);
    var left := TrimEnd(text)[|p|..];
    assert Trim(text) == size + ";" + left;
    StopsAtSemicolon(size, left);
  }

  lemma SemicolonIsVisible()
    ensures !IsWhiteSpace(';')
  {}

  lemma BwsIsNoDigit(w: string, acc: nat)
    requires IsBws(w) && w != ""
    ensures ParseDigits(w, acc) == None
  {
    assert HexValue(w[0]) == None;
  }

  /** White space behind the digits is not trimmed away, since the semicolon follows. */
  lemma BwsSpoilsSize(size: string, bws: string)
    requires IsSize(size) && IsBws(bws)
    ensures ParseHex(size + bws) == if bws == "" then ParseHex(size) else None
  {
    hide ParseDigits;
    HexIsPlain(size);
    if bws == "" {
      assert size + bws == size;
    } else {
      DigitsAppend(size, bws, 0);
      match ParseDigits(size, 0)
      case None =>
      case Some(v) => BwsIsNoDigit(bws, v);
    }
  }

  lemma ExtendedLineIsLine(size: string, bws: string, extension: seq<byte>)
    requires IsSize(size) && IsBws(bws) && LF !in extension
    ensures IsLine(ExtendedLine(size, bws, extension), |ExtendedLine(size, bws, extension)|)
  {
    hide Encode;
    var head := size + bws + ";";
    HexIsPlain(size);
    assert Ascii(head) && forall i :: 0 <= i < |head| ==> head[i] != '\n';
    EncodeAscii(head);
    LineOfParts(Encode(head), extension);
  }

  lemma LineOfParts(head: seq<byte>, extension: seq<byte>)
    requires LF !in head && LF !in extension
    ensures var line := head + (extension + CRLF); IsLine(line, |line|)
  {
    var line := head + (extension + CRLF);
    forall i | 0 <= i < |line| - 1 ensures line[i] != LF {
      if i < |head| {
        assert line[i] in head;
      } else if i < |head| + |extension| {
        assert line[i] in extension;
      }
    }
  }

  /** The size is read exactly from the lines that are taken. */
  lemma SizeReadExactly(size: string, bws: string, extension: seq<byte>)
    requires IsSize(size) && IsBws(bws) && LF !in extension
    ensures var line := ExtendedLine(size, bws, extension);
            && (IsTaken(size, bws, extension) ==> ParseSize(line) == ParseHex(size))
            && (IsLine(line, MAXIMUM_CHUNK_SIZE_LINE_BYTES) && ParseSize(line).Some? <==>
                  IsTaken(size, bws, extension) && ParseHex(size).Some?)
  {
    hide Encode, Decode, ParseHex;
    var line := ExtendedLine(size, bws, extension);
    ExtendedLineIsLine(size, bws, extension);
    if Decode(line).Some? {
      LineDecodes(size, bws, extension);
      var rest := Decode(extension + CRLF).value;
      PlainSize(size, bws);
      SizeIsBeforeSemicolon(size + bws, rest, line);
      BwsSpoilsSize(size, bws);
    }
  }

  lemma PlainSize(size: string, bws: string)
    requires IsSize(size) && IsBws(bws)
    ensures !IsWhiteSpace((size + bws)[0]) && forall i :: 0 <= i < |size + bws| ==> (size + bws)[i] != ';'
  {
    hide IsWhiteSpace;
    HexIsPlain(size);
  }

  lemma LineDecodes(size: string, bws: string, extension: seq<byte>)
    requires Decode(ExtendedLine(size, bws, extension)).Some?
    ensures Decode(extension + CRLF).Some?
    ensures Decode(ExtendedLine(size, bws, extension)) == Some(size + bws + ";" + Decode(extension + CRLF).value)
  {
    hide Encode, Decode;
    DecodeAfter(size + bws + ";", extension + CRLF);
  }

  /** A line that is not taken ends the stream with a protocol error, before any of the chunk is buffered. */
  lemma RefusedLine(size: string, bws: string, extension: seq<byte>, rest: seq<byte>, d: seq<byte>)
    requires IsSize(size) && IsBws(bws) && LF !in extension && LF !in d
    requires !IsTaken(size, bws, extension)
    ensures var (frame, r) := ReadFrame(Response(ExtendedLine(size, bws, extension) + rest, d, false));
            frame == Err(Protocol) && r.decoded == d
  {
    hide ParseSize, ReadTrailers, IsTaken, ExtendedLine, ReadBoundedLine;
    var line := ExtendedLine(size, bws, extension);
    SizeReadExactly(size, bws, extension);
    ExtendedLineIsLine(size, bws, extension);
    assert FindNewline(d).None?;
    if |line| <= MAXIMUM_CHUNK_SIZE_LINE_BYTES {
      ReadsLine(line, rest, MAXIMUM_CHUNK_SIZE_LINE_BYTES);
    } else {
      LongLineIsRefused(line, rest, MAXIMUM_CHUNK_SIZE_LINE_BYTES);
    }
  }

  lemma LongLineIsRefused(line: seq<byte>, rest: seq<byte>, maximum: nat)
    requires IsLine(line, |line|) && 0 < maximum < |line|
    ensures ReadBoundedLine(line + rest, maximum).0 == Err(Protocol)
  {
    hide ReadBoundedLine;
    var input := line + rest;
    BoundedLineIsRead(input, maximum);
    if ReadBoundedLine(input, maximum).0.Ok? {
      var other := ReadBoundedLine(input, maximum).0.value;
      LinesAtTheFrontAreOne(line, other, input);
      assert false;
    }
  }

  /**
   The decoder reads a chunk with an extension exactly when no white space stands before the semicolon, the
   size line has at most 64 bytes, and it is valid UTF-8. Otherwise it reports a protocol error.
   */
  lemma ExtensionReadExactly(
    size: string, bws: string, extension: seq<byte>, data: seq<byte>, rest: seq<byte>, d: seq<byte>)
    requires IsSize(size) && IsBws(bws) && LF !in extension && LF !in d
    requires data != [] && ParseHex(size) == Some(|data|) && |d| + |data| <= MAXIMUM_STREAM_FRAME_BYTES
    ensures var line := ExtendedLine(size, bws, extension);
            && (ValidChunk(Chunk(line, data)) <==> IsTaken(size, bws, extension))
            && (ReadFrame(Response(line + data + CRLF, d, false)).0 != Err(Protocol) <==> IsTaken(size, bws, extension))
            && (IsTaken(size, bws, extension) ==>
                  ReadFrame(Response(line + data + CRLF + rest, d, false))
                    == ReadFrame(Response(rest, d + data, false)))
  {
    hide ParseSize, ParseHex, IsTaken, ExtendedLine, ReadFrame;
    var line := ExtendedLine(size, bws, extension);
    var c := Chunk(line, data);
    SizeReadExactly(size, bws, extension);
    if IsTaken(size, bws, extension) {
      TakenIsShort(size, bws, extension);
      ReadsChunk(c, rest, d);
      ReadsChunk(c, [], d);
      assert ChunkBytes(c) + [] == line + data + CRLF;
      EndsUnavailable(d + data);
    } else {
      RefusedLine(size, bws, extension, data + CRLF, d);
      Associates(line, data, CRLF);
    }
  }

  lemma TakenIsShort(size: string, bws: string, extension: seq<byte>)
    requires IsSize(size) && IsBws(bws) && LF !in extension && IsTaken(size, bws, extension)
    ensures IsLine(ExtendedLine(size, bws, extension), MAXIMUM_CHUNK_SIZE_LINE_BYTES)
  {
    hide ExtendedLine;
    ExtendedLineIsLine(size, bws, extension);
  }

  lemma EndsUnavailable(d: seq<byte>)
    ensures ReadFrame(Response([], d, false)).0 != Err(Protocol)
  {
    hide ParseSize, ReadTrailers;
  }
}
