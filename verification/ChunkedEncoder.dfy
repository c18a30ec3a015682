/** The encoder of the relay stream, and the round trip through the decoder. */
module ChunkedEncoder {
  import opened Outcomes
  import opened Collections
  import opened Strings
  import opened ChunkedStream
  import opened ChunkedFrames

  const UPPER_HEX := "0123456789ABCDEF"

  /** `{:X}`: upper-case hexadecimal without leading zeros. */
  function UpperHex(n: nat): (r: string)
    ensures r != ""
  {
    if n < 16 then [UPPER_HEX[n]] else UpperHex(n / 16) + [UPPER_HEX[n % 16]]
  }

  function SizeLine(n: nat): seq<byte> {
    Encode(UpperHex(n) + "\r\n")
  }

  /** The bytes `write_http_chunk` puts on the stream. */
  function EncodeChunk(value: seq<byte>): Result<seq<byte>, TransportError> {
    if value == [] || |value| > MAXIMUM_STREAM_FRAME_BYTES then Err(Protocol)
    else Ok(SizeLine(|value|) + value + CRLF)
  }

  /** `write_json_chunk` for a value whose JSON text is `json`. */
  function EncodeJson(json: seq<byte>): Result<seq<byte>, TransportError> {
    EncodeChunk(json + [LF])
  }

  class ChunkWriter {
    var written: seq<byte>

    method WriteJsonChunk(json: seq<byte>) returns (error: Option<TransportError>)
      modifies this
      ensures match EncodeJson(json)
              case Ok(bytes) => error.None? && written == old(written) + bytes
              case Err(e) => error == Some(e) && written == old(written)
    {
      var value := json + [LF];
      if value == [] || |value| > MAXIMUM_STREAM_FRAME_BYTES {
        return Some(Protocol);
      }
      ghost var before := written;
      written := written + Encode(UpperHex(|value|) + "\r\n");
      written := written + value;
      written := written + CRLF;
      assert written == before + (SizeLine(|value|) + value + CRLF);
      error := None;
    }
  }

  predicate IsHex(c: char) {
    HexValue(c).Some?
  }

  lemma {:induction false} UpperHexIsHex(n: nat)
    ensures forall i :: 0 <= i < |UpperHex(n)| ==> IsHex(UpperHex(n)[i])
  {
    UpperDigits();
    if n >= 16 {
      UpperHexIsHex(n / 16);
    }
  }

  lemma UpperDigits()
    ensures forall d :: 0 <= d < 16 ==> HexValue(UPPER_HEX[d]) == Some(d)
  {
    assert forall d :: 0 <= d < 16 ==> UPPER_HEX[d] as int == if d < 10 then 48 + d else 55 + d;
  }

  lemma {:induction false} HexLength(n: nat, k: nat)
    requires k > 0 && n < Power16(k)
    ensures |UpperHex(n)| <= k
  {
    if n >= 16 {
      HexLength(n / 16, k - 1);
    }
  }

  lemma {:induction false} DigitsAppend(s: string, t: string, acc: nat)
    ensures ParseDigits(s + t, acc) == match ParseDigits(s, acc)
                                       case None => None
                                       case Some(v) => ParseDigits(t, v)
    decreases |s|
  {
    if s != "" {
      assert (s + t)[1..] == s[1..] + t;
      match HexValue(s[0])
      case None =>
      case Some(d) => if acc * 16 + d < USIZE_BOUND { DigitsAppend(s[1..], t, acc * 16 + d); }
    } else {
      assert s + t == t;
    }
  }

  lemma {:induction false} HexParses(n: nat)
    requires n < USIZE_BOUND
    ensures ParseDigits(UpperHex(n), 0) == Some(n)
  {
    UpperDigits();
    var last := UPPER_HEX[n % 16];
    assert ParseDigits([last], n / 16) == Some(n) by {
      assert [last][1..] == "";
    }
    if n >= 16 {
      HexParses(n / 16);
      DigitsAppend(UpperHex(n / 16), [last], 0);
    }
  }

  lemma {:induction false} NoSemicolon(s: string)
    requires forall i :: 0 <= i < |s| ==> s[i] != ';'
    ensures BeforeSemicolon(s) == s
  {
    if s != "" {
      NoSemicolon(s[1..]);
      assert [s[0]] + s[1..] == s;
    }
  }

  lemma TrimsLineEnd(s: string)
    requires s != "" && forall i :: 0 <= i < |s| ==> !IsWhiteSpace(s[i])
    ensures Trim(s + "\r\n") == s
  {
    var t := s + "\r\n";
    assert TrimStart(t) == t;
    assert t[..|t| - 1] == s + "\r";
    assert (s + "\r")[..|s|] == s;
    assert TrimEnd(s + "\r") == TrimEnd(s) == s;
  }

  /** The size line of a written chunk is a line that announces exactly the chunk. */
  lemma SizeLineParses(n: nat)
    requires 0 < n <= MAXIMUM_STREAM_FRAME_BYTES
    ensures IsLine(SizeLine(n), MAXIMUM_CHUNK_SIZE_LINE_BYTES) && ParseSize(SizeLine(n)) == Some(n)
  {
    hide Encode, Decode, ParseDigits, UpperHex;
    var hex := UpperHex(n);
    UpperHexIsHex(n);
    assert n < Power16(4) by { assert Power16(2) == 256; }
    HexLength(n, 4);
    HexIsPlain(hex);
    var text := hex + "\r\n";
    EncodeAscii(text);
    DecodeIsInverseOfEncode(SizeLine(n), text);
    TrimsLineEnd(hex);
    NoSemicolon(hex);
    HexParses(n);
  }

  lemma HexIsPlain(hex: string)
    requires forall i :: 0 <= i < |hex| ==> IsHex(hex[i])
    ensures Ascii(hex)
    ensures forall i :: 0 <= i < |hex| ==> hex[i] != ';' && hex[i] != '+' && hex[i] != '\n' && !IsWhiteSpace(hex[i])
  {
    forall i | 0 <= i < |hex|
      ensures hex[i] as int < 0x80
      ensures hex[i] != ';' && hex[i] != '+' && hex[i] != '\n' && !IsWhiteSpace(hex[i])
    {
      assert IsHex(hex[i]);
    }
  }

  /** A value whose JSON text is one frame: no raw line feed, and room for one to be added. */
  predicate IsFrame(json: seq<byte>) {
    LF !in json && |json| < MAXIMUM_STREAM_FRAME_BYTES
  }

  function ChunkOf(json: seq<byte>): Chunk {
    Chunk(SizeLine(|json| + 1), json + [LF])
  }

  function WriteAll(frames: seq<seq<byte>>): seq<byte>
    requires forall f <- frames :: IsFrame(f)
  {
    if frames == [] then []
    else
      assert IsFrame(frames[0]);
      EncodeJson(frames[0]).value + WriteAll(frames[1..])
  }

  lemma FrameIsChunk(json: seq<byte>)
    requires IsFrame(json)
    ensures ValidChunk(ChunkOf(json)) && EncodeJson(json) == Ok(ChunkBytes(ChunkOf(json)))
  {
    SizeLineParses(|json| + 1);
  }

  function Terminated(frames: seq<seq<byte>>): seq<seq<byte>> {
    if frames == [] then [] else [frames[0] + [LF]] + Terminated(frames[1..])
  }

  /** Reading a written stream gives back every frame, whole and in order, whatever ends or cuts off the stream. */
  lemma {:induction false} WrittenFramesComeBack(frames: seq<seq<byte>>, end: seq<byte>)
    requires (forall f <- frames :: IsFrame(f)) && YieldsNothing(end)
    ensures ReadAll(Response(WriteAll(frames) + end, [], false)) == Terminated(frames)
  {
    hide ReadFrame, EncodeJson, IsFrame, ChunkOf;
    if frames == [] {
      assert WriteAll(frames) + end == end;
    } else {
      var f, tail := frames[0], frames[1..];
      assert f in frames && forall x <- tail :: x in frames;
      WrittenFramesComeBack(tail, end);
      FrameIsChunk(f);
      ReadsFrame(f, WriteAll(tail) + end);
      Associates(EncodeJson(f).value, WriteAll(tail), end);
    }
  }

  lemma ReadsFrame(json: seq<byte>, rest: seq<byte>)
    requires IsFrame(json)
    ensures ReadFrame(Response(ChunkBytes(ChunkOf(json)) + rest, [], false))
        == (Ok(json + [LF]), Response(rest, [], false))
  {
    hide ReadFrame, ValidChunk, SizeLine;
    FrameIsChunk(json);
    ReadsChunk(ChunkOf(json), rest, []);
    var d := json + [LF];
    assert [] + d == d && d[..|json|] == json && d[..|json| + 1] == d && d[|json| + 1..] == [];
    PositionIs(d, |json|);
    BufferedLine(Response(rest, d, false), |json|);
  }

  /** The shortest ending a server can send: a last chunk of size zero and no trailers. */
  lemma PlainEndingEndsStream()
    ensures EndsStream(Encode("0\r\n") + CRLF)
  {
    hide Encode, Decode, ReadBoundedLine;
    var text := "0\r\n";
    EncodeAscii(text);
    DecodeIsInverseOfEncode(Encode(text), text);
    TrimsLineEnd("0");
    assert "0" + "\r\n" == text;
    NoSemicolon("0");
    ReadsLine(Encode(text), CRLF, MAXIMUM_CHUNK_SIZE_LINE_BYTES);
    assert CRLF + [] == CRLF;
    ReadsLine(CRLF, [], MAXIMUM_STREAM_HEADER_BYTES);
  }
}
