/** What the decoder returns over a whole stream: the lines of the payload, wherever the chunks were cut. */
module ChunkedFrames {
  import opened Outcomes
  import opened Collections
  import opened Strings
  import opened ChunkedStream

  // ---- A chunked stream, section 7.1 of RFC 9112 ----

  /** A chunk: its size line with any extension, and its data. */
  datatype Chunk = Chunk(sizeLine: seq<byte>, data: seq<byte>)

  predicate ValidChunk(c: Chunk) {
    && c.data != []
    && IsLine(c.sizeLine, MAXIMUM_CHUNK_SIZE_LINE_BYTES)
    && ParseSize(c.sizeLine) == Some(|c.data|)
  }

  predicate ValidChunks(chunks: seq<Chunk>) {
    forall c <- chunks :: ValidChunk(c)
  }

  function ChunkBytes(c: Chunk): seq<byte> {
    c.sizeLine + c.data + CRLF
  }

  function Wire(chunks: seq<Chunk>): seq<byte> {
    if chunks == [] then [] else ChunkBytes(chunks[0]) + Wire(chunks[1..])
  }

  function Payload(chunks: seq<Chunk>): seq<byte> {
    if chunks == [] then [] else chunks[0].data + Payload(chunks[1..])
  }

  /** The last chunk and its trailer section, complete. */
  predicate EndsStream(end: seq<byte>) {
    match ReadBoundedLine(end, MAXIMUM_CHUNK_SIZE_LINE_BYTES)
    case (Err(_), _) => false
    case (Ok(line), rest) => ParseSize(line) == Some(0) && ReadTrailers(rest, 0) == (Ok(()), [])
  }

  // ---- Lines of a payload ----

  /** The complete lines of a byte sequence, each with its line feed. */
  function Lines(p: seq<byte>): seq<seq<byte>>
    decreases |p|
  {
    match FindNewline(p)
    case None => []
    case Some(n) => [p[..n + 1]] + Lines(p[n + 1..])
  }

  /** What follows the last line feed. */
  function Remainder(p: seq<byte>): (r: seq<byte>)
    ensures |r| <= |p|
    decreases |p|
  {
    match FindNewline(p)
    case None => p
    case Some(n) => Remainder(p[n + 1..])
  }

  function Join(lines: seq<seq<byte>>): seq<byte> {
    if lines == [] then [] else lines[0] + Join(lines[1..])
  }

  lemma PositionMakesLine(p: seq<byte>, n: nat)
    requires FindNewline(p) == Some(n)
    ensures p == p[..n + 1] + p[n + 1..] && IsLine(p[..n + 1], n + 1)
  {
    var line := p[..n + 1];
    forall i | 0 <= i < n ensures line[i] != LF {
      assert p[i] == p[..n][i];
    }
  }

  /** Lines and remainder put together are the payload, and every line holds exactly one line feed, at its end. */
  lemma {:induction false} LinesAreTheSplit(p: seq<byte>)
    ensures Join(Lines(p)) + Remainder(p) == p && LF !in Remainder(p)
    ensures forall line <- Lines(p) :: IsLine(line, |p|)
    decreases |p|
  {
    match FindNewline(p)
    case None =>
    case Some(n) =>
      LinesAreTheSplit(p[n + 1..]);
      PositionMakesLine(p, n);
      Associates(p[..n + 1], Join(Lines(p[n + 1..])), Remainder(p[n + 1..]));
      assert Lines(p)[1..] == Lines(p[n + 1..]);
      forall line <- Lines(p) ensures IsLine(line, |p|) {
        if line != p[..n + 1] {
          assert line in Lines(p[n + 1..]);
        }
      }
  }

  lemma PositionIs(p: seq<byte>, n: nat)
    requires n < |p| && p[n] == LF && LF !in p[..n]
    ensures FindNewline(p) == Some(n)
  {
    var m := FindNewline(p);
    forall i | 0 <= i < n ensures p[i] != LF {
      assert p[i] == p[..n][i];
    }
    forall i | m.Some? && 0 <= i < m.value ensures p[i] != LF {
      assert p[i] == p[..m.value][i];
    }
  }

  lemma LinesAfterLine(d: seq<byte>, n: nat, p: seq<byte>)
    requires FindNewline(d) == Some(n)
    ensures Lines(d + p) == [d[..n + 1]] + Lines(d[n + 1..] + p)
    ensures Remainder(d + p) == Remainder(d[n + 1..] + p)
  {
    assert (d + p)[..n] == d[..n] && (d + p)[..n + 1] == d[..n + 1] && (d + p)[n + 1..] == d[n + 1..] + p;
    PositionIs(d + p, n);
  }

  /** More bytes only ever add to the lines: those already complete stay, and the remainder is carried on. */
  lemma {:induction false} LinesAppend(p: seq<byte>, q: seq<byte>)
    ensures Lines(p + q) == Lines(p) + Lines(Remainder(p) + q)
    ensures Remainder(p + q) == Remainder(Remainder(p) + q)
    decreases |p|
  {
    match FindNewline(p)
    case None =>
    case Some(n) =>
      var line, rest := p[..n + 1], p[n + 1..];
      LinesAfterLine(p, n, q);
      LinesAppend(rest, q);
      Associates([line], Lines(rest), Lines(Remainder(rest) + q));
  }

  // ---- One frame ----

  /** No error or success leaves more than the limit buffered, and a frame always takes bytes away. */
  lemma {:induction false} BufferIsBounded(r: Response)
    requires |r.decoded| <= MAXIMUM_STREAM_FRAME_BYTES
    ensures |ReadFrame(r).1.decoded| <= MAXIMUM_STREAM_FRAME_BYTES
    decreases |r.input|, !r.finished
  {
    hide ParseSize, ReadTrailers, ReadBoundedLine, FindNewline;
    if FindNewline(r.decoded).None? && !r.finished && ReadBoundedLine(r.input, MAXIMUM_CHUNK_SIZE_LINE_BYTES).0.Ok? {
      var (line, rest) := ReadBoundedLine(r.input, MAXIMUM_CHUNK_SIZE_LINE_BYTES);
      if ParseSize(line.value) == Some(0) {
        if ReadTrailers(rest, 0).0.Ok? {
          BufferIsBounded(r.(input := ReadTrailers(rest, 0).1, finished := true));
        }
      } else if ParseSize(line.value).Some? {
        var size := ParseSize(line.value).value;
        if |r.decoded| + size <= MAXIMUM_STREAM_FRAME_BYTES && size + 2 <= |rest| {
          BufferIsBounded(r.(input := rest[size + 2..], decoded := r.decoded + rest[..size]));
        }
      }
    }
  }

  lemma {:induction false} FrameShrinks(r: Response)
    requires ReadFrame(r).0.Ok?
    ensures var r' := ReadFrame(r).1; |r'.input| + |r'.decoded| < |r.input| + |r.decoded|
    decreases |r.input|, !r.finished
  {
    hide ParseSize, ReadTrailers, ReadBoundedLine, FindNewline;
    if FindNewline(r.decoded).None? {
      var (line, rest) := ReadBoundedLine(r.input, MAXIMUM_CHUNK_SIZE_LINE_BYTES);
      var size := ParseSize(line.value).value;
      if size == 0 {
        FrameShrinks(r.(input := ReadTrailers(rest, 0).1, finished := true));
      } else {
        FrameShrinks(r.(input := rest[size + 2..], decoded := r.decoded + rest[..size]));
      }
    }
  }

  /** All frames a connection can read before the first error. */
  function ReadAll(r: Response): seq<seq<byte>>
    decreases |r.input| + |r.decoded|
  {
    match ReadFrame(r)
    case (Err(_), _) => []
    case (Ok(line), r') =>
      FrameShrinks(r);
      [line] + ReadAll(r')
  }

  /** Reading past one valid chunk that fits moves its data into the buffer. */
  lemma ReadsChunk(c: Chunk, rest: seq<byte>, d: seq<byte>)
    requires ValidChunk(c) && LF !in d
    ensures var r := Response(ChunkBytes(c) + rest, d, false);
            if |d| + |c.data| > MAXIMUM_STREAM_FRAME_BYTES then ReadFrame(r).0 == Err(Protocol)
            else ReadFrame(r) == ReadFrame(Response(rest, d + c.data, false))
  {
    hide ParseSize, ReadBoundedLine, ReadTrailers;
    var r := Response(ChunkBytes(c) + rest, d, false);
    var after := c.data + CRLF + rest;
    assert r.input == c.sizeLine + after;
    ReadsLine(c.sizeLine, after, MAXIMUM_CHUNK_SIZE_LINE_BYTES);
    assert after[..|c.data|] == c.data && after[|c.data|..|c.data| + 2] == CRLF && after[|c.data| + 2..] == rest;
    assert FindNewline(d).None?;
  }

  lemma ReadsEnd(end: seq<byte>, d: seq<byte>)
    requires EndsStream(end) && LF !in d
    ensures ReadFrame(Response(end, d, false)) == (Err(Protocol), Response([], d, true))
  {
    hide ParseSize, ReadBoundedLine, ReadTrailers;
    assert FindNewline(d).None?;
  }

  /** What may stand behind the chunks: no frame can be read from it, whatever unfinished line is buffered. */
  ghost predicate YieldsNothing(end: seq<byte>) {
    forall d :: LF !in d ==> ReadFrame(Response(end, d, false)).0.Err?
  }

  lemma EndYieldsNothing(end: seq<byte>)
    requires EndsStream(end)
    ensures YieldsNothing(end)
  {
    forall d | LF !in d ensures ReadFrame(Response(end, d, false)).0.Err? {
      ReadsEnd(end, d);
    }
  }

  /** A stream may be cut off anywhere in a chunk. */
  lemma CutChunkYieldsNothing(c: Chunk, n: nat)
    requires ValidChunk(c) && n < |ChunkBytes(c)|
    ensures YieldsNothing(ChunkBytes(c)[..n])
  {
    var end := ChunkBytes(c)[..n];
    forall d | LF !in d ensures ReadFrame(Response(end, d, false)).0.Err? {
      assert FindNewline(d).None?;
      if n < |c.sizeLine| {
        CutLineIsNoLine(c.sizeLine, n, MAXIMUM_CHUNK_SIZE_LINE_BYTES);
        assert end == c.sizeLine[..n];
        CutInSizeLine(end, d);
      } else {
        var rest := end[|c.sizeLine|..];
        assert end == c.sizeLine + rest;
        CutInData(c, rest, d);
      }
    }
  }

  lemma CutLineIsNoLine(line: seq<byte>, n: nat, maximum: nat)
    requires IsLine(line, maximum) && n < |line|
    ensures ReadBoundedLine(line[..n], maximum).0.Err?
  {
    hide ReadBoundedLine;
    var r := ReadBoundedLine(line[..n], maximum).0;
    if r.Ok? {
      LinesAtTheFrontAreOne(r.value, line, line);
      assert false;
    }
  }

  lemma CutInSizeLine(end: seq<byte>, d: seq<byte>)
    requires ReadBoundedLine(end, MAXIMUM_CHUNK_SIZE_LINE_BYTES).0.Err? && FindNewline(d).None?
    ensures ReadFrame(Response(end, d, false)).0.Err?
  {
    hide ReadBoundedLine, ParseSize, ReadTrailers, FindNewline;
  }

  lemma CutInData(c: Chunk, rest: seq<byte>, d: seq<byte>)
    requires ValidChunk(c) && |rest| < |c.data| + 2 && FindNewline(d).None?
    ensures ReadFrame(Response(c.sizeLine + rest, d, false)).0.Err?
  {
    hide ReadBoundedLine, ParseSize, ReadTrailers, FindNewline;
    ReadsLine(c.sizeLine, rest, MAXIMUM_CHUNK_SIZE_LINE_BYTES);
  }

  /** The chunks read before one does not fit beside the unfinished line in the buffer. */
  function Fitting(carried: seq<byte>, chunks: seq<Chunk>): seq<Chunk>
    decreases |chunks|
  {
    if chunks == [] then []
    else if |Remainder(carried)| + |chunks[0].data| > MAXIMUM_STREAM_FRAME_BYTES then []
    else [chunks[0]] + Fitting(Remainder(carried) + chunks[0].data, chunks[1..])
  }

  /**
   For every way of cutting a payload into chunks, with any extensions, and whatever ends the stream or cuts it
   off, the frames read are exactly the lines of the payload that was accepted.
   */
  lemma {:induction false} FramesAreLines(d: seq<byte>, chunks: seq<Chunk>, end: seq<byte>)
    requires ValidChunks(chunks) && YieldsNothing(end)
    ensures ReadAll(Response(Wire(chunks) + end, d, false)) == Lines(d + Payload(Fitting(d, chunks)))
    decreases |chunks|, |d|
  {
    hide ValidChunk, ReadFrame;
    var r := Response(Wire(chunks) + end, d, false);
    match FindNewline(d)
    case Some(n) =>
      BufferedLine(r, n);
      FramesAreLines(d[n + 1..], chunks, end);
      FittingAfterLine(d, n, chunks);
      LinesAfterLine(d, n, Payload(Fitting(d, chunks)));
    case None =>
      if chunks == [] {
        assert Wire(chunks) + end == end && d + Payload([]) == d;
      } else {
        NextChunk(d, chunks, end);
      }
  }

  lemma BufferedLine(r: Response, n: nat)
    requires FindNewline(r.decoded) == Some(n)
    ensures ReadFrame(r) == (Ok(r.decoded[..n + 1]), r.(decoded := r.decoded[n + 1..]))
  {
    hide ReadBoundedLine, ParseSize, ReadTrailers, FindNewline;
  }

  lemma FittingAfterLine(d: seq<byte>, n: nat, chunks: seq<Chunk>)
    requires FindNewline(d) == Some(n)
    ensures Fitting(d, chunks) == Fitting(d[n + 1..], chunks)
  {}

  lemma NextChunk(d: seq<byte>, chunks: seq<Chunk>, end: seq<byte>)
    requires ValidChunks(chunks) && YieldsNothing(end) && chunks != [] && FindNewline(d).None?
    ensures ReadAll(Response(Wire(chunks) + end, d, false)) == Lines(d + Payload(Fitting(d, chunks)))
    decreases |chunks|, |d|, 0
  {
    hide YieldsNothing, ReadFrame, ValidChunk;
    var c, tail := chunks[0], chunks[1..];
    assert c in chunks && forall x <- tail :: x in chunks;
    var rest := Wire(tail) + end;
    assert Wire(chunks) + end == ChunkBytes(c) + rest by { Associates(ChunkBytes(c), Wire(tail), end); }
    ReadsChunk(c, rest, d);
    if |d| + |c.data| <= MAXIMUM_STREAM_FRAME_BYTES {
      FramesAreLines(d + c.data, tail, end);
      Associates(d, c.data, Payload(Fitting(d + c.data, tail)));
      var fit := Fitting(d + c.data, tail);
      assert Fitting(d, chunks) == [c] + fit && ([c] + fit)[1..] == fit;
    } else {
      assert d + Payload([]) == d;
    }
  }

  /** Behind `carried`, the chunks before number `k` leave room for it beside their unfinished line. */
  predicate HasRoom(carried: seq<byte>, chunks: seq<Chunk>, k: nat)
    requires k < |chunks|
  {
    |Remainder(carried + Payload(chunks[..k]))| + |chunks[k].data| <= MAXIMUM_STREAM_FRAME_BYTES
  }

  predicate AllHaveRoom(carried: seq<byte>, chunks: seq<Chunk>) {
    forall k :: 0 <= k < |chunks| ==> HasRoom(carried, chunks, k)
  }

  lemma FirstHasRoom(d: seq<byte>, chunks: seq<Chunk>)
    requires chunks != []
    ensures HasRoom(d, chunks, 0) <==> |Remainder(d)| + |chunks[0].data| <= MAXIMUM_STREAM_FRAME_BYTES
  {
    hide Remainder;
    assert d + Payload(chunks[..0]) == d;
  }

  /** Room for a later chunk can be told from the remainder alone. */
  lemma NextHasRoom(d: seq<byte>, chunks: seq<Chunk>, k: nat)
    requires k + 1 < |chunks|
    ensures HasRoom(d, chunks, k + 1) <==> HasRoom(Remainder(d) + chunks[0].data, chunks[1..], k)
  {
    hide Remainder;
    var c, tail := chunks[0], chunks[1..];
    assert chunks[..k + 1][0] == c && chunks[..k + 1][1..] == tail[..k];
    Associates(Remainder(d), c.data, Payload(tail[..k]));
    LinesAppend(d, c.data + Payload(tail[..k]));
  }

  lemma {:induction false} FittingExactly(d: seq<byte>, chunks: seq<Chunk>)
    ensures Fitting(d, chunks) == chunks <==> AllHaveRoom(d, chunks)
    decreases |chunks|
  {
    if chunks != [] {
      hide Remainder, HasRoom;
      var c, tail := chunks[0], chunks[1..];
      var e := Remainder(d) + c.data;
      var fit := Fitting(e, tail);
      FittingExactly(e, tail);
      FirstHasRoom(d, chunks);
      forall k | 0 <= k < |tail| ensures HasRoom(d, chunks, k + 1) <==> HasRoom(e, tail, k) {
        NextHasRoom(d, chunks, k);
      }
      assert AllHaveRoom(d, chunks) <==> HasRoom(d, chunks, 0) && AllHaveRoom(e, tail) by {
        RoomIsFirstAndRest(d, e, chunks);
      }
      assert ([c] + fit)[1..] == fit && chunks == [c] + tail;
    }
  }

  lemma RoomIsFirstAndRest(d: seq<byte>, e: seq<byte>, chunks: seq<Chunk>)
    requires chunks != []
    requires forall k :: 0 <= k < |chunks[1..]| ==> (HasRoom(d, chunks, k + 1) <==> HasRoom(e, chunks[1..], k))
    ensures AllHaveRoom(d, chunks) <==> HasRoom(d, chunks, 0) && AllHaveRoom(e, chunks[1..])
  {
    hide HasRoom;
    if HasRoom(d, chunks, 0) && AllHaveRoom(e, chunks[1..]) {
      forall k | 0 <= k < |chunks| ensures HasRoom(d, chunks, k) {
        if k > 0 {
          var j := k - 1;
          assert HasRoom(e, chunks[1..], j) && HasRoom(d, chunks, j + 1);
        }
      }
    }
  }

  /** The connection after the frames of `ReadAll` and the failed read behind them. */
  function AfterAll(r: Response): Response
    decreases |r.input| + |r.decoded|
  {
    match ReadFrame(r)
    case (Err(_), r') => r'
    case (Ok(_), r') =>
      FrameShrinks(r);
      AfterAll(r')
  }

  /** A stream whose chunks all find room is read to its end. */
  lemma {:induction false} EndIsReached(d: seq<byte>, chunks: seq<Chunk>, end: seq<byte>)
    requires ValidChunks(chunks) && EndsStream(end) && Fitting(d, chunks) == chunks
    ensures AfterAll(Response(Wire(chunks) + end, d, false)) == Response([], Remainder(d + Payload(chunks)), true)
    decreases |chunks|, |d|
  {
    hide EndsStream, ValidChunk, ReadFrame;
    var r := Response(Wire(chunks) + end, d, false);
    match FindNewline(d)
    case Some(n) =>
      BufferedLine(r, n);
      FittingAfterLine(d, n, chunks);
      EndIsReached(d[n + 1..], chunks, end);
      LinesAfterLine(d, n, Payload(chunks));
    case None =>
      if chunks == [] {
        assert Wire(chunks) + end == end && d + Payload([]) == d;
        ReadsEnd(end, d);
      } else {
        EndBehindChunk(d, chunks, end);
      }
  }

  lemma EndBehindChunk(d: seq<byte>, chunks: seq<Chunk>, end: seq<byte>)
    requires ValidChunks(chunks) && EndsStream(end) && chunks != [] && Fitting(d, chunks) == chunks
    requires FindNewline(d).None?
    ensures AfterAll(Response(Wire(chunks) + end, d, false)) == Response([], Remainder(d + Payload(chunks)), true)
    decreases |chunks|, |d|, 0
  {
    hide EndsStream, ReadFrame, ValidChunk;
    var c, tail := chunks[0], chunks[1..];
    assert c in chunks && forall x <- tail :: x in chunks;
    var rest := Wire(tail) + end;
    assert Wire(chunks) + end == ChunkBytes(c) + rest by { Associates(ChunkBytes(c), Wire(tail), end); }
    ReadsChunk(c, rest, d);
    var fit := Fitting(d + c.data, tail);
    assert ([c] + fit)[1..] == fit;
    EndIsReached(d + c.data, tail, end);
    Associates(d, c.data, Payload(tail));
  }

  /**
   A stream whose chunks all find room is read to its end, as exactly the lines of its payload: nothing is
   left of the input, and the buffer holds the unfinished line.
   */
  lemma AcceptedStream(chunks: seq<Chunk>, end: seq<byte>)
    requires ValidChunks(chunks) && EndsStream(end) && AllHaveRoom([], chunks)
    ensures var r := Response(Wire(chunks) + end, [], false);
            && ReadAll(r) == Lines(Payload(chunks))
            && AfterAll(r) == Response([], Remainder(Payload(chunks)), true)
  {
    hide EndsStream, ValidChunk, ReadAll, AfterAll, Fitting, AllHaveRoom;
    FittingExactly([], chunks);
    EndYieldsNothing(end);
    FramesAreLines([], chunks, end);
    EndIsReached([], chunks, end);
    assert [] + Payload(chunks) == Payload(chunks);
  }

  /** Two chunkings of one payload that are both accepted give the same frames. */
  lemma ChunkingDoesNotMatter(chunks: seq<Chunk>, end: seq<byte>, chunks': seq<Chunk>, end': seq<byte>)
    requires ValidChunks(chunks) && EndsStream(end) && AllHaveRoom([], chunks)
    requires ValidChunks(chunks') && EndsStream(end') && AllHaveRoom([], chunks')
    requires Payload(chunks) == Payload(chunks')
    ensures ReadAll(Response(Wire(chunks) + end, [], false)) == ReadAll(Response(Wire(chunks') + end', [], false))
  {
    AcceptedStream(chunks, end);
    AcceptedStream(chunks', end');
  }

  // ---- Only chunked streams are accepted ----

  /** A frame read from any input: what was consumed is a run of valid chunks, and no byte of it is lost. */
  ghost predicate Consumed(r: Response, line: seq<byte>, r': Response, chunks: seq<Chunk>) {
    && ValidChunks(chunks)
    && r.input == Wire(chunks) + r'.input
    && r.decoded + Payload(chunks) == line + r'.decoded
    && r'.finished == r.finished
  }

  lemma CutsChunk(line: seq<byte>, rest: seq<byte>, size: nat)
    requires size + 2 <= |rest| && rest[size..size + 2] == CRLF
    ensures line + rest == ChunkBytes(Chunk(line, rest[..size])) + rest[size + 2..]
  {
    assert rest == rest[..size] + rest[size..size + 2] + rest[size + 2..];
  }

  lemma {:induction false} FrameComesFromChunks(r: Response) returns (chunks: seq<Chunk>)
    requires ReadFrame(r).0.Ok?
    ensures Consumed(r, ReadFrame(r).0.value, ReadFrame(r).1, chunks)
    ensures IsLine(ReadFrame(r).0.value, |ReadFrame(r).0.value|)
    decreases |r.input|, !r.finished
  {
    hide ParseSize, ReadTrailers, ReadBoundedLine;
    chunks := [];
    match FindNewline(r.decoded)
    case Some(n) =>
      PositionMakesLine(r.decoded, n);
      BufferedLine(r, n);
    case None =>
      var (line, rest) := ReadBoundedLine(r.input, MAXIMUM_CHUNK_SIZE_LINE_BYTES);
      var size := ParseSize(line.value).value;
      if size == 0 {
        assert false;
      } else {
        var c := Chunk(line.value, rest[..size]);
        var next := r.(input := rest[size + 2..], decoded := r.decoded + c.data);
        CutsChunk(line.value, rest, size);
        var tail := FrameComesFromChunks(next);
        hide ReadFrame;
        chunks := [c] + tail;
        ConsumedChunk(r, c, next, ReadFrame(next).0.value, ReadFrame(next).1, tail);
      }
  }

  lemma ConsumedChunk(r: Response, c: Chunk, next: Response, line: seq<byte>, r': Response, tail: seq<Chunk>)
    requires ValidChunk(c) && r.input == ChunkBytes(c) + next.input
    requires next.decoded == r.decoded + c.data && next.finished == r.finished && Consumed(next, line, r', tail)
    ensures Consumed(r, line, r', [c] + tail)
  {
    hide ValidChunk;
    assert ([c] + tail)[1..] == tail;
    Associates(ChunkBytes(c), Wire(tail), r'.input);
    Associates(r.decoded, c.data, Payload(tail));
  }

  lemma {:induction false} PayloadAppend(a: seq<Chunk>, b: seq<Chunk>)
    ensures Payload(a + b) == Payload(a) + Payload(b) && Wire(a + b) == Wire(a) + Wire(b)
  {
    if a == [] {
      assert a + b == b;
    } else {
      hide ChunkBytes;
      PayloadAppend(a[1..], b);
      assert (a + b)[1..] == a[1..] + b;
      Associates(a[0].data, Payload(a[1..]), Payload(b));
      Associates(ChunkBytes(a[0]), Wire(a[1..]), Wire(b));
    }
  }

  /** The frames read are the lines of these chunks, which are what the input begins with. */
  ghost predicate Explains(r: Response, chunks: seq<Chunk>) {
    && ValidChunks(chunks)
    && Wire(chunks) <= r.input
    && ReadAll(r) == Lines(r.decoded + Payload(chunks))
  }

  /**
   Any input at all, well formed or not: the frames read before the first error are exactly the lines of a
   run of well-formed chunks that the input begins with.
   */
  lemma {:induction false} FramesComeFromChunks(r: Response) returns (chunks: seq<Chunk>)
    ensures Explains(r, chunks)
    decreases |r.input| + |r.decoded|
  {
    hide ReadFrame, ValidChunk;
    if ReadFrame(r).0.Err? {
      chunks := [];
      FailsWithoutNewline(r);
      assert r.decoded + Payload([]) == r.decoded;
    } else {
      var (line, r') := ReadFrame(r);
      FrameShrinks(r);
      var first := FrameComesFromChunks(r);
      var more := FramesComeFromChunks(r');
      chunks := first + more;
      LinesOfBoth(r, line.value, r', first, more);
    }
  }

  lemma FailsWithoutNewline(r: Response)
    requires ReadFrame(r).0.Err?
    ensures FindNewline(r.decoded).None?
  {
    hide ReadBoundedLine, ParseSize, ReadTrailers;
  }

  lemma LinesOfBoth(r: Response, line: seq<byte>, r': Response, first: seq<Chunk>, more: seq<Chunk>)
    requires ReadFrame(r) == (Ok(line), r') && IsLine(line, |line|)
    requires Consumed(r, line, r', first) && Explains(r', more)
    ensures Explains(r, first + more)
  {
    hide ReadFrame, ValidChunk, FindNewline, Lines, Payload, Wire;
    FrameShrinks(r);
    PayloadAppend(first, more);
    assert Wire(first + more) <= r.input;
    var rest := r'.decoded + Payload(more);
    assert r.decoded + Payload(first + more) == line + rest by {
      Associates(r.decoded, Payload(first), Payload(more));
      Associates(line, r'.decoded, Payload(more));
    }
    LineComesFirst(line, rest);
  }

  lemma LineComesFirst(line: seq<byte>, rest: seq<byte>)
    requires IsLine(line, |line|)
    ensures Lines(line + rest) == [line] + Lines(rest)
  {
    var n := |line| - 1;
    var p := line + rest;
    PositionIs(p, n);
    assert p[..n + 1] == line && p[n + 1..] == rest;
  }
}
