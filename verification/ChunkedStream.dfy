/**
 The chunked NDJSON stream between desktop and relay: an encoder, and a decoder that reads one line at a
 time from the chunked coding of section 7.1 of RFC 9112.
 */
module ChunkedStream {
  import opened Outcomes
  import opened Collections
  import opened Strings

  const MAXIMUM_STREAM_HEADER_BYTES := 8 * 1024
  const MAXIMUM_STREAM_FRAME_BYTES := 8 * 1024
  const MAXIMUM_CHUNK_SIZE_LINE_BYTES := 64
  const USIZE_BOUND := 0x1_0000_0000_0000_0000
  const LF: byte := 10
  const CRLF: seq<byte> := [13, 10]

  datatype TransportError = Protocol | Unavailable

  // ---- Lines ----

  /** How many bytes `take(limit).read_until(b'\n')` takes. */
  function LineLength(input: seq<byte>, limit: nat): (n: nat)
    ensures n <= |input| && n <= limit
  {
    if limit == 0 || input == [] then 0
    else if input[0] == LF then 1
    else 1 + LineLength(input[1..], limit - 1)
  }

  /** `read_bounded_line`: the line or an error, and the input after what was consumed. */
  function ReadBoundedLine(input: seq<byte>, maximum: nat): (r: (Result<seq<byte>, TransportError>, seq<byte>))
    ensures r.0.Ok? ==> r.0.value != [] && input == r.0.value + r.1 && IsLine(r.0.value, maximum)
    ensures |r.1| <= |input|
  {
    if maximum == 0 then (Err(Protocol), input)
    else
      var n := LineLength(input, maximum + 1);
      if n == 0 then (Err(Unavailable), input)
      else if n > maximum || input[n - 1] != LF then (Err(Protocol), input[n..])
      else
        LineLengthIsFirst(input, maximum + 1);
        (Ok(input[..n]), input[n..])
  }

  predicate EndsInNewline(bytes: seq<byte>) {
    bytes != [] && bytes[|bytes| - 1] == LF
  }

  /** A line of at most `maximum` bytes: it ends with its only line feed. */
  predicate IsLine(line: seq<byte>, maximum: nat) {
    && 0 < |line| <= maximum
    && line[|line| - 1] == LF
    && forall i :: 0 <= i < |line| - 1 ==> line[i] != LF
  }

  lemma {:induction false} LineLengthIsFirst(input: seq<byte>, limit: nat)
    ensures var n := LineLength(input, limit);
            && (forall i :: 0 <= i < n - 1 ==> input[i] != LF)
            && (n < limit && n < |input| ==> n > 0 && input[n - 1] == LF)
  {
    if limit > 0 && input != [] && input[0] != LF {
      LineLengthIsFirst(input[1..], limit - 1);
      var n := LineLength(input, limit);
      forall i | 0 <= i < n - 1 ensures input[i] != LF {
        if i > 0 { assert input[i] == input[1..][i - 1]; }
      }
    }
  }

  lemma {:induction false} LineLengthOfLine(line: seq<byte>, rest: seq<byte>, limit: nat)
    requires IsLine(line, limit)
    ensures LineLength(line + rest, limit + 1) == |line|
  {
    var input := line + rest;
    if |line| > 1 {
      assert input[0] == line[0] != LF;
      assert input[1..] == line[1..] + rest;
      LineLengthOfLine(line[1..], rest, limit - 1);
    }
  }

  lemma ReadsLine(line: seq<byte>, rest: seq<byte>, maximum: nat)
    requires IsLine(line, maximum)
    ensures ReadBoundedLine(line + rest, maximum) == (Ok(line), rest)
  {
    LineLengthOfLine(line, rest, maximum);
  }

  /**
   A bounded read without its algorithm: the line at the front of the input if it has one within the limit.
   If not, it is an error and one byte more than the limit is gone, if there are that many.
   */
  ghost predicate LineRead(input: seq<byte>, maximum: nat, r: Result<seq<byte>, TransportError>, rest: seq<byte>) {
    match r
    case Ok(line) => IsLine(line, maximum) && input == line + rest
    case Err(e) =>
      && (forall line :: IsLine(line, maximum) ==> !(line <= input))
      && e == (if maximum > 0 && input == [] then Unavailable else Protocol)
      && rest == input[if maximum == 0 then 0 else if maximum < |input| then maximum + 1 else |input|..]
  }

  lemma LinesAtTheFrontAreOne(a: seq<byte>, b: seq<byte>, input: seq<byte>)
    requires IsLine(a, |a|) && IsLine(b, |b|) && a <= input && b <= input
    ensures a == b
  {}

  /** `read_bounded_line` is the one result that fits that description. */
  lemma BoundedLineExactly(
    input: seq<byte>, maximum: nat, r: Result<seq<byte>, TransportError>, rest: seq<byte>)
    ensures LineRead(input, maximum, r, rest) <==> (r, rest) == ReadBoundedLine(input, maximum)
  {
    var (r', rest') := ReadBoundedLine(input, maximum);
    BoundedLineIsRead(input, maximum);
    if LineRead(input, maximum, r, rest) {
      hide ReadBoundedLine;
      if r.Ok? && r'.Ok? {
        LinesAtTheFrontAreOne(r.value, r'.value, input);
      }
    }
  }

  lemma BoundedLineIsRead(input: seq<byte>, maximum: nat)
    ensures LineRead(input, maximum, ReadBoundedLine(input, maximum).0, ReadBoundedLine(input, maximum).1)
  {
    if ReadBoundedLine(input, maximum).0.Err? {
      if maximum > 0 {
        LineLengthIsFirst(input, maximum + 1);
      }
      forall line | IsLine(line, maximum) ensures !(line <= input) {
        if line <= input {
          var rest := input[|line|..];
          assert input == line + rest;
          ReadsLine(line, rest, maximum);
        }
      }
    }
  }

  /** How long the line gets that `line` starts, with `rest` behind it. */
  function Reaches(line: seq<byte>, rest: seq<byte>, limit: nat): nat
    requires |line| <= limit
  {
    |line| + if EndsInNewline(line) then 0 else LineLength(rest, limit - |line|)
  }

  lemma ByteByByte(line: seq<byte>, rest: seq<byte>, limit: nat)
    requires |line| < limit && rest != [] && !EndsInNewline(line)
    ensures var longer := line + [rest[0]];
            Reaches(longer, rest[1..], limit) == Reaches(line, rest, limit) && longer + rest[1..] == line + rest
  {}

  lemma ReachesFromHere(rest: seq<byte>, limit: nat)
    ensures Reaches([], rest, limit) == LineLength(rest, limit)
  {}

  lemma ReachedEnd(line: seq<byte>, rest: seq<byte>, limit: nat)
    requires |line| <= limit && (|line| == limit || rest == [] || EndsInNewline(line))
    ensures Reaches(line, rest, limit) == |line|
  {}

  lemma ReadsNothing(input: seq<byte>)
    ensures ReadBoundedLine(input, 0) == (Err(Protocol), input)
  {}

  lemma TakenIsRead(input: seq<byte>, maximum: nat, line: seq<byte>, rest: seq<byte>)
    requires maximum > 0 && input == line + rest && |line| == LineLength(input, maximum + 1)
    ensures ReadBoundedLine(input, maximum)
            == (if line == [] then Err(Unavailable)
                else if |line| > maximum || !EndsInNewline(line) then Err(Protocol)
                else Ok(line),
                rest)
  {
    hide LineLength;
    assert input[..|line|] == line && input[|line|..] == rest;
  }

  // ---- Chunk sizes ----

  function HexValue(c: char): Option<nat> {
    if '0' <= c <= '9' then Some(c as int - '0' as int)
    else if 'a' <= c <= 'f' then Some(c as int - 'a' as int + 10)
    else if 'A' <= c <= 'F' then Some(c as int - 'A' as int + 10)
    else None
  }

  function ParseDigits(s: string, acc: nat): Option<nat> {
    if s == "" then Some(acc)
    else
      match HexValue(s[0])
      case None => None
      case Some(d) => if acc * 16 + d >= USIZE_BOUND then None else ParseDigits(s[1..], acc * 16 + d)
  }

  /** `usize::from_str_radix(s, 16)` on a 64-bit machine. */
  function ParseHex(s: string): Option<nat> {
    var digits := if s != "" && s[0] == '+' then s[1..] else s;
    if digits == "" then None else ParseDigits(digits, 0)
  }

  function BeforeSemicolon(s: string): string {
    if s == "" || s[0] == ';' then "" else [s[0]] + BeforeSemicolon(s[1..])
  }

  /** The size a chunk-size line announces; an extension after a semicolon is ignored. */
  function ParseSize(line: seq<byte>): Option<nat> {
    match Decode(line)
    case None => None
    case Some(text) => ParseHex(BeforeSemicolon(Trim(text)))
  }

  // ---- The decoder ----

  datatype Response = Response(input: seq<byte>, decoded: seq<byte>, finished: bool)

  function FindNewline(bytes: seq<byte>): (r: Option<nat>)
    ensures r.Some? ==> r.value < |bytes| && bytes[r.value] == LF && LF !in bytes[..r.value]
    ensures r.None? ==> LF !in bytes
  {
    Position(bytes, (b: byte) => b == LF)
  }

  predicate IsBlank(line: seq<byte>) {
    line == CRLF || line == [LF]
  }

  /** The trailer section after the last chunk: lines up to a blank one, within the header limit. */
  function ReadTrailers(input: seq<byte>, taken: nat): (r: (Result<(), TransportError>, seq<byte>))
    ensures |r.1| <= |input|
    decreases |input|
  {
    if taken > MAXIMUM_STREAM_HEADER_BYTES then (Err(Protocol), input)
    else
      match ReadBoundedLine(input, MAXIMUM_STREAM_HEADER_BYTES - taken)
      case (Err(e), rest) => (Err(e), rest)
      case (Ok(line), rest) => if IsBlank(line) then (Ok(()), rest) else ReadTrailers(rest, taken + |line|)
  }

  function Zeros(n: nat): (r: seq<byte>)
    ensures |r| == n
  {
    seq(n, _ => 0)
  }

  /** `read_frame` up to the JSON parser: one line, or an error, and the state left behind. */
  function ReadFrame(r: Response): (Result<seq<byte>, TransportError>, Response)
    decreases |r.input|, !r.finished
  {
    match FindNewline(r.decoded)
    case Some(n) => (Ok(r.decoded[..n + 1]), r.(decoded := r.decoded[n + 1..]))
    case None =>
      if r.finished then (Err(Protocol), r)
      else
        match ReadBoundedLine(r.input, MAXIMUM_CHUNK_SIZE_LINE_BYTES)
        case (Err(e), rest) => (Err(e), r.(input := rest))
        case (Ok(line), rest) =>
          match ParseSize(line)
          case None => (Err(Protocol), r.(input := rest))
          case Some(size) =>
            if size == 0 then
              match ReadTrailers(rest, 0)
              case (Err(e), after) => (Err(e), r.(input := after))
              case (Ok(_), after) => ReadFrame(r.(input := after, finished := true))
            else if size > MAXIMUM_STREAM_FRAME_BYTES || |r.decoded| + size > MAXIMUM_STREAM_FRAME_BYTES then
              (Err(Protocol), r.(input := rest))
            else if |rest| < size then
              (Err(Unavailable), r.(input := [], decoded := r.decoded + rest + Zeros(size - |rest|)))
            else
              var grown := r.decoded + rest[..size];
              if |rest| < size + 2 then (Err(Unavailable), r.(input := [], decoded := grown))
              else if rest[size..size + 2] != CRLF then (Err(Protocol), r.(input := rest[size + 2..], decoded := grown))
              else ReadFrame(r.(input := rest[size + 2..], decoded := grown))
  }

  /** The response body as the connection holds it. */
  class ChunkedHttpResponse {
    var input: seq<byte>
    var decoded: seq<byte>
    var finished: bool

    ghost function State(): Response
      reads this
    {
      Response(input, decoded, finished)
    }

    constructor (body: seq<byte>)
      ensures State() == Response(body, [], false)
    {
      input, decoded, finished := body, [], false;
    }

    /** `read_bounded_line`, with `take(maximum + 1)` and `read_until` as the loop they are. */
    method ReadLine(maximum: nat) returns (r: Result<seq<byte>, TransportError>)
      modifies this`input
      ensures LineRead(old(input), maximum, r, input)
      ensures (r, input) == ReadBoundedLine(old(input), maximum)
    {
      hide ReadBoundedLine, LineRead, IsLine, LineLength, Reaches, EndsInNewline;
      BoundedLineIsRead(input, maximum);
      if maximum == 0 {
        assert ReadBoundedLine(input, 0) == (Err(Protocol), input) by { ReadsNothing(input); }
        return Err(Protocol);
      }
      var line: seq<byte> := [];
      assert Reaches(line, input, maximum + 1) == LineLength(input, maximum + 1)
        by { ReachesFromHere(input, maximum + 1); }
      while |line| < maximum + 1 && input != [] && !EndsInNewline(line)
        invariant line + input == old(input) && |line| <= maximum + 1
        invariant Reaches(line, input, maximum + 1) == LineLength(old(input), maximum + 1)
        decreases |input|
      {
        ByteByByte(line, input, maximum + 1);
        line := line + [input[0]];
        input := input[1..];
      }
      ReachedEnd(line, input, maximum + 1);
      TakenIsRead(old(input), maximum, line, input);
      if line == [] {
        return Err(Unavailable);
      }
      if |line| > maximum || !EndsInNewline(line) {
        return Err(Protocol);
      }
      r := Ok(line);
    }

    method SkipTrailers() returns (r: Result<(), TransportError>)
      modifies this`input
      ensures (r, input) == ReadTrailers(old(input), 0)
    {
      hide ReadBoundedLine, LineRead, IsLine, IsBlank;
      var taken: nat := 0;
      while true
        invariant ReadTrailers(old(input), 0) == ReadTrailers(input, taken)
        decreases |input|
      {
        if taken > MAXIMUM_STREAM_HEADER_BYTES {
          return Err(Protocol);
        }
        var line := ReadLine(MAXIMUM_STREAM_HEADER_BYTES - taken);
        if line.Err? {
          return Err(line.error);
        }
        taken := taken + |line.value|;
        if IsBlank(line.value) {
          return Ok(());
        }
      }
    }

    /** `read_exact`: the next `n` bytes, or all that is left when there are fewer. */
    method ReadExact(n: nat) returns (bytes: seq<byte>)
      modifies this`input
      ensures bytes == old(input)[..if n <= |old(input)| then n else |old(input)|]
      ensures input == old(input)[|bytes|..]
    {
      var k := if n <= |input| then n else |input|;
      bytes := input[..k];
      input := input[k..];
    }

    method NextFrame() returns (r: Result<seq<byte>, TransportError>)
      modifies this
      ensures (r, State()) == ReadFrame(old(State()))
    {
      hide ParseSize, ReadTrailers, ReadBoundedLine, FindNewline, LineRead, IsLine;
      while true
        invariant ReadFrame(old(State())) == ReadFrame(State())
        decreases |input|, !finished
      {
        var newline := FindNewline(decoded);
        if newline.Some? {
          var line := decoded[..newline.value + 1];
          decoded := decoded[newline.value + 1..];
          return Ok(line);
        }
        if finished {
          return Err(Protocol);
        }
        var sizeLine := ReadLine(MAXIMUM_CHUNK_SIZE_LINE_BYTES);
        if sizeLine.Err? {
          return Err(sizeLine.error);
        }
        var size := ParseSize(sizeLine.value);
        if size.None? {
          return Err(Protocol);
        }
        if size.value == 0 {
          var end := SkipTrailers();
          if end.Err? {
            return Err(end.error);
          }
          finished := true;
        } else {
          var error := ReadChunk(size.value);
          if error.Some? {
            return Err(error.value);
          }
        }
      }
    }

    /** The data of one chunk and its terminator. */
    method ReadChunk(size: nat) returns (error: Option<TransportError>)
      requires size > 0
      modifies this`input, this`decoded
      ensures var rest, d := old(input), old(decoded);
              if size > MAXIMUM_STREAM_FRAME_BYTES || |d| + size > MAXIMUM_STREAM_FRAME_BYTES then
                error == Some(Protocol) && input == rest && decoded == d
              else if |rest| < size then
                error == Some(Unavailable) && input == [] && decoded == d + rest + Zeros(size - |rest|)
              else if |rest| < size + 2 then
                error == Some(Unavailable) && input == [] && decoded == d + rest[..size]
              else
                && input == rest[size + 2..] && decoded == d + rest[..size]
                && error == if rest[size..size + 2] == CRLF then None else Some(Protocol)
    {
      if size > MAXIMUM_STREAM_FRAME_BYTES || |decoded| + size > MAXIMUM_STREAM_FRAME_BYTES {
        return Some(Protocol);
      }
      var data := ReadExact(size);
      decoded := decoded + data + Zeros(size - |data|);
      if |data| < size {
        return Some(Unavailable);
      }
      assert Zeros(0) == [];
      var terminator := ReadExact(2);
      if |terminator| < 2 {
        return Some(Unavailable);
      }
      error := if terminator == CRLF then None else Some(Protocol);
    }
  }
}
