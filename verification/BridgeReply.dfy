/** The browser bridge cuts a long reply at a character boundary and says so in a suffix. */
module BridgeReply {
  import opened Outcomes
  import opened Strings

  const MAXIMUM_REPLY_BODY_BYTES := 4_000
  const SUFFIX := "\n\n（M.I.O.の取り込み上限により末尾を省略しました）"

  datatype BridgeError = InvalidRequest

  /** `str::is_char_boundary`, on the bytes of a string. */
  predicate IsCharBoundary(bytes: seq<byte>, index: nat) {
    index == 0 || index == |bytes| || (index < |bytes| && !IsContinuation(bytes[index]))
  }

  lemma EncodedChar(c: char)
    ensures !IsContinuation(EncodeChar(c)[0])
    ensures forall i :: 0 < i < |EncodeChar(c)| ==> IsContinuation(EncodeChar(c)[i])
  {}

  /** The number of whole characters whose encoding fits in `limit` bytes. */
  function WholeChars(s: string, limit: nat): (n: nat)
    ensures n <= |s|
  {
    if s == "" || |EncodeChar(s[0])| > limit then 0
    else 1 + WholeChars(s[1..], limit - |EncodeChar(s[0])|)
  }

  /** The last boundary at or before `limit` is where the whole characters end, at most three bytes earlier. */
  lemma {:induction false} LastBoundary(s: string, limit: nat)
    requires limit <= |Encode(s)|
    ensures var bytes, n := Encode(s), WholeChars(s, limit);
            var end := |Encode(s[..n])|;
            && end <= limit <= end + 3
            && IsCharBoundary(bytes, end) && Encode(s[..n]) == bytes[..end]
            && (forall j :: end < j <= limit ==> !IsCharBoundary(bytes, j))
  {
    var bytes, n := Encode(s), WholeChars(s, limit);
    if s == "" {
      assert s[..n] == "";
    } else {
      var c, tail := EncodeChar(s[0]), s[1..];
      EncodedChar(s[0]);
      if |c| > limit {
        assert s[..n] == "";
        forall j | 0 < j <= limit ensures !IsCharBoundary(bytes, j) {
          assert bytes[j] == c[j];
        }
      } else {
        hide EncodeChar, IsCharBoundary, IsContinuation;
        LastBoundary(tail, limit - |c|);
        assert s[..n][0] == s[0] && s[..n][1..] == tail[..n - 1];
        BoundaryAfterChar(s);
      }
    }
  }

  lemma BoundaryAfterPrefix(c: seq<byte>, rest: seq<byte>, j: nat)
    requires c != [] && |c| <= j <= |c| + |rest|
    requires rest != [] ==> !IsContinuation(rest[0])
    ensures IsCharBoundary(c + rest, j) <==> IsCharBoundary(rest, j - |c|)
  {}

  lemma EncodingStartsOnBoundary(s: string)
    ensures Encode(s) != [] ==> !IsContinuation(Encode(s)[0])
  {
    if s != "" {
      EncodedChar(s[0]);
      hide EncodeChar;
      assert Encode(s)[0] == EncodeChar(s[0])[0];
    }
  }

  lemma BoundaryAfterChar(s: string)
    requires s != ""
    ensures var c, bytes, rest := EncodeChar(s[0]), Encode(s), Encode(s[1..]);
            && bytes == c + rest
            && (forall j :: |c| <= j <= |bytes| ==> (IsCharBoundary(bytes, j) <==> IsCharBoundary(rest, j - |c|)))
  {
    hide EncodeChar, IsCharBoundary, IsContinuation;
    var c, rest := EncodeChar(s[0]), Encode(s[1..]);
    EncodingStartsOnBoundary(s[1..]);
    forall j | |c| <= j <= |c| + |rest| ensures IsCharBoundary(c + rest, j) <==> IsCharBoundary(rest, j - |c|) {
      BoundaryAfterPrefix(c, rest, j);
    }
  }

  lemma SuffixFits()
    ensures ByteLength(SUFFIX) <= 4 * |SUFFIX| < MAXIMUM_REPLY_BODY_BYTES
  {
    hide Encode;
    EncodeAtMostFour(SUFFIX);
  }

  lemma {:induction false} EncodeAtMostFour(s: string)
    ensures |Encode(s)| <= 4 * |s|
  {
    if s != "" {
      EncodeAtMostFour(s[1..]);
    }
  }

  /** One more character would not fit. */
  lemma {:induction false} WholeCharsIsLongest(s: string, limit: nat)
    ensures var n := WholeChars(s, limit); n < |s| ==> |Encode(s[..n + 1])| > limit
  {
    var n := WholeChars(s, limit);
    if n < |s| {
      assert s[..n + 1][0] == s[0];
      hide EncodeChar;
      if n > 0 {
        WholeCharsIsLongest(s[1..], limit - |EncodeChar(s[0])|);
        assert s[..n + 1][1..] == s[1..][..n];
      }
    }
  }

  /**
   A cut reply: as many whole characters of the text as fit before the suffix, which
   gives up at most three bytes of the limit.
   */
  predicate CutOf(text: string, body: string, n: nat) {
    && n <= |text|
    && body == text[..n] + SUFFIX
    && MAXIMUM_REPLY_BODY_BYTES - 3 <= ByteLength(body) <= MAXIMUM_REPLY_BODY_BYTES
    && (n < |text| ==> ByteLength(text[..n + 1] + SUFFIX) > MAXIMUM_REPLY_BODY_BYTES)
  }

  /** What `bounded_reply_body` answers: nothing but white space is refused and a short text is kept whole. */
  ghost predicate Bounded(trimmed: string, r: Result<(string, bool), BridgeError>) {
    if trimmed == "" then r == Err(InvalidRequest)
    else if ByteLength(trimmed) <= MAXIMUM_REPLY_BODY_BYTES then r == Ok((trimmed, false))
    else r.Ok? && r.value.1 && exists n :: CutOf(trimmed, r.value.0, n)
  }

  lemma CutFits(text: string, n: nat, maximumPrefix: nat)
    requires n <= |text| && maximumPrefix == MAXIMUM_REPLY_BODY_BYTES - ByteLength(SUFFIX)
    requires ByteLength(text[..n]) <= maximumPrefix <= ByteLength(text[..n]) + 3
    requires n < |text| ==> ByteLength(text[..n + 1]) > maximumPrefix
    ensures CutOf(text, text[..n] + SUFFIX, n)
  {
    hide Encode;
    EncodeAppend(text[..n], SUFFIX);
    if n < |text| {
      EncodeAppend(text[..n + 1], SUFFIX);
    }
  }

  /** `bounded_reply_body`. */
  method BoundedReplyBody(input: string) returns (r: Result<(string, bool), BridgeError>)
    ensures Bounded(Trim(input), r)
  {
    hide Trim, Encode, Decode, WholeChars, CutOf, IsCharBoundary;
    var trimmed := Trim(input);
    if trimmed == "" {
      return Err(InvalidRequest);
    }
    var bytes := Encode(trimmed);
    if |bytes| <= MAXIMUM_REPLY_BODY_BYTES {
      return Ok((trimmed, false));
    }
    SuffixFits();
    var maximumPrefix := MAXIMUM_REPLY_BODY_BYTES - ByteLength(SUFFIX);
    var end := LastBoundaryBefore(trimmed, if maximumPrefix <= |bytes| then maximumPrefix else |bytes|);
    ghost var n := WholeChars(trimmed, maximumPrefix);
    DecodeIsInverseOfEncode(bytes[..end], trimmed[..n]);
    WholeCharsIsLongest(trimmed, maximumPrefix);
    CutFits(trimmed, n, maximumPrefix);
    r := Ok((Decode(bytes[..end]).value + SUFFIX, true));
  }

  /** The loop of `bounded_reply_body`: walk back from `limit` to a character boundary. */
  method LastBoundaryBefore(text: string, limit: nat) returns (end: nat)
    requires limit <= ByteLength(text)
    ensures var n := WholeChars(text, limit);
            && end == ByteLength(text[..n]) && end <= limit <= end + 3
            && Encode(text)[..end] == Encode(text[..n])
    ensures IsCharBoundary(Encode(text), end) && forall j :: end < j <= limit ==> !IsCharBoundary(Encode(text), j)
  {
    hide Encode, WholeChars, IsContinuation;
    var bytes := Encode(text);
    end := limit;
    LastBoundary(text, limit);
    ghost var n := WholeChars(text, limit);
    while end > 0 && !IsCharBoundary(bytes, end)
      invariant |Encode(text[..n])| <= end <= limit
      invariant forall j :: end < j <= limit ==> !IsCharBoundary(bytes, j)
    {
      end := end - 1;
    }
  }
}
