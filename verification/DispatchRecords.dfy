/**
 Records of the AI dispatch ledger: validity, identity, the order in which terminal records are dropped,
 and the JSON text one ledger serialises to.
 */
module DispatchRecords {
  import opened Outcomes
  import opened Strings

  const MAXIMUM_DISPATCH_RECORDS := 512
  const MAXIMUM_DISPATCH_LEDGER_BYTES := 1024 * 1024
  const DISPATCH_LEDGER_FILE_VERSION := 1

  datatype DispatchState = Prepared | ExternalStarted | Completed | Failed {
    predicate Terminal() {
      Completed? || Failed?
    }
  }

  datatype Record = Record(
    dispatchId: string,
    roomId: string,
    sourceMessageId: string,
    recipientId: string,
    replyMessageId: string,
    state: DispatchState,
    updatedAt: string)

  datatype LedgerError = Invalid | Io

  /** The `BTreeMap` of the ledger, keyed by dispatch id. */
  type Records = map<string, Record>

  predicate ValidDispatchId(value: string) {
    value != "" && ByteLength(value) <= 384 && forall c <- value :: IsAsciiAlphanumeric(c) || c in "-_:"
  }

  predicate ValidEntityId(value: string) {
    value != "" && ByteLength(value) <= 128 && forall c <- value :: IsAsciiAlphanumeric(c) || c in "-_"
  }

  predicate ValidTimestamp(value: string) {
    value != "" && ByteLength(value) <= 64 && forall c <- value :: IsAsciiGraphic(c)
  }

  function DispatchIdOf(sourceMessageId: string, recipientId: string): string {
    "room-message:" + (sourceMessageId + (":" + recipientId))
  }

  predicate ValidRecord(r: Record) {
    && ValidDispatchId(r.dispatchId)
    && ValidEntityId(r.roomId)
    && ValidEntityId(r.sourceMessageId)
    && ValidEntityId(r.recipientId)
    && ValidEntityId(r.replyMessageId)
    && ValidTimestamp(r.updatedAt)
    && r.dispatchId == DispatchIdOf(r.sourceMessageId, r.recipientId)
  }

  predicate SameDispatch(a: Record, b: Record) {
    && a.dispatchId == b.dispatchId
    && a.roomId == b.roomId
    && a.sourceMessageId == b.sourceMessageId
    && a.recipientId == b.recipientId
    && a.replyMessageId == b.replyMessageId
  }

  /** What every ledger the program holds or writes satisfies. */
  predicate ValidLedger(m: Records) {
    |m| <= MAXIMUM_DISPATCH_RECORDS && forall id <- m :: ValidRecord(m[id]) && m[id].dispatchId == id
  }

  lemma FirstColon(source: string, recipient: string, source': string, recipient': string)
    requires ':' !in source && ':' !in source'
    requires source + (":" + recipient) == source' + (":" + recipient')
    ensures source == source' && recipient == recipient'
  {
    var a, b := source + (":" + recipient), source' + (":" + recipient');
    assert a[|source|] == ':' && b[|source'|] == ':';
    assert a[..|source|] == source && b[..|source'|] == source';
    assert |source| == |source'|;
    assert a[|source| + 1..] == recipient && b[|source| + 1..] == recipient';
  }

  /** One dispatch id names one source message and one recipient. */
  lemma DispatchIdIsInjective(source: string, recipient: string, source': string, recipient': string)
    requires ValidEntityId(source) && ValidEntityId(source')
    requires DispatchIdOf(source, recipient) == DispatchIdOf(source', recipient')
    ensures source == source' && recipient == recipient'
  {
    var a, b := source + (":" + recipient), source' + (":" + recipient');
    assert a == DispatchIdOf(source, recipient)[13..] && b == DispatchIdOf(source', recipient')[13..];
    assert a == b;
    assert ':' !in source && ':' !in source';
    FirstColon(source, recipient, source', recipient');
  }

  // ---- BTreeMap order and the record dropped first ----

  predicate IsLeast(keys: set<string>, k: string) {
    k in keys && forall other <- keys :: LexLeq(k, other)
  }

  lemma LeastKeyExists(keys: set<string>)
    requires keys != {}
    ensures exists k :: IsLeast(keys, k)
  {
    var k :| k in keys;
    var rest := keys - {k};
    if rest == {} {
      assert keys == {k};
      LexTotal(k, k);
      assert IsLeast(keys, k);
    } else {
      LeastKeyExists(rest);
      var m :| IsLeast(rest, m);
      LexTotal(k, m);
      LexTotal(k, k);
      if LexLeq(k, m) {
        forall other <- keys ensures LexLeq(k, other) {
          if other != k { LexTransitive(k, m, other); }
        }
        assert IsLeast(keys, k);
      } else {
        assert IsLeast(keys, m);
      }
    }
  }

  lemma LeastKeyIsUnique()
    ensures forall a, b :: LexLeq(a, b) && LexLeq(b, a) ==> a == b
  {
    forall a, b | LexLeq(a, b) && LexLeq(b, a) ensures a == b {
      LexAntisymmetric(a, b);
    }
  }

  function LeastKey(keys: set<string>): (k: string)
    requires keys != {}
    ensures IsLeast(keys, k)
  {
    LeastKeyExists(keys);
    LeastKeyIsUnique();
    var k :| IsLeast(keys, k);
    k
  }

  /** `BTreeMap::values`: the records in ascending order of dispatch id. */
  function Values(m: Records): seq<Record>
    decreases |m|
  {
    if m == map[] then []
    else
      var k := LeastKey(m.Keys);
      [m[k]] + Values(m - {k})
  }

  /** The order `min_by` uses: by timestamp, then by dispatch id. */
  predicate OlderOrSame(a: Record, b: Record) {
    if a.updatedAt == b.updatedAt then LexLeq(a.dispatchId, b.dispatchId) else LexLeq(a.updatedAt, b.updatedAt)
  }

  function TerminalIds(m: Records): set<string> {
    set id <- m | m[id].state.Terminal()
  }

  predicate IsOldest(m: Records, ids: set<string>, id: string)
    requires ids <= m.Keys
  {
    id in ids && forall other <- ids :: OlderOrSame(m[id], m[other])
  }

  lemma OlderIsTransitive(a: Record, b: Record, c: Record)
    requires OlderOrSame(a, b) && OlderOrSame(b, c)
    ensures OlderOrSame(a, c)
  {
    if a.updatedAt == b.updatedAt == c.updatedAt {
      LexTransitive(a.dispatchId, b.dispatchId, c.dispatchId);
    } else if a.updatedAt != b.updatedAt && b.updatedAt != c.updatedAt {
      LexTransitive(a.updatedAt, b.updatedAt, c.updatedAt);
      if a.updatedAt == c.updatedAt { LexAntisymmetric(a.updatedAt, b.updatedAt); }
    }
  }

  lemma OldestExists(m: Records, ids: set<string>)
    requires ids != {} && ids <= m.Keys
    ensures exists id :: IsOldest(m, ids, id)
  {
    var id :| id in ids;
    var rest := ids - {id};
    LexTotal(m[id].dispatchId, m[id].dispatchId);
    if rest == {} {
      assert ids == {id};
      assert IsOldest(m, ids, id);
    } else {
      OldestExists(m, rest);
      var o :| IsOldest(m, rest, o);
      LexTotal(m[id].updatedAt, m[o].updatedAt);
      LexTotal(m[id].dispatchId, m[o].dispatchId);
      if OlderOrSame(m[id], m[o]) {
        forall other <- ids ensures OlderOrSame(m[id], m[other]) {
          if other != id { OlderIsTransitive(m[id], m[o], m[other]); }
        }
        assert IsOldest(m, ids, id);
      } else {
        assert IsOldest(m, ids, o);
      }
    }
  }

  lemma OldestIsUnique(m: Records, ids: set<string>)
    requires ids <= m.Keys && forall id <- m :: m[id].dispatchId == id
    ensures forall a, b :: IsOldest(m, ids, a) && IsOldest(m, ids, b) ==> a == b
  {
    forall a, b | IsOldest(m, ids, a) && IsOldest(m, ids, b) ensures a == b {
      if m[a].updatedAt == m[b].updatedAt {
        LexAntisymmetric(a, b);
      } else {
        LexAntisymmetric(m[a].updatedAt, m[b].updatedAt);
      }
    }
  }

  /** The record `prune_terminal_records` drops, if the ledger is full and holds a terminal record. */
  function PruneVictim(m: Records): (r: Option<string>)
    requires forall id <- m :: m[id].dispatchId == id
    ensures r.Some? <==> |m| >= MAXIMUM_DISPATCH_RECORDS && exists id <- m :: m[id].state.Terminal()
    ensures r.Some? ==> IsOldest(m, TerminalIds(m), r.value)
  {
    var ids := TerminalIds(m);
    if |m| < MAXIMUM_DISPATCH_RECORDS then None
    else if ids == {} then
      assert forall id <- m :: id !in TerminalIds(m);
      None
    else
      OldestExists(m, ids);
      OldestIsUnique(m, ids);
      var id :| IsOldest(m, ids, id);
      Some(id)
  }

  function Prune(m: Records): Records
    requires forall id <- m :: m[id].dispatchId == id
  {
    match PruneVictim(m)
    case None => m
    case Some(id) => m - {id}
  }

  // ---- Reading a stored list back ----

  /** The loop of `load`: every stored record must be valid and no dispatch id may repeat. */
  function Collect(acc: Records, stored: seq<Record>): Result<Records, LedgerError>
    decreases |stored|
  {
    if stored == [] then Ok(acc)
    else if !ValidRecord(stored[0]) || stored[0].dispatchId in acc then Err(Invalid)
    else Collect(acc[stored[0].dispatchId := stored[0]], stored[1..])
  }

  lemma MoveEntry<K, V>(acc: map<K, V>, m: map<K, V>, k: K)
    requires k in m && k !in acc
    ensures acc[k := m[k]] + (m - {k}) == acc + m
  {}

  lemma {:induction false} CollectValues(acc: Records, m: Records)
    requires forall id <- m :: ValidRecord(m[id]) && m[id].dispatchId == id
    requires acc.Keys !! m.Keys
    ensures Collect(acc, Values(m)) == Ok(acc + m)
    decreases |m|
  {
    hide ValidRecord, Collect, LeastKey;
    if m == map[] {
      assert acc + m == acc;
      CollectNothing(acc);
    } else {
      var k := LeastKey(m.Keys);
      var rest := m - {k};
      var first := m[k];
      CollectValues(acc[k := first], rest);
      MoveEntry(acc, m, k);
      CollectFirst(acc, first, Values(rest));
    }
  }

  lemma CollectNothing(acc: Records)
    ensures Collect(acc, []) == Ok(acc)
  {}

  lemma CollectFirst(acc: Records, first: Record, rest: seq<Record>)
    requires ValidRecord(first) && first.dispatchId !in acc
    ensures Collect(acc, [first] + rest) == Collect(acc[first.dispatchId := first], rest)
  {
    assert ([first] + rest)[1..] == rest;
  }

  /** `Collect` only ever produces ledgers keyed by their own dispatch ids. */
  lemma {:induction false} CollectedIsKeyed(acc: Records, stored: seq<Record>)
    requires forall id <- acc :: ValidRecord(acc[id]) && acc[id].dispatchId == id
    requires Collect(acc, stored).Ok?
    ensures var m := Collect(acc, stored).value;
            |m| == |acc| + |stored| && forall id <- m :: ValidRecord(m[id]) && m[id].dispatchId == id
    decreases |stored|
  {
    if stored != [] {
      CollectedIsKeyed(acc[stored[0].dispatchId := stored[0]], stored[1..]);
    }
  }

  // ---- JSON text ----

  function JsonChar(c: char): string {
    var n := c as int;
    if c == '"' || c == '\\' then ['\\', c]
    else if n >= 0x20 then [c]
    else if n == 8 then "\\b"
    else if n == 9 then "\\t"
    else if n == 10 then "\\n"
    else if n == 12 then "\\f"
    else if n == 13 then "\\r"
    else "\\u00" + ["0123456789abcdef"[n / 16], "0123456789abcdef"[n % 16]]
  }

  function JsonEscaped(s: string): string {
    if s == "" then "" else JsonChar(s[0]) + JsonEscaped(s[1..])
  }

  function JsonString(s: string): string {
    "\"" + JsonEscaped(s) + "\""
  }

  function StateName(s: DispatchState): string {
    match s
    case Prepared => "prepared"
    case ExternalStarted => "externalStarted"
    case Completed => "completed"
    case Failed => "failed"
  }

  function JsonField(name: string, value: string): string {
    JsonString(name) + ":" + JsonString(value)
  }

  function Comma(a: string, b: string): string {
    a + "," + b
  }

  function JsonObject(d: string, o: string, m: string, t: string, y: string, s: string, u: string): string {
    "{" + Comma(Comma(Comma(d, o), Comma(m, t)), Comma(Comma(y, s), u)) + "}"
  }

  function JsonRecord(r: Record): string {
    JsonObject(JsonField("dispatchId", r.dispatchId), JsonField("roomId", r.roomId),
               JsonField("sourceMessageId", r.sourceMessageId), JsonField("recipientId", r.recipientId),
               JsonField("replyMessageId", r.replyMessageId), JsonField("state", StateName(r.state)),
               JsonField("updatedAt", r.updatedAt))
  }

  function JsonRecords(stored: seq<Record>): string {
    if stored == [] then ""
    else if |stored| == 1 then JsonRecord(stored[0])
    else Comma(JsonRecord(stored[0]), JsonRecords(stored[1..]))
  }

  /** The bytes `serde_json::to_vec` writes for a ledger of the current file version. */
  function JsonLedger(stored: seq<Record>): string {
    "{\"fileVersion\":1,\"records\":[" + JsonRecords(stored) + "]}"
  }

  lemma {:induction false} EscapedLength(s: string)
    requires forall c <- s :: IsAsciiGraphic(c)
    ensures Ascii(JsonEscaped(s)) && |JsonEscaped(s)| <= 2 * |s|
    ensures (forall c <- s :: c != '"' && c != '\\') ==> |JsonEscaped(s)| == |s|
  {
    if s != "" {
      assert s[0] in s && forall c <- s[1..] :: c in s;
      EscapedLength(s[1..]);
    }
  }

  predicate Bounded(s: string, limit: nat) {
    Ascii(s) && |s| <= limit
  }

  predicate PlainName(name: string) {
    forall i :: 0 <= i < |name| ==> IsAsciiAlphanumeric(name[i])
  }

  lemma NamesArePlain()
    ensures PlainName("dispatchId") && PlainName("roomId") && PlainName("sourceMessageId")
    ensures PlainName("recipientId") && PlainName("replyMessageId") && PlainName("state") && PlainName("updatedAt")
  {}

  lemma StateNamesArePlain(s: DispatchState)
    ensures PlainName(StateName(s)) && |StateName(s)| <= 15
  {}

  lemma FieldJson(name: string, value: string, limit: nat)
    requires PlainName(name) && |JsonEscaped(value)| <= limit && Ascii(JsonEscaped(value))
    ensures Bounded(JsonField(name, value), |name| + limit + 5)
  {
    EscapedLength(name);
  }

  lemma IdJson(name: string, value: string, limit: nat)
    requires PlainName(name)
    requires forall c <- value :: IsAsciiAlphanumeric(c) || c in "-_:"
    requires ByteLength(value) <= limit
    ensures Bounded(JsonField(name, value), |name| + limit + 5)
  {
    hide PlainName, JsonField, Bounded;
    EncodeAtLeastLength(value);
    EscapedLength(value);
    FieldJson(name, value, limit);
  }

  lemma EntityJson(name: string, value: string)
    requires PlainName(name) && ValidEntityId(value)
    ensures Bounded(JsonField(name, value), |name| + 133)
  {
    hide PlainName, JsonField, Bounded;
    IdJson(name, value, 128);
  }

  lemma TimestampJson(name: string, value: string)
    requires PlainName(name) && ValidTimestamp(value)
    ensures Bounded(JsonField(name, value), |name| + 133)
  {
    hide PlainName, JsonField, Bounded;
    EncodeAtLeastLength(value);
    EscapedLength(value);
    FieldJson(name, value, 128);
  }

  lemma StateJson(name: string, s: DispatchState)
    requires PlainName(name)
    ensures Bounded(JsonField(name, StateName(s)), |name| + 20)
  {
    hide StateName, JsonField, Bounded;
    StateNamesArePlain(s);
    EscapedLength(StateName(s));
    FieldJson(name, StateName(s), 15);
  }

  lemma BoundBasics(s: string, limit: nat)
    ensures Bounded("", 0)
    ensures Bounded(s, limit) ==> Bounded(s, limit + 1)
  {}

  lemma CommaBound(a: string, la: nat, b: string, lb: nat)
    requires Bounded(a, la) && Bounded(b, lb)
    ensures Bounded(Comma(a, b), la + lb + 1)
  {}

  lemma ObjectBound(d: string, o: string, m: string, t: string, y: string, s: string, u: string)
    requires Bounded(d, 399) && Bounded(o, 139) && Bounded(m, 148) && Bounded(t, 144)
    requires Bounded(y, 147) && Bounded(s, 25) && Bounded(u, 142)
    ensures Bounded(JsonObject(d, o, m, t, y, s, u), 1300)
  {
    CommaBound(d, 399, o, 139);
    CommaBound(m, 148, t, 144);
    CommaBound(y, 147, s, 25);
    CommaBound(Comma(d, o), 539, Comma(m, t), 293);
    CommaBound(Comma(y, s), 173, u, 142);
    CommaBound(Comma(Comma(d, o), Comma(m, t)), 833, Comma(Comma(y, s), u), 316);
  }

  lemma RecordJson(r: Record)
    requires ValidRecord(r)
    ensures Bounded(JsonRecord(r), 1300)
  {
    hide PlainName, Bounded, JsonField, JsonObject, DispatchIdOf, StateName, ValidEntityId, ValidTimestamp;
    NamesArePlain();
    IdJson("dispatchId", r.dispatchId, 384);
    EntityJson("roomId", r.roomId);
    EntityJson("sourceMessageId", r.sourceMessageId);
    EntityJson("recipientId", r.recipientId);
    EntityJson("replyMessageId", r.replyMessageId);
    StateJson("state", r.state);
    TimestampJson("updatedAt", r.updatedAt);
    ObjectBound(JsonField("dispatchId", r.dispatchId), JsonField("roomId", r.roomId),
                JsonField("sourceMessageId", r.sourceMessageId), JsonField("recipientId", r.recipientId),
                JsonField("replyMessageId", r.replyMessageId), JsonField("state", StateName(r.state)),
                JsonField("updatedAt", r.updatedAt));
  }

  lemma {:induction false} RecordsJson(stored: seq<Record>)
    requires forall r <- stored :: ValidRecord(r)
    ensures Bounded(JsonRecords(stored), 1301 * |stored|)
  {
    hide JsonRecord, ValidRecord, Bounded, Comma;
    if stored == [] {
      BoundBasics("", 0);
    } else {
      BoundBasics(JsonRecord(stored[0]), 1300);
      assert stored[0] in stored && forall r <- stored[1..] :: r in stored;
      RecordJson(stored[0]);
      RecordsJson(stored[1..]);
      CommaBound(JsonRecord(stored[0]), 1300, JsonRecords(stored[1..]), 1301 * (|stored| - 1));
    }
  }

  lemma {:induction false} ValuesAreRecords(m: Records)
    ensures forall r <- Values(m) :: r in m.Values
    ensures |Values(m)| == |m|
    decreases |m|
  {
    if m != map[] {
      var k := LeastKey(m.Keys);
      ValuesAreRecords(m - {k});
      forall r <- Values(m) ensures r in m.Values {
        if r != m[k] {
          assert r in Values(m - {k});
        }
      }
    }
  }

  lemma FrameIsAscii()
    ensures Ascii("{\"fileVersion\":1,\"records\":[") && Ascii("]}")
  {}

  lemma FramedBound(prefix: string, body: string, suffix: string, limit: nat)
    requires Ascii(prefix) && Bounded(body, limit) && Ascii(suffix)
    ensures |prefix| <= ByteLength(prefix + body + suffix) <= |prefix| + limit + |suffix|
  {
    EncodeAscii(prefix + body + suffix);
  }

  /** A valid ledger always serialises to a non-empty body below the size limit. */
  lemma ValidLedgerFits(m: Records)
    requires ValidLedger(m)
    ensures 0 < ByteLength(JsonLedger(Values(m))) <= MAXIMUM_DISPATCH_LEDGER_BYTES
  {
    hide Values, JsonRecords, ByteLength, Bounded, Ascii;
    ValuesAreRecords(m);
    RecordsJson(Values(m));
    FrameIsAscii();
    FramedBound("{\"fileVersion\":1,\"records\":[", JsonRecords(Values(m)), "]}", 1301 * |m|);
  }
}
