/** Whole runs of a room source: histories only grow, replays are recognised, and a reader misses nothing. */
module RoomRuns {
  import opened Outcomes
  import opened Strings
  import opened RoomSnapshots
  import opened RoomStore

  datatype Call =
    | AppendMessage(draft: Message)
    | CreateRoom(room: Room, createdAt: string)
    | AddRoomParticipant(roomId: string, participantId: string, updatedAt: string)
    | RenameRoom(roomId: string, name: string, updatedAt: string)
    | RemoveRoomParticipant(roomId: string, participantId: string, updatedAt: string)
    | DeleteRoom(roomId: string, updatedAt: string)
    | ReplaceSnapshot(replacement: Snapshot)

  /** Drafts come from their constructors; every other argument is checked by the store. */
  predicate Sound(c: Call) {
    && (c.AppendMessage? ==> MessageDraft(c.draft))
    && (c.CreateRoom? ==> RoomDraft(c.room, c.createdAt))
  }

  ghost function Apply(s: Snapshot, c: Call): Snapshot {
    match c
    case AppendMessage(draft) => MessageAppended(s, draft).0
    case CreateRoom(room, createdAt) => RoomCreated(s, room, createdAt).0
    case AddRoomParticipant(roomId, participantId, updatedAt) => ParticipantAdded(s, roomId, participantId, updatedAt).0
    case RenameRoom(roomId, name, updatedAt) => RoomRenamed(s, roomId, name, updatedAt).0
    case RemoveRoomParticipant(roomId, participantId, updatedAt) =>
      ParticipantRemoved(s, roomId, participantId, updatedAt).0
    case DeleteRoom(roomId, updatedAt) => RoomDeleted(s, roomId, updatedAt).0
    case ReplaceSnapshot(replacement) => if ValidSnapshot(replacement) then replacement else s
  }

  ghost function Run(s: Snapshot, calls: seq<Call>): Snapshot {
    if calls == [] then s else Apply(Run(s, calls[..|calls| - 1]), calls[|calls| - 1])
  }

  lemma CallKeepsValid(s: Snapshot, c: Call)
    requires ValidSnapshot(s) && Sound(c)
    ensures ValidSnapshot(Apply(s, c))
  {
    hide ValidSnapshot, MessageDraft, RoomDraft;
    match c
    case AppendMessage(draft) => AppendKeepsValid(s, draft);
    case CreateRoom(room, createdAt) => CreateKeepsValid(s, room, createdAt);
    case AddRoomParticipant(roomId, participantId, updatedAt) => AddKeepsValid(s, roomId, participantId, updatedAt);
    case RenameRoom(roomId, name, updatedAt) => RenameKeepsValid(s, roomId, name, updatedAt);
    case RemoveRoomParticipant(roomId, participantId, updatedAt) =>
      RemoveKeepsValid(s, roomId, participantId, updatedAt);
    case DeleteRoom(roomId, updatedAt) => DeleteKeepsValid(s, roomId, updatedAt);
    case ReplaceSnapshot(_) =>
  }

  /** Every reachable snapshot is one that `validate_snapshot` accepts. */
  lemma {:induction false} RunIsValid(s: Snapshot, calls: seq<Call>)
    requires ValidSnapshot(s) && forall c <- calls :: Sound(c)
    ensures ValidSnapshot(Run(s, calls))
  {
    if calls != [] {
      hide ValidSnapshot, Apply, Sound;
      var n := |calls| - 1;
      RunIsValid(s, calls[..n]);
      CallKeepsValid(Run(s, calls[..n]), calls[n]);
    }
  }

  // ---- Histories ----

  function History(s: Snapshot, roomId: string): Option<seq<Message>> {
    match FindRoom(s.rooms, roomId)
    case None => None
    case Some(r) => Some(s.rooms[r].messages)
  }

  /** The call neither deletes this room nor replaces the snapshot, unless it is refused or changes nothing. */
  ghost predicate Undisturbed(s: Snapshot, c: Call, roomId: string) {
    (c.DeleteRoom? && c.roomId == roomId) || c.ReplaceSnapshot? ==> Apply(s, c) == s
  }

  predicate Grows(before: Option<seq<Message>>, after: Option<seq<Message>>) {
    before.Some? ==> after.Some? && before.value <= after.value
  }

  lemma FindRoomAt(rooms: seq<Room>, r: nat)
    requires DistinctRooms(rooms) && r < |rooms|
    ensures FindRoom(rooms, rooms[r].id) == Some(r)
  {}

  /** Rooms keep their places or move down by one, and their histories only grow. */
  lemma HistoryGrows(s: Snapshot, t: Snapshot, roomId: string, at: nat)
    requires DistinctRooms(s.rooms) && DistinctRooms(t.rooms)
    requires at < |t.rooms| && t.rooms[at].id == roomId
    requires exists r: nat :: r < |s.rooms| && s.rooms[r].id == roomId && s.rooms[r].messages <= t.rooms[at].messages
    ensures Grows(History(s, roomId), History(t, roomId))
  {
    var r: nat :| r < |s.rooms| && s.rooms[r].id == roomId && s.rooms[r].messages <= t.rooms[at].messages;
    FindRoomAt(s.rooms, r);
    FindRoomAt(t.rooms, at);
  }

  lemma CallGrowsHistory(s: Snapshot, c: Call, roomId: string)
    requires ValidSnapshot(s) && Sound(c) && Undisturbed(s, c, roomId)
    ensures Grows(History(s, roomId), History(Apply(s, c), roomId))
  {
    hide ValidRoom, UniqueMessages, ValidHeader, DistinctParticipants, MessageDraft, RoomDraft, ValidStamp, ValidText,
         ValidIdentifier, FindAnywhere, Known, Unknown;
    var t := Apply(s, c);
    CallKeepsValid(s, c);
    var found := FindRoom(s.rooms, roomId);
    if found.Some? && t != s {
      var r := found.value;
      PlaceAfter(s, c, roomId);
      assert s.rooms[r].messages <= t.rooms[Place(s, c, r)].messages;
      HistoryGrows(s, t, roomId, Place(s, c, r));
    }
  }

  /** Where the room that was at `r` is after a call that changed something. */
  function Place(s: Snapshot, c: Call, r: nat): nat {
    if c.DeleteRoom? then
      var gone := FindRoom(s.rooms, c.roomId);
      if gone.Some? && gone.value < r then r - 1 else r
    else r
  }

  predicate KeepsRoom(s: Snapshot, t: Snapshot, roomId: string, at: nat) {
    var r := FindRoom(s.rooms, roomId);
    r.Some? && at < |t.rooms| && t.rooms[at].id == roomId && s.rooms[r.value].messages <= t.rooms[at].messages
  }

  lemma PlaceAfter(s: Snapshot, c: Call, roomId: string)
    requires FindRoom(s.rooms, roomId).Some?
    requires Undisturbed(s, c, roomId) && Apply(s, c) != s
    ensures KeepsRoom(s, Apply(s, c), roomId, Place(s, c, FindRoom(s.rooms, roomId).value))
  {
    hide ValidSnapshot, KeepsRoom, MessageAppended, RoomCreated, ParticipantAdded, RoomRenamed, ParticipantRemoved;
    match c
    case AppendMessage(draft) => AppendKeepsRoom(s, draft, roomId);
    case CreateRoom(room, createdAt) => CreateKeepsRoom(s, room, createdAt, roomId);
    case AddRoomParticipant(id, participantId, updatedAt) => AddKeepsRoom(s, id, participantId, updatedAt, roomId);
    case RenameRoom(id, name, updatedAt) => RenameKeepsRoom(s, id, name, updatedAt, roomId);
    case RemoveRoomParticipant(id, participantId, updatedAt) =>
      RemoveKeepsRoom(s, id, participantId, updatedAt, roomId);
    case DeleteRoom(id, updatedAt) => DeleteKeepsRoom(s, id, updatedAt, roomId);
    case ReplaceSnapshot(_) =>
  }

  lemma WithRoomKeepsRoom(s: Snapshot, i: nat, room: Room, at: string, roomId: string)
    requires i < |s.rooms| && room.id == s.rooms[i].id && s.rooms[i].messages <= room.messages
    requires FindRoom(s.rooms, roomId).Some?
    ensures KeepsRoom(s, WithRoom(s, i, room, at), roomId, FindRoom(s.rooms, roomId).value)
  {}

  lemma SameKeepsRoom(s: Snapshot, roomId: string)
    requires FindRoom(s.rooms, roomId).Some?
    ensures KeepsRoom(s, s, roomId, FindRoom(s.rooms, roomId).value)
  {}

  lemma AppendKeepsRoom(s: Snapshot, m: Message, roomId: string)
    requires FindRoom(s.rooms, roomId).Some?
    ensures KeepsRoom(s, MessageAppended(s, m).0, roomId, FindRoom(s.rooms, roomId).value)
  {
    hide KeepsRoom, FindAnywhere, WithRoom, SamePayload;
    SameKeepsRoom(s, roomId);
    var found := FindRoom(s.rooms, m.roomId);
    if found.Some? {
      var room := s.rooms[found.value];
      WithRoomKeepsRoom(s, found.value, room.(messages := room.messages + [m]), m.createdAt, roomId);
    }
  }

  lemma CreateKeepsRoom(s: Snapshot, draft: Room, createdAt: string, roomId: string)
    requires FindRoom(s.rooms, roomId).Some?
    ensures KeepsRoom(s, RoomCreated(s, draft, createdAt).0, roomId, FindRoom(s.rooms, roomId).value)
  {
    hide FindRoom, Unknown;
  }

  lemma AddKeepsRoom(s: Snapshot, id: string, participantId: string, updatedAt: string, roomId: string)
    requires FindRoom(s.rooms, roomId).Some?
    ensures KeepsRoom(s, ParticipantAdded(s, id, participantId, updatedAt).0, roomId, FindRoom(s.rooms, roomId).value)
  {
    hide KeepsRoom, Known, WithRoom, ValidStamp, ValidIdentifier;
    SameKeepsRoom(s, roomId);
    var found := FindRoom(s.rooms, id);
    if found.Some? {
      var room := s.rooms[found.value];
      WithRoomKeepsRoom(s, found.value, room.(participantIds := room.participantIds + [participantId]),
                        updatedAt, roomId);
    }
  }

  lemma RenameKeepsRoom(s: Snapshot, id: string, name: string, updatedAt: string, roomId: string)
    requires FindRoom(s.rooms, roomId).Some?
    ensures KeepsRoom(s, RoomRenamed(s, id, name, updatedAt).0, roomId, FindRoom(s.rooms, roomId).value)
  {
    hide KeepsRoom, WithRoom, ValidStamp, ValidText;
    SameKeepsRoom(s, roomId);
    var found := FindRoom(s.rooms, id);
    if found.Some? {
      WithRoomKeepsRoom(s, found.value, s.rooms[found.value].(name := name), updatedAt, roomId);
    }
  }

  lemma RemoveKeepsRoom(s: Snapshot, id: string, participantId: string, updatedAt: string, roomId: string)
    requires FindRoom(s.rooms, roomId).Some?
    ensures KeepsRoom(s, ParticipantRemoved(s, id, participantId, updatedAt).0, roomId, FindRoom(s.rooms, roomId).value)
  {
    hide KeepsRoom, Known, WithRoom, Without, Mentions, ValidStamp, ValidIdentifier;
    SameKeepsRoom(s, roomId);
    var found := FindRoom(s.rooms, id);
    if found.Some? && participantId in s.rooms[found.value].participantIds {
      var room := s.rooms[found.value];
      var fewer := Without(room.participantIds, PositionOf(room.participantIds, participantId));
      WithRoomKeepsRoom(s, found.value, room.(participantIds := fewer), updatedAt, roomId);
    }
  }

  lemma DeleteKeepsRoom(s: Snapshot, id: string, updatedAt: string, roomId: string)
    requires FindRoom(s.rooms, roomId).Some? && id != roomId
    requires RoomDeleted(s, id, updatedAt).1.Ok?
    ensures var r, gone := FindRoom(s.rooms, roomId).value, FindRoom(s.rooms, id).value;
            KeepsRoom(s, RoomDeleted(s, id, updatedAt).0, roomId, if gone < r then r - 1 else r)
  {
    hide ValidStamp, FindRoom, Without;
    WithoutAt(s.rooms, FindRoom(s.rooms, id).value, FindRoom(s.rooms, roomId).value);
  }

  lemma WithoutAt<T>(values: seq<T>, i: nat, j: nat)
    requires i < |values| && j < |values| && i != j
    ensures |Without(values, i)| == |values| - 1
    ensures Without(values, i)[if i < j then j - 1 else j] == values[j]
  {}

  /** Calls that are sound and leave one room alone, one after another. */
  ghost predicate LeaveRoom(s: Snapshot, calls: seq<Call>, roomId: string) {
    calls != [] ==>
      var n := |calls| - 1;
      LeaveRoom(s, calls[..n], roomId) && Sound(calls[n]) && Undisturbed(Run(s, calls[..n]), calls[n], roomId)
  }

  lemma {:induction false} RunGrowsHistory(s: Snapshot, calls: seq<Call>, roomId: string)
    requires ValidSnapshot(s) && LeaveRoom(s, calls, roomId)
    ensures ValidSnapshot(Run(s, calls)) && Grows(History(s, roomId), History(Run(s, calls), roomId))
  {
    if calls != [] {
      hide ValidSnapshot, Apply, Sound, Undisturbed, History;
      var n := |calls| - 1;
      RunGrowsHistory(s, calls[..n], roomId);
      CallKeepsValid(Run(s, calls[..n]), calls[n]);
      CallGrowsHistory(Run(s, calls[..n]), calls[n], roomId);
    }
  }

  // ---- Replays ----

  /** The message is in the history of the room it names. */
  predicate Stored(s: Snapshot, m: Message) {
    var history := History(s, m.roomId);
    history.Some? && m in history.value
  }

  lemma {:induction false} FindAnywhereExactly(rooms: seq<Room>, r: nat, k: nat)
    requires UniqueMessages(rooms) && r < |rooms| && k < |rooms[r].messages|
    ensures FindAnywhere(rooms, rooms[r].messages[k].id) == Some(rooms[r].messages[k])
  {
    var id := rooms[r].messages[k].id;
    assert IsAt(rooms, r, k, id);
    var first := FindMessage(rooms[0].messages, id);
    if first.Some? {
      assert IsAt(rooms, 0, first.value, id);
    } else {
      assert r > 0 by { assert rooms[r].messages[k] in rooms[r].messages; }
      var rest := rooms[1..];
      forall a: nat, i: nat, a': nat, i': nat, x | IsAt(rest, a, i, x) && IsAt(rest, a', i', x)
        ensures a == a' && i == i'
      {
        assert IsAt(rooms, a + 1, i, x) && IsAt(rooms, a' + 1, i', x);
      }
      FindAnywhereExactly(rest, r - 1, k);
    }
  }

  /** How a store that holds `m` answers another message with the same id. */
  predicate AnswersReplay(s: Snapshot, m: Message, retried: Message) {
    MessageAppended(s, retried)
    == (s, if SamePayload(m, retried) then Ok(WriteSuccess(WriteStatus.Duplicate, m))
           else Err(WriteError.IdempotencyConflict))
  }

  lemma StoredIsFound(s: Snapshot, m: Message)
    requires ValidSnapshot(s) && Stored(s, m)
    ensures FindAnywhere(s.rooms, m.id) == Some(m)
    ensures ValidMessageShape(m, MAXIMUM_MESSAGE_BODY_BYTES)
    ensures MessageFound(s, m.roomId, m.id) == Ok(m)
  {
    hide ValidHeader, DistinctParticipants, ValidParticipant, UniqueMessages, ValidText,
         DistinctIdentifiers, ValidIdentifier, ParticipantIds, FindAnywhere;
    var r := FindRoom(s.rooms, m.roomId).value;
    var k: nat :| k < |s.rooms[r].messages| && s.rooms[r].messages[k] == m;
    FindAnywhereExactly(s.rooms, r, k);
    assert ValidRoom(s.rooms[r], ParticipantIds(s.participants));
    assert ValidMessage(m, m.roomId, s.rooms[r].participantIds);
    FirstInRoom(s.rooms, r, k);
  }

  lemma FirstInRoom(rooms: seq<Room>, r: nat, k: nat)
    requires UniqueMessages(rooms) && r < |rooms| && k < |rooms[r].messages|
    ensures FindMessage(rooms[r].messages, rooms[r].messages[k].id) == Some(k)
  {
    var id := rooms[r].messages[k].id;
    var first := FindMessage(rooms[r].messages, id);
    assert rooms[r].messages[k] in rooms[r].messages;
    assert IsAt(rooms, r, k, id) && IsAt(rooms, r, first.value, id);
  }

  /**
   However often and whenever an appended message is sent again, the original comes back and nothing changes;
   a different message under its id is refused. Only deleting its room or replacing the snapshot ends this.
   */
  lemma ReplayIsAlwaysRecognised(s: Snapshot, m: Message, calls: seq<Call>, retried: Message)
    requires ValidSnapshot(s) && MessageDraft(m)
    requires MessageAppended(s, m).1.Ok?
    requires LeaveRoom(MessageAppended(s, m).0, calls, m.roomId) && retried.id == m.id
    ensures var original := MessageAppended(s, m).1.value.message;
            var t := Run(MessageAppended(s, m).0, calls);
            && AnswersReplay(t, original, retried)
            && MessageFound(t, m.roomId, m.id) == Ok(original)
  {
    hide ValidSnapshot, LeaveRoom, MessageDraft, Run, MessageFound, History;
    var (t, w) := MessageAppended(s, m);
    var original := w.value.message;
    AppendKeepsValid(s, m);
    AppendStores(s, m);
    RunGrowsHistory(t, calls, m.roomId);
    StoredIsFound(Run(t, calls), original);
  }

  lemma {:induction false} FoundIsStored(rooms: seq<Room>, id: string)
    requires FindAnywhere(rooms, id).Some?
    ensures exists r: nat :: r < |rooms| && FindAnywhere(rooms, id).value in rooms[r].messages
                && FindAnywhere(rooms, id).value.id == id
  {
    if FindMessage(rooms[0].messages, id).Some? {
      assert FindAnywhere(rooms, id).value in rooms[0].messages;
    } else {
      FoundIsStored(rooms[1..], id);
      var r: nat :| r < |rooms[1..]| && FindAnywhere(rooms[1..], id).value in rooms[1..][r].messages;
      assert rooms[r + 1] == rooms[1..][r];
    }
  }

  /** A successful append, new or repeated, leaves the answered message in the history of the room it names. */
  lemma AppendStores(s: Snapshot, m: Message)
    requires ValidSnapshot(s) && MessageAppended(s, m).1.Ok?
    ensures var (t, w) := MessageAppended(s, m);
            var original := w.value.message;
            Stored(t, original) && original.id == m.id && original.roomId == m.roomId && SamePayload(original, m)
  {
    hide ValidHeader, DistinctParticipants, ValidParticipant, UniqueMessages,
         ValidMessageShape, FindAnywhere, ParticipantIds;
    var existing := FindAnywhere(s.rooms, m.id);
    if existing.Some? {
      FoundIsStored(s.rooms, m.id);
      var r: nat :| r < |s.rooms| && existing.value in s.rooms[r].messages;
      assert ValidRoom(s.rooms[r], ParticipantIds(s.participants));
      FindRoomAt(s.rooms, r);
    } else {
      var r := FindRoom(s.rooms, m.roomId).value;
      var rooms := MessageAppended(s, m).0.rooms;
      assert DistinctRooms(rooms);
      FindRoomAt(rooms, r);
      assert rooms[r].messages == s.rooms[r].messages + [m];
    }
  }

  /** Once its room is deleted, a message's id is free again, which is where the promise above ends. */
  lemma DeletedIdsAreFree(s: Snapshot, roomId: string, updatedAt: string, m: Message)
    requires ValidSnapshot(s) && Stored(s, m) && m.roomId == roomId
    requires RoomDeleted(s, roomId, updatedAt).1.Ok?
    ensures FindAnywhere(RoomDeleted(s, roomId, updatedAt).0.rooms, m.id).None?
  {
    hide ValidHeader, DistinctParticipants, ValidParticipant, ParticipantIds, FindAnywhere, UniqueMessages,
         DistinctRooms, ValidRoom, Without, FindRoom, ValidStamp;
    var i := FindRoom(s.rooms, roomId).value;
    var k: nat :| k < |s.rooms[i].messages| && s.rooms[i].messages[k] == m;
    var rest := Without(s.rooms, i);
    var found := FindAnywhere(rest, m.id);
    if found.Some? {
      FoundIsStored(rest, m.id);
      var r: nat :| r < |rest| && found.value in rest[r].messages;
      var j, l := StillThere(s.rooms, i, r, found.value);
      OnePlaceOnly(s.rooms, i, k, j, l, m.id);
      assert false;
    }
  }

  /** What is left after removing a room was there before, in another room. */
  lemma StillThere(rooms: seq<Room>, i: nat, r: nat, m: Message) returns (j: nat, k: nat)
    requires i < |rooms| && r < |Without(rooms, i)| && m in Without(rooms, i)[r].messages
    ensures j != i && IsAt(rooms, j, k, m.id)
  {
    j := if r < i then r else r + 1;
    assert Without(rooms, i)[r] == rooms[j];
    k :| k < |rooms[j].messages| && rooms[j].messages[k] == m;
  }

  lemma OnePlaceOnly(rooms: seq<Room>, r: nat, k: nat, r': nat, k': nat, id: string)
    requires UniqueMessages(rooms) && IsAt(rooms, r, k, id) && IsAt(rooms, r', k', id)
    ensures r == r' && k == k'
  {}

  // ---- A reader that follows nextAfterMessageId ----

  datatype Reader = Reader(cursor: Option<string>, received: seq<Message>, hasMore: bool, failed: bool)

  function Polled(s: Snapshot, roomId: string, reader: Reader, limit: nat): Reader {
    match RoomRead(s, Query(roomId, reader.cursor, limit))
    case Err(_) => reader.(failed := true)
    case Ok(read) =>
      Reader(read.page.nextAfterMessageId, reader.received + read.room.messages, read.page.hasMoreAfter, reader.failed)
  }

  datatype Step = Write(call: Call) | Poll(limit: nat)

  ghost function Taken(s: Snapshot, roomId: string, reader: Reader, step: Step): (Snapshot, Reader) {
    match step
    case Write(call) => (Apply(s, call), reader)
    case Poll(limit) => (s, Polled(s, roomId, reader, limit))
  }

  ghost function Follow(s: Snapshot, roomId: string, reader: Reader, steps: seq<Step>): (Snapshot, Reader) {
    if steps == [] then (s, reader)
    else
      var (t, r) := Follow(s, roomId, reader, steps[..|steps| - 1]);
      Taken(t, roomId, r, steps[|steps| - 1])
  }

  ghost predicate StepAllowed(s: Snapshot, roomId: string, step: Step) {
    match step
    case Write(call) => Sound(call) && Undisturbed(s, call, roomId)
    case Poll(limit) => 1 <= limit <= 30
  }

  ghost predicate Allowed(s: Snapshot, roomId: string, reader: Reader, steps: seq<Step>) {
    steps != [] ==>
      var n := |steps| - 1;
      Allowed(s, roomId, reader, steps[..n]) && StepAllowed(Follow(s, roomId, reader, steps[..n]).0, roomId, steps[n])
  }

  /** What the reader received is the slice of the history that starts at `from`, and its cursor is the slice's end. */
  predicate Following(s: Snapshot, roomId: string, from: nat, reader: Reader) {
    var history := History(s, roomId);
    var end := from + |reader.received|;
    && !reader.failed
    && history.Some? && 0 < end <= |history.value|
    && reader.received == history.value[from..end]
    && reader.cursor == Some(history.value[end - 1].id)
  }

  /** The next query is one its constructor accepts, and its page starts right after the cursor. */
  lemma CursorIsFound(s: Snapshot, roomId: string, from: nat, reader: Reader, limit: nat)
    requires ValidSnapshot(s) && Following(s, roomId, from, reader) && 1 <= limit <= 30
    ensures var q := Query(roomId, reader.cursor, limit);
            ValidQuery(q) && StartOf(s.rooms[FindRoom(s.rooms, roomId).value], q) == Some(from + |reader.received|)
  {
    hide ValidHeader, DistinctParticipants, ValidParticipant, UniqueMessages, ValidText,
         DistinctIdentifiers, ValidIdentifier, ParticipantIds, FindRoom, FindMessage;
    var r := FindRoom(s.rooms, roomId).value;
    var end := from + |reader.received|;
    FirstInRoom(s.rooms, r, end - 1);
    assert ValidRoom(s.rooms[r], ParticipantIds(s.participants));
    assert ValidMessage(s.rooms[r].messages[end - 1], roomId, s.rooms[r].participantIds);
  }

  lemma PollContinues(s: Snapshot, roomId: string, from: nat, reader: Reader, limit: nat)
    requires ValidSnapshot(s) && Following(s, roomId, from, reader) && 1 <= limit <= 30
    ensures var next, total := Polled(s, roomId, reader, limit), |History(s, roomId).value|;
            && Following(s, roomId, from, next)
            && (next.hasMore <==> from + |next.received| < total)
            && |next.received| <= |reader.received| + limit
            && (|next.received| == |reader.received| + limit || from + |next.received| == total)
  {
    hide ValidSnapshot, Resolve, PageOf, StartOf, FindRoom;
    var q, end := Query(roomId, reader.cursor, limit), from + |reader.received|;
    CursorIsFound(s, roomId, from, reader, limit);
    NextSlice(s.rooms[FindRoom(s.rooms, roomId).value], q, from, end);
  }

  lemma NextSlice(room: Room, q: Query, from: nat, end: nat)
    requires from <= end <= |room.messages| && 0 < end && q.afterMessageId == Some(room.messages[end - 1].id)
    ensures var (page, messages) := PageOf(room, q, end);
            var reached := end + |messages|;
            && reached <= |room.messages| && room.messages[from..end] + messages == room.messages[from..reached]
            && page.nextAfterMessageId == Some(room.messages[reached - 1].id)
            && (page.hasMoreAfter <==> reached < |room.messages|)
            && |messages| <= q.limit && (|messages| == q.limit || reached == |room.messages|)
  {}

  lemma WriteKeepsFollowing(s: Snapshot, c: Call, roomId: string, from: nat, reader: Reader)
    requires ValidSnapshot(s) && Sound(c) && Undisturbed(s, c, roomId) && Following(s, roomId, from, reader)
    ensures Following(Apply(s, c), roomId, from, reader)
  {
    hide ValidSnapshot, Sound, Apply, Undisturbed, History;
    CallGrowsHistory(s, c, roomId);
  }

  /** One step from a reader that is following: it still is, and a poll tells it exactly whether it is at the end. */
  predicate Continues(
    s: Snapshot, t: Snapshot, roomId: string, from: nat, before: Reader, after: Reader, polled: bool)
  {
    && Following(t, roomId, from, after)
    && Grows(History(s, roomId), History(t, roomId)) && before.received <= after.received
    && (polled ==> (!after.hasMore <==> after.received == History(t, roomId).value[from..]))
  }

  lemma StepContinues(s: Snapshot, roomId: string, from: nat, reader: Reader, step: Step)
    requires ValidSnapshot(s) && Following(s, roomId, from, reader) && StepAllowed(s, roomId, step)
    ensures var (t, r) := Taken(s, roomId, reader, step);
            ValidSnapshot(t) && Continues(s, t, roomId, from, reader, r, step.Poll?)
  {
    hide ValidSnapshot, Sound, Apply, Undisturbed, History, Polled;
    match step
    case Write(call) =>
      CallKeepsValid(s, call);
      CallGrowsHistory(s, call, roomId);
      WriteKeepsFollowing(s, call, roomId, from, reader);
    case Poll(limit) =>
      PollContinues(s, roomId, from, reader, limit);
      PollOnlyAdds(s, roomId, reader, limit);
  }

  /**
   Whatever is written in between, what a reader receives is one slice of the history without gap or repeat,
   and right after a poll it has the whole history from its start exactly when it is told that nothing is left.
   */
  lemma {:induction false} ReaderMissesNothing(s: Snapshot, roomId: string, from: nat, reader: Reader, steps: seq<Step>)
    requires ValidSnapshot(s) && Following(s, roomId, from, reader) && Allowed(s, roomId, reader, steps)
    ensures var (t, r) := Follow(s, roomId, reader, steps);
            && ValidSnapshot(t)
            && Continues(s, t, roomId, from, reader, r, steps != [] && steps[|steps| - 1].Poll?)
  {
    hide ValidSnapshot, Taken, StepAllowed, History, Following;
    if steps != [] {
      var n := |steps| - 1;
      var (t, r) := Follow(s, roomId, reader, steps[..n]);
      ReaderMissesNothing(s, roomId, from, reader, steps[..n]);
      StepContinues(t, roomId, from, r, steps[n]);
    }
  }

  lemma PollOnlyAdds(s: Snapshot, roomId: string, reader: Reader, limit: nat)
    ensures reader.received <= Polled(s, roomId, reader, limit).received
  {
    hide RoomRead;
  }

  /** In a room where nothing is written, as many polls as there are messages left bring the reader to the end. */
  lemma {:induction false} ReaderCatchesUp(s: Snapshot, roomId: string, from: nat, reader: Reader, limits: seq<nat>)
    requires ValidSnapshot(s) && Following(s, roomId, from, reader)
    requires forall i :: 0 <= i < |limits| ==> 1 <= limits[i] <= 30
    requires from + |reader.received| + |limits| >= |History(s, roomId).value|
    ensures AfterPolls(s, roomId, reader, limits).received == History(s, roomId).value[from..]
    decreases |limits|
  {
    hide ValidSnapshot, Polled, History;
    if limits != [] {
      PollContinues(s, roomId, from, reader, limits[0]);
      ReaderCatchesUp(s, roomId, from, Polled(s, roomId, reader, limits[0]), limits[1..]);
    }
  }

  function AfterPolls(s: Snapshot, roomId: string, reader: Reader, limits: seq<nat>): Reader
    decreases |limits|
  {
    if limits == [] then reader else AfterPolls(s, roomId, Polled(s, roomId, reader, limits[0]), limits[1..])
  }

  /** Everything a first read says about a history. */
  predicate EndOf(history: seq<Message>, limit: nat, read: ReadSuccess) {
    var start := |history| - |read.room.messages|;
    && 0 <= start && read.room.messages == history[start..]
    && read.page.returned == |read.room.messages|
    && read.page.returned <= limit && (start == 0 || read.page.returned == limit)
    && (read.page.hasMoreBefore <==> start > 0) && !read.page.hasMoreAfter
    && read.page.nextAfterMessageId == if history == [] then None else Some(history[|history| - 1].id)
  }

  /**
   A first read without a cursor brings the last messages, as many as the limit lets it, and says whether it
   left some out. In an empty room it brings no cursor, so the next read is a first read again.
   */
  lemma FirstReadIsTheEnd(s: Snapshot, roomId: string, limit: nat)
    requires History(s, roomId).Some? && 1 <= limit <= 30
    ensures var read := RoomRead(s, Query(roomId, None, limit));
            && read.Ok? && EndOf(History(s, roomId).value, limit, read.value)
            && (read.value.room.messages == History(s, roomId).value <==> |History(s, roomId).value| <= limit)
  {
    hide Resolve, PageOf, FindRoom, StartOf;
    LastSlice(s.rooms[FindRoom(s.rooms, roomId).value], Query(roomId, None, limit));
  }

  /** A reader can follow from a first read of a room that has messages. */
  lemma FirstReadStartsFollowing(s: Snapshot, roomId: string, limit: nat)
    requires History(s, roomId).Some? && History(s, roomId).value != [] && 1 <= limit <= 30
    ensures var reader := Polled(s, roomId, START, limit);
            Following(s, roomId, |History(s, roomId).value| - |reader.received|, reader)
  {
    hide RoomRead, History;
    FirstReadIsTheEnd(s, roomId, limit);
    assert [] + RoomRead(s, Query(roomId, None, limit)).value.room.messages
        == RoomRead(s, Query(roomId, None, limit)).value.room.messages;
  }

  const START := Reader(None, [], true, false)

  /**
   A reader that starts in a room that is still empty gets no cursor. Its next read brings everything written
   since then exactly when that fits in one page; otherwise it misses all but the last page.
   */
  lemma EmptyStartMissesExactly(s: Snapshot, t: Snapshot, roomId: string, first: nat, second: nat)
    requires History(s, roomId) == Some([]) && History(t, roomId).Some?
    requires 1 <= first <= 30 && 1 <= second <= 30
    ensures var early := Polled(s, roomId, START, first);
            var late, history := Polled(t, roomId, early, second), History(t, roomId).value;
            && early == Reader(None, [], false, false) && !late.failed
            && (late.received == history <==> |history| <= second)
            && (|history| > second ==> late.received == history[|history| - second..])
  {
    hide History, Polled;
    FirstPoll(s, roomId, START, first);
    FirstPoll(t, roomId, Polled(s, roomId, START, first), second);
  }

  lemma FirstPoll(s: Snapshot, roomId: string, reader: Reader, limit: nat)
    requires History(s, roomId).Some? && 1 <= limit <= 30
    requires reader.cursor.None? && reader.received == [] && !reader.failed
    ensures var next, history := Polled(s, roomId, reader, limit), History(s, roomId).value;
            && !next.failed && !next.hasMore && (history == [] ==> next.cursor.None?)
            && next.received == if |history| <= limit then history else history[|history| - limit..]
  {
    hide RoomRead, History;
    FirstReadIsTheEnd(s, roomId, limit);
    var read := RoomRead(s, Query(roomId, None, limit)).value;
    assert [] + read.room.messages == read.room.messages;
  }

  lemma AppendedLast(s: Snapshot, m: Message)
    requires ValidSnapshot(s) && MessageAppended(s, m).1 == Ok(WriteSuccess(Appended, m))
    ensures var t := MessageAppended(s, m).0;
            History(s, m.roomId).Some? && History(t, m.roomId) == Some(History(s, m.roomId).value + [m])
  {
    hide ValidHeader, DistinctParticipants, ValidParticipant, UniqueMessages, ValidRoom, FindAnywhere, ParticipantIds,
         SamePayload;
    var r := FindRoom(s.rooms, m.roomId).value;
    var rooms := MessageAppended(s, m).0.rooms;
    assert rooms[r].id == m.roomId && DistinctRooms(rooms);
    FindRoomAt(rooms, r);
  }

  /** Two new messages of one room, appended in turn. */
  predicate AppendsBoth(s: Snapshot, a: Message, b: Message) {
    && MessageDraft(a) && MessageDraft(b) && a.roomId == b.roomId
    && MessageAppended(s, a).1 == Ok(WriteSuccess(Appended, a))
    && MessageAppended(MessageAppended(s, a).0, b).1 == Ok(WriteSuccess(Appended, b))
  }

  /** The run that shows it: an empty page, two messages, and a second page of one; the first message is missed. */
  lemma EmptyStartSkips(s: Snapshot, a: Message, b: Message)
    requires ValidSnapshot(s) && AppendsBoth(s, a, b) && History(s, a.roomId) == Some([])
    ensures var steps := [Poll(1), Write(AppendMessage(a)), Write(AppendMessage(b)), Poll(1)];
            var (t, reader) := Follow(s, a.roomId, START, steps);
            && Allowed(s, a.roomId, START, steps) && !reader.failed
            && History(t, a.roomId) == Some([a, b]) && reader.received == [b]
  {
    hide ValidSnapshot, MessageDraft, MessageAppended, Polled, History, Follow, Allowed;
    var roomId := a.roomId;
    var t1 := MessageAppended(s, a).0;
    var t2 := MessageAppended(t1, b).0;
    AppendKeepsValid(s, a);
    AppendedLast(s, a);
    AppendedLast(t1, b);
    assert [] + [a] == [a] && [a] + [b] == [a, b] && [a, b][1..] == [b];
    EmptyStartMissesExactly(s, t2, roomId, 1, 1);
    var one := [Poll(1)];
    var two := [Poll(1), Write(AppendMessage(a))];
    var three := [Poll(1), Write(AppendMessage(a)), Write(AppendMessage(b))];
    assert [] + one == one && one + [Write(AppendMessage(a))] == two && two + [Write(AppendMessage(b))] == three;
    assert three + [Poll(1)] == [Poll(1), Write(AppendMessage(a)), Write(AppendMessage(b)), Poll(1)];
    FollowNothing(s, roomId, START);
    FollowOneMore(s, roomId, START, [], Poll(1));
    FollowOneMore(s, roomId, START, one, Write(AppendMessage(a)));
    FollowOneMore(s, roomId, START, two, Write(AppendMessage(b)));
    FollowOneMore(s, roomId, START, three, Poll(1));
  }

  lemma FollowNothing(s: Snapshot, roomId: string, reader: Reader)
    ensures Follow(s, roomId, reader, []) == (s, reader) && Allowed(s, roomId, reader, [])
  {}

  lemma FollowOneMore(s: Snapshot, roomId: string, reader: Reader, steps: seq<Step>, step: Step)
    ensures var (t, r) := Follow(s, roomId, reader, steps);
            && Follow(s, roomId, reader, steps + [step]) == Taken(t, roomId, r, step)
            && (Allowed(s, roomId, reader, steps) && StepAllowed(t, roomId, step)
                ==> Allowed(s, roomId, reader, steps + [step]))
  {
    hide Taken, StepAllowed;
    var all := steps + [step];
    assert all[..|all| - 1] == steps;
  }

  function SampleMessage(id: string): Message {
    Message(id, "r", "p", ["p"], "b", "t", [], None)
  }

  const SAMPLE_ROOM := Room("r", "R", ["p"], [])
  const SAMPLE := Snapshot(PROTOCOL_VERSION, "t", [Participant("p", "P", Human)], [SAMPLE_ROOM])

  lemma OneLetter(c: char)
    requires IsAsciiAlphanumeric(c)
    ensures ValidIdentifier([c]) && (forall maximum :: maximum >= 1 ==> ValidText([c], maximum)) && Trim([c]) != ""
  {
    EncodeAscii([c]);
    assert TrimStart([c]) == [c] && TrimEnd([c]) == [c];
  }

  /** Such a room and such messages exist. */
  lemma SkippingRunExists()
    ensures exists s, a, b :: ValidSnapshot(s) && AppendsBoth(s, a, b) && History(s, a.roomId) == Some([])
  {
    hide ValidSnapshot, AppendsBoth;
    SampleIsValid();
    SamplesAppend();
    assert ValidSnapshot(SAMPLE) && AppendsBoth(SAMPLE, SampleMessage("a"), SampleMessage("b"));
  }

  lemma SampleIsValid()
    ensures ValidSnapshot(SAMPLE) && History(SAMPLE, "r") == Some([])
  {
    hide ValidIdentifier, ByteLength;
    OneLetter('r');
    OneLetter('R');
    OneLetter('p');
    OneLetter('P');
    OneLetter('t');
    assert Participant("p", "P", Human) in SAMPLE.participants;
  }

  lemma SampleIsDraft(c: char)
    requires IsAsciiAlphanumeric(c)
    ensures MessageDraft(SampleMessage([c]))
  {
    hide ValidIdentifier, ByteLength, Trim;
    OneLetter(c);
    OneLetter('r');
    OneLetter('p');
    OneLetter('b');
    OneLetter('t');
  }

  lemma SamplesAppend()
    ensures AppendsBoth(SAMPLE, SampleMessage("a"), SampleMessage("b"))
  {
    hide MessageDraft;
    SampleIsDraft('a');
    SampleIsDraft('b');
    var a, b := SampleMessage("a"), SampleMessage("b");
    assert FindAnywhere(SAMPLE.rooms, "a") == None;
    assert SAMPLE_ROOM in SAMPLE.rooms && FindRoom(SAMPLE.rooms, "r") == Some(0);
    var t := MessageAppended(SAMPLE, a).0;
    var filled := SAMPLE_ROOM.(messages := [] + [a]);
    assert SAMPLE_ROOM.participantIds[0] == "p" && SAMPLE.rooms[0 := filled] == [filled];
    assert SAMPLE_ROOM.messages + [a] == [] + [a] == [a];
    assert t == WithRoom(SAMPLE, 0, filled, "t") && t.rooms == [filled];
    assert FindAnywhere(t.rooms, "b") == None;
  }

  lemma LastSlice(room: Room, q: Query)
    requires q.afterMessageId.None? && q.limit >= 1
    ensures StartOf(room, q).Some?
    ensures var start := StartOf(room, q).value;
            var (page, messages) := PageOf(room, q, start);
            && messages == room.messages[start..] && page.returned == |messages|
            && |messages| == |room.messages| - start
            && |messages| <= q.limit && (|messages| == |room.messages| || |messages| == q.limit)
            && (page.hasMoreBefore <==> start > 0) && !page.hasMoreAfter
            && (room.messages == [] ==> page.nextAfterMessageId == None)
            && (room.messages != [] ==> page.nextAfterMessageId == Some(room.messages[|room.messages| - 1].id))
  {}

  /** A read of a valid snapshot names every participant of the room, in order. */
  lemma ReadNamesEveryone(s: Snapshot, q: Query)
    requires ValidSnapshot(s) && RoomRead(s, q).Ok?
    ensures var view, room := RoomRead(s, q).value.room, s.rooms[FindRoom(s.rooms, q.roomId).value];
            && |view.participants| == |room.participantIds|
            && forall i :: 0 <= i < |room.participantIds| ==>
                 view.participants[i].id == room.participantIds[i] && view.participants[i] in s.participants
  {
    hide ValidHeader, DistinctParticipants, ValidParticipant, UniqueMessages, ValidMessage, PageOf, ParticipantIds;
    var room := s.rooms[FindRoom(s.rooms, q.roomId).value];
    assert ValidRoom(room, ParticipantIds(s.participants));
    ResolvesEveryone(s.participants, room.participantIds);
  }
}
