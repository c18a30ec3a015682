/**
 What every room call answers and changes, for all snapshots and arguments: exactly when each answer is given,
 every field of the room it concerns afterwards, and nothing else touched.
 */
module RoomAnswers {
  import opened Outcomes
  import opened Strings
  import opened RoomSnapshots
  import opened RoomStore
  import opened RoomRuns

  // ---- Rooms and summaries, described ----

  /** The first room with this id is at `r`. */
  predicate RoomAt(s: Snapshot, id: string, r: nat) {
    r < |s.rooms| && s.rooms[r].id == id && forall j :: 0 <= j < r ==> s.rooms[j].id != id
  }

  predicate HasRoom(s: Snapshot, id: string) {
    exists r: nat :: r < |s.rooms| && RoomAt(s, id, r)
  }

  lemma FindRoomExactly(s: Snapshot, id: string)
    ensures forall r: nat :: FindRoom(s.rooms, id) == Some(r) <==> RoomAt(s, id, r)
    ensures FindRoom(s.rooms, id).Some? <==> HasRoom(s, id)
  {
    var found := FindRoom(s.rooms, id);
    forall r: nat | RoomAt(s, id, r) ensures found == Some(r) {
      assert s.rooms[r] in s.rooms;
    }
    if found.Some? { assert RoomAt(s, id, found.value); }
  }

  /** A summary tells a room's id, name and participants, and when its last message was written. */
  predicate Describes(summary: Summary, room: Room) {
    && summary.id == room.id && summary.name == room.name && summary.participantIds == room.participantIds
    && (if |room.messages| == 0 then summary.latestMessageAt.None?
        else summary.latestMessageAt == Some(room.messages[|room.messages| - 1].createdAt))
  }

  /** Room `r` is replaced and the time set; every other room and everything else is as before. */
  predicate OnlyRoomChanged(s: Snapshot, t: Snapshot, r: nat, room: Room, at: string) {
    && t.schemaVersion == s.schemaVersion && t.participants == s.participants && t.generatedAt == at
    && |t.rooms| == |s.rooms| && r < |s.rooms| && t.rooms[r] == room
    && forall i :: 0 <= i < |s.rooms| && i != r ==> t.rooms[i] == s.rooms[i]
  }

  predicate IsKnown(s: Snapshot, participantId: string) {
    exists p <- s.participants :: p.id == participantId
  }

  predicate InHistory(room: Room, participantId: string) {
    exists m <- room.messages :: m.authorId == participantId || participantId in m.recipients
  }

  predicate GoodStamp(roomId: string, updatedAt: string) {
    ValidIdentifier(roomId) && updatedAt != "" && ByteLength(updatedAt) <= 64
  }

  // ---- Appending ----

  /** Some message of some room has this id. */
  predicate HasMessage(s: Snapshot, id: string) {
    exists room <- s.rooms :: exists m <- room.messages :: m.id == id
  }

  lemma FindAnywhereFinds(s: Snapshot, id: string)
    ensures FindAnywhere(s.rooms, id).Some? <==> HasMessage(s, id)
    ensures FindAnywhere(s.rooms, id).Some? ==> FindAnywhere(s.rooms, id).value.id == id
  {
    FindsInRooms(s.rooms, id);
  }

  lemma {:induction false} FindsInRooms(rooms: seq<Room>, id: string)
    ensures FindAnywhere(rooms, id).Some? ==>
              FindAnywhere(rooms, id).value.id == id
              && exists room <- rooms :: FindAnywhere(rooms, id).value in room.messages
    ensures FindAnywhere(rooms, id).None? ==> forall room <- rooms, m <- room.messages :: m.id != id
  {
    if rooms != [] {
      FindsInRooms(rooms[1..], id);
      assert forall room :: room in rooms <==> room == rooms[0] || room in rooms[1..];
    }
  }

  /** Only people in the room write in it and are written to. */
  predicate MayWrite(room: Room, m: Message) {
    m.authorId in room.participantIds && forall recipient <- m.recipients :: recipient in room.participantIds
  }

  /** The same message sent again, at whatever time. */
  predicate IsRetry(existing: Message, m: Message) {
    && existing.id == m.id && existing.roomId == m.roomId && existing.authorId == m.authorId
    && existing.recipients == m.recipients && existing.body == m.body
    && existing.artifactIds == m.artifactIds && existing.provenance == m.provenance
  }

  /** A message that is known is either sent again, and comes back as it is stored, or in conflict. */
  lemma RetryAnswersExactly(s: Snapshot, m: Message)
    requires ValidSnapshot(s) && HasMessage(s, m.id)
    ensures forall room <- s.rooms, existing <- room.messages :: existing.id == m.id ==>
              MessageAppended(s, m)
              == (s, if IsRetry(existing, m) then Ok(WriteSuccess(WriteStatus.Duplicate, existing))
                     else Err(WriteError.IdempotencyConflict))
  {
    hide ValidHeader, ValidRoom, DistinctRooms, DistinctParticipants, FindAnywhere, HasMessage;
    FindAnywhereFinds(s, m.id);
    forall room, existing | room in s.rooms && existing in room.messages && existing.id == m.id
      ensures FindAnywhere(s.rooms, m.id) == Some(existing)
    {
      var r: nat :| r < |s.rooms| && s.rooms[r] == room;
      var k: nat :| k < |room.messages| && room.messages[k] == existing;
      FindAnywhereExactly(s.rooms, r, k);
    }
  }

  /**
   A message is appended exactly if its id is new everywhere, its room exists and is not full, and everybody it
   names is in it; it is then the last of that room, as it was sent. Each other answer, and exactly when.
   */
  lemma AppendAnswersExactly(s: Snapshot, m: Message)
    ensures var (t, w) := MessageAppended(s, m);
            var found := FindRoom(s.rooms, m.roomId);
            && (w != Ok(WriteSuccess(Appended, m)) ==> t == s)
            && (HasMessage(s, m.id) <==>
                  w == Err(WriteError.IdempotencyConflict) || (w.Ok? && w.value.status.Duplicate?))
            && (w == Err(WriteError.RoomNotFound) <==> !HasMessage(s, m.id) && !HasRoom(s, m.roomId))
            && (HasMessage(s, m.id) || !HasRoom(s, m.roomId) ||
                  var room := s.rooms[found.value];
                  && (w == Err(RoomCapacityReached) <==> |room.messages| >= 10_000)
                  && (w == Err(AuthorNotParticipant) <==>
                        |room.messages| < 10_000 && m.authorId !in room.participantIds)
                  && (w == Err(RecipientNotParticipant) <==>
                        |room.messages| < 10_000 && m.authorId in room.participantIds && !MayWrite(room, m))
                  && (w.Ok? <==> |room.messages| < 10_000 && MayWrite(room, m))
                  && (w.Ok? ==>
                        && w == Ok(WriteSuccess(Appended, m))
                        && OnlyRoomChanged(s, t, found.value,
                             Room(room.id, room.name, room.participantIds, room.messages + [m]), m.createdAt)))
  {
    hide FindAnywhere, FindRoom, HasMessage;
    FindAnywhereFinds(s, m.id);
    FindRoomExactly(s, m.roomId);
  }

  // ---- Creating ----

  lemma CreateAnswersExactly(s: Snapshot, draft: Room, createdAt: string)
    ensures var (t, w) := RoomCreated(s, draft, createdAt);
            var found := FindRoom(s.rooms, draft.id);
            var unknown := exists id <- draft.participantIds :: !IsKnown(s, id);
            && (!(w.Ok? && w.value.status.Created?) ==> t == s)
            && (found.Some? ==>
                  var room := s.rooms[found.value];
                  if room.name == draft.name && room.participantIds == draft.participantIds
                  then w.Ok? && w.value.status.Duplicate? && Describes(w.value.room, room)
                  else w == Err(MutationError.IdempotencyConflict))
            && (found.None? ==>
                  && (w == Err(CapacityReached) <==> |s.rooms| >= 1_000)
                  && (w == Err(ParticipantNotFound) <==> |s.rooms| < 1_000 && unknown)
                  && (w.Ok? <==> |s.rooms| < 1_000 && !unknown)
                  && (w.Ok? ==>
                        && w.value.status.Created? && Describes(w.value.room, draft)
                        && t.schemaVersion == s.schemaVersion && t.participants == s.participants
                        && t.generatedAt == createdAt && t.rooms == s.rooms + [draft]))
  {
    hide FindRoom;
    assert forall id :: Known(s, id) <==> IsKnown(s, id);
  }

  // ---- Adding and removing ----

  /**
   A known participant is added to the end of the list of an existing room that has fewer than a hundred; the room
   keeps its name and history. Each other answer, and exactly when.
   */
  lemma AddAnswersExactly(s: Snapshot, roomId: string, participantId: string, updatedAt: string)
    ensures var (t, w) := ParticipantAdded(s, roomId, participantId, updatedAt);
            var found := FindRoom(s.rooms, roomId);
            var fine := GoodStamp(roomId, updatedAt) && ValidIdentifier(participantId);
            && (!(w.Ok? && w.value.status.Added?) ==> t == s)
            && (w == Err(InvalidMutation) <==> !fine)
            && (w == Err(ParticipantNotFound) <==> fine && !IsKnown(s, participantId))
            && (w == Err(MutationError.RoomNotFound) <==> fine && IsKnown(s, participantId) && !HasRoom(s, roomId))
            && (fine && IsKnown(s, participantId) && HasRoom(s, roomId) ==>
                  var room := s.rooms[found.value];
                  var there, full := participantId in room.participantIds, |room.participantIds| >= 100;
                  && (w.Ok? && w.value.status.Duplicate? <==> there)
                  && (w == Err(CapacityReached) <==> !there && full)
                  && (w.Ok? && w.value.status.Added? <==> !there && !full)
                  && (there ==> Describes(w.value.room, room))
                  && (!there && !full ==>
                        var larger := Room(room.id, room.name, room.participantIds + [participantId], room.messages);
                        OnlyRoomChanged(s, t, found.value, larger, updatedAt) && Describes(w.value.room, larger)))
  {
    hide FindRoom, ValidIdentifier, ByteLength;
    FindRoomExactly(s, roomId);
    assert Known(s, participantId) <==> IsKnown(s, participantId);
  }

  /** The list without one of its entries: the others, in their order. */
  predicate LeavesOut(before: seq<string>, after: seq<string>, id: string) {
    exists i: nat :: i < |before| && before[i] == id && id !in before[..i] && after == before[..i] + before[i + 1..]
  }

  /**
   A participant leaves a room that has more than two and whose history never mentions them; the others stay in
   order. Each other answer, and exactly when.
   */
  lemma RemoveAnswersExactly(s: Snapshot, roomId: string, participantId: string, updatedAt: string)
    ensures var (t, w) := ParticipantRemoved(s, roomId, participantId, updatedAt);
            var found := FindRoom(s.rooms, roomId);
            var fine := GoodStamp(roomId, updatedAt) && ValidIdentifier(participantId);
            && (!(w.Ok? && w.value.status.Removed?) ==> t == s)
            && (w == Err(InvalidMutation) <==> !fine)
            && (w == Err(ParticipantNotFound) <==> fine && !IsKnown(s, participantId))
            && (w == Err(MutationError.RoomNotFound) <==> fine && IsKnown(s, participantId) && !HasRoom(s, roomId))
            && (fine && IsKnown(s, participantId) && HasRoom(s, roomId) ==>
                  var room := s.rooms[found.value];
                  var there, few := participantId in room.participantIds, |room.participantIds| <= 2;
                  && (w.Ok? && w.value.status.Duplicate? <==> !there)
                  && (w == Err(RequiredParticipant) <==> there && few)
                  && (w == Err(ParticipantInUse) <==> there && !few && InHistory(room, participantId))
                  && (w.Ok? && w.value.status.Removed? <==> there && !few && !InHistory(room, participantId))
                  && (!there ==> Describes(w.value.room, room))
                  && (w.Ok? && there ==> RemovedFrom(s, t, found.value, participantId, updatedAt, w.value.room)))
  {
    hide FindRoom, ValidIdentifier, ByteLength, RemovedFrom;
    FindRoomExactly(s, roomId);
    assert Known(s, participantId) <==> IsKnown(s, participantId);
    var found := FindRoom(s.rooms, roomId);
    if found.Some? {
      var room := s.rooms[found.value];
      assert (exists m <- room.messages :: Mentions(m, participantId)) <==> InHistory(room, participantId);
      if participantId in room.participantIds {
        RemovalIs(s, found.value, participantId, updatedAt);
      }
    }
  }

  ghost predicate RemovedFrom(s: Snapshot, t: Snapshot, r: nat, participantId: string, at: string, summary: Summary)
    requires r < |s.rooms|
  {
    var room := s.rooms[r];
    exists fewer :: LeavesOut(room.participantIds, fewer, participantId)
                    && OnlyRoomChanged(s, t, r, Room(room.id, room.name, fewer, room.messages), at)
                    && Describes(summary, Room(room.id, room.name, fewer, room.messages))
  }

  lemma RemovalIs(s: Snapshot, r: nat, participantId: string, at: string)
    requires r < |s.rooms| && participantId in s.rooms[r].participantIds
    ensures var room := s.rooms[r];
            var smaller := room.(participantIds :=
              Without(room.participantIds, PositionOf(room.participantIds, participantId)));
            RemovedFrom(s, WithRoom(s, r, smaller, at), r, participantId, at, SummaryOf(smaller))
  {
    var room := s.rooms[r];
    var i := PositionOf(room.participantIds, participantId);
    var fewer := Without(room.participantIds, i);
    assert LeavesOut(room.participantIds, fewer, participantId);
    assert room.(participantIds := fewer) == Room(room.id, room.name, fewer, room.messages);
  }

  // ---- Renaming and deleting ----

  lemma RenameAnswersExactly(s: Snapshot, roomId: string, name: string, updatedAt: string)
    ensures var (t, w) := RoomRenamed(s, roomId, name, updatedAt);
            var found := FindRoom(s.rooms, roomId);
            var fine := GoodStamp(roomId, updatedAt) && name != "" && ByteLength(name) <= 200;
            && (!(w.Ok? && w.value.status.Renamed?) ==> t == s)
            && (w == Err(InvalidMutation) <==> !fine)
            && (w == Err(MutationError.RoomNotFound) <==> fine && !HasRoom(s, roomId))
            && (w.Ok? <==> fine && HasRoom(s, roomId))
            && (w.Ok? ==>
                  var room := s.rooms[found.value];
                  if room.name == name then w.value.status.Duplicate? && Describes(w.value.room, room)
                  else
                    var renamed := Room(room.id, name, room.participantIds, room.messages);
                    && w.value.status.Renamed? && Describes(w.value.room, renamed)
                    && OnlyRoomChanged(s, t, found.value, renamed, updatedAt))
  {
    hide FindRoom, ValidIdentifier, ByteLength;
    FindRoomExactly(s, roomId);
  }

  /** One room goes, unless it is the only one; the others stay in order. */
  lemma DeleteAnswersExactly(s: Snapshot, roomId: string, updatedAt: string)
    ensures var (t, w) := RoomDeleted(s, roomId, updatedAt);
            var found := FindRoom(s.rooms, roomId);
            var fine := GoodStamp(roomId, updatedAt);
            && (w.Err? ==> t == s)
            && (w == Err(InvalidMutation) <==> !fine)
            && (w == Err(RequiredRoom) <==> fine && |s.rooms| <= 1)
            && (w == Err(MutationError.RoomNotFound) <==> fine && |s.rooms| > 1 && !HasRoom(s, roomId))
            && (w.Ok? <==> fine && |s.rooms| > 1 && HasRoom(s, roomId))
            && (w.Ok? ==>
                  && w.value.status.Deleted? && Describes(w.value.room, s.rooms[found.value])
                  && t.schemaVersion == s.schemaVersion && t.participants == s.participants
                  && t.generatedAt == updatedAt
                  && t.rooms == s.rooms[..found.value] + s.rooms[found.value + 1..])
  {
    hide FindRoom, ValidIdentifier, ByteLength;
    FindRoomExactly(s, roomId);
  }

  // ---- Reading ----

  /** The first message with this id is at `k`. */
  predicate MessageAt(room: Room, id: string, k: nat) {
    && k < |room.messages| && room.messages[k].id == id
    && forall j :: 0 <= j < k ==> room.messages[j].id != id
  }

  /** A page: where it starts, what it holds, and what it says about the rest. */
  predicate PageFrom(read: ReadSuccess, s: Snapshot, room: Room, q: Query, start: nat) {
    var count := if |room.messages| - start <= q.limit then |room.messages| - start else q.limit;
    && start <= |room.messages|
    && read.snapshotGeneratedAt == s.generatedAt && read.room.id == room.id && read.room.name == room.name
    && read.room.messages == room.messages[start..start + count]
    && read.page.afterMessageId == q.afterMessageId && read.page.limit == q.limit && read.page.returned == count
    && (read.page.hasMoreBefore <==> q.afterMessageId.None? && start > 0)
    && (read.page.hasMoreAfter <==> start + count < |room.messages|)
    && read.page.nextAfterMessageId
       == if count == 0 then q.afterMessageId else Some(room.messages[start + count - 1].id)
  }

  /** A read fails exactly without its room or its cursor, and otherwise gives the page behind the cursor. */
  lemma ReadAnswersExactly(s: Snapshot, q: Query)
    requires q.limit >= 1
    ensures var read := RoomRead(s, q);
            var found := FindRoom(s.rooms, q.roomId);
            && (read == Err(ReadFailure.RoomNotFound) <==> !HasRoom(s, q.roomId))
            && (HasRoom(s, q.roomId) ==>
                  var room := s.rooms[found.value];
                  match q.afterMessageId
                  case None =>
                    var start := if |room.messages| <= q.limit then 0 else |room.messages| - q.limit;
                    read.Ok? && PageFrom(read.value, s, room, q, start)
                  case Some(cursor) =>
                    && (read == Err(CursorNotFound) <==> forall m <- room.messages :: m.id != cursor)
                    && forall k: nat :: MessageAt(room, cursor, k) ==>
                         read.Ok? && PageFrom(read.value, s, room, q, k + 1))
  {
    hide FindRoom, Resolve, PageOf, PageFrom;
    FindRoomExactly(s, q.roomId);
    var found := FindRoom(s.rooms, q.roomId);
    if found.Some? {
      var room := s.rooms[found.value];
      if StartOf(room, q).Some? {
        PageIs(s, room, q, StartOf(room, q).value);
      }
      if q.afterMessageId.Some? {
        FindMessageExactly(room, q.afterMessageId.value);
      }
    }
  }

  lemma PageIs(s: Snapshot, room: Room, q: Query, start: nat)
    requires start <= |room.messages|
    ensures var (page, messages) := PageOf(room, q, start);
            var view := RoomView(room.id, room.name, Resolve(s.participants, room.participantIds), messages);
            PageFrom(ReadSuccess(s.generatedAt, view, page), s, room, q, start)
  {
    hide Resolve;
  }

  lemma FindMessageExactly(room: Room, id: string)
    ensures forall k: nat :: FindMessage(room.messages, id) == Some(k) <==> MessageAt(room, id, k)
    ensures FindMessage(room.messages, id).None? <==> forall m <- room.messages :: m.id != id
  {
    forall k: nat | MessageAt(room, id, k) ensures FindMessage(room.messages, id) == Some(k) {
      assert room.messages[k] in room.messages;
    }
  }

  lemma FindAnswersExactly(s: Snapshot, roomId: string, messageId: string)
    ensures var r := MessageFound(s, roomId, messageId);
            var found := FindRoom(s.rooms, roomId);
            var fine := ValidIdentifier(roomId) && ValidIdentifier(messageId);
            && (r == Err(InvalidLookup) <==> !fine)
            && (r == Err(FindError.RoomNotFound) <==> fine && !HasRoom(s, roomId))
            && (fine && HasRoom(s, roomId) ==>
                  var room := s.rooms[found.value];
                  && (r == Err(MessageNotFound) <==> forall m <- room.messages :: m.id != messageId)
                  && forall k: nat :: MessageAt(room, messageId, k) ==> r == Ok(room.messages[k]))
  {
    hide FindRoom, ValidIdentifier, FindMessage;
    FindRoomExactly(s, roomId);
    var found := FindRoom(s.rooms, roomId);
    if found.Some? { FindMessageExactly(s.rooms[found.value], messageId); }
  }
}
