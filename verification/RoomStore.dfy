/** The store behind a room source: six mutations, each of which keeps the snapshot valid. */
module RoomStore {
  import opened Outcomes
  import opened Collections
  import opened Strings
  import opened RoomSnapshots

  datatype WriteStatus = Appended | Duplicate

  datatype WriteSuccess = WriteSuccess(status: WriteStatus, message: Message)

  datatype WriteError =
    | RoomNotFound
    | AuthorNotParticipant
    | RecipientNotParticipant
    | IdempotencyConflict
    | RoomCapacityReached

  datatype MutationStatus = Created | Added | Renamed | Removed | Deleted | Duplicate

  datatype Summary = Summary(id: string, name: string, participantIds: seq<string>, latestMessageAt: Option<string>)

  datatype MutationSuccess = MutationSuccess(status: MutationStatus, room: Summary)

  datatype MutationError =
    | InvalidMutation
    | RoomNotFound
    | ParticipantNotFound
    | ParticipantInUse
    | RequiredParticipant
    | RequiredRoom
    | IdempotencyConflict
    | CapacityReached

  type Write = Result<WriteSuccess, WriteError>
  type Mutation = Result<MutationSuccess, MutationError>

  // ---- Drafts ----

  /** What `RoomMessageDraft::try_new` lets through. */
  predicate MessageDraft(m: Message) {
    ValidMessageShape(m, MAXIMUM_ROOM_WRITE_BODY_BYTES) && Trim(m.body) != "" && m.recipients != []
  }

  /** What `RoomCreateDraft::try_new` lets through. */
  predicate RoomDraft(room: Room, createdAt: string) {
    && ValidIdentifier(room.id) && ValidText(room.name, MAXIMUM_DISPLAY_NAME_BYTES)
    && room.participantIds != [] && |room.participantIds| <= MAXIMUM_ROOM_PARTICIPANTS
    && DistinctIdentifiers(room.participantIds) && ValidText(createdAt, MAXIMUM_TIMESTAMP_BYTES)
    && room.messages == []
  }

  predicate ValidStamp(roomId: string, updatedAt: string) {
    ValidIdentifier(roomId) && ValidText(updatedAt, MAXIMUM_TIMESTAMP_BYTES)
  }

  // ---- Looking things up ----

  function FindRoom(rooms: seq<Room>, id: string): (r: Option<nat>)
    ensures r.Some? ==> r.value < |rooms| && rooms[r.value].id == id
    ensures r.Some? ==> forall j :: 0 <= j < r.value ==> rooms[j].id != id
    ensures r.None? ==> forall room <- rooms :: room.id != id
  {
    Position(rooms, (room: Room) => room.id == id)
  }

  function FindMessage(messages: seq<Message>, id: string): (r: Option<nat>)
    ensures r.Some? ==> r.value < |messages| && messages[r.value].id == id
    ensures r.Some? ==> forall j :: 0 <= j < r.value ==> messages[j].id != id
    ensures r.None? ==> forall m <- messages :: m.id != id
  {
    Position(messages, (m: Message) => m.id == id)
  }

  /** The first message with this id in any room. */
  function FindAnywhere(rooms: seq<Room>, id: string): (r: Option<Message>)
    ensures r.None? ==> forall room <- rooms, m <- room.messages :: m.id != id
  {
    if rooms == [] then None
    else match FindMessage(rooms[0].messages, id)
      case Some(i) => Some(rooms[0].messages[i])
      case None => FindAnywhere(rooms[1..], id)
  }

  /** `same_idempotent_payload`: everything but the time. */
  predicate SamePayload(existing: Message, retried: Message) {
    existing == retried.(createdAt := existing.createdAt)
  }

  function SummaryOf(room: Room): Summary {
    Summary(room.id, room.name, room.participantIds,
            if room.messages == [] then None else Some(room.messages[|room.messages| - 1].createdAt))
  }

  predicate Known(s: Snapshot, participantId: string) {
    exists p <- s.participants :: p.id == participantId
  }

  predicate Unknown(s: Snapshot, ids: seq<string>) {
    exists id <- ids :: !Known(s, id)
  }

  predicate Mentions(m: Message, participantId: string) {
    m.authorId == participantId || participantId in m.recipients
  }

  // ---- What each mutation does ----

  function WithRoom(s: Snapshot, r: nat, room: Room, at: string): Snapshot
    requires r < |s.rooms|
  {
    s.(rooms := s.rooms[r := room], generatedAt := at)
  }

  function MessageAppended(s: Snapshot, m: Message): (Snapshot, Write) {
    match FindAnywhere(s.rooms, m.id)
    case Some(existing) =>
      (s, if SamePayload(existing, m) then Ok(WriteSuccess(WriteStatus.Duplicate, existing))
          else Err(WriteError.IdempotencyConflict))
    case None =>
      match FindRoom(s.rooms, m.roomId)
      case None => (s, Err(WriteError.RoomNotFound))
      case Some(r) =>
        var room := s.rooms[r];
        if |room.messages| >= MAXIMUM_ROOM_MESSAGES then (s, Err(RoomCapacityReached))
        else if m.authorId !in room.participantIds then (s, Err(AuthorNotParticipant))
        else if exists recipient <- m.recipients :: recipient !in room.participantIds
          then (s, Err(RecipientNotParticipant))
        else (WithRoom(s, r, room.(messages := room.messages + [m]), m.createdAt), Ok(WriteSuccess(Appended, m)))
  }

  function RoomCreated(s: Snapshot, draft: Room, createdAt: string): (Snapshot, Mutation) {
    match FindRoom(s.rooms, draft.id)
    case Some(r) =>
      var room := s.rooms[r];
      (s, if room.name == draft.name && room.participantIds == draft.participantIds
          then Ok(MutationSuccess(MutationStatus.Duplicate, SummaryOf(room)))
          else Err(MutationError.IdempotencyConflict))
    case None =>
      if |s.rooms| >= MAXIMUM_ROOMS then (s, Err(CapacityReached))
      else if Unknown(s, draft.participantIds) then (s, Err(ParticipantNotFound))
      else (s.(rooms := s.rooms + [draft], generatedAt := createdAt), Ok(MutationSuccess(Created, SummaryOf(draft))))
  }

  function ParticipantAdded(s: Snapshot, roomId: string, participantId: string, updatedAt: string)
    : (Snapshot, Mutation)
  {
    if !ValidStamp(roomId, updatedAt) || !ValidIdentifier(participantId) then (s, Err(InvalidMutation))
    else if !Known(s, participantId) then (s, Err(ParticipantNotFound))
    else
      match FindRoom(s.rooms, roomId)
      case None => (s, Err(MutationError.RoomNotFound))
      case Some(r) =>
        var room := s.rooms[r];
        if participantId in room.participantIds then (s, Ok(MutationSuccess(MutationStatus.Duplicate, SummaryOf(room))))
        else if |room.participantIds| >= MAXIMUM_ROOM_PARTICIPANTS then (s, Err(CapacityReached))
        else
          var larger := room.(participantIds := room.participantIds + [participantId]);
          (WithRoom(s, r, larger, updatedAt), Ok(MutationSuccess(Added, SummaryOf(larger))))
  }

  function RoomRenamed(s: Snapshot, roomId: string, name: string, updatedAt: string): (Snapshot, Mutation) {
    if !ValidStamp(roomId, updatedAt) || !ValidText(name, MAXIMUM_DISPLAY_NAME_BYTES) then (s, Err(InvalidMutation))
    else
      match FindRoom(s.rooms, roomId)
      case None => (s, Err(MutationError.RoomNotFound))
      case Some(r) =>
        var room := s.rooms[r];
        if room.name == name then (s, Ok(MutationSuccess(MutationStatus.Duplicate, SummaryOf(room))))
        else
          var renamed := room.(name := name);
          (WithRoom(s, r, renamed, updatedAt), Ok(MutationSuccess(Renamed, SummaryOf(renamed))))
  }

  function PositionOf(ids: seq<string>, id: string): (i: nat)
    requires id in ids
    ensures i < |ids| && ids[i] == id && id !in ids[..i]
  {
    if ids[0] == id then 0 else 1 + PositionOf(ids[1..], id)
  }

  /** `Vec::remove`. */
  function Without<T>(values: seq<T>, i: nat): seq<T>
    requires i < |values|
  {
    values[..i] + values[i + 1..]
  }

  function ParticipantRemoved(s: Snapshot, roomId: string, participantId: string, updatedAt: string)
    : (Snapshot, Mutation)
  {
    if !ValidStamp(roomId, updatedAt) || !ValidIdentifier(participantId) then (s, Err(InvalidMutation))
    else if !Known(s, participantId) then (s, Err(ParticipantNotFound))
    else
      match FindRoom(s.rooms, roomId)
      case None => (s, Err(MutationError.RoomNotFound))
      case Some(r) =>
        var room := s.rooms[r];
        if participantId !in room.participantIds
          then (s, Ok(MutationSuccess(MutationStatus.Duplicate, SummaryOf(room))))
        else if |room.participantIds| <= 2 then (s, Err(RequiredParticipant))
        else if exists m <- room.messages :: Mentions(m, participantId) then (s, Err(ParticipantInUse))
        else
          var smaller := room.(participantIds :=
            Without(room.participantIds, PositionOf(room.participantIds, participantId)));
          (WithRoom(s, r, smaller, updatedAt), Ok(MutationSuccess(Removed, SummaryOf(smaller))))
  }

  function RoomDeleted(s: Snapshot, roomId: string, updatedAt: string): (Snapshot, Mutation) {
    if !ValidStamp(roomId, updatedAt) then (s, Err(InvalidMutation))
    else if |s.rooms| <= 1 then (s, Err(RequiredRoom))
    else
      match FindRoom(s.rooms, roomId)
      case None => (s, Err(MutationError.RoomNotFound))
      case Some(r) =>
        (s.(rooms := Without(s.rooms, r), generatedAt := updatedAt),
         Ok(MutationSuccess(Deleted, SummaryOf(s.rooms[r]))))
  }

  // ---- Every mutation keeps the snapshot valid ----

  lemma KnownExactly(s: Snapshot, id: string)
    ensures Known(s, id) <==> id in ParticipantIds(s.participants)
  {}

  /** Changing one room in place: all room ids stay, and the room's history may grow by a new message. */
  lemma RoomChanged(rooms: seq<Room>, r: nat, room: Room, known: set<string>)
    requires ValidRooms(rooms, known) && r < |rooms|
    requires ValidRoom(room, known) && room.id == rooms[r].id
    requires || room.messages == rooms[r].messages
             || (exists m :: room.messages == rooms[r].messages + [m] && m.id !in AllMessageIds(rooms))
    ensures ValidRooms(rooms[r := room], known)
  {
    hide ValidRoom;
    UniqueWhenChanged(rooms, r, room);
  }

  lemma UniqueWhenChanged(rooms: seq<Room>, r: nat, room: Room)
    requires UniqueMessages(rooms) && r < |rooms|
    requires || room.messages == rooms[r].messages
             || (exists m :: room.messages == rooms[r].messages + [m] && m.id !in AllMessageIds(rooms))
    ensures UniqueMessages(rooms[r := room])
  {
    hide AllMessageIds;
    var now := rooms[r := room];
    var n := |rooms[r].messages|;
    forall a: nat, k: nat, a': nat, k': nat, id | IsAt(now, a, k, id) && IsAt(now, a', k', id)
      ensures a == a' && k == k'
    {
      AllMessageIdsExactly(rooms, id);
      if a == r && k == n {
        assert a' != r || k' != n ==> IsAt(rooms, a', k', id);
      } else {
        assert IsAt(rooms, a, k, id);
        assert a' != r || k' != n ==> IsAt(rooms, a', k', id);
      }
    }
  }

  lemma AppendKeepsValid(s: Snapshot, m: Message)
    requires ValidSnapshot(s) && MessageDraft(m)
    ensures ValidSnapshot(MessageAppended(s, m).0)
  {
    hide ValidIdentifier, DistinctIdentifiers, Trim, ByteLength, Distinct, UniqueMessages, FindRoom;
    var (t, w) := MessageAppended(s, m);
    if w.Ok? && w.value.status.Appended? {
      var r := FindRoom(s.rooms, m.roomId).value;
      var room := s.rooms[r];
      NotFoundAnywhere(s.rooms, m.id);
      LongerRoomIsValid(room, m, ParticipantIds(s.participants));
      RoomChanged(s.rooms, r, room.(messages := room.messages + [m]), ParticipantIds(s.participants));
    }
  }

  lemma NotFoundAnywhere(rooms: seq<Room>, id: string)
    requires FindAnywhere(rooms, id).None?
    ensures id !in AllMessageIds(rooms)
  {}

  lemma LongerRoomIsValid(room: Room, m: Message, known: set<string>)
    requires ValidRoom(room, known) && MessageDraft(m) && m.roomId == room.id
    requires |room.messages| < MAXIMUM_ROOM_MESSAGES && m.authorId in room.participantIds
    requires forall recipient <- m.recipients :: recipient in room.participantIds
    ensures ValidRoom(room.(messages := room.messages + [m]), known)
  {
    hide ValidIdentifier, DistinctIdentifiers, Trim, ByteLength, Distinct;
    assert ValidMessage(m, room.id, room.participantIds);
  }

  lemma CreateKeepsValid(s: Snapshot, draft: Room, createdAt: string)
    requires ValidSnapshot(s) && RoomDraft(draft, createdAt)
    ensures ValidSnapshot(RoomCreated(s, draft, createdAt).0)
  {
    hide ValidIdentifier, Trim, ByteLength, Distinct, UniqueMessages, AllMessageIds, MessageIds;
    var (t, w) := RoomCreated(s, draft, createdAt);
    if w.Ok? && w.value.status.Created? {
      forall id | id in draft.participantIds ensures id in ParticipantIds(s.participants) {
        KnownExactly(s, id);
      }
      UniqueMessagesExtends(s.rooms, draft);
      EmptyHistory(draft, AllMessageIds(s.rooms));
      assert ValidRoom(draft, ParticipantIds(s.participants));
    }
  }

  lemma EmptyHistory(room: Room, seen: set<string>)
    requires room.messages == []
    ensures DistinctMessages(room.messages) && seen !! MessageIds(room.messages)
  {}

  lemma AddKeepsValid(s: Snapshot, roomId: string, participantId: string, updatedAt: string)
    requires ValidSnapshot(s)
    ensures ValidSnapshot(ParticipantAdded(s, roomId, participantId, updatedAt).0)
  {
    hide ValidIdentifier, ByteLength, ValidMessageShape, UniqueMessages, AllMessageIds;
    var (t, w) := ParticipantAdded(s, roomId, participantId, updatedAt);
    if w.Ok? && w.value.status.Added? {
      var r := FindRoom(s.rooms, roomId).value;
      var room := s.rooms[r];
      KnownExactly(s, participantId);
      assert ValidRoom(room, ParticipantIds(s.participants));
      RoomChanged(s.rooms, r, room.(participantIds := room.participantIds + [participantId]),
                  ParticipantIds(s.participants));
    }
  }

  lemma RenameKeepsValid(s: Snapshot, roomId: string, name: string, updatedAt: string)
    requires ValidSnapshot(s)
    ensures ValidSnapshot(RoomRenamed(s, roomId, name, updatedAt).0)
  {
    hide ValidIdentifier, ByteLength, ValidMessageShape, UniqueMessages, AllMessageIds;
    var (t, w) := RoomRenamed(s, roomId, name, updatedAt);
    if w.Ok? && w.value.status.Renamed? {
      var r := FindRoom(s.rooms, roomId).value;
      assert ValidRoom(s.rooms[r], ParticipantIds(s.participants));
      RoomChanged(s.rooms, r, s.rooms[r].(name := name), ParticipantIds(s.participants));
    }
  }

  /** Nobody the history mentions can be removed, so no author or recipient dangles. */
  lemma RemoveKeepsValid(s: Snapshot, roomId: string, participantId: string, updatedAt: string)
    requires ValidSnapshot(s)
    ensures ValidSnapshot(ParticipantRemoved(s, roomId, participantId, updatedAt).0)
  {
    hide ValidIdentifier, ByteLength, UniqueMessages, AllMessageIds, ValidMessageShape, Without, ValidRoom, Mentions;
    var (t, w) := ParticipantRemoved(s, roomId, participantId, updatedAt);
    if w.Ok? && w.value.status.Removed? {
      var r := FindRoom(s.rooms, roomId).value;
      var room := s.rooms[r];
      var smaller := room.(participantIds :=
        Without(room.participantIds, PositionOf(room.participantIds, participantId)));
      SmallerRoomIsValid(room, participantId, ParticipantIds(s.participants));
      RoomChanged(s.rooms, r, smaller, ParticipantIds(s.participants));
    }
  }

  lemma OthersStay(ids: seq<string>, i: nat)
    requires i < |ids| && Distinct(ids)
    ensures Distinct(Without(ids, i))
    ensures forall id :: id in Without(ids, i) <==> id in ids && id != ids[i]
  {
    var rest := Without(ids, i);
    forall id ensures id in rest <==> id in ids && id != ids[i] {
      if id in ids && id != ids[i] {
        var j: nat :| j < |ids| && ids[j] == id;
        assert j < i ==> rest[j] == id;
        assert j > i ==> rest[j - 1] == id;
      }
      if id in rest {
        var j: nat :| j < |rest| && rest[j] == id;
        assert rest[j] == ids[if j < i then j else j + 1];
      }
    }
  }

  lemma SmallerRoomIsValid(room: Room, participantId: string, known: set<string>)
    requires ValidRoom(room, known) && participantId in room.participantIds
    requires forall m <- room.messages :: !Mentions(m, participantId)
    ensures ValidRoom(room.(participantIds :=
                Without(room.participantIds, PositionOf(room.participantIds, participantId))), known)
  {
    hide ValidIdentifier, ByteLength, ValidText, ValidMessageShape, Distinct, Without;
    var i := PositionOf(room.participantIds, participantId);
    var fewer := Without(room.participantIds, i);
    OthersStay(room.participantIds, i);
    assert |fewer| == |room.participantIds| - 1 by { WithoutIsShorter(room.participantIds, i); }
    forall m | m in room.messages ensures ValidMessage(m, room.id, fewer) {
      assert !Mentions(m, participantId);
    }
  }

  lemma WithoutIsShorter<T>(values: seq<T>, i: nat)
    requires i < |values|
    ensures |Without(values, i)| == |values| - 1
  {}

  lemma DeleteKeepsValid(s: Snapshot, roomId: string, updatedAt: string)
    requires ValidSnapshot(s)
    ensures ValidSnapshot(RoomDeleted(s, roomId, updatedAt).0)
  {
    hide ValidIdentifier, ByteLength, UniqueMessages, ValidRoom;
    var (t, w) := RoomDeleted(s, roomId, updatedAt);
    if w.Ok? {
      UniqueWithout(s.rooms, FindRoom(s.rooms, roomId).value);
    }
  }

  lemma UniqueWithout(rooms: seq<Room>, i: nat)
    requires UniqueMessages(rooms) && i < |rooms|
    ensures UniqueMessages(Without(rooms, i))
  {
    var rest := Without(rooms, i);
    forall r: nat, k: nat, r': nat, k': nat, id | IsAt(rest, r, k, id) && IsAt(rest, r', k', id)
      ensures r == r' && k == k'
    {
      assert IsAt(rooms, if r < i then r else r + 1, k, id);
      assert IsAt(rooms, if r' < i then r' else r' + 1, k', id);
    }
  }

  // ---- Reading ----

  /** `RoomReadQuery::try_new` lets limits from 1 to 30 through. */
  datatype Query = Query(roomId: string, afterMessageId: Option<string>, limit: nat)

  predicate ValidQuery(q: Query) {
    && ValidIdentifier(q.roomId)
    && (q.afterMessageId.Some? ==> ValidIdentifier(q.afterMessageId.value))
    && 1 <= q.limit <= 30
  }

  datatype Page = Page(
    afterMessageId: Option<string>,
    limit: nat,
    returned: nat,
    hasMoreBefore: bool,
    hasMoreAfter: bool,
    nextAfterMessageId: Option<string>)

  datatype RoomView = RoomView(id: string, name: string, participants: seq<Participant>, messages: seq<Message>)

  datatype ReadSuccess = ReadSuccess(snapshotGeneratedAt: string, room: RoomView, page: Page)

  datatype ReadFailure = RoomNotFound | CursorNotFound

  type Read = Result<ReadSuccess, ReadFailure>

  function Resolve(participants: seq<Participant>, ids: seq<string>): seq<Participant> {
    if ids == [] then []
    else
      var rest := Resolve(participants, ids[1..]);
      match Find(participants, (p: Participant) => p.id == ids[0])
      case None => rest
      case Some(p) => [p] + rest
  }

  function PageOf(room: Room, q: Query, start: nat): (Page, seq<Message>)
    requires start <= |room.messages|
  {
    var tail := room.messages[start..];
    var messages := if |tail| <= q.limit then tail else tail[..q.limit];
    (Page(q.afterMessageId, q.limit, |messages|, q.afterMessageId.None? && start > 0,
          start + q.limit < |room.messages|,
          if messages == [] then q.afterMessageId else Some(messages[|messages| - 1].id)),
     messages)
  }

  /** Where a page starts, unless the cursor is unknown. */
  function StartOf(room: Room, q: Query): (start: Option<nat>)
    ensures start.Some? ==> start.value <= |room.messages|
  {
    match q.afterMessageId
    case None => Some(if |room.messages| <= q.limit then 0 else |room.messages| - q.limit)
    case Some(cursor) =>
      match FindMessage(room.messages, cursor)
      case None => None
      case Some(i) => Some(i + 1)
  }

  function RoomRead(s: Snapshot, q: Query): Read {
    match FindRoom(s.rooms, q.roomId)
    case None => Err(ReadFailure.RoomNotFound)
    case Some(r) =>
      var room := s.rooms[r];
      match StartOf(room, q)
      case None => Err(CursorNotFound)
      case Some(start) =>
        var (page, messages) := PageOf(room, q, start);
        Ok(ReadSuccess(s.generatedAt,
                       RoomView(room.id, room.name, Resolve(s.participants, room.participantIds), messages), page))
  }

  datatype FindError = InvalidLookup | RoomNotFound | MessageNotFound

  function MessageFound(s: Snapshot, roomId: string, messageId: string): Result<Message, FindError> {
    if !ValidIdentifier(roomId) || !ValidIdentifier(messageId) then Err(InvalidLookup)
    else
      match FindRoom(s.rooms, roomId)
      case None => Err(FindError.RoomNotFound)
      case Some(r) =>
        match FindMessage(s.rooms[r].messages, messageId)
        case None => Err(MessageNotFound)
        case Some(k) => Ok(s.rooms[r].messages[k])
  }

  /** A read of a valid snapshot resolves every participant of the room, in order. */
  lemma {:induction false} ResolvesEveryone(participants: seq<Participant>, ids: seq<string>)
    requires forall id <- ids :: id in ParticipantIds(participants)
    ensures var people := Resolve(participants, ids);
            |people| == |ids| && forall i :: 0 <= i < |ids| ==> people[i].id == ids[i] && people[i] in participants
  {
    if ids != [] {
      ResolvesEveryone(participants, ids[1..]);
      assert ids[0] in ParticipantIds(participants);
    }
  }

  /** `InMemoryRoomSource`, whose lock makes each method one step. */
  class InMemoryRoomSource {
    var snapshot: Snapshot

    ghost predicate Valid()
      reads this
    {
      ValidSnapshot(snapshot)
    }

    constructor (snapshot: Snapshot)
      requires ValidSnapshot(snapshot)
      ensures Valid() && this.snapshot == snapshot
    {
      this.snapshot := snapshot;
    }

    /** `InMemoryRoomSource::new`. */
    static method Open(snapshot: Snapshot) returns (r: Result<InMemoryRoomSource, SnapshotError>)
      ensures r.Ok? <==> ValidSnapshot(snapshot)
      ensures r.Ok? ==> fresh(r.value) && r.value.Valid() && r.value.snapshot == snapshot
    {
      var ok := ValidateSnapshot(snapshot);
      if !ok {
        return Err(InvalidSnapshot);
      }
      var source := new InMemoryRoomSource(snapshot);
      r := Ok(source);
    }

    /** What a source holds can be exported and opened again as the same source. */
    method Reopen() returns (r: Result<InMemoryRoomSource, SnapshotError>)
      requires Valid()
      ensures r.Ok? && fresh(r.value) && r.value.Valid() && r.value.snapshot == snapshot
    {
      r := Open(snapshot);
    }

    method ReplaceSnapshot(replacement: Snapshot) returns (r: Result<(), SnapshotError>)
      requires Valid()
      modifies this
      ensures Valid()
      ensures r.Ok? <==> ValidSnapshot(replacement)
      ensures snapshot == if r.Ok? then replacement else old(snapshot)
    {
      var ok := ValidateSnapshot(replacement);
      if !ok {
        return Err(InvalidSnapshot);
      }
      snapshot := replacement;
      r := Ok(());
    }

    method AppendMessage(m: Message) returns (r: Write)
      requires Valid() && MessageDraft(m)
      modifies this
      ensures Valid() && (snapshot, r) == MessageAppended(old(snapshot), m)
    {
      hide ValidSnapshot, MessageDraft, FindAnywhere, FindRoom;
      AppendKeepsValid(snapshot, m);
      var existing := FindAnywhere(snapshot.rooms, m.id);
      if existing.Some? {
        if SamePayload(existing.value, m) {
          return Ok(WriteSuccess(WriteStatus.Duplicate, existing.value));
        }
        return Err(WriteError.IdempotencyConflict);
      }
      var found := FindRoom(snapshot.rooms, m.roomId);
      if found.None? {
        return Err(WriteError.RoomNotFound);
      }
      var room := snapshot.rooms[found.value];
      if |room.messages| >= MAXIMUM_ROOM_MESSAGES {
        return Err(RoomCapacityReached);
      }
      if m.authorId !in room.participantIds {
        return Err(AuthorNotParticipant);
      }
      if exists recipient <- m.recipients :: recipient !in room.participantIds {
        return Err(RecipientNotParticipant);
      }
      snapshot := snapshot.(rooms := snapshot.rooms[found.value := room.(messages := room.messages + [m])]);
      snapshot := snapshot.(generatedAt := m.createdAt);
      r := Ok(WriteSuccess(Appended, m));
    }

    method CreateRoom(draft: Room, createdAt: string) returns (r: Mutation)
      requires Valid() && RoomDraft(draft, createdAt)
      modifies this
      ensures Valid() && (snapshot, r) == RoomCreated(old(snapshot), draft, createdAt)
    {
      hide ValidSnapshot, RoomDraft, FindRoom;
      CreateKeepsValid(snapshot, draft, createdAt);
      var found := FindRoom(snapshot.rooms, draft.id);
      if found.Some? {
        var room := snapshot.rooms[found.value];
        if room.name == draft.name && room.participantIds == draft.participantIds {
          return Ok(MutationSuccess(MutationStatus.Duplicate, SummaryOf(room)));
        }
        return Err(MutationError.IdempotencyConflict);
      }
      if |snapshot.rooms| >= MAXIMUM_ROOMS {
        return Err(CapacityReached);
      }
      if Unknown(snapshot, draft.participantIds) {
        return Err(ParticipantNotFound);
      }
      snapshot := snapshot.(generatedAt := createdAt);
      snapshot := snapshot.(rooms := snapshot.rooms + [draft]);
      r := Ok(MutationSuccess(Created, SummaryOf(snapshot.rooms[|snapshot.rooms| - 1])));
    }

    method AddRoomParticipant(roomId: string, participantId: string, updatedAt: string) returns (r: Mutation)
      requires Valid()
      modifies this
      ensures Valid() && (snapshot, r) == ParticipantAdded(old(snapshot), roomId, participantId, updatedAt)
    {
      hide ValidSnapshot, FindRoom, ValidStamp, ValidIdentifier;
      AddKeepsValid(snapshot, roomId, participantId, updatedAt);
      if !ValidStamp(roomId, updatedAt) || !ValidIdentifier(participantId) {
        return Err(InvalidMutation);
      }
      if !Known(snapshot, participantId) {
        return Err(ParticipantNotFound);
      }
      var found := FindRoom(snapshot.rooms, roomId);
      if found.None? {
        return Err(MutationError.RoomNotFound);
      }
      var room := snapshot.rooms[found.value];
      if participantId in room.participantIds {
        return Ok(MutationSuccess(MutationStatus.Duplicate, SummaryOf(room)));
      }
      if |room.participantIds| >= MAXIMUM_ROOM_PARTICIPANTS {
        return Err(CapacityReached);
      }
      room := room.(participantIds := room.participantIds + [participantId]);
      snapshot := snapshot.(rooms := snapshot.rooms[found.value := room]);
      r := Ok(MutationSuccess(Added, SummaryOf(room)));
      snapshot := snapshot.(generatedAt := updatedAt);
    }

    method RenameRoom(roomId: string, name: string, updatedAt: string) returns (r: Mutation)
      requires Valid()
      modifies this
      ensures Valid() && (snapshot, r) == RoomRenamed(old(snapshot), roomId, name, updatedAt)
    {
      hide ValidSnapshot, FindRoom, ValidStamp, ValidText;
      RenameKeepsValid(snapshot, roomId, name, updatedAt);
      if !ValidStamp(roomId, updatedAt) || !ValidText(name, MAXIMUM_DISPLAY_NAME_BYTES) {
        return Err(InvalidMutation);
      }
      var found := FindRoom(snapshot.rooms, roomId);
      if found.None? {
        return Err(MutationError.RoomNotFound);
      }
      var room := snapshot.rooms[found.value];
      if room.name == name {
        return Ok(MutationSuccess(MutationStatus.Duplicate, SummaryOf(room)));
      }
      room := room.(name := name);
      snapshot := snapshot.(rooms := snapshot.rooms[found.value := room]);
      r := Ok(MutationSuccess(Renamed, SummaryOf(room)));
      snapshot := snapshot.(generatedAt := updatedAt);
    }

    method RemoveRoomParticipant(roomId: string, participantId: string, updatedAt: string) returns (r: Mutation)
      requires Valid()
      modifies this
      ensures Valid() && (snapshot, r) == ParticipantRemoved(old(snapshot), roomId, participantId, updatedAt)
    {
      hide ValidSnapshot, FindRoom, ValidStamp, ValidIdentifier;
      RemoveKeepsValid(snapshot, roomId, participantId, updatedAt);
      if !ValidStamp(roomId, updatedAt) || !ValidIdentifier(participantId) {
        return Err(InvalidMutation);
      }
      if !Known(snapshot, participantId) {
        return Err(ParticipantNotFound);
      }
      var found := FindRoom(snapshot.rooms, roomId);
      if found.None? {
        return Err(MutationError.RoomNotFound);
      }
      var room := snapshot.rooms[found.value];
      if participantId !in room.participantIds {
        return Ok(MutationSuccess(MutationStatus.Duplicate, SummaryOf(room)));
      }
      if |room.participantIds| <= 2 {
        return Err(RequiredParticipant);
      }
      if exists m <- room.messages :: Mentions(m, participantId) {
        return Err(ParticipantInUse);
      }
      room := room.(participantIds := Without(room.participantIds, PositionOf(room.participantIds, participantId)));
      snapshot := snapshot.(rooms := snapshot.rooms[found.value := room]);
      r := Ok(MutationSuccess(Removed, SummaryOf(room)));
      snapshot := snapshot.(generatedAt := updatedAt);
    }

    method DeleteRoom(roomId: string, updatedAt: string) returns (r: Mutation)
      requires Valid()
      modifies this
      ensures Valid() && (snapshot, r) == RoomDeleted(old(snapshot), roomId, updatedAt)
    {
      hide ValidSnapshot, FindRoom, ValidStamp;
      DeleteKeepsValid(snapshot, roomId, updatedAt);
      if !ValidStamp(roomId, updatedAt) {
        return Err(InvalidMutation);
      }
      if |snapshot.rooms| <= 1 {
        return Err(RequiredRoom);
      }
      var found := FindRoom(snapshot.rooms, roomId);
      if found.None? {
        return Err(MutationError.RoomNotFound);
      }
      r := Ok(MutationSuccess(Deleted, SummaryOf(snapshot.rooms[found.value])));
      snapshot := snapshot.(rooms := Without(snapshot.rooms, found.value));
      snapshot := snapshot.(generatedAt := updatedAt);
    }
  }
}
