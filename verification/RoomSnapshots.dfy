/** Rooms, their histories, and the invariant that `validate_snapshot` decides. */
module RoomSnapshots {
  import opened Outcomes
  import opened Strings

  const PROTOCOL_VERSION := "0.1.0"
  const MAXIMUM_DISPLAY_NAME_BYTES := 200
  const MAXIMUM_TIMESTAMP_BYTES := 64
  const MAXIMUM_MESSAGE_BODY_BYTES := 100_000
  const MAXIMUM_ROOM_WRITE_BODY_BYTES := 4_000
  const MAXIMUM_PARTICIPANTS := 1_000
  const MAXIMUM_ROOMS := 1_000
  const MAXIMUM_ROOM_PARTICIPANTS := 100
  const MAXIMUM_ROOM_MESSAGES := 10_000
  const MAXIMUM_MESSAGE_LINKS := 100

  datatype ParticipantKind = Human | Ai

  datatype Participant = Participant(id: string, displayName: string, kind: ParticipantKind)

  datatype Provenance = CodexOwnerProxy

  datatype Message = Message(
    id: string,
    roomId: string,
    authorId: string,
    recipients: seq<string>,
    body: string,
    createdAt: string,
    artifactIds: seq<string>,
    provenance: Option<Provenance>)

  datatype Room = Room(id: string, name: string, participantIds: seq<string>, messages: seq<Message>)

  datatype Snapshot = Snapshot(
    schemaVersion: string,
    generatedAt: string,
    participants: seq<Participant>,
    rooms: seq<Room>)

  datatype SnapshotError = InvalidSnapshot

  // ---- The invariant ----

  predicate ValidText(value: string, maximum: nat) {
    value != "" && ByteLength(value) <= maximum
  }

  predicate Distinct(values: seq<string>) {
    forall i, j :: 0 <= i < j < |values| ==> values[i] != values[j]
  }

  predicate DistinctIdentifiers(values: seq<string>) {
    (forall value <- values :: ValidIdentifier(value)) && Distinct(values)
  }

  predicate ValidMessageShape(m: Message, maximumBodyBytes: nat) {
    && ValidIdentifier(m.id) && ValidIdentifier(m.roomId) && ValidIdentifier(m.authorId)
    && |m.recipients| <= MAXIMUM_MESSAGE_LINKS && DistinctIdentifiers(m.recipients)
    && ValidText(m.body, maximumBodyBytes) && ValidText(m.createdAt, MAXIMUM_TIMESTAMP_BYTES)
    && |m.artifactIds| <= MAXIMUM_MESSAGE_LINKS && DistinctIdentifiers(m.artifactIds)
  }

  /** A message names its own room, and only participants of that room. */
  predicate ValidMessage(m: Message, roomId: string, members: seq<string>) {
    && ValidMessageShape(m, MAXIMUM_MESSAGE_BODY_BYTES)
    && m.roomId == roomId
    && m.authorId in members
    && forall recipient <- m.recipients :: recipient in members
  }

  predicate ValidRoom(room: Room, known: set<string>) {
    && ValidIdentifier(room.id) && ValidText(room.name, MAXIMUM_DISPLAY_NAME_BYTES)
    && |room.participantIds| <= MAXIMUM_ROOM_PARTICIPANTS && |room.messages| <= MAXIMUM_ROOM_MESSAGES
    && Distinct(room.participantIds) && (forall id <- room.participantIds :: id in known)
    && forall m <- room.messages :: ValidMessage(m, room.id, room.participantIds)
  }

  predicate ValidParticipant(p: Participant) {
    ValidIdentifier(p.id) && ValidText(p.displayName, MAXIMUM_DISPLAY_NAME_BYTES)
  }

  predicate DistinctParticipants(participants: seq<Participant>) {
    forall i, j :: 0 <= i < j < |participants| ==> participants[i].id != participants[j].id
  }

  predicate DistinctRooms(rooms: seq<Room>) {
    forall i, j :: 0 <= i < j < |rooms| ==> rooms[i].id != rooms[j].id
  }

  function ParticipantIds(participants: seq<Participant>): set<string> {
    set p <- participants :: p.id
  }

  /** The message at a place in a room has this id. */
  predicate IsAt(rooms: seq<Room>, r: nat, k: nat, id: string) {
    r < |rooms| && k < |rooms[r].messages| && rooms[r].messages[k].id == id
  }

  /** No id is used by two messages, in one room or across rooms. */
  ghost predicate UniqueMessages(rooms: seq<Room>) {
    forall r, k, r', k', id :: IsAt(rooms, r, k, id) && IsAt(rooms, r', k', id) ==> r == r' && k == k'
  }

  predicate ValidHeader(s: Snapshot) {
    && s.schemaVersion == PROTOCOL_VERSION
    && ValidText(s.generatedAt, MAXIMUM_TIMESTAMP_BYTES)
    && |s.participants| <= MAXIMUM_PARTICIPANTS
    && |s.rooms| <= MAXIMUM_ROOMS
  }

  ghost predicate ValidRooms(rooms: seq<Room>, known: set<string>) {
    && (forall room <- rooms :: ValidRoom(room, known))
    && DistinctRooms(rooms)
    && UniqueMessages(rooms)
  }

  ghost predicate ValidSnapshot(s: Snapshot) {
    && ValidHeader(s)
    && (forall p <- s.participants :: ValidParticipant(p))
    && DistinctParticipants(s.participants)
    && ValidRooms(s.rooms, ParticipantIds(s.participants))
  }

  // ---- One more room ----

  function MessageIds(messages: seq<Message>): set<string> {
    set m <- messages :: m.id
  }

  ghost function AllMessageIds(rooms: seq<Room>): set<string> {
    set room <- rooms, m <- room.messages :: m.id
  }

  predicate DistinctMessages(messages: seq<Message>) {
    forall i, j :: 0 <= i < j < |messages| ==> messages[i].id != messages[j].id
  }

  lemma AllMessageIdsExactly(rooms: seq<Room>, id: string)
    ensures id in AllMessageIds(rooms) <==> exists r, k :: IsAt(rooms, r, k, id)
  {
    if room, m :| room in rooms && m in room.messages && m.id == id {
      var r: nat :| r < |rooms| && rooms[r] == room;
      var k: nat :| k < |room.messages| && room.messages[k] == m;
      assert IsAt(rooms, r, k, id);
    }
    if r: nat, k: nat :| IsAt(rooms, r, k, id) {
      assert rooms[r] in rooms && rooms[r].messages[k] in rooms[r].messages;
    }
  }

  lemma AllMessageIdsExtends(rooms: seq<Room>, room: Room)
    ensures AllMessageIds(rooms + [room]) == AllMessageIds(rooms) + MessageIds(room.messages)
  {}

  lemma UniqueMessagesExtends(rooms: seq<Room>, room: Room)
    ensures UniqueMessages(rooms + [room]) <==>
            UniqueMessages(rooms) && DistinctMessages(room.messages)
            && AllMessageIds(rooms) !! MessageIds(room.messages)
  {
    var longer := rooms + [room];
    if UniqueMessages(longer) {
      forall r: nat, k: nat, r': nat, k': nat, id | IsAt(rooms, r, k, id) && IsAt(rooms, r', k', id)
        ensures r == r' && k == k'
      {
        assert IsAt(longer, r, k, id) && IsAt(longer, r', k', id);
      }
      forall i: nat, j: nat | i < j < |room.messages| ensures room.messages[i].id != room.messages[j].id {
        assert IsAt(longer, |rooms|, i, room.messages[i].id) && IsAt(longer, |rooms|, j, room.messages[j].id);
      }
      NewRoomIsApart(rooms, room);
    }
    if UniqueMessages(rooms) && DistinctMessages(room.messages) && AllMessageIds(rooms) !! MessageIds(room.messages) {
      UniqueWithNewRoom(rooms, room);
    }
  }

  lemma NewRoomIsApart(rooms: seq<Room>, room: Room)
    requires UniqueMessages(rooms + [room])
    ensures AllMessageIds(rooms) !! MessageIds(room.messages)
  {
    forall m | m in room.messages ensures m.id !in AllMessageIds(rooms) {
      AllMessageIdsExactly(rooms, m.id);
      var j: nat :| j < |room.messages| && room.messages[j] == m;
      assert IsAt(rooms + [room], |rooms|, j, m.id);
      if r: nat, k: nat :| IsAt(rooms, r, k, m.id) {
        assert IsAt(rooms + [room], r, k, m.id);
        assert false;
      }
    }
  }

  lemma UniqueWithNewRoom(rooms: seq<Room>, room: Room)
    requires UniqueMessages(rooms) && DistinctMessages(room.messages)
    requires AllMessageIds(rooms) !! MessageIds(room.messages)
    ensures UniqueMessages(rooms + [room])
  {
    hide AllMessageIds, MessageIds;
    var longer := rooms + [room];
    forall r: nat, k: nat, r': nat, k': nat, id | IsAt(longer, r, k, id) && IsAt(longer, r', k', id)
      ensures r == r' && k == k'
    {
      if r < |rooms| && r' < |rooms| {
        assert IsAt(rooms, r, k, id) && IsAt(rooms, r', k', id);
      } else if r < |rooms| || r' < |rooms| {
        ApartMeansElsewhere(rooms, room, if r < |rooms| then r else r',
                            if r < |rooms| then k else k', if r < |rooms| then k' else k);
      }
    }
  }

  lemma ApartMeansElsewhere(rooms: seq<Room>, room: Room, r: nat, k: nat, j: nat)
    requires AllMessageIds(rooms) !! MessageIds(room.messages)
    requires r < |rooms| && k < |rooms[r].messages| && j < |room.messages|
    ensures rooms[r].messages[k].id != room.messages[j].id
  {
    AllMessageIdsExactly(rooms, rooms[r].messages[k].id);
    assert IsAt(rooms, r, k, rooms[r].messages[k].id);
    assert room.messages[j] in room.messages;
  }

  // ---- The validator ----

  /** `unique_valid_identifiers`. */
  method UniqueValidIdentifiers(values: seq<string>) returns (ok: bool)
    ensures ok <==> DistinctIdentifiers(values)
  {
    hide ValidIdentifier;
    var unique: set<string> := {};
    for i := 0 to |values|
      invariant unique == set j | 0 <= j < i :: values[j]
      invariant DistinctIdentifiers(values[..i])
    {
      var seen := values[..i];
      var now := values[..i + 1];
      assert now == seen + [values[i]];
      if !ValidIdentifier(values[i]) || values[i] in unique {
        return false;
      }
      unique := unique + {values[i]};
    }
    assert values[..|values|] == values;
    ok := true;
  }

  /** `valid_message_shape`. */
  method CheckMessageShape(m: Message, maximumBodyBytes: nat) returns (ok: bool)
    ensures ok <==> ValidMessageShape(m, maximumBodyBytes)
  {
    hide ValidIdentifier, ValidText, DistinctIdentifiers;
    var recipients := UniqueValidIdentifiers(m.recipients);
    var artifacts := UniqueValidIdentifiers(m.artifactIds);
    ok := && ValidIdentifier(m.id) && ValidIdentifier(m.roomId) && ValidIdentifier(m.authorId)
          && |m.recipients| <= MAXIMUM_MESSAGE_LINKS && recipients
          && ValidText(m.body, maximumBodyBytes) && ValidText(m.createdAt, MAXIMUM_TIMESTAMP_BYTES)
          && |m.artifactIds| <= MAXIMUM_MESSAGE_LINKS && artifacts;
  }

  /** The first loop of `validate_snapshot`. */
  method CheckParticipants(participants: seq<Participant>) returns (ok: bool, ids: set<string>)
    ensures ok <==> (forall p <- participants :: ValidParticipant(p)) && DistinctParticipants(participants)
    ensures ok ==> ids == ParticipantIds(participants)
  {
    hide ValidParticipant;
    ids := {};
    for i := 0 to |participants|
      invariant forall j :: 0 <= j < i ==> ValidParticipant(participants[j])
      invariant DistinctParticipants(participants[..i])
      invariant ids == set j | 0 <= j < i :: participants[j].id
    {
      var now := participants[..i + 1];
      assert now == participants[..i] + [participants[i]];
      if !ValidParticipant(participants[i]) || participants[i].id in ids {
        assert participants[i] in participants;
        return false, ids;
      }
      ids := ids + {participants[i].id};
    }
    assert participants[..|participants|] == participants;
    ok := true;
  }

  function Elements(values: seq<string>): set<string> {
    set value <- values :: value
  }

  lemma ElementsExtends(values: seq<string>, value: string)
    ensures Elements(values + [value]) == Elements(values) + {value}
  {
    var longer := values + [value];
    forall v ensures v in Elements(longer) <==> v in Elements(values) + {value} {
      if v in longer {
        assert v in values || v == value;
      }
    }
  }

  /** As many different ids as entries means that no entry repeats. */
  lemma {:induction false} DistinctExactly(values: seq<string>)
    ensures |Elements(values)| <= |values|
    ensures |Elements(values)| == |values| <==> Distinct(values)
  {
    if values != [] {
      var n := |values| - 1;
      var front, last := values[..n], values[n];
      DistinctExactly(front);
      assert values == front + [last];
      ElementsExtends(front, last);
      if last in front {
        var i: nat :| i < n && front[i] == last;
        assert values[i] == values[n];
        assert Elements(values) == Elements(front);
      } else {
        assert Distinct(values) <==> Distinct(front);
      }
    }
  }

  /** The second loop of `validate_snapshot`, for one room: its messages are checked against every id seen so far. */
  method CheckMessages(room: Room, members: set<string>, seen: set<string>) returns (ok: bool, ids: set<string>)
    requires members == Elements(room.participantIds)
    ensures ok <==> && (forall m <- room.messages :: ValidMessage(m, room.id, room.participantIds))
                    && DistinctMessages(room.messages) && seen !! MessageIds(room.messages)
    ensures ok ==> ids == seen + MessageIds(room.messages)
  {
    hide ValidMessageShape;
    ids := seen;
    for i := 0 to |room.messages|
      invariant forall j :: 0 <= j < i ==> ValidMessage(room.messages[j], room.id, room.participantIds)
      invariant DistinctMessages(room.messages[..i]) && seen !! MessageIds(room.messages[..i])
      invariant ids == seen + MessageIds(room.messages[..i])
    {
      var m := room.messages[i];
      var shape := CheckMessageShape(m, MAXIMUM_MESSAGE_BODY_BYTES);
      OneMoreMessage(room.messages, i, seen);
      assert m in room.messages;
      if !shape || m.roomId != room.id || m.authorId !in members
         || !(forall recipient <- m.recipients :: recipient in members)
         || m.id in ids
      {
        return false, ids;
      }
      ids := ids + {m.id};
    }
    assert room.messages[..|room.messages|] == room.messages;
    ok := true;
  }

  lemma OneMoreMessage(messages: seq<Message>, i: nat, seen: set<string>)
    requires i < |messages|
    requires DistinctMessages(messages[..i]) && seen !! MessageIds(messages[..i])
    ensures MessageIds(messages[..i + 1]) == MessageIds(messages[..i]) + {messages[i].id}
    ensures DistinctMessages(messages[..i + 1]) && seen !! MessageIds(messages[..i + 1])
            <==> messages[i].id !in seen + MessageIds(messages[..i])
    ensures !(DistinctMessages(messages[..i + 1]) && seen !! MessageIds(messages[..i + 1]))
            ==> !(DistinctMessages(messages) && seen !! MessageIds(messages))
  {
    var before, now := messages[..i], messages[..i + 1];
    assert now == before + [messages[i]];
    assert MessageIds(now) == MessageIds(before) + {messages[i].id};
    assert MessageIds(now) <= MessageIds(messages);
    if messages[i].id in MessageIds(before) {
      var m :| m in before && m.id == messages[i].id;
      var j: nat :| j < i && before[j] == m;
      assert now[j].id == now[i].id;
    }
  }

  /** `validate_snapshot`. */
  method ValidateSnapshot(s: Snapshot) returns (ok: bool)
    ensures ok <==> ValidSnapshot(s)
  {
    hide ValidParticipant, ValidRoom, DistinctParticipants, ParticipantIds, UniqueMessages, AllMessageIds, MessageIds;
    if !ValidHeader(s) {
      return false;
    }
    var known;
    ok, known := CheckParticipants(s.participants);
    if !ok {
      return;
    }
    ok := CheckRooms(s.rooms, known);
  }

  method CheckRooms(rooms: seq<Room>, known: set<string>) returns (ok: bool)
    ensures ok <==> ValidRooms(rooms, known)
  {
    hide ValidMessage, ValidIdentifier, ValidText, UniqueMessages, AllMessageIds, MessageIds,
         DistinctMessages, Distinct;
    var roomIds: set<string>, messageIds: set<string> := {}, {};
    NoMessages();
    for i := 0 to |rooms|
      invariant ValidRooms(rooms[..i], known)
      invariant roomIds == set j | 0 <= j < i :: rooms[j].id
      invariant messageIds == AllMessageIds(rooms[..i])
    {
      var room := rooms[i];
      OneMoreRoom(rooms, i, known);
      AllMessageIdsExtends(rooms[..i], room);
      DistinctExactly(room.participantIds);
      assert rooms[..i + 1] == rooms[..i] + [room];
      if || !ValidIdentifier(room.id) || !ValidText(room.name, MAXIMUM_DISPLAY_NAME_BYTES)
         || |room.participantIds| > MAXIMUM_ROOM_PARTICIPANTS || |room.messages| > MAXIMUM_ROOM_MESSAGES
         || room.id in roomIds
      {
        return false;
      }
      roomIds := roomIds + {room.id};
      var members := Elements(room.participantIds);
      if |members| != |room.participantIds| || !(forall id <- members :: id in known) {
        return false;
      }
      var accepted;
      accepted, messageIds := CheckMessages(room, members, messageIds);
      if !accepted {
        return false;
      }
    }
    assert rooms[..|rooms|] == rooms;
    ok := true;
  }

  lemma NoMessages()
    ensures AllMessageIds([]) == {} && UniqueMessages([])
  {}

  /** A prefix of valid rooms stays valid with one more room exactly when that room is valid and apart from them. */
  lemma OneMoreRoom(rooms: seq<Room>, i: nat, known: set<string>)
    requires i < |rooms| && ValidRooms(rooms[..i], known)
    ensures ValidRooms(rooms[..i + 1], known) <==>
            && ValidRoom(rooms[i], known)
            && (forall j :: 0 <= j < i ==> rooms[j].id != rooms[i].id)
            && DistinctMessages(rooms[i].messages)
            && AllMessageIds(rooms[..i]) !! MessageIds(rooms[i].messages)
    ensures ValidRooms(rooms, known) ==> ValidRooms(rooms[..i + 1], known)
  {
    hide ValidRoom, UniqueMessages, AllMessageIds, MessageIds, DistinctMessages;
    var before, now := rooms[..i], rooms[..i + 1];
    assert now == before + [rooms[i]];
    UniqueMessagesExtends(before, rooms[i]);
    UniqueInPrefix(rooms, i + 1);
    assert now[i] == rooms[i] && forall j :: 0 <= j < i ==> now[j] == before[j] == rooms[j];
  }

  lemma UniqueInPrefix(rooms: seq<Room>, n: nat)
    requires n <= |rooms|
    ensures UniqueMessages(rooms) ==> UniqueMessages(rooms[..n])
  {
    var prefix := rooms[..n];
    if UniqueMessages(rooms) {
      forall r: nat, k: nat, r': nat, k': nat, id | IsAt(prefix, r, k, id) && IsAt(prefix, r', k', id)
        ensures r == r' && k == k'
      {
        assert IsAt(rooms, r, k, id) && IsAt(rooms, r', k', id);
      }
    }
  }
}
