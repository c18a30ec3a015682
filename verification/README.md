# M.I.O.: state machines behind the safety boundaries

M.I.O. is a desktop room in which a human owner and several AI participants talk. Its README promises
(README.md:91-98) that an external turn is started once for each message and recipient, that rooms and
dispatches survive restarts without partial results being taken for success, and that commands run only as
confirmed. This Dafny project models the parts of the Rust code that carry those promises and proves them for
every input, every run and every interleaving.

| modules | what they model |
|---|---|
| `Outcomes`, `Collections`, `Strings` | `Option` and `Result`; searching sequences; Rust strings, UTF-8, the shared identifier check |
| `DispatchRecords`, `DispatchFiles`, `DispatchLedger`, `DispatchRuns`, `DispatchLostCopies`, `DispatchAnswers` | the AI dispatch ledger: records and pruning, the temporary/backup/rename file protocol with a fault at every step, the ledger on top of it, all runs with crashes and restarts, what a lost copy leads to, and what each call answers |
| `RoomSnapshots`, `RoomStore`, `RoomRuns`, `RoomAnswers` | rooms: the snapshot invariant and its validator, the six mutations, all runs seen by a reader that pages, and what each call answers |
| `ChunkedStream`, `ChunkedFrames`, `ChunkedEncoder`, `ChunkExtensions`, `ChunkedAnswers` | the chunked coding of section 7.1 of RFC 9112 with lines framed on top: decoder, meaning over whole streams, encoder, which extensions are taken, and which error ends a stream |
| `ConfirmationRegistry`, `ConfirmationHistory`, `ConfirmationAnswers` | the command confirmation registry where every authorization comes from, and what each call answers |
| `ConductorPlan`, `StableIdentifiers`, `ConductorOperation`, `ConductorRuns`, `ConductorAnswers`, `ConductorRefusals` | the conductor: plan parser, derived identifiers, the write-once operation, all its runs, and what each call and the parser answer |
| `OutputBudget` | two reader threads that share one output budget, one atomic access a step |
| `NpmStaging` | the worklist that copies the npm runtime |
| `RelayConnections` | one relay connection per account, under interleaved calls |
| `BridgeReply` | the cut of a long browser reply at a character boundary |
| `TextLaws` | what the texts, bytes and numbers underneath mean, told another way than they are computed |

Where the source changes fields, maps or files in place the model is a class with the same fields; its methods
take the source's steps in order and are proved equal to a function on the old state. The laws are lemmas about
those functions; for every call one of them says exactly when each answer is given and what every field holds
afterwards, without the function. A lock is an atomic step. Clocks, file-system faults, thread schedules, transport results and
credential-store errors are parameters, so that a theorem covers all of them.

## What turned out to hold only under a condition

- **The dispatch ledger on disk.** `persist` is crash-safe exactly when it does not begin with the backup as
  the only copy (`DispatchFiles.CrashSafeExactly`): it deletes that copy first
  (apps/desktop/src-tauri/src/ai_dispatch_ledger.rs:190-200), and a crash or a refused rename after that leaves
  a disk that reads as an empty ledger (lines 96-97). The theorems about runs therefore ask that no persist
  loses the only copy. Once the backup is the only copy, an unfinished dispatch, even one recorded as started,
  can be reserved and started again, against the promise of README.md:91, exactly unless the ledger is full of
  unfinished dispatches and none is being worked on (`DispatchLostCopies.ReservedAgainExactly` and
  `DispatchLostCopies.StartedAgainExactly`). `DispatchLostCopies.TwoCutsStartTwice` is a whole run from an empty
  disk in which one external turn is started twice.
- **One connection per account.** `status` overwrites a live phase with Error when the credential store fails
  (crates/moe-relay-client/src/lib.rs:628-634). `RelayConnections.StatusFailureExactly` shows that this keeps
  exclusion exactly when the account is idle; otherwise the next connect is let through beside the one there.
- **A reader that starts in an empty room** gets no cursor, so its next read is a first read again. It brings
  everything written since then exactly when that fits in one page, and otherwise misses all but the last page
  (`RoomRuns.EmptyStartMissesExactly`, with the run in `RoomRuns.EmptyStartSkips`).
- **Chunk extensions.** The decoder reads a chunk with an extension exactly when no white space stands before
  the semicolon, the size line has at most 64 bytes, and it is valid UTF-8; otherwise it reports a protocol
  error (`ChunkExtensions.ExtensionReadExactly`). Section 7.1.1 of RFC 9112 allows spaces and tabs there, sets no
  such length, and allows other octets in quoted values. The theorems about streams are stated for the size
  lines the decoder takes.
- **A frame on the relay stream** is read only if each chunk fits in the buffer beside the unfinished line
  before it; `ChunkedFrames.FittingExactly` and `ChunkedFrames.FramesAreLines` say exactly how far a stream
  with larger chunks is read.

## Model

| member | source | states |
|---|---|---|
| Strings.DecodeIsInverseOfEncode | apps/desktop/src-tauri/src/browser_bridge.rs:465-480 | bytes are valid UTF-8 for a string exactly when they are its encoding (section 3 of RFC 3629), which is what slicing a `str` and `from_utf8` rely on |
| DispatchRecords.DispatchIdIsInjective | apps/desktop/src-tauri/src/ai_dispatch_ledger.rs:470-506 | the id of a valid dispatch determines its source message and its recipient |
| DispatchRecords.PruneVictim | apps/desktop/src-tauri/src/ai_dispatch_ledger.rs:447-468 | pruning happens exactly when the ledger is full and some record has completed or failed, and takes the oldest of those, ties broken by id |
| DispatchRecords.CollectValues | apps/desktop/src-tauri/src/ai_dispatch_ledger.rs:90-170 | the loop of `load` over the records `persist` wrote gives back the same map |
| DispatchRecords.CollectedIsKeyed | apps/desktop/src-tauri/src/ai_dispatch_ledger.rs:118-136 | whatever file is loaded, every record accepted is valid and stored under its own id |
| DispatchRecords.ValidLedgerFits | apps/desktop/src-tauri/src/ai_dispatch_ledger.rs:150-170 | any valid ledger of at most 512 records serialises below 1 MiB, so the size check of `persist` never fires |
| DispatchFiles.WrittenStores | apps/desktop/src-tauri/src/ai_dispatch_ledger.rs:90-170 | `load` of a file `persist` wrote returns exactly the ledger written |
| DispatchFiles.LoadedIsValid | apps/desktop/src-tauri/src/ai_dispatch_ledger.rs:90-137 | a disk that loads at all loads as a valid ledger |
| DispatchFiles.PersistIsAtomic | apps/desktop/src-tauri/src/ai_dispatch_ledger.rs:139-208 | whatever step is refused or crashed at, the disk reads as exactly the old or exactly the new ledger; success means the new one, an error the old one, unless the only copy was removed |
| DispatchFiles.LostCopyReadsAsEmpty | apps/desktop/src-tauri/src/ai_dispatch_ledger.rs:190-206 | in the remaining case the call does not succeed and the disk reads as an empty ledger |
| DispatchFiles.CrashSafeExactly | apps/desktop/src-tauri/src/ai_dispatch_ledger.rs:139-208 | for which disks before the call every fault leaves the old or new ledger, and every error the old one: both directions |
| DispatchFiles.LoadsExactly | apps/desktop/src-tauri/src/ai_dispatch_ledger.rs:90-137 | for every disk: a ledger is loaded exactly from an undamaged file that says it, or as empty from no files at all; a truncated, oversized, unparsable, foreign or inconsistent file is Invalid, never empty, and an unreadable one Io |
| DispatchFiles.PersistAnswersExactly | apps/desktop/src-tauri/src/ai_dispatch_ledger.rs:139-208 | a persist succeeds exactly when every step it needs goes through, with the new file in place and the old one as backup; it is Invalid exactly when a path is in the way; no return leaves a temporary file |
| DispatchFiles.FailureRestores | apps/desktop/src-tauri/src/ai_dispatch_ledger.rs:199-206 | a persist that fails puts the old file back in its place, unless that is refused as well |
| DispatchFiles.LedgerFiles.Load | apps/desktop/src-tauri/src/ai_dispatch_ledger.rs:90-137 | the choice of file and the record loop compute the load function, duplicates and invalid records included |
| DispatchFiles.LedgerFiles.Persist | apps/desktop/src-tauri/src/ai_dispatch_ledger.rs:139-208 | the file operations in the source's order give the disk and outcome that the atomicity theorems are about |
| DispatchLedger.DesktopAiDispatchLedger.Begin | apps/desktop/src-tauri/src/ai_dispatch_ledger.rs:268-294 | reservation with the pruning of memory before the write, so that a failed write leaves the pruned memory and the old disk |
| DispatchLedger.DesktopAiDispatchLedger.Transition | apps/desktop/src-tauri/src/ai_dispatch_ledger.rs:379-414 | the four marks: expected state, write first, memory after, `active` left only by final states |
| DispatchLedger.DesktopAiDispatchLedger.FinishUnknown | apps/desktop/src-tauri/src/ai_dispatch_ledger.rs:352-356 | only `active` changes |
| DispatchAnswers.BeginAnswersExactly | apps/desktop/src-tauri/src/ai_dispatch_ledger.rs:268-294 | exactly when a `begin` is Reserved, Active, Existing or an error; what is reserved is the request as prepared, in memory and on disk, beside all records but the longest finished one of a full ledger |
| DispatchAnswers.MarkAnswersExactly | apps/desktop/src-tauri/src/ai_dispatch_ledger.rs:296-414 | exactly when a mark is accepted; memory and disk then hold the record in the state the mark names, at the given time, with its other fields and all other records unchanged; a refused one changes nothing |
| DispatchAnswers.RecordHasOrigin | apps/desktop/src-tauri/src/ai_dispatch_ledger.rs:268-414 | in every run that keeps a copy, what the disk says about a dispatch was there at first or was written by a `begin` or mark of the run, so nothing is recorded as completed that was not marked so |
| DispatchRuns.CallKeepsConsistent | apps/desktop/src-tauri/src/ai_dispatch_ledger.rs:268-414 | memory and disk stay valid and agree, up to one finished record the disk may hold beyond memory, over every call, crash and restart |
| DispatchRuns.RunIsConsistent | apps/desktop/src-tauri/src/ai_dispatch_ledger.rs:268-414 | the same in every reachable system |
| DispatchRuns.ReservedOnce | apps/desktop/src-tauri/src/ai_dispatch_ledger.rs:268-294 | in every run with failed writes, crashes and restarts that keeps a copy, two reservations of one id are separated by that id being pruned after it completed or failed |
| DispatchRuns.StartedOnce | README.md:91 | the same for turns marked as externally started: once per message and recipient |
| DispatchRuns.LeavingUnresolved | apps/desktop/src-tauri/src/ai_dispatch_ledger.rs:352-356 | a record without an outcome becomes unresolved by `finish_unknown` and by a restart |
| DispatchRuns.UnresolvedForever | README.md:91 | an unresolved record is never reserved, started, changed or pruned again in any continuation: no automatic retry |
| DispatchLostCopies.TwoCutsStartTwice | README.md:91 | the witness against the promise: two crashes between the renames, and the external turn of one dispatch is started twice without having ended or been pruned |
| DispatchLostCopies.ReservedAgainExactly | apps/desktop/src-tauri/src/ai_dispatch_ledger.rs:190-206 | the general converse of the promise: from any consistent system whose only copy is the backup, some continuation reserves an unfinished dispatch again without pruning it, exactly unless nothing can be written any more |
| DispatchLostCopies.StartedAgainExactly | README.md:91 | the same for the external turn itself: a continuation starts it, even if it is recorded as started, exactly unless nothing can be written any more |
| DispatchLostCopies.StuckStays | apps/desktop/src-tauri/src/ai_dispatch_ledger.rs:284-287 | a ledger full of unfinished dispatches that nobody works on stays as it is under every call, and reserves and starts nothing |
| DispatchLostCopies.FreshRecordsExist | apps/desktop/src-tauri/src/ai_dispatch_ledger.rs:470-506 | dispatches for that witness exist |
| RoomSnapshots.UniqueValidIdentifiers | crates/moe-core/src/room.rs:917-922 | the set-based loop accepts exactly the lists of different valid identifiers |
| RoomSnapshots.CheckMessageShape | crates/moe-core/src/room.rs:905-915 | accepts exactly the well-shaped messages |
| RoomSnapshots.DistinctExactly | crates/moe-core/src/room.rs:877-885 | comparing the size of a set with the length of the list detects exactly the repeated participants |
| RoomSnapshots.UniqueMessagesExtends | crates/moe-core/src/room.rs:870-900 | one set of message ids carried across rooms is enough to decide uniqueness over all rooms |
| RoomSnapshots.CheckRooms | crates/moe-core/src/room.rs:866-902 | the room loop accepts exactly the rooms with unique ids, unique messages across rooms and no dangling author, recipient or participant |
| RoomSnapshots.ValidateSnapshot | crates/moe-core/src/room.rs:848-903 | `validate_snapshot` accepts exactly the declarative invariant, limits included |
| RoomStore.AppendKeepsValid | crates/moe-core/src/room.rs:573-624 | an append of any accepted draft keeps the snapshot valid |
| RoomStore.CreateKeepsValid | crates/moe-core/src/room.rs:626-661 | so does creating a room |
| RoomStore.AddKeepsValid | crates/moe-core/src/room.rs:663-708 | so does adding a participant, for arbitrary arguments |
| RoomStore.RenameKeepsValid | crates/moe-core/src/room.rs:710-741 | so does a rename, for arbitrary arguments |
| RoomStore.RemoveKeepsValid | crates/moe-core/src/room.rs:743-797 | removing a participant leaves no dangling author or recipient |
| RoomStore.DeleteKeepsValid | crates/moe-core/src/room.rs:799-823 | deleting a room keeps the rest valid |
| RoomStore.ResolvesEveryone | crates/moe-core/src/room.rs:499-510 | the lookup of participants by id drops nobody when all ids are known |
| RoomStore.InMemoryRoomSource.Open | crates/moe-core/src/room.rs:431-436 | a source opens exactly on valid snapshots |
| RoomStore.InMemoryRoomSource.Reopen | crates/moe-core/src/room.rs:431-443 | what a source exports opens again as the same source |
| RoomStore.InMemoryRoomSource.ReplaceSnapshot | crates/moe-core/src/room.rs:445-453 | replaces by valid snapshots only and otherwise changes nothing |
| RoomStore.InMemoryRoomSource.AppendMessage | crates/moe-core/src/room.rs:573-624 | the checks in their order; the new message goes to the end of its room's history; validity is kept |
| RoomStore.InMemoryRoomSource.CreateRoom | crates/moe-core/src/room.rs:626-661 | duplicates and conflicts before capacity and participants; the room is appended; validity is kept |
| RoomStore.InMemoryRoomSource.AddRoomParticipant | crates/moe-core/src/room.rs:663-708 | all refusals leave the snapshot alone; success appends the participant |
| RoomStore.InMemoryRoomSource.RenameRoom | crates/moe-core/src/room.rs:710-741 | changes one name and the time, or nothing |
| RoomStore.InMemoryRoomSource.RemoveRoomParticipant | crates/moe-core/src/room.rs:743-797 | removes one unmentioned participant of more than two, or changes nothing |
| RoomStore.InMemoryRoomSource.DeleteRoom | crates/moe-core/src/room.rs:799-823 | removes one room of several, or changes nothing |
| RoomAnswers.AppendAnswersExactly | crates/moe-core/src/room.rs:573-624 | each answer to an append and exactly when; an appended message is the last of its room, as it was sent, and nothing else changes but the time |
| RoomAnswers.RetryAnswersExactly | crates/moe-core/src/room.rs:838-846 | a known id with the same seven fields, at whatever time, returns the stored message; with any other it is a conflict |
| RoomAnswers.CreateAnswersExactly | crates/moe-core/src/room.rs:626-661 | each answer to a creation and exactly when; the draft becomes the last room |
| RoomAnswers.AddAnswersExactly | crates/moe-core/src/room.rs:663-708 | each answer to an addition and exactly when; the participant is then last in the list, and room, history, other rooms and summary are as they must be |
| RoomAnswers.RenameAnswersExactly | crates/moe-core/src/room.rs:710-741 | the same for a rename: the name is the one given |
| RoomAnswers.RemoveAnswersExactly | crates/moe-core/src/room.rs:743-797 | the same for a removal: exactly that participant is gone, and the others keep their order |
| RoomAnswers.DeleteAnswersExactly | crates/moe-core/src/room.rs:799-823 | the same for a deletion: exactly that room is gone |
| RoomAnswers.ReadAnswersExactly | crates/moe-core/src/room.rs:457-535 | a read fails exactly without its room or its cursor, and every field of the page is as it must be |
| RoomAnswers.FindAnswersExactly | crates/moe-core/src/room.rs:537-559 | each answer to a look-up and exactly when |
| RoomRuns.CallKeepsValid | crates/moe-core/src/room.rs:572-824 | every call, accepted or refused, keeps the snapshot valid |
| RoomRuns.RunIsValid | crates/moe-core/src/room.rs:572-903 | every reachable snapshot is one the validator accepts |
| RoomRuns.CallGrowsHistory | crates/moe-core/src/room.rs:572-824 | no call shortens or reorders the history of a room it neither deletes nor replaces |
| RoomRuns.RunGrowsHistory | crates/moe-core/src/room.rs:572-824 | histories are append-only over whole runs, while rooms around them come, go and change place |
| RoomRuns.ReplayIsAlwaysRecognised | crates/moe-core/src/room.rs:573-624 | at any later point a repeated payload with any time returns Duplicate with the original and changes nothing, a different payload under that id is refused, and the original can be found |
| RoomRuns.AppendStores | crates/moe-core/src/room.rs:573-624 | a successful append, first or repeated, leaves a message with that payload in the room it names |
| RoomRuns.StoredIsFound | crates/moe-core/src/room.rs:537-559 | a stored message is what both the global duplicate search and `find_message` return |
| RoomRuns.DeletedIdsAreFree | crates/moe-core/src/room.rs:799-823 | where the replay promise ends: deleting the room frees the ids of its messages |
| RoomRuns.CursorIsFound | crates/moe-core/src/room.rs:474-490 | the cursor a page hands out is a valid query and resolves to the place right behind that page |
| RoomRuns.PollContinues | crates/moe-core/src/room.rs:457-535 | one page after a cursor continues without gap, holds at most the limit, is full unless it reaches the end, and `hasMoreAfter` says exactly which |
| RoomRuns.ReaderMissesNothing | crates/moe-core/src/room.rs:457-535 | a reader that follows `nextAfterMessageId`, interleaved with any writes, holds one contiguous slice; right after a poll `hasMoreAfter` is false exactly when it has the whole history from its start |
| RoomRuns.ReaderCatchesUp | crates/moe-core/src/room.rs:457-535 | as many polls as messages are left bring it to the end |
| RoomRuns.FirstReadIsTheEnd | crates/moe-core/src/room.rs:491-493 | a read without a cursor brings the last messages, at most the limit; it brings all of them exactly when they fit, and says so |
| RoomRuns.FirstReadStartsFollowing | crates/moe-core/src/room.rs:491-515 | its cursor is one a reader can follow from |
| RoomRuns.EmptyStartMissesExactly | crates/moe-core/src/room.rs:491-515 | a reader that starts in an empty room has everything after its next read exactly when that fits in one page, and otherwise only the last page |
| RoomRuns.EmptyStartSkips | crates/moe-core/src/room.rs:491-515 | the run that shows a message missed: an empty page, two appends, a page of one |
| RoomRuns.SkippingRunExists | crates/moe-core/src/room.rs:431-436 | a room and messages for that run exist |
| RoomRuns.ReadNamesEveryone | crates/moe-core/src/room.rs:499-510 | a read lists every participant of the room, in order |
| ChunkedStream.ReadsLine | crates/moe-relay-transport/src/lib.rs:601-620 | a bounded read of a line within the limit takes that line and nothing behind it |
| ChunkedStream.BoundedLineExactly | crates/moe-relay-transport/src/lib.rs:601-620 | without the algorithm: the line at the front of the input if there is one within the limit, otherwise which error, and how many bytes are gone; one result fits |
| ChunkedStream.ChunkedHttpResponse.ReadLine | crates/moe-relay-transport/src/lib.rs:601-620 | the loop that takes byte after byte gives that result |
| ChunkedStream.ChunkedHttpResponse.NextFrame | crates/moe-relay-transport/src/lib.rs:543-598 | the decoder loop, with trailers, size limits and both end-of-stream cases, computes the frame function and the state left behind |
| ChunkedFrames.LinesAreTheSplit | crates/moe-relay-transport/src/lib.rs:543-560 | the reference: lines and remainder put together are the payload, each line ends in its only line feed |
| ChunkedFrames.LinesAppend | crates/moe-relay-transport/src/lib.rs:543-598 | splitting is incremental: only the remainder has to be carried over |
| ChunkedFrames.BufferIsBounded | crates/moe-relay-transport/src/lib.rs:22-24 | after any call, successful or not, at most 8192 bytes are buffered |
| ChunkedFrames.FrameShrinks | crates/moe-relay-transport/src/lib.rs:543-598 | every frame consumes bytes, so reading any finite input ends |
| ChunkedFrames.FramesAreLines | crates/moe-relay-transport/src/lib.rs:543-598 | for every chunking, from any buffer, and whatever ends the stream or cuts it off, the frames are exactly the lines of the payload as far as its chunks fit |
| ChunkedFrames.CutChunkYieldsNothing | crates/moe-relay-transport/src/lib.rs:543-598 | a stream cut off anywhere inside a chunk yields no frame from that chunk |
| ChunkedFrames.FittingExactly | crates/moe-relay-transport/src/lib.rs:571-582 | all chunks fit exactly when each finds room beside the unfinished line before it |
| ChunkedFrames.AcceptedStream | crates/moe-relay-transport/src/lib.rs:543-598 | a stream that fits is read to its end as exactly the lines of its payload; no input is left and the unfinished line stays in the buffer |
| ChunkedFrames.ChunkingDoesNotMatter | crates/moe-relay-transport/src/lib.rs:543-598 | two accepted chunkings of one payload give the same frames |
| ChunkedFrames.FrameComesFromChunks | crates/moe-relay-transport/src/lib.rs:543-598 | the converse: whatever the input, a frame read came from well-formed chunks and no byte is lost or invented |
| ChunkedFrames.FramesComeFromChunks | crates/moe-relay-transport/src/lib.rs:543-598 | over any input at all, well formed or not: all frames read before the first error are the lines of a run of well-formed chunks that the input begins with |
| ChunkedEncoder.ChunkWriter.WriteJsonChunk | crates/moe-relay-transport/src/lib.rs:324-342 | writes the chunk for one value, or nothing when it is too large |
| ChunkedEncoder.SizeLineParses | crates/moe-relay-transport/src/lib.rs:333-342 | the size line written is short enough for the decoder and parses as exactly the size |
| ChunkExtensions.SizeReadExactly | crates/moe-relay-transport/src/lib.rs:552-561 | for any hexadecimal size, white space and extension bytes: the size is read exactly from lines without the white space that are short enough and valid UTF-8 |
| ChunkExtensions.RefusedLine | crates/moe-relay-transport/src/lib.rs:552-561 | the decoder answers any other such line with a protocol error and buffers nothing, whatever follows |
| ChunkExtensions.ExtensionReadExactly | crates/moe-relay-transport/src/lib.rs:543-598 | at the decoder: a chunk with an extension is read, and the stream goes on behind it, exactly under those three conditions |
| ChunkedEncoder.WrittenFramesComeBack | crates/moe-relay-transport/src/lib.rs:324-342 | round trip: frames written one after another are read back whole, in order, and nothing else, also from a stream cut off behind them |
| ChunkedEncoder.PlainEndingEndsStream | crates/moe-relay-transport/src/lib.rs:562-570 | the last chunk without trailers ends a stream |
| ChunkedAnswers.SizesArePositional | crates/moe-relay-transport/src/lib.rs:555-561 | hexadecimal digits of either case, with or without a plus sign, are read as the number they stand for if it fits in 64 bits, and not at all otherwise |
| ChunkedAnswers.OthersAreNoSizes | crates/moe-relay-transport/src/lib.rs:555-561 | no text with any other character is a size, nor an empty one or a lone sign |
| ChunkedAnswers.TrailersExactly | crates/moe-relay-transport/src/lib.rs:562-573 | a trailer section is read exactly when there are fields and a blank line within 8 KiB, up to that line and no further |
| ChunkedAnswers.BrokenTrailers | crates/moe-relay-transport/src/lib.rs:562-573 | fields that break off end the stream with the error of the line that cannot be read |
| ChunkedAnswers.ChunkAnswersExactly | crates/moe-relay-transport/src/lib.rs:576-596 | behind a size line, for any bytes: a protocol error exactly for a chunk that does not fit or does not end with CRLF, the stream gone exactly for one that is cut off, and otherwise the chunk is buffered and reading goes on |
| ChunkedAnswers.NoChunkAnswersExactly | crates/moe-relay-transport/src/lib.rs:543-573 | which error is reported where no chunk follows |
| ChunkedAnswers.EncodesExactly | crates/moe-relay-transport/src/lib.rs:324-342 | a value is written exactly if its text leaves room for the line feed |
| ConfirmationRegistry.ResolveMoves | crates/moe-command-broker/src/confirmation.rs:218-280 | what a decision moves and when it is refused; a session grant is given exactly for commands that allow one |
| ConfirmationRegistry.ConsumeMoves | crates/moe-command-broker/src/confirmation.rs:282-304 | an authorization given is the ready one with the expected scope, and both it and a mismatch end the request |
| ConfirmationRegistry.GrantsAreBounded | crates/moe-command-broker/src/confirmation.rs:182-346 | the grant set without a limit of its own never outgrows ready and terminal requests, hence 1056 |
| ConfirmationRegistry.RegisterKeepsSound | crates/moe-command-broker/src/confirmation.rs:182-216 | disjoint places, limits and an injective account of grants survive `register` |
| ConfirmationRegistry.ResolveKeepsSound | crates/moe-command-broker/src/confirmation.rs:218-280 | and `resolve` |
| ConfirmationRegistry.ConsumeKeepsSound | crates/moe-command-broker/src/confirmation.rs:282-304 | and `consume_authorization` |
| ConfirmationRegistry.EndKeepsSound | crates/moe-command-broker/src/confirmation.rs:315-333 | and `end_room_session` |
| ConfirmationRegistry.NothingIsLost | crates/moe-command-broker/src/confirmation.rs:335-346 | no id disappears in `resolve` or `consume_authorization`, because `finish_terminal` cannot fail there |
| ConfirmationRegistry.CommandConfirmationRegistry.Register | crates/moe-command-broker/src/confirmation.rs:182-216 | the in-place method computes the new registry and reply |
| ConfirmationRegistry.CommandConfirmationRegistry.Resolve | crates/moe-command-broker/src/confirmation.rs:218-280 | the same for every decision |
| ConfirmationRegistry.CommandConfirmationRegistry.ConsumeAuthorization | crates/moe-command-broker/src/confirmation.rs:282-304 | the same, mismatch included |
| ConfirmationRegistry.CommandConfirmationRegistry.EndRoomSession | crates/moe-command-broker/src/confirmation.rs:315-333 | drops exactly the session's entries and returns how many |
| ConfirmationAnswers.RegisterAnswersExactly | crates/moe-command-broker/src/confirmation.rs:182-216 | each of the three outcomes and four errors of `register`, exactly when it is given, and what moves; a session grant answers exactly its own scope |
| ConfirmationAnswers.ResolveAnswersExactly | crates/moe-command-broker/src/confirmation.rs:218-280 | the same for `resolve`: what each of the five decisions means |
| ConfirmationAnswers.ConsumeAnswersExactly | crates/moe-command-broker/src/confirmation.rs:282-304 | the same for `consume_authorization`: the first scope asked with consumes or spoils the request |
| ConfirmationAnswers.EndAnswersExactly | crates/moe-command-broker/src/confirmation.rs:315-333 | the end of a session takes everything of that session from all four places and nothing of any other |
| ConfirmationAnswers.EndCountsExactly | crates/moe-command-broker/src/confirmation.rs:315-333 | the number reported is that of what was taken |
| ConfirmationHistory.HistoryIsSound | crates/moe-command-broker/src/confirmation.rs:181-346 | the invariant in every reachable registry |
| ConfirmationHistory.ReachableLimits | crates/moe-command-broker/src/confirmation.rs:181-346 | at most 32 pending and ready, 1024 terminal, 1056 grants; places disjoint |
| ConfirmationHistory.PendingOrigin | crates/moe-command-broker/src/confirmation.rs:182-216 | a pending request was registered with exactly that scope, and its session has not ended since |
| ConfirmationHistory.GrantOrigin | crates/moe-command-broker/src/confirmation.rs:240-251 | a grant comes from an AllowRoomSession for the identical scope, with no end of that session since |
| ConfirmationHistory.ReadyOrigin | crates/moe-command-broker/src/confirmation.rs:182-251 | every ready authorization has its registration and its permission in the history |
| ConfirmationHistory.AuthorizationHasOrigin | crates/moe-command-broker/src/confirmation.rs:282-304 | every authorization consumed has the scope registered and follows AllowOnce for that id or AllowRoomSession for that scope in a session not ended since; commands that disallow grants only the former |
| ConfirmationHistory.ConsumedOnce | crates/moe-command-broker/src/confirmation.rs:282-304 | two authorizations for one id are separated by the end of the session and a new registration |
| ConfirmationHistory.PermissionIsHonoured | crates/moe-command-broker/src/confirmation.rs:282-304 | a permission waits for its first consumer, who gets it exactly for the allowed scope |
| ConfirmationAnswers.GrantIsHonoured | crates/moe-command-broker/src/confirmation.rs:182-304 | in every history, once the owner allowed a scope for the session, each new request with exactly that scope is authorized at once until the session ends, if there is room, and can then be consumed |
| StableIdentifiers.AbsorbBoth | crates/moe-core/src/conductor.rs:280-294 | the loop that feeds both digests computes the two absorptions |
| StableIdentifiers.ComputeStableIdentifier | crates/moe-core/src/conductor.rs:280-294 | the loop over parts digests the length-prefixed stream and prints two fixed-width words |
| StableIdentifiers.FnvStepIsInjective | crates/moe-core/src/conductor.rs:296-299 | an FNV-1a step modulo 2^64 never joins two states, nor two bytes |
| StableIdentifiers.OneByteChangesDigest | crates/moe-core/src/conductor.rs:280-299 | streams that differ in one byte have different digests, whatever surrounds it |
| StableIdentifiers.HexIsInjective | crates/moe-core/src/conductor.rs:293 | fixed-width hexadecimal keeps numbers apart |
| StableIdentifiers.StreamIsInjective | crates/moe-core/src/conductor.rs:280-292 | the length-prefixed stream determines the list of parts |
| StableIdentifiers.OneByteChangesIdentifier | crates/moe-core/src/conductor.rs:280-294 | parts of equal length that differ in exactly one byte get different identifiers |
| StableIdentifiers.DerivedIsValid | crates/moe-core/src/conductor.rs:629-637 | an identifier derived under a valid short prefix is itself a valid identifier |
| TextLaws.XorIsBitwise | crates/moe-core/src/conductor.rs:296-299 | the exclusive or of the digest, bit by bit |
| TextLaws.DigestOfOneLetter | crates/moe-core/src/conductor.rs:280-299 | the digest of a known input is the published one for 64-bit FNV-1a |
| TextLaws.LittleEndianIsPositional | crates/moe-core/src/conductor.rs:283-286 | the length prefix is the length with its lowest byte first |
| TextLaws.HexDigitsSpell | crates/moe-core/src/conductor.rs:293 | sixteen lower-case digits that stand for the digest |
| TextLaws.IdentifierShape | crates/moe-core/src/conductor.rs:293 | prefix, dash, first digest, second digest |
| TextLaws.IdentifiersOnBytes | crates/moe-core/src/conductor.rs:629-637 | the identifier check on characters is the program's check on bytes |
| TextLaws.LedgerTextsOnBytes | apps/desktop/src-tauri/src/ai_dispatch_ledger.rs:488-506 | so are the ledger's three checks |
| TextLaws.LexIsDictionaryOrder | apps/desktop/src-tauri/src/ai_dispatch_ledger.rs:458-462 | the order of timestamps and ids is that of a dictionary, so the oldest record is the oldest |
| TextLaws.TrimsExactly | apps/desktop/src-tauri/src/browser_bridge.rs:466 | trimming takes all the white space on both sides and nothing else |
| TextLaws.EncodedAsInTheTable | apps/desktop/src-tauri/src/browser_bridge.rs:465-480 | the bytes of every character are those of the table in section 3 of RFC 3629 |
| TextLaws.UpperHexSpells | crates/moe-relay-transport/src/lib.rs:333-342 | the size written stands for the length, in upper case and without leading zeros |
| ConductorPlan.DelegationsAcceptedExactly | crates/moe-core/src/conductor.rs:186-219 | the ordered checks with a set of targets accept exactly allowed and pairwise different delegations |
| ConductorPlan.ValidateDelegations | crates/moe-core/src/conductor.rs:186-219 | the loop returns the first error of the specification |
| ConductorPlan.ParsesExactly | crates/moe-core/src/conductor.rs:102-155 | a plan is returned exactly for well-formed rooms and readable envelopes within the size that describe an executable plan for the room |
| ConductorRefusals.ContextsExactly | crates/moe-core/src/conductor.rs:157-184 | a room is well formed exactly if all ids are valid and different, and a human owner and an AI conductor are in it |
| ConductorRefusals.OneRefusedExactly | crates/moe-core/src/conductor.rs:186-219 | which of the seven reasons one delegation is refused for, and exactly when |
| ConductorRefusals.FirstRefusalExactly | crates/moe-core/src/conductor.rs:186-219 | the error for a list is that of its first delegation refused |
| ConductorRefusals.RefusedExactly | crates/moe-core/src/conductor.rs:102-155 | each error of the parser and exactly when it is reported |
| ConductorOperation.DerivedIdsAreValid | crates/moe-core/src/conductor.rs:233-278 | derivation fails exactly on invalid inputs, and every id derived for an operation and its delegations is a valid identifier |
| ConductorOperation.NewOperation | crates/moe-core/src/conductor.rs:370-384 | an operation exists exactly for valid identities, and starts with valid ids and nothing recorded, where every run begins |
| ConductorAnswers.IdsAreOfTheirParts | crates/moe-core/src/conductor.rs:233-278 | what each id is derived from, and under which prefix |
| ConductorAnswers.OperationIdsDiffer | crates/moe-core/src/conductor.rs:233-248 | source messages, or conductors, that differ in one byte have operations with different ids; an operation and its answer never share one |
| ConductorAnswers.DelegationIdsDiffer | crates/moe-core/src/conductor.rs:250-277 | delegations to targets that differ in one byte, or with different numbers, have different ids; a message and its dispatch never share one |
| ConductorOperation.LiveOperation.BeginPlanning | crates/moe-core/src/conductor.rs:448-457 | in-place transition, replay tolerated |
| ConductorOperation.LiveOperation.AcceptPlan | crates/moe-core/src/conductor.rs:459-513 | builds one state per delegation, or refuses and changes nothing |
| ConductorOperation.LiveOperation.RecordWorkerOutcome | crates/moe-core/src/conductor.rs:515-544 | writes one outcome once; the last one starts synthesis |
| ConductorOperation.LiveOperation.RecordSynthesis | crates/moe-core/src/conductor.rs:546-565 | writes the answer once |
| ConductorOperation.LiveOperation.MarkFinalSaved | crates/moe-core/src/conductor.rs:567-576 | completes only with an answer |
| ConductorOperation.LiveOperation.MarkFailed | crates/moe-core/src/conductor.rs:578-593 | ends an unfinished operation as failed |
| ConductorOperation.LiveOperation.MarkExternalUnknown | crates/moe-core/src/conductor.rs:595-610 | ends an unfinished operation as unknown |
| ConductorAnswers.BeginAnswersExactly | crates/moe-core/src/conductor.rs:448-457 | each answer to the call and exactly when, and every field afterwards |
| ConductorAnswers.AcceptAnswersExactly | crates/moe-core/src/conductor.rs:459-513 | the same for a plan: exactly which plans can be carried out, and the state each mode starts with |
| ConductorAnswers.OutcomeAnswersExactly | crates/moe-core/src/conductor.rs:515-544 | the same for an outcome: only that worker reports, and the last report starts synthesis |
| ConductorAnswers.SynthesisAnswersExactly | crates/moe-core/src/conductor.rs:546-565 | the same for the answer: it is recorded as it is given |
| ConductorAnswers.SavedAnswersExactly | crates/moe-core/src/conductor.rs:567-576 | the same for completion |
| ConductorAnswers.GivingUpAnswersExactly | crates/moe-core/src/conductor.rs:578-610 | the same for both ways to give an operation up |
| ConductorRuns.ParsedPlanIsAccepted | crates/moe-core/src/conductor.rs:459-513 | every plan that parses is accepted by an operation in Planning |
| ConductorRuns.CallKeepsConsistent | crates/moe-core/src/conductor.rs:448-610 | stage, plan, worker states and answer stay consistent; the worker states are those of the planned delegations, one for each and in order, under their own derived ids |
| ConductorRuns.CallExtends | crates/moe-core/src/conductor.rs:448-610 | a refused call changes nothing and an accepted one only adds |
| ConductorRuns.ChangeLowersMeasure | crates/moe-core/src/conductor.rs:448-610 | every call that changes anything comes closer to the end |
| ConductorRuns.NothingToDoExactlyAtTheEnd | crates/moe-core/src/conductor.rs:414-446 | at every point of every run `next_action` is empty exactly in Completed, Failed and Unknown |
| ConductorRuns.EveryWorkerReportsFirst | crates/moe-core/src/conductor.rs:414-446 | at every point of every run: synthesis is asked for with exactly the planned delegations in order, each with an outcome; a delegated answer is saved and the operation completed only when all of them are there; workers dispatched are exactly the planned ones without an outcome |
| ConductorRuns.OutcomeWasReported | crates/moe-core/src/conductor.rs:515-544 | every outcome an operation holds was reported for that worker by a call of the run |
| ConductorRuns.AnswerWasRecorded | crates/moe-core/src/conductor.rs:546-565 | the answer of a delegated operation, which is what is saved, is the argument of an accepted synthesis of the run, made with all outcomes there |
| ConductorRuns.RunIsConsistent | crates/moe-core/src/conductor.rs:448-610 | that consistency in every run |
| ConductorRuns.RecordedIsWriteOnce | crates/moe-core/src/conductor.rs:448-610 | plan, outcomes and answer are write-once in every run, and a final stage freezes everything |
| ConductorRuns.AtMostSevenChanges | crates/moe-core/src/conductor.rs:448-610 | no run changes an operation more than seven times |
| ConductorRuns.RecordAllIsReported | crates/moe-core/src/conductor.rs:515-544 | any list of reports leaves the state that the set of those reports determines |
| ConductorRuns.OrderDoesNotMatter | crates/moe-core/src/conductor.rs:515-544 | another order with other replays gives the identical operation |
| OutputBudget.StepKeepsAccounted | crates/moe-windows-command-runner/src/lib.rs:546-585 | one atomic step of either reader keeps every byte accounted for |
| OutputBudget.RunIsAccounted | crates/moe-windows-command-launcher/src/windows.rs:1023-1060 | in every interleaving, for the host-side copy of the same code as well |
| OutputBudget.EveryInterleavingIsExact | crates/moe-windows-command-runner/src/lib.rs:546-585 | each stream keeps a prefix; both finished, they keep min(read, limit) bytes in all, and the flag is set exactly when more was read |
| OutputBudget.SuccessMeansWholeOutput | crates/moe-windows-command-runner/src/lib.rs:464-544 | success is reported exactly when the child succeeded in time and all its output was kept |
| OutputBudget.CompletionExactly | crates/moe-windows-command-runner/src/lib.rs:464-544 | which of the three completions a command gets: timed out if it was stopped, over the limit exactly if it wrote more, completed otherwise |
| NpmStaging.CopyFolder | crates/moe-windows-command-launcher/src/windows.rs:418-456 | one folder copied in any order of its entries keeps the account of the walk, or proves that the tree may not be staged |
| NpmStaging.CopyNpmRuntime | crates/moe-windows-command-launcher/src/windows.rs:398-466 | terminates, and succeeds exactly for trees without links within all four limits that hold the two required files, when the destination is new and no operation is refused; then the copy equals the source |
| NpmStaging.DoneMeansEqual | crates/moe-windows-command-launcher/src/windows.rs:410-456 | an empty worklist means that everything reachable was copied |
| NpmStaging.RefusedIsNotStageable | crates/moe-windows-command-launcher/src/windows.rs:418-456 | stopping at any entry, in any order of the walk, was right for the whole tree |
| RelayConnections.CallKeepsExclusive | crates/moe-relay-client/src/lib.rs:624-713 | every step keeps at most one connect in flight or live handle per account, with phases that tell exactly which |
| RelayConnections.RunIsExclusive | crates/moe-relay-client/src/lib.rs:624-713 | so in every interleaving whose look-ups do not fail on a live account |
| RelayConnections.BeginKeepsExclusive | crates/moe-relay-client/src/lib.rs:644-661 | a connect is let through exactly when its account is idle |
| RelayConnections.StatusFailureExactly | crates/moe-relay-client/src/lib.rs:624-642 | a failed look-up keeps exclusion exactly for idle accounts; otherwise the next connect breaks it |
| RelayConnections.StateIsLastWord | crates/moe-relay-client/src/lib.rs:624-713 | in every interleaving at all, the phase and error code of an account are those of the last connect, drop or failed look-up for it |
| RelayConnections.ConnectsAndHandles | crates/moe-relay-client/src/lib.rs:644-713 | a connect that ends becomes a handle of its account or nothing, and a dropped handle is gone |
| RelayConnections.RelayClientService.BeginConnect | crates/moe-relay-client/src/lib.rs:644-661 | the first critical section on the shared map |
| RelayConnections.RelayClientService.EndConnect | crates/moe-relay-client/src/lib.rs:662-684 | the second critical section, both outcomes |
| RelayConnections.RelayClientService.DropHandle | crates/moe-relay-client/src/lib.rs:707-713 | dropping a handle takes its account offline |
| RelayConnections.RelayClientService.ReadStatus | crates/moe-relay-client/src/lib.rs:624-642 | what `status` writes, and every field it reports, the stored credential included |
| BridgeReply.LastBoundary | apps/desktop/src-tauri/src/browser_bridge.rs:474-478 | the last character boundary at or before a limit ends the longest whole prefix and is at most three bytes earlier |
| BridgeReply.WholeCharsIsLongest | apps/desktop/src-tauri/src/browser_bridge.rs:474-478 | no longer prefix of whole characters fits |
| BridgeReply.LastBoundaryBefore | apps/desktop/src-tauri/src/browser_bridge.rs:475-478 | the loop that walks back finds it |
| BridgeReply.BoundedReplyBody | apps/desktop/src-tauri/src/browser_bridge.rs:465-480 | blank replies are refused, short ones kept whole, and long ones become the longest whole-character prefix with the suffix, at most 4000 bytes and at least 3997 |

## Left out

- JSON: a parsed document is a value; the ledger's text is modelled for its size only, a frame's text must merely hold no raw line feed, and decoding a read line as JSON is not modelled.
- Streams: the HTTP response head, request head, endpoint parsing, TLS, sockets, cancellation and deadlines of the relay transport; the reader is a finite byte sequence, so a read error looks like the end of the stream.
- Chunk sizes are parsed as on a 64-bit target, where a larger number is refused as overflow.
- File system: a refused operation has no effect and a rename is atomic; the clean-up of the temporary file always works; missing parent directories and metadata errors count as the refusal of a neighbouring step.
- One process per ledger file and per room: README.md:93 promises a single instance. The ledger without a file, which only its tests use, and `unresolved_for_room` are left out.
- Poisoned locks, clocks and timeouts: a lock is one atomic step, times are opaque arguments, and whether a child timed out is an input of `Complete`.
- `capture_bounded` is a state machine whose steps are the atomic accesses rather than a loop in a method, because the point is how two of them interleave; a failed read ends its reader, and the command's error path after that is not modelled.
- Room drafts and queries: the constructors are the conditions under which a draft exists, not calls of their own; `list_rooms` maps the summary over the rooms and adds nothing.
- Confirmation scopes and requests: their constructors and label checks; a scope is compared as a whole.
- Identifiers: a hash has collisions, so only inputs that differ in exactly one byte are told apart.
- Staging: the check that the source path is absolute; links are told from folders and files by the tree itself; the source does not change during the copy; one set of failing paths stands for any operation the system refuses.
- The worker threads, windows, credentials, command classification, workspace and git brokers, preferences and every user-interface part.
