/**
 What every ledger call answers and leaves behind, for all ledgers and all faults that keep a copy: exactly
 when each answer is given, and every field of every record afterwards, in memory and on disk.
 */
module DispatchAnswers {
  import opened Outcomes
  import opened Strings
  import opened DispatchRecords
  import opened DispatchFiles
  import opened DispatchLedger
  import opened DispatchRuns

  // ---- Marks ----

  /** The four marks: what state each one needs and what state it leaves. */
  predicate Marks(mark: Mark, before: DispatchState, after: DispatchState) {
    || (mark.MarkExternalStarted? && before.Prepared? && after.ExternalStarted?)
    || (mark.MarkFailed? && before.Prepared? && after.Failed?)
    || (mark.MarkExternalPreflightFailed? && before.ExternalStarted? && after.Failed?)
    || (mark.MarkCompleted? && before.ExternalStarted? && after.Completed?)
  }

  /** The dispatch is being worked on and is in the state that the mark needs. */
  predicate MayMark(s: System, id: string, mark: Mark, updatedAt: string)
    requires s.Running?
  {
    && ValidDispatchId(id) && ValidTimestamp(updatedAt)
    && id in s.memory.active && id in s.memory.records
    && exists after :: Marks(mark, s.memory.records[id].state, after)
  }

  /** One record moved on by a mark; its other five fields and all other records are as before. */
  predicate MovedOn(before: Records, after: Records, id: string, mark: Mark, updatedAt: string) {
    && id in before && after.Keys == before.Keys
    && (forall other <- before :: other != id ==> after[other] == before[other])
    && (var r, r' := before[id], after[id];
        && Marks(mark, r.state, r'.state) && r'.updatedAt == updatedAt
        && r'.dispatchId == r.dispatchId && r'.roomId == r.roomId && r'.sourceMessageId == r.sourceMessageId
        && r'.recipientId == r.recipientId && r'.replyMessageId == r.replyMessageId)
  }

  lemma MarkedMoves(m: Records, id: string, mark: Mark, updatedAt: string)
    requires id in m && exists after :: Marks(mark, m[id].state, after)
    ensures m[id].state == mark.Expected() && MovedOn(m, Marked(m, id, mark, updatedAt), id, mark, updatedAt)
  {}

  /**
   A mark is refused exactly when the dispatch is not being worked on or not in the state it needs, and then
   nothing changes. Otherwise it is answered as the write ends; Ok means that memory and disk both hold the
   moved record, and only a mark that ends the dispatch stops the work on it.
   */
  lemma MarkAnswersExactly(s: System, id: string, mark: Mark, updatedAt: string, f: Faults)
    requires s.Running? && Consistent(s) && !LosesOnlyCopy(s.disk, f)
    ensures var step := MarkLedger(s, id, mark, updatedAt, f);
            var may := MayMark(s, id, mark, updatedAt);
            && (!may ==> step == Step(s, Replied(Err(Invalid))))
            && (step.reply == Replied(Ok(())) <==> may && Saves(s.disk, f))
            && (step.reply == Replied(Ok(())) ==>
                  && step.system.Running?
                  && MovedOn(s.memory.records, step.system.memory.records, id, mark, updatedAt)
                  && LoadFrom(step.system.disk, true) == Ok(step.system.memory.records)
                  && step.system.memory.active
                     == if mark.MarkExternalStarted? then s.memory.active else s.memory.active - {id})
            && (step.reply.Replied? && step.reply.result.Err? ==>
                  && step.system.Running? && step.system.memory == s.memory
                  && LoadFrom(step.system.disk, true) == LoadFrom(s.disk, true))
            && (step.reply.Died? ==> step.system.Stopped?)
  {
    hide PersistTo, LoadFrom, ValidRecord, LosesOnlyCopy, ValidTimestamp, ValidDispatchId, Saves, MovedOn, Marked;
    var stored := LoadFrom(s.disk, true).value;
    var records := s.memory.records;
    MayMarkExactly(s, id, mark, updatedAt);
    if MayMark(s, id, mark, updatedAt) {
      var next := Marked(records, id, mark, updatedAt);
      KeysBound(records, stored);
      MarkedIsValid(records, id, mark, updatedAt);
      MarkedMoves(records, id, mark, updatedAt);
      PersistIsAtomic(s.disk, stored, next, f);
      PersistAnswersExactly(s.disk, next, f);
    }
  }

  lemma MayMarkExactly(s: System, id: string, mark: Mark, updatedAt: string)
    requires s.Running?
    ensures MayMark(s, id, mark, updatedAt) <==>
              && ValidDispatchId(id) && ValidTimestamp(updatedAt)
              && id in s.memory.active && id in s.memory.records && s.memory.records[id].state == mark.Expected()
  {
    hide ValidTimestamp, ValidDispatchId;
    assert Marks(mark, mark.Expected(), mark.Next());
  }

  // ---- Begin ----

  predicate Finished(r: Record) {
    r.state.Completed? || r.state.Failed?
  }

  /** `id` is the finished record that has waited longest, by timestamp and then by id. */
  predicate LongestFinished(m: Records, id: string) {
    && id in m && Finished(m[id])
    && forall other <- m :: Finished(m[other]) && other != id ==>
         || (m[id].updatedAt != m[other].updatedAt && LexLeq(m[id].updatedAt, m[other].updatedAt))
         || (m[id].updatedAt == m[other].updatedAt && LexLeq(id, other))
  }

  predicate HasFinished(m: Records) {
    exists id <- m :: Finished(m[id])
  }

  /** Room is made only in a full ledger, and only by dropping the record that has been finished longest. */
  ghost predicate RoomMade(before: Records, after: Records) {
    if |before| < MAXIMUM_DISPATCH_RECORDS || !HasFinished(before) then after == before
    else exists victim :: LongestFinished(before, victim) && after == before - {victim}
  }

  lemma PruneMakesRoom(m: Records)
    requires ValidLedger(m)
    ensures RoomMade(m, Prune(m))
    ensures |Prune(m)| < MAXIMUM_DISPATCH_RECORDS <==> |m| < MAXIMUM_DISPATCH_RECORDS || HasFinished(m)
  {
    hide ValidRecord;
    if PruneVictim(m).Some? {
      assert LongestFinished(m, PruneVictim(m).value);
    }
  }

  /** The same dispatch but for its state and time. */
  predicate SameRequest(a: Record, b: Record) {
    a == b.(state := a.state, updatedAt := a.updatedAt)
  }

  predicate IsNew(s: System, request: Record)
    requires s.Running?
  {
    ValidRecord(request) && request.dispatchId !in s.memory.active && request.dispatchId !in s.memory.records
  }

  /** What a `begin` answers when it need not write anything. */
  predicate AnswersFromMemory(s: System, request: Record, result: Result<BeginReply, LedgerError>)
    requires s.Running?
  {
    var id := request.dispatchId;
    if !ValidRecord(request) then result == Err(Invalid)
    else if id in s.memory.active then result == Ok(Active)
    else if id in s.memory.records then
      result == if SameRequest(s.memory.records[id], request) then Ok(Existing(s.memory.records[id])) else Err(Invalid)
    else
      result == Err(Invalid) && |s.memory.records| >= MAXIMUM_DISPATCH_RECORDS && !HasFinished(s.memory.records)
  }

  /** The new ledger once `request` is reserved: as prepared, beside everything room was not made from. */
  ghost predicate Admits(before: Records, after: Records, request: Record) {
    exists kept :: RoomMade(before, kept) && after == kept[request.dispatchId := request.(state := Prepared)]
  }

  predicate HasRoomFor(s: System, request: Record)
    requires s.Running?
  {
    IsNew(s, request) && (|s.memory.records| < MAXIMUM_DISPATCH_RECORDS || HasFinished(s.memory.records))
  }

  /**
   A `begin` reserves exactly new dispatches for which there is room, if the write goes through; memory and disk
   then both hold it as prepared. A running dispatch is Active whatever else is asked, a known one comes back as it is
   recorded, and everything else is Invalid; none of that changes anything.
   */
  lemma BeginAnswersExactly(s: System, request: Record, f: Faults)
    requires s.Running? && Consistent(s) && !LosesOnlyCopy(s.disk, f)
    ensures var step := BeginLedger(s, request, f);
            && (!HasRoomFor(s, request) ==>
                  step.system == s && step.reply.Replied? && AnswersFromMemory(s, request, step.reply.result))
            && (step.reply == Replied(Ok(Reserved)) <==> HasRoomFor(s, request) && Saves(s.disk, f))
            && (step.reply == Replied(Ok(Reserved)) ==>
                  && step.system.Running? && step.system.memory.active == s.memory.active + {request.dispatchId}
                  && Admits(s.memory.records, step.system.memory.records, request)
                  && LoadFrom(step.system.disk, true) == Ok(step.system.memory.records))
            && (step.reply.Replied? && HasRoomFor(s, request) && !Saves(s.disk, f) ==>
                  && step.reply.result.Err?
                  && step.system.Running? && step.system.memory.active == s.memory.active
                  && RoomMade(s.memory.records, step.system.memory.records)
                  && LoadFrom(step.system.disk, true) == LoadFrom(s.disk, true))
            && (step.reply.Died? ==> step.system.Stopped?)
  {
    hide PersistTo, LoadFrom, ValidRecord, LosesOnlyCopy, Saves, RoomMade, Prune, Admits;
    var stored := LoadFrom(s.disk, true).value;
    var records := s.memory.records;
    KeysBound(records, stored);
    PruneMakesRoom(records);
    if HasRoomFor(s, request) {
      var kept := Prune(records);
      var next := kept[request.dispatchId := request.(state := Prepared)];
      PruneKeepsMatch(s.memory, stored);
      PreparedIsValid(request);
      PersistIsAtomic(s.disk, stored, next, f);
      PersistAnswersExactly(s.disk, next, f);
      assert Admits(records, next, request) by { AdmitsKept(records, kept, request); }
    } else if IsNew(s, request) {
      FullStaysFull(records);
    }
  }

  lemma AdmitsKept(before: Records, kept: Records, request: Record)
    requires RoomMade(before, kept)
    ensures Admits(before, kept[request.dispatchId := request.(state := Prepared)], request)
  {}

  lemma FullStaysFull(m: Records)
    requires ValidLedger(m) && |m| >= MAXIMUM_DISPATCH_RECORDS && !HasFinished(m)
    ensures Prune(m) == m
  {
    hide ValidRecord;
  }

  // ---- Where a record comes from ----

  /** This call wrote the record: a `begin` for it, or a mark that leaves just this state at this time. */
  predicate Writes(c: Call, r: Record) {
    || (c.Begin? && r == c.request.(state := Prepared))
    || (c.Transition? && c.id == r.dispatchId && c.updatedAt == r.updatedAt
        && exists before :: Marks(c.mark, before, r.state))
  }

  /** The disk reads as a ledger with exactly this record under its id. */
  predicate HoldsRecord(s: System, r: Record) {
    var stored := LoadFrom(s.disk, true);
    stored.Ok? && r.dispatchId in stored.value && stored.value[r.dispatchId] == r
  }

  lemma CallWrites(s: System, c: Call, r: Record)
    requires Consistent(s) && KeepsACopy(s, c) && HoldsRecord(Apply(s, c), r)
    ensures HoldsRecord(s, r) || Writes(c, r)
  {
    hide PersistTo, LoadFrom, ValidRecord, LosesOnlyCopy, ValidTimestamp, ValidDispatchId;
    var stored := LoadFrom(s.disk, true).value;
    match c
    case Begin(request, f) => if s.Running? { BeginWrites(s, request, f, r); }
    case Transition(id, mark, updatedAt, f) => if s.Running? { MarkWrites(s, id, mark, updatedAt, f, r); }
    case _ =>
  }

  lemma BeginWrites(s: System, request: Record, f: Faults, r: Record)
    requires s.Running? && Consistent(s) && !LosesOnlyCopy(s.disk, f)
    requires HoldsRecord(BeginLedger(s, request, f).system, r)
    ensures HoldsRecord(s, r) || r == request.(state := Prepared)
  {
    hide PersistTo, LoadFrom, ValidRecord, LosesOnlyCopy, Prune;
    var stored := LoadFrom(s.disk, true).value;
    var kept := Prune(s.memory.records);
    if IsNew(s, request) && |kept| < MAXIMUM_DISPATCH_RECORDS {
      var next := kept[request.dispatchId := request.(state := Prepared)];
      PruneKeepsMatch(s.memory, stored);
      PreparedIsValid(request);
      PersistIsAtomic(s.disk, stored, next, f);
    }
  }

  lemma MarkWrites(s: System, id: string, mark: Mark, updatedAt: string, f: Faults, r: Record)
    requires s.Running? && Consistent(s) && !LosesOnlyCopy(s.disk, f)
    requires HoldsRecord(MarkLedger(s, id, mark, updatedAt, f).system, r)
    ensures HoldsRecord(s, r) || Writes(Transition(id, mark, updatedAt, f), r)
  {
    hide PersistTo, LoadFrom, ValidRecord, LosesOnlyCopy, ValidTimestamp, ValidDispatchId, Marked;
    var stored := LoadFrom(s.disk, true).value;
    var records := s.memory.records;
    MayMarkExactly(s, id, mark, updatedAt);
    if MayMark(s, id, mark, updatedAt) {
      var next := Marked(records, id, mark, updatedAt);
      KeysBound(records, stored);
      MarkedIsValid(records, id, mark, updatedAt);
      MarkedMoves(records, id, mark, updatedAt);
      PersistIsAtomic(s.disk, stored, next, f);
    }
  }

  /**
   In every run that keeps a copy, whatever the disk says about a dispatch was there from the start or was written
   by a call of the run. So nothing is recorded as completed, or as failed, that was not marked so.
   */
  lemma {:induction false} RecordHasOrigin(states: seq<System>, calls: seq<Call>, k: nat, r: Record) returns (i: nat)
    requires Run(states, calls) && k <= |calls| && HoldsRecord(states[k], r)
    ensures (i < k && Writes(calls[i], r)) || HoldsRecord(states[0], r)
  {
    hide Consistent, Apply, LosesOnlyCopy, Writes, HoldsRecord;
    i := 0;
    if k > 0 {
      RunIsConsistent(states, calls, k - 1);
      assert Advances(states[k - 1], calls[k - 1], states[k - 1 + 1]);
      CallWrites(states[k - 1], calls[k - 1], r);
      if HoldsRecord(states[k - 1], r) {
        i := RecordHasOrigin(states, calls, k - 1, r);
      } else {
        i := k - 1;
      }
    }
  }
}
