/**
 Whole runs of the dispatch ledger: any order of calls, refused file operations, crashes and restarts.
 The promise is that one source message and recipient start at most one external turn.
 */
module DispatchRuns {
  import opened Outcomes
  import opened Collections
  import opened DispatchRecords
  import opened DispatchFiles
  import opened DispatchLedger

  datatype Call =
    | Begin(request: Record, faults: Faults)
    | Transition(id: string, mark: Mark, updatedAt: string, faults: Faults)
    | FinishUnknown(id: string)
    | Reopen(readable: bool)

  /** The disk reads as a ledger; memory, if any, is that ledger less at most one pruned terminal record. */
  ghost predicate Consistent(s: System) {
    LoadFrom(s.disk, true).Ok? && (s.Running? ==> MemoryMatches(s.memory, LoadFrom(s.disk, true).value))
  }

  ghost predicate MemoryMatches(m: Memory, stored: Records) {
    && Keyed(m.records) && ValidLedger(stored)
    && m.records.Keys <= stored.Keys
    && (forall id <- m.records :: m.records[id] == stored[id])
    && (forall id <- stored :: id !in m.records ==> stored[id].state.Terminal())
    && |stored| <= |m.records| + 1
    && (forall id <- m.active :: id in m.records && !m.records[id].state.Terminal())
  }

  function Apply(s: System, c: Call): System
    requires s.Running? ==> Keyed(s.memory.records)
  {
    match c
    case Reopen(readable) => Restart(s, readable)
    case Begin(request, f) => if s.Running? then BeginLedger(s, request, f).system else s
    case Transition(id, mark, updatedAt, f) =>
      if s.Running? then MarkLedger(s, id, mark, updatedAt, f).system else s
    case FinishUnknown(id) =>
      if s.Running? then Running(s.memory.(active := s.memory.active - {id}), s.disk) else s
  }

  /** The caller was told to go ahead with a new external turn for `id`. */
  predicate Reserves(s: System, c: Call, id: string)
    requires s.Running? ==> Keyed(s.memory.records)
  {
    s.Running? && c.Begin? && c.request.dispatchId == id
    && BeginLedger(s, c.request, c.faults).reply == Replied(Ok(Reserved))
  }

  /** The caller was told that the external turn of `id` is recorded as started. */
  predicate Starts(s: System, c: Call, id: string)
    requires s.Running? ==> Keyed(s.memory.records)
  {
    && s.Running? && c.Transition? && c.id == id && c.mark.MarkExternalStarted?
    && MarkLedger(s, c.id, c.mark, c.updatedAt, c.faults).reply == Replied(Ok(()))
  }

  /** A `begin` for another dispatch drops the record of `id`, which had completed or failed. */
  predicate PrunesTerminal(s: System, c: Call, id: string)
    requires s.Running? ==> Keyed(s.memory.records)
  {
    && s.Running? && c.Begin? && ValidRecord(c.request)
    && c.request.dispatchId !in s.memory.active && c.request.dispatchId !in s.memory.records
    && PruneVictim(s.memory.records) == Some(id)
    && id in s.memory.records && s.memory.records[id].state.Terminal()
  }

  /** The call does not run a persist that removes the only copy of the ledger and fails to replace it. */
  predicate KeepsACopy(s: System, c: Call) {
    (c.Begin? || c.Transition?) ==> !LosesOnlyCopy(s.disk, c.faults)
  }

  ghost predicate Run(states: seq<System>, calls: seq<Call>) {
    && |states| == |calls| + 1
    && Consistent(states[0])
    && forall k :: 0 <= k < |calls| ==> Advances(states[k], calls[k], states[k + 1])
  }

  ghost predicate Advances(s: System, c: Call, s': System) {
    (s.Running? ==> Keyed(s.memory.records)) && KeepsACopy(s, c) && s' == Apply(s, c)
  }

  // ---- One call ----

  lemma PruneKeepsMatch(m: Memory, stored: Records)
    requires MemoryMatches(m, stored)
    ensures MemoryMatches(m.(records := Prune(m.records)), stored)
    ensures |Prune(m.records)| < MAXIMUM_DISPATCH_RECORDS ==> ValidLedger(Prune(m.records))
  {
    hide ValidRecord;
  }

  /** What a persist of `next` leaves behind, for a ledger already held and the one being written. */
  lemma WriteKeepsMatch(m: Memory, stored: Records, next: Memory, r: PersistResult)
    requires MemoryMatches(m, stored) && ValidLedger(next.records) && MemoryMatches(next, next.records)
    requires Atomic(r, stored, next.records)
    ensures r.outcome.Crashed? ==> Consistent(Stopped(r.disk))
    ensures r.outcome == Returned(None) ==> Consistent(Running(next, r.disk))
    ensures r.outcome.Returned? && r.outcome.error.Some? ==> Consistent(Running(m, r.disk))
  {
    hide ValidRecord, LoadFrom;
  }

  lemma BeginKeepsConsistent(s: System, request: Record, f: Faults)
    requires s.Running? && Consistent(s) && !LosesOnlyCopy(s.disk, f)
    ensures Consistent(BeginLedger(s, request, f).system)
  {
    hide PersistTo, LoadFrom, Prune, ValidRecord, LosesOnlyCopy;
    var stored := LoadFrom(s.disk, true).value;
    var id := request.dispatchId;
    PruneKeepsMatch(s.memory, stored);
    var kept := s.memory.(records := Prune(s.memory.records));
    var next := Memory(kept.records[id := request.(state := Prepared)], kept.active + {id});
    if ValidRecord(request) && id !in s.memory.active && id !in s.memory.records
       && |kept.records| < MAXIMUM_DISPATCH_RECORDS
    {
      PreparedIsValid(request);
      PruneShrinks(s.memory.records);
      PersistIsAtomic(s.disk, stored, next.records, f);
      WriteKeepsMatch(kept, stored, next, PersistTo(s.disk, next.records, f));
    }
  }

  lemma PruneShrinks(m: Records)
    requires Keyed(m)
    ensures Prune(m).Keys <= m.Keys
  {}

  lemma PreparedIsValid(r: Record)
    requires ValidRecord(r)
    ensures ValidRecord(r.(state := Prepared))
  {}

  lemma MarkedIsValid(m: Records, id: string, mark: Mark, updatedAt: string)
    requires ValidLedger(m) && id in m && ValidTimestamp(updatedAt)
    ensures ValidLedger(Marked(m, id, mark, updatedAt))
  {
    assert ValidRecord(m[id].(state := mark.Next(), updatedAt := updatedAt));
    hide ValidRecord;
  }

  lemma MarkKeepsConsistent(s: System, id: string, mark: Mark, updatedAt: string, f: Faults)
    requires s.Running? && Consistent(s) && !LosesOnlyCopy(s.disk, f)
    ensures Consistent(MarkLedger(s, id, mark, updatedAt, f).system)
  {
    hide PersistTo, LoadFrom, ValidRecord, LosesOnlyCopy, ValidTimestamp, Atomic;
    var stored := LoadFrom(s.disk, true).value;
    var m := s.memory;
    if id in m.records && ValidTimestamp(updatedAt) && m.records[id].state == mark.Expected() {
      KeysBound(m.records, stored);
      MarkedIsValid(m.records, id, mark, updatedAt);
      var next := Memory(Marked(m.records, id, mark, updatedAt), if mark.Finishes() then m.active - {id} else m.active);
      PersistIsAtomic(s.disk, stored, next.records, f);
      WriteKeepsMatch(m, stored, next, PersistTo(s.disk, next.records, f));
    }
  }

  lemma KeysBound(m: Records, stored: Records)
    requires m.Keys <= stored.Keys
    ensures |m| <= |stored|
  {
    SubsetSize(m.Keys, stored.Keys);
  }

  lemma ReopenKeepsConsistent(s: System, readable: bool)
    requires Consistent(s)
    ensures Consistent(Restart(s, readable))
  {
    hide ValidRecord, LoadFrom;
    LoadedIsValid(s.disk, true);
    if LoadFrom(s.disk, readable).Ok? { ReadableLoads(s.disk, readable); }
  }

  /** Every call, with any refusals and any crash, leaves memory and disk telling the same story. */
  lemma CallKeepsConsistent(s: System, c: Call)
    requires Consistent(s) && KeepsACopy(s, c)
    ensures Consistent(Apply(s, c))
  {
    hide ValidRecord, LoadFrom, BeginLedger, MarkLedger, LosesOnlyCopy;
    match c
    case Reopen(readable) => ReopenKeepsConsistent(s, readable);
    case Begin(request, f) => if s.Running? { BeginKeepsConsistent(s, request, f); }
    case Transition(id, mark, updatedAt, f) => if s.Running? { MarkKeepsConsistent(s, id, mark, updatedAt, f); }
    case FinishUnknown(_) =>
  }

  lemma ReadableLoads(d: Disk, readable: bool)
    requires LoadFrom(d, readable).Ok?
    ensures LoadFrom(d, readable) == LoadFrom(d, true)
  {}

  /** The ledger still has a record for `id`; with `started`, one that is no longer merely prepared. */
  ghost predicate Held(s: System, id: string, started: bool) {
    && LoadFrom(s.disk, true).Ok?
    && HeldIn(LoadFrom(s.disk, true).value, id, started)
    && (s.Running? ==> HeldIn(s.memory.records, id, started))
  }

  predicate HeldIn(m: Records, id: string, started: bool) {
    id in m && (started ==> !m[id].state.Prepared?)
  }

  lemma WriteKeepsHeld(stored: Records, next: Records, r: PersistResult, id: string, started: bool)
    requires Atomic(r, stored, next) && HeldIn(stored, id, started) && HeldIn(next, id, started)
    ensures LoadFrom(r.disk, true).Ok? && HeldIn(LoadFrom(r.disk, true).value, id, started)
  {
    hide LoadFrom;
  }

  lemma PruneKeepsHeld(s: System, request: Record, f: Faults, id: string, started: bool)
    requires s.Running? && Keyed(s.memory.records) && HeldIn(s.memory.records, id, started)
    requires ValidRecord(request)
    requires request.dispatchId !in s.memory.active && request.dispatchId !in s.memory.records
    requires !PrunesTerminal(s, Begin(request, f), id)
    ensures HeldIn(Prune(s.memory.records), id, started)
  {
    hide ValidRecord;
  }

  lemma BeginKeepsHeld(s: System, request: Record, f: Faults, id: string, started: bool)
    requires s.Running? && Consistent(s) && !LosesOnlyCopy(s.disk, f) && Held(s, id, started)
    requires !PrunesTerminal(s, Begin(request, f), id)
    ensures Held(BeginLedger(s, request, f).system, id, started)
    ensures !Reserves(s, Begin(request, f), id)
  {
    hide PersistTo, LoadFrom, ValidRecord, LosesOnlyCopy;
    hide Prune, PrunesTerminal;
    var stored := LoadFrom(s.disk, true).value;
    var records := s.memory.records;
    if ValidRecord(request) && request.dispatchId !in s.memory.active && request.dispatchId !in records {
      var kept := Prune(records);
      PruneKeepsHeld(s, request, f, id, started);
      var next := kept[request.dispatchId := request.(state := Prepared)];
      if |kept| < MAXIMUM_DISPATCH_RECORDS {
        PruneKeepsMatch(s.memory, stored);
        PreparedIsValid(request);
        PruneShrinks(records);
        PersistIsAtomic(s.disk, stored, next, f);
        WriteKeepsHeld(stored, next, PersistTo(s.disk, next, f), id, started);
      }
    }
  }

  lemma MarkKeepsHeld(s: System, c: Call, id: string, started: bool)
    requires c.Transition? && s.Running? && Consistent(s) && KeepsACopy(s, c) && Held(s, id, started)
    ensures Held(Apply(s, c), id, started)
    ensures started ==> !Starts(s, c, id)
  {
    hide PersistTo, LoadFrom, ValidRecord, LosesOnlyCopy;
    var stored := LoadFrom(s.disk, true).value;
    var records := s.memory.records;
    if c.id in records && ValidTimestamp(c.updatedAt) && records[c.id].state == c.mark.Expected() {
      var next := Marked(records, c.id, c.mark, c.updatedAt);
      KeysBound(records, stored);
      MarkedIsValid(records, c.id, c.mark, c.updatedAt);
      PersistIsAtomic(s.disk, stored, next, c.faults);
      WriteKeepsHeld(stored, next, PersistTo(s.disk, next, c.faults), id, started);
    }
  }

  lemma CallKeepsHeld(s: System, c: Call, id: string, started: bool)
    requires Consistent(s) && KeepsACopy(s, c) && Held(s, id, started) && !PrunesTerminal(s, c, id)
    ensures Held(Apply(s, c), id, started) && !Reserves(s, c, id) && (started ==> !Starts(s, c, id))
  {
    hide LoadFrom, ValidRecord, PersistTo, LosesOnlyCopy;
    match c
    case Reopen(readable) =>
      if LoadFrom(s.disk, readable).Ok? { ReadableLoads(s.disk, readable); }
    case Begin(request, f) => if s.Running? { BeginKeepsHeld(s, request, f, id, started); }
    case Transition(_, _, _, _) => if s.Running? { MarkKeepsHeld(s, c, id, started); }
    case FinishUnknown(_) =>
  }

  lemma ConsistentHolds(s: System, id: string, started: bool)
    requires Consistent(s) && s.Running? && HeldIn(s.memory.records, id, started)
    ensures Held(s, id, started)
  {
    hide LoadFrom, ValidRecord;
  }

  lemma ReservingHolds(s: System, c: Call, id: string)
    requires Consistent(s) && KeepsACopy(s, c) && Reserves(s, c, id)
    ensures Held(Apply(s, c), id, false)
  {
    hide PersistTo, LoadFrom, ValidRecord, LosesOnlyCopy, Prune, Held;
    BeginKeepsConsistent(s, c.request, c.faults);
    assert Apply(s, c).Running? && id in Apply(s, c).memory.records;
    ConsistentHolds(Apply(s, c), id, false);
  }

  lemma StartingHolds(s: System, c: Call, id: string)
    requires Consistent(s) && KeepsACopy(s, c) && Starts(s, c, id)
    ensures Held(Apply(s, c), id, true)
  {
    hide PersistTo, LoadFrom, ValidRecord, LosesOnlyCopy, Held;
    MarkKeepsConsistent(s, c.id, c.mark, c.updatedAt, c.faults);
    ConsistentHolds(Apply(s, c), id, true);
  }

  // ---- Runs ----

  lemma {:induction false} RunIsConsistent(states: seq<System>, calls: seq<Call>, k: nat)
    requires Run(states, calls) && k <= |calls|
    ensures Consistent(states[k])
  {
    hide Consistent, Apply, KeepsACopy;
    if k > 0 {
      RunIsConsistent(states, calls, k - 1);
      assert Advances(states[k - 1], calls[k - 1], states[k]);
      CallKeepsConsistent(states[k - 1], calls[k - 1]);
    }
  }

  ghost predicate PrunedBetween(states: seq<System>, calls: seq<Call>, id: string, i: int, j: int)
    requires Run(states, calls) && 0 <= i && j <= |calls|
  {
    exists k :: i < k < j && Advances(states[k], calls[k], states[k + 1]) && PrunesTerminal(states[k], calls[k], id)
  }

  lemma NotPrunedBefore(states: seq<System>, calls: seq<Call>, id: string, i: nat, j: nat)
    requires Run(states, calls) && i + 1 < j <= |calls| && !PrunedBetween(states, calls, id, i, j)
    ensures !PrunedBetween(states, calls, id, i, j - 1)
    ensures Advances(states[j - 1], calls[j - 1], states[j]) && !PrunesTerminal(states[j - 1], calls[j - 1], id)
  {
    hide PrunesTerminal, Apply, KeepsACopy, Consistent;
    assert Advances(states[j - 1], calls[j - 1], states[j - 1 + 1]);
  }

  lemma {:induction false} HeldUntil(states: seq<System>, calls: seq<Call>, id: string, started: bool, i: nat, j: nat)
    requires Run(states, calls) && i < j <= |calls|
    requires Held(states[i + 1], id, started) && !PrunedBetween(states, calls, id, i, j)
    ensures Held(states[j], id, started)
  {
    hide Held, Apply, PrunesTerminal, Consistent, LosesOnlyCopy;
    if i + 1 < j {
      RunIsConsistent(states, calls, j - 1);
      assert Advances(states[j - 1], calls[j - 1], states[j]);
      NotPrunedBefore(states, calls, id, i, j);
      HeldUntil(states, calls, id, started, i, j - 1);
      CallKeepsHeld(states[j - 1], calls[j - 1], id, started);
    }
  }

  /**
   Two reservations of one dispatch id are always separated by that id having completed or failed and
   then being pruned, in every run that keeps a copy of the ledger.
   */
  lemma ReservedOnce(states: seq<System>, calls: seq<Call>, id: string, i: nat, j: nat)
    requires Run(states, calls) && i < j < |calls|
    requires Advances(states[i], calls[i], states[i + 1]) && Reserves(states[i], calls[i], id)
    requires Advances(states[j], calls[j], states[j + 1]) && Reserves(states[j], calls[j], id)
    ensures PrunedBetween(states, calls, id, i, j)
  {
    hide Held, Apply, PrunesTerminal, Consistent, LosesOnlyCopy, Reserves;
    RunIsConsistent(states, calls, i);
    ReservingHolds(states[i], calls[i], id);
    if !PrunedBetween(states, calls, id, i, j) {
      HeldUntil(states, calls, id, false, i, j);
      RunIsConsistent(states, calls, j);
      SecondReserveNeedsPrune(states[j], calls[j], id, false);
    }
  }

  lemma SecondReserveNeedsPrune(s: System, c: Call, id: string, started: bool)
    requires Consistent(s) && KeepsACopy(s, c) && Held(s, id, started)
    ensures !Reserves(s, c, id) && (started ==> !Starts(s, c, id))
  {
    if PrunesTerminal(s, c, id) {
      assert c.request.dispatchId != id;
    } else {
      CallKeepsHeld(s, c, id, started);
    }
  }

  /** README's promise itself: an external turn is recorded as started once, unless its record was pruned. */
  lemma StartedOnce(states: seq<System>, calls: seq<Call>, id: string, i: nat, j: nat)
    requires Run(states, calls) && i < j < |calls|
    requires Advances(states[i], calls[i], states[i + 1]) && Starts(states[i], calls[i], id)
    requires Advances(states[j], calls[j], states[j + 1]) && Starts(states[j], calls[j], id)
    ensures PrunedBetween(states, calls, id, i, j)
  {
    hide Held, Apply, PrunesTerminal, Consistent, LosesOnlyCopy, Starts;
    RunIsConsistent(states, calls, i);
    StartingHolds(states[i], calls[i], id);
    if !PrunedBetween(states, calls, id, i, j) {
      HeldUntil(states, calls, id, true, i, j);
      RunIsConsistent(states, calls, j);
      SecondReserveNeedsPrune(states[j], calls[j], id, true);
    }
  }

  // ---- Records left behind without an outcome ----

  /** A dispatch that was reserved or started, never finished, and is not being worked on. */
  ghost predicate Unresolved(s: System, id: string, r: Record) {
    && LoadFrom(s.disk, true).Ok?
    && UnresolvedIn(LoadFrom(s.disk, true).value, id, r)
    && (s.Running? ==> id !in s.memory.active)
  }

  predicate UnresolvedIn(m: Records, id: string, r: Record) {
    id in m && m[id] == r && !r.state.Terminal()
  }

  lemma UnresolvedInMemory(s: System, id: string, r: Record)
    requires Consistent(s) && Unresolved(s, id, r) && s.Running?
    ensures UnresolvedIn(s.memory.records, id, r)
  {
    hide LoadFrom, ValidRecord;
  }

  lemma WriteKeepsUnresolved(stored: Records, next: Records, r: PersistResult, id: string, rec: Record)
    requires Atomic(r, stored, next) && UnresolvedIn(stored, id, rec) && UnresolvedIn(next, id, rec)
    ensures LoadFrom(r.disk, true).Ok? && UnresolvedIn(LoadFrom(r.disk, true).value, id, rec)
  {
    hide LoadFrom;
  }

  lemma BeginKeepsUnresolved(s: System, c: Call, id: string, r: Record)
    requires c.Begin? && s.Running? && Consistent(s) && KeepsACopy(s, c) && Unresolved(s, id, r)
    ensures Unresolved(Apply(s, c), id, r)
    ensures ValidRecord(c.request) && c.request.dispatchId == id ==>
              BeginLedger(s, c.request, c.faults).reply
              == Replied(if SameDispatch(r, c.request) then Ok(Existing(r)) else Err(Invalid))
  {
    hide PersistTo, LoadFrom, ValidRecord, LosesOnlyCopy;
    UnresolvedInMemory(s, id, r);
    var stored := LoadFrom(s.disk, true).value;
    var request := c.request;
    var kept := Prune(s.memory.records);
    if ValidRecord(request) && request.dispatchId !in s.memory.active && request.dispatchId !in s.memory.records {
      assert UnresolvedIn(kept, id, r);
      var next := kept[request.dispatchId := request.(state := Prepared)];
      if |kept| < MAXIMUM_DISPATCH_RECORDS {
        PruneKeepsMatch(s.memory, stored);
        PreparedIsValid(request);
        PruneShrinks(s.memory.records);
        PersistIsAtomic(s.disk, stored, next, c.faults);
        WriteKeepsUnresolved(stored, next, PersistTo(s.disk, next, c.faults), id, r);
      }
    }
  }

  lemma MarkKeepsUnresolved(s: System, c: Call, id: string, r: Record)
    requires c.Transition? && s.Running? && Consistent(s) && KeepsACopy(s, c) && Unresolved(s, id, r)
    ensures Unresolved(Apply(s, c), id, r) && !Starts(s, c, id)
  {
    hide PersistTo, LoadFrom, ValidRecord, LosesOnlyCopy;
    UnresolvedInMemory(s, id, r);
    var stored := LoadFrom(s.disk, true).value;
    var records := s.memory.records;
    if c.id in s.memory.active && ValidTimestamp(c.updatedAt) && records[c.id].state == c.mark.Expected() {
      var next := Marked(records, c.id, c.mark, c.updatedAt);
      KeysBound(records, stored);
      MarkedIsValid(records, c.id, c.mark, c.updatedAt);
      PersistIsAtomic(s.disk, stored, next, c.faults);
      WriteKeepsUnresolved(stored, next, PersistTo(s.disk, next, c.faults), id, r);
    }
  }

  lemma CallKeepsUnresolved(s: System, c: Call, id: string, r: Record)
    requires Consistent(s) && KeepsACopy(s, c) && Unresolved(s, id, r)
    ensures Unresolved(Apply(s, c), id, r)
    ensures !Reserves(s, c, id) && !Starts(s, c, id) && !PrunesTerminal(s, c, id)
  {
    hide LoadFrom, ValidRecord, LosesOnlyCopy, PersistTo;
    if s.Running? { UnresolvedInMemory(s, id, r); }
    match c
    case Reopen(readable) => if LoadFrom(s.disk, readable).Ok? { ReadableLoads(s.disk, readable); }
    case Begin(_, _) => if s.Running? { BeginKeepsUnresolved(s, c, id, r); }
    case Transition(_, _, _, _) => if s.Running? { MarkKeepsUnresolved(s, c, id, r); }
    case FinishUnknown(_) =>
  }

  /** An unfinished record becomes unresolved when its caller gives up on it, and when the process restarts. */
  lemma LeavingUnresolved(s: System, id: string, readable: bool)
    requires Consistent(s)
    ensures s.Running? && id in s.memory.records && !s.memory.records[id].state.Terminal()
            ==> Unresolved(Apply(s, FinishUnknown(id)), id, s.memory.records[id])
    ensures var stored := LoadFrom(s.disk, true).value;
            id in stored && !stored[id].state.Terminal() ==> Unresolved(Apply(s, Reopen(readable)), id, stored[id])
  {
    hide LoadFrom, ValidRecord;
    if LoadFrom(s.disk, readable).Ok? { ReadableLoads(s.disk, readable); }
  }

  /** From then on it is never reserved, started, pruned or changed again, whatever happens. */
  lemma {:induction false} UnresolvedForever(
    states: seq<System>, calls: seq<Call>, id: string, r: Record, i: nat, j: nat)
    requires Run(states, calls) && i <= j <= |calls| && Unresolved(states[i], id, r)
    ensures Unresolved(states[j], id, r)
    ensures j < |calls| ==> Advances(states[j], calls[j], states[j + 1])
                            && !Reserves(states[j], calls[j], id)
                            && !Starts(states[j], calls[j], id)
                            && !PrunesTerminal(states[j], calls[j], id)
  {
    hide Unresolved, Apply, PrunesTerminal, Reserves, Starts, Consistent, LosesOnlyCopy;
    if i < j {
      UnresolvedForever(states, calls, id, r, i, j - 1);
      RunIsConsistent(states, calls, j - 1);
      CallKeepsUnresolved(states[j - 1], calls[j - 1], id, r);
    }
    if j < |calls| {
      assert Advances(states[j], calls[j], states[j + 1]);
      RunIsConsistent(states, calls, j);
      CallKeepsUnresolved(states[j], calls[j], id, r);
    }
  }
}
