/**
 The ledger in memory on top of its files: `begin`, the four transitions and `finish_unknown`, first as
 functions on the whole system, then as the class whose methods change the maps and files in place.
 */
module DispatchLedger {
  import opened Outcomes
  import opened DispatchRecords
  import opened DispatchFiles

  datatype Memory = Memory(records: Records, active: set<string>)

  /** Either the program runs on loaded memory, or it has died or not started and only the disk is left. */
  datatype System = Running(memory: Memory, disk: Disk) | Stopped(disk: Disk)

  datatype BeginReply = Reserved | Active | Existing(record: Record)

  /** What a caller sees: a result, or nothing because the process died inside the call. */
  datatype Reply<+T> = Replied(result: Result<T, LedgerError>) | Died

  datatype Step<+T> = Step(system: System, reply: Reply<T>)

  predicate Keyed(m: Records) {
    forall id <- m :: ValidRecord(m[id]) && m[id].dispatchId == id
  }

  function BeginLedger(s: System, request: Record, f: Faults): Step<BeginReply>
    requires s.Running? && Keyed(s.memory.records)
  {
    var id := request.dispatchId;
    var records := s.memory.records;
    if !ValidRecord(request) then Step(s, Replied(Err(Invalid)))
    else if id in s.memory.active then Step(s, Replied(Ok(Active)))
    else if id in records then
      Step(s, Replied(if SameDispatch(records[id], request) then Ok(Existing(records[id])) else Err(Invalid)))
    else
      var pruned := Prune(records);
      if |pruned| >= MAXIMUM_DISPATCH_RECORDS then
        Step(Running(Memory(pruned, s.memory.active), s.disk), Replied(Err(Invalid)))
      else
        var next := pruned[id := request.(state := Prepared)];
        var r := PersistTo(s.disk, next, f);
        match r.outcome
        case Crashed => Step(Stopped(r.disk), Died)
        case Returned(Some(e)) => Step(Running(Memory(pruned, s.memory.active), r.disk), Replied(Err(e)))
        case Returned(None) => Step(Running(Memory(next, s.memory.active + {id}), r.disk), Replied(Ok(Reserved)))
  }

  /** The four calls that move a reserved dispatch on. */
  datatype Mark = MarkExternalStarted | MarkFailed | MarkExternalPreflightFailed | MarkCompleted {
    function Expected(): DispatchState {
      if MarkExternalStarted? || MarkFailed? then Prepared else ExternalStarted
    }

    function Next(): DispatchState {
      match this
      case MarkExternalStarted => ExternalStarted
      case MarkCompleted => Completed
      case _ => Failed
    }

    predicate Finishes() {
      !MarkExternalStarted?
    }
  }

  function Marked(m: Records, id: string, mark: Mark, updatedAt: string): Records
    requires id in m
  {
    m[id := m[id].(state := mark.Next(), updatedAt := updatedAt)]
  }

  function MarkLedger(s: System, id: string, mark: Mark, updatedAt: string, f: Faults): Step<()>
    requires s.Running?
  {
    var m := s.memory;
    if !ValidDispatchId(id) || !ValidTimestamp(updatedAt) then Step(s, Replied(Err(Invalid)))
    else if id !in m.active || id !in m.records || m.records[id].state != mark.Expected() then
      Step(s, Replied(Err(Invalid)))
    else
      var next := Marked(m.records, id, mark, updatedAt);
      var r := PersistTo(s.disk, next, f);
      match r.outcome
      case Crashed => Step(Stopped(r.disk), Died)
      case Returned(Some(e)) => Step(Running(m, r.disk), Replied(Err(e)))
      case Returned(None) =>
        Step(Running(Memory(next, if mark.Finishes() then m.active - {id} else m.active), r.disk), Replied(Ok(())))
  }

  /** The process ends, and the next one loads the disk with nothing active. */
  function Restart(s: System, readable: bool): System {
    match LoadFrom(s.disk, readable)
    case Ok(records) => Running(Memory(records, {}), s.disk)
    case Err(_) => Stopped(s.disk)
  }

  class DesktopAiDispatchLedger {
    var records: Records
    var active: set<string>
    const files: LedgerFiles

    ghost function State(): System
      reads this, files
    {
      Running(Memory(records, active), files.State())
    }

    /** The system after a call: a process that died takes its memory with it. */
    ghost function After<T>(reply: Reply<T>): System
      reads this, files
    {
      if reply.Died? then Stopped(files.State()) else State()
    }

    /** `persistent`, for a disk that loads. */
    constructor (files: LedgerFiles, loaded: Records)
      requires LoadFrom(files.State(), true) == Ok(loaded)
      ensures this.files == files && State() == Restart(Stopped(files.State()), true)
    {
      this.records, this.active, this.files := loaded, {}, files;
    }

    method Begin(request: Record, f: Faults) returns (reply: Reply<BeginReply>)
      requires Keyed(records)
      modifies this, files
      ensures Step(After(reply), reply) == BeginLedger(old(State()), request, f)
    {
      hide PersistTo, Prune, ValidRecord;
      if !ValidRecord(request) {
        return Replied(Err(Invalid));
      }
      var id := request.dispatchId;
      if id in active {
        return Replied(Ok(Active));
      }
      if id in records {
        var existing := records[id];
        return Replied(if SameDispatch(existing, request) then Ok(Existing(existing)) else Err(Invalid));
      }
      records := Prune(records);
      if |records| >= MAXIMUM_DISPATCH_RECORDS {
        return Replied(Err(Invalid));
      }
      var next := records[id := request.(state := Prepared)];
      var outcome := files.Persist(next, f);
      if outcome.Crashed? {
        return Died;
      }
      if outcome.error.Some? {
        return Replied(Err(outcome.error.value));
      }
      records := next;
      active := active + {id};
      reply := Replied(Ok(Reserved));
    }

    method Transition(id: string, mark: Mark, updatedAt: string, f: Faults) returns (reply: Reply<()>)
      modifies this, files
      ensures Step(After(reply), reply) == MarkLedger(old(State()), id, mark, updatedAt, f)
    {
      hide PersistTo, ValidDispatchId, ValidTimestamp;
      if !ValidDispatchId(id) || !ValidTimestamp(updatedAt) || id !in active || id !in records {
        return Replied(Err(Invalid));
      }
      if records[id].state != mark.Expected() {
        return Replied(Err(Invalid));
      }
      var next := Marked(records, id, mark, updatedAt);
      var outcome := files.Persist(next, f);
      if outcome.Crashed? {
        return Died;
      }
      if outcome.error.Some? {
        return Replied(Err(outcome.error.value));
      }
      records := next;
      if mark.Finishes() {
        active := active - {id};
      }
      reply := Replied(Ok(()));
    }

    method FinishUnknown(id: string)
      modifies this
      ensures State() == old(Running(Memory(records, active - {id}), files.State()))
    {
      active := active - {id};
    }
  }
}
