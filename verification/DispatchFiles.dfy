/**
 The file protocol under the dispatch ledger: a temporary file, a backup and two renames. Each file
 operation is one step; it can succeed, be refused with no effect, or find the process dead.
 */
module DispatchFiles {
  import opened Outcomes
  import opened Strings
  import opened DispatchRecords

  /** What a path holds. A parsed ledger keeps the size of its text, which `load` checks first. */
  datatype Node =
    | Missing
    | NotAFile
    | Unparsable(size: nat)
    | Ledger(size: nat, version: nat, records: seq<Record>)
  {
    predicate IsFile() {
      Unparsable? || Ledger?
    }
  }

  datatype Disk = Disk(primary: Node, backup: Node, temp: Node)

  datatype Fate = Proceed | Refuse | Crash

  /** One fate per step of `persist`; `finish` is the way back to the caller. */
  datatype Faults = Faults(
    prepare: Fate,
    create: Fate,
    write: Fate,
    dropBackup: Fate,
    moveAside: Fate,
    install: Fate,
    rollback: Fate,
    finish: Fate)

  datatype Outcome = Returned(error: Option<LedgerError>) | Crashed

  datatype PersistResult = PersistResult(disk: Disk, outcome: Outcome)

  function LoadNode(n: Node): Result<Records, LedgerError>
    requires n.IsFile()
  {
    if n.size == 0 || n.size > MAXIMUM_DISPATCH_LEDGER_BYTES || n.Unparsable? then Err(Invalid)
    else if n.version != DISPATCH_LEDGER_FILE_VERSION || |n.records| > MAXIMUM_DISPATCH_RECORDS then Err(Invalid)
    else Collect(map[], n.records)
  }

  function LoadFrom(d: Disk, readable: bool): Result<Records, LedgerError> {
    if d.primary.IsFile() then
      if readable then LoadNode(d.primary) else Err(Io)
    else if d.primary.Missing? && d.backup.IsFile() then
      if readable then LoadNode(d.backup) else Err(Io)
    else if d.primary.Missing? && d.backup.Missing? then Ok(map[])
    else Err(Invalid)
  }

  /** The file `persist` writes for a ledger. */
  function Written(m: Records): Node {
    Ledger(ByteLength(JsonLedger(Values(m))), DISPATCH_LEDGER_FILE_VERSION, Values(m))
  }

  function Give(d: Disk, e: LedgerError): PersistResult {
    PersistResult(d.(temp := Missing), Returned(Some(e)))
  }

  function Install(d: Disk, f: Faults): PersistResult {
    match f.install
    case Crash => PersistResult(d, Crashed)
    case Proceed => PersistResult(d.(primary := d.temp, temp := Missing), Returned(None))
    case Refuse =>
      if d.primary.Missing? && d.backup.IsFile() then
        match f.rollback
        case Crash => PersistResult(d, Crashed)
        case Refuse => Give(d, Io)
        case Proceed => Give(d.(primary := d.backup, backup := Missing), Io)
      else
        Give(d, Io)
  }

  function MoveAside(d: Disk, f: Faults): PersistResult {
    if d.primary.Missing? then Install(d, f)
    else
      match f.moveAside
      case Crash => PersistResult(d, Crashed)
      case Refuse => Give(d, Io)
      case Proceed => Install(d.(primary := Missing, backup := d.primary), f)
  }

  function SwapIn(d: Disk, f: Faults): PersistResult {
    if d.backup.Missing? then MoveAside(d, f)
    else if !d.backup.IsFile() then Give(d, Invalid)
    else
      match f.dropBackup
      case Crash => PersistResult(d, Crashed)
      case Refuse => Give(d, Io)
      case Proceed => MoveAside(d.(backup := Missing), f)
  }

  function WriteTemp(d: Disk, body: Node, f: Faults): PersistResult {
    match f.create
    case Crash => PersistResult(d, Crashed)
    case Refuse => Give(d, Io)
    case Proceed =>
      match f.write
      case Crash => PersistResult(d.(temp := Unparsable(0)), Crashed)
      case Refuse => Give(d, Io)
      case Proceed => SwapIn(d.(temp := body), f)
  }

  function PersistSteps(d: Disk, body: Node, f: Faults): PersistResult
    requires body.IsFile()
  {
    match f.prepare
    case Crash => PersistResult(d, Crashed)
    case Refuse => PersistResult(d, Returned(Some(Io)))
    case Proceed =>
      if d.primary.NotAFile? then PersistResult(d, Returned(Some(Invalid)))
      else if body.size > MAXIMUM_DISPATCH_LEDGER_BYTES then PersistResult(d, Returned(Some(Invalid)))
      else WriteTemp(d, body, f)
  }

  /** `persist`, with a crash also possible after its last file operation and before its caller goes on. */
  function PersistBody(d: Disk, body: Node, f: Faults): PersistResult
    requires body.IsFile()
  {
    var r := PersistSteps(d, body, f);
    if f.finish.Crash? then r.(outcome := Crashed) else r
  }

  function PersistTo(d: Disk, m: Records, f: Faults): PersistResult {
    PersistBody(d, Written(m), f)
  }

  /** An earlier persist was cut off between its two renames: the backup is the only copy. */
  predicate OnlyBackup(d: Disk) {
    d.primary.Missing? && d.backup.IsFile()
  }

  /** The persist removes the only copy and then does not get its own file in place. */
  predicate LosesOnlyCopy(d: Disk, f: Faults) {
    && OnlyBackup(d)
    && f.prepare.Proceed? && f.create.Proceed? && f.write.Proceed? && f.dropBackup.Proceed?
    && !f.install.Proceed?
  }

  predicate Stores(body: Node, m: Records) {
    body.IsFile() && body.size <= MAXIMUM_DISPATCH_LEDGER_BYTES && LoadNode(body) == Ok(m)
  }

  lemma WrittenStores(m: Records)
    requires ValidLedger(m)
    ensures Stores(Written(m), m)
  {
    hide JsonLedger, Values, ByteLength, ValidRecord;
    ValidLedgerFits(m);
    ValuesAreRecords(m);
    CollectValues(map[], m);
    EmptyUnion(m);
  }

  lemma EmptyUnion(m: Records)
    ensures map[] + m == m
  {}

  lemma LoadedIsValid(d: Disk, readable: bool)
    requires LoadFrom(d, readable).Ok?
    ensures ValidLedger(LoadFrom(d, readable).value)
  {
    if !(d.primary.Missing? && d.backup.Missing?) {
      CollectedIsKeyed(map[], (if d.primary.IsFile() then d.primary else d.backup).records);
    }
  }

  // ---- What `load` answers, for every disk ----

  /** The file that counts: the primary, or the backup when there is no primary. */
  function Chosen(d: Disk): Option<Node> {
    if d.primary.IsFile() then Some(d.primary)
    else if d.primary.Missing? && d.backup.IsFile() then Some(d.backup)
    else None
  }

  predicate DifferentIds(stored: seq<Record>) {
    forall i, j :: 0 <= i < j < |stored| ==> stored[i].dispatchId != stored[j].dispatchId
  }

  function IdsOf(stored: seq<Record>): set<string> {
    set r <- stored :: r.dispatchId
  }

  /** `m` is exactly these records, each under its own id, which no other record has. */
  ghost predicate ByOwnId(stored: seq<Record>, m: Records) {
    && DifferentIds(stored) && m.Keys == IdsOf(stored)
    && (forall r <- stored :: r.dispatchId in m ==> m[r.dispatchId] == r)
  }

  /** An undamaged ledger file that says exactly `m`. */
  ghost predicate Says(n: Node, m: Records) {
    && n.Ledger? && 1 <= n.size <= MAXIMUM_DISPATCH_LEDGER_BYTES && n.version == DISPATCH_LEDGER_FILE_VERSION
    && |n.records| <= MAXIMUM_DISPATCH_RECORDS && (forall r <- n.records :: ValidRecord(r))
    && ByOwnId(n.records, m)
  }

  predicate NoFiles(d: Disk) {
    d.primary.Missing? && d.backup.Missing?
  }

  /**
   A ledger is loaded exactly from an undamaged file, or as empty from no files at all. A file that cannot be
   read is an Io error, and any damage, of either file or of the paths themselves, is Invalid.
   */
  lemma LoadsExactly(d: Disk, readable: bool)
    ensures forall m :: LoadFrom(d, readable) == Ok(m) <==>
              || (NoFiles(d) && m == map[])
              || (Chosen(d).Some? && readable && Says(Chosen(d).value, m))
    ensures LoadFrom(d, readable) == Err(Io) <==> Chosen(d).Some? && !readable
    ensures LoadFrom(d, readable) == Err(Invalid) <==>
              !NoFiles(d) && (Chosen(d).Some? ==> readable && forall m :: !Says(Chosen(d).value, m))
  {
    if Chosen(d).Some? {
      hide Collect, ValidRecord;
      NodeLoadsExactly(Chosen(d).value);
    }
  }

  lemma NodeLoadsExactly(n: Node)
    requires n.IsFile()
    ensures forall m :: LoadNode(n) == Ok(m) <==> Says(n, m)
    ensures LoadNode(n).Err? ==> LoadNode(n) == Err(Invalid)
  {
    hide Collect, ValidRecord, ByOwnId;
    if n.Ledger? {
      CollectFails(map[], n.records);
      forall m ensures Collect(map[], n.records) == Ok(m) <==> CollectsTo(n.records, m) {
        CollectsExactly(n.records, m);
      }
    }
  }

  ghost predicate CollectsTo(stored: seq<Record>, m: Records) {
    (forall r <- stored :: ValidRecord(r)) && ByOwnId(stored, m)
  }

  lemma {:induction false} CollectFails(acc: Records, stored: seq<Record>)
    ensures Collect(acc, stored).Err? ==> Collect(acc, stored) == Err(Invalid)
    decreases |stored|
  {
    hide ValidRecord;
    if stored != [] {
      CollectFails(acc[stored[0].dispatchId := stored[0]], stored[1..]);
    }
  }

  /** The loop of `load`, without its order: `acc` and the stored records together, none in the way of another. */
  ghost predicate Gathers(acc: Records, stored: seq<Record>, m: Records) {
    && (forall r <- stored :: ValidRecord(r) && r.dispatchId !in acc)
    && DifferentIds(stored) && m.Keys == acc.Keys + IdsOf(stored)
    && (forall id <- acc :: id in m ==> m[id] == acc[id])
    && (forall r <- stored :: r.dispatchId in m ==> m[r.dispatchId] == r)
  }

  lemma {:induction false} GathersExactly(acc: Records, stored: seq<Record>, m: Records)
    ensures Collect(acc, stored) == Ok(m) <==> Gathers(acc, stored, m)
    decreases |stored|
  {
    hide ValidRecord;
    if stored == [] {
      if Gathers(acc, stored, m) { assert m == acc; }
    } else {
      hide Collect, Gathers;
      var next := acc[stored[0].dispatchId := stored[0]];
      GathersExactly(next, stored[1..], m);
      GathersOneByOne(acc, stored, m);
      CollectStep(acc, stored);
    }
  }

  lemma CollectStep(acc: Records, stored: seq<Record>)
    requires stored != []
    ensures Collect(acc, stored) ==
            if !ValidRecord(stored[0]) || stored[0].dispatchId in acc then Err(Invalid)
            else Collect(acc[stored[0].dispatchId := stored[0]], stored[1..])
  {}

  lemma GathersOneByOne(acc: Records, stored: seq<Record>, m: Records)
    requires stored != []
    ensures var first := stored[0];
            Gathers(acc, stored, m) <==>
              ValidRecord(first) && first.dispatchId !in acc && Gathers(acc[first.dispatchId := first], stored[1..], m)
  {
    hide ValidRecord, DifferentIds, IdsOf;
    var first, rest := stored[0], stored[1..];
    assert forall r :: r in stored <==> r == first || r in rest;
    DifferentOneByOne(stored);
    IdsOneByOne(stored);
    assert acc.Keys + ({first.dispatchId} + IdsOf(rest)) == acc[first.dispatchId := first].Keys + IdsOf(rest);
  }

  lemma IdsOneByOne(stored: seq<Record>)
    requires stored != []
    ensures IdsOf(stored) == {stored[0].dispatchId} + IdsOf(stored[1..])
    ensures forall r <- stored[1..] :: r.dispatchId in IdsOf(stored[1..])
  {
    assert forall r :: r in stored <==> r == stored[0] || r in stored[1..];
  }

  lemma DifferentOneByOne(stored: seq<Record>)
    requires stored != []
    ensures DifferentIds(stored) <==>
              DifferentIds(stored[1..]) && forall r <- stored[1..] :: r.dispatchId != stored[0].dispatchId
  {
    var rest := stored[1..];
    if DifferentIds(stored) {
      forall i, j | 0 <= i < j < |rest| ensures rest[i].dispatchId != rest[j].dispatchId {
        assert stored[i + 1] == rest[i] && stored[j + 1] == rest[j];
      }
      forall r | r in rest ensures r.dispatchId != stored[0].dispatchId {
        var j: nat :| j < |rest| && rest[j] == r;
        assert stored[j + 1] == r;
      }
    }
  }

  lemma CollectsExactly(stored: seq<Record>, m: Records)
    ensures Collect(map[], stored) == Ok(m) <==> CollectsTo(stored, m)
  {
    hide ValidRecord, Collect;
    GathersExactly(map[], stored, m);
  }

  predicate ReadsAsEither(d: Disk, was: Records, m: Records) {
    LoadFrom(d, true) == Ok(was) || LoadFrom(d, true) == Ok(m)
  }

  predicate FailureKeeps(r: PersistResult, was: Records) {
    r.outcome.Returned? && r.outcome.error.Some? ==> LoadFrom(r.disk, true) == Ok(was)
  }

  predicate Atomic(r: PersistResult, was: Records, m: Records) {
    && ReadsAsEither(r.disk, was, m)
    && (r.outcome == Returned(None) ==> LoadFrom(r.disk, true) == Ok(m))
    && FailureKeeps(r, was)
  }

  lemma BodyIsAtomic(d: Disk, was: Records, body: Node, m: Records, f: Faults)
    requires LoadFrom(d, true) == Ok(was) && Stores(body, m) && !LosesOnlyCopy(d, f)
    ensures Atomic(PersistBody(d, body, f), was, m)
  {
    hide Collect;
  }

  lemma BodyLosesCopy(d: Disk, body: Node, m: Records, f: Faults)
    requires Stores(body, m) && LosesOnlyCopy(d, f)
    ensures PersistBody(d, body, f).outcome != Returned(None)
    ensures LoadFrom(PersistBody(d, body, f).disk, true) == Ok(map[])
  {}

  /**
   Whatever is refused and wherever the process dies, the disk afterwards reads as the whole old ledger or
   the whole new one; success leaves the new one and an error leaves the old one.
   */
  lemma PersistIsAtomic(d: Disk, was: Records, m: Records, f: Faults)
    requires LoadFrom(d, true) == Ok(was) && ValidLedger(m) && !LosesOnlyCopy(d, f)
    ensures Atomic(PersistTo(d, m, f), was, m)
  {
    hide Written, LoadFrom, PersistBody;
    WrittenStores(m);
    BodyIsAtomic(d, was, Written(m), m, f);
  }

  /** The other half: a persist that loses the only copy fails and leaves a disk that reads as empty. */
  lemma LostCopyReadsAsEmpty(d: Disk, m: Records, f: Faults)
    requires ValidLedger(m) && LosesOnlyCopy(d, f)
    ensures PersistTo(d, m, f).outcome != Returned(None)
    ensures LoadFrom(PersistTo(d, m, f).disk, true) == Ok(map[])
  {
    hide Written, LoadFrom, PersistBody;
    WrittenStores(m);
    BodyLosesCopy(d, Written(m), m, f);
  }

  /** Exactly when `persist` is crash-safe: a caller can tell by looking at the two files beforehand. */
  lemma CrashSafeExactly(d: Disk, was: Records, m: Records)
    requires LoadFrom(d, true) == Ok(was) && ValidLedger(m)
    ensures (forall f :: ReadsAsEither(PersistTo(d, m, f).disk, was, m))
        <==> !OnlyBackup(d) || was == map[] || m == map[]
    ensures (forall f :: FailureKeeps(PersistTo(d, m, f), was)) <==> !OnlyBackup(d) || was == map[]
  {
    hide PersistTo, LoadFrom;
    forall f
      ensures LosesOnlyCopy(d, f) ==> LoadFrom(PersistTo(d, m, f).disk, true) == Ok(map[])
      ensures !LosesOnlyCopy(d, f) ==> Atomic(PersistTo(d, m, f), was, m)
    {
      if LosesOnlyCopy(d, f) { LostCopyReadsAsEmpty(d, m, f); } else { PersistIsAtomic(d, was, m, f); }
    }
    if OnlyBackup(d) {
      var refused := Faults(Proceed, Proceed, Proceed, Proceed, Proceed, Refuse, Proceed, Proceed);
      assert LosesOnlyCopy(d, refused);
      RefusedInstallReturns(d, m, refused);
    }
  }

  lemma RefusedInstallReturns(d: Disk, m: Records, f: Faults)
    requires ValidLedger(m) && LosesOnlyCopy(d, f) && f.install.Refuse? && !f.finish.Crash?
    ensures PersistTo(d, m, f).outcome == Returned(Some(Io))
  {
    hide Written, LoadNode;
    WrittenStores(m);
  }

  // ---- What `persist` answers ----

  /** No path is in the way and every step that these files need goes through. */
  predicate Saves(d: Disk, f: Faults) {
    && !d.primary.NotAFile? && !d.backup.NotAFile?
    && f.prepare.Proceed? && f.create.Proceed? && f.write.Proceed?
    && (d.backup.IsFile() ==> f.dropBackup.Proceed?)
    && (d.primary.IsFile() ==> f.moveAside.Proceed?)
    && f.install.Proceed? && !f.finish.Crash?
  }

  /**
   A persist succeeds exactly when every step goes through; then the new ledger is in place and the old file is
   the backup. It is Invalid exactly when a path is in the way. No return leaves a temporary file behind.
   */
  lemma PersistAnswersExactly(d: Disk, m: Records, f: Faults)
    requires ValidLedger(m)
    ensures var r := PersistTo(d, m, f);
            && (r.outcome == Returned(None) <==> Saves(d, f))
            && (Saves(d, f) ==> r.disk == Disk(Written(m), if d.primary.IsFile() then d.primary else Missing, Missing))
            && (r.outcome == Returned(Some(Invalid)) <==>
                  && f.prepare.Proceed? && !f.finish.Crash?
                  && (d.primary.NotAFile? || (f.create.Proceed? && f.write.Proceed? && d.backup.NotAFile?)))
            && (r.outcome.Returned? ==> r.disk.temp == d.temp || r.disk.temp.Missing?)
  {
    hide Written, LoadNode;
    WrittenStores(m);
  }

  /** The last rename was refused and so was putting the old file back. */
  predicate LeftAside(d: Disk, f: Faults) {
    && f.prepare.Proceed? && f.create.Proceed? && f.write.Proceed? && !d.backup.NotAFile?
    && (d.backup.IsFile() ==> f.dropBackup.Proceed?) && f.moveAside.Proceed?
    && f.install.Refuse? && f.rollback.Refuse?
  }

  /** A persist that fails puts the old file back in its place, unless that is refused as well. */
  lemma FailureRestores(d: Disk, m: Records, f: Faults)
    requires ValidLedger(m) && d.primary.IsFile()
    ensures var r := PersistTo(d, m, f);
            r.outcome.Returned? && r.outcome.error.Some? ==>
              if LeftAside(d, f) then OnlyBackup(r.disk) && r.disk.backup == d.primary
              else r.disk.primary == d.primary
  {
    hide Written, LoadNode;
    WrittenStores(m);
  }

  /** The two files and the temporary file of the ledger, changed in place one operation at a time. */
  class LedgerFiles {
    var primary: Node
    var backup: Node
    var temp: Node

    ghost function State(): Disk
      reads this
    {
      Disk(primary, backup, temp)
    }

    constructor (d: Disk)
      ensures State() == d
    {
      primary, backup, temp := d.primary, d.backup, d.temp;
    }

    method Load(readable: bool) returns (r: Result<Records, LedgerError>)
      ensures r == LoadFrom(State(), readable)
    {
      hide ValidRecord;
      var source;
      if primary.IsFile() {
        source := primary;
      } else if primary.Missing? && backup.IsFile() {
        source := backup;
      } else if primary.Missing? && backup.Missing? {
        return Ok(map[]);
      } else {
        return Err(Invalid);
      }
      if !readable {
        return Err(Io);
      }
      if source.size == 0 || source.size > MAXIMUM_DISPATCH_LEDGER_BYTES || source.Unparsable? {
        return Err(Invalid);
      }
      if source.version != DISPATCH_LEDGER_FILE_VERSION || |source.records| > MAXIMUM_DISPATCH_RECORDS {
        return Err(Invalid);
      }
      var records: Records := map[];
      for i := 0 to |source.records|
        invariant Collect(map[], source.records) == Collect(records, source.records[i..])
      {
        var record := source.records[i];
        assert source.records[i..][1..] == source.records[i + 1..];
        if !ValidRecord(record) || record.dispatchId in records {
          return Err(Invalid);
        }
        records := records[record.dispatchId := record];
      }
      r := Ok(records);
    }

    /** `persist`, operation by operation. */
    method Persist(m: Records, f: Faults) returns (outcome: Outcome)
      modifies this
      ensures PersistResult(State(), outcome) == PersistTo(old(State()), m, f)
    {
      outcome := PersistInOrder(Written(m), f);
      if f.finish.Crash? {
        outcome := Crashed;
      }
    }

    method PersistInOrder(body: Node, f: Faults) returns (outcome: Outcome)
      requires body.IsFile()
      modifies this
      ensures PersistResult(State(), outcome) == PersistSteps(old(State()), body, f)
    {
      if !f.prepare.Proceed? {
        return if f.prepare.Crash? then Crashed else Returned(Some(Io));
      }
      if primary.NotAFile? || body.size > MAXIMUM_DISPATCH_LEDGER_BYTES {
        return Returned(Some(Invalid));
      }
      if f.create.Crash? {
        return Crashed;
      }
      if f.create.Proceed? {
        temp := Unparsable(0);
        if f.write.Crash? {
          return Crashed;
        }
      }
      if !f.create.Proceed? || !f.write.Proceed? {
        temp := Missing;
        return Returned(Some(Io));
      }
      temp := body;
      if !backup.Missing? {
        if !backup.IsFile() {
          temp := Missing;
          return Returned(Some(Invalid));
        }
        if f.dropBackup.Crash? {
          return Crashed;
        }
        if f.dropBackup.Refuse? {
          temp := Missing;
          return Returned(Some(Io));
        }
        backup := Missing;
      }
      if !primary.Missing? {
        if f.moveAside.Crash? {
          return Crashed;
        }
        if f.moveAside.Refuse? {
          temp := Missing;
          return Returned(Some(Io));
        }
        backup := primary;
        primary := Missing;
      }
      outcome := RenameIntoPlace(f);
    }

    method RenameIntoPlace(f: Faults) returns (outcome: Outcome)
      modifies this
      ensures PersistResult(State(), outcome) == Install(old(State()), f)
    {
      if f.install.Crash? {
        return Crashed;
      }
      if f.install.Proceed? {
        primary := temp;
        temp := Missing;
        return Returned(None);
      }
      if primary.Missing? && backup.IsFile() {
        if f.rollback.Crash? {
          return Crashed;
        }
        if f.rollback.Proceed? {
          primary := backup;
          backup := Missing;
        }
      }
      temp := Missing;
      outcome := Returned(Some(Io));
    }
  }
}
