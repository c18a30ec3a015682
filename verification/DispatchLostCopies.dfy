/**
 Why runs must keep a copy: what happens to a ledger whose only copy is the backup, from one crash in the
 wrong place to a dispatch that is started twice.
 */
module DispatchLostCopies {
  import opened Outcomes
  import opened Collections
  import opened Strings
  import opened DispatchRecords
  import opened DispatchFiles
  import opened DispatchLedger
  import opened DispatchRuns

  const SMOOTH := Faults(Proceed, Proceed, Proceed, Proceed, Proceed, Proceed, Proceed, Proceed)
  const CUT := SMOOTH.(install := Crash)

  lemma SmoothPersist(d: Disk, m: Records)
    requires ValidLedger(m) && !d.primary.NotAFile? && !d.backup.NotAFile?
    ensures var r := PersistTo(d, m, SMOOTH);
            && r.outcome == Returned(None) && r.disk.primary.IsFile()
            && LoadFrom(r.disk, true) == Ok(m) && !r.disk.backup.NotAFile?
  {
    hide Written, LoadNode;
    WrittenStores(m);
  }

  lemma CutPersist(d: Disk, m: Records)
    requires ValidLedger(m) && d.primary.IsFile() && !d.backup.NotAFile?
    ensures var r := PersistTo(d, m, CUT);
            && r.outcome == Crashed && OnlyBackup(r.disk) && r.disk.backup == d.primary
  {
    hide Written, LoadNode;
    WrittenStores(m);
  }

  lemma SecondCut(d: Disk, m: Records)
    requires ValidLedger(m) && OnlyBackup(d)
    ensures var r := PersistTo(d, m, CUT);
            && r.outcome == Crashed && LoadFrom(r.disk, true) == Ok(map[])
            && r.disk.primary.Missing? && r.disk.backup.Missing?
  {
    hide Written, LoadNode;
    WrittenStores(m);
  }

  predicate Fresh(r: Record) {
    ValidRecord(r) && r.state.Prepared?
  }

  lemma FreshBegin(s: System, r: Record, f: Faults)
    requires s.Running? && Keyed(s.memory.records) && |s.memory.records| < 2 && s.memory.active <= s.memory.records.Keys
    requires Fresh(r) && r.dispatchId !in s.memory.records
    ensures var next := s.memory.records[r.dispatchId := r];
            var p := PersistTo(s.disk, next, f);
            && ValidLedger(next)
            && (p.outcome == Returned(None) ==> Reserves(s, Begin(r, f), r.dispatchId))
            && (p.outcome == Returned(None) ==>
                  Apply(s, Begin(r, f)) == Running(Memory(next, s.memory.active + {r.dispatchId}), p.disk))
            && (p.outcome == Crashed ==> Apply(s, Begin(r, f)) == Stopped(p.disk))
    ensures forall id :: !PrunesTerminal(s, Begin(r, f), id)
  {
    hide PersistTo, ValidRecord;
  }

  /** One step of the witness run: `id` is not pruned, and a copy of the ledger is kept or not as told. */
  predicate WitnessStep(s: System, c: Call, s': System, id: string, keeps: bool) {
    && (s.Running? ==> Keyed(s.memory.records))
    && s' == Apply(s, c) && !PrunesTerminal(s, c, id) && (KeepsACopy(s, c) <==> keeps)
  }

  /** One crash between the two renames leaves the backup as the only copy, and a restart reads it. */
  lemma CutThenReopen(s: System, y: Record)
    requires s.Running? && Keyed(s.memory.records) && |s.memory.records| < 2 && s.memory.active <= s.memory.records.Keys
    requires Fresh(y) && y.dispatchId !in s.memory.records
    requires s.disk.primary.IsFile() && !s.disk.backup.NotAFile? && LoadFrom(s.disk, true) == Ok(s.memory.records)
    ensures var dead := Apply(s, Begin(y, CUT));
            && WitnessStep(s, Begin(y, CUT), dead, y.dispatchId, true)
            && (forall id :: !PrunesTerminal(s, Begin(y, CUT), id))
            && dead.Stopped? && OnlyBackup(dead.disk)
            && Apply(dead, Reopen(true)) == Running(Memory(s.memory.records, {}), dead.disk)
  {
    hide PersistTo, LoadNode, ValidRecord, Reserves, PrunesTerminal, BeginLedger, Keyed;
    FreshBegin(s, y, CUT);
    CutPersist(s.disk, s.memory.records[y.dispatchId := y]);
  }

  /** A second crash at the same place, before any persist succeeds, loses it. */
  lemma SecondCutThenReopen(s: System, z: Record)
    requires s.Running? && Keyed(s.memory.records) && |s.memory.records| < 2 && s.memory.active <= s.memory.records.Keys
    requires Fresh(z) && z.dispatchId !in s.memory.records && OnlyBackup(s.disk)
    ensures var dead := Apply(s, Begin(z, CUT));
            && !KeepsACopy(s, Begin(z, CUT)) && (forall id :: !PrunesTerminal(s, Begin(z, CUT), id))
            && dead.Stopped? && dead.disk.primary.Missing? && dead.disk.backup.Missing?
            && Apply(dead, Reopen(true)) == Running(Memory(map[], {}), dead.disk)
  {
    hide PersistTo, LoadNode, ValidRecord, Reserves, PrunesTerminal, BeginLedger, Keyed;
    FreshBegin(s, z, CUT);
    SecondCut(s.disk, s.memory.records[z.dispatchId := z]);
  }

  lemma SmoothBegin(s: System, x: Record)
    requires s.Running? && s.memory == Memory(map[], {}) && s.disk.primary.Missing? && s.disk.backup.Missing?
    requires Fresh(x)
    ensures var next := Apply(s, Begin(x, SMOOTH));
            && WitnessStep(s, Begin(x, SMOOTH), next, x.dispatchId, true) && Reserves(s, Begin(x, SMOOTH), x.dispatchId)
            && next.Running? && next.memory == Memory(map[x.dispatchId := x], {x.dispatchId})
            && next.disk.primary.IsFile() && !next.disk.backup.NotAFile?
            && LoadFrom(next.disk, true) == Ok(next.memory.records)
  {
    hide PersistTo, LoadNode, ValidRecord, Reserves, PrunesTerminal, BeginLedger;
    FreshBegin(s, x, SMOOTH);
    var empty: Records := map[];
    assert map[x.dispatchId := x] == empty[x.dispatchId := x];
    SmoothPersist(s.disk, empty[x.dispatchId := x]);
  }

  /** What the program holds when all of it is the one dispatch `r` that it works on, on a disk in good order. */
  ghost predicate WorksOn(s: System, r: Record) {
    && s.Running? && s.memory == Memory(map[r.dispatchId := r], {r.dispatchId}) && Keyed(s.memory.records)
    && s.disk.primary.IsFile() && !s.disk.backup.NotAFile?
    && LoadFrom(s.disk, true) == Ok(s.memory.records)
  }

  function Started(x: Record): Record {
    x.(state := ExternalStarted)
  }

  function Start(x: Record): Call {
    Transition(x.dispatchId, MarkExternalStarted, x.updatedAt, SMOOTH)
  }

  lemma SmoothStart(s: System, x: Record)
    requires Fresh(x) && WorksOn(s, x)
    ensures var next := Apply(s, Start(x));
            && WitnessStep(s, Start(x), next, x.dispatchId, true) && Starts(s, Start(x), x.dispatchId)
            && WorksOn(next, Started(x))
  {
    hide PersistTo, LoadFrom, ValidRecord, ValidTimestamp, ValidDispatchId;
    ValidParts(x);
    var id := x.dispatchId;
    MarkedIsValid(s.memory.records, id, MarkExternalStarted, x.updatedAt);
    assert Marked(s.memory.records, id, MarkExternalStarted, x.updatedAt) == map[id := Started(x)];
    SmoothPersist(s.disk, map[id := Started(x)]);
  }

  /** A reservation and a recorded start of `x`, one right after the other. */
  ghost predicate ReservesAndStarts(s: System, s': System, s'': System, x: Record) {
    && WitnessStep(s, Begin(x, SMOOTH), s', x.dispatchId, true) && Reserves(s, Begin(x, SMOOTH), x.dispatchId)
    && WitnessStep(s', Start(x), s'', x.dispatchId, true) && Starts(s', Start(x), x.dispatchId)
  }

  lemma EmptyReservesAndStarts(s: System, x: Record) returns (reserved: System, started: System)
    requires s.Running? && s.memory == Memory(map[], {}) && s.disk.primary.Missing? && s.disk.backup.Missing?
    requires Fresh(x)
    ensures ReservesAndStarts(s, reserved, started, x) && WorksOn(started, Started(x))
  {
    hide PersistTo, LoadFrom, ValidRecord, Reserves, Starts, BeginLedger, MarkLedger, PrunesTerminal;
    SmoothBegin(s, x);
    reserved := Apply(s, Begin(x, SMOOTH));
    SmoothStart(reserved, x);
    started := Apply(reserved, Start(x));
  }

  /** Two reservations and two recorded starts of `x`, which is never pruned. */
  ghost predicate StartsTwice(t: seq<System>, x: Record, y: Record, z: Record) {
    && |t| == 9 && t[0] == Running(Memory(map[], {}), Disk(Missing, Missing, Missing))
    && ReservesAndStarts(t[0], t[1], t[2], x)
    && WitnessStep(t[2], Begin(y, CUT), t[3], x.dispatchId, true)
    && WitnessStep(t[3], Reopen(true), t[4], x.dispatchId, true)
    && WitnessStep(t[4], Begin(z, CUT), t[5], x.dispatchId, false)
    && WitnessStep(t[5], Reopen(true), t[6], x.dispatchId, true)
    && ReservesAndStarts(t[6], t[7], t[8], x)
  }

  /**
   Two crashes in a row, each between the two renames of a persist, lose the ledger: the external turn of one
   dispatch is started twice although its record never reached an end and was never pruned.
   */
  lemma TwoCutsStartTwice(x: Record, y: Record, z: Record)
    requires Fresh(x) && Fresh(y) && Fresh(z)
    requires x.dispatchId != y.dispatchId && x.dispatchId != z.dispatchId
    ensures exists t :: StartsTwice(t, x, y, z)
  {
    hide PersistTo, LoadFrom, ValidRecord, Reserves, Starts, BeginLedger, Apply, LosesOnlyCopy, ReservesAndStarts;
    var s0 := Running(Memory(map[], {}), Disk(Missing, Missing, Missing));
    var s1, s2 := EmptyReservesAndStarts(s0, x);
    CutThenReopen(s2, y);
    var s3 := Apply(s2, Begin(y, CUT));
    var s4 := Apply(s3, Reopen(true));
    SecondCutThenReopen(s4, z);
    var s5 := Apply(s4, Begin(z, CUT));
    var s6 := Apply(s5, Reopen(true));
    var s7, s8 := EmptyReservesAndStarts(s6, x);
    assert StartsTwice([s0, s1, s2, s3, s4, s5, s6, s7, s8], x, y, z);
  }

  /** Such dispatches exist. */
  lemma FreshRecordsExist()
    ensures exists x, y, z ::
              && Fresh(x) && Fresh(y) && Fresh(z)
              && x.dispatchId != y.dispatchId && x.dispatchId != z.dispatchId
  {
    var x := Sample("a");
    var y := Sample("b");
    SampleIsFresh("a");
    SampleIsFresh("b");
    assert x.dispatchId[13] == 'a' && y.dispatchId[13] == 'b';
  }

  function Sample(source: string): Record {
    Record(DispatchIdOf(source, "c"), "r", source, "c", "m", Prepared, "t")
  }

  predicate Plain(s: string) {
    0 < |s| <= 2 && forall i :: 0 <= i < |s| ==> IsAsciiAlphanumeric(s[i])
  }

  lemma PlainIsEntity(s: string)
    requires Plain(s)
    ensures ValidEntityId(s) && ValidTimestamp(s)
  {
    EncodeAscii(s);
  }

  lemma PlainDispatchId(source: string)
    requires Plain(source)
    ensures ValidDispatchId(DispatchIdOf(source, "c"))
  {
    hide Encode;
    var id := DispatchIdOf(source, "c");
    assert forall c <- id :: IsAsciiAlphanumeric(c) || c in "-_:";
    assert Ascii(id);
    EncodeAscii(id);
  }

  lemma SampleIsFresh(source: string)
    requires Plain(source)
    ensures Fresh(Sample(source))
  {
    hide ValidEntityId, ValidTimestamp, ValidDispatchId, DispatchIdOf;
    PlainIsEntity(source);
    PlainIsEntity("c");
    PlainIsEntity("r");
    PlainIsEntity("m");
    PlainIsEntity("t");
    PlainDispatchId(source);
  }

  // ---- There is always another dispatch ----

  /** The names `aa`, `ab` and so on. */
  function Name(i: nat): string
    requires i < 676
  {
    ['a' + (i / 26) as char, 'a' + (i % 26) as char]
  }

  function NameIds(n: nat): set<string>
    requires n <= 676
  {
    if n == 0 then {} else NameIds(n - 1) + {Sample(Name(n - 1)).dispatchId}
  }

  lemma NamesDiffer(i: nat, j: nat)
    requires i < j < 676
    ensures Sample(Name(i)).dispatchId != Sample(Name(j)).dispatchId
  {
    var a, b := Sample(Name(i)).dispatchId, Sample(Name(j)).dispatchId;
    assert a[13] == Name(i)[0] && a[14] == Name(i)[1];
    assert b[13] == Name(j)[0] && b[14] == Name(j)[1];
  }

  lemma {:induction false} NameIdHasName(n: nat, id: string) returns (i: nat)
    requires n <= 676 && id in NameIds(n)
    ensures i < n && id == Sample(Name(i)).dispatchId
  {
    hide Sample, Name;
    if id == Sample(Name(n - 1)).dispatchId {
      i := n - 1;
    } else {
      i := NameIdHasName(n - 1, id);
    }
  }

  lemma {:induction false} NameIdsCount(n: nat)
    requires n <= 676
    ensures |NameIds(n)| == n
  {
    hide Sample, Name;
    if n > 0 {
      NameIdsCount(n - 1);
      var last := Sample(Name(n - 1)).dispatchId;
      if last in NameIds(n - 1) {
        var i := NameIdHasName(n - 1, last);
        NamesDiffer(i, n - 1);
        assert false;
      }
    }
  }

  lemma AnotherDispatch(m: Records) returns (z: Record)
    requires |m| <= MAXIMUM_DISPATCH_RECORDS
    ensures Fresh(z) && z.dispatchId !in m
  {
    hide Sample, Name;
    var n := MAXIMUM_DISPATCH_RECORDS + 1;
    NameIdsCount(n);
    if NameIds(n) <= m.Keys {
      SubsetSize(NameIds(n), m.Keys);
      assert false;
    }
    var id :| id in NameIds(n) && id !in m.Keys;
    var i := NameIdHasName(n, id);
    NameIsPlain(i);
    SampleIsFresh(Name(i));
    z := Sample(Name(i));
  }

  lemma NameIsPlain(i: nat)
    requires i < 676
    ensures Plain(Name(i))
  {}

  // ---- Exactly when an unfinished dispatch can be reserved and started again ----

  /** The ledger is full of unfinished dispatches and none of them is being worked on: nothing can be written. */
  ghost predicate Stuck(s: System) {
    var stored := LoadFrom(s.disk, true);
    && stored.Ok? && |stored.value| == MAXIMUM_DISPATCH_RECORDS
    && (forall id <- stored.value :: !stored.value[id].state.Terminal())
    && (s.Running? ==> s.memory.records == stored.value && s.memory.active == {})
  }

  /** A step of any run, whether or not it keeps a copy, that does not prune `id`. */
  ghost predicate Steps(s: System, c: Call, s': System, id: string) {
    (s.Running? ==> Keyed(s.memory.records)) && s' == Apply(s, c) && !PrunesTerminal(s, c, id)
  }

  ghost predicate Continues(states: seq<System>, calls: seq<Call>, s: System, id: string) {
    && |states| == |calls| + 1 && states[0] == s
    && forall k :: 0 <= k < |calls| ==> Steps(states[k], calls[k], states[k + 1], id)
  }

  ghost predicate ReservesLast(states: seq<System>, calls: seq<Call>, s: System, id: string) {
    && Continues(states, calls, s, id)
    && calls != []
    && var n := |calls| - 1;
       (states[n].Running? ==> Keyed(states[n].memory.records)) && Reserves(states[n], calls[n], id)
  }

  ghost predicate StartsLast(states: seq<System>, calls: seq<Call>, s: System, id: string) {
    && Continues(states, calls, s, id)
    && calls != []
    && var n := |calls| - 1;
       (states[n].Running? ==> Keyed(states[n].memory.records)) && Starts(states[n], calls[n], id)
  }

  /** Some continuation starts the external turn of `id` although it is never pruned. */
  ghost predicate StartedAgain(s: System, id: string) {
    exists states, calls :: StartsLast(states, calls, s, id)
  }

  /** Some continuation reserves `id` although it is never pruned. */
  ghost predicate ReservedAgain(s: System, id: string) {
    exists states, calls :: ReservesLast(states, calls, s, id)
  }

  lemma StuckStays(s: System, c: Call, id: string)
    requires Stuck(s) && (s.Running? ==> Keyed(s.memory.records))
    ensures Stuck(Apply(s, c)) && !Reserves(s, c, id) && !Starts(s, c, id)
  {
    hide PersistTo, LoadFrom, ValidRecord;
    match c
    case Reopen(readable) =>
      if LoadFrom(s.disk, readable).Ok? { ReadableLoads(s.disk, readable); }
    case Begin(request, f) =>
    case Transition(_, _, _, _) =>
    case FinishUnknown(_) =>
  }

  lemma {:induction false} StuckForever(states: seq<System>, calls: seq<Call>, s: System, id: string, k: nat)
    requires Stuck(s) && Continues(states, calls, s, id) && k <= |calls|
    ensures Stuck(states[k])
  {
    hide Stuck, Apply, PrunesTerminal;
    if k > 0 {
      StuckForever(states, calls, s, id, k - 1);
      assert Steps(states[k - 1], calls[k - 1], states[k - 1 + 1], id);
      StuckStays(states[k - 1], calls[k - 1], id);
    }
  }

  /** The process has died and left no file behind. */
  predicate LostAll(s: System) {
    s.Stopped? && s.disk.primary.Missing? && s.disk.backup.Missing?
  }

  /** From a lost ledger, any dispatch is reserved and started after a restart. */
  lemma StartsAfterLoss(s: System, x: Record) returns (empty: System, reserved: System, started: System)
    requires LostAll(s) && Fresh(x)
    ensures Steps(s, Reopen(true), empty, x.dispatchId)
    ensures Steps(empty, Begin(x, SMOOTH), reserved, x.dispatchId) && Steps(reserved, Start(x), started, x.dispatchId)
    ensures (empty.Running? ==> Keyed(empty.memory.records)) && Reserves(empty, Begin(x, SMOOTH), x.dispatchId)
    ensures (reserved.Running? ==> Keyed(reserved.memory.records)) && Starts(reserved, Start(x), x.dispatchId)
  {
    hide PersistTo, LoadNode, ValidRecord, Reserves, Starts, PrunesTerminal, BeginLedger, MarkLedger, WorksOn;
    empty := Running(Memory(map[], {}), s.disk);
    reserved, started := EmptyReservesAndStarts(empty, x);
    NothingPruned(s, Reopen(true), x.dispatchId);
  }

  lemma NothingPruned(s: System, c: Call, id: string)
    requires !c.Begin? && (s.Running? ==> Keyed(s.memory.records))
    ensures !PrunesTerminal(s, c, id)
  {}

  /** A process that still works on something loses the only copy by writing that down. */
  lemma MarkLosesAll(s: System, id: string) returns (c: Call, lost: System)
    requires s.Running? && Consistent(s) && OnlyBackup(s.disk) && s.memory.active != {}
    ensures Steps(s, c, lost, id) && LostAll(lost)
  {
    hide PersistTo, LoadFrom, ValidRecord, ValidTimestamp, ValidDispatchId;
    var a :| a in s.memory.active;
    var record := s.memory.records[a];
    var mark := if record.state.Prepared? then MarkExternalStarted else MarkCompleted;
    c := Transition(a, mark, record.updatedAt, CUT);
    ValidParts(record);
    KeysBound(s.memory.records, LoadFrom(s.disk, true).value);
    MarkedIsValid(s.memory.records, a, mark, record.updatedAt);
    SecondCut(s.disk, Marked(s.memory.records, a, mark, record.updatedAt));
    lost := Apply(s, c);
  }

  lemma ValidParts(r: Record)
    requires ValidRecord(r)
    ensures ValidDispatchId(r.dispatchId) && ValidTimestamp(r.updatedAt)
  {}

  /** A restarted process loses the only copy by reserving another dispatch, if it has room for one. */
  lemma BeginLosesAll(s: System, id: string) returns (c: Call, lost: System)
    requires Consistent(s) && OnlyBackup(s.disk) && s.Running? && s.memory.records == LoadFrom(s.disk, true).value
    requires s.memory.active == {} && !Stuck(s)
    requires id in s.memory.records && !s.memory.records[id].state.Terminal()
    ensures Steps(s, c, lost, id) && LostAll(lost)
  {
    hide PersistTo, LoadFrom, ValidRecord;
    var records := s.memory.records;
    var z := AnotherDispatch(records);
    c := Begin(z, CUT);
    PruneKeepsMatch(s.memory, records);
    PruneShrinks(records);
    PreparedIsValid(z);
    assert |Prune(records)| < MAXIMUM_DISPATCH_RECORDS by { RoomWhenNotStuck(records); }
    SecondCut(s.disk, Prune(records)[z.dispatchId := z]);
    lost := Apply(s, c);
  }

  lemma RoomWhenNotStuck(m: Records)
    requires ValidLedger(m)
    requires |m| < MAXIMUM_DISPATCH_RECORDS || exists id <- m :: m[id].state.Terminal()
    ensures |Prune(m)| < MAXIMUM_DISPATCH_RECORDS
  {
    hide ValidRecord;
  }

  /**
   The converse of `ReservedOnce`: once the backup is the only copy, every unfinished dispatch can be reserved
   again, by another crash in the same place, unless the ledger is stuck. Then nothing is ever reserved.
   */
  lemma ReservedAgainExactly(s: System, id: string)
    requires Consistent(s) && OnlyBackup(s.disk)
    requires var stored := LoadFrom(s.disk, true).value; id in stored && !stored[id].state.Terminal()
    ensures ReservedAgain(s, id) <==> !Stuck(s)
  {
    hide Consistent, LoadFrom, Stuck, OnlyBackup, ReservedAgain, StartedAgain;
    if Stuck(s) { StuckDoesNothing(s, id); } else { UnstuckDoesAgain(s, id); }
  }

  /**
   The converse of `StartedOnce`, and so of the promise itself: then its external turn can be started too,
   even if it is recorded as started already.
   */
  lemma StartedAgainExactly(s: System, id: string)
    requires Consistent(s) && OnlyBackup(s.disk)
    requires var stored := LoadFrom(s.disk, true).value; id in stored && !stored[id].state.Terminal()
    ensures StartedAgain(s, id) <==> !Stuck(s)
  {
    hide Consistent, LoadFrom, Stuck, OnlyBackup, ReservedAgain, StartedAgain;
    if Stuck(s) { StuckDoesNothing(s, id); } else { UnstuckDoesAgain(s, id); }
  }

  lemma UnstuckDoesAgain(s: System, id: string)
    requires Consistent(s) && OnlyBackup(s.disk) && !Stuck(s)
    requires var stored := LoadFrom(s.disk, true).value; id in stored && !stored[id].state.Terminal()
    ensures ReservedAgain(s, id) && StartedAgain(s, id)
  {
    hide Consistent, LoadFrom, OnlyBackup, ReservedAgain, StartedAgain, Steps, LostAll, Stuck;
    if s.Running? && s.memory.active != {} {
      var c, lost := MarkLosesAll(s, id);
      AgainAfterLoss(s, [s], [], c, lost, id);
    } else {
      var t := ReopensUnstuck(s, id);
      var c, lost := BeginLosesAll(t, id);
      assert Steps(s, Reopen(true), [s, t][1], id);
      AgainAfterLoss(s, [s, t], [Reopen(true)], c, lost, id);
    }
  }

  lemma StuckDoesNothing(s: System, id: string)
    requires Stuck(s)
    ensures !ReservedAgain(s, id) && !StartedAgain(s, id)
  {
    hide Stuck, Apply, PrunesTerminal, Reserves, Starts;
    forall states, calls | ReservesLast(states, calls, s, id) ensures false {
      var n := |calls| - 1;
      StuckForever(states, calls, s, id, n);
      StuckStays(states[n], calls[n], id);
    }
    forall states, calls | StartsLast(states, calls, s, id) ensures false {
      var n := |calls| - 1;
      StuckForever(states, calls, s, id, n);
      StuckStays(states[n], calls[n], id);
    }
  }

  /** A restart of a process that does nothing changes nothing about whether it is stuck. */
  lemma ReopensUnstuck(s: System, id: string) returns (t: System)
    requires Consistent(s) && !Stuck(s) && (s.Running? ==> s.memory.active == {})
    ensures t == Running(Memory(LoadFrom(s.disk, true).value, {}), s.disk)
    ensures Consistent(t) && !Stuck(t) && Steps(s, Reopen(true), t, id)
  {
    hide LoadFrom, ValidRecord;
    ReopenKeepsConsistent(s, true);
    NothingPruned(s, Reopen(true), id);
    t := Apply(s, Reopen(true));
    if s.Running? && forall x <- LoadFrom(s.disk, true).value :: !LoadFrom(s.disk, true).value[x].state.Terminal() {
      assert s.memory.records == LoadFrom(s.disk, true).value;
    }
  }

  lemma AgainAfterLoss(s: System, states: seq<System>, calls: seq<Call>, c: Call, lost: System, id: string)
    requires Consistent(s) && id in LoadFrom(s.disk, true).value
    requires Continues(states, calls, s, id) && Steps(states[|states| - 1], c, lost, id) && LostAll(lost)
    ensures ReservedAgain(s, id) && StartedAgain(s, id)
  {
    hide LoadFrom, Consistent, PrunesTerminal, Reserves, Starts, Fresh, Apply, LostAll, Steps;
    var x := FreshAgain(s, id);
    var empty, reserved, started := StartsAfterLoss(lost, x);
    var begun := [c, Reopen(true), Begin(x, SMOOTH)];
    ExtendsRun(states, calls, s, id, begun, [lost, empty, reserved]);
    LastCallReserves(s, states + [lost, empty, reserved], calls + begun, empty, x);
    ExtendsRun(states, calls, s, id, begun + [Start(x)], [lost, empty, reserved, started]);
    LastCallStarts(s, states + [lost, empty, reserved, started], calls + (begun + [Start(x)]), reserved, x);
  }

  lemma LastCallReserves(s: System, states: seq<System>, calls: seq<Call>, before: System, x: Record)
    requires Continues(states, calls, s, x.dispatchId) && calls != []
    requires states[|calls| - 1] == before && calls[|calls| - 1] == Begin(x, SMOOTH)
    requires (before.Running? ==> Keyed(before.memory.records)) && Reserves(before, Begin(x, SMOOTH), x.dispatchId)
    ensures ReservedAgain(s, x.dispatchId)
  {
    hide Reserves, Continues, Keyed;
    assert ReservesLast(states, calls, s, x.dispatchId);
  }

  lemma LastCallStarts(s: System, states: seq<System>, calls: seq<Call>, before: System, x: Record)
    requires Continues(states, calls, s, x.dispatchId) && calls != []
    requires states[|calls| - 1] == before && calls[|calls| - 1] == Start(x)
    requires (before.Running? ==> Keyed(before.memory.records)) && Starts(before, Start(x), x.dispatchId)
    ensures StartedAgain(s, x.dispatchId)
  {
    hide Starts, Continues, Keyed;
    assert StartsLast(states, calls, s, x.dispatchId);
  }

  lemma FreshAgain(s: System, id: string) returns (x: Record)
    requires Consistent(s) && id in LoadFrom(s.disk, true).value
    ensures Fresh(x) && x.dispatchId == id
  {
    hide LoadFrom, ValidRecord;
    LoadedIsValid(s.disk, true);
    x := LoadFrom(s.disk, true).value[id].(state := Prepared);
    PreparedIsValid(LoadFrom(s.disk, true).value[id]);
  }

  lemma ExtendsRun(
    states: seq<System>, calls: seq<Call>, s: System, id: string, more: seq<Call>, later: seq<System>)
    requires Continues(states, calls, s, id) && |more| == |later|
    requires forall k :: 0 <= k < |more| ==> Steps(([states[|states| - 1]] + later)[k], more[k], later[k], id)
    ensures Continues(states + later, calls + more, s, id)
  {
    hide Steps;
    var all, done := states + later, calls + more;
    forall k | 0 <= k < |done| ensures Steps(all[k], done[k], all[k + 1], id) {
      if k < |calls| {
        assert Steps(states[k], calls[k], states[k + 1], id);
      } else {
        var j := k - |calls|;
        assert Steps(([states[|states| - 1]] + later)[j], more[j], later[j], id);
      }
    }
  }
}
