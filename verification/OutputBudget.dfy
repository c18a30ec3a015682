/**
 The output budget shared by the two reader threads of one command. Every atomic access is a step of its
 own, so a run is any interleaving of the two loops of `capture_bounded`.
 */
module OutputBudget {
  import opened Strings

  const USIZE_MAX := 0xFFFF_FFFF_FFFF_FFFF
  const BUFFER_BYTES := 8 * 1024

  function Min(a: nat, b: nat): nat {
    if a <= b then a else b
  }

  function SaturatingAdd(a: nat, b: nat): nat {
    Min(a + b, USIZE_MAX)
  }

  function SaturatingSub(a: nat, b: nat): nat {
    if b <= a then a - b else 0
  }

  /** Where a reader stands in its loop. */
  datatype Pc =
    | Reading                                       // before `read`
    | HasRead(chunk: seq<byte>)                     // before `fetch_update`
    | HasReserved(chunk: seq<byte>, previous: nat)  // before extending `captured`
    | HasKept(truncated: bool)                      // before storing `exceeded`
    | Finished
    | Broken                                        // `read` failed

  /** `produced` is everything the stream has delivered so far; the program itself does not keep it. */
  datatype Reader = Reader(pc: Pc, produced: seq<byte>, captured: seq<byte>)

  datatype System = System(limit: nat, used: nat, exceeded: bool, out: Reader, err: Reader)

  datatype Delivery = Data(chunk: seq<byte>) | EndOfStream | ReadError

  /** `Budget` of the shared state that one step of a reader sees and leaves. */
  datatype Shared = Shared(used: nat, exceeded: bool)

  function Retained(limit: nat, previous: nat, count: nat): nat {
    Min(SaturatingSub(limit, previous), count)
  }

  function Reserve(limit: nat, used: nat, count: nat): nat {
    Min(SaturatingAdd(used, count), SaturatingAdd(limit, 1))
  }

  predicate CanDeliver(d: Delivery) {
    d.Data? ==> 0 < |d.chunk| <= BUFFER_BYTES
  }

  /** One step of a reader. */
  function ReaderStep(limit: nat, shared: Shared, r: Reader, d: Delivery): (Shared, Reader) {
    match r.pc
    case Reading =>
      (match d
       case Data(chunk) => (shared, r.(pc := HasRead(chunk), produced := r.produced + chunk))
       case EndOfStream => (shared, r.(pc := Finished))
       case ReadError => (shared, r.(pc := Broken)))
    case HasRead(chunk) =>
      (shared.(used := Reserve(limit, shared.used, |chunk|)), r.(pc := HasReserved(chunk, shared.used)))
    case HasReserved(chunk, previous) =>
      var retained := Retained(limit, previous, |chunk|);
      (shared, r.(pc := HasKept(retained < |chunk|), captured := r.captured + chunk[..retained]))
    case HasKept(truncated) =>
      (shared.(exceeded := shared.exceeded || truncated), r.(pc := Reading))
    case _ => (shared, r)
  }

  datatype Turn = Turn(isOut: bool, delivery: Delivery)

  function Step(s: System, t: Turn): System {
    var shared := Shared(s.used, s.exceeded);
    if t.isOut then
      var (shared', out') := ReaderStep(s.limit, shared, s.out, t.delivery);
      s.(used := shared'.used, exceeded := shared'.exceeded, out := out')
    else
      var (shared', err') := ReaderStep(s.limit, shared, s.err, t.delivery);
      s.(used := shared'.used, exceeded := shared'.exceeded, err := err')
  }

  const IDLE := Reader(Reading, [], [])

  ghost predicate Run(states: seq<System>, turns: seq<Turn>) {
    && |states| == |turns| + 1
    && (exists limit: nat :: limit <= USIZE_MAX && states[0] == System(limit, 0, false, IDLE, IDLE))
    && forall k :: 0 <= k < |turns| ==> CanDeliver(turns[k].delivery) && Advances(states[k], turns[k], states[k + 1])
  }

  predicate Advances(s: System, t: Turn, s': System) {
    s' == Step(s, t)
  }

  // ---- The invariant ----

  /** Bytes a reader has read but not yet taken from the budget. */
  function Unreserved(r: Reader): nat {
    if r.pc.HasRead? then |r.pc.chunk| else 0
  }

  /** Bytes a reader may still append for the reservation it holds. */
  function Promised(limit: nat, r: Reader): seq<byte> {
    if r.pc.HasReserved? then r.pc.chunk[..Retained(limit, r.pc.previous, |r.pc.chunk|)] else []
  }

  /** A reader that found the budget short and has not yet said so. */
  predicate OwesFlag(limit: nat, r: Reader) {
    || (r.pc.HasReserved? && Retained(limit, r.pc.previous, |r.pc.chunk|) < |r.pc.chunk|)
    || (r.pc.HasKept? && r.pc.truncated)
  }

  predicate ReaderFits(limit: nat, total: nat, r: Reader) {
    var kept := r.captured + Promised(limit, r);
    && |kept| + Unreserved(r) <= |r.produced|
    && kept == r.produced[..|kept|]
    && (|kept| + Unreserved(r) < |r.produced| ==> total >= limit)
    && (r.pc.HasRead? ==> |r.produced| >= |r.pc.chunk| && r.pc.chunk == r.produced[|r.produced| - |r.pc.chunk|..])
  }

  /** All bytes taken from the budget by either reader. */
  function TotalReserved(s: System): int {
    |s.out.produced| + |s.err.produced| - Unreserved(s.out) - Unreserved(s.err)
  }

  predicate Accounted(s: System) {
    var total := TotalReserved(s);
    && s.limit <= USIZE_MAX && total >= 0
    && s.used == Min(total, SaturatingAdd(s.limit, 1))
    && ReaderFits(s.limit, total, s.out) && ReaderFits(s.limit, total, s.err)
    && |s.out.captured| + |Promised(s.limit, s.out)| + |s.err.captured| + |Promised(s.limit, s.err)|
       == Min(total, s.limit)
    && (s.exceeded || OwesFlag(s.limit, s.out) || OwesFlag(s.limit, s.err) <==> total > s.limit)
  }

  lemma FitsLonger(limit: nat, total: nat, more: nat, r: Reader)
    requires ReaderFits(limit, total, r) && total <= more
    ensures ReaderFits(limit, more, r)
  {}

  lemma ReserveIsExact(limit: nat, total: nat, count: nat)
    requires limit <= USIZE_MAX && count > 0
    ensures var used := Min(total, SaturatingAdd(limit, 1));
            && Reserve(limit, used, count) == Min(total + count, SaturatingAdd(limit, 1))
            && Min(total, limit) + Retained(limit, used, count) == Min(total + count, limit)
            && (Retained(limit, used, count) < count <==> total + count > limit)
            && (total >= limit ==> Retained(limit, used, count) == 0)
  {}

  /** `read` delivers bytes, ends, or fails. */
  lemma ReadKeepsAccounted(s: System, d: Delivery)
    requires Accounted(s) && CanDeliver(d) && s.out.pc.Reading?
    ensures Accounted(Step(s, Turn(true, d)))
  {
    hide Min, SaturatingAdd;
    var s' := Step(s, Turn(true, d));
    assert s'.err == s.err && s'.used == s.used && TotalReserved(s') == TotalReserved(s);
    if d.Data? {
      assert s'.out.produced[..|s.out.captured|] == s.out.produced[..|s.out.captured|];
    }
    assert ReaderFits(s.limit, TotalReserved(s), s'.out);
  }

  /** The one atomic update: the bytes are counted, and what may be kept of them is decided. */
  lemma ReserveKeepsAccounted(s: System, d: Delivery)
    requires Accounted(s) && s.out.pc.HasRead? && s.out.pc.chunk != []
    ensures Accounted(Step(s, Turn(true, d)))
  {
    var chunk := s.out.pc.chunk;
    var total := TotalReserved(s);
    var s' := Step(s, Turn(true, d));
    ReserveIsExact(s.limit, total, |chunk|);
    FitsLonger(s.limit, total, total + |chunk|, s.err);
    ReservedFits(s.limit, total, s.used, s.out);
    assert TotalReserved(s') == total + |chunk| && s'.err == s.err;
    hide Reserve, SaturatingAdd, Retained, ReaderFits;
    assert |Promised(s.limit, s'.out)| == Retained(s.limit, s.used, |chunk|)
      by { RetainedBound(s.limit, s.used, |chunk|); }
  }

  lemma RetainedBound(limit: nat, previous: nat, count: nat)
    ensures Retained(limit, previous, count) <= count
  {}

  lemma ReservedFits(limit: nat, total: nat, used: nat, r: Reader)
    requires limit <= USIZE_MAX && used == Min(total, SaturatingAdd(limit, 1))
    requires ReaderFits(limit, total, r) && r.pc.HasRead? && r.pc.chunk != []
    ensures ReaderFits(limit, total + |r.pc.chunk|, r.(pc := HasReserved(r.pc.chunk, used)))
  {
    ReserveIsExact(limit, total, |r.pc.chunk|);
    var retained := Retained(limit, used, |r.pc.chunk|);
    var kept := r.captured + r.pc.chunk[..retained];
    if retained > 0 {
      assert |r.captured| + |r.pc.chunk| == |r.produced|;
      forall i | 0 <= i < |kept| ensures kept[i] == r.produced[i] {
        if i >= |r.captured| {
          assert r.produced[|r.produced| - |r.pc.chunk|..][i - |r.captured|] == r.produced[i];
        }
      }
    } else {
      assert kept == r.captured;
    }
  }

  /** Keeping the promised bytes and raising the flag only settle what was owed. */
  lemma SettleKeepsAccounted(s: System, d: Delivery)
    requires Accounted(s) && !s.out.pc.Reading? && !s.out.pc.HasRead?
    ensures Accounted(Step(s, Turn(true, d)))
  {
    hide Min, SaturatingAdd;
    var s' := Step(s, Turn(true, d));
    assert s'.err == s.err && s'.used == s.used && TotalReserved(s') == TotalReserved(s);
    assert s'.out.captured + Promised(s.limit, s'.out) == s.out.captured + Promised(s.limit, s.out);
  }

  lemma ReaderKeepsAccounted(s: System, d: Delivery)
    requires Accounted(s) && CanDeliver(d) && (s.out.pc.HasRead? ==> s.out.pc.chunk != [])
    ensures Accounted(Step(s, Turn(true, d)))
  {
    hide Accounted, Step;
    match s.out.pc
    case Reading => ReadKeepsAccounted(s, d);
    case HasRead(_) => ReserveKeepsAccounted(s, d);
    case _ => SettleKeepsAccounted(s, d);
  }

  function Mirror(s: System): System {
    s.(out := s.err, err := s.out)
  }

  lemma MirrorIsAccounted(s: System, d: Delivery)
    ensures Accounted(Mirror(s)) == Accounted(s)
    ensures Step(s, Turn(false, d)) == Mirror(Step(Mirror(s), Turn(true, d)))
  {
    hide ReaderFits, Promised, Min, OwesFlag;
  }

  predicate NoEmptyChunk(s: System) {
    (s.out.pc.HasRead? ==> s.out.pc.chunk != []) && (s.err.pc.HasRead? ==> s.err.pc.chunk != [])
  }

  lemma StepKeepsAccounted(s: System, t: Turn)
    requires Accounted(s) && NoEmptyChunk(s) && CanDeliver(t.delivery)
    ensures Accounted(Step(s, t)) && NoEmptyChunk(Step(s, t))
  {
    hide Accounted;
    if t.isOut {
      ReaderKeepsAccounted(s, t.delivery);
    } else {
      MirrorIsAccounted(s, t.delivery);
      ReaderKeepsAccounted(Mirror(s), t.delivery);
      MirrorIsAccounted(Step(Mirror(s), Turn(true, t.delivery)), t.delivery);
    }
  }

  lemma {:induction false} RunIsAccounted(states: seq<System>, turns: seq<Turn>, k: nat)
    requires Run(states, turns) && k <= |turns|
    ensures Accounted(states[k]) && NoEmptyChunk(states[k])
  {
    if k > 0 {
      hide Accounted, Step;
      RunIsAccounted(states, turns, k - 1);
      assert Advances(states[k - 1], turns[k - 1], states[k]);
      StepKeepsAccounted(states[k - 1], turns[k - 1]);
    }
  }

  // ---- What the readers hand over ----

  /**
   However the two readers interleave: the kept bytes are a prefix of each stream at every moment and never
   more than the limit; when both have finished they are exactly as many as the limit allows, and the flag
   says exactly whether anything was dropped.
   */
  lemma EveryInterleavingIsExact(states: seq<System>, turns: seq<Turn>, k: nat)
    requires Run(states, turns) && k <= |turns|
    ensures var s := states[k];
            && s.out.captured <= s.out.produced && s.err.captured <= s.err.produced
            && |s.out.captured| + |s.err.captured| <= s.limit
            && (s.exceeded ==> |s.out.produced| + |s.err.produced| > s.limit)
            && (s.out.pc.Finished? && s.err.pc.Finished? ==>
                  && |s.out.captured| + |s.err.captured| == Min(|s.out.produced| + |s.err.produced|, s.limit)
                  && (s.exceeded <==> |s.out.produced| + |s.err.produced| > s.limit))
  {
    RunIsAccounted(states, turns, k);
    var s := states[k];
    CapturedIsPrefix(s.limit, TotalReserved(s), s.out);
    CapturedIsPrefix(s.limit, TotalReserved(s), s.err);
  }

  lemma CapturedIsPrefix(limit: nat, total: nat, r: Reader)
    requires ReaderFits(limit, total, r)
    ensures r.captured <= r.produced
  {
    var kept := r.captured + Promised(limit, r);
    assert kept[..|r.captured|] == r.captured;
    assert r.produced[..|kept|][..|r.captured|] == r.produced[..|r.captured|];
  }

  // ---- The outcome of a command ----

  datatype Completion = Completed | TimedOut | OutputLimitExceeded

  /** The choice at the end of `run_child`. */
  function Complete(timedOut: bool, exceeded: bool): Completion {
    if timedOut then TimedOut else if exceeded then OutputLimitExceeded else Completed
  }

  predicate Succeeds(exitedWithSuccess: bool, completion: Completion) {
    exitedWithSuccess && completion.Completed?
  }

  /** Which of the three ways a command ended, told from what it wrote and whether it was stopped. */
  lemma CompletionExactly(states: seq<System>, turns: seq<Turn>, timedOut: bool)
    requires Run(states, turns)
    requires var s := states[|turns|]; s.out.pc.Finished? && s.err.pc.Finished?
    ensures var s := states[|turns|];
            var completion, total := Complete(timedOut, s.exceeded), |s.out.produced| + |s.err.produced|;
            && (completion == TimedOut <==> timedOut)
            && (completion == OutputLimitExceeded <==> !timedOut && total > s.limit)
            && (completion == Completed <==> !timedOut && total <= s.limit)
  {
    EveryInterleavingIsExact(states, turns, |turns|);
  }

  /** A command is reported as successful only when all of its output was kept. */
  lemma SuccessMeansWholeOutput(states: seq<System>, turns: seq<Turn>, exitedWithSuccess: bool, timedOut: bool)
    requires Run(states, turns)
    requires var s := states[|turns|]; s.out.pc.Finished? && s.err.pc.Finished?
    ensures var s := states[|turns|];
            Succeeds(exitedWithSuccess, Complete(timedOut, s.exceeded)) <==>
              exitedWithSuccess && !timedOut && s.out.captured == s.out.produced && s.err.captured == s.err.produced
  {
    EveryInterleavingIsExact(states, turns, |turns|);
  }
}
