/**
 * Runs of the allocator: sequences of host calls applied one after the
 * other, the event each call produces, and the properties that hold of
 * every run.
 */
module Runs {
  import opened Usize
  import opened Lab

  /** One call from the host. The address argument of `dealloc` plays no part and is left out. */
  datatype Op =
    | InitOp(start: nat, size: nat)
    | AddMemoryOp(start: nat, size: nat)
    | AllocOp(layout: Layout)
    | DeallocOp(layout: Layout)

  /** What one call did. */
  datatype Event =
    | Configured
    | Probed
    | Refused
    | Aborted
    | Allocated(seg: Segment, byteRequest: bool, result: AllocResult)
    | Released(seg: Segment)

  /**
   * A call may be made in state `s`: its layout is a real `Layout`, a free
   * returns something the credited segment holds, and no assertion fires
   * (a panic halts the kernel, so nothing runs after one).
   */
  predicate Proceeds(s: State, op: Op) {
    match op
    case InitOp(_, _) => true
    case AddMemoryOp(_, _) => true
    case AllocOp(l) => l.Valid() && Path(s, l) != Overrun
    case DeallocOp(l) => s.Live(Target(s, l)) > 0
  }

  function Apply(s: State, op: Op): (State, Event)
    requires Proceeds(s, op)
  {
    match op
    case InitOp(start, size) => (Init(s, start, size), Configured)
    case AddMemoryOp(start, size) => (AddMemory(s, start, size), Configured)
    case AllocOp(l) =>
      var event := match Path(s, l)
        case Probe => Probed
        case OutOfHeap => Refused
        case Overrun => Aborted
        case Commit => Allocated(Target(s, l), l.align == 1, Alloc(s, l).result);
      (Alloc(s, l).state, event)
    case DeallocOp(l) => (Dealloc(s, l), Released(Target(s, l)))
  }

  /** Every call of `ops`, made in turn from `s`, may be made. */
  predicate Admissible(s: State, ops: seq<Op>)
    decreases |ops|
  {
    ops == [] || (Proceeds(s, ops[0]) && Admissible(Apply(s, ops[0]).0, ops[1..]))
  }

  datatype Trace = Trace(final: State, events: seq<Event>)

  /** The state after `ops` and the event of each call. */
  function Exec(s: State, ops: seq<Op>): (t: Trace)
    requires Admissible(s, ops)
    ensures |t.events| == |ops|
    decreases |ops|
  {
    if ops == [] then Trace(s, [])
    else
      var (s1, event) := Apply(s, ops[0]);
      var rest := Exec(s1, ops[1..]);
      Trace(rest.final, [event] + rest.events)
  }

  /** How many events of each kind a trace holds. */
  datatype Tally = Tally(probes: nat, byteAllocs: nat, allocsA: nat, allocsB: nat, releasesA: nat, releasesB: nat) {
    function Allocs(seg: Segment): nat {
      if seg == A then allocsA else allocsB
    }

    function Releases(seg: Segment): nat {
      if seg == A then releasesA else releasesB
    }

    function Add(e: Event): Tally {
      match e
      case Probed => this.(probes := probes + 1)
      case Allocated(seg, byteRequest, _) =>
        var t := if seg == A then this.(allocsA := allocsA + 1) else this.(allocsB := allocsB + 1);
        if byteRequest then t.(byteAllocs := byteAllocs + 1) else t
      case Released(seg) =>
        if seg == A then this.(releasesA := releasesA + 1) else this.(releasesB := releasesB + 1)
      case _ => this
    }
  }

  function Count(events: seq<Event>): Tally {
    if events == [] then Tally(0, 0, 0, 0, 0, 0) else Count(events[1..]).Add(events[0])
  }

  /**
   * The deliberate `NoMemory` of the bootstrap probe happens at most once
   * in any run, and never once the flag is set.
   */
  lemma {:induction false} ProbeAtMostOnce(s: State, ops: seq<Op>)
    requires Admissible(s, ops)
    ensures Count(Exec(s, ops).events).probes <= if s.itemsEvenAllocated then 0 else 1
    decreases |ops|
  {
    if ops != [] {
      var (s1, event) := Apply(s, ops[0]);
      ExecCons(s, ops);
      ProbeAtMostOnce(s1, ops[1..]);
      assert s.itemsEvenAllocated ==> s1.itemsEvenAllocated;
      assert event == Probed ==> !s.itemsEvenAllocated && s1.itemsEvenAllocated;
    }
  }

  /** The cycle counter is the number of committed byte requests so far, modulo 15. */
  lemma {:induction false} CounterCountsByteAllocs(s: State, ops: seq<Op>)
    requires s.Valid() && Admissible(s, ops)
    ensures Exec(s, ops).final.n == (s.n + Count(Exec(s, ops).events).byteAllocs) % CycleLength
    decreases |ops|
  {
    if ops != [] {
      var (s1, event) := Apply(s, ops[0]);
      ExecCons(s, ops);
      StepMovesCounter(s, ops[0]);
      CounterCountsByteAllocs(s1, ops[1..]);
      var events := Exec(s, ops).events;
      var k := Count(events[1..]).byteAllocs;
      if event.Allocated? && event.byteRequest {
        assert Count(events).byteAllocs == k + 1;
        ModuloShift(s.n + 1, k);
      } else {
        assert Count(events).byteAllocs == k;
      }
    }
  }

  /** One call advances the counter exactly when it commits a byte request. */
  lemma StepMovesCounter(s: State, op: Op)
    requires s.Valid() && Proceeds(s, op)
    ensures var (t, event) := Apply(s, op);
            && t.Valid()
            && t.n == if event.Allocated? && event.byteRequest then (s.n + 1) % CycleLength else s.n
  {
  }

  lemma ModuloShift(a: nat, k: nat)
    ensures (a % CycleLength + k) % CycleLength == (a + k) % CycleLength
  {
  }

  /** Every live allocation of a segment is one committed there and not yet credited back. */
  lemma {:induction false} LiveCountsBalance(s: State, ops: seq<Op>, seg: Segment)
    requires Admissible(s, ops)
    ensures Exec(s, ops).final.Live(seg) + Count(Exec(s, ops).events).Releases(seg)
            == s.Live(seg) + Count(Exec(s, ops).events).Allocs(seg)
    decreases |ops|
  {
    if ops != [] {
      var (s1, event) := Apply(s, ops[0]);
      ExecCons(s, ops);
      LiveCountsBalance(s1, ops[1..], seg);
    }
  }

  /** A run that ends with a `dealloc` leaves every empty segment reclaimed. */
  lemma {:induction false} EndingFreeReclaims(s: State, ops: seq<Op>, seg: Segment)
    requires Admissible(s, ops) && ops != [] && ops[|ops| - 1].DeallocOp?
    requires Exec(s, ops).final.Live(seg) == 0
    ensures Exec(s, ops).final.Cursor(seg) == Exec(s, ops).final.Base(seg)
    decreases |ops|
  {
    var s1 := Apply(s, ops[0]).0;
    if |ops| > 1 {
      assert ops[1..][|ops[1..]| - 1] == ops[|ops| - 1];
      EndingFreeReclaims(s1, ops[1..], seg);
    }
  }

  /**
   * A run that starts with both segments empty, frees in each segment as
   * many allocations as it commits there and ends with a free leaves both
   * segments empty, with their cursors back at their bases.
   */
  lemma BalancedRunReclaimsBothSegments(s: State, ops: seq<Op>)
    requires Admissible(s, ops) && ops != [] && ops[|ops| - 1].DeallocOp?
    requires s.Live(A) == 0 && s.Live(B) == 0
    requires Count(Exec(s, ops).events).Allocs(A) == Count(Exec(s, ops).events).Releases(A)
    requires Count(Exec(s, ops).events).Allocs(B) == Count(Exec(s, ops).events).Releases(B)
    ensures var t := Exec(s, ops).final;
            t.Live(A) == 0 && t.Live(B) == 0 && t.Cursor(A) == t.Base(A) && t.Cursor(B) == t.Base(B)
  {
    LiveCountsBalance(s, ops, A);
    LiveCountsBalance(s, ops, B);
    EndingFreeReclaims(s, ops, A);
    EndingFreeReclaims(s, ops, B);
  }

  /** Every call is an `alloc` with alignment 1. */
  predicate ByteRequests(ops: seq<Op>) {
    forall i :: 0 <= i < |ops| ==> ops[i].AllocOp? && ops[i].layout.align == 1
  }

  /** Every call commits an allocation. */
  predicate AllCommitted(events: seq<Event>) {
    forall i :: 0 <= i < |events| ==> events[i].Allocated?
  }

  /** The segment a committed byte request goes to at position `k` of the cycle. */
  function ParitySegment(k: nat): Segment {
    if k % CycleLength % 2 == 0 then A else B
  }

  /** The events are allocations whose segments follow the cycle from position `n0` on. */
  predicate Alternates(events: seq<Event>, n0: nat) {
    forall i :: 0 <= i < |events| ==> events[i].Allocated? && events[i].seg == ParitySegment(n0 + i)
  }

  /**
   * Committed byte requests alternate between the segments by the parity of
   * their position in the cycle, and each one advances the counter.
   */
  lemma {:induction false} ByteRequestsAlternate(s: State, ops: seq<Op>)
    requires s.Valid() && Admissible(s, ops) && ByteRequests(ops) && AllCommitted(Exec(s, ops).events)
    ensures Exec(s, ops).final.n == (s.n + |ops|) % CycleLength
    ensures Alternates(Exec(s, ops).events, s.n)
    decreases |ops|
  {
    if ops != [] {
      var s1 := Apply(s, ops[0]).0;
      var rest := ops[1..];
      ExecCons(s, ops);
      ByteRequestsTail(ops);
      AllCommittedTail(Exec(s, ops).events);
      ByteStep(s, ops[0]);
      ByteRequestsAlternate(s1, rest);
      ModuloShift(s.n + 1, |rest|);
      AlternatesCons(Exec(s, ops).events, s.n);
    }
  }

  /** A run of at least one call is its first call followed by the run of the others. */
  lemma ExecCons(s: State, ops: seq<Op>)
    requires Admissible(s, ops) && ops != []
    ensures var (s1, event) := Apply(s, ops[0]);
            && Admissible(s1, ops[1..])
            && Exec(s, ops).final == Exec(s1, ops[1..]).final
            && Exec(s, ops).events[0] == event
            && Exec(s, ops).events[1..] == Exec(s1, ops[1..]).events
  {
  }

  /** A committed byte request goes to the segment of the counter's parity and advances the counter. */
  lemma ByteStep(s: State, op: Op)
    requires s.Valid() && Proceeds(s, op) && op.AllocOp? && op.layout.align == 1
    requires Apply(s, op).1.Allocated?
    ensures Apply(s, op).0.Valid() && Apply(s, op).0.n == (s.n + 1) % CycleLength
    ensures Apply(s, op).1.seg == ParitySegment(s.n)
  {
  }

  lemma ByteRequestsTail(ops: seq<Op>)
    requires ByteRequests(ops) && ops != []
    ensures ByteRequests(ops[1..])
  {
    forall i | 0 <= i < |ops| - 1 ensures ops[1..][i].AllocOp? && ops[1..][i].layout.align == 1 {
      assert ops[1..][i] == ops[i + 1];
    }
  }

  lemma AllCommittedTail(events: seq<Event>)
    requires AllCommitted(events) && events != []
    ensures events[0].Allocated? && AllCommitted(events[1..])
  {
    forall i | 0 <= i < |events| - 1 ensures events[1..][i].Allocated? {
      assert events[1..][i] == events[i + 1];
    }
  }

  lemma AlternatesCons(events: seq<Event>, n0: nat)
    requires events != [] && events[0].Allocated? && events[0].seg == ParitySegment(n0)
    requires Alternates(events[1..], (n0 + 1) % CycleLength)
    ensures Alternates(events, n0)
  {
    forall i | 0 < i < |events|
      ensures events[i].Allocated? && events[i].seg == ParitySegment(n0 + i)
    {
      assert events[i] == events[1..][i - 1];
      ModuloShift(n0 + 1, i - 1);
    }
  }

  /**
   * Fifteen committed byte requests from counter 0 go to A, B, A, ..., A by
   * the parity of their position and bring the counter back to 0.
   */
  lemma FifteenByteRequests(s: State, ops: seq<Op>)
    requires s.Valid() && s.n == 0 && |ops| == CycleLength
    requires Admissible(s, ops) && ByteRequests(ops) && AllCommitted(Exec(s, ops).events)
    ensures Exec(s, ops).final.n == 0
    ensures forall i :: 0 <= i < |ops| ==> Exec(s, ops).events[i].seg == if i % 2 == 0 then A else B
  {
    ByteRequestsAlternate(s, ops);
  }

  /** No call of `ops` is an `init`. */
  predicate NoInit(ops: seq<Op>) {
    forall i :: 0 <= i < |ops| ==> !ops[i].InitOp?
  }

  /** Every call but `init` keeps both cursors at or above the heap start, and keeps the heap start. */
  lemma StepKeepsCursorsInHeap(s: State, op: Op)
    requires Proceeds(s, op) && !op.InitOp? && s.CursorsInHeap()
    ensures Apply(s, op).0.CursorsInHeap() && Apply(s, op).0.heapStart == s.heapStart
  {
    match op
    case AddMemoryOp(start, size) => AddMemoryKeepsCursorsInHeap(s, start, size);
    case AllocOp(l) => AllocKeepsCursorsInHeap(s, l);
    case DeallocOp(l) => DeallocKeepsCursorsInHeap(s, l);
  }

  /**
   * Once both cursors are in the heap (as after `BootstrapPlacesCursors`),
   * a run without `init` keeps them there, and every address it hands out
   * is at or above the heap start. With `ReturnedBlockInHeap`, each block
   * also ends within the heap as it was when the block was cut.
   */
  lemma {:induction false} RunBlocksInHeap(s: State, ops: seq<Op>)
    requires Admissible(s, ops) && NoInit(ops) && s.CursorsInHeap()
    ensures Exec(s, ops).final.CursorsInHeap() && Exec(s, ops).final.heapStart == s.heapStart
    ensures forall i :: 0 <= i < |ops| && Exec(s, ops).events[i].Allocated? && Exec(s, ops).events[i].result.Ok? ==>
              s.heapStart <= Exec(s, ops).events[i].result.addr
    decreases |ops|
  {
    if ops != [] {
      var (s1, event) := Apply(s, ops[0]);
      ExecCons(s, ops);
      StepKeepsCursorsInHeap(s, ops[0]);
      assert NoInit(ops[1..]) by {
        forall i | 0 <= i < |ops| - 1 ensures !ops[1..][i].InitOp? {
          assert ops[1..][i] == ops[i + 1];
        }
      }
      RunBlocksInHeap(s1, ops[1..]);
      var events := Exec(s, ops).events;
      if event.Allocated? && event.result.Ok? {
        ReturnedBlockInHeap(s, ops[0].layout);
      }
      forall i | 0 < i < |ops| && events[i].Allocated? && events[i].result.Ok?
        ensures s.heapStart <= events[i].result.addr
      {
        assert events[i] == Exec(s1, ops[1..]).events[i - 1];
      }
    }
  }
}
