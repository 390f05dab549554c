/**
 * The lab byte allocator as a state-transition specification.
 *
 * The heap `[heapStart, heapEnd)` is split into segment A, the first
 * `ItemEvenSize` bytes, which serves the workload's fixed-size records and the
 * even-numbered byte requests, and segment B, everything after it. Each
 * segment is a bump region with a cursor and a count of live allocations;
 * a segment whose count drops to zero is reclaimed at once by moving its
 * cursor back to its base. The counter `n` runs through the 15 steps of the
 * workload cycle, and `delta` with `itemsEvenAllocated` drives the one-shot
 * bootstrap probe.
 */
module Lab {
  import opened Usize

  /** Bytes reserved at the front of the heap for segment A (`ITEM_EVEN_SIZE`). */
  const ItemEvenSize: nat := 704932

  /** Sizes of the workload's fixed-size records; with `ItemAlign` they go to segment A. */
  const ItemSizes: seq<nat> := [384, 192, 96]
  const ItemAlign: nat := 8

  /** Length of the workload cycle that the counter `n` runs through. */
  const CycleLength: nat := 15

  /** The request size that the bootstrap probe answers with a deliberate failure. */
  const ProbeSize: nat := 32

  /** A `core::alloc::Layout`: a size and an alignment. */
  datatype Layout = Layout(size: nat, align: nat) {
    /** What `Layout` guarantees: a power-of-two alignment and a rounded-up size that fits `isize`. */
    predicate Valid() {
      IsPowerOfTwo(align) && AlignUp(size, align) <= IsizeMax
    }
  }

  /** Segment A (the `items_even_*` fields) or segment B (the `b_*` fields). */
  datatype Segment = A | B {
    function Other(): Segment {
      if this == A then B else A
    }
  }

  /** The nine fields of `LabByteAllocator`. */
  datatype State = State(
    heapStart: nat,
    heapEnd: nat,
    bPos: nat,
    bCount: nat,
    n: nat,
    delta: nat,
    itemsEvenAllocated: bool,
    itemsEvenPos: nat,
    itemsEvenCount: nat)
  {
    /** The cycle counter stays below the cycle length. */
    predicate Valid() {
      n < CycleLength
    }

    /**
     * The counter is at 0 and the last request made with the counter at 0
     * was 32 bytes (or none was made). This holds after `new`, after the
     * probe, and again after any 32-byte request at counter 0 that leaves
     * the counter there, so it is not a one-time phase: in it `add_memory`
     * puts segment B's cursor back at its base, live blocks or not.
     */
    predicate Bootstrapping() {
      n == 0 && delta == 0
    }

    function Base(seg: Segment): nat {
      if seg == A then heapStart else heapStart + ItemEvenSize
    }

    function Cursor(seg: Segment): nat {
      if seg == A then itemsEvenPos else bPos
    }

    function Live(seg: Segment): nat {
      if seg == A then itemsEvenCount else bCount
    }

    /** Both cursors are at or above the start of the heap. */
    predicate CursorsInHeap() {
      heapStart <= itemsEvenPos && heapStart <= bPos
    }
  }

  /** The state `LabByteAllocator::new` builds: every field zero. */
  const Fresh: State := State(0, 0, 0, 0, 0, 0, false, 0, 0)

  /**
   * The workload classifier: which segment serves a request of layout `l`
   * when the cycle counter is `n`.
   */
  function Classify(l: Layout, n: nat): (seg: Segment)
    ensures l.align == 1 ==> (seg == A <==> n % 2 == 0)
    ensures l.align == ItemAlign ==> (seg == A <==> l.size in ItemSizes)
    ensures l.align != 1 && l.align != ItemAlign ==> seg == B
  {
    if (l.size in ItemSizes && l.align == ItemAlign) || (n % 2 == 0 && l.align == 1) then A else B
  }

  /** `init`: fixes the heap bounds and puts segment A's cursor at its base. */
  function Init(s: State, start: nat, size: nat): (t: State)
    ensures t.heapStart == start && t.heapEnd == start + size
    ensures t.Cursor(A) == t.Base(A)
    ensures t.Cursor(B) == s.Cursor(B)
    ensures t.Live(A) == s.Live(A) && t.Live(B) == s.Live(B)
    ensures t.n == s.n && t.delta == s.delta && t.itemsEvenAllocated == s.itemsEvenAllocated
  {
    s.(heapStart := start, heapEnd := start + size, itemsEvenPos := start)
  }

  /**
   * `add_memory`: moves the end of the heap; when `Bootstrapping()` holds it
   * also places segment B's cursor at its base, right after segment A.
   */
  function AddMemory(s: State, start: nat, size: nat): (t: State)
    ensures t.heapStart == s.heapStart && t.heapEnd == start + size
    ensures t.Cursor(B) == if s.Bootstrapping() then t.Base(B) else s.Cursor(B)
    ensures t.Cursor(A) == s.Cursor(A)
    ensures t.Live(A) == s.Live(A) && t.Live(B) == s.Live(B)
    ensures t.n == s.n && t.delta == s.delta && t.itemsEvenAllocated == s.itemsEvenAllocated
  {
    var t := s.(heapEnd := start + size);
    if s.Bootstrapping() then t.(bPos := s.heapStart + ItemEvenSize) else t
  }

  /** What `alloc` returns; `Abort` is the panic of the segment A bound assertion. */
  datatype AllocResult = Ok(addr: nat) | NoMemory | Abort

  /** The new state together with the result of one `alloc`. */
  datatype AllocStep = AllocStep(state: State, result: AllocResult)

  /** Which branch of `alloc` a request takes. */
  datatype AllocPath = Probe | OutOfHeap | Overrun | Commit

  /** `delta` once `alloc` has recorded the request: `size - 32` whenever the counter is at 0. */
  function DeltaAfter(s: State, l: Layout): nat {
    if s.n == 0 then WrappingSub(l.size, ProbeSize) else s.delta
  }

  /** The segment `alloc` and `dealloc` pick for `l` in state `s`. */
  function Target(s: State, l: Layout): Segment {
    Classify(l, s.n)
  }

  function AllocStart(s: State, l: Layout): nat
    requires l.Valid()
  {
    AlignUp(s.Cursor(Target(s, l)), l.align)
  }

  function AllocEnd(s: State, l: Layout): nat
    requires l.Valid()
  {
    AllocStart(s, l) + l.size
  }

  /** The branch of `alloc` that request `l` takes in state `s`. */
  function Path(s: State, l: Layout): (p: AllocPath)
    requires l.Valid()
    ensures p == Probe <==> s.n == 0 && l.size == ProbeSize && !s.itemsEvenAllocated
    ensures p == OutOfHeap ==> AllocEnd(s, l) > s.heapEnd
    ensures p == Overrun ==> Target(s, l) == A && s.Base(A) + ItemEvenSize < AllocEnd(s, l) <= s.heapEnd
    ensures p == Commit <==> p != Probe && AllocEnd(s, l) <= s.heapEnd
                             && (Target(s, l) == A ==> AllocEnd(s, l) <= s.Base(A) + ItemEvenSize)
  {
    if s.n == 0 && DeltaAfter(s, l) == 0 && !s.itemsEvenAllocated then Probe
    else if AllocEnd(s, l) > s.heapEnd then OutOfHeap
    else if Target(s, l) == A && AllocEnd(s, l) > s.heapStart + ItemEvenSize then Overrun
    else Commit
  }

  /**
   * `alloc`: the bootstrap probe, then the classifier, then a bump reserve in
   * the chosen segment, then the advance of the cycle counter for byte requests.
   */
  function Alloc(s: State, l: Layout): (r: AllocStep)
    requires l.Valid()
    ensures r.state.heapStart == s.heapStart && r.state.heapEnd == s.heapEnd
    ensures s.Valid() ==> r.state.Valid()
    // every call with the counter at 0 records `size - 32`, whichever branch it then takes
    ensures r.state.delta == DeltaAfter(s, l)
    // the counter moves only on a committed byte request
    ensures r.state.n == if Path(s, l) == Commit && l.align == 1 then (s.n + 1) % CycleLength else s.n
    // the probe fails on purpose, sets the flag and touches nothing else
    ensures Path(s, l) == Probe ==>
              r.result == NoMemory && r.state == s.(delta := 0, itemsEvenAllocated := true)
    // a request that does not fit the heap fails with only `delta` rewritten
    ensures Path(s, l) == OutOfHeap ==> r.result == NoMemory && r.state == s.(delta := DeltaAfter(s, l))
    // an overrun of segment A panics instead of committing
    ensures r.result == Abort <==> Path(s, l) == Overrun
    ensures Path(s, l) == Overrun ==> r.state == s.(delta := DeltaAfter(s, l))
    // a commit bumps exactly the chosen segment
    ensures Path(s, l) == Commit ==>
              var seg := Target(s, l);
              && r.state.Cursor(seg) == AllocEnd(s, l)
              && r.state.Live(seg) == s.Live(seg) + 1
              && r.state.Cursor(seg.Other()) == s.Cursor(seg.Other())
              && r.state.Live(seg.Other()) == s.Live(seg.Other())
              && r.state.itemsEvenAllocated == s.itemsEvenAllocated
    ensures Path(s, l) != Commit ==>
              forall seg :: r.state.Cursor(seg) == s.Cursor(seg) && r.state.Live(seg) == s.Live(seg)
    // what a successful call hands out
    ensures r.result.Ok? <==> Path(s, l) == Commit && AllocStart(s, l) != 0
    ensures r.result.Ok? ==>
              var addr := r.result.addr;
              && addr % l.align == 0
              && s.Cursor(Target(s, l)) <= addr
              && addr + l.size <= s.heapEnd
              && (Target(s, l) == A ==> addr + l.size <= s.Base(A) + ItemEvenSize)
              && r.state.Cursor(Target(s, l)) == addr + l.size
  {
    var s1 := s.(delta := DeltaAfter(s, l));
    match Path(s, l)
    case Probe => AllocStep(s1.(itemsEvenAllocated := true), NoMemory)
    case OutOfHeap => AllocStep(s1, NoMemory)
    case Overrun => AllocStep(s1, Abort)
    case Commit =>
      var start := AllocStart(s, l);
      var s2 :=
        if Target(s, l) == A then s1.(itemsEvenPos := start + l.size, itemsEvenCount := s1.itemsEvenCount + 1)
        else s1.(bPos := start + l.size, bCount := s1.bCount + 1);
      var s3 := if l.align == 1 then s2.(n := (s2.n + 1) % CycleLength) else s2;
      AllocStep(s3, if start == 0 then NoMemory else Ok(start))
  }

  /**
   * `dealloc`: credits the segment the classifier picks with the current
   * counter, then reclaims every segment that has no live allocation left.
   * The caller must free only what it allocated, so that count is positive.
   */
  function Dealloc(s: State, l: Layout): (t: State)
    requires s.Live(Target(s, l)) > 0
    ensures t.Live(Target(s, l)) == s.Live(Target(s, l)) - 1
    ensures t.Live(Target(s, l).Other()) == s.Live(Target(s, l).Other())
    ensures forall seg :: t.Cursor(seg) == if t.Live(seg) == 0 then t.Base(seg) else s.Cursor(seg)
    ensures t.heapStart == s.heapStart && t.heapEnd == s.heapEnd
    ensures t.n == s.n && t.delta == s.delta && t.itemsEvenAllocated == s.itemsEvenAllocated
  {
    var s1 :=
      if Target(s, l) == A then s.(itemsEvenCount := s.itemsEvenCount - 1)
      else s.(bCount := s.bCount - 1);
    var s2 := if s1.itemsEvenCount == 0 then s1.(itemsEvenPos := s1.heapStart) else s1;
    if s2.bCount == 0 then s2.(bPos := s2.heapStart + ItemEvenSize) else s2
  }

  /**
   * `total_bytes`: segment A's size when `Bootstrapping()` holds, otherwise
   * the room left between segment B's cursor and the end of the heap,
   * wrapped modulo 2^64.
   */
  function TotalBytes(s: State): (r: nat)
    ensures r < WordSize
    ensures s.Bootstrapping() ==> r == ItemEvenSize
    ensures !s.Bootstrapping() && s.bPos <= s.heapEnd < s.bPos + WordSize ==> r == s.heapEnd - s.bPos
    ensures !s.Bootstrapping() && s.heapEnd < WordSize && s.bPos < WordSize ==> (r + s.bPos) % WordSize == s.heapEnd
  {
    if s.Bootstrapping() then ItemEvenSize else WrappingSub(s.heapEnd, s.bPos)
  }

  /**
   * When a byte request goes to segment B, the counter is odd, so neither
   * the probe nor `Bootstrapping()` applies, and `total_bytes` is exactly
   * the largest such request segment B can take: it passes the heap-end
   * check if and only if its size is at most `total_bytes`.
   */
  lemma TotalBytesIsRoomInSegmentB(s: State, l: Layout)
    requires l.Valid() && l.align == 1 && Target(s, l) == B
    requires s.bPos <= s.heapEnd < s.bPos + WordSize
    ensures Path(s, l) == Commit <==> l.size <= TotalBytes(s)
    ensures Path(s, l) == OutOfHeap <==> l.size > TotalBytes(s)
  {
    assert AllocStart(s, l) == s.bPos;
  }

  /**
   * `dealloc` re-runs the classifier with the current counter. Freeing a
   * byte allocation right after making it therefore credits the segment it
   * came from only when the counter has just wrapped from 14 to 0; otherwise
   * it credits the other segment.
   */
  lemma ImmediateByteFreeSwitchesSegment(s: State, l: Layout)
    requires s.Valid() && l.Valid() && l.align == 1 && Path(s, l) == Commit
    ensures Target(Alloc(s, l).state, l) == Target(s, l) <==> s.n == CycleLength - 1
  {
  }

  /**
   * A request that `alloc` serves is freed back into the segment it came
   * from whenever the counter does not move in between, as for every
   * request whose alignment is not 1; the segment is then reclaimed if it
   * held nothing else.
   */
  lemma AllocThenDeallocRestoresCount(s: State, l: Layout)
    requires s.Valid() && l.Valid() && l.align != 1 && Path(s, l) == Commit
    ensures var t := Alloc(s, l).state;
            && t.Live(Target(t, l)) > 0
            && var u := Dealloc(t, l);
            && u.Live(A) == s.Live(A) && u.Live(B) == s.Live(B)
            && (s.Live(Target(s, l)) == 0 ==> u.Cursor(Target(s, l)) == s.Base(Target(s, l)))
  {
  }

  /** A block `alloc` hands out lies inside the heap whenever the cursor it is cut from does. */
  lemma ReturnedBlockInHeap(s: State, l: Layout)
    requires l.Valid() && s.heapStart <= s.Cursor(Target(s, l)) && Alloc(s, l).result.Ok?
    ensures s.heapStart <= Alloc(s, l).result.addr
    ensures Alloc(s, l).result.addr + l.size <= s.heapEnd
  {
  }

  /**
   * Segment B's cursor starts at 0. When the first request after `init` is
   * not the 32-byte probe, the counter is still 0 but `delta` no longer is,
   * so the next `add_memory` leaves the cursor where it was. A first 64-byte
   * request is cut at address 0: it commits, moving the cursor to 64 and
   * counting one live block in segment B, and only then does the null check
   * report `NoMemory`. After `add_memory` the same request is handed address
   * 64, below the heap. This lasts until a `dealloc` leaves segment B empty,
   * or until a later 32-byte request at counter 0 fires the probe and the
   * `add_memory` after it places the cursor.
   */
  lemma UnplacedSegmentB()
    ensures Layout(64, 8).Valid()
    ensures var l := Layout(64, 8);
            var r1 := Alloc(Init(Fresh, 0x1000, 0x20_0000), l);
            var s2 := AddMemory(r1.state, 0x1000, 0x40_0000);
            var r2 := Alloc(s2, l);
            && r1.result == NoMemory
            && r1.state.bPos == 64 && r1.state.bCount == 1
            && s2.bPos == 64
            && r2.result == Ok(64)
            && r2.result.addr < s2.heapStart
  {
    assert IsPowerOfTwo(8);
  }

  /**
   * The probe leaves the allocator bootstrapping again (counter and `delta`
   * both 0), so the `add_memory` that follows it places segment B's cursor
   * at its base, however the earlier requests left it.
   */
  lemma ProbePlacesSegmentB(s: State, l: Layout, start: nat, size: nat)
    requires l.Valid() && Path(s, l) == Probe
    ensures AddMemory(Alloc(s, l).state, start, size).Cursor(B) == s.Base(B)
  {
  }

  /**
   * A byte allocation freed right away with its own layout is credited to
   * the other segment (see ImmediateByteFreeSwitchesSegment). When that
   * segment holds nothing, the free finds a zero count, which the source
   * decrements with wrap-around.
   */
  lemma ConformingByteFreeFindsEmptySegment(s: State, l: Layout)
    requires s.Valid() && l.Valid() && l.align == 1 && Path(s, l) == Commit
    requires s.n != CycleLength - 1 && s.Live(Target(s, l).Other()) == 0
    ensures var t := Alloc(s, l).state;
            t.Live(Target(t, l)) == 0 && t.Live(Target(s, l)) == s.Live(Target(s, l)) + 1
  {
    ImmediateByteFreeSwitchesSegment(s, l);
  }

  /**
   * The same after a regular bootstrap: probe, `add_memory`, then a one-byte
   * request served at 0x1000 from segment A. Freeing it with `Layout(1, 1)`
   * is classified with the counter at 1 and so goes to segment B, whose
   * count is 0.
   */
  lemma ByteFreeAfterBootstrap()
    ensures Layout(32, 1).Valid() && Layout(1, 1).Valid()
    ensures var r0 := Alloc(Init(Fresh, 0x1000, 0x20_0000), Layout(32, 1));
            var s := AddMemory(r0.state, 0x1000, 0x20_0000);
            var r := Alloc(s, Layout(1, 1));
            && r0.result == NoMemory
            && r.result == Ok(0x1000) && r.state.Live(A) == 1
            && Target(r.state, Layout(1, 1)) == B && r.state.Live(B) == 0
  {
  }

  /** `alloc` never moves a cursor below where it was, and a commit moves one to the end of its block. */
  lemma AllocKeepsCursorsInHeap(s: State, l: Layout)
    requires l.Valid() && s.CursorsInHeap()
    ensures Alloc(s, l).state.CursorsInHeap()
  {
    if Path(s, l) == Commit {
      assert s.Cursor(Target(s, l)) <= AllocStart(s, l) <= AllocEnd(s, l);
    }
  }

  /** `dealloc` moves a cursor only back to its base, which is at or above the heap start. */
  lemma DeallocKeepsCursorsInHeap(s: State, l: Layout)
    requires s.Live(Target(s, l)) > 0 && s.CursorsInHeap()
    ensures Dealloc(s, l).CursorsInHeap()
  {
    var t := Dealloc(s, l);
    assert t.Cursor(A) == s.Cursor(A) || t.Cursor(A) == t.Base(A);
    assert t.Cursor(B) == s.Cursor(B) || t.Cursor(B) == t.Base(B);
  }

  /** `add_memory` keeps the heap start, and places segment B's cursor only at its base. */
  lemma AddMemoryKeepsCursorsInHeap(s: State, start: nat, size: nat)
    requires s.CursorsInHeap()
    ensures AddMemory(s, start, size).CursorsInHeap()
  {
  }

  /**
   * The intended start-up, `init`, the probe, then `add_memory`, puts both
   * cursors at their bases, whatever state the allocator was in before.
   */
  lemma BootstrapPlacesCursors(s: State, start: nat, size: nat, l: Layout, start2: nat, size2: nat)
    requires l.Valid() && Path(Init(s, start, size), l) == Probe
    ensures var t := AddMemory(Alloc(Init(s, start, size), l).state, start2, size2);
            && t.heapStart == start
            && t.Cursor(A) == t.Base(A) && t.Cursor(B) == t.Base(B)
            && t.CursorsInHeap()
  {
  }

  /**
   * A 32-byte request at counter 0 that does not move the counter (any
   * alignment but 1, whether it commits, is refused or overruns) records
   * `delta == 0` and so makes `Bootstrapping()` hold again. The next
   * `add_memory` then puts segment B's cursor back at its base while every
   * live block of segment B stays counted.
   */
  lemma ThirtyTwoBytesReopenBootstrap(s: State, l: Layout, start: nat, size: nat)
    requires l.Valid() && s.n == 0 && l.size == ProbeSize && l.align != 1
    ensures Alloc(s, l).state.Bootstrapping()
    ensures var t := AddMemory(Alloc(s, l).state, start, size);
            && t.Cursor(B) == t.Base(B)
            && t.Live(B) >= s.Live(B)
  {
  }

  /**
   * The same from the regular bootstrap: a 64-byte record-aligned request
   * gets the base of segment B, a 32-byte request at alignment 8 commits
   * behind it, `add_memory` puts the cursor back at the base, and the next
   * 64-byte request is handed the first block's address again while that
   * block is still live.
   */
  lemma SegmentBReplacedOverLiveBlock()
    ensures Layout(32, 1).Valid() && Layout(64, 8).Valid() && Layout(32, 8).Valid()
    ensures var s0 := AddMemory(Alloc(Init(Fresh, 0x1000, 0x20_0000), Layout(32, 1)).state, 0x1000, 0x20_0000);
            var r1 := Alloc(s0, Layout(64, 8));
            var r2 := Alloc(r1.state, Layout(32, 8));
            var s3 := AddMemory(r2.state, 0x1000, 0x40_0000);
            var r4 := Alloc(s3, Layout(64, 8));
            && r1.result == Ok(709032)
            && r2.result.Ok? && r2.state.Bootstrapping() && r2.state.Live(B) == 2
            && s3.Live(B) == 2 && s3.Cursor(B) == s3.Base(B)
            && r4.result == Ok(709032)
  {
    assert IsPowerOfTwo(8);
  }

  /**
   * `alloc` never moves a cursor back: a commit moves its segment's cursor
   * forward, and nothing else moves a cursor.
   */
  lemma AllocNeverMovesCursorBack(s: State, l: Layout, seg: Segment)
    requires l.Valid()
    ensures s.Cursor(seg) <= Alloc(s, l).state.Cursor(seg)
  {
    if Path(s, l) == Commit && seg == Target(s, l) {
      assert s.Cursor(seg) <= AllocStart(s, l);
    }
  }

  /** `dealloc` moves a cursor only when its segment is left with no live block. */
  lemma DeallocKeepsLiveCursors(s: State, l: Layout, seg: Segment)
    requires s.Live(Target(s, l)) > 0 && Dealloc(s, l).Live(seg) > 0
    ensures Dealloc(s, l).Cursor(seg) == s.Cursor(seg)
  {
  }
}
