/**
 * `LabByteAllocator` itself: nine fields that `init`, `add_memory`, `alloc`
 * and `dealloc` update in place. Each method is proved to leave the fields
 * in the state the matching function of module Lab describes, so every
 * property proved of those functions holds of the object.
 */
module Allocator {
  import opened Usize
  import opened Lab

  class LabByteAllocator {
    var heapStart: nat
    var heapEnd: nat
    var bPos: nat
    var bCount: nat
    /** Position in the workload cycle. */
    var n: nat
    /** `size - 32` of the last request made with the counter at 0. */
    var delta: nat
    /** Whether the bootstrap probe has fired. */
    var itemsEvenAllocated: bool
    var itemsEvenPos: nat
    var itemsEvenCount: nat

    ghost function Model(): State
      reads this
    {
      State(heapStart, heapEnd, bPos, bCount, n, delta, itemsEvenAllocated, itemsEvenPos, itemsEvenCount)
    }

    ghost predicate Valid()
      reads this
    {
      Model().Valid()
    }

    /** `LabByteAllocator::new`. */
    constructor ()
      ensures Valid() && Model() == Fresh
    {
      heapStart, heapEnd := 0, 0;
      bPos, bCount := 0, 0;
      n, delta := 0, 0;
      itemsEvenAllocated := false;
      itemsEvenPos, itemsEvenCount := 0, 0;
    }

    method Init(start: nat, size: nat)
      requires Valid()
      modifies this
      ensures Valid() && Model() == Lab.Init(old(Model()), start, size)
    {
      heapStart := start;
      heapEnd := start + size;
      itemsEvenPos := start;
    }

    /** Always succeeds; the source's `Ok(())` carries nothing, so the method returns nothing. */
    method AddMemory(start: nat, size: nat)
      requires Valid()
      modifies this
      ensures Valid() && Model() == Lab.AddMemory(old(Model()), start, size)
    {
      heapEnd := start + size;
      if n == 0 && delta == 0 {
        bPos := heapStart + ItemEvenSize;
      }
    }

    method Alloc(layout: Layout) returns (r: AllocResult)
      requires Valid() && layout.Valid()
      modifies this
      ensures Valid()
      ensures Model() == Lab.Alloc(old(Model()), layout).state
      ensures r == Lab.Alloc(old(Model()), layout).result
    {
      ghost var s := Model();
      if n == 0 {
        delta := WrappingSub(layout.size, ProbeSize);
      }
      if n == 0 && delta == 0 && !itemsEvenAllocated {
        itemsEvenAllocated := true;
        assert Path(s, layout) == Probe;
        return NoMemory;
      }
      var pos := if Classify(layout, n) == A then itemsEvenPos else bPos;
      var allocStart := AlignUp(pos, layout.align);
      var allocEnd := allocStart + layout.size;
      assert allocStart == AllocStart(s, layout);
      if allocEnd > heapEnd {
        assert Path(s, layout) == OutOfHeap;
        return NoMemory;
      }
      if Classify(layout, n) == A {
        if allocEnd > heapStart + ItemEvenSize {
          assert Path(s, layout) == Overrun;
          return Abort;
        }
        itemsEvenPos := allocEnd;
        itemsEvenCount := itemsEvenCount + 1;
      } else {
        bPos := allocEnd;
        bCount := bCount + 1;
      }
      assert Path(s, layout) == Commit;
      if layout.align == 1 {
        n := (n + 1) % CycleLength;
      }
      r := if allocStart == 0 then NoMemory else Ok(allocStart);
    }

    /** `addr` is accepted and ignored, as in the source: only the layout decides which segment is credited. */
    method Dealloc(addr: nat, layout: Layout)
      requires Valid() && Model().Live(Target(Model(), layout)) > 0
      modifies this
      ensures Valid() && Model() == Lab.Dealloc(old(Model()), layout)
    {
      if Classify(layout, n) == A {
        itemsEvenCount := itemsEvenCount - 1;
      } else {
        bCount := bCount - 1;
      }
      if itemsEvenCount == 0 {
        itemsEvenPos := heapStart;
      }
      if bCount == 0 {
        bPos := heapStart + ItemEvenSize;
      }
    }

    function TotalBytes(): (r: nat)
      reads this
      ensures r == Lab.TotalBytes(Model())
    {
      if n == 0 && delta == 0 then ItemEvenSize else WrappingSub(heapEnd, bPos)
    }
  }

  /**
   * The bootstrap sequence driven through the object: the probe fails, the
   * heap grows, a 384-byte record lands at the base of segment A and its
   * release reclaims the segment.
   */
  method BootstrapThroughObject() returns (a: LabByteAllocator, probe: AllocResult, record: AllocResult, recordCount: nat)
    ensures probe == NoMemory
    ensures record == Ok(0x1000) && recordCount == 1
    ensures a.Valid() && a.itemsEvenCount == 0 && a.itemsEvenPos == 0x1000
    ensures a.bPos == 0x1000 + ItemEvenSize && a.itemsEvenAllocated
  {
    a := new LabByteAllocator();
    a.Init(0x1000, 0x20_0000);
    probe := a.Alloc(Layout(32, 1));
    a.AddMemory(0x1000, 0x20_0000);
    assert IsPowerOfTwo(8);
    record := a.Alloc(Layout(384, 8));
    recordCount := a.itemsEvenCount;
    a.Dealloc(0x1000, Layout(384, 8));
  }
}
