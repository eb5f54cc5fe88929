/**
 * The physical-frame allocator of the older snapshot (`src/mem/frame_allocator.rs`). It has the
 * same bump pointer and recycle stack as the newer one; `alloc` answers with an `Option`, the
 * initial range is computed without a width check, and a new tracker's frame is zero-filled
 * without being read back.
 */
module MemFrameAllocator {
  import opened Wrappers
  import opened Sv39
  import opened PhysMemory
  import MemAddress

  const MEMORY_END: Usize := 0x8800_0000

  /** `[PhysAddr(ekernel).ceil(), PhysAddr(MEMORY_END).floor())`; the address is used unmasked. */
  function InitialRange(ekernel: Usize): (r: (nat, nat))
    ensures r.1 == 0x88000
    ensures ekernel <= USIZE_MOD - PAGE_SIZE ==> ekernel <= r.0 * PAGE_SIZE < ekernel + PAGE_SIZE
  {
    (MemAddress.Ceil(ekernel), MemAddress.Floor(MEMORY_END))
  }

  class StackFrameAllocator {
    var current: nat
    var end: nat
    var recycled: seq<nat>
    /** The frames handed out and not yet given back. */
    ghost var live: set<nat>

    ghost predicate Valid()
      reads this
    {
      && current <= end
      && (forall i, j :: 0 <= i < j < |recycled| ==> recycled[i] != recycled[j])
      && (forall i :: 0 <= i < |recycled| ==> recycled[i] < current && recycled[i] !in live)
      && (forall x :: x in live ==> x < current)
    }

    function FreeFrameNum(): nat
      reads this
      requires Valid()
    {
      end - current + |recycled|
    }

    constructor (start: nat, end: nat)
      requires start <= end
      ensures Valid() && fresh(this)
      ensures current == start && this.end == end && recycled == [] && live == {}
      ensures FreeFrameNum() == end - start
    {
      current := start;
      this.end := end;
      recycled := [];
      live := {};
    }

    /** `alloc`: recycled frames first (last in, first out), then the bump pointer, `None` when exhausted. */
    method Alloc() returns (r: Option<nat>)
      requires Valid()
      modifies this
      ensures Valid() && end == old(end)
      ensures old(recycled) != [] ==>
        r == Some(old(recycled)[|old(recycled)| - 1]) &&
        recycled == old(recycled)[..|old(recycled)| - 1] && current == old(current)
      ensures old(recycled) == [] && old(current) < end ==>
        r == Some(old(current)) && current == old(current) + 1 && recycled == []
      ensures old(recycled) == [] && old(current) == end ==> r == None && unchanged(this)
      ensures r.Some? ==>
        r.value !in old(live) && live == old(live) + {r.value} &&
        FreeFrameNum() == old(FreeFrameNum()) - 1
    {
      if |recycled| > 0 {
        var ppn := recycled[|recycled| - 1];
        recycled := recycled[..|recycled| - 1];
        live := live + {ppn};
        r := Some(ppn);
      } else if current < end {
        current := current + 1;
        live := live + {current - 1};
        r := Some(current - 1);
      } else {
        r := None;
      }
    }

    /** The `recycled.iter().find(|&v| *v == ppn)` scan of `dealloc`. */
    method FindRecycled(ppn: nat) returns (found: Option<nat>)
      ensures found.Some? <==> ppn in recycled
      ensures found.Some? ==> found.value == ppn
    {
      found := None;
      var i := 0;
      while i < |recycled|
        invariant 0 <= i <= |recycled|
        invariant ppn !in recycled[..i]
      {
        if recycled[i] == ppn {
          found := Some(recycled[i]);
          return;
        }
        i := i + 1;
      }
    }

    /** `dealloc`: panic on a frame at or above `current` or already recycled, else push it. */
    method Dealloc(ppn: nat) returns (ok: bool)
      requires Valid()
      modifies this
      ensures Valid() && end == old(end) && current == old(current)
      ensures ok <==> ppn < old(current) && ppn !in old(recycled)
      ensures ok ==>
        recycled == old(recycled) + [ppn] && live == old(live) - {ppn} &&
        FreeFrameNum() == old(FreeFrameNum()) + 1
      ensures !ok ==> unchanged(this)
    {
      var found := FindRecycled(ppn);
      if ppn >= current || found.Some? {
        ok := false;
        return;
      }
      recycled := recycled + [ppn];
      live := live - {ppn};
      ok := true;
    }
  }

  /** `frame_alloc`: allocate and wrap in a `FrameTracker`, whose `new` runs `fill(0)` on the frame. */
  method FrameAlloc(fa: StackFrameAllocator, ram: PhysMem) returns (r: Option<nat>)
    requires fa.Valid()
    modifies fa, ram
    ensures fa.Valid() && fa.end == old(fa.end)
    ensures r.Some? <==> old(fa.FreeFrameNum()) > 0
    ensures r.Some? ==>
      r.value !in old(fa.live) && fa.live == old(fa.live) + {r.value} &&
      fa.FreeFrameNum() == old(fa.FreeFrameNum()) - 1
    ensures r.Some? ==>
      ram.words == ClearFrameWords(old(ram.words), r.value) &&
      FrameBytes(ram.bytes, r.value) == seq(PAGE_SIZE, _ => 0) &&
      forall s: Slot :: s.ppn != r.value ==> ByteAt(ram.bytes, s) == ByteAt(old(ram.bytes), s)
    ensures r.None? ==> unchanged(fa) && unchanged(ram)
  {
    r := fa.Alloc();
    if r.Some? {
      ram.ZeroFill(r.value);
    }
  }

  /** Dropping a `FrameTracker` returns its frame. */
  method FrameTrackerDrop(fa: StackFrameAllocator, ppn: nat) returns (ok: bool)
    requires fa.Valid()
    modifies fa
    ensures fa.Valid() && fa.end == old(fa.end)
    ensures ppn in old(fa.live) ==>
      ok && fa.live == old(fa.live) - {ppn} && fa.FreeFrameNum() == old(fa.FreeFrameNum()) + 1
  {
    ok := fa.Dealloc(ppn);
  }

  /** `frame_allocator_test`: `n` allocations lower the free count by `n`; dropping them restores it. */
  method FrameAllocatorTest(fa: StackFrameAllocator, ram: PhysMem, n: nat)
    returns (afterAlloc: nat, afterDrop: nat)
    requires fa.Valid() && fa.FreeFrameNum() >= n
    modifies fa, ram
    ensures fa.Valid()
    ensures afterAlloc == old(fa.FreeFrameNum()) - n
    ensures afterDrop == old(fa.FreeFrameNum())
  {
    var before := fa.FreeFrameNum();
    var v: seq<nat> := [];
    var i := 0;
    while i < n
      invariant 0 <= i <= n && |v| == i
      invariant fa.Valid() && fa.FreeFrameNum() == before - i
      invariant forall j, k :: 0 <= j < k < |v| ==> v[j] != v[k]
      invariant forall j :: 0 <= j < |v| ==> v[j] in fa.live
    {
      var frame := FrameAlloc(fa, ram);
      v := v + [frame.value];
      i := i + 1;
    }
    afterAlloc := fa.FreeFrameNum();
    var k := 0;
    while k < |v|
      invariant 0 <= k <= |v|
      invariant fa.Valid() && fa.FreeFrameNum() == before - n + k
      invariant forall j :: k <= j < |v| ==> v[j] in fa.live
    {
      var ok := FrameTrackerDrop(fa, v[k]);
      k := k + 1;
    }
    afterDrop := fa.FreeFrameNum();
  }
}
