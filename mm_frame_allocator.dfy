/**
 * The physical-frame allocator of the newer snapshot (`src/mm/frame_allocator.rs`): a bump
 * pointer `current` running up to `end`, in front of a stack of recycled frames.
 */
module MmFrameAllocator {
  import opened Wrappers
  import opened Sv39
  import opened PhysMemory
  import MmAddress

  /** The end of physical memory (`MEMORY_END`, `src/config.rs`). */
  const MEMORY_END: Usize := 0x8800_0000

  /**
   * The range the global allocator is built with: from the first page at or above the kernel image
   * end `ekernel` to the page containing `MEMORY_END`. `PhysAddr::from` asserts that `ekernel`
   * fits in 56 bits.
   */
  function InitialRange(ekernel: Usize): (r: Outcome<(nat, nat)>)
    ensures r.Done? <==> ekernel < PA_LIMIT
    ensures r.Done? ==> r.value.1 == 0x88000
    ensures r.Done? && ekernel >= 1 ==> (r.value.0 - 1) * PAGE_SIZE < ekernel <= r.value.0 * PAGE_SIZE
    ensures r.Done? && ekernel == 0 ==> r.value.0 == 0
  {
    match MmAddress.PhysAddrFrom(ekernel)
    case Panic => Panic
    case Done(a) => Done((MmAddress.Ceil(a), MmAddress.Floor(MEMORY_END)))
  }

  class StackFrameAllocator {
    var current: nat
    var end: nat
    var recycled: seq<nat>
    /** The frames handed out and not yet given back. */
    ghost var live: set<nat>

    ghost predicate Valid()
      reads this
    {
      && current <= end <= PPN_LIMIT
      && (forall i, j :: 0 <= i < j < |recycled| ==> recycled[i] != recycled[j])
      && (forall i :: 0 <= i < |recycled| ==> recycled[i] < current && recycled[i] !in live)
      && (forall x :: x in live ==> x < current)
    }

    /** `free_frame_num`: frames still behind the bump pointer plus those on the recycle stack. */
    function FreeFrameNum(): nat
      reads this
      requires Valid()
    {
      end - current + |recycled|
    }

    /** `new(start, end)`, for a range of page numbers (which are below 2^44) with `start <= end`. */
    constructor (start: nat, end: nat)
      requires start <= end <= PPN_LIMIT
      ensures Valid() && fresh(this)
      ensures current == start && this.end == end && recycled == [] && live == {}
      ensures FreeFrameNum() == end - start
    {
      current := start;
      this.end := end;
      recycled := [];
      live := {};
    }

    /**
     * `alloc`: pop the most recently recycled frame; otherwise hand out `current` and bump it; fail
     * when `current == end`. A frame handed out was not live, and now is.
     */
    method Alloc() returns (r: Result<nat, ()>)
      requires Valid()
      modifies this
      ensures Valid() && end == old(end)
      ensures old(recycled) != [] ==>
        r == Ok(old(recycled)[|old(recycled)| - 1]) &&
        recycled == old(recycled)[..|old(recycled)| - 1] && current == old(current)
      ensures old(recycled) == [] && old(current) < end ==>
        r == Ok(old(current)) && current == old(current) + 1 && recycled == []
      ensures old(recycled) == [] && old(current) == end ==> r.Err? && unchanged(this)
      ensures r.Ok? <==> old(FreeFrameNum()) > 0
      ensures r.Ok? ==>
        r.value !in old(live) && live == old(live) + {r.value} &&
        FreeFrameNum() == old(FreeFrameNum()) - 1 && r.value < PPN_LIMIT
      ensures r.Err? ==> live == old(live)
    {
      if |recycled| > 0 {
        var ppn := recycled[|recycled| - 1];
        recycled := recycled[..|recycled| - 1];
        live := live + {ppn};
        r := Ok(ppn);
      } else if current < end {
        current := current + 1;
        live := live + {current - 1};
        r := Ok(current - 1);
      } else {
        r := Err(());
      }
    }

    /** The `recycled.iter().any(|&v| v == ppn)` scan of `dealloc`. */
    method IsRecycled(ppn: nat) returns (found: bool)
      ensures found <==> ppn in recycled
    {
      found := false;
      var i := 0;
      while i < |recycled| && !found
        invariant 0 <= i <= |recycled|
        invariant found <==> ppn in recycled[..i]
      {
        found := recycled[i] == ppn;
        i := i + 1;
      }
    }

    /**
     * `dealloc`: panic (`ok == false`, nothing changes) when the frame is at or above `current` or
     * already recycled; otherwise push it on the recycle stack.
     */
    method Dealloc(ppn: nat) returns (ok: bool)
      requires Valid()
      modifies this
      ensures Valid() && end == old(end) && current == old(current)
      ensures ok <==> ppn < old(current) && ppn !in old(recycled)
      ensures ok ==>
        recycled == old(recycled) + [ppn] && live == old(live) - {ppn} &&
        FreeFrameNum() == old(FreeFrameNum()) + 1
      ensures !ok ==> unchanged(this)
    {
      var found := IsRecycled(ppn);
      if ppn >= current || found {
        ok := false;
        return;
      }
      recycled := recycled + [ppn];
      live := live - {ppn};
      ok := true;
    }
  }

  /**
   * `frame_alloc`: allocate a frame and wrap it in a `FrameTracker`, whose `new` fills the frame
   * with zeros and then checks every byte (the check cannot fail).
   */
  method FrameAlloc(fa: StackFrameAllocator, ram: PhysMem) returns (r: Result<nat, ()>)
    requires fa.Valid()
    modifies fa, ram
    ensures fa.Valid() && fa.end == old(fa.end)
    ensures r.Ok? <==> old(fa.FreeFrameNum()) > 0
    ensures r.Ok? ==>
      r.value !in old(fa.live) && fa.live == old(fa.live) + {r.value} &&
      fa.FreeFrameNum() == old(fa.FreeFrameNum()) - 1 && r.value < PPN_LIMIT
    ensures r.Ok? ==>
      ram.words == ClearFrameWords(old(ram.words), r.value) &&
      FrameBytes(ram.bytes, r.value) == seq(PAGE_SIZE, _ => 0) &&
      forall s: Slot :: s.ppn != r.value ==> ByteAt(ram.bytes, s) == ByteAt(old(ram.bytes), s)
    ensures r.Err? ==> unchanged(fa) && unchanged(ram)
  {
    r := fa.Alloc();
    if r.Ok? {
      ram.ZeroFill(r.value);
      var i := 0;
      while i < PAGE_SIZE
        invariant 0 <= i <= PAGE_SIZE
        invariant forall j :: 0 <= j < i ==> ByteAt(ram.bytes, Slot(r.value, j)) == 0
      {
        assert ByteAt(ram.bytes, Slot(r.value, i)) == FrameBytes(ram.bytes, r.value)[i] == 0;
        i := i + 1;
      }
    }
  }

  /** Dropping a `FrameTracker` gives its frame back (`frame_dealloc`). */
  method FrameTrackerDrop(fa: StackFrameAllocator, ppn: nat) returns (ok: bool)
    requires fa.Valid()
    modifies fa
    ensures fa.Valid() && fa.end == old(fa.end)
    ensures ppn in old(fa.live) ==>
      ok && fa.live == old(fa.live) - {ppn} && fa.FreeFrameNum() == old(fa.FreeFrameNum()) + 1
  {
    ok := fa.Dealloc(ppn);
  }

  /**
   * `frame_allocator_test`: allocate `n` frames, keep their trackers, then drop them all. The free
   * count drops by `n` and comes back to where it started.
   */
  method FrameAllocatorTest(fa: StackFrameAllocator, ram: PhysMem, n: nat)
    returns (afterAlloc: nat, afterDrop: nat)
    requires fa.Valid() && fa.FreeFrameNum() >= n
    modifies fa, ram
    ensures fa.Valid()
    ensures afterAlloc == old(fa.FreeFrameNum()) - n
    ensures afterDrop == old(fa.FreeFrameNum())
  {
    var before := fa.FreeFrameNum();
    var v: seq<nat> := [];
    var i := 0;
    while i < n
      invariant 0 <= i <= n && |v| == i
      invariant fa.Valid() && fa.FreeFrameNum() == before - i
      invariant forall j, k :: 0 <= j < k < |v| ==> v[j] != v[k]
      invariant forall j :: 0 <= j < |v| ==> v[j] in fa.live
    {
      var frame := FrameAlloc(fa, ram);
      v := v + [frame.value];
      i := i + 1;
    }
    afterAlloc := fa.FreeFrameNum();
    // `v.clear()` drops the trackers front to back.
    var k := 0;
    while k < |v|
      invariant 0 <= k <= |v|
      invariant fa.Valid() && fa.FreeFrameNum() == before - n + k
      invariant forall j :: k <= j < |v| ==> v[j] in fa.live
    {
      var ok := FrameTrackerDrop(fa, v[k]);
      k := k + 1;
    }
    afterDrop := fa.FreeFrameNum();
  }
}
