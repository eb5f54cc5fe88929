/**
 * The address-space half of `src/mm/memory_set.rs`: filling a framed area with a segment's
 * bytes (`copy_data`), taking an area's pages out of the table (`unmap_one`, `unmap`), and the
 * `MemorySet` that owns a page table and its list of areas (`push`, `remove_area_with_start_vpn`,
 * `remove_area_with_end_vpn`, `from_existed`, and the layout `from_elf` gives a program).
 */
module MmAddressSpace {
  import opened Wrappers
  import opened Sv39
  import opened Pte
  import opened PhysMemory
  import opened PageWalk
  import opened MmFrameAllocator
  import opened MmPageTable
  import opened MmMemorySet
  import opened PageCopy

  /** `copy_data` finds a page for every chunk: each lies inside the area and has a leaf entry. */
  ghost predicate CopyFits(a: MapArea, words: Words, root: nat, n: nat)
  {
    forall v: nat :: a.start <= v < a.start + ChunkCount(n) ==> PageFits(a, words, root, v)
  }

  /** Pages `a.start..a.start + k` all fit, stated one page at a time. */
  ghost predicate FitsUpTo(a: MapArea, words: Words, root: nat, k: nat)
  {
    k == 0 || (FitsUpTo(a, words, root, k - 1) && PageFits(a, words, root, a.start + k - 1))
  }

  lemma FitsStep(a: MapArea, words: Words, root: nat, k: nat)
    requires FitsUpTo(a, words, root, k) && PageFits(a, words, root, a.start + k)
    ensures FitsUpTo(a, words, root, k + 1)
  {
  }

  lemma {:induction false} FitsUpToAll(a: MapArea, words: Words, root: nat, k: nat, v: nat)
    requires FitsUpTo(a, words, root, k) && a.start <= v < a.start + k
    ensures PageFits(a, words, root, v)
  {
    if v < a.start + k - 1 {
      FitsUpToAll(a, words, root, k - 1, v);
    }
  }

  /** Page `v` is one `copy_data` can write: the range yields it and it has a leaf entry. */
  ghost predicate PageFits(a: MapArea, words: Words, root: nat, v: nat)
  {
    v < a.end && Translation(words, root, v).Some?
  }

  /**
   * `MapArea::copy_data`: panic unless the area is framed; then walk the data a page at a time,
   * writing chunk `i` to the start of the frame of the area's `i`-th page. Running out of pages
   * (`next().unwrap()`) or meeting a page without a leaf entry (`expect`) panics. The page
   * table's entries are not touched.
   */
  method CopyData(a: MapArea, pt: PageTable, data: seq<bv8>, ram: PhysMem) returns (r: Outcome<()>)
    modifies ram
    ensures ram.words == old(ram.words)
    ensures r.Panic? <==> a.mapType != Framed || !CopyFits(a, ram.words, pt.rootPpn, |data|)
    ensures r.Done? ==> CopiedState(ram.bytes, old(ram.bytes), ram.words, pt.rootPpn, a.start, data, ChunkCount(|data|))
  {
    if a.mapType != Framed {
      return Panic;
    }
    ghost var b0, w, root := ram.bytes, ram.words, pt.rootPpn;
    var vpn := a.start;
    var start := 0;
    ghost var i := 0;
    while start < |data|
      invariant i <= ChunkCount(|data|) && vpn == a.start + i
      invariant start == if i * PAGE_SIZE < |data| then i * PAGE_SIZE else |data|
      invariant ram.words == w
      invariant FitsUpTo(a, w, root, i)
      invariant CopiedState(ram.bytes, b0, w, root, a.start, data, i)
    {
      assert i < ChunkCount(|data|);
      if vpn >= a.end {
        assert !PageFits(a, w, root, vpn);
        return Panic;
      }
      var pte := pt.Translate(vpn, ram);
      if pte.None? {
        assert !PageFits(a, w, root, vpn);
        return Panic;
      }
      FitsStep(a, w, root, i);
      var end := if start + PAGE_SIZE < |data| then start + PAGE_SIZE else |data|;
      var src := data[start..end];
      assert src == Chunk(data, i);
      WriteChunk(ram, Ppn(pte.value), src, b0, w, root, a.start, data, i);
      start := end;
      vpn := vpn + 1;
      i := i + 1;
    }
    forall v: nat | a.start <= v < a.start + ChunkCount(|data|)
      ensures PageFits(a, w, root, v)
    {
      FitsUpToAll(a, w, root, i, v);
    }
    r := Done(());
  }

  /** The low 27 bits of the pages `lo..hi`: the leaf slots those pages use. */
  ghost function Lows(lo: nat, hi: nat): set<nat>
  {
    set w | lo <= w < hi :: w % VPN_LIMIT
  }

  lemma LowsStep(lo: nat, hi: nat)
    requires lo <= hi
    ensures Lows(lo, hi + 1) == Lows(lo, hi) + {hi % VPN_LIMIT}
  {
    assert hi % VPN_LIMIT in Lows(lo, hi + 1);
  }

  /** The frames an area holds for pages `lo..hi`; an identical area holds none. */
  ghost function FramesOf(a: MapArea, lo: nat, hi: nat): set<nat>
  {
    if a.mapType == Framed then set k | k in a.dataFrames && lo <= k < hi :: a.dataFrames[k] as nat else {}
  }

  /** The area once pages `lo..hi` are unmapped: a framed area has given up their frames. */
  function AfterUnmap(a: MapArea, lo: nat, hi: nat): (r: MapArea)
    ensures r == a.(dataFrames := r.dataFrames)
    ensures a.mapType == Identical ==> r == a
    ensures a.mapType == Framed ==> forall k :: k in r.dataFrames <==> k in a.dataFrames && !(lo <= k < hi)
    ensures forall k :: k in r.dataFrames ==> r.dataFrames[k] == a.dataFrames[k]
  {
    if a.mapType == Framed then a.(dataFrames := map k | k in a.dataFrames && !(lo <= k < hi) :: a.dataFrames[k]) else a
  }

  /**
   * The frames of `a` are its own, as `FrameTracker`s it holds: each is live, none is one of the
   * table's frames or a frame `malloc` gave a page, and no two pages share one.
   */
  ghost predicate OwnsFrames(a: MapArea, pt: PageTable, fa: StackFrameAllocator)
    reads pt, fa
  {
    Owns(a, fa.live, pt.FrameSet(), pt.leafs)
  }

  /** `OwnsFrames` over the live frames, the table's frames and the frames `malloc` handed out. */
  ghost predicate Owns(a: MapArea, live: set<nat>, tableFrames: set<nat>, leafs: map<nat, nat>)
  {
    && (forall v :: v in a.dataFrames ==> a.dataFrames[v] in live && a.dataFrames[v] !in tableFrames)
    && (forall v, u :: v in a.dataFrames && u in leafs ==> a.dataFrames[v] != leafs[u])
    && (forall u, v :: u in a.dataFrames && v in a.dataFrames && u != v ==> a.dataFrames[u] != a.dataFrames[v])
  }

  /**
   * `MapArea::unmap_one`: a framed area drops the frame it holds for `vpn` (if any), then the
   * leaf of `vpn` is cleared; `unwrap` panics when that leaf is missing or not valid. Only the
   * leaf slot of `vpn` changes, and memory bytes are untouched.
   */
  method UnmapOne(a: MapArea, pt: PageTable, vpn: Usize, fa: StackFrameAllocator, ram: PhysMem) returns (r: Outcome<MapArea>)
    requires pt.Valid(fa, ram) && OwnsFrames(a, pt, fa)
    modifies fa, ram
    ensures pt.Valid(fa, ram) && OwnsFrames(AfterUnmap(a, vpn, vpn + 1), pt, fa)
    ensures fa.live == old(fa.live) - FramesOf(a, vpn, vpn + 1)
    ensures ram.bytes == old(ram.bytes)
    ensures r.Done? <==> ValidAt(old(ram.words), pt.rootPpn, vpn)
    ensures r.Done? ==> r.value == AfterUnmap(a, vpn, vpn + 1) && Translation(ram.words, pt.rootPpn, vpn) == Some(EMPTY)
    ensures forall u: nat {:trigger Translation(ram.words, pt.rootPpn, u)} ::
      Apart(u, vpn) ==> Translation(ram.words, pt.rootPpn, u) == old(Translation(ram.words, pt.rootPpn, u))
  {
    var a' := AfterUnmap(a, vpn, vpn + 1);
    if a.mapType == Framed && vpn in a.dataFrames {
      var f := a.dataFrames[vpn];
      assert FramesOf(a, vpn, vpn + 1) == {f as nat};
      var _ := FrameTrackerDrop(fa, f);
    } else {
      assert FramesOf(a, vpn, vpn + 1) == {};
    }
    var ok := pt.UnmapUncheck(vpn, fa, ram);
    r := if ok then Done(a') else Panic;
  }

  /** Unmapping pages `lo..hi` and then page `hi` is unmapping pages `lo..hi + 1`. */
  lemma AfterUnmapStep(a: MapArea, lo: nat, hi: nat)
    requires lo <= hi
    ensures AfterUnmap(AfterUnmap(a, lo, hi), hi, hi + 1) == AfterUnmap(a, lo, hi + 1)
    ensures FramesOf(a, lo, hi + 1) == FramesOf(a, lo, hi) + FramesOf(AfterUnmap(a, lo, hi), hi, hi + 1)
  {
    var b := AfterUnmap(AfterUnmap(a, lo, hi), hi, hi + 1);
    assert b.dataFrames == AfterUnmap(a, lo, hi + 1).dataFrames;
    if a.mapType == Framed && hi in a.dataFrames {
      assert FramesOf(AfterUnmap(a, lo, hi), hi, hi + 1) == {a.dataFrames[hi] as nat};
    }
  }

  /**
   * Pages `a.start..k` of the area, unmapped one after the other from words `w0` to words `w`:
   * each had a valid leaf and now has an empty one, no two share a leaf slot, and pages on any
   * other slot translate as they did.
   */
  ghost predicate Unmapped(a: MapArea, w0: Words, w: Words, root: nat, k: nat)
  {
    && (forall u :: a.start <= u < k ==> ValidAt(w0, root, u) && Translation(w, root, u) == Some(EMPTY))
    && (forall u, v :: a.start <= u < v < k ==> Apart(u, v))
    && (forall u: nat {:trigger Translation(w, root, u)} ::
          u % VPN_LIMIT !in Lows(a.start, k) ==> Translation(w, root, u) == Translation(w0, root, u))
  }

  /** A page whose leaf is not valid when its turn comes shows the area had a bad page or two pages on one slot. */
  lemma UnmapPanics(a: MapArea, w0: Words, w: Words, root: nat, vpn: nat)
    requires a.start <= vpn < a.end && Unmapped(a, w0, w, root, vpn)
    requires !ValidAt(w, root, vpn)
    ensures !(PagesApart(a) && forall v :: InArea(a, v) ==> ValidAt(w0, root, v))
  {
    if vpn % VPN_LIMIT in Lows(a.start, vpn) {
      var u :| a.start <= u < vpn && u % VPN_LIMIT == vpn % VPN_LIMIT;
      assert !Apart(u, vpn);
    } else {
      assert Translation(w, root, vpn) == Translation(w0, root, vpn);
      assert InArea(a, vpn);
    }
  }

  /** Clearing the valid leaf of page `vpn` extends the unmapped prefix by one page. */
  lemma UnmapProgress(a: MapArea, w0: Words, w: Words, w': Words, root: nat, vpn: nat)
    requires a.start <= vpn && Unmapped(a, w0, w, root, vpn)
    requires ValidAt(w, root, vpn) && Translation(w', root, vpn) == Some(EMPTY)
    requires forall u: nat {:trigger Translation(w', root, u)} :: Apart(u, vpn) ==> Translation(w', root, u) == Translation(w, root, u)
    ensures Unmapped(a, w0, w', root, vpn + 1)
  {
    if vpn % VPN_LIMIT in Lows(a.start, vpn) {
      var u :| a.start <= u < vpn && u % VPN_LIMIT == vpn % VPN_LIMIT;
      TranslationLow27(w, root, u, vpn);
      assert false;
    }
    LowsStep(a.start, vpn);
    forall u | a.start <= u < vpn
      ensures Apart(u, vpn) && Translation(w', root, u) == Some(EMPTY)
    {
      assert u % VPN_LIMIT in Lows(a.start, vpn);
    }
    assert Translation(w, root, vpn) == Translation(w0, root, vpn);
  }

  /**
   * The state of `unmap` before page `vpn`: pages `a.start..vpn` are unmapped from words `w0`,
   * the area has dropped their frames and the allocator no longer counts them as live.
   */
  ghost predicate Unmapping(a: MapArea, cur: MapArea, pt: PageTable, fa: StackFrameAllocator, ram: PhysMem,
                            w0: Words, live0: set<nat>, b0: Bytes, vpn: nat)
    reads pt, fa, ram
  {
    && a.start <= vpn
    && pt.Valid(fa, ram) && ram.bytes == b0
    && cur == AfterUnmap(a, a.start, vpn) && OwnsFrames(cur, pt, fa)
    && fa.live == live0 - FramesOf(a, a.start, vpn)
    && Unmapped(a, w0, ram.words, pt.rootPpn, vpn)
  }

  lemma UnmapBegins(a: MapArea, pt: PageTable, fa: StackFrameAllocator, ram: PhysMem)
    requires pt.Valid(fa, ram) && OwnsFrames(a, pt, fa)
    ensures Unmapping(a, a, pt, fa, ram, ram.words, fa.live, ram.bytes, a.start)
  {
    assert AfterUnmap(a, a.start, a.start).dataFrames == a.dataFrames;
    assert FramesOf(a, a.start, a.start) == {};
    assert Lows(a.start, a.start) == {};
  }

  /** Once the loop has run through the area, what `unmap` promises holds. */
  lemma UnmapEnds(a: MapArea, cur: MapArea, pt: PageTable, fa: StackFrameAllocator, ram: PhysMem,
                  w0: Words, live0: set<nat>, b0: Bytes, vpn: nat)
    requires Unmapping(a, cur, pt, fa, ram, w0, live0, b0, vpn)
    requires vpn == a.end || (a.end <= a.start && vpn == a.start)
    ensures cur == AfterUnmap(a, a.start, a.end) && OwnsFrames(cur, pt, fa)
    ensures fa.live == live0 - FramesOf(a, a.start, a.end)
    ensures PagesApart(a) && forall v :: InArea(a, v) ==> ValidAt(w0, pt.rootPpn, v)
    ensures forall v :: InArea(a, v) ==> Translation(ram.words, pt.rootPpn, v) == Some(EMPTY)
    ensures forall u: nat {:trigger Translation(ram.words, pt.rootPpn, u)} ::
      u % VPN_LIMIT !in Lows(a.start, a.end) ==> Translation(ram.words, pt.rootPpn, u) == Translation(w0, pt.rootPpn, u)
  {
    if vpn != a.end {
      assert AfterUnmap(a, a.start, a.end).dataFrames == AfterUnmap(a, a.start, vpn).dataFrames;
      assert FramesOf(a, a.start, a.end) == {};
      assert Lows(a.start, a.end) == {};
    }
  }

  /** One turn of the `unmap` loop: `unmap_one` on page `vpn`. */
  method UnmapNext(a: MapArea, cur: MapArea, pt: PageTable, vpn: Usize, fa: StackFrameAllocator, ram: PhysMem,
                   ghost w0: Words, ghost live0: set<nat>, ghost b0: Bytes) returns (r: Outcome<MapArea>)
    requires vpn < a.end && Unmapping(a, cur, pt, fa, ram, w0, live0, b0, vpn)
    modifies fa, ram
    ensures pt.Valid(fa, ram) && ram.bytes == b0
    ensures r.Panic? ==> !(PagesApart(a) && forall v :: InArea(a, v) ==> ValidAt(w0, pt.rootPpn, v))
    ensures r.Done? ==> Unmapping(a, r.value, pt, fa, ram, w0, live0, b0, vpn + 1)
  {
    ghost var w := ram.words;
    r := UnmapOne(cur, pt, vpn, fa, ram);
    if r.Panic? {
      UnmapPanics(a, w0, w, pt.rootPpn, vpn);
      return;
    }
    AfterUnmapStep(a, a.start, vpn);
    UnmapProgress(a, w0, w, ram.words, pt.rootPpn, vpn);
  }

  /**
   * `MapArea::unmap`: `unmap_one` on every page of the area in ascending order. It gets through
   * exactly when every page had a valid leaf and no two pages share a leaf slot (a second page on
   * the same slot finds it cleared and panics). Then every page's leaf is empty, the area's frames
   * are dropped, and pages on other leaf slots translate as before.
   */
  method Unmap(a: MapArea, pt: PageTable, fa: StackFrameAllocator, ram: PhysMem) returns (r: Outcome<MapArea>)
    requires pt.Valid(fa, ram) && OwnsFrames(a, pt, fa)
    modifies fa, ram
    ensures pt.Valid(fa, ram)
    ensures ram.bytes == old(ram.bytes)
    ensures r.Done? <==> PagesApart(a) && forall v :: InArea(a, v) ==> ValidAt(old(ram.words), pt.rootPpn, v)
    ensures r.Done? ==> r.value == AfterUnmap(a, a.start, a.end) && OwnsFrames(r.value, pt, fa)
    ensures r.Done? ==> fa.live == old(fa.live) - FramesOf(a, a.start, a.end)
    ensures r.Done? ==> forall v :: InArea(a, v) ==> Translation(ram.words, pt.rootPpn, v) == Some(EMPTY)
    ensures r.Done? ==> forall u: nat {:trigger Translation(ram.words, pt.rootPpn, u)} ::
      u % VPN_LIMIT !in Lows(a.start, a.end) ==> Translation(ram.words, pt.rootPpn, u) == old(Translation(ram.words, pt.rootPpn, u))
  {
    ghost var w0, live0, b0 := ram.words, fa.live, ram.bytes;
    var cur := a;
    var vpn := a.start;
    UnmapBegins(a, pt, fa, ram);
    while vpn < a.end
      invariant vpn <= a.end || vpn == a.start
      invariant Unmapping(a, cur, pt, fa, ram, w0, live0, b0, vpn)
    {
      var next := UnmapNext(a, cur, pt, vpn, fa, ram, w0, live0, b0);
      if next.Panic? {
        return Panic;
      }
      cur := next.value;
      vpn := vpn + 1;
    }
    UnmapEnds(a, cur, pt, fa, ram, w0, live0, b0, vpn);
    r := Done(cur);
  }
}
