/**
 * Address spaces of the newer snapshot (`src/mm/memory_set.rs`): a `MemorySet` is a page table
 * and the list of `MapArea`s mapped into it. An area covers a range of virtual pages with one
 * permission; an identical area maps each page to the physical page of the same number, a framed
 * area to frames of its own, which it keeps by page number.
 */
module MmMemorySet {
  import opened Wrappers
  import opened Sv39
  import opened Pte
  import opened PhysMemory
  import opened PageWalk
  import MmAddress
  import opened MmFrameAllocator
  import opened MmPageTable

  /** `MapPerm`: the R, W, X and U bits, in the positions the page-table entry uses. */
  type MapPerm = bv8

  const PERM_R: MapPerm := 2
  const PERM_W: MapPerm := 4
  const PERM_X: MapPerm := 8
  const PERM_U: MapPerm := 16
  const PERM_RWU: MapPerm := PERM_R | PERM_W | PERM_U
  const PERM_RW: MapPerm := PERM_R | PERM_W
  const PERM_RX: MapPerm := PERM_R | PERM_X

  /** `PTEFlags::from_bits_truncate(perm.bits())` keeps the permission bits as they are. */
  lemma PermBitsAreFlags()
    ensures PERM_R == R && PERM_W == W && PERM_X == X && PERM_U == U
  {
  }

  datatype MapType = Identical | Framed

  /** `MapArea`: the pages `start..end`, their permission and kind, and the frames of a framed area by page. */
  datatype MapArea = MapArea(start: Usize, end: Usize, perm: MapPerm, mapType: MapType, dataFrames: map<nat, Usize>)

  /** The number of pages in `start..end` (none when `end <= start`). */
  function Pages(a: MapArea): nat
  {
    if a.start < a.end then a.end - a.start else 0
  }

  predicate InArea(a: MapArea, v: nat)
  {
    a.start <= v < a.end
  }

  /** `MapArea::new`: from the page holding `vaStart` up to the page boundary at or above `vaEnd`; no frames yet. */
  function MapAreaNew(vaStart: Usize, vaEnd: Usize, perm: MapPerm, mapType: MapType): (a: MapArea)
    ensures a.perm == perm && a.mapType == mapType && a.dataFrames == map[]
  {
    MapArea(MmAddress.Floor(vaStart), MmAddress.Ceil(vaEnd), perm, mapType, map[])
  }

  /**
   * The pages of a new area are exactly those holding a byte of `[vaStart, vaEnd)`, for an end
   * that can be rounded up without overflow.
   */
  lemma MapAreaNewCovers(vaStart: Usize, vaEnd: Usize, perm: MapPerm, mapType: MapType, v: nat)
    requires vaStart < vaEnd <= USIZE_MOD - PAGE_SIZE
    ensures InArea(MapAreaNew(vaStart, vaEnd, perm, mapType), v) <==>
      v * PAGE_SIZE < vaEnd && vaStart < v * PAGE_SIZE + PAGE_SIZE
  {
    var a := MapAreaNew(vaStart, vaEnd, perm, mapType);
    if v * PAGE_SIZE < vaEnd && vaStart < v * PAGE_SIZE + PAGE_SIZE && v >= a.end {
      MulLe(a.end, v, PAGE_SIZE);
    }
    if InArea(a, v) {
      MulLe(v + 1, a.end, PAGE_SIZE);
      MulLe(a.start, v, PAGE_SIZE);
    }
  }

  lemma MulLe(a: nat, b: nat, c: nat)
    requires a <= b
    ensures a * c <= b * c
  {
  }

  /** `MapArea::from_another`: the same pages, permission and kind, with no frames. */
  function FromAnother(a: MapArea): (b: MapArea)
  {
    a.(dataFrames := map[])
  }

  /** The R/W/X flags of an ELF program header. */
  datatype SegmentFlags = SegmentFlags(read: bool, write: bool, execute: bool)

  /**
   * `MapArea::from_ph`: a framed area over `[vaddr, vaddr + memSize)` that always grants U and
   * grants R, W and X exactly when the segment has them. Both ends go through `VirtAddr::from`,
   * which panics on an address outside the Sv39 range; the sum wraps.
   */
  function FromPh(vaddr: Usize, memSize: Usize, flags: SegmentFlags): (r: Outcome<MapArea>)
    ensures r.Done? <==> MmAddress.VirtAddrFromAsWritten(vaddr).Done? && MmAddress.VirtAddrFromAsWritten(WrappingAdd(vaddr, memSize)).Done?
    ensures r.Done? ==> r.value == MapAreaNew(vaddr, WrappingAdd(vaddr, memSize), r.value.perm, Framed)
    ensures r.Done? ==>
      var p := r.value.perm;
      p & PERM_U == PERM_U && (p & PERM_R == PERM_R <==> flags.read) &&
      (p & PERM_W == PERM_W <==> flags.write) && (p & PERM_X == PERM_X <==> flags.execute) &&
      p & !(PERM_R | PERM_W | PERM_X | PERM_U) == 0
  {
    var endVa := MmAddress.VirtAddrFromAsWritten(WrappingAdd(vaddr, memSize));
    var startVa := MmAddress.VirtAddrFromAsWritten(vaddr);
    if endVa.Panic? || startVa.Panic? then Panic
    else
      var p0 := PERM_U;
      var p1 := if flags.read then p0 | PERM_R else p0;
      var p2 := if flags.write then p1 | PERM_W else p1;
      var p3 := if flags.execute then p2 | PERM_X else p2;
      Done(MapAreaNew(startVa.value, endVa.value, p3, Framed))
  }

  /** The frame an area maps page `v` to: `v` itself, or the frame it keeps for `v`. */
  function PpnOf(a: MapArea, v: Usize): Usize
  {
    if a.mapType == Identical then v else if v in a.dataFrames then a.dataFrames[v] else 0
  }

  /** Distinct pages of the area differ in their low 27 bits, so they use distinct leaf slots. */
  ghost predicate PagesApart(a: MapArea)
  {
    forall u, v :: a.start <= u < v < a.end ==> Apart(u, v)
  }

  /** Two page numbers that differ in their low 27 bits, the bits a Sv39 walk looks at. */
  predicate Apart(u: nat, v: nat)
  {
    u % VPN_LIMIT != v % VPN_LIMIT
  }

  lemma LiveChain(live0: set<nat>, live: set<nat>, live': set<nat>, fs0: set<nat>, fs: set<nat>, fs': set<nat>,
                  v: set<Usize>, v': set<Usize>)
    requires live == live0 + (fs - fs0) + v && live' == live + (fs' - fs) + (v' - v)
    requires fs0 <= fs <= fs' && v <= v'
    ensures live' == live0 + (fs' - fs0) + v'
  {
  }

  /**
   * The state `map_area` leaves behind: a framed area keeps a frame for exactly its pages, an
   * identical one none, and every page translates to its frame with the area's permission and V.
   */
  ghost predicate AreaMapped(a: MapArea, words: Words, root: nat)
  {
    && PagesApart(a)
    && (a.mapType == Framed ==> forall v :: v in a.dataFrames <==> InArea(a, v))
    && (a.mapType == Identical ==> a.dataFrames == map[] && (a.start < a.end ==> a.end <= PPN_LIMIT))
    && (forall v: nat :: InArea(a, v) ==> Translation(words, root, v) == Some(New(PpnOf(a, v), a.perm | V)))
  }

  /** The frames of one area are distinct and were not in use before it was mapped. */
  ghost predicate FreshFrames(a: MapArea, before: set<nat>)
  {
    && (forall v :: v in a.dataFrames ==> a.dataFrames[v] !in before)
    && (forall u, v :: u in a.dataFrames && v in a.dataFrames && u != v ==> a.dataFrames[u] != a.dataFrames[v])
  }

  /**
   * `frame_alloc().unwrap()` next to a page table: the fresh frame is none of the table's, so every
   * translation stays as it was.
   */
  method DataFrameAlloc(pt: PageTable, fa: StackFrameAllocator, ram: PhysMem) returns (p: nat)
    requires pt.Valid(fa, ram) && fa.FreeFrameNum() >= 1
    modifies fa, ram
    ensures pt.Valid(fa, ram)
    ensures p !in old(fa.live) && fa.live == old(fa.live) + {p} && fa.FreeFrameNum() == old(fa.FreeFrameNum()) - 1
    ensures p < PPN_LIMIT && p !in pt.FrameSet()
    ensures forall u: nat {:trigger Translation(ram.words, pt.rootPpn, u)} ::
      Translation(ram.words, pt.rootPpn, u) == old(Translation(ram.words, pt.rootPpn, u))
    ensures forall s: Slot :: s.ppn != p ==> ByteAt(ram.bytes, s) == ByteAt(old(ram.bytes), s)
    ensures forall s: Slot :: s.ppn != p ==> WordAt(ram.words, s) == WordAt(old(ram.words), s)
    ensures FrameBytes(ram.bytes, p) == seq(PAGE_SIZE, _ => 0)
  {
    ghost var w := ram.words;
    var frame := FrameAlloc(fa, ram);
    p := frame.value;
    assert p !in pt.FrameSet();
    assert forall s: Slot :: s.ppn == pt.rootPpn || s.ppn in pt.l1 ==> WordAt(ram.words, s) == WordAt(w, s);
    WalkIgnoresLeafLevel(w, ram.words, pt.rootPpn, pt.l1, pt.l2);
    forall u: nat ensures Translation(ram.words, pt.rootPpn, u) == Translation(w, pt.rootPpn, u) {
      if LeafSlot(w, pt.rootPpn, u).Some? {
        LeafSlotInLeafLevel(w, pt.rootPpn, pt.l1, pt.l2, u);
      }
    }
  }

  /** Pages that agree in their low 27 bits share a translation. */
  lemma TranslationLow27(words: Words, root: nat, a: nat, b: nat)
    requires a % VPN_LIMIT == b % VPN_LIMIT
    ensures Translation(words, root, a) == Translation(words, root, b)
  {
    LeafSlotLow27(words, root, a, b);
  }

  lemma ValuesAfterInsert(m: map<nat, Usize>, k: nat, x: Usize)
    requires k !in m
    ensures m[k := x].Values == m.Values + {x}
  {
    var m' := m[k := x];
    assert m'[k] == x;
    forall y | y in m.Values
      ensures y in m'.Values
    {
      var j :| j in m && m[j] == y;
      assert m'[j] == y;
    }
    forall y | y in m'.Values
      ensures y in m.Values + {x}
    {
      var j :| j in m' && m'[j] == y;
      if j != k {
        assert m[j] == y;
      }
    }
  }

  /** Every translation that was valid in `w` is the same in `w'`. */
  ghost predicate KeepsValid(w: Words, w': Words, root: nat)
  {
    forall u: nat {:trigger Translation(w', root, u)} ::
      Translation(w, root, u).Some? && IsValid(Translation(w, root, u).value) ==> Translation(w', root, u) == Translation(w, root, u)
  }

  /**
   * What `map_area` has done once the pages `area.start..v` are mapped, starting from words
   * `w0`, live frames `live0`, table frames `fs0` and bytes `b0`: those pages translate to the
   * area's frames, no other valid translation moved, the area's frames are fresh and distinct,
   * and all frames now live are the table's new frames and the area's.
   */
  ghost predicate Progress(area: MapArea, r: MapArea, v: nat, w0: Words, w: Words, root: nat,
                           live0: set<nat>, live: set<nat>, fs0: set<nat>, fs: set<nat>, b0: Bytes, b: Bytes)
  {
    && area.start <= v <= area.end
    && r == area.(dataFrames := r.dataFrames)
    && (area.mapType == Framed ==> forall u :: u in r.dataFrames <==> area.start <= u < v)
    && (area.mapType == Identical ==> r.dataFrames == map[] && (area.start < v ==> v <= PPN_LIMIT))
    && (forall u: nat :: area.start <= u < v ==> Translation(w, root, u) == Some(New(PpnOf(r, u), area.perm | V)))
    && (forall a, c :: area.start <= a < c < v ==> Apart(a, c))
    && FreshFrames(r, live0) && r.dataFrames.Values !! fs
    && fs0 <= fs && fs - fs0 !! live0
    && live == live0 + (fs - fs0) + r.dataFrames.Values
    && KeepsValid(w0, w, root)
    && (forall s: Slot :: s.ppn in live0 ==> ByteAt(b, s) == ByteAt(b0, s))
  }

  /**
   * The rest of what `map_area` keeps while it maps pages `area.start..v`: none of them had a
   * valid leaf before, and no entry in a frame that was live but not the table's has changed.
   */
  ghost predicate Untouched(area: MapArea, v: nat, w0: Words, w: Words, root: nat, live0: set<nat>, fs0: set<nat>)
  {
    && (forall u: nat :: area.start <= u < v ==> !ValidAt(w0, root, u))
    && (forall s: Slot :: s.ppn in live0 && s.ppn !in fs0 ==> WordAt(w, s) == WordAt(w0, s))
  }

  /** Mapping page `v`, which had no valid leaf, keeps `Untouched` one page further. */
  lemma UntouchedStep(area: MapArea, v: nat, w0: Words, w: Words, w': Words, root: nat,
                      live0: set<nat>, live: set<nat>, fs0: set<nat>, fs: set<nat>)
    requires Untouched(area, v, w0, w, root, live0, fs0) && KeepsValid(w0, w, root)
    requires !ValidAt(w, root, v)
    requires live0 <= live && fs0 <= fs && fs - fs0 !! live0
    requires forall s: Slot :: s.ppn in live && s.ppn !in fs ==> WordAt(w', s) == WordAt(w, s)
    ensures Untouched(area, v + 1, w0, w', root, live0, fs0)
  {
  }

  /** Page `u` has a leaf entry and it is valid. */
  ghost predicate ValidAt(words: Words, root: nat, u: nat)
  {
    Translation(words, root, u).Some? && IsValid(Translation(words, root, u).value)
  }

  /** No page apart from `v` is valid in `w'` unless it was valid in `w`. */
  ghost predicate ValidOnlyBefore(w: Words, w': Words, root: nat, v: nat)
  {
    forall u: nat :: Apart(u, v) && ValidAt(w', root, u) ==> ValidAt(w, root, u)
  }

  /**
   * What `map_area` needs in order not to panic: the pages of the area use distinct leaf slots,
   * none of them has a valid leaf yet, and an identical area's pages are physical page numbers.
   */
  ghost predicate Mappable(area: MapArea, words: Words, root: nat)
  {
    && PagesApart(area)
    && (forall u: nat :: InArea(area, u) ==> !ValidAt(words, root, u))
    && (area.mapType == Identical ==> forall u: nat :: InArea(area, u) ==> u < PPN_LIMIT)
  }

  /** While `map_area` works on page `v` of an area it can map, the pages from `v` on are still unmapped. */
  ghost predicate StillFree(area: MapArea, v: nat, w0: Words, w: Words, root: nat)
  {
    Mappable(area, w0, root) ==> forall u: nat :: v <= u < area.end ==> !ValidAt(w, root, u)
  }

  /** Mapping page `v` as `MapOne` does extends the progress of `map_area` by one page. */
  lemma ProgressStep(area: MapArea, r: MapArea, r': MapArea, v: nat, w0: Words, w: Words, w': Words, root: nat,
                     live0: set<nat>, live: set<nat>, live': set<nat>, fs0: set<nat>, fs: set<nat>, fs': set<nat>,
                     b0: Bytes, b: Bytes, b': Bytes)
    requires Progress(area, r, v, w0, w, root, live0, live, fs0, fs, b0, b) && v < area.end
    requires r' == area.(dataFrames := r'.dataFrames)
    requires area.mapType == Identical ==> r'.dataFrames == map[] && v < PPN_LIMIT
    requires area.mapType == Framed ==>
      v in r'.dataFrames && r'.dataFrames == r.dataFrames[v := r'.dataFrames[v]] && r'.dataFrames[v] !in live
    requires Translation(w', root, v) == Some(New(PpnOf(r', v), area.perm | V))
    requires !(Translation(w, root, v).Some? && IsValid(Translation(w, root, v).value))
    requires r.dataFrames.Values <= r'.dataFrames.Values && r'.dataFrames.Values !! fs'
    requires fs <= fs' && fs' - fs !! live
    requires live' == live + (fs' - fs) + (r'.dataFrames.Values - r.dataFrames.Values)
    requires KeepsValid(w, w', root)
    requires forall s: Slot :: s.ppn in live ==> ByteAt(b', s) == ByteAt(b, s)
    ensures Progress(area, r', v + 1, w0, w', root, live0, live', fs0, fs', b0, b')
  {
    forall u | area.start <= u < v
      ensures Apart(u, v) && PpnOf(r', u) == PpnOf(r, u)
      ensures Translation(w', root, u) == Translation(w, root, u)
    {
      ValidityOfNew(PpnOf(r, u), area.perm | V);
      if !Apart(u, v) {
        TranslationLow27(w, root, u, v);
        assert false;
      }
    }
    assert forall a, c :: area.start <= a < c < v + 1 ==> Apart(a, c);
    assert area.mapType == Framed ==> forall u :: u in r'.dataFrames <==> area.start <= u < v + 1;
    assert FreshFrames(r', live0);
  }

  /**
   * A frame allocation, which moves no translation (`w0` to `w1`), followed by `map` of page `v`
   * (`w1` to `w2`): the pages valid at first stay as they were, no page apart from `v` becomes
   * valid, and `v` is valid before the `map` exactly when it was at first.
   */
  lemma MapAfterAlloc(w0: Words, w1: Words, w2: Words, root: nat, v: nat)
    requires forall u: nat {:trigger Translation(w1, root, u)} :: Translation(w1, root, u) == Translation(w0, root, u)
    requires KeepsValid(w1, w2, root)
    requires forall u: nat {:trigger Translation(w2, root, u)} ::
      u % VPN_LIMIT != v % VPN_LIMIT && Translation(w2, root, u).Some? && IsValid(Translation(w2, root, u).value) ==>
      Translation(w1, root, u) == Translation(w2, root, u)
    ensures KeepsValid(w0, w2, root) && ValidOnlyBefore(w0, w2, root, v)
    ensures ValidAt(w1, root, v) <==> ValidAt(w0, root, v)
  {
    assert Translation(w1, root, v) == Translation(w0, root, v);
  }

  /**
   * One page of `map_area`: find the frame for page `v` (allocating one for a framed area,
   * recording it in the area) and map it. `ok == false` is a panic, either in
   * `PhysPageNum::from` or because the page was already mapped.
   */
  method MapOne(area: MapArea, r: MapArea, v: Usize, pt: PageTable, fa: StackFrameAllocator, ram: PhysMem)
    returns (r': MapArea, ok: bool)
    requires pt.Valid(fa, ram) && fa.FreeFrameNum() >= 3
    requires r == area.(dataFrames := r.dataFrames)
    requires area.mapType == Framed ==> v !in r.dataFrames
    requires area.mapType == Identical ==> r.dataFrames == map[]
    requires r.dataFrames.Values !! pt.FrameSet() && r.dataFrames.Values <= fa.live
    modifies pt, fa, ram
    ensures pt.Valid(fa, ram) && pt.rootPpn == old(pt.rootPpn) && pt.leafs == old(pt.leafs)
    ensures fa.FreeFrameNum() + 3 >= old(fa.FreeFrameNum())
    ensures ok ==> r' == area.(dataFrames := r'.dataFrames)
    ensures ok ==> area.mapType == Identical ==> r'.dataFrames == map[] && v < PPN_LIMIT
    ensures ok ==> area.mapType == Framed ==>
      v in r'.dataFrames && r'.dataFrames == r.dataFrames[v := r'.dataFrames[v]] && r'.dataFrames[v] !in old(fa.live)
    ensures ok ==> Translation(ram.words, pt.rootPpn, v) == Some(New(PpnOf(r', v), area.perm | V))
    ensures ok ==> !(old(Translation(ram.words, pt.rootPpn, v)).Some? && IsValid(old(Translation(ram.words, pt.rootPpn, v)).value))
    ensures ok ==> r.dataFrames.Values <= r'.dataFrames.Values && r'.dataFrames.Values !! pt.FrameSet()
    ensures ok ==> old(pt.FrameSet()) <= pt.FrameSet() && pt.FrameSet() - old(pt.FrameSet()) !! old(fa.live)
    ensures ok ==> fa.live == old(fa.live) + (pt.FrameSet() - old(pt.FrameSet())) + (r'.dataFrames.Values - r.dataFrames.Values)
    ensures ok ==> KeepsValid(old(ram.words), ram.words, pt.rootPpn)
    ensures ok ==> forall s: Slot :: s.ppn in old(fa.live) ==> ByteAt(ram.bytes, s) == ByteAt(old(ram.bytes), s)
    ensures ok ==> forall s: Slot :: s.ppn in old(fa.live) && s.ppn !in old(pt.FrameSet()) ==> WordAt(ram.words, s) == WordAt(old(ram.words), s)
    ensures ok <==> (area.mapType == Identical ==> v < PPN_LIMIT) && !old(ValidAt(ram.words, pt.rootPpn, v))
    ensures ValidOnlyBefore(old(ram.words), ram.words, pt.rootPpn, v)
  {
    if area.mapType == Identical {
      var p := MmAddress.PhysPageNumFrom(v);
      if p.Panic? {
        return r, false;
      }
      r' := r;
      ok := pt.Map(v, p.value, area.perm, fa, ram);
    } else {
      ghost var w0 := ram.words;
      var ppn := DataFrameAlloc(pt, fa, ram);
      ghost var w1 := ram.words;
      r' := r.(dataFrames := r.dataFrames[v := ppn]);
      ValuesAfterInsert(r.dataFrames, v, ppn);
      ok := pt.Map(v, ppn, area.perm, fa, ram);
      MapAfterAlloc(w0, w1, ram.words, pt.rootPpn, v);
    }
  }

  /**
   * `MapArea::map_area`: map every page of the area in order, an identical page to the physical
   * page of the same number, a framed page to a fresh frame the area records. `ok == false` is a
   * panic (a page number that is not a physical one, or a page already mapped); the model says
   * nothing about the memory after a panic.
   */
  method MapAreaMap(area: MapArea, pt: PageTable, fa: StackFrameAllocator, ram: PhysMem) returns (r: MapArea, ok: bool)
    requires pt.Valid(fa, ram) && area.dataFrames == map[]
    requires fa.FreeFrameNum() >= 3 * Pages(area)
    modifies pt, fa, ram
    ensures pt.Valid(fa, ram) && pt.rootPpn == old(pt.rootPpn) && pt.leafs == old(pt.leafs)
    ensures fa.FreeFrameNum() + 3 * Pages(area) >= old(fa.FreeFrameNum())
    ensures ok ==> r == area.(dataFrames := r.dataFrames)
    ensures ok ==> AreaMapped(r, ram.words, pt.rootPpn)
    ensures ok ==> FreshFrames(r, old(fa.live)) && r.dataFrames.Values !! pt.FrameSet()
    ensures ok ==> old(pt.FrameSet()) <= pt.FrameSet() && pt.FrameSet() - old(pt.FrameSet()) !! old(fa.live)
    ensures ok ==> fa.live == old(fa.live) + (pt.FrameSet() - old(pt.FrameSet())) + r.dataFrames.Values
    ensures ok ==> KeepsValid(old(ram.words), ram.words, pt.rootPpn)
    ensures ok ==> forall s: Slot :: s.ppn in old(fa.live) ==> ByteAt(ram.bytes, s) == ByteAt(old(ram.bytes), s)
    ensures ok <==> Mappable(area, old(ram.words), pt.rootPpn)
    ensures ok ==> forall s: Slot :: s.ppn in old(fa.live) && s.ppn !in old(pt.FrameSet()) ==> WordAt(ram.words, s) == WordAt(old(ram.words), s)
  {
    r := area;
    ok := true;
    if area.end <= area.start {
      return;
    }
    var v := area.start;
    while v < area.end
      invariant pt.Valid(fa, ram) && pt.rootPpn == old(pt.rootPpn) && pt.leafs == old(pt.leafs)
      invariant fa.FreeFrameNum() + 3 * (v - area.start) >= old(fa.FreeFrameNum())
      invariant Progress(area, r, v, old(ram.words), ram.words, pt.rootPpn, old(fa.live), fa.live,
                         old(pt.FrameSet()), pt.FrameSet(), old(ram.bytes), ram.bytes)
      invariant Untouched(area, v, old(ram.words), ram.words, pt.rootPpn, old(fa.live), old(pt.FrameSet()))
      invariant StillFree(area, v, old(ram.words), ram.words, pt.rootPpn)
    {
      r, ok := MapNext(area, r, v, pt, fa, ram, old(ram.words), old(fa.live), old(pt.FrameSet()), old(ram.bytes));
      if !ok {
        return;
      }
      v := v + 1;
    }
  }

  /** One turn of the `map_area` loop: map page `v` and carry what the loop keeps one page further. */
  method MapNext(area: MapArea, r: MapArea, v: Usize, pt: PageTable, fa: StackFrameAllocator, ram: PhysMem,
                 ghost w0: Words, ghost live0: set<nat>, ghost fs0: set<nat>, ghost b0: Bytes) returns (r': MapArea, ok: bool)
    requires v < area.end && pt.Valid(fa, ram) && fa.FreeFrameNum() >= 3
    requires Progress(area, r, v, w0, ram.words, pt.rootPpn, live0, fa.live, fs0, pt.FrameSet(), b0, ram.bytes)
    requires Untouched(area, v, w0, ram.words, pt.rootPpn, live0, fs0)
    requires StillFree(area, v, w0, ram.words, pt.rootPpn)
    modifies pt, fa, ram
    ensures pt.Valid(fa, ram) && pt.rootPpn == old(pt.rootPpn) && pt.leafs == old(pt.leafs)
    ensures fa.FreeFrameNum() + 3 >= old(fa.FreeFrameNum())
    ensures ok ==> Progress(area, r', v + 1, w0, ram.words, pt.rootPpn, live0, fa.live, fs0, pt.FrameSet(), b0, ram.bytes)
    ensures ok ==> Untouched(area, v + 1, w0, ram.words, pt.rootPpn, live0, fs0)
    ensures Mappable(area, w0, pt.rootPpn) ==> ok && StillFree(area, v + 1, w0, ram.words, pt.rootPpn)
  {
    ghost var w, live, fs, b := ram.words, fa.live, pt.FrameSet(), ram.bytes;
    r', ok := MapOne(area, r, v, pt, fa, ram);
    if Mappable(area, w0, pt.rootPpn) {
      assert InArea(area, v) && !ValidAt(w, pt.rootPpn, v);
      forall u: nat | v + 1 <= u < area.end
        ensures !ValidAt(ram.words, pt.rootPpn, u)
      {
        assert Apart(v, u) && Apart(u, v) && !ValidAt(w, pt.rootPpn, u);
      }
    }
    if !ok {
      return;
    }
    ProgressStep(area, r, r', v, w0, w, ram.words, pt.rootPpn, live0, live, fa.live, fs0, fs, pt.FrameSet(), b0, b, ram.bytes);
    UntouchedStep(area, v, w0, w, ram.words, pt.rootPpn, live0, live, fs0, fs);
  }
}
