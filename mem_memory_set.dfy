/**
 * Address spaces of the older snapshot (`src/mem/memory_set.rs`): a `MapArea` is a range of
 * virtual pages with one permission, mapped either to the physical pages of the same number
 * (identical) or to frames of its own, which it keeps in page order; a `MemorySet` is a page
 * table and the areas pushed into it.
 *
 * The page table of this snapshot stores the permission bits without V, so every leaf it writes
 * is invalid in the hardware's sense: mapping a page twice does not panic, the later mapping
 * simply replaces the earlier one.
 */
module MemMemorySet {
  import opened Wrappers
  import opened Sv39
  import opened Pte
  import opened PhysMemory
  import opened PageWalk
  import MemAddress
  import opened MemFrameAllocator
  import opened MemPageTable
  import opened PageCopy

  /** `MapPermission`: the R, W, X and U bits, in the positions the page-table entry uses. */
  type MapPermission = bv8

  const PERM_R: MapPermission := 2
  const PERM_W: MapPermission := 4
  const PERM_X: MapPermission := 8
  const PERM_U: MapPermission := 16

  /** `PTEFlags::from_bits_truncate(perm.bits)`: every bit of a `u8` is a flag, so the bits pass unchanged. */
  function PermFlags(perm: MapPermission): (f: PteFlags)
    ensures perm == PERM_R | PERM_X ==> f == R | X
    ensures perm == PERM_R ==> f == R
    ensures perm == PERM_R | PERM_W ==> f == R | W
    ensures perm & 1 == 0 ==> f & V == 0
  {
    perm
  }

  datatype MapType = Identical | Framed

  /**
   * `MapArea`: the pages `start..end` (`VPNRange`), the frames of a framed area as pairs of page
   * and frame in increasing page order (the `BTreeMap`), the permission and the kind.
   */
  datatype MapArea = MapArea(start: Usize, end: Usize, frames: seq<(Usize, Usize)>, perm: MapPermission, mapType: MapType)

  /** The number of pages of an area whose range is well formed. */
  function Pages(a: MapArea): nat
    requires a.start <= a.end
  {
    a.end - a.start
  }

  predicate InArea(a: MapArea, v: nat)
  {
    a.start <= v < a.end
  }

  /** `size`: `(end - start) * PAGE_SIZE` on machine words, both operations wrapping. */
  function Size(a: MapArea): (n: Usize)
    ensures a.start <= a.end && (a.end - a.start) * PAGE_SIZE < USIZE_MOD ==> n == (a.end - a.start) * PAGE_SIZE
  {
    (WrappingSub(a.end, a.start) * PAGE_SIZE) % USIZE_MOD
  }

  /**
   * `MapArea::new`: from the page holding `startVa` to the page boundary at or above `endVa`,
   * with no frames. `VPNRange::new` panics when the first page lies above the last boundary.
   */
  function MapAreaNew(startVa: MemAddress.VirtAddr, endVa: MemAddress.VirtAddr, perm: MapPermission, mapType: MapType)
    : (r: Outcome<MapArea>)
    ensures r.Done? ==> r.value.start <= r.value.end && r.value.frames == []
    ensures r.Done? ==> r.value.perm == perm && r.value.mapType == mapType
  {
    var range := MemAddress.SimpleRangeNew(MemAddress.Floor(startVa), MemAddress.Ceil(endVa));
    if range.Panic? then Panic else Done(MapArea(range.value.l, range.value.r, [], perm, mapType))
  }

  lemma MulLe(a: nat, b: nat, c: nat)
    requires a <= b
    ensures a * c <= b * c
  {
  }

  /**
   * For an ordered pair of addresses whose end can be rounded up, `new` succeeds, its pages are
   * exactly those holding a byte of `[startVa, endVa)`, and `size` is a whole number of pages no
   * smaller than the span and less than two pages larger.
   */
  lemma NewCovers(startVa: Usize, endVa: Usize, perm: MapPermission, mapType: MapType)
    requires startVa <= endVa <= USIZE_MOD - PAGE_SIZE
    ensures MapAreaNew(startVa, endVa, perm, mapType).Done?
    ensures var a := MapAreaNew(startVa, endVa, perm, mapType).value;
      && (forall v: nat :: InArea(a, v) <==> v * PAGE_SIZE < endVa && startVa < v * PAGE_SIZE + PAGE_SIZE)
      && Size(a) % PAGE_SIZE == 0 && endVa - startVa <= Size(a) < endVa - startVa + 2 * PAGE_SIZE
  {
    var s, e := MemAddress.Floor(startVa), MemAddress.Ceil(endVa);
    assert e * PAGE_SIZE < endVa + PAGE_SIZE;
    MulLe(s, e, PAGE_SIZE);
    var a := MapAreaNew(startVa, endVa, perm, mapType).value;
    assert (e - s) * PAGE_SIZE == e * PAGE_SIZE - s * PAGE_SIZE;
    forall v: nat ensures InArea(a, v) <==> v * PAGE_SIZE < endVa && startVa < v * PAGE_SIZE + PAGE_SIZE {
      if InArea(a, v) {
        MulLe(v + 1, e, PAGE_SIZE);
        MulLe(s, v, PAGE_SIZE);
      }
    }
  }

  /** Distinct pages less than `VPN_LIMIT` apart differ in their low 27 bits, the bits a Sv39 walk reads. */
  lemma WindowApart(u: nat, v: nat)
    requires u < v < u + VPN_LIMIT
    ensures u % VPN_LIMIT != v % VPN_LIMIT
  {
  }

  /** An area no larger than the Sv39 space: its pages reach distinct leaf slots. */
  predicate Window(a: MapArea)
  {
    a.start <= a.end <= a.start + VPN_LIMIT
  }

  /** Page `u` differs in its low 27 bits from every page of `lo..hi`. */
  ghost predicate ApartFrom(lo: nat, hi: nat, u: nat)
  {
    forall p :: lo <= p < hi ==> p % VPN_LIMIT != u % VPN_LIMIT
  }

  /** Page `u` has a leaf entry and it is valid. */
  ghost predicate ValidAt(words: Words, root: nat, u: nat)
  {
    Translation(words, root, u).Some? && IsValid(Translation(words, root, u).value)
  }

  /** The frame page `v` of area `a` maps to: the page number masked to 44 bits, or the frame recorded for `v`. */
  function PpnOf(a: MapArea, v: Usize): Usize
  {
    if a.mapType == Identical then MemAddress.PageNumFrom(v)
    else if a.start <= v < a.start + |a.frames| then a.frames[v - a.start].1 else 0
  }

  /** The frames an area records. */
  ghost function FramePpns(a: MapArea): set<Usize>
  {
    set i | 0 <= i < |a.frames| :: a.frames[i].1
  }

  /** A framed area records one frame for each of the pages `start..v`, in page order; an identical area none. */
  ghost predicate Recorded(a: MapArea, v: nat)
  {
    && (a.mapType == Identical ==> a.frames == [])
    && (a.mapType == Framed ==> a.start + |a.frames| == v && forall i :: 0 <= i < |a.frames| ==> a.frames[i].0 == a.start + i)
  }

  /** The recorded frames are distinct and were not in use in `before`. */
  ghost predicate FreshFrames(a: MapArea, before: set<nat>)
  {
    && (forall i :: 0 <= i < |a.frames| ==> a.frames[i].1 !in before)
    && (forall i, j :: 0 <= i < j < |a.frames| ==> a.frames[i].1 != a.frames[j].1)
  }

  /**
   * The pages `area.start..v` translate to their frames with the area's permission as flags, and
   * none of them had a valid leaf in `w0`.
   */
  ghost predicate MappedPages(area: MapArea, r: MapArea, v: nat, w0: Words, w: Words, root: nat)
  {
    forall u: Usize :: area.start <= u < v ==>
      Translation(w, root, u) == Some(New(PpnOf(r, u), PermFlags(area.perm))) && !ValidAt(w0, root, u)
  }

  /** Every page apart from the pages `lo..v` that had a leaf in `w0` has the same leaf in `w`. */
  ghost predicate KeptApart(lo: nat, v: nat, w0: Words, w: Words, root: nat)
  {
    forall u: nat {:trigger Translation(w, root, u)} ::
      ApartFrom(lo, v, u) && Translation(w0, root, u).Some? ==> Translation(w, root, u) == Translation(w0, root, u)
  }

  /**
   * What `map` has done once the pages `area.start..v` are mapped, from words `w0`, live frames
   * `live0`, table frames `fs0` and bytes `b0`: in an area that fits the Sv39 space those pages
   * translate to their frames with the area's permission and had no valid leaf before; every other
   * page that had a leaf and is apart from them still has it; the recorded frames are fresh, and
   * the frames now live are the table's new ones and the recorded ones.
   */
  ghost predicate MapProgress(area: MapArea, r: MapArea, v: nat, w0: Words, w: Words, root: nat,
                              live0: set<nat>, live: set<nat>, fs0: set<nat>, fs: set<nat>, b0: Bytes, b: Bytes)
  {
    && area.start <= v <= area.end
    && r == area.(frames := r.frames) && Recorded(r, v)
    && (Window(area) ==> MappedPages(area, r, v, w0, w, root))
    && KeptApart(area.start, v, w0, w, root)
    && FreshFrames(r, live0) && FramePpns(r) !! fs
    && fs0 <= fs && fs - fs0 !! live0
    && live == live0 + (fs - fs0) + FramePpns(r)
    && (forall s: Slot :: s.ppn in live0 ==> ByteAt(b, s) == ByteAt(b0, s))
  }

  /** Recording frame `p` for page `v` of a framed area keeps the frames of the earlier pages. */
  lemma RecordFrame(r: MapArea, v: Usize, p: Usize, before: set<nat>)
    requires r.mapType == Framed && r.start <= v && Recorded(r, v)
    requires FreshFrames(r, before) && p !in before && p !in FramePpns(r)
    ensures var r' := r.(frames := r.frames + [(v, p)]);
      && Recorded(r', v + 1) && FramePpns(r') == FramePpns(r) + {p} && PpnOf(r', v) == p
      && (forall u: Usize :: r.start <= u < v ==> PpnOf(r', u) == PpnOf(r, u))
      && FreshFrames(r', before)
  {
    var r' := r.(frames := r.frames + [(v, p)]);
    assert r'.frames[|r.frames|] == (v, p);
    forall x | x in FramePpns(r') ensures x in FramePpns(r) + {p} {
      var i :| 0 <= i < |r'.frames| && r'.frames[i].1 == x;
      if i < |r.frames| {
        assert r.frames[i].1 == x;
      }
    }
    forall x | x in FramePpns(r) ensures x in FramePpns(r') {
      var i :| 0 <= i < |r.frames| && r.frames[i].1 == x;
      assert r'.frames[i] == r.frames[i];
    }
  }

  /** Mapping page `v` as `MapOne` does extends the progress of `map` by one page; `p` is the frame a framed area records. */
  lemma MapProgressStep(area: MapArea, r: MapArea, r': MapArea, v: Usize, p: Usize, w0: Words, w: Words, w': Words, root: nat,
                        live0: set<nat>, live: set<nat>, live': set<nat>, fs0: set<nat>, fs: set<nat>, fs': set<nat>,
                        b0: Bytes, b: Bytes, b': Bytes)
    requires MapProgress(area, r, v, w0, w, root, live0, live, fs0, fs, b0, b) && v < area.end
    requires area.mapType == Identical ==> r' == r
    requires area.mapType == Framed ==> r' == r.(frames := r.frames + [(v, p)]) && p !in live && p !in fs'
    requires Translation(w', root, v) ==
      Some(New(if area.mapType == Framed then p else MemAddress.PageNumFrom(v), PermFlags(area.perm)))
    requires !ValidAt(w, root, v)
    requires forall u: nat :: u % VPN_LIMIT != v % VPN_LIMIT && Translation(w, root, u).Some? ==>
      Translation(w', root, u) == Translation(w, root, u)
    requires fs <= fs' && fs' - fs !! live
    requires live' == live + (fs' - fs) + (if area.mapType == Framed then {p} else {})
    requires forall s: Slot :: s.ppn in live ==> ByteAt(b', s) == ByteAt(b, s)
    ensures MapProgress(area, r', v + 1, w0, w', root, live0, live', fs0, fs', b0, b')
  {
    if area.mapType == Framed {
      RecordFrame(r, v, p, live0);
    }
    if Window(area) {
      forall u: Usize | area.start <= u < v
        ensures Translation(w', root, u) == Some(New(PpnOf(r', u), PermFlags(area.perm)))
      {
        WindowApart(u, v);
      }
      assert ApartFrom(area.start, v, v) by {
        forall q | area.start <= q < v ensures q % VPN_LIMIT != v % VPN_LIMIT {
          WindowApart(q, v);
        }
      }
    }
    forall u: nat | ApartFrom(area.start, v + 1, u) && Translation(w0, root, u).Some?
      ensures Translation(w', root, u) == Translation(w0, root, u)
    {
      assert ApartFrom(area.start, v, u);
      assert v % VPN_LIMIT != u % VPN_LIMIT;
    }
  }

  /**
   * `frame_alloc().unwrap()` next to a page table: the fresh frame is none of the table's, so the
   * table stays well formed and every translation stays as it was.
   */
  method DataFrameAlloc(pt: PageTable, fa: StackFrameAllocator, ram: PhysMem) returns (p: Usize)
    requires pt.Valid(fa, ram) && fa.FreeFrameNum() >= 1
    modifies fa, ram
    ensures pt.Valid(fa, ram)
    ensures p !in old(fa.live) && fa.live == old(fa.live) + {p} && fa.FreeFrameNum() == old(fa.FreeFrameNum()) - 1
    ensures p !in pt.FrameSet()
    ensures forall u: nat {:trigger Translation(ram.words, pt.rootPpn, u)} ::
      Translation(ram.words, pt.rootPpn, u) == old(Translation(ram.words, pt.rootPpn, u))
    ensures forall s: Slot :: s.ppn != p ==> ByteAt(ram.bytes, s) == ByteAt(old(ram.bytes), s)
    ensures FrameBytes(ram.bytes, p) == seq(PAGE_SIZE, _ => 0)
  {
    ghost var w := ram.words;
    var frame := FrameAlloc(fa, ram);
    p := frame.value;
    assert p !in pt.FrameSet();
    assert forall s: Slot :: s.ppn == pt.rootPpn || s.ppn in pt.l1 ==> WordAt(ram.words, s) == WordAt(w, s);
    WalkIgnoresLeafLevel(w, ram.words, pt.rootPpn, pt.l1, pt.l2);
    forall u: nat ensures Translation(ram.words, pt.rootPpn, u) == Translation(w, pt.rootPpn, u) {
      if LeafSlot(w, pt.rootPpn, u).Some? {
        LeafSlotInLeafLevel(w, pt.rootPpn, pt.l1, pt.l2, u);
      }
    }
  }

  /**
   * One pass of the `map` loop: the frame for page `v` (the page number itself, or a fresh frame
   * the area records as `p`), then `page_table.map` with the permission bits as flags.
   * `ok == false` is the panic of a page whose leaf is already valid.
   */
  method MapOne(area: MapArea, r: MapArea, v: Usize, pt: PageTable, fa: StackFrameAllocator, ram: PhysMem)
    returns (r': MapArea, ghost p: Usize, ok: bool)
    requires pt.Valid(fa, ram) && fa.FreeFrameNum() >= 3
    modifies pt, fa, ram
    ensures pt.Valid(fa, ram) && pt.rootPpn == old(pt.rootPpn)
    ensures fa.FreeFrameNum() + 3 >= old(fa.FreeFrameNum())
    ensures area.mapType == Identical ==> r' == r
    ensures area.mapType == Framed ==> r' == r.(frames := r.frames + [(v, p)]) && p !in old(fa.live) && p !in pt.FrameSet()
    ensures ok ==> Translation(ram.words, pt.rootPpn, v) == Some(New(if area.mapType == Framed then p else MemAddress.PageNumFrom(v), PermFlags(area.perm)))
    ensures ok <==> !old(ValidAt(ram.words, pt.rootPpn, v))
    ensures forall u: nat :: u % VPN_LIMIT != v % VPN_LIMIT && old(Translation(ram.words, pt.rootPpn, u)).Some? ==>
      Translation(ram.words, pt.rootPpn, u) == old(Translation(ram.words, pt.rootPpn, u))
    ensures old(pt.FrameSet()) <= pt.FrameSet() && pt.FrameSet() - old(pt.FrameSet()) !! old(fa.live)
    ensures fa.live == old(fa.live) + (pt.FrameSet() - old(pt.FrameSet())) + (if area.mapType == Framed then {p} else {})
    ensures forall s: Slot :: s.ppn in old(fa.live) ==> ByteAt(ram.bytes, s) == ByteAt(old(ram.bytes), s)
  {
    r' := r;
    p := 0;
    var ppn: Usize;
    if area.mapType == Identical {
      ppn := MemAddress.PageNumFrom(v);
    } else {
      ppn := DataFrameAlloc(pt, fa, ram);
      p := ppn;
      r' := r.(frames := r.frames + [(v, ppn)]);
    }
    ok := pt.Map(v, ppn, PermFlags(area.perm), fa, ram);
  }

  /** One turn of the `map` loop: map page `v` and carry what the loop keeps one page further. */
  method MapNext(area: MapArea, r: MapArea, v: Usize, pt: PageTable, fa: StackFrameAllocator, ram: PhysMem,
                 ghost w0: Words, ghost live0: set<nat>, ghost fs0: set<nat>, ghost b0: Bytes) returns (r': MapArea, ok: bool)
    requires v < area.end && pt.Valid(fa, ram) && fa.FreeFrameNum() >= 3
    requires MapProgress(area, r, v, w0, ram.words, pt.rootPpn, live0, fa.live, fs0, pt.FrameSet(), b0, ram.bytes)
    modifies pt, fa, ram
    ensures pt.Valid(fa, ram) && pt.rootPpn == old(pt.rootPpn)
    ensures fa.FreeFrameNum() + 3 >= old(fa.FreeFrameNum())
    ensures ok ==> MapProgress(area, r', v + 1, w0, ram.words, pt.rootPpn, live0, fa.live, fs0, pt.FrameSet(), b0, ram.bytes)
  {
    ghost var w, live, fs, b := ram.words, fa.live, pt.FrameSet(), ram.bytes;
    ghost var p;
    r', p, ok := MapOne(area, r, v, pt, fa, ram);
    if !ok {
      return;
    }
    MapProgressStep(area, r, r', v, p, w0, w, ram.words, pt.rootPpn, live0, live, fa.live, fs0, fs, pt.FrameSet(), b0, b, ram.bytes);
  }

  /**
   * `MapArea::map`: map every page of the area in order, an identical page to the physical page
   * of the same number (masked to 44 bits), a framed page to a fresh frame the area records; the
   * leaf flags are the permission bits, without V. `ok == false` is a panic (a page whose leaf is
   * already valid); the model says nothing about the memory after a panic. On success the area
   * has made the progress `MapProgress` describes over all its pages.
   */
  method Map(area: MapArea, pt: PageTable, fa: StackFrameAllocator, ram: PhysMem) returns (r: MapArea, ok: bool)
    requires area.start <= area.end && area.frames == []
    requires pt.Valid(fa, ram) && fa.FreeFrameNum() >= 3 * Pages(area)
    modifies pt, fa, ram
    ensures pt.Valid(fa, ram) && pt.rootPpn == old(pt.rootPpn)
    ensures fa.FreeFrameNum() + 3 * Pages(area) >= old(fa.FreeFrameNum())
    ensures ok ==> MapProgress(area, r, area.end, old(ram.words), ram.words, pt.rootPpn, old(fa.live), fa.live,
                               old(pt.FrameSet()), pt.FrameSet(), old(ram.bytes), ram.bytes)
  {
    r := area;
    ok := true;
    ghost var w0, live0, fs0, b0 := ram.words, fa.live, pt.FrameSet(), ram.bytes;
    assert FramePpns(r) == {};
    var v := area.start;
    while v < area.end
      invariant area.start <= v <= area.end
      invariant pt.Valid(fa, ram) && pt.rootPpn == old(pt.rootPpn)
      invariant fa.FreeFrameNum() + 3 * (v - area.start) >= old(fa.FreeFrameNum())
      invariant MapProgress(area, r, v, w0, ram.words, pt.rootPpn, live0, fa.live, fs0, pt.FrameSet(), b0, ram.bytes)
    {
      r, ok := MapNext(area, r, v, pt, fa, ram, w0, live0, fs0, b0);
      if !ok {
        return;
      }
      v := v + 1;
    }
  }

  /** The frames of the first `i` pages an area records. */
  ghost function PpnsBefore(a: MapArea, i: nat): set<nat>
    requires i <= |a.frames|
  {
    set j | 0 <= j < i :: a.frames[j].1
  }

  /** The area's recorded frames are distinct, in use, and none of the table's. */
  ghost predicate FramesHeld(a: MapArea, pt: PageTable, fa: StackFrameAllocator)
    reads pt, fa
  {
    && (forall i, j :: 0 <= i < j < |a.frames| ==> a.frames[i].1 != a.frames[j].1)
    && (forall i :: 0 <= i < |a.frames| ==> a.frames[i].1 in fa.live && a.frames[i].1 !in pt.FrameSet())
  }

  /** Every one of the pages `area.start..v` had a leaf that was not valid in `w0`, and now has an empty one. */
  ghost predicate UnmappedPages(area: MapArea, v: nat, w0: Words, w: Words, root: nat)
  {
    forall u: nat :: area.start <= u < v ==>
      Translation(w0, root, u).Some? && !IsValid(Translation(w0, root, u).value) && Translation(w, root, u) == Some(EMPTY)
  }

  /** Every page apart from the pages `lo..v` translates in `w` as it did in `w0`. */
  ghost predicate SameApart(lo: nat, v: nat, w0: Words, w: Words, root: nat)
  {
    forall u: nat {:trigger Translation(w, root, u)} :: ApartFrom(lo, v, u) ==> Translation(w, root, u) == Translation(w0, root, u)
  }

  /** In an area that fits the Sv39 space, page `v` still translates as it did before the pages `area.start..v` were touched. */
  lemma NotYetTouched(area: MapArea, v: nat, w0: Words, w: Words, root: nat)
    requires Window(area) && area.start <= v < area.end
    requires SameApart(area.start, v, w0, w, root)
    ensures Translation(w, root, v) == Translation(w0, root, v)
  {
    forall q | area.start <= q < v ensures q % VPN_LIMIT != v % VPN_LIMIT {
      WindowApart(q, v);
    }
    assert ApartFrom(area.start, v, v);
  }

  /** Clearing the leaf of page `v` as `page_table.unmap` does extends the progress of `unmap` by one page. */
  lemma UnmapStep(area: MapArea, v: nat, w0: Words, w: Words, w': Words, root: nat)
    requires area.start <= v < area.end
    requires Window(area) ==> UnmappedPages(area, v, w0, w, root)
    requires SameApart(area.start, v, w0, w, root)
    requires Translation(w, root, v).Some? && !IsValid(Translation(w, root, v).value)
    requires Translation(w', root, v) == Some(EMPTY)
    requires forall u: nat :: u % VPN_LIMIT != v % VPN_LIMIT ==> Translation(w', root, u) == Translation(w, root, u)
    ensures Window(area) ==> UnmappedPages(area, v + 1, w0, w', root)
    ensures SameApart(area.start, v + 1, w0, w', root)
  {
    if Window(area) {
      NotYetTouched(area, v, w0, w, root);
      forall u: nat | area.start <= u < v ensures Translation(w', root, u) == Translation(w, root, u) {
        WindowApart(u, v);
      }
    }
    forall u: nat | ApartFrom(area.start, v + 1, u) ensures Translation(w', root, u) == Translation(w0, root, u) {
      assert ApartFrom(area.start, v, u);
      assert v % VPN_LIMIT != u % VPN_LIMIT;
    }
  }

  /**
   * `MapArea::unmap`: `page_table.unmap` on every page in order, then an empty `BTreeMap`, whose
   * drop gives back every recorded frame. `ok == false` is the panic of `unmap` (a page with no
   * leaf, or with a valid one); in an area that fits the Sv39 space that happens exactly when
   * some page had no leaf or a valid one. Pages apart from the area keep their translations.
   */
  method Unmap(area: MapArea, pt: PageTable, fa: StackFrameAllocator, ram: PhysMem) returns (r: MapArea, ok: bool)
    requires area.start <= area.end && pt.Valid(fa, ram) && FramesHeld(area, pt, fa)
    modifies fa, ram
    ensures pt.Valid(fa, ram) && ram.bytes == old(ram.bytes)
    ensures Window(area) ==>
      (ok <==> forall u: nat :: InArea(area, u) ==>
                 old(Translation(ram.words, pt.rootPpn, u)).Some? && !IsValid(old(Translation(ram.words, pt.rootPpn, u)).value))
    ensures ok && Window(area) ==> forall u: nat :: InArea(area, u) ==> Translation(ram.words, pt.rootPpn, u) == Some(EMPTY)
    ensures ok ==> SameApart(area.start, area.end, old(ram.words), ram.words, pt.rootPpn)
    ensures ok ==> r == area.(frames := [])
    ensures ok ==> fa.live == old(fa.live) - FramePpns(area) && fa.FreeFrameNum() == old(fa.FreeFrameNum()) + |area.frames|
  {
    r := area;
    ghost var w0 := ram.words;
    var v := area.start;
    while v < area.end
      invariant area.start <= v <= area.end
      invariant pt.Valid(fa, ram) && ram.bytes == old(ram.bytes) && unchanged(fa)
      invariant Window(area) ==> UnmappedPages(area, v, w0, ram.words, pt.rootPpn)
      invariant SameApart(area.start, v, w0, ram.words, pt.rootPpn)
    {
      ghost var w := ram.words;
      ok := pt.Unmap(v, fa, ram);
      if !ok {
        if Window(area) {
          NotYetTouched(area, v, w0, w, pt.rootPpn);
        }
        return;
      }
      UnmapStep(area, v, w0, w, ram.words, pt.rootPpn);
      v := v + 1;
    }
    ok := true;
    ghost var w1 := ram.words;
    var i := 0;
    while i < |area.frames|
      invariant 0 <= i <= |area.frames|
      invariant pt.Valid(fa, ram) && ram.words == w1 && ram.bytes == old(ram.bytes)
      invariant fa.live == old(fa.live) - PpnsBefore(area, i) && fa.FreeFrameNum() == old(fa.FreeFrameNum()) + i
      invariant forall j :: i <= j < |area.frames| ==> area.frames[j].1 in fa.live
    {
      var _ := FrameTrackerDrop(fa, area.frames[i].1);
      assert PpnsBefore(area, i + 1) == PpnsBefore(area, i) + {area.frames[i].1};
      i := i + 1;
    }
    r := area.(frames := []);
  }

  /** Pages `a.start..a.start + k` lie in the area and have leaf entries. */
  ghost predicate PagesFit(a: MapArea, words: Words, root: nat, k: nat)
  {
    forall v: nat :: a.start <= v < a.start + k ==> v < a.end && Translation(words, root, v).Some?
  }

  /** `copy_data` runs to the end on `n` bytes: they are whole pages, each with a page of the area that has a leaf entry. */
  ghost predicate CopyFits(a: MapArea, words: Words, root: nat, n: nat)
  {
    n % PAGE_SIZE == 0 && PagesFit(a, words, root, n / PAGE_SIZE)
  }

  /** Page `v` of the first `k` pages, when they all fit, lies in the area and has a leaf entry. */
  lemma FitAt(a: MapArea, words: Words, root: nat, k: nat, v: nat)
    requires PagesFit(a, words, root, k) && a.start <= v < a.start + k
    ensures v < a.end && Translation(words, root, v).Some?
  {
    assert a.start <= v < a.start + k ==> v < a.end && Translation(words, root, v).Some?;
  }

  lemma PagesFitStep(a: MapArea, words: Words, root: nat, k: nat)
    requires PagesFit(a, words, root, k)
    requires a.start + k < a.end && Translation(words, root, a.start + k).Some?
    ensures PagesFit(a, words, root, k + 1)
  {
  }

  /** Data that ends part-way into page `i` is not a whole number of pages. */
  lemma ShortTail(n: nat, i: nat)
    requires i * PAGE_SIZE < n < i * PAGE_SIZE + PAGE_SIZE
    ensures n % PAGE_SIZE != 0
  {
  }

  /** Data that ends exactly at page `i` is `i` whole pages. */
  lemma WholePages(n: nat, i: nat)
    requires n == i * PAGE_SIZE
    ensures n % PAGE_SIZE == 0 && n / PAGE_SIZE == i == ChunkCount(n)
  {
  }

  /** A chunk of the data whose page is past the area or has no leaf entry makes `copy_data` panic. */
  lemma PageMissing(a: MapArea, words: Words, root: nat, n: nat, i: nat)
    requires i * PAGE_SIZE < n
    requires !(a.start + i < a.end && Translation(words, root, a.start + i).Some?)
    ensures !CopyFits(a, words, root, n)
  {
    if n % PAGE_SIZE == 0 && PagesFit(a, words, root, n / PAGE_SIZE) {
      FitAt(a, words, root, n / PAGE_SIZE, a.start + i);
      assert false;
    }
  }

  /**
   * `MapArea::copy_data`: walk the data a page at a time, copying chunk `i` over the whole frame
   * of the area's `i`-th page. Running out of pages (`expect`), meeting a page without a leaf
   * entry (`expect`), or a last chunk shorter than a page (`copy_from_slice` into the frame's
   * 4096 bytes) panics, reported as `ok == false`. The page table's entries are not touched.
   */
  method CopyData(a: MapArea, pt: PageTable, data: seq<bv8>, ram: PhysMem) returns (ok: bool)
    modifies ram
    ensures ram.words == old(ram.words)
    ensures ok <==> CopyFits(a, ram.words, pt.rootPpn, |data|)
    ensures ok ==> CopiedState(ram.bytes, old(ram.bytes), ram.words, pt.rootPpn, a.start, data, ChunkCount(|data|))
  {
    ghost var b0, w, root := ram.bytes, ram.words, pt.rootPpn;
    var vpn := a.start;
    var start := 0;
    ghost var i := 0;
    while start < |data|
      invariant vpn == a.start + i && start == i * PAGE_SIZE <= |data|
      invariant ram.words == w
      invariant PagesFit(a, w, root, i)
      invariant i <= ChunkCount(|data|) && CopiedState(ram.bytes, b0, w, root, a.start, data, i)
    {
      if vpn >= a.end {
        PageMissing(a, w, root, |data|, i);
        return false;
      }
      var pte := pt.Translate(vpn, ram);
      if pte.None? {
        PageMissing(a, w, root, |data|, i);
        return false;
      }
      var end := if start + PAGE_SIZE < |data| then start + PAGE_SIZE else |data|;
      if end - start != PAGE_SIZE {
        ShortTail(|data|, i);
        return false;
      }
      PagesFitStep(a, w, root, i);
      var src := data[start..end];
      assert src == Chunk(data, i);
      WriteChunk(ram, Ppn(pte.value), src, b0, w, root, a.start, data, i);
      start := end;
      vpn := vpn + 1;
      i := i + 1;
    }
    WholePages(|data|, i);
    return true;
  }

  /** Byte `k` of the data sits at offset `k % PAGE_SIZE` of the frame of page `start + k / PAGE_SIZE`. */
  ghost predicate DataIn(words: Words, bytes: Bytes, root: nat, start: nat, data: seq<bv8>)
  {
    forall k :: 0 <= k < |data| ==>
      ByteAt(bytes, Slot(FrameOfPage(words, root, start + k / PAGE_SIZE), k % PAGE_SIZE)) == data[k]
  }

  /** What `map` leaves behind for area `area`, recorded as `r`, in words `w` over `w0`, apart from the bytes. */
  ghost predicate MappedArea(area: MapArea, r: MapArea, w0: Words, w: Words, root: nat)
  {
    && r == area.(frames := r.frames) && Recorded(r, area.end)
    && (Window(area) ==> MappedPages(area, r, area.end, w0, w, root))
    && KeptApart(area.start, area.end, w0, w, root)
  }

  /** A mapped page of a framed area translates to the frame the area records for it. */
  lemma FrameOfMapped(area: MapArea, r: MapArea, w0: Words, w: Words, root: nat, u: Usize)
    requires area.start <= area.end && r.mapType == Framed && Window(area)
    requires MappedArea(area, r, w0, w, root) && area.start <= u < area.end
    requires forall i :: 0 <= i < |r.frames| ==> r.frames[i].1 < PPN_LIMIT
    ensures u - area.start < |r.frames|
    ensures Translation(w, root, u).Some? && FrameOfPage(w, root, u) == r.frames[u - area.start].1
  {
    assert Translation(w, root, u) == Some(New(PpnOf(r, u), PermFlags(area.perm)));
  }

  /** The pages of a mapped framed area that the data covers reach distinct frames, those the area records. */
  lemma CopiedFramesDistinct(area: MapArea, r: MapArea, w0: Words, w: Words, root: nat, n: nat)
    requires area.start <= area.end && r.mapType == Framed && Window(area)
    requires MappedArea(area, r, w0, w, root) && FreshFrames(r, {})
    requires forall i :: 0 <= i < |r.frames| ==> r.frames[i].1 < PPN_LIMIT
    requires PagesFit(r, w, root, n)
    ensures DistinctFrames(w, root, area.start, n)
  {
    forall u: nat | area.start <= u < area.start + n
      ensures u < area.end && Translation(w, root, u).Some? && FrameOfPage(w, root, u) == r.frames[u - area.start].1
    {
      FitAt(r, w, root, n, u);
      FrameOfMapped(area, r, w0, w, root, u);
    }
  }

  /**
   * Once a framed area that fits the Sv39 space is mapped and `copy_data` has run to the end,
   * the frame of its `i`-th page holds the `i`-th page of the data.
   */
  lemma DataLands(area: MapArea, r: MapArea, w0: Words, w: Words, root: nat, b1: Bytes, b: Bytes, data: seq<bv8>)
    requires area.start <= area.end && r.mapType == Framed && Window(area)
    requires MappedArea(area, r, w0, w, root) && FreshFrames(r, {})
    requires forall i :: 0 <= i < |r.frames| ==> r.frames[i].1 < PPN_LIMIT
    requires CopyFits(r, w, root, |data|)
    requires CopiedState(b, b1, w, root, area.start, data, ChunkCount(|data|))
    ensures DataIn(w, b, root, area.start, data)
  {
    var n := ChunkCount(|data|);
    assert n == |data| / PAGE_SIZE;
    CopiedFramesDistinct(area, r, w0, w, root, n);
    CopiedIsDataIn(b1, b, w, root, area.start, data);
  }

  /** With distinct frames and every chunk written, the data is in the frames of its pages. */
  lemma CopiedIsDataIn(b1: Bytes, b: Bytes, w: Words, root: nat, start: nat, data: seq<bv8>)
    requires DistinctFrames(w, root, start, ChunkCount(|data|))
    requires CopiedState(b, b1, w, root, start, data, ChunkCount(|data|))
    ensures DataIn(w, b, root, start, data)
  {
    forall k | 0 <= k < |data|
      ensures ByteAt(b, Slot(FrameOfPage(w, root, start + k / PAGE_SIZE), k % PAGE_SIZE)) == data[k]
    {
      ByteLands(b1, b, w, root, start, data, k);
    }
  }

  /** With distinct frames and every chunk written, byte `k` of the data is in its page's frame. */
  lemma ByteLands(b1: Bytes, b: Bytes, w: Words, root: nat, start: nat, data: seq<bv8>, k: nat)
    requires k < |data| && DistinctFrames(w, root, start, ChunkCount(|data|))
    requires CopiedState(b, b1, w, root, start, data, ChunkCount(|data|))
    ensures ByteAt(b, Slot(FrameOfPage(w, root, start + k / PAGE_SIZE), k % PAGE_SIZE)) == data[k]
  {
    ChunkOfByte(data, k);
    var v := start + k / PAGE_SIZE;
    var s := Slot(FrameOfPage(w, root, v), k % PAGE_SIZE);
    CopiedLands(b1, w, root, start, data, ChunkCount(|data|), v, s);
    assert ByteAt(b, s) == Copied(b1, w, root, start, data, ChunkCount(|data|), s);
  }

  /** A root table of zeros sends every walk to a stop at the first level: no page has a leaf. */
  lemma NothingMapped(words: Words, root: nat)
    requires forall s: Slot :: s.ppn == root ==> WordAt(words, s) == 0
    ensures forall u: nat :: Translation(words, root, u).None?
  {
    forall u: nat ensures Translation(words, root, u).None? {
      LeafSlotLevels(words, root, u);
      ValidityOfNew(0, 0);
    }
  }

  /**
   * `MEMORY_END & !PAGE_SIZE`, the end of the physical-memory area as written: `!PAGE_SIZE` has
   * every bit set but bit 12, so the mask clears bit 12 alone, written here on integers.
   */
  function PhysMemEndAsWritten(x: Usize): Usize
  {
    x - (x / PAGE_SIZE) % 2 * PAGE_SIZE
  }

  /** An address that is not page aligned and has bit 12 clear passes through unchanged. */
  lemma PhysMemEndAsWrittenMisaligns()
    ensures PhysMemEndAsWritten(0x8800_0234) == 0x8800_0234 && 0x8800_0234 % PAGE_SIZE != 0
  {
  }

  /** The page boundary at or below `x`: what clearing the low twelve bits (`x & !(PAGE_SIZE - 1)`) gives. */
  function PhysMemEnd(x: Usize): (r: Usize)
    ensures r % PAGE_SIZE == 0 && r <= x < r + PAGE_SIZE
  {
    x / PAGE_SIZE * PAGE_SIZE
  }

  /** For this board's `MEMORY_END` the two agree: bit 12 of `0x8800_0000` is clear and it is page aligned. */
  lemma PhysMemEndAgrees()
    ensures PhysMemEndAsWritten(MEMORY_END) == PhysMemEnd(MEMORY_END) == MEMORY_END
  {
  }

  /** The linker symbols `build_kernel_space` reads: the bounds of the kernel's sections. */
  datatype KernelSymbols = KernelSymbols(stext: Usize, etext: Usize, srodata: Usize, erodata: Usize,
                                         sdata: Usize, edata: Usize, stackTop: Usize, stackBottom: Usize,
                                         sbss: Usize, ebss: Usize, ekernel: Usize)

  /** One identical area `build_kernel_space` pushes: its start and end addresses and its permission. */
  datatype Segment = Segment(lo: Usize, hi: Usize, perm: MapPermission)

  /**
   * The areas of the kernel space in the order they are pushed: text (R|X), read-only data (R),
   * data (R|W), stack through bss (R|W), the rest of physical memory up to `MEMORY_END & !PAGE_SIZE`
   * as written (R|W; the same as `MEMORY_END` on this board), then each MMIO region
   * `(base, length)` (R|W), its end computed on machine words.
   */
  function KernelSegments(sym: KernelSymbols, mmio: seq<(Usize, Usize)>): (segs: seq<Segment>)
    ensures |segs| == 5 + |mmio|
  {
    PhysMemEndAgrees();
    [Segment(sym.stext, sym.etext, PERM_R | PERM_X),
     Segment(sym.srodata, sym.erodata, PERM_R),
     Segment(sym.sdata, sym.edata, PERM_R | PERM_W),
     Segment(sym.stackTop, sym.ebss, PERM_R | PERM_W),
     Segment(sym.ekernel, PhysMemEndAsWritten(MEMORY_END), PERM_R | PERM_W)] +
    seq(|mmio|, i requires 0 <= i < |mmio| => Segment(mmio[i].0, WrappingAdd(mmio[i].0, mmio[i].1), PERM_R | PERM_W))
  }

  /** The five section starts `build_kernel_space` asserts are page aligned. */
  predicate SectionsAligned(sym: KernelSymbols)
  {
    && sym.stext % PAGE_SIZE == 0 && sym.srodata % PAGE_SIZE == 0 && sym.sdata % PAGE_SIZE == 0
    && sym.sbss % PAGE_SIZE == 0 && sym.ekernel % PAGE_SIZE == 0
  }

  /** `MapArea::new(lo.into(), hi.into(), perm, MapType::Identical)`: both addresses masked to 56 bits first. */
  function SegmentArea(seg: Segment): (r: Outcome<MapArea>)
    ensures r.Done? ==> r.value.mapType == Identical && r.value.perm == seg.perm
  {
    MapAreaNew(MemAddress.AddrFrom(seg.lo), MemAddress.AddrFrom(seg.hi), seg.perm, Identical)
  }

  /** The pages of the areas the segments make; a segment whose area cannot be made counts none. */
  function TotalPages(segs: seq<Segment>): nat
  {
    if segs == [] then 0
    else (match SegmentArea(segs[0]) case Done(a) => Pages(a) case Panic => 0) + TotalPages(segs[1..])
  }

  /** The permission of the last of the first `i` segments whose area holds page `v`, if any. */
  function LastPerm(segs: seq<Segment>, i: nat, v: nat): Option<MapPermission>
    requires i <= |segs|
  {
    if i == 0 then None
    else if SegmentArea(segs[i - 1]).Done? && InArea(SegmentArea(segs[i - 1]).value, v) then Some(segs[i - 1].perm)
    else LastPerm(segs, i - 1, v)
  }

  /** Every area the segments make lies below `VPN_LIMIT`, inside one Sv39 space. */
  predicate LowSegments(segs: seq<Segment>)
  {
    forall i :: 0 <= i < |segs| && SegmentArea(segs[i]).Done? ==> SegmentArea(segs[i]).value.end <= VPN_LIMIT
  }

  /** Each page of the first `i` segments' areas maps to the physical page of the same number, with the flags of the last area holding it. */
  ghost predicate IdentityUpTo(words: Words, root: nat, segs: seq<Segment>, i: nat)
    requires i <= |segs|
  {
    forall v: Usize {:trigger LastPerm(segs, i, v)} :: LastPerm(segs, i, v).Some? ==>
      Translation(words, root, v) == Some(New(MemAddress.PageNumFrom(v), PermFlags(LastPerm(segs, i, v).value)))
  }

  /** A page some low segment holds lies below `VPN_LIMIT`. */
  lemma {:induction false} LastPermLow(segs: seq<Segment>, i: nat, v: nat)
    requires i <= |segs| && LowSegments(segs) && LastPerm(segs, i, v).Some?
    ensures v < VPN_LIMIT
  {
    if !(SegmentArea(segs[i - 1]).Done? && InArea(SegmentArea(segs[i - 1]).value, v)) {
      LastPermLow(segs, i - 1, v);
    }
  }

  /** Below `VPN_LIMIT` a page outside an area differs in its low 27 bits from every page of it. */
  lemma LowApart(area: MapArea, v: nat)
    requires area.end <= VPN_LIMIT && v < VPN_LIMIT && !InArea(area, v)
    ensures ApartFrom(area.start, area.end, v)
  {
    forall p | area.start <= p < area.end ensures p % VPN_LIMIT != v % VPN_LIMIT {
      assert p % VPN_LIMIT == p && v % VPN_LIMIT == v;
    }
  }

  /** Pushing the area of segment `i` as an identical area extends the identity mapping to the first `i + 1` segments. */
  lemma IdentityStep(segs: seq<Segment>, i: nat, area: MapArea, r: MapArea, w0: Words, w: Words, root: nat)
    requires i < |segs| && SegmentArea(segs[i]) == Done(area) && LowSegments(segs)
    requires IdentityUpTo(w0, root, segs, i) && MappedArea(area, r, w0, w, root)
    ensures IdentityUpTo(w, root, segs, i + 1)
  {
    assert Window(area);
    forall v: Usize | LastPerm(segs, i + 1, v).Some?
      ensures Translation(w, root, v) == Some(New(MemAddress.PageNumFrom(v), PermFlags(LastPerm(segs, i + 1, v).value)))
    {
      if !InArea(area, v) {
        assert LastPerm(segs, i + 1, v) == LastPerm(segs, i, v);
        LastPermLow(segs, i, v);
        LowApart(area, v);
      }
    }
  }

  /**
   * What `identical_map_test` checks: in a low kernel space every page an area holds translates to
   * the physical page of the same number, with the flags of the last area pushed over it.
   */
  lemma IdentityTranslates(words: Words, root: nat, segs: seq<Segment>, v: Usize)
    requires LowSegments(segs) && IdentityUpTo(words, root, segs, |segs|) && LastPerm(segs, |segs|, v).Some?
    ensures Translation(words, root, v).Some?
    ensures Ppn(Translation(words, root, v).value) == v
    ensures Flags(Translation(words, root, v).value) == PermFlags(LastPerm(segs, |segs|, v).value)
  {
    LastPermLow(segs, |segs|, v);
  }

  /** From index `base` on, `areas` holds the areas of the first `i` segments, each of which could be made. */
  ghost predicate SegmentAreas(areas: seq<MapArea>, base: nat, segs: seq<Segment>, i: nat)
  {
    && i <= |segs| && |areas| == base + i
    && forall j :: 0 <= j < i ==> SegmentArea(segs[j]).Done? && areas[base + j] == SegmentArea(segs[j]).value
  }

  lemma SegmentAreasStep(prev: seq<MapArea>, areas: seq<MapArea>, base: nat, segs: seq<Segment>, i: nat)
    requires SegmentAreas(prev, base, segs, i) && i < |segs| && SegmentArea(segs[i]).Done?
    requires areas == prev + [SegmentArea(segs[i]).value]
    ensures SegmentAreas(areas, base, segs, i + 1)
  {
  }

  /** `MemorySet`: a page table and the areas pushed into it, in order. */
  class MemorySet {
    var pageTable: PageTable
    var areas: seq<MapArea>

    ghost predicate Valid(fa: StackFrameAllocator, ram: PhysMem)
      reads this, pageTable, fa, ram
    {
      && pageTable.Valid(fa, ram)
      && forall i :: 0 <= i < |areas| ==> areas[i].start <= areas[i].end
    }

    /** `new_bare`: a fresh page table, whose root frame is zeroed so no page has a leaf, and no areas. */
    constructor NewBare(fa: StackFrameAllocator, ram: PhysMem)
      requires fa.Valid() && fa.end <= PPN_LIMIT && fa.FreeFrameNum() >= 1
      modifies fa, ram
      ensures Valid(fa, ram) && fresh(pageTable) && areas == []
      ensures forall u: nat :: Translation(ram.words, pageTable.rootPpn, u).None?
      ensures pageTable.FrameSet() == {pageTable.rootPpn} && fa.live == old(fa.live) + {pageTable.rootPpn}
      ensures pageTable.rootPpn !in old(fa.live) && fa.FreeFrameNum() + 1 == old(fa.FreeFrameNum())
      ensures forall s: Slot :: s.ppn != pageTable.rootPpn ==> ByteAt(ram.bytes, s) == ByteAt(old(ram.bytes), s)
    {
      pageTable := new PageTable(fa, ram);
      areas := [];
      new;
      NothingMapped(ram.words, pageTable.rootPpn);
    }

    /**
     * `push`: map the area, copy the data into it when there is some, and append it. `ok == false`
     * is a panic of `map` or of `copy_data`. On success the appended area is the one `map`
     * recorded, every page apart from it that had a leaf keeps it, and the data sits in the frames
     * of a framed area's pages.
     */
    method Push(area: MapArea, data: Option<seq<bv8>>, fa: StackFrameAllocator, ram: PhysMem) returns (ok: bool)
      requires Valid(fa, ram) && area.start <= area.end && area.frames == []
      requires fa.FreeFrameNum() >= 3 * Pages(area)
      modifies this, pageTable, fa, ram
      ensures Valid(fa, ram) && pageTable == old(pageTable) && pageTable.rootPpn == old(pageTable.rootPpn)
      ensures fa.FreeFrameNum() + 3 * Pages(area) >= old(fa.FreeFrameNum())
      ensures ok ==> |areas| == |old(areas)| + 1 && areas[..|old(areas)|] == old(areas)
      ensures ok ==> MappedArea(area, areas[|areas| - 1], old(ram.words), ram.words, pageTable.rootPpn)
      ensures ok && area.mapType == Identical ==> areas == old(areas) + [area]
      ensures ok ==> FreshFrames(areas[|areas| - 1], old(fa.live)) && old(pageTable.FrameSet()) <= pageTable.FrameSet()
      ensures ok ==> fa.live == old(fa.live) + (pageTable.FrameSet() - old(pageTable.FrameSet())) + FramePpns(areas[|areas| - 1])
      ensures ok && data.None? ==> forall s: Slot :: s.ppn in old(fa.live) ==> ByteAt(ram.bytes, s) == ByteAt(old(ram.bytes), s)
      ensures ok && data.Some? ==> CopyFits(areas[|areas| - 1], ram.words, pageTable.rootPpn, |data.value|)
      ensures ok && data.Some? && area.mapType == Framed && Window(area) ==>
        DataIn(ram.words, ram.bytes, pageTable.rootPpn, area.start, data.value)
    {
      ghost var w0, live0, fs0 := ram.words, fa.live, pageTable.FrameSet();
      var r;
      r, ok := Map(area, pageTable, fa, ram);
      if !ok {
        return;
      }
      assert MappedArea(area, r, w0, ram.words, pageTable.rootPpn);
      if data.Some? {
        ghost var b1 := ram.bytes;
        assert forall i :: 0 <= i < |r.frames| ==> r.frames[i].1 in fa.live;
        ok := CopyData(r, pageTable, data.value, ram);
        if !ok {
          return;
        }
        if area.mapType == Framed && Window(area) {
          DataLands(area, r, w0, ram.words, pageTable.rootPpn, b1, ram.bytes, data.value);
        }
      }
      areas := areas + [r];
    }

    /** One turn of pushing segments: push the identical area of segment `i`, if it can be made. */
    method PushSegment(segs: seq<Segment>, i: nat, fa: StackFrameAllocator, ram: PhysMem) returns (ok: bool)
      requires Valid(fa, ram) && i < |segs| && fa.FreeFrameNum() >= 3 * TotalPages(segs[i..])
      requires SegmentAreas(areas, 0, segs, i)
      requires LowSegments(segs) ==> IdentityUpTo(ram.words, pageTable.rootPpn, segs, i)
      modifies this, pageTable, fa, ram
      ensures Valid(fa, ram) && pageTable == old(pageTable) && pageTable.rootPpn == old(pageTable.rootPpn)
      ensures fa.FreeFrameNum() >= 3 * TotalPages(segs[i + 1..])
      ensures ok ==> SegmentAreas(areas, 0, segs, i + 1)
      ensures ok && LowSegments(segs) ==> IdentityUpTo(ram.words, pageTable.rootPpn, segs, i + 1)
    {
      var area := SegmentArea(segs[i]);
      assert segs[i..][1..] == segs[i + 1..];
      if area.Panic? {
        return false;
      }
      ghost var w, prev := ram.words, areas;
      ok := Push(area.value, None, fa, ram);
      if !ok {
        return;
      }
      SegmentAreasStep(prev, areas, 0, segs, i);
      if LowSegments(segs) {
        IdentityStep(segs, i, area.value, areas[|areas| - 1], w, ram.words, pageTable.rootPpn);
      }
    }

    /**
     * Push the identical area of each segment in turn onto a set with no areas; `ok == false` is a
     * panic of `MapArea::new` or of `push`. On success the areas are those of the segments, in
     * order, and in a low space the identity mapping covers all of them.
     */
    method PushSegments(segs: seq<Segment>, fa: StackFrameAllocator, ram: PhysMem) returns (ok: bool)
      requires Valid(fa, ram) && areas == [] && fa.FreeFrameNum() >= 3 * TotalPages(segs)
      modifies this, pageTable, fa, ram
      ensures Valid(fa, ram) && pageTable == old(pageTable) && pageTable.rootPpn == old(pageTable.rootPpn)
      ensures ok ==> SegmentAreas(areas, 0, segs, |segs|)
      ensures ok && LowSegments(segs) ==> IdentityUpTo(ram.words, pageTable.rootPpn, segs, |segs|)
    {
      ok := true;
      var i := 0;
      assert segs[0..] == segs;
      while i < |segs|
        invariant 0 <= i <= |segs|
        invariant Valid(fa, ram) && pageTable == old(pageTable) && pageTable.rootPpn == old(pageTable.rootPpn)
        invariant fa.FreeFrameNum() >= 3 * TotalPages(segs[i..])
        invariant SegmentAreas(areas, 0, segs, i)
        invariant LowSegments(segs) ==> IdentityUpTo(ram.words, pageTable.rootPpn, segs, i)
      {
        ok := PushSegment(segs, i, fa, ram);
        if !ok {
          return;
        }
        i := i + 1;
      }
    }

    /**
     * `build_kernel_space`: a bare set, the five alignment assertions (`ok == false` when one
     * fails), then the kernel's sections and the MMIO regions pushed as identical areas.
     */
    static method BuildKernelSpace(sym: KernelSymbols, mmio: seq<(Usize, Usize)>, fa: StackFrameAllocator, ram: PhysMem)
      returns (ms: MemorySet, ok: bool)
      requires fa.Valid() && fa.end <= PPN_LIMIT && fa.FreeFrameNum() >= 1 + 3 * TotalPages(KernelSegments(sym, mmio))
      modifies fa, ram
      ensures fresh(ms) && fresh(ms.pageTable) && ms.Valid(fa, ram)
      ensures !SectionsAligned(sym) ==> !ok
      ensures ok ==> SegmentAreas(ms.areas, 0, KernelSegments(sym, mmio), 5 + |mmio|)
      ensures ok && LowSegments(KernelSegments(sym, mmio)) ==>
        IdentityUpTo(ram.words, ms.pageTable.rootPpn, KernelSegments(sym, mmio), 5 + |mmio|)
    {
      ms := new MemorySet.NewBare(fa, ram);
      if !SectionsAligned(sym) {
        return ms, false;
      }
      ok := ms.PushSegments(KernelSegments(sym, mmio), fa, ram);
    }
  }
}
