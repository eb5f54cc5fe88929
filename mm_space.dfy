/**
 * The `MemorySet` of `src/mm/memory_set.rs`: one page table and the areas mapped through it.
 *
 * A valid space keeps every area as `map_area` left it: each page translates to the area's frame
 * with the area's permission, the area's frames are its own, and two areas never share a leaf
 * slot or a frame. `push`, `remove_area_with_start_vpn`/`remove_area_with_end_vpn` and
 * `map_trampoline` keep the space valid, `from_existed` builds a valid copy, and `from_elf` a valid
 * user space holding the program's segments.
 */
module MmSpace {
  import opened Wrappers
  import opened Sv39
  import opened Pte
  import opened PhysMemory
  import opened PageWalk
  import opened MmFrameAllocator
  import opened MmPageTable
  import opened MmMemorySet
  import opened MmAddressSpace
  import opened PageCopy
  import MmAddress
  import opened MmElf

  /** Two areas never use the same leaf slot and hold no frame in common. */
  ghost predicate Disjoint(a: MapArea, b: MapArea)
  {
    && (forall u, v :: InArea(a, u) && InArea(b, v) ==> Apart(u, v))
    && (forall u, v :: u in a.dataFrames && v in b.dataFrames ==> a.dataFrames[u] != b.dataFrames[v])
  }

  /** One area of a valid space: mapped as `map_area` left it, and holding its own frames. */
  ghost predicate AreaOk(a: MapArea, words: Words, root: nat, live: set<nat>, tableFrames: set<nat>, leafs: map<nat, nat>)
  {
    AreaMapped(a, words, root) && Owns(a, live, tableFrames, leafs)
  }

  /** Every area is in order, and no two of them overlap. */
  ghost predicate SpaceOk(areas: seq<MapArea>, words: Words, root: nat, live: set<nat>, tableFrames: set<nat>, leafs: map<nat, nat>)
  {
    && (forall i :: 0 <= i < |areas| ==> AreaOk(areas[i], words, root, live, tableFrames, leafs))
    && (forall i, j :: 0 <= i < j < |areas| ==> Disjoint(areas[i], areas[j]))
  }

  /**
   * A change to the table that keeps every valid translation, adds only table frames that were
   * not live, and frees nothing keeps a mapped area in order.
   */
  lemma AreaKeptByMap(a: MapArea, w0: Words, w: Words, root: nat, live0: set<nat>, live: set<nat>,
                      fs0: set<nat>, fs: set<nat>, leafs: map<nat, nat>)
    requires AreaOk(a, w0, root, live0, fs0, leafs)
    requires KeepsValid(w0, w, root) && live0 <= live && fs - fs0 !! live0
    ensures AreaOk(a, w, root, live, fs, leafs)
  {
    forall v: nat | InArea(a, v)
      ensures Translation(w, root, v) == Translation(w0, root, v)
    {
      ValidityOfNew(PpnOf(a, v), a.perm | V);
    }
  }

  lemma SpaceKeptByMap(areas: seq<MapArea>, w0: Words, w: Words, root: nat, live0: set<nat>, live: set<nat>,
                       fs0: set<nat>, fs: set<nat>, leafs: map<nat, nat>)
    requires SpaceOk(areas, w0, root, live0, fs0, leafs)
    requires KeepsValid(w0, w, root) && live0 <= live && fs - fs0 !! live0
    ensures SpaceOk(areas, w, root, live, fs, leafs)
  {
    forall i | 0 <= i < |areas|
      ensures AreaOk(areas[i], w, root, live, fs, leafs)
    {
      AreaKeptByMap(areas[i], w0, w, root, live0, live, fs0, fs, leafs);
    }
  }

  /** An area none of whose pages had a valid leaf, mapped to fresh frames, keeps clear of an area mapped before it. */
  lemma MappedAreaDisjoint(a: MapArea, r: MapArea, w0: Words, root: nat, live0: set<nat>, fs0: set<nat>, leafs: map<nat, nat>)
    requires AreaOk(a, w0, root, live0, fs0, leafs)
    requires forall u: nat :: InArea(r, u) ==> !ValidAt(w0, root, u)
    requires FreshFrames(r, live0)
    ensures Disjoint(a, r)
  {
    forall u: nat, v: nat | InArea(a, u) && InArea(r, v)
      ensures Apart(u, v)
    {
      ValidityOfNew(PpnOf(a, u), a.perm | V);
      assert ValidAt(w0, root, u) && !ValidAt(w0, root, v);
      if u % VPN_LIMIT == v % VPN_LIMIT {
        TranslationLow27(w0, root, u, v);
        assert false;
      }
    }
  }

  /** What `map_area` reports about a new area is enough to append it to a valid space. */
  lemma PushKeeps(areas: seq<MapArea>, r: MapArea, w0: Words, w: Words, root: nat, live0: set<nat>, live: set<nat>,
                  fs0: set<nat>, fs: set<nat>, leafs: map<nat, nat>)
    requires SpaceOk(areas, w0, root, live0, fs0, leafs)
    requires AreaMapped(r, w, root) && FreshFrames(r, live0) && r.dataFrames.Values !! fs
    requires forall u: nat :: InArea(r, u) ==> !ValidAt(w0, root, u)
    requires KeepsValid(w0, w, root) && fs - fs0 !! live0
    requires live == live0 + (fs - fs0) + r.dataFrames.Values
    requires forall v :: v in leafs ==> leafs[v] in live0
    ensures SpaceOk(areas + [r], w, root, live, fs, leafs)
  {
    SpaceKeptByMap(areas, w0, w, root, live0, live, fs0, fs, leafs);
    forall v | v in r.dataFrames
      ensures r.dataFrames[v] in live && r.dataFrames[v] !in fs
    {
      assert r.dataFrames[v] in r.dataFrames.Values;
    }
    assert Owns(r, live, fs, leafs);
    forall i | 0 <= i < |areas|
      ensures Disjoint(areas[i], r)
    {
      MappedAreaDisjoint(areas[i], r, w0, root, live0, fs0, leafs);
    }
    var s := areas + [r];
    forall i, j | 0 <= i < j < |s|
      ensures Disjoint(s[i], s[j])
    {
      if j == |areas| {
        assert s[i] == areas[i] && s[j] == r;
      } else {
        assert s[i] == areas[i] && s[j] == areas[j];
      }
    }
  }

  /**
   * Unmapping area `a` keeps any area apart from it in order: its pages sit on other leaf slots,
   * and its frames are not among those `a` gave back.
   */
  lemma AreaKeptByUnmap(a: MapArea, b: MapArea, w0: Words, w: Words, root: nat, live0: set<nat>, live: set<nat>,
                        fs: set<nat>, leafs: map<nat, nat>)
    requires Disjoint(a, b) || Disjoint(b, a)
    requires AreaOk(b, w0, root, live0, fs, leafs)
    requires live == live0 - FramesOf(a, a.start, a.end)
    requires forall u: nat {:trigger Translation(w, root, u)} ::
      u % VPN_LIMIT !in Lows(a.start, a.end) ==> Translation(w, root, u) == Translation(w0, root, u)
    ensures AreaOk(b, w, root, live, fs, leafs)
  {
    UnmapMisses(a, b);
  }

  /** Two disjoint areas: no page of `b` is on a leaf slot of `a`, and no frame of `b` is one of `a`'s. */
  lemma UnmapMisses(a: MapArea, b: MapArea)
    requires Disjoint(a, b) || Disjoint(b, a)
    ensures forall v: nat :: InArea(b, v) ==> v % VPN_LIMIT !in Lows(a.start, a.end)
    ensures forall v :: v in b.dataFrames ==> b.dataFrames[v] !in FramesOf(a, a.start, a.end)
  {
    forall v: nat | InArea(b, v)
      ensures v % VPN_LIMIT !in Lows(a.start, a.end)
    {
      forall x | a.start <= x < a.end
        ensures x % VPN_LIMIT != v % VPN_LIMIT
      {
        assert InArea(a, x);
      }
    }
    forall v | v in b.dataFrames
      ensures b.dataFrames[v] !in FramesOf(a, a.start, a.end)
    {
      forall k | k in a.dataFrames
        ensures a.dataFrames[k] != b.dataFrames[v]
      {
      }
    }
  }

  /** Unmapping area `idx` and dropping it from the list leaves a valid list of the others. */
  lemma RemoveKeeps(areas: seq<MapArea>, idx: nat, w0: Words, w: Words, root: nat, live0: set<nat>, live: set<nat>,
                    fs: set<nat>, leafs: map<nat, nat>)
    requires idx < |areas| && SpaceOk(areas, w0, root, live0, fs, leafs)
    requires live == live0 - FramesOf(areas[idx], areas[idx].start, areas[idx].end)
    requires forall u: nat {:trigger Translation(w, root, u)} ::
      u % VPN_LIMIT !in Lows(areas[idx].start, areas[idx].end) ==> Translation(w, root, u) == Translation(w0, root, u)
    ensures SpaceOk(areas[..idx] + areas[idx + 1..], w, root, live, fs, leafs)
  {
    var rest := areas[..idx] + areas[idx + 1..];
    forall i | 0 <= i < |rest|
      ensures AreaOk(rest[i], w, root, live, fs, leafs)
    {
      var j := if i < idx then i else i + 1;
      assert rest[i] == areas[j];
      AreaKeptByUnmap(areas[idx], areas[j], w0, w, root, live0, live, fs, leafs);
    }
    forall i, j | 0 <= i < j < |rest|
      ensures Disjoint(rest[i], rest[j])
    {
      var i' := if i < idx then i else i + 1;
      var j' := if j < idx then j else j + 1;
      assert rest[i] == areas[i'] && rest[j] == areas[j'];
    }
  }

  /** The pages of an area in order have valid leaves on distinct slots, so `unmap` gets through. */
  lemma MappedAreaUnmaps(a: MapArea, words: Words, root: nat)
    requires AreaMapped(a, words, root)
    ensures PagesApart(a) && forall v :: InArea(a, v) ==> ValidAt(words, root, v)
  {
    forall v | InArea(a, v)
      ensures ValidAt(words, root, v)
    {
      ValidityOfNew(PpnOf(a, v), a.perm | V);
    }
  }

  /**
   * The area's pages hold `data` from their first byte on: byte `k` sits at offset
   * `k % PAGE_SIZE` of the frame of page `start + k / PAGE_SIZE`.
   */
  ghost predicate DataLoaded(b: Bytes, a: MapArea, data: seq<bv8>)
  {
    forall k :: 0 <= k < |data| ==>
      a.start + k / PAGE_SIZE in a.dataFrames && ByteAt(b, Slot(a.dataFrames[a.start + k / PAGE_SIZE], k % PAGE_SIZE)) == data[k]
  }

  /** The pages `copy_data` writes are the area's, each mapped to its own frame of the area. */
  ghost predicate PagesToFrames(a: MapArea, words: Words, root: nat, n: nat)
  {
    && DistinctFrames(words, root, a.start, n)
    && forall v: nat :: a.start <= v < a.start + n ==> v in a.dataFrames && FrameOfPage(words, root, v) == a.dataFrames[v]
  }

  lemma FramesOfPages(a: MapArea, words: Words, root: nat, n: nat)
    requires a.mapType == Framed && AreaMapped(a, words, root) && n <= Pages(a)
    requires forall v :: v in a.dataFrames ==> a.dataFrames[v] < PPN_LIMIT
    requires forall u, v :: u in a.dataFrames && v in a.dataFrames && u != v ==> a.dataFrames[u] != a.dataFrames[v]
    ensures PagesToFrames(a, words, root, n)
  {
    forall v: nat | a.start <= v < a.start + n
      ensures v in a.dataFrames && Translation(words, root, v).Some? && FrameOfPage(words, root, v) == a.dataFrames[v]
    {
      assert InArea(a, v);
    }
  }

  /** Byte `k` of the data lands at offset `k % PAGE_SIZE` of the frame of page `start + k / PAGE_SIZE`. */
  lemma ByteLands(b: Bytes, b0: Bytes, words: Words, root: nat, a: MapArea, data: seq<bv8>, k: nat)
    requires k < |data| && PagesToFrames(a, words, root, ChunkCount(|data|))
    requires CopiedState(b, b0, words, root, a.start, data, ChunkCount(|data|))
    ensures a.start + k / PAGE_SIZE in a.dataFrames
    ensures ByteAt(b, Slot(a.dataFrames[a.start + k / PAGE_SIZE], k % PAGE_SIZE)) == data[k]
  {
    ChunkOfByte(data, k);
    var v := a.start + k / PAGE_SIZE;
    var s := Slot(a.dataFrames[v], k % PAGE_SIZE);
    CopiedLands(b0, words, root, a.start, data, ChunkCount(|data|), v, s);
    assert (v - a.start) * PAGE_SIZE + s.index == k;
  }

  /** A byte outside the area's frames is left as it was. */
  lemma ByteStays(b: Bytes, b0: Bytes, words: Words, root: nat, a: MapArea, data: seq<bv8>, s: Slot)
    requires PagesToFrames(a, words, root, ChunkCount(|data|)) && s.ppn !in a.dataFrames.Values
    requires CopiedState(b, b0, words, root, a.start, data, ChunkCount(|data|))
    ensures ByteAt(b, s) == ByteAt(b0, s)
  {
    forall v: nat | a.start <= v < a.start + ChunkCount(|data|)
      ensures s.ppn != FrameOfPage(words, root, v)
    {
      assert a.dataFrames[v] in a.dataFrames.Values;
    }
    CopiedElsewhere(b0, words, root, a.start, data, ChunkCount(|data|), s);
  }

  /**
   * `copy_data` on a mapped framed area with distinct frames puts the data where `DataLoaded`
   * says, and leaves every byte outside the area's frames alone.
   */
  lemma DataLands(b: Bytes, b0: Bytes, words: Words, root: nat, a: MapArea, data: seq<bv8>)
    requires a.mapType == Framed && AreaMapped(a, words, root) && CopyFits(a, words, root, |data|)
    requires forall v :: v in a.dataFrames ==> a.dataFrames[v] < PPN_LIMIT
    requires forall u, v :: u in a.dataFrames && v in a.dataFrames && u != v ==> a.dataFrames[u] != a.dataFrames[v]
    requires CopiedState(b, b0, words, root, a.start, data, ChunkCount(|data|))
    ensures DataLoaded(b, a, data)
    ensures forall s: Slot :: s.ppn !in a.dataFrames.Values ==> ByteAt(b, s) == ByteAt(b0, s)
  {
    var n := ChunkCount(|data|);
    if n > 0 {
      assert PageFits(a, words, root, a.start + n - 1);
    }
    FramesOfPages(a, words, root, n);
    forall k | 0 <= k < |data|
      ensures a.start + k / PAGE_SIZE in a.dataFrames
      ensures ByteAt(b, Slot(a.dataFrames[a.start + k / PAGE_SIZE], k % PAGE_SIZE)) == data[k]
    {
      ByteLands(b, b0, words, root, a, data, k);
    }
    forall s: Slot | s.ppn !in a.dataFrames.Values
      ensures ByteAt(b, s) == ByteAt(b0, s)
    {
      ByteStays(b, b0, words, root, a, data, s);
    }
  }

  /** More chunks than pages: `copy_data` runs out of pages on the page just past the area. */
  lemma TooManyChunks(a: MapArea, words: Words, root: nat, n: nat)
    requires ChunkCount(n) > Pages(a)
    ensures !CopyFits(a, words, root, n)
  {
    assert !PageFits(a, words, root, a.start + Pages(a));
  }

  /** Which bound of an area `remove_area_with_start_vpn` and `remove_area_with_end_vpn` look at. */
  datatype Bound = Start | End

  function BoundOf(a: MapArea, bound: Bound): Usize
  {
    if bound == Start then a.start else a.end
  }

  /** `iter().enumerate().find(..)`: the index of the first area whose chosen bound is `vpn`. */
  function FindArea(areas: seq<MapArea>, bound: Bound, vpn: Usize): (r: Option<nat>)
    ensures r.Some? ==> r.value < |areas| && BoundOf(areas[r.value], bound) == vpn
    ensures r.Some? ==> forall j :: 0 <= j < r.value ==> BoundOf(areas[j], bound) != vpn
    ensures r.None? <==> forall j :: 0 <= j < |areas| ==> BoundOf(areas[j], bound) != vpn
  {
    if |areas| == 0 then None
    else if BoundOf(areas[0], bound) == vpn then Some(0)
    else
      match FindArea(areas[1..], bound, vpn)
      case None => None
      case Some(i) => Some(i + 1)
  }

  /** The pages `map_trampoline` maps: `VirtAddr::from(TRAMPOLINE).into()` and `PhysAddr::from(strampoline).into()`. */
  function TrampolinePages(trampoline: Usize, strampoline: Usize): (r: Outcome<(Usize, Usize)>)
    ensures r.Done? <==>
      && MmAddress.VirtAddrFromAsWritten(trampoline).Done? && MmAddress.PageOffset(trampoline) == 0
      && strampoline < PA_LIMIT && MmAddress.PageOffset(strampoline) == 0
    ensures r.Done? ==> r.value.0 * PAGE_SIZE == trampoline && r.value.1 * PAGE_SIZE == strampoline
  {
    match MmAddress.VirtAddrFromAsWritten(trampoline)
    case Panic => Panic
    case Done(va) =>
      match MmAddress.AddrToPage(va)
      case Panic => Panic
      case Done(vpn) =>
        match MmAddress.PhysAddrFrom(strampoline)
        case Panic => Panic
        case Done(pa) =>
          match MmAddress.AddrToPage(pa)
          case Panic => Panic
          case Done(ppn) => Done((vpn, ppn))
  }

  /**
   * The `copy_data` step of `push`, on an area `map_area` has just mapped: an identical area or
   * more chunks than pages panics; otherwise the data lands in the area's frames and nothing
   * else changes.
   */
  method LoadData(a: MapArea, pt: PageTable, data: seq<bv8>, fa: StackFrameAllocator, ram: PhysMem) returns (r: Outcome<()>)
    requires pt.Valid(fa, ram) && AreaMapped(a, ram.words, pt.rootPpn)
    requires forall v :: v in a.dataFrames ==> a.dataFrames[v] in fa.live
    requires forall u, v :: u in a.dataFrames && v in a.dataFrames && u != v ==> a.dataFrames[u] != a.dataFrames[v]
    modifies ram
    ensures ram.words == old(ram.words)
    ensures r.Panic? <==> a.mapType == Identical || ChunkCount(|data|) > Pages(a)
    ensures r.Done? ==> DataLoaded(ram.bytes, a, data)
    ensures r.Done? ==> forall s: Slot :: s.ppn !in a.dataFrames.Values ==> ByteAt(ram.bytes, s) == ByteAt(old(ram.bytes), s)
  {
    r := CopyData(a, pt, data, ram);
    if ChunkCount(|data|) > Pages(a) {
      TooManyChunks(a, ram.words, pt.rootPpn, |data|);
    } else {
      forall v: nat | a.start <= v < a.start + ChunkCount(|data|)
        ensures PageFits(a, ram.words, pt.rootPpn, v)
      {
        assert InArea(a, v);
      }
    }
    if r.Done? {
      DataLands(ram.bytes, old(ram.bytes), ram.words, pt.rootPpn, a, data);
    }
  }

  /** The walk reads only the table's own frames: while their entries stay, every translation does. */
  lemma TranslationKept(w0: Words, w: Words, root: nat, l1: set<nat>, l2: set<nat>)
    requires Shaped(w0, root, l1, l2)
    requires forall s: Slot :: s.ppn == root || s.ppn in l1 || s.ppn in l2 ==> WordAt(w, s) == WordAt(w0, s)
    ensures forall u: nat {:trigger Translation(w, root, u)} :: Translation(w, root, u) == Translation(w0, root, u)
  {
    WalkIgnoresLeafLevel(w0, w, root, l1, l2);
    forall u: nat
      ensures Translation(w, root, u) == Translation(w0, root, u)
    {
      if LeafSlot(w0, root, u).Some? {
        LeafSlotInLeafLevel(w0, root, l1, l2, u);
      }
    }
  }

  /** Frame `p` of `b` holds what frame `q` of `b0` held. */
  ghost predicate SamePage(b: Bytes, p: nat, b0: Bytes, q: nat)
  {
    forall k :: 0 <= k < PAGE_SIZE ==> ByteAt(b, Slot(p, k)) == ByteAt(b0, Slot(q, k))
  }

  lemma SamePageFrames(b: Bytes, p: nat, b0: Bytes, q: nat)
    requires SamePage(b, p, b0, q)
    ensures FrameBytes(b, p) == FrameBytes(b0, q)
  {
  }

  /** Every page of the area translates to an entry naming the area's frame for that page. */
  ghost predicate FramesShown(a: MapArea, words: Words, root: nat)
  {
    forall v :: InArea(a, v) ==> Translation(words, root, v).Some? && Ppn(Translation(words, root, v).value) == PpnOf(a, v)
  }

  lemma MappedShowsFrames(a: MapArea, words: Words, root: nat)
    requires AreaMapped(a, words, root) && forall v :: v in a.dataFrames ==> a.dataFrames[v] < PPN_LIMIT
    ensures FramesShown(a, words, root)
  {
  }

  /**
   * The page loop of `from_existed` for one area: for each page, translate it in both tables and
   * copy the whole source frame over the new one. Both translations exist, so neither `unwrap`
   * panics. An identical copy maps each page to the same frame as its source, and copying a frame
   * over itself changes nothing.
   */
  method CopyPages(srcTable: PageTable, a: MapArea, dstTable: PageTable, d: MapArea, ram: PhysMem)
    requires FramesShown(a, ram.words, srcTable.rootPpn) && FramesShown(d, ram.words, dstTable.rootPpn)
    requires d == a.(dataFrames := d.dataFrames)
    requires a.mapType == Identical ==> d.dataFrames == map[]
    requires a.mapType == Framed ==> forall v :: InArea(a, v) ==> v in a.dataFrames && v in d.dataFrames
    requires forall v :: v in a.dataFrames ==> a.dataFrames[v] !in d.dataFrames.Values
    requires forall u, v :: u in d.dataFrames && v in d.dataFrames && u != v ==> d.dataFrames[u] != d.dataFrames[v]
    modifies ram
    ensures ram.words == old(ram.words)
    ensures forall v :: InArea(a, v) ==> FrameBytes(ram.bytes, PpnOf(d, v)) == FrameBytes(old(ram.bytes), PpnOf(a, v))
    ensures forall s: Slot :: s.ppn !in d.dataFrames.Values ==> ByteAt(ram.bytes, s) == ByteAt(old(ram.bytes), s)
  {
    var vpn := a.start;
    while vpn < a.end
      invariant a.start <= vpn && (vpn <= a.end || vpn == a.start)
      invariant ram.words == old(ram.words)
      invariant forall v :: a.start <= v < vpn ==> SamePage(ram.bytes, PpnOf(d, v), old(ram.bytes), PpnOf(a, v))
      invariant forall s: Slot :: s.ppn !in d.dataFrames.Values ==> ByteAt(ram.bytes, s) == ByteAt(old(ram.bytes), s)
    {
      assert InArea(a, vpn) && InArea(d, vpn);
      var src := srcTable.Translate(vpn, ram);
      var dst := dstTable.Translate(vpn, ram);
      CopyPage(ram, Ppn(dst.value), Ppn(src.value), a, d, vpn, old(ram.bytes));
      vpn := vpn + 1;
    }
    forall v | InArea(a, v)
      ensures FrameBytes(ram.bytes, PpnOf(d, v)) == FrameBytes(old(ram.bytes), PpnOf(a, v))
    {
      SamePageFrames(ram.bytes, PpnOf(d, v), old(ram.bytes), PpnOf(a, v));
    }
  }

  /** One turn of the page loop of `from_existed`: frame `dst` of page `vpn` gets the bytes of frame `src`. */
  method CopyPage(ram: PhysMem, dst: nat, src: nat, a: MapArea, d: MapArea, vpn: nat, ghost b0: Bytes)
    requires d == a.(dataFrames := d.dataFrames) && InArea(a, vpn)
    requires a.mapType == Identical ==> d.dataFrames == map[]
    requires a.mapType == Framed ==> forall v :: InArea(a, v) ==> v in a.dataFrames && v in d.dataFrames
    requires dst == PpnOf(d, vpn) && src == PpnOf(a, vpn)
    requires forall v :: v in a.dataFrames ==> a.dataFrames[v] !in d.dataFrames.Values
    requires forall u, v :: u in d.dataFrames && v in d.dataFrames && u != v ==> d.dataFrames[u] != d.dataFrames[v]
    requires forall v :: a.start <= v < vpn ==> SamePage(ram.bytes, PpnOf(d, v), b0, PpnOf(a, v))
    requires forall s: Slot :: s.ppn !in d.dataFrames.Values ==> ByteAt(ram.bytes, s) == ByteAt(b0, s)
    modifies ram
    ensures ram.words == old(ram.words)
    ensures forall v :: a.start <= v <= vpn ==> SamePage(ram.bytes, PpnOf(d, v), b0, PpnOf(a, v))
    ensures forall s: Slot :: s.ppn !in d.dataFrames.Values ==> ByteAt(ram.bytes, s) == ByteAt(b0, s)
  {
    ghost var b := ram.bytes;
    ram.CopyFrame(dst, src);
    if a.mapType == Framed {
      assert d.dataFrames[vpn] in d.dataFrames.Values;
    }
    assert src !in d.dataFrames.Values;
    forall k | 0 <= k < PAGE_SIZE
      ensures ByteAt(ram.bytes, Slot(dst, k)) == ByteAt(b0, Slot(src, k))
    {
      assert ByteAt(b, Slot(src, k)) == ByteAt(b0, Slot(src, k));
    }
    forall v | a.start <= v < vpn
      ensures SamePage(ram.bytes, PpnOf(d, v), b0, PpnOf(a, v))
    {
      assert PpnOf(d, v) != dst;
    }
  }

  /** The pages of all the areas; `from_existed` takes at most three frames for each. */
  function TotalPages(areas: seq<MapArea>): nat
  {
    if |areas| == 0 then 0 else Pages(areas[0]) + TotalPages(areas[1..])
  }

  /** Two byte maps agree on every byte of frame `p`. */
  lemma FrameBytesKept(b: Bytes, b': Bytes, p: nat)
    requires forall k :: 0 <= k < PAGE_SIZE ==> ByteAt(b, Slot(p, k)) == ByteAt(b', Slot(p, k))
    ensures FrameBytes(b, p) == FrameBytes(b', p)
  {
  }

  /**
   * The value part of `from_existed`'s progress after `i` areas: the copies in `areas` match the
   * source areas in range, permission and kind, each framed copy's pages hold the bytes the
   * source pages had in `b0`, and no frame of `live0` has changed since `w0` and `b0`.
   */
  ghost predicate CopiesHold(srcAreas: seq<MapArea>, areas: seq<MapArea>, i: nat, words: Words, bytes: Bytes,
                             w0: Words, b0: Bytes, live0: set<nat>)
  {
    && i <= |srcAreas| && |areas| == i
    && (forall j :: 0 <= j < i ==> areas[j] == FromAnother(srcAreas[j]).(dataFrames := areas[j].dataFrames))
    && (forall j, v :: 0 <= j < i && srcAreas[j].mapType == Framed && InArea(srcAreas[j], v) ==>
          FrameBytes(bytes, PpnOf(areas[j], v)) == FrameBytes(b0, PpnOf(srcAreas[j], v)))
    && (forall s: Slot :: s.ppn in live0 ==> WordAt(words, s) == WordAt(w0, s) && ByteAt(bytes, s) == ByteAt(b0, s))
  }

  /**
   * Pushing copy `d` of source area `i` (bytes `b1` to `b2`, words `w1` to `w2`) and copying its
   * pages (bytes `b2` to `b3`) extends the progress by one area.
   */
  lemma CopiesStep(srcAreas: seq<MapArea>, areas: seq<MapArea>, d: MapArea, i: nat, w1: Words, w2: Words,
                   b1: Bytes, b2: Bytes, b3: Bytes, w0: Words, b0: Bytes, live0: set<nat>, live1: set<nat>, fs1: set<nat>)
    requires CopiesHold(srcAreas, areas, i, w1, b1, w0, b0, live0) && i < |srcAreas|
    requires live0 <= live1 && fs1 !! live0
    requires forall j, v :: 0 <= j < i && areas[j].mapType == Framed && InArea(areas[j], v) ==>
               v in areas[j].dataFrames && areas[j].dataFrames[v] in live1
    requires forall s: Slot :: s.ppn in live1 ==> ByteAt(b2, s) == ByteAt(b1, s)
    requires forall s: Slot :: s.ppn in live1 && s.ppn !in fs1 ==> WordAt(w2, s) == WordAt(w1, s)
    requires d == FromAnother(srcAreas[i]).(dataFrames := d.dataFrames)
    requires srcAreas[i].mapType == Framed ==> forall v :: InArea(srcAreas[i], v) ==> v in srcAreas[i].dataFrames
    requires forall v :: v in srcAreas[i].dataFrames ==> srcAreas[i].dataFrames[v] in live0
    requires forall v :: v in d.dataFrames ==> d.dataFrames[v] !in live1
    requires forall v :: InArea(srcAreas[i], v) ==> FrameBytes(b3, PpnOf(d, v)) == FrameBytes(b2, PpnOf(srcAreas[i], v))
    requires forall s: Slot :: s.ppn !in d.dataFrames.Values ==> ByteAt(b3, s) == ByteAt(b2, s)
    ensures CopiesHold(srcAreas, areas + [d], i + 1, w2, b3, w0, b0, live0)
  {
    var areas' := areas + [d];
    forall j | 0 <= j < i + 1
      ensures areas'[j] == FromAnother(srcAreas[j]).(dataFrames := areas'[j].dataFrames)
    {
      assert j < i ==> areas'[j] == areas[j];
    }
    forall j, v | 0 <= j < i + 1 && srcAreas[j].mapType == Framed && InArea(srcAreas[j], v)
      ensures FrameBytes(b3, PpnOf(areas'[j], v)) == FrameBytes(b0, PpnOf(srcAreas[j], v))
    {
      if j < i {
        assert areas'[j] == areas[j];
        var p := areas[j].dataFrames[v];
        assert p !in d.dataFrames.Values;
        forall k | 0 <= k < PAGE_SIZE
          ensures ByteAt(b3, Slot(p, k)) == ByteAt(b1, Slot(p, k))
        {
        }
        FrameBytesKept(b3, b1, p);
      } else {
        assert areas'[j] == d;
        var p := srcAreas[i].dataFrames[v];
        forall k | 0 <= k < PAGE_SIZE
          ensures ByteAt(b2, Slot(p, k)) == ByteAt(b0, Slot(p, k))
        {
        }
        FrameBytesKept(b2, b0, p);
      }
    }
  }

  /** Frames that stay in use keep their words and bytes across a push that allocated only fresh frames. */
  lemma LiveKeptByPush(w0: Words, b0: Bytes, w1: Words, b1: Bytes, w2: Words, b2: Bytes,
                       live0: set<nat>, live1: set<nat>, fs1: set<nat>)
    requires forall s: Slot :: s.ppn in live0 ==> WordAt(w1, s) == WordAt(w0, s) && ByteAt(b1, s) == ByteAt(b0, s)
    requires live0 <= live1 && fs1 !! live0
    requires forall s: Slot :: s.ppn in live1 ==> ByteAt(b2, s) == ByteAt(b1, s)
    requires forall s: Slot :: s.ppn in live1 && s.ppn !in fs1 ==> WordAt(w2, s) == WordAt(w1, s)
    ensures forall s: Slot :: s.ppn in live0 ==> WordAt(w2, s) == WordAt(w0, s) && ByteAt(b2, s) == ByteAt(b0, s)
  {
  }

  /**
   * An area of a space whose table frames have kept their words still shows its frames through
   * the table, and owns frames of the space.
   */
  lemma SourceShown(a: MapArea, w0: Words, w: Words, root: nat, l1: set<nat>, l2: set<nat>,
                    live0: set<nat>, fs: set<nat>, leafs: map<nat, nat>)
    requires AreaOk(a, w0, root, live0, fs, leafs) && Shaped(w0, root, l1, l2)
    requires root in live0 && l1 <= live0 && l2 <= live0 && forall p :: p in live0 ==> p < PPN_LIMIT
    requires forall s: Slot :: s.ppn in live0 ==> WordAt(w, s) == WordAt(w0, s)
    ensures FramesShown(a, w, root)
    ensures forall v :: v in a.dataFrames ==> a.dataFrames[v] in live0
    ensures a.mapType == Framed ==> forall v :: InArea(a, v) ==> v in a.dataFrames
  {
    TranslationKept(w0, w, root, l1, l2);
    assert AreaMapped(a, w, root);
    MappedShowsFrames(a, w, root);
  }

  /** The area last pushed onto a valid space shows its frames, owns them alone, and maps each page once. */
  lemma PushedShown(areas: seq<MapArea>, d: MapArea, w: Words, root: nat, live: set<nat>, fs: set<nat>, leafs: map<nat, nat>)
    requires SpaceOk(areas + [d], w, root, live, fs, leafs) && forall p :: p in live ==> p < PPN_LIMIT
    ensures FramesShown(d, w, root)
    ensures d.mapType == Identical ==> d.dataFrames == map[]
    ensures d.mapType == Framed ==> forall v :: InArea(d, v) ==> v in d.dataFrames
    ensures forall u, v :: u in d.dataFrames && v in d.dataFrames && u != v ==> d.dataFrames[u] != d.dataFrames[v]
  {
    assert (areas + [d])[|areas|] == d;
    assert AreaOk(d, w, root, live, fs, leafs);
    MappedShowsFrames(d, w, root);
  }

  /** In a valid space every area holds frames in use, and a framed area has one for each of its pages. */
  lemma AreasOwnLive(areas: seq<MapArea>, words: Words, root: nat, live: set<nat>, fs: set<nat>, leafs: map<nat, nat>)
    requires SpaceOk(areas, words, root, live, fs, leafs)
    ensures forall j, v :: 0 <= j < |areas| && v in areas[j].dataFrames ==> areas[j].dataFrames[v] in live
    ensures forall j, v :: 0 <= j < |areas| && areas[j].mapType == Framed && InArea(areas[j], v) ==> v in areas[j].dataFrames
  {
    forall j | 0 <= j < |areas|
      ensures AreaOk(areas[j], words, root, live, fs, leafs)
    {
    }
  }

  /** `from_existed` after the first `i` areas of `space`: `ms` is valid, and `CopiesHold`. */
  ghost predicate CopiedAreas(space: MemorySet, ms: MemorySet, i: nat, fa: StackFrameAllocator, ram: PhysMem,
                              w0: Words, b0: Bytes, live0: set<nat>)
    reads space, ms, ms.pageTable, fa, ram
  {
    && ms.Valid(fa, ram) && live0 <= fa.live && ms.pageTable.FrameSet() !! live0
    && CopiesHold(space.areas, ms.areas, i, ram.words, ram.bytes, w0, b0, live0)
  }

  /**
   * The second half of one turn of the area loop of `from_existed`: the copy of area `i` has been
   * pushed onto `ms` (words `w1`, bytes `b1` and live frames `live1` before the push); copy its
   * pages over.
   */
  method CopyPushed(space: MemorySet, ms: MemorySet, i: nat, fa: StackFrameAllocator, ram: PhysMem,
                    ghost w0: Words, ghost b0: Bytes, ghost live0: set<nat>,
                    ghost areas1: seq<MapArea>, ghost w1: Words, ghost b1: Bytes, ghost live1: set<nat>, ghost fs1: set<nat>)
    requires i < |space.areas| && ms.pageTable != space.pageTable
    requires AreaOk(space.areas[i], w0, space.pageTable.rootPpn, live0, space.pageTable.FrameSet(), space.pageTable.leafs)
    requires Shaped(w0, space.pageTable.rootPpn, space.pageTable.l1, space.pageTable.l2)
    requires space.pageTable.rootPpn in live0 && space.pageTable.l1 <= live0 && space.pageTable.l2 <= live0
    requires ms.Valid(fa, ram) && live0 <= live1 <= fa.live && fs1 !! live0 && ms.pageTable.FrameSet() !! live0
    requires |areas1| == i && |ms.areas| == i + 1 && ms.areas[..i] == areas1
    requires CopiesHold(space.areas, areas1, i, w1, b1, w0, b0, live0)
    requires forall j, v :: 0 <= j < i && areas1[j].mapType == Framed && InArea(areas1[j], v) ==>
               v in areas1[j].dataFrames && areas1[j].dataFrames[v] in live1
    requires forall s: Slot :: s.ppn in live1 ==> ByteAt(ram.bytes, s) == ByteAt(b1, s)
    requires forall s: Slot :: s.ppn in live1 && s.ppn !in fs1 ==> WordAt(ram.words, s) == WordAt(w1, s)
    requires ms.areas[i] == FromAnother(space.areas[i]).(dataFrames := ms.areas[i].dataFrames)
    requires forall v :: v in ms.areas[i].dataFrames ==> ms.areas[i].dataFrames[v] !in live1
    modifies ram
    ensures ram.words == old(ram.words)
    ensures CopiedAreas(space, ms, i + 1, fa, ram, w0, b0, live0)
  {
    var area := space.areas[i];
    var d := ms.areas[i];
    assert ms.areas == areas1 + [d];
    ghost var w2, b2 := ram.words, ram.bytes;
    LiveKeptByPush(w0, b0, w1, b1, w2, b2, live0, live1, fs1);
    assert forall p :: p in fa.live ==> p < PPN_LIMIT;
    SourceShown(area, w0, w2, space.pageTable.rootPpn, space.pageTable.l1, space.pageTable.l2,
                live0, space.pageTable.FrameSet(), space.pageTable.leafs);
    PushedShown(areas1, d, w2, ms.pageTable.rootPpn, fa.live, ms.pageTable.FrameSet(), ms.pageTable.leafs);
    CopyPages(space.pageTable, area, ms.pageTable, d, ram);
    CopiesStep(space.areas, areas1, d, i, w1, w2, b1, b2, ram.bytes, w0, b0, live0, live1, fs1);
    assert ms.Valid(fa, ram);
    assert CopiesHold(space.areas, ms.areas, i + 1, ram.words, ram.bytes, w0, b0, live0);
  }

  /** One turn of the area loop of `from_existed`: push a copy of area `i` without data, then copy its pages. */
  method CopyAreaInto(space: MemorySet, ms: MemorySet, i: nat, fa: StackFrameAllocator, ram: PhysMem,
                      ghost w0: Words, ghost b0: Bytes, ghost live0: set<nat>) returns (ok: bool)
    requires i < |space.areas| && ms != space && ms.pageTable != space.pageTable
    requires AreaOk(space.areas[i], w0, space.pageTable.rootPpn, live0, space.pageTable.FrameSet(), space.pageTable.leafs)
    requires Shaped(w0, space.pageTable.rootPpn, space.pageTable.l1, space.pageTable.l2)
    requires space.pageTable.rootPpn in live0 && space.pageTable.l1 <= live0 && space.pageTable.l2 <= live0
    requires CopiedAreas(space, ms, i, fa, ram, w0, b0, live0)
    requires fa.FreeFrameNum() >= 3 * Pages(space.areas[i])
    modifies ms, ms.pageTable, fa, ram
    ensures fa.Valid() && fa.FreeFrameNum() + 3 * Pages(space.areas[i]) >= old(fa.FreeFrameNum())
    ensures ms.pageTable.rootPpn == old(ms.pageTable.rootPpn)
    ensures ok ==> CopiedAreas(space, ms, i + 1, fa, ram, w0, b0, live0)
    ensures ok ==> KeepsValid(old(ram.words), ram.words, ms.pageTable.rootPpn)
  {
    var area := space.areas[i];
    ghost var w1, b1, live1, fs1, areas1 := ram.words, ram.bytes, fa.live, ms.pageTable.FrameSet(), ms.areas;
    AreasOwnLive(areas1, w1, ms.pageTable.rootPpn, live1, fs1, ms.pageTable.leafs);
    assert CopiesHold(space.areas, areas1, i, w1, b1, w0, b0, live0);
    assert live0 <= live1 && fs1 !! live0;
    var r := ms.Push(FromAnother(area), None, fa, ram);
    if r.Panic? {
      return false;
    }
    assert ms.Valid(fa, ram) && live1 <= fa.live;
    assert ms.pageTable.FrameSet() !! live0;
    CopyPushed(space, ms, i, fa, ram, w0, b0, live0, areas1, w1, b1, live1, fs1);
    ok := true;
  }

  /** The area loop of `from_existed`: copy every area of `space` into `ms`, in order, keeping one valid translation. */
  method CopyAreas(space: MemorySet, ms: MemorySet, fa: StackFrameAllocator, ram: PhysMem,
                   ghost w0: Words, ghost b0: Bytes, ghost live0: set<nat>, ghost vpn: nat, ghost entry: Usize)
    returns (ok: bool)
    requires ms != space && ms.pageTable != space.pageTable
    requires SpaceOk(space.areas, w0, space.pageTable.rootPpn, live0, space.pageTable.FrameSet(), space.pageTable.leafs)
    requires Shaped(w0, space.pageTable.rootPpn, space.pageTable.l1, space.pageTable.l2)
    requires space.pageTable.rootPpn in live0 && space.pageTable.l1 <= live0 && space.pageTable.l2 <= live0
    requires CopiedAreas(space, ms, 0, fa, ram, w0, b0, live0)
    requires fa.FreeFrameNum() >= 3 * TotalPages(space.areas)
    requires Translation(ram.words, ms.pageTable.rootPpn, vpn) == Some(entry) && IsValid(entry)
    modifies ms, ms.pageTable, fa, ram
    ensures fa.Valid()
    ensures ok ==> CopiedAreas(space, ms, |space.areas|, fa, ram, w0, b0, live0)
    ensures ok ==> Translation(ram.words, ms.pageTable.rootPpn, vpn) == Some(entry)
  {
    var i := 0;
    while i < |space.areas|
      invariant i <= |space.areas| && ms.pageTable.rootPpn == old(ms.pageTable.rootPpn)
      invariant CopiedAreas(space, ms, i, fa, ram, w0, b0, live0)
      invariant fa.FreeFrameNum() >= 3 * TotalPages(space.areas[i..])
      invariant Translation(ram.words, ms.pageTable.rootPpn, vpn) == Some(entry)
    {
      assert space.areas[i..][1..] == space.areas[i + 1..];
      assert AreaOk(space.areas[i], w0, space.pageTable.rootPpn, live0, space.pageTable.FrameSet(), space.pageTable.leafs);
      ok := CopyAreaInto(space, ms, i, fa, ram, w0, b0, live0);
      if !ok {
        return;
      }
      i := i + 1;
    }
    ok := true;
  }

  /** The areas of a space are those of `segs`, in order, each holding its segment's bytes. */
  ghost predicate SegmentsHold(segs: seq<Loadable>, areas: seq<MapArea>, bytes: Bytes)
  {
    && |areas| == |segs|
    && forall j :: 0 <= j < |segs| ==>
         areas[j] == segs[j].area.(dataFrames := areas[j].dataFrames) && DataLoaded(bytes, areas[j], segs[j].data)
  }

  /** Bytes of frames in use stay, so the segments already loaded keep their data when one more is pushed. */
  lemma SegmentsKept(segs: seq<Loadable>, areas: seq<MapArea>, b: Bytes, b': Bytes, live: set<nat>, l: Loadable, d: MapArea)
    requires SegmentsHold(segs, areas, b)
    requires forall j, v :: 0 <= j < |areas| && v in areas[j].dataFrames ==> areas[j].dataFrames[v] in live
    requires forall s: Slot :: s.ppn in live ==> ByteAt(b', s) == ByteAt(b, s)
    requires d == l.area.(dataFrames := d.dataFrames) && DataLoaded(b', d, l.data)
    ensures SegmentsHold(segs + [l], areas + [d], b')
  {
    var segs', areas' := segs + [l], areas + [d];
    forall j | 0 <= j < |segs'|
      ensures areas'[j] == segs'[j].area.(dataFrames := areas'[j].dataFrames) && DataLoaded(b', areas'[j], segs'[j].data)
    {
      if j < |segs| {
        assert areas'[j] == areas[j] && segs'[j] == segs[j];
        var a := areas[j];
        forall k | 0 <= k < |segs[j].data|
          ensures a.start + k / PAGE_SIZE in a.dataFrames
          ensures ByteAt(b', Slot(a.dataFrames[a.start + k / PAGE_SIZE], k % PAGE_SIZE)) == segs[j].data[k]
        {
        }
      }
    }
  }

  /**
   * `from_elf` so far: `ms` is valid and holds the segments `segs`, the frames of `live0` stay
   * out of its table and keep the words and bytes they had in `w0` and `b0`.
   */
  ghost predicate SegmentsInto(ms: MemorySet, segs: seq<Loadable>, fa: StackFrameAllocator, ram: PhysMem,
                               w0: Words, b0: Bytes, live0: set<nat>)
    reads ms, ms.pageTable, fa, ram
  {
    && ms.Valid(fa, ram) && live0 <= fa.live && ms.pageTable.FrameSet() !! live0
    && SegmentsHold(segs, ms.areas, ram.bytes)
    && (forall s: Slot :: s.ppn in live0 ==> WordAt(ram.words, s) == WordAt(w0, s) && ByteAt(ram.bytes, s) == ByteAt(b0, s))
  }

  /** One `push` of `from_elf`: the area and, for a segment, its bytes. */
  method PushSegment(ms: MemorySet, ghost segs: seq<Loadable>, area: MapArea, data: Option<seq<bv8>>,
                     fa: StackFrameAllocator, ram: PhysMem, ghost w0: Words, ghost b0: Bytes, ghost live0: set<nat>)
    returns (ok: bool)
    requires SegmentsInto(ms, segs, fa, ram, w0, b0, live0)
    requires area.dataFrames == map[] && fa.FreeFrameNum() >= 3 * Pages(area)
    modifies ms, ms.pageTable, fa, ram
    ensures fa.Valid() && fa.FreeFrameNum() + 3 * Pages(area) >= old(fa.FreeFrameNum())
    ensures ms.pageTable.rootPpn == old(ms.pageTable.rootPpn)
    ensures ok ==> SegmentsInto(ms, segs + [Loadable(area, if data.Some? then data.value else [])], fa, ram, w0, b0, live0)
    ensures ok ==> KeepsValid(old(ram.words), ram.words, ms.pageTable.rootPpn)
  {
    ghost var w1, b1, live1, fs1, areas1 := ram.words, ram.bytes, fa.live, ms.pageTable.FrameSet(), ms.areas;
    AreasOwnLive(areas1, w1, ms.pageTable.rootPpn, live1, fs1, ms.pageTable.leafs);
    assert SegmentsHold(segs, areas1, b1);
    assert forall s: Slot :: s.ppn in live0 ==> WordAt(w1, s) == WordAt(w0, s) && ByteAt(b1, s) == ByteAt(b0, s);
    assert live0 <= live1 && fs1 !! live0;
    var r := ms.Push(area, data, fa, ram);
    if r.Panic? {
      return false;
    }
    var d := ms.areas[|areas1|];
    assert ms.areas == areas1 + [d];
    assert ms.Valid(fa, ram) && live1 <= fa.live;
    assert ms.pageTable.FrameSet() !! live0;
    ghost var l := Loadable(area, if data.Some? then data.value else []);
    assert DataLoaded(ram.bytes, d, l.data);
    SegmentsKept(segs, areas1, b1, ram.bytes, live1, l, d);
    LiveKeptByPush(w0, b0, w1, b1, ram.words, ram.bytes, live0, live1, fs1);
    assert SegmentsHold(segs + [l], ms.areas, ram.bytes);
    ok := true;
  }

  /** `from_elf` so far, with the translation of page `vpn` still `entry`. */
  ghost predicate Loading(ms: MemorySet, segs: seq<Loadable>, fa: StackFrameAllocator, ram: PhysMem,
                          w0: Words, b0: Bytes, live0: set<nat>, vpn: nat, entry: Usize)
    reads ms, ms.pageTable, fa, ram
  {
    SegmentsInto(ms, segs, fa, ram, w0, b0, live0) && Translation(ram.words, ms.pageTable.rootPpn, vpn) == Some(entry)
  }

  /**
   * The program-header loop of `from_elf`: push the area of every loadable segment with its
   * bytes, and return `program_vpn_end`, the highest segment end. A valid translation stays.
   */
  method LoadSegments(elf: ElfImage, ms: MemorySet, fa: StackFrameAllocator, ram: PhysMem,
                      ghost w0: Words, ghost b0: Bytes, ghost live0: set<nat>, ghost vpn: nat, ghost entry: Usize, ghost extra: nat)
    returns (r: Outcome<Usize>, ghost segs: seq<Loadable>)
    requires Loading(ms, [], fa, ram, w0, b0, live0, vpn, entry) && IsValid(entry)
    requires fa.FreeFrameNum() >= 3 * (HeadersPages(elf.headers) + extra)
    modifies ms, ms.pageTable, fa, ram
    ensures fa.Valid() && ms.pageTable.rootPpn == old(ms.pageTable.rootPpn)
    ensures Loaded(elf, |elf.headers|).Panic? ==> r.Panic?
    ensures r.Done? ==> Loaded(elf, |elf.headers|) == Done(segs) && r.value == ProgramEnd(segs)
    ensures r.Done? ==> Loading(ms, segs, fa, ram, w0, b0, live0, vpn, entry)
    ensures r.Done? ==> fa.FreeFrameNum() >= 3 * extra
  {
    var programEnd: Usize := 0;
    var k := 0;
    var ok := true;
    segs := [];
    assert elf.headers[0..] == elf.headers;
    while ok && k < |elf.headers|
      invariant k <= |elf.headers| && ms.pageTable.rootPpn == old(ms.pageTable.rootPpn) && fa.Valid()
      invariant ok ==> Loaded(elf, k) == Done(segs) && programEnd == ProgramEnd(segs)
      invariant ok ==> Loading(ms, segs, fa, ram, w0, b0, live0, vpn, entry)
      invariant ok ==> fa.FreeFrameNum() >= 3 * (HeadersPages(elf.headers[k..]) + extra)
    {
      ok, programEnd, segs := LoadHeader(elf, k, programEnd, ms, segs, fa, ram, w0, b0, live0, vpn, entry, extra);
      k := k + 1;
    }
    r := if ok then Done(programEnd) else Panic;
  }

  /** One turn of the program-header loop of `from_elf`, for header `k`. */
  method LoadHeader(elf: ElfImage, k: nat, programEnd: Usize, ms: MemorySet, ghost segs: seq<Loadable>,
                    fa: StackFrameAllocator, ram: PhysMem, ghost w0: Words, ghost b0: Bytes, ghost live0: set<nat>,
                    ghost vpn: nat, ghost entry: Usize, ghost extra: nat)
    returns (ok: bool, programEnd': Usize, ghost segs': seq<Loadable>)
    requires k < |elf.headers| && Loaded(elf, k) == Done(segs) && programEnd == ProgramEnd(segs)
    requires Loading(ms, segs, fa, ram, w0, b0, live0, vpn, entry) && IsValid(entry)
    requires fa.FreeFrameNum() >= 3 * (HeadersPages(elf.headers[k..]) + extra)
    modifies ms, ms.pageTable, fa, ram
    ensures fa.Valid() && ms.pageTable.rootPpn == old(ms.pageTable.rootPpn)
    ensures Loaded(elf, k + 1).Panic? ==> !ok
    ensures ok ==> Loaded(elf, k + 1) == Done(segs') && programEnd' == ProgramEnd(segs')
    ensures ok ==> Loading(ms, segs', fa, ram, w0, b0, live0, vpn, entry)
    ensures ok ==> fa.FreeFrameNum() >= 3 * (HeadersPages(elf.headers[k + 1..]) + extra)
  {
    var ph := elf.headers[k];
    assert elf.headers[k..][1..] == elf.headers[k + 1..];
    programEnd', segs' := programEnd, segs;
    if !ph.load {
      return true, programEnd, segs;
    }
    var area := FromPh(ph.vaddr, ph.memSize, ph.flags);
    if area.Panic? {
      return false, programEnd, segs;
    }
    var data := SegmentData(elf.input, ph);
    if data.Panic? {
      return false, programEnd, segs;
    }
    segs' := segs + [Loadable(area.value, data.value)];
    assert segs'[..|segs|] == segs;
    ProgramEndPush(segs, Loadable(area.value, data.value));
    var vpnEnd := area.value.end;
    if vpnEnd > programEnd {
      programEnd' := vpnEnd;
    }
    ok := PushSegment(ms, segs, area.value, Some(data.value), fa, ram, w0, b0, live0);
  }

  /** The pages of the user stack and trap-context areas `from_elf` places after `programEnd`, when the layout succeeds. */
  function LayoutPages(programEnd: Usize, guardPageSize: Usize, trapContext: Usize): nat
  {
    var l := UserAreas(programEnd, guardPageSize, trapContext);
    if l.Panic? then 0 else Pages(l.value.stack) + Pages(l.value.trapCx)
  }

  /** The pages of the user stack and trap-context areas, when the program loads and the layout succeeds. */
  function TailPages(elf: ElfImage, guardPageSize: Usize, trapContext: Usize): nat
  {
    var segs := Loaded(elf, |elf.headers|);
    if segs.Panic? then 0 else LayoutPages(ProgramEnd(segs.value), guardPageSize, trapContext)
  }

  /**
   * The tail of `from_elf`: lay out the user stack and the trap context after `programEnd` and
   * push both, without data. It returns the user stack pointer.
   */
  method PushLayout(ms: MemorySet, ghost segs: seq<Loadable>, programEnd: Usize, guardPageSize: Usize, trapContext: Usize,
                    fa: StackFrameAllocator, ram: PhysMem, ghost w0: Words, ghost b0: Bytes, ghost live0: set<nat>,
                    ghost vpn: nat, ghost entry: Usize)
    returns (r: Outcome<Usize>)
    requires SegmentsInto(ms, segs, fa, ram, w0, b0, live0)
    requires fa.FreeFrameNum() >= 3 * LayoutPages(programEnd, guardPageSize, trapContext)
    requires Translation(ram.words, ms.pageTable.rootPpn, vpn) == Some(entry) && IsValid(entry)
    modifies ms, ms.pageTable, fa, ram
    ensures fa.Valid()
    ensures UserAreas(programEnd, guardPageSize, trapContext).Panic? ==> r.Panic?
    ensures r.Done? ==>
      var l := UserAreas(programEnd, guardPageSize, trapContext);
      && l.Done? && r.value == l.value.userSp
      && SegmentsInto(ms, segs + [Loadable(l.value.stack, []), Loadable(l.value.trapCx, [])], fa, ram, w0, b0, live0)
    ensures r.Done? ==> Translation(ram.words, ms.pageTable.rootPpn, vpn) == Some(entry)
  {
    var layout := UserAreas(programEnd, guardPageSize, trapContext);
    if layout.Panic? {
      return Panic;
    }
    var l := layout.value;
    var ok := PushSegment(ms, segs, l.stack, None, fa, ram, w0, b0, live0);
    if !ok {
      return Panic;
    }
    ok := PushSegment(ms, segs + [Loadable(l.stack, [])], l.trapCx, None, fa, ram, w0, b0, live0);
    if !ok {
      return Panic;
    }
    assert segs + [Loadable(l.stack, [])] + [Loadable(l.trapCx, [])] == segs + [Loadable(l.stack, []), Loadable(l.trapCx, [])];
    r := Done(l.userSp);
  }

  /** The frames `from_elf` may take: the table root, the trampoline's tables, and three per page of every area it pushes. */
  function ElfFrames(elf: ElfImage, guardPageSize: Usize, trapContext: Usize): nat
  {
    3 + 3 * (HeadersPages(elf.headers) + TailPages(elf, guardPageSize, trapContext))
  }

  class MemorySet {
    const pageTable: PageTable
    var areas: seq<MapArea>

    ghost predicate Valid(fa: StackFrameAllocator, ram: PhysMem)
      reads this, pageTable, fa, ram`words
    {
      && pageTable.Valid(fa, ram)
      && SpaceOk(areas, ram.words, pageTable.rootPpn, fa.live, pageTable.FrameSet(), pageTable.leafs)
    }

    /** `new_bare`: a new page table with its root frame, and no areas. */
    constructor NewBare(fa: StackFrameAllocator, ram: PhysMem)
      requires fa.Valid() && fa.FreeFrameNum() >= 1
      modifies fa, ram
      ensures Valid(fa, ram) && areas == [] && fresh(pageTable)
      ensures pageTable.FrameSet() == {pageTable.rootPpn} && pageTable.leafs == map[]
      ensures pageTable.rootPpn !in old(fa.live) && fa.live == old(fa.live) + {pageTable.rootPpn}
      ensures fa.FreeFrameNum() + 1 == old(fa.FreeFrameNum())
      ensures forall s: Slot :: WordAt(ram.words, s) == if s.ppn == pageTable.rootPpn then 0 else WordAt(old(ram.words), s)
      ensures forall s: Slot :: s.ppn != pageTable.rootPpn ==> ByteAt(ram.bytes, s) == ByteAt(old(ram.bytes), s)
    {
      pageTable := new PageTable(fa, ram);
      areas := [];
      new;
      assert pageTable.frames[0] == pageTable.rootPpn;
    }

    /**
     * `map_trampoline`: map the trampoline page to the page of `strampoline` with R and X, and
     * `unwrap` the result. It panics on an address the conversions refuse and when the page is
     * already mapped; the areas stay valid either way.
     */
    method MapTrampoline(trampoline: Usize, strampoline: Usize, fa: StackFrameAllocator, ram: PhysMem) returns (r: Outcome<()>)
      requires Valid(fa, ram) && fa.FreeFrameNum() >= 2
      modifies pageTable, fa, ram
      ensures Valid(fa, ram) && pageTable.rootPpn == old(pageTable.rootPpn) && pageTable.leafs == old(pageTable.leafs)
      ensures fa.FreeFrameNum() + 2 >= old(fa.FreeFrameNum())
      ensures r.Done? <==>
        TrampolinePages(trampoline, strampoline).Done? &&
        !old(ValidAt(ram.words, pageTable.rootPpn, TrampolinePages(trampoline, strampoline).value.0))
      ensures r.Done? ==>
        var (vpn, ppn) := TrampolinePages(trampoline, strampoline).value;
        Translation(ram.words, pageTable.rootPpn, vpn) == Some(New(ppn, R | X | V))
      ensures KeepsValid(old(ram.words), ram.words, pageTable.rootPpn)
      ensures old(pageTable.FrameSet()) <= pageTable.FrameSet() && pageTable.FrameSet() - old(pageTable.FrameSet()) !! old(fa.live)
      ensures fa.live == old(fa.live) + (pageTable.FrameSet() - old(pageTable.FrameSet()))
      ensures forall s: Slot :: s.ppn in old(fa.live) ==> ByteAt(ram.bytes, s) == ByteAt(old(ram.bytes), s)
      ensures forall s: Slot :: s.ppn in old(fa.live) && s.ppn !in old(pageTable.FrameSet()) ==>
        WordAt(ram.words, s) == WordAt(old(ram.words), s)
    {
      var pages := TrampolinePages(trampoline, strampoline);
      if pages.Panic? {
        return Panic;
      }
      ghost var w0, live0, fs0 := ram.words, fa.live, pageTable.FrameSet();
      var ok := pageTable.Map(pages.value.0, pages.value.1, R | X, fa, ram);
      SpaceKeptByMap(areas, w0, ram.words, pageTable.rootPpn, live0, fa.live, fs0, pageTable.FrameSet(), pageTable.leafs);
      r := if ok then Done(()) else Panic;
    }

    /**
     * `push`: map the area, copy the data into it when there is some, then append it. With data,
     * an identical area or more chunks than pages panics in `copy_data`; mapping panics on a page
     * that already had a valid leaf. Once pushed, the new area is in order, holds the data from
     * its first page on, and no other area or live frame has changed.
     */
    method Push(area: MapArea, data: Option<seq<bv8>>, fa: StackFrameAllocator, ram: PhysMem) returns (r: Outcome<()>)
      requires Valid(fa, ram) && area.dataFrames == map[] && fa.FreeFrameNum() >= 3 * Pages(area)
      modifies this, pageTable, fa, ram
      ensures pageTable.rootPpn == old(pageTable.rootPpn) && pageTable.leafs == old(pageTable.leafs)
      ensures fa.Valid() && fa.FreeFrameNum() + 3 * Pages(area) >= old(fa.FreeFrameNum())
      ensures r.Done? <==>
        Mappable(area, old(ram.words), pageTable.rootPpn) &&
        (data.Some? ==> area.mapType == Framed && ChunkCount(|data.value|) <= Pages(area))
      ensures r.Done? ==> Valid(fa, ram)
      ensures r.Done? ==> |areas| == |old(areas)| + 1 && areas[..|old(areas)|] == old(areas)
      ensures r.Done? ==>
        var a := areas[|old(areas)|];
        a == area.(dataFrames := a.dataFrames) && (data.Some? ==> DataLoaded(ram.bytes, a, data.value))
      ensures r.Done? ==>
        var a := areas[|old(areas)|];
        forall v :: v in a.dataFrames ==> a.dataFrames[v] !in old(fa.live)
      ensures r.Done? ==> KeepsValid(old(ram.words), ram.words, pageTable.rootPpn)
      ensures r.Done? ==> old(fa.live) <= fa.live
      ensures r.Done? ==> old(pageTable.FrameSet()) <= pageTable.FrameSet() && pageTable.FrameSet() - old(pageTable.FrameSet()) !! old(fa.live)
      ensures r.Done? ==> forall s: Slot :: s.ppn in old(fa.live) ==> ByteAt(ram.bytes, s) == ByteAt(old(ram.bytes), s)
      ensures r.Done? ==> forall s: Slot :: s.ppn in old(fa.live) && s.ppn !in old(pageTable.FrameSet()) ==>
        WordAt(ram.words, s) == WordAt(old(ram.words), s)
    {
      ghost var w0, live0, fs0 := ram.words, fa.live, pageTable.FrameSet();
      var mapped, ok := MapAreaMap(area, pageTable, fa, ram);
      if !ok {
        return Panic;
      }
      if data.Some? {
        var c := LoadData(mapped, pageTable, data.value, fa, ram);
        if c.Panic? {
          return Panic;
        }
      }
      PushKeeps(areas, mapped, w0, ram.words, pageTable.rootPpn, live0, fa.live, fs0, pageTable.FrameSet(), pageTable.leafs);
      areas := areas + [mapped];
      r := Done(());
    }

    /**
     * `remove_area_with_start_vpn` (`bound == Start`) and `remove_area_with_end_vpn`
     * (`bound == End`): unmap the first area whose bound is `vpn` and drop it from the list;
     * nothing happens when no area matches. In a valid space the unmap cannot panic: the area's
     * pages become empty, its frames are given back, every page whose leaf slot is none of the
     * area's keeps its translation, and the other areas keep their order and state.
     */
    method RemoveArea(bound: Bound, vpn: Usize, fa: StackFrameAllocator, ram: PhysMem)
      requires Valid(fa, ram)
      modifies this, fa, ram
      ensures Valid(fa, ram) && ram.bytes == old(ram.bytes)
      ensures FindArea(old(areas), bound, vpn).None? ==>
        areas == old(areas) && fa.live == old(fa.live) && ram.words == old(ram.words)
      ensures FindArea(old(areas), bound, vpn).Some? ==>
        var i := FindArea(old(areas), bound, vpn).value;
        var a := old(areas)[i];
        && areas == old(areas)[..i] + old(areas)[i + 1..]
        && fa.live == old(fa.live) - FramesOf(a, a.start, a.end)
        && (forall v :: InArea(a, v) ==> Translation(ram.words, pageTable.rootPpn, v) == Some(EMPTY))
        && forall u: nat {:trigger Translation(ram.words, pageTable.rootPpn, u)} ::
          u % VPN_LIMIT !in Lows(a.start, a.end) ==>
          Translation(ram.words, pageTable.rootPpn, u) == old(Translation(ram.words, pageTable.rootPpn, u))
    {
      var found := FindArea(areas, bound, vpn);
      if found.None? {
        return;
      }
      var i := found.value;
      ghost var w0, live0 := ram.words, fa.live;
      MappedAreaUnmaps(areas[i], ram.words, pageTable.rootPpn);
      var u := Unmap(areas[i], pageTable, fa, ram);
      assert u.Done?;
      RemoveKeeps(areas, i, w0, ram.words, pageTable.rootPpn, live0, fa.live, pageTable.FrameSet(), pageTable.leafs);
      areas := areas[..i] + areas[i + 1..];
    }

    /**
     * `new_bare` followed by `map_trampoline`, the start of `from_existed` and `from_elf`: a new
     * valid space with no areas and the trampoline page mapped. It panics exactly when the
     * trampoline addresses are refused, since the fresh root maps nothing yet. Nothing in use
     * before changes.
     */
    static method NewWithTrampoline(trampoline: Usize, strampoline: Usize, fa: StackFrameAllocator, ram: PhysMem)
      returns (r: Outcome<MemorySet>)
      requires fa.Valid() && fa.FreeFrameNum() >= 3
      modifies fa, ram
      ensures fa.Valid() && fa.FreeFrameNum() + 3 >= old(fa.FreeFrameNum())
      ensures r.Done? <==> TrampolinePages(trampoline, strampoline).Done?
      ensures r.Done? ==> fresh(r.value) && fresh(r.value.pageTable) && r.value.Valid(fa, ram) && r.value.areas == []
      ensures r.Done? ==>
        var (vpn, ppn) := TrampolinePages(trampoline, strampoline).value;
        Translation(ram.words, r.value.pageTable.rootPpn, vpn) == Some(New(ppn, R | X | V))
      ensures r.Done? ==> old(fa.live) <= fa.live && r.value.pageTable.FrameSet() !! old(fa.live)
      ensures r.Done? ==>
        forall s: Slot :: s.ppn in old(fa.live) ==> WordAt(ram.words, s) == WordAt(old(ram.words), s) && ByteAt(ram.bytes, s) == ByteAt(old(ram.bytes), s)
    {
      ghost var w0, b0, live0 := ram.words, ram.bytes, fa.live;
      var ms := new MemorySet.NewBare(fa, ram);
      ghost var w1, b1, live1, fs1 := ram.words, ram.bytes, fa.live, ms.pageTable.FrameSet();
      if TrampolinePages(trampoline, strampoline).Done? {
        // the fresh root is all zero, so the trampoline page has no valid leaf yet
        LeafSlotLevels(w1, ms.pageTable.rootPpn, TrampolinePages(trampoline, strampoline).value.0);
        ValidityOfNew(0, 0);
      }
      var t := ms.MapTrampoline(trampoline, strampoline, fa, ram);
      if t.Panic? {
        return Panic;
      }
      LiveKeptByPush(w0, b0, w1, b1, ram.words, ram.bytes, live0, live1, fs1);
      r := Done(ms);
    }

    /**
     * `from_existed`: a new space with its own table, the trampoline mapped, and a copy of every
     * area of `space` in order. A framed copy gets fresh frames holding the bytes of the source
     * pages; an identical copy maps the same frames. Nothing in use before changes. Allocation
     * and mapping can panic, as in `push` and `map_trampoline`.
     */
    static method FromExisted(space: MemorySet, trampoline: Usize, strampoline: Usize, fa: StackFrameAllocator, ram: PhysMem)
      returns (r: Outcome<MemorySet>)
      requires space.Valid(fa, ram) && fa.FreeFrameNum() >= 3 + 3 * TotalPages(space.areas)
      modifies fa, ram
      ensures fa.Valid()
      ensures TrampolinePages(trampoline, strampoline).Panic? ==> r.Panic?
      ensures r.Done? ==> fresh(r.value) && fresh(r.value.pageTable) && r.value.Valid(fa, ram)
      ensures r.Done? ==> r.value.pageTable.FrameSet() !! old(fa.live)
      ensures r.Done? ==> TrampolinePages(trampoline, strampoline).Done?
      ensures r.Done? ==>
        var (vpn, ppn) := TrampolinePages(trampoline, strampoline).value;
        Translation(ram.words, r.value.pageTable.rootPpn, vpn) == Some(New(ppn, R | X | V))
      ensures r.Done? ==> CopiesHold(space.areas, r.value.areas, |space.areas|, ram.words, ram.bytes, old(ram.words), old(ram.bytes), old(fa.live))
    {
      ghost var w0, b0, live0 := ram.words, ram.bytes, fa.live;
      assert SpaceOk(space.areas, w0, space.pageTable.rootPpn, live0, space.pageTable.FrameSet(), space.pageTable.leafs);
      assert Shaped(w0, space.pageTable.rootPpn, space.pageTable.l1, space.pageTable.l2);
      assert space.pageTable.rootPpn in live0 && space.pageTable.l1 <= live0 && space.pageTable.l2 <= live0;
      var n := NewWithTrampoline(trampoline, strampoline, fa, ram);
      if n.Panic? {
        return Panic;
      }
      var ms := n.value;
      ghost var (tvpn, tppn) := TrampolinePages(trampoline, strampoline).value;
      ValidityOfNew(tppn, R | X | V);
      assert CopiedAreas(space, ms, 0, fa, ram, w0, b0, live0);
      var ok := CopyAreas(space, ms, fa, ram, w0, b0, live0, tvpn, New(tppn, R | X | V));
      if !ok {
        return Panic;
      }
      r := Done(ms);
    }

    /**
     * `from_elf`: a new space with the trampoline mapped, every loadable segment pushed with its
     * bytes, then the user stack past the end of the program and the trap-context page. It
     * returns the space, the entry point and the initial user stack pointer. A wrong magic, an
     * empty program, a header or layout address `VirtAddr::from` refuses, or a file range outside
     * the image panics; so does a push onto pages already mapped.
     */
    static method FromElf(elf: ElfImage, trampoline: Usize, strampoline: Usize, guardPageSize: Usize, trapContext: Usize,
                          fa: StackFrameAllocator, ram: PhysMem) returns (r: Outcome<(MemorySet, Usize, Usize)>)
      requires fa.Valid() && fa.FreeFrameNum() >= ElfFrames(elf, guardPageSize, trapContext)
      modifies fa, ram
      ensures fa.Valid()
      ensures elf.magic != ELF_MAGIC || TrampolinePages(trampoline, strampoline).Panic? ==> r.Panic?
      ensures Loaded(elf, |elf.headers|).Panic? ==> r.Panic?
      ensures Loaded(elf, |elf.headers|).Done? ==>
        UserAreas(ProgramEnd(Loaded(elf, |elf.headers|).value), guardPageSize, trapContext).Panic? ==> r.Panic?
      ensures r.Done? ==> fresh(r.value.0) && fresh(r.value.0.pageTable) && r.value.0.Valid(fa, ram)
      ensures r.Done? ==> Loaded(elf, |elf.headers|).Done?
      ensures r.Done? ==>
        var segs := Loaded(elf, |elf.headers|).value;
        var l := UserAreas(ProgramEnd(segs), guardPageSize, trapContext);
        && l.Done?
        && SegmentsHold(segs + [Loadable(l.value.stack, []), Loadable(l.value.trapCx, [])], r.value.0.areas, ram.bytes)
        && r.value.1 == elf.entry && r.value.2 == l.value.userSp
      ensures r.Done? ==> TrampolinePages(trampoline, strampoline).Done?
      ensures r.Done? ==>
        var (vpn, ppn) := TrampolinePages(trampoline, strampoline).value;
        Translation(ram.words, r.value.0.pageTable.rootPpn, vpn) == Some(New(ppn, R | X | V))
      ensures r.Done? ==> r.value.0.pageTable.FrameSet() !! old(fa.live)
      ensures r.Done? ==>
        forall s: Slot :: s.ppn in old(fa.live) ==> WordAt(ram.words, s) == WordAt(old(ram.words), s) && ByteAt(ram.bytes, s) == ByteAt(old(ram.bytes), s)
    {
      ghost var w0, b0, live0 := ram.words, ram.bytes, fa.live;
      var n := NewWithTrampoline(trampoline, strampoline, fa, ram);
      if n.Panic? {
        return Panic;
      }
      var ms := n.value;
      ghost var (tvpn, tppn) := TrampolinePages(trampoline, strampoline).value;
      ghost var entry := New(tppn, R | X | V);
      ValidityOfNew(tppn, R | X | V);
      if elf.magic != ELF_MAGIC {
        return Panic;
      }
      assert SegmentsInto(ms, [], fa, ram, w0, b0, live0);
      ghost var tail := TailPages(elf, guardPageSize, trapContext);
      var programEnd;
      ghost var segs;
      programEnd, segs := LoadSegments(elf, ms, fa, ram, w0, b0, live0, tvpn, entry, tail);
      if programEnd.Panic? {
        return Panic;
      }
      var userSp := PushLayout(ms, segs, programEnd.value, guardPageSize, trapContext, fa, ram, w0, b0, live0, tvpn, entry);
      if userSp.Panic? {
        return Panic;
      }
      r := Done((ms, elf.entry, userSp.value));
    }
  }
}
