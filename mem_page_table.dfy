/**
 * The three-level page table of the older snapshot (`src/mem/page_table.rs`). It owns its root
 * frame and the intermediate tables `get_pte_entry` allocated (`frames`); the ghost sets `l1` and
 * `l2` record which of them serve as second-level and leaf-level tables.
 */
module MemPageTable {
  import opened Wrappers
  import opened Sv39
  import opened Pte
  import opened PhysMemory
  import opened PageWalk
  import MemAddress
  import opened MemFrameAllocator

  class PageTable {
    var rootPpn: nat
    /** The page-table frames: the root first, then the intermediate tables in allocation order. */
    var frames: seq<nat>
    ghost var l1: set<nat>
    ghost var l2: set<nat>

    ghost function FrameSet(): set<nat>
      reads this
    {
      set i | 0 <= i < |frames| :: frames[i]
    }

    ghost predicate Valid(fa: StackFrameAllocator, ram: PhysMem)
      reads this, fa, ram
    {
      && fa.Valid() && fa.end <= PPN_LIMIT
      && (forall i, j :: 0 <= i < j < |frames| ==> frames[i] != frames[j])
      && FrameSet() == {rootPpn} + l1 + l2
      && rootPpn !in l1 && rootPpn !in l2 && l1 !! l2
      && FrameSet() <= fa.live
      && Shaped(ram.words, rootPpn, l1, l2)
      && Tree(ram.words, rootPpn, l1)
    }

    /** `size`: the bytes taken by the table's own frames. */
    function Size(): (n: nat)
      reads this
      ensures n == |frames| * PAGE_SIZE
    {
      |frames| * 4096
    }

    /** `new`: a table owning one zero-filled root frame and nothing else. */
    constructor (fa: StackFrameAllocator, ram: PhysMem)
      requires fa.Valid() && fa.end <= PPN_LIMIT && fa.FreeFrameNum() >= 1
      modifies fa, ram
      ensures Valid(fa, ram)
      ensures frames == [rootPpn] && l1 == {} && l2 == {}
      ensures rootPpn !in old(fa.live) && fa.live == old(fa.live) + {rootPpn}
      ensures fa.FreeFrameNum() + 1 == old(fa.FreeFrameNum())
      ensures forall s: Slot :: WordAt(ram.words, s) == if s.ppn == rootPpn then 0 else WordAt(old(ram.words), s)
      ensures forall s: Slot :: s.ppn != rootPpn ==> ByteAt(ram.bytes, s) == ByteAt(old(ram.bytes), s)
    {
      var frame := FrameAlloc(fa, ram);
      rootPpn := frame.value;
      frames := [frame.value];
      l1 := {};
      l2 := {};
      new;
      assert frames[0] == rootPpn;
      assert FrameSet() == {rootPpn};
      assert forall i :: 0 <= i < ENTRIES ==> WordAt(ram.words, Slot(rootPpn, i)) == 0;
    }

    /** `from_token`: a table over the root named by the low 44 bits of `satp`, owning no frames. */
    constructor FromToken(satp: Usize)
      ensures rootPpn == MemAddress.PageNumFrom(satp) && frames == [] && l1 == {} && l2 == {}
    {
      rootPpn := MemAddress.PageNumFrom(satp);
      frames := [];
      l1 := {};
      l2 := {};
    }

    /** `find_pte`: follow valid entries down to the leaf slot; never allocates. */
    method FindPte(vpn: Usize, ram: PhysMem) returns (r: Option<Slot>)
      ensures r == LeafSlot(ram.words, rootPpn, vpn)
    {
      var ix := Indexes(vpn);
      var ppn := rootPpn;
      var count := 0;
      while true
        invariant 0 <= count <= 2
        invariant LevelFrame(ram.words, rootPpn, ix, count) == Some(ppn)
        decreases 2 - count
      {
        var pte := Slot(ppn, ix[count]);
        if count == 2 {
          return Some(pte);
        }
        var e := WordAt(ram.words, pte);
        if !IsValid(e) {
          assert LevelFrame(ram.words, rootPpn, ix, count + 1).None?;
          assert LevelFrame(ram.words, rootPpn, ix, 2).None?;
          return None;
        }
        ppn := Ppn(e);
        count := count + 1;
      }
    }

    /** The loop invariant of `get_pte_entry` at level `count`, standing on table `ppn`. */
    ghost predicate Walking(fa: StackFrameAllocator, ram: PhysMem, ix: seq<nat>, count: nat, ppn: nat,
                            st: WalkStart, added: set<nat>)
      reads this, fa, ram
    {
      && |ix| == 3 && count <= 2
      && Valid(fa, ram) && rootPpn == st.root
      && st.owned == {st.root} + st.l1 + st.l2 && Shaped(st.words, st.root, st.l1, st.l2)
      && st.l2 <= l2
      && (count == 0 ==> ppn == rootPpn && added == {})
      && (count == 1 ==> ppn in l1)
      && (count == 2 ==> ppn in l2)
      && |st.frames| <= |frames| <= |st.frames| + count && frames[..|st.frames|] == st.frames
      && FrameSet() == st.owned + added && added !! st.live
      && fa.live == st.live + added
      && fa.FreeFrameNum() == st.free - (|frames| - |st.frames|)
      && (added == {} ==>
            frames == st.frames && l1 == st.l1 && l2 == st.l2 && ram.words == st.words &&
            ram.bytes == st.bytes && fa.current == st.current && fa.end == st.end && fa.recycled == st.recycled)
      && Walked(st.words, ram.words, rootPpn, l1, ix, count, ppn, added)
      && (forall s: Slot :: s.ppn !in added ==> ByteAt(ram.bytes, s) == ByteAt(st.bytes, s))
    }

    /**
     * `get_pte_entry`: the walk of `find_pte`, except that an invalid entry at the first two
     * levels is replaced by a V-only entry naming a fresh zero-filled frame, which the table
     * records in `frames` (`frame_alloc().unwrap()`: the caller leaves room for two frames).
     * The leaf slot is returned whether or not it is valid.
     */
    method GetPteEntry(vpn: Usize, fa: StackFrameAllocator, ram: PhysMem) returns (slot: Slot)
      requires Valid(fa, ram) && fa.FreeFrameNum() >= 2
      modifies this, fa, ram
      ensures Valid(fa, ram)
      ensures rootPpn == old(rootPpn)
      ensures LeafSlot(ram.words, rootPpn, vpn) == Some(slot) && slot.ppn in l2
      ensures old(LeafSlot(ram.words, rootPpn, vpn)).None? ==> !IsValid(WordAt(ram.words, slot))
      ensures old(LeafSlot(ram.words, rootPpn, vpn)).Some? ==>
        slot == old(LeafSlot(ram.words, rootPpn, vpn)).value &&
        unchanged(this) && unchanged(ram) && unchanged(fa)
      ensures |old(frames)| <= |frames| <= |old(frames)| + 2 && frames[..|old(frames)|] == old(frames)
      ensures old(FrameSet()) <= FrameSet() && FrameSet() - old(FrameSet()) !! old(fa.live)
      ensures fa.live == old(fa.live) + (FrameSet() - old(FrameSet()))
      ensures fa.FreeFrameNum() == old(fa.FreeFrameNum()) - (|frames| - |old(frames)|)
      ensures GrowsOnly(old(ram.words), ram.words, old(FrameSet()), FrameSet() - old(FrameSet()))
      ensures forall s: Slot :: WordAt(ram.words, s) != WordAt(old(ram.words), s) && s.ppn in old(FrameSet()) ==>
        WordAt(ram.words, s) == New(Ppn(WordAt(ram.words, s)), V) && Ppn(WordAt(ram.words, s)) in FrameSet() - old(FrameSet())
      ensures forall s: Slot :: WordAt(ram.words, s) != WordAt(old(ram.words), s) ==> s.ppn !in old(l2)
      ensures forall s: Slot :: s.ppn !in FrameSet() - old(FrameSet()) ==> ByteAt(ram.bytes, s) == ByteAt(old(ram.bytes), s)
    {
      var ix := Indexes(vpn);
      var ppn := rootPpn;
      var count := 0;
      ghost var st := WalkStart(rootPpn, map[], frames, FrameSet(), l1, l2, ram.words, ram.bytes,
                                fa.current, fa.end, fa.recycled, fa.live, fa.FreeFrameNum());
      ghost var added: set<nat> := {};
      while true
        invariant Walking(fa, ram, ix, count, ppn, st, added)
        invariant added == {} ==> unchanged(this) && unchanged(ram) && unchanged(fa)
        decreases 2 - count
      {
        var pte := Slot(ppn, ix[count]);
        if count == 2 {
          WalkFinished(st.words, ram.words, rootPpn, l1, ix, ppn, added, st.owned);
          if LevelFrame(st.words, rootPpn, ix, 2).Some? {
            assert added == {};
          }
          return pte;
        }
        ppn, added := DescendAllocating(ix, count, ppn, st, added, fa, ram);
        count := count + 1;
      }
    }

    /**
     * One pass of the `get_pte_entry` loop above the leaf level: allocate a table where the
     * entry is invalid, then step to the table the entry names.
     */
    method DescendAllocating(ix: seq<nat>, count: nat, ppn: nat, ghost st: WalkStart, ghost added: set<nat>,
                   fa: StackFrameAllocator, ram: PhysMem)
      returns (next: nat, ghost added': set<nat>)
      requires count <= 1 && Walking(fa, ram, ix, count, ppn, st, added) && st.free >= 2
      requires forall i :: 0 <= i < |ix| ==> ix[i] < ENTRIES
      modifies this, fa, ram
      ensures Walking(fa, ram, ix, count + 1, next, st, added')
      ensures added' == added ==> unchanged(this) && unchanged(ram) && unchanged(fa)
    {
      var pte := Slot(ppn, ix[count]);
      added' := added;
      if !IsValid(WordAt(ram.words, pte)) {
        ghost var w1, l11 := ram.words, l1;
        AllocateTable(pte, count, fa, ram);
        ghost var f := frames[|frames| - 1];
        ValidityOfNew(f, V);
        WalkStepAllocating(st.words, w1, ram.words, rootPpn, l11, l1, ix, count, ppn, added, f);
        added' := added + {f};
      } else {
        WalkStepFollowing(st.words, ram.words, rootPpn, l1, st.l1, st.l2, ix, count, ppn, added);
      }
      next := Ppn(WordAt(ram.words, pte));
    }

    /**
     * The body of the `if !pte.is_valid()` branch of `get_pte_entry`: allocate a frame, point the
     * invalid entry at it with only V set, and record it at the next level.
     */
    method AllocateTable(pte: Slot, level: nat, fa: StackFrameAllocator, ram: PhysMem)
      requires Valid(fa, ram) && fa.FreeFrameNum() >= 1
      requires level == 0 ==> pte.ppn == rootPpn
      requires level == 1 ==> pte.ppn in l1
      requires level <= 1 && pte.index < ENTRIES
      requires !IsValid(WordAt(ram.words, pte))
      modifies this, fa, ram
      ensures Valid(fa, ram) && rootPpn == old(rootPpn)
      ensures |frames| == |old(frames)| + 1 && frames[..|old(frames)|] == old(frames)
      ensures FrameSet() == old(FrameSet()) + {frames[|frames| - 1]}
      ensures var f := frames[|frames| - 1];
        f !in old(fa.live) && fa.live == old(fa.live) + {f} &&
        fa.FreeFrameNum() == old(fa.FreeFrameNum()) - 1 &&
        (level == 0 ==> l1 == old(l1) + {f} && l2 == old(l2)) &&
        (level == 1 ==> l2 == old(l2) + {f} && l1 == old(l1)) &&
        WordAt(ram.words, pte) == New(f, V) && Ppn(New(f, V)) == f &&
        (forall s: Slot :: s != pte && s.ppn != f ==> WordAt(ram.words, s) == WordAt(old(ram.words), s)) &&
        (forall s: Slot :: s.ppn == f ==> WordAt(ram.words, s) == 0) &&
        (forall s: Slot :: s.ppn != f ==> ByteAt(ram.bytes, s) == ByteAt(old(ram.bytes), s))
    {
      ghost var l10, l20 := l1, l2;
      ghost var w := ram.words;
      var f := InstallTable(pte, fa, ram);
      assert f !in FrameSet();
      assert f !in l10 && f !in l20 && f != rootPpn;
      RecordFrame(f, level);
      ValidityOfNew(f, V);
      assert forall i :: WordAt(ram.words, Slot(f, i)) == EMPTY;
      TreeAfterAllocate(w, ram.words, rootPpn, l10, l20, l1, l2, pte, f);
    }

    /** A zeroed frame from the allocator, and entry `pte` pointing at it with only V set. */
    static method InstallTable(pte: Slot, fa: StackFrameAllocator, ram: PhysMem) returns (f: nat)
      requires fa.Valid() && fa.end <= PPN_LIMIT && fa.FreeFrameNum() >= 1 && pte.ppn in fa.live
      modifies fa, ram
      ensures fa.Valid() && fa.end <= PPN_LIMIT && f !in old(fa.live) && fa.live == old(fa.live) + {f} && f < PPN_LIMIT
      ensures fa.FreeFrameNum() == old(fa.FreeFrameNum()) - 1
      ensures WordAt(ram.words, pte) == New(f, V)
      ensures forall s: Slot :: s != pte && s.ppn != f ==> WordAt(ram.words, s) == WordAt(old(ram.words), s)
      ensures forall s: Slot :: s.ppn == f ==> WordAt(ram.words, s) == 0
      ensures forall s: Slot :: s.ppn != f ==> ByteAt(ram.bytes, s) == ByteAt(old(ram.bytes), s)
    {
      var frame := FrameAlloc(fa, ram);
      f := frame.value;
      ram.WriteWord(pte, New(f, V));
    }

    /** Take ownership of table frame `f`, at the middle level (`level == 0`) or the leaf level. */
    method RecordFrame(f: nat, level: nat)
      requires f !in FrameSet() && forall i, j :: 0 <= i < j < |frames| ==> frames[i] != frames[j]
      modifies this
      ensures rootPpn == old(rootPpn)
      ensures frames == old(frames) + [f] && FrameSet() == old(FrameSet()) + {f}
      ensures forall i, j :: 0 <= i < j < |frames| ==> frames[i] != frames[j]
      ensures level == 0 ==> l1 == old(l1) + {f} && l2 == old(l2)
      ensures level != 0 ==> l2 == old(l2) + {f} && l1 == old(l1)
    {
      frames := frames + [f];
      if level == 0 {
        l1 := l1 + {f};
      } else {
        l2 := l2 + {f};
      }
      forall x | x in old(FrameSet()) ensures x in FrameSet() {
        var i :| 0 <= i < |old(frames)| && old(frames)[i] == x;
        assert frames[i] == x;
      }
      assert frames[|frames| - 1] == f;
    }

    /**
     * `map`: take the leaf slot from `get_pte_entry`, panic (`ok == false`) when it is already
     * valid, and store `new(ppn, flags)`. The flags are stored as given: this snapshot does not
     * add V.
     */
    method Map(vpn: Usize, ppn: Usize, flags: PteFlags, fa: StackFrameAllocator, ram: PhysMem) returns (ok: bool)
      requires Valid(fa, ram) && fa.FreeFrameNum() >= 2
      modifies this, fa, ram
      ensures Valid(fa, ram) && rootPpn == old(rootPpn)
      ensures ok <==> !(old(Translation(ram.words, rootPpn, vpn)).Some? && IsValid(old(Translation(ram.words, rootPpn, vpn)).value))
      ensures ok ==> Translation(ram.words, rootPpn, vpn) == Some(New(ppn, flags))
      ensures !ok ==> unchanged(this) && unchanged(fa) && unchanged(ram)
      ensures fa.FreeFrameNum() + 2 >= old(fa.FreeFrameNum())
      ensures forall u: nat :: u % VPN_LIMIT != vpn % VPN_LIMIT && old(Translation(ram.words, rootPpn, u)).Some? ==>
        Translation(ram.words, rootPpn, u) == old(Translation(ram.words, rootPpn, u))
      ensures old(FrameSet()) <= FrameSet() && FrameSet() - old(FrameSet()) !! old(fa.live)
      ensures fa.live == old(fa.live) + (FrameSet() - old(FrameSet()))
      ensures forall s: Slot :: s.ppn !in FrameSet() ==> WordAt(ram.words, s) == WordAt(old(ram.words), s)
      ensures forall s: Slot :: s.ppn !in FrameSet() - old(FrameSet()) ==> ByteAt(ram.bytes, s) == ByteAt(old(ram.bytes), s)
    {
      ghost var w0, l10, l20, owned := ram.words, l1, l2, FrameSet();
      var slot := GetPteEntry(vpn, fa, ram);
      if IsValid(WordAt(ram.words, slot)) {
        return false;
      }
      ghost var w := ram.words;
      ram.WriteWord(slot, New(ppn, flags));
      WalkIgnoresLeafLevel(w, ram.words, rootPpn, l1, l2);
      forall u: nat | u % VPN_LIMIT != vpn % VPN_LIMIT && Translation(w0, rootPpn, u).Some?
        ensures Translation(ram.words, rootPpn, u) == Translation(w0, rootPpn, u)
      {
        GrowsOnlyKeepsLeafSlot(w0, w, rootPpn, l10, l20, owned, FrameSet() - owned, u);
        LeafSlotInLeafLevel(w0, rootPpn, l10, l20, u);
        DistinctLeaves(w, rootPpn, l1, l2, u, vpn);
      }
      ok := true;
    }

    /**
     * `unmap`: panic (`ok == false`, nothing changes) when the walk stops early, and, as the
     * assertion is written, also when the leaf IS valid; otherwise clear the leaf.
     */
    method Unmap(vpn: Usize, fa: StackFrameAllocator, ram: PhysMem) returns (ok: bool)
      requires Valid(fa, ram)
      modifies ram
      ensures Valid(fa, ram)
      ensures ok <==> old(Translation(ram.words, rootPpn, vpn)).Some? && !IsValid(old(Translation(ram.words, rootPpn, vpn)).value)
      ensures ok ==>
        ram.words == old(ram.words)[old(LeafSlot(ram.words, rootPpn, vpn)).value := EMPTY] &&
        Translation(ram.words, rootPpn, vpn) == Some(EMPTY)
      ensures forall u: nat :: u % VPN_LIMIT != vpn % VPN_LIMIT ==>
        Translation(ram.words, rootPpn, u) == old(Translation(ram.words, rootPpn, u))
      ensures ram.bytes == old(ram.bytes)
      ensures !ok ==> ram.words == old(ram.words)
    {
      var r := FindPte(vpn, ram);
      if r.None? || IsValid(WordAt(ram.words, r.value)) {
        return false;
      }
      LeafSlotInLeafLevel(ram.words, rootPpn, l1, l2, vpn);
      ghost var w := ram.words;
      ram.WriteWord(r.value, EMPTY);
      WalkIgnoresLeafLevel(w, ram.words, rootPpn, l1, l2);
      forall u: nat | u % VPN_LIMIT != vpn % VPN_LIMIT
        ensures Translation(ram.words, rootPpn, u) == Translation(w, rootPpn, u)
      {
        if LeafSlot(w, rootPpn, u).Some? {
          DistinctLeaves(w, rootPpn, l1, l2, u, vpn);
        }
      }
      ok := true;
    }

    /** `translate`: a copy of the leaf entry, or `None` when the walk stops early. */
    method Translate(vpn: Usize, ram: PhysMem) returns (r: Option<Usize>)
      ensures r == Translation(ram.words, rootPpn, vpn)
    {
      var slot := FindPte(vpn, ram);
      if slot.Some? {
        r := Some(WordAt(ram.words, slot.value));
      } else {
        r := None;
      }
    }
  }

}
