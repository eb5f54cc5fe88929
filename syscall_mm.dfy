/**
 * `src/syscall/mm.rs`: `mmap` and `munmap` walk the pages floor(va)..ceil(va + len) of the current
 * address space in ascending order, calling `malloc` or `free` on each, and give up with -1 at the
 * first page that fails, keeping what the earlier pages did.
 */
module SyscallMm {
  import opened Wrappers
  import opened Sv39
  import opened Pte
  import opened PhysMemory
  import opened PageWalk
  import opened MmFrameAllocator
  import MmAddress
  import MmPageTable
  import MmMemorySet
  import Syscall

  /** `MapPerm::RWX`. */
  const PERM_RWX: bv8 := 0x0E

  /** `MapPerm::from_bits_truncate(perm as u8)`: the R, W, X and U bits of the low byte. */
  function TruncatePerm(perm: Usize): (p: bv8)
    ensures p & 0xE1 == 0
  {
    ((perm % 256) as bv8) & 0x1E
  }

  /** The pages the calls act on: floor(va)..ceil(va.offset(len as isize)). */
  function PageRange(va: Usize, len: Usize): (r: (Usize, Usize))
    ensures r.0 == MmAddress.Floor(va)
    ensures r.1 == MmAddress.Ceil(WrappingAdd(va, len))
  {
    (MmAddress.Floor(va), MmAddress.Ceil(MmAddress.Offset(va, AsIsize(len))))
  }

  /** The number of pages in `start..end`, none when the range is empty. */
  function PageCount(start: nat, end: nat): nat
  {
    if start < end then end - start else 0
  }

  /** Pages `start..k` are mapped through their own frames with `flags | V`. */
  ghost predicate MappedRun(pt: MmPageTable.PageTable, words: Words, start: nat, k: nat, flags: PteFlags)
    reads pt
  {
    forall v: Usize :: start <= v < k ==>
      v in pt.leafs && pt.leafs[v] < PPN_LIMIT &&
      Translation(words, pt.rootPpn, v) == Some(New(pt.leafs[v], flags | V))
  }

  /** The pages holding their own frame are those of `before` plus `start..k`. */
  ghost predicate KeysAdded(now: map<nat, nat>, before: map<nat, nat>, start: nat, k: nat)
  {
    forall v: nat :: v in now <==> v in before || start <= v < k
  }

  /** Adding key `k` to a map that holds `before` plus `[start, k)` makes it hold `before` plus `[start, k + 1)`. */
  lemma KeysAddedStep(now: map<nat, nat>, mid: map<nat, nat>, before: map<nat, nat>, start: nat, k: nat)
    requires KeysAdded(mid, before, start, k) && KeysAdded(now, mid, k, k + 1) && start <= k
    ensures KeysAdded(now, before, start, k + 1)
  {
  }

  /** The pages holding their own frame are those of `before` minus `start..k`. */
  ghost predicate KeysRemoved(now: map<nat, nat>, before: map<nat, nat>, start: nat, k: nat)
  {
    forall v: nat :: v in now <==> v in before && !(start <= v < k)
  }

  /** Removing key `k` from a map that lacks `[start, k)` of `before` makes it lack `[start, k + 1)`. */
  lemma KeysRemovedStep(now: map<nat, nat>, mid: map<nat, nat>, before: map<nat, nat>, start: nat, k: nat)
    requires KeysRemoved(mid, before, start, k) && start <= k && k in mid && now.Keys == mid.Keys - {k}
    ensures KeysRemoved(now, before, start, k + 1)
  {
  }

  /** None of the pages `start..k` is page 0 or held a frame of its own in `before`. */
  ghost predicate AllFresh(before: map<nat, nat>, start: nat, k: nat)
  {
    forall v: nat :: start <= v < k ==> v != 0 && v !in before
  }

  /** Pages `start` to `k` inclusive passed the page-0 and own-frame checks of `sys_mmap`. */
  ghost predicate FreshThrough(before: map<nat, nat>, start: nat, k: nat)
  {
    AllFresh(before, start, k + 1)
  }

  /** Pages `start` to `k` inclusive each had a frame of their own before `sys_munmap`. */
  ghost predicate HeldThrough(before: map<nat, nat>, start: nat, k: nat)
  {
    AllHeld(before, start, k + 1)
  }

  /** Every page of `start..k` held a frame of its own in `before`. */
  ghost predicate AllHeld(before: map<nat, nat>, start: nat, k: nat)
  {
    forall v: nat :: start <= v < k ==> v in before
  }

  /**
   * `sys_mmap`: panic when `perm` grants none of R, W, X; otherwise `malloc` each page in order.
   * All pages done answers 0, and that happens exactly when no page of the range is 0 or already
   * has its own frame. A page that is 0 or already has its own frame answers -1, and the pages
   * before it stay mapped. A page whose leaf is valid without a frame of its own panics inside
   * `map`.
   */
  method SysMmap(space: MmPageTable.PageTable, va: Usize, len: Usize, perm: Usize,
                 fa: StackFrameAllocator, ram: PhysMem) returns (r: Outcome<int>)
    requires space.Valid(fa, ram)
    requires fa.FreeFrameNum() >= 3 * PageCount(PageRange(va, len).0, PageRange(va, len).1)
    modifies space, fa, ram
    ensures TruncatePerm(perm) & PERM_RWX == 0 ==> r == Panic && unchanged(space) && unchanged(fa) && unchanged(ram)
    ensures r.Done? ==> space.Valid(fa, ram) && space.rootPpn == old(space.rootPpn)
    ensures r.Done? ==> r.value == Syscall.EXEC_SUCCEE || r.value == Syscall.EXEC_FAIL
    ensures r.Done? ==>
      var (start, end) := PageRange(va, len);
      (r.value == Syscall.EXEC_SUCCEE <==> AllFresh(old(space.leafs), start, end))
    ensures r.Panic? ==>
      var (start, end) := PageRange(va, len);
      TruncatePerm(perm) & PERM_RWX == 0 || exists k: Usize :: start <= k < end && FreshThrough(old(space.leafs), start, k)
    ensures r == Done(Syscall.EXEC_SUCCEE) ==>
      var (start, end) := PageRange(va, len);
      MappedRun(space, ram.words, start, end, TruncatePerm(perm)) &&
      KeysAdded(space.leafs, old(space.leafs), start, end)
    ensures r == Done(Syscall.EXEC_FAIL) ==>
      var (start, end) := PageRange(va, len);
      exists k: Usize :: start <= k < end && (k == 0 || k in old(space.leafs)) &&
        MappedRun(space, ram.words, start, k, TruncatePerm(perm)) &&
        KeysAdded(space.leafs, old(space.leafs), start, k)
  {
    var p := TruncatePerm(perm);
    if p & PERM_RWX == 0 {
      return Panic;
    }
    var (start, end) := PageRange(va, len);
    r := MmapPages(space, start, end, p, fa, ram);
  }

  /** The loop of `sys_mmap`: `malloc` pages `start..end` in order with `flags`, stopping at the first that fails. */
  method MmapPages(space: MmPageTable.PageTable, start: Usize, end: Usize, flags: PteFlags,
                   fa: StackFrameAllocator, ram: PhysMem) returns (r: Outcome<int>)
    requires space.Valid(fa, ram) && fa.FreeFrameNum() >= 3 * PageCount(start, end)
    modifies space, fa, ram
    ensures r.Done? ==> space.Valid(fa, ram) && space.rootPpn == old(space.rootPpn)
    ensures r.Done? ==> r.value == Syscall.EXEC_SUCCEE || r.value == Syscall.EXEC_FAIL
    ensures r.Done? ==> (r.value == Syscall.EXEC_SUCCEE <==> AllFresh(old(space.leafs), start, end))
    ensures r.Panic? ==> exists k: Usize :: start <= k < end && FreshThrough(old(space.leafs), start, k)
    ensures r == Done(Syscall.EXEC_SUCCEE) ==>
      MappedRun(space, ram.words, start, end, flags) && KeysAdded(space.leafs, old(space.leafs), start, end)
    ensures r == Done(Syscall.EXEC_FAIL) ==>
      exists k: Usize :: start <= k < end && (k == 0 || k in old(space.leafs)) &&
        MappedRun(space, ram.words, start, k, flags) &&
        KeysAdded(space.leafs, old(space.leafs), start, k)
  {
    var vpn := start;
    while vpn < end
      invariant start <= vpn && (vpn == start || vpn <= end)
      invariant space.Valid(fa, ram) && space.rootPpn == old(space.rootPpn)
      invariant fa.FreeFrameNum() >= 3 * PageCount(vpn, end)
      invariant MappedRun(space, ram.words, start, vpn, flags)
      invariant KeysAdded(space.leafs, old(space.leafs), start, vpn)
      invariant AllFresh(old(space.leafs), start, vpn)
    {
      ghost var mid := space.leafs;
      var failed := MmapPage(space, vpn, flags, start, fa, ram);
      if failed.Panic? {
        assert FreshThrough(old(space.leafs), start, vpn);
        return Panic;
      }
      if failed.value {
        assert !AllFresh(old(space.leafs), start, end) by {
          assert start <= vpn < end;
        }
        return Done(Syscall.EXEC_FAIL);
      }
      KeysAddedStep(space.leafs, mid, old(space.leafs), start, vpn);
      assert AllFresh(old(space.leafs), start, vpn + 1);
      vpn := vpn + 1;
    }
    r := Done(Syscall.EXEC_SUCCEE);
  }

  /**
   * One turn of the `sys_mmap` loop: `malloc` page `vpn` after pages `start..vpn`; `true` when
   * the call must answer -1.
   */
  method MmapPage(space: MmPageTable.PageTable, vpn: Usize, flags: PteFlags, ghost start: nat,
                  fa: StackFrameAllocator, ram: PhysMem) returns (r: Outcome<bool>)
    requires space.Valid(fa, ram) && fa.FreeFrameNum() >= 3 && start <= vpn
    requires MappedRun(space, ram.words, start, vpn, flags)
    modifies space, fa, ram
    ensures r.Done? && r.value ==> (vpn == 0 || vpn in old(space.leafs)) && unchanged(space) && unchanged(fa) && unchanged(ram)
    ensures r.Done? && !r.value ==>
      space.Valid(fa, ram) && space.rootPpn == old(space.rootPpn) &&
      fa.FreeFrameNum() + 3 >= old(fa.FreeFrameNum()) &&
      MappedRun(space, ram.words, start, vpn + 1, flags) &&
      KeysAdded(space.leafs, old(space.leafs), vpn, vpn + 1)
    ensures r.Done? && !r.value ==> vpn != 0 && vpn !in old(space.leafs)
    ensures r.Panic? ==> vpn != 0 && vpn !in old(space.leafs)
  {
    var m := space.Malloc(vpn, flags, fa, ram);
    if m.Panic? {
      return Panic;
    }
    if m.value.Err? {
      return Done(true);
    }
    ValidityOfNew(space.leafs[vpn], flags | V);
    forall v: Usize | start <= v < vpn
      ensures v in space.leafs && space.leafs[v] < PPN_LIMIT &&
        Translation(ram.words, space.rootPpn, v) == Some(New(space.leafs[v], flags | V))
    {
      ValidityOfNew(old(space.leafs)[v], flags | V);
    }
    r := Done(false);
  }

  /**
   * `sys_munmap`: `free` each page in order. All pages done answers 0, and that happens exactly
   * when every page of the range has its own frame. A page without its own frame answers -1, and
   * the pages before it stay freed.
   */
  method SysMunmap(space: MmPageTable.PageTable, va: Usize, len: Usize,
                   fa: StackFrameAllocator, ram: PhysMem) returns (r: Outcome<int>)
    requires space.Valid(fa, ram)
    modifies space, fa, ram
    ensures r.Done? ==> space.Valid(fa, ram) && space.rootPpn == old(space.rootPpn)
    ensures r.Done? ==> r.value == Syscall.EXEC_SUCCEE || r.value == Syscall.EXEC_FAIL
    ensures r.Done? ==>
      var (start, end) := PageRange(va, len);
      (r.value == Syscall.EXEC_SUCCEE <==> AllHeld(old(space.leafs), start, end))
    ensures r.Panic? ==>
      var (start, end) := PageRange(va, len);
      exists k: Usize :: start <= k < end && HeldThrough(old(space.leafs), start, k)
    ensures r == Done(Syscall.EXEC_SUCCEE) ==>
      var (start, end) := PageRange(va, len);
      KeysRemoved(space.leafs, old(space.leafs), start, end) &&
      fa.FreeFrameNum() == old(fa.FreeFrameNum()) + PageCount(start, end)
    ensures r == Done(Syscall.EXEC_FAIL) ==>
      var (start, end) := PageRange(va, len);
      exists k: Usize :: start <= k < end && k !in old(space.leafs) &&
        KeysRemoved(space.leafs, old(space.leafs), start, k) &&
        fa.FreeFrameNum() == old(fa.FreeFrameNum()) + (k - start)
  {
    var (start, end) := PageRange(va, len);
    r := MunmapPages(space, start, end, fa, ram);
  }

  /** The loop of `sys_munmap`: `free` pages `start..end` in order, stopping at the first that fails. */
  method MunmapPages(space: MmPageTable.PageTable, start: Usize, end: Usize,
                     fa: StackFrameAllocator, ram: PhysMem) returns (r: Outcome<int>)
    requires space.Valid(fa, ram)
    modifies space, fa, ram
    ensures r.Done? ==> space.Valid(fa, ram) && space.rootPpn == old(space.rootPpn)
    ensures r.Done? ==> r.value == Syscall.EXEC_SUCCEE || r.value == Syscall.EXEC_FAIL
    ensures r.Done? ==> (r.value == Syscall.EXEC_SUCCEE <==> AllHeld(old(space.leafs), start, end))
    ensures r.Panic? ==> exists k: Usize :: start <= k < end && HeldThrough(old(space.leafs), start, k)
    ensures r == Done(Syscall.EXEC_SUCCEE) ==>
      KeysRemoved(space.leafs, old(space.leafs), start, end) &&
      fa.FreeFrameNum() == old(fa.FreeFrameNum()) + PageCount(start, end)
    ensures r == Done(Syscall.EXEC_FAIL) ==>
      exists k: Usize :: start <= k < end && k !in old(space.leafs) &&
        KeysRemoved(space.leafs, old(space.leafs), start, k) &&
        fa.FreeFrameNum() == old(fa.FreeFrameNum()) + (k - start)
  {
    var vpn := start;
    while vpn < end
      invariant start <= vpn && (vpn == start || vpn <= end)
      invariant space.Valid(fa, ram) && space.rootPpn == old(space.rootPpn)
      invariant KeysRemoved(space.leafs, old(space.leafs), start, vpn)
      invariant fa.FreeFrameNum() == old(fa.FreeFrameNum()) + (vpn - start)
      invariant AllHeld(old(space.leafs), start, vpn)
    {
      var failed := MunmapPage(space, vpn, start, old(space.leafs), fa, ram);
      if failed.Panic? {
        assert HeldThrough(old(space.leafs), start, vpn);
        return Panic;
      }
      if failed.value {
        assert !AllHeld(old(space.leafs), start, end) by {
          assert start <= vpn < end;
        }
        return Done(Syscall.EXEC_FAIL);
      }
      vpn := vpn + 1;
    }
    r := Done(Syscall.EXEC_SUCCEE);
  }

  /**
   * One turn of the `sys_munmap` loop: `free` page `vpn` after pages `start..vpn` of `before`
   * were freed; `true` when the call must answer -1.
   */
  method MunmapPage(space: MmPageTable.PageTable, vpn: Usize, ghost start: nat, ghost before: map<nat, nat>,
                    fa: StackFrameAllocator, ram: PhysMem) returns (r: Outcome<bool>)
    requires space.Valid(fa, ram) && start <= vpn && KeysRemoved(space.leafs, before, start, vpn)
    modifies space, fa, ram
    ensures r.Done? && r.value ==> vpn !in old(space.leafs) && unchanged(space) && unchanged(fa) && unchanged(ram)
    ensures r.Panic? ==> vpn in old(space.leafs)
    ensures r.Done? && !r.value ==>
      space.Valid(fa, ram) && space.rootPpn == old(space.rootPpn) && vpn in old(space.leafs) &&
      KeysRemoved(space.leafs, before, start, vpn + 1) &&
      fa.FreeFrameNum() == old(fa.FreeFrameNum()) + 1
  {
    ghost var mid := space.leafs;
    var f := space.Free(vpn, fa, ram);
    if f.Panic? {
      return Panic;
    }
    if f.value.Err? {
      return Done(true);
    }
    KeysRemovedStep(space.leafs, mid, before, start, vpn);
    r := Done(false);
  }
}
