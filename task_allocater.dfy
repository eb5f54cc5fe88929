/**
 * The page map of `src/task/allocater.rs`: one descriptor per page of physical memory from
 * `MEMORY_START` to `MEMORY_END`, each `FREE` or `USED`, and `malloc_at`, which claims a run of
 * pages at a given address only if all of them are free. `src/task/stack.rs` places task stacks
 * with it.
 */
module TaskAllocater {
  import opened Wrappers
  import opened Sv39

  datatype PageDsc = FREE | USED

  const MEMORY_START: Usize := 0x8000_0000
  const MEMORY_END: Usize := 0x8800_0000
  const KERNEL_MEMORY_END: Usize := 0x8040_0000
  const KERNEL_STACK_SIZE: nat := 4096 * 2
  /** `(MEMORY_END - MEMORY_START) / PAGE_SIZE`. */
  const PAGE_NUMS: nat := 0x8000

  /** The descriptors after setting those in `[lo, hi)` to `d`. */
  function Filled(pages: seq<PageDsc>, lo: nat, hi: nat, d: PageDsc): (m: seq<PageDsc>)
    requires lo <= hi <= |pages|
    ensures |m| == |pages|
    ensures forall i :: 0 <= i < |m| ==> m[i] == if lo <= i < hi then d else pages[i]
  {
    seq(|pages|, i requires 0 <= i < |pages| => if lo <= i < hi then d else pages[i])
  }

  /** `(addr - MEMORY_START) / PAGE_SIZE`; below `MEMORY_START` the subtraction wraps. */
  function ToIndex(addr: Usize): (i: Usize)
    ensures addr >= MEMORY_START ==> i * PAGE_SIZE + (addr - MEMORY_START) % PAGE_SIZE == addr - MEMORY_START
    ensures addr < MEMORY_START ==> i >= (USIZE_MOD - MEMORY_START) / PAGE_SIZE
  {
    WrappingSub(addr, MEMORY_START) / 4096
  }

  /** `align`: `addr & (PAGE_SIZE - 1) == 0`, that is, the address is a multiple of the page size. */
  predicate Align(addr: Usize)
  {
    addr % 4096 == 0
  }

  class MemMap {
    /** The `map` vector of descriptors. */
    var pages: seq<PageDsc>

    /** The lazily built global map: every page `FREE`. */
    constructor ()
      ensures pages == seq(PAGE_NUMS, _ => FREE)
    {
      var m: seq<PageDsc> := [];
      while |m| < PAGE_NUMS
        invariant |m| <= PAGE_NUMS && forall i :: 0 <= i < |m| ==> m[i] == FREE
      {
        m := m + [FREE];
      }
      pages := m;
    }

    /** `is_free`: every descriptor in `[lo, hi)` is `FREE`; slicing out of range panics. */
    function IsFree(lo: nat, hi: nat): (r: Outcome<bool>)
      reads this
      ensures r.Panic? <==> !(lo <= hi <= |pages|)
      ensures r.Done? ==> (r.value <==> forall i :: lo <= i < hi ==> pages[i] == FREE)
    {
      if lo <= hi <= |pages| then Done(forall i :: lo <= i < hi ==> pages[i] == FREE) else Panic
    }

    /** `take` (`d == USED`) and `free` (`d == FREE`): set the descriptors of `[lo, hi)`, one by one. */
    method Fill(lo: nat, hi: nat, d: PageDsc) returns (ok: bool)
      modifies this
      ensures ok <==> lo <= hi <= |old(pages)|
      ensures ok ==> pages == Filled(old(pages), lo, hi, d)
      ensures !ok ==> pages == old(pages)
    {
      if !(lo <= hi <= |pages|) {
        return false;
      }
      var i := lo;
      while i < hi
        invariant lo <= i <= hi && |pages| == |old(pages)|
        invariant pages == Filled(old(pages), lo, i, d)
      {
        pages := pages[i := d];
        i := i + 1;
      }
      ok := true;
    }

    method Take(lo: nat, hi: nat) returns (ok: bool)
      modifies this
      ensures ok <==> lo <= hi <= |old(pages)|
      ensures ok ==> pages == Filled(old(pages), lo, hi, USED)
      ensures !ok ==> pages == old(pages)
    {
      ok := Fill(lo, hi, USED);
    }

    method Free(lo: nat, hi: nat) returns (ok: bool)
      modifies this
      ensures ok <==> lo <= hi <= |old(pages)|
      ensures ok ==> pages == Filled(old(pages), lo, hi, FREE)
      ensures !ok ==> pages == old(pages)
    {
      ok := Fill(lo, hi, FREE);
    }

    /** `init`: the pages of the kernel image, `[MEMORY_START, KERNEL_MEMORY_END)`, are `USED`. */
    method Init() returns (ok: bool)
      modifies this
      ensures ok <==> (KERNEL_MEMORY_END - MEMORY_START) / PAGE_SIZE <= |old(pages)|
      ensures ok ==> pages == Filled(old(pages), 0, 0x400, USED)
    {
      ok := Take(0, (KERNEL_MEMORY_END - MEMORY_START) / 4096);
    }

    /**
     * `malloc_at`: panic unless `addr` is page aligned; claim the `ceil(len / PAGE_SIZE)` pages from
     * `to_index(addr)` on if all are free, and report whether they were. Slicing past the map panics.
     */
    method MallocAt(addr: Usize, len: Usize) returns (r: Outcome<bool>)
      modifies this
      ensures !Align(addr) ==> r == Panic && pages == old(pages)
      ensures Align(addr) ==>
        var lo := ToIndex(addr);
        var hi := lo + PagesFor(len);
        r == (if hi <= |old(pages)| then Done(forall i :: lo <= i < hi ==> old(pages)[i] == FREE) else Panic) &&
        pages == (if r == Done(true) then Filled(old(pages), lo, hi, USED) else old(pages))
    {
      if !Align(addr) {
        return Panic;
      }
      var start := ToIndex(addr);
      var trail := if len % 4096 == 0 then 0 else 1;
      var free := IsFree(start, start + len / 4096 + trail);
      if free.Panic? {
        return Panic;
      }
      if free.value {
        var ok := Take(start, start + len / 4096 + trail);
      }
      r := free;
    }
  }

  /** A claimed run is no longer free: a later `malloc_at` of any overlapping run reports `false`. */
  lemma ClaimedRunsExclude(pages: seq<PageDsc>, lo: nat, hi: nat, lo2: nat, hi2: nat)
    requires lo <= hi <= |pages| && hi2 <= |pages|
    requires lo < hi && lo2 < hi2 && lo2 < hi && lo < hi2
    ensures !(forall i :: lo2 <= i < hi2 ==> Filled(pages, lo, hi, USED)[i] == FREE)
  {
    var k := if lo2 < lo then lo else lo2;
    assert Filled(pages, lo, hi, USED)[k] == USED;
  }

  /** `free` undoes `take` of a run that was free. */
  lemma TakeThenFree(pages: seq<PageDsc>, lo: nat, hi: nat)
    requires lo <= hi <= |pages|
    requires forall i :: lo <= i < hi ==> pages[i] == FREE
    ensures Filled(Filled(pages, lo, hi, USED), lo, hi, FREE) == pages
  {
    var t := Filled(Filled(pages, lo, hi, USED), lo, hi, FREE);
    assert forall i :: 0 <= i < |pages| ==> t[i] == pages[i];
  }

  /** The number of pages `malloc_at` claims for `len` bytes: `len / PAGE_SIZE`, plus one for a partial page. */
  function PagesFor(len: nat): (n: nat)
    ensures (n - 1) * PAGE_SIZE < len <= n * PAGE_SIZE || (len == 0 && n == 0)
  {
    len / 4096 + (if len % 4096 == 0 then 0 else 1)
  }

  const USER_BASE_STACK_ADDRESS: Usize := 0x8400_0000

  /** The user stack of the `count`-th call of `allocate_stack`, in wrapping `usize` arithmetic. */
  function UserStack(count: nat, stackSum: nat): (a: Usize)
  {
    (USER_BASE_STACK_ADDRESS + count * stackSum) % USIZE_MOD
  }

  /**
   * Without overflow, the regions `[UserStack(c), UserStack(c) + STACK_SUM)` of different calls
   * are disjoint, and those of successive calls are adjacent.
   */
  lemma StackRegionsDisjoint(c1: nat, c2: nat, stackSum: nat)
    requires c1 < c2 && USER_BASE_STACK_ADDRESS + (c2 + 1) * stackSum < USIZE_MOD
    ensures UserStack(c1, stackSum) + stackSum <= UserStack(c2, stackSum)
    ensures c2 == c1 + 1 ==> UserStack(c1, stackSum) + stackSum == UserStack(c2, stackSum)
  {
    var p1, p2 := c1 * stackSum, c2 * stackSum;
    assert (c1 + 1) * stackSum == p1 + stackSum;
    assert (c2 + 1) * stackSum == p2 + stackSum;
    MulLe(c1 + 1, c2, stackSum);
    assert USER_BASE_STACK_ADDRESS + p1 <= USER_BASE_STACK_ADDRESS + p2 + stackSum < USIZE_MOD;
    assert UserStack(c1, stackSum) == USER_BASE_STACK_ADDRESS + p1;
    assert UserStack(c2, stackSum) == USER_BASE_STACK_ADDRESS + p2;
  }

  lemma MulLe(a: nat, b: nat, c: nat)
    requires a <= b
    ensures a * c <= b * c
  {
  }

  /** The global `COUNT` of `src/task/stack.rs`, with `APP_STACK_SIZE` (not defined in `src/config.rs`) as a parameter. */
  class StackPlacer {
    var count: nat
    const appStackSize: nat

    constructor (appStackSize: nat)
      ensures count == 0 && this.appStackSize == appStackSize
    {
      count := 0;
      this.appStackSize := appStackSize;
    }

    function StackSum(): nat
      reads this
    {
      appStackSize + KERNEL_STACK_SIZE
    }

    /**
     * `allocate_stack`: the `count`-th region of `STACK_SUM` bytes above `USER_BASE_STACK_ADDRESS`,
     * reserved through `malloc_at`; `count` rises even when the reservation fails, which panics.
     * Returns the top of the user stack and the start of the kernel stack above it.
     */
    method AllocateStack(mem: MemMap) returns (r: Outcome<(Usize, Usize)>)
      modifies this, mem
      ensures count == old(count) + 1
      ensures var user := UserStack(old(count), StackSum());
        var lo := ToIndex(user);
        var hi := lo + PagesFor(StackSum() % USIZE_MOD);
        (r.Done? <==> Align(user) && hi <= |old(mem.pages)| && forall i :: lo <= i < hi ==> old(mem.pages)[i] == FREE) &&
        (r.Done? ==>
          r.value == ((user + StackSum()) % USIZE_MOD, (user + appStackSize) % USIZE_MOD) &&
          mem.pages == Filled(old(mem.pages), lo, hi, USED)) &&
        (r.Panic? ==> mem.pages == old(mem.pages))
    {
      var userStack := UserStack(count, StackSum());
      var kernelStack := (userStack + appStackSize) % USIZE_MOD;
      count := count + 1;
      var succ := mem.MallocAt(userStack, StackSum() % USIZE_MOD);
      if succ == Done(true) {
        r := Done(((userStack + StackSum()) % USIZE_MOD, kernelStack));
      } else {
        r := Panic;
      }
    }
  }
}
