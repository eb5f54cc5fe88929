/**
 * `src/task/context.rs`: the callee-saved state a task switch restores (`TaskContext`) and the
 * bundle of an address space with the physical address of its trap-context page (`Context`).
 *
 * The code addresses `init_app_trap_return` and `switch_trampoline`, the start of the
 * `KERNEL_STACK` area and the constants `TRAP_CONTEXT` and `KERNEL_INIT_STACK_SIZE` come from
 * outside these files, so they are parameters.
 */
module TaskCx {
  import opened Wrappers
  import opened Sv39
  import opened Pte
  import opened PhysMemory
  import opened PageWalk
  import MmAddress
  import TrapCx
  import MmPageTable

  type Regs12 = TrapCx.Regs12

  const ZERO12: Regs12 := [0, 0, 0, 0, 0, 0, 0, 0, 0, 0, 0, 0]

  /** `TaskContext`: the return address, the kernel stack pointer and s0..s11. */
  datatype TaskContext = TaskContext(ra: Usize, ksp: Usize, s: Regs12)

  /**
   * `goto_trap_return`: a context whose first switch lands in `init_app_trap_return` on kernel
   * stack `ksp`, with the user address space token in s0 for that routine to install.
   */
  function GotoTrapReturn(ksp: Usize, satp: Usize, trapReturn: Usize): (cx: TaskContext)
    ensures cx.ra == trapReturn && cx.ksp == ksp && cx.s[0] == satp
    ensures forall i :: 1 <= i < 12 ==> cx.s[i] == 0
  {
    TaskContext(trapReturn, ksp, ZERO12[0 := satp])
  }

  /**
   * `switch_trampoline`: hart `hartid` starts at `trampoline` on the top of its own slice of
   * `KERNEL_STACK`, each slice `stackSize` bytes long. The arithmetic wraps at 2^64.
   */
  function SwitchTrampoline(hartid: Usize, kernelStack: Usize, stackSize: Usize, trampoline: Usize): (cx: TaskContext)
    ensures cx.ra == trampoline
    ensures cx.ksp == WrappingAdd(kernelStack, ((hartid + 1) * stackSize) % USIZE_MOD)
    ensures forall i :: 0 <= i < 12 ==> cx.s[i] == 0
  {
    TaskContext(trampoline, WrappingAdd(kernelStack, ((hartid + 1) * stackSize) % USIZE_MOD), ZERO12)
  }

  /**
   * When the kernel stack area holds a slice for every hart up to `h2`, the starting stack
   * pointers of two harts are whole slices apart: harts never share a boot stack.
   */
  lemma {:induction false} SwitchTrampolineSlicesApart(h1: Usize, h2: Usize, kernelStack: Usize, stackSize: Usize, trampoline: Usize)
    requires h1 < h2
    requires kernelStack + (h2 + 1) * stackSize < USIZE_MOD
    ensures SwitchTrampoline(h2, kernelStack, stackSize, trampoline).ksp
      == SwitchTrampoline(h1, kernelStack, stackSize, trampoline).ksp + (h2 - h1) * stackSize
    ensures SwitchTrampoline(h1, kernelStack, stackSize, trampoline).ksp >= kernelStack + stackSize
  {
    assert (h1 + 1) * stackSize <= (h2 + 1) * stackSize by {
      MulMono(h1 + 1, h2 + 1, stackSize);
    }
    assert (h2 + 1) * stackSize == (h1 + 1) * stackSize + (h2 - h1) * stackSize;
    assert stackSize <= (h1 + 1) * stackSize by {
      MulMono(1, h1 + 1, stackSize);
    }
  }

  lemma MulMono(a: nat, b: nat, c: nat)
    requires a <= b
    ensures a * c <= b * c
  {
  }

  /**
   * Typed view of the physical words where trap contexts are written, by physical address
   * (`*cx_pa.as_type() = trap_cx`).
   */
  class TrapCxStore {
    var at: map<Usize, TrapCx.TrapContext>

    constructor ()
      ensures at == map[]
    {
      at := map[];
    }
  }

  /** `Context`: the address space, the switch context and the trap context's physical address. */
  datatype Context = Context(memorySet: MmPageTable.PageTable, taskCx: TaskContext, trapCx: Usize)

  /**
   * `Context::new`: convert `TRAP_CONTEXT` to a `VirtAddr` (a panic outside the Sv39 range the
   * conversion accepts), translate it in the new address space (a panic when that page has no
   * leaf entry), store `trapCx` at the resulting physical address, and prepare a first switch
   * into `trap_return` on the trap context's kernel stack with this space's token.
   */
  method ContextNew(memorySet: MmPageTable.PageTable, trapCx: TrapCx.TrapContext, trapContextVa: Usize,
                    trapReturn: Usize, ram: PhysMem, store: TrapCxStore) returns (r: Outcome<Context>)
    requires memorySet.rootPpn < PPN_LIMIT
    modifies store
    ensures r.Done? <==>
      MmAddress.VirtAddrFromAsWritten(trapContextVa).Done? &&
      LeafSlot(ram.words, memorySet.rootPpn, MmAddress.Floor(trapContextVa)).Some?
    ensures r.Panic? ==> unchanged(store)
    ensures r.Done? ==>
      var pa := Ppn(Translation(ram.words, memorySet.rootPpn, MmAddress.Floor(trapContextVa)).value) * PAGE_SIZE + trapContextVa % PAGE_SIZE;
      && r.value.memorySet == memorySet
      && r.value.trapCx == pa
      && r.value.taskCx == GotoTrapReturn(trapCx.ksp, MmPageTable.Token(memorySet.rootPpn), trapReturn)
      && store.at == old(store.at)[pa := trapCx]
  {
    var va := MmAddress.VirtAddrFromAsWritten(trapContextVa);
    if va.Panic? {
      return Panic;
    }
    var cxPa := memorySet.VaTranslate(va.value, ram);
    if cxPa.None? {
      return Panic;
    }
    var satp := MmPageTable.Token(memorySet.rootPpn);
    store.at := store.at[cxPa.value := trapCx];
    r := Done(Context(memorySet, GotoTrapReturn(trapCx.ksp, satp, trapReturn), cxPa.value));
  }
}
