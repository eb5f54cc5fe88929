/**
 * Threads and processes of `src/task/tcb.rs` and `src/task/process.rs`. A process owns the
 * descriptor table, the signal record, its children and the table of its threads; a thread has
 * its id, the status it shares with waiters, its trap context and its user stack.
 *
 * Locks and reference counts are left out: fields are read and written directly, and a
 * `Weak`/`Arc` link is a plain reference. The address space of a process is not held here; the
 * stack-area push, the argument copy and the trap-context store that `TaskControlBlock::new`
 * performs on it are modelled by `MmMemorySet`, `TaskBlock.PushArgs` and `TaskCx.ContextNew`.
 * The thread's `push_args` offsets a stack pointer that is already a `VirtAddr`, so unlike
 * `TaskBlock.PushArgs` it has no conversion that can panic before the copy.
 * The trap context itself is held as a field of the thread (its contents, not its address).
 *
 * `TRAP_CONTEXT`, `GUARD_PAGE_SIZE`, the size and alignment of `TrapContext`,
 * `kernel_stack_position` and the kernel token come from outside these files: they are the
 * parameters in `Layout` and `Machine`.
 */
module Thread {
  import opened Wrappers
  import opened Sv39
  import opened Tools
  import opened TrapCx
  import Signals
  import MmAddress
  import TaskUid
  import TaskBlock

  /** `USER_STACK_SIZE`. */
  const USER_STACK_SIZE: nat := 4096

  /** Build-time constants the layout depends on. */
  datatype Layout = Layout(trapContext: Usize, guardPageSize: Usize, trapCxSize: Usize, trapCxAlign: Usize)

  /**
   * What the thread constructors read from the running kernel: the kernel token, the address of
   * `trap_handler`, the `sstatus` CSR, and the kernel-stack bottom of each kernel-stack id.
   */
  datatype Machine = Machine(kernelToken: Usize, trapHandler: Usize, sstatus: Sstatus, kstackBottom: int -> Usize)

  /** The thread `TaskStatus` of `tcb.rs`. */
  datatype TaskStatus = Exited | Ready | Wait

  /** `SharedStatus`: the thread state other tasks may look at. */
  class SharedStatus {
    var signals: Signals.SignalFlags
    var state: TaskStatus
    var exitCode: Option<I32>

    /** `SharedStatus::default()`: no signals, `Ready`, no exit code. */
    constructor ()
      ensures signals == 0 && state == Ready && exitCode == None
    {
      signals := 0;
      state := Ready;
      exitCode := None;
    }
  }

  /** `align_of::<TrapContext>().max(8)`. */
  function SlotAlign(layout: Layout): (a: Usize)
    ensures a >= 8 && a >= layout.trapCxAlign
  {
    if layout.trapCxAlign > 8 then layout.trapCxAlign else 8
  }

  /**
   * `trap_context_addr(tid)`: slot `tid` of an array of trap contexts at `TRAP_CONTEXT`, each slot
   * the context's size rounded up to the alignment. The assert panics when `TRAP_CONTEXT` is not
   * aligned; the product and the sum wrap at 2^64.
   */
  function TrapContextAddr(tid: Usize, layout: Layout): (r: Outcome<Usize>)
    ensures r.Panic? <==> layout.trapContext % SlotAlign(layout) != 0
    ensures tid == 0 && r.Done? ==> r.value == layout.trapContext
  {
    var align := SlotAlign(layout);
    if layout.trapContext % align != 0 then Panic
    else Done(WrappingAdd(layout.trapContext, (tid * AlignCeil(layout.trapCxSize, align).value) % USIZE_MOD))
  }

  /** A multiple of `align` plus a multiple of `align` is a multiple of `align`. */
  lemma AlignedSum(x: nat, y: nat, align: nat)
    requires align > 0 && x % align == 0 && y % align == 0
    ensures (x + y) % align == 0
  {
    DivModUnique(x + y, align, x / align + y / align, 0);
  }

  /** A multiple of a multiple of `align` is a multiple of `align`. */
  lemma AlignedProduct(t: nat, slot: nat, align: nat)
    requires align > 0 && slot % align == 0
    ensures (t * slot) % align == 0
  {
    var q := slot / align;
    assert t * slot == (t * q) * align;
    DivModUnique(t * slot, align, t * q, 0);
  }

  /** Slot `t` of the trap-context array with no wrap-around. */
  lemma SlotAt(t: Usize, t2: Usize, layout: Layout)
    requires layout.trapContext % SlotAlign(layout) == 0 && layout.trapCxSize >= 1 && t <= t2
    requires layout.trapContext + (t2 + 1) * (layout.trapCxSize + SlotAlign(layout)) < USIZE_MOD
    ensures var slot := AlignCeil(layout.trapCxSize, SlotAlign(layout)).value;
      && layout.trapCxSize <= slot && slot % SlotAlign(layout) == 0
      && TrapContextAddr(t, layout).value == layout.trapContext + t * slot
      && TrapContextAddr(t, layout).value % SlotAlign(layout) == 0
  {
    var align := SlotAlign(layout);
    var size := layout.trapCxSize;
    MulMonotone(1, t2 + 1, size + align);
    AlignCeilIsLeastMultiple(size, align);
    var slot := AlignCeil(size, align).value;
    MulMonotone(0, t, slot);
    var prod: nat := t * slot;
    assert prod <= (t2 + 1) * slot by {
      MulMonotone(t, t2 + 1, slot);
    }
    assert (t2 + 1) * slot <= (t2 + 1) * (size + align) by {
      MulMonotone(slot, size + align, t2 + 1);
      assert slot * (t2 + 1) == (t2 + 1) * slot;
      assert (size + align) * (t2 + 1) == (t2 + 1) * (size + align);
    }
    DivModUnique(prod, USIZE_MOD, 0, prod);
    assert TrapContextAddr(t, layout).value == WrappingAdd(layout.trapContext, prod);
    AlignedProduct(t, slot, align);
    AlignedSum(layout.trapContext, prod, align);
  }

  /**
   * Away from overflow, every thread's trap-context slot is aligned, and the context of a thread
   * ends at or before the start of the next thread's slot, so distinct threads never share bytes.
   */
  lemma {:induction false} TrapContextsApart(t1: Usize, t2: Usize, layout: Layout)
    requires layout.trapContext % SlotAlign(layout) == 0 && layout.trapCxSize >= 1
    requires t1 < t2
    requires layout.trapContext + (t2 + 1) * (layout.trapCxSize + SlotAlign(layout)) < USIZE_MOD
    ensures TrapContextAddr(t1, layout).value % SlotAlign(layout) == 0
    ensures TrapContextAddr(t2, layout).value % SlotAlign(layout) == 0
    ensures TrapContextAddr(t1, layout).value + layout.trapCxSize <= TrapContextAddr(t2, layout).value
  {
    var align := SlotAlign(layout);
    var slot := AlignCeil(layout.trapCxSize, align).value;
    SlotAt(t1, t2, layout);
    SlotAt(t2, t2, layout);
    MulMonotone(t1 + 1, t2, slot);
    assert (t1 + 1) * slot == t1 * slot + slot;
  }

  /** The upper end of thread `tid`'s user stack, before the range conversion: wraps at 2^64. */
  function StackBottom(tid: Usize, ustackBase: Usize, guardPageSize: Usize): Usize
  {
    WrappingAdd(ustackBase, ((tid + 1) * (USER_STACK_SIZE + guardPageSize)) % USIZE_MOD)
  }

  /**
   * `user_stack_addr`: the `USER_STACK_SIZE` bytes below the bottom, as a range of virtual
   * addresses; each end goes through `VirtAddr::from`, which panics outside the Sv39 range.
   */
  function UserStackAddr(tid: Usize, ustackBase: Usize, guardPageSize: Usize): (r: Outcome<(Usize, Usize)>)
    ensures var bottom := StackBottom(tid, ustackBase, guardPageSize);
      var top := WrappingSub(bottom, USER_STACK_SIZE);
      && (r.Done? <==> MmAddress.VirtAddrFromAsWritten(top).Done? && MmAddress.VirtAddrFromAsWritten(bottom).Done?)
      && (r.Done? ==> r.value == (top, bottom))
  {
    var bottom := StackBottom(tid, ustackBase, guardPageSize);
    var top := WrappingSub(bottom, USER_STACK_SIZE);
    match MmAddress.VirtAddrFromAsWritten(top)
    case Panic => Panic
    case Done(t) =>
      match MmAddress.VirtAddrFromAsWritten(bottom)
      case Panic => Panic
      case Done(b) => Done((t, b))
  }

  /**
   * Away from overflow, each stack is `USER_STACK_SIZE` bytes long, and a higher thread's stack
   * starts at least `GUARD_PAGE_SIZE` bytes above the end of a lower thread's: stacks are disjoint
   * and an unmapped guard gap sits below each one.
   */
  lemma {:induction false} UserStacksApart(t1: Usize, t2: Usize, ustackBase: Usize, guardPageSize: Usize)
    requires t1 < t2
    requires ustackBase + (t2 + 1) * (USER_STACK_SIZE + guardPageSize) < USIZE_MOD
    ensures var b1 := StackBottom(t1, ustackBase, guardPageSize);
      var b2 := StackBottom(t2, ustackBase, guardPageSize);
      && b1 >= USER_STACK_SIZE && b2 >= USER_STACK_SIZE
      && b1 + guardPageSize <= b2 - USER_STACK_SIZE
  {
    var s := USER_STACK_SIZE + guardPageSize;
    MulMonotone(t1 + 2, t2 + 1, s);
    MulMonotone(1, t1 + 1, s);
    assert (t1 + 2) * s == (t1 + 1) * s + s;
    BottomNoWrap(t1, ustackBase, guardPageSize);
    BottomNoWrap(t2, ustackBase, guardPageSize);
  }

  /** Without overflow, the bottom is the plain sum. */
  lemma BottomNoWrap(t: Usize, ustackBase: Usize, guardPageSize: Usize)
    requires ustackBase + (t + 1) * (USER_STACK_SIZE + guardPageSize) < USIZE_MOD
    ensures StackBottom(t, ustackBase, guardPageSize) == ustackBase + (t + 1) * (USER_STACK_SIZE + guardPageSize)
  {
    var s := USER_STACK_SIZE + guardPageSize;
    MulMonotone(0, t + 1, s);
    var prod: nat := (t + 1) * s;
    DivModUnique(prod, USIZE_MOD, 0, prod);
  }

  /** The stack pointer `push_args` returns: `usp` lowered by the argument length rounded up to 8. */
  function ArgsUsp(usp: Usize, argsLen: Usize): Usize
  {
    WrappingSub(usp, AlignCeil(argsLen, 8).value)
  }

  /**
   * Arguments no longer than the stack land inside it: the lowered stack pointer lies between the
   * stack's two ends, and the argument bytes end at or below its upper end.
   */
  lemma ArgsInsideStack(top: Usize, bottom: Usize, argsLen: Usize)
    requires top + USER_STACK_SIZE == bottom && 1 <= argsLen <= USER_STACK_SIZE
    ensures top <= ArgsUsp(bottom, argsLen) <= bottom
    ensures ArgsUsp(bottom, argsLen) + argsLen <= bottom
  {
    AlignCeilIsLeastMultiple(argsLen, 8);
    var c := AlignCeil(argsLen, 8).value;
    assert 512 * 8 >= c;
    assert ArgsUsp(bottom, argsLen) == bottom - c;
  }

  /** The trap context `TaskControlBlock::new` builds: `TrapContext::new`, then `set_args(usp, len)`. */
  function NewTrapContext(entry: Usize, usp: Usize, ksp: Usize, argsLen: Usize, machine: Machine): (cx: TrapContext)
    ensures cx.sepc == entry && cx.regFile.sp == usp && cx.ksp == ksp && cx.satp == machine.kernelToken
    ensures cx.regFile.a[0] == usp && cx.regFile.a[1] == argsLen && cx.hartid == 0
    ensures cx.sstatus.spp == User
  {
    SetArgs(Init(entry, usp, ksp, machine.kernelToken, machine.trapHandler, machine.sstatus), usp, argsLen)
  }

  /** `ProcessStatus`. */
  datatype ProcessStatus = Running | Exit(code: I32)

  /** The three standard descriptors: stdin, stdout, and stderr writing to stdout. */
  const STANDARD_FDS: seq<Option<TaskBlock.FileBox>> :=
    [Some(TaskBlock.Stdin), Some(TaskBlock.Stdout), Some(TaskBlock.Stdout)]

  class Process {
    const pid: TaskUid.Pid
    const ustackBase: Usize
    /** `shared.state` and `shared.signals`. */
    var state: ProcessStatus
    var signals: Signals.SignalFlags
    /** `inner.tree`. */
    var parent: Option<Process>
    var children: seq<Process>
    var fdTable: Table<TaskBlock.FileBox>
    var signal: Signals.Signal
    var tasks: Table<Tcb>

    /**
     * `ProcessControlBlock::new`: a fresh pid, `Running`, no signals, no parent or children, fds
     * 0, 1 and 2 open on the standard streams, and no threads.
     */
    constructor (pids: TaskUid.UidAllocator, ustackBase: Usize)
      requires pids.Valid()
      modifies pids
      ensures pids.Valid() && pid.id !in old(pids.live) && pids.live == old(pids.live) + {pid.id}
      ensures this.ustackBase == ustackBase && state == Running && signals == 0
      ensures parent == None && children == []
      ensures fresh(fdTable) && fdTable.inner == STANDARD_FDS
      ensures fresh(tasks) && tasks.inner == []
      ensures fresh(signal) && !signal.globalMask && signal.mask == 0
    {
      var p := TaskUid.PidAlloc(pids);
      var fds := new Table<TaskBlock.FileBox>();
      fds := fds.With(TaskBlock.Stdin);
      fds := fds.With(TaskBlock.Stdout);
      fds := fds.With(TaskBlock.Stdout);
      pid := p;
      this.ustackBase := ustackBase;
      state := Running;
      signals := 0;
      parent := None;
      children := [];
      fdTable := fds;
      signal := new Signals.Signal();
      tasks := new Table<Tcb>();
    }

    /** `exit_code`: the code once the process has exited. */
    function ExitCode(): (r: Option<I32>)
      reads this
      ensures r.Some? <==> state.Exit?
      ensures r.Some? ==> state == ProcessStatus.Exit(r.value)
    {
      if state.Exit? then Some(state.code) else None
    }

    /** `get_task`: the thread in an occupied slot of the table. */
    function GetTask(tid: nat): (r: Option<Tcb>)
      reads this, tasks
      ensures r.Some? <==> tid < |tasks.inner| && tasks.inner[tid].Some?
      ensures r.Some? ==> r == tasks.inner[tid]
    {
      tasks.Get(tid)
    }

    /**
     * `add_task`: the thread id is the slot `alloc_id` chooses, and the new thread is stored in
     * it; no other slot changes. The thread is built as `TcbNew` builds it. Of the steps composed
     * here, it panics exactly when that id does not fit a `usize` or its user stack or
     * trap-context address overflows; the panics of the address-space steps `TcbNew` does not
     * compose are not included.
     */
    method AddTask(entry: Usize, argsLen: Usize, layout: Layout, machine: Machine, kstacks: TaskUid.UidAllocator)
      returns (r: Outcome<Tcb>)
      requires kstacks.Valid()
      modifies tasks, kstacks
      ensures kstacks.Valid()
      ensures r.Panic? <==>
        var tid := FirstFree(old(tasks.inner));
        tid >= USIZE_MOD || UserStackAddr(tid, ustackBase, layout.guardPageSize).Panic? || TrapContextAddr(tid, layout).Panic?
      ensures r.Done? ==>
        var t := r.value;
        && fresh(t) && t.process == this
        && t.tid == FirstFree(old(tasks.inner))
        && tasks.inner == Placed(old(tasks.inner), Some(t))
        && GetTask(t.tid) == Some(t)
    {
      var tid := tasks.AllocId();
      if tid >= USIZE_MOD {
        return Panic;
      }
      var task := TcbNew(this, tid, entry, argsLen, layout, machine, kstacks);
      if task.Panic? {
        return Panic;
      }
      var slot := tasks.GetEntry(tid);
      if slot.Panic? {
        return Panic;
      }
      tasks.inner := tasks.inner[tid := Some(task.value)];
      r := Done(task.value);
    }

    /** `remove_task`: the slot of that thread becomes empty; an id past the end changes nothing. */
    method RemoveTask(tid: Usize)
      modifies tasks
      ensures tid < |old(tasks.inner)| ==> tasks.inner == old(tasks.inner)[tid := None]
      ensures tid >= |old(tasks.inner)| ==> tasks.inner == old(tasks.inner)
      ensures GetTask(tid) == None
    {
      var _ := tasks.Remove(tid);
    }

    /** `clear_res`: drop every descriptor, every child and every thread. */
    method ClearRes()
      modifies this, fdTable, tasks
      ensures fdTable == old(fdTable) && tasks == old(tasks) && signal == old(signal)
      ensures fdTable.inner == [] && children == [] && tasks.inner == []
      ensures state == old(state) && signals == old(signals) && parent == old(parent)
    {
      fdTable.Clear();
      children := [];
      tasks.Clear();
    }

    /** `exit`: release the resources first, then record the exit code. */
    method Exit(code: I32)
      modifies this, fdTable, tasks
      ensures fdTable == old(fdTable) && tasks == old(tasks) && signal == old(signal)
      ensures fdTable.inner == [] && children == [] && tasks.inner == []
      ensures state == ProcessStatus.Exit(code) && ExitCode() == Some(code)
      ensures signals == old(signals) && parent == old(parent)
    {
      ClearRes();
      state := ProcessStatus.Exit(code);
    }

    /** `find_child`: the position and block of the first child with that pid. */
    function FindChild(pid: int): (r: Option<(nat, Process)>)
      reads this
      ensures r.Some? ==> r.value.0 < |children| && children[r.value.0] == r.value.1 && r.value.1.pid.id == pid
      ensures r.Some? ==> forall j :: 0 <= j < r.value.0 ==> children[j].pid.id != pid
      ensures r.None? <==> forall j :: 0 <= j < |children| ==> children[j].pid.id != pid
    {
      FindByPid(children, pid)
    }

    /** `set_parent`: join `parent`'s children and point back at it. */
    method SetParent(parent: Process)
      modifies this, parent
      ensures parent.children == old(parent.children) + [this] && this.parent == Some(parent)
      ensures fdTable == old(fdTable) && tasks == old(tasks) && state == old(state)
      ensures parent != this ==> children == old(children)
      ensures parent != this ==>
        parent.parent == old(parent.parent) && parent.state == old(parent.state) &&
        parent.fdTable == old(parent.fdTable) && parent.tasks == old(parent.tasks)
    {
      parent.children := parent.children + [this];
      this.parent := Some(parent);
    }

    /**
     * The table part of `fork`: a new process on the same stack base with a copy of the descriptor
     * table, registered as this process's last child, whose thread table has the same length and
     * the same empty slots as this one, each thread forked into the new process on a kernel stack
     * of its own. The copy of the address space is `MemorySet::from_existed`.
     */
    method Fork(pids: TaskUid.UidAllocator, kstacks: TaskUid.UidAllocator, layout: Layout, machine: Machine)
      returns (np: Process)
      requires pids.Valid() && kstacks.Valid() && pids != kstacks
      modifies this, pids, kstacks
      ensures pids.Valid() && kstacks.Valid()
      ensures fresh(np) && fresh(np.fdTable) && fresh(np.tasks) && np.pid.id !in old(pids.live)
      ensures np.ustackBase == ustackBase && np.state == Running && np.children == []
      ensures np.fdTable.inner == fdTable.inner && np.parent == Some(this)
      ensures children == old(children) + [np]
      ensures |np.tasks.inner| == |tasks.inner|
      ensures forall i :: 0 <= i < |tasks.inner| ==> (np.tasks.inner[i].Some? <==> tasks.inner[i].Some?)
      ensures forall i :: 0 <= i < |tasks.inner| && tasks.inner[i].Some? ==>
        var (t, c) := (tasks.inner[i].value, np.tasks.inner[i].value);
        && fresh(c) && c.process == np && c.tid == t.tid && c.ustack == t.ustack
        && c.trapCx == t.trapCx.(ksp := machine.kstackBottom(c.kstack.id))
        && c.kstack.id in kstacks.live && c.kstack.id !in old(kstacks.live)
      ensures forall i, j :: 0 <= i < j < |tasks.inner| && tasks.inner[i].Some? && tasks.inner[j].Some? ==>
        np.tasks.inner[i].value.kstack.id != np.tasks.inner[j].value.kstack.id
      ensures fdTable == old(fdTable) && tasks == old(tasks) && tasks.inner == old(tasks.inner)
    {
      np := new Process(pids, ustackBase);
      np.fdTable.inner := fdTable.inner;
      var forked := ForkTasks(tasks.inner, np, layout, machine, kstacks);
      np.SetParent(this);
      np.tasks.inner := forked;
    }
  }

  /** The first process in `ps` with that pid and its position. */
  function FindByPid(ps: seq<Process>, pid: int): (r: Option<(nat, Process)>)
    ensures r.Some? ==> r.value.0 < |ps| && ps[r.value.0] == r.value.1 && r.value.1.pid.id == pid
    ensures r.Some? ==> forall j :: 0 <= j < r.value.0 ==> ps[j].pid.id != pid
    ensures r.None? <==> forall j :: 0 <= j < |ps| ==> ps[j].pid.id != pid
  {
    if ps == [] then None
    else if ps[0].pid.id == pid then Some((0, ps[0]))
    else match FindByPid(ps[1..], pid)
      case None => None
      case Some((i, p)) => Some((i + 1, p))
  }

  /**
   * The `map`/`collect` of `fork`: each occupied slot forked into `np` on a kernel stack of its
   * own, each empty slot kept empty.
   */
  method ForkTasks(src: seq<Option<Tcb>>, np: Process, layout: Layout, machine: Machine, kstacks: TaskUid.UidAllocator)
    returns (forked: seq<Option<Tcb>>)
    requires kstacks.Valid()
    modifies kstacks
    ensures kstacks.Valid()
    ensures |forked| == |src|
    ensures forall k :: 0 <= k < |src| ==> (forked[k].Some? <==> src[k].Some?)
    ensures forall k :: 0 <= k < |src| && src[k].Some? ==>
      var (t, c) := (src[k].value, forked[k].value);
      && fresh(c) && c.process == np && c.tid == t.tid && c.ustack == t.ustack
      && c.trapCx == t.trapCx.(ksp := machine.kstackBottom(c.kstack.id))
      && c.kstack.id in kstacks.live && c.kstack.id !in old(kstacks.live)
    ensures forall k, j :: 0 <= k < j < |src| && src[k].Some? && src[j].Some? ==>
      forked[k].value.kstack.id != forked[j].value.kstack.id
  {
    forked := [];
    for i := 0 to |src|
      invariant kstacks.Valid() && old(kstacks.live) <= kstacks.live
      invariant |forked| == i
      invariant forall k :: 0 <= k < i ==> (forked[k].Some? <==> src[k].Some?)
      invariant forall k :: 0 <= k < i && src[k].Some? ==>
        var (t, c) := (src[k].value, forked[k].value);
        && fresh(c) && c.process == np && c.tid == t.tid && c.ustack == t.ustack
        && c.trapCx == t.trapCx.(ksp := machine.kstackBottom(c.kstack.id))
        && c.kstack.id in kstacks.live && c.kstack.id !in old(kstacks.live)
      invariant forall k, j :: 0 <= k < j < i && src[k].Some? && src[j].Some? ==>
        forked[k].value.kstack.id != forked[j].value.kstack.id
    {
      if src[i].Some? {
        var c := src[i].value.Fork(np, layout, machine, kstacks);
        forked := forked + [Some(c)];
      } else {
        forked := forked + [None];
      }
    }
  }

  /** `TaskControlBlock`. */
  class Tcb {
    const tid: Usize
    const shared: SharedStatus
    const process: Process
    const kstack: TaskUid.KernelStack
    /** The upper end of the user stack (`local.ustack`). */
    const ustack: Usize
    /** The trap context `local.context` points at, and the user address it was stored under. */
    var trapCx: TrapContext
    var trapCxVa: Usize
    var trapCxBackup: Option<TrapContext>

    /** A block with default shared status and no saved trap context. */
    constructor (tid: Usize, process: Process, kstack: TaskUid.KernelStack, ustack: Usize, trapCx: TrapContext, trapCxVa: Usize)
      ensures this.tid == tid && this.process == process && this.kstack == kstack && this.ustack == ustack
      ensures this.trapCx == trapCx && this.trapCxVa == trapCxVa && trapCxBackup == None
      ensures fresh(shared) && shared.signals == 0 && shared.state == Ready && shared.exitCode == None
    {
      this.tid := tid;
      this.process := process;
      this.kstack := kstack;
      this.ustack := ustack;
      this.trapCx := trapCx;
      this.trapCxVa := trapCxVa;
      trapCxBackup := None;
      shared := new SharedStatus();
    }

    /** `is_ready`. */
    predicate IsReady()
      reads this, shared
    {
      shared.state == Ready
    }

    /** `exit_code`. */
    function ExitCode(): Option<I32>
      reads this, shared
    {
      shared.exitCode
    }

    /**
     * `exit`: leave the process's thread table, then publish the exit code and the `Exited`
     * state. Afterwards the thread is not ready, reports `code`, and its slot is empty.
     */
    method Exit(code: I32)
      modifies process.tasks, shared
      ensures tid < |old(process.tasks.inner)| ==> process.tasks.inner == old(process.tasks.inner)[tid := None]
      ensures tid >= |old(process.tasks.inner)| ==> process.tasks.inner == old(process.tasks.inner)
      ensures shared.exitCode == Some(code) && shared.state == Exited && shared.signals == old(shared.signals)
      ensures !IsReady() && ExitCode() == Some(code) && process.GetTask(tid) == None
    {
      process.RemoveTask(tid);
      shared.exitCode := Some(code);
      shared.state := Exited;
    }

    /** `set_state`: any state but `Exited`, which only `exit` may set (`assert_ne!` panics). */
    method SetState(state: TaskStatus) returns (r: Outcome<()>)
      modifies shared
      ensures r.Panic? <==> state == Exited
      ensures r.Panic? ==> unchanged(shared)
      ensures r.Done? ==> shared.state == state && shared.exitCode == old(shared.exitCode) && shared.signals == old(shared.signals)
      ensures r.Done? ==> (IsReady() <==> state == Ready)
    {
      if state == Exited {
        return Panic;
      }
      shared.state := state;
      r := Done(());
    }

    /**
     * The process part of dropping a thread: when the main thread (tid 0) goes, its process exits
     * with the thread's exit code; the `unwrap` panics when the thread never exited. The user
     * stack area it also removes is `MemorySet::remove_area_with_end_vpn`.
     */
    method Drop() returns (r: Outcome<()>)
      modifies process, process.fdTable, process.tasks
      ensures tid != 0 ==> r == Done(()) && unchanged(process) && unchanged(process.fdTable) && unchanged(process.tasks)
      ensures tid == 0 ==> (r.Panic? <==> shared.exitCode.None?)
      ensures tid == 0 && r.Done? ==>
        process.ExitCode() == shared.exitCode && process.tasks.inner == [] && process.fdTable.inner == [] &&
        process.children == []
    {
      if tid == 0 {
        if shared.exitCode.None? {
          return Panic;
        }
        process.Exit(shared.exitCode.value);
      }
      r := Done(());
    }

    /**
     * The thread of `fork`: same id and user stack, a new kernel stack, default shared status, and
     * the parent thread's trap context with only the kernel stack pointer replaced (the return
     * value is left as it is), stored at `TRAP_CONTEXT`.
     */
    method Fork(np: Process, layout: Layout, machine: Machine, kstacks: TaskUid.UidAllocator) returns (c: Tcb)
      requires kstacks.Valid()
      modifies kstacks
      ensures kstacks.Valid() && kstacks.live == old(kstacks.live) + {c.kstack.id} && c.kstack.id !in old(kstacks.live)
      ensures fresh(c) && fresh(c.shared) && c.process == np && c.tid == tid && c.ustack == ustack
      ensures c.trapCx == trapCx.(ksp := machine.kstackBottom(c.kstack.id)) && c.trapCx.regFile == trapCx.regFile
      ensures c.trapCxVa == layout.trapContext && c.trapCxBackup == None
      ensures c.shared.state == Ready && c.shared.exitCode == None
    {
      var k := TaskUid.KstackAlloc(kstacks);
      var cx := trapCx.(ksp := machine.kstackBottom(k.id));
      c := new Tcb(tid, np, k, ustack, cx, layout.trapContext);
    }
  }

  /**
   * `TaskControlBlock::new`: a kernel stack, the user stack of `tid` (a panic when it leaves the
   * Sv39 range), the stack pointer lowered past the arguments, a trap context entering `entry`
   * with the arguments' address and length in a0 and a1, stored at the thread's trap-context
   * slot (a panic when `TRAP_CONTEXT` is misaligned).
   */
  method TcbNew(process: Process, tid: Usize, entry: Usize, argsLen: Usize, layout: Layout, machine: Machine,
                kstacks: TaskUid.UidAllocator) returns (r: Outcome<Tcb>)
    requires kstacks.Valid()
    modifies kstacks
    ensures kstacks.Valid()
    ensures r.Panic? <==>
      UserStackAddr(tid, process.ustackBase, layout.guardPageSize).Panic? || TrapContextAddr(tid, layout).Panic?
    ensures r.Done? ==>
      var t := r.value;
      var usp := ArgsUsp(t.ustack, argsLen);
      && fresh(t) && fresh(t.shared) && t.tid == tid && t.process == process
      && kstacks.live == old(kstacks.live) + {t.kstack.id} && t.kstack.id !in old(kstacks.live)
      && (WrappingSub(t.ustack, USER_STACK_SIZE), t.ustack) == UserStackAddr(tid, process.ustackBase, layout.guardPageSize).value
      && t.trapCx == NewTrapContext(entry, usp, machine.kstackBottom(t.kstack.id), argsLen, machine)
      && t.trapCxVa == TrapContextAddr(tid, layout).value
      && t.trapCxBackup == None && t.shared.state == Ready && t.shared.exitCode == None
  {
    var k := TaskUid.KstackAlloc(kstacks);
    var stack := UserStackAddr(tid, process.ustackBase, layout.guardPageSize);
    if stack.Panic? {
      return Panic;
    }
    var usp := ArgsUsp(stack.value.1, argsLen);
    var cx := NewTrapContext(entry, usp, machine.kstackBottom(k.id), argsLen, machine);
    var va := TrapContextAddr(tid, layout);
    if va.Panic? {
      return Panic;
    }
    var t := new Tcb(tid, process, k, stack.value.1, cx, va.value);
    r := Done(t);
  }
}
