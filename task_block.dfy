/**
 * The single-threaded task control block of `src/task/task_block.rs`: the file-descriptor table,
 * the state shared with waiters (`SharedStatus`), the parent/children tree, and the parts of
 * `fork`, `exit` and `push_args` that act on these.
 *
 * The trap context, which the source reaches through the physical address stored in this task's
 * `Context`, is held here as a field of the block (`trapCx`): the page's contents, not its address.
 */
module TaskBlock {
  import opened Wrappers
  import opened Sv39
  import opened PhysMemory
  import opened Tools
  import opened TrapCx
  import opened Signals
  import MmAddress
  import MmPageTable
  import MmUserBuffer

  /** `TaskStatus`. */
  datatype TaskStatus = Exited | Ready | Running | Wait

  /**
   * `FileBox`, a shared handle on an open file. Only its identity matters here: the standard
   * streams, or some other open file told apart by a number.
   */
  datatype FileBox = Stdin | Stdout | OpenFile(handle: nat)

  /** `SharedStatus`: the state other tasks may look at (each field behind its own lock). */
  class SharedStatus {
    var signals: SignalFlags
    var state: TaskStatus
    var exitCode: Option<I32>

    /** `SharedStatus::default()`: no signals, `Ready`, no exit code. */
    constructor ()
      ensures signals == 0 && state == Ready && exitCode == None
    {
      signals := 0;
      state := Ready;
      exitCode := None;
    }
  }

  /** The three standard descriptors: stdin, stdout, and stderr writing to stdout. */
  const STANDARD_FDS: seq<Option<FileBox>> := [Some(Stdin), Some(Stdout), Some(Stdout)]

  class FdTable {
    var table: seq<Option<FileBox>>

    /** `FdTable::new`: fds 0, 1 and 2 open on the standard streams, nothing else. */
    constructor ()
      ensures table == STANDARD_FDS
    {
      table := STANDARD_FDS;
    }

    /** `clone`: a new table with the same entries. */
    method Clone() returns (t: FdTable)
      ensures fresh(t) && t.table == table
    {
      t := new FdTable();
      t.table := table;
    }

    /**
     * `push_fd`: store `file` in the lowest empty descriptor, or in a new one at the end when
     * every descriptor is in use, and return the descriptor used. Every other descriptor keeps
     * its file.
     */
    method PushFd(file: FileBox) returns (fd: nat)
      modifies this
      ensures fd == FirstFree(old(table)) && table == Placed(old(table), Some(file))
      ensures fd < |table| && table[fd] == Some(file) && Get(fd) == Some(file)
      ensures |table| == if fd < |old(table)| then |old(table)| else |old(table)| + 1
      ensures forall j :: 0 <= j < |old(table)| && j != fd ==> table[j] == old(table)[j]
    {
      var i := 0;
      while i < |table| && table[i].Some?
        invariant 0 <= i <= |table|
        invariant forall j :: 0 <= j < i ==> table[j].Some?
      {
        i := i + 1;
      }
      FirstFreeIsLowest(table, i);
      if i < |table| {
        table := table[i := Some(file)];
        fd := i;
      } else {
        table := table + [Some(file)];
        fd := |table| - 1;
      }
    }

    /** `close`: take the descriptor's file out, leaving it empty; `None` when out of range. */
    method Close(fd: nat) returns (r: Option<FileBox>)
      modifies this
      ensures fd < |old(table)| ==> r == old(table)[fd] && table == old(table)[fd := None]
      ensures fd >= |old(table)| ==> r == None && table == old(table)
      ensures Get(fd) == None
    {
      if fd < |table| {
        r := table[fd];
        table := table[fd := None];
      } else {
        r := None;
      }
    }

    /** `get`: the file of an open descriptor. */
    function Get(fd: nat): (r: Option<FileBox>)
      reads this
      ensures r.Some? <==> fd < |table| && table[fd].Some?
      ensures r.Some? ==> r == table[fd]
    {
      if fd < |table| then table[fd] else None
    }

    /** `swap`: exchange two descriptors when both are open; otherwise `Err` and no change. */
    method Swap(fd0: nat, fd1: nat) returns (r: Result<(), ()>)
      modifies this
      ensures r.Ok? <==> old(Get(fd0)).Some? && old(Get(fd1)).Some?
      ensures r.Ok? ==> Get(fd0) == old(Get(fd1)) && Get(fd1) == old(Get(fd0))
      ensures r.Ok? ==> table == old(table)[fd0 := old(table)[fd1]][fd1 := old(table)[fd0]]
      ensures r.Err? ==> table == old(table)
    {
      if Get(fd0).Some? && Get(fd1).Some? {
        table := table[fd0 := table[fd1]][fd1 := table[fd0]];
        r := Ok(());
      } else {
        r := Err(());
      }
    }
  }

  /** A push followed by a close of the descriptor it returned gives back the file and frees that descriptor again. */
  lemma PushThenClose(table: seq<Option<FileBox>>, file: FileBox)
    ensures var fd := FirstFree(table);
      var t := Placed(table, Some(file));
      fd < |t| && t[fd] == Some(file) && FirstFree(t[fd := None]) == fd
  {
    var fd := FirstFree(table);
    var t := Placed(table, Some(file));
    FirstFreeIsLowest(t[fd := None], fd);
  }

  /** The trap context a forked child starts from: the parent's, on its own kernel stack, returning 0. */
  function ForkTrapContext(parent: TrapContext, kspBottom: Usize): (cx: TrapContext)
    ensures cx.ksp == kspBottom && SyscallArgs(cx)[0] == 0
    ensures SyscallArgs(cx)[1..] == SyscallArgs(parent)[1..] && SyscallId(cx) == SyscallId(parent)
    ensures cx.sepc == parent.sepc && cx.sstatus == parent.sstatus && cx.satp == parent.satp
    ensures cx.trapHandler == parent.trapHandler && cx.hartid == parent.hartid
    ensures cx.regFile.(a := parent.regFile.a) == parent.regFile
  {
    SetReturnThenArgs(parent.(ksp := kspBottom), 0);
    SetReturn(parent.(ksp := kspBottom), 0)
  }

  class Tcb {
    const pid: int
    const shared: SharedStatus
    var fdTable: FdTable
    var parent: Option<Tcb>
    var children: seq<Tcb>
    var trapCx: TrapContext
    var trapCxBackup: Option<TrapContext>

    /**
     * The block `TaskControlBlock::new` and `fork` build: default shared state, the standard
     * descriptors, no parent, no children, no saved trap context.
     */
    constructor (pid: int, trapCx: TrapContext)
      ensures this.pid == pid && this.trapCx == trapCx
      ensures fresh(shared) && shared.signals == 0 && shared.state == Ready && shared.exitCode == None
      ensures fresh(fdTable) && fdTable.table == STANDARD_FDS
      ensures parent == None && children == [] && trapCxBackup == None
    {
      this.pid := pid;
      this.trapCx := trapCx;
      shared := new SharedStatus();
      fdTable := new FdTable();
      parent := None;
      children := [];
      trapCxBackup := None;
    }

    /** `is_ready`. */
    predicate IsReady()
      reads this, shared
    {
      shared.state == Ready
    }

    /** `exit_code`. */
    function ExitCode(): Option<I32>
      reads this, shared
    {
      shared.exitCode
    }

    /**
     * `exit`: release the descriptors and the children, then publish the exit code and the
     * `Exited` state. Afterwards this task is not ready and reports `code`.
     */
    method Exit(code: I32)
      modifies this, fdTable, shared
      ensures fdTable == old(fdTable) && fdTable.table == [] && children == []
      ensures shared.exitCode == Some(code) && shared.state == Exited && shared.signals == old(shared.signals)
      ensures !IsReady() && ExitCode() == Some(code)
      ensures parent == old(parent) && trapCx == old(trapCx) && trapCxBackup == old(trapCxBackup)
    {
      fdTable.table := [];
      children := [];
      shared.exitCode := Some(code);
      shared.state := Exited;
    }

    /** `set_state`: any state but `Exited`, which only `exit` may set (`assert_ne!` panics). */
    method SetState(state: TaskStatus) returns (r: Outcome<()>)
      modifies shared
      ensures r.Panic? <==> state == Exited
      ensures r.Done? ==> shared.state == state && shared.exitCode == old(shared.exitCode) && shared.signals == old(shared.signals)
      ensures r.Done? ==> (IsReady() <==> state == Ready)
      ensures r.Panic? ==> unchanged(shared)
    {
      if state == Exited {
        return Panic;
      }
      shared.state := state;
      r := Done(());
    }

    /** `find_child`: the position and block of the first child with that pid. */
    function FindChild(pid: int): (r: Option<(nat, Tcb)>)
      reads this
      ensures r.Some? ==> r.value.0 < |children| && children[r.value.0] == r.value.1 && r.value.1.pid == pid
      ensures r.Some? ==> forall j :: 0 <= j < r.value.0 ==> children[j].pid != pid
      ensures r.None? <==> forall j :: 0 <= j < |children| ==> children[j].pid != pid
    {
      FindByPid(children, pid)
    }

    /** `set_parent`: join `parent`'s children and point back at it. */
    method SetParent(parent: Tcb)
      modifies this, parent
      ensures parent.children == old(parent.children) + [this] && this.parent == Some(parent)
      ensures fdTable == old(fdTable) && trapCx == old(trapCx) && trapCxBackup == old(trapCxBackup)
      ensures parent != this ==> children == old(children)
      ensures parent != this ==>
        parent.fdTable == old(parent.fdTable) && parent.trapCx == old(parent.trapCx) && parent.parent == old(parent.parent)
    {
      parent.children := parent.children + [this];
      this.parent := Some(parent);
    }

    /**
     * `fork`, given the pid and kernel stack the source allocates: a child whose trap context is
     * the parent's with the new stack and a zero return value, with a copy of the parent's
     * descriptor table, registered as the parent's last child.
     */
    method Fork(childPid: int, kspBottom: Usize) returns (child: Tcb)
      modifies this
      ensures fresh(child) && fresh(child.shared) && fresh(child.fdTable)
      ensures child.pid == childPid && child.trapCx == ForkTrapContext(trapCx, kspBottom)
      ensures child.fdTable.table == fdTable.table && child.fdTable != fdTable
      ensures child.shared.state == Ready && child.shared.exitCode == None
      ensures child.parent == Some(this) && child.children == []
      ensures children == old(children) + [child]
      ensures fdTable == old(fdTable) && trapCx == old(trapCx) && parent == old(parent)
    {
      child := new Tcb(childPid, ForkTrapContext(trapCx, kspBottom));
      child.fdTable := fdTable.Clone();
      child.SetParent(this);
    }
  }

  /** The first block in `tasks` with that pid and its position. */
  function FindByPid(tasks: seq<Tcb>, pid: int): (r: Option<(nat, Tcb)>)
    ensures r.Some? ==> r.value.0 < |tasks| && tasks[r.value.0] == r.value.1 && r.value.1.pid == pid
    ensures r.Some? ==> forall j :: 0 <= j < r.value.0 ==> tasks[j].pid != pid
    ensures r.None? <==> forall j :: 0 <= j < |tasks| ==> tasks[j].pid != pid
  {
    if tasks == [] then None
    else if tasks[0].pid == pid then Some((0, tasks[0]))
    else match FindByPid(tasks[1..], pid)
      case None => None
      case Some((i, t)) => Some((i + 1, t))
  }

  /** `slots[k]` is the physical byte behind virtual address `start + k`, for every k. */
  ghost predicate SlotsBehind(words: Words, root: nat, start: nat, slots: seq<Slot>)
  {
    forall k :: 0 <= k < |slots| ==> Some(slots[k]) == MmUserBuffer.ByteSlot(words, root, start + k)
  }

  /**
   * `push_args`: lower the user stack pointer by the argument length rounded up to 8 bytes,
   * convert it to a `VirtAddr` (a panic outside the Sv39 range the conversion accepts), then
   * copy the argument bytes to the new stack pointer through the pieces `translated_byte_buffer`
   * returns, one byte per step of the zipped iterators. The unwrap of the translation panics when
   * a page of the range has no leaf entry, the slicing panics on a range that starts inside a
   * page and reaches its end, and the byte iterator panics on the empty first piece of a range
   * that starts on a page boundary and reaches the next one. So the call gets through exactly when
   * the new stack pointer converts and the arguments fit inside one page, short of its end, whose
   * translation exists.
   */
  method PushArgs(memorySet: MmPageTable.PageTable, usp: Usize, args: seq<bv8>, ram: PhysMem) returns (r: Outcome<Usize>)
    requires |args| < USIZE_MOD
    requires WrappingAdd(WrappingSub(usp, AlignCeil(|args|, 8).value), |args|) <= USIZE_MOD - PAGE_SIZE
    modifies ram
    ensures var sp := WrappingSub(usp, AlignCeil(|args|, 8).value);
      var end := WrappingAdd(sp, |args|);
      && (r.Done? <==>
        MmAddress.VirtAddrFromAsWritten(sp).Done? &&
        (forall a :: sp <= a < end ==> MmUserBuffer.ByteSlot(old(ram.words), memorySet.rootPpn, a).Some?) &&
        MmUserBuffer.OnePageRange(sp, end))
      && (r.Done? ==>
        var pieces := MmUserBuffer.Pieces(old(ram.words), memorySet.rootPpn, sp, end);
        && pieces.Done?
        && var slots := MmUserBuffer.Flatten(pieces.value);
        && r.value == sp
        && |slots| == (if sp + |args| < USIZE_MOD then |args| else 0)
        && SlotsBehind(old(ram.words), memorySet.rootPpn, sp, slots)
        && ram.bytes == MmUserBuffer.Store(old(ram.bytes), slots, args[..|slots|]))
    ensures ram.words == old(ram.words)
  {
    var allLen := AlignCeil(|args|, 8).value;
    var sp := WrappingSub(usp, allLen);
    var va := MmAddress.VirtAddrFromAsWritten(sp);
    if va.Panic? {
      return Panic;
    }
    ghost var words, root, end := ram.words, memorySet.rootPpn, WrappingAdd(sp, |args|);
    var buffer := MmUserBuffer.TranslatedByteBuffer(memorySet, ram, va.value, |args|);
    MmUserBuffer.AsWrittenNonEmptyIff(words, root, sp, end);
    MmUserBuffer.PiecesAsWrittenPanicIff(words, root, sp, end);
    if buffer.Panic? {
      return Panic;
    }
    if !MmUserBuffer.OnePageRange(sp, end) {
      assert !MmUserBuffer.NonEmpty(buffer.value);
      MmUserBuffer.PiecesAsWrittenShape(words, root, sp, end);
      assert buffer.value != [] && MmUserBuffer.Len(buffer.value[0]) == 0;
    }
    var n := ZipCopy(buffer.value, args, ram);
    if n.Panic? {
      return Panic;
    }
    ghost var slots := MmUserBuffer.Flatten(buffer.value);
    MmUserBuffer.PiecesCover(words, root, sp, end);
    assert SlotsBehind(words, root, sp, slots);
    assert slots[..n.value] == slots;
    r := Done(sp);
  }

  /**
   * Arguments whose length is a multiple of 8, pushed on a stack pointer at a page boundary, end
   * exactly on that boundary, so `push_args` as written panics on them.
   */
  lemma AlignedArgsAtPageTopPanic(usp: Usize, len: nat)
    requires usp % PAGE_SIZE == 0 && 0 < len <= usp && len % 8 == 0
    ensures AlignCeil(len, 8) == Done(len)
    ensures var sp := WrappingSub(usp, len); !MmUserBuffer.OnePageRange(sp, WrappingAdd(sp, len))
  {
    var m := len - 1;
    assert m % 8 == 7;
  }

  /**
   * The copy loop of `push_args`: `zip` asks the buffer's byte iterator first and the argument
   * bytes second, storing each argument byte at the next buffer byte, until either runs out. The
   * byte iterator panics on an empty piece; over non-empty pieces the loop cannot panic.
   */
  method ZipCopy(buffers: seq<MmUserBuffer.Piece>, args: seq<bv8>, ram: PhysMem) returns (r: Outcome<nat>)
    modifies ram
    ensures MmUserBuffer.NonEmpty(buffers) ==> r.Done?
    ensures buffers != [] && MmUserBuffer.Len(buffers[0]) == 0 ==> r.Panic?
    ensures r.Done? ==> r.value == MmUserBuffer.Min(|MmUserBuffer.Flatten(buffers)|, |args|)
    ensures r.Done? ==> ram.bytes == MmUserBuffer.Store(old(ram.bytes), MmUserBuffer.Flatten(buffers)[..r.value], args[..r.value])
    ensures ram.words == old(ram.words)
  {
    ghost var f := MmUserBuffer.Flatten(buffers);
    var handle := new MmUserBuffer.BufferHandle(buffers);
    var it := new MmUserBuffer.UserBufferIterator(handle);
    var n := 0;
    while true
      invariant 0 <= n <= |f| && n <= |args|
      invariant it.Valid() && it.buffers == buffers
      invariant it.Remaining() == f[n..]
      invariant buffers != [] && MmUserBuffer.Len(buffers[0]) == 0 ==> n == 0 && it.currentBuffer == 0 && it.currentIdx == 0
      invariant ram.bytes == MmUserBuffer.Store(old(ram.bytes), f[..n], args[..n])
      invariant ram.words == old(ram.words)
      decreases |args| - n
    {
      var step := ZipStep(it, ram, f, n, args, old(ram.bytes));
      if step.Panic? {
        return Panic;
      }
      if step.value {
        break;
      }
      n := n + 1;
    }
    r := Done(n);
  }

  /**
   * One turn of the copy loop: ask the byte iterator for the next buffer byte, then the arguments
   * for the next byte; stop when either has none, otherwise store it.
   */
  method ZipStep(it: MmUserBuffer.UserBufferIterator, ram: PhysMem,
                 ghost f: seq<Slot>, n: nat, args: seq<bv8>, ghost bytes0: Bytes) returns (r: Outcome<bool>)
    requires it.Valid() && n <= |f| && n <= |args| && it.Remaining() == f[n..]
    requires ram.bytes == MmUserBuffer.Store(bytes0, f[..n], args[..n])
    modifies it, ram
    ensures ram.words == old(ram.words)
    ensures MmUserBuffer.NonEmpty(old(it.buffers)) ==> r.Done?
    ensures old(it.currentBuffer) < |old(it.buffers)| && old(it.currentIdx) >= MmUserBuffer.Len(old(it.buffers)[old(it.currentBuffer)]) ==>
      r.Panic?
    ensures r.Done? ==> it.Valid() && it.buffers == old(it.buffers)
    ensures r == Done(true) ==> (n == |f| || n == |args|) && ram.bytes == old(ram.bytes)
    ensures r == Done(false) ==>
      && n < |f| && n < |args| && it.Remaining() == f[n + 1..]
      && ram.bytes == MmUserBuffer.Store(bytes0, f[..n + 1], args[..n + 1])
  {
    var dst := it.Next();
    if dst.Panic? {
      return Panic;
    }
    if dst.value.None? {
      assert f[n..] == [];
      return Done(true);
    }
    if n == |args| {
      return Done(true);
    }
    MmUserBuffer.StorePrefix(bytes0, f, args, n);
    ram.WriteByte(dst.value.value, args[n]);
    assert f[n..][1..] == f[n + 1..];
    r := Done(false);
  }
}
