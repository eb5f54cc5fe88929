/**
 * The saved user state of `src/trap/context.rs`: the register file, `sstatus`, the return
 * address `sepc`, and the kernel-side values the trap entry code reads (kernel stack pointer,
 * kernel `satp`, handler address, hart id).
 *
 * `TrapContext` is a `Copy` record in the source (it is copied into a backup for signal delivery
 * and into the child on `fork`), so it is a value here, and the setters that take `&mut self`
 * are functions that return the updated value.
 */
module TrapCx {
  import opened Sv39

  type Regs8 = s: seq<Usize> | |s| == 8 witness [0, 0, 0, 0, 0, 0, 0, 0]
  type Regs12 = s: seq<Usize> | |s| == 12 witness [0, 0, 0, 0, 0, 0, 0, 0, 0, 0, 0, 0]
  type Regs7 = s: seq<Usize> | |s| == 7 witness [0, 0, 0, 0, 0, 0, 0]

  /** `sstatus.SPP`: the privilege level the trap came from. */
  datatype Privilege = User | Supervisor

  /** `sstatus`: its SPP bit, and the other bits as read from the CSR. */
  datatype Sstatus = Sstatus(spp: Privilege, otherBits: Usize)

  /** `RegFile`: x1..x31 grouped as ra, sp, gp, tp, a0..a7, s0..s11, t0..t6. */
  datatype RegFile = RegFile(ra: Usize, sp: Usize, gp: Usize, tp: Usize, a: Regs8, s: Regs12, t: Regs7)

  datatype TrapContext = TrapContext(
    regFile: RegFile,
    sstatus: Sstatus,
    sepc: Usize,
    ksp: Usize,
    satp: Usize,
    trapHandler: Usize,
    hartid: Usize)

  /** `RegFile::default()`: every register zero. */
  const ZERO_REGS: RegFile := RegFile(0, 0, 0, 0, [0, 0, 0, 0, 0, 0, 0, 0], [0, 0, 0, 0, 0, 0, 0, 0, 0, 0, 0, 0], [0, 0, 0, 0, 0, 0, 0])

  /**
   * `TrapContext::init`: a context that returns to user mode at `entry` with stack pointer `usp`.
   * `current` is the `sstatus` CSR at the time of the call, and `handler` the address of
   * `trap_handler`, both of which the source reads from the machine.
   */
  function Init(entry: Usize, usp: Usize, ksp: Usize, satp: Usize, handler: Usize, current: Sstatus): (cx: TrapContext)
    ensures cx.regFile.sp == usp && cx.sepc == entry
    ensures cx.ksp == ksp && cx.satp == satp && cx.trapHandler == handler && cx.hartid == 0
    ensures cx.sstatus == current.(spp := User)
    ensures cx.regFile.ra == 0 && cx.regFile.gp == 0 && cx.regFile.tp == 0
    ensures forall i :: 0 <= i < 8 ==> cx.regFile.a[i] == 0
    ensures forall i :: 0 <= i < 12 ==> cx.regFile.s[i] == 0
    ensures forall i :: 0 <= i < 7 ==> cx.regFile.t[i] == 0
  {
    TrapContext(ZERO_REGS.(sp := usp), current.(spp := User), entry, ksp, satp, handler, 0)
  }

  /** `set_return`: the value the user sees in a0; no other register or field moves. */
  function SetReturn(cx: TrapContext, v: Usize): (r: TrapContext)
    ensures r.regFile.a[0] == v
    ensures forall i :: 1 <= i < 8 ==> r.regFile.a[i] == cx.regFile.a[i]
    ensures r == cx.(regFile := cx.regFile.(a := r.regFile.a))
  {
    cx.(regFile := cx.regFile.(a := cx.regFile.a[0 := v]))
  }

  /** `syscall_id`: the call number travels in a7. */
  function SyscallId(cx: TrapContext): Usize
  {
    cx.regFile.a[7]
  }

  /** `syscall_args`: the six argument registers a0..a5, in order. */
  function SyscallArgs(cx: TrapContext): (args: seq<Usize>)
    ensures |args| == 6
    ensures forall i :: 0 <= i < 6 ==> args[i] == cx.regFile.a[i]
  {
    cx.regFile.a[..6]
  }

  /** `set_args`: a0 holds the address of the argument string and a1 its length; nothing else moves. */
  function SetArgs(cx: TrapContext, ptr: Usize, len: Usize): (r: TrapContext)
    ensures r.regFile.a[0] == ptr && r.regFile.a[1] == len
    ensures forall i :: 2 <= i < 8 ==> r.regFile.a[i] == cx.regFile.a[i]
    ensures r == cx.(regFile := cx.regFile.(a := r.regFile.a))
  {
    cx.(regFile := cx.regFile.(a := cx.regFile.a[0 := ptr][1 := len]))
  }

  /**
   * After `set_return(v)` the first system-call argument reads back as `v`, the other five and the
   * call number are as before: the result of a call overwrites its first argument and nothing else.
   */
  lemma SetReturnThenArgs(cx: TrapContext, v: Usize)
    ensures SyscallArgs(SetReturn(cx, v)) == [v] + SyscallArgs(cx)[1..]
    ensures SyscallId(SetReturn(cx, v)) == SyscallId(cx)
    ensures SetReturn(SetReturn(cx, v), cx.regFile.a[0]) == cx
  {
    var r := SetReturn(cx, v);
    assert r.regFile.a[0 := cx.regFile.a[0]] == cx.regFile.a;
  }

  /** After `set_args` the program sees the pointer and the length as its first two arguments. */
  lemma SetArgsThenArgs(cx: TrapContext, ptr: Usize, len: Usize)
    ensures SyscallArgs(SetArgs(cx, ptr, len)) == [ptr, len] + SyscallArgs(cx)[2..]
    ensures SyscallId(SetArgs(cx, ptr, len)) == SyscallId(cx)
  {
  }
}
