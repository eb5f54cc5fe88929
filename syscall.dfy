/**
 * System-call dispatch of `src/syscall/mod.rs`: the call numbers, and how the number in a7 and
 * the six argument registers become a call of one handler with typed arguments.
 *
 * The handlers themselves live in `fs.rs`, `process.rs` and `sync.rs`, which are not part of this
 * model; `Decode` yields the request a handler would receive, and `Syscall` takes the handlers as
 * a function parameter. Address arguments pass through `VirtAddr::from`, which panics on an
 * address outside the Sv39 range.
 */
module Syscall {
  import opened Wrappers
  import opened Sv39
  import MmAddress

  const SYSCALL_DUP: nat := 24
  const SYSCALL_OPEN: nat := 56
  const SYSCALL_CLOSE: nat := 57
  const SYSCALL_PIPE: nat := 59
  const SYSCALL_READ: nat := 63
  const SYSCALL_WRITE: nat := 64
  const SYSCALL_EXIT: nat := 93
  const SYSCALL_SLEEP: nat := 101
  const SYSCALL_YIELD: nat := 124
  const SYSCALL_KILL: nat := 129
  const SYSCALL_SIGACTION: nat := 134
  const SYSCALL_SIGPROCMASK: nat := 135
  const SYSCALL_SIGRETURN: nat := 139
  const SYSCALL_TIME: nat := 169
  const SYSCALL_GET_PID: nat := 172
  const SYSCALL_MUNMAP: nat := 215
  const SYSCALL_FORK: nat := 220
  const SYSCALL_EXECVE: nat := 221
  const SYSCALL_MMAP: nat := 222
  const SYSCALL_WAITPID: nat := 260

  const EXEC_SUCCEE: int := 0
  const EXEC_FAIL: int := -1

  /** The call numbers the `match` routes to a handler. */
  const ROUTED: set<nat> := {
    SYSCALL_DUP, SYSCALL_OPEN, SYSCALL_CLOSE, SYSCALL_PIPE, SYSCALL_READ, SYSCALL_WRITE,
    SYSCALL_EXIT, SYSCALL_YIELD, SYSCALL_TIME, SYSCALL_GET_PID, SYSCALL_SLEEP, SYSCALL_MUNMAP,
    SYSCALL_MMAP, SYSCALL_FORK, SYSCALL_EXECVE, SYSCALL_WAITPID }

  /** A `u32` argument: `args[i] as u32` keeps the low 32 bits. */
  type U32 = x: nat | x < 0x1_0000_0000

  /** The handler call a system-call number selects, with its arguments as the handler types them. */
  datatype Request =
    | Dup(fd: Usize)
    | Open(path: Usize, len: Usize, flags: U32)
    | Close(fd: Usize)
    | Pipe(pipeAt: Usize)
    | Read(fd: Usize, buf: Usize, len: Usize)
    | Write(fd: Usize, buf: Usize, len: Usize)
    | Exit(code: I32)
    | Yield
    | GetTime
    | GetPid
    | Sleep(ms: Usize)
    | Munmap(va: Usize, len: Usize)
    | Mmap(va: Usize, len: Usize, perm: Usize, fd: Usize)
    | Fork
    | Exec(path: Usize, len: Usize, flags: U32)
    | Waitpid(pid: int, statusAt: Usize)
    | Unsupported(id: Usize)

  /** `args[i].into()` for a `VirtAddr` argument. */
  function Va(v: Usize): Outcome<Usize>
  {
    MmAddress.VirtAddrFromAsWritten(v)
  }

  /**
   * The `match` of `syscall`: the request for call `id` with argument registers `args`; a panic
   * when an address argument is outside the Sv39 range.
   */
  function Decode(id: Usize, args: seq<Usize>): (r: Outcome<Request>)
    requires |args| == 6
    ensures r.Done? && r.value.Unsupported? <==> id !in ROUTED
    ensures r.Panic? ==> id in {SYSCALL_OPEN, SYSCALL_MUNMAP, SYSCALL_MMAP, SYSCALL_EXECVE}
  {
    if id == SYSCALL_DUP then Done(Dup(args[0]))
    else if id == SYSCALL_OPEN then
      (match Va(args[0]) case Panic => Panic case Done(p) => Done(Open(p, args[1], args[2] % 0x1_0000_0000)))
    else if id == SYSCALL_CLOSE then Done(Close(args[0]))
    else if id == SYSCALL_PIPE then Done(Pipe(args[0]))
    else if id == SYSCALL_READ then Done(Read(args[0], args[1], args[2]))
    else if id == SYSCALL_WRITE then Done(Write(args[0], args[1], args[2]))
    else if id == SYSCALL_EXIT then Done(Exit(AsI32(args[0])))
    else if id == SYSCALL_YIELD then Done(Yield)
    else if id == SYSCALL_TIME then Done(GetTime)
    else if id == SYSCALL_GET_PID then Done(GetPid)
    else if id == SYSCALL_SLEEP then Done(Sleep(args[0]))
    else if id == SYSCALL_MUNMAP then
      (match Va(args[0]) case Panic => Panic case Done(va) => Done(Munmap(va, args[1])))
    else if id == SYSCALL_MMAP then
      (match Va(args[0]) case Panic => Panic case Done(va) => Done(Mmap(va, args[1], args[2], args[3])))
    else if id == SYSCALL_FORK then Done(Fork)
    else if id == SYSCALL_EXECVE then
      (match Va(args[0]) case Panic => Panic case Done(p) => Done(Exec(p, args[1], args[2] % 0x1_0000_0000)))
    else if id == SYSCALL_WAITPID then Done(Waitpid(AsIsize(args[0]), args[1]))
    else Done(Unsupported(id))
  }

  /** The call number of a request: the constant its `match` arm names. */
  function Number(req: Request): (id: Usize)
  {
    match req
    case Dup(_) => SYSCALL_DUP
    case Open(_, _, _) => SYSCALL_OPEN
    case Close(_) => SYSCALL_CLOSE
    case Pipe(_) => SYSCALL_PIPE
    case Read(_, _, _) => SYSCALL_READ
    case Write(_, _, _) => SYSCALL_WRITE
    case Exit(_) => SYSCALL_EXIT
    case Yield => SYSCALL_YIELD
    case GetTime => SYSCALL_TIME
    case GetPid => SYSCALL_GET_PID
    case Sleep(_) => SYSCALL_SLEEP
    case Munmap(_, _) => SYSCALL_MUNMAP
    case Mmap(_, _, _, _) => SYSCALL_MMAP
    case Fork => SYSCALL_FORK
    case Exec(_, _, _) => SYSCALL_EXECVE
    case Waitpid(_, _) => SYSCALL_WAITPID
    case Unsupported(id) => id
  }

  /** The argument registers a user program loads for a request; unused registers are zero. */
  function Args(req: Request): (args: seq<Usize>)
    requires Encodable(req)
    ensures |args| == 6
  {
    match req
    case Dup(fd) => [fd, 0, 0, 0, 0, 0]
    case Open(p, len, flags) => [p, len, flags, 0, 0, 0]
    case Close(fd) => [fd, 0, 0, 0, 0, 0]
    case Pipe(p) => [p, 0, 0, 0, 0, 0]
    case Read(fd, buf, len) => [fd, buf, len, 0, 0, 0]
    case Write(fd, buf, len) => [fd, buf, len, 0, 0, 0]
    case Exit(code) => [IsizeAsUsize(code), 0, 0, 0, 0, 0]
    case Sleep(ms) => [ms, 0, 0, 0, 0, 0]
    case Munmap(va, len) => [va, len, 0, 0, 0, 0]
    case Mmap(va, len, perm, fd) => [va, len, perm, fd, 0, 0]
    case Exec(p, len, flags) => [p, len, flags, 0, 0, 0]
    case Waitpid(pid, at) => [IsizeAsUsize(pid), at, 0, 0, 0, 0]
    case _ => [0, 0, 0, 0, 0, 0]
  }

  /** A request a user program can issue: addresses in the Sv39 range, a pid that fits `isize`. */
  predicate Encodable(req: Request)
  {
    match req
    case Open(p, _, _) => Va(p).Done?
    case Exec(p, _, _) => Va(p).Done?
    case Munmap(va, _) => Va(va).Done?
    case Mmap(va, _, _, _) => Va(va).Done?
    case Waitpid(pid, _) => -0x8000_0000_0000_0000 <= pid < 0x8000_0000_0000_0000
    case Unsupported(id) => id !in ROUTED
    case _ => true
  }

  lemma AsI32OfWidened(code: I32)
    ensures AsI32(IsizeAsUsize(code)) == code
  {
    var v := IsizeAsUsize(code);
    if code < 0 {
      assert v == code + USIZE_MOD;
      assert v % I32_MOD == code + I32_MOD by {
        assert USIZE_MOD == I32_MOD * I32_MOD;
        assert v == (code + I32_MOD) + (I32_MOD - 1) * I32_MOD;
      }
    }
  }

  /** Every request a program can issue reaches the handler it names, with the arguments it passed. */
  lemma {:induction false} DecodeArgs(req: Request)
    requires Encodable(req)
    ensures Decode(Number(req), Args(req)) == Done(req)
  {
    match req
    case Exit(code) => AsI32OfWidened(code);
    case _ =>
  }

  /**
   * The other direction: a decoded request names the call number it came from, and it depends on
   * no register it does not use.
   */
  lemma {:induction false} ArgsDecode(id: Usize, args: seq<Usize>)
    requires |args| == 6 && Decode(id, args).Done?
    ensures Encodable(Decode(id, args).value)
    ensures Number(Decode(id, args).value) == id
    ensures Decode(id, Args(Decode(id, args).value)) == Decode(id, args)
  {
    var req := Decode(id, args).value;
    if id == SYSCALL_EXIT {
      AsI32OfWidened(req.code);
    }
  }

  /**
   * `syscall`: run the handler of a routed call, and answer -1 to any other number. `handler`
   * stands for the handler methods outside this model.
   */
  function Syscall(id: Usize, args: seq<Usize>, handler: Request -> int): (r: Outcome<int>)
    requires |args| == 6
    ensures id !in ROUTED ==> r == Done(EXEC_FAIL)
    ensures r.Panic? <==> Decode(id, args).Panic?
    ensures r.Done? && id in ROUTED ==> r.value == handler(Decode(id, args).value)
  {
    match Decode(id, args)
    case Panic => Panic
    case Done(Unsupported(_)) => Done(EXEC_FAIL)
    case Done(req) => Done(handler(req))
  }

  /**
   * `kill`, `sigaction`, `sigprocmask` and `sigreturn` have call numbers but no arm in the
   * `match`: they fall through to -1.
   */
  lemma SignalCallsUnrouted(args: seq<Usize>, handler: Request -> int)
    requires |args| == 6
    ensures forall id :: id in {SYSCALL_KILL, SYSCALL_SIGACTION, SYSCALL_SIGPROCMASK, SYSCALL_SIGRETURN} ==>
      Syscall(id, args, handler) == Done(EXEC_FAIL)
  {
  }

  /**
   * `syscall_unwarp!`: the value of `Ok`, or the early return of `EXEC_FAIL` from the enclosing
   * handler on `Err` (`Fail`).
   */
  datatype Unwrapped<T> = Value(value: T) | Fail(code: int)

  function SyscallUnwarp<T, E>(r: Result<T, E>): (u: Unwrapped<T>)
    ensures u.Value? <==> r.Ok?
    ensures u.Value? ==> u.value == r.value
    ensures u.Fail? ==> u.code == EXEC_FAIL
  {
    match r
    case Ok(v) => Value(v)
    case Err(_) => Fail(EXEC_FAIL)
  }
}
