/**
 * The signal state of `src/task/signal.rs`: the three defined signal bits, the table of user
 * handler addresses, and the per-process `Signal` record (global mask, mask, actions).
 */
module Signals {
  import opened Wrappers
  import opened Sv39

  const MAX_SIG: nat := 31

  /** `SignalFlags`, a `u32` bit set of which only bits 0, 18 and 19 are defined. */
  type SignalFlags = bv32

  const SIGDEF: SignalFlags := 0x1
  const SIGCONT: SignalFlags := 0x4_0000
  const SIGSTOP: SignalFlags := 0x8_0000
  const ALL_FLAGS: SignalFlags := SIGDEF | SIGCONT | SIGSTOP

  /** `from_bits_truncate`: drop the undefined bits. */
  function FromBitsTruncate(bits: bv32): SignalFlags
  {
    bits & ALL_FLAGS
  }

  /** The flag value `from_bits_truncate(1 << n)` that stands for signal number `n`. */
  function FlagOf(n: nat): SignalFlags
    requires n <= MAX_SIG
  {
    FromBitsTruncate(1 << n)
  }

  /**
   * Only signal numbers 0, 18 and 19 have a flag: every other number truncates to the empty set,
   * so toggling or testing its bit does nothing.
   */
  lemma FlagOfDefined(n: nat)
    requires n <= MAX_SIG
    ensures n == 0 ==> FlagOf(n) == SIGDEF
    ensures n == 18 ==> FlagOf(n) == SIGCONT
    ensures n == 19 ==> FlagOf(n) == SIGSTOP
    ensures n != 0 && n != 18 && n != 19 ==> FlagOf(n) == 0
  {
    var b: bv32 := 1 << n;
    assert b == 1 << (n as bv5);
  }

  /** `is_handle_by_kernel`: the flag is SIGSTOP or SIGCONT. */
  function IsHandleByKernel(flag: SignalFlags): bool
  {
    flag in [SIGSTOP, SIGCONT]
  }

  /** The kernel handles signals 18 and 19 itself and leaves every other number to the user. */
  lemma HandledByKernelExactly(n: nat)
    requires n <= MAX_SIG
    ensures IsHandleByKernel(FlagOf(n)) <==> n == 18 || n == 19
  {
    FlagOfDefined(n);
  }

  /** `SignalActions`: one handler address per signal number, 0 meaning no handler. */
  type ActionTable = t: seq<Usize> | |t| == MAX_SIG + 1 witness seq(MAX_SIG + 1, _ => 0)

  /** `SignalActions::get`: the handler of an in-range signal number. */
  function ActionsGet(table: ActionTable, index: Usize): (r: Option<Usize>)
    ensures r.None? <==> index > MAX_SIG
    ensures r.Some? ==> r.value == table[index]
  {
    if index < |table| then Some(table[index]) else None
  }

  /** `actions[index]`: the same lookup through `Index`, which panics out of range. */
  function ActionsIndex(table: ActionTable, index: Usize): (r: Outcome<Usize>)
    ensures r.Panic? <==> ActionsGet(table, index).None?
    ensures r.Done? ==> Some(r.value) == ActionsGet(table, index)
  {
    if index < |table| then Done(table[index]) else Panic
  }

  /** `Signal`: the per-process signal record. */
  class Signal {
    /** Cleared while a user handler runs, so that handlers do not nest. */
    var globalMask: bool
    var mask: SignalFlags
    var actions: ActionTable

    /** `Signal::default()`. */
    constructor ()
      ensures !globalMask && mask == 0 && actions == seq(MAX_SIG + 1, _ => 0)
    {
      globalMask := false;
      mask := 0;
      actions := seq(MAX_SIG + 1, _ => 0);
    }
  }
}
