/**
 * Signal delivery of `src/task/signal.rs`: `handle_signals` scans the signals pending on the
 * current thread and enabled in its process's mask, and `set_user_signal_sret` redirects the
 * thread to a user handler.
 *
 * `blocking_current`, which parks the thread until SIGCONT arrives, belongs to the scheduler and
 * is recorded here as the outcome `Blocked`.
 */
module SignalHandle {
  import opened Wrappers
  import opened Sv39
  import opened TrapCx
  import opened Signals
  import Thread

  /** What `handle_signals` did to the current thread. */
  datatype Handled = Nothing | Blocked | Redirected(signal: nat)

  /**
   * The trap context that enters a user handler: it resumes at `handler` with the signal number
   * as its first argument; every other register and field is the interrupted one.
   */
  function Redirect(cx: TrapContext, handler: Usize, signal: Usize): (r: TrapContext)
    ensures r.sepc == handler && SyscallArgs(r)[0] == signal
    ensures forall i :: 1 <= i < 6 ==> SyscallArgs(r)[i] == SyscallArgs(cx)[i]
    ensures r.(sepc := cx.sepc, regFile := cx.regFile) == cx
    ensures r.regFile.(a := cx.regFile.a) == cx.regFile
  {
    SetReturnThenArgs(cx.(sepc := handler), signal);
    SetReturn(cx.(sepc := handler), signal)
  }

  /** The saved context and the redirected one differ only in `sepc` and a0: the backup restores the rest. */
  lemma RedirectKeepsBackupRestorable(cx: TrapContext, handler: Usize, signal: Usize)
    ensures Redirect(cx, handler, signal).(sepc := cx.sepc).(regFile := cx.regFile) == cx
  {
  }

  /**
   * `set_user_signal_sret`: look up the handler (`actions[signal]` panics past signal 31). With
   * handler 0 nothing changes. Otherwise mask further signals, toggle the signal's pending bit,
   * keep the current trap context as the backup, and enter the handler.
   */
  method SetUserSignalSret(task: Thread.Tcb, signal: Usize) returns (r: Outcome<()>)
    modifies task, task.shared, task.process.signal
    ensures r.Panic? <==> signal > MAX_SIG
    ensures r.Panic? ==> unchanged(task, task.shared, task.process.signal)
    ensures r.Done? && old(task.process.signal.actions)[signal] == 0 ==>
      unchanged(task, task.shared, task.process.signal)
    ensures r.Done? && old(task.process.signal.actions)[signal] != 0 ==>
      var handler := old(task.process.signal.actions)[signal];
      && !task.process.signal.globalMask
      && task.process.signal.mask == old(task.process.signal.mask)
      && task.process.signal.actions == old(task.process.signal.actions)
      && task.shared.signals == old(task.shared.signals) ^ FlagOf(signal)
      && task.shared.state == old(task.shared.state) && task.shared.exitCode == old(task.shared.exitCode)
      && task.trapCxBackup == Some(old(task.trapCx))
      && task.trapCx == Redirect(old(task.trapCx), handler, signal)
      && task.trapCxVa == old(task.trapCxVa)
  {
    var process := task.process;
    var handler := ActionsIndex(process.signal.actions, signal);
    if handler.Panic? {
      return Panic;
    }
    if handler.value != 0 {
      process.signal.globalMask := false;
      task.shared.signals := task.shared.signals ^ FlagOf(signal);
      task.trapCxBackup := Some(task.trapCx);
      task.trapCx := Redirect(task.trapCx, handler.value, signal);
    }
    r := Done(());
  }

  /** The signals `handle_signals` acts on, taken once before its scan. */
  function Enabled(signals: SignalFlags, mask: SignalFlags): SignalFlags
  {
    signals & mask
  }

  /** `contains`: every bit of `flag` is set. */
  predicate Contains(set_: SignalFlags, flag: SignalFlags)
  {
    set_ & flag == flag
  }

  /**
   * `handle_signals`: scan signals 0, 18 and 19 in that order among those pending and enabled.
   * Signal 0 redirects to its user handler and ends the scan; SIGCONT (18) is left to the
   * trigger that waits for it; SIGSTOP (19) blocks the thread until SIGCONT.
   */
  method HandleSignals(task: Thread.Tcb) returns (r: Handled)
    modifies task, task.shared, task.process.signal
    ensures var enabled := Enabled(old(task.shared.signals), old(task.process.signal.mask));
      && (Contains(enabled, SIGDEF) ==> r == Redirected(0))
      && (!Contains(enabled, SIGDEF) && Contains(enabled, SIGSTOP) ==> r == Blocked)
      && (!Contains(enabled, SIGDEF) && !Contains(enabled, SIGSTOP) ==> r == Nothing)
    ensures r != Redirected(0) || old(task.process.signal.actions)[0] == 0 ==>
      unchanged(task, task.shared, task.process.signal)
    ensures r == Redirected(0) && old(task.process.signal.actions)[0] != 0 ==>
      && !task.process.signal.globalMask
      && task.shared.signals == old(task.shared.signals) ^ SIGDEF
      && task.trapCxBackup == Some(old(task.trapCx))
      && task.trapCx == Redirect(old(task.trapCx), old(task.process.signal.actions)[0], 0)
  {
    var enabled := Enabled(task.shared.signals, task.process.signal.mask);
    var order: seq<nat> := [0, 18, 19];
    FlagOfDefined(0);
    FlagOfDefined(18);
    FlagOfDefined(19);
    var blocked := false;
    for k := 0 to 3
      invariant k >= 1 ==> !Contains(enabled, SIGDEF)
      invariant blocked <==> k == 3 && Contains(enabled, SIGSTOP)
      invariant unchanged(task, task.shared, task.process.signal)
    {
      var signal := order[k];
      var flag := FlagOf(signal);
      if Contains(enabled, flag) {
        if flag == SIGSTOP {
          blocked := true;
        } else if flag == SIGCONT {
        } else {
          var _ := SetUserSignalSret(task, signal);
          return Redirected(signal);
        }
      }
    }
    r := if blocked then Blocked else Nothing;
  }
}
