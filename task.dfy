/**
 * The single-address-space task tree of `src/task/task.rs`: a task has a state, a trap context,
 * the context its first switch restores, a descriptor table, a parent link and the children it
 * owns. Exiting a task exits its whole subtree.
 *
 * The address space a task owns and the physical page its trap context lives in are not held
 * here: the trap context is a field of this task (its contents), and the space's token is a
 * parameter. `kernel_stack_position`, `init_app_trap_return`, the kernel token and the kernel
 * stack registration with `KERNEL` come from outside these files.
 */
module Task {
  import opened Wrappers
  import opened Sv39
  import opened TrapCx
  import TaskCx
  import TaskPid
  import TaskBlock

  /** `TaskStatus`; a blocked task holds the trigger it waits on, here only told apart by a number. */
  datatype TaskStatus = Exited(code: I32) | Ready | Running | Blocked(tigger: nat)

  /** What `new` reads from the running kernel. */
  datatype Machine = Machine(
    kernelToken: Usize, trapHandler: Usize, sstatus: Sstatus, trapReturn: Usize, kstackBottom: int -> Usize)

  class TaskControlBlock {
    const pid: int
    var state: TaskStatus
    var trapCx: TrapContext
    var taskCx: TaskCx.TaskContext
    var fdTable: seq<Option<TaskBlock.FileBox>>
    var parent: Option<TaskControlBlock>
    var children: seq<TaskControlBlock>
    /** This task and every task below it. */
    ghost var Repr: set<TaskControlBlock>

    /** The children and `Repr` form a tree below this task. */
    ghost predicate Valid()
      reads this`Repr, this`children, Repr`Repr, Repr`children
      decreases Repr, 1
    {
      Tree(this, children, Repr)
    }

    /** Every exited task in the tree has released its children, as `exit` leaves it. */
    ghost predicate ExitedAreLeaves()
      reads this`Repr, Repr`state, Repr`children
    {
      forall n :: n in Repr && n.state.Exited? ==> n.children == []
    }

    /**
     * `new`: a fresh pid, a trap context entering `entry` on stack `usp` with the kernel stack of
     * that pid, a first switch into `trap_return` with the space's token `satp`, `Ready`, fds 0
     * and 1 on the standard streams, no parent and no children.
     */
    constructor (pids: TaskPid.PidAllocator, entry: Usize, usp: Usize, satp: Usize, machine: Machine)
      requires pids.Valid()
      modifies pids
      ensures pids.Valid() && pid !in old(pids.live) && pids.live == old(pids.live) + {pid}
      ensures trapCx == Init(entry, usp, machine.kstackBottom(pid), machine.kernelToken, machine.trapHandler, machine.sstatus)
      ensures taskCx == TaskCx.GotoTrapReturn(machine.kstackBottom(pid), satp, machine.trapReturn)
      ensures state == TaskStatus.Ready && fdTable == [Some(TaskBlock.Stdin), Some(TaskBlock.Stdout)]
      ensures parent == None && children == []
      ensures Valid() && Repr == {this}
    {
      var h := pids.Alloc();
      var ksp := machine.kstackBottom(h.pid);
      pid := h.pid;
      var cx := Init(entry, usp, ksp, machine.kernelToken, machine.trapHandler, machine.sstatus);
      trapCx := cx;
      taskCx := TaskCx.GotoTrapReturn(cx.ksp, satp, machine.trapReturn);
      state := TaskStatus.Ready;
      fdTable := [Some(TaskBlock.Stdin), Some(TaskBlock.Stdout)];
      parent := None;
      children := [];
      Repr := {this};
    }

    /** `set_state`: any state but `Exited`, which only `exit` may set (a panic). */
    method SetState(s: TaskStatus) returns (r: Outcome<()>)
      modifies this
      ensures r.Panic? <==> s.Exited?
      ensures r.Panic? ==> unchanged(this)
      ensures r.Done? ==> state == s && ExitCode() == None
      ensures trapCx == old(trapCx) && children == old(children) && fdTable == old(fdTable)
      ensures parent == old(parent) && Repr == old(Repr)
    {
      if s.Exited? {
        return Panic;
      }
      state := s;
      r := Done(());
    }

    /** `run`: record the hart in the trap context and mark this task `Running`. */
    method Run(hartid: Usize)
      modifies this
      ensures state == Running && trapCx == old(trapCx).(hartid := hartid)
      ensures children == old(children) && fdTable == old(fdTable) && parent == old(parent) && Repr == old(Repr)
    {
      trapCx := trapCx.(hartid := hartid);
      var _ := SetState(Running);
    }

    /** `ready`. */
    method Ready()
      modifies this
      ensures state == TaskStatus.Ready && trapCx == old(trapCx)
      ensures children == old(children) && fdTable == old(fdTable) && parent == old(parent) && Repr == old(Repr)
    {
      var _ := SetState(TaskStatus.Ready);
    }

    /** `blocking`: wait on a trigger. */
    method Blocking(tigger: nat)
      modifies this
      ensures state == Blocked(tigger) && trapCx == old(trapCx)
      ensures children == old(children) && fdTable == old(fdTable) && parent == old(parent) && Repr == old(Repr)
    {
      var _ := SetState(Blocked(tigger));
    }

    /** `exit_code`: the code once this task has exited. */
    function ExitCode(): (r: Option<I32>)
      reads this
      ensures r.Some? <==> state.Exited?
      ensures r.Some? ==> state == Exited(r.value)
    {
      if state.Exited? then Some(state.code) else None
    }

    /** `find_child`: the position and block of the first child with that pid. */
    function FindChild(pid: int): (r: Option<(nat, TaskControlBlock)>)
      reads this
      ensures r.Some? ==> r.value.0 < |children| && children[r.value.0] == r.value.1 && r.value.1.pid == pid
      ensures r.Some? ==> forall j :: 0 <= j < r.value.0 ==> children[j].pid != pid
      ensures r.None? <==> forall j :: 0 <= j < |children| ==> children[j].pid != pid
    {
      FindByPid(children, pid)
    }

    /**
     * `with_parent`: join `parent`'s children and point back at it. When both trees were valid
     * and apart, `parent`'s tree now holds this one.
     */
    method WithParent(parent: TaskControlBlock)
      modifies this`parent, parent`children, parent`Repr
      ensures parent.children == old(parent.children) + [this] && this.parent == Some(parent)
      ensures parent != this ==> Repr == old(Repr)
      ensures old(Valid() && parent.Valid() && Repr !! parent.Repr) ==>
        parent.Valid() && parent.Repr == old(parent.Repr) + Repr
    {
      ghost var apart := Valid() && parent.Valid() && Repr !! parent.Repr;
      if apart {
        TreePush(parent, parent.children, parent.Repr, this);
      }
      parent.children := parent.children + [this];
      this.parent := Some(parent);
      if apart {
        parent.Repr := parent.Repr + Repr;
      }
    }

    /**
     * `exit`: nothing when this task has already exited. Otherwise pop every child, last first,
     * and exit it with the same code, then record `Exited(code)`. Afterwards this task has no
     * children, and when every exited task of the tree had released its children, every task of
     * the old tree has exited, those still alive with `code`. Only states and children change.
     */
    method Exit(code: I32)
      requires Valid()
      modifies Repr`state, Repr`children, Repr`Repr
      decreases Repr, 1
      ensures old(state).Exited? ==> unchanged(old(Repr))
      ensures !old(state).Exited? ==> state == Exited(code) && children == [] && Repr == {this} && Valid()
      ensures old(ExitedAreLeaves()) ==> forall n :: n in old(Repr) ==> n.state == ExitedWith(old(n.state), code)
    {
      if state.Exited? {
        return;
      }
      ghost var all := Repr;
      ghost var leaves := ExitedAreLeaves();
      while children != []
        invariant Valid() && Repr <= all && state == old(state)
        invariant forall n :: n in Repr ==> n.state == old(n.state)
        invariant leaves ==> ExitedAreLeaves() && forall n :: n in all - Repr ==> n.state == ExitedWith(old(n.state), code)
        decreases |children|
      {
        ExitLast(code);
      }
      state := Exited(code);
      Repr := {this};
    }

    /** One turn of the `exit` loop: pop the last child and exit it; the rest of the tree stays as it was. */
    method ExitLast(code: I32)
      requires Valid() && children != []
      modifies Repr`state, Repr`children, Repr`Repr
      decreases Repr, 0
      ensures Valid() && state == old(state) && children == old(children[..|children| - 1])
      ensures Repr == old(Repr) - old(children[|children| - 1].Repr)
      ensures forall n :: n in Repr ==> n.state == old(n.state)
      ensures old(ExitedAreLeaves()) ==>
        ExitedAreLeaves() && forall n :: n in old(Repr) - Repr ==> n.state == ExitedWith(old(n.state), code)
    {
      var t := PopChild();
      t.Exit(code);
    }

    /** `children.pop()`: the last child leaves the list, and its subtree leaves `Repr`. */
    method PopChild() returns (t: TaskControlBlock)
      requires Valid() && children != []
      modifies this`children, this`Repr
      ensures t == old(children[|children| - 1]) && children == old(children[..|children| - 1])
      ensures Valid() && t.Valid() && Repr == old(Repr) - t.Repr && t.Repr <= old(Repr) && this !in t.Repr
      ensures old(ExitedAreLeaves()) ==> ExitedAreLeaves() && t.ExitedAreLeaves()
    {
      var k := |children| - 1;
      t := children[k];
      TreePop(this, children, Repr);
      children := children[..k];
      Repr := Repr - t.Repr;
    }
  }

  /** The state `exit(code)` leaves a task in: a task that had exited keeps its code. */
  function ExitedWith(s: TaskStatus, code: I32): (r: TaskStatus)
    ensures r.Exited?
    ensures s.Exited? ==> r == s
    ensures !s.Exited? ==> r.code == code
  {
    if s.Exited? then s else Exited(code)
  }

  /** The first task in `ts` with that pid and its position. */
  function FindByPid(ts: seq<TaskControlBlock>, pid: int): (r: Option<(nat, TaskControlBlock)>)
    ensures r.Some? ==> r.value.0 < |ts| && ts[r.value.0] == r.value.1 && r.value.1.pid == pid
    ensures r.Some? ==> forall j :: 0 <= j < r.value.0 ==> ts[j].pid != pid
    ensures r.None? <==> forall j :: 0 <= j < |ts| ==> ts[j].pid != pid
  {
    if ts == [] then None
    else if ts[0].pid == pid then Some((0, ts[0]))
    else match FindByPid(ts[1..], pid)
      case None => None
      case Some((i, t)) => Some((i + 1, t))
  }

  /**
   * `root` has children `cs` and subtree `r`: each child's subtree lies inside `r`, does not contain
   * `root`, and shares no task with a sibling's; `r` is `root` and those subtrees.
   */
  ghost predicate Tree(root: TaskControlBlock, cs: seq<TaskControlBlock>, r: set<TaskControlBlock>)
    reads (r - {root})`Repr, (r - {root})`children
    decreases r, 0
  {
    && root in r
    && (forall i :: 0 <= i < |cs| ==>
          cs[i] in r - {root} && cs[i].Repr <= r && root !in cs[i].Repr && cs[i].Valid())
    && (forall i, j :: 0 <= i < j < |cs| ==> cs[i].Repr !! cs[j].Repr)
    && r == {root} + ReprOf(cs)
  }

  /** Popping the last child leaves a tree without that child's subtree. */
  lemma TreePop(root: TaskControlBlock, cs: seq<TaskControlBlock>, r: set<TaskControlBlock>)
    requires Tree(root, cs, r) && cs != []
    ensures var last := cs[|cs| - 1];
      && Tree(root, cs[..|cs| - 1], r - last.Repr)
      && last.Valid() && last.Repr <= r && root !in last.Repr
      && ((forall n :: n in r && n.state.Exited? ==> n.children == []) ==> last.ExitedAreLeaves())
  {
    var k := |cs| - 1;
    assert ReprOf(cs) == ReprOf(cs[..k]) + cs[k].Repr;
    ReprOfApart(cs[..k], cs[k].Repr);
    forall i | 0 <= i < k
      ensures cs[..k][i] == cs[i] && cs[i] in cs[i].Repr
    {
      assert Tree(cs[i], cs[i].children, cs[i].Repr);
    }
  }

  /** Pushing a tree apart from `r` as the last child gives a tree holding both. */
  lemma TreePush(root: TaskControlBlock, cs: seq<TaskControlBlock>, r: set<TaskControlBlock>, c: TaskControlBlock)
    requires Tree(root, cs, r) && c.Valid() && c.Repr !! r
    ensures Tree(root, cs + [c], r + c.Repr)
  {
    assert (cs + [c])[..|cs|] == cs;
  }

  /** The tasks of the subtrees rooted at `cs`. */
  ghost function ReprOf(cs: seq<TaskControlBlock>): set<TaskControlBlock>
    reads (set c | c in cs)`Repr
  {
    if cs == [] then {} else ReprOf(cs[..|cs| - 1]) + cs[|cs| - 1].Repr
  }

  /** Subtrees each apart from `s` have a union apart from `s`. */
  lemma {:induction false} ReprOfApart(cs: seq<TaskControlBlock>, s: set<TaskControlBlock>)
    requires forall i :: 0 <= i < |cs| ==> cs[i].Repr !! s
    ensures ReprOf(cs) !! s
  {
    if cs != [] {
      ReprOfApart(cs[..|cs| - 1], s);
    }
  }
}
