/**
 * The pollable triggers of `src/task/tigger.rs`: a timer, a wait for a task state, and a wait for
 * any child to exit. Each `poll` takes `&self` and only reads, so here it is a function or a
 * method without a `modifies` clause; the clock `get_time_ms()` is a parameter.
 *
 * The source imports `SharedStatus` and `Task` from `task.rs`, which does not define them. The
 * shared status record and the block with its children list are taken from `task_block.rs`.
 */
module Tigger {
  import opened Sv39
  import TaskBlock

  /** `core::task::Poll<()>`. */
  datatype Poll = Ready | Pending

  /** `Timer`: fires once the millisecond clock reaches `expireTime`. */
  datatype Timer = Timer(expireTime: Usize)

  /** `Timer::new(time)` at clock reading `now`: the sum wraps at 2^64. */
  function TimerNew(time: Usize, now: Usize): (t: Timer)
    ensures time + now < USIZE_MOD ==> t.expireTime == time + now
    ensures time + now >= USIZE_MOD ==> t.expireTime == time + now - USIZE_MOD
  {
    Timer(WrappingAdd(time, now))
  }

  /** `Timer::poll` at clock reading `now`. */
  function TimerPoll(t: Timer, now: Usize): (r: Poll)
    ensures r == Ready <==> now >= t.expireTime
  {
    if now >= t.expireTime then Ready else Pending
  }

  /**
   * A timer made at `start` for `time` milliseconds, with no wrap-around, is pending exactly until
   * `time` milliseconds have passed and ready from then on.
   */
  lemma TimerFiresAfterDelay(time: Usize, start: Usize, now: Usize)
    requires time + start < USIZE_MOD
    ensures TimerPoll(TimerNew(time, start), now) == Ready <==> now >= start && now - start >= time
  {
  }

  /** Once ready, a timer stays ready while the clock moves forward. */
  lemma TimerStaysReady(t: Timer, now: Usize, later: Usize)
    requires now <= later && TimerPoll(t, now) == Ready
    ensures TimerPoll(t, later) == Ready
  {
  }

  /**
   * A delay whose sum with the clock passes 2^64 wraps to an early expiry: such a timer is ready
   * at once.
   */
  lemma TimerWrapsEarly(time: Usize, start: Usize)
    requires time + start >= USIZE_MOD
    ensures TimerPoll(TimerNew(time, start), start) == Ready
  {
  }

  /** `TaskWaiter`: waits until a task's shared status reaches `state`. */
  class TaskWaiter {
    const state: TaskBlock.TaskStatus
    const sharedData: TaskBlock.SharedStatus

    constructor (task: TaskBlock.SharedStatus, state: TaskBlock.TaskStatus)
      ensures this.sharedData == task && this.state == state
    {
      this.sharedData := task;
      this.state := state;
    }

    /** `TaskWaiter::poll`: ready exactly when the watched state equals the target. */
    function Poll(): (r: Poll)
      reads this, sharedData
      ensures r == Ready <==> sharedData.state == state
    {
      if sharedData.state == state then Ready else Pending
    }
  }

  /** Some snapshotted child has recorded an exit code. */
  ghost predicate AnyExited(shared: seq<TaskBlock.SharedStatus>)
    reads set i | 0 <= i < |shared| :: shared[i]
  {
    exists i :: 0 <= i < |shared| && shared[i].exitCode.Some?
  }

  /** `ChildrenWaiter`: the shared statuses of a parent's children, taken once at construction. */
  class ChildrenWaiter {
    var sharedDatas: seq<TaskBlock.SharedStatus>

    /** `ChildrenWaiter::new`: one shared status per child, in the order of the children list. */
    constructor (parent: TaskBlock.Tcb)
      ensures |sharedDatas| == |parent.children|
      ensures forall i :: 0 <= i < |sharedDatas| ==> sharedDatas[i] == parent.children[i].shared
    {
      var children := parent.children;
      var datas: seq<TaskBlock.SharedStatus> := [];
      for k := 0 to |children|
        invariant |datas| == k
        invariant forall i :: 0 <= i < k ==> datas[i] == children[i].shared
      {
        datas := datas + [children[k].shared];
      }
      sharedDatas := datas;
    }

    /**
     * `ChildrenWaiter::poll`: ready when there were no children to wait for, or when any of them
     * has exited; pending otherwise.
     */
    method Poll() returns (r: Poll)
      ensures r == Ready <==> |sharedDatas| == 0 || AnyExited(sharedDatas)
    {
      if |sharedDatas| == 0 {
        return Ready;
      }
      for k := 0 to |sharedDatas|
        invariant forall i :: 0 <= i < k ==> sharedDatas[i].exitCode.None?
      {
        if sharedDatas[k].exitCode.Some? {
          return Ready;
        }
      }
      r := Pending;
    }
  }
}
