/**
 * `src/task/scheduler.rs`: one processor per hart, new tasks placed on the least-loaded one and
 * tasks fetched from the most-loaded one.
 *
 * The scheduler calls `Processor::new(hartid)`, `ready_task_num`, `add_task` and `fetch_task`.
 * The `Processor` of `src/task/processor.rs` has a `new` that also takes a task manager, and none
 * of the other three. `Processor` here is a stand-in that keeps a first-in first-out queue of
 * ready tasks, whose length is the ready-task count.
 */
module Scheduler {
  import opened Wrappers
  import opened Sv39
  import TaskBlock

  class Processor {
    const hartid: nat
    var queue: seq<TaskBlock.Tcb>

    constructor (hartid: nat)
      ensures this.hartid == hartid && queue == []
    {
      this.hartid := hartid;
      queue := [];
    }

    method AddTask(task: TaskBlock.Tcb)
      modifies this
      ensures queue == old(queue) + [task]
    {
      queue := queue + [task];
    }

    method FetchTask() returns (r: Option<TaskBlock.Tcb>)
      modifies this
      ensures old(queue) == [] ==> r == None && queue == []
      ensures old(queue) != [] ==> r == Some(old(queue)[0]) && queue == old(queue)[1..]
    {
      if queue == [] {
        return None;
      }
      r := Some(queue[0]);
      queue := queue[1..];
    }
  }

  class Scheduler {
    var group: seq<Processor>

    /** Processor `i` serves hart `i`; as hart ids are constants, the processors are distinct. */
    ghost predicate Valid()
      reads this, group
    {
      |group| < USIZE_MOD && forall i :: 0 <= i < |group| ==> group[i].hartid == i
    }

    /** `Scheduler::new(hart_num)`: processors for harts 0 to `hart_num - 1`, in order, all idle. */
    constructor (hartNum: Usize)
      ensures Valid() && |group| == hartNum
      ensures forall i :: 0 <= i < hartNum ==> group[i].queue == [] && fresh(group[i])
    {
      var g: seq<Processor> := [];
      for hartid := 0 to hartNum
        invariant |g| == hartid
        invariant forall i :: 0 <= i < hartid ==> g[i].hartid == i && g[i].queue == [] && fresh(g[i])
      {
        var p := new Processor(hartid);
        g := g + [p];
      }
      group := g;
    }

    /**
     * The `min_by` over ready-task counts: a processor with the fewest ready tasks, the first one
     * on a tie; `None` when there is no processor.
     */
    method LeastLoaded() returns (r: Option<nat>)
      ensures r == None <==> |group| == 0
      ensures r.Some? ==> r.value < |group|
      ensures r.Some? ==> forall j :: 0 <= j < |group| ==> |group[r.value].queue| <= |group[j].queue|
      ensures r.Some? ==> forall j :: 0 <= j < r.value ==> |group[j].queue| > |group[r.value].queue|
    {
      if |group| == 0 {
        return None;
      }
      var best := 0;
      for k := 1 to |group|
        invariant best < k
        invariant forall j :: 0 <= j < k ==> |group[best].queue| <= |group[j].queue|
        invariant forall j :: 0 <= j < best ==> |group[j].queue| > |group[best].queue|
      {
        if |group[k].queue| < |group[best].queue| {
          best := k;
        }
      }
      r := Some(best);
    }

    /**
     * The `max_by` over ready-task counts: a processor with the most ready tasks, the last one on
     * a tie; `None` when there is no processor.
     */
    method MostLoaded() returns (r: Option<nat>)
      ensures r == None <==> |group| == 0
      ensures r.Some? ==> r.value < |group|
      ensures r.Some? ==> forall j :: 0 <= j < |group| ==> |group[j].queue| <= |group[r.value].queue|
      ensures r.Some? ==> forall j :: r.value < j < |group| ==> |group[j].queue| < |group[r.value].queue|
    {
      if |group| == 0 {
        return None;
      }
      var best := 0;
      for k := 1 to |group|
        invariant best < k
        invariant forall j :: 0 <= j < k ==> |group[j].queue| <= |group[best].queue|
        invariant forall j :: best < j < k ==> |group[j].queue| < |group[best].queue|
      {
        if |group[k].queue| >= |group[best].queue| {
          best := k;
        }
      }
      r := Some(best);
    }

    /**
     * `add_task`: write the least-loaded hart's id into this task's trap context and queue this task
     * there. With no processor, `min_by(..).unwrap()` panics.
     */
    method AddTask(task: TaskBlock.Tcb) returns (r: Outcome<nat>)
      requires Valid()
      modifies task, set i | 0 <= i < |group| :: group[i]
      ensures Valid() && group == old(group)
      ensures r.Panic? <==> |group| == 0
      ensures r.Done? ==>
        var h := r.value;
        h < |group| &&
        (forall j :: 0 <= j < |group| ==> |old(group[h].queue)| <= |old(group[j].queue)|) &&
        (forall j :: 0 <= j < h ==> |old(group[j].queue)| > |old(group[h].queue)|) &&
        task.trapCx == old(task.trapCx).(hartid := h) &&
        group[h].queue == old(group[h].queue) + [task] &&
        forall j :: 0 <= j < |group| && j != h ==> group[j].queue == old(group[j].queue)
    {
      var chosen := LeastLoaded();
      if chosen.None? {
        return Panic;
      }
      var h := chosen.value;
      task.trapCx := task.trapCx.(hartid := h);
      group[h].AddTask(task);
      r := Done(h);
    }

    /** `fetch_task`: take the next ready task of the most-loaded processor; `None` with no processor. */
    method FetchTask() returns (r: Option<TaskBlock.Tcb>)
      requires Valid()
      modifies set i | 0 <= i < |group| :: group[i]
      ensures Valid() && group == old(group)
      ensures |group| == 0 ==> r == None
      ensures |group| > 0 ==> exists h :: (0 <= h < |group| &&
        (forall j :: 0 <= j < |group| ==> |old(group[j].queue)| <= |old(group[h].queue)|) &&
        (forall j :: h < j < |group| ==> |old(group[j].queue)| < |old(group[h].queue)|) &&
        (old(group[h].queue) == [] ==> r == None && group[h].queue == []) &&
        (old(group[h].queue) != [] ==> r == Some(old(group[h].queue)[0]) && group[h].queue == old(group[h].queue)[1..]) &&
        forall j :: 0 <= j < |group| && j != h ==> group[j].queue == old(group[j].queue))
    {
      var chosen := MostLoaded();
      if chosen.None? {
        return None;
      }
      var h := chosen.value;
      r := group[h].FetchTask();
    }
  }
}
