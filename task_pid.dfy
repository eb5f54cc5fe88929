/**
 * The process-id allocator of `src/task/pid.rs`: the same counter-plus-stack scheme as
 * `src/task/uid.rs`, starting at `PID_START`, which `src/config.rs` does not define and
 * is therefore a parameter here.
 */
module TaskPid {
  import opened Wrappers

  class PidAllocator {
    var current: int
    var recycled: seq<int>
    /** The ids handed out and not yet returned. */
    ghost var live: set<int>

    ghost predicate Valid()
      reads this
    {
      && (forall i, j :: 0 <= i < j < |recycled| ==> recycled[i] != recycled[j])
      && (forall i :: 0 <= i < |recycled| ==> recycled[i] < current && recycled[i] !in live)
      && (forall x :: x in live ==> x < current)
    }

    /** `new`: `current == PID_START`, nothing recycled. */
    constructor (pidStart: int)
      ensures Valid() && current == pidStart && recycled == [] && live == {}
    {
      current := pidStart;
      recycled := [];
      live := {};
    }

    /** `alloc`: pop the most recently returned id, else hand out `current` and bump it; never a live id. */
    method Alloc() returns (h: PidHandle)
      requires Valid()
      modifies this
      ensures Valid()
      ensures old(recycled) != [] ==>
        h.pid == old(recycled)[|old(recycled)| - 1] && recycled == old(recycled)[..|old(recycled)| - 1] &&
        current == old(current)
      ensures old(recycled) == [] ==> h.pid == old(current) && current == old(current) + 1 && recycled == []
      ensures h.pid !in old(live) && live == old(live) + {h.pid}
    {
      if |recycled| > 0 {
        h := PidHandle(recycled[|recycled| - 1]);
        recycled := recycled[..|recycled| - 1];
      } else {
        current := current + 1;
        h := PidHandle(current - 1);
      }
      live := live + {h.pid};
    }

    /** The `recycled.iter().find(|ppid| **ppid == pid)` scan of `dealloc`. */
    method Find(pid: int) returns (found: Option<int>)
      ensures found.Some? <==> pid in recycled
      ensures found.Some? ==> found.value == pid
    {
      found := None;
      var i := 0;
      while i < |recycled|
        invariant 0 <= i <= |recycled|
        invariant pid !in recycled[..i]
      {
        if recycled[i] == pid {
          return Some(recycled[i]);
        }
        i := i + 1;
      }
    }

    /** `dealloc`: panic (`ok == false`, no change) unless `pid < current` and `pid` is not already returned; push it. */
    method Dealloc(pid: int) returns (ok: bool)
      requires Valid()
      modifies this
      ensures Valid() && current == old(current)
      ensures ok <==> pid < old(current) && pid !in old(recycled)
      ensures ok ==> recycled == old(recycled) + [pid] && live == old(live) - {pid}
      ensures !ok ==> unchanged(this)
    {
      if pid >= current {
        return false;
      }
      var found := Find(pid);
      if found.Some? {
        return false;
      }
      recycled := recycled + [pid];
      live := live - {pid};
      ok := true;
    }
  }

  datatype PidHandle = PidHandle(pid: int)

  /** Dropping a `PidHandle` returns its pid. */
  method PidHandleDrop(pids: PidAllocator, h: PidHandle) returns (ok: bool)
    requires pids.Valid() && h.pid in pids.live
    modifies pids
    ensures pids.Valid() && ok && pids.live == old(pids.live) - {h.pid}
    ensures pids.recycled == old(pids.recycled) + [h.pid]
  {
    ok := pids.Dealloc(h.pid);
  }
}
