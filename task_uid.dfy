/**
 * The id allocator of `src/task/uid.rs`: a counter `current` starting at 1 in front of a stack of
 * returned ids. Two separate pools exist, one for process ids and one for kernel-stack ids.
 */
module TaskUid {
  class UidAllocator {
    var current: int
    var recycled: seq<int>
    /** The ids handed out and not yet returned. */
    ghost var live: set<int>

    ghost predicate Valid()
      reads this
    {
      && (forall i, j :: 0 <= i < j < |recycled| ==> recycled[i] != recycled[j])
      && (forall i :: 0 <= i < |recycled| ==> recycled[i] < current && recycled[i] !in live)
      && (forall x :: x in live ==> x < current)
    }

    /** `new`: `current == 1`, nothing recycled. */
    constructor ()
      ensures Valid() && current == 1 && recycled == [] && live == {}
    {
      current := 1;
      recycled := [];
      live := {};
    }

    /** `alloc`: pop the most recently returned id, else hand out `current` and bump it; never a live id. */
    method Alloc() returns (id: int)
      requires Valid()
      modifies this
      ensures Valid()
      ensures old(recycled) != [] ==>
        id == old(recycled)[|old(recycled)| - 1] && recycled == old(recycled)[..|old(recycled)| - 1] &&
        current == old(current)
      ensures old(recycled) == [] ==> id == old(current) && current == old(current) + 1 && recycled == []
      ensures id !in old(live) && live == old(live) + {id}
    {
      if |recycled| > 0 {
        id := recycled[|recycled| - 1];
        recycled := recycled[..|recycled| - 1];
      } else {
        current := current + 1;
        id := current - 1;
      }
      live := live + {id};
    }

    /** The `recycled.iter().any(|&rpid| rpid == pid)` scan of `dealloc`. */
    method IsRecycled(id: int) returns (found: bool)
      ensures found <==> id in recycled
    {
      found := false;
      var i := 0;
      while i < |recycled| && !found
        invariant 0 <= i <= |recycled|
        invariant found <==> id in recycled[..i]
      {
        found := recycled[i] == id;
        i := i + 1;
      }
    }

    /** `dealloc`: panic (`ok == false`, no change) unless `id < current` and `id` is not already returned; push it. */
    method Dealloc(id: int) returns (ok: bool)
      requires Valid()
      modifies this
      ensures Valid() && current == old(current)
      ensures ok <==> id < old(current) && id !in old(recycled)
      ensures ok ==> recycled == old(recycled) + [id] && live == old(live) - {id}
      ensures !ok ==> unchanged(this)
    {
      if id >= current {
        return false;
      }
      var found := IsRecycled(id);
      if found {
        return false;
      }
      recycled := recycled + [id];
      live := live - {id};
      ok := true;
    }
  }

  /** A process id and a kernel-stack id, each tied to the pool it came from. */
  datatype Pid = Pid(id: int)
  datatype KernelStack = KernelStack(id: int)

  /** `pid_alloc`: an id from the process-id pool. */
  method PidAlloc(pids: UidAllocator) returns (p: Pid)
    requires pids.Valid()
    modifies pids
    ensures pids.Valid() && p.id !in old(pids.live) && pids.live == old(pids.live) + {p.id}
  {
    var id := pids.Alloc();
    p := Pid(id);
  }

  /** Dropping a `Pid` returns its id to the process-id pool, and to no other. */
  method PidDrop(pids: UidAllocator, p: Pid) returns (ok: bool)
    requires pids.Valid() && p.id in pids.live
    modifies pids
    ensures pids.Valid() && ok && pids.live == old(pids.live) - {p.id}
    ensures pids.recycled == old(pids.recycled) + [p.id]
  {
    ok := pids.Dealloc(p.id);
  }

  /** The id part of `kstack_alloc`: an id from the kernel-stack pool. */
  method KstackAlloc(kstacks: UidAllocator) returns (k: KernelStack)
    requires kstacks.Valid()
    modifies kstacks
    ensures kstacks.Valid() && k.id !in old(kstacks.live) && kstacks.live == old(kstacks.live) + {k.id}
  {
    var id := kstacks.Alloc();
    k := KernelStack(id);
  }

  /** The id part of dropping a `KernelStack`: its id goes back to the kernel-stack pool. */
  method KstackDrop(kstacks: UidAllocator, k: KernelStack) returns (ok: bool)
    requires kstacks.Valid() && k.id in kstacks.live
    modifies kstacks
    ensures kstacks.Valid() && ok && kstacks.live == old(kstacks.live) - {k.id}
    ensures kstacks.recycled == old(kstacks.recycled) + [k.id]
  {
    ok := kstacks.Dealloc(k.id);
  }
}
