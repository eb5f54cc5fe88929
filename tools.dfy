/**
 * `src/tools/mod.rs`: rounding up to a multiple, and `Table<T>`, a vector of optional slots that
 * reuses the lowest free slot (the kernel's thread and descriptor tables are built on it).
 */
module Tools {
  import opened Wrappers
  import opened Sv39

  /**
   * `align_ceil(val, align) = (val - 1 + align) - ((val - 1) % align)` in wrapping `usize`
   * arithmetic; the remainder panics on `align == 0`.
   */
  function AlignCeil(val: Usize, align: Usize): (r: Outcome<Usize>)
    ensures r.Panic? <==> align == 0
  {
    if align == 0 then Panic
    else
      var m := WrappingSub(val, 1);
      Done(WrappingSub(WrappingAdd(m, align), m % align))
  }

  lemma MultipleBelow(m: nat, align: nat)
    requires align > 0
    ensures m - m % align == (m / align) * align
    ensures (m / align) * align <= m < (m / align) * align + align
  {
  }

  lemma MulMonotone(a: nat, b: nat, c: nat)
    requires a <= b
    ensures a * c <= b * c
  {
  }

  /** Euclidean division is unique: a quotient and remainder that rebuild `x` are `x / b` and `x % b`. */
  lemma DivModUnique(x: nat, b: nat, q: nat, r: nat)
    requires b > 0 && r < b && x == q * b + r
    ensures x / b == q && x % b == r
  {
    var d := x / b;
    assert x == d * b + x % b;
    if d < q {
      MulMonotone(d + 1, q, b);
      assert false;
    }
    if d > q {
      MulMonotone(q + 1, d, b);
      assert false;
    }
  }

  /** A multiple of `align` above `m` is at least the first multiple above `m`. */
  lemma LeastMultipleAbove(m: nat, align: nat, k: nat)
    requires align > 0 && k * align > m
    ensures k * align >= (m / align + 1) * align
  {
    MultipleBelow(m, align);
    if k <= m / align {
      MulMonotone(k, m / align, align);
    }
    assert k >= m / align + 1;
    MulMonotone(m / align + 1, k, align);
  }

  /**
   * Away from 0 and from overflow, `align_ceil` is the least multiple of `align` that is at least
   * `val`.
   */
  lemma AlignCeilIsLeastMultiple(val: Usize, align: Usize)
    requires 1 <= val && 1 <= align && val - 1 + align < USIZE_MOD
    ensures var c := AlignCeil(val, align).value;
      c % align == 0 && val <= c < val + align &&
      forall k: nat :: k * align >= val ==> k * align >= c
  {
    var m: nat := val - 1;
    var q := m / align;
    MultipleBelow(m, align);
    var c := AlignCeil(val, align).value;
    assert c == m + align - m % align;
    assert c == (q + 1) * align by {
      assert (q + 1) * align == q * align + align;
    }
    DivModUnique(c, align, q + 1, 0);
    forall k: nat | k * align >= val
      ensures k * align >= c
    {
      LeastMultipleAbove(m, align, k);
    }
  }

  /** The index `alloc_id` picks: the lowest empty slot, or one past the end. */
  function FirstFree<T>(s: seq<Option<T>>): (i: nat)
    ensures i <= |s| && (i < |s| ==> s[i].None?)
    ensures forall j :: 0 <= j < i ==> s[j].Some?
  {
    if s == [] then 0
    else if s[0].None? then 0
    else 1 + FirstFree(s[1..])
  }

  /** The slots after `alloc_id` and a store of `val` at the index it chose. */
  function Placed<T>(s: seq<Option<T>>, val: Option<T>): (t: seq<Option<T>>)
  {
    var i := FirstFree(s);
    if i == |s| then s + [val] else s[i := val]
  }

  /**
   * Taking back what a push stored gives the stored value, and leaves the table as `alloc_id`
   * left it: unchanged when a slot was reused, one empty slot longer otherwise.
   */
  lemma PushThenRemove<T>(s: seq<Option<T>>, x: T)
    ensures var i := FirstFree(s);
      var t := Placed(s, Some(x));
      i < |t| && t[i] == Some(x) &&
      t[i := None] == (if i < |s| then s else s + [None])
  {
  }

  /** Two pushes in a row store at different indices: a slot taken by the first is no longer free. */
  lemma PushesUseDistinctSlots<T>(s: seq<Option<T>>, x: T)
    ensures FirstFree(Placed(s, Some(x))) != FirstFree(s)
    ensures FirstFree(Placed(s, Some(x))) > FirstFree(s)
  {
    var i := FirstFree(s);
    var t := Placed(s, Some(x));
    assert forall j :: 0 <= j <= i ==> t[j].Some?;
  }

  class Table<T> {
    var inner: seq<Option<T>>

    /** `new`: no slots. */
    constructor ()
      ensures inner == []
    {
      inner := [];
    }

    /** `from_iter`: the slots as collected. */
    constructor FromIter(slots: seq<Option<T>>)
      ensures inner == slots
    {
      inner := slots;
    }

    /** `alloc_id`: the lowest empty slot; when there is none, append one empty slot and return it. */
    method AllocId() returns (idx: nat)
      modifies this
      ensures idx == FirstFree(old(inner))
      ensures inner == if idx < |old(inner)| then old(inner) else old(inner) + [None]
      ensures idx < |inner| && inner[idx].None?
    {
      var i := 0;
      while i < |inner|
        invariant 0 <= i <= |inner|
        invariant forall j :: 0 <= j < i ==> inner[j].Some?
      {
        if inner[i].None? {
          FirstFreeIsLowest(inner, i);
          return i;
        }
        i := i + 1;
      }
      FirstFreeIsLowest(inner, i);
      inner := inner + [None];
      idx := |inner| - 1;
    }

    /** `push_opt`: store `val` at the index `alloc_id` chose and return it. */
    method PushOpt(val: Option<T>) returns (idx: nat)
      modifies this
      ensures idx == FirstFree(old(inner)) && inner == Placed(old(inner), val)
      ensures idx < |inner| && inner[idx] == val
      ensures forall j :: 0 <= j < |old(inner)| && j != idx ==> inner[j] == old(inner)[j]
    {
      idx := AllocId();
      inner := inner[idx := val];
    }

    /** `push`: `push_opt` of an occupied slot. */
    method Push(val: T) returns (idx: nat)
      modifies this
      ensures idx == FirstFree(old(inner)) && inner == Placed(old(inner), Some(val))
      ensures idx < |inner| && inner[idx] == Some(val)
      ensures forall j :: 0 <= j < |old(inner)| && j != idx ==> inner[j] == old(inner)[j]
    {
      idx := PushOpt(Some(val));
    }

    /** `with`: `push`, keeping the table. */
    method With(val: T) returns (t: Table<T>)
      modifies this
      ensures t == this && inner == Placed(old(inner), Some(val))
    {
      var idx := Push(val);
      t := this;
    }

    /** `remove`: take the slot's value and leave it empty; out of range, `None` and no change. */
    method Remove(idx: nat) returns (r: Option<T>)
      modifies this
      ensures idx < |old(inner)| ==> r == old(inner)[idx] && inner == old(inner)[idx := None]
      ensures idx >= |old(inner)| ==> r == None && inner == old(inner)
    {
      if idx < |inner| {
        r := inner[idx];
        inner := inner[idx := None];
      } else {
        r := None;
      }
    }

    /** `get`: the value of an in-range, occupied slot. */
    function Get(idx: nat): (r: Option<T>)
      reads this
      ensures r.Some? <==> idx < |inner| && inner[idx].Some?
      ensures r.Some? ==> r == inner[idx]
    {
      if idx < |inner| then inner[idx] else None
    }

    /** `get_entry`: the slot itself; `unwrap` panics out of range. */
    function GetEntry(idx: nat): (r: Outcome<Option<T>>)
      reads this
      ensures r.Panic? <==> idx >= |inner|
      ensures r.Done? ==> r.value == inner[idx]
    {
      if idx < |inner| then Done(inner[idx]) else Panic
    }

    /** `swap`: exchange two slots when both are occupied; otherwise `Err` with no change. */
    method Swap(i: nat, j: nat) returns (r: Result<(), ()>)
      modifies this
      ensures r.Ok? <==> old(Get(i)).Some? && old(Get(j)).Some?
      ensures r.Ok? ==> inner == old(inner)[i := old(inner)[j]][j := old(inner)[i]]
      ensures r.Err? ==> inner == old(inner)
    {
      if Get(i).Some? && Get(j).Some? {
        inner := inner[i := inner[j]][j := inner[i]];
        r := Ok(());
      } else {
        r := Err(());
      }
    }

    /** `clear`: no slots. */
    method Clear()
      modifies this
      ensures inner == []
    {
      inner := [];
    }
  }

  lemma FirstFreeIsLowest<T>(s: seq<Option<T>>, i: nat)
    requires i <= |s| && (i < |s| ==> s[i].None?)
    requires forall j :: 0 <= j < i ==> s[j].Some?
    ensures FirstFree(s) == i
  {
  }
}
