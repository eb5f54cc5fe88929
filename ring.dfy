/**
 * The window of a fixed-size ring: the slots from `head` up to, but not including, `tail`, going
 * round modulo the number of slots. Both the pipe's byte ring and the generic ring buffer keep
 * one slot unused, so a ring of `n` slots holds at most `n - 1` items.
 */
module Ring {
  /** The slot after `p`: `(p + 1) % cap` for `p < cap`. */
  function Next(cap: nat, p: nat): (q: nat)
    requires p < cap
    ensures q < cap
  {
    if p + 1 == cap then 0 else p + 1
  }

  /** The slot `i` places after `head`: `(head + i) % cap` for `head, i < cap`. */
  function Slot(cap: nat, head: nat, i: nat): (q: nat)
    requires head < cap && i < cap
    ensures q < cap
  {
    if head + i < cap then head + i else head + i - cap
  }

  /** The number of items between `head` and `tail`: `(cap + tail - head) % cap` for `head, tail < cap`. */
  function Count(cap: nat, head: nat, tail: nat): (n: nat)
    requires head < cap && tail < cap
    ensures n < cap
    ensures n == 0 <==> head == tail
    ensures n == cap - 1 <==> Next(cap, tail) == head
    ensures Slot(cap, head, n) == tail
  {
    if head <= tail then tail - head else cap + tail - head
  }

  /** The items of the ring, oldest first. */
  function Window<T>(buf: seq<T>, head: nat, tail: nat): (w: seq<T>)
    requires head < |buf| && tail < |buf|
    ensures |w| == Count(|buf|, head, tail)
    ensures forall i :: 0 <= i < |w| ==> w[i] == buf[Slot(|buf|, head, i)]
  {
    seq(Count(|buf|, head, tail), i requires 0 <= i < Count(|buf|, head, tail) => buf[Slot(|buf|, head, i)])
  }

  /** The slots inside the window are never the slot at `tail`. */
  lemma TailOutsideWindow(cap: nat, head: nat, tail: nat, i: nat)
    requires head < cap && tail < cap && i < Count(cap, head, tail)
    ensures Slot(cap, head, i) != tail
  {
  }

  /** Storing at `tail` and advancing it appends the item, unless the ring is full. */
  lemma WindowPush<T>(buf: seq<T>, head: nat, tail: nat, x: T)
    requires head < |buf| && tail < |buf|
    requires Next(|buf|, tail) != head
    ensures Window(buf[tail := x], head, Next(|buf|, tail)) == Window(buf, head, tail) + [x]
  {
    var cap := |buf|;
    var n := Count(cap, head, tail);
    assert Count(cap, head, Next(cap, tail)) == n + 1;
    forall i | 0 <= i < n
      ensures Slot(cap, head, i) != tail
    {
      TailOutsideWindow(cap, head, tail, i);
    }
  }

  /** Taking the item at `head` and advancing it removes the oldest item. */
  lemma WindowPop<T>(buf: seq<T>, head: nat, tail: nat)
    requires head < |buf| && tail < |buf|
    requires head != tail
    ensures Window(buf, head, tail)[0] == buf[head]
    ensures Window(buf, Next(|buf|, head), tail) == Window(buf, head, tail)[1..]
  {
    var cap := |buf|;
    var n := Count(cap, head, tail);
    assert Count(cap, Next(cap, head), tail) == n - 1;
    forall i | 0 <= i < n - 1
      ensures Slot(cap, Next(cap, head), i) == Slot(cap, head, i + 1)
    {
    }
  }
}
