/**
 * Addresses, page numbers and page ranges of the older memory snapshot (`src/mem/address.rs`).
 *
 * Unlike the newer snapshot, the `From<usize>` conversions never panic: they mask the value
 * to a width (56 bits for both address kinds, 44 bits for both page-number kinds).
 */
module MemAddress {
  import opened Wrappers
  import opened Sv39
  import MmAddress

  type PhysAddr = Usize
  type VirtAddr = Usize
  type PhysPageNum = Usize
  type VirtPageNum = Usize

  /** `v & ((1 << 56) - 1)`, used by both `PhysAddr::from` and `VirtAddr::from`. */
  function AddrFrom(v: Usize): (r: Usize)
    ensures r < PA_LIMIT
    ensures v < PA_LIMIT ==> r == v
    ensures (v - r) % PA_LIMIT == 0
  {
    v % PA_LIMIT
  }

  /** `v & ((1 << 44) - 1)`, used by both `PhysPageNum::from` and `VirtPageNum::from`. */
  function PageNumFrom(v: Usize): (r: Usize)
    ensures r < PPN_LIMIT
    ensures v < PPN_LIMIT ==> r == v
    ensures (v - r) % PPN_LIMIT == 0
  {
    v % PPN_LIMIT
  }

  /** Masking twice is masking once. */
  lemma MaskIdempotent(v: Usize)
    ensures AddrFrom(AddrFrom(v)) == AddrFrom(v)
    ensures PageNumFrom(PageNumFrom(v)) == PageNumFrom(v)
  {
  }

  function Floor(a: Usize): (p: Usize)
    ensures p * 4096 <= a < p * 4096 + 4096
  {
    a / 4096
  }

  /** `a & (PAGE_SIZE - 1)`: the low twelve bits. */
  function PageOffset(a: Usize): (o: nat)
    ensures o < 4096
    ensures Floor(a) * 4096 + o == a
  {
    a % 4096
  }

  function IsPageAlign(a: Usize): (b: bool)
  {
    PageOffset(a) == 0
  }

  /** `ceil`: `(a + PAGE_SIZE - 1) / PAGE_SIZE`, the sum wrapping modulo 2^64. */
  function Ceil(a: Usize): (p: Usize)
    ensures a <= USIZE_MOD - 4096 ==> a <= p * 4096 < a + 4096
  {
    WrappingAdd(a, 4095) / 4096
  }

  /** `floor <= ceil <= floor + 1`, and the two coincide exactly on page-aligned addresses. */
  lemma FloorCeil(a: Usize)
    requires a <= USIZE_MOD - 4096
    ensures Floor(a) <= Ceil(a) <= Floor(a) + 1
    ensures Ceil(a) == Floor(a) <==> IsPageAlign(a)
  {
  }

  /** The two snapshots round up the same way, although they write the sum in different orders. */
  lemma CeilMatchesNewerSnapshot(a: Usize)
    ensures Ceil(a) == MmAddress.Ceil(a)
  {
  }

  /** `From<PhysPageNum> for PhysAddr` and `From<VirtPageNum> for VirtAddr`: `v.0 << PAGE_WIDTH`. */
  function PageToAddr(p: Usize): (a: Usize)
    ensures p < USIZE_MOD / 4096 ==> a == p * 4096
    ensures IsPageAlign(a)
  {
    (p * 4096) % USIZE_MOD
  }

  /** `From<PhysAddr> for PhysPageNum` and `From<VirtAddr> for VirtPageNum`: `assert_eq!(page_offset, 0)`, then floor. */
  function AddrToPage(a: Usize): (r: Outcome<Usize>)
    ensures r.Done? <==> IsPageAlign(a)
    ensures r.Done? ==> r.value * 4096 == a
  {
    if PageOffset(a) == 0 then Done(Floor(a)) else Panic
  }

  lemma PageAddrRoundTrip(p: Usize, a: Usize)
    requires p < USIZE_MOD / 4096
    ensures AddrToPage(PageToAddr(p)) == Done(p)
    ensures AddrToPage(a).Done? ==> PageToAddr(AddrToPage(a).value) == a
  {
  }

  /** `SimpleRange<T>`: the half-open range `l..r`. */
  datatype SimpleRange = SimpleRange(l: Usize, r: Usize)

  /** `SimpleRange::new` panics unless `start <= end`. */
  function SimpleRangeNew(start: Usize, end: Usize): (r: Outcome<SimpleRange>)
    ensures r.Done? <==> start <= end
    ensures r.Done? ==> r.value.l == start && r.value.r == end
  {
    if start <= end then Done(SimpleRange(start, end)) else Panic
  }

  /** The values `l, l + 1, ..., r - 1`. */
  function Span(l: nat, r: nat): (s: seq<nat>)
    requires l <= r
    ensures |s| == r - l
    ensures forall i :: 0 <= i < |s| ==> s[i] == l + i
    decreases r - l
  {
    if l == r then [] else [l] + Span(l + 1, r)
  }

  /** `SimpleRangeIterator<T>`: `current` walks from `l` towards `end` one step at a time. */
  class SimpleRangeIterator {
    var current: Usize
    var end: Usize

    constructor (l: Usize, r: Usize)
      ensures current == l && end == r
    {
      current := l;
      end := r;
    }

    /** `next`: `None` once `current == end`, otherwise the current value, stepping past it. */
    method Next() returns (item: Option<Usize>)
      modifies this
      ensures end == old(end)
      ensures old(current) == end ==> item == None && current == old(current)
      ensures old(current) != end ==> item == Some(old(current)) && current == WrappingAdd(old(current), 1)
    {
      if current == end {
        item := None;
      } else {
        var t := current;
        current := WrappingAdd(current, 1);
        item := Some(t);
      }
    }
  }

  /**
   * A `for` loop over a `SimpleRange`: the iterator yields `l, l + 1, ..., r - 1` in order,
   * exactly `r - l` items, and then `None`.
   */
  method IterateRange(range: SimpleRange) returns (items: seq<Usize>)
    requires range.l <= range.r
    ensures items == Span(range.l, range.r)
  {
    var it := new SimpleRangeIterator(range.l, range.r);
    items := [];
    while true
      invariant it.end == range.r
      invariant range.l <= it.current <= range.r
      invariant items == Span(range.l, it.current)
      decreases range.r - it.current
    {
      var next := it.Next();
      if next.None? {
        break;
      }
      items := items + [next.value];
    }
  }
}
