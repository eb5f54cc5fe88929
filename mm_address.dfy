/**
 * Addresses and page numbers of the newer memory snapshot (`src/mm/address.rs`).
 *
 * The four wrapper types of the source (`PhysAddr`, `VirtAddr`, `PhysPageNum`, `VirtPageNum`)
 * each hold one `usize`; here they are synonyms of `Usize`. The `From<usize>` conversions
 * check a width with `assert!`, and a failed check is a panic.
 */
module MmAddress {
  import opened Wrappers
  import opened Sv39

  type PhysAddr = Usize
  type VirtAddr = Usize
  type PhysPageNum = Usize
  type VirtPageNum = Usize

  const ISIZE_MIN_BITS: Usize := 0x8000_0000_0000_0000

  /** `PhysAddr::from(usize)`: accepted exactly when the value fits in 56 bits. */
  function PhysAddrFrom(v: Usize): (r: Outcome<PhysAddr>)
    ensures r.Done? <==> v < PA_LIMIT
    ensures r.Done? ==> r.value == v
  {
    if v < PA_LIMIT then Done(v) else Panic
  }

  /** `PhysPageNum::from(usize)`: accepted exactly when the value fits in 44 bits. */
  function PhysPageNumFrom(v: Usize): (r: Outcome<PhysPageNum>)
    ensures r.Done? <==> v < PPN_LIMIT
    ensures r.Done? ==> r.value == v
  {
    if v < PPN_LIMIT then Done(v) else Panic
  }

  /**
   * `isize::abs` as compiled without overflow checks: the absolute value of `isize::MIN` does
   * not fit, and the negation wraps back to `isize::MIN`.
   */
  function WrappingAbs(x: int): (r: int)
    requires -0x8000_0000_0000_0000 <= x < 0x8000_0000_0000_0000
    ensures x != -0x8000_0000_0000_0000 ==> r >= 0 && (r == x || r == -x)
    ensures x == -0x8000_0000_0000_0000 ==> r == x
  {
    if x >= 0 then x else if x == -0x8000_0000_0000_0000 then x else -x
  }

  /** `VirtAddr::from(usize)` as written: `isize::abs(v as isize) < 2^39`. */
  function VirtAddrFromAsWritten(v: Usize): (r: Outcome<VirtAddr>)
    ensures r.Done? <==> v < VA_LIMIT || v > USIZE_MOD - VA_LIMIT || v == ISIZE_MIN_BITS
    ensures r.Done? ==> r.value == v
  {
    if WrappingAbs(AsIsize(v)) < VA_LIMIT then Done(v) else Panic
  }

  /** `VirtPageNum::from(usize)` as written: `isize::abs(v as isize) < 2^27`. */
  function VirtPageNumFromAsWritten(v: Usize): (r: Outcome<VirtPageNum>)
    ensures r.Done? <==> v < VPN_LIMIT || v > USIZE_MOD - VPN_LIMIT || v == ISIZE_MIN_BITS
    ensures r.Done? ==> r.value == v
  {
    if WrappingAbs(AsIsize(v)) < VPN_LIMIT then Done(v) else Panic
  }

  /**
   * `VirtAddr::from(usize)` with the check its authors meant: the value read as a signed
   * integer lies strictly between -2^39 and 2^39, so sign-extended high addresses pass.
   */
  function VirtAddrFrom(v: Usize): (r: Outcome<VirtAddr>)
    ensures r.Done? <==> v < VA_LIMIT || v > USIZE_MOD - VA_LIMIT
    ensures r.Done? ==> r.value == v
  {
    if -(VA_LIMIT as int) < AsIsize(v) < VA_LIMIT then Done(v) else Panic
  }

  /** `VirtPageNum::from(usize)` with the intended check, |v as isize| < 2^27. */
  function VirtPageNumFrom(v: Usize): (r: Outcome<VirtPageNum>)
    ensures r.Done? <==> v < VPN_LIMIT || v > USIZE_MOD - VPN_LIMIT
    ensures r.Done? ==> r.value == v
  {
    if -(VPN_LIMIT as int) < AsIsize(v) < VPN_LIMIT then Done(v) else Panic
  }

  /** The written check lets `isize::MIN` through, which the intended check refuses. */
  lemma VirtAddrFromAcceptsIsizeMin()
    ensures VirtAddrFromAsWritten(ISIZE_MIN_BITS) == Done(ISIZE_MIN_BITS)
    ensures VirtAddrFrom(ISIZE_MIN_BITS) == Panic
    ensures VirtPageNumFromAsWritten(ISIZE_MIN_BITS) == Done(ISIZE_MIN_BITS)
    ensures VirtPageNumFrom(ISIZE_MIN_BITS) == Panic
  {
  }

  /** On every other input the written and the intended checks agree. */
  lemma VirtFromAgreeExceptIsizeMin(v: Usize)
    requires v != ISIZE_MIN_BITS
    ensures VirtAddrFromAsWritten(v) == VirtAddrFrom(v)
    ensures VirtPageNumFromAsWritten(v) == VirtPageNumFrom(v)
  {
  }

  /** `floor`: the page that contains the address (`PhysAddr` and `VirtAddr` alike). */
  function Floor(a: Usize): (p: Usize)
    ensures p * PAGE_SIZE <= a < p * PAGE_SIZE + PAGE_SIZE
  {
    a / PAGE_SIZE
  }

  /** `page_offset`: the position of the address inside its page. */
  function PageOffset(a: Usize): (o: nat)
    ensures o < PAGE_SIZE
    ensures Floor(a) * PAGE_SIZE + o == a
  {
    a % PAGE_SIZE
  }

  /** `ceil`: `(a - 1 + PAGE_SIZE) / PAGE_SIZE`, each step wrapping modulo 2^64. */
  function Ceil(a: Usize): (p: Usize)
    ensures 1 <= a <= USIZE_MOD - PAGE_SIZE ==> (p - 1) * PAGE_SIZE < a <= p * PAGE_SIZE
    ensures a == 0 ==> p == 0
  {
    WrappingAdd(WrappingSub(a, 1), PAGE_SIZE) / PAGE_SIZE
  }

  /** The rounding up is tight: the page `Ceil` names is the floor, or the one after it. */
  lemma CeilIsLeastPageAtOrAbove(a: Usize, q: nat)
    requires 1 <= a <= USIZE_MOD - PAGE_SIZE
    requires q * PAGE_SIZE >= a
    ensures Floor(a) <= Ceil(a) <= q
    ensures Ceil(a) == Floor(a) <==> PageOffset(a) == 0
  {
  }

  /** `From<PhysPageNum> for PhysAddr` and `From<VirtPageNum> for VirtAddr`: shift left by twelve bits. */
  function PageToAddr(p: Usize): (a: Usize)
    ensures p < USIZE_MOD / PAGE_SIZE ==> a == p * PAGE_SIZE
    ensures PageOffset(a) == 0
  {
    (p * PAGE_SIZE) % USIZE_MOD
  }

  /** `From<PhysAddr> for PhysPageNum` and `From<VirtAddr> for VirtPageNum`: assert a zero offset, then floor. */
  function AddrToPage(a: Usize): (r: Outcome<Usize>)
    ensures r.Done? <==> PageOffset(a) == 0
    ensures r.Done? ==> r.value * PAGE_SIZE == a
  {
    if PageOffset(a) == 0 then Done(Floor(a)) else Panic
  }

  /** page -> address -> page is the identity for every page number whose shift does not overflow. */
  lemma PageAddrPage(p: Usize)
    requires p < USIZE_MOD / PAGE_SIZE
    ensures AddrToPage(PageToAddr(p)) == Done(p)
  {
  }

  /** address -> page -> address is the identity on aligned addresses and panics on the rest. */
  lemma AddrPageAddr(a: Usize)
    ensures AddrToPage(a).Done? ==> PageToAddr(AddrToPage(a).value) == a
    ensures AddrToPage(a) == Panic <==> a % PAGE_SIZE != 0
  {
  }

  /** `offset(val)`: add `val as usize`, wrapping, so a negative offset moves the address down. */
  function Offset(x: Usize, val: int): (r: Usize)
    requires -0x8000_0000_0000_0000 <= val < 0x8000_0000_0000_0000
    ensures r == (x + val) % USIZE_MOD
    ensures 0 <= x + val < USIZE_MOD ==> r == x + val
  {
    WrappingAdd(x, IsizeAsUsize(val))
  }

  /** `Step::steps_between` for page numbers. */
  function StepsBetween(start: Usize, end: Usize): (r: Option<nat>)
    ensures r.Some? <==> start <= end
    ensures r.Some? ==> start + r.value == end
  {
    if end >= start then Some(end - start) else None
  }

  /**
   * `Step::forward_checked` for `VirtPageNum`: convert the count with `VirtPageNum::from` (which
   * asserts its width) and add it, wrapping; never `None`.
   */
  function ForwardChecked(start: Usize, count: Usize): (r: Outcome<Option<Usize>>)
    ensures r.Done? <==> VirtPageNumFromAsWritten(count).Done?
    ensures r.Done? ==> r.value == Some((start + count) % USIZE_MOD)
  {
    match VirtPageNumFromAsWritten(count)
    case Done(c) => Done(Some(WrappingAdd(start, c)))
    case Panic => Panic
  }

  /** `Step::backward_checked` for `VirtPageNum`: the same conversion, then subtract, wrapping. */
  function BackwardChecked(start: Usize, count: Usize): (r: Outcome<Option<Usize>>)
    ensures r.Done? <==> VirtPageNumFromAsWritten(count).Done?
    ensures r.Done? ==> r.value == Some((start - count) % USIZE_MOD)
  {
    match VirtPageNumFromAsWritten(count)
    case Done(c) => Done(Some(WrappingSub(start, c)))
    case Panic => Panic
  }

  /** `Step::forward_checked` for `PhysPageNum`: `PhysPageNum::from` asserts the count's width. */
  function PhysForwardChecked(start: Usize, count: Usize): (r: Outcome<Option<Usize>>)
    ensures r.Done? <==> count < PPN_LIMIT
    ensures r.Done? ==> r.value == Some((start + count) % USIZE_MOD)
  {
    match PhysPageNumFrom(count)
    case Done(c) => Done(Some(WrappingAdd(start, c)))
    case Panic => Panic
  }

  /** `Step::backward_checked` for `PhysPageNum`. */
  function PhysBackwardChecked(start: Usize, count: Usize): (r: Outcome<Option<Usize>>)
    ensures r.Done? <==> count < PPN_LIMIT
    ensures r.Done? ==> r.value == Some((start - count) % USIZE_MOD)
  {
    match PhysPageNumFrom(count)
    case Done(c) => Done(Some(WrappingSub(start, c)))
    case Panic => Panic
  }

  /** Stepping back by a count undoes stepping forward by it, wrap-around included. */
  lemma BackwardUndoesForward(start: Usize, count: Usize)
    requires VirtPageNumFromAsWritten(count).Done?
    ensures ForwardChecked(start, count).Done?
    ensures BackwardChecked(ForwardChecked(start, count).value.value, count) == Done(Some(start))
    ensures count < PPN_LIMIT ==>
      PhysBackwardChecked(PhysForwardChecked(start, count).value.value, count) == Done(Some(start))
  {
  }

  /** Stepping forward by a small count and measuring back gives the count. */
  lemma ForwardThenStepsBetween(start: Usize, count: Usize)
    requires count < VPN_LIMIT && start + count < USIZE_MOD
    ensures ForwardChecked(start, count) == Done(Some(start + count))
    ensures StepsBetween(start, start + count) == Some(count)
  {
  }
}
