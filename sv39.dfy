/**
 * Constants of the RISC-V SV39 paging scheme shared by both memory snapshots, machine-word
 * arithmetic, and the split of a virtual page number into its three page-table indices.
 *
 * The kernel is compiled for a 64-bit hart, so `usize` is a 64-bit unsigned integer.
 * Arithmetic on it wraps modulo 2^64 (the kernel relies on this when it adds a negative
 * `isize` offset cast to `usize`).
 */
module Sv39 {
  const USIZE_MOD: nat := 0x1_0000_0000_0000_0000
  type Usize = x: nat | x < USIZE_MOD

  const PAGE_SIZE: nat := 4096
  const PAGE_WIDTH: nat := 12
  /** Number of levels and entries per table in SV39. */
  const PAGE_LEVELS: nat := 3
  const ENTRIES: nat := 512

  /** 2^56, 2^44, 2^39 and 2^27: the SV39 physical-address, physical-page, virtual-address and virtual-page widths. */
  const PA_LIMIT: nat := 0x100_0000_0000_0000
  const PPN_LIMIT: nat := 0x1000_0000_0000
  const VA_LIMIT: nat := 0x80_0000_0000
  const VPN_LIMIT: nat := 0x800_0000

  /** Wrapping addition of two machine words. */
  function WrappingAdd(a: Usize, b: Usize): (r: Usize)
    ensures a + b < USIZE_MOD ==> r == a + b
    ensures a + b >= USIZE_MOD ==> r == a + b - USIZE_MOD
  {
    (a + b) % USIZE_MOD
  }

  /** Wrapping subtraction of two machine words. */
  function WrappingSub(a: Usize, b: Usize): (r: Usize)
    ensures a >= b ==> r == a - b
    ensures a < b ==> r == a - b + USIZE_MOD
  {
    (a - b) % USIZE_MOD
  }

  /** Reinterpretation of a word as a two's-complement `isize` (`v as isize`). */
  function AsIsize(v: Usize): (r: int)
    ensures -0x8000_0000_0000_0000 <= r < 0x8000_0000_0000_0000
    ensures r % USIZE_MOD == v
  {
    if v < 0x8000_0000_0000_0000 then v else v - USIZE_MOD
  }

  /** Reinterpretation of an `isize` as a word (`val as usize`), the inverse of `AsIsize`. */
  function IsizeAsUsize(val: int): (r: Usize)
    requires -0x8000_0000_0000_0000 <= val < 0x8000_0000_0000_0000
    ensures AsIsize(r) == val
  {
    if val >= 0 then val else val + USIZE_MOD
  }

  const I32_MOD: nat := 0x1_0000_0000

  /** `i32`, the type of exit codes. */
  type I32 = x: int | -0x8000_0000 <= x < 0x8000_0000

  /** `v as i32`: the low 32 bits of the word, read as two's complement. */
  function AsI32(v: Usize): (r: I32)
    ensures r % I32_MOD == v % I32_MOD
  {
    var low := v % I32_MOD;
    if low < 0x8000_0000 then low else low - I32_MOD
  }

  /**
   * The three 9-bit indices of a virtual page number, most significant first: element 2 is the
   * low 9 bits, element 1 the next 9 and element 0 bits 18..26. Higher bits play no part.
   */
  function VpnIndexes(vpn: nat): (ix: seq<nat>)
  {
    [(vpn / 262144) % 512, (vpn / 512) % 512, vpn % 512]
  }

  /** `512^k`, the weight of the k-th group of 9 bits from the bottom. */
  function IndexScale(k: nat): (s: nat)
    requires k <= 3
    ensures s > 0
  {
    if k == 0 then 1 else 512 * IndexScale(k - 1)
  }

  lemma DivStep(a: nat, k: nat)
    requires k < 3
    ensures a / IndexScale(k) / 512 == a / IndexScale(k + 1)
  {
    assert IndexScale(1) == 512 && IndexScale(2) == 262144 && IndexScale(3) == 134217728;
  }

  /**
   * `VirtPageNum::indexs`: fill a three-element array from the last slot to the first with the
   * low 9 bits of a shrinking copy of the page number.
   */
  method Indexes(vpn: Usize) returns (ix: seq<nat>)
    ensures ix == VpnIndexes(vpn)
    ensures |ix| == PAGE_LEVELS && forall i :: 0 <= i < |ix| ==> ix[i] < ENTRIES
  {
    var result := new nat[PAGE_LEVELS];
    result[0], result[1], result[2] := 0, 0, 0;
    var v: nat := vpn;
    var i := PAGE_LEVELS;
    while i > 0
      invariant 0 <= i <= PAGE_LEVELS
      invariant v == vpn / IndexScale(PAGE_LEVELS - i)
      invariant forall j :: i <= j < PAGE_LEVELS ==> result[j] == vpn / IndexScale(PAGE_LEVELS - 1 - j) % 512
    {
      i := i - 1;
      result[i] := v % 512;
      DivStep(vpn, PAGE_LEVELS - 1 - i);
      v := v / 512;
    }
    assert IndexScale(1) == 512 && IndexScale(2) == 262144;
    ix := result[..];
  }

  /** Recombining the indices gives back the page number's low 27 bits. */
  lemma IndexesRecombine(vpn: nat)
    ensures var ix := VpnIndexes(vpn);
      ix[0] * 262144 + ix[1] * 512 + ix[2] == vpn % VPN_LIMIT
  {
    var q, r := vpn / 512, vpn % 512;
    var q2, r2 := q / 512, q % 512;
    var q3, r3 := q2 / 512, q2 % 512;
    assert vpn == q * 512 + r && q == q2 * 512 + r2 && q2 == q3 * 512 + r3;
    assert vpn == q2 * 262144 + (r2 * 512 + r) && r2 * 512 + r < 262144;
    assert vpn / 262144 == q2;
    assert vpn == q3 * VPN_LIMIT + (r3 * 262144 + r2 * 512 + r) && r3 * 262144 + r2 * 512 + r < VPN_LIMIT;
  }

  /** Two page numbers below 2^27 with the same indices are equal. */
  lemma IndexesInjective(a: nat, b: nat)
    requires a < VPN_LIMIT && b < VPN_LIMIT
    requires VpnIndexes(a) == VpnIndexes(b)
    ensures a == b
  {
    IndexesRecombine(a);
    IndexesRecombine(b);
  }

  /** Page numbers that agree in their low 27 bits have the same indices (sign-extended addresses alias). */
  lemma IndexesLow27(a: nat, b: nat)
    requires a % VPN_LIMIT == b % VPN_LIMIT
    ensures VpnIndexes(a) == VpnIndexes(b)
  {
    IndexesRecombine(a);
    IndexesRecombine(b);
    var ia, ib := VpnIndexes(a), VpnIndexes(b);
    assert ia[2] == ib[2];
    assert ia[1] == ib[1];
  }
}
