/**
 * The SV39 page-table entry, shared by both memory snapshots (`PageTableEntry` and `PTEFlags`
 * in `src/mm/page_table.rs` and `src/mem/page_table.rs`, whose codecs are identical).
 *
 * An entry is one 64-bit word: flags in bits 0..7, the physical page number in bits 10..53.
 */
module Pte {
  import opened Sv39

  /** `PTEFlags`, a `u8` bit set. */
  type PteFlags = bv8

  const V: PteFlags := 1
  const R: PteFlags := 2
  const W: PteFlags := 4
  const X: PteFlags := 8
  const U: PteFlags := 16
  const G: PteFlags := 32
  const A: PteFlags := 64
  const D: PteFlags := 128

  /** 2^54: shifting a page number left by ten bits keeps only its low 54 bits. */
  const SHIFTED_PPN_LIMIT: nat := 0x40_0000_0000_0000

  /**
   * `PageTableEntry::new(ppn, flags)`: `ppn << 10 | flags`. The shifted number has its low ten
   * bits clear, so or-ing in an eight-bit flag set adds it.
   */
  function New(ppn: Usize, flags: PteFlags): (bits: Usize)
    ensures Flags(bits) == flags
    ensures ppn < PPN_LIMIT ==> Ppn(bits) == ppn
  {
    var k := ppn % SHIFTED_PPN_LIMIT;
    PackUnpack(k, flags as nat);
    assert ((flags as nat) as bv8) == flags;
    k * 1024 + flags as nat
  }

  /** A number below 256 survives the trip through a byte. */
  lemma ByteRoundTrip(n: nat)
    requires n < 256
    ensures (n as bv8) as nat == n
  {
    // Splitting on the two top bits keeps each bit-vector query small.
    if n < 128 {
      if n < 64 { } else { }
    } else {
      if n < 192 { } else { }
    }
  }

  lemma PackUnpack(k: nat, f: nat)
    requires f < 256
    ensures (k * 1024 + f) % 256 == f
    ensures (k * 1024 + f) / 1024 == k
  {
  }

  /** `ppn()`: `bits >> 10 & ((1 << 44) - 1)`. */
  function Ppn(bits: Usize): (ppn: Usize)
    ensures ppn < PPN_LIMIT
  {
    (bits / 1024) % PPN_LIMIT
  }

  /** `flags()`: `PTEFlags::from_bits_truncate(bits as u8)`; all eight bits are defined flags. */
  function Flags(bits: Usize): (f: PteFlags)
  {
    (bits % 256) as bv8
  }

  /** `PageTableEntry::empty()`, the all-zero entry. */
  const EMPTY: Usize := 0

  function IsValid(bits: Usize): (b: bool)
  {
    Flags(bits) & V != 0
  }

  /** `is_leaf` (older snapshot only): at least one of R, W and X is set. */
  function IsLeaf(bits: Usize): (b: bool)
  {
    Flags(bits) & (R | W | X) != 0
  }

  /** An entry built by `new` is valid exactly when its flags contain V; the empty entry is not valid. */
  lemma ValidityOfNew(ppn: Usize, flags: PteFlags)
    ensures IsValid(New(ppn, flags)) <==> flags & V == V
    ensures !IsValid(EMPTY) && Ppn(EMPTY) == 0
  {
  }

  /** `is_leaf` reads exactly the R, W and X bits of the flags an entry was built with. */
  lemma LeafnessOfNew(ppn: Usize, flags: PteFlags)
    ensures IsLeaf(New(ppn, flags)) <==> (flags & R == R || flags & W == W || flags & X == X)
  {
  }

  /**
   * Decoding and re-encoding an entry gives it back when the bits that neither field covers
   * (the two software bits 8..9 and the reserved bits 54..63) are zero.
   */
  lemma EncodeDecode(bits: Usize)
    requires bits < PPN_LIMIT * 1024 && bits % 1024 < 256
    ensures New(Ppn(bits), Flags(bits)) == bits
  {
    var q := bits / 1024;
    var f := bits % 1024;
    assert bits == q * 1024 + f;
    assert q < PPN_LIMIT;
    assert Ppn(bits) == q;
    assert q % SHIFTED_PPN_LIMIT == q;
    assert bits % 256 == f by {
      PackUnpack(q, f);
    }
    ByteRoundTrip(f);
    assert Flags(bits) as nat == f;
    calc {
      New(Ppn(bits), Flags(bits));
      (q % SHIFTED_PPN_LIMIT) * 1024 + Flags(bits) as nat;
      q * 1024 + f;
    }
  }
}
