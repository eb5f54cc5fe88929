/** `aligned_size` of `src/stdlib/tools.rs`, with `size_of::<T>()` passed in as `rawSize`. */
module StdlibTools {
  import opened Wrappers
  import opened Sv39
  import Tools

  /**
   * `aligned_size::<T>(meta)`: `rawSize` itself when `meta` divides it, else
   * `rawSize + meta - rawSize % meta` in wrapping `usize` arithmetic; the remainder panics on
   * `meta == 0`.
   */
  function AlignedSize(rawSize: Usize, meta: Usize): (r: Outcome<Usize>)
    ensures r.Panic? <==> meta == 0
  {
    if meta == 0 then Panic
    else
      var rem := rawSize % meta;
      if rem == 0 then Done(rawSize) else Done(WrappingSub(WrappingAdd(rawSize, meta), rem))
  }

  /** Without overflow, the result is the least multiple of `meta` that is at least `rawSize`. */
  lemma AlignedSizeIsLeastMultiple(rawSize: Usize, meta: Usize)
    requires 1 <= meta && rawSize + meta < USIZE_MOD
    ensures var c := AlignedSize(rawSize, meta).value;
      c % meta == 0 && rawSize <= c < rawSize + meta &&
      forall k: nat :: k * meta >= rawSize ==> k * meta >= c
  {
    var q := rawSize / meta;
    var rem := rawSize % meta;
    var c := AlignedSize(rawSize, meta).value;
    assert rawSize == q * meta + rem;
    if rem == 0 {
      assert c == q * meta;
      Tools.DivModUnique(c, meta, q, 0);
      forall k: nat | k * meta >= rawSize
        ensures k * meta >= c
      {
      }
    } else {
      assert c == (q + 1) * meta by {
        assert (q + 1) * meta == q * meta + meta;
      }
      Tools.DivModUnique(c, meta, q + 1, 0);
      forall k: nat | k * meta >= rawSize
        ensures k * meta >= c
      {
        if k <= q {
          Tools.MulMonotone(k, q, meta);
          assert false;
        }
        Tools.MulMonotone(q + 1, k, meta);
      }
    }
  }

  /** For a non-zero size, `aligned_size` and `align_ceil` of `src/tools/mod.rs` agree. */
  lemma AlignedSizeMatchesAlignCeil(rawSize: Usize, meta: Usize)
    requires 1 <= rawSize && 1 <= meta && rawSize + meta < USIZE_MOD
    ensures AlignedSize(rawSize, meta) == Tools.AlignCeil(rawSize, meta)
  {
    var q := rawSize / meta;
    var rem := rawSize % meta;
    assert rawSize == q * meta + rem;
    if rem == 0 {
      assert q >= 1;
      assert rawSize - 1 == (q - 1) * meta + (meta - 1) by {
        assert (q - 1) * meta == q * meta - meta;
      }
      Tools.DivModUnique(rawSize - 1, meta, q - 1, meta - 1);
    } else {
      Tools.DivModUnique(rawSize - 1, meta, q, rem - 1);
    }
  }
}
