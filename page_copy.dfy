/**
 * Filling frames with a segment's bytes a page at a time, as both `copy_data`s do: the data cut
 * into page-sized chunks, chunk `i` written to the start of the frame of the `i`-th page, and
 * what memory holds afterwards.
 */
module PageCopy {
  import opened Sv39
  import opened Pte
  import opened PhysMemory
  import opened PageWalk

  /** The number of page-sized chunks `copy_data` cuts `n` bytes into; the last one may be short. */
  function ChunkCount(n: nat): nat
  {
    (n + PAGE_SIZE - 1) / PAGE_SIZE
  }

  /** Chunk `i` of the data: bytes `i * PAGE_SIZE` up to the next page boundary or the end. */
  function Chunk(data: seq<bv8>, i: nat): (c: seq<bv8>)
    requires i < ChunkCount(|data|)
    ensures 0 < |c| <= PAGE_SIZE
    ensures i * PAGE_SIZE + |c| <= |data|
    ensures i + 1 < ChunkCount(|data|) ==> |c| == PAGE_SIZE
  {
    var end := if (i + 1) * PAGE_SIZE < |data| then (i + 1) * PAGE_SIZE else |data|;
    data[i * PAGE_SIZE .. end]
  }

  /** Every byte of the data lies in exactly one chunk: byte `k` is byte `k % PAGE_SIZE` of chunk `k / PAGE_SIZE`. */
  lemma ChunkOfByte(data: seq<bv8>, k: nat)
    requires k < |data|
    ensures k / PAGE_SIZE < ChunkCount(|data|)
    ensures k % PAGE_SIZE < |Chunk(data, k / PAGE_SIZE)|
    ensures Chunk(data, k / PAGE_SIZE)[k % PAGE_SIZE] == data[k]
  {
  }

  /** The frame page `vpn` maps to, read off its leaf entry as `pte.ppn()` does. */
  ghost function FrameOfPage(words: Words, root: nat, vpn: nat): Usize
  {
    match Translation(words, root, vpn)
    case Some(pte) => Ppn(pte)
    case None => 0
  }

  /**
   * Byte `s` of memory once chunks `0..k` of `data` are written, chunk `i` to the start of the
   * frame of page `start + i`, over the bytes `b0`: the last chunk written over a byte decides it.
   */
  ghost function Copied(b0: Bytes, words: Words, root: nat, start: nat, data: seq<bv8>, k: nat, s: Slot): bv8
    requires k <= ChunkCount(|data|)
  {
    if k == 0 then ByteAt(b0, s)
    else
      var c := Chunk(data, k - 1);
      if Translation(words, root, start + k - 1).Some? && s.ppn == FrameOfPage(words, root, start + k - 1) && s.index < |c|
      then c[s.index]
      else Copied(b0, words, root, start, data, k - 1, s)
  }

  /** Pages `start..start + k` all have leaf entries, and those entries name pairwise distinct frames. */
  ghost predicate DistinctFrames(words: Words, root: nat, start: nat, k: nat)
  {
    && (forall v: nat :: start <= v < start + k ==> Translation(words, root, v).Some?)
    && (forall u: nat, v: nat :: start <= u < v < start + k ==> FrameOfPage(words, root, u) != FrameOfPage(words, root, v))
  }

  /** With distinct frames, the first bytes of page `v`'s frame hold chunk `v - start` once `k` chunks are written. */
  lemma {:induction false} CopiedLands(b0: Bytes, words: Words, root: nat, start: nat, data: seq<bv8>, k: nat, v: nat, s: Slot)
    requires k <= ChunkCount(|data|) && DistinctFrames(words, root, start, k)
    requires start <= v < start + k && s.ppn == FrameOfPage(words, root, v) && s.index < |Chunk(data, v - start)|
    ensures Copied(b0, words, root, start, data, k, s) == data[(v - start) * PAGE_SIZE + s.index]
  {
    if v < start + k - 1 {
      assert FrameOfPage(words, root, v) != FrameOfPage(words, root, start + k - 1);
      CopiedLands(b0, words, root, start, data, k - 1, v, s);
      assert Copied(b0, words, root, start, data, k, s) == Copied(b0, words, root, start, data, k - 1, s);
    } else {
      assert v == start + k - 1 && Translation(words, root, v).Some?;
      var c := Chunk(data, k - 1);
      assert Copied(b0, words, root, start, data, k, s) == c[s.index];
      assert c[s.index] == data[(k - 1) * PAGE_SIZE + s.index];
      assert v - start == k - 1;
    }
  }

  /** A byte outside the first `|chunk|` bytes of every written page's frame keeps its old value. */
  lemma {:induction false} CopiedElsewhere(b0: Bytes, words: Words, root: nat, start: nat, data: seq<bv8>, k: nat, s: Slot)
    requires k <= ChunkCount(|data|)
    requires forall v: nat :: start <= v < start + k ==> s.ppn != FrameOfPage(words, root, v) || s.index >= |Chunk(data, v - start)|
    ensures Copied(b0, words, root, start, data, k, s) == ByteAt(b0, s)
  {
    if k > 0 {
      assert s.ppn != FrameOfPage(words, root, start + k - 1) || s.index >= |Chunk(data, k - 1)|;
      CopiedElsewhere(b0, words, root, start, data, k - 1, s);
    }
  }

  /** Every byte of `b` is what `Copied` says after `k` chunks. */
  ghost predicate CopiedState(b: Bytes, b0: Bytes, words: Words, root: nat, start: nat, data: seq<bv8>, k: nat)
    requires k <= ChunkCount(|data|)
  {
    forall s: Slot {:trigger ByteAt(b, s)} :: ByteAt(b, s) == Copied(b0, words, root, start, data, k, s)
  }

  /** Writing chunk `i` to its page's frame over the state after `i` chunks gives the state after `i + 1`. */
  lemma CopyStep(b0: Bytes, b: Bytes, b': Bytes, words: Words, root: nat, start: nat, data: seq<bv8>, i: nat,
                  ppn: nat, src: seq<bv8>)
    requires i < ChunkCount(|data|) && Translation(words, root, start + i).Some?
    requires ppn == FrameOfPage(words, root, start + i) && src == Chunk(data, i)
    requires CopiedState(b, b0, words, root, start, data, i)
    requires forall s :: ByteAt(b', s) == if s.ppn == ppn && s.index < |src| then src[s.index] else ByteAt(b, s)
    ensures CopiedState(b', b0, words, root, start, data, i + 1)
  {
    forall s: Slot ensures ByteAt(b', s) == Copied(b0, words, root, start, data, i + 1, s) {
      assert ByteAt(b, s) == Copied(b0, words, root, start, data, i, s);
    }
  }

  /** One turn of the `copy_data` loop: chunk `i` goes to the start of frame `ppn`, page `start + i`'s frame. */
  method WriteChunk(ram: PhysMem, ppn: nat, src: seq<bv8>, ghost b0: Bytes, ghost words: Words, ghost root: nat,
                    ghost start: nat, ghost data: seq<bv8>, ghost i: nat)
    requires i < ChunkCount(|data|) && Translation(words, root, start + i).Some?
    requires ppn == FrameOfPage(words, root, start + i) && src == Chunk(data, i)
    requires CopiedState(ram.bytes, b0, words, root, start, data, i)
    modifies ram
    ensures ram.words == old(ram.words)
    ensures CopiedState(ram.bytes, b0, words, root, start, data, i + 1)
  {
    ghost var b := ram.bytes;
    ram.CopyToFrame(ppn, src);
    CopyStep(b0, b, ram.bytes, words, root, start, data, i, ppn, src);
  }
}
