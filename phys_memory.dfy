/**
 * Physical memory as the page-table code sees it.
 *
 * The source reaches a frame through raw casts: `as_pte_array` reads it as 512 entries and
 * `as_bytes` as 4096 bytes. Here the two views are two maps keyed by frame and position. A
 * position that was never written reads as zero. Only the zero-fill of a fresh frame
 * (`FrameTracker::new`) touches both views; otherwise page-table frames are read as entries
 * and data frames as bytes.
 */
module PhysMemory {
  import opened Sv39

  /** A position inside a frame: entry `index` of frame `ppn`, or byte `index` of it. */
  datatype Slot = Slot(ppn: nat, index: nat)

  type Words = map<Slot, Usize>
  type Bytes = map<Slot, bv8>

  /** The entry stored at a slot. */
  function WordAt(words: Words, s: Slot): Usize
  {
    if s in words then words[s] else 0
  }

  function ByteAt(bytes: Bytes, s: Slot): bv8
  {
    if s in bytes then bytes[s] else 0
  }

  /** The 4096 bytes of a frame, in order. */
  function FrameBytes(bytes: Bytes, ppn: nat): (page: seq<bv8>)
    ensures |page| == PAGE_SIZE
    ensures forall i :: 0 <= i < PAGE_SIZE ==> page[i] == ByteAt(bytes, Slot(ppn, i))
  {
    seq(PAGE_SIZE, i requires 0 <= i < PAGE_SIZE => ByteAt(bytes, Slot(ppn, i)))
  }

  /** The word view with frame `ppn` cleared. */
  function ClearFrameWords(words: Words, ppn: nat): (w: Words)
    ensures forall s :: WordAt(w, s) == if s.ppn == ppn then 0 else WordAt(words, s)
  {
    map s | s in words && s.ppn != ppn :: words[s]
  }

  class PhysMem {
    var words: Words
    var bytes: Bytes

    constructor ()
      ensures words == map[] && bytes == map[]
    {
      words := map[];
      bytes := map[];
    }

    method WriteWord(s: Slot, v: Usize)
      modifies this
      ensures words == old(words)[s := v] && bytes == old(bytes)
    {
      words := words[s := v];
    }

    method WriteByte(s: Slot, v: bv8)
      modifies this
      ensures bytes == old(bytes)[s := v] && words == old(words)
    {
      bytes := bytes[s := v];
    }

    /**
     * `ppn.as_bytes().fill(0)`: write a zero at every byte of the frame. The same store makes every
     * entry of the frame zero, which the word view records at the end.
     */
    method ZeroFill(ppn: nat)
      modifies this
      ensures words == ClearFrameWords(old(words), ppn)
      ensures forall s :: ByteAt(bytes, s) == if s.ppn == ppn && s.index < PAGE_SIZE then 0 else ByteAt(old(bytes), s)
      ensures FrameBytes(bytes, ppn) == seq(PAGE_SIZE, _ => 0)
    {
      var i := 0;
      while i < PAGE_SIZE
        invariant 0 <= i <= PAGE_SIZE
        invariant words == old(words)
        invariant forall s :: ByteAt(bytes, s) == if s.ppn == ppn && s.index < i then 0 else ByteAt(old(bytes), s)
      {
        bytes := bytes[Slot(ppn, i) := 0];
        i := i + 1;
      }
      words := ClearFrameWords(words, ppn);
    }

    /**
     * `ppn.as_bytes()[..src.len()].copy_from_slice(src)`: the first `|src|` bytes of the frame
     * become `src`, and nothing else changes (the word view of those bytes is not tracked).
     */
    method CopyToFrame(ppn: nat, src: seq<bv8>)
      requires |src| <= PAGE_SIZE
      modifies this
      ensures words == old(words)
      ensures forall s :: ByteAt(bytes, s) == if s.ppn == ppn && s.index < |src| then src[s.index] else ByteAt(old(bytes), s)
    {
      var i := 0;
      while i < |src|
        invariant 0 <= i <= |src|
        invariant words == old(words)
        invariant forall s :: ByteAt(bytes, s) == if s.ppn == ppn && s.index < i then src[s.index] else ByteAt(old(bytes), s)
      {
        bytes := bytes[Slot(ppn, i) := src[i]];
        i := i + 1;
      }
    }

    /** `dst.as_bytes().copy_from_slice(src.as_bytes())`: frame `dst` gets the bytes frame `src` had. */
    method CopyFrame(dst: nat, src: nat)
      modifies this
      ensures words == old(words)
      ensures forall s ::
                ByteAt(bytes, s) == if s.ppn == dst && s.index < PAGE_SIZE then ByteAt(old(bytes), Slot(src, s.index)) else ByteAt(old(bytes), s)
    {
      CopyToFrame(dst, FrameBytes(bytes, src));
    }
  }
}
