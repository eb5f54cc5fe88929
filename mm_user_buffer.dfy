/**
 * User buffers of the newer snapshot (`src/mm/page_table.rs`): a user byte range cut into
 * per-page pieces of physical frames (`translated_byte_buffer`), the `BufferHandle` that writes
 * through them, and the iterator over their bytes.
 *
 * A piece `Piece(ppn, lo, hi)` stands for the slice `ppn.as_bytes()[lo..hi]`; its bytes are the
 * byte slots `lo .. hi - 1` of frame `ppn`.
 */
module MmUserBuffer {
  import opened Wrappers
  import opened Sv39
  import opened Pte
  import opened PhysMemory
  import opened PageWalk
  import MmAddress
  import MmPageTable

  datatype Piece = Piece(ppn: nat, lo: nat, hi: nat)

  /** The length of a slice; a piece with `lo > hi` is never built (slicing it panics). */
  function Len(p: Piece): nat
  {
    if p.lo <= p.hi then p.hi - p.lo else 0
  }

  /** The byte slots of one piece, in order. */
  function PieceSlots(p: Piece): (s: seq<Slot>)
    ensures |s| == Len(p)
    ensures forall j :: 0 <= j < |s| ==> s[j] == Slot(p.ppn, p.lo + j)
  {
    seq(Len(p), j requires 0 <= j < Len(p) => Slot(p.ppn, p.lo + j))
  }

  /** The byte slots of a list of pieces, one piece after the other. */
  function Flatten(ps: seq<Piece>): (s: seq<Slot>)
    ensures |s| == TotalLen(ps)
  {
    if ps == [] then [] else PieceSlots(ps[0]) + Flatten(ps[1..])
  }

  function TotalLen(ps: seq<Piece>): nat
  {
    if ps == [] then 0 else Len(ps[0]) + TotalLen(ps[1..])
  }

  lemma {:induction false} FlattenAppend(a: seq<Piece>, b: seq<Piece>)
    ensures Flatten(a + b) == Flatten(a) + Flatten(b)
    decreases |a|
  {
    if a == [] {
      assert a + b == b;
    } else {
      assert (a + b)[1..] == a[1..] + b;
      FlattenAppend(a[1..], b);
    }
  }

  lemma FlattenSnoc(ps: seq<Piece>, i: nat)
    requires i < |ps|
    ensures Flatten(ps[..i + 1]) == Flatten(ps[..i]) + PieceSlots(ps[i])
  {
    assert ps[..i + 1] == ps[..i] + [ps[i]];
    FlattenAppend(ps[..i], [ps[i]]);
    assert Flatten([ps[i]]) == PieceSlots(ps[i]) + Flatten([]);
  }

  function Min(a: nat, b: nat): nat
  {
    if b < a then b else a
  }

  /** The physical byte behind virtual address `a` under the table rooted at `root`, if its page translates. */
  function ByteSlot(words: Words, root: nat, a: nat): (r: Option<Slot>)
  {
    match Translation(words, root, a / PAGE_SIZE)
    case None => None
    case Some(e) => Some(Slot(Ppn(e), a % PAGE_SIZE))
  }

  /**
   * The pieces `translated_byte_buffer` is evidently meant to return for `[start, end)`: up to
   * the next page boundary or `end`, whichever comes first, and a panic (`unwrap` of `None`) at
   * the first page that does not translate. Each piece's upper bound is the piece's end
   * measured from the start of its page.
   */
  function Pieces(words: Words, root: nat, start: nat, end: nat): (r: Outcome<seq<Piece>>)
    requires end <= USIZE_MOD - PAGE_SIZE
    decreases end - start
  {
    if start >= end then Done([])
    else
      var vpn := start / 4096;
      match Translation(words, root, vpn)
      case None => Panic
      case Some(e) =>
        var next := Min((vpn + 1) * 4096, end);
        match Pieces(words, root, next, end)
        case Panic => Panic
        case Done(rest) => Done([Piece(Ppn(e), start % 4096, next - vpn * 4096)] + rest)
  }

  /**
   * `translated_byte_buffer` as written: the upper bound of a piece is `end_va.page_offset()`,
   * which is 0 when the piece ends on a page boundary. Slicing `[lo..0]` with `lo > 0` panics;
   * with `lo == 0` it yields an empty piece.
   */
  function PiecesAsWritten(words: Words, root: nat, start: nat, end: nat): (r: Outcome<seq<Piece>>)
    requires end <= USIZE_MOD - PAGE_SIZE
    decreases end - start
  {
    if start >= end then Done([])
    else
      var vpn := start / 4096;
      match Translation(words, root, vpn)
      case None => Panic
      case Some(e) =>
        var next := Min((vpn + 1) * 4096, end);
        if start % 4096 > next % 4096 then Panic
        else
          match PiecesAsWritten(words, root, next, end)
          case Panic => Panic
          case Done(rest) => Done([Piece(Ppn(e), start % 4096, next % 4096)] + rest)
  }

  /** The call panics exactly when some page of `[start, end)` does not translate. */
  lemma {:induction false} PiecesPanicIff(words: Words, root: nat, start: nat, end: nat)
    requires end <= USIZE_MOD - PAGE_SIZE
    ensures Pieces(words, root, start, end).Done? <==>
      forall a :: start <= a < end ==> ByteSlot(words, root, a).Some?
    decreases end - start
  {
    if start < end {
      var vpn := start / 4096;
      var next := Min((vpn + 1) * 4096, end);
      PiecesPanicIff(words, root, next, end);
      if Translation(words, root, vpn).None? {
        assert ByteSlot(words, root, start).None?;
      } else {
        forall a | start <= a < next
          ensures ByteSlot(words, root, a).Some?
        {
          assert a / 4096 == vpn;
        }
      }
    }
  }

  /** Each piece is non-empty and lies inside one frame. */
  lemma {:induction false} PiecesInsideFrames(words: Words, root: nat, start: nat, end: nat)
    requires end <= USIZE_MOD - PAGE_SIZE
    ensures Pieces(words, root, start, end).Done? ==>
      var ps := Pieces(words, root, start, end).value;
      forall i :: 0 <= i < |ps| ==> ps[i].lo < ps[i].hi <= PAGE_SIZE
    decreases end - start
  {
    if start < end {
      var vpn := start / 4096;
      var next := Min((vpn + 1) * 4096, end);
      PiecesInsideFrames(words, root, next, end);
      if Pieces(words, root, start, end).Done? {
        var e := Translation(words, root, vpn).value;
        assert Pieces(words, root, next, end).Done?;
        var rest := Pieces(words, root, next, end).value;
        var p := Piece(Ppn(e), start % 4096, next - vpn * 4096);
        assert p.lo < p.hi <= PAGE_SIZE;
        var ps := [p] + rest;
        assert ps == Pieces(words, root, start, end).value;
        forall i | 0 <= i < |ps|
          ensures ps[i].lo < ps[i].hi <= PAGE_SIZE
        {
          if i > 0 {
            assert ps[i] == rest[i - 1];
            assert rest[i - 1].lo < rest[i - 1].hi <= PAGE_SIZE;
          }
        }
      }
    }
  }

  /**
   * The pieces cover `[start, end)` exactly and in order: the k-th byte of the buffer is the
   * physical byte behind address `start + k`.
   */
  lemma {:induction false} PiecesCover(words: Words, root: nat, start: nat, end: nat)
    requires end <= USIZE_MOD - PAGE_SIZE
    ensures Pieces(words, root, start, end).Done? ==>
      var f := Flatten(Pieces(words, root, start, end).value);
      |f| == (if start <= end then end - start else 0) &&
      forall k :: 0 <= k < |f| ==> Some(f[k]) == ByteSlot(words, root, start + k)
    decreases end - start
  {
    if start < end && Pieces(words, root, start, end).Done? {
      var vpn := start / 4096;
      var next := Min((vpn + 1) * 4096, end);
      PiecesCover(words, root, next, end);
      var e := Translation(words, root, vpn).value;
      var rest := Pieces(words, root, next, end).value;
      var p := Piece(Ppn(e), start % 4096, next - vpn * 4096);
      assert Len(p) == next - start;
      var ps := [p] + rest;
      assert ps == Pieces(words, root, start, end).value;
      assert ps[1..] == rest;
      var f := Flatten(ps);
      assert f == PieceSlots(p) + Flatten(rest);
      forall k | 0 <= k < |f|
        ensures Some(f[k]) == ByteSlot(words, root, start + k)
      {
        if k < Len(p) {
          assert (start + k) / 4096 == vpn;
          assert f[k] == Slot(Ppn(e), p.lo + k);
        } else {
          assert f[k] == Flatten(rest)[k - Len(p)];
        }
      }
    }
  }

  /** As written, a piece that reaches a page boundary from the start of its page comes out empty. */
  lemma BoundaryPieceLost(words: Words, root: nat)
    requires Translation(words, root, 1).Some?
    ensures var p := Ppn(Translation(words, root, 1).value);
      PiecesAsWritten(words, root, 0x1000, 0x2000) == Done([Piece(p, 0, 0)]) &&
      Pieces(words, root, 0x1000, 0x2000) == Done([Piece(p, 0, PAGE_SIZE)])
  {
    var e := Translation(words, root, 1).value;
    assert 0x1000 / 4096 == 1 && 0x1000 % 4096 == 0 && Min(2 * 4096, 0x2000) == 0x2000;
    assert PiecesAsWritten(words, root, 0x2000, 0x2000) == Done([]);
    assert Pieces(words, root, 0x2000, 0x2000) == Done([]);
    assert PiecesAsWritten(words, root, 0x1000, 0x2000) == Done([Piece(Ppn(e), 0, 0x2000 % 4096)] + []);
    assert Pieces(words, root, 0x1000, 0x2000) == Done([Piece(Ppn(e), 0, 0x2000 - 1 * 4096)] + []);
    assert [Piece(Ppn(e), 0, 0)] + [] == [Piece(Ppn(e), 0, 0)];
    assert [Piece(Ppn(e), 0, PAGE_SIZE)] + [] == [Piece(Ppn(e), 0, PAGE_SIZE)];
  }

  /** As written, a piece that starts inside a page and reaches its boundary panics on the slice `[8..0]`. */
  lemma UnalignedPieceToBoundaryPanics(words: Words, root: nat)
    requires Translation(words, root, 1).Some?
    ensures var p := Ppn(Translation(words, root, 1).value);
      PiecesAsWritten(words, root, 0x1008, 0x2000) == Panic &&
      Pieces(words, root, 0x1008, 0x2000) == Done([Piece(p, 8, PAGE_SIZE)])
  {
    var e := Translation(words, root, 1).value;
    assert 0x1008 / 4096 == 1 && 0x1008 % 4096 == 8 && Min(2 * 4096, 0x2000) == 0x2000;
    assert Pieces(words, root, 0x2000, 0x2000) == Done([]);
    assert Pieces(words, root, 0x1008, 0x2000) == Done([Piece(Ppn(e), 8, 0x2000 - 1 * 4096)] + []);
    assert [Piece(Ppn(e), 8, PAGE_SIZE)] + [] == [Piece(Ppn(e), 8, PAGE_SIZE)];
  }

  /** The code as written gives the intended pieces exactly for ranges inside one page that stop short of its end. */
  lemma AsWrittenAgreesInsideOnePage(words: Words, root: nat, start: nat, end: nat)
    requires start < end <= USIZE_MOD - PAGE_SIZE
    requires start / PAGE_SIZE == (end - 1) / PAGE_SIZE && end % PAGE_SIZE != 0
    ensures PiecesAsWritten(words, root, start, end) == Pieces(words, root, start, end)
  {
    var vpn := start / 4096;
    assert Min((vpn + 1) * 4096, end) == end;
    assert end - vpn * 4096 == end % 4096;
  }

  /** `result` in front of the pieces of an outcome; a panic stays a panic. */
  function Prepend(result: seq<Piece>, o: Outcome<seq<Piece>>): Outcome<seq<Piece>>
  {
    match o
    case Panic => Panic
    case Done(rest) => Done(result + rest)
  }

  /**
   * The code as written panics exactly when a page of `[start, end)` does not translate, or when
   * the range starts inside a page and reaches that page's end (the reversed slice).
   */
  lemma {:induction false} PiecesAsWrittenPanicIff(words: Words, root: nat, start: nat, end: nat)
    requires end <= USIZE_MOD - PAGE_SIZE
    ensures PiecesAsWritten(words, root, start, end).Done? <==>
      && (forall a :: start <= a < end ==> ByteSlot(words, root, a).Some?)
      && !(start % PAGE_SIZE != 0 && (start / PAGE_SIZE + 1) * PAGE_SIZE <= end)
    decreases end - start
  {
    if start < end {
      var vpn := start / 4096;
      var next := Min((vpn + 1) * 4096, end);
      PiecesAsWrittenPanicIff(words, root, next, end);
      assert next % 4096 == 0 || next == end;
      if Translation(words, root, vpn).None? {
        assert ByteSlot(words, root, start).None?;
      } else {
        forall a | start <= a < next
          ensures ByteSlot(words, root, a).Some?
        {
          assert a / 4096 == vpn;
        }
        assert start % 4096 > next % 4096 <==> start % 4096 != 0 && (vpn + 1) * 4096 <= end;
      }
    }
  }

  /** Where the first piece of `[start, end)` stops: the next page boundary, or `end` if that comes first. */
  lemma NextStop(start: nat, end: nat)
    requires start < end
    ensures var vpn := start / PAGE_SIZE;
      var next := Min((vpn + 1) * PAGE_SIZE, end);
      && start < next <= end
      && (next < end ==> next % PAGE_SIZE == 0)
      && (next % PAGE_SIZE == 0 <==> (vpn + 1) * PAGE_SIZE <= end || end % PAGE_SIZE == 0)
      && (next % PAGE_SIZE != 0 ==> next == end && next % PAGE_SIZE == next - vpn * PAGE_SIZE)
      && (next % PAGE_SIZE != 0 ==> (end - 1) / PAGE_SIZE == vpn && end - end % PAGE_SIZE == vpn * PAGE_SIZE)
      && (start % PAGE_SIZE <= next % PAGE_SIZE <==> start % PAGE_SIZE == 0 || next % PAGE_SIZE != 0)
  {
  }

  /** The first step of the code as written, when it does not panic. */
  lemma AsWrittenFirstPiece(words: Words, root: nat, start: nat, end: nat)
    requires start < end <= USIZE_MOD - PAGE_SIZE
    requires PiecesAsWritten(words, root, start, end).Done?
    ensures var vpn := start / PAGE_SIZE;
      var next := Min((vpn + 1) * PAGE_SIZE, end);
      && Translation(words, root, vpn).Some?
      && start % PAGE_SIZE <= next % PAGE_SIZE
      && PiecesAsWritten(words, root, next, end).Done?
      && PiecesAsWritten(words, root, start, end).value ==
        [Piece(Ppn(Translation(words, root, vpn).value), start % PAGE_SIZE, next % PAGE_SIZE)] + PiecesAsWritten(words, root, next, end).value
  {
  }

  /** Every piece lies inside one frame, and all but the last are empty. */
  ghost predicate AsWrittenShaped(ps: seq<Piece>)
  {
    && (forall i :: 0 <= i < |ps| - 1 ==> Len(ps[i]) == 0)
    && (forall i :: 0 <= i < |ps| ==> ps[i].lo <= ps[i].hi < PAGE_SIZE)
  }

  /** Every piece the code as written returns lies inside one frame, and all but the last are empty. */
  lemma {:induction false} PiecesAsWrittenShape(words: Words, root: nat, start: nat, end: nat)
    requires start <= end <= USIZE_MOD - PAGE_SIZE
    ensures PiecesAsWritten(words, root, start, end).Done? ==> AsWrittenShaped(PiecesAsWritten(words, root, start, end).value)
    decreases end - start
  {
    if start < end && PiecesAsWritten(words, root, start, end).Done? {
      var vpn := start / 4096;
      var next := Min((vpn + 1) * 4096, end);
      NextStop(start, end);
      AsWrittenFirstPiece(words, root, start, end);
      PiecesAsWrittenShape(words, root, next, end);
      var rest := PiecesAsWritten(words, root, next, end).value;
      var p := Piece(Ppn(Translation(words, root, vpn).value), start % 4096, next % 4096);
      ShapedCons(p, rest);
    }
  }

  lemma ShapedCons(p: Piece, rest: seq<Piece>)
    requires AsWrittenShaped(rest) && p.lo <= p.hi < PAGE_SIZE
    requires rest != [] ==> p.hi == 0
    ensures AsWrittenShaped([p] + rest)
  {
    var ps := [p] + rest;
    forall i | 0 <= i < |ps|
      ensures ps[i].lo <= ps[i].hi < PAGE_SIZE && (i < |ps| - 1 ==> Len(ps[i]) == 0)
    {
      if i > 0 {
        assert ps[i] == rest[i - 1];
      }
    }
  }

  /** The last page boundary at or below `end`, or `start` when that is higher. */
  function KeptFrom(start: nat, end: nat): (lo: nat)
    requires start <= end
    ensures start <= lo <= end && (lo == start || lo % PAGE_SIZE == 0)
  {
    if start < end - end % PAGE_SIZE then end - end % PAGE_SIZE else start
  }

  /**
   * The bytes the code as written reaches are exactly those the intended pieces reach from the
   * last page boundary at or below `end` on (from `start` when that is higher); by `PiecesCover`
   * they are the physical bytes behind those addresses.
   */
  lemma {:induction false} PiecesAsWrittenCover(words: Words, root: nat, start: nat, end: nat)
    requires start <= end <= USIZE_MOD - PAGE_SIZE
    ensures PiecesAsWritten(words, root, start, end).Done? ==>
      && Pieces(words, root, KeptFrom(start, end), end).Done?
      && Flatten(PiecesAsWritten(words, root, start, end).value) == Flatten(Pieces(words, root, KeptFrom(start, end), end).value)
    decreases end - start
  {
    if start < end && PiecesAsWritten(words, root, start, end).Done? {
      var vpn := start / 4096;
      var next := Min((vpn + 1) * 4096, end);
      NextStop(start, end);
      AsWrittenFirstPiece(words, root, start, end);
      PiecesAsWrittenCover(words, root, next, end);
      var e := Translation(words, root, vpn).value;
      var rest := PiecesAsWritten(words, root, next, end).value;
      var p := Piece(Ppn(e), start % 4096, next % 4096);
      if next % 4096 != 0 {
        assert start / PAGE_SIZE == (end - 1) / PAGE_SIZE && end % PAGE_SIZE != 0;
        AsWrittenAgreesInsideOnePage(words, root, start, end);
        assert KeptFrom(start, end) == start;
      } else {
        var ps := [p] + rest;
        assert ps[1..] == rest;
        assert Flatten(ps) == PieceSlots(p) + Flatten(rest);
        assert Len(p) == 0;
        AlignedBelow(next, end);
        assert KeptFrom(next, end) == KeptFrom(start, end);
      }
    }
  }

  /** A page boundary at or below `e` is at or below the last page boundary at or below `e`. */
  lemma AlignedBelow(n: nat, e: nat)
    requires n % PAGE_SIZE == 0 && n <= e
    ensures n <= e - e % PAGE_SIZE
  {
    assert n / PAGE_SIZE <= e / PAGE_SIZE;
  }

  /** A range the code as written serves without loss: empty, or inside one page and short of its end. */
  predicate OnePageRange(start: nat, end: nat)
  {
    start >= end || (start / PAGE_SIZE == (end - 1) / PAGE_SIZE && end % PAGE_SIZE != 0)
  }

  /** On a range inside one page and short of its end, the code as written gives the intended pieces. */
  lemma OnePageAgrees(words: Words, root: nat, start: nat, end: nat)
    requires end <= USIZE_MOD - PAGE_SIZE && OnePageRange(start, end)
    ensures PiecesAsWritten(words, root, start, end) == Pieces(words, root, start, end)
  {
    if start < end {
      AsWrittenAgreesInsideOnePage(words, root, start, end);
    }
  }

  /** A range that does not lie inside one page short of its end gives, as written, an empty first piece or a panic. */
  lemma AcrossPagesLosesFirst(words: Words, root: nat, start: nat, end: nat)
    requires end <= USIZE_MOD - PAGE_SIZE && !OnePageRange(start, end)
    requires PiecesAsWritten(words, root, start, end).Done?
    ensures !NonEmpty(PiecesAsWritten(words, root, start, end).value)
  {
    var vpn := start / PAGE_SIZE;
    var next := Min((vpn + 1) * PAGE_SIZE, end);
    NextStop(start, end);
    AsWrittenFirstPiece(words, root, start, end);
    assert next % PAGE_SIZE == 0;
    var ps := PiecesAsWritten(words, root, start, end).value;
    assert ps[0].hi == 0;
  }

  /**
   * The code as written returns pieces that all hold a byte exactly when every page translates
   * and the range lies inside one page short of its end, and then they are the intended pieces.
   */
  lemma AsWrittenNonEmptyIff(words: Words, root: nat, start: nat, end: nat)
    requires end <= USIZE_MOD - PAGE_SIZE
    ensures (PiecesAsWritten(words, root, start, end).Done? && NonEmpty(PiecesAsWritten(words, root, start, end).value)) <==>
      (forall a :: start <= a < end ==> ByteSlot(words, root, a).Some?) && OnePageRange(start, end)
    ensures OnePageRange(start, end) ==> PiecesAsWritten(words, root, start, end) == Pieces(words, root, start, end)
  {
    PiecesAsWrittenPanicIff(words, root, start, end);
    if OnePageRange(start, end) {
      OnePageAgrees(words, root, start, end);
      PiecesPanicIff(words, root, start, end);
      PiecesInsideFrames(words, root, start, end);
    } else if PiecesAsWritten(words, root, start, end).Done? {
      AcrossPagesLosesFirst(words, root, start, end);
    }
  }

  /** One turn of the loop of `translated_byte_buffer` as written, stated on the accumulated pieces. */
  lemma PiecesAsWrittenLoopStep(words: Words, root: nat, ptr: nat, start: nat, end: nat, result: seq<Piece>, e: Usize)
    requires start < end <= USIZE_MOD - PAGE_SIZE
    requires Translation(words, root, start / PAGE_SIZE) == Some(e)
    requires PiecesAsWritten(words, root, ptr, end) == Prepend(result, PiecesAsWritten(words, root, start, end))
    ensures var next := Min((start / PAGE_SIZE + 1) * PAGE_SIZE, end);
      && (start % PAGE_SIZE > next % PAGE_SIZE ==> PiecesAsWritten(words, root, ptr, end) == Panic)
      && (start % PAGE_SIZE <= next % PAGE_SIZE ==>
        PiecesAsWritten(words, root, ptr, end) ==
          Prepend(result + [Piece(Ppn(e), start % PAGE_SIZE, next % PAGE_SIZE)], PiecesAsWritten(words, root, next, end)))
  {
    var next := Min((start / PAGE_SIZE + 1) * PAGE_SIZE, end);
    var part := Piece(Ppn(e), start % PAGE_SIZE, next % PAGE_SIZE);
    var rest := PiecesAsWritten(words, root, next, end);
    if start % PAGE_SIZE <= next % PAGE_SIZE && rest.Done? {
      assert PiecesAsWritten(words, root, start, end) == Done([part] + rest.value);
      assert result + ([part] + rest.value) == (result + [part]) + rest.value;
    }
  }

  /**
   * `translated_byte_buffer`: walk `start` from `ptr` to `ptr.offset(len)` a page at a time,
   * translating each page through the address space's table and slicing its frame from
   * `start.page_offset()` to `end_va.page_offset()`. The range must not end inside the last page
   * of the 64-bit space, where the next page boundary wraps to 0.
   */
  method TranslatedByteBuffer(pt: MmPageTable.PageTable, ram: PhysMem, ptr: Usize, len: Usize)
    returns (r: Outcome<seq<Piece>>)
    requires WrappingAdd(ptr, len) <= USIZE_MOD - PAGE_SIZE
    ensures r == PiecesAsWritten(ram.words, pt.rootPpn, ptr, WrappingAdd(ptr, len))
  {
    var start := ptr;
    var end := MmAddress.Offset(ptr, AsIsize(len));
    var result: seq<Piece> := [];
    ghost var words, root := ram.words, pt.rootPpn;
    assert end == WrappingAdd(ptr, len);
    if PiecesAsWritten(words, root, start, end).Done? {
      assert result + PiecesAsWritten(words, root, start, end).value == PiecesAsWritten(words, root, start, end).value;
    }
    while start < end
      invariant PiecesAsWritten(words, root, ptr, end) == Prepend(result, PiecesAsWritten(words, root, start, end))
      decreases if start <= end then end - start else 0
    {
      var vpn := MmAddress.Floor(start);
      var e := pt.Translate(vpn, ram);
      if e.None? {
        return Panic;
      }
      PiecesAsWrittenLoopStep(words, root, ptr, start, end, result, e.value);
      var ppn := Ppn(e.value);
      assert MmAddress.Offset(vpn, 1) == vpn + 1 < USIZE_MOD / PAGE_SIZE;
      var endVa := Min(MmAddress.PageToAddr(MmAddress.Offset(vpn, 1)), end);
      assert endVa == Min((start / PAGE_SIZE + 1) * PAGE_SIZE, end);
      assert MmAddress.PageOffset(start) == start % PAGE_SIZE && MmAddress.PageOffset(endVa) == endVa % PAGE_SIZE;
      if MmAddress.PageOffset(start) > MmAddress.PageOffset(endVa) {
        return Panic;
      }
      result := result + [Piece(ppn, MmAddress.PageOffset(start), MmAddress.PageOffset(endVa))];
      start := endVa;
    }
    assert result + [] == result;
    r := Done(result);
  }

  /** The byte view after storing `data[k]` at `slots[k]` for each k in order (a later store wins). */
  function Store(bytes: Bytes, slots: seq<Slot>, data: seq<bv8>): Bytes
    requires |slots| == |data|
  {
    if slots == [] then bytes
    else Store(bytes, slots[..|slots| - 1], data[..|data| - 1])[slots[|slots| - 1] := data[|data| - 1]]
  }

  /** When the slots are distinct, every slot reads back its own byte and other slots keep theirs. */
  lemma {:induction false} StoreReadsBack(bytes: Bytes, slots: seq<Slot>, data: seq<bv8>)
    requires |slots| == |data|
    requires forall i, j :: 0 <= i < j < |slots| ==> slots[i] != slots[j]
    ensures forall k :: 0 <= k < |slots| ==> ByteAt(Store(bytes, slots, data), slots[k]) == data[k]
    ensures forall s :: s !in slots ==> ByteAt(Store(bytes, slots, data), s) == ByteAt(bytes, s)
    decreases |slots|
  {
    if slots != [] {
      var n := |slots| - 1;
      StoreReadsBack(bytes, slots[..n], data[..n]);
      forall k | 0 <= k < n
        ensures ByteAt(Store(bytes, slots, data), slots[k]) == data[k]
      {
        assert slots[..n][k] == slots[k];
      }
      forall s | s !in slots
        ensures ByteAt(Store(bytes, slots, data), s) == ByteAt(bytes, s)
      {
        assert s !in slots[..n];
      }
    }
  }

  /** `BufferHandle`: the pieces a system call reads from or writes to. */
  class BufferHandle {
    var buffers: seq<Piece>

    constructor (buffers: seq<Piece>)
      ensures this.buffers == buffers
    {
      this.buffers := buffers;
    }

    /** `len`: the sum of the piece lengths, which is the number of bytes the handle reaches. */
    method Length() returns (total: nat)
      ensures total == TotalLen(buffers) == |Flatten(buffers)|
    {
      total := 0;
      var i := 0;
      while i < |buffers|
        invariant 0 <= i <= |buffers|
        invariant total == TotalLen(buffers[..i])
      {
        FlattenAt(buffers, i);
        total := total + Len(buffers[i]);
        i := i + 1;
      }
      assert buffers[..i] == buffers;
    }

    /**
     * `write`: copy `data` into the pieces in order, stopping when either runs out, and return the
     * number of bytes copied.
     */
    method Write(data: seq<bv8>, ram: PhysMem) returns (n: nat)
      modifies ram
      ensures n == Min(|Flatten(buffers)|, |data|)
      ensures ram.bytes == Store(old(ram.bytes), Flatten(buffers)[..n], data[..n])
      ensures ram.words == old(ram.words)
    {
      ghost var f := Flatten(buffers);
      var dataIdx := 0;
      var i := 0;
      while i < |buffers|
        invariant 0 <= i <= |buffers|
        invariant dataIdx == TotalLen(buffers[..i]) <= |data|
        invariant dataIdx <= |f|
        invariant ram.bytes == Store(old(ram.bytes), f[..dataIdx], data[..dataIdx])
        invariant ram.words == old(ram.words)
      {
        FlattenAt(buffers, i);
        var next := WritePiece(buffers[i], data, dataIdx, ram, f, old(ram.bytes));
        if next < dataIdx + Len(buffers[i]) {
          return next;
        }
        dataIdx := next;
        i := i + 1;
      }
      assert buffers[..i] == buffers;
      n := dataIdx;
    }
  }

  /**
   * The inner loop of `write`: copy data from index `start` into the bytes of `piece`, which are
   * the slots `f[start..]` of the whole buffer, stopping when the data runs out.
   */
  method WritePiece(piece: Piece, data: seq<bv8>, start: nat, ram: PhysMem, ghost f: seq<Slot>, ghost bytes0: Bytes)
    returns (next: nat)
    requires start <= |data| && start + Len(piece) <= |f|
    requires forall k :: start <= k < start + Len(piece) ==> f[k] == Slot(piece.ppn, piece.lo + (k - start))
    requires ram.bytes == Store(bytes0, f[..start], data[..start])
    modifies ram
    ensures next == Min(start + Len(piece), |data|)
    ensures ram.bytes == Store(bytes0, f[..next], data[..next])
    ensures ram.words == old(ram.words)
  {
    next := start;
    var j := 0;
    while j < Len(piece)
      invariant 0 <= j <= Len(piece)
      invariant next == start + j <= |data|
      invariant ram.bytes == Store(bytes0, f[..next], data[..next])
      invariant ram.words == old(ram.words)
    {
      if next >= |data| {
        return next;
      }
      StorePrefix(bytes0, f, data, next);
      ram.WriteByte(Slot(piece.ppn, piece.lo + j), data[next]);
      next := next + 1;
      j := j + 1;
    }
  }

  /** Where the bytes of piece `i` sit in the flattened buffer. */
  lemma FlattenAt(ps: seq<Piece>, i: nat)
    requires i < |ps|
    ensures TotalLen(ps[..i + 1]) == TotalLen(ps[..i]) + Len(ps[i]) <= TotalLen(ps)
    ensures forall k :: TotalLen(ps[..i]) <= k < TotalLen(ps[..i]) + Len(ps[i]) ==>
      Flatten(ps)[k] == Slot(ps[i].ppn, ps[i].lo + (k - TotalLen(ps[..i])))
  {
    FlattenSnoc(ps, i);
    PrefixOfFlatten(ps, i + 1);
    forall k | TotalLen(ps[..i]) <= k < TotalLen(ps[..i]) + Len(ps[i])
      ensures Flatten(ps)[k] == Slot(ps[i].ppn, ps[i].lo + (k - TotalLen(ps[..i])))
    {
      assert Flatten(ps)[k] == Flatten(ps[..i + 1])[k];
    }
  }

  /** Storing one more byte of a prefix. */
  lemma StorePrefix(bytes: Bytes, slots: seq<Slot>, data: seq<bv8>, d: nat)
    requires d < |slots| && d < |data|
    ensures Store(bytes, slots[..d + 1], data[..d + 1]) == Store(bytes, slots[..d], data[..d])[slots[d] := data[d]]
  {
    assert slots[..d + 1][..d] == slots[..d];
    assert data[..d + 1][..d] == data[..d];
  }

  lemma PrefixOfFlatten(ps: seq<Piece>, i: nat)
    requires i <= |ps|
    ensures Flatten(ps[..i]) <= Flatten(ps)
  {
    assert ps == ps[..i] + ps[i..];
    FlattenAppend(ps[..i], ps[i..]);
  }

  /** Every piece has at least one byte, as the pieces of a translated range do. */
  ghost predicate NonEmpty(ps: seq<Piece>)
  {
    forall i :: 0 <= i < |ps| ==> ps[i].lo < ps[i].hi
  }

  /** The bytes from byte `i` of piece `b` on, to the end of the last piece. */
  function RemainingAt(ps: seq<Piece>, b: nat, i: nat): seq<Slot>
    requires b <= |ps| && (b < |ps| ==> i <= Len(ps[b]))
  {
    if b == |ps| then [] else PieceSlots(ps[b])[i..] + Flatten(ps[b + 1..])
  }

  /**
   * Byte `i` of piece `b` comes first among the bytes from that position on; the rest start one
   * byte further, at byte 0 of the next piece after a piece's last byte.
   */
  lemma RemainingAtStep(ps: seq<Piece>, b: nat, i: nat)
    requires b < |ps| && i < Len(ps[b])
    ensures RemainingAt(ps, b, i) != [] && RemainingAt(ps, b, i)[0] == Slot(ps[b].ppn, ps[b].lo + i)
    ensures i + 1 < Len(ps[b]) ==> RemainingAt(ps, b, i)[1..] == RemainingAt(ps, b, i + 1)
    ensures i + 1 == Len(ps[b]) ==> RemainingAt(ps, b, i)[1..] == RemainingAt(ps, b + 1, 0)
  {
    var head, rest := PieceSlots(ps[b])[i..], Flatten(ps[b + 1..]);
    assert head[0] == Slot(ps[b].ppn, ps[b].lo + i);
    assert (head + rest)[1..] == head[1..] + rest;
    assert head[1..] == PieceSlots(ps[b])[i + 1..];
    if i + 1 == Len(ps[b]) && b + 1 < |ps| {
      assert ps[b + 1..] == [ps[b + 1]] + ps[b + 2..];
      assert rest == PieceSlots(ps[b + 1]) + Flatten(ps[b + 2..]);
      assert PieceSlots(ps[b + 1])[0..] == PieceSlots(ps[b + 1]);
    }
  }

  /** `UserBufferIterator`, made by `BufferHandle::into_iter`: a cursor over the bytes of the pieces. */
  class UserBufferIterator {
    var buffers: seq<Piece>
    var currentBuffer: nat
    var currentIdx: nat

    ghost predicate Valid()
      reads this
    {
      && currentBuffer <= |buffers|
      && (currentBuffer == |buffers| ==> currentIdx == 0)
      && (currentBuffer < |buffers| ==> currentIdx == 0 || currentIdx < Len(buffers[currentBuffer]))
    }

    /** The bytes still to come. */
    ghost function Remaining(): seq<Slot>
      reads this
      requires Valid()
    {
      RemainingAt(buffers, currentBuffer, currentIdx)
    }

    /** `into_iter`: start at byte 0 of piece 0, so every byte of the handle is still to come. */
    constructor (handle: BufferHandle)
      ensures Valid() && buffers == handle.buffers && currentBuffer == 0 && currentIdx == 0
      ensures Remaining() == Flatten(handle.buffers)
    {
      buffers := handle.buffers;
      currentBuffer := 0;
      currentIdx := 0;
      new;
      if buffers != [] {
        assert Flatten(buffers) == PieceSlots(buffers[0]) + Flatten(buffers[1..]);
        assert PieceSlots(buffers[0])[0..] == PieceSlots(buffers[0]);
      }
    }

    /**
     * `next`: `None` after the last piece; a panic on indexing an empty piece; otherwise the byte
     * under the cursor, which then moves one byte on, to the next piece after a piece's last byte.
     * It yields the bytes of `Flatten(buffers)` in order, and over non-empty pieces it never panics.
     */
    method Next() returns (r: Outcome<Option<Slot>>)
      requires Valid()
      modifies this
      ensures old(currentBuffer) == |buffers| ==> r == Done(None) && unchanged(this)
      ensures old(currentBuffer) < |buffers| && old(currentIdx) >= Len(buffers[old(currentBuffer)]) ==>
        r == Panic
      ensures r.Done? ==> Valid() && buffers == old(buffers)
      ensures r.Done? && r.value.None? ==> old(Remaining()) == []
      ensures r.Done? && r.value.Some? ==>
        old(Remaining()) != [] && r.value.value == old(Remaining())[0] && Remaining() == old(Remaining())[1..]
      ensures NonEmpty(old(buffers)) ==> r.Done? && (r.value.None? <==> old(Remaining()) == [])
    {
      if currentBuffer >= |buffers| {
        return Done(None);
      }
      var piece := buffers[currentBuffer];
      if currentIdx >= Len(piece) {
        return Panic;
      }
      RemainingAtStep(buffers, currentBuffer, currentIdx);
      var slot := Slot(piece.ppn, piece.lo + currentIdx);
      if currentIdx + 1 == Len(piece) {
        currentIdx := 0;
        currentBuffer := currentBuffer + 1;
      } else {
        currentIdx := currentIdx + 1;
      }
      r := Done(Some(slot));
    }
  }
}
