/**
 * The parts of `MemorySet::from_elf` (`src/mm/memory_set.rs`) that do not touch memory: the
 * loadable segments it reads from an ELF image, the end of the program, and the user stack and
 * trap-context areas it places after the program.
 *
 * ELF decoding (`xmas_elf`) is not part of this model: an image is given as its magic bytes, its
 * entry point, its raw bytes and its program headers, already decoded.
 */
module MmElf {
  import opened Wrappers
  import opened Sv39
  import MmAddress
  import opened MmMemorySet

  /** The four bytes every ELF image starts with: 0x7f, 'E', 'L', 'F'. */
  const ELF_MAGIC: seq<bv8> := [0x7f, 0x45, 0x4c, 0x46]

  /** `USER_STACK_SIZE`: one page. */
  const USER_STACK_SIZE: Usize := 4096

  /** A program header: whether it is `Load`, where the segment goes, its file bytes and its R/W/X flags. */
  datatype ProgramHeader = ProgramHeader(load: bool, vaddr: Usize, memSize: Usize, offset: Usize, fileSize: Usize,
                                         flags: SegmentFlags)

  /** An ELF image as `from_elf` reads it. */
  datatype ElfImage = ElfImage(magic: seq<bv8>, entry: Usize, input: seq<bv8>, headers: seq<ProgramHeader>)

  /** A loadable segment: the area `from_ph` builds for it and the bytes to copy into it. */
  datatype Loadable = Loadable(area: MapArea, data: seq<bv8>)

  /**
   * `&elf.input[offset..offset + file_size]`: the end wraps modulo 2^64, and the slice panics
   * when its range is reversed or runs past the image.
   */
  function SegmentData(input: seq<bv8>, ph: ProgramHeader): (r: Outcome<seq<bv8>>)
    ensures r.Done? <==> ph.offset + ph.fileSize < USIZE_MOD && ph.offset + ph.fileSize <= |input|
    ensures r.Done? ==> |r.value| == ph.fileSize && forall k :: 0 <= k < ph.fileSize ==> r.value[k] == input[ph.offset + k]
  {
    var e := WrappingAdd(ph.offset, ph.fileSize);
    if ph.offset <= e <= |input| then Done(input[ph.offset..e]) else Panic
  }

  /**
   * The loadable segments among the first `n` program headers, in order; headers of other types
   * are skipped. A `from_ph` or a slice that panics makes the whole scan panic.
   */
  function Loaded(elf: ElfImage, n: nat): (r: Outcome<seq<Loadable>>)
    requires n <= |elf.headers|
    ensures r.Done? ==> |r.value| <= n
  {
    if n == 0 then Done([])
    else
      var prev := Loaded(elf, n - 1);
      var ph := elf.headers[n - 1];
      if prev.Panic? then Panic
      else if !ph.load then prev
      else
        var area := FromPh(ph.vaddr, ph.memSize, ph.flags);
        var data := SegmentData(elf.input, ph);
        if area.Panic? || data.Panic? then Panic else Done(prev.value + [Loadable(area.value, data.value)])
  }

  /** Once the scan panics it stays panicked. */
  lemma {:induction false} LoadedPanicSticks(elf: ElfImage, n: nat, m: nat)
    requires n <= m <= |elf.headers| && Loaded(elf, n).Panic?
    ensures Loaded(elf, m).Panic?
    decreases m - n
  {
    if n < m {
      LoadedPanicSticks(elf, n + 1, m);
    }
  }

  /** The pages `push` may need for one header: those of its area when it is loadable and `from_ph` succeeds. */
  function HeaderPages(ph: ProgramHeader): nat
  {
    if ph.load && FromPh(ph.vaddr, ph.memSize, ph.flags).Done? then Pages(FromPh(ph.vaddr, ph.memSize, ph.flags).value) else 0
  }

  /** The pages of every header from the first of `hs` on. */
  function HeadersPages(hs: seq<ProgramHeader>): nat
  {
    if |hs| == 0 then 0 else HeaderPages(hs[0]) + HeadersPages(hs[1..])
  }

  /** `program_vpn_end` after the first `n` segments: starting from page 0, raised to the end of each segment that ends later. */
  function EndUpTo(segs: seq<Loadable>, n: nat): Usize
    requires n <= |segs|
  {
    if n == 0 then 0
    else
      var e0 := EndUpTo(segs, n - 1);
      if segs[n - 1].area.end > e0 then segs[n - 1].area.end else e0
  }

  /** `program_vpn_end` once every segment has been seen. */
  function ProgramEnd(segs: seq<Loadable>): Usize
  {
    EndUpTo(segs, |segs|)
  }

  /** The scan over a prefix does not look past it. */
  lemma {:induction false} EndUpToPrefix(segs: seq<Loadable>, more: seq<Loadable>, n: nat)
    requires n <= |segs|
    ensures EndUpTo(segs + more, n) == EndUpTo(segs, n)
  {
    if n > 0 {
      EndUpToPrefix(segs, more, n - 1);
      assert (segs + more)[n - 1] == segs[n - 1];
    }
  }

  /** One more segment raises `program_vpn_end` to its end when that is higher. */
  lemma ProgramEndPush(segs: seq<Loadable>, l: Loadable)
    ensures ProgramEnd(segs + [l]) == if l.area.end > ProgramEnd(segs) then l.area.end else ProgramEnd(segs)
  {
    EndUpToPrefix(segs, [l], |segs|);
    assert (segs + [l])[|segs|] == l;
  }

  /** `program_vpn_end` bounds the end of each of the first `n` segments and is 0 or one of them. */
  lemma {:induction false} EndUpToBounds(segs: seq<Loadable>, n: nat)
    requires n <= |segs|
    ensures forall k :: 0 <= k < n ==> segs[k].area.end <= EndUpTo(segs, n)
    ensures EndUpTo(segs, n) == 0 || exists k :: 0 <= k < n && segs[k].area.end == EndUpTo(segs, n)
  {
    if n > 0 {
      EndUpToBounds(segs, n - 1);
    }
  }

  /** `program_vpn_end` bounds every segment's end and is 0 or one of them. */
  lemma ProgramEndBounds(segs: seq<Loadable>)
    ensures forall k :: 0 <= k < |segs| ==> segs[k].area.end <= ProgramEnd(segs)
    ensures ProgramEnd(segs) == 0 || exists k :: 0 <= k < |segs| && segs[k].area.end == ProgramEnd(segs)
  {
    EndUpToBounds(segs, |segs|);
  }

  /** The user stack and trap-context areas `from_elf` pushes after the program, and the user stack pointer. */
  datatype UserLayout = UserLayout(stack: MapArea, trapCx: MapArea, userSp: Usize)

  /**
   * The tail of `from_elf`: refuse an empty program; the stack top is the program end as an
   * address plus the guard gap, the bottom `USER_STACK_SIZE` higher (both sums wrap); the stack is
   * a framed RWU area from top to bottom and the trap context a framed RW area over the page at
   * `trapContext`. The stack pointer starts at the bottom. `VirtAddr::from` panics on the guard
   * size or the trap-context address when they leave the Sv39 range.
   */
  function UserAreas(programEnd: Usize, guardPageSize: Usize, trapContext: Usize): (r: Outcome<UserLayout>)
    ensures r.Done? <==>
      && programEnd != 0 && MmAddress.VirtAddrFromAsWritten(guardPageSize).Done?
      && MmAddress.VirtAddrFromAsWritten(trapContext).Done? && MmAddress.VirtAddrFromAsWritten(WrappingAdd(trapContext, 1)).Done?
    ensures r.Done? ==> r.value.stack.perm == PERM_RWU && r.value.trapCx.perm == PERM_RW
    ensures r.Done? ==> r.value.stack.mapType == Framed && r.value.trapCx.mapType == Framed
    ensures r.Done? ==> r.value.stack.dataFrames == map[] && r.value.trapCx.dataFrames == map[]
  {
    if programEnd == 0 then Panic
    else
      var guard := MmAddress.VirtAddrFromAsWritten(guardPageSize);
      var stackSize := MmAddress.VirtAddrFromAsWritten(USER_STACK_SIZE);
      var tcStart := MmAddress.VirtAddrFromAsWritten(trapContext);
      var tcEnd := MmAddress.VirtAddrFromAsWritten(WrappingAdd(trapContext, 1));
      if guard.Panic? || stackSize.Panic? || tcStart.Panic? || tcEnd.Panic? then Panic
      else
        var top := WrappingAdd(MmAddress.PageToAddr(programEnd), guard.value);
        var bottom := WrappingAdd(top, stackSize.value);
        Done(UserLayout(MapAreaNew(top, bottom, PERM_RWU, Framed), MapAreaNew(tcStart.value, tcEnd.value, PERM_RW, Framed), bottom))
  }

  /**
   * With a page-aligned guard gap and no wrap-around, the user stack is one page that starts
   * `guardPageSize / PAGE_SIZE` pages past the end of every segment, the stack pointer is the
   * stack area's upper boundary, and the trap context is the one page holding `trapContext`.
   */
  lemma UserStackAboveProgram(segs: seq<Loadable>, guardPageSize: Usize, trapContext: Usize)
    requires var e := ProgramEnd(segs); e != 0 && e * PAGE_SIZE + guardPageSize + USER_STACK_SIZE < VA_LIMIT
    requires guardPageSize % PAGE_SIZE == 0 && trapContext < VA_LIMIT - 1
    ensures var l := UserAreas(ProgramEnd(segs), guardPageSize, trapContext);
      && l.Done?
      && l.value.stack.start == ProgramEnd(segs) + guardPageSize / PAGE_SIZE
      && (forall k :: 0 <= k < |segs| ==> segs[k].area.end + guardPageSize / PAGE_SIZE <= l.value.stack.start)
      && Pages(l.value.stack) == 1 && l.value.userSp == l.value.stack.end * PAGE_SIZE
      && l.value.trapCx.start == trapContext / PAGE_SIZE && Pages(l.value.trapCx) == 1
  {
    ProgramEndBounds(segs);
    var e := ProgramEnd(segs);
    var top := e * PAGE_SIZE + guardPageSize;
    var g := guardPageSize / PAGE_SIZE;
    assert MmAddress.PageToAddr(e) == e * PAGE_SIZE;
    assert top == (e + g) * PAGE_SIZE;
    assert MmAddress.Floor(top) == e + g;
    assert MmAddress.Ceil(top + PAGE_SIZE) == e + g + 1;
    assert MmAddress.Ceil(trapContext + 1) == trapContext / PAGE_SIZE + 1;
  }
}
