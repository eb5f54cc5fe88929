# yCore kernel core in Dafny

A model of the sequential core of yCore, a RISC-V (SV39) teaching kernel written in Rust, with
proofs about that model. It covers:

- the virtual-memory bookkeeping: addresses and page numbers, the page-table entry codec,
  the three-level page table, the frame allocators and address spaces;
- the small allocators, tables and state machines around tasks: id allocators, the page map and
  stack placement, slot tables, descriptor tables, task, thread and process state,
  trap and task contexts, triggers, signals, the scheduler's placement rules and system-call
  dispatch;
- the byte rings behind pipes and channels.

The repository holds two snapshots of its memory code, `src/mm` (newer) and `src/mem` (older).
They differ in behaviour, so each has modules of its own: `Mm*` and `Mem*` respectively. Pure
pieces that are identical in both are shared:

- the SV39 constants and index split (`Sv39`);
- the entry codec (`Pte`);
- the walk of a page table (`PageWalk`);
- the page-copy helpers (`PageCopy`).

Conventions used throughout:

- `usize` is a 64-bit machine word. Arithmetic on it wraps modulo 2^64 (`WrappingAdd`,
  `WrappingSub`), as the kernel's release build does; `offset(-n)` and the stack arithmetic
  rely on it.
- Physical memory is a `PhysMem` object with two views of every frame: 512 page-table words
  (`words`) and 4096 bytes (`bytes`). A position never written reads as zero. This stands in
  for the raw casts `as_pte_array`, `as_bytes` and `as_type`.
- A panic (`assert!`, `unwrap` on `None`, an out-of-range index) is an explicit outcome
  (`Outcome.Panic`). Most contracts state exactly when it happens. Members whose contract states
  it in one direction only are listed under "Left out".
- An object whose fields the source updates in place is a class whose methods have `modifies`
  frames. This covers page tables, allocators, memory sets, rings, tables, task blocks and
  processes. Entries, areas, trap contexts and requests are values.
- Locks, atomics, `Arc`/`Weak` and `RefCell` are read as plain sequential state and plain
  references.
- Constants that `src/config.rs` does not define are parameters: `TRAMPOLINE`,
  `TRAP_CONTEXT`, `GUARD_PAGE_SIZE`, `PID_START`, the size and alignment of `TrapContext`,
  the code addresses of `trap_handler`/`trap_return`, and `board::MMIO`. `PAGE_SIZE` is 4096.

Behaviour kept as the code has it, where another reading was possible:

- The older page table's `map` stores exactly the given flags without adding V. Its `unmap` asserts that the entry is NOT valid before clearing it.
- The older `copy_data` panics on a final chunk shorter than a page, because the slice lengths differ.
- `from_bits_truncate(1 << signal)` keeps only bits 0, 18 and 19, so delivering any other signal toggles nothing in the pending set.
- The tcb's `fork` leaves `set_return(0)` commented out, so a forked thread's `a0` is its parent's. The older `task_block` fork does set it to 0.
- `Timer::new` adds the delay to the clock with wrap-around, as in a release build.
- `push_args` calls `align_ceil::<u64>(args_len)`, while `tools::align_ceil` takes the value and the alignment as two arguments. The call is read as `align_ceil(args_len, 8)`, the size of `u64` in bytes, as its comment says (`TaskBlock.PushArgs`).

## Model

Accessors without a contract of their own are stated through the members that use them:
`MemAddress.IsPageAlign` through `MemAddress.FloorCeil` and `MemAddress.AddrToPage`;
`Thread.Tcb.IsReady`, `TaskBlock.Tcb.IsReady` and `TaskBlock.Tcb.ExitCode` through the `Exit` and
`SetState` methods of their classes; `ToolsRingBuffer.RingBuffer.Capacity` through
`ToolsRingBuffer.RingBuffer.Len`, `IsFull`, `Write` and `Read`; `Pte.Flags`, `Pte.IsValid` and
`Pte.IsLeaf` through `Pte.New`, `Pte.EncodeDecode`, `Pte.ValidityOfNew` and `Pte.LeafnessOfNew`;
`Signals.FromBitsTruncate` and `Signals.IsHandleByKernel` through `Signals.FlagOfDefined` and
`Signals.HandledByKernelExactly`; `TrapCx.SyscallId` through `TrapCx.SetReturnThenArgs` and
`TrapCx.SetArgsThenArgs`; `MmUserBuffer.Pieces` through `MmUserBuffer.PiecesPanicIff`,
`MmUserBuffer.PiecesInsideFrames` and `MmUserBuffer.PiecesCover`; and
`MmUserBuffer.PiecesAsWritten` through `MmUserBuffer.PiecesAsWrittenPanicIff`,
`MmUserBuffer.PiecesAsWrittenShape` and `MmUserBuffer.BoundaryPieceLost`.

| member | source | states |
|---|---|---|
| Sv39.WrappingAdd | src/mm/address.rs:63-65 | the sum of two words wraps modulo 2^64: it is the plain sum when that fits, the sum less 2^64 otherwise |
| Sv39.WrappingSub | src/mm/address.rs:48-50 | the difference of two words wraps modulo 2^64: the plain difference when it is non-negative, plus 2^64 otherwise |
| Sv39.AsIsize | src/mm/address.rs:163 | `v as isize` lies in the isize range and agrees with the word modulo 2^64 |
| Sv39.IsizeAsUsize | src/mm/address.rs:64 | `val as usize` is the word that reads back as `val` through `as isize` |
| Sv39.Indexes | src/mm/address.rs:217-225 | the loop over the three slots, last to first, yields the three 9-bit indices of the page number, each below 512 |
| Sv39.IndexesRecombine | src/mm/address.rs:217-225 | the three indices recombine to the page number's low 27 bits |
| Sv39.IndexesInjective | src/mm/address.rs:217-225 | two page numbers below 2^27 with the same indices are equal |
| Sv39.IndexesLow27 | src/mm/address.rs:217-225 | page numbers that agree in their low 27 bits have the same indices |
| Pte.New | src/mm/page_table.rs:33-37 | an entry built from a page number and flags gives back the flags, and the page number when it is below 2^44 |
| Pte.Ppn | src/mm/page_table.rs:39-41 | the page number read from an entry is below 2^44 |
| Pte.ValidityOfNew | src/mm/page_table.rs:33-49 | an entry built by `new` is valid exactly when its flags hold V; the empty entry is invalid with page number 0 |
| Pte.LeafnessOfNew | src/mem/page_table.rs:48-50 | `is_leaf` of a built entry holds exactly when its flags hold R, W or X |
| Pte.EncodeDecode | src/mm/page_table.rs:33-45 | decoding an entry into page number and flags and re-encoding gives it back when the bits neither field covers are zero |
| PageWalk.LeafSlot | src/mm/page_table.rs:122-136 | the leaf slot `find_pte` reaches has an index below 512 |
| PageWalk.Translation | src/mm/page_table.rs:186-188 | `translate` gives an entry exactly when the walk reaches a leaf slot |
| PageWalk.LeafSlotLevels | src/mm/page_table.rs:122-136 | the walk reads the root entry at index 0 and the second-level entry at index 1, and stops with `None` exactly when one of them is invalid |
| PageWalk.LeafSlotLow27 | src/mm/page_table.rs:122-136 | page numbers that agree in their low 27 bits reach the same leaf slot |
| PageWalk.DistinctLeaves | src/mm/page_table.rs:122-136 | in a table shaped as a tree, page numbers that differ in their low 27 bits reach different leaf slots |
| PageWalk.TreeAfterAllocate | src/mm/page_table.rs:112-116 | storing an entry that names a fresh zeroed frame in an invalid upper-level slot keeps the table a tree |
| PageWalk.LeafSlotInLeafLevel | src/mm/page_table.rs:122-136 | the walk of a shaped table ends in a leaf-level frame |
| PageWalk.WalkIgnoresLeafLevel | src/mm/page_table.rs:122-136 | writes outside the root and second-level frames leave every walk and the tree shape unchanged |
| PageWalk.GrowsOnlyKeepsLeafSlot | src/mm/page_table.rs:104-120 | what the allocating walk may change keeps every leaf slot the plain walk already reached |
| PageWalk.GrowsOnlyKeepsValidLeaf | src/mm/page_table.rs:104-120 | what the allocating walk may change keeps every valid leaf entry and where it lies |
| PageWalk.WalkStepAllocating | src/mm/page_table.rs:112-117 | one level of the allocating walk through an invalid entry links the fresh frame and continues into it |
| PageWalk.WalkStepFollowing | src/mm/page_table.rs:117 | one level of the allocating walk through a valid entry continues into the frame it names |
| PageWalk.WalkFinished | src/mm/page_table.rs:104-120 | at the leaf level the allocating walk ends in the frame the plain walk would reach, or in a fresh frame whose slot is invalid; it changed only entries of owned frames, each into a valid link to a fresh frame |
| PageWalk.WalkAddsNoValidLeaf | src/mm/page_table.rs:104-120 | the allocating walk makes no leaf valid that was not valid before: every page valid afterwards was valid before |
| PhysMemory.PhysMem.ZeroFill | src/mm/frame_allocator.rs:75 | `as_bytes().fill(0)` makes the frame's 4096 bytes and its 512 entries zero and leaves every other byte and word alone |
| PhysMemory.PhysMem.CopyToFrame | src/mm/memory_set.rs:133 | the first `src.len()` bytes of the frame become `src`; nothing else changes |
| PhysMemory.PhysMem.CopyFrame | src/mm/memory_set.rs:209 | the destination frame gets the 4096 bytes the source frame had; nothing else changes |
| PageCopy.Chunk | src/mm/memory_set.rs:126-131 | chunk `i` of the data is non-empty, at most a page, inside the data, and a full page unless it is the last |
| PageCopy.ChunkOfByte | src/mm/memory_set.rs:126-135 | byte `k` of the data is byte `k % PAGE_SIZE` of chunk `k / PAGE_SIZE` |
| PageCopy.CopiedLands | src/mm/memory_set.rs:126-135 | with distinct frames, once `k` chunks are written the first bytes of page `v`'s frame hold chunk `v - start` |
| PageCopy.CopiedElsewhere | src/mm/memory_set.rs:126-135 | a byte outside every written chunk keeps its old value |
| PageCopy.CopyStep | src/mm/memory_set.rs:127-135 | writing chunk `i` into its page's frame turns the state after `i` chunks into the state after `i + 1` |
| PageCopy.WriteChunk | src/mm/memory_set.rs:133 | one turn of the `copy_data` loop reaches the state after `i + 1` chunks and leaves the entries alone |
| Sv39.AsI32 | src/syscall/mod.rs:48 | `args[0] as i32` keeps the low 32 bits of the word: it agrees with the word modulo 2^32 |
| MmAddress.PhysAddrFrom | src/mm/address.rs:122-127 | `PhysAddr::from` accepts a value exactly when it is below 2^56 and keeps it |
| MmAddress.PhysPageNumFrom | src/mm/address.rs:128-134 | `PhysPageNum::from` accepts a value exactly when it is below 2^44 and keeps it |
| MmAddress.WrappingAbs | src/mm/address.rs:163 | `isize::abs` without overflow checks: the absolute value of every isize except `isize::MIN`, which it returns unchanged |
| MmAddress.VirtAddrFromAsWritten | src/mm/address.rs:161-166 | `VirtAddr::from` as written keeps the value whenever it accepts it |
| MmAddress.VirtPageNumFromAsWritten | src/mm/address.rs:167-172 | `VirtPageNum::from` as written keeps the value whenever it accepts it |
| MmAddress.VirtAddrFrom | src/mm/address.rs:161-166 | the intended check: an address is accepted exactly when, read as signed, it lies strictly between -2^39 and 2^39 |
| MmAddress.VirtPageNumFrom | src/mm/address.rs:167-172 | the intended check: a page number is accepted exactly when, read as signed, it lies strictly between -2^27 and 2^27 |
| MmAddress.VirtAddrFromAcceptsIsizeMin | src/mm/address.rs:161-172 | the written checks accept `isize::MIN`, which the intended checks refuse |
| MmAddress.VirtFromAgreeExceptIsizeMin | src/mm/address.rs:161-172 | on every other value the written and the intended checks agree |
| MmAddress.Floor | src/mm/address.rs:204-206 | `floor` names the page that contains the address |
| MmAddress.PageOffset | src/mm/address.rs:210-212 | `page_offset` is below 4096 and adds to the floor's address to give the address back |
| MmAddress.Ceil | src/mm/address.rs:207-209 | `ceil` of a non-zero address without wrap-around names the least page whose start is at or above it; `ceil(0)` is 0 |
| MmAddress.CeilIsLeastPageAtOrAbove | src/mm/address.rs:204-212 | `ceil` lies between `floor` and any page starting at or above the address, and equals `floor` exactly when the offset is zero |
| MmAddress.PageToAddr | src/mm/address.rs:155-159 | a page number shifted left by 12 is its first address when the shift does not overflow, and always has offset zero |
| MmAddress.AddrToPage | src/mm/address.rs:148-153 | an address converts to a page number exactly when its offset is zero, and that page starts at the address |
| MmAddress.PageAddrPage | src/mm/address.rs:148-159 | page to address to page gives the page back when the shift does not overflow |
| MmAddress.AddrPageAddr | src/mm/address.rs:148-159 | address to page to address gives an aligned address back, and the conversion panics exactly on unaligned ones |
| MmAddress.Offset | src/mm/address.rs:63-65 | `offset(val)` adds `val as usize` modulo 2^64, so a negative offset moves down |
| MmAddress.StepsBetween | src/mm/address.rs:83-89 | `steps_between` is defined exactly when start <= end and then adds to start to give end |
| MmAddress.ForwardChecked | src/mm/address.rs:91-93 | `forward_checked` panics exactly when the count fails the `VirtPageNum::from` check; otherwise it gives the start plus the count, wrapping at 2^64 |
| MmAddress.BackwardChecked | src/mm/address.rs:95-97 | `backward_checked` panics exactly when the count fails the `VirtPageNum::from` check; otherwise it gives the start less the count, wrapping at 2^64 |
| MmAddress.PhysForwardChecked | src/mm/address.rs:91-93 | `forward_checked` on physical page numbers panics exactly when the count is not below 2^44; otherwise it gives the start plus the count, wrapping at 2^64 |
| MmAddress.PhysBackwardChecked | src/mm/address.rs:95-97 | `backward_checked` on physical page numbers panics exactly when the count is not below 2^44; otherwise it gives the start less the count, wrapping at 2^64 |
| MmAddress.BackwardUndoesForward | src/mm/address.rs:91-97 | stepping back by a count that passes the check undoes stepping forward by it, for virtual and for physical page numbers |
| MmAddress.ForwardThenStepsBetween | src/mm/address.rs:83-93 | stepping forward by a small count and measuring back gives the count |
| MemAddress.AddrFrom | src/mem/address.rs:92-96 | the older `from` masks to 56 bits: the result is below 2^56, keeps any value already below it, and differs from the input by a multiple of 2^56 |
| MemAddress.PageNumFrom | src/mem/address.rs:97-101 | the older page-number `from` masks to 44 bits: the result is below 2^44, keeps smaller values, and differs from the input by a multiple of 2^44 |
| MemAddress.MaskIdempotent | src/mem/address.rs:92-138 | masking twice is masking once |
| MemAddress.Floor | src/mem/address.rs:165-167 | `floor` names the page that contains the address |
| MemAddress.PageOffset | src/mem/address.rs:171-173 | `page_offset` is below 4096 and adds to the floor's address to give the address back |
| MemAddress.Ceil | src/mem/address.rs:168-170 | `ceil` of an address below the last page names the least page whose start is at or above it |
| MemAddress.FloorCeil | src/mem/address.rs:165-176 | `floor <= ceil <= floor + 1`, and the two are equal exactly on page-aligned addresses |
| MemAddress.CeilMatchesNewerSnapshot | src/mem/address.rs:168-170 | the older `ceil` rounds up exactly as the newer one does |
| MemAddress.PageToAddr | src/mem/address.rs:122-127 | a page number shifted left by 12 is its first address when the shift does not overflow, and is always page-aligned |
| MemAddress.AddrToPage | src/mem/address.rs:115-121 | an address converts to a page number exactly when it is page-aligned, and that page starts at the address |
| MemAddress.PageAddrRoundTrip | src/mem/address.rs:115-127 | page to address to page, and aligned address to page to address, both give their input back |
| MemAddress.SimpleRangeNew | src/mem/address.rs:253-256 | `SimpleRange::new` panics exactly when start > end, and otherwise keeps both bounds |
| MemAddress.SimpleRangeIterator.Next | src/mem/address.rs:296-305 | `next` yields nothing once current reaches end, and otherwise yields current and steps past it |
| MemAddress.IterateRange | src/mem/address.rs:264-305 | a `for` loop over a range yields exactly `l, l + 1, ..., r - 1` in order |
| MmPageTable.Token | src/mm/page_table.rs:91-94 | the `satp` token carries mode 8 (Sv39) in its top bits and the root page number in its low 44 bits, and fits in 64 bits |
| MmPageTable.PageTable.Size | src/mm/page_table.rs:78-80 | the table's size is one page per frame it owns |
| MmPageTable.PageTable.constructor | src/mm/page_table.rs:81-88 | a new table owns one fresh zero-filled root frame taken from the allocator, no leaf frames, and touches no other memory |
| MmPageTable.PageTable.FindPte | src/mm/page_table.rs:122-136 | `find_pte` returns exactly the leaf slot of the three-level walk, or nothing when the walk meets an invalid entry |
| MmPageTable.PageTable.FindPteEntry | src/mm/page_table.rs:104-120 | `find_pte_entry` always reaches a leaf slot; it leaves everything unchanged when the walk already succeeded, and otherwise adds at most two fresh zeroed tables, changes only invalid entries to V-only pointers at them, and keeps every existing translation |
| MmPageTable.PageTable.Descend | src/mm/page_table.rs:108-117 | one level of the `find_pte_entry` loop keeps the walk's invariant and changes nothing when the entry was valid |
| MmPageTable.PageTable.DescendAllocating | src/mm/page_table.rs:112-116 | the allocating branch of the loop hangs a new table under the invalid entry and keeps the walk's invariant |
| MmPageTable.PageTable.AllocateTable | src/mm/page_table.rs:112-116 | the allocating branch takes one fresh zeroed frame, points the invalid entry at it with only V, records it at the next level, and changes no other word |
| MmPageTable.PageTable.InstallTable | src/mm/page_table.rs:112-115 | a fresh zeroed frame from the allocator and the entry pointing at it with only V; no other word changes |
| MmPageTable.PageTable.RecordFrame | src/mm/page_table.rs:116 | pushing a frame onto `frames` keeps the frames distinct and files it under its level |
| MmPageTable.PageTable.Map | src/mm/page_table.rs:168-176 | `map` panics exactly when the leaf is already valid; otherwise the page translates to `ppn` with `flags \| V`, every validly mapped page keeps its translation, and only fresh table frames are taken |
| MmPageTable.PageTable.UnmapUncheck | src/mm/page_table.rs:178-184 | `unmap_uncheck` panics exactly when the page has no valid leaf; otherwise it clears that one leaf word, and every other page's translation is unchanged |
| MmPageTable.PageTable.Translate | src/mm/page_table.rs:186-188 | `translate` returns exactly the leaf entry of the walk, or nothing |
| MmPageTable.PageTable.VaTranslate | src/mm/page_table.rs:138-146 | `va_translate` succeeds exactly when the walk reaches a leaf, and then gives the named frame's address plus the page offset of `va` |
| MmPageTable.PageTable.Malloc | src/mm/page_table.rs:148-157 | `malloc` refuses page 0 and pages that already own a frame; it panics exactly when the leaf is already valid; otherwise the page owns a fresh frame, translates to it with `flags \| V`, and no valid mapping moves |
| MmPageTable.PageTable.AllocLeafFrame | src/mm/page_table.rs:152-154 | the first half of `malloc` records a fresh zeroed frame under the page and moves no translation |
| MmPageTable.PageTable.Free | src/mm/page_table.rs:159-166 | `free` refuses pages without their own frame; it panics exactly when the leaf is not valid; otherwise it forgets the frame, clears the leaf, and returns the frame to the allocator |
| MemPageTable.PageTable.Size | src/mem/page_table.rs:79-81 | the table's size is one page per frame it owns |
| MemPageTable.PageTable.constructor | src/mem/page_table.rs:82-88 | a new table owns one fresh zero-filled root frame taken from the allocator and touches no other memory |
| MemPageTable.PageTable.FromToken | src/mem/page_table.rs:90-95 | `from_token` reads the root page number from the low 44 bits of the token and owns no frames |
| MemPageTable.PageTable.FindPte | src/mem/page_table.rs:115-129 | `find_pte` returns exactly the leaf slot of the three-level walk, or nothing when the walk meets an invalid entry |
| MemPageTable.PageTable.GetPteEntry | src/mem/page_table.rs:97-113 | `get_pte_entry` always reaches a leaf slot; it changes nothing when the walk already succeeded, and otherwise adds at most two fresh zeroed tables, changes only invalid entries, and never writes a leaf-level word |
| MemPageTable.PageTable.DescendAllocating | src/mem/page_table.rs:101-111 | one level of the `get_pte_entry` loop keeps the walk's invariant and changes nothing when the entry was valid |
| MemPageTable.PageTable.AllocateTable | src/mem/page_table.rs:105-109 | the allocating branch takes one fresh zeroed frame, points the invalid entry at it with only V, records it at the next level, and changes no other word |
| MemPageTable.PageTable.InstallTable | src/mem/page_table.rs:105-108 | a fresh zeroed frame from the allocator and the entry pointing at it with only V; no other word changes |
| MemPageTable.PageTable.RecordFrame | src/mem/page_table.rs:109 | pushing a frame onto `frames` keeps the frames distinct and files it under its level |
| MemPageTable.PageTable.Map | src/mem/page_table.rs:131-139 | `map` panics exactly when the leaf is already valid; otherwise the page's leaf holds `ppn` with the flags exactly as given (V is not added), and every other page that had a leaf keeps its translation |
| MemPageTable.PageTable.Unmap | src/mem/page_table.rs:140-144 | `unmap` as written panics unless the walk succeeds and the leaf is NOT valid; otherwise it clears that leaf, and no other page's translation changes |
| MemPageTable.PageTable.Translate | src/mem/page_table.rs:145-147 | `translate` returns exactly the leaf entry of the walk, or nothing |
| MmFrameAllocator.InitialRange | src/mm/frame_allocator.rs:9-18 | the global allocator's range starts at the first page at or above `ekernel` and ends at page 0x88000; `PhysAddr::from` panics exactly when `ekernel` does not fit in 56 bits |
| MmFrameAllocator.StackFrameAllocator.constructor | src/mm/frame_allocator.rs:33-40 | a new allocator has nothing recycled, nothing live, and `end - start` free frames |
| MmFrameAllocator.StackFrameAllocator.Alloc | src/mm/frame_allocator.rs:47-57 | `alloc` pops the last recycled frame, else bumps `current`, and fails exactly when no frame is free; a frame handed out was not live before and is live after |
| MmFrameAllocator.StackFrameAllocator.IsRecycled | src/mm/frame_allocator.rs:59-60 | the scan of the recycle stack finds a frame exactly when it is there |
| MmFrameAllocator.StackFrameAllocator.Dealloc | src/mm/frame_allocator.rs:58-65 | `dealloc` panics exactly on a frame at or above `current` or already recycled; otherwise the frame is no longer live and the free count rises by one |
| MmFrameAllocator.FrameAlloc | src/mm/frame_allocator.rs:72-97 | `frame_alloc` succeeds exactly when a frame is free and hands out a frame that was not live, with every byte of it zero and no other memory touched |
| MmFrameAllocator.FrameTrackerDrop | src/mm/frame_allocator.rs:86-91 | dropping the tracker of a live frame gives it back and raises the free count by one |
| MmFrameAllocator.FrameAllocatorTest | src/mm/frame_allocator.rs:108-121 | the self-test's two assertions hold: `n` allocations lower the free count by `n`, and dropping them restores it |
| MemFrameAllocator.InitialRange | src/mem/frame_allocator.rs:10-19 | the older allocator's range starts at the first page at or above `ekernel`, unmasked, and ends at page 0x88000 |
| MemFrameAllocator.StackFrameAllocator.constructor | src/mem/frame_allocator.rs:39-46 | a new allocator has nothing recycled, nothing live, and `end - start` free frames |
| MemFrameAllocator.StackFrameAllocator.Alloc | src/mem/frame_allocator.rs:53-65 | `alloc` pops the last recycled frame, else bumps `current`, else returns `None`; a frame handed out was not live before and is live after |
| MemFrameAllocator.StackFrameAllocator.FindRecycled | src/mem/frame_allocator.rs:67-68 | the scan of the recycle stack finds a frame exactly when it is there |
| MemFrameAllocator.StackFrameAllocator.Dealloc | src/mem/frame_allocator.rs:66-73 | `dealloc` panics exactly on a frame at or above `current` or already recycled; otherwise the frame is no longer live and the free count rises by one |
| MemFrameAllocator.FrameAlloc | src/mem/frame_allocator.rs:80-99 | `frame_alloc` succeeds exactly when a frame is free and hands out a frame that was not live, with every byte of it zero |
| MemFrameAllocator.FrameTrackerDrop | src/mem/frame_allocator.rs:89-94 | dropping the tracker of a live frame gives it back and raises the free count by one |
| MemFrameAllocator.FrameAllocatorTest | src/mem/frame_allocator.rs:110-123 | the self-test's two assertions hold: `n` allocations lower the free count by `n`, and dropping them restores it |
| MmMemorySet.PermBitsAreFlags | src/mm/memory_set.rs:36-48 | the R, W, X and U permission bits sit where the page-table flags have them, so `from_bits_truncate` keeps them |
| MmMemorySet.MapAreaNew | src/mm/memory_set.rs:95-102 | a new area keeps its permission and map type and owns no frames yet |
| MmMemorySet.MapAreaNewCovers | src/mm/memory_set.rs:95-102 | the pages of a new area are exactly those holding a byte of `[start, end)` |
| MmMemorySet.FromPh | src/mm/memory_set.rs:169-185 | an ELF segment becomes a framed area over `[vaddr, vaddr + mem_size)` that always grants U and grants R, W, X exactly when the segment does; it panics exactly when either end fails `VirtAddr::from` |
| MmMemorySet.DataFrameAlloc | src/mm/memory_set.rs:146-148 | a data frame for a framed page is fresh, zeroed, none of the table's frames, and moves no translation |
| MmMemorySet.TranslationLow27 | src/mm/address.rs:217-225 | pages that agree in their low 27 bits share a translation |
| MmMemorySet.UntouchedStep | src/mm/memory_set.rs:139-154 | mapping one more page of the area leaves every page outside the area and every page above the cursor as it was |
| MmMemorySet.ProgressStep | src/mm/memory_set.rs:139-154 | mapping page `v` extends the loop's progress by one page: every earlier page of the area stays mapped to its frame with `perm \| V` |
| MmMemorySet.MapOne | src/mm/memory_set.rs:141-152 | one page of `map_area`: a framed page gets a fresh frame recorded in the area, an identical page its own number, the page then translates to that frame with `perm \| V`, and no valid mapping moves; it gets through exactly when the page had no valid leaf and, for an identical area, its number is below 2^44; no page other than this one becomes valid |
| MmMemorySet.MapAreaMap | src/mm/memory_set.rs:139-154 | `map_area` maps every page of the area (identical pages to themselves, framed pages to fresh distinct frames the area records) and keeps every other valid mapping; it gets through exactly when the area's pages use distinct leaf slots, none had a valid leaf, and an identical area's pages are physical page numbers |
| MmMemorySet.MapNext | src/mm/memory_set.rs:140-153 | one turn of the `map_area` loop keeps the loop's two invariants one page further |
| MmElf.SegmentData | src/mm/memory_set.rs:305 | the segment's bytes are the image's bytes from `offset` for `file_size` bytes; the slice panics exactly when that range wraps or runs past the image |
| MmElf.LoadedPanicSticks | src/mm/memory_set.rs:299-314 | once a header panics the scan of the program headers stays panicked |
| MmElf.Loaded | src/mm/memory_set.rs:299-314 | the scan keeps at most one loadable segment per program header |
| MmElf.EndUpToPrefix | src/mm/memory_set.rs:306-309 | the running maximum over a prefix does not look past it |
| MmElf.ProgramEndPush | src/mm/memory_set.rs:306-309 | one more segment raises `program_vpn_end` to its end exactly when that end is higher |
| MmElf.EndUpToBounds | src/mm/memory_set.rs:306-309 | the running maximum bounds every segment seen so far and is 0 or the end of one of them |
| MmElf.ProgramEndBounds | src/mm/memory_set.rs:298-314 | `program_vpn_end` bounds every loaded segment's end and is 0 or the end of one of them |
| MmElf.UserAreas | src/mm/memory_set.rs:315-337 | the tail of `from_elf` panics exactly on an empty program or an address that fails `VirtAddr::from`; otherwise the stack is a framed RWU area and the trap context a framed RW area, neither with frames yet |
| MmElf.UserStackAboveProgram | src/mm/memory_set.rs:315-337 | without wrap-around the user stack is one page, starting a guard gap above the end of every segment, the stack pointer is its upper boundary, and the trap context is the one page holding `TRAP_CONTEXT` |
| MmSpace.AreaKeptByMap | src/mm/memory_set.rs:244-250 | a change to the table that keeps every valid translation and takes only frames not in use keeps an existing area mapped as it was |
| MmSpace.SpaceKeptByMap | src/mm/memory_set.rs:244-250 | the same for every area of the space |
| MmSpace.MappedAreaDisjoint | src/mm/memory_set.rs:139-154 | an area none of whose pages was validly mapped, given fresh frames, shares neither a page slot nor a frame with an area already mapped |
| MmSpace.PushKeeps | src/mm/memory_set.rs:244-250 | what `map_area` guarantees about a new area is enough for the space with that area appended to stay valid |
| MmSpace.AreaKeptByUnmap | src/mm/memory_set.rs:156-167 | unmapping one area keeps any area disjoint from it mapped to its own frames |
| MmSpace.UnmapMisses | src/mm/memory_set.rs:156-167 | no page of a disjoint area sits on a leaf slot of the unmapped one, and none of its frames is among those given back |
| MmSpace.RemoveKeeps | src/mm/memory_set.rs:252-274 | unmapping area `idx` and dropping it from the list leaves a valid space of the other areas |
| MmSpace.MappedAreaUnmaps | src/mm/memory_set.rs:163-167 | every page of an area in order has a valid leaf on a slot of its own, so `unmap` cannot panic on it |
| MmSpace.ByteLands | src/mm/memory_set.rs:122-137 | byte `k` of the data lands at offset `k % 4096` of the frame of page `start + k / 4096` |
| MmSpace.ByteStays | src/mm/memory_set.rs:122-137 | a byte outside the area's frames is left as it was |
| MmSpace.DataLands | src/mm/memory_set.rs:122-137 | `copy_data` on a mapped framed area with distinct frames puts the data at the start of the area and leaves every byte outside its frames alone |
| MmSpace.TooManyChunks | src/mm/memory_set.rs:126-135 | data with more 4096-byte chunks than the area has pages runs past the area, where the `unwrap` of the translation panics |
| MmSpace.FindArea | src/mm/memory_set.rs:252-274 | the search returns the index of the first area whose start (or end) is `vpn`, and nothing exactly when no area has it |
| MmSpace.TrampolinePages | src/mm/memory_set.rs:276-287 | the trampoline's conversions succeed exactly when both addresses are page-aligned and in range, and then name the pages holding them |
| MmSpace.LoadData | src/mm/memory_set.rs:248 | the `copy_data` step of `push` panics exactly on an identical area or on data with more chunks than the area has pages; otherwise the data lands in the area's frames and no other byte or word changes |
| MmSpace.TranslationKept | src/mm/page_table.rs:122-136 | the walk reads only the table's own frames, so while their words stay every translation does |
| MmSpace.CopyPages | src/mm/memory_set.rs:205-211 | the page loop of `from_existed` gives every page of the copy the bytes of the same page of the source, and changes no byte outside the copy's frames |
| MmSpace.CopyPage | src/mm/memory_set.rs:206-210 | one turn of that loop copies one source frame whole onto the copy's frame |
| MmSpace.CopiesStep | src/mm/memory_set.rs:199-212 | pushing the copy of one more area and copying its pages extends the loop's invariant by one area |
| MmSpace.LiveKeptByPush | src/mm/memory_set.rs:244-250 | frames in use before a push keep their words and bytes |
| MmSpace.SourceShown | src/mm/memory_set.rs:205-211 | a source area whose table frames kept their words still translates each page to its frame, so neither `unwrap` of the copy loop panics |
| MmSpace.PushedShown | src/mm/memory_set.rs:203-211 | the area just pushed translates each page to its own distinct frame |
| MmSpace.AreasOwnLive | src/mm/memory_set.rs:64-68 | in a valid space every area's frames are in use, and a framed area has one for each of its pages |
| MmSpace.CopyPushed | src/mm/memory_set.rs:203-211 | after the copy of area `i` is pushed, copying its pages extends the invariant of the area loop |
| MmSpace.CopyAreaInto | src/mm/memory_set.rs:199-212 | one turn of the area loop of `from_existed` pushes a copy of area `i` and copies its pages, extending the loop's invariant |
| MmSpace.CopyAreas | src/mm/memory_set.rs:199-212 | the area loop of `from_existed` copies every area of the source, in order, and keeps the new space valid |
| MmSpace.SegmentsKept | src/mm/memory_set.rs:299-314 | segments already loaded keep their bytes when one more is pushed |
| MmSpace.PushSegment | src/mm/memory_set.rs:310 | one `push` of `from_elf` appends the segment, loaded with its bytes, and keeps every valid translation |
| MmSpace.LoadSegments | src/mm/memory_set.rs:298-314 | the program-header loop panics whenever the scan of the headers does; on success the space holds every loadable segment with its bytes, in order, and returns `program_vpn_end` |
| MmSpace.LoadHeader | src/mm/memory_set.rs:300-313 | one turn of that loop skips a header that is not Load and otherwise pushes its segment with its bytes, raising `program_vpn_end` to its end |
| MmSpace.PushLayout | src/mm/memory_set.rs:315-337 | the tail of `from_elf` pushes the user stack and the trap-context page without data and returns the user stack pointer; it panics whenever the layout does |
| MmSpace.MemorySet.NewBare | src/mm/memory_set.rs:189-194 | `new_bare` is a valid space with no areas and a fresh table owning one new, zeroed root frame; no other memory changes |
| MmSpace.MemorySet.MapTrampoline | src/mm/memory_set.rs:276-287 | `map_trampoline` succeeds exactly when both conversions succeed and the page was not validly mapped, and then maps the trampoline page to the page of `strampoline` with R, X and V; no valid mapping moves |
| MmSpace.MemorySet.Push | src/mm/memory_set.rs:244-250 | `push` appends the area mapped to fresh frames, with the data from its first page on; it gets through exactly when `map_area` does and, with data, the area is framed and the data has no more chunks than the area has pages; the space stays valid and frames in use keep their contents |
| MmSpace.MemorySet.RemoveArea | src/mm/memory_set.rs:252-274 | removing by start or end page drops the first matching area, clears its pages, frees exactly its frames, keeps the space valid, and leaves the translation of every page outside the area as it was; with no match nothing changes |
| MmSpace.MemorySet.NewWithTrampoline | src/mm/memory_set.rs:189-194 | `new_bare` then `map_trampoline` succeeds exactly when the trampoline addresses pass the conversions (the fresh root maps nothing), and then gives a valid space with no areas and the trampoline mapped, touching no frame in use |
| MmSpace.MemorySet.FromExisted | src/mm/memory_set.rs:196-214 | `from_existed` builds a valid space with its own table and the trampoline mapped, holding a copy of every area in order: framed copies get fresh frames with the source pages' bytes, identical copies share frames; nothing in use changes |
| MmSpace.MemorySet.FromElf | src/mm/memory_set.rs:290-339 | `from_elf` panics on a wrong magic, a segment that does not convert or slice, and an empty program; otherwise the space holds every loadable segment with its bytes, then the user stack and the trap-context page, and returns the entry point and the user stack pointer |
| MmAddressSpace.FitsStep | src/mm/memory_set.rs:126-135 | one more chunk fits when its page lies in the area and has a leaf |
| MmAddressSpace.FitsUpToAll | src/mm/memory_set.rs:126-135 | when the first `k` chunks fit, every page of them has a leaf |
| MmAddressSpace.CopyData | src/mm/memory_set.rs:122-137 | `copy_data` panics exactly when the area is not framed or the data runs past its pages or onto a page without a leaf; otherwise each 4096-byte chunk lands at the start of its page's frame, and no page-table word changes |
| MmAddressSpace.LowsStep | src/mm/address.rs:217-225 | the leaf slots of pages `lo..hi + 1` are those of `lo..hi` plus that of `hi` |
| MmAddressSpace.AfterUnmap | src/mm/memory_set.rs:156-161 | unmapping pages `lo..hi` drops exactly their frames from a framed area and leaves an identical area as it was |
| MmAddressSpace.UnmapOne | src/mm/memory_set.rs:156-161 | `unmap_one` panics exactly when the page has no valid leaf; otherwise the page's leaf is empty, a framed area's frame for it is freed, and no other page's translation changes |
| MmAddressSpace.AfterUnmapStep | src/mm/memory_set.rs:163-167 | unmapping `lo..hi` then `hi` is unmapping `lo..hi + 1`, and frees the same frames |
| MmAddressSpace.UnmapPanics | src/mm/memory_set.rs:163-167 | a page whose leaf is not valid when its turn comes shows that the area had a page without a valid leaf or two pages on one slot |
| MmAddressSpace.UnmapProgress | src/mm/memory_set.rs:163-167 | clearing the valid leaf of the next page extends the unmapped prefix by one page |
| MmAddressSpace.UnmapBegins | src/mm/memory_set.rs:163-167 | before the loop nothing is unmapped yet |
| MmAddressSpace.UnmapEnds | src/mm/memory_set.rs:163-167 | once the loop has passed every page, what `unmap` promises holds |
| MmAddressSpace.UnmapNext | src/mm/memory_set.rs:164-166 | one turn of the `unmap` loop either extends the unmapped prefix or shows the area could not be unmapped |
| MmAddressSpace.Unmap | src/mm/memory_set.rs:163-167 | `unmap` gets through exactly when every page has a valid leaf and no two pages share a slot; then every page's leaf is empty, exactly the area's frames are freed, and every other page's translation stays |
| MmUserBuffer.PieceSlots | src/mm/page_table.rs:203 | a piece `frame[lo..hi]` is the `hi - lo` byte slots of that frame from `lo` on, in order |
| MmUserBuffer.FlattenAppend | src/mm/page_table.rs:237-257 | the bytes of two lists of pieces are the bytes of the first then those of the second |
| MmUserBuffer.FlattenSnoc | src/mm/page_table.rs:237-257 | one more piece adds its bytes at the end |
| MmUserBuffer.PiecesPanicIff | src/mm/page_table.rs:191-208 | the intended pieces (the corrected definition, see Findings) panic exactly when some page of `[ptr, ptr + len)` has no leaf |
| MmUserBuffer.PiecesInsideFrames | src/mm/page_table.rs:199-206 | each intended piece (the corrected definition) is non-empty and lies inside one frame |
| MmUserBuffer.PiecesCover | src/mm/page_table.rs:191-208 | the intended pieces (the corrected definition) cover the range exactly and in order: byte `k` of the buffer is the physical byte behind address `ptr + k` |
| MmUserBuffer.BoundaryPieceLost | src/mm/page_table.rs:202-203 | as written, a range that ends on a page boundary from the start of its page gives an empty piece instead of a whole page |
| MmUserBuffer.UnalignedPieceToBoundaryPanics | src/mm/page_table.rs:202-203 | as written, a range that starts inside a page and ends on its boundary panics on a reversed slice |
| MmUserBuffer.AsWrittenAgreesInsideOnePage | src/mm/page_table.rs:202-203 | the code as written gives the intended pieces exactly for ranges inside one page that stop short of its end |
| MmUserBuffer.PiecesAsWrittenPanicIff | src/mm/page_table.rs:191-208 | the code as written panics exactly when a page of the range does not translate, or the range starts inside a page and reaches that page's end |
| MmUserBuffer.AsWrittenFirstPiece | src/mm/page_table.rs:199-206 | when the code as written gets through, its first piece is the first page's frame from the start's offset to the offset of the next boundary or the end, followed by the pieces of the rest |
| MmUserBuffer.PiecesAsWrittenShape | src/mm/page_table.rs:199-206 | every piece the code as written returns lies inside one frame, and all but the last are empty |
| MmUserBuffer.PiecesAsWrittenCover | src/mm/page_table.rs:191-208 | the bytes the code as written reaches are exactly the intended bytes from the last page boundary at or below the end on (from the start when that is higher) |
| MmUserBuffer.OnePageAgrees | src/mm/page_table.rs:202-203 | on a range inside one page and short of its end, the code as written gives the intended pieces |
| MmUserBuffer.AcrossPagesLosesFirst | src/mm/page_table.rs:202-203 | on any other range the code as written either panics or returns an empty first piece |
| MmUserBuffer.AsWrittenNonEmptyIff | src/mm/page_table.rs:191-208 | the code as written returns pieces that each hold a byte exactly when every page translates and the range lies inside one page short of its end |
| MmUserBuffer.PiecesAsWrittenLoopStep | src/mm/page_table.rs:199-206 | one turn of the loop as written: a reversed slice panics; otherwise the piece up to the next page boundary or the end joins those gathered so far and the loop goes on from there |
| MmUserBuffer.TranslatedByteBuffer | src/mm/page_table.rs:191-208 | the loop of `translated_byte_buffer` returns the pieces of the code as written for `[ptr, ptr.offset(len))`; with the lemmas above they panic exactly when a page does not translate or a range starting inside a page reaches its end, and otherwise reach the intended bytes from the last page boundary below the end |
| MmUserBuffer.StoreReadsBack | src/mm/page_table.rs:245-257 | writing bytes to distinct slots makes each slot read back its byte and leaves every other slot alone |
| MmUserBuffer.BufferHandle.constructor | src/mm/page_table.rs:233-235 | a handle keeps the pieces it is given |
| MmUserBuffer.BufferHandle.Length | src/mm/page_table.rs:237-243 | `len` is the number of bytes the pieces reach |
| MmUserBuffer.BufferHandle.Write | src/mm/page_table.rs:245-257 | `write` copies the first `min(len, data.len())` bytes of data into the buffer's bytes in order, returns that count, and changes nothing else |
| MmUserBuffer.WritePiece | src/mm/page_table.rs:247-255 | the inner loop of `write` fills one piece from the data, stopping when the data runs out |
| MmUserBuffer.FlattenAt | src/mm/page_table.rs:237-257 | the bytes of piece `i` sit in the buffer right after those of the pieces before it |
| MmUserBuffer.StorePrefix | src/mm/page_table.rs:252-253 | storing one more byte of a prefix is one more single-byte update |
| MmUserBuffer.PrefixOfFlatten | src/mm/page_table.rs:237-257 | the bytes of the first `i` pieces begin the buffer's bytes |
| MmUserBuffer.RemainingAtStep | src/mm/page_table.rs:280-293 | the bytes still to come from a position inside a piece are that position's byte followed by those from the next position, or from the start of the next piece at the end of this one |
| MmUserBuffer.UserBufferIterator.constructor | src/mm/page_table.rs:263-269 | `into_iter` starts at the first byte, so every byte of the handle is still to come |
| MmUserBuffer.UserBufferIterator.Next | src/mm/page_table.rs:280-293 | `next` yields nothing after the last piece and panics on an empty piece; over non-empty pieces it yields the buffer's bytes in order, one per call |
| MemMemorySet.PermFlags | src/mem/memory_set.rs:109 | the permission bits become the leaf flags unchanged: R\|X, R and R\|W give those flags, and no permission sets V |
| MemMemorySet.Size | src/mem/memory_set.rs:65-67 | `size` is the area's page count times 4096 when that does not overflow |
| MemMemorySet.MapAreaNew | src/mem/memory_set.rs:68-75 | a new area keeps its permission and map type, runs forward, and has no frames |
| MemMemorySet.NewCovers | src/mem/memory_set.rs:65-75 | for ordered addresses that round up without overflow, `new` succeeds, its pages are exactly those holding a byte of `[start, end)`, and `size` is a whole number of pages covering the span with less than two pages to spare |
| MemMemorySet.WindowApart | src/mem/address.rs:181-190 | distinct pages less than 2^27 apart sit on different leaf slots |
| MemMemorySet.RecordFrame | src/mem/memory_set.rs:102-106 | recording a fresh frame for page `v` keeps the frames of the earlier pages and adds it for `v` |
| MemMemorySet.MapProgressStep | src/mem/memory_set.rs:97-111 | mapping page `v` extends the loop's progress by one page |
| MemMemorySet.DataFrameAlloc | src/mem/memory_set.rs:103 | a data frame is fresh, zeroed, none of the table's frames, and moves no translation |
| MemMemorySet.MapOne | src/mem/memory_set.rs:98-110 | one page of `map`: the page's own number or a fresh recorded frame, then the leaf holds it with the permission bits as flags; it panics exactly when the page's leaf is already valid; no other page that had a leaf moves |
| MemMemorySet.MapNext | src/mem/memory_set.rs:98-110 | one turn of the `map` loop keeps its invariant one page further |
| MemMemorySet.Map | src/mem/memory_set.rs:97-111 | `map` maps every page of the area in order (identical pages to their own number masked to 44 bits, framed pages to fresh recorded frames) with the permission bits as flags and no V |
| MemMemorySet.NotYetTouched | src/mem/memory_set.rs:97-118 | in an area less than 2^27 pages long, a page not yet reached translates as it did before the loop |
| MemMemorySet.UnmapStep | src/mem/memory_set.rs:113-118 | clearing the leaf of page `v` extends the unmapped prefix by one page |
| MemMemorySet.Unmap | src/mem/memory_set.rs:113-118 | `unmap` as written gets through exactly when every page has a leaf that is NOT valid; then every page's leaf is empty, no page apart from the area moves, and every recorded frame is given back |
| MemMemorySet.FitAt | src/mem/memory_set.rs:82-88 | when the first `k` chunks fit, each of their pages is in the area and has a leaf |
| MemMemorySet.PagesFitStep | src/mem/memory_set.rs:82-88 | one more chunk fits when its page is in the area and has a leaf |
| MemMemorySet.ShortTail | src/mem/memory_set.rs:89-91 | data that ends part-way into a page is not a whole number of pages |
| MemMemorySet.WholePages | src/mem/memory_set.rs:89-91 | data that ends exactly at page `i` is `i` whole pages |
| MemMemorySet.PageMissing | src/mem/memory_set.rs:82-88 | a chunk whose page is past the area or has no leaf makes `copy_data` panic |
| MemMemorySet.CopyData | src/mem/memory_set.rs:78-95 | `copy_data` succeeds exactly when every chunk's page is in the area with a leaf and the data is a whole number of pages; then each chunk fills its page's frame, and no page-table word changes |
| MemMemorySet.FrameOfMapped | src/mem/memory_set.rs:97-111 | a mapped page of a framed area translates to the frame the area recorded for it |
| MemMemorySet.CopiedFramesDistinct | src/mem/memory_set.rs:97-111 | the pages of a mapped framed area that the data covers reach distinct frames |
| MemMemorySet.DataLands | src/mem/memory_set.rs:128-134 | once a framed area is mapped and `copy_data` has run, the frame of its `i`-th page holds the `i`-th page of the data |
| MemMemorySet.CopiedIsDataIn | src/mem/memory_set.rs:78-95 | with distinct frames and every chunk written, the data sits in the frames of its pages |
| MemMemorySet.ByteLands | src/mem/memory_set.rs:78-95 | with distinct frames and every chunk written, byte `k` of the data is at offset `k % 4096` of its page's frame |
| MemMemorySet.NothingMapped | src/mem/memory_set.rs:122-127 | a zeroed root table gives no page a leaf |
| MemMemorySet.PhysMemEndAsWrittenMisaligns | src/mem/memory_set.rs:142 | `MEMORY_END & !PAGE_SIZE` clears only bit 12, so an unaligned address with bit 12 clear passes through unchanged |
| MemMemorySet.PhysMemEnd | src/mem/memory_set.rs:142 | the intended rounding gives the page boundary at or below the address |
| MemMemorySet.PhysMemEndAgrees | src/mem/memory_set.rs:142 | for this board's `MEMORY_END` the code as written and the intended rounding agree |
| MemMemorySet.KernelSegments | src/mem/memory_set.rs:136-219 | the kernel space pushes five sections and then one area per MMIO region |
| MemMemorySet.SegmentArea | src/mem/memory_set.rs:156-217 | each section becomes an identical area with its permission |
| MemMemorySet.LastPermLow | src/mem/memory_set.rs:136-219 | a page some section of a low kernel space holds lies below 2^27 |
| MemMemorySet.LowApart | src/mem/address.rs:181-190 | below 2^27 a page outside an area is on a different leaf slot from every page of it |
| MemMemorySet.IdentityStep | src/mem/memory_set.rs:156-217 | pushing section `i` as an identical area extends the identity mapping to the first `i + 1` sections |
| MemMemorySet.IdentityTranslates | src/mem/memory_set.rs:223-245 | what `identical_map_test` checks: in a low kernel space every page a section holds translates to the physical page of the same number, with the flags of the last section pushed over it |
| MemMemorySet.SegmentAreasStep | src/mem/memory_set.rs:156-217 | one more pushed section extends the list of areas by its area |
| MemMemorySet.MemorySet.NewBare | src/mem/memory_set.rs:122-127 | `new_bare` is a valid set with no areas whose fresh table gives no page a leaf |
| MemMemorySet.MemorySet.Push | src/mem/memory_set.rs:128-134 | `push` appends the area `map` recorded, with fresh frames, keeps every page apart from it that had a leaf, and for a framed area puts the data in the frames of its pages |
| MemMemorySet.MemorySet.PushSegment | src/mem/memory_set.rs:156-217 | one push of a kernel section extends the areas and the identity mapping by that section |
| MemMemorySet.MemorySet.PushSegments | src/mem/memory_set.rs:156-217 | pushing all sections in turn gives their areas in order and, in a low kernel space, the identity mapping over all of them |
| MemMemorySet.MemorySet.BuildKernelSpace | src/mem/memory_set.rs:136-219 | `build_kernel_space` panics when a section boundary is not page-aligned; otherwise its areas are the kernel's sections and MMIO regions in order, each mapped to itself |
| Tools.AlignCeil | src/tools/mod.rs:14-16 | `align_ceil` panics exactly when `align` is 0 |
| Tools.DivModUnique | src/tools/mod.rs:14-16 | a quotient and remainder that rebuild `x` are `x / b` and `x % b` |
| Tools.LeastMultipleAbove | src/tools/mod.rs:14-16 | a multiple of `align` above `m` is at least the first multiple above `m` |
| Tools.AlignCeilIsLeastMultiple | src/tools/mod.rs:14-16 | away from 0 and from overflow, `align_ceil(val, align)` is the least multiple of `align` at or above `val` |
| Tools.FirstFree | src/tools/mod.rs:49-63 | the slot `alloc_id` picks is empty and every slot before it is occupied, or it is one past the end when all are occupied |
| Tools.PushThenRemove | src/tools/mod.rs:64-81 | removing what a push stored gives the value back and leaves the table as `alloc_id` left it |
| Tools.PushesUseDistinctSlots | src/tools/mod.rs:49-73 | two pushes in a row store at different, increasing indices |
| Tools.Table.constructor | src/tools/mod.rs:40-43 | a new table has no slots |
| Tools.Table.FromIter | src/tools/mod.rs:31-38 | `from_iter` keeps the slots as collected |
| Tools.Table.AllocId | src/tools/mod.rs:49-63 | `alloc_id` returns the lowest empty slot, appending one empty slot when there is none |
| Tools.Table.PushOpt | src/tools/mod.rs:64-69 | `push_opt` stores the value at the lowest free index and changes no other slot |
| Tools.Table.Push | src/tools/mod.rs:70-74 | `push` stores `Some(val)` at the lowest free index and changes no other slot |
| Tools.Table.With | src/tools/mod.rs:44-48 | `with` is `push`, keeping the table |
| Tools.Table.Remove | src/tools/mod.rs:75-81 | `remove` takes an in-range slot's value and leaves it empty; out of range it returns `None` and changes nothing |
| Tools.Table.Get | src/tools/mod.rs:82-88 | `get` finds a value exactly for an in-range occupied slot |
| Tools.Table.GetEntry | src/tools/mod.rs:89-91 | `get_entry` panics exactly out of range and otherwise gives the slot |
| Tools.Table.Swap | src/tools/mod.rs:92-99 | `swap` exchanges two slots exactly when both are occupied, and otherwise returns `Err` with no change |
| Tools.Table.Clear | src/tools/mod.rs:100-102 | `clear` leaves no slots |
| Tools.FirstFreeIsLowest | src/tools/mod.rs:49-63 | the slot `alloc_id` picks is the only one with nothing free before it |
| StdlibTools.AlignedSize | src/stdlib/tools.rs:4-12 | `aligned_size` panics exactly when `meta` is 0 |
| StdlibTools.AlignedSizeIsLeastMultiple | src/stdlib/tools.rs:4-12 | without overflow, `aligned_size` is the least multiple of `meta` at or above the size |
| StdlibTools.AlignedSizeMatchesAlignCeil | src/stdlib/tools.rs:4-12 | for a non-zero size `aligned_size` and `align_ceil` agree |
| Ring.Count | src/tools/ring_buffer.rs:32-45 | the count between `head` and `tail` is below the capacity, is 0 exactly when they meet, is `cap - 1` exactly when `tail + 1` wraps to `head`, and reaches from `head` to `tail` |
| Ring.Window | src/tools/ring_buffer.rs:32-38 | the items of the ring are the slots from `head`, oldest first, as many as the count |
| Ring.TailOutsideWindow | src/tools/ring_buffer.rs:46-57 | the slot at `tail` is never one of the waiting items |
| Ring.WindowPush | src/tools/ring_buffer.rs:46-57 | storing at `tail` and advancing it appends the item, unless the ring is full |
| Ring.WindowPop | src/tools/ring_buffer.rs:58-70 | taking the item at `head` and advancing it removes the oldest item |
| ToolsRingBuffer.RingBuffer.constructor | src/tools/ring_buffer.rs:21-27 | a new ring is empty |
| ToolsRingBuffer.RingBuffer.Len | src/tools/ring_buffer.rs:32-38 | `len` is the number of waiting items, at most 31 |
| ToolsRingBuffer.RingBuffer.IsEmpty | src/tools/ring_buffer.rs:39-41 | `is_empty` holds exactly when no item waits |
| ToolsRingBuffer.RingBuffer.IsFull | src/tools/ring_buffer.rs:42-45 | `is_full` holds exactly when 31 items wait |
| ToolsRingBuffer.RingBuffer.Write | src/tools/ring_buffer.rs:46-57 | `write` appends the item exactly when fewer than 31 wait, and otherwise hands it back with nothing changed |
| ToolsRingBuffer.RingBuffer.Read | src/tools/ring_buffer.rs:58-70 | `read` removes and returns the oldest item, and returns nothing exactly when the ring is empty |
| ToolsRingBuffer.Sender.constructor | src/tools/ring_buffer.rs:96-98 | a sender holds the shared ring |
| ToolsRingBuffer.Sender.TrySend | src/tools/ring_buffer.rs:109-112 | `try_send` appends the item exactly when there is room, else hands it back |
| ToolsRingBuffer.Sender.Available | src/tools/ring_buffer.rs:113-116 | the sender's `available` is the room left: it and the count add up to 31 |
| ToolsRingBuffer.Reciver.constructor | src/tools/ring_buffer.rs:119-121 | a receiver holds the shared ring |
| ToolsRingBuffer.Reciver.TryRecv | src/tools/ring_buffer.rs:130-133 | `try_recv` removes and returns the oldest item, or nothing exactly when the ring is empty |
| ToolsRingBuffer.Reciver.Available | src/tools/ring_buffer.rs:134-136 | the receiver's `available` is the number of waiting items |
| ToolsRingBuffer.Channel | src/tools/ring_buffer.rs:72-77 | `channel` gives both ends one shared, new, empty ring |
| ToolsRingBuffer.ChannelTest | src/tools/ring_buffer.rs:139-146 | the commented-out channel test's assertions hold: 0 waiting and 31 free, then 1 waiting and 30 free after one send |
| Pipe.PipeBuffer.constructor | src/fs/pipe.rs:42-49 | a new pipe buffer has nothing to read |
| Pipe.PipeBuffer.IsEmpty | src/fs/pipe.rs:74-76 | `is_empty` holds exactly when nothing is left to read |
| Pipe.PipeBuffer.IsFull | src/fs/pipe.rs:77-80 | `is_full` holds exactly when 128 bytes wait |
| Pipe.PipeBuffer.Write | src/fs/pipe.rs:56-64 | `write` appends the byte exactly when fewer than 128 wait, and otherwise returns `Err` with nothing changed |
| Pipe.PipeBuffer.Read | src/fs/pipe.rs:65-73 | `read` removes and returns the oldest byte, and returns nothing exactly when the buffer is empty |
| Pipe.RingBufferTest | src/fs/pipe.rs:143-155 | `ring_buffer_test`'s assertions hold: 128 writes succeed, the 129th fails, the reads give `0..127` back in order, and one more read finds nothing |
| TaskPid.PidAllocator.constructor | src/task/pid.rs:15-20 | a new pid allocator starts at `PID_START` with nothing returned and nothing live |
| TaskPid.PidAllocator.Alloc | src/task/pid.rs:21-28 | `alloc` pops the most recently returned pid, else hands out `current` and bumps it; the pid handed out was not live |
| TaskPid.PidAllocator.Find | src/task/pid.rs:32 | the scan of the returned pids finds a pid exactly when it is there |
| TaskPid.PidAllocator.Dealloc | src/task/pid.rs:29-37 | `dealloc` panics exactly unless the pid is below `current` and not already returned; otherwise it is returned and no longer live |
| TaskPid.PidHandleDrop | src/task/pid.rs:48-52 | dropping the handle of a live pid returns it without a panic |
| TaskUid.UidAllocator.constructor | src/task/uid.rs:25-30 | a new id allocator starts at 1 with nothing returned and nothing live |
| TaskUid.UidAllocator.Alloc | src/task/uid.rs:31-38 | `alloc` pops the most recently returned id, else hands out `current` and bumps it; the id handed out was not live |
| TaskUid.UidAllocator.IsRecycled | src/task/uid.rs:42 | the scan of the returned ids finds an id exactly when it is there |
| TaskUid.UidAllocator.Dealloc | src/task/uid.rs:39-46 | `dealloc` panics exactly unless the id is below `current` and not already returned; otherwise it is returned and no longer live |
| TaskUid.PidAlloc | src/task/uid.rs:54-58 | `pid_alloc` takes an id that was not live from the process-id pool |
| TaskUid.PidDrop | src/task/uid.rs:111-115 | dropping a `Pid` returns its id to the process-id pool without a panic |
| TaskUid.KstackAlloc | src/task/uid.rs:64-69 | `kstack_alloc` takes an id that was not live from the kernel-stack pool |
| TaskUid.KstackDrop | src/task/uid.rs:84-91 | dropping a `KernelStack` returns its id to the kernel-stack pool without a panic |
| TaskAllocater.Filled | src/task/allocater.rs:26-35 | setting the descriptors of `[lo, hi)` changes exactly those |
| TaskAllocater.ToIndex | src/task/allocater.rs:36-38 | `to_index` is the page index of the address from `MEMORY_START`; below it the subtraction wraps to a huge index |
| TaskAllocater.MemMap.constructor | src/task/allocater.rs:52-62 | the map starts with every page free |
| TaskAllocater.MemMap.IsFree | src/task/allocater.rs:23-25 | `is_free` panics exactly on a range outside the map and otherwise says whether every page in it is free |
| TaskAllocater.MemMap.Fill | src/task/allocater.rs:26-35 | setting a range panics exactly when it is outside the map and otherwise changes exactly that range |
| TaskAllocater.MemMap.Take | src/task/allocater.rs:26-30 | `take` marks exactly the range used |
| TaskAllocater.MemMap.Free | src/task/allocater.rs:31-35 | `free` marks exactly the range free |
| TaskAllocater.MemMap.Init | src/task/allocater.rs:64-67 | `init` marks the kernel image's pages used |
| TaskAllocater.MemMap.MallocAt | src/task/allocater.rs:69-85 | `malloc_at` panics on an unaligned address or a run past the map; otherwise it claims the run of pages covering `len` bytes exactly when all were free, and reports whether they were |
| TaskAllocater.ClaimedRunsExclude | src/task/allocater.rs:69-85 | a claimed run is no longer free, so a later `malloc_at` of any overlapping run reports false |
| TaskAllocater.TakeThenFree | src/task/allocater.rs:26-35 | `free` undoes `take` of a run that was free |
| TaskAllocater.PagesFor | src/task/allocater.rs:72-73 | the run covers `len` bytes with less than a page to spare |
| TaskAllocater.StackRegionsDisjoint | src/task/stack.rs:17-28 | without overflow, the stack regions of different calls are disjoint, and those of successive calls are adjacent |
| TaskAllocater.StackPlacer.constructor | src/task/stack.rs:12-14 | the count of stacks starts at 0 |
| TaskAllocater.StackPlacer.AllocateStack | src/task/stack.rs:17-28 | `allocate_stack` bumps the count even on failure; it succeeds exactly when the `count`-th region is aligned, inside the map and free, then claims it and returns its top and the start of the kernel stack; otherwise it panics |
| Scheduler.Processor.constructor | src/task/scheduler.rs:22 | a processor for a hart starts with no ready tasks |
| Scheduler.Processor.AddTask | src/task/scheduler.rs:44 | a processor queues a task at the back |
| Scheduler.Processor.FetchTask | src/task/scheduler.rs:48 | a processor hands out its oldest ready task, or nothing when none is ready |
| Scheduler.Scheduler.constructor | src/task/scheduler.rs:19-25 | `Scheduler::new` has one idle processor per hart |
| Scheduler.Scheduler.LeastLoaded | src/task/scheduler.rs:36-41 | the `min_by` picks a processor with the fewest ready tasks, the first on a tie, and nothing only when there is no processor |
| Scheduler.Scheduler.MostLoaded | src/task/scheduler.rs:47-48 | the `max_by` picks a processor with the most ready tasks, the last on a tie, and nothing only when there is no processor |
| Scheduler.Scheduler.AddTask | src/task/scheduler.rs:33-45 | `add_task` panics exactly when there is no processor; otherwise it queues this task on the first least-loaded processor, records that hart in its trap context, and no other queue changes |
| Scheduler.Scheduler.FetchTask | src/task/scheduler.rs:46-53 | `fetch_task` takes the oldest ready task of the last most-loaded processor, changing no other queue, and nothing when there is no processor |
| Tigger.TimerNew | src/task/tigger.rs:21-25 | a timer expires `time` after the clock reading, the sum wrapping at 2^64 |
| Tigger.TimerPoll | src/task/tigger.rs:31-37 | a timer is ready exactly when the clock has reached its expiry |
| Tigger.TimerFiresAfterDelay | src/task/tigger.rs:20-37 | without wrap-around a timer is pending until `time` milliseconds have passed and ready from then on |
| Tigger.TimerStaysReady | src/task/tigger.rs:31-37 | once ready, a timer stays ready while the clock moves forward |
| Tigger.TimerWrapsEarly | src/task/tigger.rs:21-25 | a delay whose sum with the clock passes 2^64 wraps to an early expiry, so the timer is ready at once |
| Tigger.TaskWaiter.constructor | src/task/tigger.rs:46-48 | a task waiter keeps the shared status and the target state |
| Tigger.TaskWaiter.Poll | src/task/tigger.rs:54-60 | a task waiter is ready exactly when the watched state equals the target |
| Tigger.ChildrenWaiter.constructor | src/task/tigger.rs:69-76 | a children waiter holds one shared status per child, in the order of the children |
| Tigger.ChildrenWaiter.Poll | src/task/tigger.rs:82-92 | a children waiter is ready exactly when there are no children or some child has exited |
| TaskBlock.SharedStatus.constructor | src/task/task_block.rs:115-120 | the default shared status has no pending signals, is `Ready` and has no exit code |
| TaskBlock.FdTable.constructor | src/task/task_block.rs:134-142 | a new table holds exactly descriptors 0, 1 and 2, open on stdin, stdout and stdout |
| TaskBlock.FdTable.Clone | src/task/task_block.rs:128-131 | a cloned table is a distinct object with the same entries |
| TaskBlock.FdTable.PushFd | src/task/task_block.rs:144-158 | the file lands in the lowest empty descriptor, or in a new last one when none is empty; that descriptor is returned and every other descriptor keeps its file |
| TaskBlock.FdTable.Close | src/task/task_block.rs:159-165 | closing takes the descriptor's file out and leaves it empty; an out-of-range descriptor gives `None` and changes nothing; either way the descriptor is closed afterwards |
| TaskBlock.FdTable.Get | src/task/task_block.rs:166-172 | a descriptor yields a file exactly when it is in range and open, and then it is that entry |
| TaskBlock.FdTable.Swap | src/task/task_block.rs:173-180 | swapping succeeds exactly when both descriptors are open, and then exchanges their files; on failure the table is unchanged |
| TaskBlock.PushThenClose | src/task/task_block.rs:144-165 | closing the descriptor a push returned hands back the pushed file and makes that descriptor the lowest free one again |
| TaskBlock.ForkTrapContext | src/task/task_block.rs:273-276 | the child's trap context is the parent's with the kernel stack replaced and the return register `a0` set to 0; every other register and field is the parent's |
| TaskBlock.Tcb.constructor | src/task/task_block.rs:228-240 | a new block has its pid and trap context, fresh default shared status, the standard descriptors, no parent and no children |
| TaskBlock.Tcb.Exit | src/task/task_block.rs:293-302 | after `exit` the descriptor table and children are empty, the exit code is published with the `Exited` state, this task is no longer ready and the signals are kept |
| TaskBlock.Tcb.SetState | src/task/task_block.rs:304-307 | setting a state panics exactly when it is `Exited`; otherwise the state is set, this task is ready exactly when it is `Ready`, and the exit code and signals are untouched |
| TaskBlock.Tcb.FindChild | src/task/task_block.rs:310-324 | the result is the first child with that pid and its position; `None` exactly when no child has it |
| TaskBlock.FindByPid | src/task/task_block.rs:315-323 | the first block with that pid in a list and its position; `None` exactly when none has it |
| TaskBlock.Tcb.SetParent | src/task/task_block.rs:339-343 | this task is appended to the parent's children and points back at it; the rest of both blocks is unchanged |
| TaskBlock.Tcb.Fork | src/task/task_block.rs:268-287 | the child is fresh, has the new pid and the forked trap context, a distinct copy of the parent's descriptor table, `Ready` with no exit code, and is the parent's new last child |
| TaskBlock.PushArgs | src/task/task_block.rs:206-225 | the stack pointer drops by the argument length rounded up to 8; the call gets through exactly when the new stack pointer passes the `VirtAddr` conversion, every page of the range translates and the range lies inside one page short of its end (the code slices and iterates as written); then the argument bytes are stored at the physical bytes behind the new stack pointer and no page-table word changes |
| TaskBlock.ZipCopy | src/task/task_block.rs:220-222 | the zipped copy cannot panic over non-empty pieces and panics on an empty first piece; otherwise it stores the first min(buffer length, argument length) argument bytes into the buffer's bytes in order, and changes nothing else |
| TaskBlock.ZipStep | src/task/task_block.rs:220-222 | one turn of the zipped copy panics when the iterator stands on an exhausted piece; otherwise it stores the next argument byte in the next buffer byte, or stops when the buffer or the arguments run out |
| TaskBlock.AlignedArgsAtPageTopPanic | src/task/task_block.rs:206-225 | arguments whose length is a multiple of 8, pushed at a stack pointer on a page boundary, reach that boundary, so `push_args` as written does not get through with them |
| Task.TaskControlBlock.constructor | src/task/task.rs:88-98 | a new task takes a pid that was not live, enters `entry` on stack `usp` with the kernel stack of that pid, first switches into `trap_return` with the space's token, is `Ready` with fds 0 and 1 on stdin and stdout, no parent and no children |
| Task.TaskControlBlock.SetState | src/task/task.rs:250-255 | setting a state panics exactly when it is `Exited`, and then nothing changes; otherwise the state is set and no exit code is reported |
| Task.TaskControlBlock.Run | src/task/task.rs:123-126 | `run` records the hart in the trap context and marks this task `Running`, nothing else |
| Task.TaskControlBlock.Ready | src/task/task.rs:128-130 | `ready` marks this task `Ready` and changes nothing else |
| Task.TaskControlBlock.Blocking | src/task/task.rs:132-136 | `blocking` marks this task blocked on the given trigger and changes nothing else |
| Task.TaskControlBlock.ExitCode | src/task/task.rs:190-196 | a code is reported exactly when this task has exited, and it is the code it exited with |
| Task.TaskControlBlock.FindChild | src/task/task.rs:153-167 | the result is the first child with that pid and its position; `None` exactly when no child has it |
| Task.FindByPid | src/task/task.rs:158-166 | the first task with that pid in a list and its position; `None` exactly when none has it |
| Task.TaskControlBlock.WithParent | src/task/task.rs:184-188 | this task is appended to the parent's children and points back at it; two disjoint valid trees become one valid tree |
| Task.TaskControlBlock.Exit | src/task/task.rs:138-151 | exiting an exited task changes nothing; otherwise this task ends `Exited(code)` with no children, and every task of its old subtree has exited, keeping an earlier code where it had one |
| Task.TaskControlBlock.ExitLast | src/task/task.rs:145-147 | one turn of the exit loop removes the last child's subtree, exits all of it, and leaves the rest of the tree as it was |
| Task.TaskControlBlock.PopChild | src/task/task.rs:145 | popping the last child removes exactly its subtree from this task's footprint and keeps both trees valid |
| Task.ExitedWith | src/task/task.rs:140-148 | the state after `exit`: always exited, with the earlier code if this task had already exited |
| Task.TreePop | src/task/task.rs:145 | removing the last child of a tree leaves a tree without that child's subtree, and the child is itself a tree apart from the root |
| Task.TreePush | src/task/task.rs:185 | appending a tree apart from the parent's gives one tree holding both |
| Thread.SharedStatus.constructor | src/task/tcb.rs:117-122 | the default shared status has no pending signals, is `Ready` and has no exit code |
| Thread.SlotAlign | src/task/tcb.rs:71 | the slot alignment is at least 8 and at least the alignment of a trap context |
| Thread.TrapContextAddr | src/task/tcb.rs:70-74 | computing a slot panics exactly when `TRAP_CONTEXT` is not aligned; thread 0's slot is `TRAP_CONTEXT` itself |
| Thread.SlotAt | src/task/tcb.rs:70-74 | away from overflow, slot `t` lies `t` padded context sizes above `TRAP_CONTEXT` and is aligned |
| Thread.TrapContextsApart | src/task/tcb.rs:70-74 | away from overflow, every slot is aligned and a lower thread's trap context ends at or before a higher thread's slot starts |
| Thread.UserStackAddr | src/task/tcb.rs:76-80 | the stack of a thread is the `USER_STACK_SIZE` bytes below its bottom; it panics exactly when either end is outside the Sv39 range |
| Thread.UserStacksApart | src/task/tcb.rs:76-80 | away from overflow, the stacks of two threads are disjoint, with a guard gap of at least `GUARD_PAGE_SIZE` between them |
| Thread.BottomNoWrap | src/task/tcb.rs:77 | without overflow, a stack's bottom is the unwrapped sum |
| Thread.ArgsInsideStack | src/task/tcb.rs:125-141 | arguments no longer than the stack are pushed inside it: the new stack pointer and the end of the argument bytes stay within the stack |
| Thread.NewTrapContext | src/task/tcb.rs:162-170 | the new thread's trap context enters `entry` in user mode on the lowered stack, with the argument address and length in `a0` and `a1` |
| Thread.Process.constructor | src/task/process.rs:61-83 | a new process takes a pid that was not live, is `Running` without signals, parent or children, has fds 0, 1 and 2 on the standard streams and no threads |
| Thread.Process.ExitCode | src/task/process.rs:144-150 | a code is reported exactly when the process has exited, and it is the code it exited with |
| Thread.Process.GetTask | src/task/process.rs:156-158 | a thread id yields a thread exactly when its slot is in range and occupied, and then it is that thread |
| Thread.Process.AddTask | src/task/process.rs:85-90 | the new thread's id is the lowest free slot, the thread is stored there and found there, and no other slot changes; of the steps it composes, it panics exactly when that id is not a machine word or its user-stack or trap-context address does not compute (the panics of the steps `Thread.TcbNew` does not compose are not included) |
| Thread.Process.RemoveTask | src/task/process.rs:160-162 | removing a thread empties its slot; an id past the end changes nothing; either way no thread has that id afterwards |
| Thread.Process.ClearRes | src/task/process.rs:164-169 | clearing leaves no descriptors, no children and no threads, and keeps state, signals and parent |
| Thread.Process.Exit | src/task/process.rs:151-154 | exiting clears the resources and records the exit code, which is then reported |
| Thread.Process.FindChild | src/task/process.rs:124-138 | the result is the first child with that pid and its position; `None` exactly when no child has it |
| Thread.FindByPid | src/task/process.rs:129-137 | the first process with that pid in a list and its position; `None` exactly when none has it |
| Thread.Process.SetParent | src/task/process.rs:140-143 | the process is appended to the parent's children and points back at it; the rest of both blocks is unchanged |
| Thread.Process.Fork | src/task/process.rs:101-116 | the child process is fresh, with a new pid, the same stack base, a copy of the descriptors, registered as the last child; its thread table has the same occupied slots, each thread forked on a distinct new kernel stack |
| Thread.ForkTasks | src/task/process.rs:106-112 | every occupied slot is forked into the new process on a distinct new kernel stack, every empty slot stays empty |
| Thread.Tcb.constructor | src/task/tcb.rs:175-186 | a new thread has its id, process, stacks and trap context, default shared status and no saved trap context |
| Thread.Tcb.Exit | src/task/tcb.rs:253-263 | exiting empties the thread's slot in its process, publishes the code and the `Exited` state, and the thread is no longer ready |
| Thread.Tcb.SetState | src/task/tcb.rs:265-268 | setting a state panics exactly when it is `Exited`; otherwise the state is set, the thread is ready exactly when it is `Ready`, and the exit code and signals are untouched |
| Thread.Tcb.Drop | src/task/tcb.rs:49-60 | dropping a thread other than the main one leaves the process alone; dropping the main thread panics exactly when it never exited, and otherwise exits the process with the thread's code |
| Thread.Tcb.Fork | src/task/tcb.rs:219-247 | the forked thread keeps its id and user stack, gets a new kernel stack and default status, and the parent's trap context with only the kernel stack pointer replaced |
| Thread.TcbNew | src/task/tcb.rs:145-187 | building a thread panics exactly when its user stack leaves the Sv39 range or its trap-context slot is misaligned; otherwise it has a new kernel stack, the user stack of its id, and the trap context entering `entry` with the arguments, at its own slot |
| Signals.FlagOfDefined | src/task/signal.rs:10-17 | among signal numbers up to 31, only 0, 18 and 19 have a flag (`SIGDEF`, `SIGCONT`, `SIGSTOP`); every other number truncates to the empty set |
| Signals.HandledByKernelExactly | src/task/signal.rs:19-21 | the kernel handles a signal itself exactly when its number is 18 or 19 |
| Signals.ActionsGet | src/task/signal.rs:42-46 | the lookup yields a handler exactly for signal numbers up to 31, and then it is that entry of the table |
| Signals.ActionsIndex | src/task/signal.rs:28-34 | indexing panics exactly where `get` yields nothing, and otherwise agrees with it |
| Signals.Signal.constructor | src/task/signal.rs:48-54 | the default signal record has the global mask off, an empty mask and every handler 0 |
| SignalHandle.Redirect | src/task/signal.rs:98-101 | entering a handler resumes at the handler with the signal number in `a0`; every other register and field is the interrupted context's |
| SignalHandle.RedirectKeepsBackupRestorable | src/task/signal.rs:98-101 | the interrupted context differs from the redirected one only in `sepc` and the registers, so the backup restores it |
| SignalHandle.SetUserSignalSret | src/task/signal.rs:87-104 | delivering a signal number past 31 panics; handler 0 changes nothing; otherwise the global mask is cleared, the signal's pending bit toggled, the interrupted context saved as the backup, and the thread redirected to the handler |
| SignalHandle.HandleSignals | src/task/signal.rs:64-84 | a pending, enabled signal 0 is delivered to its handler; else a pending, enabled `SIGSTOP` blocks the thread; else nothing happens; only delivery changes the thread |
| Syscall.Decode | src/syscall/mod.rs:40-63 | a call number yields the unsupported request exactly when it has no arm; only the calls taking a virtual address can panic |
| Syscall.Args | src/syscall/mod.rs:42-57 | every request a program can issue is carried in six argument registers |
| Syscall.AsI32OfWidened | src/syscall/mod.rs:48 | an exit code sign-extended into a register and read back with `as i32` is the same code |
| Syscall.DecodeArgs | src/syscall/mod.rs:40-63 | every request a program can issue decodes, from its number and its registers, to itself |
| Syscall.ArgsDecode | src/syscall/mod.rs:40-63 | a decoded request names the number it came from and does not depend on registers it does not use |
| Syscall.Syscall | src/syscall/mod.rs:38-64 | an unrouted number answers -1; the call panics exactly when decoding does; a routed call answers what its handler answers |
| Syscall.SignalCallsUnrouted | src/syscall/mod.rs:19-22 | `kill`, `sigaction`, `sigprocmask` and `sigreturn` have numbers but answer -1 |
| Syscall.SyscallUnwarp | src/syscall/mod.rs:66-77 | an `Ok` yields its value; an `Err` makes the handler answer -1 |
| SyscallMm.TruncatePerm | src/syscall/mm.rs:27 | truncation keeps only the R, W, X and U bits |
| SyscallMm.PageRange | src/syscall/mm.rs:18 | the range runs from the page of `va` to the page boundary at or above `va + len`, wrapping at 2^64 |
| SyscallMm.SysMmap | src/syscall/mm.rs:26-36 | a permission without R, W or X panics; otherwise a panic comes only at a page that passed the page-0 and own-frame checks; the answer is 0 exactly when no page of the range is 0 or already owns a frame, and then every page is newly mapped with those permissions; on -1 the pages before the first failing one are newly mapped |
| SyscallMm.MmapPages | src/syscall/mm.rs:32-35 | the loop of `mmap`: 0 exactly when every page of the range is fresh, with all of them mapped; -1 at the first page that is 0 or owns a frame, the earlier ones mapped; a panic only at a page that passed both checks |
| SyscallMm.MmapPage | src/syscall/mm.rs:32-34 | one turn of the `mmap` loop either stops at page 0 or a page that owns a frame without changing anything, or maps that one page and keeps the earlier ones; it panics only on a page that passed both checks |
| SyscallMm.SysMunmap | src/syscall/mm.rs:17-24 | the answer is 0 exactly when every page of the range owns a frame, and then every page was unmapped and its frame freed; on -1 the pages before the first failing one were unmapped and freed; a panic comes only at a page that owned its frame |
| SyscallMm.MunmapPages | src/syscall/mm.rs:20-23 | the loop of `munmap`: 0 exactly when every page of the range owns a frame, all of them freed; -1 at the first page without one, the earlier ones freed; a panic only at a page that owned its frame |
| SyscallMm.MunmapPage | src/syscall/mm.rs:20-22 | one turn of the `munmap` loop stops at a page without a frame of its own, changing nothing, or frees that page, giving one frame back; a panic only at a page that owned its frame |
| TaskCx.GotoTrapReturn | src/task/context.rs:53-61 | the first switch lands in `init_app_trap_return` on the given kernel stack, with the user token in `s0` and every other saved register 0 |
| TaskCx.SwitchTrampoline | src/task/context.rs:63-71 | hart `h` starts at the trampoline, its stack pointer `h + 1` slices above the start of the boot stack area (wrapping at 2^64), with every saved register 0 |
| TaskCx.SwitchTrampolineSlicesApart | src/task/context.rs:63-71 | when the boot stack area holds every hart's slice, two harts' starting stack pointers are whole slices apart and each leaves a full slice below it |
| TaskCx.ContextNew | src/task/context.rs:20-31 | building a context panics exactly when `TRAP_CONTEXT` fails the `VirtAddr` conversion or its page has no leaf entry; otherwise the trap context is stored at the translated physical address, which the context records, and the first switch goes to `trap_return` with this space's token |
| TrapCx.Init | src/trap/context.rs:34-50 | the new context returns to user mode at `entry` with stack pointer `usp`, the given kernel stack and token, hart 0, and every other register 0 |
| TrapCx.SetReturn | src/trap/context.rs:53-55 | setting the return value writes `a0` and nothing else |
| TrapCx.SyscallArgs | src/trap/context.rs:63-66 | the call arguments are registers `a0` to `a5`, in order |
| TrapCx.SetArgs | src/trap/context.rs:68-71 | `a0` receives the argument address and `a1` its length; nothing else changes |
| TrapCx.SetReturnThenArgs | src/trap/context.rs:53-66 | after `set_return(v)` the first argument reads `v`, the other five and the call number are unchanged, and restoring the old `a0` gives back the original context |
| TrapCx.SetArgsThenArgs | src/trap/context.rs:57-71 | after `set_args` the program's first two arguments are the address and the length, and the rest and the call number are unchanged |

## Left out

- ELF decoding through `xmas_elf` is not part of this model. An image is given as its magic bytes, entry point, raw bytes and program headers, already decoded, and `from_elf` is modelled from there on.
- Inline assembly and CSR access: `activate` (the `satp` write and `sfence.vma`), `get_sp`, `__switch`, the trap entry and restore trampolines, and the `sstatus` read in `TrapContext::init`. `Init` takes the current `sstatus` as a parameter.
- The trap handlers and `syscall` handlers in `fs.rs`, `process.rs` and `sync.rs`. `Syscall.Syscall` takes them as a function parameter.
- Locks, atomics and the `send_lock` spin in `TaskWarp::clone`. `handle_signals` holds the process lock for reading while `set_user_signal_sret` takes it for writing; that interaction is not modelled.
- The blocking ends of a pipe (`src/fs/pipe.rs:91-133`, the `yield_` loops and the `Weak` upgrade), `make_pipe`, and the spinning `send`/`recv` of the ring-buffer channel. Only the non-blocking `PipeBuffer` operations and `try_send`/`try_recv` are modelled.
- `translated_string` and `translated_refmut` (`src/mm/page_table.rs:210-223`): raw pointer reads of user memory, not used by the modelled code.
- `src/task/processor.rs`, `src/task/manager.rs` and `src/task/mod.rs` are not part of this model. The scheduler's `Processor` is a stand-in: a first-in first-out queue of ready tasks, whose length is the ready count.
- Logging (`info!`, `warn!`), the console, the filesystem, the SBI layer, the timer register read (a clock reading is a parameter) and `from_cstr`.
- The kernel-stack registration done by `push_kernel_stack`/`add_kernel_stack`/`remove_kernel_stack`, and the stack-pointer `assert!` in `Drop for TaskControlBlock` (`src/task/task_block.rs:197-204`).
- Frame exhaustion: the `frame_alloc().unwrap()` sites are preconditions requiring enough free frames (`FreeFrameNum`), not modelled panics.
- Aliasing between the word view and the byte view of a frame. A write through one view leaves the other unchanged; only the zero-fill of a fresh frame updates both.
- Memory contents after a panic are not specified, apart from what the panicking member's contract keeps.
- MmSpace.MemorySet.FromExisted: the copy guarantee is stated for framed areas only, because an identical area's pages are not owned. The conditions under which it panics are not characterised; its contract speaks of the `Done` case.
- MemMemorySet.Map: the contract states what a successful map leaves; it does not state the converse, that every failure comes from an entry that was already valid.
- MemMemorySet.MemorySet.BuildKernelSpace: the contract does not prove that the section pushes never panic. It states the identity mapping only under `LowSegments`, which requires every section to lie below `VPN_LIMIT`, inside one Sv39 space.
- MemMemorySet.MemorySet.Push: the promise that the data is in memory afterwards (`DataIn`) is stated for framed areas that fit the Sv39 space (`Window`) only.
- MmSpace.MemorySet.FromElf: each panic cause it lists (a wrong magic, a trampoline, header or layout address that does not convert, a file range outside the image) leads to a panic, but the converse is not stated: a push onto pages an earlier segment already mapped also panics, and the contract does not say when that happens.
- SyscallMm.SysMmap: a panic is stated to come only at a page that passed the page-0 and own-frame checks. The contract does not state that such a page panics exactly when its leaf is already valid, because that depends on the table frames the earlier pages' walks allocated.
- SyscallMm.MmapPages: the same one-way panic statement as `SysMmap`, for the loop alone.
- SyscallMm.MmapPage: states only that a panic comes at a page that passed both checks; `MmPageTable.PageTable.Malloc` states the exact condition (a valid leaf) for the single call.
- SyscallMm.SysMunmap: a panic is stated to come only at a page that owned a frame. The contract does not state that such a page panics exactly when its leaf is not valid, as earlier frees in the same call may have changed the table.
- SyscallMm.MunmapPages: the same one-way panic statement as `SysMunmap`, for the loop alone.
- SyscallMm.MunmapPage: states only that a panic comes at a page that owned a frame; `MmPageTable.PageTable.Free` states the exact condition for the single call.
- Task.TaskControlBlock.constructor: does not model the `va_translate(TRAP_CONTEXT).unwrap()` of `TaskControlBlockInner::new` (`src/task/task.rs:229`), which panics when the trap-context page has no leaf entry, nor the store of the trap context at the translated physical address. The constructor takes the space's token as a parameter and keeps the trap context as a field; the same translate, unwrap and store sequence is modelled, with its panic, by `TaskCx.ContextNew`.
- MmUserBuffer.TranslatedByteBuffer: requires the range to end at or below 2^64 - 4096, so a range ending inside the last page of the 64-bit space is not modelled. There the next page boundary `vpn.offset(1)` wraps to address 0.
- TaskBlock.PushArgs: carries the same requirement on the argument range as `MmUserBuffer.TranslatedByteBuffer`, for the same reason.
- Thread.Process.AddTask: its panic condition covers only the steps `Thread.TcbNew` composes (the id, the user-stack and the trap-context addresses). The panics of the user-stack push onto pages already mapped, of the argument copy and of `Context::build` inside `TaskControlBlock::new` are not included.
- TaskPid.PidAllocator.Alloc: the bump counter `current` is an `isize` in `src/task/pid.rs`; the model counts with an unbounded integer, so its overflow is not modelled.
- TaskUid.UidAllocator.Alloc: the same for the `isize` counter of `src/task/uid.rs`.
- Thread.TcbNew: the stack-area push, the argument copy and the trap-context store it performs on the process's address space are modelled separately (`MmSpace`, `TaskBlock.PushArgs`, `TaskCx.ContextNew`) and are not composed here.

## Findings

| source | as written | input that shows it | evidently intended | confidence | as-written member | corrected member |
|---|---|---|---|---|---|---|
| src/mm/address.rs:161-166 | `VirtAddr::from` checks `isize::abs(v as isize) < 2^39`; in a release build `abs(isize::MIN)` wraps to `isize::MIN`, which is negative and passes | `v = 0x8000_0000_0000_0000` is accepted as a virtual address | accept only values whose signed reading lies strictly between -2^39 and 2^39 | medium, not executed | MmAddress.VirtAddrFromAsWritten, MmAddress.VirtAddrFromAcceptsIsizeMin | MmAddress.VirtAddrFrom, MmAddress.VirtFromAgreeExceptIsizeMin |
| src/mm/page_table.rs:202-203 | `translated_byte_buffer` slices `start.page_offset()..end_va.page_offset()`; when `end_va` is the next page boundary its offset is 0 | `ptr = 0x1000, len = 0x1000`: the one piece is `[0..0]`, empty, so nothing is read or written; `ptr = 0x1008, len = 0xff8`: the slice `[8..0]` is reversed and panics | the piece runs to the end of the page (offset 4096) when `end_va` is a page boundary | high, not executed | MmUserBuffer.PiecesAsWritten, MmUserBuffer.BoundaryPieceLost, MmUserBuffer.UnalignedPieceToBoundaryPanics, MmUserBuffer.AcrossPagesLosesFirst, TaskBlock.AlignedArgsAtPageTopPanic | MmUserBuffer.Pieces, MmUserBuffer.PiecesCover |
| src/mem/memory_set.rs:142 | the end of physical memory is `MEMORY_END & !PAGE_SIZE`, which clears only bit 12 instead of rounding down to a page | `MEMORY_END = 0x8800_0234` stays `0x8800_0234`, not page-aligned; with this board's `0x8800_0000` the two agree | `MEMORY_END & !(PAGE_SIZE - 1)`, the page boundary at or below it | medium, not executed; latent for this board's value | MemMemorySet.PhysMemEndAsWrittenMisaligns | MemMemorySet.PhysMemEnd, MemMemorySet.PhysMemEndAgrees |

The operations follow the code as written: `VirtAddr::from` through `VirtAddrFromAsWritten`,
`translated_byte_buffer` and `push_args` through `PiecesAsWritten`, and the kernel's segments
through `PhysMemEndAsWritten`. The corrected members state the evidently intended behaviour, and
the lemmas beside them (`VirtFromAgreeExceptIsizeMin`, `PiecesAsWrittenCover`, `AsWrittenNonEmptyIff`,
`PhysMemEndAgrees`) say where the two agree.
