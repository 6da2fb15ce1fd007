# A verified model of the PalleyOS kernel's core algorithms

PalleyOS is a 32-bit x86 kernel. This project models the parts of it that keep mutable state or do
non-trivial arithmetic, and proves what they promise: the kernel heap, the SknyFS file system, the
demand pager, the keyboard path from the interrupt queue to the line editor, the formatter, and the
arithmetic of the timer's set-up routine. `dafny verify dfyconfig.toml` checks everything.

Each imperative core is a class or a method that changes arrays and fields step by step as the C code
does. Its `ensures` ties the new state to a function of the old one, and the theorems are proved
about those functions: over every heap, disk image, page directory or key stream, and over every run.

| part | specification and theorems | in-place code |
|---|---|---|
| kernel heap | `HeapLayout`, `HeapOps`, `HeapTheorems`, `HeapExactly`, `HeapAsWritten` | `Kheap` |
| SknyFS | `SknyImage`, `SknyTheorems` | `SknyFs`, `Kstdlib` |
| demand paging | `Paging` | `Pager` |
| keyboard | `ScancodeQueue`, `KeyDecoder`, `LineEditor` | `KeyDecoder.Keyboard`, `LineEditor` |
| terminal cursor and view | `Terminal` | `Terminal.Tio` |
| formatter | `Formatter` | `Formatter` |
| timer | `Pit` | `Pit.Timer` |

`Common`, `Arithmetic`, `Bits` and `Bytes` hold the vocabulary the others share. Words are integers
with their 32-bit, 16-bit or 8-bit wrap-around written out where it can happen; bit tests and bit
sets are arithmetic, and `Bits` proves them to be reading and adding the digit of weight 2^k.

## The main results

- **Heap.** The node list is determined by the set of live blocks (`Canonical`). From this one normal-form
  theorem follow the inverse laws, and `HeapExactly` uses it to say in plain addresses and sizes what every
  operation leaves behind: freeing what was just allocated restores the exact node list, two
  histories with the same live blocks leave the same heap, and a run that has freed everything is
  back at the single initial node. `Kheap.KernelHeap` does all of it in one byte array, packed
  headers and contents side by side, and every method states that the contents of all other live
  blocks are untouched; `kheapRealloc` preserves the first min(old, new) bytes in every branch.
- **SknyFS.** From a fresh format, over every run of creations, whether complete or cut short between their
  two writes, files have pairwise distinct chunks, all marked; the disk simulates an abstract file system.
- **Paging.** Over every run of faults after `setupPaging`, distinct pages name distinct frames, all marked
  and all tried by the handler's scan; every run stays inside recorded memory exactly when the scan does; faults extend the translation and change no other page's.
- **Keyboard.** Every interleaving of the interrupt and the reader is a FIFO; however arrivals and decoding
  interleave, the key table is that of a prefix of the events in the whole stream, and says exactly what their history says; the in-place editor holds the text of an abstract editor.
- **Formatter.** `kvsprintf` writes exactly what a pure, compositional formatter says, and rendered numbers
  parse back.
- **Timer.** Error bounds for the reload value, the frequency and the 32.32 period, and exactly when
  the reload value is a nearest one.

## Where the model departs from the source, or the source from its comments

The heap expressions below plainly differ from what the code around them means. `HeapOps` and `Kheap` model
the meaning; `HeapAsWritten` models the expressions and proves exactly when they agree with it.

- `src/stdlib/kheap.c:62` adds `size` where it must be subtracted, ignores the header, and subtracts from NULL behind the
  last node. Meant is the gap its comment (lines 56-60) describes. As written no allocation leaves a tiling.
- `src/stdlib/kheap.c:206` and `:232` scale `size` by the header size. Bytes are meant, as at line 65. As written
  no resize that splits leaves a tiling.
- `src/stdlib/kheap.c:220` starts `possible_size` at 0; the block's own bytes are meant to count.
- `src/stdlib/kheap.c:135` and `:143` can wrap around, the sum for sizes from 2^32 - 11 on and the difference for
  padding larger than the node; offset + header + size <= node size is meant.
- `src/stdlib/kheap.c:148` aligns the header, not the returned pointer. This is modelled as it is, and
  `AlignedPointerExactly` says when the pointer is aligned too.

Elsewhere the code is followed:

- `src/stdlib/kheap.c:163-166` says the compactor cleans up a preceding node left with no space. It never does (`PaddingStays`).
- `src/stdlib/kstdlib.c:18` says `kstrcmp` returns 0 on equal strings; it does so whenever one is a prefix of the other.
  So `searchForFile` reports a missing name as found, in the first empty slot (`MissingNamesAreFound`).
- `SknyFS.txt:12` gives chunks of 16 KiB; the code uses 1024 bytes (`src/sknyfs.c:21`).
- `src/sknyfs.c:163-198` accepts an empty name, which uses up a chunk for no file (`AbstractStep`).
- `src/memory.c:35` lets page frame numbers through that an entry truncates (`EntryNamesItsFrameExactly`), and the
  `uint8_t` at line 139 skips frames of regions with 256 whole frames or more (`ScanIsCompleteExactly`).
- `src/keyboard_io.c:295` reads the byte after an E0 prefix without checking that it has arrived. This is safe exactly
  when it has; otherwise 255 stale bytes look unread (`ReadBlindlyExactly`, `Keyboard.NextMappedKey`). The interrupt
  handler does not check for room either (`WriteBlindlyExactly`, `Keyboard.Interrupt`).
- `src/keyboard_io.c:62` gives the keypad's 0 the mapped code of Enter, so it ends a line (`EndsLineExactly`).
- `src/stdlib/kstdio.c:140-142` returns at an unknown directive, `%%` included, without storing a NUL. Then
  one is stored behind the output only if the last thing written that was not empty is the smallest integer, which
  line 16 copies together with its NUL (`NulBehind`, `Kvsprintf`).
- `src/timer/PIT.s:69-72` says it rounds up or down. It compares with half of the clock instead of half of
  the divisor, so this step never rounds up (`DivideClockBounds`).

## Model

| member | source | states |
|---|---|---|
| HeapLayout.SpanOrdered | src/stdlib/kheap.c:11-29 | in a chain where each node begins where the previous one ends, nodes are address-ordered, pairwise disjoint and inside the span |
| HeapLayout.TilesSeparated | src/stdlib/kheap.c:11-29 | a chain that tiles the heap is acyclic: any two nodes are disjoint and in address order |
| HeapLayout.SpanConservesBytes | src/stdlib/kheap.c:40-78 | headers and contents of a tiling add up to exactly the span: no byte lost or counted twice |
| HeapLayout.CompactProperties | src/stdlib/kheap.c:40-54 | coalescing keeps the span and every live block's address and size, and leaves no two adjacent free nodes |
| HeapLayout.CompactFixpoint | src/stdlib/kheap.c:40-54 | coalescing is idempotent, and the identity exactly on heaps without adjacent free nodes |
| HeapLayout.CanonicalSpan | src/stdlib/kheap.c:40-54 | two coalesced tilings of one span with the same live blocks are equal node for node |
| HeapLayout.Canonical | src/stdlib/kheap.c:23-54 | the whole heap's node list is determined by its live blocks |
| HeapOps.FirstFit | src/stdlib/kheap.c:84-105 | the search yields the first free node that is large enough, or none when there is none |
| HeapOps.AlignOffset | src/stdlib/kheap.c:136-141 | the offset is below the alignment and leads to a multiple of it |
| HeapOps.FirstFitAligned | src/stdlib/kheap.c:126-153 | the search yields the first free node with room for padding, a second header and the block |
| HeapOps.FreeRunEnd | src/stdlib/kheap.c:221-225 | the walk behind a block stops at the first node in use, having passed only free ones |
| HeapTheorems.SpliceCorrect | src/stdlib/kheap.c:61-78 | replacing a run of nodes by others over the same bytes keeps the tiling and changes the live set by exactly those nodes, before and after coalescing |
| HeapTheorems.AllocCorrect | src/stdlib/kheap.c:82-120 | allocation fails exactly when no free node fits; otherwise it takes the lowest one, returns a new live block of the size plus at most a header of slack, keeps all live blocks and leaves a coalesced tiling |
| HeapTheorems.AlignedAllocFirstFit | src/stdlib/kheap.c:126-159 | aligned allocation fails exactly when no free node has the room; otherwise it uses the lowest such node |
| HeapTheorems.AlignedAllocCorrect | src/stdlib/kheap.c:161-179 | an aligned allocation returns a new live block of the size, keeps all live blocks and leaves a coalesced tiling |
| HeapTheorems.AlignedHeader | src/stdlib/kheap.c:136-148 | the header of the new block is aligned |
| HeapTheorems.PaddingStays | src/stdlib/kheap.c:163-177 | what precedes an aligned block stays a free node of its own, even with no content bytes |
| HeapTheorems.AlignedPointerExactly | src/stdlib/kheap.c:126-180 | the returned pointer is aligned if and only if the alignment is 1 or 11 |
| HeapTheorems.FreeCorrect | src/stdlib/kheap.c:258-266 | freeing removes exactly that block from the live set and leaves a coalesced tiling |
| HeapTheorems.AllocThenFree | src/stdlib/kheap.c:82-266 | freeing what was just allocated, aligned or not, split or not, restores the previous node list exactly |
| HeapTheorems.ReallocCorrect | src/stdlib/kheap.c:184-256 | every branch: zero frees; otherwise the result is a block of at least the size with at most a header of slack, in place exactly when the block and the free space behind it suffice, failing exactly when no free node does either; no other live block changes |
| HeapTheorems.GrowShrinkRestoresExactly | src/stdlib/kheap.c:200-250 | growing in place and shrinking back restores the heap if and only if the block had grown by at least a header and a byte |
| HeapTheorems.RunTiles | src/stdlib/kheap.c:23-266 | after any run of operations the nodes tile the heap in address order, coalesced, with all bytes accounted for |
| HeapTheorems.HistoryIndependent | src/stdlib/kheap.c:23-266 | two runs that leave the same blocks live leave the same node list |
| HeapTheorems.AllFreedIsInitial | src/stdlib/kheap.c:23-29 | no block is live after a run if and only if the heap is the single node of `kheapInit` |
| HeapTheorems.LiveBlockStays | src/stdlib/kheap.c:82-266 | a live block keeps its address and size under every operation that does not free or resize it |
| HeapExactly.InitialExactly | src/stdlib/kheap.c:23-29 | the initial heap is one free node at 0xf000000 of 0xffffff bytes with its header |
| HeapExactly.AllocFailsExactly | src/stdlib/kheap.c:84-111 | allocation fails if and only if every node is in use or smaller than the request |
| HeapExactly.AllocTakesExactly | src/stdlib/kheap.c:84-119 | otherwise it takes the lowest free node that is at least as large; the block has exactly the requested size if more than a header is left over and the whole node otherwise; nothing else becomes or ceases to be live |
| HeapExactly.AlignedAllocFailsExactly | src/stdlib/kheap.c:129-159 | aligned allocation fails if and only if no free node has room for padding, a second header and the block |
| HeapExactly.AlignedAllocTakesExactly | src/stdlib/kheap.c:129-179 | otherwise it takes the lowest such node; block, padding and pointer are where the alignment of the header puts them, with what is left over as above |
| HeapExactly.RoomIsInPlace | src/stdlib/kheap.c:220-225 | in a coalesced heap the room of a block is its own size and, if the next node is free, that node with its header |
| HeapExactly.ReallocInPlaceExactly | src/stdlib/kheap.c:196-250 | within the room the pointer stays; shrinking gives up and growing takes what the size needs, down to a header's worth; all other blocks are unchanged |
| HeapExactly.ReallocFailsExactly | src/stdlib/kheap.c:226-252 | reallocation fails if and only if the room is too small and every node is in use or smaller than the request |
| HeapExactly.ReallocMovesExactly | src/stdlib/kheap.c:251-255 | otherwise, beyond the room, the block moves to the lowest free node that is at least as large |
| HeapAsWritten.GapExactly | src/stdlib/kheap.c:56-62 | the gap as written is the meant one if and only if the node is last and its size has one particular value modulo 2^31, which no block in the heap has |
| HeapAsWritten.AllocAsWrittenNeverTiles | src/stdlib/kheap.c:61-120 | with the gap as written no allocation from any heap leaves a tiling, and coalescing does not mend it |
| HeapAsWritten.AlignedAllocAsWrittenNeverTiles | src/stdlib/kheap.c:126-179 | nor does any aligned allocation with lines 62, 135 and 143 as written |
| HeapAsWritten.SplitAddressExactly | src/stdlib/kheap.c:205-210 | the split address as written is the byte after the resized block only for size 0 and 2^31 |
| HeapAsWritten.CompactKeepsBreak | src/stdlib/kheap.c:40-54 | coalescing never closes a break in the chain behind a node in use |
| HeapAsWritten.SplitAsWrittenNeverTiles | src/stdlib/kheap.c:228-243 | any resize that splits at the address as written breaks the chain, before and after coalescing |
| HeapAsWritten.ShrinkAsWrittenNeverTiles | src/stdlib/kheap.c:200-218 | shrinking a block of any heap far enough to split it never leaves a tiling, before or after coalescing |
| HeapAsWritten.AcceptsAlignedExactly | src/stdlib/kheap.c:135-147 | for all 32-bit sizes the two guards decide as meant if and only if the node is in use or too small for both, or, where the sum does not wrap, the padding does not exceed the node, or, where it wraps, the difference is below the wrapped sum |
| HeapAsWritten.AcceptsAlignedCounterexample | src/stdlib/kheap.c:143-148 | one byte aligned to 2^31 in a fresh heap passes the guards and would lie outside the heap |
| HeapAsWritten.HugeSizeCounterexample | src/stdlib/kheap.c:135-147 | a fresh heap grants a request for 2^32 - 11 bytes |
| HeapAsWritten.PossibleSizeExactly | src/stdlib/kheap.c:220-225 | `possible_size` falls short of the room by exactly the block's own size |
| HeapAsWritten.GrowAsWrittenExactly | src/stdlib/kheap.c:220-249 | growing in place with lines 220 and 232 both as written leaves a tiling if and only if the block was empty and what is left over is too little for a node; when it splits, coalescing does not mend the chain |
| Kheap.KernelHeap.constructor | src/stdlib/kheap.c:21-29 | a heap over memory with arbitrary contents starts as one free node |
| Kheap.HeaderBytes | src/stdlib/kheap.c:11-16 | a header is eleven packed bytes: magic, size and next in that order, lowest byte first, and the flag |
| Kheap.KernelHeap.KheapInit | src/stdlib/kheap.c:23-29 | initialising memory with arbitrary contents leaves one free node over the whole heap |
| Kheap.KernelHeap.CompactHeap | src/stdlib/kheap.c:40-54 | the in-place merge loop ends, turns the chain in memory into its coalesced form, and touches no live contents |
| Kheap.KernelHeap.MergeAt | src/stdlib/kheap.c:46-51 | one merge removes one node, keeps the live blocks and does not change what coalescing will yield |
| Kheap.KernelHeap.ConsumeEmptySpace | src/stdlib/kheap.c:56-78 | the unaccounted bytes behind a node become a free node, or part of the node when no header and byte fit |
| Kheap.KernelHeap.FindFit | src/stdlib/kheap.c:84-105 | walking the headers in memory finds the first fit, and meets no header without its magic number |
| Kheap.KernelHeap.Take | src/stdlib/kheap.c:113-114 | the found node becomes a block of the size asked for, and no live contents change |
| Kheap.KernelHeap.KheapAlloc | src/stdlib/kheap.c:122-124 | the memory then holds the node list of a first-fit allocation, from the initial heap when the first header was missing; that is one step of the runs above; without space nothing changes; all live contents are kept |
| Kheap.KernelHeap.AllocOrRetry | src/stdlib/kheap.c:82-120 | the same for the routine that initialises the heap and calls itself once when the first header is missing |
| Kheap.KernelHeap.AllocFirstFit | src/stdlib/kheap.c:99-119 | search, take, consume and compact together are the specified allocation on an initialised heap |
| Kheap.KernelHeap.FindAlignedFit | src/stdlib/kheap.c:127-153 | walking the headers finds the first node with aligned room and the place in it, and meets no header without its magic number |
| Kheap.KernelHeap.PlaceInside | src/stdlib/kheap.c:161-174 | the block is put inside the free node, which keeps what precedes it |
| Kheap.KernelHeap.KheapAlignedAlloc | src/stdlib/kheap.c:126-180 | the memory then holds the node list of an aligned allocation, one step of the runs above; without space nothing changes; all live contents are kept |
| Kheap.KernelHeap.KheapFree | src/stdlib/kheap.c:258-266 | the block is freed and the chain coalesced, one step of the runs above; a pointer without header magic, or to a block that is free already, changes nothing; other blocks' contents are kept |
| Kheap.KernelHeap.KheapRealloc | src/stdlib/kheap.c:184-256 | in every branch the chain becomes that of the specified reallocation, one step of the runs above; the first min(old, new) bytes are at the returned pointer, and no other block's contents change; failure changes nothing |
| Kheap.KernelHeap.Shrink | src/stdlib/kheap.c:200-219 | the shrinking branches, split or left in place, meet the contract of reallocation |
| Kheap.KernelHeap.Grow | src/stdlib/kheap.c:220-255 | the growing branches, in place or moving, meet the contract of reallocation |
| Kheap.KernelHeap.Move | src/stdlib/kheap.c:251-255 | allocate, copy and free meet the contract of reallocation |
| Kheap.KernelHeap.MeasureRoom | src/stdlib/kheap.c:220-225 | the walk yields the bytes the block could have and the node that follows them |
| Kheap.KernelHeap.ResizeWithin | src/stdlib/kheap.c:226-250 | the block gets its size within the room, what is left becomes a coalesced free node or slack, and the block's bytes are kept |
| Kheap.KernelHeap.CopyBlock | src/stdlib/kheap.c:253 | the old contents are copied to the new block without touching a header or another block |
| Bytes.MemCopy | src/stdlib/kstdlib.c:79-88 | `kmemcpy` between disjoint ranges copies exactly the bytes and changes no other |
| Bytes.LittleEndian | src/stdlib/kheap.c:11-16 | the bytes of a stored word are its digits of base 256, lowest first |
| Kstdlib.KStrCmp | src/stdlib/kstdlib.c:21-29 | the result is 0 if and only if one string is a prefix of the other, and otherwise the signed difference at the first mismatch, as an unsigned word |
| Kstdlib.KStrNCpy | src/stdlib/kstdlib.c:65-75 | at most max - 1 characters are copied, a NUL follows, and no other byte changes |
| Kstdlib.KMemSet | src/stdlib/kstdlib.c:92-97 | exactly the given range gets the value |
| Bits.BitOfSetBit | src/memory.c:101-107 | setting a bit sets that bit and no other |
| Bits.AllBitsSet | src/sknyfs.c:69 | a byte or word has all bits set if and only if it is the all-ones value |
| SknyImage.MarkedExactly | src/sknyfs.c:90-118 | marking sets exactly that chunk's bit: byte chunk / 8 grows by 2^(chunk mod 8) if the bit was clear, and no other byte changes |
| SknyImage.WithSlotExactly | src/sknyfs.c:145-161 | a rewritten slot holds exactly the new record; every other slot and the allocation map stay |
| SknyImage.TruncatedExactly | src/sknyfs.c:192-193 | stored is the whole name up to 251 characters, and the first 251 of a longer one |
| SknyImage.MetadataExactly | src/sknyfs.c:191-194 | a record holds those characters, zeroes up to byte 252, and the location |
| SknyImage.SlotExactly | src/sknyfs.c:28-38 | slot k lies at byte 16384 + 256 k, with its name ended by a zero and its chunk in the last four bytes, lowest first; it is in use if and only if its first byte is not zero |
| SknyImage.FirstFree | src/sknyfs.c:58-85 | the result is the lowest clear bit, or the chunk count when all are set |
| SknyImage.FirstEmpty | src/sknyfs.c:120-140 | the result is the lowest slot with an empty name, or the slot count |
| SknyImage.HasRoomExactly | src/sknyfs.c:167-180 | there is room if and only if one of the 131072 chunks is unmarked and one of the 64 slots is empty |
| SknyImage.HalfCreatedExactly | src/sknyfs.c:189 | at the crash point exactly the bit of the lowest unmarked chunk has been set, and no other byte has changed |
| SknyImage.CreatedExactly | src/sknyfs.c:163-198 | after a creation with room the lowest empty slot names the file, by its name or its first 251 characters, and that chunk; no byte outside that slot and that bit has changed; without room nothing has |
| SknyTheorems.HalfCreatedSound | src/sknyfs.c:189 | at the crash point between the two writes, files still have distinct, marked chunks |
| SknyTheorems.CreatedSound | src/sknyfs.c:163-198 | a complete creation keeps files' chunks distinct and marked |
| SknyTheorems.RunSound | src/sknyfs.c:163-198 | so does every run from a fresh format, with crashes anywhere between the two writes |
| SknyTheorems.RoomRefines | src/sknyfs.c:167-180 | on a disk that simulates the abstract file system, the two searches yield its chunk counter and its number of files |
| SknyTheorems.CrashRefines | src/sknyfs.c:189 | a creation cut short is an abstract step that uses up one chunk |
| SknyTheorems.CreateRefines | src/sknyfs.c:163-198 | a creation is the abstract step that appends the file at the next chunk |
| SknyTheorems.RunRefines | src/sknyfs.c:163-198 | the disk simulates the abstract file system over every run from a fresh format |
| SknyTheorems.CreatesInOrder | src/sknyfs.c:163-198 | from a fresh format the n-th non-empty creation takes chunk and slot n - 1 up to 64 and is stored under its name or its first 251 characters; then the disk is full and another creation leaves it byte for byte |
| SknyTheorems.DiskNames | src/sknyfs.c:191-195 | on every reachable disk the slots hold the truncated names of the files, then empty names |
| SknyTheorems.FirstMatch | src/sknyfs.c:200-218 | the result is the lowest slot whose name is prefix-comparable with the one sought |
| SknyTheorems.DifferExactly | src/stdlib/kstdlib.c:21-29 | `kstrcmp` tells a name from a stored one if and only if the names differ in one of the first 251 characters, before either ends |
| SknyTheorems.LookupExactly | src/sknyfs.c:200-218 | a created file is found in its own slot if and only if its name differs from every earlier one in one of the first 251 characters, before either ends |
| SknyTheorems.DistinctNamesAreFound | src/sknyfs.c:200-218 | if all names differ from each other like that, every file is found in its own slot |
| SknyTheorems.CreatedNamesExactly | src/sknyfs.c:200-218 | on the disk: after creating files from a fresh format, the i-th is found in slot i, which holds chunk i, if and only if its name differs from all earlier ones in one of the first 251 characters |
| SknyTheorems.CreatedNamesAreFound | src/sknyfs.c:200-218 | so if all names differ from each other, every created file is found |
| SknyTheorems.MissingNamesAreFound | src/sknyfs.c:209-215 | a name no file matches is reported found in the first empty slot |
| SknyFs.SknyDrive.SearchAllocationMap | src/sknyfs.c:58-85 | the three nested loops find the lowest free chunk; full exactly when every bit is set |
| SknyFs.SknyDrive.MarkChunkAsUsed | src/sknyfs.c:90-118 | reading, changing and writing back a chunk sets exactly one bit of the disk |
| SknyFs.SknyDrive.SearchFileMap | src/sknyfs.c:120-140 | the loops find the lowest empty slot; full exactly when there is none |
| SknyFs.SknyDrive.WriteFileMetadata | src/sknyfs.c:145-161 | reading, changing and writing back a chunk replaces exactly one record of the disk |
| SknyFs.SknyDrive.CreateFile | src/sknyfs.c:163-198 | success exactly when both maps have room; the disk after each of the two writes is as specified, and unchanged when full |
| SknyFs.SknyDrive.BuildMetadata | src/sknyfs.c:191-194 | the record is the truncated name padded with zeroes and the location in little-endian order |
| SknyFs.SknyDrive.SearchForFile | src/sknyfs.c:200-218 | the lowest slot whose name `kstrcmp` does not tell from the one sought; not found exactly when there is none |
| SknyFs.SknyDrive.ClearChunk | src/sknyfs.c:236-253 | exactly the bytes of the chunk get the value |
| SknyFs.SknyDrive.CreateFilesystem | src/sknyfs.c:255-299 | formatting zeroes both maps and nothing else |
| SknyFs.FoundFree | src/sknyfs.c:67-80 | the chunk number put together from chunk, byte and bit is the lowest free one |
| SknyFs.AllFull | src/sknyfs.c:69 | when every byte is 0xff there is no free chunk |
| SknyFs.Decomposition | src/sknyfs.c:91-95 | splitting a chunk number into chunk, byte and bit inverts putting it together |
| Paging.EntryFields | src/memory.c:27-48 | an entry is a 32-bit word with exactly the flags asked for and the frame number truncated to ten bits |
| Paging.EntryNamesItsFrameExactly | src/memory.c:33-39 | an entry names its frame if and only if the number is below 1024, which the sanity check does not ensure |
| Paging.CandidatesExactly | src/memory.c:120-146 | for every region that can be recorded, exactly which frames are tried and in which order: consecutive ones from the frame after the one with the first byte, as many as fit modulo 256, with the wrap-around from the last frame to frame 0 |
| Paging.ScanStaysInsideExactly | src/memory.c:120-146 | for every region that can be recorded, also one that runs past 2^32: every frame tried lies wholly inside it if and only if it starts below 0xFFC00000 or the whole frames below its wrapped end are a multiple of 256 |
| Paging.ScanIsCompleteExactly | src/memory.c:128-146 | every whole frame of a region of existing memory is tried if and only if there is none, or the region is unaligned, ends below the top and has fewer than 256 |
| Paging.WithUsedExactly | src/memory.c:101-107 | marking adds exactly that frame to the bitmap |
| Paging.ChosenFrame | src/memory.c:141-155 | the chosen frame was unused and is one the scan tries |
| Paging.ChosenIsFirst | src/memory.c:120-146 | it is the first unused one in the order of the scan |
| Paging.GivesUpExactly | src/memory.c:119-151 | the handler gives up if and only if every frame its scan tries is used |
| Paging.FaultMaps | src/memory.c:153-163 | the faulting address translates, as a 4 MiB page, to the frame's base plus its 22-bit offset, all other pages translate as before, and exactly one frame more is used |
| Paging.FaultEntryExactly | src/memory.c:157-161 | the entry of the faulting page names the chosen frame and has exactly bits 0, 1, 2 and 7 set below it: present, writable, user, 4 MiB; no other entry changes |
| Paging.FaultSound | src/memory.c:116-167 | on any memory map a fault keeps mapped pages' frames distinct, marked and, but for the kernel's own, among those the scan tries |
| Paging.InitialSound | src/memory.c:218-244 | `setupPaging` establishes that, with exactly frame 0 used |
| Paging.InitialTranslates | src/memory.c:223-236 | after `setupPaging` exactly the first 4 MiB translate, to themselves |
| Paging.RunSound | src/memory.c:116-167 | so it holds after every run of faults on any memory map, of which at most 1023 are ever served |
| Paging.RunEntriesExactly | src/memory.c:157-161 | after every run each entry is zero or has exactly those flags |
| Paging.EveryFrameIsHandedOut | src/memory.c:116-163 | every frame the scan tries, but the kernel's own, is handed out by some run |
| Paging.AlwaysInRamExactly | src/memory.c:116-167 | no run maps a page to anything but recorded memory if and only if every frame the scan tries, but the kernel's own, lies wholly inside a recorded region |
| Paging.ScannableIsRam | src/memory.c:120-146 | for that it is enough that the scan stays inside each region |
| Pager.PageTables.SetupPaging | src/memory.c:218-248 | the loops leave the initial directory and bitmap |
| Pager.PageTables.HandlePageFault | src/memory.c:116-167 | the directory and bitmap become those of the specified fault; failure exactly when the scan finds no unused frame |
| Pager.PageTables.FindFrame | src/memory.c:119-148 | the nested loops find the first unused frame of the scan |
| Pager.PageTables.TryRegion | src/memory.c:128-147 | one region's loop finds its first unused frame or passes all its frames |
| Pager.PageTables.LoadRegions | src/memory.c:182-208 | the recorded regions are the memory entries of the boot loader's map, in order |
| Pager.RamRegionsExtends | src/memory.c:192-206 | each entry of kind 1 appends its region to those recorded before, and other entries append nothing |
| Pager.RamRegionsExactly | src/memory.c:199-203 | a region is recorded if and only if some entry of kind 1 describes it |
| ScancodeQueue.StepSound | src/keyboard_io.c:135-140 | every atomic step of writer or reader keeps the slots between the indices equal to the unread bytes, in order |
| ScancodeQueue.EveryInterleavingIsFifo | src/keyboard_io.c:123-140 | after every interleaving what was read is a prefix of what was written, and input is reported exactly when bytes are unread |
| ScancodeQueue.EveryRunIsFifo | src/keyboard_io.c:123-140 | so it is for every run from the empty queue |
| ScancodeQueue.HasInputExactly | src/keyboard_io.c:290 | comparing the wrapping indices is right if and only if the unread count is 0 or no multiple of 256 |
| ScancodeQueue.ReadBlindlyExactly | src/keyboard_io.c:292-295 | a read that does not compare the indices keeps the queue sound if and only if a byte is unread; otherwise 255 stale bytes look unread |
| ScancodeQueue.WriteBlindlyExactly | src/keyboard_io.c:135-138 | a write keeps the queue sound, and input visible, if and only if at most 254 bytes were unread; the 256th unread byte makes the queue look empty |
| KeyDecoder.OnlyCapsMapsToCaps | src/keyboard_io.c:52-64 | only an unprintable scancode, and no E0 key, has the caps-lock code |
| KeyDecoder.NoLineBreaks | src/keyboard_io.c:20-48 | no key types a line feed or a carriage return |
| KeyDecoder.DigitsExactly | src/keyboard_io.c:20-48 | scancodes 0x02 to 0x0b type the digits, and with shift their symbols |
| KeyDecoder.TopLettersExactly | src/keyboard_io.c:20-48 | scancodes 0x10 to 0x19 type the letters of the top row, with shift in upper case |
| KeyDecoder.MiddleLettersExactly | src/keyboard_io.c:20-48 | scancodes 0x1e to 0x26 type those of the middle row |
| KeyDecoder.BottomLettersExactly | src/keyboard_io.c:20-48 | scancodes 0x2c to 0x32 type those of the bottom row |
| KeyDecoder.UpperRowCodesExactly | src/keyboard_io.c:52-64 | the keys of the digit row and the row below it have consecutive codes |
| KeyDecoder.LowerRowCodesExactly | src/keyboard_io.c:52-64 | so have those of the two lower rows |
| KeyDecoder.BytesExactly | src/keyboard_io.c:295-297 | a byte below 0x80 is a press and the byte 0x80 above it the release of the same key, with and without an E0 prefix, but for the prefix itself |
| KeyDecoder.EventsConcat | src/keyboard_io.c:337-344 | streams of whole events decode one after the other |
| KeyDecoder.NoEventExactly | src/keyboard_io.c:333-341 | no event is whole exactly when no byte or only an E0 prefix is waiting |
| KeyDecoder.EventsExtend | src/keyboard_io.c:337-344 | bytes that arrive later change no event that is already there |
| KeyDecoder.ApplyIsPress | src/keyboard_io.c:307-350 | the three update paths of the decoder are one rule: caps lock flips at each press, every other entry follows its key |
| KeyDecoder.KeyStatesExactly | src/keyboard_io.c:292-350 | after any stream of events an entry is set if and only if the last event on its code was a press, and the caps entry if and only if caps was pressed an odd number of times |
| KeyDecoder.LastByteExactly | src/keyboard_io.c:337-350 | after any stream of whole events the byte of a key leaves its entry set and the byte 0x80 above it leaves it clear; caps lock is turned over by the one and left alone by the other |
| KeyDecoder.LastSpecialByteExactly | src/keyboard_io.c:292-307 | the same for the entries of E0 keys |
| KeyDecoder.ModifiersExactly | src/keyboard_io.c:52-64 | the shift and caps lock codes belong to scancodes 0x2a, 0x36 and 0x3a and to no others |
| KeyDecoder.CapitalizedExactly | src/keyboard_io.c:352-358 | a key is capitalized if and only if it is a printable press with a shift held or caps lock pressed an odd number of times |
| KeyDecoder.EveryRunDecodesInOrder | src/keyboard_io.c:135-366 | however arrivals and decoding interleave, the table is that of the first n events of everything that arrived, and the pending bytes hold exactly the rest |
| KeyDecoder.Keyboard.Interrupt | src/keyboard_io.c:135-140 | the byte is appended to the unread ones; with 255 unread, the queue looks empty |
| KeyDecoder.Keyboard.HasInput | src/keyboard_io.c:290 | true exactly when a byte is unread |
| KeyDecoder.Keyboard.Take | src/keyboard_io.c:337 | the oldest unread byte is removed and returned; with none unread, a stale byte is returned and 255 more look unread |
| KeyDecoder.Keyboard.NextMappedKey | src/keyboard_io.c:330-366 | the key says of the byte read whether it is a press, which scancode it is, whether it came behind E0 and whether it is printable; the key table is updated by that event, and it is the first unread one, removed, if and only if the input was not a lone E0 prefix |
| KeyDecoder.Keyboard.HandleE0Key | src/keyboard_io.c:292-312 | the byte in the next slot, unread or stale, is decoded as an E0 key: a press if and only if it is below 0x80 |
| KeyDecoder.Keyboard.HandleUnknownKey | src/keyboard_io.c:314-327 | an unprintable key updates the table as specified |
| Terminal.ShiftOnceKeepsCellExactly | src/stdlib/tio.c:110-140 | a scroll step keeps the cursor on its buffer cell if and only if it does not roll a page |
| Terminal.ScrollKeepsCell | src/stdlib/tio.c:110-140 | any sequence of scrolls short of the last page keeps the cursor on its cell |
| Terminal.ShiftKeepsColumn | src/stdlib/tio.c:110-140 | scrolling by any amount keeps the column |
| Terminal.ShiftDownExactly | src/stdlib/tio.c:131-139 | scrolling down by n moves the view up n rows, or to the first row, and the cursor as far down |
| Terminal.ScrollRoundTrip | src/stdlib/tio.c:110-140 | scrolling down and back up restores cursor and view |
| Terminal.OnScreenExactly | src/stdlib/tio.c:115-146 | after a scroll the cursor counts as on the screen if and only if it is in rows 1 to 23 or was scrolled up against row 0 |
| Terminal.CursorIncExactly | src/stdlib/tio.c:166-177 | one step right, in full: column, row, and the view that follows when the row is 23 or more |
| Terminal.CursorDecExactly | src/stdlib/tio.c:192-201 | one step left, in full |
| Terminal.StaysInBounds | src/stdlib/tio.c:110-307 | no operation takes the cursor out of the columns or above the screen, or counts it as on the screen when it is below |
| Terminal.CursorColumns | src/stdlib/tio.c:166-209 | moving and writing step the column by one and wrap at the screen's edges; line breaks reset it |
| Terminal.CursorStepsExactly | src/stdlib/tio.c:166-201 | stepping right moves to the next buffer cell, across edges and the last row, if and only if no page rolls; stepping left to the previous cell if and only if the cursor is not at the top left |
| Terminal.WriteSteps | src/stdlib/tio.c:291-307 | a written character that is no line break advances the cursor by exactly one buffer cell and leaves it on the screen, wherever the view was, as long as no page can roll |
| Terminal.OffScreenWriteExactly | src/stdlib/tio.c:297-305 | a character written off the screen first brings the cursor's row to the last row of the screen, or to the first if it was above that, and then steps |
| Terminal.LineFeedExactly | src/stdlib/tio.c:280-286 | what a line feed does to cursor and view, in full |
| Terminal.LineBreaksExactly | src/stdlib/tio.c:280-290 | a line feed moves to the start of the next buffer row if and only if no page rolls, a carriage return to the start of its own |
| Terminal.Tio.ViewShift | src/stdlib/tio.c:110-150 | the loop leaves the specified cursor and view, with its early return and the on-screen flag |
| Terminal.Tio.Inc | src/stdlib/tio.c:166-177 | the cursor steps right, wraps and scrolls at the last row |
| Terminal.Tio.Dec | src/stdlib/tio.c:192-201 | the cursor steps left, wraps and stops at the top row |
| Terminal.Tio.TryInc | src/stdlib/tio.c:183-190 | the cursor moves exactly when there are typed characters to its right |
| Terminal.Tio.TryDec | src/stdlib/tio.c:203-209 | the cursor moves exactly when it is behind the prompt |
| Terminal.Tio.Write | src/stdlib/tio.c:278-307 | line breaks move the cursor as specified; any other character scrolls the cursor into view and steps it |
| LineEditor.InsertThenDelete | src/keyboard_io.c:398-431 | backspace takes back what typing did |
| LineEditor.InsertChar | src/keyboard_io.c:415-431 | the shift loop and the store are exactly insertion at the cursor, and the NUL moves on |
| LineEditor.DeleteChar | src/keyboard_io.c:398-411 | the shift loop is exactly deletion before the cursor, and the NUL moves back |
| LineEditor.EditBuffer | src/keyboard_io.c:378-432 | for any answer of the terminal the buffer and the two locals hold the abstract line after the key |
| LineEditor.EchoKey | src/keyboard_io.c:380-427 | the cursor and view move as specified, and the terminal's answer is the specified one |
| LineEditor.GetLine | src/keyboard_io.c:368-435 | on return the buffer holds the text of the abstract editor after all keys up to the first that ends the line, with a NUL behind it, given room until then |
| LineEditor.EndsLineExactly | src/keyboard_io.c:373 | a line ends at a press of Enter or of the keypad's 0, which has typed its digit before, and at nothing else |
| LineEditor.EditingKeysExactly | src/keyboard_io.c:382-398 | the arrows are the E0 scancodes 0x4b, 0x4d, 0x48 and 0x50 and backspace is scancode 0x0e, and no other event is taken for one of them |
| LineEditor.EditExactly | src/keyboard_io.c:378-432 | what every key event does to text and cursor, by its scancode, with the lower or the upper table as the key is capitalized |
| LineEditor.ArrowsScrollExactly | src/keyboard_io.c:394-397 | arrow up moves the view one row up, arrow down one row down, and the cursor keeps its buffer cell |
| LineEditor.SessionInBounds | src/keyboard_io.c:373-433 | over every session the terminal's cursor stays in bounds |
| LineEditor.ColumnStepExactly | src/keyboard_io.c:380-393 | with the column at cursor + 2 every key does what the ideal editor does, so the clamps never fire, and the column keeps up if and only if the cursor stays within 77 characters |
| LineEditor.ColumnTracksCursor | src/keyboard_io.c:380-431 | so it does over every run of keys that keeps the text within 77 characters |
| Formatter.DigitsCanonical | src/stdlib/kstdio.c:43-98 | rendered numbers have no leading zero and only digits of the base, written 0 to 9 and a to f, and parse back to their value |
| Formatter.BinaryLengthExactly | src/stdlib/kstdio.c:83-98 | a number has more than k binary digits if and only if it is at least 2^k |
| Formatter.ScratchSuffices | src/stdlib/kstdio.c:85-93 | a word's digits fit the 32-byte buffer, and fill it if and only if the base is 2 and the top bit is set |
| Formatter.DecimalRoundTrip | src/stdlib/kstdio.c:10-41 | signed notation parses back to its value |
| Formatter.IntMinNotation | src/stdlib/kstdio.c:14-18 | the literal of the special case is the notation of -2^31 |
| Formatter.RenderedExactly | src/stdlib/kstdio.c:116-139 | parsed back, 'x', 'u' and 'b' yield the word in base 16, 10 and 2 and 'd' its value in two's complement; 's' is the string and 'c' the character of the low byte |
| Formatter.RenderedCanonical | src/stdlib/kstdio.c:116-131 | only 'd' writes a sign, for words from 2^31 on, and no number has a leading zero |
| Formatter.PlainExactly | src/stdlib/kstdio.c:144-148 | text without percent signs stands for itself |
| Formatter.DirectiveExactly | src/stdlib/kstdio.c:113-143 | the directives are d, u, x, b, s and c; one alone yields what it renders, and any other character behind a percent sign, or none, stops formatting at once |
| Formatter.FormattedNumbers | src/stdlib/kstdio.c:108-152 | formatting a number with one of the four directives and parsing it back yields the number |
| Formatter.UnderstoodExactly | src/stdlib/kstdio.c:113-142 | formatting reaches the end of the format if and only if every percent sign starts a known directive |
| Formatter.NulBehindEndsInMin | src/stdlib/kstdio.c:14-18 | a NUL is left behind the output of an ill-formed format only if the output ends with the notation of the smallest integer |
| Formatter.NulBehindExamples | src/stdlib/kstdio.c:140-142 | both happen: the output for a format that ends in two percent signs is terminated after the smallest integer and not after a character |
| Formatter.NulBehindOne | src/stdlib/kstdio.c:14-18 | one directive leaves a NUL behind it if and only if it renders the smallest integer, or an empty string where one stood |
| Formatter.NulBehindConcat | src/stdlib/kstdio.c:108-152 | what a format leaves behind is what its parts leave behind in turn |
| Formatter.FormatConcat | src/stdlib/kstdio.c:108-152 | formatting is compositional: a well-formed format takes its own arguments and leaves the rest to what follows |
| Formatter.CollectDigits | src/stdlib/kstdio.c:44-53 | the first loop leaves the digits in reverse in the scratch buffer |
| Formatter.RenderDigits | src/stdlib/kstdio.c:43-98 | the two loops append exactly the notation of the number |
| Formatter.CopyString | src/stdlib/kstdlib.c:51-61 | `kstrcpy` writes the characters and a NUL and nothing else |
| Formatter.RenderString | src/stdlib/kstdio.c:100-106 | exactly the string is appended |
| Formatter.RenderInteger | src/stdlib/kstdio.c:10-41 | exactly the signed notation is appended, for every 32-bit integer, and a NUL behind it for the smallest only |
| Formatter.RenderNegative | src/stdlib/kstdio.c:21-40 | a minus sign and the digits of the magnitude are appended |
| Formatter.RenderArgument | src/stdlib/kstdio.c:115-139 | each directive appends what the pure formatter says and leaves the byte behind it alone, but for the smallest integer |
| Formatter.Kvsprintf | src/stdlib/kstdio.c:108-152 | the buffer holds exactly the pure formatter's output; the byte behind it becomes a NUL if the format is well formed or a copied NUL is left there, and otherwise keeps its value; nothing behind that changes |
| Pit.DivideClockBounds | src/timer/PIT.s:65-80 | for divisors up to half the clock the first rounding never happens, and the quotient is from 1/3 below to 2/3 above the exact one |
| Pit.ReloadBounds | src/timer/PIT.s:54-83 | for 19 to 1193180 Hz the reload value is in 1..62799 and within 2/3 of the exact divisor |
| Pit.ReloadOutOfRange | src/timer/PIT.s:54-62 | up to 18 Hz the reload value is 65536 and from 1193181 Hz on it is 1 |
| Pit.ReloadAntitone | src/timer/PIT.s:54-83 | the reload value never grows with the frequency |
| Pit.NearestReloadExactly | src/timer/PIT.s:69-79 | the reload value is a nearest one if and only if the clock's remainder modulo 3 f is below f or at least half of it |
| Pit.NotNearestAt23 | src/timer/PIT.s:69-79 | at 23 Hz it is not |
| Pit.FrequencyBounds | src/timer/PIT.s:88-102 | the frequency reported is within 2/3 of the one the reload value gives, and both roundings keep it near the one requested |
| Pit.PeriodBounds | src/timer/PIT.s:104-115 | the stored 32.32 interval is r * 0xDBB3A062 / 1024 rounded down, and differs from r * 3000 / 3579545 ms by less than 4 * 2^-32 ms |
| Pit.ShiftPair | src/timer/PIT.s:111-112 | shifting the register pair divides the 64-bit product by 1024 |
| Pit.Timer.Init | src/timer/PIT.s:45-115 | the four stored values are the specified reload value, frequency and interval |
| Pit.Timer.DivideBy | src/timer/PIT.s:65-79 | the register sequence computes the specified rounded quotient |

## Left out

- Kheap.KernelHeap.KheapFree: a pointer into the middle of a block whose bytes happen to be the header magic is excluded by the precondition, because the source cannot tell it from a block.
- Kheap.KernelHeap.KheapRealloc: the same, and a pointer to a block that is already free, because the source demands a live block.
- Kheap.KernelHeap.KheapAlloc: a heap whose first header is there but whose chain has been damaged is excluded by the precondition; the source spins on it or follows stray pointers.
- SknyFs.SknyDrive.CreateFile: the disk is an abstract byte array whose reads and writes succeed; the statuses ignored at `src/sknyfs.c:189` and `src/sknyfs.c:195` are not modelled.
- Pager.PageTables.LoadRegions: at most 16 memory regions and a well-formed map are assumed, and the high halves of 64-bit addresses are dropped as in the source.
- KeyDecoder.Keyboard.NextMappedKey: scancodes outside the tables are excluded by the precondition; the source reads outside its tables there.
- LineEditor.GetLine: the buffer must be zeroed and must have room until the line ends, as the source assumes; waiting for input is replaced by the sequence of keys that arrive.
- Terminal.Tio.ViewShift: the page-roll branch moves the view as written, but the contents of the text buffer are not modelled.
- Terminal.Tio.Write: the character's cell and colour are not stored.
- Formatter.Kvsprintf: the result must fit the buffer, as the source assumes; the fixed 1024-byte buffer of `kvprintf` is not modelled.
- Endless loops on errors become failure results, or preconditions where nothing meaningful would be returned.
- Port I/O, interrupt controller and PS/2 set-up, serial, PCI and the ATA/IDE drivers are not modelled.
- Programming the timer chip (`src/timer/PIT.s:117-130`) and the tick counters and sleep of `src/timer/timer.c` are not modelled.
- `sknyWriteFile`, an unfinished stub, is not modelled.
- Screen rendering, video memory, the hardware cursor, and what shifting and backspace do to the characters on the screen are not modelled.
- Descriptor tables, task state, CPU identification, ACPI, exception stubs, user mode and system calls are not modelled.
- TLB flushing and control registers are not modelled: the translation function reads the directory directly.
- Interrupts in the middle of a call: the methods of `Keyboard` run one at a time; interleavings of the single loads and stores are in `ScancodeQueue`.
