# Verified model of the Commodore 900 emulator

The Commodore 900 is a Z8001 workstation that runs Coherent. This project models the parts of
its emulator, and of the offline tool for Coherent disk images, whose behaviour is hardest to
see from any one function, and proves what they promise for all inputs and all runs.

**The Coherent filesystem** (`tools/disk.py`). The free list is a stack kept in a 64-entry
superblock cache that spills into freed blocks; a file is ten direct pointers and trees of depth
one to three. The specification is a set of functions on the partition as a sequence of blocks:

| module | what it holds |
|---|---|
| `Basics` | bytes and words, memory, optional values, division |
| `Bytes` | the little-, middle- and high-byte-first codecs |
| `FreeList` | allocation and freeing, and the stack they implement |
| `BlockTree`, `FileMap` | the tree below a pointer, ownership, index classification |
| `Grow` | mapping an index, growing a file |
| `Prune`, `Shrink` | what shrinking should leave and free; the in-place recursion that does it |
| `CutExact`, `FileShape` | which pointers survive a cut and which blocks it frees, at every depth; what growing and shrinking leave of a file's shape |
| `Demand`, `OpenGrow` | how many blocks a growth needs; growing from a free list that does not end regularly |
| `Walk`, `WalkExact` | block lists, reading, and the walk that visits every block of an inode, position by position |
| `InodeTable`, `FileIo` | inodes on disk; writing a file and reading it back |
| `Layout` | the same read byte by byte off the disk: superblock, records, block map, file content |
| `Ownership` | the ownership invariant over runs of operations on many files |
| `Fsck` | the block check and the free-list rebuild |
| `Settled` | the checker against the invariant, over runs of writes |
| `CoherentFs` | the object itself: methods that edit the image array and inode fields in place, each equal to its specification |

**The emulator.** `Alu` (bit-serial adder, shifts, condition codes), `Mmu` (translation ladder,
command port, violation latch), `MmuPort` (what software sees of it: where accesses go, what
programming a descriptor does) and `MmuCache` (the unit as it runs, with its fast-path cache),
`StopMark` (the output matcher), `Clock` (the calendar chip), `Loader` (executable layout and
loading), `Cpu`, `Interrupts` and `BlockOps` (state, trap entry and return, block instructions),
`Entry` and `BlockRuns` (what those do to the bytes of memory) and `Processor` (the processor as it
runs).

A class method is proved equal to a specification function of the old state; the properties are
lemmas about those functions, so they hold of the methods.

Points where the code is read closely:

- A free list ends when its cache has no entry or when it comes to a zero entry, which
  `alloc_block` takes for the end of space (`tools/disk.py:359-363`). Both count as well formed.
- Freeing a block onto a list with no entry makes it the bottom link without writing it, so what
  the block happens to hold decides what later allocations do. `FreeList.FreeBehaves` says exactly
  when they see the push of a stack, and `FreeList.BadBottomAllocatedTwice` gives a block handed
  out twice. The same condition is carried by `Shrink.CanFree` and `Fsck.RebuildBehaves`; in a
  rebuild a pointer to a block that receives a spilled cache is no refusal.
- What such a bottom block holds matters to a write only when it asks for more blocks than its
  cut freed and were free. Up to that point `FileIo.WriteThenRead` holds whatever the block holds;
  past it `FileIo.BadOverwrite` loses half the data.
- An indirect block without entries is not always freed with the entries it had: a growth that
  runs out of space can leave one (`FileShape.FailedGrowthUntidy`), and a cut that keeps its
  indices passes it over (`FileShape.EmptyBlockPassedOver`). `CutExact.CutTidies` says exactly
  when a cut leaves one.
- The loader adds section sizes in 32-bit integers, and its header check bounds only sections
  with file bytes. `Loader.FitsInt` is the condition under which no sum wraps, and
  `Loader.OverflowDecides` says exactly when the layout is right without it. Signed overflow is
  taken to wrap around.
- The comment on the report (`tools/disk.py:147-149`) describes a cross-link as a block
  claimed by more than one inode; the code also records one when a single inode claims a block twice.
  The model follows the code.
- A written inode keeps only the bits its fields have room for; `InodeTable.TruncatedFits` says
  exactly when nothing is lost. `Ownership` follows the inodes held in memory, which is where
  the tool keeps the truth while a write that runs out of space is reported.
- A change of FCW is its own inverse except between normal and system-nonsegmented mode
  (`Cpu.ChangeBack`). Trap entry always goes through system-segmented mode, so the bracket
  theorem needs no such exception. A segmented push keeps only bits 14:8 of the stack segment
  word; `Interrupts.Bracket` says that exactly this is what a round trip can lose.
- The slot of a vectored interrupt does not count when it would be at address 0 of segment 0, since
  the code tests the slot's address for zero (`src/cpu.c:1012`); `Entry.PcPlace` keeps the case.
- A descending segment's boundary page is its lowest valid one; a write there succeeds and
  warns (`Mmu.LatchExact`).

## Model

| member | source | states |
|---|---|---|
| `Bytes.Set16` | tools/disk.py:250-257 | storing a 16-bit little-endian word (the callers mask the value) reads it back and changes no other byte |
| `Bytes.Set32` | tools/disk.py:185-187 | the middle-endian 32-bit field reads back what was stored, modulo 2^32, and changes no other byte |
| `Bytes.Set24` | tools/disk.py:195-198 | the 24-bit block address reads back what was stored, modulo 2^24, and changes no other byte |
| `Bytes.SetEntry` | tools/disk.py:203-209 | an indirect entry reads back modulo 2^32; the other entries of the block are as before |
| `Layout.SuperLayout` | tools/disk.py:66-77 | the superblock fields the allocator reads, byte by byte: data-area start, size, signed free count, 64-entry cache, free total |
| `Layout.ChainLayout` | tools/disk.py:80-81 | the signed count and the 64 entries of a chain block, byte by byte |
| `Layout.EntryLayout` | tools/disk.py:203-204 | entry i of an indirect block, byte by byte |
| `Layout.AllocUpdates` | tools/disk.py:344-386 | a successful allocation changes only the free count, the cache, the free total, the modified flag (set) and the time; a failed one may only clear the count |
| `Layout.FreeUpdates` | tools/disk.py:344-418 | so does a successful free; one is refused, with nothing written, exactly when the block is outside the data area, the count is no count of a cache, or a full cache would spill past the image |
| `FreeList.AllocPops` | tools/disk.py:350-386 | on a well-formed list (one that ends with no entry or with the zero entry) an allocation succeeds exactly when the list is non-empty, returns its top and leaves the rest; only the superblock changes, and on an empty list only its count |
| `FreeList.PopStack` | tools/disk.py:350-386 | popping across the cache boundary gives the plain stack pop, with the free count one lower |
| `FreeList.PushStack` | tools/disk.py:388-418 | freeing a block pushes it, with or without a spill at 64 entries, whatever the list ends in: what it ends in stays, except that the first block freed onto a list with no entry becomes the bottom link as it reads |
| `FreeList.FreePushes` | tools/disk.py:388-418 | freeing onto a well-formed list pushes, and the result is well formed exactly when the list had an entry (a block or the terminating zero) or the freed block itself holds a cache that ends there |
| `FreeList.FreeBehaves` | tools/disk.py:350-418 | after the free, successive allocations return exactly the freed block and the old list and are then refused, if and only if the list had an entry or the freed block reads as a cache that can be loaded and is refused: count 0, or a top entry that is 0, outside the data area, or a chain pointer to a block with an impossible count |
| `FreeList.OpenYields` | tools/disk.py:350-386 | a list behaves as its stack under successive allocations if and only if what it comes down to in the end can be loaded and refuses the next allocation |
| `FreeList.ListYields` | tools/disk.py:350-386 | a well-formed list, zero-terminated ones included, behaves as its stack under successive allocations at any times |
| `FreeList.FreeThenAlloc` | tools/disk.py:350-418 | a block just freed is the next one allocated, and the list is then as it was |
| `FreeList.BadBottomAllocatedTwice` | tools/disk.py:399-418 | a concrete block, linking to itself, that is handed out twice when freed onto an empty list |
| `FreeList.FreeFrame` | tools/disk.py:350-418 | the list is the same after any write outside the superblock and its spilled blocks |
| `FreeList.ListUnique` | tools/disk.py:350-418 | a disk pops at most one list of the length its free total records |
| `BlockTree.LeavesDiffer` | tools/disk.py:289-306 | in a tree that owns no block twice, two positions never hold the same block |
| `BlockTree.TreeFrame` | tools/disk.py:289-306 | a tree reads the same after any write outside its indirect nodes |
| `FileMap.ClassifySound` | tools/disk.py:476-490 | every index below 10+n+n^2+n^3 is classified to a slot and coordinates that number back to it; larger ones, and only those, are too large |
| `FileMap.ClassifyOnto` | tools/disk.py:476-490 | every position of every slot tree is the classification of its own number |
| `FileMap.ClassifyInjective` | tools/disk.py:476-490 | two indices are classified alike only if they are equal |
| `FileMap.FileBlocksDiffer` | tools/disk.py:495-506 | two different mapped indices of a file that owns no block twice are different blocks |
| `Layout.MapLayout` | tools/disk.py:271-306 | the block mapped at an index is the one found by following the pointers on disk: ten addresses, then 128, 128*128 and 128*128*128 entries |
| `Layout.ReadLayout` | tools/disk.py:308-318 | byte k of a file read is byte k mod 512 of the block so found at index k/512, or 0 in a hole |
| `Grow.LinkFreshSound` | tools/disk.py:508-523 | a fresh block linked into an indirect node: one block leaves the free list and appears at that slot, everything else as before |
| `Grow.EnsureChildSound` | tools/disk.py:508-523 | ensuring a position maps it, moves no other position, and takes from the free list exactly the blocks that appear in the tree |
| `Grow.EnsureDataSound` | tools/disk.py:495-506 | ensuring index i returns the block mapped there, moves no other index, and the file and free list together own the same blocks |
| `Grow.GrowSound` | tools/disk.py:525-526 | growing to n blocks maps the first n indices, lists their blocks in order, keeps every index already mapped and conserves ownership |
| `Demand.FileCounts` | tools/disk.py:495-523 | mapping one of the first n indices: each block the file gains is one pointer less missing below n |
| `Demand.FileNone` | tools/disk.py:476-523 | nothing is missing below n exactly when every index below n, up to the limit, is mapped |
| `Demand.GrowsExactly` | tools/disk.py:525-526 | growing to n blocks succeeds if and only if n is within the triple-indirect limit and no more pointers, data and indirect, are missing below n than blocks are free; it then takes that many |
| `OpenGrow.GrowOpen` | tools/disk.py:525-526 | growing from a list that does not end regularly, with no more pointers missing than it has blocks: it succeeds if and only if within the limit and, should every block be needed, the last can be loaded; then the first n indices are mapped and every block is accounted for, and the list is not well formed afterwards |
| `Prune.PruneAt` | tools/disk.py:549-581 | pruning keeps every leaf position before the cut and clears every one at or past it |
| `Prune.PruneToNothing` | tools/disk.py:549-581 | pruning to nothing leaves a hole |
| `Prune.PruneTreeConserves` | tools/disk.py:549-581 | what a tree owned is what the pruned tree owns and what was freed, each once |
| `Prune.PruneForestMap` | tools/disk.py:528-547 | over a whole file: the first n logical blocks stay mapped as before, all later ones are holes |
| `Prune.PruneForestConserves` | tools/disk.py:528-547 | over a whole file: owned before = owned after + freed |
| `CutExact.CutPtr` | tools/disk.py:528-581 | at every position and depth, indirect blocks included: a pointer survives the cut exactly when all its indices come before it or a pointer below it survives so |
| `CutExact.NothingPast` | tools/disk.py:528-581 | no pointer at any depth is left whose indices all lie at or past the cut |
| `CutExact.FreedExactly` | tools/disk.py:528-581 | the blocks freed are exactly those at the positions that do not survive |
| `CutExact.FreedData` | tools/disk.py:528-547 | the data block of index i is freed exactly when i is at or past the cut |
| `CutExact.TidyFreed` | tools/disk.py:549-581 | in a file without empty indirect blocks an indirect block is freed exactly when no data block below it comes before the cut |
| `CutExact.CutTidies` | tools/disk.py:549-581 | a cut leaves an indirect block without entries if and only if one was there already, below a root and wholly before the cut |
| `Shrink.ShrinkIndirectSound` | tools/disk.py:549-581 | the in-place recursion over an indirect block is exactly pruning, and pushes each cut block on the free list once |
| `Shrink.ShrinkFromSound` | tools/disk.py:528-547 | the slot loop of a file likewise, from any slot on |
| `Shrink.ShrinkOpen` | tools/disk.py:528-547 | shrinking to n blocks never fails, whatever the free list ends in: the first n logical blocks stay, later ones become holes, the freed blocks are pushed once each, ownership is conserved |
| `Shrink.ShrinkSound` | tools/disk.py:528-547 | on a well-formed list as well, and the list is well formed again, with the freed blocks on top, if and only if nothing is freed, or it had an entry, or the first freed block holds a cache that ends there |
| `FileShape.ShrinkExact` | tools/disk.py:528-581 | on the disk: every pointer at every depth stays or is cleared by the stated rule, none is left at or past n, and the blocks pushed are exactly those at the positions cleared |
| `FileShape.ShrinkShape` | tools/disk.py:528-581 | on the disk: after a shrink no pointer is past the end, and an indirect block without entries is left exactly when one was there, below a root and wholly before the cut |
| `FileShape.EnsureDataAlong` | tools/disk.py:495-523 | mapping an index, whether it succeeds or not, only adds pointers, and only on the way to that index |
| `FileShape.GrowShape` | tools/disk.py:525-526 | growing leaves nothing past the new end; a successful growth leaves no new indirect block without entries |
| `FileShape.FailedGrowthUntidy` | tools/disk.py:508-523 | with one block free, mapping a leaf two levels down fails and leaves an indirect block without entries |
| `Demand.FailedGrowthTidy` | tools/disk.py:525-526 | a growth that runs out of space leaves no indirect block without entries if and only if the free blocks are exactly as many as are missing for some shorter length |
| `FileShape.EmptyBlockPassedOver` | tools/disk.py:549-581 | a later cut that keeps the indices of such a block keeps the block |
| `Walk.FileBlocksAgree` | tools/disk.py:271-306 | entry i of the block list is the block mapped at index i (or the hole marker), for every image, size and depth, and the list is as long as the size needs |
| `Walk.ReadFileBytes` | tools/disk.py:308-318 | a file read is as long as its size (up to the largest mapped file) and byte k is the byte of block k/512 at k mod 512 |
| `Walk.WalksAgree` | tools/disk.py:738-780 | on any image, the data blocks visited are the non-hole entries of the block list in order, and the position counter is the length of that list |
| `WalkExact.VisitsReachedNodes` | tools/disk.py:758-780 | below one pointer, the indirect blocks visited are exactly those whose first leaf lies within the size bound |
| `WalkExact.WalkListing` | tools/disk.py:738-780 | on any image the visits of an inode are exactly its pointers, of every depth, whose first logical block lies within the size: one visit for each position, in depth-first order |
| `WalkExact.WalkOnce` | tools/disk.py:738-780 | no block of a file without repeated blocks is visited twice |
| `Walk.VisitedFrame` | tools/disk.py:738-780 | a file whose visited blocks are unchanged is walked and read the same |
| `InodeTable.EncodeDecode` | tools/disk.py:230-269 | an inode that fits its fields decodes to itself after encoding, and the bytes outside its 64 are unchanged |
| `InodeTable.WriteInodeStat` | tools/disk.py:230-269 | after writing an inode its stat is the truncated inode, and every other inode stats as before |
| `InodeTable.TruncatedFits` | tools/disk.py:250-269 | writing loses nothing exactly when every field fits its width |
| `Layout.InodeLayout` | tools/disk.py:230-248 | inode n is the 64-byte record (n-1) mod 8 of block 2+(n-1)/8, free when its mode is 0, with every field at its offset; files and directories by the top digit of the mode |
| `Layout.TypeBits` | tools/disk.py:130-134 | files and directories are told by bits 15:12 of the mode |
| `Layout.WriteInodeRefused` | tools/disk.py:250-269 | an inode is written exactly when its block lies inside the image, and otherwise nothing is |
| `FileIo.ResizeSound` | tools/disk.py:585-592 | shrink then grow, when the cut leaves a well-formed list or no more blocks are wanted than it frees and are free: succeeds if and only if the new length fits (`FileIo.Fitting`); then the first n blocks are mapped in order and every block is accounted for; the list is well formed afterwards exactly when the cut left it so |
| `FileIo.WriteFileSound` | tools/disk.py:585-603 | under the same condition a write succeeds if and only if the file is regular and the new length fits; its blocks then hold the data and zeroes up to the end of the last, and size and times are set; with a well-formed list a failed one still only touches this file and the free list |
| `FileIo.WriteThenRead` | tools/disk.py:585-603 | after a successful write under the same condition, of any old to any new size, the inode fetched afresh has the size, and the addresses exactly when they fit 24 bits, as they do on at most 2^24 blocks; then reading gives exactly the data |
| `FileIo.BadOverwrite` | tools/disk.py:585-603 | outside that condition: on a full partition, two blocks of data over a file with two holes and a third block that reads as a chain naming itself succeed, and both go to the same block |
| `Ownership.StepSound` | tools/disk.py:495-603 | each grow, and each shrink and write whose cut leaves the free list well formed, keeps: every data block is at one position of one file or on the free list once; every other file keeps its inode and content |
| `Ownership.RunSound` | tools/disk.py:495-603 | the same over every run of such operations |
| `Ownership.OwnedOrFree` | tools/disk.py:350-418 | in a sound world each block of the data area is in exactly one of: one file, the free list |
| `Ownership.ShrinkAllowedExactly` | tools/disk.py:528-547 | a shrink keeps the invariant if and only if the condition on the first freed block holds |
| `Ownership.ReplaceAllowedExactly` | tools/disk.py:585-603 | so does a write, unless its cut spoils the list and it then wants more blocks than there are |
| `Ownership.WriteSurvivesRun` | tools/disk.py:585-603 | data written to a file is still what reading it gives after any later run on the other files |
| `Fsck.CheckExact` | tools/disk.py:782-818 | there is a report exactly when the superblock is plausible; it lists exactly the blocks of the data area that inodes claim, each cross-link with its claimants, and every pointer outside the data area; used and free blocks agree, and the free inodes are the number of free records in the table |
| `Fsck.UsedExactly` | tools/disk.py:793-812 | a block is in use exactly when it is in the data area and the walk of some file or directory of the table meets it |
| `Fsck.RebuildSound` | tools/disk.py:820-866 | after a rebuild the list pops exactly the unclaimed blocks of [isize, fsize), each once, ascending; the free count is their number; only those blocks and the superblock are written, the unclaimed ones only where a full cache spills |
| `Fsck.RebuildRefused` | tools/disk.py:785-789 | on an implausible superblock a rebuild is refused and writes nothing |
| `Fsck.RebuiltSuper` | tools/disk.py:846-866 | after a rebuild the superblock has the number of free inode records modulo 2^16, an empty inode cache, both lock bytes clear, the modified flag and the time; every other byte outside the free list is as before |
| `Fsck.RebuildBehaves` | tools/disk.py:820-866 | successive allocations after a rebuild return exactly the unclaimed blocks and are then refused if and only if the highest unclaimed block, read before the rebuild, is a cache that can be loaded and is refused; the list is well formed if and only if that cache ends there |
| `Fsck.RebuildKeepsFiles` | tools/disk.py:820-866 | a rebuild leaves every inode, and every file whose pointers are in range, reading as before |
| `Fsck.AllocAfterRebuild` | tools/disk.py:861-865 | allocations after a rebuild return the unclaimed blocks in ascending order, all of them exactly when the count word of the last one is one a cache can hold |
| `Settled.SettledIsClean` | tools/disk.py:782-818 | when memory and inode table hold the same files and nothing lies past a file's end, the check finds no cross-link and no stray pointer, uses exactly the owned blocks and counts free exactly the free list |
| `Settled.WriteSettles` | tools/disk.py:585-603 | a write that succeeds, with addresses and time that fit their fields, keeps that so |
| `Settled.RunsStayClean` | tools/disk.py:585-603 | after any run of such writes to any files the check finds nothing wrong |
| `Settled.SettledRebuild` | tools/disk.py:820-866 | a rebuild then frees exactly the blocks that were free already |
| `CoherentFs.CoherentFS.ReadBlock` | tools/disk.py:213-218 | the block of the image, or zeros past its end |
| `CoherentFs.CoherentFS.WriteBlock` | tools/disk.py:220-228 | exactly that block changes, and nothing before the partition; refused past the end |
| `CoherentFs.CoherentFS.AllocBlock` | tools/disk.py:350-386 | the image edited in place becomes the specified one; earlier partitions untouched |
| `CoherentFs.CoherentFS.FreeBlock` | tools/disk.py:388-418 | the image edited in place becomes the specified one; earlier partitions untouched |
| `CoherentFs.CoherentFS.EnsureIndirectChild` | tools/disk.py:508-523 | same image, same block as the specification |
| `CoherentFs.CoherentFS.EnsureDataBlock` | tools/disk.py:495-506 | same image, same inode pointers, same block as the specification |
| `CoherentFs.CoherentFS.GrowToNBlocks` | tools/disk.py:525-526 | same image, pointers and block list as the specification |
| `CoherentFs.CoherentFS.ShrinkIndirect` | tools/disk.py:549-581 | same image and emptiness result as the specification |
| `CoherentFs.CoherentFS.ShrinkToNBlocks` | tools/disk.py:528-547 | same image and pointers as the specification |
| `CoherentFs.CoherentFS.StatInode` | tools/disk.py:230-248 | the decoded inode, or none for number 0 or mode 0 |
| `CoherentFs.CoherentFS.WriteInode` | tools/disk.py:250-269 | the inode table block with the encoded inode |
| `CoherentFs.CoherentFS.FileBlocks` | tools/disk.py:271-284 | the specified block list, by the depth-first loops |
| `CoherentFs.CoherentFS.WalkIndirect` | tools/disk.py:289-306 | the specified continuation of the list |
| `CoherentFs.CoherentFS.ReadFile` | tools/disk.py:308-318 | the specified content |
| `CoherentFs.CoherentFS.WriteFile` | tools/disk.py:585-603 | the specified image and in-memory inode |
| `CoherentFs.CoherentFS.WalkInodeBlocks` | tools/disk.py:738-756 | the specified visits in order |
| `CoherentFs.CoherentFS.WalkIndirectBlocks` | tools/disk.py:758-780 | the specified visits and position counter |
| `CoherentFs.CoherentFS.CheckBlocks` | tools/disk.py:782-818 | the specified report (`Fsck.CheckExact`), and none on an implausible superblock |
| `CoherentFs.CoherentFS.RebuildFreeList` | tools/disk.py:820-866 | the specified image (`Fsck.RebuildSound`, `Fsck.RebuiltSuper`) and report |
| `Alu.CarryChain` | src/alu.c:61-72 | for every width: sum and carry-out are a+b+cin exactly; the two inner carries are those of the low 4 and all but the top bit |
| `Alu.DoAdd` | src/alu.c:79-97 | value and flags of the integer sum: carry, zero, sign, signed overflow, half carry |
| `Alu.DoSub` | src/alu.c:104-121 | value and flags of the integer difference, with the borrow sense of C and H |
| `Alu.AddMeans` | src/alu.c:79-97 | ADD and ADC in plain numbers at 8, 16 and 32 bits: the wrapped sum, C past the width, PV when like signs give the other, H on a carry out of the low four bits; DA and H for bytes only |
| `Alu.SubMeans` | src/alu.c:104-121 | SUB, SBC and CP likewise: C on a borrow, PV when unlike signs give a sign other than the first |
| `Alu.CpDecides` | src/cpu.c:148-177 | after CP at any width each condition code decides the signed or unsigned relation it is named for |
| `Alu.CondPairs` | src/cpu.c:148-177 | each upper condition code is the opposite of the one eight below; 0 never holds, 4 is overflow, 5 the sign |
| `Alu.AddChainExact` | src/alu.c:79-97 | ADD then any number of ADCs is the exact multi-word sum with the final carry |
| `Alu.SubChainExact` | src/alu.c:104-121 | SUB then any number of SBCs is the exact multi-word difference with the final borrow |
| `Alu.ShiftLeft` | src/alu.c:215-237 | for every count: a*2^k modulo the width, last bit out in C, PV for SLA exactly when the signed product does not fit |
| `Alu.ShiftRight` | src/alu.c:242-276 | for every count: floor division by 2^k, signed for SRA and unsigned for SRL, last bit out in C |
| `StopMark.MarkAdvance` | src/bus.c:206-219 | from the position for a stream, the loop returns the longest prefix of the mark that ends the stream with the new character |
| `StopMark.OnlyPositionMatters` | src/bus.c:206-219 | two streams at the same position stay at the same position, so the position is all the state needed |
| `StopMark.RunExact` | src/bus.c:224-232 | over every interleaving of ports, before the first match each port is at the longest prefix of the mark ending its own output |
| `StopMark.StopsAtFirst` | src/bus.c:224-232 | the stop is raised on the first character after which some port has just printed the whole mark, never before |
| `StopMark.StopWatcher.Transmit` | src/bus.c:224-232 | one character in place is one step of the specification |
| `Clock.DayTickSound` | src/bus.c:580-592 | the decoded day number goes up by one modulo the 36525-day century, registers valid and leap field in phase |
| `Clock.HourTickSound` | src/bus.c:596-614 | the hour of day goes up by one in 24-hour and 12-hour mode, turning the day at midnight |
| `Clock.TickSound` | src/bus.c:618-634 | a tick keeps the registers valid BCD and the leap field in phase, and moves the decoded date and time one second on modulo the century |
| `Clock.TicksSound` | src/bus.c:618-649 | k ticks are k seconds |
| `Clock.TicksDependOnRunning` | src/bus.c:636-656 | however often the clock is caught up and STOP raised and dropped, the ticks delivered are the instructions run while not stopped, divided by the instructions per second |
| `Clock.SeedSound` | src/bus.c:713-735 | setting the time stores a valid date in phase that decodes to what was asked |
| `Clock.CalendarTable` | src/bus.c:555-560 | the days of the year before each month, leap or not |
| `Clock.WeekDayRight` | src/bus.c:563-567 | for every date from 2000 to 2099 the seeding formula gives the weekday counted from Saturday, 1 January 2000 |
| `Clock.TicksWeek` | src/bus.c:580-634 | over k ticks the weekday register moves on once for each midnight passed |
| `Clock.SeededWeek` | src/bus.c:563-735 | a clock seeded with a date from 2000 to 2099 shows the right weekday after any number of ticks, to the end of the century |
| `Clock.RealTimeClock.TickInPlace` | src/bus.c:618-634 | the register file edited in place becomes the specified one |
| `Clock.RealTimeClock.CatchUp` | src/bus.c:636-649 | the catch-up loop delivers the specified ticks |
| `Clock.RealTimeClock.DriveStop` | src/bus.c:651-656 | raising and dropping STOP as specified |
| `Mmu.FaultsExactly` | src/mmu.c:129-190 | an access faults exactly when the unit acts on it and the descriptor does not permit it; a permitted one goes to (256*base + offset) mod 2^24 and sets REF and CHG in its own descriptor only; others keep segment and offset |
| `Mmu.LatchExact` | src/mmu.c:87-114 | exactly what each access does to the violation registers, traps and warnings: first event captured, FATL and SWW by the stated follow-up kinds |
| `Mmu.Frozen` | src/mmu.c:87-114 | over any run without an unlatch the captured segment, offset and status stay those of the first violation, type bits only grow, FATL and SWW go only by their own commands |
| `Mmu.Inhibited` | src/mmu.c:105-114 | over any run while FATL or SWW stays set no trap or warning is newly raised |
| `Mmu.RunArmed` | src/mmu.c:87-114 | with nothing captured no type bit is set, over every run |
| `Mmu.FastAgrees` | src/mmu.c:144-160 | on a descriptor with no limit or restriction the whole ladder comes down to (256*base + offset) mod 2^24 and the REF and CHG bits |
| `Mmu.SimpleExactly` | src/mmu.c:34-46 | the descriptors that take the fast path are exactly those on which no access can fault or warn |
| `MmuPort.TranslatesTo` | src/mmu.c:129-190 | which accesses the unit acts on, by MSEN, TRNS and the segment half; those it permits go below 2^24 to an address congruent to 256*base + offset; all others keep segment and offset |
| `MmuPort.CollideExactly` | src/mmu.c:129-190 | two permitted accesses share an address exactly when 256*base + offset agrees modulo 2^24 |
| `MmuPort.SegmentsApart` | src/mmu.c:165-190 | segments, ascending or descending, whose page frames lie apart and inside memory never share an address |
| `Mmu.AttrCodec` | src/emu.h:189-198 | an attribute byte survives being split into its flags |
| `Mmu.ProgramSets` | src/mmu.c:271-303 | a descriptor programmed byte by byte through command 0F holds those bytes, its neighbours are untouched, and the pointers stand at the next one |
| `MmuPort.ProgrammedThenUsed` | src/mmu.c:129-303 | four bytes programmed into a descriptor decide where each later access to its segment goes and whether it faults |
| `MmuPort.ProgramByField` | src/mmu.c:276-294 | the same bytes stored field by field, with SAR left alone |
| `MmuPort.SteppingForms` | src/mmu.c:220-303 | commands 0C to 0F do what 08 to 0B do, and step to the next descriptor exactly when the field is finished |
| `MmuPort.ProgramReadsBack` | src/mmu.c:220-303 | a programmed descriptor reads back byte by byte through command 0B |
| `MmuPort.RegistersReadBack` | src/mmu.c:220-275 | mode, SAR and DSC read back what was stored, cut to their widths |
| `MmuPort.InhibitCommands` | src/mmu.c:313-314 | after command 15 every access the unit acts on faults; command 16 changes no answer |
| `MmuPort.ResetPassesThrough` | src/mmu.c:51-62 | from reset every access passes through untranslated; the mode reads 80 and every other register and descriptor byte 0 |
| `MmuPort.StatusAfterEvent` | src/mmu.c:87-258 | after the latch is reset the next violation or warning is what registers 02 to 05 read: its kind, in the order of the ladder, segment, page and bus cycle |
| `MmuPort.KindBits` | src/mmu.c:16-23 | the violation type register holds each kind, FATL and SWW at its bit, for every state |
| `MmuPort.OtherCommands` | src/mmu.c:220-317 | any other command reads 0 and changes nothing |
| `MmuCache.MmuUnit.RefreshFast` | src/mmu.c:41-46 | the entry refreshed matches its descriptor; the others are as before |
| `MmuCache.MmuUnit.Reset` | src/mmu.c:51-62 | the reset state, with the cache coherent |
| `MmuCache.MmuUnit.LatchViol` | src/mmu.c:87-114 | the violation registers edited in place are those of the specification |
| `MmuCache.MmuUnit.Translate` | src/mmu.c:129-190 | with the cache: same address, fault, REF/CHG and violation state as the ladder without it (`Mmu.FaultsExactly`, `MmuPort.TranslatesTo`); cache still coherent |
| `MmuCache.MmuUnit.CmdRead` | src/mmu.c:227-264 | same answer and pointers as the specification |
| `MmuCache.MmuUnit.CmdWrite` | src/mmu.c:271-317 | same state as the specification, cache still coherent |
| `MmuCache.MmuUnit.RunAll` | src/mmu.c:51-317 | over any sequence of resets, commands and translations the cached unit gives the answers and state of the uncached one |
| `Loader.LoutLayout` | src/uexec.c:870-949 | the non-empty groups in order with their seats, no content, or the first group that does not fit, in 32-bit sums; the unbounded layout whenever no sum passes the largest int |
| `Loader.FitsExactly` | src/uexec.c:922-943 | the condition under which the layout is right without more ado is exactly that no 32-bit sum it makes wraps |
| `Loader.OverflowDecides` | src/uexec.c:910-948 | the 32-bit layout decides as it should if and only if every group it gets to fits its sums or is refused by the wrapped sum as well |
| `Loader.HugeBssPlaced` | src/uexec.c:922-943 | a header the size check accepts whose bss needs 0x8001 segments and is laid out in one |
| `Loader.LayoutDecided` | src/uexec.c:910-948 | a layout without wrap-around succeeds exactly when some section has content and the needed segments end inside the 7-bit space |
| `Loader.GroupsExact` | src/uexec.c:870-917 | the groups are those of the link mode that have content, in the order of its table; none exactly when every size is 0 |
| `Loader.SeatsTight` | src/uexec.c:922-947 | the first group starts at the entry point, each later one at offset 0 of the first segment the one before it does not reach |
| `Loader.SectionsAsDocumented` | src/uexec.c:816-841 | in each of the four link modes every byte of every section is at the group and offset the table of link modes gives |
| `Loader.BssAsDocumented` | src/uexec.c:816-841 | each bss goes with the group of its private section |
| `Loader.OneHolder` | src/uexec.c:870-917 | exactly the initialised file bytes are held by the laid-out groups, each by one piece |
| `Loader.GroupsApart` | src/uexec.c:922-947 | each group, bss included, ends before the segment where the next begins |
| `Loader.PlacedAtMostOnce` | src/uexec.c:1056-1066 | only initialised bytes are placed, and none at two addresses |
| `Loader.PlacedSomewhere` | src/uexec.c:1056-1066 | every initialised byte is placed, inside its own group |
| `Loader.SpanFilledBssNot` | src/uexec.c:1056-1066 | exactly a group's initialised span is written; its bss keeps what memory held |
| `Loader.LoadGroup` | src/uexec.c:1056-1066 | copies a group piece by piece and byte by byte, segment numbers modulo 256, refusing a piece outside the file |
| `Loader.CopiedIsSource` | src/uexec.c:1056-1066 | as long as every piece ends inside memory nothing wraps, and the copy is the piece-by-piece placement |
| `Loader.LoadExecutable` | src/uexec.c:1041-1066 | layout and load together: memory then holds the pieces as the layout seats them, addresses taken modulo 2^24, and is otherwise unchanged; for headers whose sums fit an int it succeeds exactly when every group fits the segment space, and every initialised byte is in memory |
| `Loader.LoadedOnce` | src/uexec.c:366-374 | after a load each initialised byte is in memory at exactly one written address |
| `Cpu.ChangeBack` | src/cpu.c:186-197 | changing the FCW and back restores the processor exactly, unless the modes are normal and system-nonsegmented and R14 differs from the stashed segment; what the change in between does is `Cpu.BanksKept` |
| `Cpu.BanksKept` | src/cpu.c:179-197 | a mode change keeps R0 to R13 and both stack pointers, each live in its own mode and stashed otherwise, except that normal straight to system-nonsegmented exchanges the two segment words |
| `Cpu.BanksOverRuns` | src/cpu.c:179-197 | over any sequence of mode changes both stack pointers and R0 to R13 survive, with the segment words exchanged exactly when the number of such crossings is odd |
| `Interrupts.StackedShape` | src/cpu.c:989-1005 | what an entry leaves stacked: PC, FCW and tag in the four words below the system stack pointer |
| `Interrupts.FrameReads` | src/cpu.c:205-215 | the stacked words read back and the words above are unchanged, even across the wrap of the stack segment |
| `Interrupts.Bracket` | src/cpu.c:658-665 | any entry from any of the four modes, any handler that gives back its frame and registers, and a return: registers, both stack pointers, PC and FCW are back, and fully so exactly when the system segment word is canonical |
| `Interrupts.NestedRuns` | src/cpu.c:937-1025 | any well-nested run of traps, interrupts and returns that fits the stack restores the interrupted program and keeps every stacked word |
| `Interrupts.NestedWritesFrames` | src/cpu.c:937-1025 | such a run writes nothing but its own frames below the stack pointer |
| `Interrupts.PriorityTaken` | src/cpu.c:944-965 | a boundary takes something exactly when a source is ready, the highest-priority one, and leaves pending exactly the others that are latched or whose enabled line is up |
| `Entry.StartsHandler` | src/cpu.c:920-1018 | which handler starts: FCW from PSA + 8k + 2 and PC from PSA + 8k + 4, k the place of the source in priority order, or for a vectored interrupt with a nonzero vector v the PC from PSA + 2*(0x1E + v mod 256) |
| `Entry.StacksFrame` | src/cpu.c:989-1005 | from any mode: reason word, FCW, segment word and offset of the PC in the four words just below the system stack pointer, nothing else written; the normal stack pointer and R0 to R13 kept |
| `Entry.StackByMode` | src/cpu.c:179-197 | that stack pointer is the stashed pair from normal mode, and R14 and R15 from system-segmented mode |
| `Entry.ReturnTakes` | src/cpu.c:658-665 | what a return takes off the stack, segmented or not, and that in normal mode it only asks for the privilege trap |
| `BlockOps.Terminates` | src/cpu.c:723-770 | a repeat instruction is finished after at most its count of elements, 0 meaning 65536 |
| `BlockOps.ExecuteIsElements` | src/cpu.c:1194-1210 | one step with the loop in place is one element when a request is pending and otherwise all of them, with the PC rewound or past accordingly |
| `BlockOps.Interleaved` | src/cpu.c:1133-1210 | any interleaving of interrupt runs, rewinds and re-entries is some number of one-element steps: same registers, flags, stack pointers and PC, same memory outside the handlers' frames |
| `BlockOps.Positions` | src/cpu.c:723-770 | after n elements the pointers are n steps on, up or down as `BlockRuns.EndsAt` says, the count n lower, every other register as it was |
| `BlockOps.TransferCopies` | src/cpu.c:723-732 | a block transfer is the sequential element-by-element copy; the direction and the bytes are in `BlockRuns.TransferElementAt` |
| `BlockOps.TransferEnds` | src/cpu.c:723-732 | a repeating transfer does exactly its count of elements and ends with count 0, PV set, other flags kept |
| `BlockOps.CopyMovesAll` | src/cpu.c:723-732 | the sequential copy moves the whole run when no later source or other destination is overwritten |
| `BlockOps.ForwardSafe` | src/cpu.c:723-732 | copying upwards moves the run when the destination starts at or below the source or past its end |
| `BlockOps.CopyFills` | src/cpu.c:723-732 | copying to one element above the source spreads the first element over the run |
| `BlockOps.HitMeans` | src/cpu.c:153-177 | what each relational condition code hits on, as integer relations of the compared operands |
| `BlockOps.CompareStops` | src/cpu.c:737-770 | a repeating compare stops at the first element satisfying the condition code or when the count is used up; Z tells which, PV the count, memory untouched |
| `BlockOps.PreemptsExactly` | src/cpu.c:1194-1201 | the loop in place stops exactly when a boundary would find a request pending, and so whenever it would take one |
| `BlockRuns.EndsAt` | src/cpu.c:55-58 | after n elements every moving pointer is n widths further, up or down, modulo 2^16; count n lower, all other registers as before |
| `BlockRuns.TransferElementAt` | src/cpu.c:723-729 | element i is copied, byte for byte, from i widths along the source to i widths along the destination |
| `BlockRuns.TransferEndsAt` | src/cpu.c:723-732 | a repeating transfer ends with both pointers s + n*w and d + n*w, or minus when going down, modulo 2^16, n 65536 for count 0; the count 0, PV set |
| `BlockRuns.TransferUp` | src/cpu.c:723-732 | LDIR inside its segments: the destination holds the source as it was when it starts at or below it or past its end, and otherwise the bytes between the two over and over; no other byte changes |
| `BlockRuns.TransferDown` | src/cpu.c:723-732 | LDDR: the mirror image, from the last element down |
| `BlockRuns.ComparesAt` | src/cpu.c:737-770 | element i of a compare reads the register, or the first string, and the memory i widths up or down from the start |
| `BlockRuns.FindsFirst` | src/cpu.c:737-770 | a repeating search for an equal or an unequal element stops just past the first one or when the count is used up; Z, PV, pointers, count |
| `Processor.Z8001.ChangeFcw` | src/cpu.c:186-197 | the fields edited in place are the specified state, whose stack pointers are those of `Cpu.BanksKept` |
| `Processor.Z8001.PushWord` | src/cpu.c:205-209 | the specified push |
| `Processor.Z8001.PopWord` | src/cpu.c:211-215 | the specified pop |
| `Processor.Z8001.HandleInterrupts` | src/cpu.c:937-1025 | one boundary as specified: sampled lines, selected source (`Interrupts.PriorityTaken`), handler (`Entry.StartsHandler`), stacked frame (`Entry.StacksFrame`) |
| `Processor.Z8001.ExecIret` | src/cpu.c:658-665 | the specified return (`Entry.ReturnTakes`), or a privilege trap |
| `Processor.Z8001.ExecBlockTransfer` | src/cpu.c:723-732 | one element of the specified transfer (`BlockRuns.TransferElementAt`) |
| `Processor.Z8001.ExecBlockCompare` | src/cpu.c:737-752 | one element of the specified register compare |
| `Processor.Z8001.ExecBlockString` | src/cpu.c:755-770 | one element of the specified string compare |
| `Processor.Z8001.StepBlock` | src/cpu.c:1133-1210 | one step of the processor at a block instruction, with the repeat loop, as specified |

## Left out

- FileIo.WriteThenRead: reading back the data asks that the block addresses fit the 24 bits an inode has for each; what is stored otherwise is described by `InodeTable.TruncatedFits`.
- FileIo.WriteThenRead: excludes writes whose cut spoils the free list and which then want more blocks than there are (`FileIo.Enough`); what those are given depends on what the freed block holds.
- Ownership.ReplaceAllowedExactly: excludes the same writes.
- Ownership.WriteSurvivesRun: asks that the write it follows leave a well-formed free list and that its addresses fit 24 bits.
- Ownership.RunSound: the operations are grow, shrink and write; directories, inode allocation and creating or deleting files are not among them.
- Settled.RunsStayClean: the run is one of successful writes; after a failed write the inode in memory and the one on disk differ until the caller writes it, and the check reads the one on disk.
- BlockOps.Interleaved: the instruction is taken as already decoded and unchanged in memory, and its operands lie outside the handlers' frames.
- BlockOps.ExecuteIsElements: asks that the count register is not one of the advanced pointer registers; with such an encoding the loop in place need not end.
- BlockRuns.TransferUp: the run stays inside its segments, and a run of words does not start one byte above its source; `BlockRuns.TransferElementAt` has neither restriction.
- BlockRuns.TransferDown: likewise, mirrored.
- Clock.SeededWeek: dates outside 2000 to 2099 are not covered; the chip itself counts weekdays whatever the date.
- Interrupts.NestedRuns: the nesting is at most 8192 frames of eight bytes, which is what the 64K stack segment holds.
- Interrupts.Bracket: handlers whose own FCW is not system-segmented are not covered; the program status area is read after the frame is stacked, as in the code.
- Loader.LoutLayout: files of 2^31 bytes or more are not covered; their section offsets do not fit an int.
- Alu.ShiftLeft: covers SLA and SLL; rotates, INC, DEC, NEG, DAB, multiply and divide are not modelled.
- Directories, path lookup, mounts, `alloc_inode`/`free_inode`, host copy-in and copy-out and command lines of the disk tool are left out; the time is an argument of each operation, one reading per top-level operation.
- Failed-allocation rollback in `create_file` is left out.
- `alloc_block` rereads the superblock from the image each time; the model keeps no second copy.
- MMU translation faults during stack pushes and block instructions are left out: the processor runs on plain memory, with the memory management unit modelled beside it.
- The system-call hook that runs before a trap frame is stacked is left out; on a booted machine there is none.
- Instruction fetch and decode, `LDPS`, `LDCTL` and block input/output are left out.
- Debug output, environment variables, breakpoints and the trace ring are left out.
- Bytes fed to a stop mark after it has matched, and direct writes to the clock's registers and post-stage reset, are left out; so are the clock's chip-select counters.
- Disk, serial and network devices, host system calls and the selftests are left out.
