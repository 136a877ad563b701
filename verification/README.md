# Picomimi-x64 resource managers, verified

Picomimi-x64 is an x86-64 kernel. Its resource managers keep fast, bit-level structures that are changed in place:
page-table words, bitmaps, in-band heap headers, masked rings, hashed timer lists. This project models them in Dafny and
proves, over every input and every run, that each behaves like the simple object it stands for.

| file | component | stands for |
|---|---|---|
| `PhysicalMemory`, `PageTables`, `FrameBudget`, `AddressSpace` | frame bitmap, 4-level tables, `mm_copy` | a set of frames, a map from page to leaf word, an account of frames, a deep copy |
| `RingBuffers`, `PipeProtocol` | pipe and socket rings, `pipe_read`/`pipe_write` as interleaved critical sections | a bounded queue of bytes |
| `ByteStore`, `KernelHeap` | `kmalloc`/`kfree` over one byte array | a tiling by blocks |
| `Buddy` | free lists per order | a partition of the zone's pages |
| `UserStack`, `FrameBytes`, `ElfSegments` | initial stack, segment loading | what the ABI's reader finds, the segment images |
| `TimerWheel` | 256-slot wheel | "fire each timer at its tick" |
| `Paths`, `DirectoryListing` | path printer and resolver, `getdents64` | a tree walk, a list of entries |
| `RunQueues`, `QueueOrder`, `Pids`, `Checksum` | O(1) run queue, PID bitmap, IP checksum | per-priority queues served in order, a set, arithmetic modulo 65535 |
| `Words` | C bit operators on machine words | bits and remainders |

Code that updates fields is a class with the same fields; each method is proved against a specification function or an
invariant, and the laws are lemmas about those. A locked section is one atomic step. Machine words are natural numbers
with wrap-around written out where it can happen.

## What the code does differently from what one would expect

Each of these is proved, together with the exact condition under which the code does what it should.

- `pipe_write` goes round its loop with the lock held after a successful `pipe_wait`, and asks for the lock again
  (fs/pipe.c:267-293). The pipe is dead from then on: `PipeProtocol.WedgeExactly`, `WedgedForever`, `WedgeReachable`.
- `schedule_impl` can leave a lone running task in the expired array (kernel/sched.c:296-312), where `dequeue_task` does not
  look. Counts and lists then disagree, and a marked empty queue can hide runnable tasks for ever:
  `RunQueues.StepKeeps`, `MisplacedBreaks`, `PhantomStarves`. `expire_task` also never gives the load back: `RunsAreSafe`.
- `kmalloc` of a size near 2^64 wraps in ALIGN or in the room test and is accepted; what it returns cannot hold the size,
  and the heap is no longer tiled: `KernelHeap.Heap.Kmalloc`, `BumpTestExact`, `AlignWraps`.
- `heap_freed` is not the number of free bytes: not reduced on a split, reduced by a header on a merge. The exact ledger is
  part of `KernelHeap.Heap.Valid`; `LedgerExact` says when it is right, and `FreeBlockForgotten` shows it hiding a free block.
- `pages_free` of a buddy zone grows by the merged size instead of the freed size: `Buddy.Zone.FreePages`.
- A timer late by almost 2^63 ticks turns into a future one before its slot comes round: `TimerWheel.LateTimer`.
- `vmm_get_phys` keeps the NX bit in the address: `PageTables.GetPhysAgrees`.
- `ip_receive` drops a header whose field is the other ones-complement zero: `Checksum.RecomputeVersusSum`.
- `pipe_alloc` never ends for a request above 2^63: `RingBuffers.DoublingEnds`.
- `vmm_alloc_pages` reports success although the last page stayed unmapped for want of a table:
  `ElfSegments.Space.AllocPages`, `SilentlyUnmapped`.
- `elf_load_segment` does not compare filesz with memsz; file bytes past the segment's pages land on whatever is mapped
  there: `ElfSegments.Space.LoadSegment`.
- `kern_path` starts every relative path at the root (fs/vfs.c:440-447), although its comment speaks of the working
  directory: `Paths.WorkingDirectoryIgnored`.
- Without arguments AT_EXECFN is a kernel address (kernel/elf_loader.c:325): `UserStack.BuildUserStack`.

The comment at kernel/timer.c:87 promises one `run_timer_softirq` per tick, and no code calls it; `TimerWheel` models the
promise.

## Model

| member | source | states |
|---|---|---|
| PhysicalMemory.Machine.AllocPage | Picomimi-x64_latest_src/kernel/init.c:312-323 | takes the lowest free frame out of the free set; answers 0 exactly when the set is empty, and then changes nothing |
| PhysicalMemory.Machine.FreePage | Picomimi-x64_latest_src/kernel/init.c:325-337 | adds a managed frame to the free set; a frame outside the managed range is ignored |
| PageTables.WalkersReadLeaf | Picomimi-x64_latest_src/fs/vfs_ops.c:601-637 | on a tree of unshared tables both walkers read one abstract map from user page to leaf word |
| PageTables.Huge2M | Picomimi-x64_latest_src/fs/vfs_ops.c:601-637 | a 2 MB entry maps its aligned range in one piece starting at its frame, and the raw walk returns it |
| PageTables.Huge1G | Picomimi-x64_latest_src/fs/vfs_ops.c:601-637 | a 1 GB entry likewise |
| PageTables.GetPhysAgrees | Picomimi-x64_latest_src/kernel/mmap.c:418-440 | `vmm_get_phys` agrees with the other walker if and only if the leaf is absent or its bits 52-63 are clear, so never on a no-execute page |
| PageTables.GetOrCreateTable | Picomimi-x64_latest_src/kernel/init.c:364-386 | the child table exists afterwards; a missing one costs exactly one free frame and its entry is present, writable and open to user mode; an existing one costs none and its entry gains the user bit and keeps every other; no leaf and no kernel entry of the root changes and no table becomes shared; NULL exactly when the table is missing and no frame is free, and then nothing changes |
| PageTables.MapPageInPgd | Picomimi-x64_latest_src/kernel/init.c:433-448 | maps exactly when virt is not 0 and there are as many free frames as tables missing on the way; then the page reads as the new frame and flags through both walkers, every entry the walk passes is open to user mode, and every other page reads as before; otherwise no translation changes; if all entries to tables were present, writable and open to user mode they still are; the root's kernel half is kept |
| PageTables.OpenSeen | Picomimi-x64_latest_src/kernel/init.c:376-383 | in a tree grown by the kernel the way to every present page has the present, writable and user bits in each entry, so the leaf alone decides |
| PageTables.LeafBits | Picomimi-x64_latest_src/kernel/init.c:422-425 | the leaf bit by bit: low flags as asked plus present, of the high ones only NX |
| PageTables.CountedMeans | Picomimi-x64_latest_src/kernel/init.c:433-448 | the condition known beforehand: the walk down succeeds if and only if the tables missing on the path do not outnumber the free frames, and takes exactly that many |
| FrameBudget.PaidPage | Picomimi-x64_latest_src/kernel/init.c:364-448 | one page of a series keeps the account exact: frames left, pages visited and tables made add up to the frames free at the start, or a frame was refused and there were too few |
| FrameBudget.PaidMeans | Picomimi-x64_latest_src/kernel/init.c:312-323 | over a whole series a frame is refused if and only if visits plus missing tables exceed the frames free at the start |
| AddressSpace.MmAlloc | Picomimi-x64_latest_src/kernel/process.c:382-416 | succeeds exactly when the mm_struct and a frame can be had: a fresh root with an empty user half and the kernel's upper half; otherwise nothing changes |
| AddressSpace.MapAll | Picomimi-x64_latest_src/kernel/init.c:364-448 | from `mm_alloc`, after any sequence of mappings the tables hold what a plain map updated by the requests holds, behind entries that let user accesses and writes through; a request is lost only for page 0 or with no frame left |
| AddressSpace.CopyPage | Picomimi-x64_latest_src/kernel/process.c:485-496 | one page of the copy loop keeps the invariant: the child is a private copy of the parent at the pages passed, its kernel half is kept, and the frames are accounted for; a page refused a frame is missing |
| AddressSpace.CopyVma | Picomimi-x64_latest_src/kernel/process.c:484-497 | the loop over one VMA passes exactly its pages, asks for one frame per page the parent has there, and keeps that invariant |
| AddressSpace.CopyPages | Picomimi-x64_latest_src/kernel/process.c:482-499 | the loop over all VMAs passes exactly the pages inside them; with VMAs that share no page, a refused frame leaves a page missing |
| AddressSpace.CopyStep | Picomimi-x64_latest_src/kernel/process.c:488-496 | copying a frame and mapping it keeps every earlier page of the child, its flags, its contents and the distinctness of frames |
| AddressSpace.MmCopy | Picomimi-x64_latest_src/kernel/process.c:439-502 | the parent's translations and all frames in use before are unchanged; every child page is a parent page inside a VMA with equal bytes, low-12 and NX flags, on a frame free before, no two pages sharing one; the child has the kernel half, and the way to each of its pages lets user accesses and writes through; every present parent page in a VMA but page 0 is copied if the free frames cover root, visits and tables, and for VMAs that share no page only if |
| AddressSpace.CopySettled | Picomimi-x64_latest_src/kernel/process.c:482-499 | the loop is refused a frame if and only if fewer frames were free than root, visits and tables need |
| RingBuffers.MaskIsWrap | Picomimi-x64_latest_src/fs/pipe.c:55-75 | for a power of two, masking the next position is the wrap of a ring |
| RingBuffers.DoublingEnds | Picomimi-x64_latest_src/fs/pipe.c:107-109 | the doubling loop reaches the request if and only if it is at most 2^63; above, the 64-bit size becomes 0 for ever |
| RingBuffers.PipeBuffer.constructor | Picomimi-x64_latest_src/fs/pipe.c:103-119 | the capacity is a power of two from one page to the cap, covers the request unless capped, and is less than twice it |
| RingBuffers.PipeBuffer.Write | Picomimi-x64_latest_src/fs/pipe.c:55-64 | the queue grows by the longest prefix that fits |
| RingBuffers.PipeBuffer.Read | Picomimi-x64_latest_src/fs/pipe.c:66-75 | the oldest bytes are delivered and leave the queue; the rest of the destination is untouched |
| RingBuffers.SockRing.Write | Picomimi-x64_latest_src/net/net_core.c:507-518 | the same bounded queue: grows by the longest prefix that fits |
| RingBuffers.SockRing.Read | Picomimi-x64_latest_src/net/net_core.c:520-534 | the oldest bytes are delivered; a peek changes nothing, a read removes them |
| PipeProtocol.NextKeepsInv | Picomimi-x64_latest_src/fs/pipe.c:204-304 | every critical section of every reader and writer keeps the protocol's invariant |
| PipeProtocol.PipeSafety | Picomimi-x64_latest_src/fs/pipe.c:204-304 | in every interleaving, bytes delivered then buffered are the bytes committed in order; a write of at most 4096 bytes is committed once and whole or not at all; any other write committed exactly the prefix its positive result counts; a read's positive result counts the bytes it got |
| PipeProtocol.AtomicWrite | Picomimi-x64_latest_src/fs/pipe.c:264-293 | a small write is one contiguous commit or none |
| PipeProtocol.FinishedWrite | Picomimi-x64_latest_src/fs/pipe.c:267-303 | the result of a finished write says exactly what was committed |
| PipeProtocol.ReadAnswers | Picomimi-x64_latest_src/fs/pipe.c:214-239 | a reader's section: 0 exactly on an empty pipe without writers, EAGAIN exactly on an empty pipe with writers and O_NONBLOCK, sleep exactly on an empty pipe with writers otherwise; else exactly min(want, buffered) oldest bytes; nobody else's call moves |
| PipeProtocol.WriteAnswers | Picomimi-x64_latest_src/fs/pipe.c:267-303 | a writer's section: commits exactly when there are readers and room, the next bytes that fit, all of them for at most 4096; EPIPE without readers, EAGAIN or sleep without room, or the count so far |
| PipeProtocol.WakeAnswers | Picomimi-x64_latest_src/fs/pipe.c:236-238 | a sleep ends with EINTR on a signal and another round otherwise; the test at the top of a write fails exactly without readers |
| PipeProtocol.ReadReturned | Picomimi-x64_latest_src/fs/pipe.c:204-240 | over every run, a read that returned did so in a step that found what its result says; in particular 0 met an empty pipe without writers |
| PipeProtocol.WriteReturned | Picomimi-x64_latest_src/fs/pipe.c:246-304 | over every run, a write that returned did so in a step that found what its result says; less than the length only for more than 4096 bytes |
| PipeProtocol.CallMade | Picomimi-x64_latest_src/fs/pipe.c:204-262 | every call under way was made with the arguments it has |
| PipeProtocol.WedgeExactly | Picomimi-x64_latest_src/fs/pipe.c:267-293 | a step leaves the pipe's lock held for good if and only if a sleeping writer wakes without a signal |
| PipeProtocol.WedgedForever | Picomimi-x64_latest_src/fs/pipe.c:267-293 | from then on no interleaving moves another byte |
| PipeProtocol.NonblockingNeverWedges | Picomimi-x64_latest_src/fs/pipe.c:282-285 | with O_NONBLOCK on every write the lock is free after every run |
| PipeProtocol.WedgeReachable | Picomimi-x64_latest_src/fs/pipe.c:286-292 | for every capacity, filling the pipe, blocking a writer, draining and waking it reaches the dead state |
| KernelHeap.LivePayloadsDisjoint | Picomimi-x64_latest_src/kernel/init.c:531-588 | live payloads lie inside the heap and are pairwise disjoint |
| KernelHeap.TilesPrefix | Picomimi-x64_latest_src/kernel/init.c:551-573 | the header bytes determine the tiling: of two tilings from one offset the shorter is a prefix of the longer |
| KernelHeap.BumpTestExact | Picomimi-x64_latest_src/kernel/init.c:531-541 | the room test is right if and only if its 64-bit sum does not wrap; a wrapped sum is always accepted |
| KernelHeap.AlignWraps | Picomimi-x64_latest_src/kernel/init.c:545 | a size within 15 bytes of 2^64 is aligned to 0 |
| KernelHeap.ZeroSplitBreaks | Picomimi-x64_latest_src/kernel/init.c:556-562 | splitting 0 bytes off a block leaves a header of size 0 that no tiling passes |
| KernelHeap.WrapBreaks | Picomimi-x64_latest_src/kernel/init.c:531-541 | a wrapped bump moves backwards and takes more off heap_used than all the blocks it drops, so no tiling accounts for it |
| KernelHeap.Heap.constructor | Picomimi-x64_latest_src/kernel/init.c:523-528 | the empty heap is tiled; heap_bump, heap_used and heap_freed are 0, with no merge or split behind them |
| KernelHeap.Heap.SlabBump | Picomimi-x64_latest_src/kernel/init.c:531-541 | for every 64-bit size: NULL exactly when the 64-bit room test fails; otherwise the header is written at the bump and bump and heap_used move modulo 2^64; a non-empty block whose sum does not wrap extends the tiling, an empty or wrapped one leaves bytes and counters that no list of blocks explains |
| KernelHeap.Heap.Search | Picomimi-x64_latest_src/kernel/init.c:550-574 | walking the headers in memory finds the first free block that is large enough |
| KernelHeap.Heap.TakeBlock | Picomimi-x64_latest_src/kernel/init.c:554-572 | split or taken whole; heap_freed is left alone by a split and loses the block's size otherwise; nothing outside the block is written; the tiling is kept unless 0 bytes are split off, and then lost |
| KernelHeap.Heap.AllocBlock | Picomimi-x64_latest_src/kernel/init.c:547-579 | first fit when anything is believed free, else the virgin region; NULL exactly when both fail, then nothing changes; otherwise place, bump, heap_freed and blocks |
| KernelHeap.Heap.Kmalloc | Picomimi-x64_latest_src/kernel/init.c:543-588 | for a size that does not wrap: NULL exactly for size 0 or when the virgin region is too small and either heap_freed is 0 or no free block fits; otherwise one new live payload that holds the request, zeroed on demand. For every size: no byte of an older payload is written, the change of heap_freed is given, what is returned fits the heap if and only if nothing wrapped, and the heap stays in order if and only if nothing wrapped, NULL was returned, or a wrapped request took a whole free block |
| KernelHeap.Heap.Kfree | Picomimi-x64_latest_src/kernel/init.c:597-633 | removes exactly that payload from the live ones and merges forward; heap_freed gains the size, less 8 on a merge, modulo 2^64; NULL and a double free change nothing; tiling and heap_used kept, other payloads untouched |
| KernelHeap.Heap.ClientWrite | Picomimi-x64_latest_src/kernel/init.c:531-633 | any byte stored in a live payload, even one that looks like a header, keeps the tiling |
| KernelHeap.Heap.LedgerExact | Picomimi-x64_latest_src/kernel/init.c:556-565 | heap_freed is the number of free bytes if and only if 16 per merge and size + 8 per split cancel out modulo 2^64 |
| KernelHeap.FreeBlockForgotten | Picomimi-x64_latest_src/kernel/init.c:549-578 | a run of seven calls leaves heap_freed 0 with a 16-byte block free, and the next kmalloc(16) takes virgin memory |
| Buddy.SplitPacked | Picomimi-x64_latest_src/mm/advanced_mm.c:292-301 | halving a block keeps aligned, disjoint blocks that cover exactly the seeded pages |
| Buddy.MergePacked | Picomimi-x64_latest_src/mm/advanced_mm.c:373-383 | joining a block and its XOR buddy keeps them too |
| Buddy.SplitKeeps | Picomimi-x64_latest_src/mm/advanced_mm.c:292-301 | the whole split loop keeps free and live blocks a partition of the zone, the wanted block ending live |
| Buddy.MergeKeeps | Picomimi-x64_latest_src/mm/advanced_mm.c:353-389 | the whole merge loop keeps the partition, the freed block becoming free |
| Buddy.MergeUndoesSplit | Picomimi-x64_latest_src/mm/advanced_mm.c:292-301 | freeing a block just split off retraces the splits, list by list |
| Buddy.AllocFreeRoundTrip | Picomimi-x64_latest_src/mm/advanced_mm.c:280-395 | in a zone without free buddy pairs, allocating any order and freeing it restores every list exactly |
| Buddy.SplitKeepsNoPair | Picomimi-x64_latest_src/mm/advanced_mm.c:280-312 | allocation keeps the absence of free buddy pairs |
| Buddy.MergeKeepsNoPair | Picomimi-x64_latest_src/mm/advanced_mm.c:354-389 | freeing keeps the absence of free buddy pairs |
| Buddy.SeededInv | Picomimi-x64_latest_src/mm/advanced_mm.c:1018-1024 | the seeded pages partition the zone |
| Buddy.SeededNoPair | Picomimi-x64_latest_src/mm/advanced_mm.c:1018-1024 | seeding leaves no free buddy pair if and only if the zone has at most one page, or two starting at an odd one |
| Buddy.PagesSplit | Picomimi-x64_latest_src/mm/advanced_mm.c:293-301 | splitting changes the sum of nr_free * 2^k by exactly the part put back |
| Buddy.PagesMerge | Picomimi-x64_latest_src/mm/advanced_mm.c:354-389 | merging adds exactly the freed block's pages to that sum |
| Buddy.Zone.constructor | Picomimi-x64_latest_src/mm/advanced_mm.c:993-1024 | a zone starts with exactly its pages free, each at order 0 |
| Buddy.Zone.SeedPages | Picomimi-x64_latest_src/mm/advanced_mm.c:1018-1024 | every page once on order 0, nr_free counting them |
| Buddy.Zone.AllocPages | Picomimi-x64_latest_src/mm/advanced_mm.c:276-316 | NULL exactly when no list from the order up has a block; otherwise the first block of the smallest such list, split, becomes live; partition, nr_free and pages_free kept |
| Buddy.Zone.FreePages | Picomimi-x64_latest_src/mm/advanced_mm.c:347-395 | the block leaves the live ones; partition and nr_free kept; pages_free drifts by exactly 2^final - 2^original |
| UserStack.PushStrings | Picomimi-x64_latest_src/kernel/elf_loader.c:236-242 | the strings end up in order and back to back below sp, at the returned pointers, nothing above written |
| UserStack.FindPhdrs | Picomimi-x64_latest_src/kernel/elf_loader.c:312-322 | AT_PHDR comes from the first PT_LOAD header, else from the file offset, modulo 2^64 |
| UserStack.PushAuxv | Picomimi-x64_latest_src/kernel/elf_loader.c:293-327 | the pushes lay out exactly the 14 pairs and AT_NULL in reading order, nothing above written |
| UserStack.AuxvSays | Picomimi-x64_latest_src/kernel/elf_loader.c:293-326 | the value a program looks up under each of the 14 types |
| UserStack.AlignForWords | Picomimi-x64_latest_src/kernel/elf_loader.c:277-288 | after rounding and padding, pushing all words ends on a multiple of 16 |
| UserStack.PlaceStrings | Picomimi-x64_latest_src/kernel/elf_loader.c:244-275 | platform string, random bytes and all strings are placed without overlap |
| UserStack.PlaceWords | Picomimi-x64_latest_src/kernel/elf_loader.c:290-342 | argc, both pointer vectors with their terminators and the auxiliary vector lie in order from the new sp |
| UserStack.ReadBack | Picomimi-x64_latest_src/kernel/elf_loader.c:180-194 | a program reading upward from rsp, as section 3.4.1 of the System V ABI AMD64 supplement says, finds argc, argv, envp and auxv |
| UserStack.ImageLayout | Picomimi-x64_latest_src/kernel/elf_loader.c:181-194 | what reading the image means word by word above rsp: argc, argument pointers in order, null, environment pointers, null, pairs up to a null type |
| UserStack.BuildUserStack | Picomimi-x64_latest_src/kernel/elf_loader.c:196-349 | for all arguments that fit, reading the finished stack from rsp gives back argc, every string, and the auxiliary vector; rsp is a multiple of 16; AT_EXECFN points to argv[0], or into the kernel without arguments |
| FrameBytes.BytesOfPageOf | Picomimi-x64_latest_src/kernel/elf_loader.c:143-147 | bytes stored in a frame and read back through its page-table words are the same bytes |
| ElfSegments.WalkIs | Picomimi-x64_latest_src/fs/vfs_ops.c:619-637 | for a data frame map that refines the tables, the walk finds exactly the map's frame and offset, or 0 |
| ElfSegments.StoreApart | Picomimi-x64_latest_src/kernel/elf_loader.c:124-155 | a store into a frame that is no table changes no table and no translation |
| ElfSegments.MapInTables | Picomimi-x64_latest_src/kernel/init.c:391-426 | mapping in the page tables updates the map from page to leaf word at one page exactly when the missing tables can be had, and writes no data frame |
| ElfSegments.FlagsAllow | Picomimi-x64_latest_src/fs/vfs_ops.c:723-726 | the flags made of a protection allow user access, writing and execution exactly as it asks |
| ElfSegments.Space.MapPage | Picomimi-x64_latest_src/kernel/init.c:391-426 | the page is mapped if and only if it is not page 0 and the tables missing on its way do not outnumber the free frames; mapped frames stay apart from tables and free frames; other pages and their bytes are untouched |
| ElfSegments.Space.AllocPages | Picomimi-x64_latest_src/fs/vfs_ops.c:720-736 | reports success if and only if the free frames cover the pages and all tables but those of the last page; then the whole range is mapped if and only if they cover these too; distinct fresh frames, carrying the flags of the protection; other pages untouched |
| ElfSegments.SilentlyUnmapped | Picomimi-x64_latest_src/fs/vfs_ops.c:720-736 | with two free frames, success is reported for any one page of a new address space and the walk does not find the page |
| ElfSegments.Space.ZeroPages | Picomimi-x64_latest_src/kernel/elf_loader.c:124-128 | every page of the range that the walk finds is zero, no other frame is written and the tables stay a tree |
| ElfSegments.Space.CopyFile | Picomimi-x64_latest_src/kernel/elf_loader.c:130-155 | for any pattern of short reads, success leaves exactly the file bytes with zero around them, on frames no other page uses; the last file byte is where it was sent in any case; tables and translations are untouched |
| ElfSegments.Space.LoadSegment | Picomimi-x64_latest_src/kernel/elf_loader.c:83-158 | as the page-table walk finds it: success leaves file bytes at [vaddr, vaddr + filesz), all mapped, and zero elsewhere in the mapped pages; all pages, and so [vaddr, vaddr + memsz), are mapped if and only if the frames sufficed, and too few for the pages give ENOMEM; the pages are open to user mode, writable exactly with PF_W and executable exactly with PF_X; while the file bytes stay on the segment's pages, as filesz <= memsz ensures, nothing outside them changes whatever the outcome; file bytes past them overwrite a page of something else; a segment in page 0 is refused |
| ElfSegments.Space.LoadAll | Picomimi-x64_latest_src/kernel/exec.c:310-317 | segments on disjoint pages, file bytes on their own pages, load as the union of their images, as the walk finds them; every other address translates and reads as before |
| TimerWheel.NextKeepsInv | Picomimi-x64_latest_src/kernel/timer.c:111-169 | every pending timer is once on the list of its slot and nowhere else, after any step |
| TimerWheel.AfterMod | Picomimi-x64_latest_src/kernel/timer.c:120-128 | after `mod_timer` the timer is pending with the new expiry and its old function, and nothing else has changed |
| TimerWheel.AfterAdd | Picomimi-x64_latest_src/kernel/timer.c:111-118 | after `add_timer` of a timer not pending it is pending with its expiry exactly if it has a function |
| TimerWheel.AfterDel | Picomimi-x64_latest_src/kernel/timer.c:130-137 | after `del_timer` the timer is not pending, and nothing else has changed |
| TimerWheel.FiresOnTime | Picomimi-x64_latest_src/kernel/timer.c:111-169 | over any run that leaves it alone, a timer armed for a future tick is called exactly once, at exactly that tick |
| TimerWheel.ModFires | Picomimi-x64_latest_src/kernel/timer.c:120-169 | after `mod_timer` to a future tick, over any run that leaves the timer alone, exactly one call, at exactly that tick |
| TimerWheel.AddFires | Picomimi-x64_latest_src/kernel/timer.c:111-169 | after `add_timer` likewise |
| TimerWheel.DelSilences | Picomimi-x64_latest_src/kernel/timer.c:130-169 | after `del_timer` no call until the timer is armed again |
| TimerWheel.LateTimer | Picomimi-x64_latest_src/kernel/timer.c:144-169 | a timer armed at or before now is called at its slot's next turn, within 256 ticks, if and only if its lateness stays below 2^63 until then |
| TimerWheel.CalledInOrder | Picomimi-x64_latest_src/kernel/timer.c:111-169 | over any run, the functions called at one tick are called in the order in which their timers were armed |
| TimerWheel.TimerBase.AddTimer | Picomimi-x64_latest_src/kernel/timer.c:111-118 | the wheel takes the step `Add`; a timer without a function is not armed |
| TimerWheel.TimerBase.ModTimer | Picomimi-x64_latest_src/kernel/timer.c:120-128 | the wheel takes the step `Mod`: moved from its slot to the new one |
| TimerWheel.TimerBase.DelTimer | Picomimi-x64_latest_src/kernel/timer.c:130-137 | the wheel takes the step `Del`; the result says whether it was pending |
| TimerWheel.TimerBase.WalkSlot | Picomimi-x64_latest_src/kernel/timer.c:144-169 | the entries due are unlinked and called in list order, the others stay in order |
| TimerWheel.TimerBase.TickInterrupt | Picomimi-x64_latest_src/kernel/timer.c:143-169 | the wheel takes the step `Advance` |
| Paths.PrintResolve | Picomimi-x64_latest_src/fs/vfs_ops.c:64-92 | resolving the printed path of any dentry gives that dentry back |
| Paths.DentryPathRaw | Picomimi-x64_latest_src/fs/vfs_ops.c:64-92 | the buffer holds the path and its NUL at the returned place; NULL exactly when path and NUL do not fit; nothing beyond the buffer length is written |
| Paths.DLookup | Picomimi-x64_latest_src/fs/vfs.c:340-358 | the first child on the list with the name, or none exactly when no child has it |
| Paths.KernPath | Picomimi-x64_latest_src/fs/vfs.c:433-508 | the walk of the path's components from the root, dot, dot-dot, repeated slashes and LOOKUP_PARENT included, with the same error |
| Paths.DotDot | Picomimi-x64_latest_src/fs/vfs.c:468-482 | whatever a path leads to, followed by dot-dot it leads to the parent, the root staying the root; dot and trailing slashes change nothing |
| Paths.PrintedDotDot | Picomimi-x64_latest_src/fs/vfs.c:474-482 | the printed path of a dentry followed by dot-dot is its parent, by dot the dentry |
| Paths.DownAndUp | Picomimi-x64_latest_src/fs/vfs.c:474-504 | a child's name followed by dot-dot cancels, after any path |
| Paths.SlashesCollapse | Picomimi-x64_latest_src/fs/vfs.c:450-453 | repeated slashes count once, leading ones not at all |
| Paths.NameLookup | Picomimi-x64_latest_src/fs/vfs.c:484-490 | a plain name leads to the child that bears it, or to ENOENT exactly when none does; nothing comes after a failure |
| Paths.ParentLookup | Picomimi-x64_latest_src/fs/vfs.c:460-466 | LOOKUP_PARENT answers what the path without its last component leads to, trailing slashes included |
| Paths.AtResolve | Picomimi-x64_latest_src/kernel/at_syscalls.c:35-70 | which error or which walk results from the descriptor, the printed base path and the path name |
| Paths.AtResolveWalksFromBase | Picomimi-x64_latest_src/kernel/at_syscalls.c:49-65 | a relative path ends where walking it from the base directory ends, except LOOKUP_PARENT of a path without components, which answers the base's parent |
| Paths.AtDotDot | Picomimi-x64_latest_src/kernel/at_syscalls.c:49-65 | dot-dot relative to a directory is its parent |
| Paths.WorkingDirectoryIgnored | Picomimi-x64_latest_src/fs/vfs.c:440-447 | relative paths resolve as from the working directory if and only if that is the root |
| DirectoryListing.ParseBack | Picomimi-x64_latest_src/kernel/fs_syscalls.c:48-74 | records walked by d_reclen read back as the entries written |
| DirectoryListing.FillDir | Picomimi-x64_latest_src/kernel/fs_syscalls.c:48-74 | refuses exactly when the record does not fit; otherwise appends that record and keeps the bytes before it |
| DirectoryListing.DTypeIs | Picomimi-x64_latest_src/fs/ramfs.c:325-333 | the type is the S_IFMT bits shifted down for the seven types there are, else unknown |
| DirectoryListing.RecLenIs | Picomimi-x64_latest_src/kernel/fs_syscalls.c:52-54 | the record length is the least multiple of 8 that holds the fields, the name and its NUL |
| DirectoryListing.ReadChildren | Picomimi-x64_latest_src/fs/ramfs.c:307-342 | from any f_pos, records of the remaining children in order until one does not fit; f_pos stops right there |
| DirectoryListing.ReadDir | Picomimi-x64_latest_src/fs/ramfs.c:281-345 | the same with "." and ".." first |
| DirectoryListing.SysGetdents64 | Picomimi-x64_latest_src/kernel/fs_syscalls.c:76-147 | the bytes returned parse to as many remaining entries as fit; -EINVAL exactly when something remains and nothing fits; 0 exactly at the end |
| DirectoryListing.ListingResumes | Picomimi-x64_latest_src/fs/ramfs.c:281-345 | however the buffers are cut, entries returned followed by entries remaining is the listing: nothing lost, nothing repeated |
| DirectoryListing.ListingEnds | Picomimi-x64_latest_src/fs/ramfs.c:281-345 | if each buffer fits the next entry, at most one call per entry returns the whole listing |
| DirectoryListing.WholeListing | Picomimi-x64_latest_src/fs/ramfs.c:286-342 | the listing is ".", ".." and as many entries as children with an inode, that of each child at the place given by the number of such children before it |
| DirectoryListing.ListAll | Picomimi-x64_latest_src/kernel/fs_syscalls.c:76-147 | a program that calls until 0 bytes come back and parses what it reads has the whole listing, whenever its buffer holds the largest record |
| RunQueues.FindFirstSetBit | Picomimi-x64_latest_src/kernel/sched.c:87-94 | the lowest set bit of the whole map, or -1 exactly when there is none |
| RunQueues.SetPrioBit | Picomimi-x64_latest_src/kernel/sched.c:96-98 | adds exactly that bit |
| RunQueues.ClearPrioBit | Picomimi-x64_latest_src/kernel/sched.c:100-102 | removes exactly that bit |
| RunQueues.EnqueueKeeps | Picomimi-x64_latest_src/kernel/sched.c:158-173 | enqueuing keeps bit, list, count and nr_running in agreement |
| RunQueues.DequeueKeeps | Picomimi-x64_latest_src/kernel/sched.c:175-192 | so does dequeuing a task that is in the active array |
| RunQueues.ExpireKeeps | Picomimi-x64_latest_src/kernel/sched.c:195-211 | so does expiring a task that was dequeued |
| RunQueues.SwapKeeps | Picomimi-x64_latest_src/kernel/sched.c:214-225 | so does swapping the arrays |
| RunQueues.PickNextTask | Picomimi-x64_latest_src/kernel/sched.c:245-270 | the task picked is the oldest of the smallest non-empty active priority, else of the expired array, else idle, and is then in the active array |
| RunQueues.StepKeeps | Picomimi-x64_latest_src/kernel/sched.c:273-350 | any wake-up, departure or scheduling decision keeps the agreement, and leaves the running task where dequeue expects it if and only if it did not expire a lone task |
| RunQueues.RunsAreSafe | Picomimi-x64_latest_src/kernel/sched.c:158-312 | over every run without a lone expiry all states agree, and load is the weight of the queued tasks less the weights of all expiries so far, modulo 2^64 |
| QueueOrder.OrderedRun | Picomimi-x64_latest_src/kernel/sched.c:158-211 | over every run without a lone expiry, both arrays list the tasks of each priority in the order of the events that last queued them |
| QueueOrder.DecideRuns | Picomimi-x64_latest_src/kernel/sched.c:245-317 | in terms of the state before it, a decision runs the most urgent waiting active task, among equals the one queued first; with none there the same of the expired ones; with none at all nothing changes hands |
| QueueOrder.DecideKeepsTasks | Picomimi-x64_latest_src/kernel/sched.c:286-306 | the running task goes back to a queue exactly if runnable, the expired one exactly if its slice is up; no other task leaves or joins |
| QueueOrder.FirstComeFirstServed | Picomimi-x64_latest_src/kernel/sched.c:158-270 | over every such run, of two waiting active tasks of one priority the one queued later is not run |
| QueueOrder.TwoInTurn | Picomimi-x64_latest_src/kernel/sched.c:234-270 | two tasks woken one after the other run in that order |
| RunQueues.MisplacedBreaks | Picomimi-x64_latest_src/kernel/sched.c:175-192 | once the running task sits in the expired array, the next decision always leaves a count that differs from its list |
| RunQueues.HauntedRun | Picomimi-x64_latest_src/kernel/sched.c:245-270 | while a priority is marked and empty, whatever other tasks do, the arrays are not swapped and only more urgent tasks are picked |
| RunQueues.PhantomStarves | Picomimi-x64_latest_src/kernel/sched.c:286-317 | from every state where a task runs alone, yielding, being rescheduled and sleeping leaves a marked empty queue; over every later run of wake-ups, migrations and decisions in which no task of that priority stirs, a less urgent runnable task is never picked |
| RunQueues.LoneReachable | Picomimi-x64_latest_src/kernel/sched.c:234-270 | waking one task on an empty queue and deciding leads to such a state |
| RunQueues.MigrateConserves | Picomimi-x64_latest_src/kernel/sched.c:563-584 | moving a task conserves queued tasks, nr_running and load of the two CPUs together |
| RunQueues.TaskMigrate | Picomimi-x64_latest_src/kernel/sched.c:563-584 | the two queues in place: both stay in agreement, the task changes queue, totals are conserved; a task off the queue is only added |
| RunQueues.RunQueue.EnqueueTask | Picomimi-x64_latest_src/kernel/sched.c:158-173 | the new state is `Enqueue` of the old |
| RunQueues.RunQueue.DequeueTask | Picomimi-x64_latest_src/kernel/sched.c:175-192 | the new state is `Dequeue` of the old, count and bit always those of the active array |
| RunQueues.RunQueue.ExpireTask | Picomimi-x64_latest_src/kernel/sched.c:195-211 | the new state is `Expire` of the old, load unchanged |
| RunQueues.RunQueue.SwapArrays | Picomimi-x64_latest_src/kernel/sched.c:214-225 | arrays and bitmaps are exchanged word by word |
| RunQueues.RunQueue.PickNext | Picomimi-x64_latest_src/kernel/sched.c:245-270 | swaps exactly when only the expired map has a bit, and returns the first task of the lowest bit's queue |
| RunQueues.RunQueue.ScheduleImpl | Picomimi-x64_latest_src/kernel/sched.c:273-317 | dequeue, pick and requeue up to the context switch are the step `Schedule` |
| Pids.WrapReturnsOnlyAbove | Picomimi-x64_latest_src/kernel/process.c:113-133 | the search comes back to its start if and only if the start is at least RESERVED_PIDS |
| Pids.PidAllocator.constructor | Picomimi-x64_latest_src/kernel/process.c:1025-1026 | PID 0 is reserved, all others are free |
| Pids.PidAllocator.ReserveInit | Picomimi-x64_latest_src/kernel/process.c:1053-1054 | exactly PID 1 is added |
| Pids.PidAllocator.AllocPid | Picomimi-x64_latest_src/kernel/process.c:110-135 | always ends; -1 exactly when every PID from RESERVED_PIDS up is taken; otherwise the first unused PID in search order, then in use; nothing else changes |
| Pids.PidAllocator.FreePid | Picomimi-x64_latest_src/kernel/process.c:137-145 | clears exactly that PID; reserved and out-of-range PIDs are ignored |
| Checksum.IpChecksum | Picomimi-x64_latest_src/net/net_core.c:112-119 | ends, and returns the complement of the 16-bit ones-complement value of the words' sum, modulo 2^32 |
| Checksum.OddTail | Picomimi-x64_latest_src/net/net_core.c:115-116 | an odd last byte counts as if a zero byte followed |
| Checksum.SumJoins | Picomimi-x64_latest_src/net/net_core.c:115-116 | the words of two parts add up when the first has even length |
| Checksum.ExactUnlessWrapped | Picomimi-x64_latest_src/net/net_core.c:112-119 | the checksum complements the true sum modulo 65535 if and only if the 32-bit accumulator did not wrap |
| Checksum.SealedSumsToZero | Picomimi-x64_latest_src/net/net_core.c:289-300 | storing the checksum computed with the field zero makes the checksum of the whole 0, for every length |
| Checksum.RecomputeVersusSum | Picomimi-x64_latest_src/net/net_core.c:335-342 | recomputing and comparing accepts what summing to zero accepts, except a field of 0xFFFF where 0 is computed |
| Checksum.SecondZeroDropped | Picomimi-x64_latest_src/net/net_core.c:335-342 | such a header sums to zero and is dropped |
| Checksum.ZeroChecksumHeader | Picomimi-x64_latest_src/net/net_core.c:335-342 | a header for which 0 is computed |
| Checksum.IpReceive | Picomimi-x64_latest_src/net/net_core.c:328-342 | accepts exactly on length, header length and recomputed checksum, restoring the field; a bad checksum leaves the field zero |
| Checksum.IpSendHeader | Picomimi-x64_latest_src/net/net_core.c:279-300 | the header's fields, the payload untouched, a checksum over the header of 0, and `ip_receive` accepts it |

## Left out

- KernelHeap.Heap.Kmalloc: leaves out a wrapped request on a completely full heap, and one with __GFP_ZERO: the first writes its header, the second its zeros, past the end of the heap array.
- KernelHeap.Heap.Kfree: covers NULL, live and already freed blocks; a pointer that is no payload start, with the "corrupt header" message, is not modelled.
- RingBuffers.PipeBuffer.constructor: asks for a size of at most 2^63, beyond which the sizing loop does not end (DoublingEnds).
- AddressSpace.MmCopy: VMAs are a list of values; the `prev` links, which the code sets to NULL, and the locks and counters of `mm_struct` are not modelled. That a whole copy needs all the frames is stated for VMAs that share no page and leave page 0 alone, because a second visit of a page may be refused without harm.
- AddressSpace.MapAll: a client of the mapping function, not a loop of the kernel; DirectoryListing.ListAll, KernelHeap.FreeBlockForgotten and ElfSegments.SilentlyUnmapped are clients too.
- PageTables.MapPageInPgd: user addresses only; TLB flushes are left out, and huge pages are read by the walkers but never occur in a tree the kernel grew.
- ElfSegments.Space.LoadSegment: 64-bit wrap of segment addresses, addresses in the kernel half and VMA registration are not modelled; `vfs_read` is any short read of an unchanging file.
- UserStack.BuildUserStack: the stack pages are given; allocation failures before the first push, and strings that do not fit the 2 MB stack, are not modelled.
- Buddy.Zone.FreePages: only for blocks that were handed out; the global page counter, page flags and reference counts are not modelled, and lists are sequences rather than linked nodes.
- TimerWheel.TimerBase.AddTimer: only for a timer that is not pending; adding one twice corrupts the list.
- TimerWheel.TimerBase.TickInterrupt: callbacks do not touch the wheel while the softirq runs; re-arming is a later step.
- Paths.KernPath: components that exist in the dentry cache; mounts, symlinks, the filesystem's own lookup and the negative dentry a failed lookup leaves behind are not modelled.
- Paths.AtResolve: the descriptor lookup and allocation failures are left out.
- DirectoryListing.SysGetdents64: directories with a `readdir` operation; the fallback that synthesizes entries, the descriptor lookup and the error of a foreign `readdir` are left out.
- RunQueues.RunQueue.DequeueTask: a task is queued under the priority it was enqueued with; `list_del` of a task on no list is undefined in the kernel and does nothing here. `nr_migrations`, `nr_switches` and the clock are left out.
- RunQueues.RunQueue.ScheduleImpl: task state and time slice are inputs; NULL and the idle task are one value; the context switch is left out.
- Pipes: wake-ups are steps that may happen at any time, so only safety is stated; the reader and writer counts are inputs because `fput` never calls `release`.
- `pmm_state`'s byte counters, the early reservation of memory and the `vmm_map_page` branch for kernel addresses.
- `sys_munmap`, the shrinking half of `sys_brk`, copy-on-write, futexes, `sched_hyper.c`, load-balancing policy, TCP, UDP, ARP and the socket table.
- Signals, sleeping, spin-lock internals, MSRs, inline assembly, procfs, sysfs, devfs, character devices, the shell and boot code.
