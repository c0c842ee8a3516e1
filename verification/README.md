# A verified model of the kernel's hard parts

This project models, in Dafny 4.11, the parts of a Pintos kernel that are easiest to get
wrong, and proves what they promise: the buffer cache and its read/write lock, paging and
swap, the page and block allocators, 64-bit division, the list sort and the hash table,
semaphores, the exit/wait protocol, argument passing, files over the disk, and ustar
headers. `dafny verify dfyconfig.toml` checks all of it.

Two kinds of model are used.

* Protocols between threads are step systems. A state holds the shared variables and one
  program counter per thread; each lock operation, each access to a shared field and each
  device transfer is a step; steps of any number of threads interleave freely. What is
  proved is an invariant of every step, and from it a statement about every run.
  (`RwLock`, `BufferCache`, `Paging` with `PagingCases`, `SwapTransfers`, `Semaphores`,
  `ExitWait`.)
* Sequential code is imperative Dafny: classes whose fields the methods change, arrays
  changed in place, linked elements with `prev` and `next`, loops with invariants. Each method
  is tied to a specification function or states its result outright, and the laws are lemmas
  about those functions. (`Clocks`, `Arithmetic`, `Swap`, `Bitmaps`, `Pages`, `Heap` with
  `MallocCode`, `Sorting` with `Lists`, `Hash`, `FileSys` with `Files`, `Inodes`
  with `Stores`, `Argv`, `Ustar`.)

How the pieces fit: the cache is proved over the atomic lock of `AtomicLock`, and `RwLock`
proves that the three-semaphore lock refines that atomic lock. `RwLock` in turn takes each
semaphore operation as one step; `Semaphores` proves what blocking and waking make of the
value. Paging takes a page-out or a page-in of swap as one step, and `SwapTransfers` proves
that transfers which interleave sector by sector give every page back unchanged. Files are
read and written on the plain disk that the cache is proved to be.

## Where the code falls short of its own promises

Each of these is kept as the code has it, with the exact condition proved and an input that
fails.

* `umod64` returns 32 bits of its remainder: right for every dividend just when the divisor
  is at most 2^32 (`Arithmetic.Umod64Exact`). `sdiv64` truncates toward zero except for
  INT64_MIN / -1 (`Arithmetic.Sdiv64`).
* `malloc` adds the arena header and rounds up in 32 bits: a block is as large as asked for
  just when the size is at most 2^32 - 12 (`Heap.MallocSize`, over runs `Heap.RunHolds`), and
  2^32 - 1 bytes are served with one page (`Heap.MallocWraps`). `realloc` has room for what it
  copies just when the size is at most 2^32 - 12 or the old block fits in a page
  (`Heap.CopyFits`); `Heap.ReallocOverruns` is a case where it has not.
* A dirty memory-mapped page that is evicted comes back whole just when the bytes behind the
  mapping are zero (`Paging.TailLost`); one of a file closed to writing comes back as it was
  just when it was as the file has it (`Paging.DeniedLost`); and a page that reads bytes which
  another page maps comes back as the file was just when the other page has not changed them
  (`Paging.SharedBytesChange`). `PagingCases` has the runs. Pages of the last two kinds, and
  pages whose file bytes are written by an ordinary write, are called exposed; the main theorem
  is about the others, among them all pages of running programs (`Paging.ProgramRuns`).
* The swap slot of a page is lost on exit just when the page is in swap
  (`Paging.ForgetLoses`), and a lost slot is never used again (`Paging.LostForGood`).
* `filesys_create` that fails leaves the free map as it was just when it had not yet taken
  sectors for the data (`FileSys.CreateFails`); creating an existing name loses them
  (`FileSys.TakenNameLeaks`).
* The check of `start_process` counts one terminator too few: a command line that passes it
  fits on the stack page unless it fills the page to the last byte by that count and has no
  space to spare (`Argv.CheckExact`, with an input in `Argv.CheckFails`).
* The comment on `bitmap_scan_and_flip` says that a count of zero returns 0; the code returns
  the start index, and so 0 just when it starts there (`Bitmaps.ScanZero`). All callers do.

## Model

| member | source | states |
|---|---|---|
| RwLock.StepInv | src/threads/synch.c:511-569 | Every step of every thread keeps the token accounting: each semaphore plus the threads that own its unit is one, and the reader count is the number of counted readers, also while the last reader has decremented but not yet released. |
| RwLock.Exclusion | src/threads/synch.c:511-569 | A writer is alone and readers exclude writers, for any number of threads. |
| RwLock.StepRefines | src/threads/synch.c:511-569 | Each step of the three-semaphore lock is a step of an atomic lock: write access is gained only when nobody holds it, read access only when nobody writes. |
| RwLock.RunSafe | src/threads/synch.c:511-569 | In every state of every run the tokens are conserved and access is exclusive, and every transition is one of the atomic lock. |
| RwLock.NeverStuck | src/threads/synch.c:511-569 | No deadlock: while a thread is in the middle of acquiring or releasing and nobody reads or writes, some such thread can take its next step. |
| RwLock.ReadersShare | src/threads/synch.c:547-558 | A reader does not wait for readers that are inside. |
| RwLock.TryFirst | src/threads/synch.c:528-539 | A try gets in line if and only if no other thread is there. |
| RwLock.TryLaw | src/threads/synch.c:528-539 | A try that is in line gets the lock if and only if no other thread has it or is on its way into or out of it. |
| RwLock.AcquireEnds | src/threads/synch.c:511-569 | Acquiring ends with the lock and in no other way; only a try can end without it. |
| RwLock.AllLeft | src/threads/synch.c:511-569 | When every thread has left, the lock is as it was at the start. |
| BufferCache.StepInv | src/filesys/cache.c:62-190 | Every step of lookup, eviction, write-back, fill and copy keeps the cache invariant, with the lookup scan taken one block at a time. |
| BufferCache.InIoLocked | src/filesys/cache.c:62-73 | A block is IN_IO only while one thread, which is doing the IO, holds its lock for writing. |
| BufferCache.AssertionsHold | src/filesys/cache.c:66-85 | The two assertions that a block is not IN_IO never fire. |
| BufferCache.LooksAreAtomic | src/filesys/cache.c:102-142 | While a thread looks at a block no step of another changes what it looks at, so that a look at its sector and its state can be one step. |
| BufferCache.OnlyAheadDiffers | src/filesys/cache.c:62-73 | A sector whose block is neither dirty nor being written is up to date on the device. |
| BufferCache.StepRefines | src/filesys/cache.c:125-190 | Each step leaves the plain disk alone or completes one transfer on it, and a completed read returns the plain disk's bytes. |
| BufferCache.CacheRefinesDisk | src/filesys/cache.c:125-190 | In every run no two occupied blocks name one sector, and the completed transfers, in order, are a run of a plain disk: each read returns what the writes before it left. |
| BufferCache.JobLogsOnce | src/filesys/cache.c:125-190 | In every run a read or a write logs, between its start and its end, exactly one event of its own, the transfer that was asked for: with CacheRefinesDisk, it takes effect at one instant in between. |
| BufferCache.FlushStays | src/filesys/cache.c:251-270 | A flush works on the block whose lock it tried, alone. |
| BufferCache.FlushEnds | src/filesys/cache.c:251-270 | A flush that is over did not get the lock, or leaves the block not dirty and its sector up to date on the device. |
| BufferCache.FetchEnds | src/filesys/cache.c:282-318 | A fetch that is over found the sector in the cache, or leaves a block with its bytes. |
| BufferCache.LooksDecide | src/filesys/cache.c:75-142 | A lookup stops at a block just when it names the sector, a block found is used just when it still does, a victim is taken just when unoccupied or not accessed, and a new block is filled just when none names the sector. |
| BufferCache.NeverStuck | src/filesys/cache.c:125-190 | In every state a thread in the middle of a job can take its next step or stands before a lock that is held: the invariant covers every index and every sector that the code uses. |
| Clocks.ChosenUnique | src/filesys/cache.c:76-100 | The place that a second-chance clock stops at is determined by the flags and the arm. |
| Clocks.ChosenReady | src/filesys/cache.c:76-100 | If any eligible entry is ready, the clock stops within one sweep at a ready one. |
| Clocks.CacheClock.AdvanceArm | src/filesys/cache.c:76-100 | The arm goes round the blocks. |
| Clocks.CacheClock.GetFreeBlock | src/filesys/cache.c:76-100 | With an unlocked block, the loop ends within two sweeps at the chosen block: unlocked, and unoccupied or not accessed when inspected; exactly the passed unlocked blocks lose their accessed flag. |
| Clocks.FrameClock.AdvanceClockHand | src/vm/frame.c:60-66 | The hand goes round the frames. |
| Clocks.FrameClock.EvictFrame | src/vm/frame.c:129-162 | With an unlocked resident frame of a live process, the loop ends within two sweeps; the victim was unlocked, resident and not accessed, and is returned locked and empty. |
| Paging.FaultInv | src/vm/page.c:96-179 | A fault that loads a page from swap or file keeps the paging invariant for all pages. |
| Paging.EvictInv | src/vm/page.c:187-242 | Evicting a page to swap, to its file or nowhere keeps the paging invariant for all pages. |
| Paging.GrowInv | src/vm/page.c:486-493 | A fresh zero page on the stack keeps the paging invariant. |
| Paging.MapInv | src/vm/page.c:48-80 | A new lazily loaded page keeps the paging invariant; sharers of its file bytes become exposed. |
| Paging.StoreInv | src/userprog/pagedir.c:164-219 | A store through a present entry, which sets the dirty bit, keeps the paging invariant. |
| Paging.DropInv | src/vm/page.c:375-385 | Giving up a page, in memory or not, keeps the paging invariant of the others. |
| Paging.WriteFileInv | src/filesys/file.c:86-107 | An ordinary write to a file keeps the paging invariant; pages that read the written bytes become exposed. |
| Paging.PagingInvisible | src/vm/page.c:96-242 | In every run, ordinary writes to files included, a page in memory that is not exposed reads as its first contents under the stores made to it since it was mapped, whatever faults and evictions happened in between; a file page that has turned into a swap page keeps all its bytes, a mapped page those that its mapping covers. |
| Paging.ProgramRuns | src/vm/page.c:96-242 | In every run a page of an executable closed to writing reads, whenever it is in memory, as its part of the file under the stores made to it, whatever is mapped or written elsewhere. |
| Paging.FramesApart | src/vm/frame.c:188-225 | In every run a present entry leads to the frame that the frame table lists for its page, and to no other page's. |
| Paging.FramesListed | src/vm/frame.c:188-225 | Conversely, in every run a frame that the table lists is the frame of a present entry of the page listed. |
| Paging.SlotsApart | src/vm/page.c:187-213 | In every run two swapped pages have different slots, neither of them free. |
| Paging.UnmapWritesFile | src/vm/page.c:250-288 | Unmapping a page that is in memory leaves the stored bytes in the file and changes no other byte of any file. |
| Paging.UnmapKeepsStores | src/vm/page.c:250-288 | In every run, when a page of a mapping is unmapped, in memory until then or evicted long before, the file holds the mapping's first contents under the stores made since. |
| Paging.EvictAndReload | src/vm/page.c:297-320 | What one eviction and one fault make of any page, by its kind and dirty bit. |
| Paging.TailLost | src/vm/page.c:223-242 | A dirty mapped page comes back whole if and only if its bytes behind the mapping are zero. |
| Paging.DeniedLost | src/vm/page.c:223-242 | A dirty mapped page of a file closed to writing comes back as it was if and only if it was as the file has it, and the file stays. |
| Paging.SharedBytesChange | src/vm/page.c:223-242 | A page that reads bytes of a file which an evicted dirty page maps, all of them or some, comes back with the other's bytes where both cover the file and the file's elsewhere, and as the file was if and only if the other page agrees with it there. |
| Paging.FaultEnabled | src/vm/page.c:153-179 | A page out of memory can always be loaded into an empty frame. |
| Paging.EvictEnabled | src/vm/page.c:297-320 | A page in memory can always be evicted, unless it is a swap page or a dirty file page and swap is full. |
| Paging.OthersEnabled | src/vm/page.c:48-493 | Mapping, growing, storing, dropping and writing a file are possible whenever their conditions hold. |
| Paging.WherePagesGo | src/vm/page.c:96-493 | A page grown or loaded is in its frame with its permission, one evicted or dropped is in none. |
| Paging.ForgetLoses | src/vm/page.c:375-385 | Dropping a page that is out of memory makes a slot that is neither free nor any page's, if and only if the page is in swap. |
| Paging.LosesSlot | src/vm/page.c:153-385 | A step of any kind loses a slot if and only if it drops a page that is in swap: a fault gives the slot back. |
| Paging.LostForGood | src/vm/page.c:375-385 | In every run such a slot is never used again. |
| PagingCases.StoreComesBack | src/vm/page.c:223-242 | On every machine with an empty frame: map, load, store one byte, evict, load; the byte comes back if and only if it was in the file before or lies within the mapping of a file open to writing. |
| PagingCases.StoresLost | src/vm/page.c:223-242 | Two such runs that lose the store: one behind the end of the file, one to a file closed to writing. |
| PagingCases.SharedStoreSeen | src/vm/page.c:223-242 | On every machine with an empty frame: a run with two mappings of a byte in which a page changes that nothing was stored to. |
| PagingCases.SlotLost | src/vm/page.c:375-385 | On every machine with an empty frame and a free slot: grow the stack, evict, exit; the slot is lost. |
| PagingCases.MachineWorks | src/vm/page.c:223-242 | A machine with one frame, one slot and a file of one byte is such a machine. |
| Swap.OutConserves | src/vm/swap.c:32-59 | Writing a page out takes one free slot into use, keeps every page in use, and keeps free slots distinct and in range. |
| Swap.InConserves | src/vm/swap.c:62-89 | Reading a page in makes its slot free again and touches no other; the stack cannot overflow. |
| Swap.SlotWritten | src/vm/swap.c:49-56 | Filling the eight sectors of a slot with a page changes that slot's page and no other. |
| Swap.SwapTable.constructor | src/vm/swap.c:11-29 | All slots that fit on the device are free. |
| Swap.SwapTable.WriteToSwap | src/vm/swap.c:32-59 | The top slot receives the page across its eight sectors; it fails just when no slot is free. |
| Swap.SwapTable.FreeSlot | src/vm/swap.c:62-69 | The slot goes on the stack, which has room for it. |
| Swap.SwapTable.ReadFromSwap | src/vm/swap.c:71-89 | The page comes back as it was written and the slot is free. |
| SwapTransfers.DoesInv | src/vm/swap.c:32-89 | Every step of page-outs and page-ins that interleave sector by sector keeps slots and contents in order. |
| SwapTransfers.PageComesBack | src/vm/swap.c:32-89 | In every interleaving a page-in ends with the page, byte for byte, that the last page-out to its slot was given. |
| SwapTransfers.SlotsConserved | src/vm/swap.c:32-89 | In every state of every run each slot is on the free stack once, or in the transfer of one thread, or full with its page on the device; free slots are slots of the device. |
| SwapTransfers.TransfersApart | src/vm/swap.c:32-89 | In every run no two transfers share a slot. |
| SwapTransfers.NeverStuck | src/vm/swap.c:32-89 | A thread in the middle of a transfer can always take its own next step: the next sector, or the end. |
| SwapTransfers.CanBegin | src/vm/swap.c:32-89 | An idle thread can begin a page-out whenever a slot is free, and a page-in of any full slot. |
| SwapTransfers.TransferEnds | src/vm/swap.c:32-89 | A page-out takes a free slot and leaves it full of its page; a page-in leaves its slot free. |
| Bitmaps.MaskReads | src/lib/kernel/bitmap.c:35-47 | Testing a word against a bit's mask reads that bit. |
| Bitmaps.SetOne | src/lib/kernel/bitmap.c:155-179 | Or-ing or masking one word sets or clears one bit of the bitmap and no other. |
| Bitmaps.Bitmap.constructor | src/lib/kernel/bitmap.c:78-94 | A new bitmap has all bits clear. |
| Bitmaps.Bitmap.Mark | src/lib/kernel/bitmap.c:156-166 | One bit becomes set. |
| Bitmaps.Bitmap.Reset | src/lib/kernel/bitmap.c:169-179 | One bit becomes clear. |
| Bitmaps.Bitmap.Set | src/lib/kernel/bitmap.c:144-153 | One bit takes the value. |
| Bitmaps.Bitmap.Test | src/lib/kernel/bitmap.c:197-203 | The value of the bit. |
| Bitmaps.Bitmap.SetMultiple | src/lib/kernel/bitmap.c:217-228 | Exactly the bits of the range take the value. |
| Bitmaps.Bitmap.Contains | src/lib/kernel/bitmap.c:250-263 | True if and only if some bit of the range has the value. |
| Bitmaps.Bitmap.Scan | src/lib/kernel/bitmap.c:295-310 | The first fit at or after the start. |
| Bitmaps.Bitmap.ScanAndFlip | src/lib/kernel/bitmap.c:319-326 | The first fit, flipped; nothing changes when there is none. |
| Bitmaps.FirstFitLeast | src/lib/kernel/bitmap.c:295-310 | First fit finds a group whenever there is one, and no group lies before the one found. |
| Bitmaps.ScanZero | src/lib/kernel/bitmap.c:311-326 | A count of zero returns the start index, 0 if and only if that is 0, and flips nothing. |
| Pages.GetFresh | src/threads/palloc.c:75-106 | Pages handed out were free, are in use now, and no other page changes. |
| Pages.GetFails | src/threads/palloc.c:75-106 | A request fails if and only if the pool has no such run of free pages. |
| Pages.FreeUndoesGet | src/threads/palloc.c:121-147 | Giving pages back restores the pool as it was before they were got. |
| Pages.FreeReleases | src/threads/palloc.c:121-147 | Exactly the pages given back become free. |
| Pages.Pool.constructor | src/threads/palloc.c:158-175 | The pool is what its bitmap leaves of its pages, none in use. |
| Pages.Pool.Get | src/threads/palloc.c:82-92 | First fit from one pool, or a null pointer. |
| Pages.PageAllocator.constructor | src/threads/palloc.c:46-67 | Two pools one after the other, no page in use. |
| Pages.PageAllocator.GetMultiple | src/threads/palloc.c:75-106 | Pages come from the pool asked for; the other pool is untouched. |
| Pages.PageAllocator.FreeMultiple | src/threads/palloc.c:121-147 | Pages go back to the pool they are from; the other pool is untouched. |
| Heap.SlotOrder | src/threads/malloc.c:285-294 | Blocks of one arena follow each other without overlap. |
| Heap.SlotInside | src/threads/malloc.c:267-294 | A block lies behind the header and within the page of its arena, which is found by rounding down. |
| Heap.NewArenaInv | src/threads/malloc.c:125-146 | A new arena keeps the heap invariant: its page was no arena's. |
| Heap.PopInv | src/threads/malloc.c:148-153 | Handing out the first block of a free list keeps the heap invariant. |
| Heap.PushInv | src/threads/malloc.c:238-242 | Taking a block back keeps the heap invariant. |
| Heap.DropInv | src/threads/malloc.c:242-253 | Giving back a wholly free arena keeps the heap invariant: none of its blocks is live. |
| Heap.MallocInv | src/threads/malloc.c:89-154 | malloc keeps the invariant; on success the block is new and all live blocks keep place and size, on failure nothing changes. |
| Heap.ChooseLeast | src/threads/malloc.c:100-104 | The descriptor chosen is the smallest that satisfies the request. |
| Heap.MallocFails | src/threads/malloc.c:89-154 | malloc of size > 0 fails if and only if, for at most 1 kB, no free block of its size is listed and every page is in use, and for more, the pool has no run of as many free pages. |
| Heap.MallocPages | src/threads/malloc.c:105-146 | malloc takes from the pool just the pages of the arenas it makes. |
| Heap.MallocSize | src/threads/malloc.c:100-120 | The block holds the bytes asked for if and only if the size is at most 2^32 - 12. |
| Heap.MallocTooSmall | src/threads/malloc.c:105-120 | For each larger size, malloc succeeds whenever a page is free, with a block of 4084 bytes. |
| Heap.MallocWraps | src/threads/malloc.c:105-120 | On a machine with one page malloc of 2^32 - 1 bytes does so. |
| Heap.CopyFits | src/threads/malloc.c:204-211 | The bytes that realloc copies have room if and only if the size is at most 2^32 - 12 or the old block has at most 4084 bytes. |
| Heap.ReallocOverruns | src/threads/malloc.c:204-211 | On a machine with three pages: malloc of 5000 bytes gives 8180, and realloc of them to 2^32 - 1 gives 4084. |
| Heap.FreeInv | src/threads/malloc.c:218-264 | free keeps the invariant and ends the life of that block alone. |
| Heap.FreePages | src/threads/malloc.c:242-263 | free gives back just the pages of the arenas it drops. |
| Heap.ReallocInv | src/threads/malloc.c:194-214 | realloc trades the old block for the new one, or keeps the old one when it fails. |
| Heap.ReallocSucceeds | src/threads/malloc.c:194-214 | realloc succeeds just when malloc of the new size would, with the same block, and failing changes nothing. |
| Heap.LiveApart | src/threads/malloc.c:267-294 | Two live blocks do not overlap. |
| Heap.LiveInside | src/threads/malloc.c:267-294 | A live block lies behind its arena's header in pages that are in use. |
| Heap.FreeApart | src/threads/malloc.c:238-294 | A free block, which holds the links of its list and which free fills with 0xcc, lies apart from every live block. |
| Heap.HeaderApart | src/threads/malloc.c:267-294 | The header of an arena lies apart from every live block. |
| Heap.RunApart | src/threads/malloc.c:72-294 | After any calls of malloc, free and realloc among page allocations of others, live blocks are pairwise disjoint. |
| Heap.RunInside | src/threads/malloc.c:72-294 | After any calls a live block lies behind its arena's header in pages in use. |
| Heap.RunUntouched | src/threads/malloc.c:72-294 | After any calls a live block lies apart from every free block and every header, which is where the allocator writes. |
| Heap.RunHolds | src/threads/malloc.c:72-294 | In every run a block that malloc or realloc returned holds the bytes asked for until it is freed, if and only if the size is at most 2^32 - 12. |
| Heap.RunCounts | src/threads/malloc.c:72-294 | After any calls an arena's free count is the number of its blocks on the free list, and no arena is wholly free. |
| Heap.RunNoLeak | src/threads/malloc.c:72-294 | No page is lost: after any calls that leave no live block, the pages in use are those in use at the start. |
| MallocCode.Allocator.constructor | src/threads/malloc.c:71-85 | The descriptors are the seven sizes from 16 to 1024 bytes. |
| MallocCode.Allocator.FindDesc | src/threads/malloc.c:100-104 | The smallest descriptor that satisfies the request. |
| MallocCode.Allocator.AddArena | src/threads/malloc.c:137-146 | All blocks of the arena go to the back of the free list, in order. |
| MallocCode.Allocator.Malloc | src/threads/malloc.c:89-154 | The lists and loops of the code do what Heap.Malloc says, so the laws of MallocInv and MallocSize hold of them; the contents of live blocks, kept by block, stay, and Heap.RunUntouched proves that the allocator's own writes lie outside them. |
| MallocCode.Allocator.RemoveBlocks | src/threads/malloc.c:247-251 | Exactly the blocks of the arena leave the free list. |
| MallocCode.Allocator.Free | src/threads/malloc.c:218-264 | The code does what Heap.Free says; a null pointer is ignored, the assertion on the count holds, and the contents of other blocks, kept by block, stay; Heap.RunUntouched proves that the fill and the links lie outside them. |
| MallocCode.Allocator.Realloc | src/threads/malloc.c:194-214 | Where the copy has room: the new block starts with the old block's bytes up to the smaller size, all other blocks keep theirs, and the heap changes as Heap.Realloc says. |
| Arithmetic.Divl | src/lib/arithmetic.c:26-37 | The contract of the divide instruction, which traps unless the quotient fits. |
| Arithmetic.Nlz | src/lib/arithmetic.c:42-73 | The shift that brings the top bit of a nonzero word to the top. |
| Arithmetic.TrialQuotient | src/lib/arithmetic.c:110-123 | Dividing by the divisor with its low bits cut off overshoots by at most one. |
| Arithmetic.Trial | src/lib/arithmetic.c:110-123 | The trial quotient of a two-word divisor does not overflow 32 bits and is exact or one too large. |
| Arithmetic.Correct | src/lib/arithmetic.c:124-126 | The correction step does not wrap and picks the quotient. |
| Arithmetic.Udiv64 | src/lib/arithmetic.c:78-127 | floor(n / d) for every 64-bit n and nonzero d, with no divide that traps. |
| Arithmetic.Umod64 | src/lib/arithmetic.c:132-135 | The low 32 bits of the remainder. |
| Arithmetic.Umod64Exact | src/lib/arithmetic.c:132-135 | It is the remainder for every dividend if and only if the divisor is at most 2^32. |
| Arithmetic.Sdiv64 | src/lib/arithmetic.c:140-146 | Truncation toward zero if and only if not INT64_MIN / -1, which gives INT64_MIN. |
| Sorting.RunSorted | src/lib/kernel/list.c:504-519 | A run is sorted. |
| Sorting.MergeSorted | src/lib/kernel/list.c:529-549 | Merging sorted stretches gives a sorted one. |
| Sorting.MergeStable | src/lib/kernel/list.c:529-549 | Merging keeps elements that the order does not tell apart in their order, those of the first stretch first. |
| Sorting.PassHalves | src/lib/kernel/list.c:567-590 | A pass counts ceil(r/2) output runs for r runs and leaves no more. |
| Sorting.PassStable | src/lib/kernel/list.c:574-588 | A pass permutes the elements and keeps the order of equals. |
| Sorting.OneRunSorted | src/lib/kernel/list.c:590-592 | With one run or none the list is sorted, as the last assertion says. |
| Sorting.StableUnique | src/lib/kernel/list.c:557-593 | A sorted, order-keeping rearrangement is unique, so the sort's result is determined. |
| Lists.Insert | src/lib/kernel/list.c:240-250 | The element stands before the given one; the list is well formed both ways. |
| Lists.Remove | src/lib/kernel/list.c:346-353 | The rest is well formed; the next element is returned. |
| Lists.Splice | src/lib/kernel/list.c:262-283 | A stretch moves in front of an element of its own list or of another; all lists are well formed. |
| Lists.FindEndOfRun | src/lib/kernel/list.c:504-519 | The end of the longest nondecreasing run. |
| Lists.InplaceMerge | src/lib/kernel/list.c:529-549 | Two neighbouring sorted stretches become their merge in place. |
| Lists.OnePass | src/lib/kernel/list.c:574-588 | One pass over the links is Sorting.Pass, and the count is its output runs. |
| Lists.Sort | src/lib/kernel/list.c:557-593 | For any strict weak order the list ends well formed, sorted, with the same elements and equals in their old order; it terminates because runs halve. |
| Hash.AndMask | src/lib/kernel/hash.c:305-310 | Masking a hash with a power of two less one is the remainder, so the bucket exists. |
| Hash.TurnOffTop | src/lib/kernel/hash.c:329-340 | Turning off the lowest bit leaves nothing if and only if the number is a power of two, and keeps the highest bit otherwise. |
| Hash.IdealBuckets | src/lib/kernel/hash.c:364-372 | The largest power of two not above half the elements, and at least four. |
| Hash.PushHolds | src/lib/kernel/hash.c:415-421 | Pushing an element to the bucket its hash selects adds it to the contents. |
| Hash.EraseHolds | src/lib/kernel/hash.c:424-429 | Removing an element from its bucket takes it out of the contents. |
| Hash.OnlyOne | src/lib/kernel/hash.c:114-127 | A key has at most one element. |
| Hash.Table.constructor | src/lib/kernel/hash.c:24-42 | Four empty buckets. |
| Hash.Table.FindElem | src/lib/kernel/hash.c:314-326 | The element equal to the key, or none if the whole table has none. |
| Hash.Table.Find | src/lib/kernel/hash.c:131-135 | The same, as a lookup. |
| Hash.Table.Insert | src/lib/kernel/hash.c:98-110 | Adds the element unless an equal one is there, which is returned; the count is exact and the buckets ideal if they could be allocated. |
| Hash.Table.Replace | src/lib/kernel/hash.c:114-127 | The new element takes the place of the equal one. |
| Hash.Table.Delete | src/lib/kernel/hash.c:144-154 | Exactly the equal element goes; the buckets are ideal if one went and they could be allocated, and as many as before otherwise. |
| Hash.Table.Rehash | src/lib/kernel/hash.c:351-413 | The contents stay, whether or not the new buckets can be allocated. |
| Semaphores.GetHighestPriorityThread | src/threads/thread.c:1173-1193 | The first thread of the highest priority, also when the scan stops early. |
| Semaphores.HighestUnique | src/threads/thread.c:1173-1193 | That thread is determined. |
| Semaphores.DoInv | src/threads/synch.c:68-152 | Down, try-down and up, with blocking, waking, yielding and dispatching, keep the lists apart, the value balanced and the wake-ups accounted for. |
| Semaphores.UpLaw | src/threads/synch.c:129-152 | sema_up adds one unit, takes the first waiter of the highest priority off the list and makes it runnable, and no other, and the processor goes to a thread of the highest priority. |
| Semaphores.InterruptUpLaw | src/threads/synch.c:129-152 | The same in an interrupt handler, where the running thread goes on. |
| Semaphores.DownLaw | src/threads/synch.c:68-85 | sema_down takes a unit at once when there is one; when there is none, the thread goes to the end of the waiters and blocks, and the processor to a thread of the highest priority. |
| Semaphores.TryDownLaw | src/threads/synch.c:96-115 | sema_try_down takes a unit just when there is one, and never blocks. |
| Semaphores.PreemptLaw | src/threads/synch.c:147-150 | Yielding lets a thread of the highest priority run and changes neither semaphores nor who can run. |
| Semaphores.NoWakeupLost | src/threads/synch.c:68-152 | In every run a waiting thread is on one list only, and at least `value` woken threads have still to look again while anybody waits. |
| Semaphores.UnitsConserved | src/threads/synch.c:68-152 | In every run value = initial + ups - downs for every semaphore, whether anybody waits or not. |
| ExitWait.ParentKeeps | src/userprog/process.c:294-313 | Each step of a parent that waits or exits keeps the record invariant. |
| ExitWait.ChildKeeps | src/userprog/process.c:465-482 | Each step of a child that exits keeps the record invariant. |
| ExitWait.NoUseAfterFree | src/userprog/process.c:294-313 | A side about to touch the record finds it not freed. |
| ExitWait.WaitEnds | src/userprog/process.c:294-312 | A wait that ends has returned, once, what the child stored. |
| ExitWait.ParentGoesOn | src/userprog/process.c:294-312 | The parent can always take its next step on the record, unless the child holds its lock or has not exited; the exit of the child wakes it. |
| ExitWait.ChildGoesOn | src/userprog/process.c:465-482 | The child can always go on with its exit, unless the parent has the lock. |
| ExitWait.StepInv | src/userprog/process.c:370-384 | Every step of every process in a tree of any shape keeps all records in order. |
| ExitWait.RecordSafe | src/userprog/process.c:465-482 | In every run a record is freed exactly once and when both sides have left it, is not touched after that, and at most one wait has succeeded, with the status the child stored. |
| ExitWait.WaitReturns | src/userprog/process.c:294-312 | In every run a wait for a child on the caller's list that is over has returned the status the child stored last, and the child is off the list. |
| ExitWait.ProcessGoesOn | src/userprog/process.c:294-482 | A process that is not dead can go on, unless it waits for a lock or for a child that has not exited. |
| FileSys.AllocateFails | src/filesys/free-map.c:27-41 | A failed allocation leaves the free map as it was, also when its file could not be written. |
| FileSys.AllocateFresh | src/filesys/free-map.c:27-41 | Allocated sectors were free, so no live inode owns one. |
| FileSys.InodeOpenInv | src/filesys/inode.c:92-132 | Opening keeps one inode in memory per sector. |
| FileSys.InodeCloseInv | src/filesys/inode.c:144-167 | Closing keeps live inodes marked and apart. |
| FileSys.InodeCreateInv | src/filesys/inode.c:52-87 | A created inode's sectors are apart from every live inode's. |
| FileSys.DirAddInv | src/filesys/directory.c:141-179 | Adding an entry keeps names and inodes of entries distinct and makes the new inode live. |
| FileSys.UnlinkInv | src/filesys/directory.c:184-216 | Removing an entry leaves the inode live through its openers. |
| FileSys.CreateInv | src/filesys/filesys.c:58-72 | Creating keeps the invariant on success and on every failure. |
| FileSys.CreateFound | src/filesys/filesys.c:58-72 | A created file is found under its name with its length; no other entry changes. |
| FileSys.CreateSucceeds | src/filesys/filesys.c:58-72 | Creating succeeds if and only if there was memory, a free sector and a run of free sectors, the map could be written, the name is valid and new, and an entry is not in use. |
| FileSys.CreateMarks | src/filesys/filesys.c:58-72 | A create that succeeds marks its header and data and no other sector, and changes no other inode. |
| FileSys.CreateTaken | src/filesys/filesys.c:58-72 | A taken name fails and leaves the directory alone; the free map is as before if and only if no data sectors had been taken. |
| FileSys.CreateFails | src/filesys/filesys.c:58-72 | A create that fails leaves the free map as it was if and only if it had not got a header and then data; otherwise exactly the data sectors stay marked, and no live inode owns them. |
| FileSys.TakenNameLeaks | src/filesys/filesys.c:58-72 | On a disk of seven sectors just formatted: creating a name twice, the second time with 512 bytes, loses a sector. |
| FileSys.OpenFails | src/filesys/filesys.c:79-90 | An open that fails, for a missing name or for want of memory in inode_open or in file_open, leaves everything as it was. |
| FileSys.OpenLaw | src/filesys/filesys.c:79-90 | Opening returns an inode if and only if an entry in use has the name and the memory was there; it is that entry's inode, has one opener more, and every other inode in memory is as before. |
| FileSys.RemoveInv | src/filesys/filesys.c:96-104 | Removing keeps the invariant, and the name is not found after it. |
| FileSys.RemoveLaw | src/filesys/filesys.c:96-104 | Removing succeeds if and only if an entry in use has the name and its inode could be opened; exactly that entry goes; header and data are freed if nobody has the file open, and otherwise the inode is marked; every other inode in memory is as before. |
| FileSys.RemoveMissing | src/filesys/filesys.c:96-104 | Removing a name that no entry has fails and changes nothing. |
| FileSys.CloseLaw | src/filesys/inode.c:144-167 | Closing takes one opener away, and the inode out of memory with the last; every other inode in memory is as before. |
| FileSys.LastClose | src/filesys/inode.c:151-166 | The last close of a removed file frees its header and data sectors and no other. |
| FileSys.OtherClose | src/filesys/inode.c:151-166 | Any other close leaves the free map alone. |
| FileSys.RunApart | src/filesys/inode.c:52-176 | In every run, header and data of listed or open inodes are marked and pairwise disjoint. |
| FileSys.RunOpen | src/filesys/inode.c:92-176 | In every run a sector has at most one inode in memory, which agrees with the disk, and a removed file's sectors stay allocated while it is open. |
| FileSys.DoesKeepsInode | src/filesys/filesys.c:58-104 | No call writes the header of a live inode. |
| Files.FileSystem.constructor | src/filesys/filesys.c:107-116 | A formatted file system, with the free map's inode open, satisfies the invariant. |
| Files.FileSystem.Allocate | src/filesys/free-map.c:27-41 | First fit in the free map, and the map as before when there is none or its file cannot be written. |
| Files.FileSystem.Lookup | src/filesys/directory.c:91-112 | The first entry in use with the name. |
| Files.FileSystem.FreeSlot | src/filesys/directory.c:166-169 | The first entry not in use. |
| Files.FileSystem.FindOpen | src/filesys/inode.c:98-108 | The open inode of a sector. |
| Files.FileSystem.InodeOpen | src/filesys/inode.c:92-132 | One more opener of the inode in memory, or a new one at the front of the list. |
| Files.FileSystem.InodeClose | src/filesys/inode.c:144-167 | One opener less; a removed inode's sectors are given back with the last one, and the assertions that they are marked hold. |
| Files.FileSystem.InodeCreate | src/filesys/inode.c:52-87 | Room for the data is reserved and the inode written, or nothing changes. |
| Files.FileSystem.DirAdd | src/filesys/directory.c:141-179 | A valid new name takes the first free entry; any other fails and changes nothing. |
| Files.FileSystem.Create | src/filesys/filesys.c:58-72 | The code does what FileSys.Create says on every path, success and failure, and keeps the invariant. |
| Files.FileSystem.Open | src/filesys/filesys.c:79-90 | The named file's inode is open once more; when there is no memory for the file it is closed again. The invariant holds. |
| Files.FileSystem.Remove | src/filesys/filesys.c:96-104 | The name is gone, the inode is marked for deletion and lives on through its openers, and the invariant holds. |
| Inodes.ChunkIsSlice | src/filesys/inode.c:27-34 | A chunk of one sector is a slice of the file. |
| Inodes.PutIsSplice | src/filesys/inode.c:247-247 | A chunk written into a sector overwrites exactly that slice of the file. |
| Inodes.WriteElsewhere | src/filesys/inode.c:221-256 | A write changes no byte of a file that shares no sector with the written one. |
| Inodes.ReadBack | src/filesys/inode.c:181-256 | What was written is read back, and the rest of the file reads as before. |
| Inodes.File.Clear | src/filesys/inode.c:73-81 | A new file is all zeros; no other sector changes. |
| Inodes.File.WriteNew | src/filesys/inode.c:62-82 | inode_create writes the header, zeros for the data, and no other sector. |
| Inodes.File.ReadAt | src/filesys/inode.c:181-213 | Returns min(size, max(0, length - offset)) bytes, the file's slice at the offset. |
| Inodes.File.WriteAt | src/filesys/inode.c:220-256 | Writes that many bytes to exactly that slice, none when writing is denied, and touches no sector of another file. |
| Inodes.HeaderReads | src/filesys/inode.c:62-132 | An inode is read back from its sector as it was written. |
| Stores.CallFrame | src/filesys/filesys.c:58-104 | A call leaves every sector in use as it was, but for the data of the free map and of the root directory: what a create writes was free. |
| Stores.HeadersOnDisk | src/filesys/inode.c:52-132 | In every run the sector of every inode in the directory or open holds that inode. |
| Stores.FileIsItsWrites | src/filesys/inode.c:220-256 | In every run of creates, opens, removes, closes and writes, the bytes of a file, while it is listed or open, are what the writes through its own inode made of them; no other step changes a byte of it. |
| Stores.CreatedFile | src/filesys/filesys.c:58-72 | In every run a file created with some size is found under its name and holds zeros overwritten by the writes through its own inode. |
| Stores.DeniedFileStays | src/filesys/inode.c:220-279 | In every run a file keeps its bytes while writing to it is denied. |
| Argv.OneWord | src/userprog/process.c:67-92 | A stretch without spaces is one word. |
| Argv.SpaceSeparates | src/userprog/process.c:67-92 | A space separates words, for any run lengths of spaces. |
| Argv.CopyArguments | src/userprog/process.c:67-96 | Spaces become terminators and the count is the number of words. |
| Argv.CopyStrings | src/userprog/process.c:189-225 | The backwards copy puts every word with one terminator at the top of the stack and records where each starts. |
| Argv.StringsBound | src/userprog/process.c:173-181 | The strings take at most one byte more than the command line has. |
| Argv.TightStrings | src/userprog/process.c:197-225 | They take one byte more if and only if the line has no space at either end and no two in a row. |
| Argv.CheckExact | src/userprog/process.c:173-187 | A line that passes the check fits on the stack page if and only if it does not fill the page by the check's count or is not tight. |
| Argv.CheckFails | src/userprog/process.c:173-187 | A name of one letter with an argument of 4070 passes the check and takes 4097 bytes. |
| Argv.MakesFrame | src/userprog/process.c:227-245 | Pointers and strings laid out this way are the frame the calling convention asks for. |
| Argv.BuildStack | src/userprog/process.c:189-245 | For every command line with a word, on a stack with room for it: argc, argv, argv[i] leading to a terminated copy of word i, argv[argc] null, and no two pieces overlap. |
| Argv.StartProcess | src/userprog/process.c:170-245 | The check followed by the frame, on one page: refused if and only if the check fails, and otherwise the frame, for every line but those of CheckExact. |
| Ustar.StripPrefixes | src/lib/ustar.c:65-73 | The loop over prefixes ends at the stripped name. |
| Ustar.StripTwice | src/lib/ustar.c:65-73 | A stripped name is not empty, is not absolute, does not start with ../ or ./ and is not .., and stripping it again changes nothing. |
| Ustar.StripKeeps | src/lib/ustar.c:65-73 | A name with none of the prefixes is kept as it is, directories and all. |
| Ustar.StripDrops | src/lib/ustar.c:65-73 | Each of the prefixes /, ./ and ../ goes, and nothing or .. alone becomes the current directory; with StripKeeps this determines the result for every name. |
| Ustar.FormatOctal | src/lib/stdio.c:469-547 | The digits of the number, with zeros in front to fill the width. |
| Ustar.ReadOctal | src/lib/stdio.c:501-544 | Reading the printed digits gives the number back. |
| Ustar.ParseOctalField | src/lib/ustar.c:129-162 | The value of a row of digits that ends in a space or a null byte; a bad byte, an empty field or an overflow fails; no step exceeds 32 bits. |
| Ustar.OctalLaw | src/lib/ustar.c:129-162 | A row of digits, a byte that is none and any rest is read as the number if there is a digit, the byte is a space or null and the number has 32 bits, and refused otherwise. |
| Ustar.OctalUnended | src/lib/ustar.c:129-162 | A field of digits alone is refused. |
| Ustar.OctalRoundTrip | src/lib/ustar.c:129-162 | The octal printer and parser are inverse for every 32-bit number. |
| Ustar.CalculateChksum | src/lib/ustar.c:36-54 | The sum of all bytes with the checksum field as spaces. |
| Ustar.ChksumIgnoresItself | src/lib/ustar.c:36-54 | The checksum does not depend on its own field. |
| Ustar.ChksumSees | src/lib/ustar.c:36-54 | It changes with every other byte by exactly the difference. |
| Ustar.ChksumBlank | src/lib/ustar.c:36-54 | The checksum of a header of zeros is that of eight spaces. |
| Ustar.MakeHeader | src/lib/ustar.c:82-118 | For every int size: succeeds if and only if the stripped name has at most 99 bytes, and then fills in the header; otherwise nothing changes. |
| Ustar.HeaderOwner | src/lib/ustar.c:99-105 | Permissions 0644 or 0755 by type, user and group zero. |
| Ustar.HeaderNames | src/lib/ustar.c:106-112 | The time, and root as user and group name. |
| Ustar.HeaderZeros | src/lib/ustar.c:99-112 | Zeros everywhere else. |
| Ustar.ParseHeader | src/lib/ustar.c:181-227 | What each kind of header parses to, with the message of each error, in the order the code checks. |
| Ustar.Accepts | src/lib/ustar.c:181-227 | A header is accepted if and only if magic, version, checksum, terminators, type and size are valid, and is the end of the archive if and only if it is all zeros. |
| Ustar.AcceptedFields | src/lib/ustar.c:181-227 | Name, type and size of an accepted header are those of its fields. |
| Ustar.RoundTrip | src/lib/ustar.c:82-227 | Parsing a made header gives the stripped name, the type and the size, 0 for a directory; a regular file of negative size is refused. |
| Ustar.ParsesSafely | src/lib/ustar.c:181-227 | For any 512 bytes: a file that the parser accepts has a name that is not empty, not absolute, not .. and does not start with ../, of at most 99 bytes without a null byte, and a size that an int holds. |
| Ustar.DamageFound | src/lib/ustar.c:181-227 | A header that differs from a good one in one byte outside the checksum is refused. |

## Left out

- MallocCode.Allocator.Realloc: asks that the copy has room, because otherwise the code writes behind the block; Heap.CopyFits is the exact condition.
- Paging.PagingInvisible: is about pages that are not exposed, because bytes of a file that is mapped twice, or written by an ordinary write, change without a store to the page.
- FileSys.CreateInv: owned sectors are marked, not the converse, which FileSys.TakenNameLeaks shows to be false.
- FileSys.Open: opening and closing the root directory's own inode around each call, which leaves the list of open inodes as it was.
- Argv.BuildStack: asks for room on the stack, which the check of start_process gives under the condition of Argv.CheckExact.
- Argv.StartProcess: leaves out the lines of Argv.CheckExact, because for them the code writes below the stack page.
- ExitWait.WaitReturns: is about a child on the caller's list; for any other thread id the code returns -1 at once and touches no record, which is no step here.
- ExitWait.RecordSafe: the lifetime of the child's thread page, which holds the wait semaphore; an up or a down of it is not a touch of the record.
- Lists of kernel objects other than in `Lists` (free lists, buckets, open inodes) are sequences; their links are those of `Lists`.
- Words of a bitmap are their 32 bits, not machine words.
- Flushing all dirty blocks by a progress mask and the ring of asynchronous fetch requests; single write-backs and the fill step are modelled.
- smod64, calloc, pinning of frames, the failure path of frame allocation, and all liveness beyond termination of loops and the absence of stuck threads.
- Priority donation, the multi-level feedback scheduler, condition variables, timers, drivers, interrupts, the console, executable loading and the stubbed directory calls.
- Contents of the directory file and of the free map's file as bytes: they are the sequence of entries and the bits, and `Stores` lets any call write their sectors.
- MallocCode.Allocator.Malloc: contents are kept by block, not in one memory with the links and headers of the allocator; Heap.RunUntouched proves these apart.
- MallocCode.Allocator.Free: the same, for the links and for the fill with 0xcc.
