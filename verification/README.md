# Verified models of the Pintos kernel

This project models the data structures, allocators, pager, scheduler arithmetic and text formats of a Pintos kernel in
Dafny and proves what they promise. `dafny verify dfyconfig.toml` checks all of it. Nothing here is executed, and the
model contains none of the kernel's code.

## How the model is built

- Code that changes things in place is a class or a method with the same loops and branches. Its contract ties the new
  state to a specification function, and the lemmas say what that function means without naming its own parts.
- Regions that run with interrupts off are single steps. Everything else may interleave.
- Allocation that can fail, and reads that can come up short, are parameters.
- Sizes and widths are explicit: 32- and 64-bit words in `division.dfy` and `mlfqs.dfy`, the overflow of `malloc`'s
  rounding, 14-bit sector pointers, the 32-bit limit of octal fields. Other integers are unbounded.
- The block device is a map from sector numbers to 512 bytes. Memory is a map from addresses to bytes.

| file | models |
|---|---|
| `definitions.dfy`, `wrappers.dfy` | what several of the others share |
| `swap.dfy`, `paging.dfy` | vm/swap.c; vm/frame.c and vm/page.c with the MMU bits of both the user and the kernel mapping |
| `sequences.dfy`, `ordered.dfy`, `list.dfy` | lib/kernel/list.c: linked nodes, natural merge sort |
| `division.dfy` | lib/arithmetic.c |
| `bitmap.dfy`, `palloc.dfy`, `malloc.dfy` | lib/kernel/bitmap.c, threads/palloc.c, threads/malloc.c |
| `inode.dfy` | filesys/inode.c, with chains of nodes |
| `hash.dfy` | lib/kernel/hash.c |
| `donation.dfy`, `scheduler.dfy`, `mlfqs.dfy` | threads/synch.c, threads/thread.c, threads/fixedpoint.h |
| `printf.dfy`, `ustar.dfy` | lib/stdio.c, lib/ustar.c |
| `tokens.dfy`, `path.dfy` | strtok_r in lib/string.c, filesys/path.c |
| `pagedir.dfy` | userprog/pagedir.c, threads/pte.h |
| `heapsort.dfy` | lib/stdlib.c |
| `alarm.dfy` | devices/timer.c |

## What came out differently from the comments in the code

- `evict_frame` speaks of three sweeps; the third is never reached when some frame is unpinned (`Paging.ClockTakes`).
- When swap is full, a modified page is dropped without a report. `Paging.Pager.EmptyFrame` has the exact condition and
  `Paging.LosingEviction` an instance.
- `free_frame` leaves the clock hand on a frame that is gone if it was there: `Paging.Pager.FreePageEntry` has the exact
  condition and `Paging.LostHand` an instance. `load_page_entry` unpins its frame at the end even if that was freed,
  exactly when it fails (`Paging.Pager.LoadPageEntry`).
- `allocate_page` accepts the addresses 1 to 4095, for which `allocate_frame` then asserts; a run ends there.
- `lock_release` says that priorities do not change unless it updates them. It updates them only if the last donor listed
  waits for the released lock; `Donation.ReleaseDonors` has the exact condition and `Donation.StaleAfterRelease` an
  instance. A holder that has raised its own priority above its donors' does not give their donations back;
  `Donation.Pass` has the exact condition and `Donation.BrokenByRaise` an instance.
- `sema_down` puts a waiter on the list once. A thread that looks again and finds no value waits off the list for good:
  `Scheduler.StrandedWhen` has the exact condition, `Scheduler.StrandedForever` the consequence in every run and
  `Scheduler.LostWakeup` an instance. The safety properties hold all the same.
- A donation to a thread on the ready list does not move it there, so a thread of lower priority may run first:
  `Scheduler.ReorderedWhen` has the exact condition and `Scheduler.LowerRunsFirst` an instance.
- `malloc` returns a block that is too small when rounding overflows; `Malloc.Allocator.Malloc` has the exact condition
  and `Malloc.WrappedGrant` an instance. `realloc` may then copy more than the block holds: `Malloc.Allocator.Realloc` has
  the exact condition and `Malloc.OverrunningRealloc` an instance.
- `inode_fill` never grows a node whose last slot is begun, and it may fill a slot anew that an earlier growth filled.
  `Inode.FitsNode` is the exact condition and `Inode.LastSlotRefused` an instance; no byte is lost by the second
  (`Inode.File.FillSlot`).
- Bytes past the first node of a file are never found again, because prev_length stays 0 (`Inode.OnlyFirstNode`). A write
  whose further nodes cannot be made reports 0 bytes, and the file is longer all the same: `Inode.FailedGrowth` has the
  exact condition and `Inode.PastFirstNode` instances.
- `sdiv64` overflows on INT64_MIN and -1. On INT64_MIN and 1 its last negation overflows as well, and is right where
  signed arithmetic wraps, as it does in the model (`Division.SignedLimit`). `umod64` and `smod64` return 32 bits.
- `path_normpath` says that it collapses up-level references. A relative name that climbs back to its start keeps a
  leading "./" when it goes down again; `Path.NormRelativeIdempotent` has the exact condition. One that climbs further
  changes its meaning; `Path.NormRelativeMeans` has the exact condition and `Path.LostClimb` an instance.
- A header for a regular file with a negative size is made without complaint and then refused as too large.

## Model

| member | source | states |
|---|---|---|
| `Paging.Pager.Run` | pintos/src/vm/page.c:106-275 | Paging is transparent for one process: over every sequence of loads, stores, new pages and freed pages, with no frame pinned, the bytes fetched and the memory left behind are those of a flat memory in which a page is its initial image again exactly when it was marked, was the frame that the second-chance rule takes, and met a full swap; every state on the way is good and shows that memory, and with a slot for every page nothing is lost; a run ends early only at a fault on page 0 or when the page on the clock hand is freed |
| `Paging.Pager.LoadPageEntry` | pintos/src/vm/page.c:158-216 | a page other than page 0 comes back with the bytes saved in swap, or else with the bytes of its file and zeros behind them; it fails exactly on a short read or a missing page table that cannot be had; memory changes only in the page of the frame that an empty pool made it take, and there exactly as eviction says; the clock hand is left on a freed frame exactly when that frame was the only one; the frame that is unpinned at the end is still in the table if and only if it succeeds |
| `Paging.InitialIs` | pintos/src/vm/page.c:177-198 | a page that nothing was written to is the bytes of its file and then zeros |
| `Paging.Pager.FillFromFile` | pintos/src/vm/page.c:177-198 | the frame holds the bytes of the file and then zeros, and no byte that the process sees changes |
| `Paging.FetchesLastStore` | pintos/src/vm/page.c:106-275 | in the flat memory of a run a fetch gives the byte of the last store to that place, if the page was not freed or lost since |
| `Paging.FetchesFirstByte` | pintos/src/vm/page.c:106-275 | and the byte that was there at the start, if there was no store |
| `Paging.HaltsOnly` | pintos/src/vm/page.c:258-275 | a run can end early nowhere else |
| `Paging.FirstChoiceIs` | pintos/src/vm/frame.c:275-310 | the first sweep takes an unpinned frame whose page is read-only, or none of whose four bits, accessed and dirty of the process and of the kernel, is set |
| `Paging.Pager.AllocatePage` | pintos/src/vm/page.c:106-144 | a new page reads as zeros, an address that has a page gets that page, and only null and kernel addresses are refused |
| `Paging.Pager.AllocateFrame` | pintos/src/vm/frame.c:147-198 | the page gets an all-zero frame with both dirty bits clear, from the pool or else the frame of the second-chance rule; memory is then exactly what the eviction leaves |
| `Paging.Pager.InstallFrame` | pintos/src/vm/frame.c:201-227 | mapping a loaded frame makes its bytes the page's bytes; failure gives the frame back |
| `Paging.Pager.FreeFrame` | pintos/src/vm/frame.c:230-259 | a frame goes back to the pool; the page keeps what it has in swap, or is its initial image, and a page that was being loaded loses nothing; the clock hand stays on a listed frame if and only if it was not on this one |
| `Paging.Pager.FreePageEntry` | pintos/src/vm/page.c:258-275 | exactly that page leaves the memory, its frame returns to the pool and its slot is free again; the clock hand stays on a listed frame if and only if it was not on the page's frame |
| `Paging.Pager.EvictFrame` | pintos/src/vm/frame.c:261-363 | whenever some frame is unpinned a frame is taken by the second-chance rule, within two sweeps; no page but the one in it can change, and that one becomes its initial image exactly when it was marked and swap was full |
| `Paging.Pager.ChooseVictim` | pintos/src/vm/frame.c:269-326 | the sweep takes the first frame that the rule allows, leaves the hand just after it, and changes only accessed, dirty and async_write marks in a way that keeps every modification known |
| `Paging.ClockTakes` | pintos/src/vm/frame.c:275-326 | the sweep ends for every table with an unpinned frame, takes the frame of the second-chance rule and keeps the table invariant and the process's view |
| `Paging.Pager.EmptyFrame` | pintos/src/vm/frame.c:336-353 | the page is in swap afterwards if and only if a mark (user dirty bit, kernel dirty bit or async_write) was set and swap was not full; without a mark it still is its initial image; memory is kept if and only if not (swap full, marked, and different from the initial image); no other page changes |
| `Paging.LosingEviction` | pintos/src/vm/frame.c:336-353 | without a swap slot, a page that was loaded, written and evicted reads as zeros |
| `Paging.LostHand` | pintos/src/vm/page.c:258-275 | a concrete run after which the clock hand is on a frame that was freed |
| `Paging.Pager.RoomForVictim` | pintos/src/vm/swap.c:135-165 | with as many slots as pages, a resident frame implies that swap is not full |
| `Paging.Pager.FetchByte` | pintos/src/vm/frame.c:81-94 | a load reads the byte that the flat memory holds, across the fault and evictions it may cause, and says which page they lose, if any |
| `Paging.Pager.StoreByte` | pintos/src/vm/frame.c:81-110 | a store changes exactly that byte of the flat memory, but for the page that its fault may lose |
| `Swap.SwapTable.PushToSwap` | pintos/src/vm/swap.c:57-79 | the page is saved exactly, no other saved page changes, and it fails exactly when every slot the disk can hold is in use |
| `Swap.SwapTable.PullFromSwap` | pintos/src/vm/swap.c:83-106 | the bytes saved come back and the slot is recycled; a page not in swap changes nothing |
| `Swap.SwapTable.FreeSwap` | pintos/src/vm/swap.c:109-130 | the slot moves to the free end of the list and only its page is forgotten |
| `Swap.SwapTable.GetFreeSlot` | pintos/src/vm/swap.c:135-165 | a slot that no page uses, distinct from all others; none exactly when every slot is in use |
| `Swap.SwapTable.GetSwappedPage` | pintos/src/vm/swap.c:168-185 | the position of the page's slot, or that no slot holds the page |
| `Swap.SwapTable.ReadSwap` | pintos/src/vm/swap.c:188-194 | the page is the slot's eight sectors in order |
| `Swap.SwapTable.WriteSwap` | pintos/src/vm/swap.c:197-205 | the slot's sectors hold the page and no other sector changes |
| `Swap.RotatedKeeps` | pintos/src/vm/swap.c:109-130 | freeing keeps used slots a prefix and free ones a suffix, slots on distinct multiples of eight sectors, and one slot per page |
| `KernelList.Insert` | pintos/src/lib/kernel/list.c:167-177 | the links are those of the sequence with the element put in before the given one |
| `KernelList.Remove` | pintos/src/lib/kernel/list.c:247-254 | the links are those of the sequence without the element, and its successor is returned |
| `KernelList.Splice` | pintos/src/lib/kernel/list.c:182-203 | a range moved to an earlier or later place of the same list, or to another list, leaves the links of the rearranged sequences |
| `KernelList.Reverse` | pintos/src/lib/kernel/list.c:324-336 | every interior element has its two links exchanged and the ends are swapped, so that the links are those of the mirrored interior between the same head and tail |
| `KernelList.FindEndOfRun` | pintos/src/lib/kernel/list.c:356-371 | the end of the maximal nondecreasing run, not past the bound |
| `KernelList.InplaceMerge` | pintos/src/lib/kernel/list.c:378-398 | two adjacent ranges become their merge, by splicing alone |
| `KernelList.MergedIsSorted` | pintos/src/lib/kernel/list.c:378-398 | the merge of two sorted ranges is sorted and a stable permutation, for every strict weak order |
| `KernelList.SortPass` | pintos/src/lib/kernel/list.c:416-436 | one pass over r runs puts out exactly (r + 1) / 2 and leaves at most that many, as a stable permutation |
| `KernelList.Sort` | pintos/src/lib/kernel/list.c:403-439 | it ends, and leaves a well-formed list that is a sorted, stable permutation of the original nodes |
| `KernelList.InsertOrdered` | pintos/src/lib/kernel/list.c:444-458 | a sorted list stays sorted, with the new element after everything not greater |
| `Division.Nlz` | pintos/src/lib/arithmetic.c:41-73 | the count of leading zero bits: the word shifted by it has its top bit set and loses no bit |
| `Division.NarrowNoTrap` | pintos/src/lib/arithmetic.c:80-90 | both divisions of the narrow case have quotients of 32 bits |
| `Division.WideEstimate` | pintos/src/lib/arithmetic.c:91-126 | in the wide case the division instruction does not trap and the estimate is the true quotient or one more, the case s = 31 included |
| `Division.EstimateOffByOne` | pintos/src/lib/arithmetic.c:91-126 | cutting the divisor to its top 32 bits moves the quotient up by at most one |
| `Division.Correction` | pintos/src/lib/arithmetic.c:118-126 | the correction step picks the true quotient and its subtraction does not wrap |
| `Division.UDiv64` | pintos/src/lib/arithmetic.c:77-127 | the quotient is floor(n / d) for all 64-bit n and nonzero d |
| `Division.SDiv64` | pintos/src/lib/arithmetic.c:139-146 | division truncated toward zero, for every pair if and only if it is not INT64_MIN and -1 |
| `Division.SignedLimit` | pintos/src/lib/arithmetic.c:139-146 | the quotient of the absolute values does not fit a signed word exactly for INT64_MIN and 1 or -1; for 1 the negation wraps to the right result |
| `Division.UMod64` | pintos/src/lib/arithmetic.c:131-135 | the remainder modulo 2^32, hence the remainder exactly when that fits 32 bits |
| `Division.SMod64` | pintos/src/lib/arithmetic.c:150-154 | the signed remainder exactly when it fits 32 bits |
| `Division.TruncDivIs` | pintos/src/lib/arithmetic.c:139-154 | truncated division leaves a rest smaller than the divisor, with the sign of the dividend |
| `Bitmaps.Bitmap.Mark` | pintos/src/lib/kernel/bitmap.c:157-167 | sets one bit and no other |
| `Bitmaps.Bitmap.Reset` | pintos/src/lib/kernel/bitmap.c:170-180 | clears one bit and no other |
| `Bitmaps.Bitmap.Flip` | pintos/src/lib/kernel/bitmap.c:185-195 | flips one bit and no other |
| `Bitmaps.Bitmap.SetMultiple` | pintos/src/lib/kernel/bitmap.c:218-229 | exactly the bits of the range have the value afterwards, and the others are as they were |
| `Bitmaps.Bitmap.Count` | pintos/src/lib/kernel/bitmap.c:233-247 | the number of places in the range that hold the value |
| `Bitmaps.Bitmap.Contains` | pintos/src/lib/kernel/bitmap.c:251-264 | whether some bit in a range has the value |
| `Bitmaps.Bitmap.Scan` | pintos/src/lib/kernel/bitmap.c:296-311 | the first group of bits that are all of a value, or that there is none |
| `Bitmaps.Bitmap.ScanAndFlip` | pintos/src/lib/kernel/bitmap.c:320-327 | that group is flipped and no other bit; nothing changes if there is none |
| `PageAllocator.Pool.constructor` | pintos/src/threads/palloc.c:153-170 | a pool starts with every page free behind its own bitmap, which has the fewest pages that hold 8 bytes and a word for every 32 pages |
| `PageAllocator.Pool.GetMultiple` | pintos/src/threads/palloc.c:70-101 | the lowest run of free pages becomes used; it fails exactly when there is none or none is asked for |
| `PageAllocator.Pool.FreeMultiple` | pintos/src/threads/palloc.c:117-142 | exactly the pages given back become free |
| `Malloc.Client.Run` | pintos/src/threads/malloc.c:89-264 | over every run of malloc, realloc, free, stores and loads, sizes that overflow included: a request is refused exactly when no block is listed and the pages it takes cannot be had, each load gives what was last stored behind that pointer, realloc keeps what fits, and every state is a good heap in which the pointers lead to their bytes; the run stops only at a realloc that copies past its new block |
| `Malloc.NoOverlap` | pintos/src/threads/malloc.c:89-264 | in every state of such a run the memory behind two pointers does not overlap |
| `Malloc.NoLeak` | pintos/src/threads/malloc.c:89-264 | in every state of such a run by the only client in which it holds nothing, no block is allocated, there is no arena, and every page that the heap took is back in the pool |
| `Malloc.ReleaseShrinks` | pintos/src/threads/malloc.c:218-264 | over such a run a release takes exactly the block of its pointer off the allocated ones |
| `Malloc.WrappedGrant` | pintos/src/threads/malloc.c:107-119 | on a fresh pool a request for 2^32 - 1 bytes is granted a block of one page |
| `Malloc.LiveDisjoint` | pintos/src/threads/malloc.c:89-294 | allocated blocks are pairwise disjoint in every good heap |
| `Malloc.Allocator.constructor` | pintos/src/threads/malloc.c:71-85 | seven descriptors of 16 to 1024 bytes with empty lists, and no arena |
| `Malloc.Allocator.Malloc` | pintos/src/threads/malloc.c:89-154 | it fails exactly for size zero, when no block is listed and no page can be had, or, for more than 1024 bytes, when no run of the least number of pages that hold them is free, and always where rounding up alone overflows; otherwise a block that was not allocated, where every other block stays; it has the size asked for if and only if line 109 does not overflow, less than a page more for a big one, and less than twice the size or 16 for a small one; free lists, counts and the absence of idle arenas are kept |
| `Malloc.PageCountIs` | pintos/src/threads/malloc.c:107-111 | the pages of a big block are the fewest that hold it behind the header, unless 32 bits overflow; where only the rounding does, none is asked for |
| `Malloc.GrantedIs` | pintos/src/threads/malloc.c:107-119 | a client may count on all that it asked for, or on one page where the size with the header does not fit 32 bits |
| `Malloc.Allocator.TakeSmall` | pintos/src/threads/malloc.c:121-153 | a small block is refused exactly when none of its size is listed and no page can be had; otherwise it has the size of its descriptor and no other block moves |
| `Malloc.Allocator.NewArena` | pintos/src/threads/malloc.c:121-145 | a page from the pool becomes an arena with every block of it on the free list |
| `Malloc.Allocator.Free` | pintos/src/threads/malloc.c:218-264 | exactly that block is released, and no other block moves or changes a byte |
| `Malloc.Allocator.FreeBlock` | pintos/src/threads/malloc.c:226-252 | the block returns to its list, and an arena with no block in use returns its page to the pool |
| `Malloc.Allocator.Realloc` | pintos/src/threads/malloc.c:194-214 | the new block starts with the first min(old, new) bytes of the old one and failure changes nothing; the number of bytes to copy exceeds the new block if and only if the rounding overflows and the old block has more than one page |
| `Malloc.OverrunningRealloc` | pintos/src/threads/malloc.c:194-214 | a block of 5000 bytes resized to 2^32 - 1 is to be copied into a block of one page |
| `Malloc.OverrunningWhen` | pintos/src/threads/malloc.c:194-214 | a run stops there exactly when the size wraps and the client has more bytes than fit on a page |
| `Malloc.DecodeBlock` | pintos/src/threads/malloc.c:267-294 | an address determines its arena and its place in it |
| `Malloc.BlocksFit` | pintos/src/threads/malloc.c:285-294 | the blocks of an arena lie behind its header and inside its page |
| `Malloc.GivenGood` | pintos/src/threads/malloc.c:236-252 | returning a block keeps each list equal to the unallocated blocks and each count equal to the blocks on the list |
| `HashTable.Run` | pintos/src/lib/kernel/hash.c:98-154 | over any mix of operations the table answers as a plain set modulo less-equality, elem_cnt is its cardinality, and the number of buckets follows it after every insertion, replacement and deletion at which new buckets could be allocated |
| `HashTable.RunDetermined` | pintos/src/lib/kernel/hash.c:98-154 | the set determines every answer, so no rehash or failed allocation shows in one |
| `HashTable.Table.Insert` | pintos/src/lib/kernel/hash.c:98-110 | adds the element unless an equal one is there, which is returned |
| `HashTable.Table.Replace` | pintos/src/lib/kernel/hash.c:114-127 | the element takes the place of an equal one, which is returned |
| `HashTable.Table.Find` | pintos/src/lib/kernel/hash.c:131-135 | the equal element, or that there is none |
| `HashTable.Table.Delete` | pintos/src/lib/kernel/hash.c:144-154 | removes and returns the equal element, and nothing else |
| `HashTable.Table.Rehash` | pintos/src/lib/kernel/hash.c:351-413 | no element is gained or lost and every one is in the bucket of its hash; it fails exactly when new buckets are needed and cannot be allocated, and then changes nothing; otherwise the bucket count is the largest power of two up to max(4, n / 2) |
| `HashTable.BalancedOnce` | pintos/src/lib/kernel/hash.c:365-376 | only one bucket count is the ideal one |
| `HashTable.IdealCount` | pintos/src/lib/kernel/hash.c:365-373 | the loop over the lowest bits ends at the largest power of two not above its start |
| `HashTable.IsPowerOf2Correct` | pintos/src/lib/kernel/hash.c:329-340 | the bit test decides being a power of two |
| `HashTable.TurnOffKeepsTop` | pintos/src/lib/kernel/hash.c:329-333 | turning off the lowest bit of a number that is no power of two keeps it above the same powers of two |
| `HashTable.MaskIsRemainder` | pintos/src/lib/kernel/hash.c:305-310 | masking with a power of two less one is the remainder |
| `HashTable.FoundInBucket` | pintos/src/lib/kernel/hash.c:305-326 | an element equal to the key is in the key's bucket |
| `HashTable.Table.ContentsApart` | pintos/src/lib/kernel/hash.c:247-251 | elem_cnt is the number of elements and no two are equal |
| `HashTable.Iterator.constructor` | pintos/src/lib/kernel/hash.c:199-208 | the iteration has the whole table before it |
| `HashTable.Iterator.Next` | pintos/src/lib/kernel/hash.c:218-235 | each step takes the next element, and the end comes exactly when none is left |
| `HashTable.Traverse` | pintos/src/lib/kernel/hash.c:184-235 | a full iteration visits each element exactly once |
| `Donation.UpdateActivePriority` | pintos/src/threads/thread.c:811-831 | if donor entries match donee links, the donees from t on end, and all threads but t have priority = max(native, donors'), it ends and all threads have; only threads down the chain change |
| `Donation.HighestDonated` | pintos/src/threads/thread.c:815-823 | the highest priority among the donors, and PRI_MIN at least |
| `Donation.DonationReaches` | pintos/src/threads/thread.c:811-831 | a donation is felt by every thread down a chain of registered donations |
| `Donation.Donate` | pintos/src/threads/synch.c:225-247 | a donation is registered exactly when the holder's native priority is lower and it has room, and then every priority is right again |
| `Donation.Recall` | pintos/src/threads/synch.c:248-254 | after the donee link is cleared, donor entries match donee links if and only if the donee no longer lists the thread; priorities stay right |
| `Donation.SetNativePriority` | pintos/src/threads/thread.c:475-485 | the native priority is clamped and every thread's priority is right again |
| `Donation.Pass` | pintos/src/threads/synch.c:217-329 | a release and the end of the waiter's acquire keep the links matched if and only if the holder's priority was above its native one |
| `Donation.BrokenByRaise` | pintos/src/threads/synch.c:286-321 | donation, thread_set_priority to 40, release, acquire: the holder goes on listing a donor that donates to no one |
| `Donation.Compact` | pintos/src/threads/synch.c:290-313 | the loop ends; what it keeps is, as a set, the entries of other locks; it shortens the list exactly when the last entry was over the released lock |
| `Donation.ReleaseDonors` | pintos/src/threads/synch.c:286-321 | every donation over the lock is given back; the priority is right afterwards if and only if the last donor listed waited for this lock or the donations given back did not decide it |
| `Donation.StaleAfterRelease` | pintos/src/threads/synch.c:314-321 | a release after which the releaser keeps the priority of a donor that is gone |
| `Scheduler.Kernel.Run` | pintos/src/threads/synch.c:61-147 | in every interleaving of scheduler, semaphore and lock steps each step that can happen does exactly what its specification says, and every state is safe: mutual exclusion, one list per thread, an exact ready count, ready if and only if on the ready list, blocked in sema_down and on its list if and only if not stranded |
| `Scheduler.Kernel.Do` | pintos/src/threads/synch.c:61-329 | each step changes the kernel exactly as specified |
| `Scheduler.StrandedWhen` | pintos/src/threads/synch.c:70-76 | a thread becomes stranded exactly when it looks at its semaphore again after a wait and finds no value |
| `Scheduler.StrandedForever` | pintos/src/threads/synch.c:70-76 | in every run a stranded thread stays blocked in the same sema_down and on no list ever after |
| `Scheduler.StrandedKept` | pintos/src/threads/synch.c:61-147 | every step keeps it that a blocked sema_down has its place on the list if and only if its thread is not stranded |
| `Scheduler.RunOrder` | pintos/src/threads/thread.c:344-455 | in every run without changes of priority an ordered ready list stays ordered, and no thread gets the processor while one of higher priority is ready |
| `Scheduler.OrderKept` | pintos/src/threads/thread.c:344-455 | every step keeps the ready list ordered, but for a change of the priority of a thread on it, and hands the processor to a thread that none is above |
| `Scheduler.ReorderedWhen` | pintos/src/threads/thread.c:811-836 | a thread on the list whose priority changes keeps its place, so the list stays ordered if and only if the new priority lies between those of its neighbours |
| `Scheduler.LowerRunsFirst` | pintos/src/threads/thread.c:811-836 | an instance: a donation to the second of two ready threads, and the first, of lower priority, runs next |
| `Scheduler.Kernel.Safety` | pintos/src/threads/synch.c:217-329 | the invariant of the steps gives those four properties |
| `Scheduler.MutualExclusion` | pintos/src/threads/synch.c:217-329 | a lock's value is 0 or 1, it is 1 exactly when no thread is past its down and before its up, and no two threads are |
| `Scheduler.Kernel.SemaDown` | pintos/src/threads/synch.c:61-78 | takes the value, or joins the wait list and hands the processor over; on a lock, the down of lock_acquire |
| `Scheduler.Kernel.SemaDownAgain` | pintos/src/threads/synch.c:74-76 | a woken thread takes the value, or waits again without a place on the list and is then stranded |
| `Scheduler.Kernel.SemaTryDown` | pintos/src/threads/synch.c:85-104 | takes the value exactly when there is one, and otherwise changes nothing |
| `Scheduler.Kernel.SemaUp` | pintos/src/threads/synch.c:110-141 | the value goes up by one and the first of the highest-priority waiters moves to the ready list |
| `Scheduler.Kernel.HighestWaiter` | pintos/src/threads/synch.c:119-134 | the search finds the first of the waiters with the highest priority |
| `Scheduler.Kernel.NameHolder` | pintos/src/threads/synch.c:249 | naming the holder leaves the same thread past the lock |
| `Scheduler.Kernel.ClearHolder` | pintos/src/threads/synch.c:323 | clearing the holder leaves the same thread past the lock |
| `Scheduler.Kernel.SemaInit` | pintos/src/threads/synch.c:45-52 | a new semaphore has no waiters |
| `Scheduler.Kernel.LockInit` | pintos/src/threads/synch.c:201-208 | a new lock is free |
| `Scheduler.Kernel.Block` | pintos/src/threads/thread.c:326-334 | the running thread is blocked and the next one runs |
| `Scheduler.Kernel.Unblock` | pintos/src/threads/thread.c:344-367 | the thread joins the ready list before the first of no higher priority; an ordered list stays ordered |
| `Scheduler.Kernel.Yield` | pintos/src/threads/thread.c:426-455 | the running thread goes behind its equals; on an ordered list the next to run has at least its priority |
| `Scheduler.Kernel.Schedule` | pintos/src/threads/thread.c:781-795 | the front of the ready list runs next, or the idle thread |
| `Scheduler.Kernel.Create` | pintos/src/threads/thread.c:236-318 | a new thread is on the ready list |
| `Scheduler.Kernel.Exit` | pintos/src/threads/thread.c:404-422 | a dying thread is on no list and another runs |
| `Scheduler.LostWakeup` | pintos/src/threads/synch.c:70-75 | a run after which a thread is stranded while the value of its semaphore is positive |
| `Mlfqs.FeedbackQueue.Run` | pintos/src/threads/thread.c:164-204 | over any run of ticks, creations, exits and changes of niceness with at most n <= 2000 threads, each event has exactly the effect specified, nothing overflows 32 bits, and every state is within the bounds |
| `Mlfqs.RunBounded` | pintos/src/threads/thread.c:164-204 | in every state of a run 0 <= load_avg <= Float(n), recent_cpu is within its bounds and priorities are within PRI_MIN and PRI_MAX |
| `Mlfqs.RunFollows` | pintos/src/threads/thread.c:164-204 | over a run each tick charges the running thread, each 100th brings load_avg and recent_cpu to 59/60 load + 1/60 busy and 2 load/(2 load + 1) recent + nice with bounded error, and each fourth brings every priority to its formula |
| `Mlfqs.Priority` | pintos/src/threads/thread.c:194-199 | the priority is the formula rounded and kept in range |
| `Mlfqs.PriorityMonotone` | pintos/src/threads/thread.c:194-199 | raising recent_cpu or nice never raises the priority |
| `Mlfqs.Load` | pintos/src/threads/thread.c:170-175 | 60 F times the new load falls short of F (59 load + F busy) by less than 44 load + 16 F busy + 60 F, and never exceeds it |
| `Mlfqs.Recent` | pintos/src/threads/thread.c:180-182 | the decayed value is cut toward nice by less than recent_cpu / F + 1 |
| `Mlfqs.RoundIs` | pintos/src/threads/fixedpoint.h:33-39 | rounding gives the nearest integer |
| `Mlfqs.FeedbackQueue.Tick` | pintos/src/threads/thread.c:149-204 | what one tick does to load_avg and to each thread, without overflow and within the bounds |
| `Mlfqs.FeedbackQueue.EverySecond` | pintos/src/threads/thread.c:170-182 | load_avg and every recent_cpu follow their formulas with the errors of LoadIs and RecentIs, and afterwards every recent_cpu is in [-20F(2n+1), 120F(2n+1)] |
| `Mlfqs.FeedbackQueue.EveryFourth` | pintos/src/threads/thread.c:190-203 | every native priority is PRI_MAX - recent_cpu / 4 - 2 nice to within half a unit and 3/4F, kept within PRI_MIN and PRI_MAX, and nothing else changes |
| `Mlfqs.FeedbackQueue.Create` | pintos/src/threads/thread.c:281-295 | the child inherits niceness and recent_cpu, has the priority of the formula and stays within the bounds |
| `Mlfqs.FeedbackQueue.SetNice` | pintos/src/threads/thread.c:507-526 | niceness is clamped to [-20, 20] and the priority is that of the formula |
| `Mlfqs.LoadStep` | pintos/src/threads/thread.c:170-175 | the load average stays between 0 and Float(n), with no overflow on the way |
| `Mlfqs.Decay` | pintos/src/threads/thread.c:180-182 | the decay factor is at most 2n / (2n + 1) |
| `Mlfqs.RecentStep` | pintos/src/threads/thread.c:180-182 | the decay undoes up to 100 ticks of charges |
| `Mlfqs.Fractions` | pintos/src/threads/thread.c:126-127 | the two constants of thread_init |
| `Mlfqs.ProductFits` | pintos/src/threads/fixedpoint.h:53-60 | the products of MulF and DivF fit 64 bits |
| `Mlfqs.DivideByF` | pintos/src/threads/fixedpoint.h:33-35 | division by F rounds toward zero |
| `Inode.File.Run` | pintos/src/filesys/inode.c:421-737 | any sequence of reads and writes, each with or without memory for the bounce buffer, memory for any number of further nodes and any number of writes of the free map that succeed, leaves the file and gives the answers of the specification, up to the first call that is to access a byte for which no sector is found |
| `Inode.RunFlat` | pintos/src/filesys/inode.c:421-577 | with memory, a writable free map, as many free sectors as the growth takes and no write past 244 sectors, the specification is a flat file that grows on write and reads zero in gaps |
| `Inode.ServedFlat` | pintos/src/filesys/inode.c:485-577 | one call agrees with the flat file if and only if it stays within 244 sectors and the free sectors suffice |
| `Inode.SmallFilesFit` | pintos/src/filesys/inode.c:684-737 | files that never pass 243 sectors stay in their first node, whatever is done to them |
| `Inode.File.ReadAt` | pintos/src/filesys/inode.c:421-480 | the bytes of the flat file; without the bounce buffer exactly the whole sectors before the first part of one; the kernel stops exactly when a byte past 244 sectors is to be read |
| `Inode.File.WriteAt` | pintos/src/filesys/inode.c:485-577 | a flat write of the bytes reported into a file grown to the full request; a denied write changes nothing; when growth fails no byte is written; the kernel stops exactly when a byte past 244 sectors is to be written |
| `Inode.File.Grow` | pintos/src/filesys/inode.c:606-737 | growth takes the sectors of the node and of further nodes in turn, and fails exactly where a sector or the memory for a node cannot be had |
| `Inode.File.MakeNodes` | pintos/src/filesys/inode.c:624-679 | making further nodes changes no byte of the file |
| `Inode.ChainCost` | pintos/src/filesys/inode.c:624-737 | further nodes for b bytes can be made if and only if there are a free sector and a write of the free map for each node and each 512 bytes, and memory for the nodes; they take exactly these sectors |
| `Inode.FailedGrowth` | pintos/src/filesys/inode.c:606-737 | a failed growth leaves the length of the file as it was if and only if it fails in the first node |
| `Inode.PastFirstNode` | pintos/src/filesys/inode.c:485-577 | one byte written past the first node of an empty file: the kernel stops, or the write reports 0 and the file is longer all the same |
| `Inode.File.Fill` | pintos/src/filesys/inode.c:684-737 | it fails exactly when the free map does not yield its sectors, and this shows in no byte; otherwise growth goes into this node if and only if its last slot is not begun and the bytes fit |
| `Inode.LastSlotRefused` | pintos/src/filesys/inode.c:684-737 | a node of 243 sectors and one byte does not take one byte more |
| `Inode.NextRound` | pintos/src/filesys/inode.c:697-731 | the number of sectors that growth takes, one at least even where the begun sector has room |
| `Inode.File.FillSlot` | pintos/src/filesys/inode.c:697-731 | a zeroed sector enters the next slot, even one that was filled before, and the bytes behind it stay |
| `Inode.File.ByteToSector` | pintos/src/filesys/inode.c:182-255 | the sector that holds the byte, and none exactly past the end of the file or past 244 sectors |
| `Inode.OnlyFirstNode` | pintos/src/filesys/inode.c:182-226 | since prev_length is never set, no byte is found in a further node, however long the chain |
| `Inode.StoredGrow` | pintos/src/filesys/inode.c:704-713 | a zeroed sector in the next slot extends the stored bytes by zeros |
| `Inode.StoredOverwrite` | pintos/src/filesys/inode.c:525-569 | rewriting one sector changes the file there and nowhere else |
| `Inode.PtrRoundTrip` | pintos/src/filesys/inode.c:38-63 | a pointer names its sector if and only if the sector number fits 14 bits |
| `Inode.WriteThenRead` | pintos/src/filesys/inode.c:421-577 | the flat file returns what was written, is untouched elsewhere and reads zero in gaps |
| `Inode.FlatReadIs` | pintos/src/filesys/inode.c:421-480 | a read gives the bytes from the offset on, as many as were asked for or as there are |
| `Inode.ChunkSize` | pintos/src/filesys/inode.c:439-447 | a chunk is the largest that stays inside the request, the sector and the file, and is empty exactly at the end |
| `Inode.MovedNext` | pintos/src/filesys/inode.c:429-470 | how far the copying loops get: to the end with the bounce buffer, to the first part of a sector without |
| `Inode.MovedIs` | pintos/src/filesys/inode.c:429-470 | without the bounce buffer an aligned copy moves every whole sector, and one that is not aligned moves nothing |
| `Printf.FormatInteger` | pintos/src/lib/stdio.c:469-547 | in every base with distinct digits: the digits of the text spell the value; a minus sign stands before them if and only if the conversion is signed and the value negative, a plus or a space exactly as the flags say; 0x and separators stand exactly where they belong; the length is what width and precision say, with the padding on the side of the flags; and the 64-byte buffer is never outrun |
| `Printf.FormattedSays` | pintos/src/lib/stdio.c:469-547 | the same of the text as a function of value, sign, base and flags |
| `Printf.ReadDigits` | pintos/src/lib/stdio.c:504-513 | the digits put out read back as the value, with or without separators |
| `Printf.LowFirstCommas` | pintos/src/lib/stdio.c:506-508 | separators stand after each whole group of digits from the right, and only if more follow |
| `Printf.LowFirstChars` | pintos/src/lib/stdio.c:504-513 | how many characters a number of k digits takes |
| `Printf.DigitCountIs` | pintos/src/lib/stdio.c:504-513 | a value has k digits exactly when it lies between the powers of the base |
| `Printf.BasesProper` | pintos/src/lib/stdio.c:138-141 | the four bases have distinct digits, none of them a mark |
| `Printf.LowFirstLength` | pintos/src/lib/stdio.c:504-513 | a 64-bit value with separators needs at most 44 characters |
| `Printf.OctalRoundTrip` | pintos/src/lib/stdio.c:469-547 | "%0wo" prints exactly w octal digits that read back as the value |
| `Ustar.RoundTrip` | pintos/src/lib/ustar.c:82-227 | a header made for a name, type and size parses to the stripped name, the type and the size (0 for a directory); for a regular file exactly when the size is not negative |
| `Ustar.OneChangeDetected` | pintos/src/lib/ustar.c:181-227 | changing any one byte outside the checksum field of a header that parses makes parsing report an error |
| `Ustar.StripIdempotent` | pintos/src/lib/ustar.c:65-73 | stripping twice is stripping once |
| `Ustar.StripSocial` | pintos/src/lib/ustar.c:65-73 | a stripped name is a suffix of the name or ".", is not empty, is not "..", and starts with no "/", "./" or "../" |
| `Ustar.StripAntisocialPrefixes` | pintos/src/lib/ustar.c:65-73 | the result is the name from the least place at which a chain of "/", "./" and "../" ends and no further one begins, or "." if nothing or ".." is left |
| `Ustar.StripLaws` | pintos/src/lib/ustar.c:65-73 | a name that starts with no such prefix is kept, and a prefix in front of any name adds nothing |
| `Ustar.ParseAccepts` | pintos/src/lib/ustar.c:181-227 | exactly which headers are accepted, by bytes and offsets, and what is read from them |
| `Ustar.HeaderFields` | pintos/src/lib/ustar.c:82-118 | the permissions, owner and time of a header, by bytes and offsets |
| `Ustar.SumIs` | pintos/src/lib/ustar.c:36-54 | the checksum is the octets before and behind the field and eight spaces |
| `Ustar.OctalFieldIs` | pintos/src/lib/ustar.c:129-162 | a field is its digits read in base eight if they end in a space or null byte and fit 32 bits, and nothing otherwise |
| `Ustar.CalculateChksum` | pintos/src/lib/ustar.c:36-54 | the sum of the octets with the checksum field taken as spaces |
| `Ustar.SumChanged` | pintos/src/lib/ustar.c:36-54 | one changed octet changes the sum by as much |
| `Ustar.ChksumRoundTrip` | pintos/src/lib/ustar.c:114-115 | the checksum filled in is read back as the checksum of the whole header |
| `Ustar.MakeHeader` | pintos/src/lib/ustar.c:82-118 | it fails exactly for a stripped name of more than 99 bytes, and otherwise fills in every field of the layout |
| `Ustar.ParseOctalField` | pintos/src/lib/ustar.c:129-162 | the value of a field of digits ended by a space or null byte, failing on an empty, unended, malformed or overflowing one |
| `Ustar.ParseHeader` | pintos/src/lib/ustar.c:181-227 | the end of the archive, an entry, or the first error in the order of the checks |
| `Ustar.Vsnprintf` | pintos/src/lib/stdio.c:25-52 | the first size - 1 bytes of the text, then a null byte, and nothing outside the field |
| `Ustar.Strlcpy` | pintos/src/lib/string.c:325-343 | the first size - 1 bytes of the string, then a null byte, and nothing outside the field |
| `Ustar.PieceFound` | pintos/src/lib/ustar.c:11-33 | fields of the layout do not overlap: each is found where it was put |
| `Tokens.StrtokR` | pintos/src/lib/string.c:234-275 | it cuts out the next token in place, touches nothing before it, and reports the end exactly when no token is left |
| `Tokens.SpansAreMaximal` | pintos/src/lib/string.c:234-275 | the tokens are exactly the maximal delimiter-free stretches |
| `Tokens.SpansInOrder` | pintos/src/lib/string.c:234-275 | the tokens come in order and do not overlap |
| `Tokens.SplitIsTexts` | pintos/src/lib/string.c:234-275 | their texts are those of splitting the string recursively |
| `Path.PathNormpath` | pintos/src/filesys/path.c:73-155 | the loop over the parts computes the fold of its step |
| `Path.NormPathEvaluates` | pintos/src/filesys/path.c:73-155 | for every valid absolute path, normalization is stack evaluation of the components |
| `Path.NormPathIdempotent` | pintos/src/filesys/path.c:73-155 | for every valid absolute path, normalizing twice is normalizing once |
| `Path.NormPathLaws` | pintos/src/filesys/path.c:73-155 | after any valid absolute path "." changes nothing, a component adds itself, ".." undoes it, and the root stays the root |
| `Path.NormRelativeLaws` | pintos/src/filesys/path.c:73-155 | after any valid relative path "." changes nothing, a component adds itself, and ".." takes the directory name or stays where nothing came before |
| `Path.NormRelativeEvaluates` | pintos/src/filesys/path.c:73-155 | for every valid relative path, normalization is stack evaluation under the anchor ("." or "..") that climbing above the start leaves in front |
| `Path.NormRelativeIdempotent` | pintos/src/filesys/path.c:64-72 | for every valid relative path, normalizing twice is normalizing once if and only if the path does not climb back to its start and go down again |
| `Path.NormRelativeMeans` | pintos/src/filesys/path.c:64-155 | in a working directory, a valid relative path and its normal form mean the same if and only if the directory is the root, or the path does not climb above its start, or it does so once before any return to it |
| `Path.LostClimb` | pintos/src/filesys/path.c:73-155 | from /a/b the name "../.." means the root, and its normal form "." means /a/b |
| `Path.EvalAbove` | pintos/src/filesys/path.c:73-155 | a path leads up as often as it climbs above its start, and then down its own stack |
| `Path.NotIdempotent` | pintos/src/filesys/path.c:64-72 | "a/../b" normalizes to "./b", which is not its own normal form |
| `Path.AbsPathEvaluates` | pintos/src/filesys/path.c:45-57 | from a normalized working directory, the absolute path evaluates the name's components on the directory's stack |
| `Path.DirBaseJoin` | pintos/src/filesys/path.c:163-271 | the directory and base names of a normalized non-root path join to it |
| `Path.DirNamePops` | pintos/src/filesys/path.c:163-225 | the directory name of a stack's path is that of the stack without its top |
| `Path.RelativeDirName` | pintos/src/filesys/path.c:163-225 | the directory name of a relative path drops its last component, and is "." for a single one |
| `Path.RelativeBaseName` | pintos/src/filesys/path.c:232-271 | the base name of a relative path is its last component |
| `Path.BaseNameTops` | pintos/src/filesys/path.c:232-271 | the base name of an absolute path is its last component |
| `Path.RenderParts` | pintos/src/filesys/path.c:73-155 | the path of a stack is absolute and splits into the stack |
| `Path.PathDirname` | pintos/src/filesys/path.c:163-225 | the parts but the last, joined from the left |
| `Path.PathBasename` | pintos/src/filesys/path.c:232-271 | the last part, or "/" or "." for none |
| `Path.PathJoin2` | pintos/src/filesys/path.c:310-367 | the first name, a separator that is added only if the first does not end in one, and the second; or the second alone if it is absolute |
| `Path.PathAbspath` | pintos/src/filesys/path.c:45-57 | join, then normalize |
| `Path.PathIsValid` | pintos/src/filesys/path.c:17-42 | valid exactly when not empty and of the allowed characters |
| `Path.PartsOfJoin` | pintos/src/filesys/path.c:310-367 | the parts of a join are the parts of both |
| `PageTable.PageDirectory.SetPage` | pintos/src/userprog/pagedir.c:98-119 | the page's entry becomes the user entry for the frame and no other entry changes; it fails exactly when a needed table cannot be had |
| `PageTable.PageDirectory.GetPage` | pintos/src/userprog/pagedir.c:125-137 | the kernel address of the byte, exactly when the page is present |
| `PageTable.PageDirectory.SetThenGet` | pintos/src/userprog/pagedir.c:98-137 | pagedir_set_page and then pagedir_get_page: every byte of the page is that byte of kpage, and every other address, or all of them if the set failed, lead where they led before |
| `PageTable.EntryTranslates` | pintos/src/threads/pte.h:83-104 | the entry made for kpage translates each offset to that byte of kpage |
| `PageTable.PageDirectory.ClearPage` | pintos/src/userprog/pagedir.c:143-157 | the present bit goes; every other bit and page is kept |
| `PageTable.PageDirectory.IsFlagged` | pintos/src/userprog/pagedir.c:163-197 | the dirty or accessed bit of the entry, false without a table |
| `PageTable.PageDirectory.SetFlag` | pintos/src/userprog/pagedir.c:172-215 | one bit of one entry changes, and nothing without a table |
| `PageTable.PageDirectory.FindEntry` | pintos/src/userprog/pagedir.c:56-86 | the place of the entry, exactly when there is a table |
| `PageTable.PageDirectory.EnsureTable` | pintos/src/userprog/pagedir.c:68-86 | a missing table is created and no entry changes |
| `PageTable.PageDirectory.constructor` | pintos/src/userprog/pagedir.c:16-23 | a new directory maps what the initial one maps |
| `PageTable.WordFormat` | pintos/src/threads/pte.h:44-68 | the word of an entry has the frame from bit 12 on and each flag at its bit |
| `PageTable.FlagChanges` | pintos/src/threads/pte.h:57-68 | setting or clearing a flag changes that bit of the word and no other bit |
| `PageTable.PteCreateMeans` | pintos/src/threads/pte.h:83-98 | a user entry is present, for the user, writable as asked, clean and not accessed |
| `PageTable.CreatedWords` | pintos/src/threads/pte.h:57-104 | the words in numbers: the physical address and 5 or 7 for a page, 7 for a table, and 0x20 and 0x40 more when accessed or dirty |
| `PageTable.Indexes` | pintos/src/threads/pte.h:31-39 | the two indexes of an address make up its page number |
| `HeapSort.Sort` | pintos/src/lib/stdlib.c:131-152 | an ordered permutation, for every total preorder |
| `HeapSort.Heapify` | pintos/src/lib/stdlib.c:96-123 | the heap property is restored from the index on, by a permutation of the heap alone |
| `HeapSort.RootIsLargest` | pintos/src/lib/stdlib.c:131-152 | the root of a heap is above all of it |
| `HeapSort.TailGrows` | pintos/src/lib/stdlib.c:146-151 | moving the root behind the heap extends the sorted tail |
| `HeapSort.BinarySearch` | pintos/src/lib/stdlib.c:184-207 | on an ordered array a match is returned exactly when one exists |
| `Alarm.AlarmClock.Run` | pintos/src/devices/timer.c:93-158 | over any run of sleeps and ticks the queue, its marks and the log of wakings are those of the reference clock |
| `Alarm.ExactlyOnce` | pintos/src/devices/timer.c:93-158 | in the reference clock every sleep begun is under way or was ended exactly once, at max(wakeTicks, the tick after it began), and none under way is overdue |
| `Alarm.RunInOrder` | pintos/src/devices/timer.c:93-158 | sleeps end in the order of their ticks, those of one tick by wake time, and those of one wake time in the order in which they began |
| `Alarm.AlarmClock.TimerSleep` | pintos/src/devices/timer.c:93-134 | the sleeper joins the line in order behind equal times, marked entries on the way are dropped, and no other sleeper moves |
| `Alarm.AlarmClock.Tick` | pintos/src/threads/thread.c:206-211 | a tick takes exactly the due sleepers off the line and logs each of them once |
| `Alarm.AlarmClock.TimerWake` | pintos/src/devices/timer.c:136-158 | stopping at the first later entry misses no one: the line keeps exactly the later sleepers and the log gains exactly the due ones |

## Left out

- Device drivers, interrupt and segment setup, context-switch assembly, system calls, ELF loading and user programs.
- Paging with more than one process, and clean_swap: dirty bits are read through the current process's page directory.
- Pages pinned while a run is under way: `Paging.Pager.Run` starts and stays with no frame pinned; single calls allow pins.
- The list that holds a thread's page entries: entries are a map by page.
- Short reads and page tables that cannot be allocated while `Paging.Pager.Run` is under way; `Paging.Pager.LoadPageEntry` covers them.
- list_unique, list_max and list_min: nothing else modelled depends on them.
- The split of memory into a kernel and a user pool at start-up; one pool is modelled.
- Malloc.Client.Run: what a realloc that copies more than its new block holds leaves behind; the run stops there.
- Paging.Pager.Run: what follows a clock hand on a freed frame, and the write of `pinned` to a freed frame.
- calloc, and bitmap_scan for zero bits.
- What is in the further nodes of a file, which no read finds; and a node that is freed after it was linked, when growth fails deeper in the chain.
- inode_open, inode_close, inode_remove, directories, and the free map's own file. The inode's own sector is only kept apart from the data sectors.
- Out-of-memory inside filesys/path.c: buffers are always had. Null pointers as names are not modelled.
- Names with characters that path_isvalid refuses: `Path.PathNormpath` covers them, the theorems about evaluation do not.
- Parsing of printf formats and the other conversions; `Printf.FormatInteger` has all flags, and vsnprintf's truncation is in `Ustar.Vsnprintf`.
- hash_clear, hash_destroy, hash_apply and the hash functions themselves; hash_init with failed allocation.
- Liveness of semaphores.
- Condition variables, which are built from the semaphores and locks modelled.
- The tables behind the dirty bits of `paging.dfy` are records there, and words in `pagedir.dfy`; translation lookaside buffers are not modelled.
- pagedir_destroy and pagedir_activate.
- HeapSort.Sort: elements are moved whole; the byte-by-byte swap of do_swap is not modelled.
- Alarm.AlarmClock.TimerSleep: the scan and insertion are one step, although interrupts are on during the scan.
- thread_get_load_avg and thread_get_recent_cpu, and active priorities under mlfqs.
