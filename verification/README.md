# Verified models of Pintos

This project models the parts of the Pintos kernel and its library where most can
go wrong, and proves what they are for.  Each component is a Dafny module:

* **Threads and synchronization** (`Threads*.dfy`, `Kernel*.dfy`).  The scheduler,
  semaphores, locks and condition variables are one transition system.  A transition
  is one stretch of code that nothing can interrupt: a section with interrupts off, or
  the plain stores between two such sections.  An interrupt handler may yield, wake a
  thread, or use a semaphore at any point, and any thread may run between two
  transitions of another.  The laws hold in every state of every run.  What each action does
  to every semaphore, queue, thread, lock and condition variable is stated apart from the
  transitions (`ThreadsEffects.dfy`), added up over runs (`ThreadsHistory.dfy`), and over
  whole calls (`ThreadsCalls.dfy`, `ThreadsWaits.dfy`).  `Kernel.dfy` is the
  code itself: the run queue and the wait lists are linked lists in the heap, and every
  thread has one list element that it lends to whichever list it is on.  The code carries
  out every transition, and needs the invariant for it: that the element is free to be
  linked in is a consequence of the thread being on no list.
* **Lists, hash tables, arrays** (`List*.dfy`, `SortedIndex.dfy`, `Hash.dfy`,
  `Heapsort.dfy`, with `Seqs.dfy` and `Orders.dfy`).  The doubly linked list is a heap of nodes; splicing is sequence
  surgery, and the natural merge sort is proved on top of it.
* **Allocators** (`Bits.dfy`, `Bitmap.dfy`, `Palloc.dfy`, `Malloc*.dfy`).  A word-packed
  bitmap, page runs in two pools, and arenas with free lists, each on top of the other.
* **Files** (`FileIo.dfy`, `Ownership.dfy`, `FreeMap.dfy`, `Inode.dfy`, `File.dfy`,
  `Directory.dfy`, `Filesys.dfy`).
  Sector-by-sector input and output refines a byte sequence; sectors have one owner;
  removal waits for the last close.  The free map is a file like any other: it is written
  through its own inode, and read back when the file system is opened again.  So is the
  root directory: files are created and removed by name, entry by entry of its bytes.
* **Address spaces** (`Pte.dfy`, `PageMap.dfy`, `Pagedir.dfy`, `Segment.dfy`,
  `Loader.dfy`, `Exec.dfy`).  The two-level page table refines a map, and the segment
  loader is built on it and on the page allocator: a process that is loaded and exits leaves
  both pools exactly as they were.  The executable is a constant sequence of bytes.
* **Arithmetic and formats** (`Integers.dfy`, `Arithmetic.dfy`, `IntegerFields.dfy`,
  `Stdio.dfy`, `UstarFields.dfy`, `UstarHeader.dfy`).  64-bit division from 32-bit division,
  integer printing, and the headers of tar archives.

Machine words are natural numbers with their wrap-around written out, and the bitwise
operators are defined bit by bit on them.  A failed `ASSERT` is a precondition, except
in the transition system, where it is an outcome (`Panic`) that is proved not to occur.
What the outside decides is a parameter: whether memory for a bounce buffer, a
file or a hash table's buckets is available, and which thread or handler acts next.

The code is followed where it and its comments disagree, or where it does less than one
would expect:

* `bitmap_scan_and_flip` with a count of zero returns `start`; the comment at
  `lib/kernel/bitmap.c:292` says zero (`Bitmaps.Bitmap.ScanAndFlip`).
* `umod64` and `smod64` return the low 32 bits of the remainder.  A divisor gives exact
  remainders for every dividend if and only if it is at most 2^32, or 2^31 in size for
  `smod64` (`Umod64Divisor`, `Smod64Divisor`; counterexamples `Umod64Inexact`,
  `Smod64Inexact`).
* `malloc` adds the arena header to the size without looking for overflow.  The block is
  large enough if and only if the size is below 2^32 - 11 (`PageCntFits`, `Malloc`; a size
  that fails is in `PageCntWraps`).
* The overflow test of `calloc` misses some products (`CallocOverflow`).  The block is
  large enough if and only if the product is below 2^32 - 11 (`Calloc`).
* `palloc_init` cannot make a pool that is too small for its own bitmap, so it panics for
  a user page limit of zero (`NoUserPool`).  `Init` gives the exact condition.
* `format_integer` pads on both sides when a field is left-justified and zero-padded,
  which a negative `*` width can bring about.  The field has the width asked for if and
  only if that does not happen or no padding is needed (`FieldWidth`; a field that is too
  wide is in `FieldTooWide`).
* `ustar_make_header` accepts a negative size and stores it as an unsigned number;
  `ustar_parse_header` refuses that header.  `RoundTrip` covers every `int`.
* `setup_stack` fails when a segment already occupies the last page below the kernel.
  `validate_segment` accepts such a header (`LastPageIsValid`), and `SetupStack` gives the
  exact condition.
* `bytes_to_sectors` does its sum in a signed 32-bit integer, which overflows for the
  longest files.  Read as wrap-around, the count is right for lengths up to 2^31 - 512, and
  larger than any disk above that (`SectorsForIs`), so `inode_create` fails there (`Create`).
* `filesys_create` gives the header sector back when the directory entry cannot be added,
  but not the sectors of the data: they stay marked used with no owner.  A call that fails
  leaves the free map changed if and only if the directory can be opened, an inode of the
  length can be made (`CanMake`: memory, room on the disk, a free map that can be written) and
  the length is not zero (`FilesysCreate`).  So every attempt to create a file whose name is
  taken loses sectors (`TakenNameLoses`); an input is in `LosesSector`.
* A comment at `filesys/directory.c:150` says that `inode_read_at` returns less than was asked
  for only at the end of the file.  It also does so without memory for a bounce buffer, which
  reading an entry always needs.  Then `lookup` overlooks names and `dir_add` stops at a slot
  that is in use: an entry can be overwritten, or a name listed twice.  An addition does no
  harm if and only if the slot it stops at is free and the name is not listed (`StoredIff`); an
  input where an entry is lost is in `LosesEntry`.  With memory for every read it does none
  (`StoredMeans`).
* `free_map_release` writes the free map to its file without looking whether that file is
  open, as `free_map_allocate` does, so it demands an open file (`FreeMapRelease`).

## Model

| member | source | states |
|---|---|---|
| ThreadsRuns.RunInv | aos_pintos/src/threads/thread.c:208-297 | the combined scheduler, semaphore, lock and monitor invariant holds in every state of every run |
| ThreadsRuns.NeverPanics | aos_pintos/src/threads/synch.c:59-324 | whatever a correct caller or an interrupt handler does next in a reachable state, no assertion fails and no dead waiter's semaphore is touched |
| ThreadsActions.StepKeeps | aos_pintos/src/threads/synch.c:44-324 | every enabled transition succeeds and keeps the invariant |
| ThreadsInvariant.ScheduleKeeps | aos_pintos/src/threads/thread.c:454-527 | when the running thread has just left the processor, schedule dispatches exactly one thread, never finds nobody to run, and destroys only a dying thread other than the initial one |
| ThreadsRuns.SchedulerLaw | aos_pintos/src/threads/thread.h:79-84 | in every run exactly the current thread is running, the run queue holds each ready thread but idle once, and a semaphore's wait list holds exactly the threads blocked in a down on it |
| ThreadsRuns.OnOneList | aos_pintos/src/threads/thread.h:79-84 | the shared list element is never on two lists: not on the run queue and a wait list, not on two wait lists, not twice on one |
| ThreadsRuns.SemaphoreLaw | aos_pintos/src/threads/synch.c:59-117 | conservation: value plus completed downs equals initial value plus ups |
| ThreadsRuns.NoLostWakeup | aos_pintos/src/threads/synch.c:59-117 | while somebody waits, the value is at most the number of woken threads that have not yet retried, and is zero when there are none |
| ThreadsRuns.MutualExclusion | aos_pintos/src/threads/synch.c:185-226 | the lock's semaphore plus the number of threads between its down and its up is one, so two threads are never inside |
| ThreadsRuns.TicketLaw | aos_pintos/src/threads/synch.c:275-309 | waiters are signalled in the order in which they queued, and the private semaphore of a waiter is raised exactly once, also when the signal comes before it sleeps |
| ThreadsWaits.WaitReturnsHolding | aos_pintos/src/threads/synch.c:275-289 | whenever cond_wait returns, the thread holds the lock again and its own ticket was signalled |
| ThreadsWaits.SignalReleasesOne | aos_pintos/src/threads/synch.c:298-309 | a whole cond_signal takes exactly the first waiter off the queue and raises its semaphore, or changes nothing if there was none |
| ThreadsWaits.BroadcastReleasesAll | aos_pintos/src/threads/synch.c:317-324 | a whole cond_broadcast takes exactly the waiters queued when it began off the queue, and the semaphore of each that has not yet gone on is raised when it returns, whatever other threads do meanwhile |
| ThreadsWaits.PcFrame | aos_pintos/src/threads/thread.c:478-505 | no step moves another thread inside its own operation |
| ThreadsWaits.CondsFrame | aos_pintos/src/threads/synch.c:275-309 | in any step a condition variable stays as it is, gains the current thread's waiter at the back, or loses its first waiter, the last two only while the current thread holds its lock |
| ThreadsWaits.HolderFrame | aos_pintos/src/threads/synch.c:219-226 | nobody but its holder gives a lock up |
| ThreadsRuns.QueuePosition | aos_pintos/src/threads/thread.c:225-236 | the thread at position k of the run queue has moved up by exactly the number of dispatches since |
| ThreadsRuns.RoundRobin | aos_pintos/src/threads/thread.c:454-527 | the thread at position k is dispatched by exactly the (k+1)-th later call of schedule and does not run before |
| ThreadsEffects.SemaChanges | aos_pintos/src/threads/synch.c:44-117 | what any step does to every semaphore, told from the action alone: it is initialized with its argument and nobody waiting; an up adds one and takes the front thread off the list; a down or try-down takes one off exactly if the value is positive, and a down that finds zero queues its caller at the back; nothing else changes it |
| ThreadsEffects.QueueChanges | aos_pintos/src/threads/thread.c:208-297 | what any step does to the run queue: a yielding, woken or launched thread joins at the back; exactly the steps that yield, block or exit take the front off and run it, or idle when there is none |
| ThreadsEffects.StatusChanges | aos_pintos/src/threads/thread.c:161-297 | what any step does to every thread: the one given the processor is running, the one queued is ready, the one that left is ready, blocked or dying according to how it left, a new one is blocked, a dead one is gone, and nobody else changes |
| ThreadsEffects.MonitorChanges | aos_pintos/src/threads/synch.c:169-309 | what any step does to locks and condition variables: a lock is held from the store in lock_acquire to the store in lock_release, by the thread that stored; cond_wait queues its caller at the back and cond_signal takes the front off |
| ThreadsEffects.AllChanges | aos_pintos/src/threads/thread.c:264-280 | a new thread goes to the end of all_list, exactly the exiting one is taken out of it, and the others keep their order |
| ThreadsHistory.SemaphoreHistory | aos_pintos/src/threads/synch.c:44-117 | every semaphore found in a run was initialized in that run, and its value is the argument of that sema_init, plus the ups made of it since, minus the downs and try-downs that went through, counted in the actions of the run; the three counters of SemaphoreLaw are those numbers |
| ThreadsHistory.CountedFrom | aos_pintos/src/threads/synch.c:44-117 | from its sema_init on a plain or lock semaphore stays in being, and its value is that count |
| ThreadsHistory.UpWakes | aos_pintos/src/threads/synch.c:105-117 | after any sema_up of a run the value is one more; if somebody waited, the first has left the list, is ready and is last on the run queue; if nobody did, queue and list are as before |
| ThreadsHistory.WaitPosition | aos_pintos/src/threads/synch.c:59-117 | a thread at position k of a wait list has moved up by exactly the number of ups since, so nobody overtakes it |
| ThreadsHistory.WokenInOrder | aos_pintos/src/threads/synch.c:59-117 | the thread at position k of a wait list is woken by exactly the (k+1)-th later up of that semaphore, and is on the list until then |
| ThreadsHistory.RunInOrder | aos_pintos/src/threads/thread.c:454-527 | the thread at position k of the run queue runs after exactly the (k+1)-th later action that yields, blocks or exits, and not before |
| ThreadsCalls.DownReturns | aos_pintos/src/threads/synch.c:59-76 | a whole sema_down, however often its caller sleeps and whoever runs meanwhile, takes one off the value exactly once, and returns by doing so |
| ThreadsCalls.AcquireReturnsHolding | aos_pintos/src/threads/synch.c:185-193 | when lock_acquire returns, its caller holds the lock |
| ThreadsCalls.TryAcquireReturns | aos_pintos/src/threads/synch.c:201-213 | lock_try_acquire returns with the lock if it was free, and otherwise returns at once and changes nothing |
| ThreadsCalls.ReleaseReturns | aos_pintos/src/threads/synch.c:219-226 | from the call of lock_release to its return nobody holds the lock, and it returns by the up that lets the next one in |
| ThreadsCalls.WaitLetsGo | aos_pintos/src/threads/synch.c:275-289 | before cond_wait returns, its caller has given up the lock |
| Kernel.Globals.Step | aos_pintos/src/threads/synch.c:44-324 | every transition that the system may make is carried out by code on the linked lists: they stay well linked and apart, the outcome is that of the transition, and nothing fails |
| Kernel.Globals.Run | aos_pintos/src/threads/thread.c:208-297 | every run, of any length, is carried out on the linked lists, so all laws of runs hold of the code on linked lists |
| Kernel.Boot | aos_pintos/src/threads/thread.c:87-115 | booting builds linked lists that represent the first state of a run |
| Kernel.Globals.LooseFrom | aos_pintos/src/threads/thread.h:79-84 | a thread that is neither ready nor waiting has an element that is on no list |
| KernelLists.FiledAppend | aos_pintos/src/threads/thread.h:79-84 | linking in an element that is on no list keeps every element on at most one list and every listed element the element of its thread |
| KernelLists.FiledPop | aos_pintos/src/threads/thread.h:79-84 | unlinking the front element keeps that, and the element is then on no list |
| KernelLists.FiledDrop | aos_pintos/src/threads/thread.c:500-504 | a thread whose element is on no list can go away |
| Kernel.Globals.Append | aos_pintos/src/lib/kernel/list.c:202-205 | list_push_back of a thread's free element: that list gains it, and every other list is unchanged and well linked |
| Kernel.Globals.TakeFirst | aos_pintos/src/lib/kernel/list.c:243-248 | list_pop_front and list_entry: the thread of the front element, which is then on no list; every other list is unchanged and well linked |
| Kernel.Globals.NextThreadToRun | aos_pintos/src/threads/thread.c:454-460 | the first element leaves the linked run queue, the lists stay well linked and apart, and the thread it belongs to is the first in line, or idle when nobody is |
| Kernel.Globals.Schedule | aos_pintos/src/threads/thread.c:478-527 | on the linked lists, carries out the transition: afterwards exactly one thread runs and the whole invariant holds; a dead thread's element is given up, which is safe because it is on no list |
| Kernel.Globals.ThreadBlock | aos_pintos/src/threads/thread.c:208-215 | on the linked lists, carries out the transition: the current thread leaves the processor for the next in line, with the whole invariant kept |
| Kernel.Globals.ThreadUnblock | aos_pintos/src/threads/thread.c:225-236 | the element of a blocked thread that is on no list becomes the last of the linked run queue; all lists stay well linked and apart |
| Kernel.Globals.ThreadYield | aos_pintos/src/threads/thread.c:284-297 | the running thread's element is free because of the invariant, so it can be linked in; carries out the transition and keeps the invariant |
| Kernel.Globals.ThreadExit | aos_pintos/src/threads/thread.c:264-280 | carries out the transition and keeps the invariant; no list is left with an element of the dead thread |
| Kernel.Globals.SemaDownTurn | aos_pintos/src/threads/synch.c:59-74 | one turn of sema_down on the linked lists is one transition and keeps the whole invariant: sleeping links the thread's one element into the wait list, and a finished cond_wait leaves no list behind |
| Kernel.Globals.SemaTryDown | aos_pintos/src/threads/synch.c:81-99 | succeeds exactly when there is a unit to take, links nothing and wakes nobody; what the scheduler and the wait lists rely on is kept, and for plain semaphores the whole invariant |
| Kernel.Globals.SemaUp | aos_pintos/src/threads/synch.c:105-117 | moves the element of the longest waiter, if any, from the linked wait list to the run queue, so that it is on one list at every point; no ASSERT of thread_unblock fails; what the scheduler and the wait lists rely on is kept, and for plain semaphores the whole invariant |
| Kernel.Globals.Wake | aos_pintos/src/threads/thread.c:225-236 | a parked or new thread is on no list, so it can be unblocked |
| Kernel.Globals.ThreadCreate | aos_pintos/src/threads/thread.c:161-198 | a new thread with an element of its own, blocked and on no list |
| Kernel.Globals.CondQueue | aos_pintos/src/threads/synch.c:275-286 | the waiter's semaphore is one that does not exist yet, with a wait list apart from all others |
| ListOrder.OneRun | aos_pintos/src/lib/kernel/list.c:378-413 | the loop's exit test is right: a sequence has at most one run if and only if it is in order |
| ListOrder.StableSortUnique | aos_pintos/src/lib/kernel/list.c:375-413 | there is only one stable sorted rearrangement for a strict weak order |
| Lists.Insert | aos_pintos/src/lib/kernel/list.c:157-166 | the links of the chain spell the sequence with the element inserted before the given one |
| Lists.Remove | aos_pintos/src/lib/kernel/list.c:233-239 | the links spell the sequence without the element; its own links stay as they were |
| Lists.Splice | aos_pintos/src/lib/kernel/list.c:171-191 | within one chain the links spell the sequence with the range moved; between two chains the target gains exactly the range and the source loses exactly it; for every range, including the empty one |
| Lists.List.PushFront | aos_pintos/src/lib/kernel/list.c:195-198 | the element becomes the first |
| Lists.List.PushBack | aos_pintos/src/lib/kernel/list.c:202-205 | the element becomes the last |
| Lists.List.PopFront | aos_pintos/src/lib/kernel/list.c:243-248 | the first element leaves the list |
| ListSort.FindEndOfRun | aos_pintos/src/lib/kernel/list.c:332-347 | returns the end of the longest ordered run that starts here |
| ListSort.InplaceMerge | aos_pintos/src/lib/kernel/list.c:354-373 | merges two adjacent sorted ranges by splicing: the same nodes, sorted, equal elements in their old order, and every other node where it was |
| ListSort.Pass | aos_pintos/src/lib/kernel/list.c:387-409 | one pass leaves at most half the natural runs, rounded up, and is stable; this is why the sort ends |
| ListSort.Sort | aos_pintos/src/lib/kernel/list.c:378-413 | for every strict weak order the list ends as the stable sorted rearrangement of the same nodes, well linked |
| SortedIndex.ComparatorOrder | aos_pintos/src/lib/kernel/list.c:495-507 | comparing thread identifiers is a strict weak order, so the sort applies |
| SortedIndex.RankIsIndex | aos_pintos/src/lib/kernel/list.c:509-537 | in a sorted list the first place of an identifier is the number of threads with a smaller one |
| SortedIndex.FindTid | aos_pintos/src/lib/kernel/list.c:522-536 | returns that number if some thread has the identifier, else -1, also with duplicates and for the empty list |
| SortedIndex.GetSortedIndex | aos_pintos/src/lib/kernel/list.c:509-537 | leaves the list stably sorted, identifiers ascending, and returns how many threads on it have a smaller identifier than the target; -1 exactly if none has the target's, or for null arguments |
| Arithmetic.Nlz | aos_pintos/src/lib/arithmetic.c:38-69 | shifting by the result, and by no other amount, brings the top bit of a nonzero word to bit 31 |
| Arithmetic.Estimate | aos_pintos/src/lib/arithmetic.c:116-119 | dividing by the top 32 bits of the divisor gives the quotient or one more |
| Arithmetic.ShortDivision | aos_pintos/src/lib/arithmetic.c:75-107 | for a 32-bit divisor the two partial divisions compose to the quotient, and the second fits in a word |
| Arithmetic.NoTrap | aos_pintos/src/lib/arithmetic.c:118 | the hardware division of the long branch never overflows |
| Arithmetic.LongDivision | aos_pintos/src/lib/arithmetic.c:112-120 | the quotient for a divisor of more than 32 bits, with no trap |
| Arithmetic.Corrected | aos_pintos/src/lib/arithmetic.c:119 | the final comparison turns an estimate that is at most one too large into the quotient |
| Arithmetic.Udiv64 | aos_pintos/src/lib/arithmetic.c:73-122 | the exact quotient for all 64-bit operands; a divisor of zero traps |
| Arithmetic.Umod64 | aos_pintos/src/lib/arithmetic.c:126-129 | the remainder modulo 2^32 |
| Arithmetic.Umod64Divisor | aos_pintos/src/lib/arithmetic.c:126-129 | a divisor gives exact remainders for all dividends if and only if it is at most 2^32 |
| Arithmetic.Umod64Inexact | aos_pintos/src/lib/arithmetic.c:126-129 | an input for which the result is not the remainder |
| Arithmetic.TruncatedIs | aos_pintos/src/lib/arithmetic.c:131-139 | the quotient used here is the one quotient whose remainder is smaller than the divisor and has the dividend's sign |
| Arithmetic.Sdiv64 | aos_pintos/src/lib/arithmetic.c:133-139 | truncating division up to two's-complement wrap, for all operands |
| Arithmetic.Sdiv64Exact | aos_pintos/src/lib/arithmetic.c:133-139 | the wrap happens if and only if the smallest integer is divided by -1 |
| Arithmetic.Smod64 | aos_pintos/src/lib/arithmetic.c:143 | the signed remainder reduced to 32 bits |
| Arithmetic.Smod64Divisor | aos_pintos/src/lib/arithmetic.c:143 | a divisor gives exact remainders for all dividends if and only if its size is at most 2^31 |
| Arithmetic.Smod64Inexact | aos_pintos/src/lib/arithmetic.c:143 | an input for which the result is not the remainder |
| Bitmaps.TestWord | aos_pintos/src/lib/kernel/bitmap.c:178-183 | masking a word tests one bit of it |
| Bitmaps.Bitmap.Mark | aos_pintos/src/lib/kernel/bitmap.c:140-149 | sets one bit of the sequence the words pack, and no other |
| Bitmaps.Bitmap.Reset | aos_pintos/src/lib/kernel/bitmap.c:152-161 | clears one bit, and no other |
| Bitmaps.Bitmap.Flip | aos_pintos/src/lib/kernel/bitmap.c:166-175 | inverts one bit, and no other |
| Bitmaps.Bitmap.Test | aos_pintos/src/lib/kernel/bitmap.c:178-183 | reads the bit at an index |
| Bitmaps.Bitmap.SetMultiple | aos_pintos/src/lib/kernel/bitmap.c:196-207 | fills exactly the given range |
| Bitmaps.Bitmap.Count | aos_pintos/src/lib/kernel/bitmap.c:211-225 | counts the bits of a value in a range |
| Bitmaps.CountSize | aos_pintos/src/lib/kernel/bitmap.c:211-225 | the count is the number of places that hold the value |
| Bitmaps.Bitmap.Contains | aos_pintos/src/lib/kernel/bitmap.c:229-242 | true if and only if the range has a bit of the value |
| Bitmaps.Bitmap.Scan | aos_pintos/src/lib/kernel/bitmap.c:271-286 | the first group from start on, and failure only if there is none |
| Bitmaps.Bitmap.ScanAndFlip | aos_pintos/src/lib/kernel/bitmap.c:295-302 | flips exactly the first group, or changes nothing when there is none |
| Palloc.AddRun | aos_pintos/src/threads/palloc.c:69-99 | a free run is apart from all live ones; adding it keeps the bitmap the union of the live runs |
| Palloc.RemoveRun | aos_pintos/src/threads/palloc.c:114-138 | pages in use, from whichever runs, are marked throughout; cutting them out of the live runs keeps the bitmap the union of the rest |
| Palloc.CutCovers | aos_pintos/src/threads/palloc.c:114-138 | after the cut exactly the other pages are still in use |
| Palloc.CutWhole | aos_pintos/src/threads/palloc.c:114-138 | cutting out a whole run removes it and no other |
| Palloc.Pool.Get | aos_pintos/src/threads/palloc.c:69-99 | the lowest free run of the length, apart from every live run; fails only if no such run exists |
| Palloc.Pool.Free | aos_pintos/src/threads/palloc.c:114-138 | exactly the given pages cease to be in use, whether they are a run or a part of one |
| Palloc.Pool.LiveFromPool | aos_pintos/src/threads/palloc.c:166-173 | a live page is recognized as belonging to its pool |
| Palloc.Allocator.OnePool | aos_pintos/src/threads/palloc.c:166-173 | no page belongs to both pools |
| Palloc.Allocator.GetMultiple | aos_pintos/src/threads/palloc.c:69-99 | a new live run of the chosen pool, page-aligned; none for a count of zero or when no run that long is free |
| Palloc.Allocator.FreeMultiple | aos_pintos/src/threads/palloc.c:114-138 | gives pages in use back to the pool they came from, whether a run or a part of one; a null pointer or zero count does nothing |
| Palloc.FreePop | aos_pintos/src/threads/palloc.c:108-111 | pages that are handed out one by one come in ascending order: taking one leaves the others in their order |
| Palloc.Allocator.GetPage | aos_pintos/src/threads/palloc.c:108-111 | the lowest free page of the pool, none exactly if none is free; the other pool is not touched |
| Palloc.Allocator.FreePage | aos_pintos/src/threads/palloc.c:141 | the page, and no other, becomes free in the pool it came from; the last one taken is the next one handed out |
| Palloc.BitmapFits | aos_pintos/src/threads/palloc.c:145-162 | the pages set aside for a pool's bitmap hold it |
| Palloc.BmPagesLeast | aos_pintos/src/threads/palloc.c:145-162 | they are as few pages as hold eight bytes and a word for every 32 bits |
| Palloc.Init | aos_pintos/src/threads/palloc.c:45-61 | two disjoint pools with nothing allocated, which with their bitmaps are all of the free memory, page for page; it fails if and only if a pool is too small for its bitmap |
| Palloc.NoUserPool | aos_pintos/src/threads/palloc.c:145-162 | an empty pool needs a page for its bitmap, so a user page limit of zero fails |
| MallocBlocks.BlockAtIsBlock | aos_pintos/src/threads/malloc.c:261-285 | block_to_arena undoes arena_to_block, and the offset test of block_to_arena passes |
| MallocBlocks.IsBlockIsBlockAt | aos_pintos/src/threads/malloc.c:261-285 | every address that passes the test is a block of its arena |
| MallocBlocks.BlocksApart | aos_pintos/src/threads/malloc.c:278-285 | the blocks of an arena do not overlap each other, the header or the next page |
| MallocBlocks.BlocksFill | aos_pintos/src/threads/malloc.c:71-84 | the blocks of an arena fit behind its header of 12 bytes, and one more would not |
| MallocInvariant.AddArena | aos_pintos/src/threads/malloc.c:122-144 | dividing a page into free blocks keeps the heap invariant |
| MallocInvariant.TakeBlock | aos_pintos/src/threads/malloc.c:146-151 | taking the front block keeps it, and the block was not live |
| MallocInvariant.GiveBlock | aos_pintos/src/threads/malloc.c:232-236 | giving a block back keeps it, and the free count reaches the number of blocks exactly when none of them is live |
| MallocInvariant.DropArena | aos_pintos/src/threads/malloc.c:236-247 | removing an empty arena's blocks from the free list and its page from the heap keeps it |
| Malloc.FindDesc | aos_pintos/src/threads/malloc.c:98-103 | the one size class that serves the request: the smallest whose blocks hold it; none exactly above 1024 bytes |
| Malloc.PageCntFits | aos_pintos/src/threads/malloc.c:103-118 | the page count holds the block and its header if and only if the size is below 2^32 - 11 |
| Malloc.PageCntWraps | aos_pintos/src/threads/malloc.c:103-118 | a size whose page count wraps: one page for 2^32 - 1 bytes |
| Malloc.PageCntLeast | aos_pintos/src/threads/malloc.c:103-118 | as few pages as hold the size and the header; zero or one exactly for the sizes whose sum wraps |
| Malloc.Heap.DividePage | aos_pintos/src/threads/malloc.c:135-143 | every block of a new arena is put on the free list once |
| Malloc.Heap.Malloc | aos_pintos/src/threads/malloc.c:88-152 | a block that was not live, of at least the size if and only if the size is below 2^32 - 11.  Up to 1024 bytes the block has the smallest of the class sizes that holds the request; if that class has a free block, the call succeeds with the first one and no page is taken; otherwise it takes one page, or fails with no free page, and the rest of that page's blocks become the free list.  Fails only for size zero, a page count that wrapped to zero, or no free run of pages |
| Malloc.Heap.Calloc | aos_pintos/src/threads/malloc.c:156-172 | as malloc of the wrapped product, from the same class and the front of its free list; it holds the product if and only if that is below 2^32 - 11 |
| Malloc.CallocOverflow | aos_pintos/src/threads/malloc.c:161-164 | operands whose product overflows and passes the overflow test |
| Malloc.Heap.RemoveBlocks | aos_pintos/src/threads/malloc.c:241-245 | the free list keeps exactly the blocks of other arenas |
| Malloc.Heap.Free | aos_pintos/src/threads/malloc.c:213-258 | exactly the block ceases to be live; its pages go back if and only if no live block is left in the arena, and otherwise it is the next block its class hands out |
| Malloc.ArenaLaw | aos_pintos/src/threads/malloc.c:49-55 | between calls, an arena's free count is the number of its blocks on the free list, each block is free or live and not both, and some block is live |
| Malloc.ArenasApart | aos_pintos/src/threads/malloc.c:103-118 | arenas do not overlap |
| Malloc.LiveBlocksDisjoint | aos_pintos/src/threads/malloc.c:88-152 | live blocks of any sizes do not overlap each other or any arena header |
| FileIo.TransferStep | aos_pintos/src/filesys/inode.c:197-213 | one chunk stays in its sector and in the file, and the chunks add up to the whole transfer |
| FileIo.TransferredIs | aos_pintos/src/filesys/inode.c:197-228 | the count of a transfer is the only number within request and file that, with memory for a bounce buffer, reaches the end of one of them, and without is all the whole sectors both still hold from a sector's start, or zero |
| FileIo.SectorsNeeded | aos_pintos/src/filesys/inode.c:24-29 | as few sectors as the bytes need |
| FileIo.ByteOnDisk | aos_pintos/src/filesys/inode.c:46-53 | every byte of a file lies in a sector of its extent |
| FileIo.ReadAt | aos_pintos/src/filesys/inode.c:190-240 | the count is at most the size and ends within the file; with memory it stops only at the end of the request or of the file, without memory only where less than a whole sector of either is left or off a sector's start; that slice of the file goes into the start of the buffer and nowhere else |
| FileIo.WriteAt | aos_pintos/src/filesys/inode.c:247-307 | the count is bounded and stops in the same way, and is zero while writing is denied; exactly those bytes of the disk change; the zero-filled bounce buffer is never used |
| FileIo.WrittenContent | aos_pintos/src/filesys/inode.c:247-307 | a write is an update of the file's byte sequence |
| FileIo.WrittenElsewhere | aos_pintos/src/filesys/inode.c:247-307 | a write touches no sector outside the extent |
| Ownership.CreateOk | aos_pintos/src/filesys/inode.c:81-97 | a new extent keeps all header sectors and extents disjoint and marked used |
| Ownership.FreeOk | aos_pintos/src/filesys/inode.c:167-173 | releasing a removed inode's header and extent keeps the rest disjoint and marked, and both were marked until then |
| FreeMaps.PackRoundTrip | aos_pintos/src/lib/kernel/bitmap.c:315-333 | the words of a bitmap are recovered from the bytes written |
| FreeMaps.Load | aos_pintos/src/lib/kernel/bitmap.c:315-325 | words read from a file become the bitmap's contents, whatever their unused bits are |
| Inodes.HeaderRoundTrip | aos_pintos/src/filesys/inode.c:15-22 | decoding an encoded inode gives it back |
| Inodes.HeaderLayout | aos_pintos/src/filesys/inode.c:15-22 | start, length and magic are the first three words of the sector, lowest byte first, and the rest is zero |
| Inodes.SectorsForIs | aos_pintos/src/filesys/inode.c:26-29 | the sector count is right up to 2^31 - 512 bytes, and above that more than any disk has |
| Inodes.FileSystem.BitmapWrite | aos_pintos/src/lib/kernel/bitmap.c:329-333 | on success the free map file's bytes are the packed free map; it succeeds exactly if no denial of writes and no missing bounce buffer stands in the way; every other file keeps its bytes |
| Inodes.FileSystem.FreeMapAllocate | aos_pintos/src/filesys/free-map.c:26-38 | the first free run of the length, if the map can be written to its file or that is not open yet, else nothing; on success the run is marked and the file holds the new map; otherwise the map is unchanged; every other file keeps its bytes |
| Inodes.NoRun | aos_pintos/src/filesys/free-map.c:26-38 | when no first free run is found there is none anywhere |
| Inodes.FileSystem.FreeMapRelease | aos_pintos/src/filesys/free-map.c:41-46 | clears exactly sectors that were all in use and writes the map to its file; every other file keeps its bytes |
| Inodes.FileSystem.FreeMapCreate | aos_pintos/src/filesys/free-map.c:63-75 | the free map file exists, is open and holds the free map, which has the file's own sectors marked; every other file keeps its bytes |
| Inodes.FileSystem.FreeMapOpen | aos_pintos/src/filesys/free-map.c:49-56 | on a disk whose free map file holds a map of its files, the file system is valid again with exactly those files and that map |
| Inodes.FileSystem.Remountable | aos_pintos/src/filesys/free-map.c:40-56 | whenever the map has been written, the disk is one that free_map_open accepts, and gives back the same files and the same map |
| Inodes.FileSystem.Create | aos_pintos/src/filesys/inode.c:67-101 | a file of zeros in sectors nobody owned, the first that are free; every other file keeps its bytes, except that the free map file then holds the new map; succeeds if and only if there is memory, a free extent, a length of at most 2^31 - 512 and a map that can be written |
| Inodes.FileSystem.Abandon | aos_pintos/src/filesys/filesys.c:47-48 | releases the header of an inode and nothing else: its data stays marked for ever |
| Inodes.FileSystem.Open | aos_pintos/src/filesys/inode.c:106-136 | at most one in-memory inode per sector: an open one is shared and counted, else a new one is made |
| Inodes.FileSystem.Reopen | aos_pintos/src/filesys/inode.c:139-144 | one more opener, nothing else |
| Inodes.FileSystem.Remove | aos_pintos/src/filesys/inode.c:181-185 | only marks the inode: its sectors stay owned while it is open |
| Inodes.FileSystem.DenyWrite | aos_pintos/src/filesys/inode.c:311-315 | the count stays within the number of openers |
| Inodes.FileSystem.AllowWrite | aos_pintos/src/filesys/inode.c:320-325 | undoes one denial |
| Inodes.FileSystem.Close | aos_pintos/src/filesys/inode.c:155-177 | exactly the last close of a removed inode releases its header and its extent, once, and writes the map to its file; every other close releases nothing; no file but the free map changes |
| Inodes.FileSystem.Write | aos_pintos/src/filesys/inode.c:247-307 | with the count of WriteAt, updates this file's bytes; every other file and all inode headers are unchanged |
| Inodes.FileSystem.Read | aos_pintos/src/filesys/inode.c:190-240 | with the count of ReadAt, returns a slice of this file's bytes |
| OpenFiles.FileTable.DenyWrite | aos_pintos/src/filesys/file.c:100-108 | an open file counts at most once in its inode's denials |
| OpenFiles.FileTable.AllowWrite | aos_pintos/src/filesys/file.c:113-121 | withdraws the file's own denial and no other |
| OpenFiles.FileTable.DeniedIff | aos_pintos/src/filesys/file.c:100-121 | writing to an inode is denied exactly while some open file denies it |
| OpenFiles.FileTable.FileOpen | aos_pintos/src/filesys/file.c:10-26 | takes over one opening of the inode, and closes it again when there is no memory |
| OpenFiles.FileTable.Reopen | aos_pintos/src/filesys/file.c:30-33 | another file for the same inode, at position zero |
| OpenFiles.FileTable.Read | aos_pintos/src/filesys/file.c:54-59 | reads at the position, up to the end of the request or of the file, and moves the position by what was read |
| OpenFiles.FileTable.Write | aos_pintos/src/filesys/file.c:78-83 | nothing while any open file denies it, else an update of this file alone at the position, up to the end of the request or of the file |
| OpenFiles.FileTable.Close | aos_pintos/src/filesys/file.c:36-44 | withdraws the file's denial and its opening; the inode stays open exactly while another file or a directory needs it, and a removed one is released otherwise; no file but the free map changes |
| OpenFiles.FileTable.Hold | aos_pintos/src/filesys/directory.c:33-55 | a directory's opening of an inode is counted beside the files' openings |
| OpenFiles.FileTable.Drop | aos_pintos/src/filesys/directory.c:65-72 | giving that opening up closes the inode exactly if no file and no other directory needs it |
| Directories.EntryRoundTrip | aos_pintos/src/filesys/directory.c:158-162 | an entry that dir_add makes is in use and gives back its name and its sector, whatever was on the stack before |
| Directories.EntryLayout | aos_pintos/src/filesys/directory.c:17-22 | sector, name, null and the byte for in_use are at their places in the 20 bytes |
| Directories.FindStops | aos_pintos/src/filesys/directory.c:82-102 | lookup passes every slot that does not have the name and stops at the first that has it, cannot be read or is not there |
| Directories.FindIff | aos_pintos/src/filesys/directory.c:82-102 | with memory for every read, lookup finds a name exactly if some entry in use has it |
| Directories.CanAddIff | aos_pintos/src/filesys/directory.c:129-166 | with memory, dir_add succeeds exactly for a name of 1 to 14 characters that is not listed, in a directory with a free slot that may be written |
| Directories.StoredIff | aos_pintos/src/filesys/directory.c:146-162 | whatever memory there was, an addition loses no entry and lists no name twice if and only if its slot was free and its name not listed; each can fail only by a read without memory |
| Directories.StoredMeans | aos_pintos/src/filesys/directory.c:129-166 | with memory for every read, the listing gains exactly the new name, with its sector |
| Directories.LosesEntry | aos_pintos/src/filesys/directory.c:153-162 | a directory and a name for which the entry of another file is overwritten |
| Directories.RemoveMeans | aos_pintos/src/filesys/directory.c:190-193 | clearing an entry takes its name out of the listing, and no other |
| Directories.AddThenRemove | aos_pintos/src/filesys/directory.c:129-202 | adding a name and removing it again leaves the listing as it was |
| Directories.SameMeans | aos_pintos/src/filesys/directory.c:129-166 | an addition that fails leaves the listing as it was |
| Filesys.EntryTransfer | aos_pintos/src/filesys/inode.c:213-227 | an entry is read or written whole or not at all, and never without a bounce buffer |
| Filesys.Lookup | aos_pintos/src/filesys/directory.c:82-102 | the loop finds the first entry in use with the name, as far as the reads succeed |
| Filesys.DirAdd | aos_pintos/src/filesys/directory.c:129-166 | succeeds if and only if the name is good and not found, a slot is found and the directory may be written; then that slot alone holds the name and the sector, else no slot changes; every other file keeps its bytes |
| Filesys.HeaderGivenBack | aos_pintos/src/filesys/filesys.c:47-48 | after the header is released the sectors of the data are still marked, and that shows unless the file is empty |
| Filesys.FilesysCreate | aos_pintos/src/filesys/filesys.c:40-53 | succeeds if and only if the directory opens, an inode can be made and the name can be added, each in terms of what was there before; then there is one new file of zeros under the name; otherwise files and entries are as before, and the free map changed if and only if an inode could be made and the length is not zero; files other than the free map and the root directory keep their bytes, and every listed name stays the name of one file |
| Filesys.TakenNameLoses | aos_pintos/src/filesys/filesys.c:40-53 | with memory for everything, creating a file under a taken name loses the sectors of its data |
| Filesys.LosesSector | aos_pintos/src/filesys/filesys.c:40-53 | a disk and a name for which a sector is lost |
| Filesys.FilesysRemove | aos_pintos/src/filesys/filesys.c:91-98 | succeeds if and only if the name is found, its inode and the directory open and the entry can be written; then the entry is cleared and the file is gone, its sectors free, unless somebody has it open, in which case it is marked to go; otherwise nothing changes |
| Filesys.CreateThenRemove | aos_pintos/src/filesys/filesys.c:40-98 | a file that is created and removed gives every sector back |
| Bits.TurnOffLowest | aos_pintos/src/lib/kernel/hash.c:300-306 | turning off the lowest bit makes a number smaller, never below its highest power of two, and gives zero exactly when it was that power |
| HashTables.NewBucketCnt | aos_pintos/src/lib/kernel/hash.c:329-337 | the bucket count is a power of two, at least four, and the largest one at most half the elements unless that is below four |
| HashTables.BucketIsRemainder | aos_pintos/src/lib/kernel/hash.c:277-281 | masking with the bucket count less one is the remainder |
| HashTables.Hash.FindElem | aos_pintos/src/lib/kernel/hash.c:285-297 | an equal element of the bucket, and none only if there is none |
| HashTables.Hash.Find | aos_pintos/src/lib/kernel/hash.c:126-129 | an equal element of the table, and none only if the whole table has none |
| HashTables.Hash.InsertElem | aos_pintos/src/lib/kernel/hash.c:381-386 | the set gains one element and stays free of equal ones |
| HashTables.Hash.RemoveElem | aos_pintos/src/lib/kernel/hash.c:389-393 | the set loses exactly the element |
| HashTables.Hash.Rehash | aos_pintos/src/lib/kernel/hash.c:317-378 | keeps the set; with memory the bucket count becomes that power of two, without memory nothing changes |
| HashTables.Hash.Insert | aos_pintos/src/lib/kernel/hash.c:95-106 | adds the element unless an equal one is there, which is returned |
| HashTables.Hash.Replace | aos_pintos/src/lib/kernel/hash.c:110-122 | the element takes the place of an equal one, which is returned |
| HashTables.Hash.Delete | aos_pintos/src/lib/kernel/hash.c:138-147 | removes and returns the equal element, if any |
| HashTables.Hash.SizeIsCount | aos_pintos/src/lib/kernel/hash.c:233 | the element count is the size of the set |
| HashTables.Iterator.Next | aos_pintos/src/lib/kernel/hash.c:209-225 | visits the next element; it ends only after the whole table was visited |
| HashTables.VisitsAll | aos_pintos/src/lib/kernel/hash.c:174-225 | an iteration visits every element exactly once |
| Heapsort.FloatDown | aos_pintos/src/lib/stdlib.c:93-119 | swapping the offending node with its larger child moves the one violation of the heap down |
| Heapsort.Heapify | aos_pintos/src/lib/stdlib.c:93-119 | extends the heap to node i by a rearrangement of the first cnt elements |
| Heapsort.RootIsGreatest | aos_pintos/src/lib/stdlib.c:134-145 | no element of a heap exceeds its root |
| Heapsort.Sort | aos_pintos/src/lib/stdlib.c:127-146 | an ordered permutation, for every three-way comparison |
| Heapsort.BinarySearch | aos_pintos/src/lib/stdlib.c:177-200 | on a sorted array, finds a match exactly when there is one |
| Pte.AddressParts | aos_pintos/src/threads/pte.h:32-41 | an address is its directory index, table index and offset, and user addresses are those with directory index below 768 |
| Pte.PdeRoundTrip | aos_pintos/src/threads/pte.h:73-85 | pde_get_pt undoes pde_create, and the entry is present |
| Pte.PteRoundTrip | aos_pintos/src/threads/pte.h:91-111 | a user entry gives back its page and its writable flag |
| Pte.NotPresentKeeps | aos_pintos/src/userprog/pagedir.c:146-150 | clearing the present bit keeps the address and every other flag |
| PageMap.SetMaps | aos_pintos/src/userprog/pagedir.c:95-115 | storing one table entry is a map update or removal at one user page |
| PageMap.AddTable | aos_pintos/src/userprog/pagedir.c:66-78 | a fresh zeroed page table changes no translation |
| PageMap.FreedOnce | aos_pintos/src/userprog/pagedir.c:26-46 | if no frame is shared, the freed pages are the mapped frames, the page tables and the directory, each exactly once |
| Pagedir.PageDirectory.constructor | aos_pintos/src/userprog/pagedir.c:16-22 | maps no user page and shares the kernel's entries |
| Pagedir.PageDirectory.LookupPage | aos_pintos/src/userprog/pagedir.c:54-83 | the place of the entry for any address, user or kernel; changes no translation and no kernel entry, and makes tables only for user addresses; fails exactly without a table that could be had |
| Pagedir.PageDirectory.SetPage | aos_pintos/src/userprog/pagedir.c:95-115 | maps one user page to the frame with the permission; no other page and no kernel entry changes; fails exactly without memory for a needed table |
| Pagedir.PageDirectory.GetPage | aos_pintos/src/userprog/pagedir.c:121-132 | the mapped frame plus the offset, or null exactly for unmapped addresses |
| Pagedir.PageDirectory.ClearPage | aos_pintos/src/userprog/pagedir.c:138-151 | removes the page from the map, whether or not it was there |
| Pagedir.PageDirectory.Destroy | aos_pintos/src/userprog/pagedir.c:26-46 | frees, in order, the present frames of every table, the table, and last the directory |
| Segment.ValidateIff | aos_pintos/src/userprog/process.c:314-354 | the wrapping checks accept exactly the segments that lie, without wrap-around, between the first page and the kernel |
| Segment.PlanOk | aos_pintos/src/userprog/process.c:259-282 | for a valid segment nothing wraps: whole pages that cover it, as few as possible, the file part aligned with the file |
| Segment.PagesOk | aos_pintos/src/userprog/process.c:259-282 | the pages of a valid segment are above page zero and below the kernel |
| Segment.LastPageIsValid | aos_pintos/src/userprog/process.c:314-354 | a header that is accepted and takes the page of the stack |
| Loader.Process.InstallPage | aos_pintos/src/userprog/process.c:443-451 | maps the frame exactly if the page was free and a table is there or can be taken from the kernel pool; no page is lost on the way |
| Loader.Process.FillPage | aos_pintos/src/userprog/process.c:388-398 | the lowest free user page, with file bytes followed by zeros; after a short read it is free again |
| Loader.Process.LoadPage | aos_pintos/src/userprog/process.c:379-411 | on success the program gains one page with those bytes; on failure it sees what it saw before and no page is lost |
| Loader.Process.LoadSegment | aos_pintos/src/userprog/process.c:370-413 | on success exactly the segment's pages are added, file bytes then zeros, none overwritten; the counters never underflow; it succeeds whenever pages, file bytes and room suffice |
| Loader.Process.LoadHeader | aos_pintos/src/userprog/process.c:259-289 | on success every byte of the segment is the file's or zero, with the right permission, in exactly its own pages, none of which was in use; it succeeds whenever the header is valid, the file has its bytes, the pages are free and memory suffices |
| Loader.WritableBit | aos_pintos/src/userprog/process.c:262 | a segment is writable exactly if bit 1 of its flags is set |
| Loader.Process.SetupStack | aos_pintos/src/userprog/process.c:417-432 | a zeroed writable page at the top, if and only if there is a page, it is not taken, and a table is there or can be had; else nothing changes |
| Loader.Process.Load | aos_pintos/src/userprog/process.c:233-300 | on success all loadable segments are in memory together, byte for byte, and the stack; then the headers were valid, apart from each other and the stack, and covered by the file; conversely such headers load whenever memory suffices; dynamic, interpreter and library headers are refused |
| Loader.ExitFreesOnce | aos_pintos/src/userprog/pagedir.c:26-46 | whatever was loaded, destroying the directory gives back each page exactly once |
| Loader.FreePools | aos_pintos/src/threads/palloc.c:69-99 | the free pages of the two pools are distinct, page-aligned kernel addresses, which is all that loading needs to know of them |
| Exec.Exit | aos_pintos/src/userprog/process.c:89-110 | every page that pagedir_destroy frees is in use, in the pool it is freed to; afterwards exactly what the process had or could have had is free, and its directory |
| Exec.Execute | aos_pintos/src/userprog/process.c:200-306 | whatever the executable is, and wherever loading it stops, after the exit both pools have exactly the free pages they had before |
| IntegerFields.EvalNumeral | aos_pintos/src/lib/stdio.c:500-512 | the digits of a number denote it, in every base |
| Stdio.FormatInteger | aos_pintos/src/lib/stdio.c:469-546 | the output is the field that the laws below describe; read back by its characters alone it gives the number printed, negative exactly for a negative number of a signed conversion; the 64-byte buffer never overflows |
| IntegerFields.FieldIs | aos_pintos/src/lib/stdio.c:469-546 | a field is blanks, sign, 0x, digits, blanks: the sign is a minus exactly for a negative number of a signed conversion, else a plus or a blank exactly as asked for; 0x exactly for a nonzero number with # in base 16; the digits denote the value, have as many zeros before them as precision, # and zero padding ask for, and a comma after every group counted from the right |
| IntegerFields.ReadBack | aos_pintos/src/lib/stdio.c:469-546 | a reader that skips blanks, takes a sign and a 0x, and evaluates the digits without commas up to the next blank gets the signed value back from every field |
| IntegerFields.SignShown | aos_pintos/src/lib/stdio.c:484-494 | a minus is in the field exactly for a negative number of a signed conversion, a plus exactly when asked for and such a number is not negative |
| IntegerFields.FieldWidth | aos_pintos/src/lib/stdio.c:525-545 | a field is as wide as asked for or as it needs, if and only if it is not padded with zeros and left-justified at once |
| IntegerFields.FieldTooWide | aos_pintos/src/lib/stdio.c:525-545 | a field that is wider than asked for |
| UstarFields.StrippedClean | aos_pintos/src/lib/ustar.c:63-69 | a stripped name does not start with "/", "./" or "../", is not empty or "..", and is a suffix of the name or "." |
| UstarFields.StrippedIdempotent | aos_pintos/src/lib/ustar.c:63-69 | exactly the clean names are left alone; stripping twice is stripping once |
| UstarFields.StrippedPrefix | aos_pintos/src/lib/ustar.c:63-69 | putting "/", "./" or "../" in front of any name does not change what it is stripped to; the empty name and ".." become "."; with the clean names, which stay, this determines the stripped name of every name |
| UstarFields.StripAntisocialPrefixes | aos_pintos/src/lib/ustar.c:63-69 | the loop computes the stripped name and ends |
| UstarFields.OctalFieldIs | aos_pintos/src/lib/ustar.c:97-102 | a number below 8^w is printed as exactly w octal digits that denote it |
| UstarFields.OctalRoundTrip | aos_pintos/src/lib/ustar.c:124-157 | parsing a printed octal field gives the number back |
| UstarFields.ParseOctalField | aos_pintos/src/lib/ustar.c:124-157 | accepts exactly one or more octal digits ended by a space or a null whose value fits in 32 bits |
| UstarFields.ParseOctalIff | aos_pintos/src/lib/ustar.c:124-157 | a field has a value exactly if digits from its start, at least one, are followed by a space or a null and denote a 32-bit number |
| UstarHeader.CalculateChksum | aos_pintos/src/lib/ustar.c:35-52 | the sum of the bytes with the checksum field read as spaces |
| UstarHeader.ChksumFits | aos_pintos/src/lib/ustar.c:109-110 | every checksum fits in its seven digits |
| UstarHeader.ChksumIgnoresField | aos_pintos/src/lib/ustar.c:44-49 | the checksum does not depend on its own field |
| UstarHeader.MakeHeader | aos_pintos/src/lib/ustar.c:78-113 | fills the 512 bytes with a header for the stripped name, byte for byte as the next three laws say, or fails exactly for a stripped name over 99 characters and leaves the buffer alone |
| UstarHeader.MadeTexts | aos_pintos/src/lib/ustar.c:92-107 | name, owner fields, type, magic, version and the two "root" are at their places |
| UstarHeader.MadeNumbers | aos_pintos/src/lib/ustar.c:94-110 | mode 644 or 755, size, time and checksum are at their places in octal, each ended by a null |
| UstarHeader.MadeRest | aos_pintos/src/lib/ustar.c:91-110 | every other byte of the header is null |
| UstarHeader.ParseHeader | aos_pintos/src/lib/ustar.c:175-221 | the loops and tests compute the reading of a header that the laws below speak about |
| UstarHeader.AcceptedIff | aos_pintos/src/lib/ustar.c:175-221 | a header is an entry exactly if magic, version, checksum, name, type and size pass, the end of the archive exactly if all its bytes are null, and an entry says what its fields say |
| UstarHeader.RefusedBy | aos_pintos/src/lib/ustar.c:194-215 | which check a refused header fails |
| UstarHeader.EntriesAreClean | aos_pintos/src/lib/ustar.c:175-221 | whatever the header, an entry read from it has a clean name and a size that is an int |
| UstarHeader.ChangeIsDetected | aos_pintos/src/lib/ustar.c:198-201 | a valid header with any one byte changed outside the checksum field is refused |
| UstarHeader.RoundTrip | aos_pintos/src/lib/ustar.c:71-221 | reading a made header gives the stripped name, the type and the size, zero for directories; exactly negative sizes of regular files are refused |

## Left out

- Device drivers, port input and output, interrupt entry, assembly and the loader: hardware effects.  Turning interrupts off is taken as atomicity.
- Priorities, donation, the multi-level feedback queue, `process_wait` and system calls: not implemented in this repository.
- `thread_tick` and its time slice: a handler may yield at any point, which includes every time slice.
- Semaphore values are unbounded; the wrap of `unsigned` after 2^32 ups is not modelled.
- A thread exits holding no lock: `lock_release` by another thread is forbidden by its documentation.
- The pairing of a condition variable with one lock is fixed when it is initialized, as the documentation of `cond_wait` demands of callers.
- Subdirectories do not exist in this repository; `dir_readdir`, symbolic links, `filesys_open` and `fsutil.c` are a thin layer over the operations here.
- Filesys.DirRemove: for the root directory, the only one there is, with entries that are names of files.
- `realloc` and the contents of heap memory: only which addresses are live is modelled for `malloc`.
- `malloc`, `palloc` and the file system are modelled as called by one thread at a time.  `malloc` and `palloc_get_multiple` take locks for that; `palloc_free_multiple` and the file system take none.
- `free_map_init`, which makes the first map, and `free_map_close`.
- `all_list` and the queue of a condition variable are sequences in `Kernel.dfy`: their elements are on one list only, and nothing moves between lists.
- Kernel.Globals.ThreadBlock: for callers that have said what they wait for, as those of the transition system do.
- `list_reverse`, `list_unique`, `list_max`, `list_min`, and `list_insert_ordered`: easier uses of the same primitives.
- `hash_clear`, `hash_apply` and the hash functions themselves.
- HashTables.Hash: the chains are sequences; that they are doubly linked is proved for lists in general.
- Heapsort.Sort: elements are values of a type, not runs of bytes; the byte-wise swap is one assignment.
- `atoi`, the string functions, `printf` formats other than integers, and `snprintf`'s return value.
- `pagedir_is_dirty` and its relatives, and the bits that the processor sets in entries; TLB flushes.
- Reading the ELF header and the program headers from the file: the loader starts from decoded headers.
- Loader.Process: the executable is a sequence of bytes that nobody changes while it is loaded; `load` does not deny writes to it.
- `validate_segment` for files of 2^31 bytes or more, which `off_t` cannot hold.
- The shell, the user programs, the tests and the build scripts.
