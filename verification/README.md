# Verified models of the page allocator, the AGP aperture and the libdrm containers

This project models five pieces of the repository in Dafny and proves what they are for.

* **The NetBSD page allocator** (`src/sys/uvm/uvm_page.c`). Every free page is on one global queue and on one queue of
  the CPU recorded in it; allocation searches both along a cyclic colour walk; idle CPUs take pages off the queues,
  drop the lock, zero them and put them back; a free computes the page's bucket before it takes the lock. `FreePages`
  and `PageSteps` hold the state and the atomic steps of any number of CPUs, `PageRuns` what every interleaving of
  them keeps, `PageAllocator.Uvm` the code itself, `IdleZero` what other CPUs can do to one CPU's queues meanwhile,
  `Recolor` the change of the number of colours. `PageLists` has the list removal all page lists share.
* **Physical memory at boot** (same file). `PhysSegs` and `PhysMem.PhysTable` cover loading segments, stealing frames,
  looking frames up and laying out the `vm_page` array; `BootSizing` the computation of that array's size,
  `BootFree` the first frees, which join it to the allocator. `ObjectPages` covers the pages of memory objects.
* **libdrm's containers** (`openbsd/xenocara/lib/libdrm`). The skip list as a linked structure that refines a sorted
  map (`SkipLevels`, `SkipLists`), the random number generator and its full period (`RandomGen`, `RandomPeriod`), the
  self-organising hash table (`HashFn`, `HashTables`).
* **The AGP aperture** (`src/sys/dev/pci/agp.c`, `agp_i810.c`). `Gtt` covers the packed table entries and page-wise
  binding, `AgpPages` and `Agp` the page loops with their rollback, `Aperture.Softc` the blocks and their life, `ApertureRuns`
  any run of requests and the closing loop.
* **OpenBSD's paging queues** (`openbsd/src/sys/uvm/uvm_page.c`, `uvm_object.c`). `PagingQueues.PageQueues` covers the
  three queues with their flags and counters, `ObjWire` wiring an object 16 pages at a time.

Conventions. A pointer to a `struct vm_page` is an index into the `vm_page` array; the BSD list macros act on
sequences; red-black trees are maps; what the hardware, `malloc`, `bus_dma` or a pager answers is a parameter or an
arbitrary choice. A clause about `Inv`, `Valid` or `Coherent` means the invariant of that name defined in the module.
Integers are unbounded except in the generator, the hash function and the table entries. Where code and comment differ
the code is followed. The skip list's lookup stores the entry itself and not the value kept in it, for every key;
`SkipLists.SkipList.Lookup` states what is stored. Three expectations hold only under a condition, which is proved
exact, with an input that shows the other case: the hash table's enumeration emits slot 0 twice and slot 511 never
(`HashTables.EachOnceIff`, `LosesAndRepeats`); `agpclose` does not end when a block is bound and mapped
(`ApertureRuns.CloseEndsIff`, `ClosingHazard`); and recolouring misfiles pages whose bucket was computed before it
(`Recolor.RecolorSafeIff`, `ZeroingHazard`, `FreeingHazard`).

`dafny verify dfyconfig.toml` verifies the whole project.

## Model

| member | source | states |
|---|---|---|
| BitMask.MaskTest | src/sys/uvm/uvm_page.c:391-392 | The assertion made when colours are set up holds exactly for powers of two, with `&` computed bit by bit. |
| BitMask.ColorMask | src/sys/uvm/uvm_page.c:1303 | Under that assertion masking with ncolors - 1 is reduction modulo ncolors, for every operand. |
| ColorWalk.WalkOnce | src/sys/uvm/uvm_page.c:1255-1306 | The cyclic walk from any start reaches every colour after exactly one number of steps. |
| ColorWalk.WalkStep | src/sys/uvm/uvm_page.c:1303-1304 | Masked increment is one step of the walk, and only the ncolors-th step is back at the start: the loop ends. |
| FreeIndex.UnlinkIndexes | src/sys/uvm/uvm_page.c:1308-1310 | Removing a page from queues that index a set of filed pages leaves queues that index the set without it. |
| FreeIndex.PushIndexes | src/sys/uvm/uvm_page.c:1736-1741 | Pushing a page on its bucket leaves queues that index the set with it filed there, once. |
| FreeIndex.TotalIsSize | src/sys/uvm/uvm_page.c:1736-1751 | The total length of all queues of a kind is the number of pages filed as that kind. |
| FreePages.BucketIs | src/sys/uvm/uvm_page.h:353-354 | A page belongs in the bucket of its free list, its frame number modulo the colours, and zeroed or not by its PG_ZERO flag. |
| FreePages.TakeCoherent | src/sys/uvm/uvm_page.c:1308-1315 | Taking any free page off both its queues keeps both indexes and all counters in step, for every CPU. |
| FreePages.PutCoherent | src/sys/uvm/uvm_page.c:1736-1758 | So does putting any page on the queues of its bucket and of the CPU recorded in it. |
| PageSteps.HeadIsFree | src/sys/uvm/uvm_page.c:1258-1301 | What heads a CPU's queue is a PQ_FREE page of that bucket filed under that CPU: the assertions in the search. |
| PageSteps.GuardEnables | src/sys/uvm/uvm_page.c:1308-1315 | In every state satisfying the invariant no permitted step of any CPU indexes a bucket array outside its bounds. |
| PageSteps.StepKeeps | src/sys/uvm/uvm_page.c:1244-1957 | Every step of every CPU (allocate, the two steps of a free, take for zeroing, return, give up, owner's write, attach) keeps the whole invariant, the buckets promised to pages on their way out included. |
| PageSteps.OwnersWrite | src/sys/uvm/uvm_page.c:1503-1512 | Between allocation and free a page's owner may leave any flags on it and any contents in its frame. |
| PageRuns.BootInv | src/sys/uvm/uvm_page.c:404-425 | The state built before the first page is freed satisfies the invariant. |
| PageRuns.RunKeeps | src/sys/uvm/uvm_page.c:1244-1957 | Any run of permitted steps from a state satisfying the invariant stays within bounds and in the invariant. |
| PageRuns.EveryRunFromBoot | src/sys/uvm/uvm_page.c:1244-1957 | The same from boot: every interleaving of any number of CPUs. |
| PageRuns.ExactlyOneQueueEach | src/sys/uvm/uvm_page.c:1736-1763 | A PQ_FREE page occurs once on the global queue of its free list, of its frame number modulo the colours and of its kind, once on that queue of its own CPU, and nowhere else; any other page is on no queue. |
| PageRuns.ZeroingOnNoQueue | src/sys/uvm/uvm_page.c:1901-1912 | A page that an idle CPU is zeroing is on no queue at all. |
| PageRuns.CountersAreQueueLengths | src/sys/uvm/uvm_page.c:1312-1325 | free, zeropages and each CPU's two page counts are the total lengths of the queues they stand for. |
| PageRuns.CpuCountersAddUp | src/sys/uvm/uvm_page.c:1312-1325 | The per-CPU counts add up to the global ones. |
| PageRuns.ZeroedAlloc | src/sys/uvm/uvm_page.c:1468-1512 | A zero-request fills exactly the frame handed out, whichever queue it came from, and other requests touch no memory. |
| PageRuns.ZeroGuarantee | src/sys/uvm/uvm_page.c:1406-1416 | The same in every state reachable from boot. |
| BootFree.FreeAllRuns | src/sys/uvm/uvm_page.c:1623-1764 | Freeing any list of distinct, unfiled pages one after the other, where no CPU is working on a page, is a permitted run; afterwards exactly those pages have become free and the count has grown by their number. |
| BootFree.BootFreesAvailable | src/sys/uvm/uvm_page.c:404-452 | From the empty allocator, the frees of page initialisation are a permitted run that ends with exactly the available frames free and uvmexp.free their number. |
| PageAllocator.FirstAt | src/sys/uvm/uvm_page.c:1258-1301 | The four tests at a colour find a head of a queue, with every more preferred queue of that colour empty, or all are empty. |
| PageAllocator.FirstFoundIsBest | src/sys/uvm/uvm_page.c:1255-1306 | The first non-empty queue of the walk is headed by a page of least rank: colour distance, then preferred queue, then local CPU. |
| PageAllocator.FindFree | src/sys/uvm/uvm_page.c:1255-1306 | The do-while search returns such a best page of the list, or nothing exactly when no page of the list is free. |
| PageAllocator.EmptyWalk | src/sys/uvm/uvm_page.c:1302-1306 | If the whole walk saw empty queues no page of the free list is free. |
| PageAllocator.BestMeans | src/sys/uvm/uvm_page.c:1255-1306 | Best means: no free page of the list has a frame number nearer after the start modulo the colours, or as near with the wanted zero state where the chosen page lacks it, or equal in both and on the local CPU where the chosen page is not. |
| PageAllocator.PickedMeans | src/sys/uvm/uvm_page.c:1420-1453 | The page picked is of the given list for ONLY, of the lowest list that has a free page for NORMAL, for FALLBACK of the given list or, only if that is empty, of the lowest; it is a best one of its list and heads the queue it is taken from. |
| PageAllocator.HandedOutMeans | src/sys/uvm/uvm_page.c:1455-1514 | Handing a page out clears its queue flags, sets busy, fake and, unless zeroing was asked for, clean, records the offset, takes it off its queues and counts, leaves its frame zeroed if asked, and moves the CPU's colour past the page's. |
| PageAllocator.Uvm.PageallocPgfl | src/sys/uvm/uvm_page.c:1244-1325 | A best page leaves both queues and the counters, hits and misses are counted by CPU and colour, or nothing changes and the list is empty. |
| PageAllocator.Uvm.PickNormal | src/sys/uvm/uvm_page.c:1420-1430 | The normal strategy takes the best page of the lowest free list that has one, and fails only if no page is free. |
| PageAllocator.Uvm.GotIt | src/sys/uvm/uvm_page.c:1455-1514 | What follows the label is the allocation step of the run theorem, with round-robin colour and zero accounting. |
| PageAllocator.Uvm.PageallocStrat | src/sys/uvm/uvm_page.c:1345-1519 | Returns nothing exactly when a reserve test refuses or no page of the allowed lists is free, and then changes nothing; otherwise the page the strategy must pick, starting at the offset's page number modulo the colours for a colour-matched request and at the CPU's round-robin colour for others, with its new descriptor. |
| PageAllocator.Uvm.PagefreeChoose | src/sys/uvm/uvm_page.c:1726-1729 | The part before the lock promises the page to its free list, its frame number modulo the colours, and its kind by PG_ZERO: the first step of a free in the run theorem. |
| PageAllocator.Uvm.PagefreeInsert | src/sys/uvm/uvm_page.c:1736-1763 | The locked part is the second step: the page becomes the head of the promised bucket in the global queues and in those of the CPU that runs it, the counts grow by one, and the idle-zeroing switch is set when unknown pages prevail there. |
| PageAllocator.Uvm.Anyone | src/sys/uvm/uvm_page.c:1729-1736 | Any run of steps of any CPU between the two parts keeps the invariant and the bucket promised to the page. |
| PageAllocator.Uvm.Pagefree | src/sys/uvm/uvm_page.c:1623-1764 | With anything happening between its parts and on whatever CPU it resumes, freeing an owned page keeps the invariant and leaves it PQ_FREE at the head of both queues of its list, its frame number modulo the colours, and its kind at the start of the call. |
| PageAllocator.Uvm.CpuAttach | src/sys/uvm/uvm_page.c:1202-1229 | Attaching a CPU adds one with every queue empty and no count, changes no other, and raises the kernel reserve. |
| PageAllocator.Uvm.IdleTakePage | src/sys/uvm/uvm_page.c:1901-1912 | The first unknown page of the bucket leaves both queues and the counts and is held: that step of the run theorem. |
| PageAllocator.Uvm.IdleReturn | src/sys/uvm/uvm_page.c:1937-1956 | Its return marks it PG_ZERO and PQ_FREE, makes it the head of its bucket's zeroed queues, and counts it. |
| PageAllocator.Uvm.IdleGiveUp | src/sys/uvm/uvm_page.c:1923-1934 | Giving up makes it the head of its bucket's unknown queues again, counts it and an abort. |
| PageAllocator.Uvm.Others | src/sys/uvm/uvm_page.c:1913-1936 | Any run of other CPUs' steps while the lock is free keeps the invariant, adds nothing to this CPU's unknown queues and leaves the page it holds alone; frees on this CPU itself are excluded. |
| PageAllocator.Uvm.ZeroOne | src/sys/uvm/uvm_page.c:1901-1956 | One page leaves the queues, is zeroed outside the lock with any steps of other CPUs in between, and comes back zeroed, which leaves one unknown page fewer, or is given up; the CPU never keeps it. |
| PageAllocator.Uvm.ZeroBucket | src/sys/uvm/uvm_page.c:1901-1957 | The inner loop ends whatever the other CPUs do, if nothing is freed on this CPU meanwhile. No page but the last was interrupted; it quits exactly if a process was ready to run, the code gave up, or the lock was contended and a further page is there, and else leaves its queue empty, as are those before it. |
| PageAllocator.Uvm.PageIdleZero | src/sys/uvm/uvm_page.c:1874-1967 | Idle zeroing terminates whatever the other CPUs do, before the try-lock too, if nothing is freed on this CPU meanwhile, and never keeps a page. It runs to its end unless it was not needed, the lock was taken, or a runnable process, an abort or contention stopped it; at its end fewer unknown pages than colours are left; the switch stays on exactly if it did not get there. |
| IdleZero.ForeignIff | src/sys/uvm/uvm_page.c:1913-1936 | What may happen while the lock is dropped is every step but those this CPU takes under the lock itself. |
| IdleZero.ForeignShrinks | src/sys/uvm/uvm_page.c:1901-1957 | No step of another CPU adds to this CPU's unknown queues. |
| IdleZero.ForeignLeavesWork | src/sys/uvm/uvm_page.c:1913-1936 | Nor touches the page this CPU is zeroing, its idle-zero switch or its round-robin colour. |
| IdleZero.WalkEmpties | src/sys/uvm/uvm_page.c:1959-1963 | After a whole walk this CPU has no unknown page left, whatever the others did meanwhile. |
| IdleZero.AllEmptyNoneLeft | src/sys/uvm/uvm_page.c:1959-1963 | Empty unknown queues of all colours and lists mean a zero count. |
| Recolor.Refile | src/sys/uvm/uvm_page.c:1149-1179 | The nested loops terminate and leave every free page filed under the new mask in the global queues and in those of the running CPU, kind and list unchanged. |
| Recolor.RecoloredCoherent | src/sys/uvm/uvm_page.c:1149-1179 | With one CPU attached the result is coherent again: same free pages, same counters. |
| Recolor.RefiledWhere | src/sys/uvm/uvm_page.c:1149-1179 | A page is on a queue afterwards exactly if it is PQ_FREE and the queue is that of its list, its frame number modulo the new colours, and its kind, in the global index and in the running CPU's. |
| Recolor.RecoloredIdle | src/sys/uvm/uvm_page.c:1149-1179 | Pages being zeroed are promised to the right bucket afterwards exactly if each keeps its colour under the new mask. |
| Recolor.RecoloredLeaving | src/sys/uvm/uvm_page.c:1149-1179 | So are pages whose free has computed its bucket and not yet taken the lock: exactly if each keeps its colour. |
| Recolor.OtherCpuTooShort | src/sys/uvm/uvm_page.c:1161-1179 | With a second CPU attached growing the colours never leaves a coherent state: that CPU's bucket arrays are too short. |
| Recolor.RecolorSafeIff | src/sys/uvm/uvm_page.c:1110-1195 | Growing the colours keeps the invariant exactly when no other CPU is attached and no page being zeroed, or freed with its bucket already computed, changes colour. |
| Recolor.ZeroingHazard | src/sys/uvm/uvm_page.c:1901-1956 | It does fail: with one CPU, and a page of odd frame being zeroed, growing from one colour to two breaks the invariant. |
| Recolor.FreeingHazard | src/sys/uvm/uvm_page.c:1728-1736 | The same with a page of odd frame between the two parts of its free and nothing being zeroed. |
| PageAllocator.Uvm.PageRecolor | src/sys/uvm/uvm_page.c:1110-1195 | The operation itself: refiles as above, or changes nothing when the number does not grow or memory is short. |
| PhysSegs.WithoutIsStolen | src/sys/uvm/uvm_page.c:636-707 | Each of the three ways to steal takes one available frame, keeps it in no segment, changes the availability of no other, loses no other frame but ones before it in its segment, and leaves a sorted table. |
| PhysSegs.FirstChoiceFrame | src/sys/uvm/uvm_page.c:628-707 | The frame taken is the first page, or else the last, of the first segment of the list that begins or ends with an available page; where there is none, the first available page of the table. |
| PhysSegs.FirstChoiceTruncates | src/sys/uvm/uvm_page.c:684-706 | Where none of the list begins or ends with an available page, exactly the stolen frame and those before it in its segment are lost. |
| PhysSegs.RunConserves | src/sys/uvm/uvm_page.c:621-722 | Over any run of steals the frames are distinct, were available, are managed by nothing afterwards, and no other frame becomes available or unavailable; counts fall by one a call. |
| PhysSegs.RunLosses | src/sys/uvm/uvm_page.c:621-722 | Over any run no frame leaves the table but those handed out and those before one of them in its original segment. |
| PhysSegs.RunSpares | src/sys/uvm/uvm_page.c:621-722 | A run no longer than the number of available pages in segments of list 0 that begin or end with one takes exactly the frames handed out out of the table. |
| PhysSegs.EndPagesIff | src/sys/uvm/uvm_page.c:642-681 | There are such pages exactly if some segment of the list begins or ends with an available page. |
| PhysSegs.LoadKeepsTableIff | src/sys/uvm/uvm_page.c:792-804 | Sorted insertion keeps the table sorted exactly when the new range is well formed and overlaps no loaded one. |
| PhysSegs.FindsUnique | src/sys/uvm/uvm_page.c:1018-1077 | On a sorted table all correct searches return the same segment and offset, so binary and linear search agree. |
| PhysSegs.PageIndexInjective | src/sys/uvm/uvm_page.c:428-444 | No two managed frames share a page structure. |
| PhysSegs.PageIndexOnto | src/sys/uvm/uvm_page.c:428-444 | Every structure of the array describes some managed frame. |
| PhysSegs.LookupInverts | src/sys/uvm/uvm_page.c:1084-1095 | The structure found for a managed frame carries that frame's address. |
| PhysSegs.StructureFound | src/sys/uvm/uvm_page.c:1084-1095 | The structure found for the address in structure k is structure k. |
| PhysMem.PhysTable.constructor | src/sys/uvm/uvm_page.c:96-97 | The empty table, with room for its maximum of segments, satisfies the invariant. |
| PhysMem.PhysTable.InsertSeg | src/sys/uvm/uvm_page.c:792-832 | Moving the tail up in place and storing the segment is insertion at that position. |
| PhysMem.PhysTable.Physload | src/sys/uvm/uvm_page.c:735-839 | Every outcome of loading: panics (page size not set, bad free list, empty range, too late) and full table leave it unchanged, a load puts the segment in order, and validity survives exactly for disjoint ranges. |
| PhysMem.PhysTable.StealAt | src/sys/uvm/uvm_page.c:643-706 | Every field of the shrunk entry, and its removal when nothing is left; it runs out of memory exactly when the last segment would go. |
| PhysMem.PhysTable.PhysgetFreelist | src/sys/uvm/uvm_page.c:621-710 | Takes the first choice in the source's order; fails exactly when nothing is available. |
| PhysMem.TakenSpares | src/sys/uvm/uvm_page.c:642-681 | Where some segment of the list begins or ends with an available page, exactly the stolen frame leaves the table. |
| PhysMem.TakenTruncates | src/sys/uvm/uvm_page.c:684-706 | Otherwise exactly that frame and those before it in its segment. |
| PhysMem.PhysTable.Physget | src/sys/uvm/uvm_page.c:712-722 | The loop over free lists fails exactly when no frame is available, and otherwise steals one. |
| PhysMem.PhysTable.PagebootAlloc | src/sys/uvm/uvm_page.c:584-605 | Stealing the pages of an allocation one by one is a conserving run of exactly that many frames, and succeeds when more are available. |
| PhysMem.PhysTable.FindBsearch | src/sys/uvm/uvm_page.c:1018-1058 | Binary search finds the segment and offset or none, and its length measure falls. |
| PhysMem.PhysTable.FindLinear | src/sys/uvm/uvm_page.c:1062-1077 | Linear search finds the first segment holding the frame. |
| PhysMem.PhysTable.CountPages | src/sys/uvm/uvm_page.c:379-383 | The page count is the sum of all segment sizes. |
| PhysMem.PhysTable.FillSegment | src/sys/uvm/uvm_page.c:437-451 | The inner loop gives each structure its frame's address and frees exactly the available pages, touching nothing before. |
| PhysMem.PhysTable.Layout | src/sys/uvm/uvm_page.c:428-452 | All segments are laid out without overrun, every frame described once, and exactly the available pages freed. |
| PhysMem.PhysTable.PageInit | src/sys/uvm/uvm_page.c:331-488 | The whole of initialisation: the array has (pages + 1) * pagesize / (pagesize + structure size) entries and as many frames are stolen as hold it and the bucket headers; size, steal, lay out; the array is never overrun, and it succeeds when more frames are available than it steals. |
| PhysMem.PhysTable.PhysToVmPage | src/sys/uvm/uvm_page.c:1084-1095 | After initialisation lookup inverts phys_addr: it fails exactly for unmanaged addresses and returns the structure holding the address. |
| PhysMem.ArrayBigEnough | src/sys/uvm/uvm_page.c:395-452 | After the steal the frames still managed need no more structures than were allocated. |
| PhysSegs.LostPagesIff | openbsd/src/sys/uvm/uvm_page.c:256-269 | The layout loop meets a segment with more frames than structures left exactly when all segments together have more frames than structures. |
| PhysMem.NoPageLost | openbsd/src/sys/uvm/uvm_page.c:246-263 | After stealing the array no segment does: the "lost page(s)" panic is unreachable for every table and memory size. |
| BootSizing.FudgeFactorEnough | src/sys/uvm/uvm_page.c:395-410 | For every memory size the plus-one sizing covers what is left after stealing the array, if a structure fits in a page. |
| BootSizing.FudgeFactorIff | openbsd/src/sys/uvm/uvm_page.c:246-263 | Without bucket headers it does so for every memory size exactly if a structure is no larger than a page. |
| BootSizing.OnePageLost | openbsd/src/sys/uvm/uvm_page.c:246-263 | With a larger structure one free page is already lost. |
| ObjectPages.CoherentInsert | src/sys/uvm/uvm_page.c:239-256 | A page put into tree and list at any place keeps the object coherent: same pages in both, counted, found at its offset, vnode held. |
| ObjectPages.CoherentRemove | src/sys/uvm/uvm_page.c:268-310 | A page taken out of both keeps it coherent; the vnode is released with its last page. |
| ObjectPages.NpagesIsCount | src/sys/uvm/uvm_page.c:204-237 | In a coherent object the page count is the number of pages tabled in it, and a vnode is held exactly if there is one. |
| ObjectPages.ReplacedList | src/sys/uvm/uvm_page.c:1544-1547 | Inserting after a page and then removing it puts the new page in its place of the list. |
| ObjectPages.ListedUndone | src/sys/uvm/uvm_page.c:204-310 | Taking a page off an object's list undoes putting it there, at whatever place: list, count and hold on the vnode are as before. |
| ObjectPages.UnlistedUndone | src/sys/uvm/uvm_page.c:204-310 | Putting a page back behind its old predecessor undoes taking it off. |
| ObjectPages.PageIndex.Insert | src/sys/uvm/uvm_page.c:249-256 | Tree and list steps together keep all objects coherent and all counters exact, and append to the list. |
| ObjectPages.PageIndex.Remove | src/sys/uvm/uvm_page.c:298-310 | So does removal, which changes only that page and that object. |
| ObjectPages.PageIndex.Alloc | src/sys/uvm/uvm_page.c:1475-1493 | A page handed to an object, an anon or nobody has exactly that owner, and anonymous pages are counted. |
| ObjectPages.PageIndex.Replace | src/sys/uvm/uvm_page.c:1527-1548 | The new page takes the old one's offset and list position, and no counter changes. |
| ObjectPages.PageIndex.Realloc | src/sys/uvm/uvm_page.c:1555-1573 | The page leaves the old object's list and tree, goes to the end of the new one's, no third object changes, and everything stays coherent. |
| ObjectPages.PageIndex.Free | src/sys/uvm/uvm_page.c:1695-1704 | A freed page leaves its object or anon, which loses nothing else. |
| ObjectPages.PageIndex.Lookup | src/sys/uvm/uvm_page.c:1976-1989 | Returns the one page of the object at that offset, or nothing exactly if there is none. |
| SkipLevels.NxtInsert | openbsd/xenocara/lib/libdrm/xf86drmSL.c:210-213 | Which links must change at each level when an entry of given height goes in, and that no other may. |
| SkipLevels.NxtRemove | openbsd/xenocara/lib/libdrm/xf86drmSL.c:233-236 | Which links must change when one is taken out, and to what. |
| SkipLists.RandomLevel | openbsd/xenocara/lib/libdrm/xf86drmSL.c:121-130 | The level is one more than the number of odd draws before the first even one, at most 16, and the generator has advanced by that many draws. |
| SkipLists.SkipList.Locate | openbsd/xenocara/lib/libdrm/xf86drmSL.c:169-184 | Returns the entry at the key's place, which has the key exactly if the map does, and for every level in use, the last entry before it that has that level. |
| SkipLists.PredUnique | openbsd/xenocara/lib/libdrm/xf86drmSL.c:177-181 | That predecessor is unique, so any correct search fills the update array alike. |
| SkipLists.InsertedLinked | openbsd/xenocara/lib/libdrm/xf86drmSL.c:209-213 | After the relinking loop every level is again exactly the subsequence of the entries that have it. |
| SkipLists.RemovedLinked | openbsd/xenocara/lib/libdrm/xf86drmSL.c:232-236 | The same after unlinking. |
| SkipLists.SkipList.Insert | openbsd/xenocara/lib/libdrm/xf86drmSL.c:186-217 | Returns 1 and changes nothing for a present key, otherwise adds it to the map with the drawn height, at most one above the current level; all levels stay correct. |
| SkipLists.SkipList.Delete | openbsd/xenocara/lib/libdrm/xf86drmSL.c:219-244 | Removes exactly the key, lowers the level to the highest in use, or returns 1 and changes nothing. |
| SkipLists.SkipList.LowerLevel | openbsd/xenocara/lib/libdrm/xf86drmSL.c:241 | The loop stops at the highest level that has an entry. |
| SkipLists.SkipList.Lookup | openbsd/xenocara/lib/libdrm/xf86drmSL.c:246-260 | Succeeds exactly for keys of the map, and stores the entry itself. |
| SkipLists.SkipList.Next | openbsd/xenocara/lib/libdrm/xf86drmSL.c:286-303 | Emits the entry the cursor stands at and moves to its successor. |
| SkipLists.SkipList.First | openbsd/xenocara/lib/libdrm/xf86drmSL.c:305-313 | Emits the smallest key, if any. |
| SkipLists.SkipList.Enumerate | openbsd/xenocara/lib/libdrm/xf86drmSL.c:286-313 | First and next enumerate every key of the map once, ascending, with its value. |
| SkipLists.Level0 | openbsd/xenocara/lib/libdrm/xf86drmSL.c:183 | Level 0 links every entry to the next. |
| SkipLists.Replay | openbsd/xenocara/lib/libdrm/xf86drmSL.c:186-244 | After any history of inserts and deletes, whatever levels were drawn, the list is well formed and holds the map of the history. |
| SkipLists.MeaningOf | openbsd/xenocara/lib/libdrm/xf86drmSL.c:186-244 | A key is in that map exactly if some insert of it has no later delete of it. |
| RandomGen.Schrage | openbsd/xenocara/lib/libdrm/xf86drmRandom.c:153-156 | For every legal seed the expression is 48271 * seed mod 2^31 - 1 up to one correction, all intermediates below 2^31 in magnitude. |
| RandomGen.StepLegal | openbsd/xenocara/lib/libdrm/xf86drmRandom.c:147-159 | A legal seed never yields 0 or the modulus. |
| RandomGen.RandomState.constructor | openbsd/xenocara/lib/libdrm/xf86drmRandom.c:111-139 | An illegal seed becomes the closest legal one, for 32- and 64-bit longs. |
| RandomGen.RandomState.Random | openbsd/xenocara/lib/libdrm/xf86drmRandom.c:147-159 | Computed in C's mixed signed and unsigned types, of either width, the next seed is exactly the product modulo 2^31 - 1. |
| RandomPeriod.CheckValue | openbsd/xenocara/lib/libdrm/xf86drmRandom.c:127 | Ten thousand draws from seed 1 give the value the file expects. |
| RandomPeriod.StepInverse | openbsd/xenocara/lib/libdrm/xf86drmRandom.c:147-159 | Every step is undone by the inverse multiplier: the generator is a permutation of the legal seeds. |
| RandomPeriod.OrderIsFull | openbsd/xenocara/lib/libdrm/xf86drmRandom.c:125-126 | From 1 no shorter run than 2^31 - 2 draws returns to 1. |
| RandomPeriod.EveryValueComesUp | openbsd/xenocara/lib/libdrm/xf86drmRandom.c:169-184 | From any legal seed every legal value comes up within one period. |
| RandomPeriod.ExactPeriod | openbsd/xenocara/lib/libdrm/xf86drmRandom.c:169-184 | A run returns to its seed exactly after multiples of 2^31 - 2 draws, whatever the seed. |
| HashFn.InitScatter | openbsd/xenocara/lib/libdrm/xf86drmHash.c:136-142 | The scatter table is the first 256 draws from seed 37, all legal. |
| HashFn.LoopIsMix | openbsd/xenocara/lib/libdrm/xf86drmHash.c:144-149 | Modulo 512 the wrapping loop of either width agrees with the unbounded weighted sum of scattered bytes. |
| HashFn.WidthIndependent | openbsd/xenocara/lib/libdrm/xf86drmHash.c:129-155 | So a key's slot is the same for 32- and 64-bit longs. |
| HashFn.HashHash | openbsd/xenocara/lib/libdrm/xf86drmHash.c:129-155 | The loop terminates and computes that slot. |
| HashFn.HashIsWeighted | openbsd/xenocara/lib/libdrm/xf86drmHash.c:144-154 | The slot is the sum of the scatter values of the key's bytes, each doubled once for every byte above it, modulo 512. |
| HashFn.EndSlots | openbsd/xenocara/lib/libdrm/xf86drmHash.c:129-155 | With the scatter table the generator yields, key 0 has slot 0 and key 204 slot 511. |
| HashTables.ToFrontPermutes | openbsd/xenocara/lib/libdrm/xf86drmHash.c:210-214 | Moving a bucket to the front permutes the chain. |
| HashTables.DropAfterToFront | openbsd/xenocara/lib/libdrm/xf86drmHash.c:267-273 | Dropping the head afterwards removes exactly the bucket that was found. |
| HashTables.ToFrontKeeps | openbsd/xenocara/lib/libdrm/xf86drmHash.c:210-214 | The reorganised table represents the same map, every key once and in its slot. |
| HashTables.HashTable.HashFind | openbsd/xenocara/lib/libdrm/xf86drmHash.c:197-223 | Finds the bucket of the key exactly if it is in the map, moves it to the front in place, and counts one hit, partial or miss accordingly. |
| HashTables.HashTable.Lookup | openbsd/xenocara/lib/libdrm/xf86drmHash.c:225-236 | Returns 0 and the map's value, or 1; afterwards a found key heads its slot. |
| HashTables.HashTable.Insert | openbsd/xenocara/lib/libdrm/xf86drmHash.c:238-258 | Adds an absent key to the map, in a new bucket at the front of its slot; keeps the map and returns 1 for a present key, -1 without memory. |
| HashTables.HashTable.Delete | openbsd/xenocara/lib/libdrm/xf86drmHash.c:260-275 | Removes exactly the requested key by dropping the head of its slot: the other buckets of the slot stay in their old order. |
| HashTables.Replay | openbsd/xenocara/lib/libdrm/xf86drmHash.c:197-275 | Over any run of operations, with memory running out at any insertion, every answer is the map's, and hits, partials and misses add up to the number of operations. |
| HashTables.HashTable.Next | openbsd/xenocara/lib/libdrm/xf86drmHash.c:277-292 | Emits the next element of the exact sequence defined for the cursor, or reports its end. |
| HashTables.HashTable.Enumerate | openbsd/xenocara/lib/libdrm/xf86drmHash.c:277-303 | First and next together emit exactly slot 0, slot 0 again, then slots 1 to 510. |
| HashTables.EmittedCounts | openbsd/xenocara/lib/libdrm/xf86drmHash.c:277-303 | In that sequence a bucket of slot 0 occurs twice, one of slot 511 never, any other once. |
| HashTables.EachOnceIff | openbsd/xenocara/lib/libdrm/xf86drmHash.c:277-303 | So every bucket comes up once exactly when no key hashes to slot 0 or slot 511. |
| HashTables.EnumerationHazard | openbsd/xenocara/lib/libdrm/xf86drmHash.c:277-303 | Both do occur: any table of the keys 0 and 204 is enumerated as key 0 twice and nothing else. |
| HashTables.LosesAndRepeats | openbsd/xenocara/lib/libdrm/xf86drmHash.c:238-303 | Creating a table and inserting the two keys gives such a table. |
| Gtt.AcceptedIff | src/sys/dev/pci/agp_i810.c:120-146 | A value is accepted exactly if bits 11:4 are clear and it lies below 2^32, 2^36 or 2^40, by chip. |
| Gtt.EntryBits40 | src/sys/dev/pci/agp_i810.c:120-133 | On a 40-bit chip bits 31:12 and 3:0 stay where they are and bits 39:32 move to 11:4. |
| Gtt.EntryBits36 | src/sys/dev/pci/agp_i810.c:134-141 | On a 36-bit chip bits 35:32 move to 7:4. |
| Gtt.EntryBits32 | src/sys/dev/pci/agp_i810.c:120-146 | On the others, and for a 32-bit bus_addr_t, the entry is the low half of the value. |
| Gtt.PageFits | src/sys/dev/pci/agp_i810.c:1082 | The address of a page can be entered exactly if it lies below 2^32, 2^36 or 2^40, by chip. |
| Gtt.PageReads | src/sys/dev/pci/agp_i810.c:1082 | Its entry then decodes to the address plus one: the valid bit. |
| Gtt.CoherentReads | src/sys/dev/pci/agp_i810.c:1075-1082 | And in a coherent mapping to the address plus seven: the snoop bits too. |
| Gtt.ScribbleReads | src/sys/dev/pci/agp_i810.c:1109-1110 | The scribble page's entry decodes to its address plus one. |
| Gtt.DecodeEncode | src/sys/dev/pci/agp_i810.c:123-146 | Every accepted value, low flag bits included, is recovered from its 32-bit entry, for every chip. |
| Gtt.EncodeDecode | src/sys/dev/pci/agp_i810.c:123-146 | An entry is the packing of its decoding exactly if its unused bits are clear. |
| Gtt.Massage | src/sys/dev/pci/agp_i810.c:114-146 | The entry built by successive or-assignments is the packing, or EINVAL exactly where there is none. |
| Gtt.Table.WriteEntry | src/sys/dev/pci/agp_i810.c:114-172 | Writes one entry, that of the offset's page, or none. |
| Gtt.Table.BindPage | src/sys/dev/pci/agp_i810.c:1050-1083 | Succeeds exactly if the offset is in the table, outside stolen memory and the value packs; otherwise the table is unchanged. |
| Gtt.Table.UnbindPage | src/sys/dev/pci/agp_i810.c:1085-1111 | Under the same tests the entry becomes the scribble page. |
| Gtt.Table.ScribbleAll | src/sys/dev/pci/agp_i810.c:824-833 | Initialisation sets every entry from the first usable one to the end of the aperture to the scribble page, and no other. |
| AgpPages.PagesOfSegment | src/sys/dev/pci/agp.c:759-771 | A segment's pages are a slice of the pages of the concatenated segments, after those of earlier segments. |
| AgpPages.PagesAre | src/sys/dev/pci/agp.c:759-771 | The pages of a block are those of its segments in order, the first of each at the segment's own address. |
| AgpPages.PageFollows | src/sys/dev/pci/agp.c:766-768 | Each further page of a segment lies 4096 bytes after the one before. |
| AgpPages.RollbackRestoresIff | src/sys/dev/pci/agp.c:774-791 | The rollback restores the table exactly if what the failed bind overwrote was scribble. |
| AgpPages.BindKeeps | src/sys/dev/pci/agp.c:756-797 | Binding over entries no block covers keeps: bound pages are where the blocks say, the rest is scribble, no overlap. |
| AgpPages.RollbackKeeps | src/sys/dev/pci/agp.c:774-791 | So does a rolled-back bind. |
| AgpPages.UnbindKeeps | src/sys/dev/pci/agp.c:832-837 | So does an unbind. |
| Agp.AcquireDma | src/sys/dev/pci/agp.c:714-749 | Four tries with 8, 4, 2 and 1 pages a segment: the first that works or has no memory decides, and on failure no DMA resource is kept. |
| Agp.UnbindPages | src/sys/dev/pci/agp.c:836-837 | The loop turns exactly the block's run of entries into scribble. |
| Agp.BindSegment | src/sys/dev/pci/agp.c:766-794 | One segment's pages up to the block's size are bound, or everything bound so far becomes scribble. |
| Agp.BindPages | src/sys/dev/pci/agp.c:756-794 | Page k of the block maps to the k-th page of the concatenated segments and no other entry changes, or the pages before the first failing one are scribble. |
| Aperture.UnbindRestoresIff | src/sys/dev/pci/agp.c:812-852 | Unbind after bind restores the table exactly if the range was scribble before. |
| Aperture.BindResultNoOp | src/sys/dev/pci/agp.c:774-791 | A failed bind over scribble entries is a no-op on the table. |
| Aperture.BoundPageDecodes | src/sys/dev/pci/agp.c:756-797 | After a successful bind the k-th entry from the block's offset decodes, for every chip, to p + 1, p being the page-aligned bus address of the block's k-th page. |
| Aperture.BoundElsewhere | src/sys/dev/pci/agp.c:756-797 | And no entry outside the block has changed, whether the bind succeeded or not. |
| Aperture.BindableIff | src/sys/dev/pci/agp_i810.c:1050-1083 | A page can be bound exactly where the entry is in the table, not in stolen memory, and its address within the chip's reach. |
| Aperture.BlockShown | src/sys/dev/pci/agp.c:756-797 | In a clean aperture the entries of a bound block's pages are the ones it was bound with. |
| Aperture.NoOverlap | src/sys/dev/pci/agp.c:670-810 | In a clean aperture no offset lies in two bound blocks. |
| Aperture.RestScribble | src/sys/dev/pci/agp_i810.c:824-833 | In a clean aperture every entry from the first usable one to the end of the aperture that lies in no bound block is the scribble page. |
| Aperture.RunKeepsStolen | src/sys/dev/pci/agp_i810.c:1064-1073 | A run of entries outside stolen memory leaves all stolen entries alone. |
| Aperture.Softc.constructor | src/sys/dev/pci/agp_i810.c:818-833 | The aperture starts with no blocks, every usable entry scribble and stolen entries untouched. |
| Aperture.Softc.Alloc | src/sys/dev/pci/agp.c:618-655 | Succeeds exactly for whole pages within the limit, of type 0, when memory is there; appends a new block with a new id and counts its size. |
| Aperture.Softc.FreeMemory | src/sys/dev/pci/agp.c:657-668 | A bound block is never freed; an unbound one leaves the list and the sum. |
| Aperture.Softc.Bind | src/sys/dev/pci/agp.c:670-810 | Every outcome of a bind with its error code: refusals change nothing, a failed page leaves the block unbound, success is exact; resources held exactly while bound. |
| Aperture.Softc.Unbind | src/sys/dev/pci/agp.c:812-853 | Succeeds exactly for a bound, unmapped block, whose entries become scribble and whose resources are returned. |
| Aperture.Softc.Find | src/sys/dev/pci/agp.c:881-893 | The block with the id, which is the only one, or nothing. |
| Aperture.Softc.Lookup | src/sys/dev/pci/agp.c:895-910 | A bound block covering the offset, the only one when blocks do not overlap, or nothing. |
| Aperture.Softc.Map | src/sys/dev/pci/agp.c:1319-1349 | A mapping counts one reference of a bound block covering the offset and changes nothing else; it is the first such block of the list, and fails exactly when there is none or its first mapping is refused. |
| Aperture.Softc.Acquire | src/sys/dev/pci/agp.c:857-865 | Only a free device can be acquired. |
| Aperture.Softc.Release | src/sys/dev/pci/agp.c:867-879 | Only its holder can release it, and releasing a free one is no error. |
| Aperture.Softc.CloseTurn | src/sys/dev/pci/agp.c:1021-1038 | One turn of the closing loop removes the first block, or changes nothing at all if that block is bound and mapped. |
| ApertureRuns.CloseTurns | src/sys/dev/pci/agp.c:1020-1040 | Iterating the turn on the blocks themselves does to the list, block by block, what the function on their bound-and-mapped flags does. |
| ApertureRuns.CloseEndsIff | src/sys/dev/pci/agp.c:1020-1040 | So for the list of any aperture: some number of turns empties it exactly when no block of it is bound and mapped. |
| ApertureRuns.ClosingHazard | src/sys/dev/pci/agp.c:1020-1040 | It does happen: allocate a page, bind it, map it and acquire the device, and no number of turns empties the list. |
| Aperture.Softc.Close | src/sys/dev/pci/agp.c:1008-1043 | Then closing in the user state ends with no block, nothing allocated, every usable entry scribble, and the device free. |
| ApertureRuns.Execute | src/sys/dev/pci/agp.c:937-987 | Every request changes the visible state (table, blocks, sum, ids, holder) and answers as the function on it says, never writes stolen entries, and keeps table and blocks in step unless it binds over another block. |
| ApertureRuns.Run | src/sys/dev/pci/agp.c:937-987 | So over any run: the visible state at the end is the function iterated, the invariant holds, stolen entries are never written, and if no request of the run binds over another block (as the function computes it beforehand) every initialised entry is a bound page or scribble. |
| ApertureRuns.UnboundIsPolite | src/sys/dev/pci/agp.c:937-987 | Where nothing is bound no request binds over another block. |
| PagingQueues.QueueLengthIsCount | openbsd/src/sys/uvm/uvm_page.c:1437-1545 | A queue's length, and so its counter, is the number of pages carrying the flag. |
| PagingQueues.CountersFit | openbsd/src/sys/uvm/uvm_page.c:1437-1545 | Active, inactive and wired pages together are all pages exactly if none is off every queue and unwired. |
| PagingQueues.FlagsAreMembership | openbsd/src/sys/uvm/uvm_page.c:1437-1545 | A page is on the active queue exactly if flagged active, on an inactive one exactly if flagged inactive, the swap queue if it is PQ_ANON or PQ_AOBJ and the object queue otherwise; on at most one, once, and on none while wired. |
| PagingQueues.PageQueues.Wire | openbsd/src/sys/uvm/uvm_page.c:1437-1457 | The page leaves its queue and gains a wiring; the invariant (flags are membership, backing picks the queue, counts exact) holds again. |
| PagingQueues.PageQueues.Unwire | openbsd/src/sys/uvm/uvm_page.c:1465-1475 | It loses one, and with the last it goes to the tail of the active queue. |
| PagingQueues.PageQueues.Deactivate | openbsd/src/sys/uvm/uvm_page.c:1484-1511 | It goes to the tail of the inactive queue its backing calls for, unless inactive already. |
| PagingQueues.PageQueues.Activate | openbsd/src/sys/uvm/uvm_page.c:1518-1545 | An unwired page goes to the tail of the active queue from wherever it was; a wired one stays off all queues. |
| PagingQueues.PageQueues.Own | openbsd/src/sys/uvm/uvm_page.c:755-776 | Giving an unqueued page its owner flags keeps the queues as they are. |
| PagingQueues.PageQueues.Free | openbsd/src/sys/uvm/uvm_page.c:1112-1149 | A freed page is on no queue, unwired however often it was wired, and its flags are clear. |
| ObjWire.OnceWasIdle | openbsd/src/sys/uvm/uvm_object.c:139-145 | After wiring, the pages wired once are those that were not wired before. |
| ObjWire.WireBatch | openbsd/src/sys/uvm/uvm_object.c:99-132 | Every page of the batch is off its queue, has one wiring more, and is no longer clean if it is PQ_AOBJ; no other page changes. |
| ObjWire.Unwire | openbsd/src/sys/uvm/uvm_object.c:153-171 | Every page of the range loses one wiring; those that lose their last join the active queue in offset order. |
| ObjWire.Wire | openbsd/src/sys/uvm/uvm_object.c:66-145 | All or nothing for any range and any batch results: every page wired once more and PQ_AOBJ ones dirty, or, from the first failing batch, every wire count and the wired total as at entry, pages that had none active, PQ_AOBJ ones fetched before it dirty, and no other page changed. |

## Left out

- PageAllocator.Uvm.Pagefree: models unloaned pages that no longer belong to an object or anon; loans are left out, and the object, anon and wiring parts are `ObjectPages` and `PagingQueues`. Recolouring between its two parts is not among the steps it is proved against, since it can misfile the page: `Recolor.FreeingHazard`.
- PageAllocator.Uvm.Others: excludes frees that run on this CPU, from its interrupts or threads, while the lock is dropped.
- PageAllocator.Uvm.ZeroBucket: so its termination is shown without them; an endless stream of frees on this CPU would keep its queues filled.
- PageAllocator.Uvm.PageIdleZero: the same; and what it reports of the counts is at the moment it returns.
- PageAllocator.Uvm.PageallocStrat: models the request for no object and no anon; what the owner adds is `ObjectPages.PageIndex.Alloc`. Waking the page daemon (`uvm_kick_pdaemon`) is left out.
- PageAllocator.Uvm.PageRecolor: models recolouring after the page system is initialised; before that it only stores the number. Freeing the old bucket arrays is left out, and it is modelled without other steps in between, as the code holds the lock over the loops.
- PhysMem.PhysTable.PagebootAlloc: models the frames stolen; virtual addresses, pmap growth and `PMAP_STEAL_MEMORY` are left out.
- PhysMem.PhysTable.PageInit: models the page count, the array, its layout and the list of pages freed; bucket initialisation, colour setup, the reserves and kernel virtual addresses are left out. The frees themselves are `BootFree`.
- PhysMem.PhysTable.Physload: models boot-time loading with the binary-search strategy; loading after initialisation, `uvm_page_physload_dev` and the big-first and random strategies are left out.
- PhysMem.PhysTable.PhysgetFreelist: the second pass takes any segment whatever its free list, as the code does; no preference among lists is claimed for it.
- SkipLists.SkipList.Next: a cursor left standing on an entry that is then deleted is not modelled.
- HashTables.HashTable.Next: nor is an insertion or deletion in the middle of an enumeration.
- Aperture.Softc.Alloc: models type 0; the i810 types 1 (local memory) and 2 (hardware cursor) and their ignored return codes are left out. am_mapref starts with an arbitrary value, because the code does not initialise it.
- Aperture.Softc.Bind: the code does not refuse overlapping binds, so the correspondence of table and blocks is stated for binds over entries no other block covers.
- Agp.BindPages: a segment's page addresses are added up modulo 2^64; one that would wrap a 32-bit bus_addr_t is not modelled.
- Aperture.Softc.Map: models the bridges that do not remap processor accesses; the others map the aperture itself and touch no block.
- ApertureRuns.Run: what `bus_dma` supplies is fixed per request and block size before the run starts.
- Gtt.Table.WriteEntry: an entry is addressed by page number; the register offsets that differ by chip, and posting writes, are left out. The scribble page's own address is taken to be one the chip can encode.
- ObjWire.WireBatch: dropping swap slots, unbusying the pages and the lock are left out.
- ObjWire.Wire: the list of wired pages a caller can ask for, locks, busy bits and swap slots are left out; the pager is taken to return the pages the object's tree holds. (The call that drops swap slots passes the index in the batch, not the page number.)
- ObjectPages.PageIndex.Replace: models the pages' places and counters; the caller's locks and page contents are left out.
- `uvm_page_recolor` with several CPUs is modelled only to show that it cannot keep the invariant.
- Page loans, device pages and the OpenBSD multi-page allocators.
- Vnodes that become executable while they have pages, which moves their count from one counter to another.
- OpenBSD's own physical page allocator (`uvm_pmr`) and its inclusive npages count.
- `drmSLLookupNeighbors`, `drmSLDump`, the destroy functions, magic-number tests, and allocation failure in libdrm outside `drmHashInsert`; the hash table's `entries` field, which is never updated.
- Hardware registers, PCI configuration, TLB and cache flushes, pmap, kmem and locks, except as atomic steps.
- AGP chipsets other than the i810 family, their address spaces, and the ioctl wrappers.
- Overflow of counters and ids.
