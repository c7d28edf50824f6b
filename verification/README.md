# CocosOS: verified kernel core

A Dafny model of the data structures at the bottom of the CocosOS kernel, with proofs of what they keep
over whole runs. `dafny verify dfyconfig.toml` checks everything.

| files | model of |
|---|---|
| `Bytes.dfy`, `Blocks.dfy`, `Heap.dfy`, `HeapRuns.dfy` | the first-fit heap, `kernel/memory/memory.c` |
| `FileList.dfy`, `Vfs.dfy` | the file list whose nodes and buffers live in that heap, `filesystem/vfs.c` |
| `Bits.dfy`, `Frames.dfy`, `Paging.dfy` | frame bitmap and two-level page tables, `kernel/memory/paging.c` |
| `Scheduling.dfy`, `ProcessTable.dfy` | the priority scheduler, `process_manager/process.c` |
| `EventRing.dfy` | the lossy event queue, `kernel/events/event.c` |
| `RoundRobin.dfy` | the circular task list, `scheduler/scheduler.c` |

Each component comes in two layers. The imperative layer is a class whose methods do what the C functions
do, statement by statement, on the same representation: block headers and file nodes are bytes of one
memory array laid out as the 32-bit C structs are, bitmap bytes are bit vectors, processes and tasks are
linked objects. Every method is proved equal to a function on plain values, so the method's `ensures` is
the refinement. The value layer is where the promises are stated and proved, without reference to how the
functions are computed: where an allocation must land, who owns which block, which frames are in use.

Words are 32 bits wide. Sums that the C code computes in `size_t` or `uint32_t` either carry their
`% 2^32` in the model or are proved not to reach the limit. `Options.dfy` holds the one shared datatype.

Main results:

- The chain stored in memory always tiles the heap, no two free blocks are adjacent, and the set of live
  allocations alone determines every block. Hence frees commute, an allocation of any size undone at once
  leaves no trace, a second free of free memory does nothing, and freeing everything in any order restores
  the initial heap.
- An allocation fails exactly when no gap between live blocks holds header and rounded size; otherwise it
  lands at the lowest address where such a gap begins.
- The file list owns exactly its nodes and buffers through every run of creates and writes, failed ones
  included, and overwriting a file with at most as many bytes as it has never fails.
- Over all directories and all runs no frame is mapped twice, translation is injective, and free, held and
  mapped frames add up.
- Scheduler: only the current process is RUNNING or SLEEPING; a process killed while neither current nor
  list head never runs again; from a calm state the two best processes alternate for ever, sleeps included.
  A killed process has a continuation in which it runs again under an exact condition on the state.
- Event queue: the visible events are the last (P - Q) mod 64 pushed ones, losses come in rounds of 64, and an
  event can still be delivered exactly if it is not behind the next one to be polled.
- Round robin: as long as no linked task is added again, a task becomes current after as many ticks as its
  distance plus one for every task added meanwhile; with an add before every tick it never does
  (`AddsStarve`).

Where the code does something its names do not suggest, the model follows the code:

- `Memory_free` clears a byte 8 below whatever pointer it is given; `FreeableIff` says for which pointers
  that is harmless.
- `(size + 3) & ~3` wraps to 0 for the three largest sizes, and such a request succeeds with an empty block
  (`WrappingRequestSucceeds`, `AllocHoldsRequest`). It can be freed like any other, except in a region of
  exactly one header: there its pointer equals the heap end, which `Memory_free` ignores, and the block stays
  for ever (`HeaderOnlyHeapLeaks`). No larger region ever gets there (`LivePtrsBelowEnd`, `RunThenFreeAll`,
  `AllocThenFreeLeavesNoTrace`).
- `paging_get_free_frames` returns `total_frames` more than there are clear bits, because `paging_init` sets
  all bits without counting them, and 1 more for every free of a frame that was free (`CountFree`). Freeing a
  frame that a page table holds can put two pages on it (`ReleaseOk`, `ReleaseOfMappedIsShared`,
  `SharedAfterBoot`), and unmapping one of them frees it under the other (`UnmapOfSharedFrees`).
- `address | flags | PAGE_PRESENT` is a faithful directory entry exactly for tables that begin a page
  (`DirectoryEntry`); `Memory_alloc` promises multiples of 4.
- `process_sleep` does not keep anybody asleep: the switch it calls turns the sleeper into a waiting process.
  From a caller that is not asleep it is yielding exactly if a yield leaves the caller (`SleepExact`, `SleepIsYieldIff`), and a sleeper may
  run at the very next switch (`SleeperRunsEarly`).
- A sleeper with nowhere to go that is woken by a tick is WAITING while current, and every switch chooses it
  again and so stays where it is. It keeps the CPU through ticks, yields, creations of less urgent processes and kills of others,
  and loses its hold with any other call: a sleep, its own kill, or a creation at least as urgent
  (`FreezeIsReachable`, `FreezeStepIff`, `FreezeLastsIff`). There a sleep and a kill do what no yield does
  (`FrozenHandsOver`).
- `scheduler_switch` falls back to the list head whatever its state, so a killed newest process can run
  (`NotWaitingRunsIff`, `KilledHeadRuns`), and it overwrites the state of the process it leaves, so a kill of
  the current process is forgotten exactly if the next switch leaves it (`KilledCurrentRevives`,
  `KillOfCurrentIsForgotten`). It may then run again (`KilledCurrentRunsAgain`), but not always: one of priority
  255 comes back only as list head, and only after a switch to somebody else (`KilledRunsAgainIff`).
- A failed `vfs_write` leaves the file empty, since the old buffer is freed first; writing zero bytes is such
  a failure (`WriteLookup`, `WriteEmptiesIff`, `ZeroByteWriteEmpties`).
- `scheduler_add` of a task that is linked already breaks the circle, and no task outside the part it cuts off
  runs again until it is itself added again (`CircleStaysIff`, `SecondAdd`, `SecondAddStarves`,
  `AddedRunsNext`).
- `kernel/events/event.c` spells `event_push` as `event_pust`.

## Model

| member | source | states |
|---|---|---|
| Blocks.AllocExact | kernel/memory/memory.c:37-60 | a nonzero request fails exactly when no stretch clear of live blocks holds header plus rounded size, and otherwise is placed at the lowest address where one begins |
| Blocks.AllocFailureChangesNothing | kernel/memory/memory.c:37-60 | a request for 0 bytes fails, and a failed request leaves the blocks as they are |
| Blocks.AllocSizeExact | kernel/memory/memory.c:46-53 | the block gets exactly the rounded size when more than 16 bytes of the gap remain, otherwise the whole maximal gap |
| Blocks.AllocAddsOneBlock | kernel/memory/memory.c:45-55 | success adds one live block, aligned, inside the heap, disjoint from all others, wasting at most 16 bytes, and keeps the heap well formed |
| Blocks.LiveSetDeterminesBlocks | kernel/memory/memory.c:23-35 | two heaps over the same region without adjacent free blocks and with the same live blocks are equal block for block |
| Blocks.CoalesceCorrect | kernel/memory/memory.c:23-35 | the single pass leaves no two adjacent free blocks, covers the same addresses and keeps every live block |
| Blocks.FreeRemovesOneBlock | kernel/memory/memory.c:62-70 | for every pointer that FreeableIff allows or that lies outside the heap: free removes exactly the live block with that pointer, if it is below the heap end, and keeps the heap well formed |
| Blocks.FreeableIff | kernel/memory/memory.c:62-70 | the pointers into the heap allowed here are exactly those for which the byte cleared lies in the heap and in no `size` or `next` field and in no live payload |
| Blocks.AllocThenFreeIsIdentity | kernel/memory/memory.c:37-70 | allocating and freeing at once restores the whole block list if and only if the pointer handed out lies below the heap end; AllocThenFreeLeavesNoTrace says when it does |
| Blocks.FreesCommute | kernel/memory/memory.c:62-70 | the order of two frees does not matter |
| Blocks.FreeKeepsFreeable | kernel/memory/memory.c:62-70 | a pointer that may be freed may still be freed after any other free, and after its own |
| Blocks.DoubleFree | kernel/memory/memory.c:62-70 | a second free of the same pointer does nothing |
| Blocks.FreeAllRestoresInit | kernel/memory/memory.c:62-70 | freeing all live pointers, in any order and any number of times, gives the single block of `Memory_init`, if and only if no live pointer equals the heap end; RunThenFreeAll says when none does |
| Blocks.PayloadsAreSeparate | kernel/memory/memory.c:45-55 | live payloads are 4-aligned, inside the heap, disjoint from each other and from every header |
| Blocks.BytesConserved | kernel/memory/memory.c:72-84 | free bytes, allocated bytes and 12 per block always add up to the heap size |
| Blocks.EnoughFreeMeansSuccess | kernel/memory/memory.c:37-84 | with k live blocks, `Memory_get_free()` of at least (k+1) times the rounded size guarantees success |
| Blocks.FreeBlocksBound | kernel/memory/memory.c:23-35 | with k live blocks there are at most k + 1 free ones |
| Blocks.FreeBytesBound | kernel/memory/memory.c:72-84 | when no free block holds r bytes, f free blocks have at most f * (r - 1) bytes together |
| HeapRuns.ReachableIsCanonical | kernel/memory/memory.c:14-70 | after every sequence of allocations and legal frees since `Memory_init` the blocks tile the region with no two adjacent free ones, and in a region above one header the last block is not empty |
| HeapRuns.HistoryIndependence | kernel/memory/memory.c:14-70 | two such histories that leave the same allocations live leave the same heap |
| HeapRuns.LivePtrsBelowEnd | kernel/memory/memory.c:41 | after every such history, whatever sizes were asked for, all live pointers lie below the heap end, if and only if the region is above one header or nothing is live |
| HeapRuns.RunThenFreeAll | kernel/memory/memory.c:14-70 | after every such history, freeing what is live in any order restores the initial heap, if and only if the region is above one header or nothing is live |
| HeapRuns.AllocThenFreeLeavesNoTrace | kernel/memory/memory.c:37-70 | in every reachable heap an allocation of any size freed at once restores the block list, if and only if the region is above one header, the size does not wrap, or the one header is taken |
| HeapRuns.HeaderOnlyHeapLeaks | kernel/memory/memory.c:41-65 | in a region of exactly one header every wrapping request is handed the heap end and no sequence of frees gives the block back |
| HeapRuns.AllocHoldsRequest | kernel/memory/memory.c:41 | a block handed out holds the bytes asked for if and only if the rounding did not wrap |
| HeapRuns.WrappingRequestSucceeds | kernel/memory/memory.c:41-55 | on the boot heap a request of 0xFFFFFFFD bytes succeeds with an empty block |
| HeapMemory.Heap.constructor | kernel/memory/memory.c:14-21 | the header written at `start` stores the one free block, and no byte outside the region changes |
| HeapMemory.Heap.CoalesceList | kernel/memory/memory.c:23-35 | the loop on raw headers computes the single coalescing pass, with no 32-bit overflow, and changes no live payload and nothing outside the heap |
| HeapMemory.Heap.Split | kernel/memory/memory.c:46-53 | the split rewrites headers so that the block becomes two, and changes no live payload |
| HeapMemory.Heap.Alloc | kernel/memory/memory.c:37-60 | the search and split on raw memory return the pointer and leave the block list of the value model, with no 32-bit overflow in the comparison; every other live payload is unchanged |
| HeapMemory.Heap.Free | kernel/memory/memory.c:62-70 | the same for free, for NULL, out-of-range and live pointers and for all others that FreeableIff allows |
| HeapMemory.Heap.GetFree | kernel/memory/memory.c:72-84 | the walk returns the free bytes of the block list, below 2^32 |
| HeapMemory.Heap.ChainShape | kernel/memory/memory.c:23-35 | in memory the word at offset 0 is the size, the byte at 4 is 1 for a used block and 0 for a free one, the word at 8 is `next`; each `next` is block plus 12 plus size and larger than the block, and the block with a NULL `next` ends at `heap_end` |
| HeapMemory.SpliceStored | kernel/memory/memory.c:28-30 | rewriting headers only inside a run of blocks, and consistently there, keeps the whole stored chain correct |
| FileList.RunKeepsOwnership | filesystem/vfs.c:26-58 | after any run of creates and writes the live allocations are exactly the listed nodes, their buffers and what others had allocated, all distinct |
| FileList.CreateKeepsOwnership | filesystem/vfs.c:26-40 | a create, successful or not, leaks and shares nothing |
| FileList.WriteKeepsOwnership | filesystem/vfs.c:42-58 | a write, successful or not, leaks and shares nothing and frees the old buffer once |
| FileList.WriteExact | filesystem/vfs.c:42-58 | a write succeeds exactly when the file exists, the data is not empty, and the heap without the old buffer has room |
| FileList.RewriteNeverFails | filesystem/vfs.c:45-52 | overwriting with a nonzero size not above the current size succeeds however full the heap is |
| FileList.WriteLookup | filesystem/vfs.c:42-58 | a write decides what its own name reads as (the data, or nothing after a failure) and changes no other name |
| FileList.WriteEmptiesIff | filesystem/vfs.c:42-58 | a write leaves its file empty if and only if there is nothing to write or the heap without the old buffer has no room |
| FileList.ZeroByteWriteEmpties | filesystem/vfs.c:42-58 | writing zero bytes empties any file and reports failure |
| FileList.WriteThenRead | filesystem/vfs.c:42-71 | after a successful write a read of m bytes delivers the first min(m, size) bytes written |
| FileList.ReadsAsExpected | filesystem/vfs.c:11-71 | over any run from an empty list a name reads as its last successful create or later write says: an association list with shadowing |
| FileList.CreatedIsFound | filesystem/vfs.c:26-40 | a create succeeds exactly if 44 bytes have room; the file is then found, empty, under its name of at most 31 bytes, and otherwise under the first 31 bytes and not under its name |
| FileList.CreateThenWriteThenRead | filesystem/vfs.c:26-71 | after a successful create a write to that name succeeds exactly for nonempty data with room, and a read of m bytes returns the first min(m, size) bytes; writing to a name of 32 bytes or more does nothing |
| FileList.CreateLookup | filesystem/vfs.c:26-40 | a successful create makes an empty file that shadows older ones of the name cut to 31 bytes and disturbs no other name |
| FileList.LongNamesNeverFound | filesystem/vfs.c:11-34 | a name of 32 bytes or more is never found, not even right after its creation |
| FileList.LiveAfterDrop | filesystem/vfs.c:45-47 | freeing the old buffer removes that block and no other from the live set |
| VfsMemory.Vfs.constructor | filesystem/vfs.c:7-9 | the empty list owns nothing; allocations made earlier stay others' property |
| VfsMemory.Vfs.NodeLayout | filesystem/vfs.h:8-13 | a node of 44 bytes holds its name and a NUL from offset 0, its size at 32, the address of its data at 36 and of the next node at 40 |
| VfsMemory.Vfs.SameName | filesystem/vfs.c:14-20 | the character loop decides equality of the two C strings |
| VfsMemory.Vfs.FindNode | filesystem/vfs.c:11-24 | the walk through raw nodes finds the first node of that name or NULL |
| VfsMemory.Vfs.Create | filesystem/vfs.c:26-40 | the code on raw memory computes the value-level create, returns 1 exactly if 44 bytes have room and 0 otherwise, and leaves others' payloads alone |
| VfsMemory.Vfs.Write | filesystem/vfs.c:42-58 | the code on raw memory computes the value-level write, returns the number of bytes written as a C `int` or 0, and leaves others' payloads alone |
| VfsMemory.Vfs.Read | filesystem/vfs.c:60-71 | fills the buffer with the first bytes of the newest file of that name, leaves the rest of it and the heap unchanged, and returns their number as a C `int` |
| Bytes.CountIsExact | filesystem/vfs.c:57-70 | such an `int` is the count itself below 2^31 and the count minus 2^32 from there on |
| VfsMemory.PayloadWrite | filesystem/vfs.c:53-56 | writing inside live payloads keeps all block headers and all other payloads |
| Frames.RunOk | kernel/memory/paging.c:38-117 | through every run of allocate, free of frames not in a page table, map and unmap each frame from 256 on is free, held or mapped exactly once, and their number is conserved |
| Frames.ReleaseOk | kernel/memory/paging.c:53-59 | freeing a frame keeps the frames partitioned if and only if it is held or free already |
| Frames.ReleaseOfMappedIsShared | kernel/memory/paging.c:53-102 | freeing a mapped frame below all free ones puts the next page mapped on the same frame |
| Frames.UnmapOfSharedFrees | kernel/memory/paging.c:104-117 | unmapping one of two pages on the same frame leaves the other on a free frame |
| Paging.SharedAfterBoot | kernel/memory/paging.c:15-117 | after boot, freeing frame 256 and mapping page 1024 puts pages 0 and 1024 on it, and unmapping one leaves the other on a free frame |
| Frames.Conservation | kernel/memory/paging.c:38-63 | clear bits, held frames and present entries over all directories add up to total_frames - 256 |
| Frames.MapThenUnmap | kernel/memory/paging.c:78-117 | mapping an absent page and unmapping it restores the state, bitmap included |
| Frames.TranslateRange | kernel/memory/paging.c:119-131 | a translation is 0 exactly for absent pages and otherwise lies in the managed frames with the page offset kept |
| Frames.TranslateInjective | kernel/memory/paging.c:119-131 | no physical address is reached from two (directory, address) pairs |
| Frames.TranslateMapped | kernel/memory/paging.c:78-131 | in every state an absent page, once mapped, translates to the lowest free frame * 4096 + offset |
| Frames.TranslateOthers | kernel/memory/paging.c:78-131 | map and unmap leave every other translation as it is, mapping a present page leaves all, and an unmapped page translates to 0 |
| Frames.TranslateIgnoresFrames | kernel/memory/paging.c:38-59 | allocating and freeing frames directly changes no translation |
| Paging.TranslateIsJoin | kernel/memory/paging.c:130 | a translation is the word `(frame << 12) | (virt & 0xFFF)` |
| Frames.OnlyTargetChanges | kernel/memory/paging.c:78-117 | map and unmap change only the target page of the target directory, and mapping a present page does nothing |
| Bits.SetAndClear | kernel/memory/paging.c:43-57 | the byte operations set or clear one bit and no other |
| Bits.AddressSplit | kernel/memory/paging.c:79-81 | the shifts and masks of a linear address, as numbers, are its page number in two indices below 1024 and its offset |
| Bits.AddressJoin | kernel/memory/paging.c:130 | shifting a 20-bit frame number and or-ing the offset gives, as a number, frame * 4096 + offset |
| Bits.WordRoundTrip | kernel/memory/paging.c:130 | a number below 2^32 converted to a 32-bit word keeps its value |
| Bits.DirectoryEntry | kernel/memory/paging.c:87 | the entry keeps address and flags apart if and only if the table begins a page |
| Paging.DirWordFields | kernel/memory/paging.c:87 | the word of a directory entry holds the address above and flags and PRESENT in its low 12 bits, if and only if the table begins a page |
| Paging.PresentBit | kernel/memory/paging.c:83 | the PRESENT bit is set in exactly the entries that point to a table |
| Paging.FrameBitmap.constructor | kernel/memory/paging.c:15-21 | no frame is free and the counter is 0 |
| Paging.FrameBitmap.BitOfFrame | kernel/memory/paging.c:38-59 | frame f is free exactly if bit f % 8 of byte f / 8 is clear |
| Paging.FrameBitmap.Allocate | kernel/memory/paging.c:38-51 | sets and returns the lowest clear bit, or panics exactly when there is none; the counter keeps its offset |
| Paging.FrameBitmap.Free | kernel/memory/paging.c:53-59 | clears the bit of any frame the bitmap covers; the counter drifts by 1 exactly if no frame became free |
| Paging.FrameBitmap.FreeUpper | kernel/memory/paging.c:23-26 | the loop of `paging_init` frees exactly the frames from 256 on |
| Paging.FrameBitmap.CountFree | kernel/memory/paging.c:61-63 | the result is total_frames plus the number of clear bits plus the drift, in 32 bits |
| Paging.Manager.AllocateFrame | kernel/memory/paging.c:38-51 | the lowest free frame is handed out and held from then on, and nothing else changes; frames that were partitioned stay so |
| Paging.Manager.FreeFrame | kernel/memory/paging.c:53-59 | giving back any frame the bitmap covers changes only that frame; the tables stay correct if and only if it was held or free already, or lies beyond the managed frames |
| Paging.Manager.CreateDirectory | kernel/memory/paging.c:65-72 | a new directory maps nothing and shares no table with the others |
| Paging.Manager.EnsureTable | kernel/memory/paging.c:83-89 | a table is added only where there was none, its entry is address, flags and PRESENT, and no translation changes |
| Paging.Manager.FillEntry | kernel/memory/paging.c:93-99 | the entry gets the lowest free frame, untruncated, with exactly the permission bits asked for |
| Paging.Manager.MapPage | kernel/memory/paging.c:78-102 | the two-level code computes the flat map with this page added, or panics exactly when it needs a frame and none is free; a new entry is writable exactly for flag 2 and user exactly for flag 4, a present page keeps its permissions, every other entry of every table keeps its own, and of the directories only the slot of a missing table is written |
| Paging.Manager.EntryPlace | kernel/memory/paging.c:78-117 | the entry of an address lies in the table of slot virt / 2^22 at index virt / 2^12 % 2^10 |
| Paging.Manager.UnmapPage | kernel/memory/paging.c:104-117 | the two-level code computes the flat map with this page removed and its frame freed, also when the frame was free already, which the counter shows; every other entry keeps frame and permissions and no directory changes |
| Paging.Manager.VirtualToPhysical | kernel/memory/paging.c:119-131 | the walk returns frame * 4096 + offset of the page's entry, or 0 if there is none |
| Paging.Manager.IsPagePresent | kernel/memory/paging.c:133-143 | true exactly for mapped pages |
| Paging.Manager.constructor | kernel/memory/paging.c:15-26 | before the kernel directory: all frames from 256 on are free and nothing is mapped |
| Paging.Manager.MapKernel | kernel/memory/paging.c:28-32 | succeeds exactly with at least 1280 frames, and then page i is on frame 256 + i for i < 1024 through a single table, everything above free |
| Paging.BootExact | kernel/memory/paging.c:15-32 | after boot exactly pages 0 to 1023 are mapped, page i on frame 256 + i, and exactly the frames from 1280 on are free |
| Paging.BootEntries | kernel/memory/paging.c:31 | the boot pages are present, writable and for the kernel only |
| Paging.BootTranslation | kernel/memory/paging.c:30-32 | after boot v translates to v + 0x100000 below 0x400000 and to 0 elsewhere |
| Scheduling.ReachableOk | process_manager/process.c:12-124 | in every reachable state only the current process is RUNNING or SLEEPING, nobody is STOPPED, and pids decrease strictly from list head to idle below 2^32 processes |
| Scheduling.CreateExact | process_manager/process.c:27-51 | the newcomer waits with its number modulo 2^32 as pid, the current process as parent and the priority asked for, and nobody else changes |
| Scheduling.SwitchExact | process_manager/process.c:96-124 | a switch goes to the waiting process with the lowest priority up to 254, the newest among equals, or to the list head if there is none; the one left waits, the one reached runs, nothing else changes, and nothing at all if they are the same |
| Scheduling.Best | process_manager/process.c:97-107 | the scan finds the waiting process with the lowest priority value below 255, the newest among equals |
| Scheduling.NotWaitingRunsIff | process_manager/process.c:96-123 | a non-current process that is not waiting is a killed one, and it is switched to if and only if it is the list head and none is eligible |
| Scheduling.KilledHeadRuns | process_manager/process.c:53-63 | killing the newest process and yielding from idle runs the killed process |
| Scheduling.KilledCurrentRevives | process_manager/process.c:113-117 | a killed current process becomes WAITING at the first switch that leaves it, and it is left unless it is the list head and none is eligible |
| Scheduling.StaysIff | process_manager/process.c:96-115 | a switch does not leave the current process if and only if it is eligible and comes before all eligible others, or is the list head and nobody is eligible |
| Scheduling.KillOfCurrentIsForgotten | process_manager/process.c:53-124 | in every reachable state below 2^32 processes the switch after a kill of the current process gives the state it gives without the kill, if and only if that switch leaves the process or it was a zombie |
| Scheduling.KilledCurrentRunsAgain | process_manager/process.c:53-124 | idle, killed while it runs, is RUNNING again after two yields |
| Scheduling.KillHitsPid | process_manager/process.c:53-63 | below 2^32 processes a kill marks exactly the process created with that pid, or nobody |
| Scheduling.KillBuries | process_manager/process.c:53-63 | killing a process that is neither current nor list head puts it where it never runs again |
| Scheduling.BuriedForever | process_manager/process.c:53-124 | a process off the CPU that is not the list head and is a zombie or has priority 255 never becomes current in any continuation, and a zombie stays one |
| Scheduling.KilledRunsAgainIff | process_manager/process.c:27-124 | below 2^32 processes a killed process becomes RUNNING again in some continuation if and only if it is off the CPU as list head, or on it with a priority below 255, or on it as list head while somebody is eligible |
| Scheduling.SleepExact | process_manager/process.c:65-124 | after `process_sleep` the caller is SLEEPING, and still current, if and only if it is the list head and nobody else is eligible, otherwise WAITING; the time recorded is now + ms modulo 2^32 |
| Scheduling.SleepWakesIff | process_manager/process.c:65-94 | a tick wakes such a sleeper if and only if it comes at now + ms modulo 2^32 or later |
| Scheduling.SleepsUntilDue | process_manager/process.c:65-94 | through any sequence of ticks it is SLEEPING and current exactly until the first such tick, and WAITING from then on |
| Scheduling.SleepIsYieldIff | process_manager/process.c:65-73 | in every reachable state, whatever the duration, sleeping leads to the state yielding leads to, but for the recorded time, if and only if the yield leaves the caller or it was asleep |
| Scheduling.SleeperRunsEarly | process_manager/process.c:65-124 | idle sleeps 1000 ms and runs again at the next yield |
| Scheduling.TickWakesOnlyCurrent | process_manager/process.c:83-94 | a tick wakes at most the current process, and only at or after its time |
| Scheduling.FreezeIsReachable | process_manager/process.c:65-124 | after a lone sleep and the tick that ends it the current process is WAITING and the best choice |
| Scheduling.FrozenForever | process_manager/process.c:83-124 | from there ticks, yields, creations of less urgent processes and kills of others never leave it, and nobody else changes but by being killed |
| Scheduling.FreezeStepIff | process_manager/process.c:27-124 | below 2^32 processes these four are exactly the calls that leave it current and frozen |
| Scheduling.FreezeLastsIff | process_manager/process.c:27-124 | it stays frozen throughout a run if and only if the run consists of such calls |
| Scheduling.FrozenIsReachable | process_manager/process.c:27-124 | a run from the initial state reaches idle frozen beside an eligible newcomer |
| Scheduling.FrozenHandsOver | process_manager/process.c:53-124 | there a yield changes nothing, while a sleep, or a kill of idle and a yield, run the newcomer |
| Scheduling.TopTwoExists | process_manager/process.c:101-107 | two processes below priority 255 suffice for a first and a second by (priority, newest) to exist |
| Scheduling.AlternationForever | process_manager/process.c:83-124 | if current runs and all others wait, the first tick, yield or sleep goes to one of the two best and every later one alternates between them |
| ProcessTable.Table.constructor | process_manager/process.c:12-25 | the list holds idle alone, running with pid 0 |
| ProcessTable.Table.Create | process_manager/process.c:27-51 | the code on the linked list computes the value-level create and returns the new pid |
| ProcessTable.Table.Kill | process_manager/process.c:53-63 | the same for kill |
| ProcessTable.Table.Sleep | process_manager/process.c:65-69 | the same for sleep, with the wake-up time in 32 bits |
| ProcessTable.Table.Scan | process_manager/process.c:97-107 | the loop from the list head returns the process `Best` describes, or NULL |
| ProcessTable.Table.Switch | process_manager/process.c:96-124 | the same for the switch |
| ProcessTable.Table.Tick | process_manager/process.c:83-94 | the same for the tick |
| EventRing.DeliveredIncreasing | kernel/events/event.c:15-33 | over any run the delivered events are a strictly increasing subsequence of the pushed ones with gaps of multiples of 64 |
| EventRing.Run | kernel/events/event.c:10-33 | every run keeps the invariant that deliveries precede the visible events, lag by whole rounds, and never catch up |
| EventRing.PollSucceedsIff | kernel/events/event.c:22-33 | a poll succeeds if and only if the number of outstanding events is no multiple of 64 |
| EventRing.PollIsFifoIff | kernel/events/event.c:22-33 | a successful poll delivers event Q + 64 * overruns, which is the oldest undelivered one if and only if fewer than 64 are outstanding |
| EventRing.NothingLost | kernel/events/event.c:15-33 | nothing is lost or reordered in a run with at most 63 events outstanding |
| EventRing.BurstArrives | kernel/events/event.c:15-33 | up to 63 events pushed into a ring that shows none are delivered whole and in order by as many polls |
| EventRing.BurstOf64IsLost | kernel/events/event.c:15-33 | after 64 pushes a poll delivers nothing, and the 65th event is then the first delivered |
| EventRing.DeliverableIff | kernel/events/event.c:15-33 | an event not yet delivered is delivered in some continuation if and only if it is not behind the next one to be polled |
| EventRing.OverrunLosesRound | kernel/events/event.c:15-33 | the push that fills the ring loses itself and the 63 events before it in every continuation |
| EventRing.VisiblePush | kernel/events/event.c:15-20 | a push appends to the visible queue, except that the 64th outstanding event empties it |
| EventRing.VisibleIs | kernel/events/event.c:5-33 | what is visible are the last (P - Q) mod 64 pushed events |
| EventRing.VisiblePoll | kernel/events/event.c:22-33 | a poll delivers and removes the first visible event |
| EventRing.EventQueue.ContentsAreVisible | kernel/events/event.c:5-33 | the slots from head to tail hold exactly the last (P - Q) mod 64 pushed events |
| EventRing.EventQueue.PushEvent | kernel/events/event.c:15-20 | the event goes into the slot at `tail`, `tail` steps modulo 64, and the push is recorded |
| EventRing.EventQueue.PollEvent | kernel/events/event.c:22-33 | returns 0 and no event exactly if (P - Q) mod 64 is 0, and otherwise 1 and the pushed event that many places before the last, stepping `head` modulo 64 |
| EventRing.EventQueue.Init | kernel/events/event.c:10-13 | starts an empty history without clearing the slots |
| RoundRobin.WaitsExactly | scheduler/scheduler.c:10-27 | a task at distance p becomes current after exactly p ticks plus one per task added meanwhile, and not before |
| RoundRobin.AddsStarve | scheduler/scheduler.c:10-27 | with at least as many adds as ticks at every moment no task but the current one becomes current |
| RoundRobin.EveryTaskOnce | scheduler/scheduler.c:20-27 | n ticks over n tasks run each task once in circle order and come back to the first |
| RoundRobin.RunStaysDistinct | scheduler/scheduler.c:10-27 | no task ever occurs twice in the circle |
| RoundRobin.CircleStaysIff | scheduler/scheduler.c:10-18 | an add keeps the links a circle if and only if the task is new or the current one; a new one is inserted, the current one remains alone |
| RoundRobin.SecondAdd | scheduler/scheduler.c:10-27 | adding the task at distance k again makes it and the k - 1 tasks before it the circle from the next tick on |
| RoundRobin.SecondAddStarves | scheduler/scheduler.c:10-27 | after that, in any run of ticks and adds that does not add them again, the task that was current is current until the first tick only and the tasks behind the one added never are |
| RoundRobin.AddedRunsNext | scheduler/scheduler.c:10-27 | a task that is added, linked already or not, always runs at the next tick |
| RoundRobin.Scheduler.AddTask | scheduler/scheduler.c:10-18 | relinking any task, linked already or not, gives the links described, a new one right behind the current one |
| RoundRobin.Scheduler.TickOnce | scheduler/scheduler.c:20-27 | the next task along the links becomes current |
| RoundRobin.Scheduler.WalkReturns | scheduler/scheduler.c:10-18 | following `next` from `current` visits every task of the path once and leads back into it, to the start if the links are a circle |

## Left out

- HeapMemory.Heap.constructor: `start` is nonzero and a multiple of 4, `size` a multiple of 4 of at least one header, and the region ends below 2^32, as in the one call in `kernel/kernel.c:35`; other regions overflow or misalign the headers.
- HeapMemory.Heap.Free: pointers into the heap are excluded, in HeapRuns too (`Legal`), if the byte the C code clears, 8 below the pointer, lies in a `size` or `next` field, in a live payload, or below the heap, as for the first eight addresses of the region (`FreeableIff`); what such a byte held is lost.
- Blocks.FreeRemovesOneBlock: the same pointers are excluded.
- VfsMemory.Vfs.Write: `data` is a value, so a source buffer that overlaps the heap is not modelled, and it has at most 0xFFFFFFFC bytes, since a longer one cannot lie beside the heap in a 32-bit address space.
- VfsMemory.Vfs.Read: the destination is an array apart from the heap's memory, so a buffer inside the heap is not modelled.
- Paging.Manager.CreateDirectory: tables and directories are fresh objects, because the code does not check `Memory_alloc` for failure; the heap is not connected to the page tables, and nothing is claimed about frames being disjoint from the heap region.
- Paging.Manager.MapPage: `physical_address` is not modelled, and a directory entry is kept as the pair of table address and flags that `DirWord` joins; after a panic, which does not return, nothing is claimed about the page tables.
- Paging.Manager.VirtualToPhysical: addresses are passed as their integer values, divided by 4096 and 1024; that the shifts, masks and or of the code on 32-bit words have these values is proved in `Bits.dfy`.
- Paging.Manager.FreeFrame: a frame number beyond the bitmap, for which the code writes outside it, is excluded.
- ProcessTable.Table.Create: allocations succeed, as the code assumes; name, page directory, stack, saved registers, run time, user and group are not modelled.
- ProcessTable.Table.constructor: `process_init` runs once.
- RoundRobin.Scheduler.AddTask: saved stack pointers are not modelled.
- Context switches, CR3 and TLB loads, interrupts and port input/output are hardware effects and do not touch the modelled data.
- The hardware page walk, kernel start-up order, and the drivers, user interface, shell and Lua layers are not modelled.
- `IPC/ipc.c`, `kernel/input/input.c`, `filesystem/fs.c` and `process_manager/process_manager.c` repeat simpler forms of the rings and tables modelled here.
