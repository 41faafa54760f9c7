# Tinx kernel verification

A Dafny model of the stateful cores of the Tinx kernel and proofs of what they promise:
the virtual memory map, the kernel heap and the physical page allocator
(`src/xnu_memory.c`), message passing (`src/ipc.c`), the scheduler (`src/tcb.c`), the
UnnamedFS file system (`src/unnamedfs.c`), the text editor's buffer (`src/editor.c`), the
word-at-a-time string routines (`src/lib_string.c`), the line loop of the graphics driver
(`src/vbox_vga.c`) and the TCP checksum (`src/tcp.c`).

Each of the larger parts has two layers. The upper one says on plain values what an
operation does and proves what every run of the operations keeps; apart from how an
operation is defined, lemmas say what it means, that is, exactly when it succeeds, what
then changes and what does not (`IpcMeaning`, `SchedMeaning`, `FsRoom`, `FsCalls`,
`FsPaths`, and beside the definitions in the other modules). The lower one has the
form of the C code: objects whose methods change memory words, links, rings, rows or
packed bits in place, with the code's own loops, each method proved to do to the value it
stands for what the upper layer says.

| part | values and runs | code |
|---|---|---|
| 32-bit alignment arithmetic | `Bits` | |
| virtual memory map | `KernTypes`, `VmRegions` | `VmMap` |
| kernel heap | `HeapBlocks`, `HeapImage` | `KernelHeap` |
| physical pages | `PhysPages`, `Distinctness` | `PhysPages` |
| message passing | `IpcModel`, `IpcRuns`, `IpcMeaning` | `IpcRing`, `IpcKernel` |
| scheduler | `Tasks`, `SchedModel`, `SchedRuns`, `SchedOrder`, `SchedTurns`, `SchedMeaning` | `SchedLinks`, `Scheduler` |
| file system | `FsExtents`, `FsRoom`, `FsFiles`, `FsTree`, `FsNames`, `FsPaths`, `FsRuns`, `FsCalls`, `FsIsolation`, `FsLapses` | `FsBitmap`, `UnnamedFs` |
| editor | `EditorText` | `Editor` |
| string routines, lines, checksum | | `LibString`, `LineDrawing`, `Checksum` |

Conventions. A C `uint32_t` or `size_t` is a natural number below 2^32, and wherever the
code's sums can wrap either the wrap is written out (`align_up`, the rounding of requests,
the doubling of alignments, the sleep conversion, seeking, the checksum's sum) or a
precondition says that they do not.
Whether an allocation inside an operation succeeds is a parameter (`allocOk`, `leftOk`,
`rightOk`, `pagesOk`, `stackOk`, `prepared`). Pointers to tasks are slots of the task
table, with -1 for null. In the string routines memory is one flat array and 0 is the null
pointer.

Places where a property one might expect fails, and exactly when it holds:

- `IpcRuns.NoLostWakeupExactlyWhen` (with `IpcKernel.SharedQueue`): mailboxes shared by tids
  that agree modulo 256, and senders with tids from 2048 on.
- `SchedOrder.FreeRunsWaiting` and `SchedOrder.ExitRunsWaiting`: waiting tasks that run when
  the current task is freed or ends; `SchedOrder.SleeperRuns` is a run to such a state.
- `SchedRuns.RemoveKeeps`: removing a running task without freeing or ending it; run in
  `SchedOrder.RemovedStaysRunning`.
- `FsFiles.OverwriteKeepsTail`: overwrites that release the blocks behind them; runs in
  `FsLapses.TailIsLost` and `FsLapses.OverwrittenShort`.
- `FsRuns.RmdirKeeps`: descriptors left open on a removed directory; run in
  `FsLapses.OpenDirectoryRemoved`.
- `FsNames.CreatedIsFound`: names that cannot be looked up again; runs in
  `FsLapses.DotIsNotFound` and `FsLapses.BareIsNotFound`.
- `FsRuns.EveryRun`: a count of free blocks that includes blocks the bitmap does not cover.
- `HeapBlocks.MallocBlock`: requests whose rounding wraps, with what they get in
  `HeapBlocks.HugeRequestGetsLittle`; `HeapBlocks.DoublingEnds`: alignments on which
  `kmalloc_aligned` does not end.
- `EditorText.SavedAll` and `EditorText.TypeSaveLoad`: texts that do not fit the file buffer,
  typed in `EditorText.EndIsLost`; `Editor.Editor.LoadText`: texts with more lines than the
  editor has rows, such as `EditorText.TooManyLines`.
- `Checksum.TcpChecksum`: data whose sum does not fit 32 bits, such as
  `Checksum.SumOverflows`.

To check everything: `dafny verify dfyconfig.toml`.

## Model

| member | source | states |
|---|---|---|
| `Bits.Pow2Test` | src/xnu_memory.c:568-569 | The test `(a & (a - 1)) == 0` holds exactly for the powers of two. |
| `Bits.AndTopMask` | src/xnu_memory.c:47-51 | Masking with a complement clears exactly the low bits: for powers of two the result is the argument less its remainder. |
| `Bits.AlignUpBounds` | src/xnu_memory.c:47-51 | If the sum does not wrap, `align_up` yields a multiple of the alignment, not below its argument and less than one alignment above it. |
| `Bits.AlignUpLeast` | src/xnu_memory.c:47-51 | The result of `align_up` is the least such multiple. |
| `Bits.AlignUpMultiple` | src/xnu_memory.c:47-51 | Whether or not the sum wraps, `align_up` yields a 32-bit multiple of the alignment. |
| `VmRegions.CutAllMeaning` | src/xnu_memory.c:630-661 | Cutting a range out of every region unmaps exactly the addresses of the range and changes no other address. |
| `VmRegions.CutRunMeaning` | src/xnu_memory.c:623-664 | The removal loop fails exactly when one region encloses the range and no entry can be allocated, and then leaves the list alone; otherwise it is the cut of the whole range. |
| `VmRegions.CutRunOrdered` | src/xnu_memory.c:623-664 | Removal keeps the regions sorted and disjoint. |
| `VmRegions.RemoveMeaning` | src/xnu_memory.c:623-664 | What the removal loop did, in terms of the list before, the list after and its result: exactly when it succeeds, the pointwise effect, no change on failure, order and bounds kept. |
| `VmRegions.PaintAllMeaning` | src/xnu_memory.c:674-707 | Painting a range in every region changes the protection of exactly the mapped addresses of the range. |
| `VmRegions.PaintRunOk` | src/xnu_memory.c:677-702 | The protection loop succeeds exactly when every end of the range that falls inside a region can be split off. |
| `VmRegions.PaintRunPartly` | src/xnu_memory.c:666-710 | A protection loop that stops half way has left every address as it was or as it would finally be; it never maps or unmaps one. |
| `VmRegions.PaintRunMeaning` | src/xnu_memory.c:666-710 | What the protection loop did, in terms of the list before, the list after and the two results: success, coverage, pointwise effect, and that no address is mapped or unmapped. |
| `VmRegions.HitsMeaning` | src/xnu_memory.c:673-709 | The loop meets an entry exactly when some address of the range is mapped, which is when the result is not NOT_FOUND. |
| `VmRegions.InsertOrdered` | src/xnu_memory.c:610-617 | A region put in front of the first one that begins at or behind it keeps the list sorted and disjoint. |
| `VmRegions.InsertEverywhere` | src/xnu_memory.c:599-617 | Inserting a region maps exactly its addresses. |
| `VmMap.ComputeAlignment` | src/xnu_memory.c:566-569 | The alignment used: `mask + 1` if that is a power of two, none if it wraps to zero, a page otherwise. |
| `VmMap.SearchStep` | src/xnu_memory.c:580-584 | Moving the search behind an entry and rounding up skips no address at which the request would fit. |
| `VmMap.Map.Init` | src/xnu_memory.c:543-554 | A zero size, and nothing else, is refused; otherwise a valid map in which no address is mapped. |
| `VmMap.Map.Unlink` | src/xnu_memory.c:636-639 | Taking an entry out of the doubly linked list removes exactly it and keeps links and count right. |
| `VmMap.Map.Insert` | src/xnu_memory.c:610-617 | Linking a new entry between two neighbours puts it exactly there. |
| `VmMap.Map.Split` | src/xnu_memory.c:641-652 | An entry becomes two neighbouring entries with the given inner bounds and the same attributes. |
| `VmMap.Map.CutLoop` | src/xnu_memory.c:629-661 | The loop over linked entries does what the value-level removal does. |
| `VmMap.Map.Remove` | src/xnu_memory.c:623-664 | After a successful remove no address of the range is mapped and every other address is as before; running out of memory leaves the map unchanged; the list stays sorted, disjoint, doubly linked and counted. |
| `VmMap.Map.PaintLoop` | src/xnu_memory.c:672-707 | The loop over linked entries does what the value-level protection does. |
| `VmMap.Map.Protect` | src/xnu_memory.c:666-710 | On success exactly the mapped addresses of the range have the new protection; NOT_FOUND exactly if there are none; the set of mapped addresses never changes, whatever the result. |
| `VmMap.Map.Lookup` | src/xnu_memory.c:712-727 | Finds an entry exactly if the address is mapped, and then the one that holds it. |
| `VmMap.Map.FirstFit` | src/xnu_memory.c:575-586 | The search yields the least suitably aligned address, from the base on, whose range meets no entry. |
| `VmMap.Map.RoomAt` | src/xnu_memory.c:590-595 | The overlap scan of a fixed request says whether the range meets no entry. |
| `VmMap.Map.Enter` | src/xnu_memory.c:556-621 | An "anywhere" request gets the least aligned address in the map whose range meets no entry, NO_SPACE exactly if there is none; a fixed request inside the map gets NO_SPACE exactly if it overlaps an entry; success maps exactly the range; any other result changes nothing. |
| `VmRegions.CutUndoesInsert` | src/xnu_memory.c:599-661 | Removing the range of an entry that was entered where it fits restores the list of entries. |
| `HeapBlocks.TakeLayout` | src/xnu_memory.c:130-165 | An allocation keeps the blocks tiling the heap and never makes two free blocks neighbours. |
| `HeapBlocks.CoalesceTiles` | src/xnu_memory.c:113-128 | Whatever tiling it is given, one coalescing pass keeps it a tiling and leaves no two free neighbours. |
| `HeapBlocks.ReleaseLayout` | src/xnu_memory.c:233-236 | A release keeps the layout. |
| `HeapBlocks.TakeNone` | src/xnu_memory.c:141-164 | First fit fails exactly if no free block is large enough, and then changes nothing. |
| `HeapBlocks.TakeFirstFit` | src/xnu_memory.c:141-161 | First fit takes the lowest free block that is large enough and changes no other. |
| `HeapBlocks.FreeUndoesMalloc` | src/xnu_memory.c:113-165 | Releasing what an allocation returned restores the exact list of blocks. |
| `HeapBlocks.KfreeUndoesKmalloc` | src/xnu_memory.c:130-238 | `kfree` of the result of `kmalloc` restores the block layout, whatever the word in front of the payload. |
| `HeapBlocks.RoundUp8` | src/xnu_memory.c:134 | A request is rounded up to the least multiple of 8, unless that wraps. |
| `HeapBlocks.Conservation` | src/xnu_memory.c:90-111 | Headers and payloads of all blocks add up to the heap. |
| `HeapBlocks.EveryRunTilesTheHeap` | src/xnu_memory.c:53-238 | After every sequence of requests and releases, of any pointers, the blocks tile the whole heap in address order, headers plus payloads make up its size, and no two neighbours are free. |
| `HeapBlocks.AllocatedStays` | src/xnu_memory.c:130-238 | Over every run that does not release it, an allocated block keeps its place and size. |
| `HeapBlocks.ReleaseAllocated` | src/xnu_memory.c:233-236 | A release takes exactly the block it names from the allocated blocks: every other one stays, and none appears. |
| `HeapBlocks.PayloadInside` | src/xnu_memory.c:130-165 | Every payload begins strictly inside the heap. |
| `HeapBlocks.AlignedInside` | src/xnu_memory.c:246-267 | The aligned pointer, its back-pointer and its payload lie inside the raw block. |
| `HeapBlocks.AlignedTarget` | src/xnu_memory.c:171-220 | A pointer from `kmalloc_aligned` with its back-pointer intact is never taken for an ordinary block: `kfree` acts on its raw block. |
| `HeapBlocks.AlignedRelease` | src/xnu_memory.c:167-267 | Releasing an aligned pointer after any run that did not release its raw block frees exactly that block: it is allocated no more, every other allocated block stays as it is, and none is added. |
| `HeapBlocks.AlignedUndone` | src/xnu_memory.c:167-267 | Releasing an aligned pointer right after its raw block was allocated restores the exact list of blocks. |
| `HeapBlocks.DoublingEnds` | src/xnu_memory.c:250-255 | The doubling that rounds an alignment up, with its 32-bit wrap, ends exactly for alignments of at most 2^31. |
| `HeapBlocks.MallocBlock` | src/xnu_memory.c:130-165 | The block behind a returned pointer is new, allocated and aligned to 8; it has room for the request exactly if rounding up did not wrap. |
| `HeapBlocks.HugeRequestGetsEmptyBlock` | src/xnu_memory.c:134-164 | On a fresh heap every request above 2^32 - 8 gets a block without room. |
| `HeapBlocks.HugeRequestGetsLittle` | src/xnu_memory.c:134-164 | On any heap a request above 2^32 - 8, which wraps to zero, gets the first free block, cut down to nothing if it has 32 bytes or more. |
| `HeapBlocks.HugeRequestFails` | src/xnu_memory.c:134-164 | Such a request fails exactly if no block is free. |
| `HeapImage.CarveFacts` | src/xnu_memory.c:143-155 | The header stores of an allocation turn the memory of the old list into that of the new list and leave all live payloads alone. |
| `HeapImage.MergeImage` | src/xnu_memory.c:113-128 | The stores of one merge turn the memory of a list into that of the list with the two blocks merged. |
| `HeapImage.CanaryIntact` | src/xnu_memory.c:178-189 | Every header of the list is aligned and carries the canary, so the test `kfree` makes first never refuses a real block. |
| `KernelHeap.Heap.constructor` | src/xnu_memory.c:53-68 | A heap before its first use. |
| `KernelHeap.Heap.Init` | src/xnu_memory.c:53-68 | The first use lays out one free block over the whole heap. |
| `KernelHeap.Heap.FindFit` | src/xnu_memory.c:137-161 | The walk through the headers stops at the block first fit chooses. |
| `KernelHeap.Heap.Kmalloc` | src/xnu_memory.c:130-165 | On memory words: the block list and the pointer are those of the value-level allocation, and no live payload changes. |
| `KernelHeap.Heap.CoalescePass` | src/xnu_memory.c:113-128 | On memory words: the pass is the value-level coalescing. |
| `KernelHeap.Heap.Walk` | src/xnu_memory.c:183-186 | The walk finds a header exactly if a block has it. |
| `KernelHeap.Heap.Kfree` | src/xnu_memory.c:167-238 | On memory words: the block freed, if any, is the one the value-level release names; refused pointers and double frees change nothing; no live payload changes. |
| `KernelHeap.Heap.RoundAlign` | src/xnu_memory.c:248-255 | The alignment used is the least power of two not below the one asked for, for every alignment for which the doubling ends. |
| `KernelHeap.Heap.KmallocAligned` | src/xnu_memory.c:246-267 | The result is null exactly if `kmalloc` of the padded size is; otherwise it is a multiple of the alignment, with payload and back-pointer inside the block allocated, which is new. |
| `KernelHeap.Heap.AlignedRoundTrip` | src/xnu_memory.c:167-267 | `kfree` of what `kmalloc_aligned` returned, null or not, restores the blocks, the back-pointer being read from memory. |
| `KernelHeap.Heap.KheapUsed` | src/xnu_memory.c:90-99 | Headers and payloads of the allocated blocks. |
| `KernelHeap.Heap.KheapFree` | src/xnu_memory.c:101-111 | Payloads of the free blocks. |
| `HeapBlocks.FreeMeans` | src/xnu_memory.c:167-238 | `kfree` takes from the allocated blocks exactly the one whose payload begins at the pointer or, failing that and for a pointer inside the heap, at the word in front of it; if there is none, nothing changes. |
| `PhysPages.FewerThan` | src/xnu_memory.c:496-512 | The free stack can never be full when a frame is given back. |
| `PhysPages.TakeTop` | src/xnu_memory.c:472-494 | The frame on top of the stack is the head of the list, so the linear unlink search is never needed. |
| `PhysPages.RunProper` | src/xnu_memory.c:423-512 | Over every run the stack holds distinct frames other than 0. |
| `PhysPages.OnlyGivenBackComesBack` | src/xnu_memory.c:472-512 | A frame that was handed out stays out until it is given back. |
| `PhysPages.NoFrameTwice` | src/xnu_memory.c:423-512 | In every run an allocation hands out a frame between 1 and the number of frames, or reports that none is free, and hands the same frame out again only after it was given back. |
| `PhysPages.StepMeans` | src/xnu_memory.c:472-512 | What a call does to each frame: an allocation takes the frame it hands out and no other; a frame in range that is given back is free; no other frame changes. |
| `PhysPages.Manager.Init` | src/xnu_memory.c:423-470 | Stack and list hold exactly the frames flagged free, in opposite order, and never frame 0; failures of either array allocation are reported. |
| `PhysPages.Manager.AllocPage` | src/xnu_memory.c:472-494 | The top frame is taken from stack and list; free count, flags, stack and list stay in step. |
| `PhysPages.Manager.FreePage` | src/xnu_memory.c:496-512 | A frame in range and not free goes on top of stack and list; any other is refused without change. |
| `IpcRing.SlotIsRemainder` | src/ipc.c:307-311 | The slot behind the head is what the code computes as a remainder. |
| `IpcRing.Enqueue` | src/ipc.c:307-311 | Appends the message to the queue. |
| `IpcRing.Find` | src/ipc.c:385-411 | Finds the oldest message from the wanted sender, if there is one. |
| `IpcRing.CloseGap` | src/ipc.c:421-438 | Moving the later messages up one slot each, across the wrap point, removes exactly the message found. |
| `IpcRing.RemoveAt` | src/ipc.c:416-438 | Removes the message at the position, from the head or the middle, and keeps the order of the others. |
| `IpcModel.FromWithout` | src/ipc.c:385-438 | Taking the oldest match takes the oldest message of its sender. |
| `IpcModel.AcceptOrdered` | src/ipc.c:307-311 | Accepting a message at the end of a queue keeps, for each sender, delivered followed by queued equal to accepted. |
| `IpcModel.DeliverOrdered` | src/ipc.c:385-438 | Delivering the oldest match, filtered or not, keeps delivered followed by queued equal to accepted for each sender. |
| `IpcRuns.PostKeeps` | src/ipc.c:307-346 | Posting keeps every blocked task justified: a receiver the message matches is woken, and a sender blocked on another queue still faces a full one. |
| `IpcRuns.TakeKeeps` | src/ipc.c:247-268 | Taking a message makes room and wakes the senders waiting for it. |
| `IpcRuns.SendKeeps` | src/ipc.c:273-363 | `ipc_send` and `ipc_try_send` keep the invariant. |
| `IpcRuns.RecvKeeps` | src/ipc.c:368-505 | `ipc_recv` keeps the invariant. |
| `IpcRuns.StepKeeps` | src/ipc.c:273-611 | Every IPC operation keeps the invariant. |
| `IpcRuns.StepConserved` | src/ipc.c:273-611 | Every IPC operation keeps, per queue and sender, delivered followed by queued equal to accepted, whoever shares the queue and whatever the tids are. |
| `IpcRuns.RunConserved` | src/ipc.c:273-611 | Every run keeps it: no message is lost, made up or taken out of its sender's order, in shared mailboxes too. |
| `IpcRuns.EveryRun` | src/ipc.c:247-611 | In every state of every run from empty queues: per queue and sender delivered followed by queued is what was accepted; and if live tasks have queues of their own and tids the scan for senders reaches, no task blocked in a receive has a matching message queued and no task blocked in a send faces a queue with space. |
| `IpcRuns.SharedQueueLoses` | src/ipc.c:60-65 | If two live tasks receive from one queue, a run of two calls loses a wakeup. |
| `IpcRuns.FarSenderLoses` | src/ipc.c:247-268 | A sender with a tid from 2048 on that waits for space in another task's queue is not woken when there is space. |
| `IpcRuns.NoLostWakeupExactlyWhen` | src/ipc.c:247-564 | No run loses a wakeup exactly when live tasks have queues of their own and, if there are several, tids below 2048. |
| `IpcMeaning.SendMeans` | src/ipc.c:273-363 | `ipc_send` returns -1 and changes nothing if a party is dead, or if the queue is full and the message must not wait; -2 exactly if it waits, and then only the sender changes, blocked on the receiver; 0 exactly if there is room, and then the queue gains, at its end, one message with the body and flags given, the tids of both parties stamped on it, and the receiver wakes if it waits for the sender or for anybody. |
| `IpcMeaning.TrySendMeans` | src/ipc.c:569-575 | `ipc_try_send` is such a send with the lowest flag set, and never waits. |
| `IpcMeaning.ReplyMeans` | src/ipc.c:510-564 | A reply is such a send by the live task whose tid it carries; if there is none, it is queued if there is room with its own sender, or the kernel for no sender, and never waits. |
| `IpcMeaning.RecvMeans` | src/ipc.c:368-505 | `ipc_recv` returns 0 exactly if the queue holds a message from the wanted sender, or any message for sender -1; it then hands over the oldest such one unaltered, which is the only one to leave the queue, and wakes the senders that wait for the receiver. Otherwise a live task is blocked waiting for the wanted sender, and nothing else changes. |
| `IpcMeaning.TryRecvMeans` | src/ipc.c:577-611 | `ipc_try_recv` does the same but never waits: without a match nothing changes. |
| `IpcMeaning.RunMeant` | src/ipc.c:273-611 | Every step of every run does what these say. |
| `IpcMeaning.RunAccepts` | src/ipc.c:273-611 | Over every run, what a queue has accepted is what the calls that returned 0 sent to it, in their order. |
| `IpcMeaning.RunDelivers` | src/ipc.c:368-611 | Over every run, what a queue has delivered is what the receives that returned 0 handed over, in their order. |
| `IpcMeaning.SentIsReceived` | src/ipc.c:273-611 | In every run from empty queues, for every queue and sender: what receives handed over, followed by what is still queued, is what was sent with result 0, unaltered and in order. |
| `IpcKernel.SharedQueue` | src/ipc.c:60-76 | Two tasks receive from one queue exactly if neither owns a port and their tids agree modulo 256. |
| `IpcKernel.Ipc.constructor` | src/ipc.c:84-106 | No port is used and every queue is empty. |
| `IpcKernel.Ipc.GetByTid` | src/tcb.c:179-188 | The slot of the task with the tid, if it exists. |
| `IpcKernel.Ipc.FindPort` | src/ipc.c:68-76 | The first used port the task owns. |
| `IpcKernel.Ipc.Post` | src/ipc.c:307-346 | Enqueues in the ring of the receiver and wakes it as the model says, with bindings unchanged. |
| `IpcKernel.Ipc.Send` | src/ipc.c:273-363 | On rings, ports and the task pool: state and code are those of the model's send, which means what `IpcMeaning.SendMeans` says. |
| `IpcKernel.Ipc.TrySend` | src/ipc.c:569-575 | State and code are those of the model's send with the non-blocking flag set. |
| `IpcKernel.Ipc.Reply` | src/ipc.c:510-564 | State and code are those of the model's reply: a send if the named sender lives, otherwise a post in its or the kernel's name that fails on a full queue. |
| `IpcKernel.Ipc.WakeSenders` | src/ipc.c:247-268 | The scan over tids up to 2047 wakes exactly the tasks blocked on the receiver. |
| `IpcKernel.Ipc.Recv` | src/ipc.c:368-505 | State, code and message are those of the model's receive, which means what `IpcMeaning.RecvMeans` says. |
| `IpcKernel.Ipc.TryRecv` | src/ipc.c:577-611 | State, code and message are those of the model: a receive if a match is queued, otherwise nothing. |
| `IpcKernel.Ipc.CreatePort` | src/ipc.c:108-132 | The lowest unused port gets an empty queue of the size asked for or the default; -1 exactly if all are used; other queues are unchanged. |
| `IpcKernel.Ipc.BindPort` | src/ipc.c:152-167 | Succeeds exactly for a used port without another owner and a live task. |
| `IpcKernel.Ipc.Perform` | src/ipc.c:273-611 | One call of any kind on rings, ports and pool: invariant kept, bindings unchanged, state, code and history those of one step of the model. |
| `IpcKernel.Ipc.PerformAll` | src/ipc.c:273-611 | Any sequence of calls on rings, ports and pool is a run of the model, so what holds of every run holds of the code. |
| `SchedRuns.AddKeeps` | src/tcb.c:327-354 | Queueing a task keeps the scheduler invariant: queued tasks distinct and existing, only the current task marked RUNNING. |
| `SchedRuns.RemoveKeeps` | src/tcb.c:356-385 | Removing a task keeps the scheduler invariant exactly if the task does not run, is not queued or is its own successor; a running one stays marked RUNNING beside the next. |
| `SchedRuns.ReleaseKeeps` | src/tcb.c:163-177 | Freeing any task, running or not, keeps the scheduler invariant. |
| `SchedRuns.CreateKeeps` | src/tcb.c:102-269 | Creating a task keeps the scheduler invariant. |
| `SchedRuns.ScheduleKeeps` | src/tcb.c:483-546 | Expiry, rotation, choice and switch together keep the scheduler invariant. |
| `SchedRuns.StepKeeps` | src/tcb.c:163-628 | Every entry point keeps the scheduler invariant. |
| `SchedRuns.EveryRun` | src/tcb.c:163-628 | After every sequence of create, add, free, exit, tick, schedule, yield, block, unblock and sleep from initialisation, the queue holds distinct tasks that exist, and any task marked RUNNING is the current one. |
| `SchedOrder.DispatchComplete` | src/tcb.c:394-419 | If the current task cannot go on, the choice is the first READY task in circular order behind it, whenever one is queued. |
| `SchedOrder.Preemption` | src/tcb.c:397-408 | A running task with time left goes on exactly if no queued ready task has a higher priority; otherwise such a task is chosen. |
| `SchedOrder.OneYield` | src/tcb.c:483-569 | With every queued task ready, a yield moves the current task to the end and runs the head. |
| `SchedOrder.RoundRobin` | src/tcb.c:387-569 | With n queued tasks and none blocked, n yields dispatch every queued task exactly once and end with the one they started from. |
| `SchedOrder.WakeMeaning` | src/tcb.c:460-480 | The wake-up scan makes exactly the due sleepers ready and queues those that were not queued. |
| `SchedOrder.TickMeaning` | src/tcb.c:447-481 | A tick charges the current task, in whatever state it is, and wakes a sleeper exactly from its wake-up tick on. |
| `SchedOrder.ScheduleHealthy` | src/tcb.c:387-546 | With a runnable idle task queued, rescheduling dispatches a task that could run. |
| `SchedOrder.BlockedTasksWait` | src/tcb.c:327-628 | In every run that never frees, ends or puts to sleep the idle task, exactly the current task is RUNNING, and each further step gives the processor to a task that could run, except exactly where a free or an exit takes the current task away, the task behind it waits and, for an exit, no ready task outranks that. |
| `SchedOrder.FreeRunsWaiting` | src/tcb.c:163-177 | Freeing a task hands the processor to one that could not run, and makes a waiting task runnable, exactly if the freed task was current and the task behind it waits. |
| `SchedOrder.ExitRunsWaiting` | src/tcb.c:271-283 | Ending the current task makes a waiting task runnable exactly if the task behind it waits, and dispatches that task exactly if no queued ready task has a higher priority. |
| `SchedOrder.SleeperRuns` | src/tcb.c:271-283 | A run from initialisation after which a free and an exit of the current task both make a sleeping task run. |
| `SchedOrder.RemovedStaysRunning` | src/tcb.c:356-385 | A run from initialisation after which removing the running task leaves two tasks marked RUNNING. |
| `SchedTurns.SlicePasses` | src/tcb.c:447-546 | With equal priorities and nobody asleep, as many passes, each a tick and then a call of `scheduler_schedule`, as the current task has ticks left move it to the end of the queue, run the head, and leave the slices of the others as they were. |
| `SchedTurns.DispatchedInTurn` | src/tcb.c:447-546 | Then the k-th task of the rotated queue is dispatched at exactly the pass at which the current task and those before it have used up their slices. |
| `SchedTurns.BoundedWaiting` | src/tcb.c:447-546 | So every queued task gets the processor within what is left to the current task and the slices of all others. |
| `SchedMeaning.SliceTable` | src/tcb.c:32-40 | The time slice of every priority. |
| `SchedMeaning.UnblockMeans` | src/tcb.c:587-606 | A blocked task becomes ready with a fresh slice and is queued, behind all others if it was not queued; nothing else of it and no other task changes. On any other task the call does nothing. |
| `SchedMeaning.BlockMeans` | src/tcb.c:571-585 | Blocking a task that is not current marks it, notes the time and changes nothing else. |
| `SchedMeaning.BlockCurrentMeans` | src/tcb.c:571-585 | With a runnable idle task queued, blocking the current task leaves it blocked and in its place, and another task that could run runs. |
| `SchedMeaning.BlockThenUnblock` | src/tcb.c:571-606 | Blocking a queued task that is not current and then unblocking it, as a run, leaves it ready with a fresh slice where it was in the queue, and changes nothing else. |
| `SchedMeaning.SleepTicksMeans` | src/tcb.c:608-628 | A sleep takes the least number of 10 millisecond ticks that covers it, or one if the 32-bit sum wraps. |
| `SchedMeaning.SleepMeans` | src/tcb.c:608-628 | The current task sleeps until that many ticks from now, blocked and in its place, and another task that could run runs. |
| `SchedMeaning.SleepsUntil` | src/tcb.c:447-481 | A sleeper that is not current is unchanged by every number of ticks before its time, and ready and queued at its time. |
| `SchedMeaning.AddMeans` | src/tcb.c:327-354 | A task that exists and is not queued goes to the end of the queue with a slice, ready, or running if no task was current; otherwise nothing changes. |
| `SchedMeaning.RemoveMeans` | src/tcb.c:356-385 | A queued task leaves the queue; if it was current, the new head, or the idle task, runs with a fresh slice; nothing else changes. |
| `SchedMeaning.ReleaseMeans` | src/tcb.c:163-177 | A freed task is free, has no tid, is not queued and not current; no other task changes but the one that runs in its place. |
| `SchedMeaning.CreateMeans` | src/tcb.c:102-269 | A new task gets the lowest free slot, the next tid, its priority and a slice, and is queued at the end; without a free slot nothing changes. |
| `SchedMeaning.ExitMeans` | src/tcb.c:271-283 | The task that ends is a zombie, not queued and not current. |
| `SchedMeaning.PreemptMeans` | src/tcb.c:387-546 | Rescheduling with time left changes nothing exactly if no queued ready task has a higher priority; otherwise it switches to one that has. |
| `SchedMeaning.HandOverMeans` | src/tcb.c:387-546 | Rescheduling from a task that cannot run switches to the first ready task behind it in circular order, and changes nothing but those two tasks. |
| `SchedMeaning.IdleMeans` | src/tcb.c:387-546 | If nobody is ready the idle task runs, or without one the current task. |
| `SchedMeaning.StartMeans` | src/tcb.c:483-546 | Without a current task the first ready task of the queue is dispatched. |
| `SchedLinks.AppendSpells` | src/tcb.c:336-348 | Linking a task behind the tail spells the longer queue, and tasks outside it have null links. |
| `SchedLinks.UnlinkSpells` | src/tcb.c:369-376 | Unlinking a task, at either end or in the middle, spells the queue without it. |
| `Scheduler.RotateHead` | src/tcb.c:504-510 | The pointer updates that move the head to the tail spell the rotated queue. |
| `Scheduler.RotateMiddle` | src/tcb.c:511-519 | The pointer updates that move a task from the middle to the tail spell the rotated queue. |
| `Scheduler.Scheduler.constructor` | src/tcb.c:297-321 | The idle task is created, queued and running. |
| `Scheduler.Scheduler.InQueue` | src/tcb.c:331-334 | The walk along the links finds a task exactly if it is queued. |
| `Scheduler.Scheduler.AddTask` | src/tcb.c:327-354 | Tasks, queue and current become what the model's add makes of them, and the links spell the new queue. |
| `Scheduler.Scheduler.RemoveTask` | src/tcb.c:356-385 | Tasks, queue and current become what the model's removal makes of them, and the links spell the new queue. |
| `Scheduler.Scheduler.FreeTask` | src/tcb.c:163-177 | Tasks, queue and current become what the model's release makes of them, and the links spell the new queue. |
| `Scheduler.Scheduler.CreateTask` | src/tcb.c:256-269 | The lowest free slot is filled and queued as in the model, and reported; none is reported if all are taken. |
| `Scheduler.Scheduler.ScanTurn` | src/tcb.c:394-419 | The bounded circular walk finds the first ready task behind the current one, or none if none is ready. |
| `Scheduler.Scheduler.ScanBest` | src/tcb.c:421-426 | The fallback scan finds a ready task of the highest priority, or none exactly if none is ready. |
| `Scheduler.Scheduler.PickNext` | src/tcb.c:387-437 | The task chosen is the model's choice; the fallback search never finds anything. |
| `Scheduler.Scheduler.Rotate` | src/tcb.c:500-523 | The task goes to the end of the queue, links well-formed. |
| `Scheduler.Scheduler.ScheduleNext` | src/tcb.c:483-546 | State and queue become what the model's rescheduling makes of them, up to the context switch, and the links spell the new queue. |
| `Scheduler.Scheduler.TickTasks` | src/tcb.c:447-481 | State and queue become what the model's tick makes of them, and the links spell the new queue. |
| `Scheduler.Scheduler.YieldTask` | src/tcb.c:557-569 | State and queue become what the model's yield makes of them, and the links spell the new queue. |
| `Scheduler.Scheduler.BlockTask` | src/tcb.c:571-585 | State and queue become what the model's block makes of them (`SchedMeaning.BlockMeans`, `SchedMeaning.BlockCurrentMeans`), and the links spell the new queue. |
| `Scheduler.Scheduler.UnblockTask` | src/tcb.c:587-606 | State and queue become what the model's unblock makes of them (`SchedMeaning.UnblockMeans`), and the links spell the new queue. |
| `Scheduler.Scheduler.SleepTask` | src/tcb.c:608-628 | State and queue become what the model's sleep makes of them, with the 32-bit conversion to ticks, and the links spell the new queue. |
| `Scheduler.Scheduler.ExitTask` | src/tcb.c:271-283 | State and queue become what the model's exit makes of them, and the links spell the new queue. |
| `Scheduler.Scheduler.Perform` | src/tcb.c:163-628 | One call of any kind on linked slots: links and scheduler invariant kept, state that of one step of the model. |
| `Scheduler.Scheduler.PerformAll` | src/tcb.c:163-628 | Any sequence of calls on linked slots keeps links and invariant and ends in the state the model's run ends in. |
| `FsBitmap.SetOneBit` | src/unnamedfs.c:56 | Setting a packed bit sets that bit and no other. |
| `FsBitmap.ClearOneBit` | src/unnamedfs.c:57 | Clearing a packed bit clears that bit and no other. |
| `FsBitmap.SetTo` | src/unnamedfs.c:56-57 | Sets or clears the flag of one block; blocks outside the device are ignored. |
| `FsBitmap.Init` | src/unnamedfs.c:60-67 | All blocks are free but the first two. |
| `FsBitmap.FindContiguous` | src/unnamedfs.c:73-83 | The skipping search returns the least start, from block 2 on, of a free run of the length asked for, and fails exactly if there is none. |
| `FsBitmap.MarkRange` | src/unnamedfs.c:84-86 | Marks exactly the blocks of the range. |
| `FsBitmap.ClearMark` | src/unnamedfs.c:84-86 | Marking blocks that all had the other value moves the count of clear flags by their number. |
| `FsExtents.Reassign` | src/unnamedfs.c:224-286 | Whenever an inode changes its extent for free blocks or its own, extents stay disjoint and inside the device, the bitmap stays exact and the free count right. |
| `FsExtents.ShrinkIsReassign` | src/unnamedfs.c:230-238 | Giving up the tail is a change of extent that keeps the allocation invariant; the guard on the free count always holds. |
| `FsExtents.AllotIsReassign` | src/unnamedfs.c:243-250 | A first allocation is a change of extent that keeps the allocation invariant. |
| `FsExtents.ExtendIsReassign` | src/unnamedfs.c:251-261 | Growing in place is a change of extent that keeps the allocation invariant. |
| `FsExtents.MoveIsReassign` | src/unnamedfs.c:262-282 | Moving to another run is a change of extent that keeps the allocation invariant. |
| `FsExtents.EnsureKeeps` | src/unnamedfs.c:224-286 | A successful `ensure_blocks` gives its inode exactly the blocks needed and changes no other inode; a failed one changes nothing. |
| `FsExtents.EnsureOthers` | src/unnamedfs.c:224-286 | It changes the visible bytes of no other file, even when it copies a file. |
| `FsExtents.EnsureSelf` | src/unnamedfs.c:224-286 | It keeps the visible bytes of its own file as far as the new blocks reach. |
| `FsExtents.EnsureRest` | src/unnamedfs.c:224-286 | Behind the visible bytes it leaves in the blocks of the file what they held. |
| `FsRoom.EnsureSucceeds` | src/unnamedfs.c:224-286 | `ensure_blocks` succeeds exactly if the file has enough blocks, or the blocks behind it are free, or some run of free blocks is long enough; the free count never stands in the way of a run that is there. |
| `FsRoom.EnsurePlaces` | src/unnamedfs.c:224-286 | After it the file has exactly the blocks for the size: in place if it shrinks, stays or can grow there, otherwise at the least free run. |
| `FsRoom.WriteReports` | src/unnamedfs.c:394-423 | The exact number of bytes a write returns, including the shorter write it tries when there is no room for all, and when it returns -1. |
| `FsFiles.RoomIsRoomy` | src/unnamedfs.c:402-417 | The attempt for all bytes and the retry for fewer make room for exactly the bytes that will be reported, or change nothing. |
| `FsFiles.WriteKeeps` | src/unnamedfs.c:394-423 | Any write leaves the file system consistent and the visible bytes of every other file as they were; a failed write changes nothing. |
| `FsFiles.WriteMeaning` | src/unnamedfs.c:394-423 | Length and blocks of the written file, and every byte it shows: the byte written, else the byte it showed there before, else, in a hole, what its blocks held before the call. |
| `FsFiles.WriteContent` | src/unnamedfs.c:394-423 | From a file whose size its blocks cover, with the offset not behind its end and the write reaching it, a write returning n leaves the old bytes before the offset followed by the first n bytes written, through extension, relocation and short writes. |
| `FsFiles.WriteThenRead` | src/unnamedfs.c:372-423 | Reading where a write has just been gives back the bytes it wrote. |
| `FsFiles.OverwriteKeepsTail` | src/unnamedfs.c:230-238 | Overwriting inside a file writes all bytes, and keeps the bytes behind the write exactly if the write ends in the last visible block. |
| `FsFiles.OverwriteSucceeds` | src/unnamedfs.c:394-423 | A write that stays inside the blocks of the file is never cut short. |
| `FsFiles.RebuildIsLive` | src/unnamedfs.c:89-98 | Mounting again reproduces the bitmap of the running system. |
| `FsTree.ScanIs` | src/unnamedfs.c:157-168 | With unique names, any inode with the name and parent is the one the scan finds. |
| `FsTree.Lookup` | src/unnamedfs.c:147-169 | With unique names, the lookup returns what the scan returns, whatever the cache holds; the cache then holds the hit, and a stale entry for the name is dropped. |
| `FsTree.NormalizeNormal` | src/unnamedfs.c:101-116 | Normalizing yields a path without doubled or trailing slashes that fits the buffer, and normalizing again changes nothing. |
| `FsTree.NormalizePath` | src/unnamedfs.c:101-116 | The copying loop computes the normalized path. |
| `FsTree.FoundLive` | src/unnamedfs.c:179-210 | Whatever the spelling, a path leads nowhere or to a live inode. |
| `FsTree.FindByPath` | src/unnamedfs.c:179-210 | The loop over the components, with cached lookups, returns what the walk with uncached lookups returns. |
| `FsNames.AddKeepsTree` | src/unnamedfs.c:443-469 | A new inode in a directory under a name free there keeps the tree a tree: parents are live directories, links reach the root, names are unique. |
| `FsNames.RemoveKeepsTree` | src/unnamedfs.c:489-541 | Taking out an inode without children keeps the tree a tree, and that inode is never the root. |
| `FsNames.RootHasChild` | src/unnamedfs.c:527-531 | The root counts as its own child, so no spelling of a path removes it. |
| `FsNames.BaseNameOf` | src/unnamedfs.c:118-129 | The loops compute the last name of the path, cut to 63 characters. |
| `FsNames.CreateKeepsTree` | src/unnamedfs.c:443-469 | `create_inode` keeps the tree and changes nothing when it fails. |
| `FsNames.PathLeads` | src/unnamedfs.c:179-210 | A path leads where its last name leads from its directory. |
| `FsNames.CreatedIsFound` | src/unnamedfs.c:443-469 | A path that was just created leads to the new inode exactly if its last name is neither "." nor ".."; a path without a slash, of which the lookup drops the first character, exactly if the name cut to 63 characters is the same without it. |
| `FsRuns.ClearedKeeps` | src/unnamedfs.c:498-503 | Giving up an inode's blocks keeps the allocation invariant; the guard on the free count always holds. |
| `FsRuns.MakeKeeps` | src/unnamedfs.c:471-487 | Creating files and directories keeps the file system invariant. |
| `FsRuns.UnlinkKeeps` | src/unnamedfs.c:489-514 | Unlinking keeps the file system invariant; descriptors on the file are closed. |
| `FsRuns.RmdirKeeps` | src/unnamedfs.c:517-541 | Removing a directory keeps the file system invariant exactly if the path does not name an empty directory below the root on which a descriptor is open. |
| `FsRuns.WriteFileKeeps` | src/unnamedfs.c:394-423 | Writing through a descriptor keeps the file system invariant. |
| `FsRuns.StepKeeps` | src/unnamedfs.c:343-541 | A call keeps the file system invariant exactly if it does not remove an empty directory on which a descriptor is open. |
| `FsRuns.EveryRun` | src/unnamedfs.c:289-541 | After every run from a formatted device of any size that removes no directory with an open descriptor and in which no end of a write wraps: extents disjoint and inside the device, bitmap exactly the reserved blocks and the extents, remounting reproduces the bitmap, inodes a tree with unique names, descriptors on live inodes; the free count is the number of clear blocks exactly for devices of at most 4096 blocks. |
| `FsCalls.WriteMeans` | src/unnamedfs.c:394-423 | A write through a descriptor writes at its offset, moves the offset behind what was written and changes no other descriptor and no other file; it is refused for descriptors not in use and for directories. |
| `FsCalls.WriteAtOffset` | src/unnamedfs.c:394-423 | Writing from the offset to or past the end of a file: it then shows what it showed before the offset followed by what was written, and the offset is at its end. |
| `FsCalls.WriteTwice` | src/unnamedfs.c:394-423 | Two writes in a row append one after the other. |
| `FsCalls.WrittenTwice` | src/unnamedfs.c:289-423 | On a formatted device of any size, making a file, opening it and writing twice is a run after which the file shows the first buffer followed by the second. |
| `FsCalls.ReadMeans` | src/unnamedfs.c:372-392 | A read delivers what the file shows from the offset on, as much as is asked for and there is, moves the offset behind it and changes nothing else. |
| `FsCalls.SeekMeans` | src/unnamedfs.c:425-440 | A seek sets the offset counted from the start, the old offset or the size, in signed 32 bits; a negative result, an unknown origin or a closed descriptor changes nothing. |
| `FsCalls.OpenMeans` | src/unnamedfs.c:343-361 | Opening takes the lowest free descriptor, at offset 0, on what the path leads to; it fails exactly if the path leads nowhere or all 64 are in use. |
| `FsCalls.CloseMeans` | src/unnamedfs.c:363-370 | Closing frees exactly that descriptor. |
| `FsCalls.MakeMeans` | src/unnamedfs.c:443-487 | A file or directory is made exactly if its parent is a directory, its name is not empty and free there, and a slot is left; the lowest slot then holds an empty inode of that kind, name and parent, and nothing else changes. |
| `FsCalls.PathGone` | src/unnamedfs.c:179-210 | A path to an inode without children leads nowhere once that inode is gone. |
| `FsCalls.UnlinkMeans` | src/unnamedfs.c:489-514 | Unlinking succeeds exactly for a path to something that is not a directory; its inode is then empty, its blocks and no others are free, its path leads nowhere, and exactly its descriptors are closed. |
| `FsCalls.RmdirMeans` | src/unnamedfs.c:517-541 | A directory is removed exactly if it is not the root and nobody's parent; then it is gone and its path leads nowhere. |
| `FsCalls.WrittenIsRead` | src/unnamedfs.c:372-440 | Seeking back to where a write began, a read delivers what was written. |
| `FsCalls.UnlinkedIsGone` | src/unnamedfs.c:343-514 | What has been unlinked cannot be opened. |
| `FsCalls.ClosedRefuses` | src/unnamedfs.c:363-440 | A closed descriptor is refused by read, write, seek and close, and nothing changes. |
| `FsPaths.SplitMeans` | src/unnamedfs.c:184-206 | The components of a path have no slashes, and joined by slashes are the path. |
| `FsPaths.NamesMeans` | src/unnamedfs.c:184-206 | The names of a path, read from its end, are its components but for the empty ones. |
| `FsPaths.NormalizeMeans` | src/unnamedfs.c:101-116 | Normalizing keeps the names of a path that fits the buffer, and whether it begins with a slash. |
| `FsPaths.SqueezeCuts` | src/unnamedfs.c:101-116 | A longer path is normalized like the beginning of it that fills the buffer. |
| `FsPaths.StepMeans` | src/unnamedfs.c:192-204 | One component leads to the directory itself, to its parent or to the live inode of that name in it, or nowhere exactly if there is none. |
| `FsPaths.DotDotLeads` | src/unnamedfs.c:179-210 | A path with "/.." behind it leads to the parent of what it leads to. |
| `FsPaths.PathParts` | src/unnamedfs.c:118-145 | Directory, slash and last name of a normalized path make up the path. |
| `FsPaths.FindMeans` | src/unnamedfs.c:179-210 | However a path is spelled, it leads where its names lead one after the other from the root. |
| `FsIsolation.StepLeaves` | src/unnamedfs.c:343-541 | A call that neither writes to a file nor removes it leaves its inode and the bytes it shows as they were. |
| `FsIsolation.RunLeaves` | src/unnamedfs.c:343-541 | So does every run of such calls, whatever it makes, writes, moves and removes elsewhere. |
| `FsIsolation.SameBytesRead` | src/unnamedfs.c:343-541 | Reading the file anywhere gives the same bytes before and after such a run. |
| `FsLapses.OpenDirectoryRemoved` | src/unnamedfs.c:517-541 | A run after which an open directory is removed and its descriptor refers to no inode. |
| `FsLapses.DotIsNotFound` | src/unnamedfs.c:443-469 | A run that makes a directory named "." to which its path does not lead. |
| `FsLapses.BareIsNotFound` | src/unnamedfs.c:179-210 | A run that makes a directory "d" under a path without a slash, after which that path leads to the root. |
| `FsLapses.TailIsLost` | src/unnamedfs.c:394-440 | A run to a file of 4097 bytes in two blocks with the descriptor at its start. |
| `FsLapses.OverwrittenShort` | src/unnamedfs.c:230-238 | Overwriting the first byte of such a file makes it show 4096 bytes. |
| `UnnamedFs.Mount.constructor` | src/unnamedfs.c:289-334 | Formatting and mounting a device of at least three blocks give the root directory and nothing else; the bitmap covers the first 4096 blocks. |
| `UnnamedFs.Mount.Remount` | src/unnamedfs.c:89-98 | The rebuilt bitmap is the reserved blocks and every extent. |
| `UnnamedFs.Mount.EnsureBlocks` | src/unnamedfs.c:224-286 | Result, inodes, packed bitmap, free count and data are those the model's `ensure_blocks` gives; when it succeeds and where the blocks are is in `FsRoom.EnsureSucceeds` and `FsRoom.EnsurePlaces`. |
| `UnnamedFs.Mount.WriteTo` | src/unnamedfs.c:394-423 | Result, files and descriptors are those of the model's write, for every descriptor number; what is written where is in `FsCalls.WriteMeans`, and how much in `FsRoom.WriteReports`. |
| `UnnamedFs.Mount.ReadFrom` | src/unnamedfs.c:372-392 | Delivers the slice of the visible bytes behind the offset and moves the offset by its length. |
| `UnnamedFs.Mount.SeekTo` | src/unnamedfs.c:425-440 | The new offset counts from the start, the old offset or the size, cut to the signed 32 bits of `off_t`; negative results and unknown origins are refused without change. |
| `UnnamedFs.Mount.OpenPath` | src/unnamedfs.c:343-361 | The lowest free descriptor on what the path leads to. |
| `UnnamedFs.Mount.CreateNode` | src/unnamedfs.c:443-469 | Slot and inodes are those of the model, with the cache. |
| `UnnamedFs.Mount.MakeNode` | src/unnamedfs.c:471-487 | Result and inodes are those of the model's creation under the normalized path. |
| `UnnamedFs.Mount.UnlinkPath` | src/unnamedfs.c:489-514 | Result, files and descriptors are those of the model's unlink, which means what `FsCalls.UnlinkMeans` says. |
| `UnnamedFs.Mount.RmdirPath` | src/unnamedfs.c:517-541 | Result, files and descriptors are those of the model's rmdir. |
| `UnnamedFs.Mount.Call` | src/unnamedfs.c:343-541 | One careful call of any kind on packed bits, table and data: invariant kept, result and state those of one step of the model. |
| `UnnamedFs.Mount.CallAll` | src/unnamedfs.c:343-541 | Any sequence of calls that the model takes to a state keeps the invariant and ends in that state. |
| `EditorText.InsertIsEdit` | src/editor.c:187-197 | Typing inserts one character at the cursor's offset in the joined text, or changes nothing if the line is full. |
| `EditorText.BackspaceIsEdit` | src/editor.c:199-224 | Backspace deletes the character in front of the offset, and changes nothing exactly at the start of the text or if the joined line would not fit. |
| `EditorText.NewlineIsEdit` | src/editor.c:226-248 | Enter inserts a newline at the offset, or changes nothing if the buffer is full. |
| `EditorText.BackspaceUndoesInsert` | src/editor.c:187-224 | Backspace takes back a character just typed. |
| `EditorText.BackspaceUndoesNewline` | src/editor.c:199-248 | Backspace takes back a newline just typed exactly if the line was not full. |
| `EditorText.LeftIsMove` | src/editor.c:306-315 | The left key moves the offset back by one, as far as the text goes. |
| `EditorText.RightIsMove` | src/editor.c:316-325 | The right key moves it on by one, as far as the text goes. |
| `EditorText.VerticalInText` | src/editor.c:286-305 | The up and down keys keep the cursor inside its line and the text as it is. |
| `EditorText.VerticalIsMove` | src/editor.c:286-305 | The up and down keys move the cursor one line if there is one, to the same column or, if that line is shorter, to its end. |
| `EditorText.SavedMeans` | src/editor.c:106-118 | What is saved is the whole text, or the first lines of it, each with its newline, up to the first line that does not leave room for a byte behind it. |
| `EditorText.ParseMeans` | src/editor.c:52-98 | The lines a text is parsed to are its lines, those that newlines separate once carriage returns are dropped, each cut to 255 characters. |
| `EditorText.SavedAll` | src/editor.c:106-118 | The whole text is saved exactly if it is shorter than 4095 bytes, or has 4095 and ends in an empty line. |
| `EditorText.ParseJoin` | src/editor.c:52-98 | Parsing joined lines gives the lines back. |
| `EditorText.ParseGrows` | src/editor.c:52-66 | A text makes one line more than it has newlines, and lines once made stay. |
| `EditorText.PressKeeps` | src/editor.c:254-349 | Every key keeps the cursor in the text and the lines free of NUL and line breaks. |
| `EditorText.PressEdits` | src/editor.c:254-349 | Every key edits the text at the cursor's offset as it says: one character in, one out, or the offset moved, with the exact cases in which nothing changes. |
| `EditorText.TypedEdits` | src/editor.c:254-349 | Whatever keys are typed, each edits what the one before it left. |
| `EditorText.TypeSaveLoad` | src/editor.c:52-118 | Whatever was typed, parsing the buffer that saving writes gives the same lines exactly if the text is shorter than 4095 bytes, or has 4095 and ends in an empty line. |
| `EditorText.EndIsLost` | src/editor.c:106-118 | Keys typed into an empty buffer after which the buffer written is not the whole text. |
| `EditorText.TooManyLines` | src/editor.c:52-66 | A text that fits the file buffer and has 256 newlines. |
| `Editor.OpenGap` | src/editor.c:192-194 | Shifting right inserts the character in the NUL-terminated row. |
| `Editor.CloseGap` | src/editor.c:200-203 | Shifting left deletes the character in front of the cursor from the NUL-terminated row. |
| `Editor.Editor.constructor` | src/editor.c:23-36 | One empty line in a blank buffer. |
| `Editor.Editor.InsertChar` | src/editor.c:187-197 | On rows of characters: the insertion of the model. |
| `Editor.Editor.BackspaceKey` | src/editor.c:199-224 | On rows: the deletion of the model, joining lines and moving the ones below up. |
| `Editor.Editor.NewlineKey` | src/editor.c:226-248 | On rows: the split of the model, moving the lines below down. |
| `Editor.Editor.LeftKey` | src/editor.c:306-315 | Cursor as in the model's move to the left, lines unchanged. |
| `Editor.Editor.RightKey` | src/editor.c:316-325 | Cursor as in the model's move to the right, lines unchanged. |
| `Editor.Editor.VerticalKey` | src/editor.c:286-305 | Cursor as in the model's move up or down, cut to the length of the line, lines unchanged. |
| `Editor.Editor.PressKey` | src/editor.c:254-349 | One key of any kind on rows does what the model's key does. |
| `Editor.Editor.TypeKeys` | src/editor.c:254-349 | Any sequence of keys on rows ends in the buffer the model ends in. |
| `Editor.Editor.SaveBuffer` | src/editor.c:106-118 | The buffer written is the longest start of the text the loop fits in. |
| `Editor.Editor.LoadText` | src/editor.c:52-98 | Into blank rows, from any text: the first 256 lines it parses to, each up to a NUL, with the cursor at the start; a NUL is stored behind the last row exactly if the text has 256 newlines or more. |
| `LibString.HasZeroByte` | src/lib_string.c:142-144 | The word test is true exactly if some byte of the word is zero. |
| `LibString.WordsEqual` | src/lib_string.c:110-111 | Words are equal exactly if their bytes are. |
| `LibString.Memcpy` | src/lib_string.c:12-51 | Unrolled words, single words and bytes together copy exactly the source bytes, for any overlap with the destination below the source. |
| `LibString.Memmove` | src/lib_string.c:53-66 | The destination receives the original source bytes for every overlap, and nothing else changes. |
| `LibString.Memcmp` | src/lib_string.c:101-130 | The difference of the first bytes that differ, 0 if none does; null pointers as the code orders them. |
| `LibString.CompareMeans` | src/lib_string.c:101-130 | The comparison used as specification is the difference of the first bytes that differ, and 0 for equal ranges. |
| `LibString.Strlen` | src/lib_string.c:132-151 | The length the byte loop would give. |
| `LineDrawing.Steps` | src/vbox_vga.c:396-398 | Every turn steps along the longer axis and keeps the point within half a pixel of the ideal line. |
| `LineDrawing.DrawLine` | src/vbox_vga.c:388-399 | For end points that differ in both axes the loop ends after exactly max(dx, dy) + 1 pixels, the first and the last being the end points, the i-th i steps along the longer axis, inside the bounding box and within half a pixel of the ideal line. |
| `Checksum.SumFits` | src/tcp.c:20-35 | The sum of up to 131074 bytes does not overflow 32 bits. |
| `Checksum.SumOverflows` | src/tcp.c:20-40 | 131075 bytes whose sum overflows 32 bits, so that the result is not their checksum; the bound is tight. |
| `Checksum.CheckIsOnesComplement` | src/tcp.c:20-40 | The result is the complement of the one's-complement sum of the 16-bit words (section 1 of RFC 1071). |
| `Checksum.TcpChecksum` | src/tcp.c:20-40 | The loop, the 32-bit additions and the folding compute the complement of the wrapped sum, which is that checksum exactly if the sum of the words fits 32 bits. |
| `Checksum.WrapFolds` | src/tcp.c:20-40 | Cutting the sum of fewer than 2^32 bytes to 32 bits changes what it folds to, unless it cuts nothing off. |
| `Checksum.StoredChecksToZero` | src/tcp.c:20-40 | Stored in a zero field at an even offset, the checksum makes the recomputed checksum zero. |
| `Checksum.SwapCommutes` | src/tcp.c:20-40 | Swapping the bytes of every pair swaps the bytes of the result (section 2 of RFC 1071). |

## Left out

- Locks and interrupt masking: every operation is one atomic step.
- The zone allocator, `kzalloc`, `kfree_aligned`, `kheap_check` and page tables (`pmap_enter`, `pmap_remove`): the zone allocator and the wrappers call `kmalloc` and `kfree`, which are modelled, and the page tables are read by the processor, which is not.
- The heap's behaviour on corrupted headers: headers are changed by the allocator only; payload words may change freely.
- KernelHeap.Heap.constructor: requires that the heap begins at a multiple of 8 and ends below 2^32; the code takes the address of a plain byte array, and the alignment of its results rests on where the linker puts it.
- KernelHeap.Heap.KmallocAligned: requires that the padded size does not wrap and that the alignment is one for which the doubling ends.
- VmMap.Map.Enter: requires that the sums it forms of addresses and the rounded size do not wrap past 2^32.
- VmMap.Map.FirstFit: requires the same of the limit of the map, the alignment and the size.
- VmMap.Map.Init: requires that the limit of the map is a 32-bit address.
- IpcRuns.EveryRun: bindings are fixed during a run, and tasks are blocked and made ready by IPC operations only.
- Destroying and unbinding ports, waking all waiters of a port, and port names.
- The payload, type and identifier of a message are one opaque value: the code only copies them.
- Saved registers, stacks, names, and the parent, memory and handle fields of a task; the context switch itself.
- The scheduler before `scheduler_init`, `tcb_set_state` and `tcb_set_priority`; ticks and tids are not cut to their C widths.
- SchedTurns.BoundedWaiting: speaks of ticks each followed by rescheduling; the timer interrupt (src/hal.c:325-330) only ticks, its call of `scheduler_schedule` being disabled, so rescheduling is up to the tasks.
- Runs of the scheduler contain removal only inside free and exit: `scheduler_remove_task` on its own is covered by `SchedRuns.RemoveKeeps`.
- UnnamedFs.Mount.WriteTo: requires that the end of the write, rounded up to a block, does not wrap.
- FsRuns.EveryRun: runs contain only such writes.
- UnnamedFs.Mount.EnsureBlocks: requires that the size, rounded up to a block, does not wrap.
- UnnamedFs.Mount.constructor: the inode table and the data area are separate, and the device has at least three blocks, the size below which formatting refuses it; the byte layout on the device, in which they overlap, is not modelled.
- The flags given to `open`, `stat`, unmounting, and mounting a device that was not formatted by this code.
- UnnamedFs.Mount.SeekTo: a sum that overflows the signed 32 bits of `off_t`, which C leaves undefined, wraps.
- EditorText.TypeSaveLoad: the file itself is not modelled; saving does not truncate it, so an older, longer file keeps its end.
- Editor.Editor.LoadText: requires blank rows, as `editor_init` leaves them just before the only call; the byte stored behind the last row is reported, and what stands there is not part of the model.
- Drawing, scrolling, the tab key (four spaces), prompts, and opening and closing the file in the editor.
- LibString.Memcpy: requires that the destination does not begin inside the source behind its start, which is where `memcpy` makes no promise.
- LibString.Strlen: requires a zero byte and a memory that ends at a word boundary, since the code loads whole words.
- Horizontal and vertical lines, which the graphics driver draws by other loops, and everything about pixels but their coordinates.
- Drivers, shell, boot code, the rest of the network stack, the VFS layer and the applications.
