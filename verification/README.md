# ESP-IDF protocols and algorithms, modelled and proved in Dafny

This project models the parts of ESP-IDF whose correctness rests on state kept
over many calls, on concurrency or on arithmetic, and proves what they promise.
`dafny verify dfyconfig.toml` checks all of it. Nothing here executes the
original code.

| file | what it models |
|---|---|
| `RingBuffer.dfy`, `MemBufs.dfy` | the application-trace transport: a ring of contiguous regions and a ping-pong pair of memory blocks swapped with a host |
| `Guards.dfy` | the one-time construction guards of section 3.3.2 of the Itanium C++ ABI, for any number of tasks and guards |
| `OtaWrite.dfy`, `OtaBoot.dfy` | over-the-air updates: streaming an image into flash, and the two-sector record that selects the boot slot, with its host-side twin |
| `SdmmcDma.dfy`, `SdspiRead.dfy`, `Crc7.dfy` | SD cards: the DMA descriptor ring, block reads over SPI, the table-driven CRC-7 |
| `TaskList.dfy`, `TaskVisit.dfy`, `TaskOrder.dfy` | the task scheduler of `idf.py`: its list, the depth-first visit it amounts to, its loop |
| `SplitArgv.dfy`, `LedcFade.dfy`, `Dfu.dfy` | the in-place console tokenizer, interrupt-driven duty fades, the DFU image writer |
| `Basics.dfy`, `Bytes.dfy`, `Modular.dfy` | shared values, octets in memory, division with remainder |

Objects that the sources update in place are classes with `modifies` clauses;
each method is proved against an abstract value (a queue, a stream, an image)
or against an independent reference definition. The guards are a state machine
over atomic steps. Hardware, clocks and other agents are parameters: a script
of answers to swap requests, the number of engine steps that fall between two
driver steps, the octets a card will send, the moment at which power fails.

## Main results

- **Trace transport.** Over every run of traces, swaps, flushes and fetches,
  whatever the hardware grants and also when it grants a swap between reserving,
  filling and closing a packet, the stream to the host is one packet per granted
  call in call order; every packet has its right allocated size, so the host
  finds all of them, and a written size equal to the allocated size means that
  the whole packet is there. What the application fetches is the front of what
  came down. Which calls are granted is determined exactly by a machine over fill
  levels and hardware answers; a refusal always means that neither block nor ring
  has room. `Flush` with minimum 0 ends and hands over everything. A write
  through any old grant reaches exactly the octets stored where it lands.
- **Guards.** Mutual exclusion, unique ownership, at most one completed
  construction per guard, and enough tokens for every waiter once no waited-on
  guard is pending, in every reachable state. A guard is ready if and only if a
  release of it took effect in the run; after an abort it is constructed anew. A
  waiter whose guard is done can be
  left without a token if and only if another waiter's guard is pending; with
  waits inside constructions this deadlocks any number of tasks.
- **Updates.** In each of the three modes an update succeeds exactly under a
  condition on the chunk lengths and the first octet, and then leaves the image
  in flash and programs only cells erased for it, exactly unless the lengths
  meet `Spoils`; with an announced size that is an image longer than the least
  whole number of sectors holding this size.
- **Boot selection.** For every record and number of slots a completed switch
  boots the requested slot if and only if the least fitting number is usable,
  and a switch interrupted before that boots the old choice; over any run this
  goes on exactly as long as the numbers called for are usable. The device's 32-bit
  counting loop ends exactly under a stated condition. Host tool and device
  agree exactly when the tool's base entry is not marked invalid or aborted.
- **SD data paths.** The descriptors make the engine fetch the buffer in order
  under every interleaving, no owned descriptor is overwritten and the transfer
  never stalls; the result of a block read and what it delivers are determined
  exactly wherever the start tokens fall, and the payloads arrive as they are if
  an idle octet comes before each token; the CRC-7 table equals polynomial long
  division.
- **Task order.** The task loop ends with each command once, after everything it
  must follow, in the post-order of a depth-first visit of the command table; the
  commands that this visit finds pulling a name decide which of its entries is
  kept.
- **Algorithms.** The in-place tokenizer equals a pure one and inverts quoting;
  a fade goes from its start to its target without turning or jumping further
  than its step width, and lands exactly within a bounded number of interrupts; a
  reader of a DFU image finds every field of it right and flash contents equal to
  the input files.

## Where code and documentation differ

- `components/app_trace/app_trace_membufs_proto.c:14-19` says that the host
  recognises an incomplete packet by its sizes. That holds as long as no other
  packet is reserved before the incomplete one is closed (`Session`). Otherwise
  the same memory can be given out again, and a late close then marks a packet
  as finished into which nothing was written (`StaleClose`), and a late write
  changes a finished one (`StaleWrite`); `ForgedExactly` and `LateWrite` say
  when. The remark at line 342 of that file admits the cause.
- `components/cxx/cxx_guards.cpp:78-82` argues that a preempted waiter will get
  its token because the semaphore is given once per waiter. Another waiter may
  take that token, exactly while that other waiter's guard is pending
  (`StarvedExactly`), and with nested constructions this ends in a deadlock
  (`NestedWaitDeadlocks`).
- `tools/idf.py:513-516` announces that only the first occurrence of a repeated
  command is executed. The dictionary at line 550 keeps the last occurrence, and
  it is that one which is moved to the front when something depends on it, so
  `LastIsKept`. The first one is kept exactly if the number of its entries
  divides the number of its `Pullers`, which the depth-first visit of the command
  table gives (`Order`). There are none exactly if no command listed before it
  draws it in (`PullersExactly`), but two of two will do as well (`PulledTwice`).
- `components/driver/sdspi_host.c:667-682` lets the octets behind a start token
  that was received with the block before wait in the block buffer. If no idle
  octet comes before that token, the first octet of the block can be overwritten
  by the reception of the rest; `GotExactly` says when it is.
- `components/app_update/esp_ota_ops.c:202` counts one sector too many when a
  write ends on a sector boundary, so in sequential mode an image that exactly
  fills its partition is refused (`Write`).

## Model

| member | source | states |
|---|---|---|
| RingBuffers.RingBuffer.constructor | components/app_trace/include/esp_app_trace_util.h:114-120 | a new ring has the given storage and an empty queue |
| RingBuffers.RingBuffer.Produce | components/app_trace/app_trace_util.c:108-148 | a region is granted exactly when `Grants` holds; it touches no queued cell and the queue grows by exactly it, through plain, exact and early wrap; a refusal changes nothing |
| RingBuffers.RingBuffer.Consume | components/app_trace/app_trace_util.c:150-174 | consuming n succeeds exactly when n is at most the read size, returns the oldest n octets and leaves the others; a refusal changes nothing |
| RingBuffers.RingBuffer.ReadSize | components/app_trace/app_trace_util.c:176-187 | the read size is zero exactly when the queue is empty and never exceeds it |
| RingBuffers.ReadSizeLongest | components/app_trace/app_trace_util.c:176-187 | the read size is the length of the longest front of the queue that lies in consecutive cells |
| RingBuffers.RingBuffer.WriteSize | components/app_trace/app_trace_util.c:189-203 | every positive request up to the write size is granted, and write size 0 means that no positive request is |
| RingBuffers.WriteSizeLongest | components/app_trace/app_trace_util.c:189-203 | the write size is the length of the longest region that fits at the write index |
| RingBuffers.RingBuffer.Live | components/app_trace/app_trace_util.c:108-174 | the ring never queues more than its size minus one |
| RingBuffers.RingBuffer.Store | components/app_trace/app_trace_util.c:108-174 | writing into the region granted last changes exactly those octets of the queue that are not consumed yet, also when its front is consumed already |
| RingBuffers.RingBuffer.Append | components/app_trace/app_trace_membufs_proto.c:206-216 | granting at most the write size and copying appends exactly the copied octets |
| RingBuffers.QueueExtends | components/app_trace/app_trace_util.c:112-146 | each of the four ways to move the write index appends exactly the cells passed over |
| RingBuffers.QueueShrinks | components/app_trace/app_trace_util.c:153-172 | moving the read index, also over the shrunk end, removes exactly the oldest octets |
| RingBuffers.TakeExtends | components/app_trace/app_trace_util.c:108-148 | on the indices alone: a region that may be granted covers no queued cell, and granting it appends its cells to the queue |
| RingBuffers.DropShrinks | components/app_trace/app_trace_util.c:150-174 | on the indices alone: consuming octets that lie in consecutive cells takes exactly the oldest ones off the queue |
| RingBuffers.QueueTailPatched | components/app_trace/app_trace_util.c:108-148 | writing into the youngest cells changes just the corresponding octets of the queue |
| RingBuffers.QueueEndPatched | components/app_trace/app_trace_util.c:108-174 | the same for a region whose front has been consumed: only its still queued part changes |
| RingBuffers.EmptyRingGuarantee | components/app_trace/app_trace_util.c:112-136 | an empty ring grants n wherever its indices stand if and only if 2n is at most its size |
| RingBuffers.NoWriteSizeMeansFull | components/app_trace/app_trace_util.c:189-203 | a ring that did not wrap early has write size 0 only when it is full |
| RingBuffers.RefusedMeansNoPlace | components/app_trace/app_trace_util.c:112-146 | a refused request leaves the storage, covers a queued cell or would make a full ring look empty, at the write index and at offset 0 alike |
| MemBufs.DownBufferWrite | components/app_trace/app_trace_membufs_proto.c:194-220 | queues a prefix of the host data, cut short only by a full ring |
| MemBufs.MemBufs.constructor | components/app_trace/app_trace_membufs_proto.c:56-77 | a new transport is valid and has an empty stream |
| MemBufs.MemBufs.Swap | components/app_trace/app_trace_membufs_proto.c:80-140 | a refused swap changes nothing; a granted one hands over the current block, moves pending octets on until the new block is full, queues host data, and leaves the stream as it was; how full block and rings are afterwards is exact |
| MemBufs.MemBufs.TakeHostData | components/app_trace/app_trace_membufs_proto.c:97-115 | what the host left in the block joins the down queue, cut short only by a full ring |
| MemBufs.MemBufs.Pump | components/app_trace/app_trace_membufs_proto.c:116-137 | block and pending ring together keep the same octets in order; what stays pending means the block is full |
| MemBufs.MemBufs.SwapWait | components/app_trace/app_trace_membufs_proto.c:142-153 | succeeds exactly when some attempt is granted, with the effect of the first one that is; otherwise nothing changes |
| MemBufs.MemBufs.Wait4Buf | components/app_trace/app_trace_membufs_proto.c:222-259 | without a granted swap nothing is found; after the first one the place is in the block if nothing is pending and the packet fits, else in the ring if the ring can take it, and there is none exactly if neither has room |
| MemBufs.MemBufs.Settle | components/app_trace/app_trace_membufs_proto.c:292-331 | a place there is now is taken without waiting; only if there is none a swap is waited for, and without a place after that there is no room |
| MemBufs.MemBufs.Reserve | components/app_trace/app_trace_membufs_proto.c:285-331 | whether and where a packet gets room is determined exactly by how full block and ring are and by what is granted: room there is at once is given without a swap, a swap is tried at once if octets are pending, a granted one hands over more to the host, and a refusal always means that neither block nor ring has room, after every swap that was to be had; a grant extends the stream at its end by exactly the packet |
| MemBufs.MemBufs.UpBufferGet | components/app_trace/app_trace_membufs_proto.c:276-337 | a granted packet is opened at the end of the stream with its allocated size and written size 0; when it is granted, and where, is exact, and a refusal means that there is no room after all swaps that were to be had; too large a size is refused without any effect |
| MemBufs.MemBufs.Poke | components/app_trace/app_trace_membufs_proto.c:261-274 | a write through the last grant reaches exactly that part of the packet that has not left for the host's side |
| MemBufs.MemBufs.UpBufferPut | components/app_trace/app_trace_membufs_proto.c:339-348 | copies the allocated size into the written size as far as that is still in reach |
| MemBufs.MemBufs.SwapMeanwhile | components/app_trace/app_trace_membufs_proto.c:80-140 | a swap between reserving and closing keeps the stream and only takes more of the packet out of reach |
| MemBufs.PacketAssembled | components/app_trace/app_trace_membufs_proto.c:14-28 | reserving, filling and closing, with swaps in between, append one piece with the right allocated size; it is the finished packet if undisturbed or if its two sizes agree |
| MemBufs.ClosedInTime | components/app_trace/app_trace_membufs_proto.c:261-274 | if the written size was in reach when the packet was closed, its payload is complete |
| MemBufs.ClosedTooLate | components/app_trace/app_trace_membufs_proto.c:261-274 | if it was not, the two sizes differ unless there was nothing to write |
| MemBufs.MemBufs.WritePacket | components/app_trace/app_trace_membufs_proto.c:276-348 | one traced packet adds exactly such a piece, or nothing when it is refused; it is refused exactly if the machine `Room` of fill levels finds no room for it |
| MemBufs.MemBufs.StaleGrant | components/app_trace/app_trace_membufs_proto.c:339-348 | after two granted swaps the memory of a packet that was not closed is granted again |
| MemBufs.MemBufs.StaleClose | components/app_trace/app_trace_membufs_proto.c:339-348 | closing that packet then gives the newer one equal sizes although nothing was written into it since it was reserved, so the host takes it for finished |
| MemBufs.MemBufs.CloseAt | components/app_trace/app_trace_membufs_proto.c:269-274 | closing at any place of a block changes memory there only, and the stream only if the place is in the used part of the current block |
| MemBufs.ForgedExactly | components/app_trace/app_trace_membufs_proto.c:269-274 | closing at a place makes an open packet of non-zero size look finished if and only if it is the packet's own place, or one octet off and the size octet missed is 0 |
| MemBufs.MemBufs.LateWrite | components/app_trace/app_trace_membufs_proto.c:276-348 | a write through any grant, however old, in a block or in the ring: octet by octet, the stream changes exactly where it is stored at the place written |
| MemBufs.MemBufs.StaleWrite | components/app_trace/app_trace_membufs_proto.c:339-348 | filling a packet whose memory was granted again overwrites the newer packet, which still looks finished |
| MemBufs.MemBufs.FlushRound | components/app_trace/app_trace_membufs_proto.c:358-369 | a granted swap of a non-empty block leaves strictly less to hand over |
| MemBufs.MemBufs.Flush | components/app_trace/app_trace_membufs_proto.c:350-372 | ends, keeps the stream, and does nothing if the block holds no more than the minimum; how many swaps it makes and whether it gets there is exact: it fails only if a wait brings no swap, and with minimum 0 it leaves block and ring empty and everything handed over |
| MemBufs.MemBufs.DownBufferGet | components/app_trace/app_trace_membufs_proto.c:155-186 | returns the next octets in arrival order, those at the front of the queue, appended to what was fetched before; answers exactly if waiting leaves something in the queue, with as many octets as asked for or as lie in consecutive cells; the arrival history only grows and the upward stream is kept |
| MemBufs.AwaitedExactly | components/app_trace/app_trace_membufs_proto.c:155-186 | waiting with an empty queue brings something if and only if a round brings host data before the wait has expired and the queue can hold any |
| MemBufs.MemBufs.Step | components/app_trace/app_trace_membufs_proto.c:80-372 | any call adds its packet to the stream or nothing, and fetches the next octets that came down or none; which of the two is exact |
| MemBufs.MemBufs.Run | components/app_trace/app_trace_membufs_proto.c:80-372 | over any run the stream is what it was plus one piece per granted call, in call order; which calls are granted is what the machine `Room` answers, run from the fill levels at the start; and what the calls fetched is, put together, the front of what came down |
| MemBufs.HostFindsPackets | components/app_trace/app_trace_membufs_proto.c:14-28 | cutting the stream by allocated sizes gives back all packets of a run |
| MemBufs.Session | components/app_trace/app_trace_membufs_proto.c:56-372 | from a fresh transport to a completed flush, what the host received cuts into exactly the packets of the granted calls, which are those the machine `Room` grants, and what was fetched is the front of what came down |
| Guards.MutexStep | components/cxx/cxx_guards.cpp:66-211 | every step keeps: a task is in a critical section exactly when it holds the mutex |
| Guards.OwnerStep | components/cxx/cxx_guards.cpp:113-211 | every step keeps: pending guards are exactly those with an owner, and a finishing task owns its guard |
| Guards.ResultStep | components/cxx/cxx_guards.cpp:153-190 | every step keeps: ready guards are exactly those constructed, each constructed once; which steps construct is `ReadyExactly` |
| Guards.CountStep | components/cxx/cxx_guards.cpp:66-96 | every step keeps: the waiter count is the number of tasks inside the wait |
| Guards.TokenStep | components/cxx/cxx_guards.cpp:66-111 | every step keeps: some waiter's guard is pending, or the tokens given and still owed cover all waiters without one |
| Guards.InvRun | components/cxx/cxx_guards.cpp:66-211 | all invariants hold along every run, and ready guards and finished constructions only grow |
| Guards.ConstructedOnce | components/cxx/cxx_guards.cpp:113-211 | in every reachable state one task owns each pending guard, none is both pending and ready, none is built twice, a task returning 1 owns its guard and a task returning 0 finds the construction finished |
| Guards.ReadyExactly | components/cxx/cxx_guards.cpp:113-211 | for every run a guard is ready if and only if a release of it, not an abort, has taken effect in that run; that happens at most once; a task is about to return 1 for a guard if none has and 0 if one has |
| Guards.ReadyForever | components/cxx/cxx_guards.cpp:170-190 | a ready guard stays ready |
| Guards.NobodyStranded | components/cxx/cxx_guards.cpp:66-111 | once no waited-on guard is pending, the tokens given and owed suffice for every waiter at the semaphore |
| Guards.OnlyConstructorsBlock | components/cxx/cxx_guards.cpp:66-111 | if all tasks inside calls are blocked, all sit at the semaphore and one waits for a constructor in user code or itself waiting |
| Guards.NoDeadlockWithoutNesting | components/cxx/cxx_guards.cpp:66-211 | without waits inside constructions a blocked system waits only for user code |
| Guards.TokenSwallowed | components/cxx/cxx_guards.cpp:74-94 | a waiter whose guard is pending can take any token and wait again |
| Guards.TokensRunOut | components/cxx/cxx_guards.cpp:74-94 | a waiter whose guard is pending can take all tokens and leave everything else as it is |
| Guards.StarvedExactly | components/cxx/cxx_guards.cpp:78-94 | in every reachable state with a free mutex, the other waiters can leave a task without a token for a guard that is no longer pending if and only if one of them waits for a guard that is |
| Guards.ReleaseStarves | components/cxx/cxx_guards.cpp:66-111 | from any state, the release of a guard can leave all its waiters without a token while somebody waits for another pending guard |
| Guards.NestedWaitDeadlocks | components/cxx/cxx_guards.cpp:66-111 | for any number of tasks: a task that waits inside its own construction, with somebody waiting for what it constructs, can be deadlocked by the release of the very guard it waits for |
| Guards.ReleaseGives | components/cxx/cxx_guards.cpp:170-190 | an undisturbed release makes the guard ready and gives one token per waiter |
| Guards.AbortGives | components/cxx/cxx_guards.cpp:192-211 | an undisturbed abort frees the guard, leaves it not constructed and gives one token per waiter |
| Guards.AbortedAgain | components/cxx/cxx_guards.cpp:113-211 | after an abort the next task that asks becomes the constructor |
| Guards.NestedConstructionDeadlocks | components/cxx/cxx_guards.cpp:66-111 | a reachable deadlock of three tasks and two guards, in which a task waits for ever for a guard that is ready |
| OtaWrites.Flash.Erase | components/esp_partition/partition_target.c:117-135 | succeeds exactly on aligned ranges inside the partition, sets exactly these cells to ones, and records whether a programmed cell was hit |
| OtaWrites.Flash.Program | components/esp_partition/partition_target.c:63-86 | succeeds exactly on ranges inside the partition, block-aligned if encrypted, clears bits only, and records whether a cell was not clean |
| OtaWrites.Begin | components/app_update/esp_ota_ops.c:158-182 | fails exactly when the announced size is larger than the partition; otherwise exactly the cells below `cleanEnd` are erased: all of them, those of the least whole number of sectors that holds the announced size, or none yet |
| OtaWrites.StretchIs | components/app_update/esp_ota_ops.c:158-168 | for an announced size the masked sum is the least whole number of sectors that holds it, and it fits the partition exactly if the size does |
| OtaWrites.OtaEntry.EraseAhead | components/app_update/esp_ota_ops.c:199-213 | erases up to the end of the sector that the write may enter, without touching programmed cells; fails exactly when that leaves the partition |
| OtaWrites.LandedWithinErased | components/app_update/esp_ota_ops.c:199-249 | staged octets, which the erase does not count, never carry a write past the erased sectors |
| OtaWrites.OtaEntry.Absorb | components/app_update/esp_ota_ops.c:220-256 | flash and staging buffer together grow by exactly the data, or flash is spoiled if the position leaves the clean stretch; success is exact |
| OtaWrites.OtaEntry.Write | components/app_update/esp_ota_ops.c:185-263 | in any mode: exact success; flash plus staging is the input so far and only clean cells were programmed, unless the position has left the clean stretch, which spoils flash and cannot happen with on-the-fly erasure; position, fill level, erased stretch and padding of the staging buffer are exact |
| OtaWrites.OtaEntry.WriteAll | components/app_update/esp_ota_ops.c:185-263 | in any mode: a sequence of chunks is accepted exactly when each fits and the image starts with the magic octet; flash plus staging is then their concatenation, unless the position has left the clean stretch |
| OtaWrites.FitsAsWhole | components/app_update/esp_ota_ops.c:252-256 | without on-the-fly erasure the chunks fit if and only if the whole image does |
| OtaWrites.LandedIsPosition | components/app_update/esp_ota_ops.c:220-256 | the write position depends on the amount written, not on how it was cut into chunks |
| OtaWrites.OtaEntry.WriteTail | components/app_update/esp_ota_ops.c:342-351 | in any mode: the tail write leaves flash spoiled exactly when it ends beyond the clean stretch; otherwise the image ends in flash, padded to the block with zeros, or with ones once a staged block had been written |
| OtaWrites.OtaEntry.End | components/app_update/esp_ota_ops.c:325-368 | in any mode: the exact result of ending an update, exactly when flash is spoiled, and otherwise the image in flash and its padding |
| OtaWrites.TailCovered | components/app_update/esp_ota_ops.c:199-213 | the erase of a write covers the later tail write if and only if the position does not land on a sector boundary that the data alone did not reach |
| OtaWrites.UncoveredExactly | components/app_update/esp_ota_ops.c:199-256 | the tail write starts where nothing is erased if and only if image and last chunk length meet `TailUncovered` |
| OtaWrites.Update | components/app_update/esp_ota_ops.c:125-368 | a whole update in each of the three modes succeeds exactly on accepted images; flash is spoiled if and only if, in sequential mode, it is encrypted and `TailUncovered` holds, or, otherwise, the image is longer than what was erased; else flash holds the image; an image no longer than announced is never spoiled, and with an announced size it is spoiled exactly if it is longer than the least whole number of sectors that holds that size |
| OtaWrites.FinalPosition | components/app_update/esp_ota_ops.c:199-256 | the last octet programmed lies beyond the clean stretch if and only if the lengths say so |
| OtaWrites.OverrunIsAccepted | components/app_update/esp_ota_ops.c:158-165 | an image of two sectors announced as 100 octets is accepted and spoils flash |
| OtaWrites.TailCanSpoil | components/app_update/esp_ota_ops.c:342-351 | chunks of 4095 and 10 octets make the tail write hit a sector never erased |
| OtaBoot.Active | components/bootloader_support/src/bootloader_common_loader.c:39-58 | picks a valid entry with the greatest number, none exactly when none is valid |
| OtaBoot.BootsExactly | components/app_update/esp_ota_ops.c:514-541 | a slot boots if and only if it is that of the number, counted from 1 and round 32 bits, of the entry that is written, has the right checksum and is not in one of the two states of a rejected image, and has the greater number, the first on a tie; the default image boots if and only if there is no such entry or no slot |
| OtaBoot.NextSeq | components/app_update/esp_ota_ops.c:427-434 | the 32-bit counting loop answers exactly if it ever ends; it finds the least number of the slot's class from the current one on if 32 bits have one, and otherwise a number of another slot |
| OtaBoot.FirstEnd | components/app_update/esp_ota_ops.c:427-434 | the value of the first round that ends the loop, before and after wrapping around |
| OtaBoot.RoundsRepeat | components/app_update/esp_ota_ops.c:427-431 | a loop that has not ended after 2^32 rounds never ends |
| OtaBoot.LoopEndsExactly | components/app_update/esp_ota_ops.c:427-431 | for every number of slots the loop ends if and only if some 32-bit number from the current one on leaves the slot's remainder by the power of two in the number of slots |
| OtaBoot.LoopCanSpin | components/app_update/esp_ota_ops.c:429-431 | with four slots and number 2^32 - 2 the loop for slot 0 never ends |
| OtaBoot.BlankNumberFits | components/app_update/esp_ota_ops.c:429-434 | with four slots and number 2^32 - 2 the least number for slot 2 is the blank mark |
| OtaBoot.WrapsToAnotherSlot | components/app_update/esp_ota_ops.c:429-434 | with three slots and number 2^32 - 2 the loop for slot 0 ends with a number of slot 2 |
| OtaBoot.SlotRecovered | components/app_update/esp_ota_ops.c:533 | a number of a slot's class selects that slot if and only if it is positive or the slot count divides 2^32 |
| OtaBoot.SlotExactly | components/app_update/esp_ota_ops.c:533 | a positive number selects a slot if and only if it is in the slot's class |
| OtaBoot.NewEntryDecides | components/app_update/esp_ota_ops.c:514-541 | a valid entry with a number not below the other one decides what boots |
| OtaBoot.SwitchBoots | components/app_update/esp_ota_ops.c:425-440 | the entry a switch writes makes the requested slot boot if and only if the least fitting number is below 2^32 - 1 and positive, or 0 with a number of slots that divides 2^32 |
| OtaBoot.InvalidEntryIgnored | components/app_update/esp_ota_ops.c:514-541 | an invalid entry in place of the inactive one changes nothing |
| OtaBoot.OtaStore.RewriteSector | components/app_update/esp_ota_ops.c:370-384 | what the record holds at each point where power may fail |
| OtaBoot.OtaStore.Switch | components/app_update/esp_ota_ops.c:396-441 | for every record and number of slots: exactly when the call is refused or spins; a completed switch boots the requested slot if and only if it is `Effective`; interrupted before the entry is written it boots the old choice; the active entry is never touched; the number is the least fitting one or of another class |
| OtaBoot.OtaStore.Serve | components/app_update/esp_ota_ops.c:396-441 | one request, interrupted anywhere: what it asks for boots, or what booted before if its entry is not written, if and only if the number it calls for is usable; that number then counts |
| OtaBoot.OtaStore.Run | components/app_update/esp_ota_ops.c:396-441 | over any run of switches from any record, interrupted anywhere: as long as every number called for is usable, what boots is the slot of the last entry written; the first number that is not usable breaks this |
| OtaBoot.ShortRunsUsable | components/app_update/esp_ota_ops.c:425-440 | from a blank record, all numbers are usable in runs of n requests with (n + 1) times the number of slots below 2^32 - 1 |
| OtaBoot.ToolSwitch | components/app_update/otatool.py:131-184 | the tool computes the least fitting number, picks the other sector and keeps the state found there; a number beyond 32 bits cannot be packed |
| OtaBoot.ToolBoots | components/app_update/otatool.py:149-184 | the tool's switch boots the requested slot if and only if its number selects it and the kept state is not invalid or aborted, or the other entry boots that slot anyway |
| OtaBoot.ToolKeepsAborted | components/app_update/otatool.py:176-184 | a record on which the tool keeps an aborted state and its switch is lost |
| OtaBoot.ToolAgrees | components/app_update/otatool.py:94-147 | tool and device start from the same entry if and only if the tool's choice is not marked invalid or aborted |
| OtaBoot.BothSwitch | components/app_update/otatool.py:131-184 | tool and device write the same number and checksum into the same sector whenever they start from the same entry; only the state differs |
| OtaBoot.ToolOverwritesActive | components/app_update/otatool.py:134-147 | a record on which the tool overwrites the entry the device boots from |
| SdmmcDma.Transfer.constructor | components/driver/sdmmc_transaction.c:133-143 | a new transfer satisfies the ring invariant, by which exactly descriptor 0 is marked first, and has as many descriptors to come as pieces |
| SdmmcDma.Transfer.FillOne | components/driver/sdmmc_transaction.c:201-226 | the next piece goes into a descriptor that the engine does not own, and the ring invariant is kept, so links, lengths and the marks of the first and the last descriptor stay right |
| SdmmcDma.Transfer.Complete | components/driver/sdmmc_transaction.c:177-197 | the engine moves the stretch that its descriptor names, gives it back and follows its link |
| SdmmcDma.Transfer.Fill | components/driver/sdmmc_transaction.c:199-227 | fills the requested number of descriptors or all that remain, whatever the engine does meanwhile |
| SdmmcDma.Transfer.FreeCount | components/driver/sdmmc_transaction.c:177-197 | counts at least the descriptors free before and at most those free after, while the engine runs on |
| SdmmcDma.Transfer.OnDmaDone | components/driver/sdmmc_transaction.c:432-442 | one completion event keeps the invariants, whatever the engine does during scan and refill, and the last one finishes with all pieces moved |
| SdmmcDma.Transfer.EngineCanStep | components/driver/sdmmc_transaction.c:432-442 | an unfinished transfer never stalls |
| SdmmcDma.Transfer.OwnedStretch | components/driver/sdmmc_transaction.c:177-227 | the engine's descriptors form one circular stretch ending just before the next one to fill |
| SdmmcDma.Transfer.Drive | components/driver/sdmmc_transaction.c:133-227 | a whole transfer takes exactly the announced number of events; the stretches that the descriptors made the engine move are the pieces of the buffer in order, so a buffer of whole words is fetched octet by octet, each once, under every interleaving |
| SdmmcDma.AllFetched | components/driver/sdmmc_transaction.c:199-227 | stretches that are the pieces of a buffer of whole words fetch exactly its octets in order |
| SdmmcDma.PiecesTile | components/driver/sdmmc_transaction.c:199-227 | the pieces tile the buffer: every octet lies in exactly one |
| SdmmcDma.LengthRegisterExact | components/driver/sdmmc_transaction.c:217-218 | the rounded length equals the piece if and only if the total is a multiple of four |
| SdmmcDma.WordsCover | components/driver/sdmmc_transaction.c:217-218 | the whole words moved for a piece cover it and end less than a word behind it |
| SdspiRead.Reader.PollOnce | components/driver/sdspi_host.c:596-620 | one poll finds the token among its 8 octets and keeps exactly what follows it; it finds garbage only if the first octet that is not idle is no token, and goes on only over idle octets |
| SdspiRead.Reader.PollToken | components/driver/sdspi_host.c:586-623 | succeeds exactly when the token comes within the polling time, and reports an invalid response if and only if the first octet in that time that is not idle is something else |
| SdspiRead.Reader.StartCommand | components/driver/sdspi_host.c:691-716 | finds R1 exactly when it comes at most 8 octets late; the rest of the octets received along, and what the card still sends, is the wire of the blocks |
| SdspiRead.Reader.FindToken | components/driver/sdspi_host.c:719-741 | the token is found by scan or poll, also directly behind a checksum; what was received along is where `AlongAt` says, and with what is still to come it is exactly what follows the token; without a token in the scanned octets an invalid response is reported exactly on a stray octet |
| SdspiRead.Reader.Receive | components/driver/sdspi_host.c:743-793 | overruns exactly if more was received along than the block has; otherwise delivers exactly `Got`, keeps the octets behind the checksum, and accepts exactly if the checksum fits what is delivered |
| SdspiRead.Reader.ReadBlock | components/driver/sdspi_host.c:718-794 | one round delivers one block behind the earlier ones and leaves the wire of the remaining blocks; result and delivered octets are exactly those of gap, length, checksum and the place of the octets received along |
| SdspiRead.Reader.ReadBlocks | components/driver/sdspi_host.c:688-794 | on a well-formed card stream of any length the result is exactly that of the first late R1, late token, overrun or wrong checksum; on success the caller's buffer holds exactly `Copied`, which is the concatenated payloads if an idle octet comes before each further token, and exactly what the card sends behind the last block is still to come |
| SdspiRead.OutcomeOk | components/driver/sdspi_host.c:688-794 | reading succeeds if and only if every token comes in time, no block is shorter than what is received along with its token and, if checked, every checksum fits what is delivered |
| SdspiRead.SpacedIntact | components/driver/sdspi_host.c:673-682 | with an idle octet between each checksum and the next token, what is delivered is the payloads, and the checksums checked are theirs |
| SdspiRead.GotExactly | components/driver/sdspi_host.c:743-778 | a block behind another one arrives as it is if and only if an idle octet comes before its token, its first octet waits behind all that is then received, or that octet equals the one received in its place |
| SdspiRead.ReadableExactly | components/driver/sdspi_host.c:744 | the sizes admitted are exactly those for which the subtraction of the octets received along cannot underflow |
| Crc7.TableFeeds | components/driver/sdspi_crc.c:12-30 | every table entry is what eight register steps make of its index |
| Crc7.IndexInRange | components/driver/sdspi_crc.c:37 | the table index stays below 256 |
| Crc7.LookupIsEightSteps | components/driver/sdspi_crc.c:36-38 | one lookup is eight steps of the division register |
| Crc7.RegisterDivides | components/driver/sdspi_crc.c:32-40 | the register after a message is the remainder of long division |
| Crc7.Compute | components/driver/sdspi_crc.c:33-40 | for messages of every length the result is the remainder of the message times x^7 divided by x^7 + x^3 + 1 |
| TaskOrder.PullDependencies | tools/idf.py:554-575 | the loop computes `DepsPulled`: missing dependencies come to the front or are added there, nothing is lost, and nothing is moved exactly when all have run |
| TaskOrder.PullOrderDependencies | tools/idf.py:577-581 | the same for order-only dependencies that are on the list |
| TaskOrder.RunFront | tools/idf.py:583-589 | running a task whose dependencies have run keeps the order right |
| TaskOrder.PullMeasure | tools/idf.py:554-581 | moving tasks leaves fewer commands unseen or the list as long as it was |
| TaskOrder.OneRound | tools/idf.py:548-589 | each round is the function `Successor`, keeps the invariants and lowers the measure of unseen commands, list length and rank of the front |
| TaskOrder.Order | tools/idf.py:546-589 | the loop ends; the names come in the post-order of the depth-first visit `Traversal`; each command comes once, after its dependencies and the order-only dependencies given; the result is the least closed set of commands; of k entries of any repeated command with p `Pullers` in that visit, the one that p turns bring to the front is kept, so the first if and only if k divides p |
| TaskOrder.PullFollows | tools/idf.py:554-581 | a round that pulls leaves the visit that the rest of the loop amounts to as it was, with the pull noted |
| TaskOrder.RunFollows | tools/idf.py:583-589 | so does a round that runs the front task |
| TaskOrder.DepsVisited | tools/idf.py:555-575 | pulling dependencies to the front one by one amounts to visiting them, the last one first, before the list |
| TaskOrder.OrderDepsVisited | tools/idf.py:577-581 | the same for order-only dependencies that are listed |
| TaskOrder.RanIsSettled | tools/idf.py:554-589 | a further entry of a command that has run is never held up, because whatever it would wait for stands before it |
| TaskOrder.FollowPull | tools/idf.py:555-581 | a round turns the entries of a name once if the front task pulls it, in step with the count of its pullers |
| TaskVisit.EnterAgain | tools/idf.py:554-589 | entering a command once more after its children have been visited runs it at once |
| TaskVisit.VisitsRankFree | tools/idf.py:548-589 | the visit does not depend on the ranks that show the command table to be acyclic |
| TaskVisit.VisitsPull | tools/idf.py:555-581 | whoever pulls a name in a visit depends on it; pullers come in falling rank, so each once, and the name has run when the visit is over |
| TaskVisit.VisitsSeal | tools/idf.py:554-581 | what a visit has run contains its dependencies and its given order-only dependencies |
| TaskVisit.PullersExactly | tools/idf.py:555-581 | the pullers of a given name are distinct commands that depend on it, and there are none if and only if the commands listed before it do not draw it in |
| TaskList.FirstAgain | tools/idf.py:550-559 | after p turns the first of k entries is in front if and only if k divides p |
| TaskOrder.LastIsKept | tools/idf.py:550-559 | with a command listed before two entries of the one it depends on, the last entry is kept and not the first |
| TaskOrder.PulledTwice | tools/idf.py:550-559 | drawn in and pulled by two commands, the first of two entries is kept after all |
| SplitArgv.StepPending | components/console/split_argv.c:49-95 | one character of the state machine agrees with the pure tokenizer |
| SplitArgv.Scan | components/console/split_argv.c:41-101 | the loop reads every character before it is overwritten and lays out exactly the arguments finished so far |
| SplitArgv.Finish | components/console/split_argv.c:102-111 | closes the last argument if there is room, and the table with NULL |
| SplitArgv.Split | components/console/split_argv.c:33-112 | returns the first arguments of the line, as many as fit; each reads back as a NUL-terminated string and nothing behind the line is touched |
| SplitArgv.ArgumentReadsEscape | components/console/split_argv.c:66-94 | reading an escaped argument, quoted or bare, gives it back |
| SplitArgv.EscapeExactly | components/console/split_argv.c:76-84 | inside an argument, quoted or bare, an escaped backslash, quote or space becomes part of it, and an escape before any other character vanishes together with that character |
| SplitArgv.VerbatimExactly | components/console/split_argv.c:49-94 | text without escapes in quotes is one argument, also with spaces in it, and the closing quote ends it whatever follows; bare text is one argument up to the next space or the end, also with quotes in it |
| SplitArgv.SplitReadsLine | components/console/split_argv.c:33-112 | splitting a printed argument list gives back the list |
| SplitArgv.SplitPrinted | components/console/split_argv.c:33-112 | any NUL-free argument list, printed and split in place, comes back as C strings in the buffer, as many as the table has room for |
| LedcFade.Channel.SetFade | components/driver/ledc.c:1018-1060 | the first ramp starts at the current duty, one below maximum if need be, with the most steps that the hardware and the distance allow, and never passes the target; only if less than one step fits does it jump to the target |
| LedcFade.Channel.FadeEnd | components/driver/ledc.c:898-941 | an interrupt stops exactly on the target; otherwise it goes on from where the ramp ended, strictly nearer with the fullest ramp that does not pass the target, and jumps only when no more than one step is left |
| LedcFade.Channel.Fade | components/driver/ledc.c:898-941 | a whole fade lands exactly on the target within distance / (steps * scale) + 3 interrupts; the duties on the way start at the given duty, or one below maximum, go towards the target without turning and change by at most the scale at a time |
| LedcFade.StepsAdvance | components/driver/ledc.c:907-912 | as many whole steps as fit go forward and do not overshoot |
| LedcFade.StepsExactly | components/driver/ledc.c:907-912 | the number of steps is the largest that fits distance and hardware, and at least one fits exactly if the distance is not less than a step |
| LedcFade.RampSmooth | components/driver/ledc.c:898-941 | the duties of a ramp that does not pass the target go towards it by at most one scale at a time |
| LedcFade.InterruptsBounded | components/driver/ledc.c:898-919 | the number of interrupts is at most the number of full ramps plus three |
| Dfu.HeaderFields | tools/mkdfu.py:63-89 | the header starts with the magic and carries file length and name length where a reader looks for them |
| Dfu.HeaderReads | tools/mkdfu.py:63-89 | all thirteen fields of a header read, as hexadecimal numbers at their places, as mode 0100644 and link count 0, or mode 0 and link count 1 in the trailer, the two lengths, and 0 elsewhere |
| Dfu.RoundUpBounds | tools/mkdfu.py:133-136 | padding reaches the next multiple and adds less than one |
| Dfu.EntryReadsBack | tools/mkdfu.py:237-248 | an archive entry reads back, whatever follows it, and its padding reads as zeros |
| Dfu.ArchiveReadsBack | tools/mkdfu.py:200-220 | an archive reads back as its files, whatever follows the trailer |
| Dfu.IndexReadsBack | tools/mkdfu.py:203-204 | addresses, flags, names and digests of the index read back |
| Dfu.Writer.constructor | tools/mkdfu.py:151-156 | a new writer has no files |
| Dfu.Writer.AddFlashEntry | tools/mkdfu.py:222-235 | adds one file with its index record, placing exactly its data at its address unless it is a parameter file |
| Dfu.Writer.AddFlashParams | tools/mkdfu.py:158-179 | adds the chip description under its name at address 0 with the flags that keep it out of flash, so it places nothing there |
| Dfu.ChipReadsBack | tools/mkdfu.py:158-179 | the chip description reads as eight little-endian words: three zeros, the flash size, 64 KiB blocks, 4 KiB sectors, 256-octet pages and the status mask |
| Dfu.Writer.AddFile | tools/mkdfu.py:181-198 | appends exactly the chunks of the file: their number, each under its name, at its address and with its stretch of the content; together they place exactly the content at its address |
| Dfu.ChunkNameReads | tools/mkdfu.py:196 | the first chunk has the name of the file, and the name of chunk k > 0 reads as the file name, a dot and the number k without leading zeros |
| Dfu.Writer.Finish | tools/mkdfu.py:200-220 | the image is the archive, zeros up to the next multiple of 10240, and 16 octets in which a reader finds device, product, vendor and DFU version, signature, length and the checksum of all before; it reads back as index plus files |
| Dfu.SuffixReads | tools/mkdfu.py:214-217 | the suffix reads field by field as 0xFFFF, the product, vendor 12346, version 0x0100, "UFD" and 16, followed by the checksum of everything before it |
| Dfu.FaithfulImage | tools/mkdfu.py:181-220 | a reader that follows the index finds the name and digest of every file and puts every input at its flash address |
| Dfu.DescribedImage | tools/mkdfu.py:158-220 | right behind the index the image carries the chip description, and then all chunks of all inputs in order, each under its name and at its address |
| Dfu.MakeImage | tools/mkdfu.py:158-248 | from input files to the finished image: it ends as a DFU file, is faithful to its inputs and carries chip description and chunks in order |

## Left out

- MemBufs.Session: assumes that a packet is closed before the next one is reserved; beyond that `StaleClose`, `StaleWrite`, `ForgedExactly` and `LateWrite` show what can happen.
- MemBufs.MemBufs.Stream: the host sees a block as it was when it was handed over; late writes into a block that the host already has are taken not to reach it.
- MemBufs.MemBufs.constructor: block sizes are equal, between 4 and 0x8000 octets, and host data fits a block.
- MemBufs.Framed: models the 16-bit header with the core number in the top bit, not the one-octet header of the SystemView configuration.
- MemBufs.MemBufs.DownBufferGet: the unbounded waiting loop is a finite list of rounds; running out of rounds counts as a timeout.
- RingBuffers.RingBuffer.Produce: sizes are unbounded naturals; 32-bit overflow of index plus size is not modelled.
- Guards.ConstructedOnce: leaves out the path before the scheduler starts, recursive self-initialisation and failing allocation of the semaphores; at most 2^31 - 1 tasks exist.
- OtaWrites.OtaEntry.Write: nothing is said about the update after a write that the partition layer refused; lookup of the update handle and the null check are not modelled.
- OtaWrites.OtaEntry.End: image verification is a parameter; writes at explicit offsets, anti-rollback and secure boot are not part of this model.
- OtaBoot.OtaStore.Switch: a torn sector is assumed not to pass its checksum, and the checksum is an arbitrary function; a loop that never ends is a result of its own.
- OtaBoot.OtaStore.Run: what boots after the first number that is not usable is said for that switch only; from there on `Switch` applies call by call.
- OtaBoot.ToolSwitch: reading and writing the partition through files and the serial port is not modelled.
- `esp_ota_current_ota_is_workable` and the rollback states: they rewrite the active sector in place.
- SdmmcDma.Transfer.OnDmaDone: one event per completion; command, error, busy and idle states of `process_events` are not modelled.
- SdspiRead.Reader.ReadBlocks: takes it that the line can be clocked for 7 octets after the last block; what the driver does after its length underflows is not modelled beyond `Overrun`; time is a number of polls, SPI faults and the stop command are left out.
- `sdspi_crc16`: an arbitrary function, its work is done in ROM.
- TaskOrder.Order: options, callbacks, warnings and the execution of tasks are not modelled; dependencies are acyclic, and entries of one name carry different ids.
- SplitArgv.Split: the argument table has at least one entry, without which the code's bound wraps around.
- LedcFade.Channel.Fade: the hardware ramps linearly; stopping a fade, cycle counts and fades by time are not modelled.
- Dfu.MakeImage: the MD5 and CRC-32 functions are parameters, addresses and lengths stay below 2^32, and no input is called `TRAILER!!!`; argument parsing is left out.
- I2C, SDIO slave, timers, pulse counters and the other tools: register effects, or invariants easier than those proved here.
