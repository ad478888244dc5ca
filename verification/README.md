# A Dafny model of UADK's core algorithms

UADK is a user-space framework for hardware accelerators. Between a user's request and the
hardware queue sit a handful of small stateful algorithms: a submission and completion ring
shared with a device, pools of scatter-gather nodes, memory blocks and messages, a compiler
for aggregation requests, a scheduler that hands out contexts, a store buffer for streams,
and byte-level transformations for public-key operations. This project models them and
proves what they are for.

`dafny verify dfyconfig.toml` checks everything. The modules, hardest first:

- `QpRing`, `QueuePair`: the queue pair as a transition system whose steps are the
  shared-memory accesses of a sender, a receiver and the device, and the driver's send and
  receive as methods of a class that follow it.
- `WordBitmap`, `MemZones`, `Mempool`, `BlockPoolRef`: the bitmap search, the run allocator
  with its zones and counters, and the reference count that guards a block pool.
- `HwOrder`, `AggPlan`, `AggSetup`: the compiler from requested aggregates to the device's column
  order and packed nibbles, with an interpreter for the device's side, and the checks, limits and row
  size of a session.
- `Extents`, `BlockManager`: the contiguous block allocator.
- `SglPool`, `SglCopy`: building hardware scatter-gather chains and copying out of them.
- `SegmentCursor`, `SchedTable`, `CtxRegistry`, `CtxTable`, `MsgPool`: the scheduler's
  domains, their hash table, registration of contexts, context ranges, message slots.
- `StoreBuffer`, `Sm2`, `BigNumber`, `DaeHashTable`: the stream store buffer, SM2
  encryption around the device's point, big-number layouts, hash-table layout.
- `ModArith`, `Sequences`, `Bytes`, `Options`: shared facts and types.

State that the source updates in place is a class whose methods carry loops and whose
contracts equate the new state with a function of the old one; the theorems are lemmas about
those functions. What the system allocates, maps or is told by the device is a parameter:
the outcome of each allocation, the status registers, the DMA mapping, the device's answers,
the hash callback.

Where a natural property does not hold of the code, the model keeps the code, proves exactly
when the property holds, and shows an input or a run on which it fails:

- `used_num` is the number in flight except between the doorbell and the addition
  (`QpRing.UsedNumExact`), where it can wrap (`QpRing.UsedNumCanWrap`).
- The receive error return keeps the queue consistent exactly when the head is not on the
  last completion slot (`QueuePair.RxErrorConsistent`, `QueuePair.RxErrorBreaks`).
- The run scan leaves the bitmap exactly when no run fits and the last bit is clear
  (`Mempool.FindRun`, `Mempool.ScanLeaves`); a creation comes to that exactly under the condition
  of `Mempool.Mempool.Create`, in a fresh mempool exactly when more runs are wanted than fit
  and the run length does not divide it (`Mempool.FreshOverruns`, `Mempool.OverrunOfFresh`). The
  block it goes on to ends behind the last mempool block, and is in the mapping exactly when the
  rest of it fits the slack that rounding up to huge pages left (`Mempool.OverrunBlock`).
- A pool that is created has an address for each of its blocks, each block in its zone, exactly when
  its depth is below 2^31 and its byte count below 2^64 (`Mempool.Mempool.Create`,
  `Mempool.NoAddresses`, `Mempool.WrappedProduct`, `Mempool.ShortBlocks`); a search that is not for a
  positive number of bits does not end (`Mempool.SearchHangs`).
- A pool is released with nobody inside a call exactly when every thread inside one has made its
  increment when the destroy begins (`BlockPoolRef.SafeToDestroyIff`,
  `BlockPoolRef.UncountedThreadInside`).
- The device gets one sum choice per column: what the driver accepts means what was asked for, for
  every device, exactly when no column has conflicting sums (`AggPlan.MeansRequestsIff`). A conflict
  needs the driver to be called directly (`AggPlan.ConflictingSums`): `wd_agg.c` refuses a second
  aggregate of one kind on a column before the driver sees it, and every setup it lets through means
  what was asked for (`AggPlan.PlanMeansRequests`).
- A rehash sums every output again, and no choice is ever sent for it, although the comment at
  drv/hisi_dae.c:847 says one is recorded for that: it is described as it must be exactly when no
  output is a short decimal (`AggPlan.RehashInPlaceIff`, `AggPlan.RehashWithoutChoice`).
- The type announced for a maximum or minimum is not compared with its column's: outputs have their
  announced types exactly when every one of them was announced so (`AggPlan.TypesAnnouncedIff`), and
  the limits on 8- and 16-byte outputs, checked of the announced types, fail of what is produced
  exactly when there are nine outputs of one size (`AggSetup.WithinLimitsIff`, `AggSetup.NineLong`).
- Freeing a block that initialisation skipped keeps the allocator's invariant exactly when its
  leftover length is zero (`Extents.GiveKeepsIff`, `BlockManager.FreeOfSkippedBlock`); the 32-bit
  block count covers the request exactly when nothing wrapped (`BlockManager.RequiredBlocksCover`,
  `BlockManager.WrappedRequest`), and the threshold is 87 percent exactly when the product fits
  (`BlockManager.NumTimesExact`). A free releases the block that holds the address exactly when that
  block's number is below 2^32 (`BlockManager.IndexOf`, `BlockManager.FarFree`).
- Nodes fresh from a user's allocator have a size field that nobody cleared: the sizes of a chain
  are right, and the copy begins at the right byte for every offset, exactly when none of its nodes
  had a leftover (`SglPool.SizesExactIff`, `SglCopy.AlwaysReachableIff`, `SglCopy.LeftoverMisleads`).
- A pool can hand out all its free nodes exactly when no slot of its stack is null, which a node
  that could not be mapped leaves behind (`SglPool.AvailAllIff`, `SglPool.NullSlotBusy`).
- A good list is refused exactly when its 16-bit entry count wraps to zero (`SglPool.Pool.GetHwSgl`,
  `SglPool.WrappedCountRefuses`, and `SglPool.SmallPoolNeverWraps` for the pools the driver makes).
- The scatter-gather copy stops where it should exactly when its 32-bit sum does not step over the
  stop (`SglCopy.CopyOut`, `SglCopy.LargeCopyWraps`).
- A context is listed under its own type exactly when that type is one of the first four
  (`CtxRegistry.ListedUnderOwnTypeIff`, `CtxRegistry.LaterTypeUnlisted`); a drawn index passes the
  context check exactly when it is not the reserved "queue full" value
  (`CtxRegistry.DrawPassesCheck`, `CtxRegistry.FullIndexBusy`).
- A message lookup leaves the pools exactly when the index is their number (`MsgPool.FindMsg`).
- A failed submission, or an answer with an error, leaves a stream intact exactly when the store
  buffer was not engaged (`StoreBuffer.FailureHarmlessIff`, `StoreBuffer.ErrorHarmlessIff`,
  `StoreBuffer.BusyThenGarbage`, `StoreBuffer.ErrorThenGarbage`).
- Right-aligning in place works exactly when the layout test does not fire
  (`BigNumber.InPlaceAlignedIff`, `BigNumber.LeftoverMisread`); doing it twice is doing it once
  under the condition of `BigNumber.TwiceIff` (`BigNumber.TwiceShifts`).

## Model

| member | source | states |
|---|---|---|
| QpRing.RingSafety | drv/hisi_qm_udrv.c:511-617 | In every interleaving of send, in-order completion and receive: received entries are the answers in order, each once, over any number of wraps; at most depth - 1 entries are in flight; no slot of an uncompleted entry is overwritten; the phase test is true exactly when a completion is unread. |
| QpRing.DeviceReadsSubmission | drv/hisi_qm_udrv.c:511-560 | In every run the slot the device completes next holds exactly the entry submitted in that position. |
| QpRing.DrainedMeansDelivered | drv/hisi_qm_udrv.c:562-617 | In every run, when the device has caught up with the doorbell and the receiver sees no phase match, everything sent was answered and received. |
| QpRing.UsedNumExact | drv/hisi_qm_udrv.c:427-560 | In every run `used_num` equals sent minus released if and only if no rung batch waits to be added, and is then at most depth - 1. |
| QpRing.UsedNumCanWrap | drv/hisi_qm_udrv.c:549-556 | A concrete run in which a fast device and receiver drive the 16-bit counter to 65535. |
| QpRing.PhaseTestExact | drv/hisi_qm_udrv.c:572-580 | Under the invariant the head's phase matches if and only if a completion is unread, and that completion names the slot of the oldest unreceived entry. |
| QpRing.StepInv | drv/hisi_qm_udrv.c:511-617 | Every step of sender, receiver and device keeps the ring invariant (counters, registers, both windows of the submission ring, the completion window and the history). |
| QpRing.RunInv | drv/hisi_qm_udrv.c:511-617 | The invariant holds after every run from a state that has it. |
| QpRing.FillSqeSlot | drv/hisi_qm_udrv.c:196-213 | The one- or two-part copy puts entry k of the batch in slot (tail + k) mod depth and leaves every other slot alone. |
| QpRing.FillKeeps | drv/hisi_qm_udrv.c:196-213 | A granted batch overwrites no pending submission and no unread answer. |
| QueuePair.SendEffect | drv/hisi_qm_udrv.c:511-560 | From any reachable state a granted batch leads to a reachable state, whether the device accepts it or transmission is disabled. |
| QueuePair.RecvEffect | drv/hisi_qm_udrv.c:562-617 | In any reachable state with an idle receiver the phase test is exact, the entry it leads to is the next answer, and the state after taking it is reachable. |
| QueuePair.HandedOut | drv/hisi_qm_udrv.c:619-649 | What was handed out since a point of the run is the next stretch of the answers. |
| QueuePair.RxErrorConsistent | drv/hisi_qm_udrv.c:589-604 | The error return, which has already stored the next phase, leaves the invariant intact if and only if the head was not on the last completion slot. |
| QueuePair.RxErrorBreaks | drv/hisi_qm_udrv.c:589-604 | A queue as set up, two entries sent and answered, the second taken while the status register reports an error: the invariant is gone. |
| QueuePair.Queue.constructor | drv/hisi_qm_udrv.c:348-413 | The queue as set up, all registers zero, all phase bits clear and the expected phase 1, is the start of every run. |
| QueuePair.Queue.DeviceCompletes | drv/hisi_qm_udrv.c:570-588 | A completion as the receiver expects it, written into the shared rings, is one device step and keeps the queue reachable. |
| QueuePair.Queue.FillSlots | drv/hisi_qm_udrv.c:196-213 | The in-place copy into the ring equals the two-part copy of the model. |
| QueuePair.Queue.Submit | drv/hisi_qm_udrv.c:535-560 | Filling, doorbell and counter together are the run of the three sender steps; a disabled device leaves all but the unsent slots alone. |
| QueuePair.Queue.Send | drv/hisi_qm_udrv.c:511-560 | Busy exactly when depth - 1 entries are in flight or the batch is more than the rest, in flight being what was sent and not received; otherwise the batch is appended to the history; the state stays reachable in every case. |
| QueuePair.FreeNumIs | drv/hisi_qm_udrv.c:427-432 | In any reachable state between calls the free number is depth - 1 less the entries in flight. |
| QueuePair.Queue.RecvSingle | drv/hisi_qm_udrv.c:562-617 | Again exactly when every answer was received; otherwise the next answer; a bad slot index never occurs. |
| QueuePair.Queue.Recv | drv/hisi_qm_udrv.c:619-649 | Returns exactly the next answers, in order: as many as are wanted and unread, up to the first status error; every return code exactly, and after a status error the state that the error return leaves. |
| WordBitmap.Ffs | wd_mempool.c:161-190 | The halving search returns the lowest set bit of a non-zero word. |
| WordBitmap.LinearScanIs | wd_mempool.c:223-251 | The bit-by-bit scan ends at the first hit from the start on, or at the end of the map. |
| WordBitmap.FindNextBit | wd_mempool.c:223-251 | The word-at-a-time search equals a bit-by-bit scan for every map, length, start and inversion, whatever the word behind the map holds. |
| WordBitmap.ScanIsNextZero | wd_mempool.c:253-256 | With all bits inverted the scan is the first clear bit at or after the start. |
| WordBitmap.Bitmap.SetBit | wd_mempool.c:258-266 | Exactly bit pos of the map becomes set. |
| WordBitmap.Bitmap.ClearBit | wd_mempool.c:268-276 | Exactly bit pos of the map becomes clear. |
| WordBitmap.Bitmap.TestBit | wd_mempool.c:278-284 | Answers whether the bit is clear. |
| WordBitmap.Bitmap.FindNextZeroBit | wd_mempool.c:253-256 | The first clear bit at or after start, or the number of bits. |
| Mempool.FindRun | wd_mempool.c:405-416 | Finds the leftmost run of n clear bits at or after pos and finds one if and only if one exists; the scan goes past the last bit if and only if none exists and the last bit is clear. |
| Mempool.SingleNeverPastEnd | wd_mempool.c:413-415 | With one block per zone the scan never leaves the bitmap. |
| Mempool.ScanLeaves | wd_mempool.c:413-415 | Bits clear, set, clear: the scan for two adjoining blocks leaves the bitmap. |
| Mempool.NeverOverruns | wd_mempool.c:484-494 | A search that ended at some run without leaving the bitmap never leaves it. |
| Mempool.OverrunBlock | wd_mempool.c:413-423 | The block the code would hand out after the scan has left the bitmap ends behind the last mempool block, and lies in the mapping if and only if the rest of it fits the slack. |
| Mempool.FreshOverruns | wd_mempool.c:484-494 | In a fresh mempool the search leaves the bitmap if and only if more runs are needed than fit and the bits are no multiple of the run length. |
| Mempool.OverrunOfFresh | wd_mempool.c:405-423 | In a fresh mempool of 16 blocks a pool of six blocks of 8193 bytes goes past the bitmap at block 15, and its sixth block is in the mapping only with 4097 bytes of slack. |
| Mempool.NoAddresses | wd_mempool.c:438-445 | In 2 GB a pool of 2^31 one-byte blocks is created without any address. |
| Mempool.WrappedProduct | wd_mempool.c:384-393 | A pool of 2^31 blocks of 2^33 bytes passes the byte check of any mempool, and is created without any address. |
| Mempool.SearchHangs | wd_mempool.c:405-416 | A block of 2^32 mempool blocks, none as an int, is searched for without end. |
| Mempool.ShortBlocks | wd_mempool.c:474-476 | Blocks of 2^32 + 1 mempool blocks, one as an int, are handed out 4 KB apart. |
| Mempool.WholeIff | wd_mempool.c:384-393 | A new pool has an address for every block, each in its zone, if and only if its depth is below 2^31 and its byte count below 2^64. |
| Mempool.LeftmostFirst | wd_mempool.c:484-494 | Taking the leftmost run first costs nothing: k disjoint runs exist from a position exactly when k - 1 exist behind its leftmost run. |
| Mempool.TurnsCover | wd_mempool.c:435-456 | The number of mempool blocks taken for a split pool is the smallest that covers the blocks counted. |
| Mempool.SplitIs | wd_mempool.c:437 | As many pool blocks are put into a mempool block as fit, and no more would. |
| Mempool.SplitLeast | wd_mempool.c:435-456 | No way of splitting mempool blocks gives room to the blocks of a pool in fewer of them. |
| Mempool.RunLengthIff | wd_mempool.c:474-475 | A run holds a pool block if and only if it has the length searched for or more. |
| Mempool.Mempool.AllocBlock | wd_mempool.c:395-432 | Marks the leftmost run and records a zone that tiles the bitmap with the others; fails only for want of a run or of a record, and then restores the bitmap. |
| Mempool.Mempool.CutZone | wd_mempool.c:446-456 | A cut zone is charged to both counters so that bitmap, zones and counters stay in agreement. |
| Mempool.Mempool.FreeZones | wd_mempool.c:356-373 | Returning a pool's zones removes exactly those zones, with bits and both counters restored. |
| Mempool.Mempool.AllocMultiInOne | wd_mempool.c:435-466 | Succeeds exactly when the 64-bit byte check passes, enough clear bits exist and every record is allocated, and then gives the fewest zones that hold exactly the blocks that an int of the depth counts; otherwise nothing is kept. |
| Mempool.Mempool.AllocOneNeedMulti | wd_mempool.c:472-504 | Succeeds exactly when the byte check passes, no block is counted or the run length is positive as an int and that many disjoint runs exist, and every record is allocated, so greedy search loses nothing; the zones fit their blocks exactly when the run length kept its value; goes past the bitmap, and hangs, exactly under the stated conditions. |
| Mempool.Mempool.AllocMem | wd_mempool.c:506-514 | Both cases with success, failure, overrun and endless search characterised exactly, and the rollback when the address table cannot be allocated. |
| Mempool.Mempool.Create | wd_mempool.c:535-587 | Succeeds exactly when the parameters are non-zero, every allocation succeeds and there is room, and then adds one pool, whose zones have the length searched for and, where blocks share a mempool block, are the fewest possible; it has depth addresses, each block in its zone, if and only if depth is below 2^31 and the byte count below 2^64; runs past the bitmap, and where, or hangs, exactly under the stated conditions; otherwise fails and leaves pools, bitmap and both counters as they were. Bitmap, zones and counters agree after every outcome but the overrun. |
| Mempool.Mempool.Destroy | wd_mempool.c:589-609 | Takes out exactly that pool's zones; bitmap, zones and counters agree over every sequence of creations, failed creations and destructions. |
| Mempool.InitElems | wd_mempool.c:516-533 | The nested walk fills in the block addresses zone by zone. |
| Mempool.BlockInRegion | wd_mempool.c:516-533 | Every block address of every live pool whose blocks fit their zones lies inside the mempool blocks. |
| Mempool.BlocksNeverOverlap | wd_mempool.c:395-533 | No two blocks of live pools whose blocks fit their zones share a byte. |
| Mempool.SameLedger | wd_mempool.c:356-373 | The zones determine both counters: free blocks plus zone lengths and real size plus zone bytes are constant. |
| Mempool.AccountPush | wd_mempool.c:446-456 | Charging a new zone keeps both balances, and neither counter underflows. |
| Mempool.AccountRemove | wd_mempool.c:356-373 | Crediting a returned zone keeps both balances. |
| MemZones.TiledPush | wd_mempool.c:418-423 | Marking a clear run keeps "a bit is set exactly when it lies in exactly one zone". |
| MemZones.TiledRemove | wd_mempool.c:356-373 | Clearing a zone's bits keeps it for the remaining zones. |
| MemZones.TiledCount | wd_mempool.c:336-373 | The number of set bits is the total length of the zones. |
| BlockPoolRef.PoolSafety | wd_mempool.c:286-334 | In every interleaving of allocations, frees and one destroy: ref is the owner's count plus outstanding blocks plus counted threads, blocks are conserved, no block has two holders, and at release every block is on the stack and no counted thread is inside. |
| BlockPoolRef.ReleasedForever | wd_mempool.c:589-609 | After release the count stays zero and no allocation succeeds, whatever steps follow. |
| BlockPoolRef.NeverFull | wd_mempool.c:316-334 | A thread about to push always finds room, so the branch that would keep the reference is dead. |
| BlockPoolRef.InsideAtRelease | wd_mempool.c:51-63 | At release every thread still inside a call is before its increment. |
| BlockPoolRef.SafeToDestroyIff | wd_mempool.c:589-609 | Once the destroy has begun: whatever follows without a new allocation, nobody is inside a call at release, if and only if every thread inside one at that point has made its increment. |
| BlockPoolRef.Drains | wd_mempool.c:286-334 | From any state with the owner waiting there is a run that brings every reference back and leaves a given uncounted thread where it is. |
| BlockPoolRef.UncountedThreadInside | wd_mempool.c:51-63 | A concrete run in which destroy finishes while a thread is between its load and its compare-and-swap. |
| BlockPoolRef.StepInv | wd_mempool.c:286-334 | Every step keeps the reference balance and the conservation of blocks. |
| HwOrder.OrderIsStableSort | drv/hisi_dae.c:1036-1071 | The six passes are a stable sort of the columns by hardware type: a permutation, sorted by rank, ties in user order. |
| AggPlan.TransferInputColInfo | drv/hisi_dae.c:980-1022 | Accepts exactly the supported setups and then describes every column and every requested aggregate. |
| AggPlan.CheckOutputMeans | drv/hisi_dae.c:824-978 | The per-aggregate checks accept exactly the supported combinations of type, output type and precision, and set the device types of input and result to those of the user types. |
| AggPlan.PrecisionIs | drv/hisi_dae_common.c:8-33 | The precisions accepted are exactly those whose numbers all fit the signed 64 or 128 bits of the device. |
| AggPlan.HwOfIff | drv/hisi_dae.c:755-792 | The device type of a column is the one that stands for its user type. |
| AggPlan.SentType | drv/hisi_dae.c:1011-1018 | A column that is used is sent with a type the device computes with: 64-bit integers when only counted, whatever it holds, otherwise the type that stands for the user's. |
| AggPlan.TransferColumn | drv/hisi_dae.c:1001-1018 | A column passes exactly when each of its aggregates is supported on it; it then tells the device the right type (64-bit integers when only counted), the set of algorithms and the choice of the last sum, and every output gets the type of its result. |
| AggPlan.SumChoiceSuitsIff | drv/hisi_dae.c:840-858 | The one sum choice a column is given suits all its sums if and only if no two of them want different ones. |
| AggPlan.CountOutputs | drv/hisi_dae.c:980-1000 | Passes exactly when no column has too many aggregates and the outputs, count(*) included, fit. |
| AggPlan.SwapOutIndex | drv/hisi_dae.c:1024-1034 | Exactly the outputs whose saved source is the moved column get its new position. |
| AggPlan.TransferInputToHwOrder | drv/hisi_dae.c:1036-1071 | The input table is the stable order, and every output's source names the new position of the user's column. |
| AggPlan.TransferOutputToHwOrder | drv/hisi_dae.c:1073-1116 | The output tables are the stable order of the outputs, for normal and rehash input, with the information word of their source column. |
| AggPlan.PackNibbles | drv/hisi_dae.c:132-155 | Reading nibble k of the packed word gives back entry k; the rest is clear. |
| AggPlan.NibbleIs | drv/hisi_dae.c:150-154 | Nibble k is the packed number shifted right by 4k bits and cut to four. |
| AggPlan.OpRead | drv/hisi_dae.c:49-54 | The device reads back every operation from its code. |
| AggPlan.ByteRead | drv/hisi_dae.c:301-313 | It reads back type and sum choice from the byte sent for a column. |
| AggPlan.OrderFalls | drv/hisi_dae.c:67-70 | The order of the hardware types is that of falling type codes. |
| AggPlan.FillOutputOrder | drv/hisi_dae.c:132-155 | Both words encode the plan's sources and operations, for normal or rehash input; the count(*) flag is set only on normal input. |
| AggPlan.Compile | drv/hisi_dae.c:1118-1140 | Succeeds exactly on acceptable setups; the plan's orders are stable permutations, route every output to its requested source and operation, and give every input and output the device type, information and sum choice of its user column. |
| AggPlan.PlanMeansRequests | drv/hisi_dae.c:301-369 | The compiled plan of every setup in which no column has an aggregate twice, which is what wd_agg.c lets through, preserves meaning: decoding the packed nibbles into sources and operations over the permuted input buffers, each with the type and sum choice decoded from the byte sent for it, and writing back through the permuted outputs, puts in every user output column the aggregate asked for on the described user column, for every evaluation function. |
| AggPlan.MeansRequestsIff | drv/hisi_dae.c:301-369 | Of all that the driver itself accepts, a plan means what was asked for if and only if no column has conflicting sums. |
| AggPlan.NoRepeatsAgree | wd_agg.c:232-246 | Where no column has an aggregate twice, no column has conflicting sums. |
| AggPlan.TypesAnnouncedIff | drv/hisi_dae.c:900-932 | What the device produces in every output column has the type of its result, and the type announced to wd_agg.c in all of them if and only if every maximum and minimum was announced with the type of its column. |
| AggPlan.ConflictingSums | drv/hisi_dae.c:840-858 | Called without the check of wd_agg.c, the driver accepts a short-decimal column summed into a short and a long decimal, and asks the device for a wrong sum. |
| AggPlan.RehashInPlace | drv/hisi_dae.c:301-369 | A rehash pass reads and writes every output column in place and sums it again, described as its sum must be, for every evaluation function, when no output is a short decimal. |
| AggPlan.RehashInPlaceIff | drv/hisi_dae.c:1073-1116 | And only then: every short-decimal output, a maximum or minimum too, is summed again without a choice. |
| AggPlan.RehashWithoutChoice | drv/hisi_dae.c:1073-1116 | One sum, maximum or minimum of short decimals, accepted by every check: the rehash tells the device to sum 64-bit decimals without a choice of result. |
| AggPlan.OutputsDistinct | drv/hisi_dae.c:1073-1116 | All output columns, count(*) included, go to distinct user columns. |
| AggPlan.TransferKeyToHwType | drv/hisi_dae.c:794-822 | Accepts exactly when every decimal key fits; the key table is the stable order of the keys, each with the device type of its user type and its own information. |
| AggSetup.KeyTextCheck | drv/hisi_dae.c:624-658 | Passes exactly when every text key fits and there are at most five. |
| AggSetup.OutputNumCheck | drv/hisi_dae.c:660-712 | Passes exactly when every announced output type has a size the device can produce and the counts of both announced sizes are within its limits. |
| AggSetup.TableRowSize | drv/hisi_dae.c:1142-1179 | The smallest row size of the device that holds all columns, exactly when the sum is in range. |
| AggSetup.KeySizeIs | drv/hisi_dae.c:755-792 | A key takes the bytes of its column in wd_agg.c, a text key the least number of whole words for its size, and for its offset if it varies. |
| AggSetup.ResultSizeIs | drv/hisi_dae_common.c:35-52 | A result takes the bytes of the column the user gets it in. |
| AggSetup.PermutedSum | drv/hisi_dae.c:1142-1179 | The size of a row does not depend on the order of its columns. |
| AggSetup.Setup | drv/hisi_dae.c:1181-1202 | The driver makes a session exactly for the setups that pass its checks, of which the limits on output sizes are about announced types, stated in the user's own order; it has a compiled plan, keys in stable order and the smallest row for what the device produces. |
| AggSetup.InfoOkIff | wd_agg.c:128-161 | A decimal passes with at least one digit and no more decimals than digits, text with a length, every other type always. |
| AggSetup.CheckAggCols | wd_agg.c:207-252 | Passes exactly when every column has a sound description, at least one aggregate and none twice, and counts the output columns. |
| AggSetup.CheckSession | wd_agg.c:254-295 | Passes exactly when there are keys, something to aggregate, and every key and column is sound; counts the output columns, count(*) included. |
| AggSetup.AllocSession | wd_agg.c:425-477 | A session exists exactly for what passes the library's and the driver's checks; no column of it has an aggregate twice, and there are as many output buffers as the plan has columns. |
| AggSetup.SizesAnnouncedIff | drv/hisi_dae.c:660-712 | The size counted for every output is the size produced if and only if every maximum and minimum was announced with the size of its column. |
| AggSetup.SizedWithinLimits | drv/hisi_dae.c:660-712 | Then what passes the driver's check keeps the device's limits. |
| AggSetup.WithinLimitsIff | drv/hisi_dae.c:660-712 | In an accepted setup what the device produces breaks its limits if and only if there are nine outputs, all of 8 or all of 16 bytes. |
| AggSetup.NineLong | drv/hisi_dae.c:900-932 | Nine maxima of long decimals, one announced as a short decimal, pass every check. |
| Extents.TakeInv | wd_bmm.c:1026-1078 | Allocating a free run keeps the allocator invariant (disjoint extents, exact bits, lengths only at heads, free count equal to clear bits). |
| Extents.GiveInv | wd_bmm.c:916-974 | Freeing a live extent keeps it. |
| Extents.ExtentsDisjoint | wd_bmm.c:1026-1078 | Two live extents share no block. |
| Extents.TakeThenGive | wd_bmm.c:916-974 | Allocating a run and freeing its head restores every bit, header and counter. |
| Extents.GiveNonHead | wd_bmm.c:916-974 | Freeing an initialised block that heads no live extent changes nothing. |
| Extents.GiveKeepsIff | wd_bmm.c:916-974 | Freeing any block of the pool keeps the invariant if and only if the block was initialised or its leftover length is zero; only a leftover length reaches past the last block. |
| Extents.LeftoverLengthBreaks | wd_bmm.c:916-974 | One skipped block over memory that held a length of 1: freeing it breaks the count. |
| Extents.DestroyCheck | wd_bmm.c:889-893 | The free count equals the number of usable blocks if and only if no extent is live. |
| BlockManager.RequiredBlocksCover | wd_bmm.c:1048-1054 | The 32-bit block count covers the requested bytes if and only if neither the 64-bit sum nor the 32-bit result wrapped. |
| BlockManager.WrappedRequest | wd_bmm.c:1048-1054 | A request one byte past 2^32 blocks of 64 bytes is taken for one block. |
| BlockManager.RequiredBlocksIs | wd_bmm.c:1048-1054 | The count is the least number of blocks for the request, cut to 32 bits, and none when the 64-bit sum wraps. |
| BlockManager.BlockCountIs | wd_bmm.c:657-661 | The pool gets as many whole blocks as the memory holds, cut to 32 bits. |
| BlockManager.NumTimesExact | wd_bmm.c:714-717 | The 32-bit threshold is 87 percent if and only if the product fits; 49367441 wanted blocks need none. |
| BlockManager.IndexOf | wd_bmm.c:949-950 | The 32-bit index names the block that holds the address if and only if that block's number is below 2^32. |
| BlockManager.AddressNames | wd_bmm.c:949-950 | Any address inside block i, where initialisation put it, names block i, for every i below 2^32. |
| BlockManager.SpansMeans | wd_bmm.c:1004-1007 | A free run passes the contiguity test if and only if its first and last block are as far apart for the device as in memory. |
| BlockManager.PoolInit | wd_bmm.c:635-737 | Comes up exactly when both arrays are allocated, the bitmap has a size, both ends of every block can be mapped and the usable blocks exceed the 32-bit threshold; marks exactly the others, leaves their headers as they were, counts the usable ones and has no live extents. |
| BlockManager.Pool.TestBit | wd_bmm.c:254-264 | True exactly when the block is free. |
| BlockManager.Pool.FindContiguous | wd_bmm.c:976-1024 | Terminates despite the backward jumps; returns the lowest run that is free and spans equally in both address spaces, and fails only when every such run lies behind too many rejected candidates. |
| BlockManager.Pool.MemAlloc | wd_bmm.c:1026-1078 | A success takes the lowest good run; a failure changes nothing but the failure counter and happens only when the count is zero or too large or no good run is within reach. The address returned is that of the first block, and the device sees first and last block as far apart as memory does. |
| BlockManager.Pool.MemFree | wd_bmm.c:916-974 | Ignored exactly below the pool or when the 32-bit index of the block is outside it; an address inside block i releases what block i heads; otherwise the state is the one after giving back what the header of the block so named says, past the end exactly when the length reaches there, and the invariant holds if and only if the block was initialised or its length is zero. |
| BlockManager.AllocThenFree | wd_bmm.c:916-1078 | Freeing the address an allocation returned restores every bit, header and counter. |
| BlockManager.FreeOfSkippedBlock | wd_bmm.c:916-974 | A pool as it comes up with one skipped block over memory that held a length: freeing that block breaks the invariant. |
| BlockManager.FarFree | wd_bmm.c:949-957 | Freeing an address 2^32 blocks behind a pool of one block in use frees that block. |
| BlockManager.Pool.InUse | wd_bmm.c:889-893 | Reports busy if and only if an extent is live. |
| SglPool.Pool.Pop | drv/hisi_qm_udrv.c:839-855 | Takes the top node, empty but for a size field that may still hold what its memory held; nothing exactly when the stack is empty or its top slot is null, which is then gone. |
| SglPool.Pool.Push | drv/hisi_qm_udrv.c:857-878 | Resets the node, its size too, and puts it on the stack; never overflows for a node that is not on it. |
| SglPool.Pool.PutHwSgl | drv/hisi_qm_udrv.c:880-900 | Putting a live chain back returns exactly its nodes, clears their leftovers and touches no other chain; every slot stays on the stack or lost, or its node in exactly one live chain. |
| SglPool.Pool.GetHwSgl | drv/hisi_qm_udrv.c:933-1029 | The answer is exactly determined by the list and the number of nodes above the first null slot; a built chain holds the non-empty user entries in order, in exactly as many nodes as needed, all but the last of them full, and becomes live; a failed build returns every node it took, and loses the null slot it met; free slots, lost slots and the nodes of all live chains are the whole pool, once each. |
| SglPool.Pool.constructor | drv/hisi_qm_udrv.c:688-728 | All slots on the stack, null where the node could not be mapped, none live or lost, with whatever size and entries the nodes' memory held. |
| SglPool.Pool.Build | drv/hisi_qm_udrv.c:953-1028 | The builder: chain, entry counts and every failure exactly, and what is back on the stack after one. |
| SglPool.Pool.Fill | drv/hisi_qm_udrv.c:953-1012 | Its loop: the verdict exactly, the chain so far and the nodes it was taken from. |
| SglPool.NodesNeededIs | drv/hisi_qm_udrv.c:990-1012 | All but the last of the nodes needed are full with what comes before the last list element, and that one finds a free entry. |
| SglPool.FullCount | drv/hisi_qm_udrv.c:990-1012 | Full nodes hold width entries each. |
| SglPool.Pool.NothingLost | drv/hisi_qm_udrv.c:688-728 | Where every node could be mapped, free nodes plus chained nodes are the depth at every point, and every free node can be had. |
| SglPool.AvailAllIff | drv/hisi_qm_udrv.c:839-855 | All slots on the stack can be popped as nodes if and only if none of them is null. |
| SglPool.NullSlotBusy | drv/hisi_qm_udrv.c:711-716 | Two slots, the upper one null: a list of one element is answered busy, and taken by the next call. |
| SglPool.SizesExactIff | drv/hisi_qm_udrv.c:984-988 | The size fields of a built chain are right if and only if no node of it had a leftover. |
| SglPool.WrappedCountRefuses | drv/hisi_qm_udrv.c:1009-1020 | 65536 good elements in 512 nodes of 128 entries are refused, because the 16-bit count in the head is zero. |
| SglPool.SmallPoolNeverWraps | drv/hisi_qm_udrv.c:1009-1020 | In a pool of fewer than 2^16 entries a list is refused only for an unacceptable element. |
| SglPool.LedgerPut | drv/hisi_qm_udrv.c:880-900 | Putting a live chain back keeps the ledger of nodes, and no other live chain shares a node with it. |
| SglPool.AppendSge | drv/hisi_qm_udrv.c:984-988 | Filling the next entry of the last node appends that entry to the chain's data. |
| SglPool.GrowChain | drv/hisi_qm_udrv.c:996-1012 | Linking a blank node keeps the chain's data and counts the node in the head. |
| SglCopy.FindNode | drv/hisi_qm_udrv.c:1125-1131 | Stops at the node where the size fields, leftovers included, say the offset lies, or nowhere exactly when they say it is behind the chain. |
| SglCopy.FindSge | drv/hisi_qm_udrv.c:1133-1147 | Finds the entry and the position in it; behind the last entry, or at zero, when the node does not reach that far. |
| SglCopy.CopyRest | drv/hisi_qm_udrv.c:1047-1080 | The entry-by-entry copy across nodes completes the slice if and only if the 32-bit sum does not step over the stop; otherwise it has written 2^32 bytes or more. |
| SglCopy.CopyOut | drv/hisi_qm_udrv.c:1114-1154 | From chain to buffer: begins at the byte asked for if and only if it lies before the end of every node with a leftover or behind the chain by its size fields; from where it begins it copies the slice, cut at the end, if and only if the sum does not step over the stop, and otherwise writes past the requested size. |
| SglCopy.SmallCopiesNeverWrap | drv/hisi_qm_udrv.c:1047-1080 | Copies that stay one entry size below 4 GB never step over it. |
| SglCopy.BuildThenCopy | drv/hisi_qm_udrv.c:933-1154 | Building a chain from a user list and copying (offset, size) out of it yields exactly that slice of the list's bytes when no node taken had a leftover, and begins at the right byte exactly when Reachable says so. |
| SglCopy.PlaceWrong | drv/hisi_qm_udrv.c:1125-1147 | Behind a node with a leftover the searches end at a wrong place. |
| SglCopy.PlaceRight | drv/hisi_qm_udrv.c:1125-1147 | Before the end of every such node, and behind the chain, they end at the right one. |
| SglCopy.AlwaysReachableIff | drv/hisi_qm_udrv.c:1125-1131 | The start is right for every offset if and only if no node of the chain had a leftover. |
| SglCopy.LeftoverMisleads | drv/hisi_qm_udrv.c:705-728 | A fresh pool of two nodes whose memory held 5: copying byte 3 of a list built there does not begin at byte 3. |
| SglCopy.LargeCopyWraps | drv/hisi_qm_udrv.c:1047-1080 | Reading 2^32 - 1 bytes out of 512 entries of 8 MB steps over the stop. |
| SegmentCursor.DrawIsNext | wd_sched.c:557-592 | A draw returns the element under the cursor of the flattened segments and moves the cursor one place, around the end. |
| SegmentCursor.DrawsAreCyclic | wd_sched.c:557-592 | The k-th draw is element (p + k) mod total. |
| SegmentCursor.FullTurn | wd_sched.c:557-592 | Any total consecutive draws return every context of the domain exactly as often as it is listed. |
| SegmentCursor.AppendKeepsCursor | wd_sched.c:507-548 | Appending a segment between draws adds at the end and keeps the cursor's place. |
| SchedTable.Table.Lookup | wd_sched.c:397-427 | The chained table behaves as a map on four-part keys: found exactly for the keys in it, with the value stored there. |
| SchedTable.HashWeights | wd_sched.c:306-315 | What each part of a key adds to its hash; nothing above depends on it. |
| SchedTable.Table.PushFront | wd_sched.c:449-484 | A new node in front of its chain adds exactly that key, whatever collides with it. |
| SchedTable.Table.Insert | wd_sched.c:429-492 | An existing key keeps its domain; a missing one gets a new, empty, unusable domain unless memory runs out. |
| SchedTable.Table.Append | wd_sched.c:507-548 | The segment goes to exactly that key's domain, which becomes usable. |
| SchedTable.Table.RrInstance | wd_sched.c:2089-2150 | Refused exactly on bad parameters, out of memory exactly on a failed allocation; a success appends the range to the domain of the normalised key. |
| SchedTable.Table.SessionDraw | wd_sched.c:1240-1265 | Draws exactly when the parameters are in range and the key has a usable, non-empty domain; the index is one listed there and only the cursor moves. |
| SchedTable.FindReplace | wd_sched.c:397-427 | Overwriting the node found for a key leaves every lookup at the same position. |
| CtxRegistry.Register | wd_util.c:2540-2600 | Run-length registration appends to every domain exactly the ascending indices of its contexts; success exactly means all were registered and valid, and a refusal stops at an invalid one with the rest of the table right. |
| CtxRegistry.RunRegistered | wd_util.c:2564-2597 | One run registered as one segment is every context of the run under its key. |
| CtxRegistry.FreshRegistration | wd_util.c:2540-2600 | A registration into an empty table leaves every domain listing exactly its own contexts, ascending. |
| CtxRegistry.HasDomain | wd_util.c:2540-2600 | Every registered context has a domain. |
| CtxRegistry.InOneSegment | wd_util.c:2540-2600 | After a registration every context index lies in exactly one segment of the domain of its key and in no segment of any other. |
| CtxRegistry.ListedUnderOwnTypeIff | wd_sched.c:2127-2128 | A context is listed under its own type if and only if that type is at most `UADK_ALG_SOFT`. |
| CtxRegistry.LaterTypeUnlisted | wd_sched.c:2127-2128 | A registered context of the first later type is listed as hardware and not under its type. |
| CtxRegistry.LaterTypesDrawNothing | wd_sched.c:1240-1265 | A session that asks for a later type finds nothing to draw. |
| CtxRegistry.DrawPassesCheck | wd_util.c:1404-1423 | Any index listed for a mode, operation and type is of a context with that mode, operation and type (or a later type listed as hardware), and passes the context check for that mode, unless it equals the reserved "queue full" value. |
| CtxRegistry.RefusedIff | wd_util.c:1404-1423 | A listed hardware context is refused for every mode but its own, a software one for none; an index past the contexts never passes. |
| CtxRegistry.FullIndexBusy | wd_util.c:1404-1423 | 0x20000000 contexts of one kind: the last one is listed, and taken for "queue full". |
| CtxRegistry.DrawKeepsRegistered | wd_sched.c:1240-1265 | Draws leave the registration as it was. |
| CtxTable.SetCtxIndex | wd_util.c:906-931 | Gives the operation types of one mode consecutive ranges from start on. |
| CtxTable.FillCtxTable | wd_util.c:933-946 | Over all nodes, modes and types the ranges are consecutive, each node starting at the total of the nodes before it. |
| CtxTable.StartIndex | wd_util.c:894-904 | The start of a node is the total of the nodes before it. |
| CtxTable.NodeOwner | wd_util.c:1055-1087 | Every index of a filled node lies in exactly one range of exactly one mode. |
| CtxTable.Recover | wd_util.c:1055-1087 | `get_ctx_mode` and `get_op_type` return the mode and type that own the index. |
| CtxTable.NodeOf | wd_util.c:933-946 | The nodes cover 0 to the total. |
| CtxTable.NodeUnique | wd_util.c:933-946 | No index belongs to two nodes. |
| MsgPool.OneHolder | wd_util.c:454-492 | Under every interleaving of test-and-set scans, racy start updates and releases, each slot has at most one holder, exactly when its flag is set, and the messages of two tags share no byte. |
| MsgPool.InvNext | wd_util.c:454-492 | Every step keeps "one holder when the flag is set, none when it is clear". |
| MsgPool.BusyIff | wd_util.c:467-472 | Under every interleaving a call gives up exactly when it has met every slot, each of them used when it was looked at. |
| MsgPool.Pool.Get | wd_util.c:454-478 | Sequentially, busy exactly when every slot is used; otherwise a free slot is claimed and its tag names its message. |
| MsgPool.Pool.Put | wd_util.c:480-492 | Clears exactly the flag of a valid tag. |
| MsgPool.Pool.Find | wd_util.c:445-451 | A valid tag finds the message that Get returned for it. |
| MsgPool.FindMsg | wd_util.c:432-452 | Finds exactly the messages of valid tags in existing pools; the index equal to the number of pools passes the test and names no pool. |
| MsgPool.AllProbed | wd_util.c:467-472 | As many probes as slots, from any start, meet every slot. |
| StoreBuffer.StreamConserved | drv/hisi_comp.c:268-355 | Over every run of one stream: bytes handed out followed by the pending window are all bytes produced, in order and once each; the end is reported by exactly the call that leaves nothing pending after the device ended. |
| StoreBuffer.EndMeansComplete | drv/hisi_comp.c:297-327 | When the end is reported the user holds every byte. |
| StoreBuffer.CallConserves | drv/hisi_comp.c:329-355 | One call hands out at most the output space, and out plus new window is old window plus what was produced. |
| StoreBuffer.EngagedIff | drv/hisi_comp.c:357-370 | The store buffer is engaged exactly when the output space, less a header still to be written, is at most 200; the wrapped subtraction never matters. |
| StoreBuffer.RoomIff | drv/hisi_comp.c:583-598 | The device is told of exactly the space that is safe: behind the header, inside the buffer it writes to, and at most 8 MB. |
| StoreBuffer.CallStatus | drv/hisi_comp.c:297-355 | The status of every call: the end with the last bytes, success before, the device's own status otherwise, and again where the end is held back. |
| StoreBuffer.HeaderOnce | drv/hisi_comp.c:583-598 | The format header is handed out once, in front of the first output. |
| StoreBuffer.FailureHarmlessIff | drv/hisi_comp.c:587-598 | A failed submission leaves the window as it was if and only if the store buffer was not engaged. |
| StoreBuffer.ErrorHarmlessIff | drv/hisi_comp.c:1741-1743 | An answer with an error leaves the window as it was if and only if the store buffer was not engaged. |
| StoreBuffer.BusyThenGarbage | drv/hisi_comp.c:1548-1556 | A first request that the queue refuses, and the next call hands out 236 bytes that no device produced. |
| StoreBuffer.ErrorThenGarbage | drv/hisi_comp.c:1741-1743 | A first request answered with an error, and the next call hands out 236 bytes that no device produced. |
| StoreBuffer.CompBuf.CopyToOut | drv/hisi_comp.c:268-295 | Returns the prefix of the window that fits the output. |
| StoreBuffer.CompBuf.Send | drv/hisi_comp.c:1527-1559 | Serves from the buffer and skips the device when bytes are pending; otherwise engages the buffer, writes the header and tells the device its room. |
| StoreBuffer.CompBuf.CopyFromHw | drv/hisi_comp.c:329-355 | Hands out what fits, keeps the rest, and holds an end status back while bytes are pending. |
| StoreBuffer.CompBuf.Serve | drv/hisi_comp.c:1715-1750 | A send followed by a receive is one step of the stream model, device errors included. |
| Sm2.Kdf | drv/hisi_hpre.c:2339-2399 | Fills exactly m bytes with the key; fails exactly for an unknown hash, a failed allocation or a failed hash of a block it needs. |
| Sm2.CounterValue | drv/hisi_hpre.c:2365-2372 | The four counter bytes are the block number modulo 2^32, big-endian. |
| Sm2.CountersDistinct | drv/hisi_hpre.c:2365-2372 | Below 2^32 blocks all counters are different. |
| Sm2.KeyByte | drv/hisi_hpre.c:2339-2399 | Byte j of the key is byte j mod h of the hash of Z followed by the four big-endian bytes of j / h + 1 (section 5.4.3 of GB/T 32918.4). |
| Sm2.KeyIsPrefix | drv/hisi_hpre.c:2339-2399 | The key is the length-m prefix of every long enough stream H(Z,1) H(Z,2) ... (section 5.4.3 of GB/T 32918.4). |
| Sm2.CheckValue | drv/hisi_hpre.c:2420-2454 | The check value is the hash of x2, the message and y2; each failure is reported exactly. |
| Sm2.XorInto | drv/hisi_hpre.c:2401-2408 | In-place exclusive or of the first dsize bytes, the rest untouched. |
| Sm2.MaskBits | drv/hisi_hpre.c:2401-2408 | A bit of the masked byte is set exactly when it is set in one of the two. |
| Sm2.Encrypt | drv/hisi_hpre.c:2456-2506 | Succeeds exactly when every hash it needs does, and then produces the encryption of the message (section 6.1 of GB/T 32918.4). |
| Sm2.Decrypt | drv/hisi_hpre.c:2508-2559 | Accepts exactly the encryptions, and returns the message that was encrypted (section 7.1 of GB/T 32918.4). |
| Sm2.EncryptThenDecrypt | drv/hisi_hpre.c:2456-2559 | For every message and every deterministic hash, decryption of the encryption accepts and returns the message. |
| Sm2.EncryptsUnmasks | drv/hisi_hpre.c:2535-2543 | A ciphertext has one plaintext: masking it again with the derived key. |
| BigNumber.IsHpreFormat | drv/hisi_hpre.c:278-297 | True exactly for equal sizes, or in place when a byte behind the data is set where the byte as far from the front is clear. |
| BigNumber.ToHpre | drv/hisi_hpre.c:299-326 | Right-aligns the data with zeros in front, in place or not, exactly when the layout test does not fire; bytes behind the buffer are untouched. |
| BigNumber.ToCrypto | drv/hisi_hpre.c:328-354 | Moves the number without its leading zeros (one byte kept) to the front, zeros behind it, and returns its length. |
| BigNumber.AlignedMeans | drv/hisi_hpre.c:299-326 | Right-aligning changes neither the big-endian value nor the stripped bytes. |
| BigNumber.StrippedValue | drv/hisi_hpre.c:328-354 | Stripping leading zeros keeps the value. |
| BigNumber.InPlaceAlignedIff | drv/hisi_hpre.c:278-326 | In place, the data end up right-aligned if and only if the layout test does not fire. |
| BigNumber.LeftoverMisread | drv/hisi_hpre.c:278-297 | A zero byte in front of a leftover 5 is taken for the number 5. |
| BigNumber.TwiceIff | drv/hisi_hpre.c:278-326 | Converting a shorter number twice is converting it once if and only if it is zero or has a nonzero byte among its last b - d ones. |
| BigNumber.TwiceShifts | drv/hisi_hpre.c:278-326 | The number 256 in three bytes, converted twice, is 1. |
| BigNumber.RoundTrip | drv/hisi_hpre.c:278-354 | A zero-tailed number converted there and back in one buffer comes back without leading zeros, with its length and value. |
| DaeHashTable.ExtPlaceExact | drv/hisi_dae_common.c:131-186 | The extended table starts at the lowest address whose second row is aligned and takes every row that fits; it is refused exactly when fewer than two rows do. |
| DaeHashTable.LowestIsLowest | drv/hisi_dae_common.c:137-183 | That address puts the second row on a 128-byte boundary inside the user's memory, and no lower one does. |
| DaeHashTable.FittingIff | drv/hisi_dae_common.c:137-183 | The rows that fit are as many as end inside the area. |
| DaeHashTable.WidthLargest | drv/hisi_dae_common.c:255-265 | The standard table has the largest power-of-two number of rows that fits. |
| DaeHashTable.StdAcceptedIff | drv/hisi_dae_common.c:232-268 | The standard table is accepted if and only if 2^10 rows from its aligned start end inside the area and 2^44 do not. |
| DaeHashTable.HashTables.ExtInit | drv/hisi_dae_common.c:188-230 | Accepts exactly two rows or more, and on a rehash only a strictly larger table; saves the old descriptor then. |
| DaeHashTable.HashTables.StdInit | drv/hisi_dae_common.c:232-268 | Accepts exactly a width between 10 and 43. |
| DaeHashTable.HashTables.Init | drv/hisi_dae_common.c:270-309 | Both tables lie inside the user's memory; a refused call leaves the active descriptor as it was; an accepted one on a live table strictly grows the extended table and saves the old descriptor; acceptance is characterised exactly. |

## Left out

- QpRing: the device-status error return of the receiver is not a step of the runs; `QueuePair.RxErrorConsistent` says exactly what it does to the invariant. Completion is in order and `cq_depth >= sq_depth`.
- QueuePair: the epoll wait before a receive and the logging are not modelled.
- BlockPoolRef: one destroy and clients that free only blocks they hold.
- Mempool.Mempool.AllocOneNeedMulti: once the scan has gone past the last bit the model stops, because what the code then reads and marks is outside the bitmap.
- Mempool.Mempool.Create: the reference count of the mempool itself is not modelled; mappings of 2^31 mempool blocks and more (8 TB), whose number does not fit an int, are not modelled.
- Mempool.Mempool.AllocMem: a search without end is an outcome at which the model stops.
- AggPlan: the merge variants (drv/hisi_dae.c:157-178, 286-299, 371-378) and the key buffers of a request are not modelled.
- AggPlan: aggregates are an arbitrary evaluation function of operation, column description and column, of which counting reads no type and only 64-bit decimal sums read the sum choice; the arithmetic of the device is not modelled.
- BlockManager.PoolInit: with 2^32 - 7 blocks and more the bitmap's size wraps, and the model stops at that.
- BlockManager.Pool.MemFree: where a leftover length reaches past the last block, the code goes on behind its arrays; the model ends at the last block.
- SglCopy: the direction from a flat buffer into a chain (drv/hisi_qm_udrv.c:1082-1112) is not an inverse of the read direction and is not modelled.
- SglCopy.CopyOut: after the write that passes the requested size the code goes on from a wrapped position; the model stops at that write. Where leftovers and data together exceed 2^64 bytes the starting place is computed as in the code but not characterised, and what an entry nobody filled holds is not modelled.
- SchedTable: the lock between lookup and insertion is taken twice in the source; the model runs one call at a time. Chain-length statistics, hungry polling, load accounting and session caches are not modelled.
- CtxTable.FillCtxTable: fresh tables only; refilling a table whose sizes changed is not modelled.
- StoreBuffer: streams with flat output, the only ones `wd_do_comp_strm` accepts; the list path of `copy_to_out`, the input side, retries of an empty receive and the end flag left over for a following stream are not modelled.
- Sm2: elliptic-curve arithmetic and the hash are not modelled; messages shorter than 2^32 blocks have distinct counters, longer ones wrap as in the source.
- BigNumber: dst and src are one array or two; partial overlap is not modelled. With two arrays and equal sizes the source copies nothing, and so does the model.
- DaeHashTable: the contents written to the tables are not modelled; addresses do not wrap; the floating-point logarithm is the integer one.
- Null-pointer checks, locks, logging, sysfs, dlopen, ioctl, mmap, shared memory, NUMA discovery and the per-algorithm wrappers (wd_cipher.c, wd_digest.c, wd_aead.c, wd_rsa.c, wd_dh.c, wd_ecc.c, wd_udma.c, wd.c) would only add easy members.
- Session states of wd_agg.c and wd_join_gather.c, and the Huffman tables of drv/hisi_comp_huf.c.
