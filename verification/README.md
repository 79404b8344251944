# Verified models of vLLM and vLLM-Ascend

The project models the parts of vLLM and its Ascend plugin that decide where things go: routed
tokens, physical memory, CPUs, tensor cells and padding. It also models the tool that keeps
commands in the documentation and in the test configuration the same. `dafny verify dfyconfig.toml`
checks all of it.

| modules | part of the system |
|---|---|
| `Dispatch`, `DispatchPlacement` | Mixture-of-experts dispatch: numbering of routed entries and running totals on the host, and where the kernel puts the entries. |
| `ChunkPlan`, `DeviceMemory`, `Allocator`, `SleepCycle` | Sleep-mode allocator, in its chunked (ROCm) form: chunk plan, create/map with rollback, release, allocation and free, and whole runs of allocating, sleeping, waking and freeing. |
| `CpuBinding`, `CpuAllocator`, `CpuMask` | Distribution of CPUs over NPUs and thread roles. |
| `MoeComm` | Choice of the collective for expert parallelism, and when ranks may skip agreeing on token counts. |
| `NzLayout` | Conversion of matrices to the fractal NZ layout. |
| `GraphSizes` | Selection of graph capture sizes within the stream budget. |
| `ForwardContext` | Padding and the MC2 token mask of a forward step. |
| `YamlPath`, `ServeCommand`, `ServeCompare`, `BlockExtract` | The documentation checker: target paths, `vllm serve` commands, sync blocks. |
| `Arith`, `Lists`, `Text` | Arithmetic, lists and text that the others share. |

Loops and objects that the code updates in place are methods and classes. Each is proved against a
specification, and the laws are proved about the specification.

## What the models take for granted

- **Driver.** The status of call number `n` is `statusOf(n)` and the address of a reservation made
  in call `n` is `placeOf(n)`; both are arbitrary, so a theorem holds for every pattern of failures.
  In addition the driver refuses illegal calls: mapping outside a reservation or over a mapping,
  setting access on a range that is not mapped throughout, unmapping or releasing what is not there,
  and giving back a range with mappings in it or with a size other than the reserved one. Created
  handles are not in use. The last rule, on sizes, is what `MyFree` and `MallocThenFree` depend on.
- **Exchange.** `DispatchPlacement.Exchanged` is what the notify kernel delivers: every sender's count
  for each expert of the receiver. The windows through which tokens travel keep the sender's numbering.
- **Division of floats.** Python's `/` followed by `floor`, `ceil` or `round` is exact over the reals.
- **Text.** White space and digits are those of ASCII. The two line patterns of the block extractor are
  arbitrary functions.
- **Machine.** Workers read the same affinity, NUMA and cpuset tables; only the visible NPUs differ.

## Where the code does not do what one might expect

Each of these is stated with the exact condition under which it happens, and all but the failed access
call and the second wake also at a concrete input.

- The dispatch kernel computes the offset of a token's row as an unsigned 32-bit product, and inputs that
  the op accepts reach the wrap-around (`AcceptedTokensPlaced`, `CrowdedIsMisplaced`). The other bounds
  are out of reach: the receive buffers are sized by a signed 32-bit integer (`DispatchIsBijection`) and the
  slots are right up to 2^32 (`SlotsAreBijection`), but the op's own limits keep every total far below
  (`AcceptedIsBijection`).
- A chunk size close to 2^64 makes the allocator divide by zero (`AlignUp64Zero`,
  `LargestChunkAlignsToZero`); one that only wraps the ceiling division gives an empty plan, so that
  the allocation fails (`PlanChunks`, `LargestChunkWraps`, `MyMalloc`).
- `my_free` passes the requested size on, `my_malloc` reserved the aligned one: the range is lost, and the
  error that is left makes the next allocation fail (`MallocThenFree`, `OneByteLeaks`,
  `MallocFreeMalloc`).
- `create_and_map` takes an error that is already pending for a failure of its first create and loses
  that handle, and does not roll back when the access call fails (`CreateAndMap`, `PendingErrorLeaks`).
- A refused Python callback leaves the reservation behind (`MyMalloc`, `RefusedCallbackLeaks`).
- Waking an allocation that is backed fails after its stored handles have been replaced (`WakeAgain`).
- Only equal CPU pools are divided between NPUs, so different pools can share a CPU
  (`WorkersNeverOverlapIff`, `WorkersCanOverlap`).
- The check that lets ranks skip the exchange asks for the main model's collective even for a draft
  model (`SkippingDraftRanksAgree`, `DraftRanksCanDisagree`), and caps the decode count that it looks at
  (`SkippingDecodeRanksAgree`, `DecodeRanksCanDisagree`).
- `update_aclgraph_sizes` fails with cleared sizes when fewer than two graphs fit
  (`UpdateAclgraphSizes`, `TwoSizesFail`).
- Without the context-parallel adjustment the padded length can exceed the mask buffer (`MaskFits`,
  `MaskIsShort`).
- The mask of a step is a view of a shared buffer that later steps write (`RunMasks`, `OlderViewChanges`).
- Quotation marks in a target path do not protect numbers and blanks (`PathRoundTrip`,
  `QuotedDigitIsPosition`).
- An option name with a blank in it can hide a difference (`ReportsAreRightIff`,
  `BlankInNameHidesDifference`).
- An unclosed block hides the block after it (`RenderedBlockHidden`, `OpenLineHidesBlock`).

Apart from these, the description of `select_moe_comm_method` mentions dynamic expert
balancing, and quantization for the fused form in general; the code looks at quantization only for mode 2
and never at balancing. `Select` follows the code.

## Model

| member | source | states |
|---|---|---|
| DispatchPlacement.DispatchIsBijection | vllm-ascend/csrc/torch_binding.cpp:670-716 | For any number of ranks and any routing tables, routed entries and reserved receive rows correspond one to one, nothing lost and nothing overwritten, if and only if every rank's total fits the signed 32-bit integer that sizes the buffers. |
| DispatchPlacement.SlotsAreBijection | vllm-ascend/csrc/moe_dispatch_normal/op_kernel/moe_dispatch_normal.h:492-511 | The slots that the kernels compute in unsigned 32-bit arithmetic from the stored totals are one to one with the entries if and only if no rank receives more than 2^32 entries. |
| DispatchPlacement.TokensArePlaced | vllm-ascend/csrc/moe_dispatch_normal/op_kernel/moe_dispatch_normal.h:483-522 | Every entry's hidden vector is written to a reserved row of its own if and only if, on every rank, the total fits and the last row starts below element 2^32. |
| DispatchPlacement.RowsArePlaced | vllm-ascend/csrc/moe_dispatch_normal/op_kernel/moe_dispatch_normal.h:511-521 | Rows of any width (hidden size, triples, scales) are written where they belong if and only if the last one starts below 2^32, because the offset is an unsigned 32-bit product. |
| DispatchPlacement.AcceptedIsBijection | vllm-ascend/csrc/moe_dispatch_normal/op_host/moe_dispatch_normal_tiling.cpp:293-441 | On every input that the op's host check accepts, entries and reserved rows correspond one to one without any condition on totals, triples and scales are written where they belong, and the size of the triple buffer does not overflow. |
| DispatchPlacement.AcceptedTotal | vllm-ascend/csrc/moe_dispatch_normal/op_host/moe_dispatch_normal_tiling.cpp:293-441 | On every accepted input a rank receives at most 65536000 entries. |
| DispatchPlacement.AcceptedTokensPlaced | vllm-ascend/csrc/moe_dispatch_normal/op_host/moe_dispatch_normal_tiling.cpp:413-442 | On accepted inputs the 32-bit row offset alone decides: tokens are placed right if and only if, on every rank, the last row starts below element 2^32. |
| DispatchPlacement.CrowdedIsMisplaced | vllm-ascend/csrc/moe_dispatch_normal/op_kernel/moe_dispatch_normal.h:521-521 | A concrete accepted cluster that fails: 75 ranks with 8000 tokens of 7168 elements each, all for expert 0, give rank 0 600000 rows, and row 599187 is written to element 5120. |
| DispatchPlacement.KernelIsModular | vllm-ascend/csrc/moe_dispatch_normal/op_kernel/moe_dispatch_normal.h:493-511 | Whatever the totals, each pair is copied completely and each token to its true position modulo 2^32, although totals are stored signed and read unsigned. |
| DispatchPlacement.ShareToOutput | vllm-ascend/csrc/moe_dispatch_normal/op_kernel/moe_dispatch_normal.h:492-525 | With a buffer that holds the total, the copy loops write every token to its true position and nothing behind the total. |
| DispatchPlacement.CopyBlock | vllm-ascend/csrc/moe_dispatch_normal/op_kernel/moe_dispatch_normal.h:493-524 | One pair: its tokens are written in order behind those of the pairs before, which stay. |
| DispatchPlacement.TargetIsPosition | vllm-ascend/csrc/moe_dispatch_normal/op_kernel/moe_dispatch_normal.h:493-504 | An entry's slot is its unbounded position modulo 2^32, and every entry is among the tokens that its pair copies. |
| DispatchPlacement.SlotsCollide | vllm-ascend/csrc/moe_dispatch_normal/op_kernel/moe_dispatch_normal.h:495-511 | Beyond 2^32 the entries at positions 0 and 2^32 of a rank are written to the same slot. |
| DispatchPlacement.LastEntryUnplaced | vllm-ascend/csrc/torch_binding.cpp:710-714 | Between 2^31 and 2^32 entries the slots are right, but the last entry lies beyond the rows that are reserved. |
| DispatchPlacement.PositionInBlock | vllm-ascend/csrc/torch_binding.cpp:674-686 | An entry lies in the block that belongs to its (local expert, source rank) pair, below the rank's total. |
| DispatchPlacement.PositionInjective | vllm-ascend/csrc/torch_binding.cpp:644-693 | Two different entries of any ranks never have the same rank and position, for totals of any size. |
| DispatchPlacement.PositionSurjective | vllm-ascend/csrc/torch_binding.cpp:644-693 | Every position below a rank's total is taken: the entry that takes it is constructed. |
| DispatchPlacement.HostArraysGiveTarget | vllm-ascend/csrc/torch_binding.cpp:644-710 | The arrays that the two host loops leave behind, on the sender and on the owner, are exactly those from which the kernel computes the entry's slot and the host the number of rows. |
| Dispatch.NumberEntries | vllm-ascend/csrc/torch_binding.cpp:645-660 | Each routed entry is numbered by the earlier entries of its rank for the same expert, and the accumulators hold each expert's total count. |
| Dispatch.RunningTotals | vllm-ascend/csrc/torch_binding.cpp:664-693 | From the received data alone: the total stored for local expert `e` and source rank `s` is the 32-bit image of everything sent to the experts before `e` and of what the ranks up to `s` send to `e`, its offset is the second number of that triple, and each expert has its own sum; the triple of `s` and `e` starts at `3 * (s * numLocalExperts + e)`. |
| Dispatch.ExpertTotals | vllm-ascend/csrc/torch_binding.cpp:675-692 | One local expert: the totals stay prefix sums through its source ranks, and its own sum is the increase of the total. |
| Dispatch.ReceivedRow | vllm-ascend/csrc/torch_binding.cpp:674-683 | Every received array has the visiting order that `RunningTotals` relies on: row `e` consists of the triples of local expert `e`, rank by rank, each at its place `3 * (s * numLocalExperts + e)`. |
| Dispatch.TransposedAt | vllm-ascend/csrc/torch_binding.cpp:677-683 | The field read at visit `localE * numRanks + srcRank` is element `3 * (srcRank * numLocalExperts + localE) + field` of the received data. |
| Dispatch.FromDataAlone | vllm-ascend/csrc/torch_binding.cpp:664-693 | Totals that are right in visit order are sums of elements of the received data. |
| DispatchPlacement.ExchangedCounts | vllm-ascend/csrc/torch_binding.cpp:620-642 | If the exchange delivers every sender's counts, the owner's loop runs over exactly the numbers of entries routed to its experts. |
| DispatchPlacement.VisitCounts | vllm-ascend/csrc/torch_binding.cpp:674-680 | The visit at which an entry is counted belongs to its rank and its expert, and counts all entries of that pair. |
| ChunkPlan.ConfiguredChunkSize | vllm/csrc/cumem_allocator.cpp:24-42 | The configured size is the parsed number of megabytes exactly when that is positive and fits 64 bits, and the default otherwise; it is always a positive whole number of megabytes. |
| ChunkPlan.LargestChunkAlignsToZero | vllm/csrc/cumem_allocator.cpp:366-370 | A concrete failing input: the largest chunk size that can be configured, with a granularity of two megabytes, aligns to zero, by which the next line divides. |
| ChunkPlan.LargestChunkWraps | vllm/csrc/cumem_allocator.cpp:369-370 | A concrete failing input: with a granularity of one megabyte the same chunk size cuts two megabytes into no chunks. |
| ChunkPlan.AlignUp64 | vllm/csrc/cumem_allocator.cpp:341-341 | The 64-bit formula is the least multiple of the granularity that covers the size whenever the sum does not wrap. |
| ChunkPlan.AlignUp64Zero | vllm/csrc/cumem_allocator.cpp:366-370 | The aligned chunk size, by which the next line divides, is zero if and only if adding the granularity wraps around. |
| ChunkPlan.NumChunksCeiling | vllm/csrc/cumem_allocator.cpp:369-370 | Without a wrap-around the number of chunks is the least that covers the aligned size. |
| ChunkPlan.NumChunksWraps | vllm/csrc/cumem_allocator.cpp:369-370 | With a wrap-around there are no chunks. |
| ChunkPlan.PlanChunks | vllm/csrc/cumem_allocator.cpp:369-391 | There are as many chunks as the division says; all but the last are whole chunks, the last is the rest, all are positive multiples of the granularity, and they add up to the aligned size, if and only if the ceiling division does not wrap; otherwise the plan is empty although memory is asked for. |
| ChunkPlan.PlanAllocation | vllm/csrc/cumem_allocator.cpp:366-391 | The same from the configured chunk size; whatever wraps, no chunk is empty and the chunks never exceed the reservation. |
| Allocator.Allocator.Check | vllm/csrc/cumem_allocator.cpp:63-74 | A failure is remembered in the global error code; a success never clears an older failure. |
| Allocator.Allocator.CreateChunks | vllm/csrc/cumem_allocator.cpp:150-159 | All handles are created fresh; or the first failing create is reported and the memory is as before exactly when every release of the rollback succeeds; with an older error pending, a successful first create loses its handle. |
| Allocator.Allocator.RollBackCreate | vllm/csrc/cumem_allocator.cpp:153-156 | Releasing the handles created so far restores the memory if and only if every release succeeds. |
| Allocator.Allocator.MapNext | vllm/csrc/cumem_allocator.cpp:162-164 | The driver accepts the next chunk's mapping, except where something is mapped already, so otherwise only the driver's own failure can stop the loop. |
| Allocator.Allocator.MapChunks | vllm/csrc/cumem_allocator.cpp:160-179 | All chunks end up mapped back to back; or the first failing map is reported and mappings and handles are all gone again exactly when no rollback call fails; onto a range that is mapped already the first map fails. |
| Allocator.Allocator.RollBackMap | vllm/csrc/cumem_allocator.cpp:165-176 | Undoing the first mappings and all handles restores the memory if and only if every call succeeds. |
| Allocator.Allocator.CreateAndMap | vllm/csrc/cumem_allocator.cpp:95-193 | For every pattern of driver failures: the first failing call decides the error; a failed create or map leaves the memory unchanged exactly when no rollback call fails; a failed access call leaves everything mapped, and the driver refuses that call exactly when the chunks do not fill the range; on a range that is mapped already the first map fails at the latest, after the stored handles have been replaced; with an error pending, the memory gains exactly the first handle unless its create fails. Reservations never change. |
| Allocator.PendingErrorLeaks | vllm/csrc/cumem_allocator.cpp:150-158 | A concrete run: with an error pending, the handle of a successful create stays live and unmapped. |
| DeviceMemory.AwakeAccess | vllm/csrc/cumem_allocator.cpp:182-187 | Access can be set on a freshly mapped range if and only if its chunks fill it. |
| Allocator.Allocator.UnmapChunks | vllm/csrc/cumem_allocator.cpp:216-226 | On any memory every chunk's unmap is tried at its own address, each call acts on what the ones before left, and the first failure is kept. |
| Allocator.Allocator.ReleaseHandles | vllm/csrc/cumem_allocator.cpp:228-233 | On any memory every release is tried, and an earlier failure is not overwritten. |
| Allocator.Allocator.ReleaseChunks | vllm/csrc/cumem_allocator.cpp:216-233 | The memory and the first error that both loops leave, for any memory and any failures. |
| Allocator.AwakeReleaseAll | vllm/csrc/cumem_allocator.cpp:216-233 | On a mapped allocation exactly what failed calls were for remains, and the first failing status is the error. |
| Allocator.AsleepReleaseAll | vllm/csrc/cumem_allocator.cpp:216-233 | On an allocation that is already released nothing changes, and the first unmap gives the error. |
| Allocator.Allocator.CycleReservation | vllm/csrc/cumem_allocator.cpp:240-255 | The four ways of giving a range back and reserving it again, each with the reservations it leaves and the error it reports. |
| Allocator.Allocator.UnmapAndRelease | vllm/csrc/cumem_allocator.cpp:195-261 | For any memory and every pattern of failures: the first error, the memory that remains, and that the range is cycled only if all unmaps and releases succeeded; a success keeps the range reserved at the same address. |
| Allocator.Allocator.MyMalloc | vllm/csrc/cumem_allocator.cpp:321-449 | It returns an address if and only if no error is pending, the callback accepts, the driver's place is free, none of the calls, whose number is that of the plan, fails and the plan does not wrap; the address then is a new range apart from everything else and completely backed by a plan of the aligned size. A refused callback leaves exactly the new reservation. Any other failure leaves the memory unchanged exactly when no clean-up call fails, except that a failed access call leaves everything mapped. |
| Allocator.Allocator.ReserveRange | vllm/csrc/cumem_allocator.cpp:336-353 | The range is reserved if and only if no error is pending, both calls succeed and the place is free; otherwise nothing changes and an error is left. |
| Allocator.Allocator.Back | vllm/csrc/cumem_allocator.cpp:425-448 | Backing a new reservation succeeds if and only if no call fails and the chunks fill the range; otherwise it is given back exactly when no clean-up call fails, unless the access call failed. |
| Allocator.Allocator.MyFree | vllm/csrc/cumem_allocator.cpp:452-560 | For every pattern of failures: a backed allocation is undone if and only if the requested size equals the aligned one, every unmap and release succeeds and the range is finally given back, and with a different size the range stays reserved for good; a sleeping allocation loses at most its range, exactly when the sizes agree and the last call succeeds, and leaves an error. After freeing a backed allocation no error is left if and only if none was pending, the sizes agree, no call fails and the driver offers the same place again. |
| Allocator.Allocator.FreeRange | vllm/csrc/cumem_allocator.cpp:452-560 | For any memory and every pattern of failures: the memory that is left after the releases, the cycling of the range and the final call; and no error is left if and only if none was pending, nothing failed to be released, the range was kept and the final call succeeded. |
| Allocator.MadeFreesCleanly | vllm/csrc/cumem_allocator.cpp:452-560 | Exactly when a free of a new allocation leaves no error, in terms of the sizes, the calls and the place offered again. |
| Allocator.RefusedCallbackLeaks | vllm/csrc/cumem_allocator.cpp:412-421 | A concrete run: one byte and a callback that refuses leave the range reserved. |
| Allocator.Allocator.MallocThenFree | vllm/csrc/cumem_allocator.cpp:321-560 | Without driver failures, allocating succeeds if and only if the place is free and the plan does not wrap; freeing again then leaves no trace if and only if the requested size is a multiple of the granularity, and no error if and only if moreover the same place is offered again. |
| Allocator.Allocator.MallocFreeMalloc | vllm/csrc/cumem_allocator.cpp:321-560 | Without driver failures, the allocation after such a free succeeds if and only if the free left no error and the next request meets the condition of the first one. |
| Allocator.OneByteLeaks | vllm/csrc/cumem_allocator.cpp:321-560 | A concrete run: one byte at a granularity of two megabytes, with a driver that never fails, is allocated and leaves its range reserved after the free. |
| Allocator.ReleasedIsBefore | vllm/csrc/cumem_allocator.cpp:216-233 | Releasing a freshly mapped allocation gives the memory from before if and only if no call fails. |
| Allocator.AwakeNotFree | vllm/csrc/cumem_allocator.cpp:434-436 | A range that still has mapped chunks cannot be given back, so the clean-up after a failed access call frees nothing. |
| DeviceMemory.NextMapLegal | vllm/csrc/cumem_allocator.cpp:160-163 | Chunks placed back to back never meet each other or anything else mapped, and stay inside the reservation. |
| DeviceMemory.UndoneRestores | vllm/csrc/cumem_allocator.cpp:165-176 | Undoing a batch of fresh entries call by call restores the table if and only if every call succeeds. |
| SleepCycle.RunKeepsLayout | vllm/csrc/cumem_allocator.cpp:95-560 | Over any run from the empty memory, with any allocations made, put to sleep, woken and freed in any order, a range stays reserved as long as its allocation is held, a sleeping range holds nothing, and a backed range always holds the same chunks at the same addresses. |
| SleepCycle.RunLeavesNothing | vllm/csrc/cumem_allocator.cpp:95-560 | When every allocation of a run has been freed, no reservation, handle or mapping is left. |
| SleepCycle.StepKeepsInv | vllm/csrc/cumem_allocator.cpp:95-560 | Every step keeps the invariant: reservations are those of the allocations that are held and these lie apart, a backed allocation owns distinct live handles mapped at its chunk addresses, and nothing else is mapped or live. |
| SleepCycle.RunKeepsInv | vllm/csrc/cumem_allocator.cpp:95-560 | The invariant holds in every state of every run from the empty memory. |
| SleepCycle.RunKeepsAllocations | vllm/csrc/cumem_allocator.cpp:95-560 | An allocation keeps its range and its chunks through a run, and a range that was given back is never used by it again. |
| SleepCycle.RangeContents | vllm/csrc/cumem_allocator.cpp:160-179 | In every reachable state the contents of a held range are exactly its chunks, or nothing while it sleeps. |
| SleepCycle.SleepingIsClear | vllm/vllm/device_allocator/cumem.py:238-241 | In every reachable state a sleeping allocation meets the preconditions of `CreateAndMap`: waking it again is always possible. |
| SleepCycle.ReservableAgain | vllm/csrc/cumem_allocator.cpp:240-244 | A released range can be given back and reserved again at the same address without meeting another allocation. |
| SleepCycle.PutToSleep | vllm/csrc/cumem_allocator.cpp:588-684 | The memory it leaves for every pattern of failures; the release is a sleep step of the run if and only if no driver call fails and the driver offers the same address again, and it is then reported as a success if and only if no error was pending; the error code is cleared either way. |
| SleepCycle.WakeUp | vllm/csrc/cumem_allocator.cpp:686-751 | It succeeds if and only if no error was pending and no driver call fails, and a success is a wake step of the run; the memory after each kind of failure; the error code is cleared either way. |
| SleepCycle.Allocate | vllm/csrc/cumem_allocator.cpp:321-449 | A successful allocation in any reachable world is an obtain step and then a wake step of the new allocation. |
| SleepCycle.Free | vllm/csrc/cumem_allocator.cpp:452-560 | Freeing a backed allocation of any reachable world is a sleep step and a drop step when the size is the reserved one, all releases succeed and the range is given back; with another size it is only the sleep step, and the range is lost. No error is left if and only if none was pending, the size is right, no call fails and the place is offered again. |
| SleepCycle.FreeSleeping | vllm/csrc/cumem_allocator.cpp:452-560 | Freeing a sleeping allocation is a drop step if and only if the size is the reserved one and the last call succeeds, and changes nothing otherwise; an error is left in any case. |
| SleepCycle.WakeAgain | vllm/vllm/device_allocator/cumem.py:238-241 | Waking an allocation that is backed always fails; the memory is unchanged exactly when no rollback call fails, but unless a create failed the stored handles are no longer those that back the chunks. |
| SleepCycle.SleepAgain | vllm/vllm/device_allocator/cumem.py:199-214 | Putting an allocation to sleep that sleeps already always fails and changes nothing, as long as its handles have not been given out again. |
| SleepCycle.BackedSplits | vllm/csrc/cumem_allocator.cpp:452-560 | In every reachable world a backed allocation is one that could have been made last, so what `MyFree` promises applies to it. |
| SleepCycle.SleepOutcome | vllm/csrc/cumem_allocator.cpp:216-259 | The exact condition under which releasing ends without an error, and that it then is a sleep step. |
| CpuBinding.WorkersAgree | vllm-ascend/vllm_ascend/cpu_binding.py:341-371 | Two workers that see the same machine but different NPUs, both finishing without an error, give every NPU that both see the same CPUs. |
| CpuBinding.WorkersNeverOverlapIff | vllm-ascend/vllm_ascend/cpu_binding.py:341-371 | The exact condition, over all workers of a machine, whatever they see: successful workers never bind different NPUs to one CPU if and only if, among the NPUs whose affinity meets the cpuset, extended pools with a common CPU are equal. |
| CpuBinding.NothingSharedIff | vllm-ascend/vllm_ascend/cpu_binding.py:360-369 | Grouping and dividing gives no CPU to two NPUs if and only if pools with a common CPU are equal. |
| CpuBinding.WorkersDoNotOverlap | vllm-ascend/vllm_ascend/cpu_binding.py:341-371 | For a single pair: two NPUs bound by two successful workers share no CPU if their extended pools are equal, or do not both hold it. |
| CpuBinding.WorkersCanOverlap | vllm-ascend/vllm_ascend/cpu_binding.py:360-369 | A concrete machine on which two successful workers bind the same CPU: their NPUs have different pools that share it, and only equal pools are divided. |
| CpuBinding.CandidatesOfSuccess | vllm-ascend/vllm_ascend/cpu_binding.py:341-356 | A worker that succeeds took exactly the NPUs into account whose affinity meets the cpuset, whatever is visible to it. |
| CpuBinding.BoundWithinCpuset | vllm-ascend/vllm_ascend/cpu_binding.py:341-371 | A worker binds its NPUs only to CPUs that its process may use. |
| CpuBinding.ExtendedContents | vllm-ascend/vllm_ascend/cpu_binding.py:218-230 | An extended list holds the list itself and, exactly when it lies on one NUMA node, the allowed CPUs of the next node; then it is sorted, otherwise it is the list as it was. Looking up a missing node inserts it. |
| CpuBinding.PoolsNoDuplicates | vllm-ascend/vllm_ascend/cpu_binding.py:218-230 | No extended pool lists a CPU twice if no affinity list does. |
| CpuBinding.SharedPoolDisjoint | vllm-ascend/vllm_ascend/cpu_binding.py:207-216 | NPUs that share a pool get disjoint parts of it. |
| CpuBinding.SharedPoolCovered | vllm-ascend/vllm_ascend/cpu_binding.py:207-216 | Every CPU of a shared pool goes to one of the NPUs that share it. |
| CpuBinding.BoundPoolIs | vllm-ascend/vllm_ascend/cpu_binding.py:207-216 | The CPUs of an NPU as indices of its sorted pool, from the number of candidates with that pool and of those before it. |
| CpuBinding.SharedPoolInOrder | vllm-ascend/vllm_ascend/cpu_binding.py:207-216 | Of two NPUs that share a pool, the first in the list gets the lower CPUs. |
| CpuBinding.WorkerPoolIs | vllm-ascend/vllm_ascend/cpu_binding.py:341-371 | The same for every visible NPU of any successful worker. |
| Lists.FilterInOrder | vllm-ascend/vllm_ascend/cpu_binding.py:343-350 | The candidates keep the order of the NPU list, with nothing added or left out. |
| CpuBinding.PartIs | vllm-ascend/vllm_ascend/cpu_binding.py:211-215 | The parts lie end to end; all have the same length except the last, which takes the remainder. |
| CpuBinding.SliceStep | vllm-ascend/vllm_ascend/cpu_binding.py:277-311 | Global slices lie end to end from the first CPU to the last, and their sizes differ by at most one. |
| CpuBinding.SlicesTile | vllm-ascend/vllm_ascend/cpu_binding.py:306-311 | Put end to end, the slices of all NPU ids are the sorted allowed CPUs. |
| CpuBinding.SlicesDisjoint | vllm-ascend/vllm_ascend/cpu_binding.py:246-253 | The slices of two NPU ids share no CPU. |
| CpuBinding.RolesInOrder | vllm-ascend/vllm_ascend/cpu_binding.py:373-378 | A pool of at least five CPUs is, end to end, two IRQ CPUs, the main CPUs, one ACL CPU and one release CPU. |
| CpuBinding.RolesPartition | vllm-ascend/vllm_ascend/cpu_binding.py:373-378 | In such a pool without duplicates every CPU has exactly one role. |
| CpuBinding.GlobalRolesUnique | vllm-ascend/vllm_ascend/cpu_binding.py:246-317 | Processes that share a cpuset and an NPU count, in whatever order they list the CPUs, never give one CPU to two NPUs or two roles. |
| CpuAllocator.CpuAlloc.ExtendNuma | vllm-ascend/vllm_ascend/cpu_binding.py:218-230 | It returns the specified extension or the missing-key error, and changes the NUMA table only by the key that the lookup inserts. |
| CpuAllocator.CpuAlloc.BuildTopoPools | vllm-ascend/vllm_ascend/cpu_binding.py:341-371 | It leaves exactly the pools that the agreement results are about, every visible NPU with the share of its pool that its place among the candidates with that pool says; or it fails with their error, leaving the extended pools of the candidates before the one that failed. |
| CpuAllocator.CpuAlloc.ExtendAll | vllm-ascend/vllm_ascend/cpu_binding.py:351-358 | The extended pools of all candidates with one evolving NUMA table, stored as they are built; the first failing NPU decides the error. |
| CpuAllocator.GroupByPool | vllm-ascend/vllm_ascend/cpu_binding.py:360-362 | Each pool is a key; its group has as many NPUs as candidates have that pool, and each stands behind those that come before it in the candidate list. |
| CpuAllocator.AverageDistribute | vllm-ascend/vllm_ascend/cpu_binding.py:207-216 | Each NPU of a group gets its part of the sorted pool, and no other NPU gets any. |
| CpuAllocator.FinalPools | vllm-ascend/vllm_ascend/cpu_binding.py:360-369 | After grouping and dividing, the NPU with `i` of the `n` candidates with its pool before it has part `i` of `n` of the sorted pool, or the pool as it is if it is alone. |
| CpuAllocator.CpuAlloc.BuildGlobalSlicePool | vllm-ascend/vllm_ascend/cpu_binding.py:246-317 | It fails exactly when a slice would have fewer than five CPUs or a visible id is out of range; otherwise each visible NPU gets the slice of its id. |
| CpuAllocator.CpuAlloc.Allocate | vllm-ascend/vllm_ascend/cpu_binding.py:373-385 | It fails if and only if some pool has fewer than five CPUs; otherwise, for every NPU, main are the CPUs from the third to the last but two of its pool, ACL the last but one, release the last; also after a failure every NPU has the roles of its pool or those it had before. |
| CpuAllocator.CpuAlloc.PlanGlobally | vllm-ascend/vllm_ascend/cpu_binding.py:246-385 | Once slicing succeeds, allocation cannot fail, and every visible NPU has its own slice as pool and main, ACL and release at the same places of it. |
| CpuMask.CpuToMask | vllm-ascend/vllm_ascend/cpu_binding.py:167-175 | Read as comma-separated groups of eight hexadecimal digits, the mask is the number with exactly the CPU's bit set, for CPUs of any size. |
| CpuMask.MasksDiffer | vllm-ascend/vllm_ascend/cpu_binding.py:167-175 | Different CPUs have different masks. |
| CpuMask.HexRoundTrip | vllm-ascend/vllm_ascend/cpu_binding.py:172-172 | Zero-padded hexadecimal digits read back to the number. |
| MoeComm.SelectIs | vllm-ascend/vllm_ascend/ascend_forward_context.py:254-309 | For every result (none, all-gather, all-to-all, MC2, fused MC2, unsupported) exactly the settings and token counts that give it. |
| MoeComm.SkipsIff | vllm-ascend/vllm_ascend/utils.py:1041-1096 | Exactly when the exchange is skipped, in terms of the single counts that must need MC2 instead of their largest and least. |
| MoeComm.SkippingRanksAgree | vllm-ascend/vllm_ascend/utils.py:1041-1096 | Ranks that skip the exchange of token counts choose the same collective for the main model for all counts within the checked bound; an MoE choice is an MC2 form, and if it is plain MC2 no rank exceeds the MC2 capacity. |
| MoeComm.SkippingDraftRanksAgree | vllm-ascend/vllm_ascend/utils.py:1046-1096 | For an MoE draft model the ranks agree if and only if the checked bound is within the MC2 capacity or the fused kernel, which drafts may not use, did not decide the check. |
| MoeComm.DraftRanksCanDisagree | vllm-ascend/vllm_ascend/utils.py:1058-1096 | A configuration in which two draft ranks skip the exchange and choose different collectives. |
| MoeComm.ChoicesAgreeIff | vllm-ascend/vllm_ascend/ascend_forward_context.py:254-309 | All token counts up to a bound get the same choice if and only if the bound is within the MC2 capacity or the settings do not change the choice there. |
| MoeComm.SkippingDecodeRanksAgree | vllm-ascend/vllm_ascend/utils.py:1064-1096 | Over all counts that decoding can reach, not only the capped one that is checked, skipping ranks agree if and only if these are within the capacity or the choice does not change there. |
| MoeComm.DecodeRanksCanDisagree | vllm-ascend/vllm_ascend/utils.py:1088-1096 | A configuration in which two main-model ranks skip the exchange and decode beyond the checked count with different collectives. |
| MoeComm.Mc2DownwardClosed | vllm-ascend/vllm_ascend/ascend_forward_context.py:254-309 | If a token count needs MC2, so does every smaller one, with the same choice. |
| NzLayout.NzIndexIs | vllm-ascend/vllm_ascend/utils.py:219-238 | Cell (r, c) of the zero-padded tensor is found at its place in blocks of 16 columns, for every shape, and the place determines the cell. |
| NzLayout.NzCellIs | vllm-ascend/vllm_ascend/utils.py:219-238 | Every position of the layout holds a tensor cell or a zero of the padding, so nothing is duplicated or invented. |
| NzLayout.NdToNzSpec | vllm-ascend/vllm_ascend/utils.py:241-251 | Filling a zero buffer and permuting it gives the same layout as padding, reshaping and transposing, for every shape. |
| NzLayout.FillPadded | vllm-ascend/vllm_ascend/utils.py:245-249 | The buffer is the tensor in its corner and zero elsewhere. |
| NzLayout.TransSucceeds | vllm-ascend/vllm_ascend/utils.py:1360-1381 | The unpadded conversion is accepted if and only if the shape is empty or a multiple of the block in both axes. |
| NzLayout.TransIndexIs | vllm-ascend/vllm_ascend/utils.py:1360-1381 | On aligned shapes every cell goes to its place in blocks of 16 columns, or of 32 for int8. |
| NzLayout.TransAgrees | vllm-ascend/vllm_ascend/utils.py:1360-1381 | Where the unpadded conversion succeeds on other types, its result is that of the padding conversion. |
| Arith.RoundUp | vllm-ascend/vllm_ascend/utils.py:188-195 | The result is a multiple of the alignment, not below the number and less than one alignment above it. |
| GraphSizes.WithinBudget | vllm-ascend/vllm_ascend/utils.py:483-567 | A number of graphs is within the computed maximum if and only if the streams it takes, with those kept back, stay within the limit. |
| GraphSizes.BudgetIs | vllm-ascend/vllm_ascend/utils.py:483-567 | The budget written out for AIV mode with and without experts and for the other mode: a dense model in AIV mode pays for one graph more. |
| GraphSizes.IndexNearest | vllm-ascend/vllm_ascend/utils.py:581-582 | Every sampled index is an integer nearest to its evenly spaced place. |
| GraphSizes.IndicesAscend | vllm-ascend/vllm_ascend/utils.py:581-585 | The sampled indices increase strictly from the first to the last, so no size is taken twice. |
| GraphSizes.SampleSizes | vllm-ascend/vllm_ascend/utils.py:579-587 | The sample has exactly the allowed number of sizes, in order, evenly spaced, with the first and the last. |
| GraphSizes.CompilationConfig.SetCaptureSizes | vllm-ascend/vllm_ascend/utils.py:443-472 | It is refused if and only if sizes are set and their declared maximum disagrees, and then changes nothing. |
| GraphSizes.CompilationConfig.UpdateAclgraphSizes | vllm-ascend/vllm_ascend/utils.py:475-606 | It fails, with the sizes cleared, if and only if there are more sizes than allowed and fewer than two are allowed; otherwise the kept sizes stay within the stream budget and are the original ones or an ordered sample with both ends. |
| GraphSizes.OneGraphFits | vllm-ascend/vllm_ascend/utils.py:523-577 | With 126 layers and 61 draft layers on two times eight ranks the stream budget allows exactly one graph. |
| GraphSizes.TwoSizesFail | vllm-ascend/vllm_ascend/utils.py:579-587 | A concrete failing setup: 126 layers and 61 draft layers on two times eight ranks allow one graph, so that two sizes are lost. |
| ForwardContext.RanksPadAlike | vllm-ascend/vllm_ascend/ascend_forward_context.py:133-178 | With padding on, all ranks that know the group's counts pad to one length: the least multiple of the TP size that no rank exceeds. |
| ForwardContext.Runner.BuildV1 | vllm-ascend/vllm_ascend/ascend_forward_context.py:116-184 | The context of a step satisfies its declarative description, and the shared buffer afterwards is the old one with the step's mask written over it. |
| ForwardContext.Runner.BuildV2 | vllm-ascend/vllm_ascend/platform.py:743-779 | The second runner's context and buffer satisfy the same description, for a main model without a separate actual count. |
| ForwardContext.Runner.Run | vllm-ascend/vllm_ascend/ascend_forward_context.py:116-184 | Over any list of forward steps every step has its context on the buffer that the steps before it left, and the final buffer is that of all their masks in order. |
| ForwardContext.RunMasks | vllm-ascend/vllm_ascend/ascend_forward_context.py:179-184 | In any run of forward steps each step hands out exactly the mask of its own tokens, and the view it handed out still shows that mask at the end if and only if the later steps agree with it on the positions they are the last to cover. |
| ForwardContext.ViewIsOwnMask | vllm-ascend/vllm_ascend/ascend_forward_context.py:179-184 | The same for mask steps: a condition on the padded and actual counts of the later steps that is equivalent to the older view being intact. |
| ForwardContext.LaterAgreeIs | vllm-ascend/vllm_ascend/ascend_forward_context.py:179-184 | The condition on the counts is equivalent to agreement of the buffer with the mask, position by position. |
| ForwardContext.RunnersAgree | vllm-ascend/vllm_ascend/platform.py:743-779 | For such steps the two runners build the same context. |
| ForwardContext.ContextIsUnique | vllm-ascend/vllm_ascend/ascend_forward_context.py:116-184 | The description leaves no freedom: input and buffer determine the context. |
| ForwardContext.ContextIs | vllm-ascend/vllm_ascend/ascend_forward_context.py:116-165 | When sequence parallelism is on (any known count with experts, above 1000 tokens for a dense main model, never for a dense draft model), and that the padding completes the count to a multiple of the TP size, or to the least one that no rank of the group exceeds. |
| ForwardContext.LastCoveringStepDecides | vllm-ascend/vllm_ascend/ascend_forward_context.py:179-184 | At any position of the buffer the newest step that reached it decides; what none reached is unchanged. |
| ForwardContext.WriteMask | vllm-ascend/vllm_ascend/ascend_forward_context.py:181-183 | Two slice assignments through the view set the actual tokens, clear the padding and touch nothing behind it, also when the view is clipped. |
| ForwardContext.Runner.SetMc2TokensCapacity | vllm-ascend/vllm_ascend/ascend_forward_context.py:195-207 | The first call fixes the least multiple of the TP size that covers the largest decode batch; later calls change nothing. |
| ForwardContext.Runner.SetMc2Mask | vllm-ascend/vllm_ascend/ascend_forward_context.py:214-223 | The first call of an MoE model reserves a cleared buffer of the batch limit; later calls change nothing. |
| ForwardContext.MaskFits | vllm-ascend/vllm_ascend/ascend_forward_context.py:178-181 | The padded length of every batch fits the buffer if and only if the batch limit is a multiple of the TP size. |
| ForwardContext.MaskIsShort | vllm-ascend/vllm_ascend/ascend_forward_context.py:178-184 | A concrete failing step: ten tokens on four TP ranks, with a buffer for ten, get a mask shorter than their padded length. |
| ForwardContext.MaskIsFull | vllm-ascend/vllm_ascend/ascend_forward_context.py:178-184 | A step hands out a mask of its full padded length if and only if that fits the buffer. |
| ForwardContext.AdjustedMasksAreFull | vllm-ascend/vllm_ascend/ascend_config.py:91-99 | With the adjusted limit as buffer length, every step whose group stays within the limit hands out a mask of exactly its padded length. |
| ForwardContext.AdjustedIsMultiple | vllm-ascend/vllm_ascend/ascend_config.py:91-99 | The adjusted batch limit is the least multiple of TP times PCP that is not lower. |
| ForwardContext.OlderViewChanges | vllm-ascend/vllm_ascend/ascend_forward_context.py:179-184 | A concrete pair of steps: the mask of three tokens is no longer itself after a step with one. |
| ForwardContext.CeilDivIsRoundUp | vllm/vllm/utils/math_utils.py:10-12 | Floor division by the negated divisor rounds up. |
| YamlPath.ParseSegments | vllm-ascend/tools/check_docs_yaml_sync.py:312-363 | The character loop with its mutable lists and flags computes the segments, or the error, that the round trips are about. |
| YamlPath.PathRoundTrip | vllm-ascend/tools/check_docs_yaml_sync.py:312-363 | Writing any path of keys and positions in brackets and parsing it gives the path back if and only if every key is trimmed, not empty and not a number. |
| YamlPath.WrittenPathMeans | vllm-ascend/tools/check_docs_yaml_sync.py:312-363 | What any bracketed path parses to, or its first error: keys are trimmed, and quoted digits become positions. |
| YamlPath.KeyRoundTrip | vllm-ascend/tools/check_docs_yaml_sync.py:330-341 | A quoted key comes back as itself if and only if it is trimmed, not empty and not a number: quotation marks do not protect digits or blanks. |
| YamlPath.SpellingsAgree | vllm-ascend/tools/check_docs_yaml_sync.py:344-363 | The dotted spelling of plain names parses to these names, and their bracketed spelling parses alike if and only if every name is trimmed, not empty and not a number. |
| YamlPath.QuotedDigitIsPosition | vllm-ascend/tools/check_docs_yaml_sync.py:333-340 | A concrete failing key: a quoted digit is parsed as a position. |
| YamlPath.Resolve | vllm-ascend/tools/check_docs_yaml_sync.py:365-387 | The loop returns the node that the parsed segments lead to, or the first error. |
| YamlPath.ResolveRoundTrip | vllm-ascend/tools/check_docs_yaml_sync.py:365-387 | In every tree, resolving the written path of a node returns that node and nothing else. |
| ServeCommand.ParseTokens | vllm-ascend/tools/check_docs_yaml_sync.py:476-508 | The token loop computes the specified command or its first error. |
| ServeCommand.AcceptedAreSpelled | vllm-ascend/tools/check_docs_yaml_sync.py:488-502 | Accepted option tokens are always the spelling of parameters with distinct names. |
| ServeCommand.ParametersRoundTrip | vllm-ascend/tools/check_docs_yaml_sync.py:488-502 | Conversely every such spelling is accepted and gives the parameters back with normalized values. |
| ServeCommand.NamesDistinct | vllm-ascend/tools/check_docs_yaml_sync.py:488-502 | The names of a parsed command are options and occur once. |
| ServeCommand.CommandRoundTrip | vllm-ascend/tools/check_docs_yaml_sync.py:476-508 | A command spelled out with any model and any distinct parameters is parsed to these, with white space normalized. |
| ServeCommand.CommandsAreSpelled | vllm-ascend/tools/check_docs_yaml_sync.py:476-508 | Nothing else is accepted. |
| ServeCompare.ReportsAreRightIff | vllm-ascend/tools/check_docs_yaml_sync.py:476-571 | The exact condition: for all accepted commands over a set of option names the report is empty exactly when model and options agree, if and only if no option among them, followed by a blank and a normalized value, is another of the names. |
| ServeCompare.NothingReportedMeansEqual | vllm-ascend/tools/check_docs_yaml_sync.py:561-571 | For commands whose names are not confusable nothing is reported if and only if model and options agree, in any order. |
| ServeCompare.EqualReportsNothing | vllm-ascend/tools/check_docs_yaml_sync.py:561-571 | Equal commands report nothing, whatever their names and the order of their options. |
| ServeCompare.DifferencesAreExact | vllm-ascend/tools/check_docs_yaml_sync.py:561-571 | Taking away what is reported extra and adding what is reported missing turns one side into the other; nothing is reported if and only if the sides agree with multiplicity. |
| ServeCompare.ConfusedPair | vllm-ascend/tools/check_docs_yaml_sync.py:106-118 | For any two confusable names, two different accepted commands that report nothing. |
| ServeCompare.BlankInNameHidesDifference | vllm-ascend/tools/check_docs_yaml_sync.py:106-118 | A concrete pair of such names. |
| ServeCompare.EntryInjective | vllm-ascend/tools/check_docs_yaml_sync.py:106-109 | An entry determines its name and value unless the names are confusable. |
| Text.NormalFixed | vllm-ascend/tools/check_docs_yaml_sync.py:497-497 | Joining the words of a text with blanks leaves exactly those texts alone in which white space is single blanks between other characters. |
| Text.NormalizedKeepsWords | vllm-ascend/tools/check_docs_yaml_sync.py:497-505 | It keeps the words, and every character that is not white space, in order. |
| Text.StripIs | vllm-ascend/tools/check_docs_yaml_sync.py:257-257 | Stripping takes away the white space at both ends, all of it and nothing else. |
| BlockExtract.Extract | vllm-ascend/tools/check_docs_yaml_sync.py:200-276 | The blocks and the diagnostics are those of the ranges found, in order, and a document without a range has one diagnostic of its own. |
| BlockExtract.ScanBlock | vllm-ascend/tools/check_docs_yaml_sync.py:215-235 | The inner loop stops at the first fence and separates options from content. |
| BlockExtract.BodyIs | vllm-ascend/tools/check_docs_yaml_sync.py:219-239 | For any body: the leading option lines are the options, and the rest is the content, without its first line if that is blank. |
| BlockExtract.LastOptionWins | vllm-ascend/tools/check_docs_yaml_sync.py:224-228 | Of several lines for one option the last decides. |
| BlockExtract.OutcomeFromIs | vllm-ascend/tools/check_docs_yaml_sync.py:237-262 | What an unclosed block, one with missing options and a complete one yield, with the option names and defaults written out. |
| BlockExtract.JoinLinesIs | vllm-ascend/tools/check_docs_yaml_sync.py:257-257 | Content lines are joined by line breaks. |
| BlockExtract.RangesOrdered | vllm-ascend/tools/check_docs_yaml_sync.py:207-264 | Ranges are disjoint and increasing, start at opening lines and end at the first fence, so only the last can be unclosed. |
| BlockExtract.OpeningsCovered | vllm-ascend/tools/check_docs_yaml_sync.py:207-264 | No opening line is missed: it starts a range or lies inside one. |
| BlockExtract.RenderedBlockRoundTrip | vllm-ascend/tools/check_docs_yaml_sync.py:200-276 | A block with all required fields, written anywhere in a document, is extracted at its position, between the blocks of what is before and after it, with its line, fields and trimmed content, if everything opened before it is closed. |
| BlockExtract.RenderedBlockHidden | vllm-ascend/tools/check_docs_yaml_sync.py:219-239 | And only then: if something before it is left open, the block is not extracted. |
| BlockExtract.DocumentRoundTrip | vllm-ascend/tools/check_docs_yaml_sync.py:200-276 | A document of any number of written blocks gives back all of them in order, each with its line, and no diagnostic; only the empty document has one. |
| BlockExtract.OpenLineHidesBlock | vllm-ascend/tools/check_docs_yaml_sync.py:219-239 | A concrete failing document: one opening line in front of a complete block hides it. |
| BlockExtract.OutcomesConcat | vllm-ascend/tools/check_docs_yaml_sync.py:207-264 | Two documents put together yield what they yield on their own, the second with its lines moved, if the first is closed. |

## Left out

- The exchange kernel, HCCL, the windows through which tokens travel, quantization and the synchronization of cores in the dispatch kernel: its index arithmetic and copy order are modelled.
- The spare row that the host reserves on a rank that receives nothing.
- The non-ROCm form of the allocator and the Ascend allocator `camem_allocator.cpp`: the same steps for one chunk and without rollback loops.
- `ensure_context`: its failure appears in the models only as an error that is pending on entry.
- Failing host `malloc`, argument checks of the Python wrappers, a missing callback, and loop counters of type `int` for more than 2^31 chunks.
- CPU copies, tags and the pool bookkeeping of `cumem.py`: the contents of memory are not modelled, only what is mapped where.
- Failed releases and failed wakes that are not rolled back: `PutToSleep` and `WakeUp` state the memory they leave, but they are not steps of a run.
- SleepCycle.SleepAgain: released handles that the driver has given out again are excluded; `UnmapAndRelease` states that they would be released.
- SleepCycle.FreeSleeping: the same handles are excluded.
- SleepCycle.WakeAgain: is stated without a pending error; `CreateAndMap` states that case.
- Choice and fallback of the binding mode, parsing of `lscpu`, `npu-smi` and `/proc`, `taskset`, memory and IRQ files.
- CpuAllocator.CpuAlloc.Allocate: does not state which NPUs had their roles assigned before a failure, because that depends on the order of the pools.
- Leading batch axes of `trans_nd_to_nz` and element types other than whole numbers: one matrix is modelled.
- Rounding of floats in the graph sizes and paddings, `post_init_cudagraph_sizes` and logging.
- Fields of the forward context that have nothing to do with padding or the mask.
- Splitting of command text (`shlex`), loading of YAML, keys that are not text, and several targets for one block.
- Comparison of environment blocks: the same comparison of entries, without names to tell apart.
- Wording, sorting and merging of reports.
- White space and digits outside ASCII.
