# CudaBridge, verified

CudaBridge presents a GPU behind a Thunderbolt link to CUDA programs. Most of it is a simulated driver
stack; this project models the parts that carry real algorithms over mutable state and proves what they
keep. It needs Dafny 4.11: `dafny verify dfyconfig.toml` checks everything.

Each component comes twice. A *specification* gives the state as a value and each operation as a function
on it, and its theorems are about every state or every run. A *class* has the fields, arrays, linked nodes
and loops of the C code, and each of its methods is proved to take the specified old value to the specified
new one. Outcomes the code cannot know (a failing host allocation, a hardware step) are parameters, so
each theorem holds for every pattern of failures.

| component | source | specification and theorems | class |
|---|---|---|---|
| pool allocator | `memory_manager.c` | `Extents`, `PoolSpec`, `PoolInvariant`, `PoolTheorems` | `BlockList`, `MemoryPool` |
| memory manager | `memory_manager.c` | `ManagerSpec`, `ManagerCounts` | `MemoryManager` |
| CRC-32 | `egpu_safety.c` | `Crc32`, `Crc32Theorems`, `Crc32Period` (with `Divisibility`) | `CrcTable` |
| eGPU connection | `egpu_safety.c` | `EgpuSpec`, `EgpuTheorems` | `EgpuManager` |
| device memory | `nvidia_gpu.c` | `GpuSpec`, `GpuTables`, `GpuFlat`, `GpuAccounting`, `GpuOutcomes` | `GpuContext` |
| CUDA runtime | `cuda_runtime.c` | (steps of `GpuSpec`) | `CudaRuntime` |
| DMA splitting | `pcie_tunnel.c` | `DmaTransfer` | `DmaTransfer` |
| Python arrays | `cudabridge_python.c` | `PyArraySpec` | `PyArrays` |

The main results:

* **Pool.** In every run the free and used blocks tile the pool. The free list is canonical, so it is a
  function of the live ranges alone: the order of frees does not matter, freeing undoes allocating, an empty
  pool is one block. A refused request bounds the fragmentation.
* **CRC-32.** The table loop computes the bit-serial register of section 8 of RFC 1952. Any two equal-length
  buffers that differ only within 32 consecutive bits have different checksums. Two flipped bits are missed
  exactly when their distance is a multiple of 2^32 - 1, because the register has exactly that period; for the
  same reason zero bytes put before any data change its checksum unless their number is a multiple of 2^32 - 1.
* **Connection.** For every pattern of hardware failures, connect and recovery terminate within the retry
  limit, and the state never lies about the link as long as connect is called while the link is down,
  recovery while it is up or out of retries, and shutdown not in an error state over a live link. These
  conditions are exact (`StepSafe`): any other call breaks the state for some pattern of failures.
* **Device memory.** The record tables of all GPUs together refine a flat address-to-byte memory over every
  run; addresses are never reused; VRAM accounting is stated for each kind of caller.
* **Arrays.** Uploading two matrices, multiplying and downloading gives the left-to-right sums of products,
  through the real loops, copies and tables, whenever there is room on the device. Results are operands
  again: A * B + D on the device. After every call the usage counters are exact for the live handles, and
  every live handle has a device record of its own. The loops of the matrix product and of the element-wise
  operations check each access against its buffer here, and leaving one is an outcome of its own, a fault: it
  is proved exactly when that happens, in terms of the shapes and sizes the caller passes.

Where the code does less than its documentation suggests, the code is modelled and the difference is proved:

* `pool_alloc` charges the aligned request and `pool_free` refunds the block (`memory_manager.c:264`, `:294`),
  so `used_size` is exact only while no block with slack was handed out whole (`UsageDrift`,
  `UsageDriftExample`), and `cb_mem_get_info` inherits the drift (`MemInfoDrift`).
* `cb_free_managed` erases as many bytes of the host buffer as the block has, while the buffer is as long as
  the request (`memory_manager.c:522`, `:566`). The erasure stays inside the buffer exactly when the request is
  whole pages and the first fit is split or fits exactly (`ErasureInBounds`).
* The managed pool starts 4 GB below the device pool of device 0 and is half as large as device memory, so
  beyond 8 GB the two pools share addresses (`InitialApart`), and a managed block can have the GPU address of
  a live device block (`SameAddressTwice`).
* The free functions of the memory manager do not check which pool a block came from. Freeing by the wrong
  one always breaks the manager's invariant (`MatchingFreeNeeded`), because the pool the block came from loses
  it (`OwnPoolBreaks`). The pool it is freed into survives exactly when the block was first on the other used
  list and both used lists cover the same addresses with as many blocks (`ReceiverSurvives`). On a 24 GB
  device that happens, and a live device block is forgotten in silence (`ForeignFreeUnnoticed`).
* `cudaFree` describes device memory with kind 0 (`cuda_runtime.c:560`), so VRAM is never given back on that
  path (`RuntimeAccounting`): one byte costs a page for good (`OneByteCostsAPage`).
* A request within a page of 2^64 rounds up to zero bytes in `nv_gpu_alloc_memory`, and the next request gets
  the same address (`WrappedRequestRepeatsAddress`).
* `egpu_connect` on a live link, and `egpu_try_recovery` on a dead one with a retry left, can leave the state
  contradicting the link (`ConnectSafe`, `RecoverSafe`). `egpu_safety_shutdown` in an error state leaves the
  link up, and the next `egpu_safety_init` reports it disconnected (`ShutdownSafe`, `StrandedLink`).
* A recovery by hard reset clears the retry count and keeps the error counters (`egpu_safety.c:576-586`), so the
  next tick starts it again: the retry limit does not bound the recoveries of one link (`HardResetForever`).
* Improving metrics do not promote a degraded link (`DegradedIsSticky`); only metrics bad enough for a
  recovery that then succeeds do (`DegradedPromotion`).
* The byte count of an upload is a 64-bit product. When it wraps, the upload succeeds with too small a buffer,
  and a loop over the elements leaves it (`LoopInBounds`, `WrappedUpload`).
* The element count of a matrix product is a 64-bit product too (`cudabridge_python.c:375`), and the loops trust
  the shapes. They stay inside their buffers exactly when nothing is computed or that product does not wrap
  and the operands have the elements their shapes ask for (`ProductInBounds`); `WrappedProduct` is a pair of
  one-element arrays whose product is written past 8 bytes.
* The bounds test of the device copies adds two 64-bit words (`nvidia_gpu.c:574`); it is right exactly when the
  sum does not wrap (`TestRight`, `WrappedTestPasses`).
* A DMA transfer that starts off a 256-byte boundary crosses 4 KB boundaries as soon as it spans one
  (`CrossingFree`).
* A host pointer allocated while the tracking table is full is dropped without notice (`TrackThenFree`).

Modelling notes. Machine words are integers; where a wrap can happen it is written out (`Words.Wrap`).
Counters that cannot reach 2^64 under the stated configuration are kept unbounded or proved not to wrap.
Blocks, channels, handles, backing stores and tables are objects and arrays with the code's fields. Ghost
fields hold the abstract value next to the heap, and `Valid()` ties the two together.

## Model

| member | source | states |
|---|---|---|
| Words.AlignUpCorrect | src/cuda/memory/memory_manager.c:33 | rounding up to a page overflows exactly when the request is within a page of the word size, and the code's own test detects exactly that |
| Words.MaskedAlignUp | src/cuda/memory/memory_manager.c:33 | for every power of two up to 2^64 masking with ~(align - 1) is dropping the remainder |
| Extents.CanonicalUnique | src/cuda/memory/memory_manager.c:296-343 | two canonical lists that cover the same addresses are equal |
| PoolSpec.FirstFit | src/cuda/memory/memory_manager.c:220-224 | the block found fits, and none before it does |
| PoolSpec.InsertPos | src/cuda/memory/memory_manager.c:296-302 | everything before the position starts lower, what follows does not |
| PoolInvariant.ReleaseCanonical | src/cuda/memory/memory_manager.c:296-343 | inserting a block clear of the free list and coalescing both ways keeps the list sorted, disjoint and without touching blocks |
| PoolInvariant.AllocKeepsInv | src/cuda/memory/memory_manager.c:210-274 | allocation keeps tiling, canonical form, block count and accounting, whether or not the node for a remainder can be had |
| PoolInvariant.FreeKeepsInv | src/cuda/memory/memory_manager.c:279-344 | freeing any live block keeps them |
| PoolInvariant.RunKeepsInv | src/cuda/memory/memory_manager.c:142-344 | in every state reached by any run the blocks tile the pool exactly, the free list is canonical, starts are page-aligned, counts agree |
| PoolInvariant.LiveStartsDistinct | src/cuda/memory/memory_manager.c:256-261 | no two live blocks start at one address |
| PoolTheorems.FreeListDetermined | src/cuda/memory/memory_manager.c:296-343 | two pools with the same live ranges have the same free list |
| PoolTheorems.BytesDetermined | src/cuda/memory/memory_manager.c:296-343 | two lists of disjoint blocks that cover the same addresses have as many bytes |
| PoolTheorems.NothingLive | src/cuda/memory/memory_manager.c:142-162 | with nothing live exactly one block spans the pool |
| PoolTheorems.FreeReaches | src/cuda/memory/memory_manager.c:279-344 | freeing a block leads to the unique state with one live block less |
| PoolTheorems.FreeKeepsLive | src/cuda/memory/memory_manager.c:279-344 | freeing an address takes the block there, and no other, off the used list; an address without a block changes nothing there |
| PoolTheorems.AllocThenFree | src/cuda/memory/memory_manager.c:210-344 | allocating and freeing restores both lists and the block count; the usage counter is short by the slack |
| PoolTheorems.FreeOrderIrrelevant | src/cuda/memory/memory_manager.c:279-344 | freeing the same blocks in any order gives the same pool state |
| PoolTheorems.GrantIsLowestFit | src/cuda/memory/memory_manager.c:220-270 | the block granted is the lowest-addressed one that fits; with a node for the remainder it wastes less than two pages |
| PoolTheorems.FreeAtMostUsedPlusOne | src/cuda/memory/memory_manager.c:296-343 | free blocks never outnumber live blocks by more than one |
| PoolTheorems.RefusalBound | src/cuda/memory/memory_manager.c:210-274 | a refused request means at most (live blocks + 1) x (aligned size - 1) bytes are free |
| PoolTheorems.SlackOfRun | src/cuda/memory/memory_manager.c:226-264 | the slack recorded is the sum over all grants of the run |
| PoolTheorems.UsageDrift | src/cuda/memory/memory_manager.c:264-294 | the usage counter is the live bytes less all slack ever granted, modulo 2^64; it is exact exactly when that slack is a multiple of 2^64 |
| PoolTheorems.UsageDriftExample | src/cuda/memory/memory_manager.c:264-294 | one byte allocated and freed in a two-page pool leaves the counter wrapped below zero and more bytes reported free than exist |
| BlockList.Link | src/cuda/memory/memory_manager.c:304-315 | relinking two neighbours inserts the node at its place in the doubly linked list |
| BlockList.Unlink | src/cuda/memory/memory_manager.c:282-290 | relinking two neighbours removes the node from the doubly linked list |
| MemoryPool.Pool.constructor | src/cuda/memory/memory_manager.c:142-162 | pool_init: one free block spans the pool |
| MemoryPool.Pool.SearchFit | src/cuda/memory/memory_manager.c:216-271 | the loop of pool_alloc stops at the first fit, with its predecessor |
| MemoryPool.Pool.Grant | src/cuda/memory/memory_manager.c:224-266 | splitting when more than a page is left and relinking implements the specified grant |
| MemoryPool.Pool.Alloc | src/cuda/memory/memory_manager.c:210-274 | pool_alloc takes the abstract pool to `PoolSpec.Alloc`, puts the block first on the used list, and fails exactly when nothing fits |
| MemoryPool.Pool.SearchPosition | src/cuda/memory/memory_manager.c:296-302 | the loop of pool_free finds both neighbours in address order |
| MemoryPool.Pool.Merge | src/cuda/memory/memory_manager.c:321-330 | absorbing the next node joins the two ranges |
| MemoryPool.Pool.InsertFree | src/cuda/memory/memory_manager.c:296-343 | insertion and both merges implement the specified release |
| MemoryPool.Pool.Free | src/cuda/memory/memory_manager.c:279-344 | pool_free takes the abstract pool to `PoolSpec.Free`, and ignores null and unallocated blocks |
| ManagerSpec.FindManaged | src/cuda/memory/memory_manager.c:707-715 | the block found has this host or GPU address, and none before it does |
| ManagerSpec.RunAccounting | src/cuda/memory/memory_manager.c:349-580 | over every run with matching frees total_allocated is the live bytes of both pools, peak_allocated their maximum over the run, allocations less frees the live blocks, and nothing wraps |
| ManagerCounts.RunCounts | src/cuda/memory/memory_manager.c:349-580 | over every run with matching frees the two call counters grow by exactly the mallocs and the frees that report success |
| ManagerSpec.MallocThenFreeDevice | src/cuda/memory/memory_manager.c:349-400 | a device pointer just handed out is found at the head of its list, and freeing it restores the lists and the byte count |
| ManagerSpec.FailedManagedRestores | src/cuda/memory/memory_manager.c:516-527 | a managed allocation without host memory leaves all lists and statistics as they were; the pool counter is short by the slack |
| ManagerSpec.MemInfoDrift | src/cuda/memory/memory_manager.c:665-679 | the free size reported is the free bytes plus all slack ever granted, modulo 2^64, and right exactly when that slack is a multiple of 2^64 |
| ManagerSpec.ErasureInBounds | src/cuda/memory/memory_manager.c:516-572 | the block granted is never shorter than the host buffer, and no longer exactly when the request is whole pages and the first fit is split or fits exactly |
| ManagerSpec.GrantedSize | src/cuda/memory/memory_manager.c:226-250 | the block granted is cut to the rounded request exactly when more than a page is left over and a node can be had, and is the first fit as it stands otherwise |
| ManagerSpec.MatchingFreeNeeded | src/cuda/memory/memory_manager.c:349-580 | a call with sizes below the word size keeps the invariant exactly when it does not free a pointer by the function of the other pool |
| ManagerSpec.OwnPoolBreaks | src/cuda/memory/memory_manager.c:279-294 | a block freed into another pool is missing from its own: that pool's invariant always breaks |
| ManagerSpec.ReceiverSurvives | src/cuda/memory/memory_manager.c:279-344 | the pool it is freed into keeps its invariant exactly when the block was first on the other used list and both used lists cover the same addresses with as many blocks |
| ManagerSpec.ForeignFreeUnnoticed | src/cuda/memory/memory_manager.c:279-400 | with 24 GB, five calls leave the device pool in its initial state although its block was never freed |
| ManagerSpec.InitialInv | src/cuda/memory/memory_manager.c:45-107 | the manager starts in a state that satisfies the invariant |
| ManagerSpec.InitialApart | src/cuda/memory/memory_manager.c:60-88 | the device pool and the managed pool share no address exactly while half the device memory fits between their bases |
| ManagerSpec.SameAddressTwice | src/cuda/memory/memory_manager.c:684-715 | with 24 GB, three calls give a live device block and a live managed block one address, and looking the managed one up finds the device one |
| MemoryManager.Manager.constructor | src/cuda/memory/memory_manager.c:45-107 | both pools start with one free block, the statistics at zero, and everything is new |
| MemoryManager.Manager.MallocDevice | src/cuda/memory/memory_manager.c:349-375 | cb_malloc_device follows the specification, error codes included |
| MemoryManager.Manager.FindDevice | src/cuda/memory/memory_manager.c:684-696 | the list walk finds the first live block at the address |
| MemoryManager.Manager.FindManaged | src/cuda/memory/memory_manager.c:707-715 | the list walk finds the first live block with the host or GPU address |
| MemoryManager.Manager.FindBlock | src/cuda/memory/memory_manager.c:684-718 | cb_find_block searches the device pool first, then the managed pool |
| MemoryPool.Pool.FreeStray | src/cuda/memory/memory_manager.c:279-344 | pool_free, given a block of another pool, relinks as specified: the block enters this free list, and the head that moves is this pool's |
| MemoryManager.Manager.FreeDevice | src/cuda/memory/memory_manager.c:380-400 | cb_free_device follows the specification for every pointer; the manager stays in order exactly when the block is not a managed one |
| MemoryManager.Manager.MallocManaged | src/cuda/memory/memory_manager.c:503-547 | cb_malloc_managed follows the specification, hands out the host address, and gives the block back when host memory fails |
| MemoryManager.Manager.FreeManaged | src/cuda/memory/memory_manager.c:552-580 | cb_free_managed follows the specification for every pointer; the manager stays in order exactly when the block is not a device one |
| Crc32.ShiftLinear | src/egpu/egpu_safety.c:25-28 | one bit step is linear over exclusive or |
| Crc32.ShiftInjective | src/egpu/egpu_safety.c:25-28 | one bit step is injective |
| Crc32.FeedConcat | src/egpu/egpu_safety.c:666-668 | the register after a + b is the register after b started from that after a |
| Crc32.Streaming | src/egpu/egpu_safety.c:660-671 | the same for whole byte buffers |
| Crc32.FeedInjective | src/egpu/egpu_safety.c:666-668 | for one input, different registers stay different |
| Crc32.FeedLinear | src/egpu/egpu_safety.c:666-668 | the register is linear in start value and input together |
| Crc32.FeedWord | src/egpu/egpu_safety.c:22-31 | feeding up to 32 bits shifts the register combined with those bits |
| Crc32.EightSteps | src/egpu/egpu_safety.c:22-31 | eight bit steps are one table entry combined with the register moved down a byte |
| Crc32.FeedByte | src/egpu/egpu_safety.c:666-668 | one byte step by table equals eight bit steps, least significant bit first |
| Crc32Theorems.CrcOfCodeword | src/egpu/egpu_safety.c:660-671 | the checksum of any data followed by its own checksum in little-endian order is 0x2144DF1C |
| Crc32Theorems.CrcAffine | src/egpu/egpu_safety.c:660-671 | the checksum of the exclusive or of three equal-length buffers is the exclusive or of their checksums |
| Crc32Theorems.BurstDetected | src/egpu/egpu_safety.c:660-671 | two equal-length buffers that differ only inside a window of at most 32 bits have different checksums, at any position and length |
| Crc32Theorems.ByteChangeDetected | src/egpu/egpu_safety.c:660-683 | changing any one byte changes the checksum |
| Crc32Theorems.MissedExactly | src/egpu/egpu_safety.c:660-683 | two equal-length buffers have one checksum exactly when feeding their exclusive or to a zero register gives zero |
| Crc32Theorems.BurstBoundTight | src/egpu/egpu_safety.c:660-683 | at any place of any buffer a change within 33 consecutive bits, the generator, goes undetected |
| Crc32Period.SquareOfPower | src/egpu/egpu_safety.c:25-28 | squaring the register as a polynomial doubles the number of bit steps |
| Crc32Period.ReturnsExactly | src/egpu/egpu_safety.c:25-28 | the register returns to its starting place exactly after multiples of 2^32 - 1 bit steps |
| Crc32Period.TwoFlippedBits | src/egpu/egpu_safety.c:660-683 | two flipped bits at any places of any buffer keep the checksum exactly when their distance is a multiple of 2^32 - 1 |
| Crc32Period.LeadingZeros | src/egpu/egpu_safety.c:660-671 | zero bytes put before any data keep its checksum exactly when their number is a multiple of 2^32 - 1 |
| Crc32Period.CheckValue | src/egpu/egpu_safety.c:660-671 | the checksum of "123456789" is 0xCBF43926, that of no data is 0 |
| CrcTable.Table.InitTable | src/egpu/egpu_safety.c:22-31 | the loops fill entry i with eight bit steps of i |
| CrcTable.Table.Compute | src/egpu/egpu_safety.c:660-671 | the table loop returns the bit-serial checksum of the data, started at all ones (`CheckValue`, `LeadingZeros`) |
| CrcTable.Table.Verify | src/egpu/egpu_safety.c:673-683 | data is reported intact exactly when its bit-serial checksum is the expected one |
| EgpuTheorems.ConnectBound | src/egpu/egpu_safety.c:341-452 | one connect makes at most one tunnel attempt more than the retries left, and exactly that many when each fails |
| EgpuTheorems.RecoverBound | src/egpu/egpu_safety.c:538-595 | one recovery makes at most max_retry - retry_count attempts, those of its reconnect included |
| EgpuTheorems.ConnectFromDown | src/egpu/egpu_safety.c:341-452 | from a link that is down: the code returned is last_error, success means connected with both ends up |
| EgpuTheorems.RecoverFromUp | src/egpu/egpu_safety.c:538-595 | recovery from a link that is up keeps the invariant |
| EgpuTheorems.RunKeepsInv | src/egpu/egpu_safety.c:199-595 | over every run of connects, recoveries, disconnects, ticks, shutdowns and initialisations that are allowed in the sense of `StepSafe`, DISCONNECTED means both ends down, CONNECTED or DEGRADED both up with no error and no retry pending |
| EgpuTheorems.RunFromInit | src/egpu/egpu_safety.c:199-595 | the same for every run from initialisation |
| EgpuTheorems.ThermalTick | src/egpu/egpu_safety.c:203-271 | a tick reports a thermal shutdown exactly at or over the limit, and then ends disconnected without a new attempt, whatever the other metrics are |
| EgpuTheorems.StepSafe | src/egpu/egpu_safety.c:199-595 | for each call and each state that satisfies the invariant: the call keeps it for every pattern of failures exactly when it is allowed (connect with the link down, recovery with the link up or no retry left, shutdown not in an error state over a live link, all others always) |
| EgpuTheorems.ConnectSafe | src/egpu/egpu_safety.c:341-452 | connect keeps the invariant for every pattern of failures exactly when the link is down before the call; on a live link the absence of a device leaves DISCONNECTED over a link that is up |
| EgpuTheorems.RecoverSafe | src/egpu/egpu_safety.c:538-595 | recovery keeps the invariant for every pattern of failures exactly when the link is up before the call or no retry is left; otherwise a successful reset leaves CONNECTED over a dead link |
| EgpuTheorems.ShutdownSafe | src/egpu/egpu_safety.c:295-339 | shutdown, and initialisation after it, keep the invariant exactly unless the state is an error over a live link |
| EgpuTheorems.StrandedLink | src/egpu/egpu_safety.c:295-339 | a run with automatic recovery off that ends initialised, DISCONNECTED and with the link up |
| EgpuTheorems.DegradedIsSticky | src/egpu/egpu_safety.c:203-271 | with healthy metrics any number of ticks leaves a degraded link degraded |
| EgpuTheorems.DegradedPromotion | src/egpu/egpu_safety.c:203-271 | some pattern of outcomes leads a tick from DEGRADED to CONNECTED exactly when the metrics call for a recovery and retries are allowed |
| EgpuTheorems.DegradesExactly | src/egpu/egpu_safety.c:203-271 | a tick takes a connected link to DEGRADED, whatever the hardware does, exactly when the link error rate is over the threshold but not over ten times it, no error is uncorrected and the temperature is below the limit |
| EgpuTheorems.QuietTick | src/egpu/egpu_safety.c:203-271 | a tick with healthy metrics changes nothing |
| EgpuTheorems.ErrorsLeft | src/egpu/egpu_safety.c:203-271 | with automatic recovery off: exactly which metrics leave LINK_UNSTABLE, DATA_CORRUPTION or THERMAL_SHUTDOWN, and in which state |
| EgpuTheorems.RecoveryTried | src/egpu/egpu_safety.c:203-271 | with automatic recovery on: exactly which metrics start a recovery |
| EgpuTheorems.RefusedDevice | src/egpu/egpu_safety.c:127-155 | a device of another vendor or with less than 75 W is refused before any tunnel is tried, and the state it leaves depends on the policy |
| EgpuTheorems.ConnectOutcomes | src/egpu/egpu_safety.c:341-452 | connect case by case, by what detection, tunnel and GPU do: which fields change and what is returned |
| EgpuTheorems.RecoverOutcomes | src/egpu/egpu_safety.c:538-595 | recovery case by case: a link reset clears the error metrics, a hard reset keeps them, and both clear the retry count |
| EgpuTheorems.OtherOutcomes | src/egpu/egpu_safety.c:295-512 | disconnects, shutdown and initialisation: which fields change, the policy taken over included |
| EgpuTheorems.HardResetForever | src/egpu/egpu_safety.c:538-595 | when only hard resets work, a link with uncorrected errors is reset once a tick through any number of ticks |
| EgpuManager.Manager.SafetyInit | src/egpu/egpu_safety.c:295-322 | egpu_safety_init follows the specification |
| EgpuManager.Manager.SafetyShutdown | src/egpu/egpu_safety.c:324-339 | egpu_safety_shutdown follows the specification |
| EgpuManager.Manager.ConnectDevice | src/egpu/egpu_safety.c:341-452 | egpu_connect, with its recursion, follows the specification |
| EgpuManager.Manager.ForceDisconnectDevice | src/egpu/egpu_safety.c:489-512 | egpu_force_disconnect follows the specification |
| EgpuManager.Manager.SafeDisconnectDevice | src/egpu/egpu_safety.c:454-487 | egpu_safe_disconnect follows the specification |
| EgpuManager.Manager.TryRecovery | src/egpu/egpu_safety.c:538-595 | egpu_try_recovery follows the specification |
| EgpuManager.Manager.MonitorTick | src/egpu/egpu_safety.c:199-275 | one pass of the monitor loop follows the specification (`DegradesExactly`, `ErrorsLeft`, `RecoveryTried`, `ThermalTick` and `QuietTick` say what that is) |
| GpuSpec.IndexAt | src/driver/nvidia/nvidia_gpu.c:522-524 | the record found starts at the address, and none before it does |
| GpuSpec.TestRight | src/driver/nvidia/nvidia_gpu.c:573-574 | the test for a range is right exactly when offset + size is below 2^64, and it never refuses a range that fits |
| GpuSpec.WrappedTestPasses | src/driver/nvidia/nvidia_gpu.c:573-574 | offset 4096 and size 2^64 - 4096 pass the test on every longer record and do not fit |
| GpuSpec.IndexOf | src/driver/nvidia/nvidia_gpu.c:544-556 | the record found contains the address, and none before it does |
| GpuTables.IndexOfUnique | src/driver/nvidia/nvidia_gpu.c:544-556 | at most one record contains an address, so the first match is the right one |
| GpuTables.RunKeepsInv | src/driver/nvidia/nvidia_gpu.c:372-638 | over every run on any number of GPUs each table stays address-sorted and all records of the system are disjoint |
| GpuTables.AddressesNeverReused | src/driver/nvidia/nvidia_gpu.c:469-500 | the ranges granted over a run ascend without overlap, whatever was freed in between; every live record lies in one of them or was there before |
| GpuTables.WrappedRequestRepeatsAddress | src/driver/nvidia/nvidia_gpu.c:461-472 | a request within a page of the word size is granted zero bytes, and the next record gets the same address |
| GpuFlat.CoveredIffInside | src/driver/nvidia/nvidia_gpu.c:561-638 | a copy acts exactly when its device range lies inside one live allocation of that GPU |
| GpuFlat.WritePointwise | src/driver/nvidia/nvidia_gpu.c:561-582 | a copy to the device changes exactly the bytes of its range, in every record |
| GpuFlat.RunRefines | src/driver/nvidia/nvidia_gpu.c:372-638 | over every run of allocations, frees, copies and channel calls the tables deliver, read by read, what the flat memory holds |
| GpuFlat.RunFromEmpty | src/driver/nvidia/nvidia_gpu.c:372-638 | the same from power-on |
| GpuFlat.ReadAfterWrite | src/driver/nvidia/nvidia_gpu.c:561-608 | after a write every live range reads as before except for the bytes shared with the write |
| GpuFlat.DownloadAfterUpload | src/driver/nvidia/nvidia_gpu.c:561-608 | downloading what was uploaded gives the bytes back |
| GpuFlat.MoveCopies | src/driver/nvidia/nvidia_gpu.c:613-638 | a copy on the device leaves the source's bytes at the destination and the source as it was |
| GpuFlat.FreshReadsZero | src/driver/nvidia/nvidia_gpu.c:479-500 | a new allocation reads as zero, and granting it changes no other read |
| GpuAccounting.RunLedger | src/driver/nvidia/nvidia_gpu.c:463-541 | over every run free VRAM moves by credits less grants, live VIDEO bytes by grants less releases |
| GpuAccounting.RuntimeAccounting | src/cuda/runtime/cuda_runtime.c:507-569 | with the runtime's frees VRAM is never overcommitted or given back; a request is refused exactly when it and all earlier grants exceed the size; the count is exact exactly when no VIDEO byte was freed |
| GpuAccounting.GrantThenFree | src/driver/nvidia/nvidia_gpu.c:450-541 | a VIDEO allocation freed at once restores the table; free VRAM comes back exactly when the caller passes the VIDEO kind and the rounded size |
| GpuAccounting.OneByteCostsAPage | src/cuda/runtime/cuda_runtime.c:554-564 | one byte of VIDEO memory allocated and freed with kind 0 leaves free VRAM 4096 bytes short |
| GpuAccounting.FullRecordAccounting | src/driver/nvidia/nvidia_gpu.c:193-199 | when frees pass the full record, free VRAM plus live VIDEO bytes never changes |
| GpuAccounting.FreeKeepsOwned | src/driver/nvidia/nvidia_gpu.c:511-541 | a free keeps every channel's push buffer exactly when it does not name one |
| GpuAccounting.RunKeepsOwned | src/driver/nvidia/nvidia_gpu.c:372-445 | as long as no push buffer is freed, every live channel has one 1 MiB SYSTEM record at its base, shared with no other channel |
| GpuAccounting.OneRecordPerBase | src/driver/nvidia/nvidia_gpu.c:521-524 | two records at one base are the same record |
| GpuAccounting.CreateThenDestroy | src/driver/nvidia/nvidia_gpu.c:372-445 | creating and destroying a channel restores both tables and free VRAM |
| GpuAccounting.ShutdownReleasesAll | src/driver/nvidia/nvidia_gpu.c:181-199 | shutdown ends with both tables empty, releases every record and channel exactly once, and credits exactly the live VIDEO bytes |
| GpuOutcomes.AllocOutcomes | src/driver/nvidia/nvidia_gpu.c:450-506 | which requests fail and how, that a failure of the host takes the address all the same, and what a success adds |
| GpuOutcomes.FreeOutcomes | src/driver/nvidia/nvidia_gpu.c:511-541 | a free takes out the first record at the address and keeps the order of the others; the description passed is credited in any case |
| GpuOutcomes.UploadOutcome | src/driver/nvidia/nvidia_gpu.c:561-582 | after an upload the range reads back as the data, every byte outside it as before, in any table, sorted or not |
| GpuOutcomes.UploadMissed | src/driver/nvidia/nvidia_gpu.c:561-582 | an upload to a range that is not covered changes only the traffic |
| GpuOutcomes.DownloadOutcome | src/driver/nvidia/nvidia_gpu.c:587-608 | a download delivers a covered range and leaves the buffer alone otherwise |
| GpuOutcomes.MoveOutcome | src/driver/nvidia/nvidia_gpu.c:613-638 | a copy on the device acts exactly when both ranges are covered, and counts no traffic |
| GpuOutcomes.CreateOutcomes | src/driver/nvidia/nvidia_gpu.c:372-414 | a new channel is last, with 1 MiB of SYSTEM memory; the limits are 64 channels and 4096 records |
| GpuOutcomes.DestroyOutcome | src/driver/nvidia/nvidia_gpu.c:419-445 | destroying a channel takes out its entry and its push buffer and credits nothing |
| GpuOutcomes.RunTraffic | src/driver/nvidia/nvidia_gpu.c:561-608 | over every run the traffic counted is the bytes asked for in both directions, covered or not |
| GpuContext.ShiftDown | src/driver/nvidia/nvidia_gpu.c:535-537 | the shift loop removes one entry and keeps the order of the others |
| GpuContext.Context.AllocMemory | src/driver/nvidia/nvidia_gpu.c:450-506 | nv_gpu_alloc_memory follows the specification on arrays and stores, including the address taken and the refund when the host runs out |
| GpuContext.Context.FindContaining | src/driver/nvidia/nvidia_gpu.c:544-556 | nv_find_alloc_by_addr returns the first record that contains the address |
| GpuContext.Context.FreeMemory | src/driver/nvidia/nvidia_gpu.c:511-541 | nv_gpu_free_memory follows the specification, and the store of a removed record is all zero |
| GpuContext.Context.CopyToDevice | src/driver/nvidia/nvidia_gpu.c:561-582 | nv_gpu_memcpy_h2d follows the specification |
| GpuContext.Context.CopyToHost | src/driver/nvidia/nvidia_gpu.c:587-608 | nv_gpu_memcpy_d2h follows the specification and touches only the bytes asked for |
| GpuContext.Context.CopyOnDevice | src/driver/nvidia/nvidia_gpu.c:613-638 | nv_gpu_memcpy_d2d follows the specification, within one store or between two, unless memcpy is reached with ranges that overlap |
| GpuContext.Context.CreateChannel | src/driver/nvidia/nvidia_gpu.c:372-414 | nv_gpu_create_channel follows the specification |
| GpuContext.Context.DestroyChannel | src/driver/nvidia/nvidia_gpu.c:419-445 | nv_gpu_destroy_channel follows the specification, also for a channel that is not in the table |
| GpuContext.Context.Shutdown | src/driver/nvidia/nvidia_gpu.c:175-199 | the two draining loops terminate and reach the specified shutdown state |
| CudaRuntime.IndexIn | src/cuda/runtime/cuda_runtime.c:687-688 | the tracked entry found is the pointer, and none before it is |
| CudaRuntime.TrackThenFree | src/cuda/runtime/cuda_runtime.c:675-699 | a host pointer just handed out is tracked exactly when the table was not full, and freeing it restores the table |
| CudaRuntime.UntrackOutcome | src/cuda/runtime/cuda_runtime.c:685-699 | freeing takes out the first entry equal to the pointer and keeps the order of the others; a pointer that is not tracked changes nothing |
| CudaRuntime.MemsetOutcome | src/cuda/runtime/cuda_runtime.c:637-662 | every byte of a covered range becomes the value, every other byte stays |
| CudaRuntime.Runtime.Malloc | src/cuda/runtime/cuda_runtime.c:507-537 | cudaMalloc is one VIDEO allocation step, or an error |
| CudaRuntime.Runtime.FreeTracked | src/cuda/runtime/cuda_runtime.c:685-699 | takes exactly the first tracked entry equal to the pointer out of the table, keeps the others in order, and says whether there was one |
| CudaRuntime.Runtime.TrackHost | src/cuda/runtime/cuda_runtime.c:675-682 | appends the pointer unless the table is full |
| CudaRuntime.Runtime.MallocHost | src/cuda/runtime/cuda_runtime.c:704-722 | cudaMallocHost tracks the pointer and leaves the device alone |
| CudaRuntime.Runtime.Free | src/cuda/runtime/cuda_runtime.c:542-569 | cudaFree ignores NULL; a tracked host pointer is taken out of the table, one entry and no other, and the device left alone; anything else is a device free of kind 0 |
| CudaRuntime.Runtime.Upload | src/cuda/runtime/cuda_runtime.c:574-621 | cudaMemcpy to the device is one copy step, or an error |
| CudaRuntime.Runtime.Download | src/cuda/runtime/cuda_runtime.c:574-621 | cudaMemcpy to the host delivers the specified bytes |
| CudaRuntime.Runtime.CopyOnDevice | src/cuda/runtime/cuda_runtime.c:574-621 | cudaMemcpy on the device is one copy step, or an error, under the same condition |
| CudaRuntime.Runtime.Memset | src/cuda/runtime/cuda_runtime.c:637-662 | after cudaMemset of up to 1 GiB every byte of a covered range reads as the value and all others as before; an error changes nothing |
| CudaRuntime.Runtime.StreamCreate | src/cuda/runtime/cuda_runtime.c:786-831 | creating a stream is one channel step on device 0, or an error |
| CudaRuntime.Runtime.StreamDestroy | src/cuda/runtime/cuda_runtime.c:836-858 | destroying a stream destroys exactly its channel; a stream of a device that is not there is an error and destroys nothing |
| DmaTransfer.SplitAt | src/kernel/pcie/pcie_tunnel.c:590-620 | the number of transactions is the size over 256 rounded up, and each one's address, length and tag is given outright |
| DmaTransfer.SplitTiles | src/kernel/pcie/pcie_tunnel.c:590-620 | the transactions cover the range in order without gap or overlap |
| DmaTransfer.TagsDiffer | src/kernel/pcie/pcie_tunnel.c:600-612 | any 256 consecutive transactions carry different tags |
| DmaTransfer.CrossingFree | src/kernel/pcie/pcie_tunnel.c:590-620 | no transaction crosses a 4 KB boundary exactly when the start is 256-aligned or the transfer stays in one page |
| DmaTransfer.CrossesExactly | src/kernel/pcie/pcie_tunnel.c:590-620 | a range crosses a 4 KB boundary exactly when some multiple of 4096 lies strictly inside it |
| DmaTransfer.RefusedAddresses | src/kernel/pcie/pcie_tunnel.c:573-591 | a request of an allowed size is refused exactly when the host pointer is null or one of its ranges reaches the end of the address space; so no transaction sent wraps |
| DmaTransfer.Tunnel.Transfer | src/kernel/pcie/pcie_tunnel.c:566-630 | pcie_dma_transfer accepts exactly sizes from 1 byte to 1 GiB at addresses that do not wrap; it then sends the split of the request, advances the tag and counts each transaction; otherwise it sends nothing |
| PyArraySpec.LoopInBounds | src/python/cudabridge_python.c:122 | the byte count is the exact product, and a loop over all elements stays inside the buffer, exactly when the product is below 2^64 |
| PyArraySpec.WrappedUpload | src/python/cudabridge_python.c:122 | 2^61 + 1 doubles make a buffer of 8 bytes, and the second element lies outside |
| PyArraySpec.ProductInBounds | src/python/cudabridge_python.c:375-419 | every load and store of the product loops is inside its buffer exactly when nothing is computed or the element count does not wrap and both operands have the elements their shapes ask for |
| PyArraySpec.IndicesFit | src/python/cudabridge_python.c:396-416 | no 64-bit index of the product loops wraps while all accesses before it were inside their buffers |
| PyArraySpec.WrappedProduct | src/python/cudabridge_python.c:375-377 | shapes [2^63 + 1, 0] and [0, 2] get a buffer of 8 bytes, and every store from the second row on lies outside |
| PyArraySpec.PlaceOwned | src/python/cudabridge_python.c:107-142 | an upload that succeeds gets a record at an address no array had, and all records stay where they were |
| PyArraySpec.StepExact | src/python/cudabridge_python.c:144-186 | one upload or free of a live handle keeps the counters exact, and the clamp to zero is not needed |
| PyArraySpec.RunExact | src/python/cudabridge_python.c:107-189 | in every run that frees each handle at most once current usage is the sum of live sizes, peak usage its maximum, allocations less frees the live handles |
| PyArraySpec.RunCounts | src/python/cudabridge_python.c:107-189 | over every run the two call counters grow by exactly the arrays created and the arrays freed |
| PyArraySpec.Widths | src/python/cudabridge_python.c:25-39 | the width of each element type |
| PyArraySpec.PlaceOutcome | src/python/cudabridge_python.c:107-142 | an upload that succeeds holds the data and shows nowhere else; one that fails changes nothing readable |
| PyArraySpec.RoomExactly | src/python/cudabridge_python.c:107-142 | there is room for two or three arrays exactly when as many allocations in a row succeed |
| PyArraySpec.FreeKeepsOthers | src/python/cudabridge_python.c:169-189 | freeing one array leaves every range outside its record as it was |
| PyArraySpec.FlatIndex | src/python/cudabridge_python.c:396-416 | every row-major index lies inside its matrix |
| PyArraySpec.FlatInjective | src/python/cudabridge_python.c:396-416 | different places have different indices |
| PyArrays.InnerProduct | src/python/cudabridge_python.c:398-401 | the inner loop computes the sum of products from the left, starting with zero, or faults exactly when some load is outside a buffer |
| PyArrays.Multiply | src/python/cudabridge_python.c:389-419 | the nested loops fill every entry of the product, or fault exactly when the sizes are not in bounds |
| PyArrays.Zip | src/python/cudabridge_python.c:312-319 | the element loop applies the operation place by place, or faults exactly when a buffer is too short |
| PyArrays.Context.ToDevice | src/python/cudabridge_python.c:107-153 | cbpy_to_device succeeds exactly under its checks, the data is on the device, counters move, everything readable before is unchanged |
| PyArrays.Context.FromDevice | src/python/cudabridge_python.c:155-167 | cbpy_from_device delivers what a live array holds and changes no record |
| PyArrays.Context.LiveOnDevice | src/python/cudabridge_python.c:107-189 | every live array's memory is there, and no two live arrays have the same device address |
| PyArrays.Context.Free | src/python/cudabridge_python.c:169-189 | cbpy_free is one device free: no record is left at the array's address, every other live array holds what it held; the array is live no more, and usage falls by exactly its size |
| PyArrays.Context.BinaryOp | src/python/cudabridge_python.c:286-353 | element-wise operations succeed exactly when both arrays are on the device with the same count, type and shape, the type is not FLOAT16 (refused after both are fetched), the bytes suffice and memory can be had; they fault exactly when an operand has fewer bytes than its elements take; a refusal changes no record; the result holds the operation place by place and can be an operand again, operands are unchanged |
| PyArrays.Context.MatMul | src/python/cudabridge_python.c:355-428 | cbpy_matmul succeeds exactly for two-dimensional FLOAT32 or FLOAT64 arrays of one type whose inner dimensions are equal, within bounds and memory; other operands are refused and leave the device, the live arrays and the counters as they were; it faults exactly when the shapes and sizes are not in bounds; the result holds the product of the operands' contents and can be an operand again, operands are unchanged |
| PyArrays.Context.FitsSuffice | src/python/cudabridge_python.c:355-419 | operands with the bytes their shapes ask for and an element count below 2^64 never fault |
| PyArraySpec.ProductThenZip | src/python/cudabridge_python.c:312-416 | adding to a product entry by entry gives A * B + D |
| PyArraySpec.ProductElement | src/python/cudabridge_python.c:389-419 | element row*n+col of a product is the sum over t, from the left, of A[row*k+t] times B[t*n+col] |
| PyArraySpec.TimesIdentity | src/python/cudabridge_python.c:389-419 | with neutral elements, A times the identity matrix is A |
| PyArraySpec.IdentityTimes | src/python/cudabridge_python.c:389-419 | the identity matrix times B is B |
| PyArraySpec.PlusElement | src/python/cudabridge_python.c:286-428 | each element of A * B + D is the sum of products plus the element of D at its place |
| PyArraySpec.ZipElement | src/python/cudabridge_python.c:312-319 | each element of an element-wise result is the operation on the two elements at its place, as bytes |
| PyArrays.Context.MultiplyThenAdd | src/python/cudabridge_python.c:286-428 | a product added to a third array on the device holds A * B + D; it succeeds whenever the device has room for both results, and everything readable before, the product included, is unchanged |
| PyArrays.Context.CountDown | src/python/cudabridge_python.c:179-186 | freeing a live handle keeps the counters exact for the handles that remain; the clamp to zero is not taken |
| PyArrays.Context.UploadMultiplyDownload | src/python/cudabridge_python.c:107-428 | upload, multiply, download gives at row*n+col the sum over i of A[row*k+i] times B[i*n+col]; it succeeds whenever the device has room, and both operands stay on the device |
| PyArrays.Start | src/python/cudabridge_python.c:74-95 | power-on gives a context in order: empty tables, no array, all counters zero |
| PyArrays.Session | src/python/cudabridge_python.c:74-428 | from power-on, with VRAM for three arrays, the product of two host buffers arrives in a third without fail |

## Left out

- Platform code (IOKit, mach_vm, posix_memalign and wiring): host allocation is a parameter that may fail.
- Threads, mutexes and sleeps, `pthread_join`, monitor start and stop: operations are atomic calls and whole ticks. Interleaving a forced disconnect with a recovery is not modelled.
- Logging, log rotation, the command line, event timing, device property tables, registers, power and clock stubs: I/O or constants.
- What follows a free by the wrong function: after it the manager is out of order, and its next calls are not modelled.
- The pinned pool and its fallback block that joins no list.
- The bytes of managed host memory: the manager models addresses, sizes and counters. The manager's page table and flags are not part of this model.
- The width of `block_count` (32 bits) and of the Python counters: they are integers here.
- USB4 tunnels and PCIe configuration space: single-branch facts.
- Byte-enable and other constant header fields of a transaction, and the transport below it.
- Channel identifiers: they are reused after a destroy, so channels are told apart by object.
- Multi-device selection in the runtime: `CudaRuntime` works on one context, device 0. All contexts share the address counter, and the theorems of `GpuTables` and `GpuFlat` are about any number of them.
- Kernel launch (`launch_binary_kernel` is unused), streams as asynchrony, busy-waits: synchronous stubs.
- Float semantics: addition, multiplication and zero are opaque operations on elements of the right width.
- The checksum tag `cbpy_to_device` stores in a handle, which nothing compares; its clean-up after a failed copy, which cannot happen because device copies always report success.
- GpuSpec.Legal: assumes that a request rounds up to pages without overflow and that memcpy is not reached with ranges that overlap (it is undefined there); the address counter is unbounded, and offset + size does not wrap. `WrappedRequestRepeatsAddress` and `WrappedTestPasses` show what these exclude.
- GpuContext.Context.CopyOnDevice: requires that the ranges do not overlap when both are inside allocations, where the code calls memcpy.
- CudaRuntime.Runtime.CopyOnDevice: requires the same.
- PyArrays.Context.MatMul: a fault ends the model's run of the call, because the code's behaviour is undefined from there on; a buffer that `calloc` has found is taken to be at least a page smaller than the address space. Indices are not wrapped: before one could wrap, an access has left its buffer (`IndicesFit`).
- PyArrays.Context.BinaryOp: the same about a fault, and about the buffer that `malloc` has found.
- PyArrays.Context.Free: requires a live handle that is not also a tracked host pointer (`cudaFree` would take it for one).
- PyArrays.Context.ToDevice: assumes that a host buffer is at least a page smaller than the address space.
- CUDA error codes beyond those the modelled calls set, and their mapping in `src/userspace/lib/cudabridge.c`.
- The Python wrapper files, scripts and examples.
