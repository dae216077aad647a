# Verification of the startup library and drivers of a QNX board support package

This project models the parts of a QNX board support package that do more than move
register values, and proves what they are for: the request queue and the volatile-cache
machine of the SD/MMC driver, the address-space table, the callout linker, the hwinfo
arena, the ELF loader, the boot argument block, the UEFI memory map, the SPI and PL011
transfer engines, and four small arithmetic cores. `dafny verify dfyconfig.toml` checks
all of it.

Most components come as a pair. One module defines the behaviour on values and proves the
theorems; methods in the form of the source (classes with the source's fields, loops over
arrays and lists) are then shown to compute exactly those values.

| component | modules |
|---|---|
| SD/MMC request queue (concurrent) | `SdmmcQueue` |
| SD/MMC cache, reset, protection, power | `SdmmcCache`, `SdmmcSafety`, `SdmmcEffects`, `SdmmcSim` |
| SD/MMC legacy reliable write | `ReliableWrite` |
| address-space table | `AddressSpace`, `AsExact`, `RangeList`, `AsInfo` |
| callout layout | `Callouts`, `CalloutOutput` |
| hwinfo section | `HwTags`, `HwAlloc` |
| ELF loader | `ElfLoader` |
| RAM list and allocator | `RamMap`, `RamRuns`, `RamAlloc`, `RamTop`, `RamElf`, `RamEfi` |
| boot arguments and command lines | `BootStrings`, `BootArgs`, `CmdLine` |
| UEFI memory map | `EfiMap`, `EfiWalk` |
| SPI full duplex | `Spi` |
| PL011 DMA transmit | `UartPath`, `Pl011` |
| interrupt parent cache | `IntrParent` |
| memory copy | `Memory` |
| calendar | `Calendar` |
| timer frequency | `TimerFreq` |
| shared | `Options`, `Arith`, `Pages` |

## Environment

What the code calls but does not define is a parameter or an arbitrary choice, so that a
statement about all choices is one about all environments.

- SD/MMC device: a successful flush or cache disable makes data durable, a failed cache
  operation leaves the device unchanged, and it is reset only through `sdmmc_reset`.
  Background operations are a step that may reset. `simq_*` is a bag of requests that is
  not frozen.
- `calloc_ram` zeroes what it hands out, and `elf_map` maps whole pages. That the memory is not
  in use is proved of the allocator (`RamElf.ServedAllocates`).
- `grow_syspage_section` fills with zeros; hwinfo sizes are multiples of four and
  alignments four or eight, so sizes and offsets are counted in words.
- libfdt is what its queries answer; searches do not go round in circles.
- The SPI controller shifts bytes out in order and brings one in for each; the DMA engine
  moves bytes in order and reports exactly what is left.
- Clocks, RTCs and firmware supply plain values.

## Where the code and an expectation differ

Each of these is proved, with the condition under which the code meets the expectation.

- `memcpy` truncates its pass counter to 32 bits (`Memory.CopyLengthWraps`,
  `Memory.CopyLengthExact`).
- `boot_vaddr_base` uses zero for "not set", so a segment on page zero can be forgotten
  (`ElfLoader.PageZeroForgotten`, `ElfLoader.BaseBounds`).
- The first `add_ram` of the UEFI walk is an empty range at the top of memory
  (`EfiWalk.RegisteredIs`); `add_mem` ignores it (`src/hardware/startup/lib/ram.c`), and
  an empty address-space request changes nothing (`AddressSpace.EmptyRequest`).
- Overlapping containers that are not nested can leave an address in two pieces
  (`AddressSpace.OverlapBreaksPartition`, `AsExact.PartitionExactly`).
- An SPI transfer with tnbytes above both rnbytes and 16 can be reported complete with
  data unsent, and one with tnbytes below rnbytes is never complete
  (`Spi.DropsDataExactly`, `Spi.CompletesExactly`).
- The comment in `tto` says that OSW_PAGED_OVERRIDE lets a flow control byte out while
  output is held; the DMA branch only stages it (`Pl011.Uart.Tto`).
- The code of an oversized `interrupt-parent` property is taken for the node offset 4. In a
  blob that begins with the root node this only gives an error (`IntrParent.OversizedFails`);
  where offset 4 is a node, as behind a leading NOP tag, it can fill the cache with a wrong
  parent (`IntrParent.OversizedPoisons`, `IntrParent.TransparentExactly`).
- The alignment test of the reliable write is right for powers of two only, and a supported
  size of zero makes no progress (`ReliableWrite.ReliableExactly`, `ReliableWrite.ChunkProgress`).
- Avoiding an empty range at address zero ends the avoid list (`RamMap.ZeroHides`,
  `RamMap.SeenExactly`).
- The search for RAM keeps only the larger part beside an avoided range inside a block, so it
  can miss room (`RamMap.SearchMisses`).  Where no avoided range lies inside a block it misses
  none (`RamMap.FindExactly`), and with one in each block only what alignment costs
  (`RamMap.FindBeside`).
- `find_top_ram_aligned_limit` answers the limit less the size, unaligned, when a block reaches
  beyond the limit (`RamTop.AlignedExactly`); and it compares the limit with the size before
  rounding, so that the difference can wrap (`RamTop.UsableExactly`, `RamTop.RoundedBeyond`).
- `_gmtime` gives no date for times before 1970 (`Calendar.NegativeFails`).
- `_gmtime` and `calc_time_t` disagree after February 2100, 2200, 2300 and so on
  (`Calendar.RoundTrip`, `Calendar.CivilExactly`).

## Model

| member | source | states |
|---|---|---|
| `SdmmcQueue.DriverConserves` | src/hardware/devb/sdmmc/sim_sdmmc.c:3318-3349 | a driver step moves a CCB between in flight and posted without losing or repeating one |
| `SdmmcQueue.TakenConserves` | src/hardware/devb/sdmmc/sim_sdmmc.c:3306-3316 | receiving a pulse or dequeuing a CCB keeps: enqueued = queued + dequeued, dequeued = posted + in flight |
| `SdmmcQueue.OutsideConserves` | src/hardware/devb/sdmmc/sim_sdmmc.c:4013-4017 | client, timer and callback steps keep the same conservation law |
| `SdmmcQueue.OutsideWakes` | src/hardware/devb/sdmmc/sim_sdmmc.c:4013-4017 | a client hands the duty to wake the driver on to its own pulse, a pending pulse or the running driver |
| `SdmmcQueue.DriverWakes` | src/hardware/devb/sdmmc/sim_sdmmc.c:3346-3355 | the budget, the self-pulse and the return from `sdmmc_start_ccb` never drop the last duty to wake up |
| `SdmmcQueue.DriverExecutes` | src/hardware/devb/sdmmc/sim_sdmmc.c:3318-3340 | a command is executed once, while `nexus` names it, before it is posted |
| `SdmmcQueue.DriverControls` | src/hardware/devb/sdmmc/sim_sdmmc.c:3318-3349 | `nexus` is set exactly while a command runs; the counter stays below `start_ccb_max` and counts the commands executed in the call |
| `SdmmcQueue.StepKeepsInv` | src/hardware/devb/sdmmc/sim_sdmmc.c:3295-3356 | every step of every thread keeps the invariant |
| `SdmmcQueue.ClientExactly` | src/hardware/devb/sdmmc/sim_sdmmc.c:4013-4017 | a client queues its request first, and pulses exactly if it then finds `nexus` null |
| `SdmmcQueue.EveryRun` | src/hardware/devb/sdmmc/sim_sdmmc.c:3698-3744 | in every interleaving: a non-empty queue has a wakeup due; each dequeued CCB is executed once under its nexus and posted once after that; a call executes at most `start_ccb_max` commands and pulses itself only after exactly as many; `nexus` is null whenever the driver waits |
| `SdmmcQueue.StepUsesWork` | src/hardware/devb/sdmmc/sim_sdmmc.c:3306-3355 | every step that is not an arrival uses up work, so threads cannot go round forever |
| `SdmmcQueue.CanMove` | src/hardware/devb/sdmmc/sim_sdmmc.c:3698-3744 | while something is queued or the driver is busy, some thread can move |
| `SdmmcQueue.QuietIsDrained` | src/hardware/devb/sdmmc/sim_sdmmc.c:622-645 | when no thread can move, every CCB ever enqueued has been executed under its nexus and posted, and `nexus` is null |
| `SdmmcQueue.EveryRequestPosted` | src/hardware/devb/sdmmc/sim_sdmmc.c:622-645 | once arrivals stop, every interleaving ends within a bounded number of steps, and where it ends all requests have been executed under their nexus and posted |
| `SdmmcCache.ProtectedIsProtected` | src/hardware/devb/sdmmc/sim_sdmmc.c:1388-1408 | after the two loops every addressable user partition is write-protected |
| `SdmmcSafety.ResetSafe` | src/hardware/devb/sdmmc/sim_sdmmc.c:1410-1434 | a reset drops cached data only together with write protection of all user partitions, and keeps the invariant |
| `SdmmcSafety.RwsSafe` | src/hardware/devb/sdmmc/sim_sdmmc.c:2028-2043 | the transfers of a write, each of which may fail after storing and may reset the device, keep the invariant; an acknowledged write is in the device |
| `SdmmcSafety.WriteSafe` | src/hardware/devb/sdmmc/sim_sdmmc.c:3235-3243 | SC_WRITE10, from raising the dirty flag to the last transfer, keeps the invariant on every path |
| `SdmmcSafety.FlushSafe` | src/hardware/devb/sdmmc/sim_sdmmc.c:1267-1282 | a flush that reports success leaves nothing cached and no enabled dirty cache |
| `SdmmcSafety.ModeSelectSafe` | src/hardware/devb/sdmmc/sim_sdmmc.c:760-800 | switching the cache on or off keeps the invariant whatever the device answers |
| `SdmmcSafety.ExecuteSafe` | src/hardware/devb/sdmmc/sim_sdmmc.c:3322-3336 | every command keeps the invariant and runs in the active power state |
| `SdmmcSafety.TimerSafe` | src/hardware/devb/sdmmc/sim_sdmmc.c:3358-3395 | the power-management timer keeps the invariant: sleep is entered only after a successful flush |
| `SdmmcSafety.StepSafe` | src/hardware/devb/sdmmc/sim_sdmmc.c:3306-3344 | every turn of the driver thread keeps the invariant and never takes protection back |
| `SdmmcSafety.RunSafe` | src/hardware/devb/sdmmc/sim_sdmmc.c:3698-3744 | so does every run |
| `SdmmcSafety.Durability` | src/hardware/devb/sdmmc/sim_sdmmc.c:3235-3243 | in every state of every run: data that is only in the cache implies CACHE and VCACHE_DIRTY; every chunk of an acknowledged write is durable, cached or dropped, by its newest copy; after a drop all addressable user partitions are protected; asleep, nothing is cached |
| `SdmmcSafety.AckedNotDurable` | src/hardware/devb/sdmmc/sim_sdmmc.c:3235-3243 | a chunk that is acknowledged, not durable and never dropped is in an enabled, dirty cache, and the device is awake |
| `SdmmcSafety.LostStays` | src/hardware/devb/sdmmc/sim_sdmmc.c:1410-1434 | what has been dropped stays on record |
| `SdmmcSafety.LossRefusesTurn` | src/hardware/devb/sdmmc/sim_sdmmc.c:2007-2010 | after a drop a user write is refused, acknowledges nothing and stores nothing |
| `SdmmcSafety.SyncMakesDurable` | src/hardware/devb/sdmmc/sim_sdmmc.c:1284-1303 | after a successful SYNCHRONIZE CACHE on a present device every acknowledged write is durable or recorded as lost |
| `SdmmcSafety.WriteRefused` | src/hardware/devb/sdmmc/sim_sdmmc.c:2007-2010 | a write to a protected partition is refused and does not reach the device |
| `SdmmcSafety.LossRefusesWrites` | src/hardware/devb/sdmmc/sim_sdmmc.c:1410-1434 | once cached data has been dropped, every write to a user partition dispatched at any later time of any run is refused |
| `SdmmcEffects.RwsExactly` | src/hardware/devb/sdmmc/sim_sdmmc.c:2052-2100 | the transfers of a write succeed exactly if each of them does; then exactly their chunks are acknowledged and the device has them, otherwise none is acknowledged |
| `SdmmcEffects.FailureExactly` | src/hardware/devb/sdmmc/sim_sdmmc.c:2052-2100 | a failed transfer leaves what the device says it stored; a reset empties the cache |
| `SdmmcEffects.WriteExactly` | src/hardware/devb/sdmmc/sim_sdmmc.c:1996-2116 | a write completes if and only if the card is there with blocks, unlocked, the partition neither protected nor RPMB and selectable, and every transfer succeeds; exactly then its chunks become acknowledged, and the device has them all |
| `SdmmcEffects.RefusalExactly` | src/hardware/devb/sdmmc/sim_sdmmc.c:1996-2026 | the obstacles in their order, each with its status; a refusal leaves the device alone |
| `SdmmcEffects.WriteLeaves` | src/hardware/devb/sdmmc/sim_sdmmc.c:3235-3243 | a completed write leaves the dirty flag of an enabled cache set and loses nothing but by a background reset |
| `SdmmcEffects.WriteReaches` | src/hardware/devb/sdmmc/sim_sdmmc.c:2052-2100 | where a transfer fails, the ones before it have reached the device |
| `SdmmcEffects.FlushExactly` | src/hardware/devb/sdmmc/sim_sdmmc.c:1267-1282 | a flush fails if and only if there is something to flush and the device refuses; otherwise all that was cached is durable |
| `SdmmcEffects.SyncExactly` | src/hardware/devb/sdmmc/sim_sdmmc.c:1284-1303 | SYNCHRONIZE CACHE succeeds if and only if there is no card, or the unit is ready and the flush succeeds |
| `SdmmcEffects.ModeSelectExactly` | src/hardware/devb/sdmmc/sim_sdmmc.c:760-800 | a mode select succeeds if and only if there is a cache and the device agrees; then driver and device have the cache as asked |
| `SdmmcEffects.ConfiguredExactly` | src/hardware/devb/sdmmc/sim_sdmmc.c:276-295 | configuring switches the cache on if and only if it is there, wanted and accepted |
| `SdmmcEffects.ProtectsExactly` | src/hardware/devb/sdmmc/sim_sdmmc.c:1388-1408 | exactly the addressable user partitions become protected |
| `SdmmcEffects.ResetExactly` | src/hardware/devb/sdmmc/sim_sdmmc.c:1410-1434 | a reset drops exactly what is only cached, and protects the partitions only if data may have been in the cache |
| `SdmmcEffects.TimerExactly` | src/hardware/devb/sdmmc/sim_sdmmc.c:3358-3395 | the device goes to sleep if and only if it is idle long enough, nothing runs, and nothing stays in the cache |
| `SdmmcEffects.CcbExactly` | src/hardware/devb/sdmmc/sim_sdmmc.c:3318-3344 | behind a command there is a reset exactly if retuning asks for it |
| `SdmmcEffects.ResetsExactly` | src/hardware/devb/sdmmc/sim_sdmmc.c:3698-3744 | the background timer and the other commands do nothing but a reset |
| `SdmmcSim.ProtectLuns` | src/hardware/devb/sdmmc/sim_sdmmc.c:1400-1405 | the inner loop protects exactly the user partitions among the LUNs of a target |
| `SdmmcSim.Sim.SetPartitionAttr` | src/hardware/devb/sdmmc/sim_sdmmc.c:1388-1408 | both loops: all targets up to `ntargs`, nothing else changes |
| `SdmmcSim.Sim.ReadWrite` | src/hardware/devb/sdmmc/sim_sdmmc.c:2052-2100 | the loop over the transfers stops at the first failure; the chunks are acknowledged only after the last |
| `SdmmcSim.Sim.Sync` | src/hardware/devb/sdmmc/sim_sdmmc.c:1284-1303 | on a reported success of a present device nothing is pending and every acknowledged chunk is durable or dropped |
| `SdmmcSim.Sim.Dispatch` | src/hardware/devb/sdmmc/sim_sdmmc.c:3322-3336 | the command switch keeps the invariant in the active power state and never takes protection back |
| `SdmmcSim.Sim.StartCcb` | src/hardware/devb/sdmmc/sim_sdmmc.c:3318-3344 | one CCB: active first, then the command, then a reset if retuning fails; after a loss a user write is refused |
| `SdmmcSim.Sim.Turn` | src/hardware/devb/sdmmc/sim_sdmmc.c:3698-3744 | every turn of the driver thread, refused addresses included, keeps the invariant, and its status and new state are those of the machine; a write is answered with success if and only if nothing stands in its way, and exactly then its chunks are acknowledged |
| `SdmmcSim.Sim.Run` | src/hardware/devb/sdmmc/sim_sdmmc.c:3698-3744 | every run: the answers and the final state are those of the machine, step by step; cached data only in an enabled dirty cache, acknowledged chunks accounted for, protection after a loss, refusal of every user write from the first loss on, safe sleep; a write is answered with success if and only if nothing stands in its way at that point, and exactly the chunks of those writes are acknowledged |
| `SdmmcSim.TurnAcks` | src/hardware/devb/sdmmc/sim_sdmmc.c:3235-3243 | a turn acknowledges the chunks of a write that meets no obstacle, and nothing else |
| `SdmmcSim.RunWrites` | src/hardware/devb/sdmmc/sim_sdmmc.c:3235-3243 | in a run a write is answered with success if and only if it meets no obstacle at its place |
| `SdmmcSim.TurnedIs` | src/hardware/devb/sdmmc/sim_sdmmc.c:3698-3744 | a turn never takes protection or the record of losses back |
| `SdmmcSim.AfterGrows` | src/hardware/devb/sdmmc/sim_sdmmc.c:3698-3744 | nor does any stretch of a run |
| `SdmmcSim.LossRefusesRun` | src/hardware/devb/sdmmc/sim_sdmmc.c:2007-2010 | from the first loss of a run on, wherever it happens, every user write of the run is refused and acknowledges nothing |
| `ReliableWrite.MaskSplits` | src/hardware/devb/sdmmc/sim_sdmmc.h:105 | the mask of a power of two takes a number apart into multiple and rest |
| `ReliableWrite.MaskIsRemainder` | src/hardware/devb/sdmmc/sim_sdmmc.h:105 | for powers of two the mask of SDMMC_ADDR_ALIGNED is the remainder |
| `ReliableWrite.Misjudged` | src/hardware/devb/sdmmc/sim_sdmmc.h:105 | for every other size there is an address that passes the test without being aligned |
| `ReliableWrite.ChunkProgress` | src/hardware/devb/sdmmc/sim_sdmmc.c:2060-2085 | a chunk has a positive length exactly if `rel_wr_sec_c` is positive; with zero the loop does not advance |
| `ReliableWrite.ChunkLongExactly` | src/hardware/devb/sdmmc/sim_sdmmc.c:2066-2085 | the supported size is used if and only if more than that is left, at an address that passes the test |
| `ReliableWrite.ChunkCountIs` | src/hardware/devb/sdmmc/sim_sdmmc.c:2066-2085 | a chunk is 512 bytes or the supported size (then at an address that passes the test), never longer than what is left |
| `ReliableWrite.PlanTiles` | src/hardware/devb/sdmmc/sim_sdmmc.c:2062-2098 | the chunks write exactly the blocks of the SG list, in order, at consecutive LBAs, for every size of at least one sector |
| `ReliableWrite.MisalignedWrite` | src/hardware/devb/sdmmc/sim_sdmmc.c:2066-2085 | for any other size there is a request that is cut into a misaligned write |
| `ReliableWrite.ReliableExactly` | src/hardware/devb/sdmmc/sim_sdmmc.c:2067-2070 | every chunk of every request starts at a multiple of its own length if and only if `rel_wr_sec_c` is a power of two |
| `ReliableWrite.ChooseCount` | src/hardware/devb/sdmmc/sim_sdmmc.c:2066-2085 | the branches that choose the length |
| `ReliableWrite.SplitOne` | src/hardware/devb/sdmmc/sim_sdmmc.c:2063-2097 | the inner loop terminates and issues the plan of one element, or its front up to the first failing command |
| `ReliableWrite.Splitter` | src/hardware/devb/sdmmc/sim_sdmmc.c:2062-2100 | the nested loops issue the whole plan and report success exactly if every command succeeds; otherwise the front up to the failure |
| `AddressSpace.TouchesIsOverlap` | src/hardware/startup/lib/as_find_containing.c:51-53 | the three tests find exactly the entries that share an address with the request |
| `AddressSpace.NamedExactly` | src/hardware/startup/lib/as_find_containing.c:28-35 | an entry has a name if and only if some entry on its chain of owners is called so |
| `AddressSpace.ClipHolds` | src/hardware/startup/lib/as_add_containing.c:51-58 | the search meets every entry of the name that shares an address with the request, and its piece has exactly the shared addresses |
| `AddressSpace.Deepest` | src/hardware/startup/lib/as_add_containing.c:52-58 | the last entry of the name that holds a requested address, in plain addresses |
| `AddressSpace.SplitMeaning` | src/hardware/startup/lib/as_add_containing.c:78-110 | splitting a node covers the same addresses once and changes the owner inside the piece only |
| `AddressSpace.InsertMeaning` | src/hardware/startup/lib/as_add_containing.c:59-114 | so does inserting a nested piece into the list |
| `AddressSpace.InsertFits` | src/hardware/startup/lib/as_add_containing.c:59-114 | what was nested in every range stays nested after a piece has been carved out |
| `AddressSpace.PiecesFit` | src/hardware/startup/lib/as_add_containing.c:51-115 | every later container is nested in the list built so far |
| `AddressSpace.Partition` | src/hardware/startup/lib/as_add_containing.c:48-115 | an address lies in exactly one piece if start <= x <= end and some entry of the name holds it, and that piece is owned by the last such entry; in none otherwise |
| `AddressSpace.TableNested` | src/hardware/startup/lib/as_add_containing.c:51-58 | containers nested parent first in the table are nested for every request |
| `AddressSpace.OverlapBreaksPartition` | src/hardware/startup/lib/as_add_containing.c:60-114 | without nesting it fails: two overlapping containers leave an address in two pieces |
| `AsExact.SplitCount` | src/hardware/startup/lib/as_add_containing.c:78-110 | how often a split covers an address, for any piece: the rest of a node behind a piece that ends at the last address wraps to zero |
| `AsExact.InsertCovers` | src/hardware/startup/lib/as_add_containing.c:59-114 | no insertion uncovers an address |
| `AsExact.InsertExactly` | src/hardware/startup/lib/as_add_containing.c:59-114 | one insertion keeps the ranges disjoint if and only if the piece touches no node but the one that holds its start, and nothing wraps |
| `AsExact.TameIsStraight` | src/hardware/startup/lib/as_add_containing.c:59-114 | the same condition in terms of who owns which address |
| `AsExact.MaximalKept` | src/hardware/startup/lib/as_add_containing.c:78-110 | the address behind a node always belongs to someone else |
| `AsExact.GoodExactly` | src/hardware/startup/lib/as_add_containing.c:48-115 | the pieces built so far are disjoint if and only if every match so far was orderly, and then each address belongs to its deepest container |
| `AsExact.PartitionExactly` | src/hardware/startup/lib/as_add_containing.c:48-115 | for every table: the pieces are that partition if and only if what each entry of the name shares with the request starts with addresses of one earlier owner and goes on with addresses of none |
| `AsExact.NestedOrderly` | src/hardware/startup/lib/as_add_containing.c:51-58 | nesting parent first implies that condition |
| `AddressSpace.AddedKeeps` | src/hardware/startup/lib/as_add64.c:36-54 | the new entry is as requested; the owner gets the KIDS flag, and nothing else changes |
| `AddressSpace.AddedOverlay` | src/hardware/startup/lib/as_add64.c:36-62 | with AS_OVERLAY_IO, the entry and an "io" child of the same range |
| `AddressSpace.EmittedTail` | src/hardware/startup/lib/as_add_containing.c:116-124 | the emission loop appends exactly the non-empty pieces, complete entries, in order |
| `AddressSpace.OverlaidKeeps` | src/hardware/startup/lib/as_add_containing.c:128-137 | the overlay pass adds one child per piece, same range, owned by the piece, and keeps all else |
| `AddressSpace.FinishedChain` | src/hardware/startup/lib/as_add_containing.c:125-139 | clearing CONTINUED on the last piece closes the chain, with or without overlays |
| `AddressSpace.RegisteredChain` | src/hardware/startup/lib/as_add_containing.c:116-139 | following CONTINUED from the returned offset visits exactly the non-empty pieces, in entries with the requested name and attributes, and their owners have the KIDS flag; nothing changes if there are none |
| `AddressSpace.EmptyRequest` | src/hardware/startup/lib/as_add_containing.c:119-139 | a request that ends before it starts changes nothing, whatever it matches |
| `AddressSpace.RegisteredPartition` | src/hardware/startup/lib/as_add_containing.c:48-139 | on the finished table: the chain meets an address once if start <= x <= end and some entry of the name holds it, in a piece of the last such entry, and no other address |
| `RangeList.Placed` | src/hardware/startup/lib/as_add_containing.c:88-111 | linking a new node changes one link and inserts one range |
| `RangeList.List.Place` | src/hardware/startup/lib/as_add_containing.c:88-94 | a new node takes over the link of its owner |
| `RangeList.List.SplitNode` | src/hardware/startup/lib/as_add_containing.c:78-111 | the four branches of the in-place split, on links |
| `RangeList.List.Insert` | src/hardware/startup/lib/as_add_containing.c:59-114 | the walk along the links, then the split or the new last node |
| `AsInfo.AsTable.MatchName` | src/hardware/startup/lib/as_find_containing.c:28-35 | true exactly if the entry or one it is nested in has the name |
| `AsInfo.AsTable.FindContaining` | src/hardware/startup/lib/as_find_containing.c:37-58 | the next match after the given offset; none in between |
| `AsInfo.AsTable.Add64` | src/hardware/startup/lib/as_add64.c:29-63 | the grown table, with the optional overlay child |
| `AsInfo.AsTable.CollectPieces` | src/hardware/startup/lib/as_add_containing.c:48-115 | the first loop builds the list of all pieces |
| `AsInfo.AsTable.EmitPieces` | src/hardware/startup/lib/as_add_containing.c:116-124 | the second loop |
| `AsInfo.AsTable.FinishChain` | src/hardware/startup/lib/as_add_containing.c:125-138 | the last piece ends the chain, then the overlays |
| `AsInfo.AsTable.OverlayPieces` | src/hardware/startup/lib/as_add_containing.c:128-137 | the third loop stops at the end of the chain |
| `AsInfo.AsTable.AddContaining` | src/hardware/startup/lib/as_add_containing.c:36-140 | table and offset for every input, for which the partition and chain theorems are proved |
| `AsInfo.AsTable.SetPriority` | src/hardware/startup/lib/as_set_priority.c:28-37 | every entry of the chain gets the priority and no other entry changes |
| `AsInfo.PriorityReachesPieces` | src/hardware/startup/lib/as_set_priority.c:32-36 | from the offset returned by `as_add_containing` the walk ends at the last piece |
| `Callouts.FindIs` | src/hardware/startup/lib/callouts.c:108-113 | a lookup succeeds exactly if the key has a slot, and yields its offset |
| `Callouts.Sized` | src/hardware/startup/lib/callouts.c:105-122 | the sizing pass adds up all routines and gives every read/write key one slot, apart from all others |
| `Callouts.SizedRoomy` | src/hardware/startup/lib/callouts.c:105-122 | every routine gets a slot of the length its size word asks for |
| `Callouts.SizedTight` | src/hardware/startup/lib/callouts.c:105-122 | the slots leave no gaps: the area grows by their lengths |
| `Callouts.Wrote` | src/hardware/startup/lib/callouts.c:124-155 | the writing pass lays routines end to end, each with the slot of its own key |
| `Callouts.DataOfIs` | src/hardware/startup/lib/callouts.c:137-151 | the lookup yields the first entry for the pointer, and none exactly if there is none |
| `Callouts.PlacementAt` | src/hardware/startup/lib/callouts.c:124-155 | every routine is placed once, in the order of the pointers, at the sum of the sizes before it, with the offset of its own slot and, if it has a patcher, the data registered for its pointer |
| `Callouts.PatcherGets` | src/hardware/startup/lib/callouts.c:137-177 | what was first registered for a pointer is what its patcher gets |
| `Callouts.SizingPredicts` | src/hardware/startup/lib/callouts.c:72-156 | writing the same pointers starts at the page-rounded end of the read/write area, stays within the reported size, and every lookup succeeds with a slot inside the area |
| `Callouts.PointersSet` | src/hardware/startup/lib/callouts.c:136-155 | every callout pointer ends up at its own routine; null pointers are left alone |
| `Callouts.RegisteredData` | src/hardware/startup/lib/callouts.c:158-177 | the first registration for a pointer wins; other pointers keep their data |
| `Callouts.FirstRegistered` | src/hardware/startup/lib/callouts.c:158-177 | so it does in any sequence of registrations |
| `Callouts.RelocFollows` | src/hardware/startup/lib/callouts.c:179-191 | registered data follows its pointer when the system page moves |
| `CalloutOutput.SizeAllAppend` | src/hardware/startup/lib/callouts.c:78-81 | the links of the output chain size as one list |
| `CalloutOutput.WriteAllAppend` | src/hardware/startup/lib/callouts.c:78-81 | and write as one list |
| `CalloutOutput.Output.FindRw` | src/hardware/startup/lib/callouts.c:108-113 | the walk along `rw_addrs` |
| `CalloutOutput.Output.FindData` | src/hardware/startup/lib/callouts.c:141-150 | the walk along `patch_data` |
| `CalloutOutput.Output.RegisterData` | src/hardware/startup/lib/callouts.c:158-177 | the list after a registration, with all refusals |
| `CalloutOutput.Output.RelocData` | src/hardware/startup/lib/callouts.c:179-191 | the list after a move |
| `CalloutOutput.Output.SizeSlot` | src/hardware/startup/lib/callouts.c:105-122 | one pointer while sizing |
| `CalloutOutput.Output.WriteSlot` | src/hardware/startup/lib/callouts.c:124-155 | one pointer while writing, with its slot and its data; the first fixes the origin |
| `CalloutOutput.Output.SizeIntr` | src/hardware/startup/lib/add_interrupt.c:43-60 | the five pointers of every interrupt entry, while sizing |
| `CalloutOutput.Output.SizeSection` | src/hardware/startup/lib/callouts.c:78-81 | the callout section, while sizing |
| `CalloutOutput.Output.Size` | src/hardware/startup/lib/callouts.c:72-90 | reported sizes, slots for every key, counter reset for the writing pass |
| `CalloutOutput.Output.WriteNext` | src/hardware/startup/lib/callouts.c:124-155 | one more pointer of the chain is written |
| `CalloutOutput.Output.Write` | src/hardware/startup/lib/callouts.c:72-90 | all pointers of the chain are written as the sizing pass predicted, each routine placed with what belongs to its pointer |
| `HwTags.NextItemAppend` | src/hardware/startup/lib/hwi_alloc.c:69-75 | a new tag extends the last item; a new item ends it |
| `HwTags.TagHolds` | src/hardware/startup/lib/hwi_alloc.c:56-77 | `hwi_alloc_tag` keeps the section well formed: tiling, prefixes, item sizes, kids, zero fill with room for a terminator |
| `HwTags.NewItemHolds` | src/hardware/startup/lib/hwi_alloc.c:79-100 | so does `hwi_alloc_item`; only the kids of the owner change among earlier headers |
| `HwTags.WalkMeetsTags` | src/hardware/startup/lib/hwi_alloc.c:72-75 | stepping by prefix size meets exactly the allocated tags, in order, and stops at the terminator |
| `HwTags.ItemWalkMeetsItems` | src/hardware/startup/lib/hwi_alloc.c:69-71 | stepping by itemsize meets exactly the later items, in order |
| `HwTags.ItemWalkFromStart` | src/hardware/startup/lib/hwi_alloc.c:43-44 | from the start of the section it meets all items |
| `HwAlloc.Section.Reserve` | src/hardware/startup/lib/hwi_alloc.c:63-68 | room for the tag and a terminator; growth is zero filled |
| `HwAlloc.Section.Append` | src/hardware/startup/lib/hwi_alloc.c:62-76 | one more tag, charged to the current item |
| `HwAlloc.Section.AlignTag` | src/hardware/startup/lib/hwi_alloc.c:46-54 | one pad tag is enough |
| `HwAlloc.Section.AllocTag` | src/hardware/startup/lib/hwi_alloc.c:56-77 | pad and tag are appended to the tiling, aligned |
| `HwAlloc.Section.AllocItem` | src/hardware/startup/lib/hwi_alloc.c:79-100 | pad (charged to the item before) and item are appended; the item becomes current |
| `HwAlloc.Section.PutItem` | src/hardware/startup/lib/hwi_alloc.c:89-98 | the header stores and the count at the owner |
| `ElfLoader.InPlaceLengths` | src/hardware/startup/lib/elf64.c:63-85 | the page arithmetic of the in-place path |
| `ElfLoader.PlacedByte` | src/hardware/startup/lib/elf64.c:84-90 | whole file pages stay in place, the partial page is copied, the rest is zero |
| `ElfLoader.InPlaceByte` | src/hardware/startup/lib/elf64.c:79-90 | on the p_paddr != 0 path each virtual address reads the file byte, or zero behind the file part |
| `ElfLoader.CopiedByte` | src/hardware/startup/lib/elf64.c:113-115 | and on the p_paddr == 0 path |
| `ElfLoader.SegmentLoaded` | src/hardware/startup/lib/elf64.c:62-118 | one segment has its System V meaning after loading |
| `ElfLoader.SegmentKeeps` | src/hardware/startup/lib/elf64.c:62-118 | loading it disturbs no live memory and remaps only its own pages |
| `ElfLoader.LaterKeepLoaded` | src/hardware/startup/lib/elf64.c:61-119 | segments on other pages keep what has been loaded |
| `ElfLoader.AllLoaded` | src/hardware/startup/lib/elf64.c:56-120 | PT_LOAD semantics for every segment of every page-disjoint list, on both paths |
| `ElfLoader.StaysInPlace` | src/hardware/startup/lib/elf64.c:79-90 | a segment in place without bss needs no memory: its pages are mapped where the image has them |
| `ElfLoader.CopiedTail` | src/hardware/startup/lib/elf64.c:76-115 | behind the file bytes the last pages show the image for a read-only segment without bss, and zeros otherwise |
| `ElfLoader.EndAttained` | src/hardware/startup/lib/elf64.c:72-74 | `boot_vaddr_end` is the old end or the end of a segment |
| `ElfLoader.BaseAttained` | src/hardware/startup/lib/elf64.c:69-71 | `boot_vaddr_base` is the old base or the page of a segment |
| `ElfLoader.EndBounds` | src/hardware/startup/lib/elf64.c:72-74 | `boot_vaddr_end` bounds every segment |
| `ElfLoader.BaseBounds` | src/hardware/startup/lib/elf64.c:69-71 | `boot_vaddr_base` bounds every segment if and only if no segment is on page zero or the last one is |
| `ElfLoader.PageZeroForgotten` | src/hardware/startup/lib/elf64.c:69-71 | the failure in its smallest form |
| `ElfLoader.PlaceSegment` | src/hardware/startup/lib/elf64.c:79-90 | the in-place branch, statement by statement |
| `ElfLoader.LoadOne` | src/hardware/startup/lib/elf64.c:62-118 | one turn of the loop, statement by statement, is the loading of one segment |
| `ElfLoader.LoadElf` | src/hardware/startup/lib/elf64.c:56-120 | the loop over the headers, with both bounds |
| `RamMap.AddedIs` | src/hardware/startup/lib/ram.c:82-113 | adding a block keeps the list sorted and non-touching and frees exactly its addresses |
| `RamMap.JoinedSeparated` | src/hardware/startup/lib/ram.c:100-110 | coalescing leaves a gap behind every block |
| `RamMap.JoinedFree` | src/hardware/startup/lib/ram.c:100-110 | and keeps the free addresses |
| `RamMap.CutIs` | src/hardware/startup/lib/ram.c:293-316 | taking a range out keeps the list sorted and non-touching and takes exactly the range |
| `RamMap.TakenStays` | src/hardware/startup/lib/ram.c:274-350 | an address that was taken stays taken until it is added again |
| `RamMap.AvoidSeen` | src/hardware/startup/lib/ram.c:400-419 | as long as no entry ends at zero, everything ever avoided is seen |
| `RamMap.SeenExactly` | src/hardware/startup/lib/ram.c:217 | the whole avoid list is seen if and only if no entry ends at zero |
| `RamMap.ZeroHides` | src/hardware/startup/lib/ram.c:400-419 | after avoiding nothing at address zero, what is avoided next is not seen |
| `RamMap.FixedIs` | src/hardware/startup/lib/ram.c:115-148 | what is left of a candidate lies inside it and beside the avoided range |
| `RamMap.FixedLongest` | src/hardware/startup/lib/ram.c:115-148 | it is the longest stretch of the candidate beside the avoided range, the upper of two equals; nothing is left if and only if all of it is avoided |
| `RamMap.FixedInside` | src/hardware/startup/lib/ram.c:136-146 | an avoided range strictly inside leaves the part below if that is longer than the part above, which it leaves otherwise |
| `RamMap.FixedAllLongest` | src/hardware/startup/lib/ram.c:217-226 | with one avoided range in a block, wherever it lies, the longest free stretch of the block is kept |
| `RamMap.FoundIs` | src/hardware/startup/lib/ram.c:203-260 | what the search finds is free, aligned and beside everything avoided |
| `RamMap.FindExactly` | src/hardware/startup/lib/ram.c:203-260 | the search finds room if and only if there is any, as long as no avoided range lies strictly inside a free block |
| `RamMap.FindBeside` | src/hardware/startup/lib/ram.c:203-260 | with at most one avoided range in each block a stretch with room for alignment is found, and only where there is a stretch of the size; for byte alignment that is an if and only if |
| `RamMap.SearchMisses` | src/hardware/startup/lib/ram.c:136-146 | the search can miss free memory, because only the larger part beside an avoided range is kept |
| `RamAlloc.AddSecond` | src/hardware/startup/lib/ram.c:309-314 | shrinking a block and adding the part behind the range is the cut, also for an empty range |
| `RamAlloc.Ram.PutBlock` | src/hardware/startup/lib/ram.c:90-99 | the insertion by address, and the crash of a full array |
| `RamAlloc.Ram.Coalesce` | src/hardware/startup/lib/ram.c:100-110 | the coalescing loop |
| `RamAlloc.Ram.AddMem` | src/hardware/startup/lib/ram.c:82-113 | insertion and coalescing |
| `RamAlloc.Ram.CutBlock` | src/hardware/startup/lib/ram.c:294-315 | one turn of the loop, all branches |
| `RamAlloc.Ram.TakeOut` | src/hardware/startup/lib/ram.c:293-316 | the loop takes exactly the range out; an addition is needed at most once |
| `RamAlloc.Ram.FixAll` | src/hardware/startup/lib/ram.c:217-226 | the inner loop of the search, up to the terminator |
| `RamAlloc.Ram.FindRam` | src/hardware/startup/lib/ram.c:203-260 | the first block with room |
| `RamAlloc.Ram.AllocAt` | src/hardware/startup/lib/ram.c:274-316 | exactly this range is no longer free |
| `RamAlloc.Ram.AllocRam` | src/hardware/startup/lib/ram.c:274-316 | what is handed out was free, is aligned and not avoided |
| `RamAlloc.Ram.AddRam` | src/hardware/startup/lib/ram.c:364-379 | the range becomes free, except for the image |
| `RamAlloc.Ram.AvoidRam` | src/hardware/startup/lib/ram.c:400-419 | the avoid list, and the crash of a full array |
| `RamAlloc.Ram.Serve` | src/hardware/startup/lib/ram.c:274-419 | one call: its answer, the new lists and its entries in the history; no crash with two places left in the arrays |
| `RamAlloc.Ram.Run` | src/hardware/startup/lib/ram.c:274-419 | every sequence of calls up to a crash: answers, lists and history are those of the run on values, for which the theorems of `RamRuns` hold; no crash while the arrays have room for two blocks and one range per call |
| `RamAlloc.CutLength` | src/hardware/startup/lib/ram.c:293-316 | taking a range out needs at most one more place in the array |
| `RamAlloc.AfterLength` | src/hardware/startup/lib/ram.c:274-419 | a call needs at most two more places for blocks and one for an avoided range |
| `RamRuns.AfterHolds` | src/hardware/startup/lib/ram.c:274-419 | each call keeps the list sorted, non-touching and exactly what was added and not taken since |
| `RamRuns.ReplayHolds` | src/hardware/startup/lib/ram.c:274-419 | so does every sequence of calls |
| `RamRuns.AnswerFree` | src/hardware/startup/lib/ram.c:203-260 | whatever a search hands out at any place of a run was free, is aligned and was not avoided at that place |
| `RamRuns.StaysTaken` | src/hardware/startup/lib/ram.c:274-350 | what a call of the run took is not free until a later call adds it again |
| `RamRuns.AnswersApart` | src/hardware/startup/lib/ram.c:274-350 | two answers of one run share an address only if a call in between adds that address again |
| `RamRuns.AnswerGiven` | src/hardware/startup/lib/ram.c:203-260 | a search is answered wherever a free block has a stretch with room for alignment and at most one avoided range |
| `RamRuns.AvoidedBy` | src/hardware/startup/lib/ram.c:400-419 | exactly what the run has avoided is seen as avoided, as long as no range ends at zero |
| `RamRuns.AnswersAvoid` | src/hardware/startup/lib/ram.c:203-260 | no search of a run hands out what the run has avoided before |
| `RamRuns.AnswerHanded` | src/hardware/startup/lib/ram.c:274-350 | every answer of a run stands in its history as free and not avoided at its place |
| `RamRuns.HandedApart` | src/hardware/startup/lib/ram.c:274-350 | the same separation in terms of the history |
| `RamTop.SearchSound` | src/hardware/startup/lib/ram.c:150-192 | with a rounded size within the limit the loop finds only free, not avoided places below the limit, aligned unless it is the limit less the size |
| `RamTop.UsableExactly` | src/hardware/startup/lib/ram.c:159-163 | every answer can be used if and only if the rounded size fits the limit: the test is made before rounding |
| `RamTop.RoundedBeyond` | src/hardware/startup/lib/ram.c:159-184 | otherwise a one-block list gets an answer that wrapped around |
| `RamTop.AlignedExactly` | src/hardware/startup/lib/ram.c:172-184 | every answer is aligned if and only if the limit less the size is, or no aligned place in the address space lies beyond it |
| `RamTop.UnlimitedAligned` | src/hardware/startup/lib/ram.c:194-196 | without a limit every answer is aligned |
| `RamTop.SearchHighest` | src/hardware/startup/lib/ram.c:163-188 | no aligned place lies above what the loop finds, as long as no avoided range lies strictly inside a free block |
| `RamTop.TopIsHighest` | src/hardware/startup/lib/ram.c:150-192 | the answer is a free place and the highest aligned one or above; no answer means that there is none but address zero |
| `RamTop.FindTopRam` | src/hardware/startup/lib/ram.c:150-192 | the loop, with its early exits |
| `RamEfi.CallFree` | src/hardware/startup/lib/ram.c:274-419 | what each call does to one address: added and outside the image, taken, or left alone |
| `RamEfi.FreeAfterMap` | src/hardware/startup/lib/init_raminfo_efi.c:67-164 | without RAM before, the calls for a sorted map leave free exactly the conventional memory outside the image |
| `RamEfi.FoundAfterMap` | src/hardware/startup/lib/ram.c:203-260 | what a search hands out afterwards is conventional memory outside the image |
| `RamEfi.InitRaminfo` | src/hardware/startup/lib/init_raminfo_efi.c:67-164 | from the unsorted map to the RAM list of the allocator: free is exactly the conventional memory outside the image; no crash while the avoid list has room |
| `RamElf.ServedAllocates` | src/hardware/startup/lib/elf64.c:87 | answers of this allocator are fresh memory for the loader |
| `RamElf.LoadedFromRam` | src/hardware/startup/lib/elf64.c:56-120 | PT_LOAD semantics with memory from this allocator |
| `Pl011.ContentsTaken` | src/hardware/devc/serpl011/tto.c:159-173 | taking bytes from the tail, across the wrap or not, leaves the rest in order |
| `Pl011.ContentsPut` | src/hardware/devc/serpl011/tto.c:159-173 | a byte put behind the head comes last |
| `Pl011.Uart.CopyRing` | src/hardware/devc/serpl011/tto.c:157-171 | the one- or two-part copy yields the oldest bytes of the ring, in order |
| `Pl011.Uart.Drain` | src/hardware/devc/serpl011/tto.c:157-173 | bytes move from the ring to the staging buffer without loss or reordering |
| `Pl011.Uart.Fill` | src/hardware/devc/serpl011/tto.c:122-175 | the filling loop under paging and override |
| `Pl011.Uart.Tto` | src/hardware/devc/serpl011/tto.c:113-211 | bytes on the wire, in flight, staged and queued are conserved in order; a transfer starts exactly if output is not held and there is something to send; a byte with OSW_PAGED_OVERRIDE is staged but not sent |
| `Pl011.Uart.Start` | src/hardware/devc/serpl011/tto.c:177-183 | the staged bytes become the transfer |
| `Pl011.Uart.Shift` | src/hardware/devc/serpl011/intr.c:129-134 | a partial transfer is restarted with exactly what it left over |
| `Pl011.Uart.TxInterrupt` | src/hardware/devc/serpl011/intr.c:117-153 | completion, partial and empty remainder, then `tto`; order is conserved |
| `Pl011.Uart.Injected` | src/hardware/devc/serpl011/tto.c:129-130 | a flow control byte goes to the tail of the ring, ahead of what is still there and behind what has left it |
| `Pl011.Uart.DmaMoves` | src/hardware/devc/serpl011/intr.c:124-130 | the DMA engine moves bytes to the wire |
| `Pl011.Uart.RunDry` | src/hardware/devc/serpl011/intr.c:117-153 | with output not held, repeated completion interrupts bring everything to the wire |
| `Pl011.Uart.Step` | src/hardware/devc/serpl011/tto.c:113-211 | each event does to ring, buffer and wire what it does to the path on values |
| `Pl011.Uart.Run` | src/hardware/devc/serpl011/tto.c:113-211 | so does every run: the path holds exactly the accepted bytes in their places, the wire shows a front of them, and all once nothing is in flight, staged or queued; the data among them is what was there and what was put, in order |
| `UartPath.KickedIs` | src/hardware/devc/serpl011/tto.c:113-211 | filling and starting neither lose nor reorder anything |
| `UartPath.KickedExactly` | src/hardware/devc/serpl011/tto.c:113-211 | from an idle path all that waits is sent as far as the buffer takes it; held output stays, but for one flow control byte that is staged |
| `UartPath.EventsExactly` | src/hardware/devc/serpl011/tto.c:113-211 | what each event does to the path |
| `UartPath.EverythingOut` | src/hardware/devc/serpl011/intr.c:117-153 | from every state, releasing and kicking the output lets everything out within a bounded number of events, if the engine finishes its transfers |
| `UartPath.AfterIs` | src/hardware/devc/serpl011/tto.c:113-211 | every event keeps what was accepted in order; a put byte comes last, an injected one directly ahead of what is still in the ring |
| `UartPath.RunArranged` | src/hardware/devc/serpl011/tto.c:113-211 | in every run the path holds exactly the bytes arranged by the accepted events; without the injected ones they are the old contents and the put bytes, in order |
| `UartPath.RunWire` | src/hardware/devc/serpl011/tto.c:113-211 | in every run the wire only grows and shows the front of those bytes, and what had left the ring before stays in front |
| `UartPath.AllAccepted` | src/hardware/devc/serpl011/tto.c:113-211 | with room in the ring for all events none is refused |
| `BootStrings.PackedAt` | src/hardware/startup/lib/bootstrap_cmdline.c:39-49 | packed strings cut at an entry |
| `BootStrings.CStringIs` | src/hardware/startup/lib/_main.c:80-83 | what a pointer into packed strings denotes |
| `BootStrings.EditedPacked` | src/hardware/startup/lib/bootstrap_cmdline.c:57-76 | insert, replace-first and delete-first are one splice of the packed bytes |
| `BootStrings.GroupSplits` | src/hardware/startup/lib/fdt_tweak_cmdline.c:94-99 | a call takes the words up to the next "--" |
| `BootStrings.GroupsCoverWords` | src/hardware/startup/lib/fdt_tweak_cmdline.c:94-99 | over any number of calls no word is lost, repeated or reordered |
| `BootArgs.SpliceBytes` | src/hardware/startup/lib/bootstrap_cmdline.c:71-76 | the shift and the copy replace the entry and keep the bytes before and behind it |
| `BootArgs.EntryAt` | src/hardware/startup/lib/bootstrap_cmdline.c:40-49 | where each string starts |
| `BootArgs.SkipStrings` | src/hardware/startup/lib/bootstrap_cmdline.c:39-43 | the first loop steps over whole strings |
| `BootArgs.FindEntry` | src/hardware/startup/lib/bootstrap_cmdline.c:44-55 | the second loop finds the first equal string, or the end for an insertion, or nothing |
| `BootArgs.Block.DoAdjust` | src/hardware/startup/lib/bootstrap_cmdline.c:28-81 | the bytes afterwards are the edited list in its place, with everything before and behind unchanged |
| `BootArgs.Block.Splice` | src/hardware/startup/lib/bootstrap_cmdline.c:70-79 | move, copy and new size |
| `BootArgs.Block.ArgAdjust` | src/hardware/startup/lib/bootstrap_cmdline.c:84-87 | the arguments are edited; environment and trailing bytes are kept |
| `BootArgs.Block.EnvAdjust` | src/hardware/startup/lib/bootstrap_cmdline.c:90-93 | the environment is edited; arguments and trailing bytes are kept |
| `BootArgs.Block.ParseVector` | src/hardware/startup/lib/_main.c:80-84 | pointers to the first nineteen strings, in order |
| `BootArgs.Block.SetupCmdline` | src/hardware/startup/lib/_main.c:78-92 | reads back the first nineteen arguments and environment strings |
| `CmdLine.SpanIsWord` | src/hardware/startup/lib/fdt_tweak_cmdline.c:36-56 | the span found is the first word of the text, what follows holds the other words |
| `CmdLine.CutKeeps` | src/hardware/startup/lib/fdt_tweak_cmdline.c:49-54 | terminating a word in place leaves the word and the rest of the text |
| `CmdLine.SkipLeadingWord` | src/hardware/startup/lib/efi_tweak_cmdline.c:75-81 | going on behind the first word drops exactly that word |
| `CmdLine.AppendArg` | src/hardware/startup/lib/fdt_tweak_cmdline.c:98 | a word becomes the last argument |
| `CmdLine.Tokenizer.FindNextArg` | src/hardware/startup/lib/fdt_tweak_cmdline.c:33-57 | start and end of the next word, and the only byte changed |
| `CmdLine.Tokenizer.NextWord` | src/hardware/startup/lib/fdt_tweak_cmdline.c:95-96 | hands out the words one by one |
| `CmdLine.Tokenizer.NextInGroup` | src/hardware/startup/lib/fdt_tweak_cmdline.c:95-97 | and stops at "--" |
| `CmdLine.Tokenizer.MoveWord` | src/hardware/startup/lib/fdt_tweak_cmdline.c:94-99 | one pass of the appending loop |
| `CmdLine.Tokenizer.Tweak` | src/hardware/startup/lib/fdt_tweak_cmdline.c:94-99 | one "--"-delimited group is appended per call, in order |
| `CmdLine.Tokenizer.SkipImageName` | src/hardware/startup/lib/efi_tweak_cmdline.c:75-81 | the leading word is skipped unless it begins with a dash |
| `EfiMap.HeapRoot` | src/hardware/startup/lib/efi_entry_point.c:113-133 | the root of the heap is a maximum |
| `EfiMap.HoleMovesUp` | src/hardware/startup/lib/efi_entry_point.c:118-131 | one exchange moves the only violation up |
| `EfiMap.SiftUp` | src/hardware/startup/lib/efi_entry_point.c:117-131 | the heap grows by one element, shuffled only |
| `EfiMap.Heapify` | src/hardware/startup/lib/efi_entry_point.c:113-133 | a heap of the first elements, shuffled only |
| `EfiMap.RootMoved` | src/hardware/startup/lib/efi_entry_point.c:142-146 | moving the root behind the heap extends the sorted tail |
| `EfiMap.SortMap` | src/hardware/startup/lib/efi_entry_point.c:135-149 | a sorted permutation of the descriptors |
| `EfiWalk.ExtendedSeparated` | src/hardware/startup/lib/init_raminfo_efi.c:144-150 | one descriptor keeps the ranges non-empty, increasing and apart |
| `EfiWalk.ExtendedHolds` | src/hardware/startup/lib/init_raminfo_efi.c:144-150 | and adds exactly its own addresses |
| `EfiWalk.MergedSeparated` | src/hardware/startup/lib/init_raminfo_efi.c:142-152 | so do all descriptors |
| `EfiWalk.MergedHolds` | src/hardware/startup/lib/init_raminfo_efi.c:142-152 | the union of the ranges is exactly the usable memory |
| `EfiWalk.SortedOrdered` | src/hardware/startup/lib/efi_entry_point.c:135-149 | sorting by start puts any map without overlaps in address order |
| `EfiWalk.RegisteredIs` | src/hardware/startup/lib/init_raminfo_efi.c:142-163 | pass 1: an empty range first, then non-empty, increasing, non-touching ranges whose union is the usable memory; no call if there is none |
| `EfiWalk.AddedIs` | src/hardware/startup/lib/init_raminfo_efi.c:142-163 | the ranges handed to add_ram hold exactly the usable addresses |
| `EfiWalk.AllocatedIs` | src/hardware/startup/lib/init_raminfo_efi.c:138-140 | those handed to alloc_ram hold exactly the claimed ones |
| `EfiWalk.AvoidedIs` | src/hardware/startup/lib/init_raminfo_efi.c:135-137 | those handed to avoid_ram hold exactly the addresses of descriptors that are not conventional memory |
| `EfiWalk.PassesInOrder` | src/hardware/startup/lib/init_raminfo_efi.c:67-164 | every avoid_ram precedes every add_ram, every add_ram every alloc_ram |
| `EfiWalk.FreeIsConventional` | src/hardware/startup/lib/init_raminfo_efi.c:67-164 | all passes together: what is added is all memory but reserved, unusable, ACPI NVS, I/O and unknown kinds; what is taken back is all of that but the conventional memory; exactly the conventional memory is not avoided |
| `EfiWalk.ClaimedIs` | src/hardware/startup/lib/init_raminfo_efi.c:127-159 | the kinds that are claimed: all but conventional memory and what is never memory |
| `EfiWalk.RegistersExactly` | src/hardware/startup/lib/init_raminfo_efi.c:142-163 | pass 1 makes a call if and only if there is usable memory |
| `EfiWalk.Map.First` | src/hardware/startup/lib/efi_entry_point.c:154-161 | sorts once |
| `EfiWalk.Map.AvoidCalls` | src/hardware/startup/lib/init_raminfo_efi.c:126-159 | pass 0 |
| `EfiWalk.Map.AddCalls` | src/hardware/startup/lib/init_raminfo_efi.c:142-163 | pass 1 |
| `EfiWalk.Map.AllocCalls` | src/hardware/startup/lib/init_raminfo_efi.c:138-140 | pass 2 |
| `EfiWalk.Map.InitRaminfo` | src/hardware/startup/lib/init_raminfo_efi.c:67-164 | the three passes make these calls, in this order, over the sorted permutation of the map |
| `Spi.PlayKeeps` | src/hardware/spi/bcm2711/intr.c:35-69 | in every run rcnt <= shifted <= tcnt <= tnbytes; completion means all that was to be received has been read |
| `Spi.CompletesExactly` | src/hardware/spi/bcm2711/intr.c:59-70 | some run is reported complete if and only if no more is to be received than sent |
| `Spi.Completes` | src/hardware/spi/bcm2711/wait.c:41-88 | progress: one finished round per FIFO filling and one more are enough, whatever happens in the other rounds |
| `Spi.Outcome` | src/hardware/spi/bcm2711/wait.c:41-88 | all that holds of the outcome of a transfer |
| `Spi.DropsDataExactly` | src/hardware/spi/bcm2711/intr.c:35-69 | some run reports completion with unsent data if and only if tnbytes exceeds both rnbytes and the 16 prefilled bytes |
| `Spi.Driver.Push` | src/hardware/spi/bcm2711/intr.c:39-45 | what goes into the FIFO is the client's original byte |
| `Spi.Driver.Pull` | src/hardware/spi/bcm2711/intr.c:50-57 | an arrived byte replaces only a byte already sent |
| `Spi.Driver.Send` | src/hardware/spi/bcm2711/intr.c:39-45 | the sending loop |
| `Spi.Driver.Receive` | src/hardware/spi/bcm2711/intr.c:50-57 | the reading loop |
| `Spi.Driver.Serve` | src/hardware/spi/bcm2711/intr.c:29-74 | one interrupt round |
| `Spi.Driver.Begin` | src/hardware/spi/bcm2711/xfer.c:42-115 | transaction type, counters and prefill |
| `Spi.Driver.Wait` | src/hardware/spi/bcm2711/wait.c:41-88 | the event loop until completion or timeout |
| `Spi.Driver.Xfer` | src/hardware/spi/bcm2711/xfer.c:33-133 | in every run the FIFO got a front part of the original and the buffer is the received bytes followed by the original; on EOK with equal lengths everything was sent and received; EOK is reached once the controller has finished often enough |
| `IntrParent.SearchIs` | src/hardware/startup/lib/fdt_get_intr_cells.c:53-103 | the search follows the parents, by phandle or in the tree, as long as they leave the cells open, and answers with what is at the end of that path, errors included |
| `IntrParent.NewEntrySound` | src/hardware/startup/lib/fdt_get_intr_cells.c:84-89 | a new cache entry answers as the search does for every node that names its phandle |
| `IntrParent.CallTransparent` | src/hardware/startup/lib/fdt_get_intr_cells.c:41-103 | one call answers as the uncached search and keeps the cache sound |
| `IntrParent.RunTransparent` | src/hardware/startup/lib/fdt_get_intr_cells.c:41-103 | so does any sequence of calls on any number of trees |
| `IntrParent.PairExposed` | src/hardware/startup/lib/fdt_get_intr_cells.c:53-75 | two calls expose an oversized `interrupt-parent` that shares its phandle |
| `IntrParent.TransparentExactly` | src/hardware/startup/lib/fdt_get_intr_cells.c:41-103 | the cache is transparent over all call sequences if and only if no oversized property leads into a usable node at offset 4 that its phandle does not name |
| `IntrParent.FlattenedTransparent` | src/hardware/startup/lib/fdt_get_intr_cells.c:41-103 | hence on all blobs that begin with the root node, where every query at offset 4 fails |
| `IntrParent.OversizedFails` | src/hardware/startup/lib/fdt_get_intr_cells.c:53-98 | on such a blob an oversized property gives the error of the query at offset 4 and leaves the cache alone |
| `IntrParent.OversizedPoisons` | src/hardware/startup/lib/fdt_get_intr_cells.c:53-75 | a blob with a leading NOP tag for which the answers differ |
| `IntrParent.Lookup.GetIntrCells` | src/hardware/startup/lib/fdt_get_intr_cells.c:41-103 | the search loop with its static cache |
| `Memory.CopiedAt` | src/hardware/startup/lib/memmove.c:28-50 | the simultaneous copy, byte by byte |
| `Memory.CopyLengthExact` | src/hardware/startup/lib/memcpy.c:43-63 | all bytes are copied if and only if the copy is bytewise or the pass counter fits 32 bits |
| `Memory.CopyLengthWraps` | src/hardware/startup/lib/memcpy.c:43-62 | a length for which the truncated counter copies 64 bytes only |
| `Memory.ForwardStep` | src/hardware/startup/lib/memcpy.c:46-62 | a forward copy in stretches is one copy, for every overlap that memmove lets through |
| `Memory.DuffLoop` | src/hardware/startup/lib/memcpy.c:43-63 | the unrolled loop entered in the middle |
| `Memory.CopyTail` | src/hardware/startup/lib/memcpy.c:65-81 | the bytewise loop behind the words, or for everything |
| `Memory.Memcpy` | src/hardware/startup/lib/memcpy.c:31-84 | words and tail together are the simultaneous copy |
| `Memory.Memmove` | src/hardware/startup/lib/memmove.c:28-50 | equals the simultaneous copy for every alignment and overlap and changes nothing else |
| `Memory.MoveLengthFits` | src/hardware/startup/lib/memcpy.c:43 | lengths whose word count fits the counter are moved completely |
| `Calendar.DivisionIs` | src/hardware/startup/lib/gmtime.c:32-33 | day and second of the day: the quotient and remainder of the division of C, as unsigned longs |
| `Calendar.WrappedIs` | src/hardware/startup/lib/calc_time_t.c:33-61 | unsigned arithmetic differs from the integers by a multiple of the range |
| `Calendar.DaysNext` | src/hardware/startup/lib/gmtime.c:35-39 | the closed form for the days before a year |
| `Calendar.DenotesUnique` | src/hardware/startup/lib/gmtime.c:25-53 | a time has one broken-down form |
| `Calendar.SplitYears` | src/hardware/startup/lib/gmtime.c:35-39 | year and day of the year |
| `Calendar.SplitMonths` | src/hardware/startup/lib/gmtime.c:41-45 | month and day of the month; the loop always stops before month 12 |
| `Calendar.Gmtime` | src/hardware/startup/lib/gmtime.c:25-53 | for every 64-bit time the fields of its unsigned day and second, weekday included; from 1970 on they are in range and denote the time |
| `Calendar.NegativeFails` | src/hardware/startup/lib/gmtime.c:32-51 | before 1970 the year, or on the last day the hour, leaves the range of an int |
| `Calendar.CalcTimeIs` | src/hardware/startup/lib/calc_time_t.c:33-61 | the inverse, in the unsigned arithmetic of the source, for every time whose year fits 32 bits |
| `Calendar.RoundTrip` | src/hardware/startup/lib/calc_time_t.c:33-61 | `calc_time_t` returns the time if and only if it is not after February of a century that is not a leap year |
| `Calendar.RoundTripUpTo2100` | src/hardware/startup/lib/calc_time_t.c:33-61 | hence for every time before 2100 |
| `Calendar.RoundTripFails` | src/hardware/startup/lib/calc_time_t.c:48-55 | the first time at which the round trip fails: 1 March 2100 at midnight as `_gmtime` has it; before it holds for every time |
| `Calendar.CivilFails` | src/hardware/startup/lib/gmtime.c:35-49 | the first time for which the date is wrong |
| `Calendar.CivilExactly` | src/hardware/startup/lib/gmtime.c:32-51 | `_gmtime` gives the Gregorian date if and only if the time is before 2100-03-01 |
| `TimerFreq.Digit` | src/hardware/startup/lib/invert_timer_freq.c:56-59 | one digit of the long division |
| `TimerFreq.DigitFits` | src/hardware/startup/lib/invert_timer_freq.c:55-63 | no step leaves 32 bits, and every step makes progress |
| `TimerFreq.OneDigit` | src/hardware/startup/lib/invert_timer_freq.c:56-59 | quotient and remainder of the power of ten reached |
| `TimerFreq.InverseClose` | src/hardware/startup/lib/invert_timer_freq.c:55-65 | the period is exact or off by less than one part in UINT_MAX/10 - 10 |
| `TimerFreq.InverseUnique` | src/hardware/startup/lib/invert_timer_freq.c:55-65 | period and scale are determined by the frequency |
| `TimerFreq.DividedClose` | src/hardware/startup/lib/invert_timer_freq.c:49-53 | the error against the given frequency when it had to be divided by ten |
| `TimerFreq.InvertedClose` | src/hardware/startup/lib/invert_timer_freq.c:49-65 | period times frequency against one second, in units of ten to the scale, for every frequency |
| `TimerFreq.InvertTimerFreq` | src/hardware/startup/lib/invert_timer_freq.c:34-66 | terminates for every non-zero frequency with the quotient of the shortest sufficient power of ten; zero is the crash |

## Left out

- SD/MMC: DRVR_STATE pause and run, suspend and resume, the power-manager pulses, background operation internals, card removal and re-insertion (which clears the protection flags), erase, firmware update, RPMB, ASSD, a frozen queue, and handlers that return CAM_REQ_INPROG.
- SD/MMC retries: `sdmmc_read_write` repeats a transfer only under SDMMC_SIM_RETRY (`src/hardware/devb/sdmmc/sim_sdmmc.c` lines 1989 and 2102), which is commented out (`src/hardware/devb/sdmmc/sim_sdmmc.h` line 72); a transfer either succeeds, or fails after storing or not storing its data.
- ReliableWrite.Splitter: block addresses are unbounded; a wrap of the 64-bit LBA is not modelled.
- AddressSpace: offsets are indices into the table, and the list of ranges is a linked list whose nodes link by index in an arena; stack allocation and the 16-bit fields for owner and name are not modelled, nor the entry pointer that the overlay pass keeps across a growing section.
- AddressSpace.Partition: stated for containers nested parent first; `AsExact.PartitionExactly` gives the exact condition, for entries and requests that do not end before they start.
- Callouts: machine code and the patcher routines are opaque; a placed routine is its position, its read/write offset and its data. The block allocator of list nodes is not modelled.
- HwAlloc.Section.AllocItem: section offsets stay below the null offset 0xFFFF in words; 32-bit overflow is not modelled. `hwi_grow_tag` and the `hwidev_*`, `hwibus_*` and `hwitag_*` wrappers are left out.
- ElfLoader: addresses are unbounded naturals, the BOOTSTRAPS_RUN_ONE_TO_ONE branch, the non-virtual path of `load_elf64`, page permissions and `elf32.c` are left out.
- BootArgs.Block.DoAdjust: old and new both null is excluded, counts stay below the limit of `int8_t`, and the memory in front of the block is long enough for the bytes that the right shift reads.
- CmdLine.Tokenizer.Tweak: fetching the text from the device tree or from EFI is left out; the block must have room for the words.
- EfiWalk.RegisteredIs: stated for maps without overlaps that end below the top of the address space; debug output is left out.
- Spi: the DMA path, the timeout computation and chip-select handling are left out.
- Pl011.Uart.Injected: `tx_inject` itself is not part of the repository; the model follows what `tto` says of it.
- Pl011: receive DMA, output processing (OPOST), the FIFO path without DMA, and a failing `setup_xfer` are left out; one device, because the staging counter is a function static.
- IntrParent: the `parent` argument is always given.
- Calendar.Gmtime: fields are unbounded; a year or hour beyond the range of `int` is reported as such, not truncated.
- RamAlloc.Ram.AddRam: the address-space entry, the temporary system page and the watchers are left out, and so are addresses that reach 2 to the 64; colours and the range of `find_ram_in_range` are left out, alignments and page sizes are powers of two.
- RamElf.Served: the loader does not check for a failed allocation; the theorem is about served requests.
- I2C, mini UART, RTC chip readers, PCI, ACPI, SMP release, option parsing, logging and attach code are register sequences or wrappers that would only add easy members.
