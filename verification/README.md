# Verified models of XRT core routines

Dafny models of the parts of the Xilinx Runtime core that carry algorithms, state and arithmetic, with proofs of
what they promise.

- `TaskQueue`: the multi-producer / multi-consumer task queue of `task.h`. Each lock-held section is a method of a
  class; the threads around it are a transition system whose runs the theorems quantify over.
- `AieLayout`, `AieStatus`: the AIE status dump of `info_aie2.cpp`, its three parsers, the bitmap of active columns and
  the report. The driver that writes the dump is not in the repository, so the layout its comment describes is the
  specification the parsers are proved to invert.
- `KernelArgs`, `ComputeUnits`: argument merging, compute-unit ordering, encoding and indices of `xclbin_parser.cpp`.
- `ErtPacket`, `Scheduler`: the command packet of `ert.h`, the packets `scheduler.cpp` builds and the naming loop of
  `info_memory.cpp` that inverts the soft-kernel ranges.
- `ErtSlots`, `MemAccess`, `UsageMetrics`, `Connectivity`, `UnitConvert`: slot sizing, memory access by bank, usage
  counters, the connectivity section and size printing.
- `Common`, `Sorting`, `Bits`: sums, stable sorting, and bit operations on numbers.

Time, device answers and parsed metadata are parameters. Machine integers are numbers with their wrap-around written
out where a result can depend on it. A sort by the interrupt-id comparator is a parameter, so that results hold for
every order `std::sort` may choose among equivalent compute units.

Where the code does not do what its comments or documentation say, the model follows the code; where the two agree on
some inputs only, a lemma gives the exact condition:

- A memory request that goes past its starting bank reads or writes every part at the first address and clips each
  part to the whole request (`MemAccess.DocumentedIffOneBank`). Unless it ends exactly at a bank's end it moves more
  than was asked for (`MemAccess.OverrunsUnlessOnBankEnd`). A read of size 0 performs no transfer, although a comment
  says it reads all available memory (`MemAccess.EmptyReadMovesNothing`).
- Rounding slots up can make them smaller than the largest register map (`ErtSlots.SlotHoldsRegmap`), and a register
  map larger than the queue leads to a division by zero (`ErtSlots.GetErtSlots`).
- The opcode check makes room for one descriptor and ignores chains and properties (`ErtPacket.TrailingMustFit`).
- A soft kernel without instances makes the naming loop stay on it, for 2^32 entries, and misname what follows
  (`Scheduler.NamingInvertsRanges`, `Scheduler.EmptyKernelMisnames`); the names shown are right exactly under
  `Scheduler.ShownRightIffHarmless`.
- A control value wider than three bits is cut off and can change the encoded context, and an address that is not a
  multiple of 256 is changed by the encoding (`ComputeUnits.EncodedDecodes`).
- The active buffer count is never decremented, so below 2^32 buffers it equals the peak
  (`UsageMetrics.BuffersAlwaysSound`).

## Model

| member | source | states |
|---|---|---|
| `TaskQueue.NoLostWakeup` | src/runtime_src/core/common/task.h:130-162 | In every reachable running state with a sleeping worker there are at least as many awake workers inside getWork as queued tasks; when none is awake, the queue is empty. Any number of threads, any interleaving, spurious wake-ups included. |
| `TaskQueue.FifoExactlyOnce` | src/runtime_src/core/common/task.h:130-162 | In every reachable state the delivered tasks followed by the queued ones are the added ones in order; finished, in-hand and queued tasks are together exactly the added ones; distinct tasks are never delivered twice. |
| `TaskQueue.ShutdownTerminates` | src/runtime_src/core/common/task.h:145-179 | However a run goes on after stop, nothing more is delivered, nobody sleeps, the workers' own steps use up a measure of at most two per worker exactly, and some worker can move until all have exited. |
| `TaskQueue.FinishesOnlyTaskInHand` | src/runtime_src/core/common/task.h:372-381 | After stop a worker finishes at most one task, and only if it held one. |
| `TaskQueue.AwakeWorkersDrain` | src/runtime_src/core/common/task.h:145-162 | From any state with as many awake workers as tasks there is a run of one getWork pass per task, by those workers alone, that empties the queue and delivers its contents in order. |
| `TaskQueue.QueueDrains` | src/runtime_src/core/common/task.h:130-162 | From any reachable running state with a worker, every run of the workers' own steps uses up exactly its length of a measure on queued tasks and worker states, and while a task is queued some worker can move: after at most that many steps the queue is empty, whatever the interleaving. |
| `TaskQueue.WorkMoves` | src/runtime_src/core/common/task.h:130-162 | In every reachable running state with a queued task and a worker, some worker can enter getWork, pass through it or finish its task. |
| `TaskQueue.RunSpendsWork` | src/runtime_src/core/common/task.h:130-162 | Over every run without stop the workers' steps are paid for exactly: two for each task added, one for each worker woken, and the work there was. |
| `TaskQueue.StepKeepsStaff` | src/runtime_src/core/common/task.h:372-381 | No worker exits while the queue runs. |
| `TaskQueue.WaitTimeIsIdleTime` | src/runtime_src/core/common/task.h:130-162 | In debug mode, whenever tasks are queued, the accumulated wait time is the time the queue stood empty after its first drain, modulo 2^64. |
| `TaskQueue.ReachableInvariant` | src/runtime_src/core/common/task.h:130-179 | Every reachable state satisfies the wake-up, order, conservation and timing invariants together. |
| `TaskQueue.StepKeepsWakeups` | src/runtime_src/core/common/task.h:130-179 | Each step keeps the counting invariant behind the wake-up guarantee, and that a stopped queue has no sleeper. |
| `TaskQueue.StepKeepsOrder` | src/runtime_src/core/common/task.h:130-162 | Each step keeps delivered + queued = added. |
| `TaskQueue.StepConserves` | src/runtime_src/core/common/task.h:145-162 | Each step keeps, task by task, delivered = finished + in hand. |
| `TaskQueue.StepKeepsTime` | src/runtime_src/core/common/task.h:130-162 | Each step keeps the drain time point set exactly while the queue is empty after a delivery, and the wait time equal to the idle time so far. |
| `TaskQueue.StoppedRun` | src/runtime_src/core/common/task.h:145-179 | Over every run from a stopped state without sleepers: still stopped, still no sleepers, same deliveries, and the remaining measure plus the worker steps taken is constant. |
| `TaskQueue.StoppedStep` | src/runtime_src/core/common/task.h:145-179 | The same for one step: every worker step lowers the measure by exactly one, producers leave it alone. |
| `TaskQueue.MpmcQueue.constructor` | src/runtime_src/core/common/task.h:123-128 | A new queue is empty, running, with no drain time. |
| `TaskQueue.MpmcQueue.AddWork` | src/runtime_src/core/common/task.h:130-143 | The new state is the old one with the task at the back and, in debug mode, a pending drain time turned into wait time. |
| `TaskQueue.MpmcQueue.GetWorkOnce` | src/runtime_src/core/common/task.h:145-162 | One pass of the locked section: sleep or stop with the state unchanged, or take the front task, with the whole new state. The theorems over runs use this same step for all three outcomes. |
| `TaskQueue.MpmcQueue.Stop` | src/runtime_src/core/common/task.h:171-179 | Only the stop flag changes. |
| `TaskQueue.WorkerDebug` | src/runtime_src/core/common/task.h:342-370 | The counters, 64 bits wide, that are added to, corrected after the first turn and subtracted at the end come out as: turns plus one, the time spent in tasks, and the waits except the first (past 2^64 turns, except those up to the last turn that counts as a first one). |
| `TaskQueue.TurnsAddUp` | src/runtime_src/core/common/task.h:345-362 | The same while the loop runs: the work counter is the time in tasks plus the waits counted so far. |
| `AieLayout.SanityCheckIsSane` | src/runtime_src/core/common/info_aie2.cpp:715-728 | The sanity check passes exactly when the advertised column size is positive and is the sum of the three kinds of tiles. |
| `AieLayout.WordAt` | src/runtime_src/core/common/info_aie2.cpp:535-553 | A word read at a position is w exactly when the bytes there are w's, least significant first. |
| `AieLayout.CoreAt` | src/runtime_src/core/common/info_aie2.cpp:513-565 | Decoding a core tile at a position gives t exactly when the bytes there are t laid out; the layout has the size the size function computes. |
| `AieLayout.EdgeAt` | src/runtime_src/core/common/info_aie2.cpp:605-689 | The same for mem and shim tiles. |
| `AieLayout.WordIsLittleEndian` | src/runtime_src/core/common/info_aie2.cpp:535-553 | A word is its four bytes, least significant first. |
| `AieLayout.CoreFields` | src/runtime_src/core/common/info_aie2.cpp:520-558 | Where each field of a core tile is read: DMA pairs, core events, mem events, status, pc, sp, lr, locks, at their byte offsets. |
| `AieLayout.EdgeFields` | src/runtime_src/core/common/info_aie2.cpp:614-629 | Where each field of a mem or shim tile is read: DMA pairs, events, locks. |
| `AieLayout.ColumnsAt` | src/runtime_src/core/common/info_aie2.cpp:504-512 | Decoding columns at a position gives cs exactly when the bytes there are cs laid out as core, mem, shim rows per column. |
| `AieStatus.ParseCoreTiles` | src/runtime_src/core/common/info_aie2.cpp:513-565 | The cursor loop over the whole buffer returns the core tiles of every decoded column, and stays inside the buffer. |
| `AieStatus.ParseMemTiles` | src/runtime_src/core/common/info_aie2.cpp:605-634 | The same for mem tiles. |
| `AieStatus.ParseShimTiles` | src/runtime_src/core/common/info_aie2.cpp:663-689 | The same for shim tiles. |
| `AieStatus.ReadCoreTile` | src/runtime_src/core/common/info_aie2.cpp:520-558 | One core tile read field by field is the decoded tile, and the cursor ends behind it. |
| `AieStatus.ReadEdgeTile` | src/runtime_src/core/common/info_aie2.cpp:614-629 | The same for one mem or shim tile. |
| `AieStatus.ParserReadsExactlyItsBytes` | src/runtime_src/core/common/info_aie2.cpp:513-689 | Two dumps give a parser the same tiles exactly when they agree on the bytes it owns. Each byte of a column has one owner, so every byte is read by exactly one parser and no other depends on it. |
| `AieStatus.TileAt` | src/runtime_src/core/common/info_aie2.cpp:504-689 | Where each tile is read: row r of column c, core rows first in a column, mem rows behind them, shim rows last, at the byte offset given by the sizes. |
| `AieStatus.PosOnto` | src/runtime_src/core/common/info_aie2.cpp:504-512 | Every byte of an n-column dump is some byte of some column below n. |
| `AieStatus.PosInside` | src/runtime_src/core/common/info_aie2.cpp:504-512 | Every byte of a column below n lies inside an n-column dump. |
| `AieStatus.RoundTrip` | src/runtime_src/core/common/info_aie2.cpp:494-689 | Laying out any columns of the right shape and decoding them gives the columns back. |
| `AieStatus.Reencode` | src/runtime_src/core/common/info_aie2.cpp:494-689 | Laying out the decoded columns gives back the first col_size * n bytes of the dump. |
| `AieStatus.DumpExists` | src/runtime_src/core/common/info_aie2.cpp:715-728 | A tile description that passes the sanity check, with a one-column dump for it: the hypotheses of the statements above can be met. |
| `AieStatus.RankStep` | src/runtime_src/core/common/info_aie2.cpp:787-822 | The running index grows by one at exactly the active columns. |
| `AieStatus.RankCounts` | src/runtime_src/core/common/info_aie2.cpp:787-822 | The running index at a column is the number of active columns below it. |
| `AieStatus.PopCountIsRank` | src/runtime_src/core/common/info_aie2.cpp:751-757 | The number of packed entries is the rank behind the last bit. |
| `AieStatus.RankInBounds` | src/runtime_src/core/common/info_aie2.cpp:751-757 | The number of active columns below any column is at most popcount, and less for an active column: its index is in the packed vector. |
| `AieStatus.RankMonotone` | src/runtime_src/core/common/info_aie2.cpp:787-822 | Indices of active columns are strictly increasing with the column. |
| `AieStatus.CountActive` | src/runtime_src/core/common/info_aie2.cpp:751-757 | The shift loop returns the popcount of the bitmap. |
| `AieStatus.GetAieData` | src/runtime_src/core/common/info_aie2.cpp:736-777 | Fails exactly on an empty bitmap; otherwise one entry per active column, each that column's tiles of the asked kind. |
| `AieStatus.FormatStatus` | src/runtime_src/core/common/info_aie2.cpp:779-826 | Fails exactly on an empty bitmap; otherwise every column shows its own packed entry if active and nothing if not. |
| `AieStatus.ReportShowsColumnContents` | src/runtime_src/core/common/info_aie2.cpp:736-826 | End to end: whatever the active columns held when packed and laid out, the report shows for every active column its core, mem or shim tiles as asked, and nothing for the others. |
| `KernelArgs.GetKernelArguments` | src/runtime_src/core/common/xclbin_parser.cpp:972-977 | Succeeds exactly when the indices in use are 0..k-1. Then argument j is stored at j and stands for all of j's components: identity of the first parsed, sizes and hostsizes summed, least offset; the unindexed arguments follow untouched. |
| `KernelArgs.MergeArgs` | src/runtime_src/core/common/xclbin_parser.cpp:354-388 | The in-place merge loop returns the run-wise merge of its input, or the error exactly when some indexed argument is not at its index. |
| `KernelArgs.MergeComponents` | src/runtime_src/core/common/xclbin_parser.cpp:366-377 | The inner loop stops at the end of the run of equal indices and has folded the whole run. |
| `KernelArgs.MergeRunsMerges` | src/runtime_src/core/common/xclbin_parser.cpp:345-353 | On a sorted list the merge has one argument per index in use, in increasing order, each the merge of all its components, then the unindexed ones. |
| `KernelArgs.InPlaceIffGapless` | src/runtime_src/core/common/xclbin_parser.cpp:382-387 | The post-condition check passes exactly when no index in use has an unused index below it. |
| `KernelArgs.RunIsGroup` | src/runtime_src/core/common/xclbin_parser.cpp:369-372 | In a sorted list, stopping at the first different index misses no component. |
| `KernelArgs.LeastOffset` | src/runtime_src/core/common/xclbin_parser.cpp:376-376 | The minimum over the components: attained by one and below all. |
| `KernelArgs.MergedMore` | src/runtime_src/core/common/xclbin_parser.cpp:374-376 | Folding one more component into a merged one is merging the longer group, with 64-bit wrap-around of the sizes. |
| `ComputeUnits.EncodedListAgrees` | src/runtime_src/core/common/xclbin_parser.cpp:548-582 | Under either ordering, for any sort the comparator allows and any addresses, the encoded and the plain CU list agree at every index above the low byte; with that byte cleared the encoded list is the plain list exactly when all CU addresses are multiples of 256. |
| `ComputeUnits.EncodedDecodes` | src/runtime_src/core/common/xclbin_parser.cpp:565-576 | The address comes back from an encoded entry exactly when it is a multiple of 256; then the control value does exactly when it has three bits, and the context exactly when the control bits above those three are among its own. |
| `ComputeUnits.EncodedKeepsAddress` | src/runtime_src/core/common/xclbin_parser.cpp:565-576 | Encoding changes no address above the low byte. |
| `ComputeUnits.WideControlExample` | src/runtime_src/core/common/xclbin_parser.cpp:568-573 | A four-bit control value: control 8 with context 0 reads back as control 0 with context 1. |
| `ComputeUnits.CompareIsStrictWeakOrder` | src/runtime_src/core/common/xclbin_parser.cpp:177-190 | The comparator is irreflexive, asymmetric, transitive, with transitive incomparability; it orders CUs with an address by bits 7-1 of their properties and puts CUs without one last. |
| `ComputeUnits.MaskedFields` | src/runtime_src/core/common/xclbin_parser.cpp:186-187 | The interrupt id is bits 7-1 and the control value bits 15-8 of the properties. |
| `ComputeUnits.FreeRunningLast` | src/runtime_src/core/common/xclbin_parser.cpp:177-190 | In any list sorted by the comparator, nothing with an address follows a CU without one. |
| `ComputeUnits.IntrIdSortExists` | src/runtime_src/core/common/xclbin_parser.cpp:561-563 | A sort obeying the comparator exists, so the statements over all such sorts are not empty. |
| `ComputeUnits.IsLegacyCuIntr` | src/runtime_src/core/common/xclbin_parser.cpp:157-175 | The two counters agree exactly when bits 7-1 of the properties are 0 for every PL and PS kernel. |
| `ComputeUnits.GetCus` | src/runtime_src/core/common/xclbin_parser.cpp:548-582 | Filter, order and encode loops return the specified list in both orderings. |
| `ComputeUnits.PlainList` | src/runtime_src/core/common/xclbin_parser.cpp:548-582 | The plain list without its construction: one entry per CU; exactly their addresses, 2^64 - 256 for a CU without one; ascending when no CU has an interrupt id, and otherwise the CUs by interrupt id with those without address behind. |
| `ComputeUnits.AddressedFirst` | src/runtime_src/core/common/xclbin_parser.cpp:192-203 | CUs without an address come last in either ordering: the first place of a PL CU with an address below 2^64 - 256 is below the number of CUs with an address. |
| `ComputeUnits.CusMembers` | src/runtime_src/core/common/xclbin_parser.cpp:548-582 | The plain list holds exactly the addresses of the valid CUs. |
| `ComputeUnits.GetCuIndices` | src/runtime_src/core/common/xclbin_parser.cpp:513-546 | The map's names are exactly those with an indexable entry, and each maps to the index of the first such entry in the layout. |
| `ComputeUnits.PsIndexCounts` | src/runtime_src/core/common/xclbin_parser.cpp:529-532 | A PS kernel's index is, in domain 1, the number of PS kernels before it modulo 2^16. |
| `ComputeUnits.OthersNotIndexed` | src/runtime_src/core/common/xclbin_parser.cpp:525-526 | An IP that is neither a PL nor a PS kernel has no index. |
| `ComputeUnits.PlIndexHoldsBase` | src/runtime_src/core/common/xclbin_parser.cpp:527-541 | A PL CU gets an index exactly when it has an address; the plain list holds the address at the 16-bit index exactly when the address's first place in the list fits 16 bits. |
| `ComputeUnits.IndicesDistinct` | src/runtime_src/core/common/xclbin_parser.cpp:513-546 | With distinct names and PL addresses every indexed CU is in the map, at a place of its own in its domain; two (domain, index) pairs coincide exactly when two places of a domain agree modulo 2^16, which takes more than 2^16 entries. |
| `ErtPacket.ChainWalk` | src/runtime_src/core/include/ert.h:1049-1066 | Walking a well-formed chain visits exactly chained + 1 consecutive descriptors and then ends; the next word is the computed register-map start exactly when chained + 1 does not wrap at 2^32. |
| `ErtPacket.AcceptedIffFits` | src/runtime_src/core/include/ert.h:951-1040 | For every start opcode: accepted exactly when masks, one descriptor and the minimum register map fit in count words. |
| `ErtPacket.AcceptanceByOpcode` | src/runtime_src/core/include/ert.h:951-1040 | What each opcode number asks of count, masks and packet size, which numbers are always accepted and which never. |
| `ErtPacket.StartFields` | src/runtime_src/core/include/ert.h:134-151 | The accessors read stat_enabled, extra_cu_masks, count and opcode where the header struct lays them out. |
| `ErtPacket.RegmapBeginAt` | src/runtime_src/core/include/ert.h:1097-1119 | The word at which the register map starts, and which word of the descriptor moves it, by opcode number. |
| `ErtPacket.DpuDataAt` | src/runtime_src/core/include/ert.h:1049-1057 | A packet has DPU descriptors exactly when it starts a DPU kernel, behind its extra masks. |
| `ErtPacket.AcceptedPacketIsPartitioned` | src/runtime_src/core/include/ert.h:1042-1132 | When masks, descriptor and trailing words fit in count, the packet is header, masks, descriptor, trailing words and register map in turn, and is accepted exactly when the register map has the opcode's minimum size; without chain or properties every accepted packet is of this form. |
| `ErtPacket.TrailingMustFit` | src/runtime_src/core/include/ert.h:1097-1126 | The register map of an accepted packet starts inside it exactly when chain or properties fit in count too, or when chained + 1 wraps to 0: then the register map lies over the descriptors. |
| `ErtPacket.AcceptedDespiteOverrun` | src/runtime_src/core/include/ert.h:968-972 | A concrete accepted packet whose register map would start past its end, since the check makes room for one descriptor only. |
| `ErtPacket.P2RoundupRoundsUp` | src/runtime_src/core/include/ert.h:1135-1135 | The negate-and-mask macro yields the multiple of 2^k in [x, x + 2^k) for every 64-bit x and every k, wrapping to 0 exactly where that multiple is 2^64. |
| `ErtPacket.TimestampsFollowPacket` | src/runtime_src/core/include/ert.h:1136-1165 | Timestamps start at the least 8-aligned byte offset past the packet; the size with timestamps is 96 more, and not 0 exactly for opcodes 0, 5, 9 and 12 with bit 4 of the header set. |
| `Scheduler.HeaderFields` | src/runtime_src/core/common/scheduler.cpp:113-115 | Fields written into a header word read back as written, cut to their widths, with no effect on one another. |
| `Scheduler.FillConfigure` | src/runtime_src/core/common/scheduler.cpp:111-134 | Every field of the configure command at its word and bits: state, count, opcode and type in the header, slot size, number of CUs, shift 16, base offset, the seven feature bits, and the CU addresses; zeros after it. |
| `Scheduler.FeatureBits` | src/runtime_src/core/common/scheduler.cpp:124-130 | Each switch is its own bit of the feature word, and no other bit is set. |
| `Scheduler.ConfigureInBuffer` | src/runtime_src/core/common/scheduler.cpp:111-134 | The 4096-byte buffer holds the packet exactly for up to 1018 CUs, and every packet it holds is accepted. |
| `Scheduler.ConfigureAgrees` | src/runtime_src/core/common/scheduler.cpp:120-134 | Word 6 + k of the packet with its low byte cleared is entry k of the plain CU list modulo 2^32, cleared likewise, which changes nothing where addresses are multiples of 256. |
| `Scheduler.ConfigureAccepted` | src/runtime_src/core/common/scheduler.cpp:111-134 | The packet built is accepted by the validity check exactly when its payload length, in 32 bits, fits the 11-bit count; then its computed size is its real size. |
| `Scheduler.FillImages` | src/runtime_src/core/common/scheduler.cpp:166-176 | Image k starts at the sum of the instance counts before it modulo 2^32, has its own instance count and its name cut to 19 characters. |
| `Scheduler.StartStep` | src/runtime_src/core/common/scheduler.cpp:166-176 | Each kernel's range starts where the previous one ends, and all lie below the total. |
| `Scheduler.SkConfigAccepted` | src/runtime_src/core/common/scheduler.cpp:159-164 | The header fields of the soft-kernel configure packet; it is accepted exactly when its payload fits the 11-bit count, as it does for the up to 146 images the 4096-byte buffer holds. |
| `Scheduler.NameScus` | src/runtime_src/core/common/info_memory.cpp:506-540 | The two-counter loop with its 32-bit wrap shows for every entry the text of the kernel and instance found by walking the instance counts, or the driver's own name. |
| `Scheduler.InstanceTextUnique` | src/runtime_src/core/common/info_memory.cpp:519-523 | A shown instance name tells the kernel's symbol and the instance number. |
| `Scheduler.DecimalValue` | src/runtime_src/core/common/info_memory.cpp:523-523 | The decimal string of an instance number stands for that number. |
| `Scheduler.InstanceTextExample` | src/runtime_src/core/common/info_memory.cpp:519-523 | Instance 12 of vadd is shown as vadd:vadd_12. |
| `Scheduler.NamingInvertsRanges` | src/runtime_src/core/common/info_memory.cpp:506-540 | If no kernel without instances precedes one with instances: every entry below the total is named after an instance, and it is kernel k, instance i exactly when start(k) + i = j. |
| `Scheduler.EmptyKernelMisnames` | src/runtime_src/core/common/info_memory.cpp:533-539 | The condition is exact for the (kernel, instance) pair: otherwise some entry below the total is taken for an instance it is not. |
| `Scheduler.ShownNameTellsInstance` | src/runtime_src/core/common/info_memory.cpp:506-540 | With distinct symbols and no empty kernel in front of another: the text shown for an entry below the total is that of kernel k, instance i exactly when start(k) + i = j. |
| `Scheduler.ShownRightIffHarmless` | src/runtime_src/core/common/info_memory.cpp:506-540 | For any kernels: all entries below the total show the text of their true instance exactly when nothing with instances follows the first empty kernel, except a single kernel of the same symbol. |
| `Scheduler.ShownRightIffEmptyLast` | src/runtime_src/core/common/info_memory.cpp:506-540 | With distinct symbols: exactly when no kernel without instances precedes one with instances. |
| `Scheduler.SharedSymbolHides` | src/runtime_src/core/common/info_memory.cpp:519-523 | Two kernels of one symbol, the first empty: the wrong pair still shows the right name. |
| `Scheduler.PastTotal` | src/runtime_src/core/common/info_memory.cpp:515-517 | With instances everywhere, exactly the entries past the total keep the driver's name. |
| `ErtSlots.GetErtSlots` | src/runtime_src/core/common/device.cpp:393-429 | The override path with its error, and otherwise the computed slots; without an override it fails (division by zero) exactly when the largest register map exceeds the queue. |
| `ErtSlots.SlotsAreSound` | src/runtime_src/core/common/device.cpp:409-428 | 1 to 128 slots, at most 16 or a multiple of 32, together inside the queue, and as many as wanted whenever the largest register map fits that split. |
| `ErtSlots.SlotHoldsRegmap` | src/runtime_src/core/common/device.cpp:416-428 | A slot holds the largest register map exactly for stated numbers of CUs and map sizes: up to 7 CUs; maps up to 512 bytes, of 676..682, 1009..1024, 1986..2048 or at least 3856; maps up to 682, 1024 or 2048 bytes with up to 47, 31 or 15 CUs. |
| `ErtSlots.UnroundedAtLeast` | src/runtime_src/core/common/device.cpp:413-420 | Before rounding, k slots are reached exactly when k of the larger of the equal share and the largest register map fit the queue. |
| `ErtSlots.RoundingShrinksSlots` | src/runtime_src/core/common/device.cpp:422-426 | A concrete case where rounding makes slots smaller than the largest register map. |
| `ErtSlots.UnroundedBounds` | src/runtime_src/core/common/device.cpp:409-420 | Before rounding: 1 to 128 slots, the largest register map fits that many times, and the wish is met whenever it can be. |
| `MemAccess.AcceptedIffUsable` | src/runtime_src/core/common/memaccess.cpp:48-143 | For disjoint used banks a request is accepted exactly when its start address is valid and its size is at most the number, modulo 2^64, of used-bank bytes at or above it. |
| `MemAccess.AcceptanceRule` | src/runtime_src/core/common/memaccess.cpp:74-143 | Over the topology alone: no valid banks exactly without a used bank of non-zero size; otherwise the request starts at its address or, for 0, at the least base of such a bank; the start is invalid exactly when no used bank ending below 2^64 holds it; from a valid start, where used banks do not overlap, it is accepted there exactly when its size is at most the used bytes at or above it modulo 2^64, and too large otherwise. |
| `MemAccess.AvailableIsUsable` | src/runtime_src/core/common/memaccess.cpp:110-122 | The available size computed from the starting bank is the number of used-bank bytes at or above the address, modulo 2^64. |
| `MemAccess.GetDdrBanks` | src/runtime_src/core/common/memaccess.cpp:48-72 | The used, non-streaming banks in bytes, sorted by base. |
| `MemAccess.BanksAre` | src/runtime_src/core/common/memaccess.cpp:56-69 | The banks are sorted by base and are exactly the used, non-streaming entries with their kilobytes as bytes. |
| `MemAccess.PerformMemoryAction` | src/runtime_src/core/common/memaccess.cpp:131-198 | The first failing check decides the error. An accepted request appends to the buffer, for each bank from the starting one on, the bank's bytes clipped to the whole request, always from the first address. Where the banks hold fewer than 2^64 bytes from there on, it moves exactly the request and succeeds when that ends in its starting bank or at the end of a later one; otherwise it moves more than the request, one transfer per remaining bank, and reports it as incomplete. |
| `MemAccess.OverrunsUnlessOnBankEnd` | src/runtime_src/core/common/memaccess.cpp:154-197 | Exactly the request is moved, with nothing left over, when it ends in its starting bank or exactly at a later bank's end; otherwise more than the request is moved, past the caller's buffer, and bytes are reported as left over. |
| `MemAccess.LaterBanks` | src/runtime_src/core/common/memaccess.cpp:154-192 | For the banks after the first: with r bytes to go, the loop moves r bytes if some number of these banks hold exactly r, and else more than r, running to the last bank. |
| `MemAccess.PerformedShape` | src/runtime_src/core/common/memaccess.cpp:157-191 | Offset, length and address of every transfer. |
| `MemAccess.OverrunExample` | src/runtime_src/core/common/memaccess.cpp:166-191 | Used banks of 1 KB at 0 and 4 KB at 4096: a request of 2048 bytes from 0 is accepted, 3072 bytes go into its buffer and 2^64 - 1024 are reported as left. |
| `MemAccess.EmptyReadMovesNothing` | src/runtime_src/core/common/memaccess.cpp:145-155 | Every accepted request of size 0 moves nothing, although bytes of its starting bank lie at and above its start address. |
| `MemAccess.EmptyReadExample` | src/runtime_src/core/common/memaccess.cpp:145-155 | One used kilobyte at address 0: a read without a size is accepted with 1024 bytes available, and reads none. |
| `MemAccess.RunTransfers` | src/runtime_src/core/common/memaccess.cpp:150-192 | The loop performs the specified transfers and ends with the specified number of bytes left. |
| `MemAccess.DocumentedIsComplete` | src/runtime_src/core/common/memaccess.h:29-42 | The documented bank-by-bank behaviour moves the whole request, fills the buffer in order and stays inside used banks. |
| `MemAccess.DocumentedIffOneBank` | src/runtime_src/core/common/memaccess.cpp:154-192 | The transfers performed are the documented ones exactly when the request ends in its starting bank; then it is one transfer of that size at that address, with nothing left. |
| `MemAccess.SeveralBanks` | src/runtime_src/core/common/memaccess.cpp:166-183 | A request going past its starting bank is always performed differently from what is documented. |
| `UsageMetrics.BuffersAlwaysSound` | src/runtime_src/core/common/usage_metrics.cpp:142-164 | After every sequence of calls a logged device's active count is the number of buffers logged on it and its known contexts modulo 2^32, and its peak that number up to 2^32 - 1; below 2^32 both equal the sum of the owners' counts. |
| `UsageMetrics.RecordsWhatIsKnown` | src/runtime_src/core/common/usage_metrics.cpp:355-467 | After every sequence of calls the logger has a device exactly if the device was logged, a context exactly if it was logged after its device, and a kernel exactly if it was logged after its context. |
| `UsageMetrics.ContextIdentity` | src/runtime_src/core/common/usage_metrics.cpp:371-395 | A context keeps the handle and the xclbin of its first logging after its device. |
| `UsageMetrics.AverageBelowPeak` | src/runtime_src/core/common/usage_metrics.cpp:201-204 | The reported average size never exceeds the peak size while fewer than 2^32 buffers were logged for the owner. |
| `UsageMetrics.AverageIsBelowPeakIff` | src/runtime_src/core/common/usage_metrics.cpp:201-204 | For every trace: the reported average is within the peak size exactly when the number of buffers is a multiple of 2^32, or the bytes modulo 2^64 are fewer than that number modulo 2^32 times one more than the peak size. |
| `UsageMetrics.AverageAboveWrappedCount` | src/runtime_src/core/common/usage_metrics.cpp:201-204 | The bound on the number matters: after 2^32 + 1 one-byte buffers the average is 2^32 + 1 and the peak 1. |
| `UsageMetrics.BufferCountersAddUp` | src/runtime_src/core/common/usage_metrics.cpp:397-445 | After every sequence of calls counters exist for exactly the logged owners, and are the number (modulo 2^32), total size (modulo 2^64) and largest size of the buffers, and the bytes synced each way (modulo 2^64), among the events logged since the owner was. |
| `UsageMetrics.StepBos` | src/runtime_src/core/common/usage_metrics.cpp:371-445 | Only an owner's own buffer events change its counters; logging a context creates them, all zero, and nothing else does. |
| `UsageMetrics.KernelRunsArePairs` | src/runtime_src/core/common/usage_metrics.cpp:81-101 | After every sequence of calls exactly the logged kernels are recorded; the argument count is that of the first logging, and run count (modulo 2^32) and total time are those of the last-start / completed pairs among the run events since then. |
| `UsageMetrics.KernelCountsPairs` | src/runtime_src/core/common/usage_metrics.cpp:81-101 | The same for one kernel and any trace, with the table of start times holding exactly the runs still going. |
| `UsageMetrics.PairedTimeIsMicros` | src/runtime_src/core/common/usage_metrics.cpp:94-94 | The recorded time is the pairs' time in microseconds, off by less than one for each pair. |
| `UsageMetrics.MicrosIs` | src/runtime_src/core/common/usage_metrics.cpp:94-94 | Nanoseconds become whole microseconds, rounded toward zero. |
| `UsageMetrics.StepBufferCount` | src/runtime_src/core/common/usage_metrics.cpp:371-445 | A call counts a buffer once in its owner and once in the device, or changes no count. |
| `UsageMetrics.StepKernel` | src/runtime_src/core/common/usage_metrics.cpp:447-503 | Logging a kernel in a known context creates it if it is new; apart from that only its run events change what is recorded for it. |
| `UsageMetrics.Logger.LogDeviceInfo` | src/runtime_src/core/common/usage_metrics.cpp:355-369 | A device is added once, with zero counters; later calls change nothing. |
| `UsageMetrics.Logger.LogHwCtxInfo` | src/runtime_src/core/common/usage_metrics.cpp:371-395 | A context is appended once to a known device. |
| `UsageMetrics.Logger.LogBufferInfoConstruct` | src/runtime_src/core/common/usage_metrics.cpp:397-417 | Counts the buffer on the device or its context and the active and peak counts; unknown devices and contexts change nothing. |
| `UsageMetrics.Logger.LogBufferSync` | src/runtime_src/core/common/usage_metrics.cpp:428-445 | Adds the bytes to one direction's counter of the buffer's owner. |
| `UsageMetrics.Logger.LogKernelInfo` | src/runtime_src/core/common/usage_metrics.cpp:447-467 | A kernel is appended once to a known context. |
| `UsageMetrics.Logger.LogKernelRunInfo` | src/runtime_src/core/common/usage_metrics.cpp:469-503 | A run event reaches exactly the named kernel of the named context. |
| `Connectivity.GetConnectivity` | src/runtime_src/core/common/xclbin_swemu.cpp:125-168 | The sizing pass and the filling pass agree on every layout: the index stays below the count at each write, all entries are written, and they are the (IP, indexed argument) pairs in order, argument indices cut to 32 bits; the byte size matches. |
| `Connectivity.IpConnections` | src/runtime_src/core/common/xclbin_swemu.cpp:142-165 | For an IP named kernel:instance the section has, together and in order, one entry (index cut to 32 bits, IP, 0) for each indexed argument of the first kernel of that name, none if there is no such kernel, and no other entry names that IP. |
| `Connectivity.KernelNameIs` | src/runtime_src/core/common/xclbin_swemu.cpp:88-92 | The kernel name of kernel:instance, or of a name without colon, is the part before the first colon. |
| `Connectivity.RowsInOrder` | src/runtime_src/core/common/xclbin_swemu.cpp:156-165 | The section lists the IPs in layout order. |
| `Connectivity.FillRows` | src/runtime_src/core/common/xclbin_swemu.cpp:155-165 | The filling pass over any section of the right length. |
| `Connectivity.FillRow` | src/runtime_src/core/common/xclbin_swemu.cpp:158-164 | The inner loop writes one IP's connections behind those already there. |
| `Connectivity.LookupArgs` | src/runtime_src/core/common/xclbin_swemu.cpp:128-137 | The map gives every kernel name the indexed arguments of its first kernel, and unknown names none. |
| `Connectivity.RemoveUnindexed` | src/runtime_src/core/common/xclbin_swemu.cpp:131-135 | Keeps exactly the indexed arguments, in order. |
| `Connectivity.ConnectionsDistinct` | src/runtime_src/core/common/xclbin_swemu.cpp:155-165 | With arguments merged as by the parser, no connection occurs twice exactly when no IP's kernel has more than 2^32 indexed arguments. |
| `Connectivity.MergedInPlace` | src/runtime_src/core/common/xclbin_parser.cpp:345-353 | Merged arguments have one entry per index, stored at that index. |
| `UnitConvert.Convert` | src/runtime_src/core/common/utils.cpp:225-240 | Terminates with a valid unit for every 64-bit size. From 64 up value * 1024^k <= size < (value + 1) * 1024^k; powers of two are exact with value below 1024, other sizes have value in 64..65535. |
| `UnitConvert.ErrorBelowOneIn64` | src/runtime_src/core/common/utils.cpp:225-240 | A printed size that is not a power of two is low by less than one part in 64. |

## Left out

- Device queries, DMA, files, environment and logging: their results are parameters.
- XML, JSON and property-tree parsing: the models start from parsed kernels, arguments and IPs.
- Status strings of DMA channels, compute units, firewall and sensors, hexadecimal formatting, and the row labels of the AIE report: table lookups and formatting.
- AIE reports on more than 32 columns: the shift of the bitmap is undefined there.
- The task queue's `size()` and its pointer specialisation, which follows the same protocol; task futures and thread policies.
- A task object added to the queue is taken to be valid; adding an empty task would make the worker that gets it exit.
- The report printing and destructor of the usage logger, and its map over threads: one logger is modelled.
- Locking of device, system and configuration caches, and the buffer cache: easier members.
- `ert_fill_copybo_cmd`, the packet return-code macros and the U30 variants: field writes whose conventions depend on firmware.
- The xgq command headers: structs and constants only.
- UsageMetrics.KernelRunsArePairs: the accumulated time is unbounded; the source's is a signed 64-bit count of microseconds.
- Scheduler.FillConfigure: for a buffer long enough for the list; the source allocates 4096 bytes and copies without a check, so that longer lists (`Scheduler.ConfigureInBuffer`) write past it, which has no meaning in C++.
- Scheduler.FillImages: for an image table long enough for the kernels, as above; the packing of the name into words is not modelled.
- Scheduler.NameScus: the counter of kernels does not wrap; that would take 2^32 kernels.
- MemAccess.GetDdrBanks: banks with equal base addresses keep their order, which `std::sort` leaves open.
- MemAccess.PerformMemoryAction: device transfers are taken to succeed. For banks that hold 2^64 bytes or more from the start address on, which takes banks that overlap, reach past 2^64 or fill the address space, only the shape of the transfers is stated.
- Connectivity.GetConnectivity: the section is an array of entries and a byte count; entries are taken to number fewer than 2^31, past which the source's signed count has no meaning.
- KernelArgs.GetKernelArguments: the fields that merging only carries along are reduced to name, type, port, width and qualifier.
