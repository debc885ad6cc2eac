# Cache and out-of-order simulator cores in Dafny

This project models two teaching simulators from a computer-architecture
course and proves properties of the models.

**Set-associative cache simulator** (`project3_code/project3_code/cache.cc`, `cache.h`).

- A cache has a size, an associativity, a line size, an address width, a
  write-hit policy (write-back or write-through) and a write-miss policy
  (write-allocate or no-write-allocate).
- The constructor derives the set count, the offset, index and tag bit
  counts, and the three address masks. It marks every block invalid, with
  the tag UNDEFINED.
- `read` and `write` split the address into set index and tag and search
  the ways of that set.
  - A hit refreshes the block's LRU stamp. A write hit under write-back
    also marks the block dirty.
  - A miss fills the lowest free way. If no way is free, it evicts the way
    with the smallest stamp, the first one on a tie.
  - A write miss under no-write-allocate leaves the cache unchanged.
- `run` replays trace entries and counts reads, writes, misses, evictions,
  write-throughs, write-backs and allocations. `num_of_mem_writes` combines
  these counts according to the two policies.

Files:

- `cache_geometry.dfy` (module `CacheGeometry`): the geometry arithmetic.
- `cache_model.dfy` (module `CacheModel`): the behaviour as pure functions
  on a value of the tag array (`sets[set][way]`) together with the counters.
- `cache.dfy` (module `CacheSimulator`): the `Cache` class. It keeps the
  tag array as a two-dimensional `array2<Block>` indexed `[way, set]`, as
  the C++ does. Every method is proved to move its `View()` exactly as the
  pure functions say.

**Tomasulo simulator with a reorder buffer** (`project2_code/c++/sim_ooo.cc`, `sim_ooo.h`).

This part models the simulator's building blocks:

- the opcode classes and the routing of opcodes to reservation-station
  kinds and execution-unit kinds;
- the integer ALU, including branch targets and the label offsets the
  loader computes;
- the little-endian word/byte conversions of data memory;
- the search helpers over the reorder buffer (ROB), the reservation
  stations, the instruction window and the execution units;
- the circular instruction queue and one fetch step;
- placing an instruction in a station, and the common-data-bus wakeup of
  waiting operands;
- the constructor's station layout, and `reset`.

Files:

- `ooo_types.dfy` (module `OooTypes`): the records and enumerations of
  `sim_ooo.h`, and the classifiers.
- `ooo_alu.dfy` (module `OooAlu`): 32-bit arithmetic and memory words.
- `ooo_state.dfy` (module `OooState`): the whole machine state as a value
  (`MachineState`), and reset, station placement and wakeup as functions on
  it.
- `ooo_sim.dfy` (module `OooSimulator`): the `SimOoo` class.
  - The fixed-size tables are `array`s and the counters are fields.
  - The ghost `State()` reads the object as a `MachineState`, so `Reset`
    is proved against the pure `ResetSpec`.
  - Read-only searches are proved to return the first matching index, or
    UNDEFINED when there is none.

`bits.dfy` (module `Bits`) gives unsigned words as bounded integers, with
`&`, `|`, `^` and the shifts defined arithmetically. Every C++ `unsigned`
wrap-around the models depend on is written out with `Wrap` (modulo 2^32).

## Model

| member | source | states |
|---|---|---|
| CacheGeometry.Log2FloorBounds | project3_code/project3_code/cache.cc:43-49 | the shift-and-count loop yields the largest n with 2^n <= x |
| CacheGeometry.Log2FloorPow2 | project3_code/project3_code/cache.cc:43-49 | for a power of two 2^n the loop yields exactly n |
| CacheGeometry.FloorLog2 | project3_code/project3_code/cache.cc:44-49 | the counting loop computes the floor of log2 of its argument |
| CacheGeometry.LowMask | project3_code/project3_code/cache.cc:58-61 | the loop OR-ing in 1 << i for i < n builds the mask of the n low bits |
| CacheGeometry.SetCountFits | project3_code/project3_code/cache.cc:37-38 | the sets times the line size never exceed the cache size |
| CacheGeometry.GeometryOfShape | project3_code/project3_code/cache.cc:37-77 | for a valid configuration: the index and offset bit counts are the floor logs of set count and line size, offset+index+tag bits equal the address width, and the geometry is well shaped |
| CacheGeometry.ExactBitsForPowersOfTwo | project3_code/project3_code/cache.cc:40-51 | when line size and set count are powers of two, the offset and index fields have exactly their log2 widths |
| CacheGeometry.ComputeGeometry | project3_code/project3_code/cache.cc:37-77 | the constructor's bit counts and masks are exactly the geometry function of the configuration |
| CacheGeometry.MaskBits | project3_code/project3_code/cache.cc:56-77 | bit k of each mask is set exactly when k lies in that mask's field |
| CacheGeometry.MasksPartitionAddress | project3_code/project3_code/cache.cc:56-77 | the offset, index and tag masks are pairwise disjoint and together cover the address width |
| CacheGeometry.SetIndexField | project3_code/project3_code/cache.cc:223-224 | (address & idx_mask) >> offset_bits is the index field and is below the set count |
| CacheGeometry.WellShapedIndexInRange | project3_code/project3_code/cache.cc:223-224 | every address maps to an existing set |
| CacheGeometry.TagField | project3_code/project3_code/cache.cc:225-226 | (address & tag_mask) >> (idx_bits + offset_bits) is the tag field, fits in tag_bits, and is never UNDEFINED |
| CacheGeometry.AddressSplitsExactly | project3_code/project3_code/cache.cc:223-226 | an address is recovered from its tag, set index and offset |
| CacheModel.FindTag | project3_code/project3_code/cache.cc:229-235 | the way scan returns the first way holding the tag, or the way count when none does |
| CacheModel.LruVictim | project3_code/project3_code/cache.cc:352-362 | the eviction scan returns a way with the least stamp, the first such way on a tie |
| CacheModel.LruVictimUnique | project3_code/project3_code/cache.cc:356-361 | only one way satisfies the victim rule |
| CacheModel.VictimIsAWay | project3_code/project3_code/cache.cc:348-369 | evict always names a way of the set |
| CacheModel.HitIffPresent | project3_code/project3_code/cache.cc:228-283 | a read or a write hits exactly when the tag is present in its set |
| CacheModel.ReadHitTouchesOnlyLru | project3_code/project3_code/cache.cc:229-235 | a read hit changes only the stamp of the hit block, and nothing else in the set |
| CacheModel.WriteHitPolicy | project3_code/project3_code/cache.cc:267-282 | a write hit refreshes the stamp, marks the block dirty unless write-through, and leaves the other ways untouched |
| CacheModel.ReadMissFillsOneWay | project3_code/project3_code/cache.cc:236-254 | a read miss installs a clean block in one way: the lowest free way, with no eviction, or else the LRU victim, which is reported |
| CacheModel.WriteMissPolicy | project3_code/project3_code/cache.cc:285-314 | no-write-allocate leaves the set unchanged; write-allocate installs a dirty block in the lowest free way or the LRU victim |
| CacheModel.AccessKeepsTagsUnique | project3_code/project3_code/cache.cc:218-315 | no access makes a tag appear twice in a set, and the accessed tag is present afterwards unless a no-write-allocate write missed |
| CacheModel.RunCount | project3_code/project3_code/cache.cc:200-202 | run stops after num_entries accesses, or at the end of the trace, or never early when num_entries is 0 |
| CacheModel.StepCounts | project3_code/project3_code/cache.cc:172-200 | each trace entry adds one access and one read or one write, and one miss of that kind exactly when the access missed |
| CacheModel.RunTraceCounts | project3_code/project3_code/cache.cc:152-203 | after a trace, accesses and reads+writes have each grown by the trace length |
| CacheModel.ReadAccessCounters | project3_code/project3_code/cache.cc:236-254 | a read changes only two counters. A miss into a set with no free way counts exactly one eviction. It also counts one write-back exactly when the hit policy is write-back and the LRU victim is dirty |
| CacheModel.WriteAccessCounters | project3_code/project3_code/cache.cc:266-314 | the exact counter changes of a write: a write-through hit counts a write-through; a no-write-allocate miss counts a no-write-allocate; a write-allocate miss into a full set counts one eviction and one write-allocate, plus a write-back when write-back and the victim is dirty; a write-allocate fill of a free way counts nothing |
| CacheModel.CountersAfterStep | project3_code/project3_code/cache.cc:172-202 | one access keeps the counter relations: accesses equal reads plus writes, misses and evictions are bounded, and the policy-specific counters stay in step with the policies |
| CacheModel.MemWritesBound | project3_code/project3_code/cache.cc:392-409 | the memory-write statistic is at most writes plus evictions, and equals the write count under write-through with no-write-allocate |
| CacheModel.InitialState | project3_code/project3_code/cache.cc:94-100 | the new tag array has set_count sets of associativity invalid blocks |
| CacheModel.InitialInv | project3_code/project3_code/cache.cc:88-115 | the cache as constructed satisfies the tag-array invariant |
| CacheModel.VictimDirtyImpliesValid | project3_code/project3_code/cache.cc:365-367 | a dirty block that is evicted always holds a valid tag, so each write-back writes a real line |
| CacheModel.StepKeepsInv | project3_code/project3_code/cache.cc:158-202 | one trace entry keeps the invariant: the shape, valid tags that fit tag_bits, no duplicates, stamps earlier than now, and consistent counters |
| CacheModel.RunTraceKeepsInv | project3_code/project3_code/cache.cc:152-203 | every trace keeps the invariant |
| CacheModel.ReachableProperties | project3_code/project3_code/cache.cc:18-203 | from construction, after any trace: no set holds a tag twice, accesses equal the trace length, and memory writes are bounded by writes plus evictions |
| CacheModel.AccessIsLocal | project3_code/project3_code/cache.cc:218-315 | every access changes only the set its address maps to; every access except a no-write-allocate write miss leaves the tag in that set with the newest stamp among valid blocks, and that miss leaves the whole tag array unchanged |
| CacheSimulator.NewBlockArray | project3_code/project3_code/cache.cc:88-100 | a fresh associativity x set_count array of invalid blocks |
| CacheSimulator.Cache.constructor | project3_code/project3_code/cache.cc:18-117 | keeps the configuration, computes the geometry, and starts with every block invalid and every counter zero |
| CacheSimulator.Cache.FindWay | project3_code/project3_code/cache.cc:229-235 | the way scan over the array agrees with FindTag on the set's column |
| CacheSimulator.Cache.Evict | project3_code/project3_code/cache.cc:348-370 | returns the LRU victim of the set, counts the eviction, and counts a write-back when write-back and the victim is dirty |
| CacheSimulator.Cache.Read | project3_code/project3_code/cache.cc:218-255 | result and new tag array and counters are exactly ReadAccess of the old state |
| CacheSimulator.Cache.Write | project3_code/project3_code/cache.cc:257-315 | result and new tag array and counters are exactly WriteAccess of the old state |
| CacheSimulator.Cache.WriteHit | project3_code/project3_code/cache.cc:267-282 | the hit branch of write agrees with WriteAccess |
| CacheSimulator.Cache.WriteMiss | project3_code/project3_code/cache.cc:285-291 | the miss branch of write agrees with WriteAccess |
| CacheSimulator.Cache.WriteAllocateMiss | project3_code/project3_code/cache.cc:292-314 | the write-allocate miss agrees with WriteAccess |
| CacheSimulator.Cache.LoadTrace | project3_code/project3_code/cache.cc:148-150 | the trace becomes the given entries, read from its start |
| CacheSimulator.Cache.ProcessEntry | project3_code/project3_code/cache.cc:158-202 | one loop iteration of run advances the state by Step of the entry |
| CacheSimulator.Cache.Run | project3_code/project3_code/cache.cc:152-204 | consumes RunCount entries and leaves the state RunTrace of the old state over exactly those entries |
| CacheSimulator.Cache.NumOfMemWrites | project3_code/project3_code/cache.cc:392-409 | write-backs or write-throughs by hit policy, plus allocations or no-allocations by miss policy |
| OooTypes.ClassesPartition | project2_code/c++/sim_ooo.cc:53-75 | the branch, memory, integer and FP-ALU classes are disjoint, and cover every opcode except MULT, DIV and EOP |
| OooTypes.StationRouting | project2_code/c++/sim_ooo.cc:120-171 | which station kind each opcode class needs; EOP needs none |
| OooTypes.UnitRouting | project2_code/c++/sim_ooo.cc:357-408 | which execution-unit kind each opcode class needs; EOP needs none |
| OooTypes.GetRegType | project2_code/c++/sim_ooo.cc:1202-1233 | 1 exactly for LWS, SWS and the floating-point operations, 2 exactly for EOP, 0 otherwise |
| OooTypes.CheckOpFpStr | project2_code/c++/sim_ooo.cc:1235-1268 | 1 exactly for SW, SWS and the floating-point operations, 2 exactly for EOP, 0 otherwise |
| OooTypes.RegisterTables | project2_code/c++/sim_ooo.cc:1202-1268 | the two tables agree on every floating-point operation and differ exactly for SW and LWS |
| OooTypes.CleanRs | project2_code/c++/sim_ooo.cc:108-117 | cleaning keeps a station's kind and name |
| OooTypes.CleaningFrees | project2_code/c++/sim_ooo.cc:78-117 | a cleaned ROB entry, window slot and station are free, and cleaning twice is cleaning once |
| OooAlu.SignedRoundTrip | project2_code/c++/sim_ooo.cc:1271-1277 | the unsigned register and its int reading convert into each other without loss |
| OooAlu.AddSubInverse | project2_code/c++/sim_ooo.cc:282-289 | ADD and SUB undo each other modulo 2^32, and ADDI/SUBI compute the same as ADD/SUB |
| OooAlu.AluCommutes | project2_code/c++/sim_ooo.cc:282-298 | ADD, ADDI, MULT, AND and XOR are commutative |
| OooAlu.BitwiseOps | project2_code/c++/sim_ooo.cc:290-295 | AND and XOR act bit by bit; XOR with the same operand twice restores, and with itself gives 0 |
| OooAlu.MultDiv | project2_code/c++/sim_ooo.cc:296-301 | DIV is the floor quotient, and MULT is the product when it fits in 32 bits |
| OooAlu.BranchOutcome | project2_code/c++/sim_ooo.cc:317-329 | a branch yields pc+4+imm or pc+4, and the former exactly when its condition holds on the signed register |
| OooAlu.BranchPairs | project2_code/c++/sim_ooo.cc:318-324 | BEQZ/BNEZ, BLTZ/BGEZ and BGTZ/BLEZ are complementary; BLTZ tests the sign bit |
| OooAlu.NonBranchDefault | project2_code/c++/sim_ooo.cc:317-329 | memory opcodes and EOP fall to the default case and yield pc+4 |
| OooAlu.TakenTarget | project2_code/c++/sim_ooo.cc:314-326 | a jump or taken branch yields pc+4+imm |
| OooAlu.LabelOffsetValue | project2_code/c++/sim_ooo.cc:743 | the loader's offset is 4*(target-i-1) modulo 2^32 |
| OooAlu.BranchReachesLabel | project2_code/c++/sim_ooo.cc:735-748 | a taken branch at slot i with the loader's offset lands on the label's slot |
| OooAlu.Char2UnsignedValue | project2_code/c++/sim_ooo.cc:47-49 | four bytes are read as a little-endian word |
| OooAlu.LoadAfterStore | project2_code/c++/sim_ooo.cc:39-49 | reading a word just stored returns it |
| OooAlu.StoreAfterLoad | project2_code/c++/sim_ooo.cc:39-49 | storing the word just read changes nothing |
| OooAlu.StoreIsLocal | project2_code/c++/sim_ooo.cc:39-44 | a store changes exactly its four bytes, to the word's bytes least significant first |
| OooAlu.Unsigned2Char | project2_code/c++/sim_ooo.cc:39-44 | the buffer becomes Store of the old buffer |
| OooState.CleanStations | project2_code/c++/sim_ooo.cc:1173-1182 | reset cleans every station |
| OooState.ResetEstablishes | project2_code/c++/sim_ooo.cc:1128-1196 | after reset: every reset property holds, sizes and configuration are kept, stations keep kind and name, and every ROB entry, station, window slot and register status is free |
| OooState.ResetFixedPoints | project2_code/c++/sim_ooo.cc:1128-1196 | resetting twice is resetting once, and reset leaves a state unchanged exactly when it is already reset |
| OooState.ResetKeepsReset | project2_code/c++/sim_ooo.cc:1128-1196 | a reset state is unchanged by reset |
| OooState.LayoutSurvivesReset | project2_code/c++/sim_ooo.cc:1173-1182 | the constructor's station layout survives reset |
| OooState.LayoutAt | project2_code/c++/sim_ooo.cc:776-792 | integer stations come first, then load buffers, add stations and multiply stations, each numbered from 0 |
| OooState.LayoutNamesUnique | project2_code/c++/sim_ooo.cc:776-792 | no two stations share kind and name |
| OooState.AddInstEffect | project2_code/c++/sim_ooo.cc:181-227 | the station takes the pc, and the address for LW, SW and LWS; nothing else changes |
| OooState.AddInstLosesSwsOffset | project2_code/c++/sim_ooo.cc:209-214 | as written, SWS does not record its offset while SW does |
| OooState.AddInstFixedRecordsOffset | project2_code/c++/sim_ooo.cc:186-214 | corrected: every memory opcode records its immediate; only SWS differs from the written code |
| OooState.WakeupEffect | project2_code/c++/sim_ooo.cc:906-915 | an operand waiting on the ROB entry gets its value and tag 0; everything else is kept |
| OooState.WakeupResolves | project2_code/c++/sim_ooo.cc:906-915 | for an entry other than 0, nothing waits on it afterwards and a second broadcast changes nothing |
| OooState.WakeupZeroOverwritesResolved | project2_code/c++/sim_ooo.cc:908-915 | as written, a broadcast from ROB entry 0 overwrites operands already resolved |
| OooState.WakeupFixedKeepsResolved | project2_code/c++/sim_ooo.cc:908-915 | corrected: resolved operands keep their values, waiting ones get the value, nothing waits afterwards, idempotent |
| OooState.InstrIndexOfSlot | project2_code/c++/sim_ooo.cc:987 | (pc - base)/4 of the pc of slot k is k |
| OooState.InstrIndexNext | project2_code/c++/sim_ooo.cc:987-993 | advancing the fetch pc by 4 advances the instruction index by one |
| OooSimulator.SimOoo.constructor | project2_code/c++/sim_ooo.cc:756-797 | sizes as configured, stations laid out in the four groups, no units, and the reset state |
| OooSimulator.SimOoo.LayStations | project2_code/c++/sim_ooo.cc:776-792 | the station array carries the layout |
| OooSimulator.SimOoo.NameGroup | project2_code/c++/sim_ooo.cc:778-781 | one group of stations gets its kind and the names 0, 1, ... |
| OooSimulator.SimOoo.Reset | project2_code/c++/sim_ooo.cc:1128-1196 | the new state is ResetSpec of the old state |
| OooSimulator.SimOoo.ClearStorage | project2_code/c++/sim_ooo.cc:1133-1153 | memory is all 0xFF, instruction memory is all EOP, registers and tags are UNDEFINED, and register status is clean |
| OooSimulator.SimOoo.ClearPipeline | project2_code/c++/sim_ooo.cc:1155-1182 | every window slot, ROB entry and station is clean |
| OooSimulator.SimOoo.ClearMemory | project2_code/c++/sim_ooo.cc:1134 | memory is all 0xFF |
| OooSimulator.SimOoo.ClearInstrMemory | project2_code/c++/sim_ooo.cc:1136-1143 | every slot holds EOP with undefined fields |
| OooSimulator.SimOoo.ClearRegisters | project2_code/c++/sim_ooo.cc:1145-1153 | integer registers and tags hold UNDEFINED; FP registers and tags hold UNDEFINED converted to float; every status is clean |
| OooSimulator.SimOoo.ClearWindow | project2_code/c++/sim_ooo.cc:1155-1162 | every window slot is clean |
| OooSimulator.SimOoo.ClearRob | project2_code/c++/sim_ooo.cc:1164-1171 | every ROB entry is clean |
| OooSimulator.SimOoo.ClearStations | project2_code/c++/sim_ooo.cc:1173-1182 | every station is cleaned |
| OooSimulator.SimOoo.WriteMemory | project2_code/c++/sim_ooo.cc:335-337 | memory becomes Store of the old memory, and reading the word back gives the value |
| OooSimulator.SimOoo.GetIntRegister | project2_code/c++/sim_ooo.cc:1271-1273 | the signed reading of the register |
| OooSimulator.SimOoo.SetIntRegister | project2_code/c++/sim_ooo.cc:1275-1277 | only that register changes, and reading it back gives the value |
| OooSimulator.SimOoo.GetFpRegister | project2_code/c++/sim_ooo.cc:1279-1281 | the register's bits |
| OooSimulator.SimOoo.SetFpRegister | project2_code/c++/sim_ooo.cc:1283-1285 | only that register changes |
| OooSimulator.SimOoo.GetIntRegisterTag | project2_code/c++/sim_ooo.cc:1287-1289 | the ROB tag in the register status, UNDEFINED after reset |
| OooSimulator.SimOoo.GetFpRegisterTag | project2_code/c++/sim_ooo.cc:1291-1293 | the ROB tag in the register status, UNDEFINED after reset |
| OooSimulator.SimOoo.GetFreeRob | project2_code/c++/sim_ooo.cc:87-96 | the first free ROB entry, UNDEFINED exactly when none is free |
| OooSimulator.SimOoo.GetRob | project2_code/c++/sim_ooo.cc:99-104 | the first ROB entry holding pc, UNDEFINED exactly when none does |
| OooSimulator.SimOoo.GetFreeRs | project2_code/c++/sim_ooo.cc:120-171 | the first free station of the opcode's kind, UNDEFINED exactly when none is free or for EOP |
| OooSimulator.SimOoo.GetRs | project2_code/c++/sim_ooo.cc:174-179 | the first station holding pc, UNDEFINED exactly when none does |
| OooSimulator.SimOoo.RsAddInst | project2_code/c++/sim_ooo.cc:181-227 | only station rs changes: it takes the pc, and every load or store records its offset as the address (corrected, see Findings) |
| OooSimulator.SimOoo.Broadcast | project2_code/c++/sim_ooo.cc:906-915 | every operand waiting on the ROB entry takes its value, resolved operands are untouched, and afterwards nothing waits on the entry (corrected, see Findings) |
| OooSimulator.SimOoo.IqPush | project2_code/c++/sim_ooo.cc:240-244 | the tail slot gets pc and the tail moves on circularly |
| OooSimulator.SimOoo.IqFind | project2_code/c++/sim_ooo.cc:255-263 | the first slot holding pc, UNDEFINED exactly when none does |
| OooSimulator.SimOoo.IqPop | project2_code/c++/sim_ooo.cc:247-252 | the first slot holding pc is cleaned, nothing else changes, and the head moves on circularly |
| OooSimulator.SimOoo.IqFull | project2_code/c++/sim_ooo.cc:266-273 | full exactly when no slot is free |
| OooSimulator.SimOoo.FetchStep | project2_code/c++/sim_ooo.cc:983-994 | with room, queues the fetch pc and halts on EOP, else advances the pc by 4; when full, changes nothing |
| OooSimulator.SimOoo.InitExecUnit | project2_code/c++/sim_ooo.cc:346-354 | appends that many idle units of the kind and latency, and keeps the others |
| OooSimulator.SimOoo.GetFreeUnit | project2_code/c++/sim_ooo.cc:357-408 | exits exactly with no units or for EOP; otherwise the first idle unit of the needed kind, or UNDEFINED exactly when none is idle |
| OooSimulator.SimOoo.GetExeUnit | project2_code/c++/sim_ooo.cc:411-418 | the first configured unit holding pc, UNDEFINED exactly when none does |

## Left out

- `sim_ooo::run` as a whole (sim_ooo.cc:862-1125): the issue, execute, write-result and commit stages, the unit latency countdown, and the logging. Only the wakeup loop and the fetch step are modelled, as `Broadcast` and `FetchStep`.
- Floating-point ALU cases (ADDS, SUBS, MULTS, DIVS) and `float2unsigned`/`unsigned2float`. `Alu` excludes them by precondition; FP registers are kept as raw 32-bit patterns.
- `SetFpRegister`, `GetFpRegister`: take and return the register's bit pattern, not a `float`.
- `load_program`: the text parser and label table are left out. Only the offset formula at sim_ooo.cc:743 is modelled (`LabelOffset`).
- `cache::load_trace`, the trace stream and the hexadecimal parsing in `run`. The trace is a sequence of (read?, address) entries, and the stream position is a field.
- Printing, logging and statistics output: `print_*`, `init_log`, `commit_to_log`, `get_policy`. The double-valued `get_IPC` and `get_average_access_time` are left out too.
- `get_instructions_executed`, `get_clock_cycles`: plain getters of fields the model exposes directly.
- Destructors of both classes: deallocation has no counterpart in the model.
- `GetFreeUnit`: models `exit(-1)` as the `Exited` result.
- `IqPop`: requires the pc to be present, because the C++ indexes out of bounds otherwise.
- `InitExecUnit`: requires room for the new units, because the C++ writes past `exec_units[MAX_UNITS]` otherwise.
- `WriteMemory`: requires the four bytes to lie inside data memory, because `unsigned2char` writes past `data_memory` otherwise.
- `RsAddInst`: requires `rs` to name a station, because the C++ indexes `reservation_stations.entries` out of bounds otherwise.
- `Broadcast`: requires the broadcasting index to name a ROB entry, because the C++ reads `rob.entries` out of bounds otherwise.
- `Alu`: requires a nonzero divisor for DIV, because C++ division by zero is undefined.
- `CacheGeometry.ComputeGeometry`, `CacheSimulator.Cache.constructor`: both require `ValidConfig`, which excludes configurations the C++ accepts but then mishandles. Each case below is left out:
  - `line_size * associativity` is 0, or reaches 2^32. The unsigned product at cache.cc:38 wraps, so the C++ divides by zero or computes a wrong set count.
  - The set count is 0, because `size < line_size * associativity`. The C++ allocates rows of length 0 (cache.cc:91), and the first access indexes past them.
  - `idx_bits + offset_bits` exceeds `address_width`. The unsigned `tag_bits` at cache.cc:51 then wraps to a huge count, and the tag-mask loop at cache.cc:74-76 shifts `1` by 32 or more, which is undefined.
  - A tag width above 31 bits. The mask loops at cache.cc:59-76 shift the `int` 1 by up to `bits - 1`, which is undefined from 31 on.
- `CacheModel.Counters`: the cache counters and LRU stamps are unbounded; the C++ `unsigned` wraps after 2^32 accesses, which is not modelled.
- `OooSimulator.SimOoo.constructor`: leaves `instr_base_address` unconstrained, as the C++ leaves it uninitialised until `load_program`. Reset copies it into `IQ_pc`. The model does not say which value that is.
- `FetchStep`: requires the fetch index to lie inside the instruction memory. The C++ reads out of bounds otherwise.

## Findings

The as-written behaviour is kept in `Wakeup` and `AddInst`, with a lemma exhibiting each discrepancy. The simulator class uses the corrected definitions: `Broadcast` follows `WakeupFixed` and `RsAddInst` follows `AddInstFixed`. With the corrected wakeup, a resolved operand carries UNDEFINED instead of 0. Two parts of `run` use 0 for a resolved operand and would change the same way. The issue stage writes tag 0 for operands that are already available (sim_ooo.cc:1031, 1055, 1063, 1080, 1088). The readiness tests compare against 0 (for example sim_ooo.cc:960 and 970). `run` is not part of this model.

`RS_add_inst` has no caller in sim_ooo.cc. The issue stage sets the station address itself, for SW and SWS too (sim_ooo.cc:1101-1114). So the SWS discrepancy sits in a helper that `run` never calls, and it changes no simulation.

| source | as written | input that shows it | evidently intended | confidence | as-written member | corrected member |
|---|---|---|---|---|---|---|
| project2_code/c++/sim_ooo.cc:908-915 | a resolved operand gets tag 0, and the wakeup loop overwrites every operand whose tag equals the broadcasting ROB index | a station with both tags 0 (already resolved, values 5 and 6) when ROB entry 0 broadcasts 7: both values become 7 | mark resolved operands with a value that is never a ROB index (UNDEFINED), so only waiting operands change | not executed | OooState.WakeupZeroOverwritesResolved | OooState.WakeupFixedKeepsResolved |
| project2_code/c++/sim_ooo.cc:209-214 | RS_add_inst records the immediate as the address for LW, SW and LWS, but not for SWS | SWS with immediate 16 placed in a cleaned station: the address stays UNDEFINED, while SW with the same fields records 16 | every load and store, including SWS, records its offset | not executed | OooState.AddInstLosesSwsOffset | OooState.AddInstFixedRecordsOffset |
