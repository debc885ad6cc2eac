/**
 * The state of the Tomasulo simulator `sim_ooo` (sim_ooo.h:108-166) as a
 * value, and the specifications its methods are proved against: what
 * `reset` leaves behind (sim_ooo.cc:1128-1196), the layout the constructor
 * gives the reservation stations (sim_ooo.cc:776-791), the common data bus
 * wakeup (sim_ooo.cc:906-915) and the instruction-memory index of a pc.
 */
module OooState {
  import opened Bits
  import opened OooTypes
  import opened OooAlu

  /** `fp_regs[i] = UNDEFINED` converts 2^32 - 1 to the nearest `float`,
      2^32, whose IEEE-754 single-precision encoding is this word. */
  const FP_UNDEFINED: u32 := 0x4F80_0000

  /** An instruction-memory slot after reset (sim_ooo.cc:1138-1144). */
  const CleanInstruction: Instruction := Instruction(EOP, UNDEFINED, UNDEFINED, UNDEFINED, UNDEFINED)

  /** A register status after reset: no pending writer (sim_ooo.cc:1150-1151). */
  const CleanStatus: RegStatus := RegStatus(UNDEFINED, false)

  /** Every field of `sim_ooo` that the modelled operations read or write.
      Floating-point registers and tags hold the bits of their `float`. */
  datatype MachineState = MachineState(
    memory: seq<u8>,
    instrMemory: seq<Instruction>,
    intRegs: seq<u32>,
    fpRegs: seq<u32>,
    intRegsStat: seq<RegStatus>,
    fpRegsStat: seq<RegStatus>,
    intRegsTags: seq<u32>,
    fpRegsTags: seq<u32>,
    window: seq<WindowEntry>,
    rob: seq<RobEntry>,
    stations: seq<RsEntry>,
    units: seq<Unit>,
    numUnits: nat,
    iqHead: u32,
    iqTail: u32,
    iqPc: u32,
    instrBaseAddress: u32,
    clockCycles: u32,
    instructionsExecuted: u32,
    instCtr: u32,
    robHead: u32,
    issueWidth: u32)

  // ---------------------------------------------------------------------
  // reset (sim_ooo.cc:1128-1196)
  // ---------------------------------------------------------------------

  /** `n` copies of `x`. */
  function Filled<T>(n: nat, x: T): (r: seq<T>)
    ensures |r| == n && forall i :: 0 <= i < n ==> r[i] == x
  {
    seq(n, _ => x)
  }

  function CleanStations(s: seq<RsEntry>): (r: seq<RsEntry>)
    ensures |r| == |s| && forall n :: 0 <= n < |s| ==> r[n] == CleanRs(s[n])
  {
    seq(|s|, n requires 0 <= n < |s| => CleanRs(s[n]))
  }

  /** The state `reset` leaves: memory all 0xFF, every instruction slot EOP,
      registers, tags and statuses undefined, window, ROB and stations
      cleaned, counters and queue indices 0 and the fetch pc at the program
      base. Units, their number, the base address, the issue width and the
      station layout are kept. */
  function ResetSpec(s: MachineState): MachineState
  {
    s.(memory := Filled<u8>(|s.memory|, 0xFF),
       instrMemory := Filled(PROGRAM_SIZE, CleanInstruction),
       intRegs := Filled<u32>(NUM_GP_REGISTERS, UNDEFINED),
       fpRegs := Filled<u32>(NUM_GP_REGISTERS, FP_UNDEFINED),
       intRegsStat := Filled(NUM_GP_REGISTERS, CleanStatus),
       fpRegsStat := Filled(NUM_GP_REGISTERS, CleanStatus),
       intRegsTags := Filled<u32>(NUM_GP_REGISTERS, UNDEFINED),
       fpRegsTags := Filled<u32>(NUM_GP_REGISTERS, FP_UNDEFINED),
       window := Filled(|s.window|, CleanWindow),
       rob := Filled(|s.rob|, CleanRob),
       stations := CleanStations(s.stations),
       clockCycles := 0,
       instructionsExecuted := 0,
       instCtr := 0,
       robHead := 0,
       iqHead := 0,
       iqTail := 0,
       iqPc := s.instrBaseAddress)
  }

  /** A state whose storage is filled as reset fills it, whose counters
      and queue indices are 0, and whose configuration is that of `s`, is
      the reset of `s`. */
  lemma ResetSpecOf(s: MachineState, t: MachineState)
    requires t.memory == Filled<u8>(|s.memory|, 0xFF) && t.instrMemory == Filled(PROGRAM_SIZE, CleanInstruction)
    requires t.intRegs == Filled<u32>(NUM_GP_REGISTERS, UNDEFINED) && t.fpRegs == Filled<u32>(NUM_GP_REGISTERS, FP_UNDEFINED)
    requires t.intRegsStat == Filled(NUM_GP_REGISTERS, CleanStatus) && t.fpRegsStat == Filled(NUM_GP_REGISTERS, CleanStatus)
    requires t.intRegsTags == Filled<u32>(NUM_GP_REGISTERS, UNDEFINED) && t.fpRegsTags == Filled<u32>(NUM_GP_REGISTERS, FP_UNDEFINED)
    requires t.window == Filled(|s.window|, CleanWindow) && t.rob == Filled(|s.rob|, CleanRob)
    requires t.stations == CleanStations(s.stations)
    requires t.units == s.units && t.numUnits == s.numUnits && t.instrBaseAddress == s.instrBaseAddress
    requires t.issueWidth == s.issueWidth && t.iqPc == s.instrBaseAddress
    requires t.clockCycles == 0 && t.instructionsExecuted == 0 && t.instCtr == 0 && t.robHead == 0
    requires t.iqHead == 0 && t.iqTail == 0
    ensures t == ResetSpec(s)
  {
  }

  /** The reset state, property by property. */
  ghost predicate IsReset(s: MachineState)
  {
    (forall a :: 0 <= a < |s.memory| ==> s.memory[a] == 0xFF) &&
    |s.instrMemory| == PROGRAM_SIZE && (forall i :: 0 <= i < |s.instrMemory| ==> s.instrMemory[i] == CleanInstruction) &&
    |s.intRegs| == NUM_GP_REGISTERS && (forall i :: 0 <= i < |s.intRegs| ==> s.intRegs[i] == UNDEFINED) &&
    |s.fpRegs| == NUM_GP_REGISTERS && (forall i :: 0 <= i < |s.fpRegs| ==> s.fpRegs[i] == FP_UNDEFINED) &&
    |s.intRegsStat| == NUM_GP_REGISTERS && (forall i :: 0 <= i < |s.intRegsStat| ==> s.intRegsStat[i] == CleanStatus) &&
    |s.fpRegsStat| == NUM_GP_REGISTERS && (forall i :: 0 <= i < |s.fpRegsStat| ==> s.fpRegsStat[i] == CleanStatus) &&
    |s.intRegsTags| == NUM_GP_REGISTERS && (forall i :: 0 <= i < |s.intRegsTags| ==> s.intRegsTags[i] == UNDEFINED) &&
    |s.fpRegsTags| == NUM_GP_REGISTERS && (forall i :: 0 <= i < |s.fpRegsTags| ==> s.fpRegsTags[i] == FP_UNDEFINED) &&
    (forall i :: 0 <= i < |s.window| ==> s.window[i] == CleanWindow) &&
    (forall i :: 0 <= i < |s.rob| ==> s.rob[i] == CleanRob) &&
    (forall n :: 0 <= n < |s.stations| ==> s.stations[n] == CleanRs(s.stations[n])) &&
    s.clockCycles == 0 && s.instructionsExecuted == 0 && s.instCtr == 0 && s.robHead == 0 &&
    s.iqHead == 0 && s.iqTail == 0 && s.iqPc == s.instrBaseAddress
  }

  /** Reset establishes the reset state, keeps the configuration and the
      sizes, and frees every ROB entry, window slot and station. */
  lemma ResetEstablishes(s: MachineState)
    ensures IsReset(ResetSpec(s))
    ensures var t := ResetSpec(s);
      |t.memory| == |s.memory| && |t.window| == |s.window| && |t.rob| == |s.rob| && |t.stations| == |s.stations| &&
      t.units == s.units && t.numUnits == s.numUnits && t.instrBaseAddress == s.instrBaseAddress &&
      t.issueWidth == s.issueWidth &&
      (forall n :: 0 <= n < |s.stations| ==> t.stations[n].kind == s.stations[n].kind && t.stations[n].name == s.stations[n].name)
    ensures var t := ResetSpec(s);
      (forall i :: 0 <= i < |t.rob| ==> RobFree(t.rob[i])) &&
      (forall n :: 0 <= n < |t.stations| ==> RsFree(t.stations[n])) &&
      (forall i :: 0 <= i < |t.window| ==> t.window[i].pc == UNDEFINED) &&
      (forall i :: 0 <= i < NUM_GP_REGISTERS ==> t.intRegsStat[i].reorder == UNDEFINED && t.fpRegsStat[i].reorder == UNDEFINED)
  {
    ResetSpecIsReset(s);
  }

  /** Reset establishes every reset property. */
  lemma ResetSpecIsReset(s: MachineState)
    ensures IsReset(ResetSpec(s))
  {
    var t := ResetSpec(s);
    forall n | 0 <= n < |s.stations|
      ensures t.stations[n] == CleanRs(t.stations[n])
    {
      CleaningFrees(s.stations[n]);
    }
  }

  /** The states reset leaves are exactly its fixed points: resetting
      twice is resetting once, and a state in which every reset property
      holds is left as it is. */
  lemma ResetFixedPoints(s: MachineState)
    ensures ResetSpec(ResetSpec(s)) == ResetSpec(s)
    ensures ResetSpec(s) == s <==> IsReset(s)
  {
    var t := ResetSpec(s);
    ResetEstablishes(s);
    ResetKeepsReset(t);
    if IsReset(s) {
      ResetKeepsReset(s);
    }
  }

  /** A state that is already reset is unchanged by reset. */
  lemma ResetKeepsReset(s: MachineState)
    requires IsReset(s)
    ensures ResetSpec(s) == s
  {
    var t := ResetSpec(s);
    assert t.memory == s.memory;
    assert t.instrMemory == s.instrMemory;
    assert t.intRegs == s.intRegs;
    assert t.fpRegs == s.fpRegs;
    assert t.intRegsStat == s.intRegsStat;
    assert t.fpRegsStat == s.fpRegsStat;
    assert t.intRegsTags == s.intRegsTags;
    assert t.fpRegsTags == s.fpRegsTags;
    assert t.window == s.window;
    assert t.rob == s.rob;
    assert t.stations == s.stations;
  }

  // ---------------------------------------------------------------------
  // Reservation-station layout (sim_ooo.cc:776-791)
  // ---------------------------------------------------------------------

  /** Kind and name of every station as the constructor lays them out:
      the integer stations, then the load buffers, then the adder and the
      multiplier stations, each group named 0, 1, ... */
  function Layout(numInt: nat, numLoad: nat, numAdd: nat, numMul: nat): seq<(RsType, nat)>
  {
    seq(numInt, i => (IntegerRs, i)) + seq(numLoad, i => (LoadBuffer, i)) +
    seq(numAdd, i => (AddRs, i)) + seq(numMul, i => (MultRs, i))
  }

  /** The stations have the kinds and names of the layout. */
  ghost predicate HasLayout(s: seq<RsEntry>, numInt: nat, numLoad: nat, numAdd: nat, numMul: nat)
  {
    |s| == numInt + numLoad + numAdd + numMul &&
    forall m :: 0 <= m < |s| ==>
      s[m].kind == Layout(numInt, numLoad, numAdd, numMul)[m].0 &&
      s[m].name == Layout(numInt, numLoad, numAdd, numMul)[m].1
  }

  /** Cleaning the stations, as reset does, keeps the layout. */
  lemma LayoutSurvivesReset(s: seq<RsEntry>, numInt: nat, numLoad: nat, numAdd: nat, numMul: nat)
    requires HasLayout(s, numInt, numLoad, numAdd, numMul)
    ensures HasLayout(CleanStations(s), numInt, numLoad, numAdd, numMul)
  {
  }

  /** How many stations of each kind the constructor is asked for. */
  function KindCount(t: RsType, numInt: nat, numLoad: nat, numAdd: nat, numMul: nat): nat
  {
    match t
    case IntegerRs => numInt
    case LoadBuffer => numLoad
    case AddRs => numAdd
    case MultRs => numMul
  }

  /** The station at position `n`, by the group it falls in. */
  lemma LayoutAt(numInt: nat, numLoad: nat, numAdd: nat, numMul: nat, n: nat)
    requires n < numInt + numLoad + numAdd + numMul
    ensures |Layout(numInt, numLoad, numAdd, numMul)| == numInt + numLoad + numAdd + numMul
    ensures Layout(numInt, numLoad, numAdd, numMul)[n] ==
      if n < numInt then (IntegerRs, n)
      else if n < numInt + numLoad then (LoadBuffer, n - numInt)
      else if n < numInt + numLoad + numAdd then (AddRs, n - numInt - numLoad)
      else (MultRs, n - numInt - numLoad - numAdd)
  {
  }

  /** A kind and a name identify a station: no two positions share both,
      and every name is below the number of stations of its kind. */
  lemma LayoutNamesUnique(numInt: nat, numLoad: nat, numAdd: nat, numMul: nat, m: nat, n: nat)
    requires m < n < numInt + numLoad + numAdd + numMul
    ensures Layout(numInt, numLoad, numAdd, numMul)[m] != Layout(numInt, numLoad, numAdd, numMul)[n]
    ensures Layout(numInt, numLoad, numAdd, numMul)[n].1 <
      KindCount(Layout(numInt, numLoad, numAdd, numMul)[n].0, numInt, numLoad, numAdd, numMul)
  {
    LayoutAt(numInt, numLoad, numAdd, numMul, m);
    LayoutAt(numInt, numLoad, numAdd, numMul, n);
  }

  // ---------------------------------------------------------------------
  // Placing an instruction in a station (sim_ooo.cc:181-228)
  // ---------------------------------------------------------------------

  /** `RS_add_inst` as written: the station takes the pc, and LW, SW and
      LWS also record their immediate as the unresolved address. SWS does
      not. */
  function AddInst(e: RsEntry, pc: u32, inst: Instruction): RsEntry
  {
    var records := inst.opcode == LW || inst.opcode == SW || inst.opcode == LWS;
    e.(pc := pc, address := if records then inst.immediate else e.address)
  }

  /** The station holds the instruction afterwards; its address is the
      immediate for LW, SW and LWS and untouched for every other opcode;
      no operand, tag, destination, kind or name changes. */
  lemma AddInstEffect(e: RsEntry, pc: u32, inst: Instruction)
    ensures var r := AddInst(e, pc, inst);
      r.pc == pc && (pc != UNDEFINED ==> !RsFree(r)) &&
      (inst.opcode in {LW, SW, LWS} ==> r.address == inst.immediate) &&
      (inst.opcode !in {LW, SW, LWS} ==> r.address == e.address) &&
      r.kind == e.kind && r.name == e.name && r.value1 == e.value1 && r.value2 == e.value2 &&
      r.tag1 == e.tag1 && r.tag2 == e.tag2 && r.destination == e.destination
  {
  }

  /** As written, an SWS placed in a cleaned station keeps the undefined
      address although its immediate is 16, while an SW with the same
      operands records it. */
  lemma AddInstLosesSwsOffset(e: RsEntry)
    ensures AddInst(CleanRs(e), 8, Instruction(SWS, 1, 2, UNDEFINED, 16)).address == UNDEFINED
    ensures AddInst(CleanRs(e), 8, Instruction(SW, 1, 2, UNDEFINED, 16)).address == 16
  {
  }

  /** Every memory operation records its immediate. */
  function AddInstFixed(e: RsEntry, pc: u32, inst: Instruction): RsEntry
  {
    e.(pc := pc, address := if IsMemory(inst.opcode) then inst.immediate else e.address)
  }

  /** With the fix, a station holding a load or a store of either register
      file carries the immediate as its address, every other station keeps
      its address, and the fixed placement differs from the written one
      only for SWS. */
  lemma AddInstFixedRecordsOffset(e: RsEntry, pc: u32, inst: Instruction)
    ensures IsMemory(inst.opcode) ==> AddInstFixed(e, pc, inst).address == inst.immediate
    ensures !IsMemory(inst.opcode) ==> AddInstFixed(e, pc, inst).address == e.address
    ensures AddInstFixed(e, pc, inst).pc == pc
    ensures inst.opcode != SWS ==> AddInstFixed(e, pc, inst) == AddInst(e, pc, inst)
  {
  }

  // ---------------------------------------------------------------------
  // Common data bus wakeup (sim_ooo.cc:906-915)
  // ---------------------------------------------------------------------

  /** One station seeing ROB entry `r` broadcast `v`: an operand waiting on
      `r` takes the value and its tag becomes 0. */
  function WakeEntry(e: RsEntry, r: u32, v: u32): RsEntry
  {
    var e1 := if e.tag1 == r then e.(value1 := v, tag1 := 0) else e;
    if e1.tag2 == r then e1.(value2 := v, tag2 := 0) else e1
  }

  /** Every station seeing the broadcast. */
  function Wakeup(s: seq<RsEntry>, r: u32, v: u32): seq<RsEntry>
  {
    seq(|s|, x requires 0 <= x < |s| => WakeEntry(s[x], r, v))
  }

  /** An operand waiting on `r` receives `v` and is marked resolved; every
      other operand and every other field is left as it was. */
  lemma WakeupEffect(s: seq<RsEntry>, r: u32, v: u32, x: nat)
    requires x < |s|
    ensures |Wakeup(s, r, v)| == |s|
    ensures var e, w := s[x], Wakeup(s, r, v)[x];
      (e.tag1 == r ==> w.value1 == v && w.tag1 == 0) &&
      (e.tag1 != r ==> w.value1 == e.value1 && w.tag1 == e.tag1) &&
      (e.tag2 == r ==> w.value2 == v && w.tag2 == 0) &&
      (e.tag2 != r ==> w.value2 == e.value2 && w.tag2 == e.tag2) &&
      w.kind == e.kind && w.name == e.name && w.pc == e.pc && w.destination == e.destination && w.address == e.address
    ensures s[x].tag1 != r && s[x].tag2 != r ==> Wakeup(s, r, v)[x] == s[x]
  {
  }

  /** For a ROB entry other than 0, no station waits on it after its
      broadcast, and a second broadcast changes nothing. */
  lemma WakeupResolves(s: seq<RsEntry>, r: u32, v: u32)
    requires r != 0
    ensures forall x :: 0 <= x < |s| ==> Wakeup(s, r, v)[x].tag1 != r && Wakeup(s, r, v)[x].tag2 != r
    ensures Wakeup(Wakeup(s, r, v), r, v) == Wakeup(s, r, v)
  {
    var w := Wakeup(s, r, v);
    forall x | 0 <= x < |s|
      ensures Wakeup(w, r, v)[x] == w[x]
    {
      WakeupEffect(s, r, v, x);
      WakeupEffect(w, r, v, x);
    }
  }

  /** As written, a resolved operand carries tag 0, the same number as the
      first ROB entry, so a broadcast from ROB entry 0 overwrites operands
      that were already resolved. */
  lemma WakeupZeroOverwritesResolved()
    ensures var e := RsEntry(IntegerRs, 0, 8, 5, 6, 0, 0, 1, UNDEFINED);
      Wakeup([e], 0, 7)[0].value1 == 7 != e.value1 &&
      Wakeup([e], 0, 7)[0].value2 == 7 != e.value2
  {
  }

  /** The marker a resolved operand evidently should carry: one that is
      never a ROB index (every index is below the ROB size, itself below
      2^32). It is the value `clean_res_station` gives a free tag. */
  const RESOLVED: u32 := UNDEFINED

  function WakeEntryFixed(e: RsEntry, r: u32, v: u32): RsEntry
  {
    var e1 := if e.tag1 == r then e.(value1 := v, tag1 := RESOLVED) else e;
    if e1.tag2 == r then e1.(value2 := v, tag2 := RESOLVED) else e1
  }

  /** The broadcast with resolved operands marked by RESOLVED. */
  function WakeupFixed(s: seq<RsEntry>, r: u32, v: u32): seq<RsEntry>
  {
    seq(|s|, x requires 0 <= x < |s| => WakeEntryFixed(s[x], r, v))
  }

  /** With the distinct marker, a broadcast from any ROB entry, 0
      included, never touches a resolved operand, leaves no station
      waiting on that entry, delivers the value to every operand that was
      waiting, and is idempotent. */
  lemma WakeupFixedKeepsResolved(s: seq<RsEntry>, r: u32, v: u32)
    requires r != RESOLVED
    ensures |WakeupFixed(s, r, v)| == |s|
    ensures forall x :: 0 <= x < |s| && s[x].tag1 == RESOLVED ==> WakeupFixed(s, r, v)[x].value1 == s[x].value1
    ensures forall x :: 0 <= x < |s| && s[x].tag2 == RESOLVED ==> WakeupFixed(s, r, v)[x].value2 == s[x].value2
    ensures forall x :: 0 <= x < |s| ==> WakeupFixed(s, r, v)[x].tag1 != r && WakeupFixed(s, r, v)[x].tag2 != r
    ensures forall x :: 0 <= x < |s| && s[x].tag1 == r ==> WakeupFixed(s, r, v)[x].value1 == v
    ensures forall x :: 0 <= x < |s| && s[x].tag2 == r ==> WakeupFixed(s, r, v)[x].value2 == v
    ensures WakeupFixed(WakeupFixed(s, r, v), r, v) == WakeupFixed(s, r, v)
  {
    var w := WakeupFixed(s, r, v);
    forall x | 0 <= x < |s|
      ensures WakeupFixed(w, r, v)[x] == w[x]
    {
      assert w[x].tag1 != r && w[x].tag2 != r;
    }
  }

  // ---------------------------------------------------------------------
  // Instruction memory addressing (sim_ooo.cc:988)
  // ---------------------------------------------------------------------

  /** The instruction-memory slot of `pc`: `(pc - base) / 4` in unsigned
      arithmetic. */
  function InstrIndex(pc: u32, base: u32): nat
  {
    Wrap(pc - base) / 4
  }

  /** The instruction `k` words after the base is slot `k`. */
  lemma InstrIndexOfSlot(base: u32, k: nat)
    requires 4 * k < WORD
    ensures InstrIndex(Wrap(base + 4 * k), base) == k
  {
    var b: int := base;
    WrapAdd(b + 4 * k, -b);
    assert Wrap(Wrap(b + 4 * k) - b) == Wrap(4 * k) == 4 * k;
  }

  /** Stepping the pc by 4 steps the slot by one, as long as the distance
      from the base does not wrap around. */
  lemma InstrIndexNext(base: u32, pc: u32)
    requires Wrap(pc - base) + 4 < WORD
    ensures InstrIndex(Wrap(pc + 4), base) == InstrIndex(pc, base) + 1
  {
    var p: int := pc;
    var b: int := base;
    var d: int := Wrap(p - b);
    WrapAdd(p + 4, -b);
    WrapAdd(p - b, 4);
    assert Wrap(Wrap(p + 4) - b) == d + 4;
    assert (d + 4) / 4 == d / 4 + 1;
  }
}
