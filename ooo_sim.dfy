/**
 * The `sim_ooo` object (sim_ooo.h:108-166) with its fixed-size arrays
 * updated in place: data and instruction memory, the register files with
 * their status and tag tables, the instruction window, reorder buffer and
 * reservation stations, and the execution units. Its searches are
 * read-only methods with "first index satisfying P, else UNDEFINED"
 * contracts; its updates are proved against the functions of `OooState`.
 */
module OooSimulator {
  import opened Bits
  import opened OooTypes
  import opened OooAlu
  import opened OooState

  /** A call that may end the process with `exit(-1)`. */
  datatype Status<T> = Returned(value: T) | Exited

  /** A station of kind `t` that holds no instruction. */
  predicate FreeStationOf(e: RsEntry, t: RsType)
  {
    e.kind == t && RsFree(e)
  }

  /** A unit of kind `t` that is idle and holds no instruction. */
  predicate FreeUnitOf(u: Unit, t: UnitType)
  {
    u.kind == t && UnitFree(u)
  }

  class SimOoo {
    /** `data_memory`; its length is `data_memory_size`. */
    const memory: array<u8>
    const instrMemory: array<Instruction>
    const intRegs: array<u32>
    /** The bits of each `float` register. */
    const fpRegs: array<u32>
    const intRegsStat: array<RegStatus>
    const fpRegsStat: array<RegStatus>
    const intRegsTags: array<u32>
    const fpRegsTags: array<u32>
    /** `pending_instructions`, used as the instruction queue. */
    const window: array<WindowEntry>
    const rob: array<RobEntry>
    const stations: array<RsEntry>
    const units: array<Unit>
    var numUnits: nat
    var iqHead: u32
    var iqTail: u32
    var iqPc: u32
    var instrBaseAddress: u32
    var clockCycles: u32
    var instructionsExecuted: u32
    var instCtr: u32
    var robHead: u32
    const issueWidth: u32

    ghost predicate Valid()
      reads this
    {
      && memory.Length < WORD
      && instrMemory.Length == PROGRAM_SIZE
      && intRegs.Length == NUM_GP_REGISTERS && fpRegs.Length == NUM_GP_REGISTERS
      && intRegsStat.Length == NUM_GP_REGISTERS && fpRegsStat.Length == NUM_GP_REGISTERS
      && intRegsTags.Length == NUM_GP_REGISTERS && fpRegsTags.Length == NUM_GP_REGISTERS
      && intRegs != fpRegs && intRegs != intRegsTags && intRegs != fpRegsTags
      && fpRegs != intRegsTags && fpRegs != fpRegsTags && intRegsTags != fpRegsTags
      && intRegsStat != fpRegsStat
      && window.Length == rob.Length && rob.Length < WORD && stations.Length < WORD
      && units.Length == MAX_UNITS && numUnits <= MAX_UNITS
      && (iqHead < window.Length || iqHead == 0)
      && (iqTail < window.Length || iqTail == 0)
    }

    /** The whole object as a value. */
    ghost function State(): MachineState
      reads this, memory, instrMemory, intRegs, fpRegs, intRegsStat, fpRegsStat,
            intRegsTags, fpRegsTags, window, rob, stations, units
    {
      MachineState(memory[..], instrMemory[..], intRegs[..], fpRegs[..], intRegsStat[..], fpRegsStat[..],
                   intRegsTags[..], fpRegsTags[..], window[..], rob[..], stations[..], units[..],
                   numUnits, iqHead, iqTail, iqPc, instrBaseAddress, clockCycles,
                   instructionsExecuted, instCtr, robHead, issueWidth)
    }

    /** Every station has the kind and name the constructor gives it. */
    ghost predicate LaidOut(numInt: nat, numLoad: nat, numAdd: nat, numMul: nat)
      reads stations
    {
      HasLayout(stations[..], numInt, numLoad, numAdd, numMul)
    }

    /** sim_ooo.cc:756-797. The instruction window has as many entries as
        the ROB. The constructor does not set the base address (a program
        load does), so it is left unconstrained here, and reset copies it
        into the fetch pc. */
    constructor(memSize: u32, robSize: u32, numIntStations: u32, numAddStations: u32,
                numMulStations: u32, numLoadBuffers: u32, maxIssue: u32)
      requires numIntStations + numAddStations + numMulStations + numLoadBuffers < WORD
      ensures Valid() && IsReset(State())
      ensures memory.Length == memSize && rob.Length == robSize && window.Length == robSize
      ensures stations.Length == numIntStations + numLoadBuffers + numAddStations + numMulStations
      ensures LaidOut(numIntStations, numLoadBuffers, numAddStations, numMulStations)
      ensures numUnits == 0 && issueWidth == maxIssue
    {
      var total := numIntStations + numLoadBuffers + numAddStations + numMulStations;
      memory := new u8[memSize];
      instrMemory := new Instruction[PROGRAM_SIZE];
      intRegs := new u32[NUM_GP_REGISTERS];
      fpRegs := new u32[NUM_GP_REGISTERS];
      intRegsStat := new RegStatus[NUM_GP_REGISTERS];
      fpRegsStat := new RegStatus[NUM_GP_REGISTERS];
      intRegsTags := new u32[NUM_GP_REGISTERS];
      fpRegsTags := new u32[NUM_GP_REGISTERS];
      issueWidth := maxIssue;
      rob := new RobEntry[robSize];
      window := new WindowEntry[robSize];
      var rs := new RsEntry[total];
      stations := rs;
      units := new Unit[MAX_UNITS];
      numUnits := 0;
      iqHead := 0;
      iqTail := 0;
      new;
      LayStations(numIntStations, numLoadBuffers, numAddStations, numMulStations);
      ghost var before := State();
      Reset();
      ResetSpecIsReset(before);
      LayoutSurvivesReset(before.stations, numIntStations, numLoadBuffers, numAddStations, numMulStations);
    }

    /** The four naming loops of the constructor (sim_ooo.cc:776-791). */
    method LayStations(numInt: u32, numLoad: u32, numAdd: u32, numMul: u32)
      requires stations.Length == numInt + numLoad + numAdd + numMul
      modifies stations
      ensures LaidOut(numInt, numLoad, numAdd, numMul)
    {
      NameGroup(0, numInt, IntegerRs);
      NameGroup(numInt, numLoad, LoadBuffer);
      NameGroup(numInt + numLoad, numAdd, AddRs);
      NameGroup(numInt + numLoad + numAdd, numMul, MultRs);
      forall m | 0 <= m < stations.Length
        ensures stations[m].kind == Layout(numInt, numLoad, numAdd, numMul)[m].0
        ensures stations[m].name == Layout(numInt, numLoad, numAdd, numMul)[m].1
      {
        LayoutAt(numInt, numLoad, numAdd, numMul, m);
      }
    }

    /** One naming loop: stations `start` to `start + count` get `kind` and
        the names 0, 1, ...; no other station changes. */
    method NameGroup(start: nat, count: u32, kind: RsType)
      requires start + count <= stations.Length
      modifies stations
      ensures forall m :: 0 <= m < stations.Length ==>
        if start <= m < start + count then stations[m].kind == kind && stations[m].name == m - start
        else stations[m] == old(stations[m])
    {
      for i := 0 to count
        invariant forall m :: 0 <= m < stations.Length ==>
          if start <= m < start + i then stations[m].kind == kind && stations[m].name == m - start
          else stations[m] == old(stations[m])
      {
        stations[start + i] := stations[start + i].(kind := kind, name := i);
      }
    }

    // -------------------------------------------------------------------
    // reset (sim_ooo.cc:1128-1196)
    // -------------------------------------------------------------------

    /** `reset`: the object afterwards is `ResetSpec` of the object before. */
    method Reset()
      requires Valid()
      modifies memory, instrMemory, intRegs, fpRegs, intRegsStat, fpRegsStat,
               intRegsTags, fpRegsTags, window, rob, stations
      modifies this`clockCycles, this`instructionsExecuted, this`instCtr, this`robHead,
               this`iqHead, this`iqTail, this`iqPc
      ensures Valid()
      ensures State() == ResetSpec(old(State()))
    {
      ghost var s0 := State();
      ClearStorage();
      ClearPipeline();
      clockCycles, instructionsExecuted, instCtr, robHead := 0, 0, 0, 0;
      iqHead, iqTail, iqPc := 0, 0, instrBaseAddress;
      ResetSpecOf(s0, State());
    }

    /** The memories and the register files. */
    method ClearStorage()
      requires Valid()
      modifies memory, instrMemory, intRegs, fpRegs, intRegsStat, fpRegsStat, intRegsTags, fpRegsTags
      ensures memory[..] == Filled<u8>(memory.Length, 0xFF)
      ensures instrMemory[..] == Filled(instrMemory.Length, CleanInstruction)
      ensures intRegs[..] == Filled<u32>(NUM_GP_REGISTERS, UNDEFINED)
      ensures intRegsTags[..] == Filled<u32>(NUM_GP_REGISTERS, UNDEFINED)
      ensures fpRegs[..] == Filled<u32>(NUM_GP_REGISTERS, FP_UNDEFINED)
      ensures fpRegsTags[..] == Filled<u32>(NUM_GP_REGISTERS, FP_UNDEFINED)
      ensures intRegsStat[..] == Filled(NUM_GP_REGISTERS, CleanStatus)
      ensures fpRegsStat[..] == Filled(NUM_GP_REGISTERS, CleanStatus)
    {
      ClearMemory();
      ClearInstrMemory();
      ClearRegisters();
    }

    /** The instruction window, the ROB and the reservation stations. */
    method ClearPipeline()
      modifies window, rob, stations
      ensures window[..] == Filled(window.Length, CleanWindow)
      ensures rob[..] == Filled(rob.Length, CleanRob)
      ensures stations[..] == CleanStations(old(stations[..]))
    {
      ClearWindow();
      ClearRob();
      ClearStations();
    }

    /** sim_ooo.cc:1134: data memory all 0xFF. */
    method ClearMemory()
      modifies memory
      ensures memory[..] == Filled<u8>(memory.Length, 0xFF)
    {
      for a := 0 to memory.Length
        invariant forall b :: 0 <= b < a ==> memory[b] == 0xFF
      {
        memory[a] := 0xFF;
      }
    }

    /** sim_ooo.cc:1137-1144: every slot an EOP with undefined fields. */
    method ClearInstrMemory()
      modifies instrMemory
      ensures instrMemory[..] == Filled(instrMemory.Length, CleanInstruction)
    {
      for i := 0 to instrMemory.Length
        invariant forall j :: 0 <= j < i ==> instrMemory[j] == CleanInstruction
      {
        instrMemory[i] := CleanInstruction;
      }
    }

    /** sim_ooo.cc:1146-1154: values, tags and statuses of both files. */
    method ClearRegisters()
      requires Valid()
      modifies intRegs, fpRegs, intRegsStat, fpRegsStat, intRegsTags, fpRegsTags
      ensures intRegs[..] == Filled<u32>(NUM_GP_REGISTERS, UNDEFINED)
      ensures intRegsTags[..] == Filled<u32>(NUM_GP_REGISTERS, UNDEFINED)
      ensures fpRegs[..] == Filled<u32>(NUM_GP_REGISTERS, FP_UNDEFINED)
      ensures fpRegsTags[..] == Filled<u32>(NUM_GP_REGISTERS, FP_UNDEFINED)
      ensures intRegsStat[..] == Filled(NUM_GP_REGISTERS, CleanStatus)
      ensures fpRegsStat[..] == Filled(NUM_GP_REGISTERS, CleanStatus)
    {
      for i := 0 to NUM_GP_REGISTERS
        invariant forall j :: 0 <= j < i ==>
          intRegs[j] == UNDEFINED && intRegsTags[j] == UNDEFINED && intRegsStat[j] == CleanStatus &&
          fpRegsStat[j] == CleanStatus && fpRegs[j] == FP_UNDEFINED && fpRegsTags[j] == FP_UNDEFINED
      {
        intRegs[i] := UNDEFINED;
        intRegsTags[i] := UNDEFINED;
        intRegsStat[i] := CleanStatus;
        fpRegsStat[i] := CleanStatus;
        fpRegs[i] := FP_UNDEFINED;
        fpRegsTags[i] := FP_UNDEFINED;
      }
    }

    /** sim_ooo.cc:1157-1163. */
    method ClearWindow()
      modifies window
      ensures window[..] == Filled(window.Length, CleanWindow)
    {
      for i := 0 to window.Length
        invariant forall j :: 0 <= j < i ==> window[j] == CleanWindow
      {
        window[i] := CleanWindow;
      }
    }

    /** sim_ooo.cc:1166-1172. */
    method ClearRob()
      modifies rob
      ensures rob[..] == Filled(rob.Length, CleanRob)
    {
      for i := 0 to rob.Length
        invariant forall j :: 0 <= j < i ==> rob[j] == CleanRob
      {
        rob[i] := CleanRob;
      }
    }

    /** sim_ooo.cc:1175-1183: every field but the kind and the name. */
    method ClearStations()
      modifies stations
      ensures stations[..] == CleanStations(old(stations[..]))
    {
      for n := 0 to stations.Length
        invariant forall m :: 0 <= m < n ==> stations[m] == CleanRs(old(stations[m]))
        invariant forall m :: n <= m < stations.Length ==> stations[m] == old(stations[m])
      {
        stations[n] := CleanRs(stations[n]);
      }
    }

    // -------------------------------------------------------------------
    // Data memory and registers
    // -------------------------------------------------------------------

    /** `write_memory` (sim_ooo.cc:335-337): the word, little-endian, at
        `address`; reading it back with `char2unsigned` gives `value`. */
    method WriteMemory(address: u32, value: u32)
      requires Valid() && address + 4 <= memory.Length
      modifies memory
      ensures memory[..] == Store(old(memory[..]), address, value)
      ensures Char2Unsigned(memory[..], address) == value
    {
      Unsigned2Char(value, memory, address);
      LoadAfterStore(old(memory[..]), address, value);
    }

    /** `get_int_register` (sim_ooo.cc:1271-1273): the word read as a
        signed `int`. */
    method GetIntRegister(reg: u32) returns (v: int)
      requires Valid() && reg < NUM_GP_REGISTERS
      ensures -0x8000_0000 <= v < 0x8000_0000 && Wrap(v) == intRegs[reg]
    {
      v := Signed(intRegs[reg]);
      SignedRoundTrip(intRegs[reg], 0);
    }

    /** `set_int_register` (sim_ooo.cc:1275-1277): stores the two's
        complement word of `value`, so that reading the register gives
        `value` back. */
    method SetIntRegister(reg: u32, value: int)
      requires Valid() && reg < NUM_GP_REGISTERS
      requires -0x8000_0000 <= value < 0x8000_0000
      modifies intRegs
      ensures intRegs[..] == old(intRegs[..])[reg := Wrap(value)]
      ensures Signed(intRegs[reg]) == value
    {
      intRegs[reg] := Wrap(value);
      SignedRoundTrip(0, value);
    }

    /** `get_fp_register` (sim_ooo.cc:1279-1281), as the bits of the float. */
    method GetFpRegister(reg: u32) returns (bits: u32)
      requires Valid() && reg < NUM_GP_REGISTERS
      ensures bits == fpRegs[reg]
    {
      bits := fpRegs[reg];
    }

    /** `set_fp_register` (sim_ooo.cc:1283-1285), as the bits of the float. */
    method SetFpRegister(reg: u32, bits: u32)
      requires Valid() && reg < NUM_GP_REGISTERS
      modifies fpRegs
      ensures fpRegs[..] == old(fpRegs[..])[reg := bits]
    {
      fpRegs[reg] := bits;
    }

    /** `get_int_register_tag` (sim_ooo.cc:1287-1289): the ROB entry the
        status table names as the register's next writer. */
    method GetIntRegisterTag(reg: u32) returns (tag: u32)
      requires Valid() && reg < NUM_GP_REGISTERS
      ensures tag == intRegsStat[reg].reorder
      ensures IsReset(State()) ==> tag == UNDEFINED
    {
      tag := intRegsStat[reg].reorder;
    }

    /** `get_fp_register_tag` (sim_ooo.cc:1291-1293). */
    method GetFpRegisterTag(reg: u32) returns (tag: u32)
      requires Valid() && reg < NUM_GP_REGISTERS
      ensures tag == fpRegsStat[reg].reorder
      ensures IsReset(State()) ==> tag == UNDEFINED
    {
      tag := fpRegsStat[reg].reorder;
    }

    // -------------------------------------------------------------------
    // Reorder buffer and reservation stations
    // -------------------------------------------------------------------

    /** `get_free_ROB` (sim_ooo.cc:87-96): the first entry that is unused
        or has committed, else UNDEFINED. */
    method GetFreeRob() returns (index: u32)
      requires Valid()
      ensures index == UNDEFINED || (index < rob.Length && RobFree(rob[index]))
      ensures index == UNDEFINED <==> forall i :: 0 <= i < rob.Length ==> !RobFree(rob[i])
      ensures index != UNDEFINED ==> forall i :: 0 <= i < index ==> !RobFree(rob[i])
    {
      for i := 0 to rob.Length
        invariant forall j :: 0 <= j < i ==> !RobFree(rob[j])
      {
        if RobFree(rob[i]) {
          return i;
        }
      }
      return UNDEFINED;
    }

    /** `get_ROB` (sim_ooo.cc:99-104): the first entry owned by `pc`, else
        UNDEFINED. */
    method GetRob(pc: u32) returns (index: u32)
      requires Valid()
      ensures index == UNDEFINED || (index < rob.Length && rob[index].pc == pc)
      ensures index == UNDEFINED <==> forall i :: 0 <= i < rob.Length ==> rob[i].pc != pc
      ensures index != UNDEFINED ==> forall i :: 0 <= i < index ==> rob[i].pc != pc
    {
      for i := 0 to rob.Length
        invariant forall j :: 0 <= j < i ==> rob[j].pc != pc
      {
        if rob[i].pc == pc {
          return i;
        }
      }
      return UNDEFINED;
    }

    /** `get_free_RS` (sim_ooo.cc:120-171): the first free station of the
        kind the opcode is routed to, else UNDEFINED; always UNDEFINED for
        EOP. */
    method GetFreeRs(op: Opcode) returns (index: u32)
      requires Valid()
      ensures op == EOP ==> index == UNDEFINED
      ensures index == UNDEFINED ||
        (index < stations.Length && RsTypeOf(op).Some? && FreeStationOf(stations[index], RsTypeOf(op).value))
      ensures RsTypeOf(op).Some? ==>
        (index == UNDEFINED <==> forall n :: 0 <= n < stations.Length ==> !FreeStationOf(stations[n], RsTypeOf(op).value))
      ensures index != UNDEFINED ==> forall n :: 0 <= n < index ==> !FreeStationOf(stations[n], RsTypeOf(op).value)
    {
      StationRouting(op);
      if op == EOP {
        return UNDEFINED;
      }
      var kind := RsTypeOf(op).value;
      for n := 0 to stations.Length
        invariant forall m :: 0 <= m < n ==> !FreeStationOf(stations[m], kind)
      {
        if stations[n].kind == kind && stations[n].pc == UNDEFINED {
          return n;
        }
      }
      return UNDEFINED;
    }

    /** `get_RS` (sim_ooo.cc:174-179): the first station owned by `pc`,
        else UNDEFINED. */
    method GetRs(pc: u32) returns (index: u32)
      requires Valid()
      ensures index == UNDEFINED || (index < stations.Length && stations[index].pc == pc)
      ensures index == UNDEFINED <==> forall n :: 0 <= n < stations.Length ==> stations[n].pc != pc
      ensures index != UNDEFINED ==> forall n :: 0 <= n < index ==> stations[n].pc != pc
    {
      for n := 0 to stations.Length
        invariant forall m :: 0 <= m < n ==> stations[m].pc != pc
      {
        if stations[n].pc == pc {
          return n;
        }
      }
      return UNDEFINED;
    }

    /** `RS_add_inst` (sim_ooo.cc:181-228) with every memory opcode
        recording its offset (`AddInstFixed`): only station `rs` changes. */
    method RsAddInst(pc: u32, rs: u32, inst: Instruction)
      requires Valid() && rs < stations.Length
      modifies stations
      ensures stations[..] == old(stations[..])[rs := AddInstFixed(old(stations[rs]), pc, inst)]
    {
      stations[rs] := stations[rs].(pc := pc);
      match inst.opcode {
        case LW | SW | LWS | SWS =>
          stations[rs] := stations[rs].(address := inst.immediate);
        case _ =>
      }
    }

    /** sim_ooo.cc:906-915 with resolved operands marked by RESOLVED
        (`WakeupFixed`): ROB entry `r` broadcasts its value on the common
        data bus, every operand waiting on `r` takes it, and afterwards no
        station waits on `r`. */
    method Broadcast(r: u32)
      requires Valid() && r < rob.Length
      modifies stations
      ensures stations[..] == WakeupFixed(old(stations[..]), r, rob[r].value)
      ensures forall x :: 0 <= x < stations.Length ==> stations[x].tag1 != r && stations[x].tag2 != r
    {
      var v := rob[r].value;
      for x := 0 to stations.Length
        invariant forall y :: 0 <= y < x ==> stations[y] == WakeEntryFixed(old(stations[y]), r, v)
        invariant forall y :: x <= y < stations.Length ==> stations[y] == old(stations[y])
      {
        if stations[x].tag1 == r {
          stations[x] := stations[x].(value1 := v, tag1 := RESOLVED);
        }
        if stations[x].tag2 == r {
          stations[x] := stations[x].(value2 := v, tag2 := RESOLVED);
        }
      }
      assert stations[..] == WakeupFixed(old(stations[..]), r, v);
      WakeupFixedKeepsResolved(old(stations[..]), r, v);
    }

    // -------------------------------------------------------------------
    // Instruction queue (sim_ooo.cc:240-273) and fetch (sim_ooo.cc:985-994)
    // -------------------------------------------------------------------

    ghost predicate QueueFull()
      reads this, window
    {
      forall i :: 0 <= i < window.Length ==> window[i].pc != UNDEFINED
    }

    /** `IQ_push`: the pc goes into the tail slot, and the tail moves on
        one slot, wrapping at the end. */
    method IqPush(pc: u32)
      requires Valid() && window.Length > 0
      modifies window, this`iqTail
      ensures Valid()
      ensures window[..] == old(window[..])[old(iqTail) := old(window[iqTail]).(pc := pc)]
      ensures iqTail == (old(iqTail) + 1) % window.Length
    {
      window[iqTail] := window[iqTail].(pc := pc);
      iqTail := (iqTail + 1) % window.Length;
    }

    /** `IQ_find`: the first slot holding `pc`, else UNDEFINED. */
    method IqFind(pc: u32) returns (index: u32)
      requires Valid()
      ensures index == UNDEFINED || (index < window.Length && window[index].pc == pc)
      ensures index == UNDEFINED <==> forall i :: 0 <= i < window.Length ==> window[i].pc != pc
      ensures index != UNDEFINED ==> forall i :: 0 <= i < index ==> window[i].pc != pc
    {
      for i := 0 to window.Length
        invariant forall j :: 0 <= j < i ==> window[j].pc != pc
      {
        if window[i].pc == pc {
          return i;
        }
      }
      return UNDEFINED;
    }

    /** `IQ_pop`: cleans the first slot holding `pc` (the C++ indexes out of
        bounds when there is none) and moves the head on one slot. */
    method IqPop(pc: u32)
      requires Valid() && exists i :: 0 <= i < window.Length && window[i].pc == pc
      modifies window, this`iqHead
      ensures Valid()
      ensures exists k :: (0 <= k < window.Length && old(window[k]).pc == pc &&
        (forall j :: 0 <= j < k ==> old(window[j]).pc != pc) &&
        window[..] == old(window[..])[k := CleanWindow])
      ensures iqHead == (old(iqHead) + 1) % window.Length
    {
      var k := IqFind(pc);
      window[k] := CleanWindow;
      iqHead := (iqHead + 1) % window.Length;
    }

    /** `IQ_full`: full exactly when no slot is free. */
    method IqFull() returns (full: bool)
      requires Valid()
      ensures full <==> QueueFull()
      ensures !full ==> exists i :: 0 <= i < window.Length && window[i].pc == UNDEFINED
    {
      for i := 0 to window.Length
        invariant forall j :: 0 <= j < i ==> window[j].pc != UNDEFINED
      {
        if window[i].pc == UNDEFINED {
          return false;
        }
      }
      return true;
    }

    /** One fetch (sim_ooo.cc:985-994): when the queue has room, the fetch
        pc is queued; fetching EOP halts the run, anything else advances
        the fetch pc by 4. A full queue, which includes a window of no
        slots, changes nothing. */
    method FetchStep() returns (halted: bool)
      requires Valid()
      requires !QueueFull() ==> InstrIndex(iqPc, instrBaseAddress) < PROGRAM_SIZE
      modifies window, this`iqTail, this`iqPc
      ensures Valid()
      ensures old(QueueFull()) ==>
        !halted && window[..] == old(window[..]) && iqTail == old(iqTail) && iqPc == old(iqPc)
      ensures !old(QueueFull()) ==>
        window[..] == old(window[..])[old(iqTail) := old(window[iqTail]).(pc := old(iqPc))] &&
        iqTail == (old(iqTail) + 1) % window.Length &&
        halted == (instrMemory[InstrIndex(old(iqPc), instrBaseAddress)].opcode == EOP) &&
        iqPc == if halted then old(iqPc) else Wrap(old(iqPc) + 4)
    {
      var full := IqFull();
      if full {
        return false;
      }
      IqPush(iqPc);
      if instrMemory[InstrIndex(iqPc, instrBaseAddress)].opcode == EOP {
        return true;
      }
      iqPc := Wrap(iqPc + 4);
      halted := false;
    }

    // -------------------------------------------------------------------
    // Execution units (sim_ooo.cc:345-417)
    // -------------------------------------------------------------------

    /** `init_exec_unit`: `instances` idle units of the kind and latency
        are appended after the configured ones. The C++ does not check the
        bound; here it is a precondition. */
    method InitExecUnit(kind: UnitType, latency: u32, instances: u32)
      requires Valid() && numUnits + instances <= MAX_UNITS
      modifies units, this`numUnits
      ensures Valid()
      ensures numUnits == old(numUnits) + instances
      ensures forall u :: 0 <= u < MAX_UNITS ==>
        units[u] == if old(numUnits) <= u < numUnits then Unit(kind, latency, 0, UNDEFINED) else old(units[u])
      ensures forall u :: old(numUnits) <= u < numUnits ==> FreeUnitOf(units[u], kind)
    {
      for i := 0 to instances
        invariant numUnits == old(numUnits) + i
        invariant forall u :: 0 <= u < MAX_UNITS ==>
          units[u] == if old(numUnits) <= u < numUnits then Unit(kind, latency, 0, UNDEFINED) else old(units[u])
      {
        units[numUnits] := Unit(kind, latency, 0, UNDEFINED);
        numUnits := numUnits + 1;
      }
    }

    /** `get_free_unit`: the first configured unit of the kind the opcode
        needs that is idle and holds no instruction, else UNDEFINED. With no
        unit configured, or for EOP, the C++ exits. */
    method GetFreeUnit(op: Opcode) returns (r: Status<u32>)
      requires Valid()
      ensures r.Exited? <==> numUnits == 0 || op == EOP
      ensures r.Returned? ==> (UnitTypeOf(op).Some? &&
        (r.value == UNDEFINED <==> forall u :: 0 <= u < numUnits ==> !FreeUnitOf(units[u], UnitTypeOf(op).value)))
      ensures r.Returned? && r.value != UNDEFINED ==>
        r.value < numUnits && FreeUnitOf(units[r.value], UnitTypeOf(op).value) &&
        forall u :: 0 <= u < r.value ==> !FreeUnitOf(units[u], UnitTypeOf(op).value)
    {
      UnitRouting(op);
      if numUnits == 0 {
        return Exited;
      }
      if op == EOP {
        return Exited;
      }
      var kind := UnitTypeOf(op).value;
      for u := 0 to numUnits
        invariant forall v :: 0 <= v < u ==> !FreeUnitOf(units[v], kind)
      {
        if units[u].kind == kind && units[u].busy == 0 && units[u].pc == UNDEFINED {
          return Returned(u);
        }
      }
      return Returned(UNDEFINED);
    }

    /** `get_exe_unit`: the first configured unit owned by `pc`, else
        UNDEFINED. */
    method GetExeUnit(pc: u32) returns (index: u32)
      requires Valid()
      ensures index == UNDEFINED || (index < numUnits && units[index].pc == pc)
      ensures index == UNDEFINED <==> forall u :: 0 <= u < numUnits ==> units[u].pc != pc
      ensures index != UNDEFINED ==> forall u :: 0 <= u < index ==> units[u].pc != pc
    {
      for u := 0 to numUnits
        invariant forall v :: 0 <= v < u ==> units[v].pc != pc
      {
        if units[u].pc == pc {
          return u;
        }
      }
      return UNDEFINED;
    }
  }
}
