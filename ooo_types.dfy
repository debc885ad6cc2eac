/**
 * The records and opcode tables of the Tomasulo simulator `sim_ooo`
 * (sim_ooo.h): opcodes, reservation-station and unit kinds, the entry
 * records of the instruction window, reorder buffer and reservation
 * stations, and the classification switches of sim_ooo.cc that route an
 * opcode to a station kind, a unit kind and a register file.
 */
module OooTypes {
  import opened Bits

  /** The "entry is free / value unknown" marker of every 32-bit field. */
  const UNDEFINED: u32 := 0xFFFF_FFFF
  const NUM_GP_REGISTERS: nat := 32
  const MAX_UNITS: nat := 10
  const PROGRAM_SIZE: nat := 50

  datatype Opcode =
    | LW | SW | ADD | ADDI | SUB | SUBI | XOR | AND | MULT | DIV
    | BEQZ | BNEZ | BLTZ | BGTZ | BLEZ | BGEZ | JUMP | EOP
    | LWS | SWS | ADDS | SUBS | MULTS | DIVS

  datatype RsType = IntegerRs | AddRs | MultRs | LoadBuffer

  datatype UnitType = IntegerUnit | Adder | Multiplier | Divider | MemoryUnit

  datatype Stage = Issue | Execute | WriteResult | Commit

  /** `instruction_t`; the branch label is only used while parsing. */
  datatype Instruction = Instruction(opcode: Opcode, src1: u32, src2: u32, dest: u32, immediate: u32)

  /** `unit_t`: `busy` is 0 when the unit is free. */
  datatype Unit = Unit(kind: UnitType, latency: u32, busy: u32, pc: u32)

  /** `instr_window_entry_t`: the cycles at which an instruction entered each stage. */
  datatype WindowEntry = WindowEntry(pc: u32, issue: u32, exe: u32, wr: u32, commit: u32)

  /** `rob_entry_t` */
  datatype RobEntry = RobEntry(ready: bool, pc: u32, state: Stage, destination: u32, value: u32)

  /** `res_station_entry_t`: `tag1`/`tag2` are Qj/Qk, `value1`/`value2` are Vj/Vk. */
  datatype RsEntry = RsEntry(kind: RsType, name: u32, pc: u32, value1: u32, value2: u32,
                             tag1: u32, tag2: u32, destination: u32, address: u32)

  /** `reg_status_t` */
  datatype RegStatus = RegStatus(reorder: u32, busy: bool)

  datatype Option<T> = None | Some(value: T)

  // ---------------------------------------------------------------------
  // Opcode classes (sim_ooo.cc:53-75)
  // ---------------------------------------------------------------------

  predicate IsBranch(op: Opcode)
  {
    op.BEQZ? || op.BNEZ? || op.BLTZ? || op.BLEZ? || op.BGTZ? || op.BGEZ? || op.JUMP?
  }

  predicate IsMemory(op: Opcode)
  {
    op.LW? || op.SW? || op.LWS? || op.SWS?
  }

  predicate IsIntR(op: Opcode)
  {
    op.ADD? || op.SUB? || op.XOR? || op.AND?
  }

  predicate IsIntImm(op: Opcode)
  {
    op.ADDI? || op.SUBI?
  }

  predicate IsInt(op: Opcode)
  {
    IsIntR(op) || IsIntImm(op)
  }

  predicate IsFpAlu(op: Opcode)
  {
    op.ADDS? || op.SUBS? || op.MULTS? || op.DIVS?
  }

  /** The classes are pairwise disjoint, and together with MULT, DIV and
      EOP they cover every opcode. */
  lemma ClassesPartition(op: Opcode)
    ensures !(IsBranch(op) && IsMemory(op)) && !(IsBranch(op) && IsInt(op)) && !(IsBranch(op) && IsFpAlu(op))
    ensures !(IsMemory(op) && IsInt(op)) && !(IsMemory(op) && IsFpAlu(op)) && !(IsInt(op) && IsFpAlu(op))
    ensures !(IsIntR(op) && IsIntImm(op))
    ensures IsBranch(op) || IsMemory(op) || IsInt(op) || IsFpAlu(op) <==> !(op == MULT || op == DIV || op == EOP)
  {
  }

  // ---------------------------------------------------------------------
  // Routing
  // ---------------------------------------------------------------------

  /** The station kind `get_free_RS` looks for (sim_ooo.cc:124-161); EOP
      needs none. */
  function RsTypeOf(op: Opcode): Option<RsType>
  {
    match op
    case LW | SW | LWS | SWS => Some(LoadBuffer)
    case ADD | ADDI | SUB | SUBI | XOR | AND | MULT | DIV
       | BEQZ | BNEZ | BLTZ | BGTZ | BLEZ | BGEZ | JUMP => Some(IntegerRs)
    case ADDS | SUBS => Some(AddRs)
    case MULTS | DIVS => Some(MultRs)
    case EOP => None
  }

  /** The unit kind `get_free_unit` looks for (sim_ooo.cc:363-405); EOP
      needs none. */
  function UnitTypeOf(op: Opcode): Option<UnitType>
  {
    match op
    case ADD | ADDI | SUB | SUBI | XOR | AND
       | BEQZ | BNEZ | BLTZ | BGTZ | BLEZ | BGEZ | JUMP => Some(IntegerUnit)
    case LW | SW | LWS | SWS => Some(MemoryUnit)
    case ADDS | SUBS => Some(Adder)
    case MULT | MULTS => Some(Multiplier)
    case DIV | DIVS => Some(Divider)
    case EOP => None
  }

  /** Station routing stated by opcode class: memory operations go to the
      load buffers, integer operations and branches to the integer
      stations, floating-point operations to their own kinds, and only EOP
      needs none. */
  lemma StationRouting(op: Opcode)
    ensures RsTypeOf(op).None? <==> op == EOP
    ensures IsMemory(op) <==> RsTypeOf(op) == Some(LoadBuffer)
    ensures IsInt(op) || IsBranch(op) || op == MULT || op == DIV <==> RsTypeOf(op) == Some(IntegerRs)
    ensures (op == ADDS || op == SUBS) <==> RsTypeOf(op) == Some(AddRs)
    ensures (op == MULTS || op == DIVS) <==> RsTypeOf(op) == Some(MultRs)
  {
  }

  /** Unit routing stated by opcode class: memory operations use the memory
      unit, integer operations and branches the integer unit, both kinds of
      multiplication the multiplier and both kinds of division the
      divider; only EOP needs none. */
  lemma UnitRouting(op: Opcode)
    ensures UnitTypeOf(op).None? <==> op == EOP
    ensures IsMemory(op) <==> UnitTypeOf(op) == Some(MemoryUnit)
    ensures IsInt(op) || IsBranch(op) <==> UnitTypeOf(op) == Some(IntegerUnit)
    ensures (op == ADDS || op == SUBS) <==> UnitTypeOf(op) == Some(Adder)
    ensures (op == MULT || op == MULTS) <==> UnitTypeOf(op) == Some(Multiplier)
    ensures (op == DIV || op == DIVS) <==> UnitTypeOf(op) == Some(Divider)
  {
  }

  /** `get_reg_type` (sim_ooo.cc:1202-1233): 0 for the integer file, 1 for
      the floating-point file, 2 for EOP. */
  function GetRegType(op: Opcode): (t: u8)
    ensures t <= 2
    ensures t == 1 <==> IsFpAlu(op) || op == LWS || op == SWS
    ensures t == 2 <==> op == EOP
  {
    match op
    case LW | SW | ADD | ADDI | SUB | SUBI | XOR | AND | MULT | DIV
       | BEQZ | BNEZ | BLTZ | BGTZ | BLEZ | BGEZ | JUMP => 0
    case LWS | SWS | ADDS | SUBS | MULTS | DIVS => 1
    case EOP => 2
  }

  /** `check_op_FPstr` (sim_ooo.cc:1235-1268): 1 for SW, SWS and the
      floating-point operations, 2 for EOP, 0 otherwise. */
  function CheckOpFpStr(op: Opcode): (t: u8)
    ensures t <= 2
    ensures t == 1 <==> IsFpAlu(op) || op == SW || op == SWS
    ensures t == 2 <==> op == EOP
  {
    match op
    case LW => 0
    case SW => 1
    case ADD | ADDI | SUB | SUBI | XOR | AND | MULT | DIV
       | BEQZ | BNEZ | BLTZ | BGTZ | BLEZ | BGEZ | JUMP | LWS => 0
    case SWS | ADDS | SUBS | MULTS | DIVS => 1
    case EOP => 2
  }

  /** The two tables agree on EOP and on the floating-point operations and
      differ only on SW (1 in `check_op_FPstr`, 0 in `get_reg_type`) and
      LWS (the reverse). */
  lemma RegisterTables(op: Opcode)
    ensures GetRegType(op) != CheckOpFpStr(op) <==> op == SW || op == LWS
    ensures IsFpAlu(op) ==> GetRegType(op) == CheckOpFpStr(op) == 1
  {
  }

  // ---------------------------------------------------------------------
  // Cleared entries
  // ---------------------------------------------------------------------

  /** `clean_rob` (sim_ooo.cc:78-84). */
  const CleanRob: RobEntry := RobEntry(false, UNDEFINED, Issue, UNDEFINED, UNDEFINED)

  /** `clean_instr_window` (sim_ooo.cc:231-237). */
  const CleanWindow: WindowEntry := WindowEntry(UNDEFINED, UNDEFINED, UNDEFINED, UNDEFINED, UNDEFINED)

  /** `clean_res_station` (sim_ooo.cc:109-117): every field but the kind
      and the name. */
  function CleanRs(e: RsEntry): (r: RsEntry)
    ensures r.kind == e.kind && r.name == e.name
  {
    e.(pc := UNDEFINED, value1 := UNDEFINED, value2 := UNDEFINED, tag1 := UNDEFINED,
       tag2 := UNDEFINED, destination := UNDEFINED, address := UNDEFINED)
  }

  /** A ROB entry can be allocated when it is unused or has committed
      (sim_ooo.cc:90). */
  predicate RobFree(e: RobEntry)
  {
    e.pc == UNDEFINED || e.state == Commit
  }

  /** A station is free when it holds no instruction (sim_ooo.h:74). */
  predicate RsFree(e: RsEntry)
  {
    e.pc == UNDEFINED
  }

  /** A unit can be acquired when it is idle and holds no instruction
      (sim_ooo.cc:378). */
  predicate UnitFree(u: Unit)
  {
    u.busy == 0 && u.pc == UNDEFINED
  }

  /** Cleaning frees an entry and is idempotent; the cleaned station keeps
      its place in the layout. */
  lemma CleaningFrees(e: RsEntry)
    ensures RobFree(CleanRob) && CleanWindow.pc == UNDEFINED
    ensures RsFree(CleanRs(e)) && CleanRs(CleanRs(e)) == CleanRs(e)
    ensures CleanRs(e).tag1 == UNDEFINED && CleanRs(e).tag2 == UNDEFINED
  {
  }
}
