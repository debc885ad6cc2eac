/**
 * The integer datapath of the Tomasulo simulator: 32-bit unsigned
 * arithmetic, the `alu` function (sim_ooo.cc:279-332), the branch offsets
 * the program loader computes (sim_ooo.cc:743) and the little-endian byte
 * packing of data memory (sim_ooo.cc:38-49).
 */
module OooAlu {
  import opened Bits
  import opened OooTypes

  const WORD: nat := 0x1_0000_0000

  /** A C++ `unsigned` result: the mathematical value modulo 2^32. */
  function Wrap(x: int): u32
  {
    x % WORD
  }

  /** The `(int)` cast of an unsigned word: two's complement. */
  function Signed(v: u32): int
  {
    if v < 0x8000_0000 then v else v - WORD
  }

  /** Values that differ by a multiple of 2^32 wrap to the same word. */
  lemma WrapShift(x: int, q: int)
    ensures Wrap(x + q * WORD) == Wrap(x)
  {
    var r := x % WORD;
    assert x == (x / WORD) * WORD + r;
    assert x + q * WORD == (x / WORD + q) * WORD + r;
  }

  /** Wrapping an operand of a sum or a difference first changes nothing. */
  lemma WrapAdd(a: int, b: int)
    ensures Wrap(Wrap(a) + b) == Wrap(a + b)
    ensures Wrap(a - Wrap(b)) == Wrap(a - b)
  {
    WrapShift(a + b, -(a / WORD));
    assert Wrap(a) + b == a + b + -(a / WORD) * WORD;
    WrapShift(a - b, b / WORD);
    assert a - Wrap(b) == a - b + (b / WORD) * WORD;
  }

  /** Adding and then subtracting the same amount, wrapping after each. */
  lemma WrapInverse(x: int, y: int)
    requires 0 <= x < WORD
    ensures Wrap(Wrap(x + y) - y) == x
  {
    WrapAdd(x + y, -y);
  }

  /** Words are the fixed points of wrapping. */
  lemma WrapWord(v: int)
    requires 0 <= v < WORD
    ensures Wrap(v) == v
  {
  }

  /** `Signed` is a bijection between words and the 32-bit two's complement
      range, and wrapping undoes it. */
  lemma SignedRoundTrip(v: u32, s: int)
    requires -0x8000_0000 <= s < 0x8000_0000
    ensures -0x8000_0000 <= Signed(v) < 0x8000_0000
    ensures Wrap(Signed(v)) == v
    ensures Signed(Wrap(s)) == s
  {
    if v >= 0x8000_0000 {
      WrapShift(Signed(v), 1);
    }
    if s < 0 {
      WrapShift(s, 1);
      assert Wrap(s) == s + WORD;
    }
  }

  /** A signed word is negative exactly when its bit 31 is set. */
  lemma SignBit(v: u32)
    ensures Signed(v) < 0 <==> Bit(v, 31) == 1
  {
    Pow2Values();
    TopBit(v, 31);
  }

  // ---------------------------------------------------------------------
  // The ALU
  // ---------------------------------------------------------------------

  /** The condition of the conditional branches, on the register value read
      as a signed integer; it is false for every other opcode. */
  predicate BranchTaken(op: Opcode, reg: int)
  {
    (op == BEQZ && reg == 0) || (op == BNEZ && reg != 0) ||
    (op == BGEZ && reg >= 0) || (op == BLEZ && reg <= 0) ||
    (op == BGTZ && reg > 0) || (op == BLTZ && reg < 0)
  }

  /** `alu` (sim_ooo.cc:279-332) on integer operations, branches and the
      other opcodes that reach its default case. */
  function Alu(op: Opcode, value1: u32, value2: u32, immediate: u32, pc: u32): u32
    requires !IsFpAlu(op)
    requires op == DIV ==> value2 != 0
  {
    match op
    case ADD | ADDI => Wrap(value1 + value2)
    case SUB | SUBI => Wrap(value1 - value2)
    case XOR =>
      Pow2Values();
      XorBound(value1, value2, 32);
      Xor(value1, value2)
    case AND =>
      Pow2Values();
      AndBound(value1, value2, 32);
      And(value1, value2)
    case MULT => Wrap(value1 * value2)
    case DIV => value1 / value2
    case JUMP => Wrap(pc + 4 + immediate)
    case _ =>
      if BranchTaken(op, Signed(value1)) then Wrap(pc + 4 + immediate) else Wrap(pc + 4)
  }

  /** Subtraction undoes addition modulo 2^32, and the immediate forms
      compute the same as the register forms (the issue stage puts the
      immediate into the second operand). */
  lemma AddSubInverse(a: u32, b: u32, imm: u32, pc: u32)
    ensures Alu(SUB, Alu(ADD, a, b, imm, pc), b, imm, pc) == a
    ensures Alu(ADD, Alu(SUB, a, b, imm, pc), b, imm, pc) == a
    ensures Alu(ADDI, a, b, imm, pc) == Alu(ADD, a, b, 0, 0)
    ensures Alu(SUBI, a, b, imm, pc) == Alu(SUB, a, b, 0, 0)
  {
    var y: int := b;
    WrapInverse(a, y);
    WrapInverse(a, -y);
  }

  /** ADD, MULT, AND and XOR do not depend on the order of their operands. */
  lemma AluCommutes(op: Opcode, a: u32, b: u32, imm: u32, pc: u32)
    requires op == ADD || op == ADDI || op == MULT || op == AND || op == XOR
    ensures Alu(op, a, b, imm, pc) == Alu(op, b, a, imm, pc)
  {
    AndComm(a, b);
    XorComm(a, b);
  }

  /** AND and XOR act bit by bit; XOR with the same operand twice gives the
      operand back, and XOR with itself clears it. */
  lemma BitwiseOps(a: u32, b: u32, k: nat)
    ensures Bit(Alu(AND, a, b, 0, 0), k) == Bit(a, k) * Bit(b, k)
    ensures Bit(Alu(XOR, a, b, 0, 0), k) == (Bit(a, k) + Bit(b, k)) % 2
    ensures Alu(XOR, Alu(XOR, a, b, 0, 0), b, 0, 0) == a
    ensures Alu(XOR, a, a, 0, 0) == 0
  {
    AndBit(a, b, k);
    XorBit(a, b, k);
    XorCancel(a, b);
    XorSelf(a);
  }

  /** DIV is the unsigned quotient, and MULT the product when it fits. */
  lemma MultDiv(a: u32, b: u32)
    ensures b != 0 ==> Alu(DIV, a, b, 0, 0) * b <= a < (Alu(DIV, a, b, 0, 0) + 1) * b
    ensures a * b < WORD ==> Alu(MULT, a, b, 0, 0) == a * b
    ensures Alu(MULT, a, 1, 0, 0) == a
  {
  }

  /** A conditional branch yields the target `pc + 4 + immediate` when its
      condition holds and the fall-through `pc + 4` otherwise; with a
      non-zero offset the result tells which happened. */
  lemma BranchOutcome(op: Opcode, v: u32, v2: u32, imm: u32, pc: u32)
    requires IsBranch(op) && op != JUMP
    ensures Alu(op, v, v2, imm, pc) == Wrap(pc + 4 + imm) || Alu(op, v, v2, imm, pc) == Wrap(pc + 4)
    ensures !BranchTaken(op, Signed(v)) ==> Alu(op, v, v2, imm, pc) == Wrap(pc + 4)
    ensures imm != 0 ==> (Alu(op, v, v2, imm, pc) == Wrap(pc + 4 + imm) <==> BranchTaken(op, Signed(v)))
  {
    if imm != 0 {
      if Wrap(pc + 4 + imm) == Wrap(pc + 4) {
        WrapAdd(pc + 4 + imm, pc + 4);
        assert false;
      }
    }
  }

  /** The six conditional branches come in complementary pairs, and BLTZ
      and BGEZ test the sign bit of the register word. */
  lemma BranchPairs(v: u32)
    ensures BranchTaken(BEQZ, Signed(v)) != BranchTaken(BNEZ, Signed(v))
    ensures BranchTaken(BLTZ, Signed(v)) != BranchTaken(BGEZ, Signed(v))
    ensures BranchTaken(BGTZ, Signed(v)) != BranchTaken(BLEZ, Signed(v))
    ensures BranchTaken(BEQZ, Signed(v)) <==> v == 0
    ensures BranchTaken(BLTZ, Signed(v)) <==> Bit(v, 31) == 1
  {
    SignBit(v);
  }

  /** Memory operations and EOP fall into the branch case of `alu` with a
      false condition, so they yield the next sequential pc. */
  lemma NonBranchDefault(op: Opcode, v1: u32, v2: u32, imm: u32, pc: u32)
    requires IsMemory(op) || op == EOP
    ensures Alu(op, v1, v2, imm, pc) == Wrap(pc + 4)
  {
  }

  // ---------------------------------------------------------------------
  // Branch offsets
  // ---------------------------------------------------------------------

  /** The immediate the loader stores into the branch at instruction
      number `i` whose label names instruction number `target`
      (sim_ooo.cc:743): the word distance from the next instruction. */
  function LabelOffset(target: u32, i: nat): u32
  {
    Wrap(Shl(Wrap(target - i - 1), 2))
  }

  /** The offset is four times the instruction distance, modulo 2^32. */
  lemma LabelOffsetValue(target: u32, i: nat)
    ensures LabelOffset(target, i) == Wrap(4 * (target - i - 1))
  {
    var x: int := target - i - 1;
    var w: int := Wrap(x);
    var q: int := x / WORD;
    ShlIsMul(w, 2);
    assert Pow2(2) == 4;
    assert 4 * w == 4 * x + -(4 * q) * WORD;
    WrapShift(4 * x, -(4 * q));
  }

  /** A jump, or a taken branch, yields `pc + 4 + immediate`. */
  lemma TakenTarget(op: Opcode, v: u32, v2: u32, imm: u32, pc: u32)
    requires op == JUMP || (IsBranch(op) && BranchTaken(op, Signed(v)))
    ensures Alu(op, v, v2, imm, pc) == Wrap(pc + 4 + imm)
  {
  }

  /** A jump, or a taken branch, at instruction number `i` of a program
      loaded at `base` lands on instruction number `target`. */
  lemma BranchReachesLabel(op: Opcode, v: u32, v2: u32, base: u32, i: nat, target: u32)
    requires op == JUMP || (IsBranch(op) && BranchTaken(op, Signed(v)))
    ensures Alu(op, v, v2, LabelOffset(target, i), Wrap(base + 4 * i)) == Wrap(base + 4 * target)
  {
    var d: int := 4 * (target - i - 1);
    var pc := Wrap(base + 4 * i);
    var p: int := pc;
    LabelOffsetValue(target, i);
    TakenTarget(op, v, v2, LabelOffset(target, i), pc);
    WrapAdd(d, p + 4);
    WrapAdd(base + 4 * i, 4 + d);
    assert base + 4 * i + 4 + d == base + 4 * target;
  }

  // ---------------------------------------------------------------------
  // Little-endian byte packing (sim_ooo.cc:38-49)
  // ---------------------------------------------------------------------

  /** Byte `k` of a word: `(v >> 8k) & 0xFF`. */
  function ByteOf(v: u32, k: nat): u8
  {
    Pow2Values();
    AndOnes(Shr(v, 8 * k), 8);
    LowBound(Shr(v, 8 * k), 8);
    And(Shr(v, 8 * k), 0xFF)
  }

  /** The four bytes `unsigned2char` writes, lowest first. */
  function LittleEndian(v: u32): seq<u8>
  {
    [ByteOf(v, 0), ByteOf(v, 1), ByteOf(v, 2), ByteOf(v, 3)]
  }

  /** `char2unsigned`: the word whose bytes, lowest first, start at `at`. */
  function Char2Unsigned(mem: seq<u8>, at: nat): u32
    requires at + 4 <= |mem|
  {
    Wrap(mem[at] + Shl(mem[at + 1], 8) + Shl(mem[at + 2], 16) + Shl(mem[at + 3], 24))
  }

  /** Memory after `unsigned2char` stores `v` at `at`. */
  function Store(mem: seq<u8>, at: nat, v: u32): (r: seq<u8>)
    requires at + 4 <= |mem|
    ensures |r| == |mem|
  {
    mem[..at] + LittleEndian(v) + mem[at + 4..]
  }

  /** Byte `k` is the `k`-th base-256 digit of the word. */
  lemma ByteIsDigit(v: u32, k: nat)
    ensures ByteOf(v, k) == (v / Pow2(8 * k)) % 0x100
  {
    Pow2Values();
    AndOnes(Shr(v, 8 * k), 8);
    SplitIsDivMod(Shr(v, 8 * k), 8);
    SplitIsDivMod(v, 8 * k);
  }

  /** The number whose base-256 digits, lowest first, are the arguments. */
  function Radix256(b0: int, b1: int, b2: int, b3: int): int
  {
    b0 + 0x100 * b1 + 0x1_0000 * b2 + 0x100_0000 * b3
  }

  /** Splitting a number into its low byte and the rest. */
  lemma PeelByte(b: u8, rest: nat)
    ensures Low(b + 0x100 * rest, 8) == b && Shr(b + 0x100 * rest, 8) == rest
  {
    Pow2Values();
    SplitIsDivMod(b + 0x100 * rest, 8);
    DivModUnique(b + 0x100 * rest, rest, b, 0x100);
  }

  /** The bits of a word from bit 8k up are byte k plus the bits from
      bit 8k + 8 up, shifted. */
  lemma ByteSplit(v: u32, k: nat)
    ensures Shr(v, 8 * k) == ByteOf(v, k) + 0x100 * Shr(v, 8 * k + 8)
  {
    Pow2Values();
    AndOnes(Shr(v, 8 * k), 8);
    SplitLow(Shr(v, 8 * k), 8);
    ShrShr(v, 8 * k, 8);
    ShlIsMul(Shr(v, 8 * k + 8), 8);
  }

  /** A word is the base-256 number of its four bytes. */
  lemma WordOfBytes(v: u32)
    ensures v == Radix256(ByteOf(v, 0), ByteOf(v, 1), ByteOf(v, 2), ByteOf(v, 3))
  {
    ByteSplit(v, 0);
    ByteSplit(v, 1);
    ByteSplit(v, 2);
    ByteSplit(v, 3);
    Pow2Values();
    ShrBound(v, 32, 0);
    assert Pow2(0) == 1;
  }

  /** The bytes of a base-256 number of four bytes are those bytes. */
  lemma BytesOfWord(b0: u8, b1: u8, b2: u8, b3: u8)
    ensures 0 <= Radix256(b0, b1, b2, b3) < WORD
    ensures LittleEndian(Radix256(b0, b1, b2, b3)) == [b0, b1, b2, b3]
  {
    var r2: nat := b2 + 0x100 * b3;
    var r1: nat := b1 + 0x100 * r2;
    var v: nat := b0 + 0x100 * r1;
    assert v == Radix256(b0, b1, b2, b3);
    Pow2Values();
    PeelByte(b0, r1);
    PeelByte(b1, r2);
    PeelByte(b2, b3);
    LowSmall(b3, 8);
    ShrShr(v, 8, 8);
    ShrShr(v, 16, 8);
    ShrShr(Shr(v, 8), 8, 8);
    AndOnes(v, 8);
    AndOnes(Shr(v, 8), 8);
    AndOnes(Shr(v, 16), 8);
    AndOnes(Shr(v, 24), 8);
  }

  /** `char2unsigned` never wraps: it is the base-256 number of the bytes. */
  lemma Char2UnsignedValue(mem: seq<u8>, at: nat)
    requires at + 4 <= |mem|
    ensures Char2Unsigned(mem, at) == Radix256(mem[at], mem[at + 1], mem[at + 2], mem[at + 3])
  {
    Pow2Values();
    ShlIsMul(mem[at + 1], 8);
    ShlIsMul(mem[at + 2], 16);
    ShlIsMul(mem[at + 3], 24);
  }

  /** Reading back a stored word gives the word. */
  lemma LoadAfterStore(mem: seq<u8>, at: nat, v: u32)
    requires at + 4 <= |mem|
    ensures Char2Unsigned(Store(mem, at, v), at) == v
  {
    var m := Store(mem, at, v);
    assert m[at..at + 4] == LittleEndian(v);
    Char2UnsignedValue(m, at);
    WordOfBytes(v);
  }

  /** Storing the word read from memory leaves memory as it was. */
  lemma StoreAfterLoad(mem: seq<u8>, at: nat)
    requires at + 4 <= |mem|
    ensures Store(mem, at, Char2Unsigned(mem, at)) == mem
  {
    Char2UnsignedValue(mem, at);
    BytesOfWord(mem[at], mem[at + 1], mem[at + 2], mem[at + 3]);
    StoreSame(mem, at, Char2Unsigned(mem, at));
  }

  /** Storing the bytes memory already holds changes nothing. */
  lemma StoreSame(mem: seq<u8>, at: nat, v: u32)
    requires at + 4 <= |mem| && LittleEndian(v) == [mem[at], mem[at + 1], mem[at + 2], mem[at + 3]]
    ensures Store(mem, at, v) == mem
  {
    assert mem[at..at + 4] == LittleEndian(v);
    assert mem == mem[..at] + mem[at..at + 4] + mem[at + 4..];
  }

  /** A store changes exactly the four bytes it writes. */
  lemma StoreIsLocal(mem: seq<u8>, at: nat, v: u32, j: nat)
    requires at + 4 <= |mem| && j < |mem|
    ensures (j < at || at + 4 <= j) ==> Store(mem, at, v)[j] == mem[j]
    ensures at <= j < at + 4 ==> Store(mem, at, v)[j] == ByteOf(v, j - at)
  {
  }

  /** `unsigned2char(value, buffer + at)`: the four bytes of `value`, lowest
      first, at `buffer[at..at + 4]`. */
  method Unsigned2Char(value: u32, buffer: array<u8>, at: nat)
    requires at + 4 <= buffer.Length
    modifies buffer
    ensures buffer[..] == Store(old(buffer[..]), at, value)
  {
    buffer[at] := ByteOf(value, 0);
    buffer[at + 1] := ByteOf(value, 1);
    buffer[at + 2] := ByteOf(value, 2);
    buffer[at + 3] := ByteOf(value, 3);
  }
}
