/** The A32 instructions that the immediate and transfer helpers emit: decoding and effect
    (sections A5.2 and A8.8 of the ARMv7-A/R Architecture Reference Manual). */
module ArmMachine {

  type Reg = r: bv32 | r <= 15 witness 0
  const S0: Reg := 6
  const S1: Reg := 12

  const OP2_IMMEDIATE: bv32 := 0x0200_0000
  const CC_AL: bv32 := 0xe000_0000

  // --- operands

  function RotateTwoBits(x: bv32): bv32 { (x >> 2) | (x << 30) }

  /** Rotate right by r times two bits. */
  function Turn(x: bv32, r: nat): bv32 {
    if r == 0 then x else RotateTwoBits(Turn(x, r - 1))
  }

  /** The low four bits as a number. */
  function UInt4(f: bv32): nat {
    (if f & 1 != 0 then 1 else 0) + (if f & 2 != 0 then 2 else 0)
    + (if f & 4 != 0 then 4 else 0) + (if f & 8 != 0 then 8 else 0)
  }

  /** ARMExpandImm: the low byte, rotated right by twice the field above it. */
  function ExpandImm(imm12: bv32): bv32 {
    Turn(imm12 & 0xff, UInt4(imm12 >> 8))
  }

  datatype Operand = Imm(value: bv32) | Modified(imm12: bv32) | Shifted(reg: Reg, lsl: bv32)

  datatype Opcode = MOV | MVN | ORR | BIC | ADD | SUB

  datatype Instruction =
    | Data(op: Opcode, rd: Reg, rn: Reg, operand: Operand)
    | MovW(rd: Reg, imm16: bv32)
    | MovT(rd: Reg, imm16: bv32)
    | Transfer(kind: bv32, rt: Reg, rn: Reg, up: bool, offset: Operand)
    | Unknown

  // --- decoding

  function RdOf(w: bv32): Reg { (w >> 12) & 0xf }

  function RnOf(w: bv32): Reg { (w >> 16) & 0xf }

  function ShiftedOf(w: bv32): Operand { Shifted(w & 0xf, (w >> 7) & 0x1f) }

  function OpcodeOf(w: bv32): Opcode {
    var op := (w >> 21) & 0xf;
    if op == 0xd then MOV else if op == 0xf then MVN else if op == 0xc then ORR
    else if op == 0xe then BIC else if op == 0x4 then ADD else SUB
  }

  predicate IsKnownData(w: bv32) {
    var op := (w >> 21) & 0xf;
    op == 0xd || op == 0xf || op == 0xc || op == 0xe || op == 0x4 || op == 0x2
  }

  function IsUpBit(w: bv32): bool { w & 0x0080_0000 != 0 }

  /** Which access it is: word or byte and load or store; the halfword forms; the VFP forms. */
  function Decode(w: bv32): Instruction {
    if w & 0xf000_0000 != CC_AL then Unknown
    else if w & 0x0ff0_0000 == 0x0300_0000 then MovW(RdOf(w), ((w >> 4) & 0xf000) | (w & 0xfff))
    else if w & 0x0ff0_0000 == 0x0340_0000 then MovT(RdOf(w), ((w >> 4) & 0xf000) | (w & 0xfff))
    else if w & 0x0e00_0090 == 0x0000_0090 && w & 0x0120_0000 == 0x0100_0000 then
      Transfer(w & 0x0110_00f0, RdOf(w), RnOf(w), IsUpBit(w),
               if w & 0x0040_0000 != 0 then Imm(((w >> 4) & 0xf0) | (w & 0xf)) else Shifted(w & 0xf, 0))
    else if w & 0x0c10_0000 == 0 && IsKnownData(w) then
      if w & OP2_IMMEDIATE != 0 then Data(OpcodeOf(w), RdOf(w), RnOf(w), Modified(w & 0xfff))
      else if w & 0x70 == 0 then Data(OpcodeOf(w), RdOf(w), RnOf(w), ShiftedOf(w))
      else Unknown
    else if w & 0x0d20_0000 == 0x0500_0000 then
      if w & 0x0200_0000 == 0 then Transfer(w & 0x0550_0000, RdOf(w), RnOf(w), IsUpBit(w), Imm(w & 0xfff))
      else if w & 0x70 == 0 then Transfer(w & 0x0550_0000, RdOf(w), RnOf(w), IsUpBit(w), ShiftedOf(w))
      else Unknown
    else if w & 0x0f60_0e00 == 0x0d00_0a00 then
      Transfer(w & 0x0f10_0f00, RdOf(w), RnOf(w), IsUpBit(w), Imm((w & 0xff) << 2))
    else Unknown
  }

  // --- effect

  type Registers = bv32 -> bv32

  datatype Access = Access(kind: bv32, rt: Reg, address: bv32, registers: Registers)

  /** Registers, and the memory accesses performed so far, each with the registers it saw. */
  datatype Cpu = Cpu(regs: Registers, accesses: seq<Access>)

  function Set(regs: Registers, d: bv32, v: bv32): Registers {
    x => if x == d then v else regs(x)
  }

  function ShiftLeft(x: bv32, n: bv32): bv32 { if n < 32 then x << n else 0 }

  function OperandValue(regs: Registers, operand: Operand): bv32
  {
    match operand
    case Imm(v) => v
    case Modified(i) => ExpandImm(i)
    case Shifted(r, n) => ShiftLeft(regs(r), n)
  }

  function DataResult(op: Opcode, a: bv32, b: bv32): bv32 {
    match op
    case MOV => b
    case MVN => !b
    case ORR => a | b
    case BIC => a & !b
    case ADD => a + b
    case SUB => a - b
  }

  function Address(base: bv32, up: bool, delta: bv32): bv32 {
    if up then base + delta else base - delta
  }

  function Execute(cpu: Cpu, i: Instruction): Cpu {
    match i
    case Data(op, rd, rn, operand) =>
      cpu.(regs := Set(cpu.regs, rd, DataResult(op, cpu.regs(rn), OperandValue(cpu.regs, operand))))
    case MovW(rd, imm16) => cpu.(regs := Set(cpu.regs, rd, imm16))
    case MovT(rd, imm16) => cpu.(regs := Set(cpu.regs, rd, (cpu.regs(rd) & 0xffff) | (imm16 << 16)))
    case Transfer(kind, rt, rn, up, offset) =>
      var address := Address(cpu.regs(rn), up, OperandValue(cpu.regs, offset));
      cpu.(accesses := cpu.accesses + [Access(kind, rt, address, cpu.regs)])
    case Unknown => cpu
  }

  /** What an assembler helper appends: an instruction word, or a load of a constant through the
      constant pool (whose effect the pool theorems give). */
  datatype Emitted = Insn(word: bv32) | PoolLoad(rd: Reg, constant: bv32)

  function Perform(cpu: Cpu, e: Emitted): Cpu {
    match e
    case Insn(w) => Execute(cpu, Decode(w))
    case PoolLoad(rd, c) => cpu.(regs := Set(cpu.regs, rd, c))
  }

  predicate IsFreeOfPc(operand: Operand) { operand.Shifted? ==> operand.reg != 15 }

  /** Decode knows the word, and pc is neither an operand nor a result of it, so it does the same
      wherever it ends up. Only the register that an access loads or stores may be pc. */
  predicate IsKnown(e: Emitted) {
    match e
    case PoolLoad(rd, _) => rd != 15
    case Insn(w) =>
      match Decode(w)
      case Data(_, rd, rn, operand) => rd != 15 && rn != 15 && IsFreeOfPc(operand)
      case MovW(rd, _) => rd != 15
      case MovT(rd, _) => rd != 15
      case Transfer(_, _, rn, _, offset) => rn != 15 && IsFreeOfPc(offset)
      case Unknown => false
  }

  predicate AllKnown(es: seq<Emitted>) { forall e :: e in es ==> IsKnown(e) }

  function PerformAll(cpu: Cpu, es: seq<Emitted>): Cpu
    decreases |es|
  {
    if es == [] then cpu else PerformAll(Perform(cpu, es[0]), es[1..])
  }

  lemma {:induction false} PerformConcat(cpu: Cpu, es: seq<Emitted>, fs: seq<Emitted>)
    ensures PerformAll(cpu, es + fs) == PerformAll(PerformAll(cpu, es), fs)
    decreases |es|
  {
    if es == [] {
      assert es + fs == fs;
    } else {
      assert (es + fs)[1..] == es[1..] + fs;
      PerformConcat(Perform(cpu, es[0]), es[1..], fs);
    }
  }

  // --- encoding, as emitInstruction does it

  function RD(r: Reg): bv32 { r << 12 }

  function RN(r: Reg): bv32 { r << 16 }

  function OpcodeBits(op: Opcode): bv32 {
    match op
    case MOV => 0xd << 21
    case MVN => 0xf << 21
    case ORR => 0xc << 21
    case BIC => 0xe << 21
    case ADD => 0x4 << 21
    case SUB => 0x2 << 21
  }

  function DataWord(op: Opcode, rd: Reg, rn: Reg, op2: bv32): bv32 {
    CC_AL | OpcodeBits(op) | RN(rn) | RD(rd) | op2
  }

  lemma WordFields(bits: bv32, rd: Reg, rn: Reg, op2: bv32)
    requires bits & 0xf00f_ffff == 0 && op2 & 0xfdff_f000 == 0
    ensures var w := CC_AL | bits | RN(rn) | RD(rd) | op2;
            && w & 0xf000_0000 == CC_AL && RdOf(w) == rd && RnOf(w) == rn && w & 0xfff == op2 & 0xfff
            && w & 0x0ff0_0000 == bits | (op2 & 0x0200_0000)
            && w & 0xffff == ((rd & 0xf) << 12) | (op2 & 0xfff)
  {
  }

  lemma DecodeDataImmediate(op: Opcode, rd: Reg, rn: Reg, op2: bv32)
    requires op2 & 0xffff_f000 == OP2_IMMEDIATE
    ensures Decode(DataWord(op, rd, rn, op2)) == Data(op, rd, rn, Modified(op2 & 0xfff))
  {
    WordFields(OpcodeBits(op), rd, rn, op2);
  }

  /** lsl(reg, value) as an operand. */
  function Lsl(reg: Reg, value: bv32): bv32
    requires value <= 31
  {
    reg | (value << 7)
  }

  lemma ShiftFields(w: bv32, rm: Reg, shift: bv32)
    requires shift <= 31 && w & 0xfff == Lsl(rm, shift)
    ensures ShiftedOf(w) == Shifted(rm, shift) && w & 0x70 == 0 && w & 0x10 == 0
  {
  }

  lemma DecodeDataRegister(op: Opcode, rd: Reg, rn: Reg, rm: Reg, shift: bv32)
    requires shift <= 31
    ensures Decode(DataWord(op, rd, rn, Lsl(rm, shift))) == Data(op, rd, rn, Shifted(rm, shift))
  {
    OperandFits(rm, shift, 0);
    DecodeRegisterOperand(op, rd, rn, rm, shift, Lsl(rm, shift));
  }

  lemma DecodeRegisterOperand(op: Opcode, rd: Reg, rn: Reg, rm: Reg, shift: bv32, op2: bv32)
    requires shift <= 31 && op2 & 0xffff_f000 == 0 && op2 & 0xfff == Lsl(rm, shift)
    ensures Decode(DataWord(op, rd, rn, op2)) == Data(op, rd, rn, Shifted(rm, shift))
  {
    OpcodeFits(op);
    RegisterWordDecodes(op, OpcodeBits(op), rd, rn, rm, shift, op2);
  }

  lemma OpcodeFits(op: Opcode)
    ensures OpcodeBits(op) & 0xf20f_ffff == 0
  {
  }

  lemma RegisterWordDecodes(op: Opcode, bits: bv32, rd: Reg, rn: Reg, rm: Reg, shift: bv32, op2: bv32)
    requires bits & 0xf20f_ffff == 0 && shift <= 31 && op2 & 0xffff_f000 == 0 && op2 & 0xfff == Lsl(rm, shift)
    ensures bits == OpcodeBits(op)
            ==> Decode(CC_AL | bits | RN(rn) | RD(rd) | op2) == Data(op, rd, rn, Shifted(rm, shift))
  {
    PlainRegisterFields(bits, rd, rn, rm, shift, op2);
    RegisterDecodes(op, CC_AL | bits | RN(rn) | RD(rd) | op2);
  }

  lemma PlainRegisterFields(bits: bv32, rd: Reg, rn: Reg, rm: Reg, shift: bv32, op2: bv32)
    requires bits & 0xf20f_ffff == 0 && shift <= 31 && op2 & 0xffff_f000 == 0 && op2 & 0xfff == Lsl(rm, shift)
    ensures var w := CC_AL | bits | RN(rn) | RD(rd) | op2;
            && w & 0xf000_0000 == CC_AL && RdOf(w) == rd && RnOf(w) == rn
            && w & 0x0ff0_0000 == bits && w & 0x70 == 0 && ShiftedOf(w) == Shifted(rm, shift)
  {
    RegisterFields(bits, rd, rn, rm, shift, op2);
  }

  lemma RegisterDecodes(op: Opcode, w: bv32)
    ensures w & 0xf000_0000 == CC_AL && w & 0x0ff0_0000 == OpcodeBits(op) && w & 0x70 == 0
            ==> Decode(w) == Data(op, RdOf(w), RnOf(w), ShiftedOf(w))
  {
    if w & 0xf000_0000 == CC_AL && w & 0x0ff0_0000 == OpcodeBits(op) && w & 0x70 == 0 {
      DataFields(op, w);
      DecodesDataRegister(w);
    }
  }

  lemma RegisterFields(bits: bv32, rd: Reg, rn: Reg, rm: Reg, shift: bv32, op2: bv32)
    requires bits & 0xf20f_ffff == 0 && shift <= 31
    requires op2 & 0xfdff_f000 == 0 && op2 & 0xfff == Lsl(rm, shift)
    ensures var w := CC_AL | bits | RN(rn) | RD(rd) | op2;
            && w & 0xf000_0000 == CC_AL && RdOf(w) == rd && RnOf(w) == rn
            && w & 0x0ff0_0000 == bits | (op2 & 0x0200_0000) && w & 0x70 == 0 && ShiftedOf(w) == Shifted(rm, shift)
  {
    WordFields(bits, rd, rn, op2);
    ShiftFields(CC_AL | bits | RN(rn) | RD(rd) | op2, rm, shift);
  }

  lemma OperandFits(rm: Reg, shift: bv32, flag: bv32)
    requires shift <= 31 && (flag == 0 || flag == 0x0200_0000)
    ensures (flag | Lsl(rm, shift)) & 0xffff_f000 == flag && (flag | Lsl(rm, shift)) & 0xfff == Lsl(rm, shift)
    ensures 0 | Lsl(rm, shift) == Lsl(rm, shift)
  {
  }

  lemma DecodesDataRegister(w: bv32)
    requires w & 0xf000_0000 == CC_AL && w & 0x0e10_0000 == 0 && IsKnownData(w) && w & 0x70 == 0
    ensures Decode(w) == Data(OpcodeOf(w), RdOf(w), RnOf(w), ShiftedOf(w))
  {
  }

  lemma DataFields(op: Opcode, w: bv32)
    requires w & 0x0ff0_0000 == OpcodeBits(op)
    ensures w & 0x0e10_0000 == 0 && IsKnownData(w) && OpcodeOf(w) == op
  {
  }

  const DATA_TRANSFER_UP: bv32 := 0x0080_0000

  /** LoadUint32, LoadUint8, StoreUint32, StoreUint8. */
  predicate IsTypeA(kind: bv32) {
    kind == 0x0510_0000 || kind == 0x0550_0000 || kind == 0x0500_0000 || kind == 0x0540_0000
  }

  /** LoadUint16, LoadInt16, LoadInt8, StoreUint16. */
  predicate IsTypeB(kind: bv32) {
    kind == 0x0110_00b0 || kind == 0x0110_00f0 || kind == 0x0110_00d0 || kind == 0x0100_00b0
  }

  /** LoadFloat, LoadDouble, StoreFloat, StoreDouble. */
  predicate IsTypeFloat(kind: bv32) {
    kind == 0x0d10_0a00 || kind == 0x0d10_0b00 || kind == 0x0d00_0a00 || kind == 0x0d00_0b00
  }

  function UpBit(up: bool): bv32 { if up then DATA_TRANSFER_UP else 0 }

  function TransferWord(kind: bv32, up: bool, rd: Reg, rb: Reg, op2: bv32): bv32 {
    CC_AL | (kind | UpBit(up)) | RN(rb) | RD(rd) | op2
  }

  lemma DecodesTransfer(w: bv32, kind: bv32, up: bool)
    requires IsTypeA(kind) && w & 0xf000_0000 == CC_AL && w & 0x0df0_0000 == kind | UpBit(up)
    requires w & 0x0200_0000 == 0 || w & 0x70 == 0
    ensures Decode(w) == Transfer(kind, RdOf(w), RnOf(w), up,
                                  if w & 0x0200_0000 == 0 then Imm(w & 0xfff) else ShiftedOf(w))
  {
    TransferClass(w, kind, up);
  }

  lemma TransferClass(w: bv32, kind: bv32, up: bool)
    requires IsTypeA(kind) && w & 0x0df0_0000 == kind | UpBit(up)
    ensures w & 0x0550_0000 == kind && IsUpBit(w) == up
    ensures w & 0x0d20_0000 == 0x0500_0000 && w & 0x0c00_0000 == 0x0400_0000
  {
  }

  lemma DecodeTransfer(kind: bv32, up: bool, rd: Reg, rb: Reg, op2: bv32)
    requires IsTypeA(kind) && op2 <= 0xfff
    ensures Decode(TransferWord(kind, up, rd, rb, op2)) == Transfer(kind, rd, rb, up, Imm(op2))
  {
    WordFields(kind | UpBit(up), rd, rb, op2);
    DecodesTransfer(TransferWord(kind, up, rd, rb, op2), kind, up);
  }

  lemma DecodeTransferRegister(kind: bv32, rd: Reg, rb: Reg, rm: Reg, shift: bv32)
    requires IsTypeA(kind) && shift <= 31
    ensures Decode(TransferWord(kind, true, rd, rb, 0x0200_0000 | Lsl(rm, shift)))
            == Transfer(kind, rd, rb, true, Shifted(rm, shift))
  {
    OperandFits(rm, shift, 0x0200_0000);
    DecodeTransferOperand(kind, rd, rb, rm, shift, 0x0200_0000 | Lsl(rm, shift));
  }

  lemma DecodeTransferOperand(kind: bv32, rd: Reg, rb: Reg, rm: Reg, shift: bv32, op2: bv32)
    requires IsTypeA(kind) && shift <= 31 && op2 & 0xffff_f000 == 0x0200_0000 && op2 & 0xfff == Lsl(rm, shift)
    ensures Decode(TransferWord(kind, true, rd, rb, op2)) == Transfer(kind, rd, rb, true, Shifted(rm, shift))
  {
    RegisterFields(kind | UpBit(true), rd, rb, rm, shift, op2);
    DecodesTransfer(TransferWord(kind, true, rd, rb, op2), kind, true);
  }

  const IMMEDIATE_FOR_HALFWORD_TRANSFER: bv32 := 0x0040_0000

  function Op2Half(imm: bv32): bv32 {
    IMMEDIATE_FOR_HALFWORD_TRANSFER | (imm & 0x0f) | ((imm & 0xf0) << 4)
  }

  lemma HalfFields(bits: bv32, rd: Reg, rb: Reg, op2: bv32)
    requires bits & 0xf00f_ff0f == 0 && op2 & 0xffbf_f0f0 == 0
    ensures var w := CC_AL | bits | RN(rb) | RD(rd) | op2;
            && w & 0xf000_0000 == CC_AL && RdOf(w) == rd && RnOf(w) == rb
            && w & 0x0ff0_00f0 == bits | (op2 & 0x0040_0000) && w & 0xf0f == op2 & 0xf0f
  {
  }

  lemma DecodeHalf(kind: bv32, up: bool, rd: Reg, rb: Reg, imm: bv32)
    requires IsTypeB(kind) && imm <= 0xff
    ensures Decode(TransferWord(kind, up, rd, rb, Op2Half(imm))) == Transfer(kind, rd, rb, up, Imm(imm))
  {
    HalfFields(kind | UpBit(up), rd, rb, Op2Half(imm));
  }

  lemma DecodeHalfRegister(kind: bv32, rd: Reg, rb: Reg, rm: Reg)
    requires IsTypeB(kind)
    ensures Decode(TransferWord(kind, true, rd, rb, rm)) == Transfer(kind, rd, rb, true, Shifted(rm, 0))
  {
    HalfFields(kind | UpBit(true), rd, rb, rm);
  }

  lemma FloatFields(bits: bv32, rd: Reg, rb: Reg, op2: bv32)
    requires bits & 0xf00f_f0ff == 0 && op2 <= 0xff
    ensures var w := CC_AL | bits | RN(rb) | RD(rd) | op2;
            && w & 0xf000_0000 == CC_AL && RdOf(w) == rd && RnOf(w) == rb
            && w & 0x0ff0_0f00 == bits && w & 0xff == op2
  {
  }

  lemma DecodesFloat(w: bv32, kind: bv32, up: bool)
    requires IsTypeFloat(kind) && w & 0xf000_0000 == CC_AL && w & 0x0ff0_0f00 == kind | UpBit(up)
    ensures Decode(w) == Transfer(kind, RdOf(w), RnOf(w), up, Imm((w & 0xff) << 2))
  {
    FloatClass(w, kind, up);
  }

  lemma FloatClass(w: bv32, kind: bv32, up: bool)
    requires IsTypeFloat(kind) && w & 0x0ff0_0f00 == kind | UpBit(up)
    ensures w & 0x0f10_0f00 == kind && IsUpBit(w) == up
    ensures w & 0x0f60_0e00 == 0x0d00_0a00 && w & 0x0c00_0000 == 0x0c00_0000 && w & 0x0d20_0000 != 0x0500_0000
  {
  }

  lemma DecodeFloat(kind: bv32, up: bool, rd: Reg, rb: Reg, op2: bv32)
    requires IsTypeFloat(kind) && op2 <= 0xff
    ensures Decode(TransferWord(kind, up, rd, rb, op2)) == Transfer(kind, rd, rb, up, Imm(op2 << 2))
  {
    FloatFields(kind | UpBit(up), rd, rb, op2);
    DecodesFloat(TransferWord(kind, up, rd, rb, op2), kind, up);
  }
}
