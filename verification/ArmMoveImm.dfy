/** moveImm, getImm and encodeComplexImm of ARMAssembler: what the emitted words leave in the
    destination register, on every path. The helpers return the words they append. */
module ArmMoveImm {
  import opened ArmMachine
  import opened ArmImmediates
  import opened ArmGenInt

  const OP2_INVERTED_IMMEDIATE: bv32 := 0x0400_0000
  const MOVW: bv32 := 0x0300_0000
  const MOVT: bv32 := 0x0340_0000

  /** After is before with v in register d and nothing else changed. */
  ghost predicate Leaves(before: Cpu, after: Cpu, d: bv32, v: bv32) {
    && after.accesses == before.accesses
    && forall r: bv32 :: after.regs(r) == if r == d then v else before.regs(r)
  }

  /** Whatever the machine held, performing these words puts v in register d and changes nothing else. */
  ghost predicate Puts(es: seq<Emitted>, d: bv32, v: bv32) {
    forall cpu :: Leaves(cpu, PerformAll(cpu, es), d, v)
  }

  lemma OneWord(cpu: Cpu, e: Emitted)
    ensures PerformAll(cpu, [e]) == Perform(cpu, e)
  {
    assert [e][1..] == [];
  }

  lemma TwoWords(cpu: Cpu, e: Emitted, f: Emitted)
    ensures PerformAll(cpu, [e, f]) == Perform(Perform(cpu, e), f)
  {
    assert [e, f][1..] == [f];
    OneWord(Perform(cpu, e), f);
  }

  function Mov(rd: Reg, op2: bv32): Emitted { Insn(DataWord(MOV, rd, 0, op2)) }

  function Mvn(rd: Reg, op2: bv32): Emitted { Insn(DataWord(MVN, rd, 0, op2)) }

  function Orr(rd: Reg, rn: Reg, op2: bv32): Emitted { Insn(DataWord(ORR, rd, rn, op2)) }

  function Bic(rd: Reg, rn: Reg, op2: bv32): Emitted { Insn(DataWord(BIC, rd, rn, op2)) }

  function Movw(rd: Reg, op2: bv32): Emitted { Insn(CC_AL | MOVW | RD(rd) | op2) }

  function Movt(rd: Reg, op2: bv32): Emitted { Insn(CC_AL | MOVT | RD(rd) | op2) }

  lemma DataLeaves(cpu: Cpu, op: Opcode, rd: Reg, rn: Reg, op2: bv32)
    requires IsOp2(op2)
    ensures Leaves(cpu, Perform(cpu, Insn(DataWord(op, rd, rn, op2))), rd, DataResult(op, cpu.regs(rn), Op2Value(op2)))
  {
    DecodeDataImmediate(op, rd, rn, op2);
  }

  lemma DataKnown(op: Opcode, rd: Reg, rn: Reg, op2: bv32)
    requires IsOp2(op2) && rd != 15 && rn != 15
    ensures IsKnown(Insn(DataWord(op, rd, rn, op2))) && !IsArmv7Move(Insn(DataWord(op, rd, rn, op2)))
  {
    DecodeDataImmediate(op, rd, rn, op2);
  }

  lemma MovPuts(d: Reg, op2: bv32)
    requires IsOp2(op2)
    ensures Puts([Mov(d, op2)], d, Op2Value(op2))
  {
    forall cpu ensures Leaves(cpu, PerformAll(cpu, [Mov(d, op2)]), d, Op2Value(op2)) {
      OneWord(cpu, Mov(d, op2));
      DataLeaves(cpu, MOV, d, 0, op2);
    }
  }

  lemma MvnPuts(d: Reg, op2: bv32)
    requires IsOp2(op2)
    ensures Puts([Mvn(d, op2)], d, !Op2Value(op2))
  {
    forall cpu ensures Leaves(cpu, PerformAll(cpu, [Mvn(d, op2)]), d, !Op2Value(op2)) {
      OneWord(cpu, Mvn(d, op2));
      DataLeaves(cpu, MVN, d, 0, op2);
    }
  }

  /** One data instruction after another on the same register. */
  lemma PairLeaves(cpu: Cpu, op1: Opcode, op: Opcode, d: Reg, imm1: bv32, imm2: bv32)
    requires IsOp2(imm1) && IsOp2(imm2) && (op1 == MOV || op1 == MVN)
    ensures Leaves(cpu, PerformAll(cpu, [Insn(DataWord(op1, d, 0, imm1)), Insn(DataWord(op, d, d, imm2))]), d,
                   DataResult(op, DataResult(op1, 0, Op2Value(imm1)), Op2Value(imm2)))
  {
    var e, f := Insn(DataWord(op1, d, 0, imm1)), Insn(DataWord(op, d, d, imm2));
    TwoWords(cpu, e, f);
    DataLeaves(cpu, op1, d, 0, imm1);
    DataLeaves(Perform(cpu, e), op, d, d, imm2);
  }

  lemma PairPuts(op1: Opcode, op: Opcode, d: Reg, imm1: bv32, imm2: bv32, x: bv32, y: bv32)
    requires Gives(imm1, x) && Gives(imm2, y) && (op1 == MOV || op1 == MVN)
    ensures Puts([Insn(DataWord(op1, d, 0, imm1)), Insn(DataWord(op, d, d, imm2))], d,
                 DataResult(op, DataResult(op1, 0, x), y))
  {
    var es := [Insn(DataWord(op1, d, 0, imm1)), Insn(DataWord(op, d, d, imm2))];
    forall cpu ensures Leaves(cpu, PerformAll(cpu, es), d, DataResult(op, DataResult(op1, 0, x), y)) {
      PairLeaves(cpu, op1, op, d, imm1, imm2);
    }
  }

  lemma Together(x: bv32, y: bv32)
    ensures DataResult(ORR, DataResult(MOV, 0, x), y) == x | y
    ensures DataResult(BIC, DataResult(MVN, 0, x), y) == !(x | y)
  {
  }

  lemma MovOrrPuts(d: Reg, imm1: bv32, imm2: bv32, x: bv32, y: bv32)
    requires Gives(imm1, x) && Gives(imm2, y)
    ensures Puts([Mov(d, imm1), Orr(d, d, imm2)], d, x | y)
  {
    Together(x, y);
    PairPuts(MOV, ORR, d, imm1, imm2, x, y);
  }

  lemma MvnBicPuts(d: Reg, imm1: bv32, imm2: bv32, x: bv32, y: bv32)
    requires Gives(imm1, x) && Gives(imm2, y)
    ensures Puts([Mvn(d, imm1), Bic(d, d, imm2)], d, !(x | y))
  {
    Together(x, y);
    PairPuts(MVN, BIC, d, imm1, imm2, x, y);
  }

  // --- genInt and encodeComplexImm

  /** No word of the emitted ones is a load from the constant pool. */
  predicate PoolFree(es: seq<Emitted>) {
    forall e :: e in es ==> e.Insn?
  }

  /** movw and movt came with ARMv7. */
  predicate IsArmv7Move(e: Emitted) { e.Insn? && (Decode(e.word).MovW? || Decode(e.word).MovT?) }

  predicate RunsAnywhere(es: seq<Emitted>) {
    forall e :: e in es ==> !IsArmv7Move(e)
  }

  /** Two instructions that put imm (positive) or its complement into reg, exactly when there are any. */
  method GenInt(reg: Reg, imm: bv32, positive: bool) returns (found: bool, es: seq<Emitted>)
    requires reg != 15
    ensures found <==> IsSum(imm)
    ensures found ==> Puts(es, reg, if positive then imm else !imm) && PoolFree(es) && |es| == 2 && AllKnown(es)
    ensures RunsAnywhere(es)
  {
    var imm1, imm2;
    ghost var x, y;
    found, imm1, imm2, x, y := FindTwoOp2s(imm);
    if !found {
      return false, [];
    }
    if positive {
      MovOrrPuts(reg, imm1, imm2, x, y);
      DataKnown(MOV, reg, 0, imm1);
      DataKnown(ORR, reg, reg, imm2);
      es := [Mov(reg, imm1), Orr(reg, reg, imm2)];
    } else {
      MvnBicPuts(reg, imm1, imm2, x, y);
      DataKnown(MVN, reg, 0, imm1);
      DataKnown(BIC, reg, reg, imm2);
      es := [Mvn(reg, imm1), Bic(reg, reg, imm2)];
    }
  }

  /** imm4:imm12 of movw and movt, as Decode reads them. */
  function Imm16Of(w: bv32): bv32 { ((w >> 4) & 0xf000) | (w & 0xfff) }

  /** getImm16Op2: a 16-bit immediate in the fields of movw and movt. */
  function GetImm16Op2(imm: bv32): (op2: bv32)
    ensures op2 != INVALID_IMMEDIATE <==> imm <= 0xffff
    ensures imm <= 0xffff ==> Imm16Of(op2) == imm && op2 & 0xfff0_f000 == 0
  {
    if imm <= 0xffff then ((imm & 0xf000) << 4) | (imm & 0xfff) else INVALID_IMMEDIATE
  }

  lemma Imm16Fields(bits: bv32, rd: Reg, imm: bv32)
    requires imm <= 0xffff && bits & 0xf00f_ffff == 0
    ensures var w := CC_AL | bits | RD(rd) | GetImm16Op2(imm);
            && w & 0xf000_0000 == CC_AL && RdOf(w) == rd && w & 0x0ff0_0000 == bits
            && ((w >> 4) & 0xf000) | (w & 0xfff) == imm
  {
  }

  lemma DecodeMovw(rd: Reg, imm: bv32)
    requires imm <= 0xffff
    ensures Decode(CC_AL | MOVW | RD(rd) | GetImm16Op2(imm)) == MovW(rd, imm)
  {
    Imm16Fields(MOVW, rd, imm);
  }

  lemma DecodeMovt(rd: Reg, imm: bv32)
    requires imm <= 0xffff
    ensures Decode(CC_AL | MOVT | RD(rd) | GetImm16Op2(imm)) == MovT(rd, imm)
  {
    Imm16Fields(MOVT, rd, imm);
  }

  lemma MovwPuts(d: Reg, imm: bv32)
    requires imm <= 0xffff
    ensures Puts([Movw(d, GetImm16Op2(imm))], d, imm)
  {
    DecodeMovw(d, imm);
    MoveWordPuts(Movw(d, GetImm16Op2(imm)), d, imm);
  }

  lemma MoveWordPuts(e: Emitted, d: Reg, imm: bv32)
    requires e.Insn? && Decode(e.word) == MovW(d, imm)
    ensures Puts([e], d, imm)
  {
    forall cpu ensures Leaves(cpu, PerformAll(cpu, [e]), d, imm) {
      OneWord(cpu, e);
    }
  }

  lemma Halves(imm: bv32)
    ensures imm & 0xffff <= 0xffff && imm >> 16 <= 0xffff && ((imm & 0xffff) & 0xffff) | (imm >> 16 << 16) == imm
  {
  }

  lemma MovwMovtLeaves(cpu: Cpu, d: Reg, low: bv32, high: bv32)
    requires low <= 0xffff && high <= 0xffff
    ensures var e, f := Movw(d, GetImm16Op2(low)), Movt(d, GetImm16Op2(high));
            Leaves(cpu, Perform(Perform(cpu, e), f), d, (low & 0xffff) | (high << 16))
  {
    DecodeMovw(d, low);
    DecodeMovt(d, high);
  }

  lemma MovwMovtPuts(d: Reg, low: bv32, high: bv32, imm: bv32)
    requires low <= 0xffff && high <= 0xffff && (low & 0xffff) | (high << 16) == imm
    ensures Puts([Movw(d, GetImm16Op2(low)), Movt(d, GetImm16Op2(high))], d, imm)
  {
    var es := [Movw(d, GetImm16Op2(low)), Movt(d, GetImm16Op2(high))];
    forall cpu ensures Leaves(cpu, PerformAll(cpu, es), d, imm) {
      TwoWords(cpu, es[0], es[1]);
      MovwMovtLeaves(cpu, d, low, high);
    }
  }

  lemma PoolLoadPuts(d: Reg, imm: bv32)
    ensures Puts([PoolLoad(d, imm)], d, imm)
  {
    forall cpu ensures Leaves(cpu, PerformAll(cpu, [PoolLoad(d, imm)]), d, imm) {
      OneWord(cpu, PoolLoad(d, imm));
    }
  }

  /** The value in dest; from the constant pool only if no pair of data instructions makes it. */
  method EncodeComplexImm(imm: bv32, dest: Reg, atLeast7: bool) returns (es: seq<Emitted>)
    requires dest != 15
    ensures Puts(es, dest, imm) && AllKnown(es)
    ensures PoolFree(es) <==> atLeast7 || IsSum(imm) || IsSum(!imm)
    ensures !atLeast7 ==> RunsAnywhere(es)
    ensures |es| == if (atLeast7 && imm <= 0xffff) || !PoolFree(es) then 1 else 2
  {
    if atLeast7 {
      es := WideMove(imm, dest);
      return;
    }
    var found;
    found, es := GenInt(dest, imm, true);
    if found {
      return;
    }
    found, es := GenInt(dest, !imm, false);
    NotNot(imm);
    if found {
      return;
    }
    PoolLoadPuts(dest, imm);
    es := [PoolLoad(dest, imm)];
    assert es[0] in es;
  }

  lemma NotNot(x: bv32)
    ensures !!x == x
  {
  }

  method WideMove(imm: bv32, dest: Reg) returns (es: seq<Emitted>)
    requires dest != 15
    ensures Puts(es, dest, imm) && PoolFree(es) && |es| == (if imm <= 0xffff then 1 else 2) && AllKnown(es)
  {
    var tmp := GetImm16Op2(imm);
    if tmp != INVALID_IMMEDIATE {
      MovwPuts(dest, imm);
      MovwKnown(dest, imm);
      return [Movw(dest, tmp)];
    }
    Halves(imm);
    es := MovePair(dest, imm & 0xffff, imm >> 16, imm);
  }

  method MovePair(dest: Reg, low: bv32, high: bv32, ghost imm: bv32) returns (es: seq<Emitted>)
    requires dest != 15 && low <= 0xffff && high <= 0xffff && (low & 0xffff) | (high << 16) == imm
    ensures Puts(es, dest, imm) && PoolFree(es) && |es| == 2 && AllKnown(es)
  {
    MovwMovtPuts(dest, low, high, imm);
    MovwKnown(dest, low);
    MovtKnown(dest, high);
    es := [Movw(dest, GetImm16Op2(low)), Movt(dest, GetImm16Op2(high))];
  }

  lemma MovwKnown(d: Reg, imm: bv32)
    requires imm <= 0xffff && d != 15
    ensures IsKnown(Movw(d, GetImm16Op2(imm)))
  {
    DecodeMovw(d, imm);
  }

  lemma MovtKnown(d: Reg, imm: bv32)
    requires imm <= 0xffff && d != 15
    ensures IsKnown(Movt(d, GetImm16Op2(imm)))
  {
    DecodeMovt(d, imm);
  }

  /** The value is a modified immediate. */
  ghost predicate IsSingle(value: bv32) {
    exists i :: value == ExpandImm(i)
  }

  /** moveImm: whatever path it takes, dest holds imm afterwards and nothing else has changed. */
  method MoveImm(imm: bv32, dest: Reg, atLeast7: bool) returns (es: seq<Emitted>)
    requires dest != 15
    ensures Puts(es, dest, imm) && AllKnown(es)
    ensures PoolFree(es) <==> atLeast7 || IsSingle(imm) || IsSingle(!imm) || IsSum(imm) || IsSum(!imm)
    ensures !atLeast7 ==> RunsAnywhere(es)
    ensures |es| == if IsSingle(imm) || IsSingle(!imm) || (atLeast7 && imm <= 0xffff) || !PoolFree(es) then 1 else 2
  {
    NotNot(imm);
    var tmp := GetOp2(imm);
    if tmp != INVALID_IMMEDIATE {
      assert imm == ExpandImm(tmp & 0xfff);
      MovPuts(dest, tmp);
      DataKnown(MOV, dest, 0, tmp);
      return [Mov(dest, tmp)];
    }
    tmp := GetOp2(!imm);
    if tmp != INVALID_IMMEDIATE {
      assert !imm == ExpandImm(tmp & 0xfff);
      MvnPuts(dest, tmp);
      DataKnown(MVN, dest, 0, tmp);
      return [Mvn(dest, tmp)];
    }
    es := EncodeComplexImm(imm, dest, atLeast7);
  }

  /** What a caller of getImm puts in the operand field stands for: a modified immediate, the
      complement of one (when it asked for that), or the scratch register. */
  function OperandOf(op2: bv32, regs: Registers): bv32 {
    if op2 & 0xffff_f000 == OP2_IMMEDIATE then Op2Value(op2)
    else if op2 & 0xffff_f000 == 0x0600_0000 then !Op2Value(op2)
    else regs(op2)
  }

  /** After the emitted words the operand stands for imm, and only tmpReg may have changed. */
  ghost predicate StandsFor(op2: bv32, es: seq<Emitted>, tmpReg: Reg, imm: bv32) {
    && (es == [] || Puts(es, tmpReg, imm))
    && forall cpu :: OperandOf(op2, PerformAll(cpu, es).regs) == imm
  }

  method GetImm(imm: bv32, tmpReg: Reg, invert: bool, atLeast7: bool) returns (op2: bv32, es: seq<Emitted>)
    requires tmpReg != 15
    ensures StandsFor(op2, es, tmpReg, imm) && AllKnown(es)
    ensures op2 & OP2_INVERTED_IMMEDIATE != 0 <==> invert && !IsSingle(imm) && IsSingle(!imm)
    ensures es == [] <==> IsSingle(imm) || (invert && IsSingle(!imm))
    ensures PoolFree(es) <==> atLeast7 || IsSingle(imm) || IsSingle(!imm) || IsSum(imm) || IsSum(!imm)
    ensures !atLeast7 ==> RunsAnywhere(es)
  {
    var tmp := GetOp2(imm);
    if tmp != INVALID_IMMEDIATE {
      PlainOperand(tmp, tmpReg, imm);
      return tmp, [];
    }
    tmp := GetOp2(!imm);
    if tmp != INVALID_IMMEDIATE {
      if invert {
        op2 := MarkInverted(tmp);
        NotNot(imm);
        InvertedStands(op2, tmpReg, !imm, imm);
        return op2, [];
      }
      es := [Mvn(tmpReg, tmp)];
      MvnOperand(tmpReg, tmp, imm);
      DataKnown(MVN, tmpReg, 0, tmp);
    } else {
      es := EncodeComplexImm(imm, tmpReg, atLeast7);
    }
    RegisterOperand(es, tmpReg, imm);
    op2 := tmpReg;
  }

  lemma MvnOperand(tmpReg: Reg, op2: bv32, imm: bv32)
    requires Gives(op2, !imm)
    ensures Puts([Mvn(tmpReg, op2)], tmpReg, imm)
  {
    MvnPuts(tmpReg, op2);
    NotNot(imm);
  }

  lemma PlainOperand(op2: bv32, tmpReg: Reg, imm: bv32)
    requires Gives(op2, imm)
    ensures StandsFor(op2, [], tmpReg, imm) && op2 & OP2_INVERTED_IMMEDIATE == 0
  {
  }

  lemma InvertedFields(op2: bv32)
    requires IsOp2(op2)
    ensures (op2 | OP2_INVERTED_IMMEDIATE) & 0xffff_f000 == 0x0600_0000
    ensures (op2 | OP2_INVERTED_IMMEDIATE) & 0xfff == op2 & 0xfff
  {
  }

  lemma SameField(op2: bv32, w: bv32, i: bv32)
    requires w & 0xfff == i && op2 & 0xfff == i
    ensures Op2Value(w) == ExpandImm(i) && Op2Value(op2) == ExpandImm(i)
  {
  }

  predicate IsInverted(w: bv32, v: bv32) { w & 0xffff_f000 == 0x0600_0000 && Op2Value(w) == v }

  /** The operand with the mark that its value is to be complemented. */
  method MarkInverted(op2: bv32) returns (w: bv32)
    requires IsOp2(op2)
    ensures IsInverted(w, Op2Value(op2))
  {
    w := op2 | OP2_INVERTED_IMMEDIATE;
    InvertedFields(op2);
    SameField(op2, w, op2 & 0xfff);
  }

  lemma InvertedStands(w: bv32, tmpReg: Reg, v: bv32, imm: bv32)
    ensures IsInverted(w, v) && !v == imm ==> StandsFor(w, [], tmpReg, imm)
  {
  }

  lemma RegisterFields(r: Reg)
    ensures r & 0xffff_f000 == 0 && r & OP2_INVERTED_IMMEDIATE == 0
  {
  }

  lemma RegisterOperand(es: seq<Emitted>, r: Reg, imm: bv32)
    requires Puts(es, r, imm)
    ensures StandsFor(r, es, r, imm) && r & OP2_INVERTED_IMMEDIATE == 0
  {
    RegisterFields(r);
    forall cpu ensures OperandOf(r, PerformAll(cpu, es).regs) == imm {
      assert Leaves(cpu, PerformAll(cpu, es), r, imm);
    }
  }
}
