/** The load and store helpers of ARMAssembler: each performs one access, at the address asked for. */
module ArmTransfers {
  import opened ArmMachine
  import opened ArmImmediates
  import opened ArmGenInt
  import opened ArmMoveImm

  /** One more access of this kind and register at this address; of the registers only the scratch
      ones may differ, at the end and when the access happens. */
  ghost predicate AccessDone(before: Cpu, after: Cpu, kind: bv32, rt: Reg, address: bv32, s: bv32, t: bv32) {
    && after.accesses == before.accesses + [Access(kind, rt, address, after.regs)]
    && forall r: bv32 :: r != s && r != t ==> after.regs(r) == before.regs(r)
  }

  function Sum(x: bv32, y: bv32): bv32 { x + y }

  /** Whatever the machine holds, the words access base + offset and change at most S0. */
  ghost predicate TransfersAt(es: seq<Emitted>, kind: bv32, rt: Reg, base: Reg, offset: bv32) {
    forall cpu :: AccessDone(cpu, PerformAll(cpu, es), kind, rt, Sum(cpu.regs(base), offset), S0, S0)
  }

  /** The same for base + (index << scale) + offset. */
  ghost predicate TransfersAtIndex(es: seq<Emitted>, kind: bv32, rt: Reg, base: Reg, index: Reg, scale: bv32,
                                   offset: bv32, t: bv32)
  {
    forall cpu ::
      AccessDone(cpu, PerformAll(cpu, es), kind, rt,
                 Sum(Sum(cpu.regs(base), ShiftLeft(cpu.regs(index), scale)), offset), S0, t)
  }

  // --- single words

  predicate Decodes(e: Emitted, kind: bv32, rt: Reg, rb: Reg, up: bool, imm: bv32) {
    e.Insn? && Decode(e.word) == Transfer(kind, rt, rb, up, Imm(imm))
  }

  predicate DecodesRegister(e: Emitted, kind: bv32, rt: Reg, rb: Reg, rm: Reg, scale: bv32) {
    e.Insn? && Decode(e.word) == Transfer(kind, rt, rb, true, Shifted(rm, scale))
  }

  function Moved(up: bool, imm: bv32): bv32 { if up then imm else -imm }

  lemma AccessLeaves(cpu: Cpu, e: Emitted, kind: bv32, rt: Reg, rb: Reg, up: bool, imm: bv32)
    requires Decodes(e, kind, rt, rb, up, imm)
    ensures AccessDone(cpu, Perform(cpu, e), kind, rt, Address(cpu.regs(rb), up, imm), S0, S0)
    ensures Perform(cpu, e).regs == cpu.regs
  {
  }

  lemma UpIsSum(x: bv32, y: bv32)
    ensures Address(x, true, y) == Sum(x, y)
  {
  }

  lemma DownIsSum(x: bv32, y: bv32)
    ensures Address(x, false, y) == Sum(x, -y)
  {
  }

  lemma AddressIsSum(x: bv32, up: bool, imm: bv32, offset: bv32)
    requires offset == Moved(up, imm)
    ensures Address(x, up, imm) == Sum(x, offset)
  {
    if up {
      UpIsSum(x, imm);
    } else {
      DownIsSum(x, imm);
    }
  }

  lemma Short(e: Emitted, kind: bv32, rt: Reg, base: Reg, up: bool, imm: bv32, offset: bv32)
    requires Decodes(e, kind, rt, base, up, imm) && offset == Moved(up, imm)
    ensures TransfersAt([e], kind, rt, base, offset)
  {
    forall cpu ensures AccessDone(cpu, PerformAll(cpu, [e]), kind, rt, Sum(cpu.regs(base), offset), S0, S0) {
      OneWord(cpu, e);
      AccessLeaves(cpu, e, kind, rt, base, up, imm);
      AddressIsSum(cpu.regs(base), up, imm, offset);
    }
  }

  function AddOrSub(up: bool): Opcode { if up then ADD else SUB }

  lemma AddOrSubIsAddress(up: bool, x: bv32, y: bv32)
    ensures DataResult(AddOrSub(up), x, y) == Address(x, up, y)
  {
  }

  lemma SplitSum(x: bv32, up: bool, high: bv32, low: bv32, offset: bv32)
    requires offset == Moved(up, high + low)
    ensures Address(Address(x, up, high), up, low) == Sum(x, offset)
  {
    if up {
      PlusTwice(x, high, low);
    } else {
      MinusTwice(x, high, low);
    }
  }

  lemma PlusTwice(x: bv32, high: bv32, low: bv32)
    ensures Address(Address(x, true, high), true, low) == Sum(x, high + low)
  {
    PlusAgain(Address(x, true, high), x, high, low);
  }

  lemma PlusAgain(s: bv32, x: bv32, y: bv32, z: bv32)
    requires s == x + y
    ensures Address(s, true, z) == Sum(x, y + z)
  {
  }

  lemma MinusTwice(x: bv32, high: bv32, low: bv32)
    ensures Address(Address(x, false, high), false, low) == Sum(x, -(high + low))
  {
    MinusAgain(Address(x, false, high), x, high, low);
  }

  lemma MinusAgain(s: bv32, x: bv32, y: bv32, z: bv32)
    requires s == x - y
    ensures Address(s, false, z) == Sum(x, -(y + z))
  {
  }

  lemma Split(up: bool, base: Reg, op2: bv32, high: bv32, e: Emitted, kind: bv32, rt: Reg, low: bv32, offset: bv32)
    requires Gives(op2, high) && Decodes(e, kind, rt, S0, up, low) && offset == Moved(up, high + low)
    ensures TransfersAt([Insn(DataWord(AddOrSub(up), S0, base, op2)), e], kind, rt, base, offset)
  {
    var f := Insn(DataWord(AddOrSub(up), S0, base, op2));
    forall cpu ensures AccessDone(cpu, PerformAll(cpu, [f, e]), kind, rt, Sum(cpu.regs(base), offset), S0, S0) {
      TwoWords(cpu, f, e);
      DataLeaves(cpu, AddOrSub(up), S0, base, op2);
      AddOrSubIsAddress(up, cpu.regs(base), high);
      AccessLeaves(Perform(cpu, f), e, kind, rt, S0, up, low);
      SplitSum(cpu.regs(base), up, high, low, offset);
    }
  }

  lemma RegisterAccessLeaves(cpu: Cpu, e: Emitted, kind: bv32, rt: Reg, rb: Reg, rm: Reg, scale: bv32)
    requires DecodesRegister(e, kind, rt, rb, rm, scale)
    ensures AccessDone(cpu, Perform(cpu, e), kind, rt,
                       Address(cpu.regs(rb), true, ShiftLeft(cpu.regs(rm), scale)), S0, S0)
    ensures Perform(cpu, e).regs == cpu.regs
  {
  }

  lemma Unshifted(x: bv32)
    ensures ShiftLeft(x, 0) == x
  {
  }

  lemma Long(es: seq<Emitted>, e: Emitted, kind: bv32, rt: Reg, base: Reg, offset: bv32)
    requires Puts(es, S0, offset) && DecodesRegister(e, kind, rt, base, S0, 0) && base != S0
    ensures TransfersAt(es + [e], kind, rt, base, offset)
  {
    forall cpu ensures AccessDone(cpu, PerformAll(cpu, es + [e]), kind, rt, Sum(cpu.regs(base), offset), S0, S0) {
      PerformConcat(cpu, es, [e]);
      var mid := PerformAll(cpu, es);
      OneWord(mid, e);
      assert Leaves(cpu, mid, S0, offset);
      RegisterAccessLeaves(mid, e, kind, rt, base, S0, 0);
      Unshifted(mid.regs(S0));
      UpIsSum(mid.regs(base), mid.regs(S0));
    }
  }

  // --- what the access sees of the register that it stores

  /** One access; of the registers only S0 may differ, at the end and when the access happens. */
  ghost predicate OneAccess(before: Cpu, after: Cpu) {
    && |after.accesses| == |before.accesses| + 1 && after.accesses[|before.accesses|].registers == after.regs
    && forall r: bv32 :: r != S0 ==> after.regs(r) == before.regs(r)
  }

  predicate SourceSeen(before: Cpu, after: Cpu, rt: Reg) {
    |before.accesses| < |after.accesses| && after.accesses[|before.accesses|].registers(rt) == before.regs(rt)
  }

  /** The access sees in rt what rt held before all of these words, so that is what a store stores. */
  ghost predicate SeesSource(es: seq<Emitted>, rt: Reg) {
    forall cpu :: SourceSeen(cpu, PerformAll(cpu, es), rt)
  }

  ghost predicate KeepsScratch(es: seq<Emitted>) {
    forall cpu :: OneAccess(cpu, PerformAll(cpu, es)) && PerformAll(cpu, es).regs(S0) == cpu.regs(S0)
  }

  ghost predicate FormsUpper(es: seq<Emitted>, base: Reg, up: bool, high: bv32) {
    forall cpu ::
      OneAccess(cpu, PerformAll(cpu, es)) && PerformAll(cpu, es).regs(S0) == Address(cpu.regs(base), up, high)
  }

  ghost predicate HoldsOffset(es: seq<Emitted>, offset: bv32) {
    forall cpu :: OneAccess(cpu, PerformAll(cpu, es)) && PerformAll(cpu, es).regs(S0) == offset
  }

  /** The low byte of S0 stays: only what is above it has been added. */
  ghost predicate KeepsLowByte(es: seq<Emitted>) {
    forall cpu :: OneAccess(cpu, PerformAll(cpu, es)) && SameLowByte(PerformAll(cpu, es).regs(S0), cpu.regs(S0))
  }

  predicate SameLowByte(x: bv32, y: bv32) { x & 0xff == y & 0xff }

  lemma ShortScratch(e: Emitted, kind: bv32, rt: Reg, base: Reg, up: bool, imm: bv32)
    requires Decodes(e, kind, rt, base, up, imm)
    ensures KeepsScratch([e])
  {
    forall cpu ensures OneAccess(cpu, PerformAll(cpu, [e])) && PerformAll(cpu, [e]).regs(S0) == cpu.regs(S0) {
      OneWord(cpu, e);
    }
  }

  lemma RegisterScratch(e: Emitted, kind: bv32, rt: Reg, base: Reg, index: Reg, scale: bv32)
    requires DecodesRegister(e, kind, rt, base, index, scale)
    ensures KeepsScratch([e])
  {
    forall cpu ensures OneAccess(cpu, PerformAll(cpu, [e])) && PerformAll(cpu, [e]).regs(S0) == cpu.regs(S0) {
      OneWord(cpu, e);
    }
  }

  lemma SplitScratch(up: bool, base: Reg, op2: bv32, high: bv32, e: Emitted, kind: bv32, rt: Reg, low: bv32)
    requires Gives(op2, high) && Decodes(e, kind, rt, S0, up, low)
    ensures FormsUpper([Insn(DataWord(AddOrSub(up), S0, base, op2)), e], base, up, high)
  {
    var f := Insn(DataWord(AddOrSub(up), S0, base, op2));
    forall cpu
      ensures OneAccess(cpu, PerformAll(cpu, [f, e]))
              && PerformAll(cpu, [f, e]).regs(S0) == Address(cpu.regs(base), up, high)
    {
      TwoWords(cpu, f, e);
      DataLeaves(cpu, AddOrSub(up), S0, base, op2);
      AddOrSubIsAddress(up, cpu.regs(base), high);
      AccessLeaves(Perform(cpu, f), e, kind, rt, S0, up, low);
    }
  }

  lemma LongScratch(es: seq<Emitted>, e: Emitted, kind: bv32, rt: Reg, base: Reg, offset: bv32)
    requires Puts(es, S0, offset) && DecodesRegister(e, kind, rt, base, S0, 0)
    ensures HoldsOffset(es + [e], offset)
  {
    forall cpu ensures OneAccess(cpu, PerformAll(cpu, es + [e])) && PerformAll(cpu, es + [e]).regs(S0) == offset {
      PerformConcat(cpu, es, [e]);
      var mid := PerformAll(cpu, es);
      OneWord(mid, e);
      assert Leaves(cpu, mid, S0, offset);
      RegisterAccessLeaves(mid, e, kind, rt, base, S0, 0);
    }
  }

  /** Every register holds v. */
  function Holding(v: bv32): (cpu: Cpu)
    ensures forall r: bv32 :: cpu.regs(r) == v
  {
    Cpu(_ => v, [])
  }

  lemma AddressMoves(up: bool, high: bv32)
    requires high != 0
    ensures Address(0, up, high) != 0
  {
  }

  lemma AddressKeepsLowByte(x: bv32, up: bool, high: bv32)
    requires high & 0xff == 0
    ensures SameLowByte(Address(x, up, high), x)
  {
  }

  /** A machine on which S0 changes shows that the access does not see what it held. */
  lemma ScratchLost(es: seq<Emitted>, cpu: Cpu)
    requires OneAccess(cpu, PerformAll(cpu, es)) && PerformAll(cpu, es).regs(S0) != cpu.regs(S0)
    ensures !SeesSource(es, S0)
  {
    assert !SourceSeen(cpu, PerformAll(cpu, es), S0);
  }

  lemma OthersSeen(es: seq<Emitted>, rt: Reg)
    requires rt != S0 && forall cpu :: OneAccess(cpu, PerformAll(cpu, es))
    ensures SeesSource(es, rt)
  {
    forall cpu ensures SourceSeen(cpu, PerformAll(cpu, es), rt) {
      assert OneAccess(cpu, PerformAll(cpu, es));
    }
  }

  lemma KeptSeen(es: seq<Emitted>, rt: Reg)
    requires KeepsScratch(es)
    ensures SeesSource(es, rt)
  {
    forall cpu ensures SourceSeen(cpu, PerformAll(cpu, es), rt) {
      assert OneAccess(cpu, PerformAll(cpu, es)) && PerformAll(cpu, es).regs(S0) == cpu.regs(S0);
    }
  }

  lemma NotNext(x: bv32)
    ensures x != x + 1
  {
  }

  lemma UpperLost(es: seq<Emitted>, base: Reg, up: bool, high: bv32)
    requires FormsUpper(es, base, up, high) && high != 0
    ensures !SeesSource(es, S0)
  {
    AddressMoves(up, high);
    ScratchLost(es, Holding(0));
  }

  lemma OffsetLost(es: seq<Emitted>, offset: bv32)
    requires HoldsOffset(es, offset)
    ensures !SeesSource(es, S0)
  {
    NotNext(offset);
    ScratchLost(es, Holding(offset + 1));
  }

  lemma UpperSource(es: seq<Emitted>, rt: Reg, base: Reg, up: bool, high: bv32)
    requires FormsUpper(es, base, up, high) && high != 0
    ensures SeesSource(es, rt) <==> rt != S0
  {
    if rt == S0 {
      UpperLost(es, base, up, high);
    } else {
      OthersSeen(es, rt);
    }
  }

  lemma OffsetSource(es: seq<Emitted>, rt: Reg, offset: bv32)
    requires HoldsOffset(es, offset)
    ensures SeesSource(es, rt) <==> rt != S0
  {
    if rt == S0 {
      OffsetLost(es, offset);
    } else {
      OthersSeen(es, rt);
    }
  }

  lemma UpperKeepsLowByte(es: seq<Emitted>, up: bool, high: bv32)
    requires FormsUpper(es, S0, up, high) && high & 0xff == 0
    ensures KeepsLowByte(es)
  {
    forall cpu
      ensures OneAccess(cpu, PerformAll(cpu, es)) && SameLowByte(PerformAll(cpu, es).regs(S0), cpu.regs(S0))
    {
      AddressKeepsLowByte(cpu.regs(S0), up, high);
    }
  }

  /** The form of one word sees every register as it was. */
  lemma ShortForm(e: Emitted, kind: bv32, rt: Reg, base: Reg, up: bool, imm: bv32, offset: bv32)
    requires Decodes(e, kind, rt, base, up, imm) && offset == Moved(up, imm)
    ensures TransfersAt([e], kind, rt, base, offset) && SeesSource([e], rt) && KeepsLowByte([e])
  {
    Short(e, kind, rt, base, up, imm, offset);
    ShortScratch(e, kind, rt, base, up, imm);
    KeptSeen([e], rt);
  }

  /** The form of two words sees all but S0. */
  lemma SplitForm(up: bool, base: Reg, op2: bv32, high: bv32, e: Emitted, kind: bv32, rt: Reg, low: bv32, offset: bv32)
    requires Gives(op2, high) && Decodes(e, kind, rt, S0, up, low) && offset == Moved(up, high + low)
    requires high != 0 && high & 0xff == 0
    ensures var es := [Insn(DataWord(AddOrSub(up), S0, base, op2)), e];
            && TransfersAt(es, kind, rt, base, offset) && (SeesSource(es, rt) <==> rt != S0)
            && (base == S0 ==> KeepsLowByte(es))
  {
    var es := [Insn(DataWord(AddOrSub(up), S0, base, op2)), e];
    Split(up, base, op2, high, e, kind, rt, low, offset);
    SplitScratch(up, base, op2, high, e, kind, rt, low);
    UpperSource(es, rt, base, up, high);
    if base == S0 {
      UpperKeepsLowByte(es, up, high);
    }
  }

  // --- dataTransfer32

  function Dtr(kind: bv32, up: bool, rd: Reg, rb: Reg, op2: bv32): Emitted { Insn(TransferWord(kind, up, rd, rb, op2)) }

  function DtrRegister(kind: bv32, rd: Reg, rb: Reg, rm: Reg, shift: bv32): Emitted
    requires shift <= 31
  {
    Insn(TransferWord(kind, true, rd, rb, 0x0200_0000 | Lsl(rm, shift)))
  }

  predicate IsNegative(x: bv32) { x & 0x8000_0000 != 0 }

  lemma HighPart32(x: bv32)
    requires x <= 0xfffff
    ensures Gives(Op2Word(x >> 12, 10), (x >> 12) << 12) && ((x >> 12) << 12) + (x & 0xfff) == x && x & 0xfff <= 0xfff
  {
    Turn9And10(x >> 12);
    Op2Expands(x >> 12, 10);
  }

  /** The magnitude of an offset fits the short forms: the long form is not taken. */
  predicate IsShort(offset: bv32, limit: bv32) { Magnitude(offset) <= limit }

  function Magnitude(offset: bv32): bv32 { if IsNegative(offset) then -offset else offset }

  lemma NegatedTwice(offset: bv32)
    ensures Moved(false, -offset) == offset
  {
  }

  /** The sign and magnitude of an offset, as far as the branches of dataTransfer32 look at it. */
  predicate IsSized32(offset: bv32, up: bool, size: bv32) {
    && offset == Moved(up, size)
    && (IsShort(offset, 0xfff) <==> size <= 0xfff) && (IsShort(offset, 0xfffff) <==> size <= 0xfffff)
  }

  lemma SizeUp32(offset: bv32)
    requires !IsNegative(offset)
    ensures IsSized32(offset, true, offset)
  {
  }

  lemma SizeDown32(offset: bv32)
    requires IsNegative(offset)
    ensures IsSized32(offset, false, -offset)
  {
    NegatedTwice(offset);
  }

  method SizeOf32(offset: bv32) returns (up: bool, size: bv32)
    ensures IsSized32(offset, up, size)
  {
    if !IsNegative(offset) {
      SizeUp32(offset);
      return true, offset;
    }
    SizeDown32(offset);
    return false, -offset;
  }

  /** The sign and magnitude of an offset, as far as the branches of dataTransfer16 look at it. */
  predicate IsSized16(offset: bv32, up: bool, size: bv32) {
    && offset == Moved(up, size)
    && (IsShort(offset, 0xff) <==> size <= 0xff) && (IsShort(offset, 0xffff) <==> size <= 0xffff)
  }

  lemma SizeUp16(offset: bv32)
    requires !IsNegative(offset)
    ensures IsSized16(offset, true, offset)
  {
  }

  lemma SizeDown16(offset: bv32)
    requires IsNegative(offset)
    ensures IsSized16(offset, false, -offset)
  {
    NegatedTwice(offset);
  }

  method SizeOf16(offset: bv32) returns (up: bool, size: bv32)
    ensures IsSized16(offset, up, size)
  {
    if !IsNegative(offset) {
      SizeUp16(offset);
      return true, offset;
    }
    SizeDown16(offset);
    return false, -offset;
  }

  method OneWord32(kind: bv32, srcDst: Reg, base: Reg, up: bool, size: bv32, ghost offset: bv32)
    returns (es: seq<Emitted>)
    requires IsTypeA(kind) && offset == Moved(up, size) && base != 15 && size <= 0xfff
    ensures AllKnown(es) && |es| == 1
    ensures RunsAnywhere(es)
    ensures TransfersAt(es, kind, srcDst, base, offset) && SeesSource(es, srcDst) && KeepsLowByte(es)
  {
    DecodeTransfer(kind, up, srcDst, base, size);
    es := [Dtr(kind, up, srcDst, base, size)];
    ShortForm(es[0], kind, srcDst, base, up, size, offset);
  }

  method SplitSize32(size: bv32) returns (op2: bv32, low: bv32, ghost high: bv32)
    requires 0xfff < size <= 0xfffff
    ensures Gives(op2, high) && low <= 0xfff && high + low == size && high != 0 && high & 0xff == 0
  {
    HighPart32(size);
    HighNotZero32(size);
    op2, low, high := Op2Word(size >> 12, 10), size & 0xfff, (size >> 12) << 12;
  }

  lemma HighNotZero32(x: bv32)
    requires x > 0xfff
    ensures (x >> 12) << 12 != 0 && ((x >> 12) << 12) & 0xff == 0
  {
  }

  method TwoWords32(kind: bv32, srcDst: Reg, base: Reg, up: bool, size: bv32, ghost offset: bv32)
    returns (es: seq<Emitted>)
    requires IsTypeA(kind) && offset == Moved(up, size) && base != 15 && 0xfff < size <= 0xfffff
    ensures AllKnown(es) && |es| == 2
    ensures RunsAnywhere(es)
    ensures TransfersAt(es, kind, srcDst, base, offset) && (SeesSource(es, srcDst) <==> srcDst != S0)
    ensures base == S0 ==> KeepsLowByte(es)
  {
    var op2, low;
    ghost var high;
    op2, low, high := SplitSize32(size);
    es := AddAndDtr(kind, srcDst, base, up, op2, low, high, offset);
  }

  method AddAndDtr(kind: bv32, srcDst: Reg, base: Reg, up: bool, op2: bv32, low: bv32, ghost high: bv32,
                   ghost offset: bv32)
    returns (es: seq<Emitted>)
    requires IsTypeA(kind) && base != 15 && Gives(op2, high) && low <= 0xfff && offset == Moved(up, high + low)
    requires high != 0 && high & 0xff == 0
    ensures AllKnown(es) && |es| == 2
    ensures RunsAnywhere(es)
    ensures TransfersAt(es, kind, srcDst, base, offset) && (SeesSource(es, srcDst) <==> srcDst != S0)
    ensures base == S0 ==> KeepsLowByte(es)
  {
    DecodeTransfer(kind, up, srcDst, S0, low);
    var e := Dtr(kind, up, srcDst, S0, low);
    SplitForm(up, base, op2, high, e, kind, srcDst, low, offset);
    DataKnown(AddOrSub(up), S0, base, op2);
    es := [Insn(DataWord(AddOrSub(up), S0, base, op2)), e];
  }

  method Long32(kind: bv32, srcDst: Reg, base: Reg, offset: bv32, atLeast7: bool) returns (es: seq<Emitted>)
    requires IsTypeA(kind) && base != 15
    ensures AllKnown(es)
    ensures !atLeast7 ==> RunsAnywhere(es)
    ensures TransfersAt(es, kind, srcDst, base, offset) <==> base != S0
    ensures SeesSource(es, srcDst) <==> srcDst != S0
  {
    es := MoveImm(offset, S0, atLeast7);
    DecodeTransferRegister(kind, srcDst, base, S0, 0);
    var e := DtrRegister(kind, srcDst, base, S0, 0);
    LongForm(es, e, kind, srcDst, base, offset);
    es := es + [e];
  }

  /** The half of dataTransfer32 that one sign of the offset takes; size is its magnitude. */
  method Transfer32Signed(kind: bv32, srcDst: Reg, base: Reg, up: bool, size: bv32, offset: bv32, atLeast7: bool,
                          ghost one: bool, ghost two: bool)
    returns (es: seq<Emitted>)
    requires IsTypeA(kind) && offset == Moved(up, size) && base != 15
    requires (one <==> size <= 0xfff) && (two <==> size <= 0xfffff)
    ensures AllKnown(es)
    ensures !atLeast7 ==> RunsAnywhere(es)
    ensures TransfersAt(es, kind, srcDst, base, offset) <==> base != S0 || two
    ensures SeesSource(es, srcDst) <==> srcDst != S0 || one
    ensures base == S0 && two ==> KeepsLowByte(es)
    ensures one ==> |es| == 1
    ensures two ==> |es| <= 2
  {
    if size <= 0xfff {
      es := OneWord32(kind, srcDst, base, up, size, offset);
    } else if size <= 0xfffff {
      es := TwoWords32(kind, srcDst, base, up, size, offset);
    } else {
      es := Long32(kind, srcDst, base, offset, atLeast7);
    }
  }

  /** dataTransfer32. */
  method DataTransfer32(kind: bv32, srcDst: Reg, base: Reg, offset: bv32, atLeast7: bool) returns (es: seq<Emitted>)
    requires IsTypeA(kind) && base != 15
    ensures AllKnown(es)
    ensures !atLeast7 ==> RunsAnywhere(es)
    ensures TransfersAt(es, kind, srcDst, base, offset) <==> base != S0 || IsShort(offset, 0xfffff)
    ensures SeesSource(es, srcDst) <==> srcDst != S0 || IsShort(offset, 0xfff)
    ensures base == S0 && IsShort(offset, 0xfffff) ==> KeepsLowByte(es)
    ensures IsShort(offset, 0xfff) ==> |es| == 1
    ensures IsShort(offset, 0xfffff) ==> |es| <= 2
  {
    var up, size := SizeOf32(offset);
    es := Transfer32Signed(kind, srcDst, base, up, size, offset, atLeast7, IsShort(offset, 0xfff),
                           IsShort(offset, 0xfffff));
  }

  // --- the long form when S0 is also an operand

  /** A base in S0 has been replaced by the offset: the access is at twice the offset, whatever S0 held. */
  lemma LongOverScratch(es: seq<Emitted>, e: Emitted, kind: bv32, rt: Reg, offset: bv32)
    requires Puts(es, S0, offset) && DecodesRegister(e, kind, rt, S0, S0, 0)
    ensures forall cpu :: AccessDone(cpu, PerformAll(cpu, es + [e]), kind, rt, Sum(offset, offset), S0, S0)
    ensures !TransfersAt(es + [e], kind, rt, S0, offset)
  {
    forall cpu ensures AccessDone(cpu, PerformAll(cpu, es + [e]), kind, rt, Sum(offset, offset), S0, S0) {
      LongOverScratchAt(es, e, kind, rt, offset, cpu);
    }
    AtTwiceIsWrong(es + [e], kind, rt, offset);
  }

  lemma LongOverScratchAt(es: seq<Emitted>, e: Emitted, kind: bv32, rt: Reg, offset: bv32, cpu: Cpu)
    requires Puts(es, S0, offset) && DecodesRegister(e, kind, rt, S0, S0, 0)
    ensures AccessDone(cpu, PerformAll(cpu, es + [e]), kind, rt, Sum(offset, offset), S0, S0)
  {
    PerformConcat(cpu, es, [e]);
    var mid := PerformAll(cpu, es);
    OneWord(mid, e);
    assert Leaves(cpu, mid, S0, offset);
    RegisterAccessLeaves(mid, e, kind, rt, S0, S0, 0);
    Unshifted(mid.regs(S0));
    UpIsSum(mid.regs(S0), mid.regs(S0));
  }

  lemma AtTwiceIsWrong(es: seq<Emitted>, kind: bv32, rt: Reg, offset: bv32)
    requires forall cpu :: AccessDone(cpu, PerformAll(cpu, es), kind, rt, Sum(offset, offset), S0, S0)
    ensures !TransfersAt(es, kind, rt, S0, offset)
  {
    NextIsDifferent(offset);
    AtTwiceIsWrongFor(es, kind, rt, offset, Sum(offset, offset), offset + 1);
  }

  lemma AtTwiceIsWrongFor(es: seq<Emitted>, kind: bv32, rt: Reg, offset: bv32, twice: bv32, v: bv32)
    requires forall cpu :: AccessDone(cpu, PerformAll(cpu, es), kind, rt, twice, S0, S0)
    requires Sum(v, offset) != twice
    ensures !TransfersAt(es, kind, rt, S0, offset)
  {
    if TransfersAt(es, kind, rt, S0, offset) {
      var cpu := Holding(v);
      assert AccessDone(cpu, PerformAll(cpu, es), kind, rt, Sum(v, offset), S0, S0);
      OneAddress(cpu, PerformAll(cpu, es), kind, rt, twice, Sum(v, offset), S0);
    }
  }

  lemma NextIsDifferent(x: bv32)
    ensures Sum(x + 1, x) != Sum(x, x)
  {
  }

  /** One access is at one address. */
  lemma OneAddress(before: Cpu, after: Cpu, kind: bv32, rt: Reg, a: bv32, b: bv32, t: bv32)
    requires AccessDone(before, after, kind, rt, a, S0, t) && AccessDone(before, after, kind, rt, b, S0, t)
    ensures a == b
  {
    var n := |before.accesses|;
    assert after.accesses[n] == Access(kind, rt, a, after.regs);
    assert after.accesses[n] == Access(kind, rt, b, after.regs);
  }

  /** So the long form works exactly for another base. */
  lemma LongForm(es: seq<Emitted>, e: Emitted, kind: bv32, rt: Reg, base: Reg, offset: bv32)
    requires Puts(es, S0, offset) && DecodesRegister(e, kind, rt, base, S0, 0)
    ensures TransfersAt(es + [e], kind, rt, base, offset) <==> base != S0
    ensures SeesSource(es + [e], rt) <==> rt != S0
  {
    LongScratch(es, e, kind, rt, base, offset);
    OffsetSource(es + [e], rt, offset);
    if base == S0 {
      LongOverScratch(es, e, kind, rt, offset);
    } else {
      Long(es, e, kind, rt, base, offset);
    }
  }

  // --- indexed accesses

  function AddIndex(rd: Reg, rn: Reg, index: Reg, scale: bv32): Emitted
    requires scale <= 31
  {
    Insn(DataWord(ADD, rd, rn, Lsl(index, scale)))
  }

  lemma AddIndexKnown(rd: Reg, rn: Reg, index: Reg, scale: bv32)
    requires scale <= 31 && rd != 15 && rn != 15 && index != 15
    ensures IsKnown(AddIndex(rd, rn, index, scale)) && !IsArmv7Move(AddIndex(rd, rn, index, scale))
  {
    DecodeDataRegister(ADD, rd, rn, index, scale);
  }

  lemma AddIndexLeaves(cpu: Cpu, rd: Reg, rn: Reg, index: Reg, scale: bv32)
    requires scale <= 31
    ensures Leaves(cpu, Perform(cpu, AddIndex(rd, rn, index, scale)), rd,
                   Sum(cpu.regs(rn), ShiftLeft(cpu.regs(index), scale)))
  {
    DecodeDataRegister(ADD, rd, rn, index, scale);
    AddIsSum(cpu.regs(rn), ShiftLeft(cpu.regs(index), scale));
  }

  lemma AddIsSum(x: bv32, y: bv32)
    ensures DataResult(ADD, x, y) == Sum(x, y)
  {
  }

  lemma SumZero(x: bv32)
    ensures Sum(x, 0) == x
  {
  }

  /** One access through a shifted index register, when there is no offset. */
  lemma IndexOnly(e: Emitted, kind: bv32, rt: Reg, base: Reg, index: Reg, scale: bv32)
    requires DecodesRegister(e, kind, rt, base, index, scale)
    ensures TransfersAtIndex([e], kind, rt, base, index, scale, 0, S0)
  {
    forall cpu
      ensures AccessDone(cpu, PerformAll(cpu, [e]), kind, rt,
                         Sum(Sum(cpu.regs(base), ShiftLeft(cpu.regs(index), scale)), 0), S0, S0)
    {
      OneWord(cpu, e);
      RegisterAccessLeaves(cpu, e, kind, rt, base, index, scale);
      UpIsSum(cpu.regs(base), ShiftLeft(cpu.regs(index), scale));
      SumZero(Sum(cpu.regs(base), ShiftLeft(cpu.regs(index), scale)));
    }
  }

  /** Form base + (index << scale) in a scratch register first, then add the offset to that. */
  lemma IndexThen(t: Reg, es: seq<Emitted>, kind: bv32, rt: Reg, base: Reg, index: Reg, scale: bv32, offset: bv32)
    requires scale <= 31 && TransfersAt(es, kind, rt, t, offset)
    ensures TransfersAtIndex([AddIndex(t, base, index, scale)] + es, kind, rt, base, index, scale, offset, t)
  {
    forall cpu
      ensures AccessDone(cpu, PerformAll(cpu, [AddIndex(t, base, index, scale)] + es), kind, rt,
                         Sum(Sum(cpu.regs(base), ShiftLeft(cpu.regs(index), scale)), offset), S0, t)
    {
      AddIndexLeaves(cpu, t, base, index, scale);
      FirstThen(cpu, AddIndex(t, base, index, scale), es, kind, rt, t,
                Sum(cpu.regs(base), ShiftLeft(cpu.regs(index), scale)), offset);
    }
  }

  lemma FirstThen(cpu: Cpu, f: Emitted, es: seq<Emitted>, kind: bv32, rt: Reg, t: Reg, v: bv32, offset: bv32)
    requires Leaves(cpu, Perform(cpu, f), t, v) && TransfersAt(es, kind, rt, t, offset)
    ensures AccessDone(cpu, PerformAll(cpu, [f] + es), kind, rt, Sum(v, offset), S0, t)
  {
    PerformConcat(cpu, [f], es);
    OneWord(cpu, f);
    AccessAfter(cpu, Perform(cpu, f), es, kind, rt, t, v, offset);
  }

  lemma AccessAfter(cpu: Cpu, mid: Cpu, es: seq<Emitted>, kind: bv32, rt: Reg, t: Reg, v: bv32, offset: bv32)
    requires Leaves(cpu, mid, t, v) && TransfersAt(es, kind, rt, t, offset)
    ensures AccessDone(cpu, PerformAll(mid, es), kind, rt, Sum(v, offset), S0, t)
  {
    assert AccessDone(mid, PerformAll(mid, es), kind, rt, Sum(mid.regs(t), offset), S0, S0);
  }

  lemma LongSum(b: bv32, i: bv32, offset: bv32)
    ensures Sum(b, Sum(offset, i)) == Sum(Sum(b, i), offset)
  {
    SumAgain(Sum(offset, i), Sum(b, i), b, i, offset);
  }

  lemma SumAgain(p: bv32, q: bv32, b: bv32, i: bv32, offset: bv32)
    requires p == offset + i && q == b + i
    ensures Sum(b, p) == Sum(q, offset)
  {
  }

  /** Where the long form goes, whichever registers it is given. */
  lemma IndexLongAt(es: seq<Emitted>, e: Emitted, kind: bv32, rt: Reg, base: Reg, index: Reg, scale: bv32, offset: bv32,
                    cpu: Cpu)
    requires scale <= 31 && Puts(es, S0, offset) && DecodesRegister(e, kind, rt, base, S0, 0)
    ensures AccessDone(cpu, PerformAll(cpu, es + [AddIndex(S0, S0, index, scale), e]), kind, rt,
                       LongAddress(cpu.regs, base, index, scale, offset), S0, S0)
  {
    var f := AddIndex(S0, S0, index, scale);
    PerformConcat(cpu, es, [f, e]);
    var mid := PerformAll(cpu, es);
    TwoWords(mid, f, e);
    assert Leaves(cpu, mid, S0, offset);
    AddIndexLeaves(mid, S0, S0, index, scale);
    var last := Perform(mid, f);
    RegisterAccessLeaves(last, e, kind, rt, base, S0, 0);
    Unshifted(last.regs(S0));
    UpIsSum(last.regs(base), last.regs(S0));
  }

  /** S0 holds the offset when the index is added, and their sum when the base is. */
  function LongAddress(regs: Registers, base: Reg, index: Reg, scale: bv32, offset: bv32): bv32 {
    var sum := Sum(offset, ShiftLeft(if index == S0 then offset else regs(index), scale));
    Sum(if base == S0 then sum else regs(base), sum)
  }

  /** The offset in S0, the index added to it, and the access through both registers. */
  lemma IndexLong(es: seq<Emitted>, e: Emitted, kind: bv32, rt: Reg, base: Reg, index: Reg, scale: bv32, offset: bv32)
    requires scale <= 31 && Puts(es, S0, offset) && DecodesRegister(e, kind, rt, base, S0, 0)
    requires base != S0 && index != S0
    ensures TransfersAtIndex(es + [AddIndex(S0, S0, index, scale), e], kind, rt, base, index, scale, offset, S0)
  {
    forall cpu
      ensures AccessDone(cpu, PerformAll(cpu, es + [AddIndex(S0, S0, index, scale), e]), kind, rt,
                         Sum(Sum(cpu.regs(base), ShiftLeft(cpu.regs(index), scale)), offset), S0, S0)
    {
      IndexLongAt(es, e, kind, rt, base, index, scale, offset, cpu);
      LongSum(cpu.regs(base), ShiftLeft(cpu.regs(index), scale), offset);
    }
  }

  /** What S0 held makes no difference to the long form, but it does to what was asked for. */
  lemma IndexLongOverScratch(es: seq<Emitted>, e: Emitted, kind: bv32, rt: Reg, base: Reg, index: Reg, scale: bv32,
                             offset: bv32)
    requires scale <= 3 && Puts(es, S0, offset) && DecodesRegister(e, kind, rt, base, S0, 0)
    requires base == S0 || index == S0
    ensures !TransfersAtIndex(es + [AddIndex(S0, S0, index, scale), e], kind, rt, base, index, scale, offset, S0)
  {
    if TransfersAtIndex(es + [AddIndex(S0, S0, index, scale), e], kind, rt, base, index, scale, offset, S0) {
      var zero, one := Cpu(_ => 0, []), Cpu(r => if r == S0 then 1 else 0, []);
      IndexAddresses(es, e, kind, rt, base, index, scale, offset, zero);
      IndexAddresses(es, e, kind, rt, base, index, scale, offset, one);
      Distinguishes(one.regs(base), one.regs(index), scale, offset);
    }
  }

  lemma IndexAddresses(es: seq<Emitted>, e: Emitted, kind: bv32, rt: Reg, base: Reg, index: Reg, scale: bv32,
                       offset: bv32, cpu: Cpu)
    requires scale <= 31 && Puts(es, S0, offset) && DecodesRegister(e, kind, rt, base, S0, 0)
    requires TransfersAtIndex(es + [AddIndex(S0, S0, index, scale), e], kind, rt, base, index, scale, offset, S0)
    ensures LongAddress(cpu.regs, base, index, scale, offset)
            == Sum(Sum(cpu.regs(base), ShiftLeft(cpu.regs(index), scale)), offset)
  {
    IndexLongAt(es, e, kind, rt, base, index, scale, offset, cpu);
    OneAddress(cpu, PerformAll(cpu, es + [AddIndex(S0, S0, index, scale), e]), kind, rt,
               LongAddress(cpu.regs, base, index, scale, offset),
               Sum(Sum(cpu.regs(base), ShiftLeft(cpu.regs(index), scale)), offset), S0);
  }

  lemma Distinguishes(b: bv32, i: bv32, scale: bv32, offset: bv32)
    requires scale <= 3 && b <= 1 && i <= 1 && (b == 1 || i == 1)
    ensures Sum(Sum(b, ShiftLeft(i, scale)), offset) != Sum(Sum(0, ShiftLeft(0, scale)), offset)
  {
    assert ShiftLeft(0, scale) == 0;
    assert ShiftLeft(i, scale) == if i == 0 then 0 else if scale == 0 then 1 else if scale == 1 then 2
        else if scale == 2 then 4 else 8;
  }

  lemma IndexLongForm(es: seq<Emitted>, e: Emitted, kind: bv32, rt: Reg, base: Reg, index: Reg, scale: bv32,
                      offset: bv32)
    requires scale <= 3 && Puts(es, S0, offset) && DecodesRegister(e, kind, rt, base, S0, 0)
    ensures TransfersAtIndex(es + [AddIndex(S0, S0, index, scale), e], kind, rt, base, index, scale, offset, S0)
            <==> base != S0 && index != S0
    ensures offset != 0 ==> (SeesSource(es + [AddIndex(S0, S0, index, scale), e], rt) <==> rt != S0)
  {
    if offset != 0 {
      IndexLongSource(es, e, kind, rt, base, index, scale, offset);
    }
    if base == S0 || index == S0 {
      IndexLongOverScratch(es, e, kind, rt, base, index, scale, offset);
    } else {
      IndexLong(es, e, kind, rt, base, index, scale, offset);
    }
  }

  // --- what an indexed access sees of the register that it stores

  lemma IndexedByte(scale: bv32, x: bv32)
    requires scale <= 3 && SameLowByte(x, Sum(1, ShiftLeft(1, scale)))
    ensures x != 1
  {
    assert ShiftLeft(1, scale) == if scale == 0 then 1 else if scale == 1 then 2 else if scale == 2 then 4 else 8;
  }

  lemma AfterIndex(cpu: Cpu, es: seq<Emitted>, base: Reg, index: Reg, scale: bv32)
    requires scale <= 31 && KeepsLowByte(es)
    ensures var after := PerformAll(cpu, [AddIndex(S0, base, index, scale)] + es);
            && OneAccess(cpu, after)
            && SameLowByte(after.regs(S0), Sum(cpu.regs(base), ShiftLeft(cpu.regs(index), scale)))
  {
    var f := AddIndex(S0, base, index, scale);
    PerformConcat(cpu, [f], es);
    OneWord(cpu, f);
    AddIndexLeaves(cpu, S0, base, index, scale);
    AfterScratch(cpu, Perform(cpu, f), PerformAll(Perform(cpu, f), es),
                 Sum(cpu.regs(base), ShiftLeft(cpu.regs(index), scale)));
  }

  lemma AfterScratch(cpu: Cpu, mid: Cpu, after: Cpu, v: bv32)
    requires Leaves(cpu, mid, S0, v) && OneAccess(mid, after) && SameLowByte(after.regs(S0), mid.regs(S0))
    ensures OneAccess(cpu, after) && SameLowByte(after.regs(S0), v)
  {
  }

  /** With base + (index << scale) formed in S0 first, S0 is lost and nothing else. */
  lemma IndexSource(es: seq<Emitted>, rt: Reg, base: Reg, index: Reg, scale: bv32)
    requires scale <= 3 && KeepsLowByte(es)
    ensures SeesSource([AddIndex(S0, base, index, scale)] + es, rt) <==> rt != S0
  {
    var all := [AddIndex(S0, base, index, scale)] + es;
    if rt == S0 {
      AfterIndex(Holding(1), es, base, index, scale);
      IndexedByte(scale, PerformAll(Holding(1), all).regs(S0));
      ScratchLost(all, Holding(1));
    } else {
      forall cpu ensures OneAccess(cpu, PerformAll(cpu, all)) {
        AfterIndex(cpu, es, base, index, scale);
      }
      OthersSeen(all, rt);
    }
  }

  lemma IndexLongScratch(cpu: Cpu, es: seq<Emitted>, e: Emitted, kind: bv32, rt: Reg, base: Reg, index: Reg,
                         scale: bv32, offset: bv32)
    requires scale <= 31 && Puts(es, S0, offset) && DecodesRegister(e, kind, rt, base, S0, 0)
    ensures var after := PerformAll(cpu, es + [AddIndex(S0, S0, index, scale), e]);
            && OneAccess(cpu, after)
            && after.regs(S0) == Sum(offset, ShiftLeft(PerformAll(cpu, es).regs(index), scale))
  {
    var mid := PerformAll(cpu, es);
    assert Leaves(cpu, mid, S0, offset);
    PerformConcat(cpu, es, [AddIndex(S0, S0, index, scale), e]);
    AddIndexLeaves(mid, S0, S0, index, scale);
    AfterTwo(cpu, mid, AddIndex(S0, S0, index, scale), e, kind, rt, base, offset,
             ShiftLeft(mid.regs(index), scale));
  }

  lemma AfterTwo(cpu: Cpu, mid: Cpu, f: Emitted, e: Emitted, kind: bv32, rt: Reg, base: Reg, offset: bv32, i: bv32)
    requires Leaves(cpu, mid, S0, offset) && Leaves(mid, Perform(mid, f), S0, Sum(mid.regs(S0), i))
    requires DecodesRegister(e, kind, rt, base, S0, 0)
    ensures var after := PerformAll(mid, [f, e]); OneAccess(cpu, after) && after.regs(S0) == Sum(offset, i)
  {
    TwoWords(mid, f, e);
    RegisterAccessLeaves(Perform(mid, f), e, kind, rt, base, S0, 0);
  }

  /** So it is when the offset is formed there. */
  lemma IndexLongSource(es: seq<Emitted>, e: Emitted, kind: bv32, rt: Reg, base: Reg, index: Reg, scale: bv32,
                        offset: bv32)
    requires scale <= 31 && Puts(es, S0, offset) && DecodesRegister(e, kind, rt, base, S0, 0) && offset != 0
    ensures SeesSource(es + [AddIndex(S0, S0, index, scale), e], rt) <==> rt != S0
  {
    var all := es + [AddIndex(S0, S0, index, scale), e];
    if rt == S0 {
      var held := if index == S0 then Sum(offset, ShiftLeft(offset, scale)) + 1 else 0;
      NotNext(Sum(offset, ShiftLeft(offset, scale)));
      ShiftedZero(offset, scale);
      IndexLongScratch(Holding(held), es, e, kind, rt, base, index, scale, offset);
      assert Leaves(Holding(held), PerformAll(Holding(held), es), S0, offset);
      ScratchLost(all, Holding(held));
    } else {
      forall cpu ensures OneAccess(cpu, PerformAll(cpu, all)) {
        IndexLongScratch(cpu, es, e, kind, rt, base, index, scale, offset);
      }
      OthersSeen(all, rt);
    }
  }

  lemma ShiftedZero(x: bv32, scale: bv32)
    ensures Sum(x, ShiftLeft(0, scale)) == x
  {
  }

  /** Through a shifted index register alone, everything is seen. */
  lemma IndexForm(e: Emitted, kind: bv32, rt: Reg, base: Reg, index: Reg, scale: bv32)
    requires DecodesRegister(e, kind, rt, base, index, scale)
    ensures TransfersAtIndex([e], kind, rt, base, index, scale, 0, S0) && SeesSource([e], rt)
  {
    IndexOnly(e, kind, rt, base, index, scale);
    RegisterScratch(e, kind, rt, base, index, scale);
    KeptSeen([e], rt);
  }

  method LongIndexed32(kind: bv32, srcDst: Reg, base: Reg, index: Reg, scale: bv32, offset: bv32, atLeast7: bool)
    returns (es: seq<Emitted>)
    requires IsTypeA(kind) && base != 15 && index != 15 && scale <= 3
    ensures AllKnown(es)
    ensures !atLeast7 ==> RunsAnywhere(es)
    ensures TransfersAtIndex(es, kind, srcDst, base, index, scale, offset, S0) <==> base != S0 && index != S0
    ensures offset != 0 ==> (SeesSource(es, srcDst) <==> srcDst != S0)
  {
    es := MoveImm(offset, S0, atLeast7);
    DecodeTransferRegister(kind, srcDst, base, S0, 0);
    var e := DtrRegister(kind, srcDst, base, S0, 0);
    IndexLongForm(es, e, kind, srcDst, base, index, scale, offset);
    AddIndexKnown(S0, S0, index, scale);
    es := es + [AddIndex(S0, S0, index, scale), e];
  }

  /** baseIndexTransfer32. */
  method BaseIndexTransfer32(kind: bv32, srcDst: Reg, base: Reg, index: Reg, scale: bv32, offset: bv32, atLeast7: bool)
    returns (es: seq<Emitted>)
    requires IsTypeA(kind) && base != 15 && index != 15 && scale <= 3
    ensures AllKnown(es)
    ensures !atLeast7 ==> RunsAnywhere(es)
    ensures TransfersAtIndex(es, kind, srcDst, base, index, scale, offset, S0)
            <==> (base != S0 && index != S0) || IsShort(offset, 0xfffff)
    ensures SeesSource(es, srcDst) <==> srcDst != S0 || offset == 0
  {
    if offset == 0 {
      DecodeTransferRegister(kind, srcDst, base, index, scale);
      es := [DtrRegister(kind, srcDst, base, index, scale)];
      IndexForm(es[0], kind, srcDst, base, index, scale);
    } else if IsShort(offset, 0xfffff) {
      es := DataTransfer32(kind, srcDst, S0, offset, atLeast7);
      IndexSource(es, srcDst, base, index, scale);
      IndexThen(S0, es, kind, srcDst, base, index, scale, offset);
      AddIndexKnown(S0, base, index, scale);
      es := [AddIndex(S0, base, index, scale)] + es;
    } else {
      es := LongIndexed32(kind, srcDst, base, index, scale, offset, atLeast7);
    }
  }

  // --- halfwords and signed bytes

  lemma HighPart16(x: bv32)
    requires x <= 0xffff
    ensures Gives(Op2Word(x >> 8, 12), (x >> 8) << 8) && ((x >> 8) << 8) + (x & 0xff) == x && x & 0xff <= 0xff
  {
    Turn11And12(x >> 8);
    Op2Expands(x >> 8, 12);
  }

  function HalfDtr(kind: bv32, up: bool, rd: Reg, rb: Reg, imm: bv32): Emitted {
    Insn(TransferWord(kind, up, rd, rb, Op2Half(imm)))
  }

  function HalfDtrUpRegister(kind: bv32, rd: Reg, rn: Reg, rm: Reg): Emitted {
    Insn(TransferWord(kind, true, rd, rn, rm))
  }

  method OneWord16(kind: bv32, srcDst: Reg, base: Reg, up: bool, size: bv32, ghost offset: bv32)
    returns (es: seq<Emitted>)
    requires IsTypeB(kind) && offset == Moved(up, size) && base != 15 && size <= 0xff
    ensures AllKnown(es) && |es| == 1
    ensures RunsAnywhere(es)
    ensures TransfersAt(es, kind, srcDst, base, offset) && SeesSource(es, srcDst) && KeepsLowByte(es)
  {
    DecodeHalf(kind, up, srcDst, base, size);
    es := [HalfDtr(kind, up, srcDst, base, size)];
    ShortForm(es[0], kind, srcDst, base, up, size, offset);
  }

  method SplitSize16(size: bv32) returns (op2: bv32, low: bv32, ghost high: bv32)
    requires 0xff < size <= 0xffff
    ensures Gives(op2, high) && low <= 0xff && high + low == size && high != 0 && high & 0xff == 0
  {
    HighPart16(size);
    HighNotZero16(size);
    op2, low, high := Op2Word(size >> 8, 12), size & 0xff, (size >> 8) << 8;
  }

  lemma HighNotZero16(x: bv32)
    requires x > 0xff
    ensures (x >> 8) << 8 != 0 && ((x >> 8) << 8) & 0xff == 0
  {
  }

  method TwoWords16(kind: bv32, srcDst: Reg, base: Reg, up: bool, size: bv32, ghost offset: bv32)
    returns (es: seq<Emitted>)
    requires IsTypeB(kind) && offset == Moved(up, size) && base != 15 && 0xff < size <= 0xffff
    ensures AllKnown(es) && |es| == 2
    ensures RunsAnywhere(es)
    ensures TransfersAt(es, kind, srcDst, base, offset) && (SeesSource(es, srcDst) <==> srcDst != S0)
    ensures base == S0 ==> KeepsLowByte(es)
  {
    var op2, low;
    ghost var high;
    op2, low, high := SplitSize16(size);
    es := AddAndHalfDtr(kind, srcDst, base, up, op2, low, high, offset);
  }

  method AddAndHalfDtr(kind: bv32, srcDst: Reg, base: Reg, up: bool, op2: bv32, low: bv32, ghost high: bv32,
                       ghost offset: bv32)
    returns (es: seq<Emitted>)
    requires IsTypeB(kind) && base != 15 && Gives(op2, high) && low <= 0xff && offset == Moved(up, high + low)
    requires high != 0 && high & 0xff == 0
    ensures AllKnown(es) && |es| == 2
    ensures RunsAnywhere(es)
    ensures TransfersAt(es, kind, srcDst, base, offset) && (SeesSource(es, srcDst) <==> srcDst != S0)
    ensures base == S0 ==> KeepsLowByte(es)
  {
    DecodeHalf(kind, up, srcDst, S0, low);
    var e := HalfDtr(kind, up, srcDst, S0, low);
    SplitForm(up, base, op2, high, e, kind, srcDst, low, offset);
    DataKnown(AddOrSub(up), S0, base, op2);
    es := [Insn(DataWord(AddOrSub(up), S0, base, op2)), e];
  }

  method Long16(kind: bv32, srcDst: Reg, base: Reg, offset: bv32, atLeast7: bool) returns (es: seq<Emitted>)
    requires IsTypeB(kind) && base != 15
    ensures AllKnown(es)
    ensures !atLeast7 ==> RunsAnywhere(es)
    ensures TransfersAt(es, kind, srcDst, base, offset) <==> base != S0
    ensures SeesSource(es, srcDst) <==> srcDst != S0
  {
    es := MoveImm(offset, S0, atLeast7);
    DecodeHalfRegister(kind, srcDst, base, S0);
    var e := HalfDtrUpRegister(kind, srcDst, base, S0);
    LongForm(es, e, kind, srcDst, base, offset);
    es := es + [e];
  }

  method Transfer16Signed(kind: bv32, srcDst: Reg, base: Reg, up: bool, size: bv32, offset: bv32, atLeast7: bool,
                          ghost one: bool, ghost two: bool)
    returns (es: seq<Emitted>)
    requires IsTypeB(kind) && offset == Moved(up, size) && base != 15
    requires (one <==> size <= 0xff) && (two <==> size <= 0xffff)
    ensures AllKnown(es)
    ensures !atLeast7 ==> RunsAnywhere(es)
    ensures TransfersAt(es, kind, srcDst, base, offset) <==> base != S0 || two
    ensures SeesSource(es, srcDst) <==> srcDst != S0 || one
    ensures base == S0 && two ==> KeepsLowByte(es)
    ensures one ==> |es| == 1
    ensures two ==> |es| <= 2
  {
    if size <= 0xff {
      es := OneWord16(kind, srcDst, base, up, size, offset);
    } else if size <= 0xffff {
      es := TwoWords16(kind, srcDst, base, up, size, offset);
    } else {
      es := Long16(kind, srcDst, base, offset, atLeast7);
    }
  }

  /** dataTransfer16. */
  method DataTransfer16(kind: bv32, srcDst: Reg, base: Reg, offset: bv32, atLeast7: bool) returns (es: seq<Emitted>)
    requires IsTypeB(kind) && base != 15
    ensures AllKnown(es)
    ensures !atLeast7 ==> RunsAnywhere(es)
    ensures TransfersAt(es, kind, srcDst, base, offset) <==> base != S0 || IsShort(offset, 0xffff)
    ensures SeesSource(es, srcDst) <==> srcDst != S0 || IsShort(offset, 0xff)
    ensures base == S0 && IsShort(offset, 0xffff) ==> KeepsLowByte(es)
    ensures IsShort(offset, 0xff) ==> |es| == 1
    ensures IsShort(offset, 0xffff) ==> |es| <= 2
  {
    var up, size := SizeOf16(offset);
    es := Transfer16Signed(kind, srcDst, base, up, size, offset, atLeast7, IsShort(offset, 0xff),
                           IsShort(offset, 0xffff));
  }

  method LongIndexed16(kind: bv32, srcDst: Reg, base: Reg, index: Reg, scale: bv32, offset: bv32, atLeast7: bool)
    returns (es: seq<Emitted>)
    requires IsTypeB(kind) && base != 15 && index != 15 && scale <= 3
    ensures AllKnown(es)
    ensures !atLeast7 ==> RunsAnywhere(es)
    ensures TransfersAtIndex(es, kind, srcDst, base, index, scale, offset, S0) <==> base != S0 && index != S0
    ensures offset != 0 ==> (SeesSource(es, srcDst) <==> srcDst != S0)
  {
    es := MoveImm(offset, S0, atLeast7);
    DecodeHalfRegister(kind, srcDst, base, S0);
    var e := HalfDtrUpRegister(kind, srcDst, base, S0);
    IndexLongForm(es, e, kind, srcDst, base, index, scale, offset);
    AddIndexKnown(S0, S0, index, scale);
    es := es + [AddIndex(S0, S0, index, scale), e];
  }

  /** baseIndexTransfer16. */
  method BaseIndexTransfer16(kind: bv32, srcDst: Reg, base: Reg, index: Reg, scale: bv32, offset: bv32, atLeast7: bool)
    returns (es: seq<Emitted>)
    requires IsTypeB(kind) && base != 15 && index != 15 && scale <= 3
    ensures AllKnown(es)
    ensures !atLeast7 ==> RunsAnywhere(es)
    ensures TransfersAtIndex(es, kind, srcDst, base, index, scale, offset, S0)
            <==> (base != S0 && index != S0) || IsShort(offset, 0xffff)
    ensures SeesSource(es, srcDst) <==> srcDst != S0 || (scale == 0 && offset == 0)
  {
    if scale == 0 && offset == 0 {
      DecodeHalfRegister(kind, srcDst, base, index);
      es := [HalfDtrUpRegister(kind, srcDst, base, index)];
      IndexForm(es[0], kind, srcDst, base, index, 0);
    } else if IsShort(offset, 0xffff) {
      es := DataTransfer16(kind, srcDst, S0, offset, atLeast7);
      IndexSource(es, srcDst, base, index, scale);
      IndexThen(S0, es, kind, srcDst, base, index, scale, offset);
      AddIndexKnown(S0, base, index, scale);
      es := [AddIndex(S0, base, index, scale)] + es;
    } else {
      es := LongIndexed16(kind, srcDst, base, index, scale, offset, atLeast7);
    }
  }

  // --- floating point registers

  lemma HighPartFloat(x: bv32)
    requires x <= 0x3ffff && x & 3 == 0
    ensures Gives(Op2Word(x >> 10, 11), (x >> 10) << 10) && ((x >> 10) << 10) + (((x >> 2) & 0xff) << 2) == x
    ensures (x >> 2) & 0xff <= 0xff
  {
    FloatParts(x);
    HighByteFloat(x >> 10);
  }

  lemma HighByteFloat(byte: bv32)
    requires byte <= 0xff
    ensures Gives(Op2Word(byte, 11), byte << 10)
  {
    Turn11And12(byte);
    Op2Expands(byte, 11);
  }

  lemma FloatParts(x: bv32)
    requires x <= 0x3ffff && x & 3 == 0
    ensures x >> 10 <= 0xff && ((x >> 10) << 10) + (((x >> 2) & 0xff) << 2) == x && (x >> 2) & 0xff <= 0xff
  {
  }

  lemma AlignedWord(x: bv32)
    requires x <= 0x3ff && x & 3 == 0
    ensures x >> 2 <= 0xff && (x >> 2) << 2 == x
  {
  }

  function DoubleDtr(kind: bv32, up: bool, rd: Reg, rb: Reg, op2: bv32): Emitted {
    Insn(TransferWord(kind, up, rd, rb, op2))
  }

  /** The short forms that one sign of an aligned offset takes. */
  method TransferFloatSigned(kind: bv32, srcDst: Reg, base: Reg, up: bool, size: bv32, ghost offset: bv32)
    returns (es: seq<Emitted>)
    requires IsTypeFloat(kind) && offset == Moved(up, size) && size <= 0x3ffff && size & 3 == 0 && base != 15
    ensures AllKnown(es)
    ensures RunsAnywhere(es)
    ensures TransfersAt(es, kind, srcDst, base, offset)
    ensures |es| == if size <= 0x3ff then 1 else 2
  {
    if size <= 0x3ff {
      AlignedWord(size);
      DecodeFloat(kind, up, srcDst, base, size >> 2);
      es := [DoubleDtr(kind, up, srcDst, base, size >> 2)];
      Short(es[0], kind, srcDst, base, up, size, offset);
    } else {
      HighPartFloat(size);
      DecodeFloat(kind, up, srcDst, S0, (size >> 2) & 0xff);
      var e := DoubleDtr(kind, up, srcDst, S0, (size >> 2) & 0xff);
      Split(up, base, Op2Word(size >> 10, 11), (size >> 10) << 10, e, kind, srcDst, ((size >> 2) & 0xff) << 2, offset);
      DataKnown(AddOrSub(up), S0, base, Op2Word(size >> 10, 11));
      es := [Insn(DataWord(AddOrSub(up), S0, base, Op2Word(size >> 10, 11))), e];
    }
  }

  function AddRegister(rd: Reg, rn: Reg, rm: Reg): Emitted { AddIndex(rd, rn, rm, 0) }

  lemma LongFloat(es: seq<Emitted>, e: Emitted, kind: bv32, rt: Reg, base: Reg, offset: bv32)
    requires Puts(es, S0, offset) && Decodes(e, kind, rt, S0, true, 0) && base != S0
    ensures TransfersAt(es + [AddRegister(S0, S0, base), e], kind, rt, base, offset)
  {
    var f := AddRegister(S0, S0, base);
    forall cpu ensures AccessDone(cpu, PerformAll(cpu, es + [f, e]), kind, rt, Sum(cpu.regs(base), offset), S0, S0) {
      PerformConcat(cpu, es, [f, e]);
      var mid := PerformAll(cpu, es);
      TwoWords(mid, f, e);
      assert Leaves(cpu, mid, S0, offset);
      AddIndexLeaves(mid, S0, S0, base, 0);
      Unshifted(mid.regs(base));
      AccessLeaves(Perform(mid, f), e, kind, rt, S0, true, 0);
      UpIsSum(Sum(offset, cpu.regs(base)), 0);
      SumZero(Sum(offset, cpu.regs(base)));
      SumCommutes(offset, cpu.regs(base));
    }
  }

  /** The sum is formed in S0, so a base there is the offset by then. */
  lemma LongFloatOverScratch(es: seq<Emitted>, e: Emitted, kind: bv32, rt: Reg, offset: bv32)
    requires Puts(es, S0, offset) && Decodes(e, kind, rt, S0, true, 0)
    ensures !TransfersAt(es + [AddRegister(S0, S0, S0), e], kind, rt, S0, offset)
  {
    var f := AddRegister(S0, S0, S0);
    forall cpu ensures AccessDone(cpu, PerformAll(cpu, es + [f, e]), kind, rt, Sum(offset, offset), S0, S0) {
      PerformConcat(cpu, es, [f, e]);
      var mid := PerformAll(cpu, es);
      TwoWords(mid, f, e);
      assert Leaves(cpu, mid, S0, offset);
      AddIndexLeaves(mid, S0, S0, S0, 0);
      Unshifted(mid.regs(S0));
      AccessLeaves(Perform(mid, f), e, kind, rt, S0, true, 0);
      UpIsSum(Sum(offset, offset), 0);
      SumZero(Sum(offset, offset));
    }
    AtTwiceIsWrong(es + [f, e], kind, rt, offset);
  }

  lemma LongFloatForm(es: seq<Emitted>, e: Emitted, kind: bv32, rt: Reg, base: Reg, offset: bv32)
    requires Puts(es, S0, offset) && Decodes(e, kind, rt, S0, true, 0)
    ensures TransfersAt(es + [AddRegister(S0, S0, base), e], kind, rt, base, offset) <==> base != S0
  {
    if base == S0 {
      LongFloatOverScratch(es, e, kind, rt, offset);
    } else {
      LongFloat(es, e, kind, rt, base, offset);
    }
  }

  lemma SumCommutes(x: bv32, y: bv32)
    ensures Sum(x, y) == Sum(y, x)
  {
  }

  /** dataTransferFloat. An offset is tried as it is, then negated; -0x80000000 is itself, so takes the long form. */
  method DataTransferFloat(kind: bv32, srcDst: Reg, base: Reg, offset: bv32, atLeast7: bool) returns (es: seq<Emitted>)
    requires IsTypeFloat(kind) && base != 15
    ensures AllKnown(es)
    ensures !atLeast7 ==> RunsAnywhere(es)
    ensures TransfersAt(es, kind, srcDst, base, offset) <==> base != S0 || (offset & 3 == 0 && IsShort(offset, 0x3ffff))
    ensures offset & 3 == 0 && IsShort(offset, 0x3ff) ==> |es| == 1
    ensures offset & 3 == 0 && IsShort(offset, 0x3ffff) ==> |es| <= 2
  {
    ShortEither(offset);
    ShorterEither(offset);
    NotBoth(offset);
    if offset & 3 == 0 {
      if offset <= 0x3ffff {
        es := TransferFloatSigned(kind, srcDst, base, true, offset, offset);
        return;
      }
      NegatedFloat(offset);
      if -offset <= 0x3ffff {
        es := TransferFloatSigned(kind, srcDst, base, false, -offset, offset);
        return;
      }
    }
    es := LongTransferFloat(kind, srcDst, base, offset, atLeast7);
  }

  lemma ShortEither(x: bv32)
    ensures IsShort(x, 0x3ffff) <==> x <= 0x3ffff || -x <= 0x3ffff
  {
  }

  lemma ShorterEither(x: bv32)
    ensures IsShort(x, 0x3ff) <==> x <= 0x3ff || -x <= 0x3ff
  {
  }

  lemma NotBoth(x: bv32)
    ensures x <= 0x3ffff && -x <= 0x3ff ==> x == 0
  {
  }

  method LongTransferFloat(kind: bv32, srcDst: Reg, base: Reg, offset: bv32, atLeast7: bool) returns (es: seq<Emitted>)
    requires IsTypeFloat(kind) && base != 15
    ensures TransfersAt(es, kind, srcDst, base, offset) <==> base != S0
    ensures AllKnown(es)
    ensures !atLeast7 ==> RunsAnywhere(es)
  {
    es := MoveImm(offset, S0, atLeast7);
    DecodeFloat(kind, true, srcDst, S0, 0);
    var e := DoubleDtr(kind, true, srcDst, S0, 0);
    assert (0 as bv32) << 2 == 0;
    LongFloatForm(es, e, kind, srcDst, base, offset);
    AddIndexKnown(S0, S0, base, 0);
    es := es + [AddRegister(S0, S0, base), e];
  }

  lemma NegatedFloat(x: bv32)
    requires x & 3 == 0
    ensures -x & 3 == 0 && Moved(false, -x) == x
  {
  }

  /** baseIndexTransferFloat: the indexed base goes to S1, so the offset may use S0. */
  method BaseIndexTransferFloat(kind: bv32, srcDst: Reg, base: Reg, index: Reg, scale: bv32, offset: bv32,
                                atLeast7: bool)
    returns (es: seq<Emitted>)
    requires IsTypeFloat(kind) && base != 15 && index != 15 && scale <= 3
    ensures AllKnown(es)
    ensures !atLeast7 ==> RunsAnywhere(es)
    ensures TransfersAtIndex(es, kind, srcDst, base, index, scale, offset, S1)
  {
    es := DataTransferFloat(kind, srcDst, S1, offset, atLeast7);
    IndexThen(S1, es, kind, srcDst, base, index, scale, offset);
    AddIndexKnown(S1, base, index, scale);
    es := [AddIndex(S1, base, index, scale)] + es;
  }
}
