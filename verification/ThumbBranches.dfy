/** Choosing, writing and rewriting branches in ARMv7Assembler. Locations are byte addresses, and point
    just past the branch, as in the source; fields that share no bits are combined with +. */
module ThumbBranches {
  import opened BaseTypes
  import opened ThumbMachine

  const OP_B_T1 := 0xd000
  const OP_B_T2 := 0xe000
  const OP_B_T3a := 0xf000
  const OP_B_T3b := 0x8000
  const OP_B_T4a := 0xf000
  const OP_B_T4b := 0x9000
  const OP_IT := 0xbf00
  const OP_NOP_T1: Half := 0xbf00
  const OP_NOP_T2A: Half := 0xf3af
  const OP_NOP_T2B: Half := 0x8000
  const OP_MOV_IMM_T3 := 0xf240
  const OP_MOVT := 0xf2c0
  const OP_BX := 0x4700

  // --- ranges

  predicate CanBeJumpT1(from: int, to: int) { -0x100 <= to - from - 2 < 0x100 }

  predicate CanBeJumpT2(from: int, to: int) { -0x800 <= to - from - 2 < 0x800 }

  predicate CanBeJumpT3(from: int, to: int) { -0x10_0000 <= to - from < 0x10_0000 }

  predicate CanBeJumpT4(from: int, to: int) { -0x100_0000 <= to - from < 0x100_0000 }

  // --- encoders

  function JumpT1(cond: nat, from: int, to: int): Half
    requires cond < 16
  {
    OP_B_T1 + cond * 256 + (to - from - 2) % 0x200 / 2
  }

  function JumpT2(from: int, to: int): Half { OP_B_T2 + (to - from - 2) % 0x1000 / 2 }

  function JumpT3(cond: nat, from: int, to: int): seq<Half>
    requires cond < 16
  {
    var r := (to - from) % 0x20_0000;
    [OP_B_T3a + r / 0x10_0000 * 1024 + cond * 64 + r / 0x1000 % 64,
     OP_B_T3b + r / 0x8_0000 % 2 * 2048 + r / 0x4_0000 % 2 * 8192 + r / 2 % 2048]
  }

  /** The two bits below the sign are flipped for a forward branch. */
  function Flipped(bit: nat, flip: bool): nat
    requires bit < 2
  {
    if flip then 1 - bit else bit
  }

  function JumpT4(from: int, to: int): seq<Half> {
    var r := (to - from) % 0x200_0000;
    var forward := to - from >= 0;
    [OP_B_T4a + r / 0x100_0000 * 1024 + r / 0x1000 % 1024,
     OP_B_T4b + Flipped(r / 0x80_0000 % 2, forward) * 8192 + Flipped(r / 0x40_0000 % 2, forward) * 2048 + r / 2 % 2048]
  }

  lemma T1Fields(cond: nat, b: nat)
    requires cond < 14 && b < 256
    ensures var h := OP_B_T1 + cond * 256 + b;
            !IsWide(h) && DecodeShort(h) == BranchIf(cond, 2 * Signed(b, 128))
  {
    var h := OP_B_T1 + cond * 256 + b;
    assert h == (0xd0 + cond) * 256 + b;
    assert h / 256 == 0xd0 + cond && h % 256 == b;
    assert h / 4096 == (0xd0 + cond) / 16 && h / 2048 == (0xd0 + cond) / 8;
  }

  lemma T2Fields(b: nat)
    requires b < 2048
    ensures var h := OP_B_T2 + b; !IsWide(h) && DecodeShort(h) == Branch(2 * Signed(b, 1024))
  {
    var h := OP_B_T2 + b;
    assert h == 0x1c * 2048 + b;
    assert h / 2048 == 0x1c && h % 2048 == b;
  }

  lemma Signed9(d: int)
    requires d % 2 == 0 && -0x100 <= d < 0x100
    ensures d % 0x200 / 2 < 256 && 2 * Signed(d % 0x200 / 2, 128) == d
  {
    assert d % 0x200 == if d >= 0 then d else d + 0x200;
    assert d == 2 * (d / 2);
  }

  lemma Signed12(d: int)
    requires d % 2 == 0 && -0x800 <= d < 0x800
    ensures d % 0x1000 / 2 < 2048 && 2 * Signed(d % 0x1000 / 2, 1024) == d
  {
    assert d % 0x1000 == if d >= 0 then d else d + 0x1000;
    assert d == 2 * (d / 2);
  }

  lemma EvenLess2(x: int)
    requires x % 2 == 0
    ensures (x - 2) % 2 == 0
  {
    assert x - 2 == 2 * (x / 2 - 1);
  }

  lemma DecodeT1(cond: nat, from: int, to: int)
    requires cond < 14 && CanBeJumpT1(from, to) && (to - from) % 2 == 0
    ensures DecodeShort(JumpT1(cond, from, to)) == BranchIf(cond, to - from - 2) && !IsWide(JumpT1(cond, from, to))
  {
    var d := to - from - 2;
    EvenLess2(to - from);
    Signed9(d);
    T1Fields(cond, d % 0x200 / 2);
  }

  lemma DecodeT2(from: int, to: int)
    requires CanBeJumpT2(from, to) && (to - from) % 2 == 0
    ensures DecodeShort(JumpT2(from, to)) == Branch(to - from - 2) && !IsWide(JumpT2(from, to))
  {
    var d := to - from - 2;
    EvenLess2(to - from);
    Signed12(d);
    T2Fields(d % 0x1000 / 2);
  }

  /** The low 2n bits of a number in range, read as signed. */
  lemma SignedOf(x: int, limit: nat)
    requires limit == 0x10_0000 || limit == 0x100_0000
    requires 0 - limit <= x < limit
    ensures Signed(x % (2 * limit), limit) == x
  {
  }

  lemma FirstT3(s: nat, cond: nat, imm6: nat)
    requires s < 2 && cond < 16 && imm6 < 64
    ensures var h := OP_B_T3a + s * 1024 + cond * 64 + imm6;
            h < 0x1_0000 && h / 2048 == 0x1e && h / 1024 % 2 == s && h / 64 % 16 == cond && h % 64 == imm6
  {
  }

  lemma SecondHalf(op: nat, high: nat, low: nat, imm11: nat)
    requires (op == OP_B_T3b || op == OP_B_T4b) && high < 2 && low < 2 && imm11 < 2048
    ensures var h := op + high * 8192 + low * 2048 + imm11;
            && h < 0x1_0000 && h / 32768 == 1 && h / 4096 % 8 / 4 == 0
            && h / 4096 % 2 == (if op == OP_B_T4b then 1 else 0)
            && h / 8192 % 2 == high && h / 2048 % 2 == low && h % 2048 == imm11
  {
  }

  lemma LowPart(r: nat)
    requires r % 2 == 0
    ensures r == r / 0x1000 * 0x1000 + r / 2 % 2048 * 2
  {
  }

  lemma PartsT3(r: nat)
    requires r < 0x20_0000 && r % 2 == 0
    ensures r == r / 0x10_0000 * 0x10_0000 + r / 0x8_0000 % 2 * 0x8_0000 + r / 0x4_0000 % 2 * 0x4_0000
                 + r / 0x1000 % 64 * 0x1000 + r / 2 % 2048 * 2
    ensures r / 0x10_0000 < 2
  {
    LowPart(r);
    HighT3(r / 0x1000);
    assert r / 0x10_0000 == r / 0x1000 / 256;
    assert r / 0x8_0000 == r / 0x1000 / 128;
    assert r / 0x4_0000 == r / 0x1000 / 64;
  }

  lemma HighT3(u: nat)
    requires u < 512
    ensures u == u / 256 * 256 + u / 128 % 2 * 128 + u / 64 % 2 * 64 + u % 64 && u / 256 < 2
  {
  }

  lemma EvenPart21(x: int)
    requires x % 2 == 0
    ensures x % 0x20_0000 % 2 == 0
  {
    var q, k := x / 0x20_0000, x / 2;
    assert x % 0x20_0000 == 2 * (k - 0x10_0000 * q);
  }

  lemma EvenPart25(x: int)
    requires x % 2 == 0
    ensures x % 0x200_0000 % 2 == 0
  {
    var q, k := x / 0x200_0000, x / 2;
    assert x % 0x200_0000 == 2 * (k - 0x100_0000 * q);
  }

  lemma FieldsT3(x: int, r: nat)
    requires -0x10_0000 <= x < 0x10_0000 && x % 2 == 0 && r == x % 0x20_0000
    ensures r / 0x10_0000 < 2 && Signed(r, 0x10_0000) == x
    ensures r == r / 0x10_0000 * 0x10_0000 + r / 0x8_0000 % 2 * 0x8_0000 + r / 0x4_0000 % 2 * 0x4_0000
                 + r / 0x1000 % 64 * 0x1000 + r / 2 % 2048 * 2
  {
    EvenPart21(x);
    SignedOf(x, 0x10_0000);
    PartsT3(r);
  }

  lemma DecodeT3(cond: nat, from: int, to: int)
    requires cond < 14 && CanBeJumpT3(from, to) && (to - from) % 2 == 0
    ensures var hs := JumpT3(cond, from, to); DecodeWide(hs[0], hs[1]) == BranchIf(cond, to - from) && IsWide(hs[0])
  {
    var r := (to - from) % 0x20_0000;
    FieldsT3(to - from, r);
    WideT3(cond, r, r / 0x10_0000, r / 0x8_0000 % 2, r / 0x4_0000 % 2, r / 0x1000 % 64, r / 2 % 2048);
  }

  lemma WideT3(cond: nat, r: nat, s: nat, b19: nat, b18: nat, imm6: nat, imm11: nat)
    requires cond < 14 && s < 2 && b19 < 2 && b18 < 2 && imm6 < 64 && imm11 < 2048
    requires r == s * 0x10_0000 + b19 * 0x8_0000 + b18 * 0x4_0000 + imm6 * 0x1000 + imm11 * 2
    ensures DecodeWide(OP_B_T3a + s * 1024 + cond * 64 + imm6, OP_B_T3b + b19 * 2048 + b18 * 8192 + imm11)
            == BranchIf(cond, Signed(r, 0x10_0000))
    ensures IsWide(OP_B_T3a + s * 1024 + cond * 64 + imm6)
  {
    FirstT3(s, cond, imm6);
    SecondHalf(OP_B_T3b, b18, b19, imm11);
  }

  lemma FirstT4(s: nat, imm10: nat)
    requires s < 2 && imm10 < 1024
    ensures var h := OP_B_T4a + s * 1024 + imm10;
            IsWide(h) && h < 0x1_0000 && h / 2048 == 0x1e && h / 1024 % 2 == s && h % 1024 == imm10
  {
  }

  lemma PartsT4(r: nat)
    requires r < 0x200_0000 && r % 2 == 0
    ensures r == r / 0x100_0000 * 0x100_0000 + r / 0x80_0000 % 2 * 0x80_0000 + r / 0x40_0000 % 2 * 0x40_0000
                 + r / 0x1000 % 1024 * 0x1000 + r / 2 % 2048 * 2
    ensures r / 0x100_0000 < 2
  {
    LowPart(r);
    HighT4(r / 0x1000);
    assert r / 0x100_0000 == r / 0x1000 / 4096;
    assert r / 0x80_0000 == r / 0x1000 / 2048;
    assert r / 0x40_0000 == r / 0x1000 / 1024;
  }

  lemma HighT4(u: nat)
    requires u < 8192
    ensures u == u / 4096 * 4096 + u / 2048 % 2 * 2048 + u / 1024 % 2 * 1024 + u % 1024 && u / 4096 < 2
  {
  }

  /** The sign bit of the low 25 bits. */
  lemma SignT4(x: int)
    requires -0x100_0000 <= x < 0x100_0000
    ensures x % 0x200_0000 / 0x100_0000 == if x >= 0 then 0 else 1
  {
  }

  /** The decoder's inversion undoes the linker's, whatever the sign. */
  lemma WideT4(h1: Half, h2: Half, r: nat, s: nat, b23: nat, b22: nat, imm10: nat, imm11: nat)
    requires s < 2 && b23 < 2 && b22 < 2 && imm10 < 1024 && imm11 < 2048
    requires r == s * 0x100_0000 + b23 * 0x80_0000 + b22 * 0x40_0000 + imm10 * 0x1000 + imm11 * 2
    requires h1 == OP_B_T4a + s * 1024 + imm10
    requires h2 == OP_B_T4b + Flipped(b23, s == 0) * 8192 + Flipped(b22, s == 0) * 2048 + imm11
    ensures DecodeWide(h1, h2) == Branch(Signed(r, 0x100_0000)) && IsWide(h1)
  {
    FirstT4(s, imm10);
    SecondHalf(OP_B_T4b, Flipped(b23, s == 0), Flipped(b22, s == 0), imm11);
  }

  lemma FieldsT4(x: int, r: nat)
    requires -0x100_0000 <= x < 0x100_0000 && x % 2 == 0 && r == x % 0x200_0000
    ensures r / 0x100_0000 == (if x >= 0 then 0 else 1) && Signed(r, 0x100_0000) == x
    ensures r == r / 0x100_0000 * 0x100_0000 + r / 0x80_0000 % 2 * 0x80_0000 + r / 0x40_0000 % 2 * 0x40_0000
                 + r / 0x1000 % 1024 * 0x1000 + r / 2 % 2048 * 2
  {
    EvenPart25(x);
    SignedOf(x, 0x100_0000);
    PartsT4(r);
    SignT4(x);
  }

  lemma DecodeT4(from: int, to: int)
    requires CanBeJumpT4(from, to) && (to - from) % 2 == 0
    ensures var hs := JumpT4(from, to); DecodeWide(hs[0], hs[1]) == Branch(to - from) && IsWide(hs[0])
  {
    var r := (to - from) % 0x200_0000;
    FieldsT4(to - from, r);
    JumpT4Fields(from, to, r, r / 0x100_0000);
    var hs := JumpT4(from, to);
    WideT4(hs[0], hs[1], r, r / 0x100_0000, r / 0x80_0000 % 2, r / 0x40_0000 % 2, r / 0x1000 % 1024, r / 2 % 2048);
  }

  lemma JumpT4Fields(from: int, to: int, r: nat, s: nat)
    requires r == (to - from) % 0x200_0000 && s == r / 0x100_0000 && (s == 0 <==> to - from >= 0)
    ensures var hs := JumpT4(from, to);
            && hs[0] == OP_B_T4a + s * 1024 + r / 0x1000 % 1024
            && hs[1] == OP_B_T4b + Flipped(r / 0x80_0000 % 2, s == 0) * 8192
                        + Flipped(r / 0x40_0000 % 2, s == 0) * 2048 + r / 2 % 2048
  {
  }

  // --- the long sequence

  /** First and second halfword of a move of a 16-bit immediate. */
  function MoveFirst(op: nat, imm16: nat): Half
    requires (op == OP_MOV_IMM_T3 || op == OP_MOVT) && imm16 < 0x1_0000
  {
    op + imm16 / 2048 % 2 * 1024 + imm16 / 4096
  }

  function MoveSecond(rd: nat, imm16: nat): Half
    requires rd < 16 && imm16 < 0x1_0000
  {
    imm16 / 256 % 8 * 4096 + rd * 256 + imm16 % 256
  }

  lemma FirstFields(op: nat, i: nat, imm4: nat)
    requires (op == OP_MOV_IMM_T3 || op == OP_MOVT) && i < 2 && imm4 < 16
    ensures var h := op + i * 1024 + imm4;
            MoveOp(h) == op / 16 && h / 2048 == 0x1e && h % 16 == imm4 && h / 1024 % 2 == i
  {
  }

  lemma SecondFields(imm3: nat, rd: nat, imm8: nat)
    requires imm3 < 8 && rd < 16 && imm8 < 256
    ensures var h := imm3 * 4096 + rd * 256 + imm8;
            h / 32768 == 0 && h / 256 % 16 == rd && h / 4096 % 8 == imm3 && h % 256 == imm8
  {
    var h, u := imm3 * 4096 + rd * 256 + imm8, imm3 * 16 + rd;
    assert h == u * 256 + imm8;
    assert h / 256 == u && u / 16 == imm3 && u % 16 == rd;
    assert h / 4096 == u / 16 && h / 32768 == u / 128;
  }

  lemma MoveFields(op: nat, rd: nat, imm16: nat)
    requires (op == OP_MOV_IMM_T3 || op == OP_MOVT) && imm16 < 0x1_0000 && rd < 16
    ensures var h1, h2 := MoveFirst(op, imm16), MoveSecond(rd, imm16);
            && MoveOp(h1) == op / 16 && h1 / 2048 == 0x1e && h2 / 32768 == 0 && h2 / 256 % 16 == rd
            && h1 % 16 == imm16 / 4096 && h1 / 1024 % 2 == imm16 / 2048 % 2
            && h2 / 4096 % 8 == imm16 / 256 % 8 && h2 % 256 == imm16 % 256
  {
    FirstFields(op, imm16 / 2048 % 2, imm16 / 4096);
    SecondFields(imm16 / 256 % 8, rd, imm16 % 256);
  }

  lemma Imm16Parts(imm16: nat)
    requires imm16 < 0x1_0000
    ensures imm16 / 4096 * 4096 + imm16 / 2048 % 2 * 2048 + imm16 / 256 % 8 * 256 + imm16 % 256 == imm16
  {
    var u := imm16 / 256;
    assert u / 16 * 16 + u / 8 % 2 * 8 + u % 8 == u;
    assert imm16 / 4096 == u / 16 && imm16 / 2048 == u / 8;
  }

  lemma MoveImm16(op: nat, rd: nat, imm16: nat)
    requires (op == OP_MOV_IMM_T3 || op == OP_MOVT) && imm16 < 0x1_0000 && rd < 16
    ensures Imm16(MoveFirst(op, imm16), MoveSecond(rd, imm16)) == imm16
  {
    MoveFields(op, rd, imm16);
    Imm16Parts(imm16);
  }

  lemma DecodeMove(op: nat, rd: nat, imm16: nat)
    requires (op == OP_MOV_IMM_T3 || op == OP_MOVT) && imm16 < 0x1_0000 && rd < 16
    ensures IsWide(MoveFirst(op, imm16))
    ensures DecodeWide(MoveFirst(op, imm16), MoveSecond(rd, imm16))
            == if op == OP_MOVT then MovT(rd, imm16) else MovW(rd, imm16)
  {
    MoveFields(op, rd, imm16);
    MoveImm16(op, rd, imm16);
  }

  /** linkBX: the target with its low bit set, in two halves, and a branch to it. */
  function LongJump(to: Word): seq<Half> {
    [MoveFirst(OP_MOV_IMM_T3, (to + 1) % 0x1_0000), MoveSecond(IP, (to + 1) % 0x1_0000),
     MoveFirst(OP_MOVT, to / 0x1_0000), MoveSecond(IP, to / 0x1_0000), OP_BX + IP * 8]
  }

  /** A block of one or of three instructions under a condition (ifThenElse). */
  function ItOne(cond: nat): Half
    requires cond < 16
  {
    OP_IT + cond * 16 + 8
  }

  function ItThree(cond: nat): Half
    requires cond < 16
  {
    OP_IT + cond * 16 + (cond % 2 * 8 + cond % 2 * 4 + 2)
  }

  lemma ItFields(cond: nat, mask: nat)
    requires cond < 14 && 0 < mask < 16
    ensures DecodeShort(OP_IT + cond * 16 + mask) == If(cond, mask) && !IsWide(OP_IT + cond * 16 + mask)
  {
    var h := OP_IT + cond * 16 + mask;
    assert h == (0xbf0 + cond) * 16 + mask;
    assert h / 16 == 0xbf0 + cond && h % 16 == mask && h / 256 == 0xbf && h / 2048 == 0x17;
  }

  lemma OneCondition(cond: nat)
    ensures Conditions(cond, 8) == [cond]
  {
  }

  /** The mask of a three instruction block repeats the low bit of the condition twice. */
  lemma ThreeConditions(cond: nat)
    ensures Conditions(cond, cond % 2 * 8 + cond % 2 * 4 + 2) == [cond, cond, cond]
  {
    if cond % 2 == 0 {
      assert Conditions(cond, 2) == [cond, WithLow(cond, 0), WithLow(cond, 0)];
    } else {
      assert Conditions(cond, 14) == [cond, WithLow(cond, 1), WithLow(cond, 1)];
    }
  }

  // --- what the sequences do

  /** A nop or a branch instruction at the front of some halfwords. */
  lemma RunShort(hs: seq<Half>, address: int, ip: nat, it: seq<nat>, holds: Flags)
    requires |hs| > 0 && !IsWide(hs[0])
    ensures Run(hs, address, ip, it, holds) == Perform(DecodeShort(hs[0]), hs[1..], address, 2, ip, it, holds)
  {
  }

  lemma RunWide(hs: seq<Half>, address: int, ip: nat, it: seq<nat>, holds: Flags)
    requires |hs| > 1 && IsWide(hs[0])
    ensures Run(hs, address, ip, it, holds) == Perform(DecodeWide(hs[0], hs[1]), hs[2..], address, 4, ip, it, holds)
  {
  }

  /** Under no condition, or with one condition for each of its three instructions. */
  predicate IsBlock(it: seq<nat>, n: nat, cond: nat) {
    it == [] || (|it| == n && forall k :: 0 <= k < n ==> it[k] == cond)
  }

  /** A move to the scratch register at the front; inside a block it uses up one condition. */
  lemma RunMove(op: nat, imm16: nat, rest: seq<Half>, address: int, ip: nat, it: seq<nat>, n: nat, cond: nat,
                holds: Flags)
    requires (op == OP_MOV_IMM_T3 || op == OP_MOVT) && imm16 < 0x1_0000 && n > 0 && IsBlock(it, n, cond)
    ensures var passes := it == [] || holds(cond);
            var ip' := if !passes then ip else if op == OP_MOVT then imm16 * 0x1_0000 + ip % 0x1_0000 else imm16;
            Run([MoveFirst(op, imm16), MoveSecond(IP, imm16)] + rest, address, ip, it, holds)
            == Run(rest, address + 4, ip', if it == [] then [] else it[1..], holds)
  {
    DecodeMove(op, IP, imm16);
    var hs := [MoveFirst(op, imm16), MoveSecond(IP, imm16)] + rest;
    assert hs[2..] == rest;
    RunWide(hs, address, ip, it, holds);
    PerformMove(op, imm16, rest, address, ip, it, n, cond, holds);
  }

  lemma PerformMove(op: nat, imm16: nat, rest: seq<Half>, address: int, ip: nat, it: seq<nat>, n: nat, cond: nat,
                    holds: Flags)
    requires n > 0 && IsBlock(it, n, cond)
    ensures var passes := it == [] || holds(cond);
            var ip' := if !passes then ip else if op == OP_MOVT then imm16 * 0x1_0000 + ip % 0x1_0000 else imm16;
            Perform(if op == OP_MOVT then MovT(IP, imm16) else MovW(IP, imm16), rest, address, 4, ip, it, holds)
            == Run(rest, address + 4, ip', if it == [] then [] else it[1..], holds)
  {
  }

  /** The second move and the branch. */
  lemma RunHighHalf(to: Word, high: nat, low: nat, address: int, ip: nat, it: seq<nat>, cond: nat, holds: Flags)
    requires high < 0x1_0000 && low % 0x1_0000 == low && high * 0x1_0000 + low == to + 1 && (to + 1) % 2 == 1
    requires IsBlock(it, 2, cond) && (it == [] || holds(cond) ==> ip == low)
    ensures Run([MoveFirst(OP_MOVT, high), MoveSecond(IP, high)] + [OP_BX + IP * 8], address, ip, it, holds)
            == if it == [] || holds(cond) then Jump(to) else Past
  {
    var last := OP_BX + IP * 8;
    RunMove(OP_MOVT, high, [last], address, ip, it, 2, cond, holds);
    var next := if it == [] || holds(cond) then high * 0x1_0000 + ip % 0x1_0000 else ip;
    assert it == [] || holds(cond) ==> next == to + 1;
    RunBx(last, address + 4, next, if it == [] then [] else it[1..], holds);
  }

  lemma RunLong(to: Word, address: int, ip: nat, it: seq<nat>, cond: nat, holds: Flags)
    requires to % 2 == 0 && IsBlock(it, 3, cond)
    ensures Run(LongJump(to), address, ip, it, holds) == if it == [] || holds(cond) then Jump(to) else Past
  {
    var low, high := (to + 1) % 0x1_0000, to / 0x1_0000;
    var half := [MoveFirst(OP_MOVT, high), MoveSecond(IP, high)] + [OP_BX + IP * 8];
    assert LongJump(to) == [MoveFirst(OP_MOV_IMM_T3, low), MoveSecond(IP, low)] + half;
    LongParts(to);
    RunMove(OP_MOV_IMM_T3, low, half, address, ip, it, 3, cond, holds);
    RunHighHalf(to, high, low, address + 4, if it == []
        || holds(cond) then low else ip, if it == [] then [] else it[1..], cond, holds);
  }

  lemma LongParts(to: Word)
    requires to % 2 == 0
    ensures var low, high := (to + 1) % 0x1_0000, to / 0x1_0000;
            low < 0x1_0000 && low % 0x1_0000 == low && high < 0x1_0000 && high * 0x1_0000 + low == to + 1
                && (to + 1) % 2 == 1
  {
    LowHalf(to, to / 0x1_0000, to % 0x1_0000, to / 2);
  }

  lemma LowHalf(to: Word, high: nat, low: nat, half: nat)
    requires to == high * 0x1_0000 + low && low < 0x1_0000 && to == 2 * half
    ensures low + 1 < 0x1_0000 && (to + 1) % 0x1_0000 == low + 1
  {
    assert low == 2 * (half - high * 0x8000);
    assert to + 1 == high * 0x1_0000 + (low + 1);
  }

  lemma RunBx(h: Half, address: int, ip: nat, it: seq<nat>, holds: Flags)
    requires h == OP_BX + IP * 8
    ensures Run([h], address, ip, it, holds)
            == if it != [] && !holds(it[0]) then Past else if ip % 2 == 1 then Jump(ip - 1) else ToArm(ip)
  {
    assert DecodeShort(h) == Bx(IP) && !IsWide(h);
    RunShort([h], address, ip, it, holds);
    assert [h][1..] == [];
  }

  lemma RunT4(from: int, to: int, ip: nat, it: seq<nat>, cond: nat, holds: Flags)
    requires CanBeJumpT4(from, to) && (to - from) % 2 == 0 && IsBlock(it, 1, cond)
    ensures Run(JumpT4(from, to), from - 4, ip, it, holds) == if it == [] || holds(cond) then Jump(to) else Past
  {
    DecodeT4(from, to);
    RunWide(JumpT4(from, to), from - 4, ip, it, holds);
  }

  // --- choosing and linking

  datatype JumpType = JumpFixed | JumpNoCondition | JumpCondition | JumpNoConditionFixedSize | JumpConditionFixedSize {
    function Size(): nat {
      match this
      case JumpFixed => 0
      case JumpNoCondition => 10
      case JumpCondition => 12
      case JumpNoConditionFixedSize => 10
      case JumpConditionFixedSize => 12
    }

    predicate IsConditional() { JumpCondition? || JumpConditionFixedSize? }
  }

  datatype LinkType =
    | LinkInvalid | LinkJumpT1 | LinkJumpT2 | LinkJumpT3 | LinkJumpT4 | LinkConditionalJumpT4
    | LinkBX | LinkConditionalBX
  {
    function Size(): nat {
      match this
      case LinkInvalid => 0
      case LinkJumpT1 => 2
      case LinkJumpT2 => 2
      case LinkJumpT3 => 4
      case LinkJumpT4 => 4
      case LinkConditionalJumpT4 => 6
      case LinkBX => 10
      case LinkConditionalBX => 12
    }

    /** The range check that the linker of this form makes. */
    predicate CanLink(from: int, to: int) {
      match this
      case LinkJumpT1 => CanBeJumpT1(from, to)
      case LinkJumpT2 => CanBeJumpT2(from, to)
      case LinkJumpT3 => CanBeJumpT3(from, to)
      case LinkJumpT4 => CanBeJumpT4(from, to)
      case LinkConditionalJumpT4 => CanBeJumpT4(from, to)
      case _ => true
    }
  }

  function JumpSizeDelta(jump: JumpType, link: LinkType): int { jump.Size() - link.Size() }

  /** Only these may become shorter; the fixed ones are patched later. */
  predicate CanCompact(jump: JumpType) { jump == JumpNoCondition || jump == JumpCondition }

  /** The form for a jump to this target; from is just past the space left for the longest. */
  function ComputeJumpType(jump: JumpType, from: int, to: int): LinkType {
    match jump
    case JumpFixed => LinkInvalid
    case JumpNoConditionFixedSize => LinkBX
    case JumpConditionFixedSize => LinkConditionalBX
    case JumpCondition =>
      if CanBeJumpT1(from - (jump.Size() - LinkJumpT1.Size()), to) then LinkJumpT1
      else if CanBeJumpT3(from - (jump.Size() - LinkJumpT3.Size()), to) then LinkJumpT3
      else if CanBeJumpT4(from - (jump.Size() - LinkConditionalJumpT4.Size()), to) then LinkConditionalJumpT4
      else LinkConditionalBX
    case JumpNoCondition =>
      if CanBeJumpT2(from - (jump.Size() - LinkJumpT2.Size()), to) then LinkJumpT2
      else if CanBeJumpT4(from - (jump.Size() - LinkJumpT4.Size()), to) then LinkJumpT4
      else LinkBX
  }

  /** The halfwords that link writes just before from. */
  function LinkHalfwords(link: LinkType, cond: nat, from: int, to: Word): (hs: seq<Half>)
    requires cond < 16
    ensures 2 * |hs| == link.Size()
  {
    match link
    case LinkInvalid => []
    case LinkJumpT1 => [JumpT1(cond, from, to)]
    case LinkJumpT2 => [JumpT2(from, to)]
    case LinkJumpT3 => JumpT3(cond, from, to)
    case LinkJumpT4 => JumpT4(from, to)
    case LinkConditionalJumpT4 => [ItOne(cond)] + JumpT4(from, to)
    case LinkBX => LongJump(to)
    case LinkConditionalBX => [ItThree(cond)] + LongJump(to)
  }

  predicate IsConditionalLink(link: LinkType) {
    link.LinkJumpT1? || link.LinkJumpT3? || link.LinkConditionalJumpT4? || link.LinkConditionalBX?
  }

  lemma RunIt(cond: nat, mask: nat, rest: seq<Half>, address: int, ip: nat, holds: Flags)
    requires cond < 14 && 0 < mask < 16
    ensures Run([OP_IT + cond * 16 + mask] + rest, address, ip, [], holds)
            == Run(rest, address + 2, ip, Conditions(cond, mask), holds)
  {
    var hs := [OP_IT + cond * 16 + mask] + rest;
    assert hs[1..] == rest;
    ItFields(cond, mask);
    RunShort(hs, address, ip, [], holds);
  }

  lemma RunT1(cond: nat, from: int, to: int, ip: nat, holds: Flags)
    requires cond < 14 && CanBeJumpT1(from, to) && (to - from) % 2 == 0
    ensures Run([JumpT1(cond, from, to)], from - 2, ip, [], holds) == if holds(cond) then Jump(to) else Past
  {
    DecodeT1(cond, from, to);
    var h := JumpT1(cond, from, to);
    RunShort([h], from - 2, ip, [], holds);
    assert [h][1..] == [];
  }

  lemma RunT2(from: int, to: int, ip: nat, holds: Flags)
    requires CanBeJumpT2(from, to) && (to - from) % 2 == 0
    ensures Run([JumpT2(from, to)], from - 2, ip, [], holds) == Jump(to)
  {
    DecodeT2(from, to);
    RunShort([JumpT2(from, to)], from - 2, ip, [], holds);
  }

  lemma RunT3(cond: nat, from: int, to: int, ip: nat, holds: Flags)
    requires cond < 14 && CanBeJumpT3(from, to) && (to - from) % 2 == 0
    ensures Run(JumpT3(cond, from, to), from - 4, ip, [], holds) == if holds(cond) then Jump(to) else Past
  {
    DecodeT3(cond, from, to);
    var hs := JumpT3(cond, from, to);
    RunWide(hs, from - 4, ip, [], holds);
    assert hs[2..] == [];
  }

  lemma RunConditionalT4(cond: nat, from: int, to: int, ip: nat, holds: Flags)
    requires cond < 14 && CanBeJumpT4(from, to) && (to - from) % 2 == 0
    ensures Run([ItOne(cond)] + JumpT4(from, to), from - 6, ip, [], holds) == if holds(cond) then Jump(to) else Past
  {
    RunIt(cond, 8, JumpT4(from, to), from - 6, ip, holds);
    OneCondition(cond);
    RunT4(from, to, ip, [cond], cond, holds);
  }

  lemma RunConditionalLong(cond: nat, to: Word, address: int, ip: nat, holds: Flags)
    requires cond < 14 && to % 2 == 0
    ensures Run([ItThree(cond)] + LongJump(to), address, ip, [], holds) == if holds(cond) then Jump(to) else Past
  {
    RunLong(to, address + 2, ip, [cond, cond, cond], cond, holds);
    RunItThree(cond, LongJump(to), address, ip, holds);
  }

  lemma RunItThree(cond: nat, rest: seq<Half>, address: int, ip: nat, holds: Flags)
    requires cond < 14
    ensures Run([ItThree(cond)] + rest, address, ip, [], holds) == Run(rest, address + 2, ip, [cond, cond, cond], holds)
  {
    RunIt(cond, cond % 2 * 8 + cond % 2 * 4 + 2, rest, address, ip, holds);
    ThreeConditions(cond);
  }

  lemma ConditionalRuns(link: LinkType, cond: nat, from: int, to: Word, ip: nat, holds: Flags)
    requires IsConditionalLink(link) && cond < 14 && to % 2 == 0 && from % 2 == 0 && link.CanLink(from, to)
    ensures Run(LinkHalfwords(link, cond, from, to), from - link.Size(), ip, [], holds)
            == if holds(cond) then Jump(to) else Past
  {
    match link
    case LinkJumpT1 => RunT1(cond, from, to, ip, holds);
    case LinkJumpT3 => RunT3(cond, from, to, ip, holds);
    case LinkConditionalJumpT4 => RunConditionalT4(cond, from, to, ip, holds);
    case LinkConditionalBX => RunConditionalLong(cond, to, from - 12, ip, holds);
  }

  lemma UnconditionalRuns(link: LinkType, cond: nat, from: int, to: Word, ip: nat, holds: Flags)
    requires link != LinkInvalid && !IsConditionalLink(link) && cond < 16 && to % 2 == 0 && from % 2 == 0
    requires link.CanLink(from, to)
    ensures Run(LinkHalfwords(link, cond, from, to), from - link.Size(), ip, [], holds) == Jump(to)
  {
    match link
    case LinkJumpT2 => RunT2(from, to, ip, holds);
    case LinkJumpT4 => RunT4(from, to, ip, [], cond, holds);
    case LinkBX => RunLong(to, from - 10, ip, [], cond, holds);
  }

  /** Conditional forms need a condition below AL; the others ignore what they are given, which for
      unconditional jumps is ConditionInvalid (15). */
  predicate IsConditionFor(conditional: bool, cond: nat) { cond < 16 && (conditional ==> cond < 14) }

  /** Whatever form is linked within its range goes to the target under the condition. */
  lemma LinkedRuns(link: LinkType, cond: nat, from: int, to: Word, ip: nat, holds: Flags)
    requires link != LinkInvalid && IsConditionFor(IsConditionalLink(link), cond)
    requires to % 2 == 0 && from % 2 == 0 && link.CanLink(from, to)
    ensures Run(LinkHalfwords(link, cond, from, to), from - link.Size(), ip, [], holds)
            == if IsConditionalLink(link) && !holds(cond) then Past else Jump(to)
  {
    if IsConditionalLink(link) {
      ConditionalRuns(link, cond, from, to, ip, holds);
    } else {
      UnconditionalRuns(link, cond, from, to, ip, holds);
    }
  }

  /** For every jump that has a form: the form chosen passes its linker's range check where the
      shortened jump ends, and executing what is written there reaches the target under the condition. */
  lemma ComputedJumpRuns(jump: JumpType, cond: nat, from: int, to: Word, link: LinkType, end: int, ip: nat,
                         holds: Flags)
    requires jump != JumpFixed && IsConditionFor(jump.IsConditional(), cond) && to % 2 == 0 && from % 2 == 0
    requires link == ComputeJumpType(jump, from, to) && end == from - JumpSizeDelta(jump, link)
    ensures link != LinkInvalid && link.CanLink(end, to) && link.Size() <= jump.Size()
    ensures Run(LinkHalfwords(link, cond, end, to), end - link.Size(), ip, [], holds)
            == if jump.IsConditional() && !holds(cond) then Past else Jump(to)
  {
    ChosenCanLink(jump, from, to);
    LinkedRuns(link, cond, end, to, ip, holds);
  }

  lemma ChosenCanLink(jump: JumpType, from: int, to: int)
    requires jump != JumpFixed
    ensures var link := ComputeJumpType(jump, from, to);
            && link != LinkInvalid && link.CanLink(from - JumpSizeDelta(jump, link), to)
            && (IsConditionalLink(link) <==> jump.IsConditional()) && link.Size() <= jump.Size()
            && (from % 2 == 0 ==> (from - JumpSizeDelta(jump, link)) % 2 == 0)
  {
  }

  /** No shorter form of the same kind would have passed its range check; a jump of fixed size gets
      the longest. */
  lemma ChosenIsShortest(jump: JumpType, from: int, to: int, other: LinkType)
    requires jump != JumpFixed && other != LinkInvalid && (IsConditionalLink(other) <==> jump.IsConditional())
    requires other.CanLink(from - JumpSizeDelta(jump, other), to)
    ensures var link := ComputeJumpType(jump, from, to);
            if CanCompact(jump) then link.Size() <= other.Size() && (link.Size() == other.Size() ==> link == other)
            else link.Size() == jump.Size()
  {
    match other
    case LinkJumpT1 => assert CanBeJumpT1(from - JumpSizeDelta(jump, LinkJumpT1), to);
    case LinkJumpT2 => assert CanBeJumpT2(from - JumpSizeDelta(jump, LinkJumpT2), to);
    case LinkJumpT3 => assert CanBeJumpT3(from - JumpSizeDelta(jump, LinkJumpT3), to);
    case LinkJumpT4 => assert CanBeJumpT4(from - JumpSizeDelta(jump, LinkJumpT4), to);
    case LinkConditionalJumpT4 => assert CanBeJumpT4(from - JumpSizeDelta(jump, LinkConditionalJumpT4), to);
    case _ =>
  }

  /** The space left for a jump is that of the longest form of its kind. */
  lemma SpaceIsLongest(jump: JumpType, cond: nat, from: int, to: Word)
    requires jump != JumpFixed && cond < 16
    ensures var longest := if jump.IsConditional() then LinkConditionalBX else LinkBX;
            && jump.Size() == 2 * |LinkHalfwords(longest, cond, from, to)| && longest.CanLink(from, to)
            && (!CanCompact(jump) ==> ComputeJumpType(jump, from, to) == longest)
  {
  }

  // --- linkJumpAbsolute: a five-halfword site, rewritten any number of times

  predicate IsMovImmT3(h1: Half, h2: Half) { MoveOp(h1) * 16 == OP_MOV_IMM_T3 && h2 / 32768 == 0 }

  predicate IsMovT(h1: Half, h2: Half) { MoveOp(h1) * 16 == OP_MOVT && h2 / 32768 == 0 }

  predicate IsBX(h: Half) { h / 128 == 0x8e && h % 8 == 0 }

  predicate IsB(h1: Half, h2: Half) {
    h1 / 2048 == 0x1e && h2 / 32768 == 1 && h2 / 16384 % 2 == 0 && h2 / 4096 % 2 == 1
  }

  /** One of the two shapes that relinking accepts. */
  predicate IsSite(hs: seq<Half>) {
    && |hs| == 5
    && (|| (IsMovImmT3(hs[0], hs[1]) && IsMovT(hs[2], hs[3]) && IsBX(hs[4]))
        || (hs[0] == OP_NOP_T1 && hs[1] == OP_NOP_T2A && hs[2] == OP_NOP_T2B && IsB(hs[3], hs[4])))
  }

  function AbsoluteJump(from: int, to: Word): seq<Half> {
    if CanBeJumpT4(from, to) then [OP_NOP_T1, OP_NOP_T2A, OP_NOP_T2B] + JumpT4(from, to) else LongJump(to)
  }

  lemma T4IsB(from: int, to: int)
    ensures var hs := JumpT4(from, to); IsB(hs[0], hs[1])
  {
    var r := (to - from) % 0x200_0000;
    FirstT4(r / 0x100_0000, r / 0x1000 % 1024);
    T4SecondIsB(Flipped(r / 0x80_0000 % 2, to - from >= 0), Flipped(r / 0x40_0000 % 2, to - from >= 0), r / 2 % 2048);
  }

  lemma T4SecondIsB(high: nat, low: nat, imm11: nat)
    requires high < 2 && low < 2 && imm11 < 2048
    ensures var h := OP_B_T4b + high * 8192 + low * 2048 + imm11;
            h / 32768 == 1 && h / 16384 % 2 == 0 && h / 4096 % 2 == 1
  {
  }

  lemma AbsoluteIsSite(from: int, to: Word)
    ensures IsSite(AbsoluteJump(from, to))
  {
    if CanBeJumpT4(from, to) {
      T4IsB(from, to);
      ShortIsSite(JumpT4(from, to));
    } else {
      LongIsSite(to);
    }
  }

  lemma ShortIsSite(b: seq<Half>)
    requires |b| == 2 && IsB(b[0], b[1])
    ensures IsSite([OP_NOP_T1, OP_NOP_T2A, OP_NOP_T2B] + b)
  {
  }

  lemma LongIsSite(to: Word)
    ensures IsSite(LongJump(to))
  {
    MoveIsMove(OP_MOV_IMM_T3, (to + 1) % 0x1_0000);
    MoveIsMove(OP_MOVT, to / 0x1_0000);
    MovesAreSite(LongJump(to));
  }

  lemma MovesAreSite(hs: seq<Half>)
    requires |hs| == 5 && IsMovImmT3(hs[0], hs[1]) && IsMovT(hs[2], hs[3]) && hs[4] == OP_BX + IP * 8
    ensures IsSite(hs)
  {
  }

  lemma MoveIsMove(op: nat, imm16: nat)
    requires (op == OP_MOV_IMM_T3 || op == OP_MOVT) && imm16 < 0x1_0000
    ensures op == OP_MOV_IMM_T3 ==> IsMovImmT3(MoveFirst(op, imm16), MoveSecond(IP, imm16))
    ensures op == OP_MOVT ==> IsMovT(MoveFirst(op, imm16), MoveSecond(IP, imm16))
  {
    MoveFields(op, IP, imm16);
  }

  /** The padding is two instructions. */
  lemma RunNops(rest: seq<Half>, address: int, ip: nat, it: seq<nat>, holds: Flags)
    requires it == [] || |it| == 3
    ensures Run([OP_NOP_T1, OP_NOP_T2A, OP_NOP_T2B] + rest, address, ip, it, holds)
            == Run(rest, address + 6, ip, if it == [] then [] else [it[2]], holds)
  {
    var hs := [OP_NOP_T1, OP_NOP_T2A, OP_NOP_T2B] + rest;
    RunShort(hs, address, ip, it, holds);
    assert hs[1..] == [OP_NOP_T2A, OP_NOP_T2B] + rest;
    RunWide(hs[1..], address + 2, ip, if it == [] then [] else it[1..], holds);
    assert hs[1..][2..] == rest;
    if it != [] {
      assert it[1..][1..] == [it[2]];
    }
  }

  /** The site goes to the target, also as the three instructions of an enclosing block. */
  lemma AbsoluteRuns(from: int, to: Word, ip: nat, it: seq<nat>, cond: nat, holds: Flags)
    requires from % 2 == 0 && to % 2 == 0 && IsBlock(it, 3, cond)
    ensures Run(AbsoluteJump(from, to), from - 10, ip, it, holds) == if it == [] || holds(cond) then Jump(to) else Past
  {
    if CanBeJumpT4(from, to) {
      AbsoluteShortRuns(from, to, JumpT4(from, to), ip, it, cond, holds);
    } else {
      RunLong(to, from - 10, ip, it, cond, holds);
    }
  }

  lemma AbsoluteShortRuns(from: int, to: Word, b: seq<Half>, ip: nat, it: seq<nat>, cond: nat, holds: Flags)
    requires from % 2 == 0 && to % 2 == 0 && IsBlock(it, 3, cond) && CanBeJumpT4(from, to) && b == JumpT4(from, to)
    ensures Run([OP_NOP_T1, OP_NOP_T2A, OP_NOP_T2B] + b, from - 10, ip, it, holds)
            == if it == [] || holds(cond) then Jump(to) else Past
  {
    EvenDistance(from, to);
    RunNops(b, from - 10, ip, it, holds);
    LastOfBlock(it, cond);
    var last := if it == [] then [] else [it[2]];
    RunT4(from, to, ip, last, cond, holds);
    assert from - 10 + 6 == from - 4;
  }

  lemma EvenDistance(from: int, to: int)
    requires from % 2 == 0 && to % 2 == 0
    ensures (to - from) % 2 == 0
  {
    var a, b := from / 2, to / 2;
    assert from == 2 * a && to == 2 * b;
    assert to - from == 2 * (b - a);
  }

  lemma LastOfBlock(it: seq<nat>, cond: nat)
    requires IsBlock(it, 3, cond)
    ensures it == [] || |it| == 3
    ensures IsBlock(if it == [] then [] else [it[2]], 1, cond)
  {
  }

  /** A run of relinks; each may only be made of a recognised site. */
  function RelinkAll(site: seq<Half>, from: int, targets: seq<Word>): (hs: seq<Half>)
    requires IsSite(site)
    ensures IsSite(hs)
    decreases |targets|
  {
    if targets == [] then site
    else
      AbsoluteIsSite(from, targets[0]);
      RelinkAll(AbsoluteJump(from, targets[0]), from, targets[1..])
  }

  /** After any run the site reaches the latest target, so no earlier one leaves a trace. */
  lemma {:induction false} RelinkAllRuns(site: seq<Half>, from: int, targets: seq<Word>, ip: nat, it: seq<nat>,
                                         cond: nat, holds: Flags)
    requires IsSite(site) && |targets| > 0 && from % 2 == 0 && IsBlock(it, 3, cond)
    requires targets[|targets| - 1] % 2 == 0
    ensures Run(RelinkAll(site, from, targets), from - 10, ip, it, holds)
            == if it == [] || holds(cond) then Jump(targets[|targets| - 1]) else Past
    decreases |targets|
  {
    AbsoluteIsSite(from, targets[0]);
    if |targets| == 1 {
      assert targets[1..] == [];
      AbsoluteRuns(from, targets[0], ip, it, cond, holds);
    } else {
      RelinkAllRuns(AbsoluteJump(from, targets[0]), from, targets[1..], ip, it, cond, holds);
    }
  }

  // --- setInt32 and readInt32

  /** The register field of the second halfword of a move. */
  function RdOf(h: Half): nat { h / 256 % 16 }

  function SetInt32(hs: seq<Half>, value: Word): seq<Half>
    requires |hs| == 4
  {
    [MoveFirst(OP_MOV_IMM_T3, value % 0x1_0000), MoveSecond(RdOf(hs[1]), value % 0x1_0000),
     MoveFirst(OP_MOVT, value / 0x1_0000), MoveSecond(RdOf(hs[3]), value / 0x1_0000)]
  }

  function ReadInt32(hs: seq<Half>): nat
    requires |hs| == 4
  {
    Imm16(hs[2], hs[3]) * 0x1_0000 + Imm16(hs[0], hs[1])
  }

  /** What was set is read back; the words stay the two moves they were, to the same registers. */
  lemma SetThenRead(hs: seq<Half>, value: Word)
    requires |hs| == 4
    ensures var after := SetInt32(hs, value);
            && ReadInt32(after) == value && IsMovImmT3(after[0], after[1]) && IsMovT(after[2], after[3])
            && RdOf(after[1]) == RdOf(hs[1]) && RdOf(after[3]) == RdOf(hs[3])
  {
    MoveImm16(OP_MOV_IMM_T3, RdOf(hs[1]), value % 0x1_0000);
    MoveImm16(OP_MOVT, RdOf(hs[3]), value / 0x1_0000);
    MoveFields(OP_MOV_IMM_T3, RdOf(hs[1]), value % 0x1_0000);
    MoveFields(OP_MOVT, RdOf(hs[3]), value / 0x1_0000);
  }

  /** And executing it does what reading it says: with the scratch register in both, that holds the value. */
  lemma SetThenRun(hs: seq<Half>, value: Word, rest: seq<Half>, address: int, ip: nat, holds: Flags)
    requires |hs| == 4 && RdOf(hs[1]) == IP && RdOf(hs[3]) == IP
    ensures Run(SetInt32(hs, value) + rest, address, ip, [], holds) == Run(rest, address + 8, value, [], holds)
  {
    var first, second := SetMoves(hs, value);
    var low, high := value % 0x1_0000, value / 0x1_0000;
    WordHalves(value, low, high);
    RunMoves(SetInt32(hs, value) + rest, first, second, low, high, rest, address, ip, holds);
  }

  function Joined(high: nat, low: nat): nat { high * 0x1_0000 + low }

  lemma WordHalves(value: Word, low: nat, high: nat)
    requires low == value % 0x1_0000 && high == value / 0x1_0000
    ensures Joined(high, low) == value && low < 0x1_0000 && high < 0x1_0000
  {
  }

  lemma RunMoves(all: seq<Half>, first: seq<Half>, second: seq<Half>, low: nat, high: nat, rest: seq<Half>,
                 address: int, ip: nat, holds: Flags)
    requires low < 0x1_0000 && high < 0x1_0000 && all == first + second + rest
    requires IsMove(first, OP_MOV_IMM_T3, low) && IsMove(second, OP_MOVT, high)
    ensures Run(all, address, ip, [], holds) == Run(rest, address + 8, Joined(high, low), [], holds)
  {
    var half := second + rest;
    assert all == first + half;
    RunMoveOnly(OP_MOV_IMM_T3, low, first, half, address, ip, holds);
    RunHighMove(high, low, second, rest, address + 4, holds);
  }

  lemma RunHighMove(high: nat, low: nat, move: seq<Half>, rest: seq<Half>, address: int, holds: Flags)
    requires low < 0x1_0000 && high < 0x1_0000 && IsMove(move, OP_MOVT, high)
    ensures Run(move + rest, address, low, [], holds) == Run(rest, address + 4, Joined(high, low), [], holds)
  {
    KeptLow(low);
    RunMoveOnly(OP_MOVT, high, move, rest, address, low, holds);
  }

  lemma KeptLow(low: nat)
    requires low < 0x1_0000
    ensures low % 0x1_0000 == low
  {
  }

  predicate IsMove(hs: seq<Half>, op: nat, imm16: nat)
    requires (op == OP_MOV_IMM_T3 || op == OP_MOVT) && imm16 < 0x1_0000
  {
    hs == [MoveFirst(op, imm16), MoveSecond(IP, imm16)]
  }

  lemma SetMoves(hs: seq<Half>, value: Word) returns (first: seq<Half>, second: seq<Half>)
    requires |hs| == 4 && RdOf(hs[1]) == IP && RdOf(hs[3]) == IP
    ensures SetInt32(hs, value) == first + second
    ensures IsMove(first, OP_MOV_IMM_T3, value % 0x1_0000) && IsMove(second, OP_MOVT, value / 0x1_0000)
  {
    first, second := SetInt32(hs, value)[..2], SetInt32(hs, value)[2..];
  }

  lemma RunMoveOnly(op: nat, imm16: nat, move: seq<Half>, rest: seq<Half>, address: int, ip: nat, holds: Flags)
    requires (op == OP_MOV_IMM_T3 || op == OP_MOVT) && imm16 < 0x1_0000 && IsMove(move, op, imm16)
    ensures Run(move + rest, address, ip, [], holds)
            == Run(rest, address + 4, if op == OP_MOVT then Joined(imm16, ip % 0x1_0000) else imm16, [], holds)
  {
    RunMove(op, imm16, rest, address, ip, [], 1, 0, holds);
  }

  // --- the same, writing the code in place; halfword k of the code is at address 2 * k

  function Written(code: seq<Half>, start: nat, hs: seq<Half>): seq<Half>
    requires start + |hs| <= |code|
  {
    code[..start] + hs + code[start + |hs|..]
  }

  method Write(code: array<Half>, start: nat, hs: seq<Half>)
    requires start + |hs| <= code.Length
    modifies code
    ensures code[..] == Written(old(code[..]), start, hs)
  {
    var k := 0;
    while k < |hs|
      invariant 0 <= k <= |hs|
      invariant forall i :: 0 <= i < code.Length ==>
        code[i] == if start <= i < start + k then hs[i - start] else old(code[i])
    {
      code[start + k] := hs[k];
      k := k + 1;
    }
  }

  /** Executing the halfwords from this address goes to the target, if they are a conditional form only
      under the condition, whatever the scratch register holds. */
  ghost predicate GoesTo(hs: seq<Half>, address: int, conditional: bool, cond: nat, to: Word) {
    forall ip: nat, holds: Flags :: GoesToFrom(hs, address, ip, holds, conditional, cond, to)
  }

  predicate GoesToFrom(hs: seq<Half>, address: int, ip: nat, holds: Flags, conditional: bool, cond: nat, to: Word) {
    Run(hs, address, ip, [], holds) == if conditional && !holds(cond) then Past else Jump(to)
  }

  lemma LinkedGoesTo(hs: seq<Half>, start: int, link: LinkType, cond: nat, from: int, to: Word)
    requires link != LinkInvalid && IsConditionFor(IsConditionalLink(link), cond)
    requires to % 2 == 0 && from % 2 == 0 && link.CanLink(from, to)
    requires hs == LinkHalfwords(link, cond, from, to) && start == from - link.Size()
    ensures GoesTo(hs, start, IsConditionalLink(link), cond, to)
  {
    var conditional := IsConditionalLink(link);
    forall ip: nat, holds: Flags ensures GoesToFrom(hs, start, ip, holds, conditional, cond, to) {
      LinkedRuns(link, cond, from, to, ip, holds);
    }
  }

  lemma WrittenThere(code: seq<Half>, start: nat, hs: seq<Half>)
    requires start + |hs| <= |code|
    ensures Written(code, start, hs)[start..start + |hs|] == hs
  {
  }

  /** link: the halfwords just before index at, which go to the target; no other halfword changes. */
  method Link(code: array<Half>, link: LinkType, cond: nat, at: nat, to: Word)
    requires link != LinkInvalid && cond < 16 && link.Size() / 2 <= at <= code.Length
    requires link.CanLink(2 * at, to)
    modifies code
    ensures code[..] == Written(old(code[..]), at - link.Size() / 2, LinkHalfwords(link, cond, 2 * at, to))
    ensures IsConditionFor(IsConditionalLink(link), cond) && to % 2 == 0 ==>
              GoesTo(code[at - link.Size() / 2..at], 2 * at - link.Size(), IsConditionalLink(link), cond, to)
  {
    var hs := LinkHalfwords(link, cond, 2 * at, to);
    LinkGoesTo(hs, link, cond, at, to);
    WriteJump(code, at, link.Size() / 2, hs, 2 * at - link.Size(), IsConditionalLink(link), cond, to);
  }

  method WriteJump(code: array<Half>, at: nat, size: nat, hs: seq<Half>, ghost start: int, ghost conditional: bool,
                   ghost cond: nat, ghost to: Word)
    requires |hs| == size <= at <= code.Length
    modifies code
    ensures code[..] == Written(old(code[..]), at - size, hs)
    ensures GoesTo(hs, start, conditional, cond, to) ==> GoesTo(code[at - size..at], start, conditional, cond, to)
  {
    WriteBefore(code, at, size, hs);
  }

  lemma LinkGoesTo(hs: seq<Half>, link: LinkType, cond: nat, at: nat, to: Word)
    requires link != LinkInvalid && cond < 16 && link.CanLink(2 * at, to) && hs == LinkHalfwords(link, cond, 2 * at, to)
    ensures IsConditionFor(IsConditionalLink(link), cond) && to % 2 == 0 ==>
              GoesTo(hs, 2 * at - link.Size(), IsConditionalLink(link), cond, to)
  {
    if IsConditionFor(IsConditionalLink(link), cond) && to % 2 == 0 {
      LinkedGoesTo(hs, 2 * at - link.Size(), link, cond, 2 * at, to);
    }
  }

  method WriteBefore(code: array<Half>, at: nat, size: nat, hs: seq<Half>)
    requires |hs| == size <= at <= code.Length
    modifies code
    ensures code[..] == Written(old(code[..]), at - size, hs) && code[at - size..at] == hs
  {
    WrittenThere(code[..], at - size, hs);
    Write(code, at - size, hs);
    assert code[at - size..at] == code[..][at - size..at];
  }

  /** linkJumpAbsolute, given the index just behind its site. */
  method LinkJumpAbsolute(code: array<Half>, at: nat, to: Word)
    requires 5 <= at <= code.Length && IsSite(code[at - 5..at])
    modifies code
    ensures code[..] == Written(old(code[..]), at - 5, AbsoluteJump(2 * at, to))
    ensures IsSite(code[at - 5..at])
  {
    if CanBeJumpT4(2 * at, to) {
      PadAndWrite(code, at, JumpT4(2 * at, to));
    } else {
      WriteBefore(code, at, 5, LongJump(to));
    }
    AbsoluteIsSite(2 * at, to);
  }

  /** Nops first, so that the site stays three instructions long. */
  method PadAndWrite(code: array<Half>, at: nat, b: seq<Half>)
    requires 5 <= at <= code.Length && |b| == 2
    modifies code
    ensures var hs := [OP_NOP_T1, OP_NOP_T2A, OP_NOP_T2B] + b;
            code[..] == Written(old(code[..]), at - 5, hs) && code[at - 5..at] == hs
  {
    WrittenTwice(code[..], at - 5, [OP_NOP_T1, OP_NOP_T2A, OP_NOP_T2B], b);
    WrittenThere(code[..], at - 5, [OP_NOP_T1, OP_NOP_T2A, OP_NOP_T2B] + b);
    WriteNops(code, at - 5);
    Write(code, at - 2, b);
    assert code[at - 5..at] == code[..][at - 5..at];
  }

  method WriteNops(code: array<Half>, start: nat)
    requires start + 3 <= code.Length
    modifies code
    ensures code[..] == Written(old(code[..]), start, [OP_NOP_T1, OP_NOP_T2A, OP_NOP_T2B])
  {
    code[start] := OP_NOP_T1;
    code[start + 1] := OP_NOP_T2A;
    code[start + 2] := OP_NOP_T2B;
  }

  lemma WrittenTwice(code: seq<Half>, start: nat, hs: seq<Half>, ks: seq<Half>)
    requires start + |hs| + |ks| <= |code|
    ensures Written(Written(code, start, hs), start + |hs|, ks) == Written(code, start, hs + ks)
  {
  }
}
