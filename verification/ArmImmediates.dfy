/** Immediate operands of ARMAssembler: getOp2 and the two-instruction search of genInt. */
module ArmImmediates {
  import opened ArmMachine

  const INVALID_IMMEDIATE: bv32 := 0xf000_0000

  // --- rotations by an even amount

  lemma {:induction false} TurnSum(x: bv32, r: nat, k: nat)
    ensures Turn(Turn(x, r), k) == Turn(x, r + k)
    decreases k
  {
    if k > 0 {
      TurnSum(x, r, k - 1);
    }
  }

  lemma RotateOr(x: bv32, y: bv32)
    ensures RotateTwoBits(x | y) == RotateTwoBits(x) | RotateTwoBits(y)
  {
  }

  lemma RotateAnd(x: bv32, y: bv32)
    ensures RotateTwoBits(x & y) == RotateTwoBits(x) & RotateTwoBits(y)
  {
  }

  lemma RotateZero(x: bv32)
    ensures RotateTwoBits(x) == 0 <==> x == 0
  {
  }

  lemma {:induction false} TurnOr(x: bv32, y: bv32, k: nat)
    ensures Turn(x | y, k) == Turn(x, k) | Turn(y, k)
  {
    if k > 0 {
      TurnOr(x, y, k - 1);
      TurnOrOnce(x | y, x, y, k);
    }
  }

  lemma TurnOrOnce(z: bv32, x: bv32, y: bv32, k: nat)
    requires k > 0 && Turn(z, k - 1) == Turn(x, k - 1) | Turn(y, k - 1)
    ensures Turn(z, k) == Turn(x, k) | Turn(y, k)
  {
    RotateOr(Turn(x, k - 1), Turn(y, k - 1));
  }

  lemma {:induction false} TurnAnd(x: bv32, y: bv32, k: nat)
    ensures Turn(x & y, k) == Turn(x, k) & Turn(y, k)
  {
    if k > 0 {
      TurnAnd(x, y, k - 1);
      RotateAnd(Turn(x, k - 1), Turn(y, k - 1));
    }
  }

  lemma {:induction false} TurnZero(x: bv32, k: nat)
    ensures Turn(x, k) == 0 <==> x == 0
  {
    if k > 0 {
      TurnZero(x, k - 1);
      RotateZero(Turn(x, k - 1));
    }
  }

  lemma Turn4(x: bv32)
    ensures Turn(x, 4) == (x >> 8) | (x << 24)
  {
    assert Turn(x, 1) == RotateTwoBits(x);
    assert Turn(x, 2) == RotateTwoBits(Turn(x, 1));
    assert Turn(x, 3) == RotateTwoBits(Turn(x, 2));
  }

  lemma Turn16(x: bv32)
    ensures Turn(x, 16) == x
  {
    Turn8(x);
    Turn8(Turn(x, 8));
    TurnSum(x, 8, 8);
  }

  lemma Turn8(x: bv32)
    ensures Turn(x, 8) == (x >> 16) | (x << 16)
  {
    Turn4(x);
    Turn4(Turn(x, 4));
    TurnSum(x, 4, 4);
  }

  lemma {:induction false} TurnMod(x: bv32, n: nat)
    ensures Turn(x, n) == Turn(x, n % 16)
  {
    if n >= 16 {
      TurnMod(x, n - 16);
      TurnSum(x, 16, n - 16);
      Turn16(x);
    }
  }

  lemma UInt4Add(f: bv32)
    ensures UInt4(f + 1) == (UInt4(f) + 1) % 16 && UInt4(f + 2) == (UInt4(f) + 2) % 16
    ensures UInt4(f + 4) == (UInt4(f) + 4) % 16
    ensures UInt4(f & 0xf) == UInt4(f)
  {
  }

  // --- following a value while it is shifted up

  /** value is imm rotated right by (rol - 4) times two bits: a byte at the top of imm is described
      by the rotation field rol. */
  predicate Tracks(value: bv32, imm: bv32, rol: bv32) {
    value == Turn(imm, UInt4(rol) + 12)
  }

  /** The step common to all shifts: x is y rotated right k times. */
  lemma TracksOn(value: bv32, x: bv32, rol: bv32, y: bv32, next: bv32, k: nat)
    requires Tracks(value, x, rol) && x == Turn(y, k)
    requires UInt4(next) == (UInt4(rol) + k) % 16
    ensures Tracks(value, y, next)
  {
    TurnOn(y, k, UInt4(rol), UInt4(next));
  }

  lemma TurnOn(y: bv32, k: nat, u: nat, n: nat)
    requires n == (u + k) % 16
    ensures Turn(Turn(y, k), u + 12) == Turn(y, n + 12)
  {
    TurnSum(y, k, u + 12);
    SameField(k, u, n);
    TurnSame(y, k + u + 12, n + 12);
  }

  lemma SameField(k: nat, u: nat, n: nat)
    requires n == (u + k) % 16
    ensures (k + u + 12) % 16 == (n + 12) % 16
  {
  }

  lemma TurnSame(y: bv32, m: nat, n: nat)
    requires m % 16 == n % 16
    ensures Turn(y, m) == Turn(y, n)
  {
    TurnMod(y, m);
    TurnMod(y, n);
  }

  lemma UpByte(value: bv32, x: bv32, rol: bv32)
    requires Tracks(value, x, rol) && x & 0xff00_0000 == 0
    ensures Tracks(value, x << 8, rol + 4)
  {
    Turn4(x << 8);
    UInt4Add(rol);
    ShiftBack(x);
    TracksOn(value, x, rol, x << 8, rol + 4, 4);
  }

  lemma ShiftBack(x: bv32)
    ensures x & 0xff00_0000 == 0 ==> x == (x << 8 >> 8) | (x << 8 << 24)
    ensures x & 0xf000_0000 == 0 ==> x == RotateTwoBits(RotateTwoBits(x << 4))
    ensures x & 0xc000_0000 == 0 ==> x == RotateTwoBits(x << 2)
  {
  }

  lemma UpNibble(value: bv32, x: bv32, rol: bv32)
    requires Tracks(value, x, rol) && x & 0xf000_0000 == 0
    ensures Tracks(value, x << 4, rol + 2)
  {
    UInt4Add(rol);
    ShiftBack(x);
    assert Turn(x << 4, 1) == RotateTwoBits(x << 4);
    TracksOn(value, x, rol, x << 4, rol + 2, 2);
  }

  lemma UpPair(value: bv32, x: bv32, rol: bv32)
    requires Tracks(value, x, rol) && x & 0xc000_0000 == 0
    ensures Tracks(value, x << 2, rol + 1)
  {
    UInt4Add(rol);
    ShiftBack(x);
    TracksOn(value, x, rol, x << 2, rol + 1, 1);
  }

  // --- operands

  predicate IsOp2(op2: bv32) { op2 & 0xffff_f000 == OP2_IMMEDIATE }

  function Op2Value(op2: bv32): bv32 { ExpandImm(op2 & 0xfff) }

  function Op2Word(byte: bv32, rol: bv32): bv32 { OP2_IMMEDIATE | byte | ((rol & 0xf) << 8) }

  /** An operand that stands for this value. */
  predicate Gives(op2: bv32, value: bv32) { IsOp2(op2) && Op2Value(op2) == value }

  lemma Op2Fields(byte: bv32, rol: bv32)
    requires byte <= 0xff
    ensures var op2 := Op2Word(byte, rol);
            IsOp2(op2) && op2 & 0xfff & 0xff == byte && (op2 & 0xfff) >> 8 == rol & 0xf
  {
  }

  lemma Op2Expands(byte: bv32, rol: bv32)
    requires byte <= 0xff
    ensures IsOp2(Op2Word(byte, rol)) && Op2Value(Op2Word(byte, rol)) == Turn(byte, UInt4(rol))
  {
    Op2Fields(byte, rol);
    UInt4Add(rol);
  }

  lemma TopByte(x: bv32)
    requires x & 0x00ff_ffff == 0
    ensures x >> 24 <= 0xff && x == Turn(x >> 24, 4)
  {
    Turn4(x >> 24);
  }

  lemma TopByteOp2(value: bv32, imm: bv32, rol: bv32)
    requires Tracks(value, imm, rol) && imm & 0x00ff_ffff == 0
    ensures IsOp2(Op2Word(imm >> 24, rol)) && Op2Value(Op2Word(imm >> 24, rol)) == value
  {
    TopByte(imm);
    Op2Expands(imm >> 24, rol);
    TurnSum(imm >> 24, 4, UInt4(rol) + 12);
    TurnMod(imm >> 24, UInt4(rol) + 16);
  }

  // --- windows of eight neighbouring bits

  function Window(n: nat): bv32 { Turn(0xff, n) }

  lemma Windows()
    ensures Window(0) == 0x0000_00ff && Window(1) == 0xc000_003f && Window(2) == 0xf000_000f && Window(3) == 0xfc00_0003
    ensures Window(4) == 0xff00_0000 && Window(5) == 0x3fc0_0000 && Window(6) == 0x0ff0_0000 && Window(7) == 0x03fc_0000
    ensures Window(8) == 0x00ff_0000 && Window(9) == 0x003f_c000 && Window(10) == 0x000f_f000
    ensures Window(11) == 0x0003_fc00 && Window(12) == 0x0000_ff00 && Window(13) == 0x0000_3fc0
    ensures Window(14) == 0x0000_0ff0 && Window(15) == 0x0000_03fc
  {
  }

  predicate IsWindow(w: bv32) {
    || w == 0x0000_00ff || w == 0xc000_003f || w == 0xf000_000f || w == 0xfc00_0003
    || w == 0xff00_0000 || w == 0x3fc0_0000 || w == 0x0ff0_0000 || w == 0x03fc_0000
    || w == 0x00ff_0000 || w == 0x003f_c000 || w == 0x000f_f000 || w == 0x0003_fc00
    || w == 0x0000_ff00 || w == 0x0000_3fc0 || w == 0x0000_0ff0 || w == 0x0000_03fc
  }

  lemma WindowIsWindow(n: nat)
    ensures IsWindow(Window(n))
  {
    TurnMod(0xff, n);
    Windows();
  }

  lemma Confined(byte: bv32, n: nat)
    requires byte <= 0xff
    ensures Turn(byte, n) & Window(n) == Turn(byte, n)
  {
    ByteBits(byte);
    TurnWithin(byte, 0xff, n);
  }

  lemma TurnWithin(x: bv32, w: bv32, n: nat)
    requires x & w == x
    ensures Turn(x, n) & Turn(w, n) == Turn(x, n)
  {
    TurnAnd(x, w, n);
  }

  lemma ByteBits(byte: bv32)
    ensures byte <= 0xff ==> byte & 0xff == byte
  {
  }

  function N8(x: bv32): bv32 { if x & 0xff00_0000 == 0 then x << 8 else x }

  function N4(x: bv32): bv32 { if x & 0xf000_0000 == 0 then x << 4 else x }

  function N2(x: bv32): bv32 { if x & 0xc000_0000 == 0 then x << 2 else x }

  function R8(x: bv32, rol: bv32): bv32 { if x & 0xff00_0000 == 0 then rol + 4 else rol }

  function R4(x: bv32, rol: bv32): bv32 { if x & 0xf000_0000 == 0 then rol + 2 else rol }

  function R2(x: bv32, rol: bv32): bv32 { if x & 0xc000_0000 == 0 then rol + 1 else rol }

  lemma RolFits(x: bv32, y: bv32, z: bv32, rol: bv32)
    requires rol == 0 || rol == 8
    ensures R2(z, R4(y, R8(x, rol))) <= 15
  {
  }

  // --- getOp2

  function Start(value: bv32): bv32 {
    if value & 0xff00_0000 == 0 then value << 8 else (value << 24) | (value >> 8)
  }

  lemma OneWindow(value: bv32, w: bv32)
    requires IsWindow(w) && value & w == value && value > 0xff
    ensures N2(N4(N8(Start(value)))) & 0x00ff_ffff == 0
  {
  }

  lemma StartTracks(value: bv32, imm: bv32, rol: bv32)
    requires imm == Start(value) && rol == if value & 0xff00_0000 == 0 then 8 else 0
    ensures Tracks(value, imm, rol)
  {
    Turn4(value);
    TurnSum(value, 4, 12);
    Turn16(value);
    if value & 0xff00_0000 == 0 {
      UpByte(value, value, 4);
    }
  }

  lemma NoOp2(value: bv32)
    requires value > 0xff && N2(N4(N8(Start(value)))) & 0x00ff_ffff != 0
    ensures forall i: bv32 :: ExpandImm(i) != value
  {
    forall i: bv32 ensures ExpandImm(i) != value {
      var n := UInt4(i >> 8);
      Confined(i & 0xff, n);
      WindowIsWindow(n);
      if ExpandImm(i) == value {
        OneWindow(value, Window(n));
      }
    }
  }

  /** Returns an operand exactly when the value is an 8-bit constant rotated by an even amount. */
  method GetOp2(value: bv32) returns (op2: bv32)
    ensures op2 != INVALID_IMMEDIATE ==> IsOp2(op2) && Op2Value(op2) == value
    ensures op2 == INVALID_IMMEDIATE ==> forall i: bv32 :: ExpandImm(i) != value
  {
    if value <= 0xff {
      SmallOp2(value);
      return OP2_IMMEDIATE | value;
    }
    var imm, rol := FirstShift(value);
    RolFits(imm, N8(imm), N4(N8(imm)), rol);
    imm, rol := RaiseByte(value, imm, rol);
    op2 := PlainOp2(value, imm, rol);
    if op2 == INVALID_IMMEDIATE {
      NoOp2(value);
    }
  }

  method FirstShift(value: bv32) returns (imm: bv32, rol: bv32)
    ensures imm == Start(value) && (rol == 0 || rol == 8) && Tracks(value, imm, rol)
  {
    if value & 0xff00_0000 == 0 {
      imm := value << 8;
      rol := 8;
    } else {
      imm := (value << 24) | (value >> 8);
      rol := 0;
    }
    StartTracks(value, imm, rol);
  }

  method PlainOp2(ghost value: bv32, imm: bv32, rol: bv32) returns (op2: bv32)
    requires Tracks(value, imm, rol) && rol <= 15
    ensures op2 != INVALID_IMMEDIATE ==> IsOp2(op2) && Op2Value(op2) == value
    ensures op2 == INVALID_IMMEDIATE <==> imm & 0x00ff_ffff != 0
  {
    if imm & 0x00ff_ffff == 0 {
      TopByteOp2(value, imm, rol);
      FieldFits(imm >> 24, rol);
      return OP2_IMMEDIATE | (imm >> 24) | (rol << 8);
    }
    return INVALID_IMMEDIATE;
  }

  lemma SmallOp2(imm: bv32)
    requires imm <= 0xff
    ensures IsOp2(OP2_IMMEDIATE | imm) && Op2Value(OP2_IMMEDIATE | imm) == imm
    ensures OP2_IMMEDIATE | imm != INVALID_IMMEDIATE
  {
    Op2Expands(imm, 0);
    assert Op2Word(imm, 0) == OP2_IMMEDIATE | imm;
  }

  lemma FieldFits(byte: bv32, rol: bv32)
    requires rol <= 15
    ensures Op2Word(byte, rol) == OP2_IMMEDIATE | byte | (rol << 8)
    ensures byte <= 0xff ==> OP2_IMMEDIATE | byte | (rol << 8) != INVALID_IMMEDIATE
  {
  }

  /** Shift the leading bits of imm0 to the top, by up to seven places of two bits. */
  method RaiseByte(ghost value: bv32, imm0: bv32, rol0: bv32) returns (imm: bv32, rol: bv32)
    requires Tracks(value, imm0, rol0)
    ensures imm == N2(N4(N8(imm0))) && Tracks(value, imm, rol)
    ensures rol == R2(N4(N8(imm0)), R4(N8(imm0), R8(imm0, rol0)))
  {
    imm, rol := imm0, rol0;
    if imm & 0xff00_0000 == 0 {
      UpByte(value, imm, rol);
      imm := imm << 8;
      rol := rol + 4;
    }
    imm, rol := Raise(value, imm, rol);
  }

  method Raise(ghost value: bv32, imm0: bv32, rol0: bv32) returns (imm: bv32, rol: bv32)
    requires Tracks(value, imm0, rol0)
    ensures imm == N2(N4(imm0)) && Tracks(value, imm, rol)
    ensures rol == R2(N4(imm0), R4(imm0, rol0))
  {
    imm, rol := RaiseNibble(value, imm0, rol0);
    imm, rol := RaisePair(value, imm, rol);
  }

  method RaiseNibble(ghost value: bv32, imm0: bv32, rol0: bv32) returns (imm: bv32, rol: bv32)
    requires Tracks(value, imm0, rol0)
    ensures imm == N4(imm0) && rol == R4(imm0, rol0) && Tracks(value, imm, rol)
  {
    if imm0 & 0xf000_0000 == 0 {
      UpNibble(value, imm0, rol0);
      return imm0 << 4, rol0 + 2;
    }
    return imm0, rol0;
  }

  method RaisePair(ghost value: bv32, imm0: bv32, rol0: bv32) returns (imm: bv32, rol: bv32)
    requires Tracks(value, imm0, rol0)
    ensures imm == N2(imm0) && rol == R2(imm0, rol0) && Tracks(value, imm, rol)
  {
    if imm0 & 0xc000_0000 == 0 {
      UpPair(value, imm0, rol0);
      return imm0 << 2, rol0 + 1;
    }
    return imm0, rol0;
  }
}
