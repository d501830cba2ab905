/** ARMThumbImmediate of ARMv7Assembler against ThumbExpandImm (section A6.3.2 of the ARMv7-A/R
    Architecture Reference Manual). */
module ThumbImmediates {
  import opened BaseTypes

  // --- shifts, one place at a time

  function ShiftLeft(x: nat, k: nat): nat {
    if k == 0 then x else 2 * ShiftLeft(x, k - 1)
  }

  function ShiftRight(x: nat, k: nat): nat {
    if k == 0 then x else ShiftRight(x / 2, k - 1)
  }

  /** Bits needed to write x. */
  function BitLength(x: nat): nat {
    if x == 0 then 0 else 1 + BitLength(x / 2)
  }

  /** x is written with exactly l bits. */
  predicate HasLength(x: nat, l: nat) { l >= 1 && ShiftLeft(1, l - 1) <= x < ShiftLeft(1, l) }

  lemma {:induction false} BitLengthBounds(x: nat)
    requires x > 0
    ensures HasLength(x, BitLength(x))
  {
    if x > 1 {
      BitLengthBounds(x / 2);
      Doubled(x, BitLength(x / 2));
    } else {
      assert BitLength(1) == 1 && ShiftLeft(1, 1) == 2;
    }
  }

  lemma Doubled(x: nat, l: nat)
    requires HasLength(x / 2, l)
    ensures HasLength(x, l + 1)
  {
    var h := x / 2;
    assert 2 * h <= x <= 2 * h + 1;
  }

  lemma {:induction false} BitLengthRight(x: nat, k: nat)
    requires ShiftRight(x, k) > 0
    ensures BitLength(x) == BitLength(ShiftRight(x, k)) + k
  {
    if k > 0 {
      BitLengthRight(x / 2, k - 1);
      PositiveRight(x / 2, k - 1);
    }
  }

  lemma {:induction false} PositiveRight(x: nat, k: nat)
    requires ShiftRight(x, k) > 0
    ensures x > 0
  {
    if k > 0 {
      PositiveRight(x / 2, k - 1);
    }
  }

  lemma {:induction false} RightOfLeft(x: nat, k: nat)
    ensures ShiftRight(ShiftLeft(x, k), k) == x
  {
    if k > 0 {
      RightOfLeft(x, k - 1);
      assert ShiftLeft(x, k) / 2 == ShiftLeft(x, k - 1);
    }
  }

  lemma {:induction false} RightSum(x: nat, j: nat, k: nat)
    ensures ShiftRight(ShiftRight(x, j), k) == ShiftRight(x, j + k)
    decreases j
  {
    if j > 0 {
      RightSum(x / 2, j - 1, k);
    }
  }

  lemma {:induction false} ZeroRight(k: nat)
    ensures ShiftRight(0, k) == 0
  {
    if k > 0 {
      ZeroRight(k - 1);
    }
  }

  lemma ShortRights(x: nat)
    ensures ShiftRight(x, 1) == x / 2 && ShiftRight(x, 2) == x / 4 && ShiftRight(x, 4) == x / 16
    ensures ShiftRight(x, 8) == x / 256 && ShiftRight(x, 16) == x / 65536
  {
    assert ShiftRight(x / 2, 1) == x / 2 / 2;
    Fours(x);
    Fours(x / 16);
    RightSum(x, 4, 4);
    Fours(x / 256);
    Fours(x / 256 / 16);
    RightSum(x, 8, 8);
    RightSum(x / 256, 4, 4);
  }

  lemma Fours(x: nat)
    ensures ShiftRight(x, 4) == x / 16
  {
    assert ShiftRight(x / 8, 1) == x / 16;
    assert ShiftRight(x / 4, 2) == x / 16;
    assert ShiftRight(x / 2, 3) == x / 16;
  }

  // --- countLeadingZeros

  predicate IsStep(n: nat) { n == 16 || n == 8 || n == 4 || n == 2 || n == 1 }

  /** 2 to the power n, for the steps of the search. */
  function Power(n: nat): nat
    requires IsStep(n) || n == 32
  {
    if n == 32 then 0x1_0000_0000 else if n == 16 then 65536 else if n == 8 then 256 else if n == 4 then 16
    else if n == 2 then 4 else 2
  }

  lemma StepRight(x: nat, n: nat)
    requires IsStep(n) && Power(n) <= x < Power(2 * n)
    ensures 0 < x / Power(n) < Power(n) && BitLength(x) == BitLength(x / Power(n)) + n
  {
    ShortRights(x);
    BitLengthRight(x, n);
  }

  /** One step: value has at most 2n bits, and the leading zeros above them are counted. */
  method CountLeadingZerosPartial(value0: nat, zeros0: nat, n: nat) returns (value: nat, zeros: nat)
    requires IsStep(n) && 0 < value0 < Power(2 * n)
    ensures 0 < value < Power(n)
    ensures zeros + n - BitLength(value) == zeros0 + 2 * n - BitLength(value0)
  {
    value, zeros := value0, zeros0;
    if value >= Power(n) {
      StepRight(value, n);
      value := value / Power(n);
    } else {
      zeros := zeros + n;
    }
  }

  /** Exact for every word, by binary search. */
  method CountLeadingZeros(value: Word) returns (zeros: nat)
    ensures zeros == 32 - BitLength(value)
  {
    if value == 0 {
      return 32;
    }
    var v: nat := value;
    zeros := 0;
    v, zeros := CountLeadingZerosPartial(v, zeros, 16);
    v, zeros := CountLeadingZerosPartial(v, zeros, 8);
    v, zeros := CountLeadingZerosPartial(v, zeros, 4);
    v, zeros := CountLeadingZerosPartial(v, zeros, 2);
    v, zeros := CountLeadingZerosPartial(v, zeros, 1);
    assert v == 1 && BitLength(1) == 1;
  }

  // --- the decoder

  datatype Expanded = Unpredictable | Value(value: nat)

  /** ThumbExpandImm. A rotation right by n of an 8-bit number, 8 <= n, is a shift left by 32 - n. */
  function ThumbExpandImm(imm12: nat): Expanded
    requires imm12 < 4096
  {
    var imm8 := imm12 % 256;
    if imm12 < 256 then Value(imm8)
    else if imm12 < 1024 then
      if imm8 == 0 then Unpredictable
      else if imm12 < 512 then Value(imm8 * 0x0001_0001)
      else if imm12 < 768 then Value(imm8 * 0x0100_0100)
      else Value(imm8 * 0x0101_0101)
    else Value(ShiftLeft(128 + imm12 % 128, 32 - imm12 / 128))
  }

  ghost predicate IsExpandable(value: Word) {
    exists imm12: nat :: imm12 < 4096 && ThumbExpandImm(imm12) == Value(value)
  }

  datatype Encoding = Invalid | Encoded(imm12: nat)

  /** A normalised byte shifted left: how far, and which. */
  lemma ShiftedByte(value: Word, imm12: nat)
    requires 1024 <= imm12 < 4096 && ThumbExpandImm(imm12) == Value(value)
    ensures BitLength(value) == 8 + (32 - imm12 / 128) && ShiftRight(value, 32 - imm12 / 128) == 128 + imm12 % 128
  {
    var k, u := 32 - imm12 / 128, 128 + imm12 % 128;
    RightOfLeft(u, k);
    BitLengthRight(value, k);
    ByteLength(u);
  }

  lemma ByteLength(u: nat)
    requires 128 <= u < 256
    ensures BitLength(u) == 8
  {
    ShortRights(u);
    RightSum(u, 4, 2);
    ShortRights(u / 16);
    RightSum(u, 6, 1);
    BitLengthRight(u, 7);
    assert BitLength(1) == 1;
  }

  lemma {:induction false} LengthBelow(x: nat, k: nat)
    requires x < ShiftLeft(1, k)
    ensures BitLength(x) <= k
  {
    if k > 0 && x > 0 {
      LengthBelow(x / 2, k - 1);
    }
  }

  lemma WordLength(value: Word)
    ensures BitLength(value) <= 32 && (value >= 256 ==> BitLength(value) >= 9)
  {
    ShortRights(value);
    ShortRights(value / 65536);
    RightSum(value, 16, 16);
    if value >= 256 {
      BitLengthRight(value, 8);
    }
    if value > 0 {
      BitLengthBounds(value);
      if BitLength(value) > 32 {
        TooLong(value);
      }
    }
  }

  lemma TooLong(value: nat)
    requires value > 0 && BitLength(value) > 32
    ensures value >= 0x1_0000_0000
  {
    LongRight(value, 32);
    RightSum(value, 16, 16);
    ShortRights(value);
    ShortRights(value / 65536);
  }

  lemma {:induction false} LongRight(x: nat, k: nat)
    requires BitLength(x) > k
    ensures ShiftRight(x, k) > 0
  {
    if k > 0 {
      LongRight(x / 2, k - 1);
    }
  }

  /** The high byte of a value with k more bits below. */
  lemma TopByte(value: Word, k: nat)
    requires BitLength(value) == 8 + k
    ensures 128 <= ShiftRight(value, k) < 256
  {
    LongRight(value, k);
    BitLengthRight(value, k);
    BitLengthBounds(ShiftRight(value, k));
    assert ShiftLeft(1, 7) == 128 && ShiftLeft(1, 8) == 256;
  }

  /** The encoding of a value whose bits below the leading eight are clear. */
  lemma ShiftEncodes(value: Word, zeros: nat, k: nat)
    requires value >= 256 && zeros == 32 - BitLength(value) && k == 24 - zeros
    requires value == ShiftLeft(ShiftRight(value, k), k)
    ensures zeros < 24
    ensures var imm12 := ShiftRight(value, k) % 128 + 128 * (8 + zeros);
            imm12 < 4096 && ThumbExpandImm(imm12) == Value(value)
  {
    WordLength(value);
    TopByte(value, k);
    ByteField(ShiftRight(value, k), 8 + zeros);
  }

  /** A byte with its top bit set, and the rotation above its other bits. */
  lemma ByteField(b: nat, rotation: nat)
    requires 128 <= b < 256 && rotation < 32
    ensures var imm12 := b % 128 + 128 * rotation;
            imm12 < 4096 && imm12 / 128 == rotation && 128 + imm12 % 128 == b && (rotation >= 8 ==> imm12 >= 1024)
  {
    assert b % 128 == b - 128;
  }

  lemma ShiftedIsDivisible(value: Word, imm12: nat, zeros: nat, k: nat)
    requires value >= 256 && zeros == 32 - BitLength(value) && k == 24 - zeros
    requires 1024 <= imm12 < 4096 && ThumbExpandImm(imm12) == Value(value)
    ensures value == ShiftLeft(ShiftRight(value, k), k)
  {
    ShiftedByte(value, imm12);
  }

  /** The bytes of a word that repeat in one of the three patterns. */
  function BytePattern(value: Word): (r: Encoding) {
    var byte0, byte1, byte2, byte3 := value % 256, value / 256 % 256, value / 65536 % 256, value / 16777216;
    if byte0 == byte1 && byte0 == byte2 && byte0 == byte3 then Encoded(byte0 + 256 * 3)
    else if byte0 == byte2 && byte1 == 0 && byte3 == 0 then Encoded(byte0 + 256 * 1)
    else if byte1 == byte3 && byte0 == 0 && byte2 == 0 then Encoded(byte1 + 256 * 2)
    else Invalid
  }

  lemma BytesOf(b0: nat, b1: nat, b2: nat, b3: nat)
    requires b0 < 256 && b1 < 256 && b2 < 256 && b3 < 256
    ensures var v := b0 + 256 * b1 + 65536 * b2 + 16777216 * b3;
            v % 256 == b0 && v / 256 % 256 == b1 && v / 65536 % 256 == b2 && v / 16777216 == b3
  {
    var v2 := b2 + 256 * b3;
    var v1 := b1 + 256 * v2;
    LowByte(v1, b0);
    LowByte(v2, b1);
    LowByte(b3, b2);
    Quotients(b0 + 256 * v1);
  }

  lemma LowByte(high: nat, low: nat)
    requires low < 256
    ensures (low + 256 * high) % 256 == low && (low + 256 * high) / 256 == high
  {
  }

  lemma Quotients(v: nat)
    ensures v / 65536 == v / 256 / 256 && v / 16777216 == v / 65536 / 256
  {
  }

  lemma FromBytes(value: Word)
    ensures value == value % 256 + 256 * (value / 256 % 256) + 65536 * (value / 65536 % 256)
            + 16777216 * (value / 16777216)
    ensures value / 16777216 < 256
  {
    Quotients(value);
    Bytes(value);
    Bytes(value / 256);
    Bytes(value / 65536);
  }

  lemma Bytes(v: nat)
    ensures v == v % 256 + 256 * (v / 256)
  {
  }

  lemma PatternExpands(value: Word)
    requires value >= 256 && BytePattern(value).Encoded?
    ensures BytePattern(value).imm12 < 1024 && ThumbExpandImm(BytePattern(value).imm12) == Value(value)
  {
    FromBytes(value);
    PatternField(value % 256);
    PatternField(value / 256 % 256);
  }

  lemma PatternField(b: nat)
    requires b < 256
    ensures (b + 256 * 1) % 256 == b && (b + 256 * 2) % 256 == b && (b + 256 * 3) % 256 == b
  {
  }

  lemma PatternComplete(value: Word, imm12: nat)
    requires value >= 256 && imm12 < 1024 && ThumbExpandImm(imm12) == Value(value)
    ensures BytePattern(value).Encoded?
  {
    var b := imm12 % 256;
    BytesOf(b, 0, b, 0);
    BytesOf(0, b, 0, b);
    BytesOf(b, b, b, b);
  }

  /** makeEncodedImm: an encoding exactly when there is one, and never an unpredictable one. */
  method MakeEncodedImm(value: Word) returns (r: Encoding)
    ensures r.Encoded? ==> r.imm12 < 4096 && ThumbExpandImm(r.imm12) == Value(value)
    ensures r == Invalid <==> !IsExpandable(value)
  {
    if value < 256 {
      assert ThumbExpandImm(value) == Value(value);
      return Encoded(value);
    }
    var leadingZeros := CountLeadingZeros(value);
    WordLength(value);
    var rightShiftAmount := 24 - leadingZeros;
    if value == ShiftLeft(ShiftRight(value, rightShiftAmount), rightShiftAmount) {
      ShiftEncodes(value, leadingZeros, rightShiftAmount);
      return Encoded(ShiftRight(value, rightShiftAmount) % 128 + 128 * (8 + leadingZeros));
    }
    r := BytePattern(value);
    PatternDecides(value, leadingZeros, rightShiftAmount);
  }

  /** Once the value is no shifted byte, only the byte patterns are left. */
  lemma PatternDecides(value: Word, zeros: nat, k: nat)
    requires value >= 256 && zeros == 32 - BitLength(value) && k == 24 - zeros
    requires value != ShiftLeft(ShiftRight(value, k), k)
    ensures var r := BytePattern(value);
            && (r.Encoded? ==> r.imm12 < 4096 && ThumbExpandImm(r.imm12) == Value(value))
            && (r == Invalid <==> !IsExpandable(value))
  {
    if BytePattern(value).Encoded? {
      PatternExpands(value);
    } else if IsExpandable(value) {
      var imm12: nat :| imm12 < 4096 && ThumbExpandImm(imm12) == Value(value);
      if imm12 < 1024 {
        PatternComplete(value, imm12);
      } else {
        ShiftedIsDivisible(value, imm12, zeros, k);
      }
    }
  }

  /** What makeUInt12OrEncodedImm returns: a plain 12-bit number, an encoded one, or nothing. */
  datatype Immediate = NoImmediate | UInt16(n: nat) | EncodedImm(imm12: nat)

  method MakeUInt12OrEncodedImm(value: Word) returns (r: Immediate)
    ensures r.UInt16? <==> value < 4096
    ensures r.UInt16? ==> r.n == value
    ensures r.EncodedImm? ==> r.imm12 < 4096 && ThumbExpandImm(r.imm12) == Value(value)
    ensures r.NoImmediate? <==> value >= 4096 && !IsExpandable(value)
  {
    if value < 4096 {
      return UInt16(value);
    }
    var e := MakeEncodedImm(value);
    return match e case Invalid => NoImmediate case Encoded(i) => EncodedImm(i);
  }
}
