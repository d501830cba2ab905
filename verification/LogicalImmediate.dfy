/** LogicalImmediate of ARM64Assembler against DecodeBitMasks (section J1.1 of the ARMv8-A Architecture
    Reference Manual). A 64-bit word is the sequence of its bits, least significant first. */
module LogicalImmediates {

  type Bits = b: seq<bool> | |b| == 64 witness seq(64, _ => false)

  function Make(bit: int -> bool): (b: Bits)
    ensures forall i :: 0 <= i < 64 ==> b[i] == bit(i)
  {
    seq(64, i => bit(i))
  }

  predicate IsZero(b: Bits) { forall i :: 0 <= i < 64 ==> !b[i] }

  /** Bits hsb..0 set. */
  function Mask(hsb: nat): Bits
    requires hsb < 64
  {
    Make(i => i <= hsb)
  }

  function Xor(a: Bits, b: Bits): Bits { Make(i => 0 <= i < 64 && a[i] != b[i]) }

  function ShiftRight(b: Bits, n: nat): Bits { Make(i => 0 <= i && i + n < 64 && b[i + n]) }

  /** The low n bits. */
  function Low(b: Bits, n: nat): Bits { Make(i => 0 <= i < 64 && i < n && b[i]) }

  /** Every bit from n on is clear. */
  predicate Fits(b: Bits, n: nat) { forall i :: n <= i < 64 ==> !b[i] }

  // --- the decoder

  /** Element size chosen by immN:NOT(imms); 0 if reserved. */
  function ElementSize(immN: nat, imms: nat): nat {
    if immN == 1 then 64
    else if imms < 32 then 32
    else if imms < 48 then 16
    else if imms < 56 then 8
    else if imms < 60 then 4
    else if imms < 62 then 2
    else 0
  }

  datatype Decoded = Reserved | Pattern(size: nat, s: nat, r: nat)

  /** The element size, the number of set bits less one, and the rotation, or a reserved value. */
  function DecodeFields(word: nat): Decoded
    requires word < 8192
  {
    var immN, immr, imms := word / 4096, word / 64 % 64, word % 64;
    var e := ElementSize(immN, imms);
    if e == 0 || imms % e == e - 1 then Reserved else Pattern(e, imms % e, immr % e)
  }

  /** Bit i of s + 1 ones rotated right by r in an element of e bits, replicated. */
  predicate PatternBit(e: nat, s: nat, r: nat, i: nat)
    requires e > 0
  {
    (i % e + r) % e <= s
  }

  /** The fields decode to this value on the low n bits. */
  ghost predicate DecodesTo(word: nat, value: Bits, n: nat)
    requires word < 8192
  {
    match DecodeFields(word)
    case Reserved => false
    case Pattern(e, s, r) => e != 0 && e <= n && forall i :: 0 <= i < n && i < 64 ==> value[i] == PatternBit(e, s, r, i)
  }

  /** Some fields decode to this value. */
  ghost predicate IsEncodable(value: Bits, n: nat) {
    exists word: nat :: word < 8192 && DecodesTo(word, value, n)
  }

  // --- highestSetBit

  predicate IsHighest(value: Bits, hsb: int) {
    0 <= hsb < 64 && value[hsb] && forall i :: hsb < i < 64 ==> !value[i]
  }

  /** One step of the binary search: look n bits up. */
  method PartialHSB(n: nat, ghost original: Bits, value: Bits, result: nat) returns (value': Bits, result': nat)
    requires 0 < n <= 32 && !IsZero(value) && value == ShiftRight(original, result) && Fits(value, 2 * n)
    requires result + 2 * n <= 64
    requires forall i :: result + 2 * n <= i < 64 ==> !original[i]
    ensures !IsZero(value') && value' == ShiftRight(original, result') && Fits(value', n)
    ensures result' + n <= 64
    ensures forall i :: result' + n <= i < 64 ==> !original[i]
  {
    value', result' := value, result;
    if !IsZero(ShiftRight(value, n)) {
      result' := result + n;
      value' := ShiftRight(value, n);
    } else {
      NothingAbove(original, value, n, result);
    }
  }

  lemma NothingAbove(original: Bits, value: Bits, n: nat, result: nat)
    requires value == ShiftRight(original, result) && IsZero(ShiftRight(value, n)) && result + n <= 64
    ensures Fits(value, n) && forall i :: result + n <= i < 64 ==> !original[i]
  {
    forall i | n <= i < 64 ensures !value[i] {
      assert value[i] == ShiftRight(value, n)[i - n];
    }
    forall i | result + n <= i < 64 ensures !original[i] {
      assert original[i] == value[i - result];
    }
  }

  method HighestSetBit(value: Bits) returns (hsb: nat)
    requires !IsZero(value)
    ensures IsHighest(value, hsb)
  {
    var v := value;
    assert v == ShiftRight(value, 0);
    v, hsb := PartialHSB(32, value, v, 0);
    v, hsb := PartialHSB(16, value, v, hsb);
    v, hsb := PartialHSB(8, value, v, hsb);
    v, hsb := PartialHSB(4, value, v, hsb);
    v, hsb := PartialHSB(2, value, v, hsb);
    v, hsb := PartialHSB(1, value, v, hsb);
    assert v[0];
  }

  // --- findBitRange

  /** Below width the value is set exactly in lsb..hsb, or exactly outside it. */
  predicate IsRange(value: Bits, width: nat, hsb: int, lsb: int, inverted: bool)
    requires width <= 64
  {
    forall i :: 0 <= i < width ==> value[i] == (inverted != (lsb <= i <= hsb))
  }

  /** A word that fits in width bits, neither all clear nor all set there. */
  predicate IsMixed(value: Bits, width: nat)
    requires 1 <= width <= 64
  {
    Fits(value, width) && !IsZero(value) && value != Mask(width - 1)
  }

  /** value0 with every bit below width flipped, if inverted. */
  predicate IsNormal(value: Bits, value0: Bits, width: nat, inverted: bool)
    requires 2 <= width <= 64
  {
    && inverted == value0[width - 1] && Fits(value, width)
    && forall i :: 0 <= i < width ==> value[i] == (inverted != value0[i])
  }

  /** The value is one range of set bits, or of clear ones, or else it has at least four runs. */
  method FindBitRange(width: nat, value0: Bits) returns (found: bool, hsb: nat, lsb: nat, inverted: bool)
    requires 2 <= width <= 64 && IsMixed(value0, width)
    ensures found ==> lsb <= hsb < width - 1 && IsRange(value0, width, hsb, lsb, inverted)
    ensures !found ==> forall h, l, inv :: !IsRange(value0, width, h, l, inv)
  {
    var value := value0;
    inverted := value[width - 1];
    if inverted {
      value := Xor(value, Mask(width - 1));
    }
    NormalIsMixed(value, value0, width, inverted);
    hsb := HighestSetBit(value);
    lsb := 0;
    var first := Xor(value, Mask(hsb));
    if IsZero(first) {
      OneRange(value, value0, width, inverted, hsb);
      found := true;
    } else {
      lsb := HighestSetBit(first);
      var second := Xor(first, Mask(lsb));
      NextRun(value, hsb, lsb);
      if IsZero(second) {
        TwoRanges(value, value0, width, inverted, hsb, lsb);
        lsb := lsb + 1;
        found := true;
      } else {
        ThreeRanges(value, value0, width, inverted, hsb, lsb);
        found := false;
      }
    }
  }

  lemma NormalIsMixed(value: Bits, value0: Bits, width: nat, inverted: bool)
    requires 2 <= width <= 64 && IsMixed(value0, width) && inverted == value0[width - 1]
    requires value == if inverted then Xor(value0, Mask(width - 1)) else value0
    ensures IsNormal(value, value0, width, inverted) && !IsZero(value)
  {
    if inverted && IsZero(value) {
      forall i | 0 <= i < 64 ensures value0[i] == Mask(width - 1)[i] {
        assert !value[i];
      }
    }
  }

  lemma OneRange(value: Bits, value0: Bits, width: nat, inverted: bool, hsb: nat)
    requires 2 <= width <= 64 && IsNormal(value, value0, width, inverted) && IsHighest(value, hsb)
    requires IsZero(Xor(value, Mask(hsb)))
    ensures hsb < width - 1 && IsRange(value0, width, hsb, 0, inverted)
  {
    forall i | 0 <= i < width ensures value0[i] == (inverted != (0 <= i <= hsb)) {
      assert !Xor(value, Mask(hsb))[i];
    }
  }

  lemma NextRun(value: Bits, hsb: nat, lsb: nat)
    requires IsHighest(value, hsb) && IsHighest(Xor(value, Mask(hsb)), lsb)
    ensures lsb < hsb && !value[lsb] && forall i :: lsb < i <= hsb ==> value[i]
  {
    var first := Xor(value, Mask(hsb));
    forall i | 0 <= i < 64 ensures first[i] == (value[i] != (i <= hsb)) {}
  }

  lemma TwoRanges(value: Bits, value0: Bits, width: nat, inverted: bool, hsb: nat, lsb: nat)
    requires 2 <= width <= 64 && IsNormal(value, value0, width, inverted) && IsHighest(value, hsb)
    requires lsb < hsb && !value[lsb] && forall i :: lsb < i <= hsb ==> value[i]
    requires IsZero(Xor(Xor(value, Mask(hsb)), Mask(lsb)))
    ensures hsb < width - 1 && IsRange(value0, width, hsb, lsb + 1, inverted)
  {
    forall i | 0 <= i < width ensures value0[i] == (inverted != (lsb + 1 <= i <= hsb)) {
      assert !Xor(Xor(value, Mask(hsb)), Mask(lsb))[i];
    }
  }

  lemma ThreeRanges(value: Bits, value0: Bits, width: nat, inverted: bool, hsb: nat, lsb: nat)
    requires 2 <= width <= 64 && IsNormal(value, value0, width, inverted) && IsHighest(value, hsb)
    requires lsb < hsb && !value[lsb] && forall i :: lsb < i <= hsb ==> value[i]
    requires !IsZero(Xor(Xor(value, Mask(hsb)), Mask(lsb)))
    ensures forall h, l, inv :: !IsRange(value0, width, h, l, inv)
  {
    var second := Xor(Xor(value, Mask(hsb)), Mask(lsb));
    var k :| 0 <= k < 64 && second[k];
    assert second[k] == ((value[k] != (k <= hsb)) != (k <= lsb));
    FourRuns(value0, width, inverted, hsb, lsb, k);
  }

  /** Four alternating bits are not two or three runs. */
  lemma FourRuns(value: Bits, width: nat, t: bool, h: nat, l: nat, k: nat)
    requires 2 <= width <= 64 && k < l < h < width - 1
    requires value[width - 1] == t && value[h] != t && value[l] == t && value[k] != t
    ensures forall h', l', inv :: !IsRange(value, width, h', l', inv)
  {
    forall h', l', inv ensures !IsRange(value, width, h', l', inv) {
      NotARange(value, width, t, h, l, k, h', l', inv);
    }
  }

  lemma NotARange(value: Bits, width: nat, t: bool, h: nat, l: nat, k: nat, h': int, l': int, inv: bool)
    requires 2 <= width <= 64 && k < l < h < width - 1
    requires value[width - 1] == t && value[h] != t && value[l] == t && value[k] != t
    ensures !IsRange(value, width, h', l', inv)
  {
  }

  // --- encodeLogicalImmediate

  predicate IsWidth(width: nat) {
    width == 64 || width == 32 || width == 16 || width == 8 || width == 4 || width == 2
  }

  /** 63 & ~(width + width - 1): leading ones, then a zero; the low bits are free for the count. */
  function WidthField(width: nat): nat
    requires IsWidth(width)
  {
    if width == 64 then 0 else 64 - 2 * width
  }

  /** The immN:immr:imms fields; the combined parts share no bits, so | is written +. */
  function EncodeLogicalImmediate(width: nat, hsb: nat, lsb: nat, inverted: bool): (word: nat)
    requires IsWidth(width) && lsb <= hsb < width - 1
    ensures word < 8192 && (word >= 4096 <==> width == 64)
  {
    var immN := if width == 64 then 1 else 0;
    var immr := if inverted then width - 1 - hsb else (width - lsb) % width;
    var imms := WidthField(width) + if inverted then width - (hsb - lsb + 1) - 1 else hsb - lsb;
    immN * 4096 + immr * 64 + imms
  }

  lemma EncodedFields(width: nat, hsb: nat, lsb: nat, inverted: bool)
    requires IsWidth(width) && lsb <= hsb < width - 1
    ensures DecodeFields(EncodeLogicalImmediate(width, hsb, lsb, inverted))
            == Pattern(width, if inverted then width - (hsb - lsb + 1) - 1 else hsb - lsb,
                       if inverted then width - 1 - hsb else (width - lsb) % width)
  {
    var immN := if width == 64 then 1 else 0;
    var immr := if inverted then width - 1 - hsb else (width - lsb) % width;
    var count := if inverted then width - (hsb - lsb + 1) - 1 else hsb - lsb;
    FieldsOf(immN, immr, WidthField(width) + count);
    WidthOf(width, immr, count);
  }

  lemma FieldsOf(immN: nat, immr: nat, imms: nat)
    requires immN <= 1 && immr < 64 && imms < 64
    ensures var w := immN * 4096 + immr * 64 + imms; w / 4096 == immN && w / 64 % 64 == immr && w % 64 == imms
  {
  }

  lemma WidthOf(width: nat, immr: nat, count: nat)
    requires IsWidth(width) && immr < width && count < width - 1
    ensures var imms := WidthField(width) + count;
            ElementSize(if width == 64 then 1 else 0, imms) == width && imms % width == count && immr % width == immr
  {
  }

  /** Position i of an element, rotated by r. */
  function Rotated(e: nat, r: nat, i: nat): int {
    if i + r < e then i + r else i + r - e
  }

  lemma PatternBitIs(e: nat, s: nat, r: nat, i: nat)
    requires r < e && i < e
    ensures PatternBit(e, s, r, i) == (Rotated(e, r, i) <= s)
  {
    Small(i, e);
    if i + r < e {
      Small(i + r, e);
    } else {
      Wrapped(i + r, e);
    }
  }

  lemma Small(x: nat, n: nat)
    requires x < n
    ensures x % n == x
  {
  }

  lemma Wrapped(x: nat, n: nat)
    requires n > 0 && n <= x < 2 * n
    ensures x % n == x - n
  {
  }

  /** Rotated back, the run of ones is the range that was found. */
  lemma RangeBit(width: nat, hsb: nat, lsb: nat, inverted: bool, r: nat, i: nat)
    requires lsb <= hsb < width - 1 && i < width
    requires r == if inverted then width - 1 - hsb else if lsb == 0 then 0 else width - lsb
    ensures PatternBit(width, if inverted then width - (hsb - lsb + 1) - 1 else hsb - lsb, r, i)
            == (inverted != (lsb <= i <= hsb))
  {
    PatternBitIs(width, if inverted then width - (hsb - lsb + 1) - 1 else hsb - lsb, r, i);
  }

  /** What the encoder returns for a range decodes to that range. */
  lemma EncodedDecodes(value: Bits, width: nat, hsb: nat, lsb: nat, inverted: bool)
    requires IsWidth(width) && lsb <= hsb < width - 1 && IsRange(value, width, hsb, lsb, inverted)
    ensures DecodesTo(EncodeLogicalImmediate(width, hsb, lsb, inverted), value, width)
  {
    EncodedFields(width, hsb, lsb, inverted);
    var r := if inverted then width - 1 - hsb else (width - lsb) % width;
    if !inverted {
      if lsb == 0 { Wrapped(width, width); } else { Small(width - lsb, width); }
    }
    forall i | 0 <= i < width
      ensures value[i] == PatternBit(width, if inverted then width - (hsb - lsb + 1) - 1 else hsb - lsb, r, i)
    {
      RangeBit(width, hsb, lsb, inverted, r, i);
    }
  }

  // --- from one width to the next

  /** The value repeats with this period below n. */
  predicate Repeats(value: Bits, n: nat, period: nat)
    requires n <= 64
  {
    forall i :: 0 <= i && i + period < n ==> value[i] == value[i + period]
  }

  /** A word that decodes to elements of at most half the width repeats with that half. */
  lemma DecodedRepeats(word: nat, value: Bits, n: nat)
    requires word < 8192 && DecodesTo(word, value, 2 * n) && IsWidth(n) && 2 * n <= 64
    requires DecodeFields(word).size <= n
    ensures Repeats(value, 2 * n, n)
  {
    var e := DecodeFields(word).size;
    SizeIsWidth(word);
    Divides(e, n);
    forall i | 0 <= i && i + n < 2 * n ensures value[i] == value[i + n] {
      SameBit(e, DecodeFields(word).s, DecodeFields(word).r, n, i);
    }
  }

  lemma Divides(e: nat, n: nat)
    requires IsWidth(e) && IsWidth(n) && e <= n
    ensures n % e == 0 && (n / e) * e == n
  {
  }

  lemma SamePlace(e: nat, k: nat, i: nat)
    requires IsWidth(e)
    ensures (i + k * e) % e == i % e
    decreases k
  {
    if k > 0 {
      SamePlace(e, k - 1, i);
      OnePeriod(i + (k - 1) * e, e);
    }
  }

  lemma OnePeriod(x: nat, e: nat)
    requires IsWidth(e)
    ensures (x + e) % e == x % e
  {
    if e == 64 {
      assert (x + 64) % 64 == x % 64;
    } else if e == 32 {
      assert (x + 32) % 32 == x % 32;
    } else if e == 16 {
      assert (x + 16) % 16 == x % 16;
    } else if e == 8 {
      assert (x + 8) % 8 == x % 8;
    } else if e == 4 {
      assert (x + 4) % 4 == x % 4;
    } else {
      assert (x + 2) % 2 == x % 2;
    }
  }

  /** Elements as wide as the word make a range. */
  lemma DecodedIsRange(word: nat, value: Bits, n: nat) returns (h: int, l: int, inv: bool)
    requires word < 8192 && n <= 64 && DecodesTo(word, value, n) && DecodeFields(word).size == n
    ensures IsRange(value, n, h, l, inv)
  {
    var s, r := DecodeFields(word).s, DecodeFields(word).r;
    inv := r > 0 && s >= r;
    h := if r == 0 then s else if inv then n - r - 1 else n - r + s;
    l := if r == 0 then 0 else if inv then s - r + 1 else n - r;
    forall i | 0 <= i < n ensures value[i] == (inv != (l <= i <= h)) {
      PatternBitIs(n, s, r, i);
    }
  }

  /** Every decoded value has a set bit and a clear one. */
  lemma DecodedIsMixed(word: nat, value: Bits, n: nat)
    requires word < 8192 && n <= 64 && DecodesTo(word, value, n)
    ensures exists i, j :: 0 <= i < n && 0 <= j < n && value[i] && !value[j]
  {
    var e, s, r := DecodeFields(word).size, DecodeFields(word).s, DecodeFields(word).r;
    var i, j := if r == 0 then 0 else e - r, if r == 0 then e - 1 else e - 1 - r + if r == e then e else 0;
    PatternBitIs(e, s, r, i);
    PatternBitIs(e, s, r, j);
    assert value[i] && !value[j];
  }

  lemma LowIsMixed(value: Bits, n: nat)
    requires 1 <= n && 2 * n <= 64 && IsMixed(value, 2 * n) && Repeats(value, 2 * n, n)
    ensures IsMixed(Low(value, n), n)
  {
    var low := Low(value, n);
    if IsZero(low) {
      forall i | 0 <= i < 64 ensures !value[i] {
        if n <= i < 2 * n { assert value[i - n] == value[i] && !low[i - n]; } else if i < n { assert !low[i]; }
      }
    }
    if low == Mask(n - 1) {
      forall i | 0 <= i < 64 ensures value[i] == Mask(2 * n - 1)[i] {
        if n <= i < 2 * n { assert value[i - n] == value[i] && low[i - n]; } else if i < n { assert low[i]; }
      }
    }
  }

  /** An encoding of the lower half is one of a word whose halves are equal. */
  lemma WiderDecodes(word: nat, value: Bits, n: nat)
    requires word < 8192 && IsWidth(n) && 2 * n <= 64 && Repeats(value, 2 * n, n) && DecodesTo(word, Low(value, n), n)
    ensures DecodesTo(word, value, 2 * n)
  {
    var e, s, r := DecodeFields(word).size, DecodeFields(word).s, DecodeFields(word).r;
    SizeIsWidth(word);
    Divides(e, n);
    forall i | 0 <= i < 2 * n ensures value[i] == PatternBit(e, s, r, i) {
      if i < n {
        assert value[i] == Low(value, n)[i];
      } else {
        assert value[i - n] == value[i - n + n] && value[i - n] == Low(value, n)[i - n];
        SameBit(e, s, r, n, i - n);
      }
    }
  }

  lemma SameBit(e: nat, s: nat, r: nat, n: nat, i: nat)
    requires IsWidth(e) && n == (n / e) * e
    ensures PatternBit(e, s, r, i + n) == PatternBit(e, s, r, i)
  {
    SamePlace(e, n / e, i);
  }

  /** Without a range at the full width, an encoding must be one of the repeated lower half. */
  lemma NarrowerEncodes(value: Bits, n: nat)
    requires IsWidth(n) && 2 * n <= 64 && IsEncodable(value, 2 * n)
    requires forall h, l, inv :: !IsRange(value, 2 * n, h, l, inv)
    ensures Repeats(value, 2 * n, n) && IsEncodable(Low(value, n), n)
  {
    var word: nat :| word < 8192 && DecodesTo(word, value, 2 * n);
    if DecodeFields(word).size == 2 * n {
      var h, l, inv := DecodedIsRange(word, value, 2 * n);
      assert false;
    }
    SizeIsWidth(word);
    DecodedRepeats(word, value, n);
    assert forall i :: 0 <= i < n ==> Low(value, n)[i] == value[i];
    assert DecodesTo(word, Low(value, n), n);
  }

  lemma SizeIsWidth(word: nat)
    requires word < 8192 && DecodeFields(word).Pattern?
    ensures IsWidth(DecodeFields(word).size)
  {
  }

  const INVALID := -1

  /** The width cascade from this width down. */
  method FromWidth(width: nat, value: Bits) returns (r: int)
    requires IsWidth(width) && IsMixed(value, width)
    ensures r == INVALID ==> !IsEncodable(value, width)
    ensures r != INVALID ==> 0 <= r < 8192 && DecodesTo(r, value, width)
    decreases width
  {
    var found, hsb, lsb, inverted := FindBitRange(width, value);
    if found {
      EncodedDecodes(value, width, hsb, lsb, inverted);
      return EncodeLogicalImmediate(width, hsb, lsb, inverted);
    }
    if width == 2 {
      NoneAtTwo(value);
      return INVALID;
    }
    var n := width / 2;
    if !Repeats(value, width, n) {
      if IsEncodable(value, width) {
        NarrowerEncodes(value, n);
      }
      return INVALID;
    }
    LowIsMixed(value, n);
    r := FromWidth(n, Low(value, n));
    if r != INVALID {
      WiderDecodes(r, value, n);
    } else if IsEncodable(value, width) {
      NarrowerEncodes(value, n);
    }
  }

  lemma NoneAtTwo(value: Bits)
    requires forall h, l, inv :: !IsRange(value, 2, h, l, inv)
    ensures !IsEncodable(value, 2)
  {
    if IsEncodable(value, 2) {
      var word: nat :| word < 8192 && DecodesTo(word, value, 2);
      SizeIsWidth(word);
      var h, l, inv := DecodedIsRange(word, value, 2);
    }
  }

  predicate IsAllOnes(b: Bits, n: nat) { forall i :: 0 <= i < n && i < 64 ==> b[i] }

  lemma UniformIsNotEncodable(value: Bits, n: nat)
    requires n <= 64 && ((forall i :: 0 <= i < n ==> !value[i]) || IsAllOnes(value, n))
    ensures !IsEncodable(value, n)
  {
    if IsEncodable(value, n) {
      var word: nat :| word < 8192 && DecodesTo(word, value, n);
      DecodedIsMixed(word, value, n);
    }
  }

  /** create32: a word whose upper half is clear. */
  method Create32(value: Bits) returns (r: int)
    requires Fits(value, 32)
    ensures r == INVALID <==> !IsEncodable(value, 32)
    ensures r != INVALID ==> 0 <= r < 4096 && DecodesTo(r, value, 32)
  {
    if IsZero(value) || IsAllOnes(value, 32) {
      UniformIsNotEncodable(value, 32);
      return INVALID;
    }
    r := FromWidth(32, value);
    if r != INVALID {
      NarrowWord(r);
    }
  }

  lemma NarrowWord(word: nat)
    requires word < 8192 && DecodeFields(word).Pattern? && DecodeFields(word).size <= 32
    ensures word < 4096
  {
  }

  /** create64. */
  method Create64(value: Bits) returns (r: int)
    ensures r == INVALID <==> !IsEncodable(value, 64)
    ensures r != INVALID ==> 0 <= r < 8192 && DecodesTo(r, value, 64)
  {
    if IsZero(value) || IsAllOnes(value, 64) {
      UniformIsNotEncodable(value, 64);
      return INVALID;
    }
    var found, hsb, lsb, inverted := FindBitRange(64, value);
    if found {
      EncodedDecodes(value, 64, hsb, lsb, inverted);
      return EncodeLogicalImmediate(64, hsb, lsb, inverted);
    }
    if !Repeats(value, 64, 32) {
      if IsEncodable(value, 64) {
        NarrowerEncodes(value, 32);
      }
      return INVALID;
    }
    r := Create32(Low(value, 32));
    if r != INVALID {
      WiderDecodes(r, value, 32);
    } else if IsEncodable(value, 64) {
      NarrowerEncodes(value, 32);
    }
  }
}
