/** genInt of ARMAssembler: splitting a value into two modified immediates. */
module ArmGenInt {
  import opened ArmMachine
  import opened ArmImmediates

  // --- step 1: rotate the value so that its low byte is clear

  lemma Turn1And2(x: bv32)
    ensures Turn(x, 1) == (x << 30) | (x >> 2)
    ensures Turn(x, 2) == (x << 28) | (x >> 4)
  {
    assert Turn(x, 1) == RotateTwoBits(x);
    assert Turn(x, 2) == RotateTwoBits(Turn(x, 1));
  }

  lemma Turn3And4(x: bv32)
    ensures Turn(x, 3) == (x << 26) | (x >> 6)
    ensures Turn(x, 4) == (x << 24) | (x >> 8)
  {
    Turn1And2(x);
    assert Turn(x, 3) == RotateTwoBits(Turn(x, 2));
    assert Turn(x, 4) == RotateTwoBits(Turn(x, 3));
  }

  lemma Turn5And6(x: bv32)
    ensures Turn(x, 5) == (x << 22) | (x >> 10)
    ensures Turn(x, 6) == (x << 20) | (x >> 12)
  {
    Turn3And4(x);
    assert Turn(x, 5) == RotateTwoBits(Turn(x, 4));
    assert Turn(x, 6) == RotateTwoBits(Turn(x, 5));
  }

  lemma Turn7And8(x: bv32)
    ensures Turn(x, 7) == (x << 18) | (x >> 14)
    ensures Turn(x, 8) == (x << 16) | (x >> 16)
  {
    Turn5And6(x);
    assert Turn(x, 7) == RotateTwoBits(Turn(x, 6));
    assert Turn(x, 8) == RotateTwoBits(Turn(x, 7));
  }

  lemma Turn9And10(x: bv32)
    ensures Turn(x, 9) == (x << 14) | (x >> 18)
    ensures Turn(x, 10) == (x << 12) | (x >> 20)
  {
    Turn7And8(x);
    assert Turn(x, 9) == RotateTwoBits(Turn(x, 8));
    assert Turn(x, 10) == RotateTwoBits(Turn(x, 9));
  }

  lemma Turn11And12(x: bv32)
    ensures Turn(x, 11) == (x << 10) | (x >> 22)
    ensures Turn(x, 12) == (x << 8) | (x >> 24)
  {
    Turn9And10(x);
    assert Turn(x, 11) == RotateTwoBits(Turn(x, 10));
    assert Turn(x, 12) == RotateTwoBits(Turn(x, 11));
  }

  /** The bit count of h places. */
  function Twice(h: nat): bv32 {
    if h == 0 then 0 else Twice(h - 1) + 2
  }

  lemma TwiceValues()
    ensures Twice(4) == 8 && Twice(5) == 10 && Twice(6) == 12 && Twice(7) == 14 && Twice(8) == 16 && Twice(9) == 18
    ensures Twice(10) == 20 && Twice(11) == 22 && Twice(12) == 24 && Twice(13) == 26 && Twice(14) == 28
            && Twice(15) == 30
  {
  }

  lemma Fields(h: nat, rol: bv32)
    requires 4 <= h <= 15 && rol == Twice(h)
    ensures 8 <= rol <= 30
    ensures UInt4(4 + (rol >> 1)) == (h + 4) % 16 && UInt4((rol >> 1) - 8) == (h + 8) % 16
  {
    TwiceValues();
  }

  lemma LeftByAtLeast24(x: bv32, rol: bv32, imm: bv32, n: nat)
    requires (n == 1 && rol == 30) || (n == 2 && rol == 28) || (n == 3 && rol == 26) || (n == 4 && rol == 24)
    requires rol <= 30 && imm == (x << rol) | (x >> (32 - rol))
    ensures imm == Turn(x, n)
  {
    if n == 1 {
      Turn1And2(x);
    } else if n == 2 {
      Turn1And2(x);
    } else if n == 3 {
      Turn3And4(x);
    } else if n == 4 {
      Turn3And4(x);
    }
  }

  lemma LeftByAtLeast16(x: bv32, rol: bv32, imm: bv32, n: nat)
    requires (n == 5 && rol == 22) || (n == 6 && rol == 20) || (n == 7 && rol == 18) || (n == 8 && rol == 16)
    requires rol <= 30 && imm == (x << rol) | (x >> (32 - rol))
    ensures imm == Turn(x, n)
  {
    if n == 5 {
      Turn5And6(x);
    } else if n == 6 {
      Turn5And6(x);
    } else if n == 7 {
      Turn7And8(x);
    } else if n == 8 {
      Turn7And8(x);
    }
  }

  lemma LeftByAtLeast8(x: bv32, rol: bv32, imm: bv32, n: nat)
    requires (n == 9 && rol == 14) || (n == 10 && rol == 12) || (n == 11 && rol == 10) || (n == 12 && rol == 8)
    requires rol <= 30 && imm == (x << rol) | (x >> (32 - rol))
    ensures imm == Turn(x, n)
  {
    if n == 9 {
      Turn9And10(x);
    } else if n == 10 {
      Turn9And10(x);
    } else if n == 11 {
      Turn11And12(x);
    } else if n == 12 {
      Turn11And12(x);
    }
  }

  /** A rotation to the left by Twice(h) bits. */
  lemma LeftIsTurn(x: bv32, rol: bv32, imm: bv32, h: nat)
    requires 4 <= h <= 15 && rol == Twice(h) && rol <= 30
    requires imm == (x << rol) | (x >> (32 - rol))
    ensures imm == Turn(x, 16 - h)
  {
    TwiceValues();
    if h <= 7 {
      LeftByAtLeast8(x, rol, imm, 16 - h);
    } else if h <= 11 {
      LeftByAtLeast16(x, rol, imm, 16 - h);
    } else {
      LeftByAtLeast24(x, rol, imm, 16 - h);
    }
  }

  lemma WindowCleared(value: bv32, h: nat)
    requires h <= 16
    ensures value & Window(h) == 0 <==> Turn(value, 16 - h) & 0xff == 0
  {
    TurnAnd(value, Window(h), 16 - h);
    TurnZero(value & Window(h), 16 - h);
    TurnSum(0xff, h, 16 - h);
    Turn16(0xff);
  }

  /** The masks the search runs through, and the rotations that go with them: each mask is the one
      before shifted right, and the low bits of the next one tell whether it was the last. */
  ghost predicate AreMasks(masks: seq<bv32>, rols: seq<bv32>) {
    |masks| == 16 && |rols| == 16
    && forall k :: 4 <= k <= 15 ==> if k == 15 then (masks[k] >> 2) & 3 != 0
        else AreNext(masks[k], rols[k], masks[k + 1], rols[k + 1])
  }

  predicate AreNext(mask: bv32, rol: bv32, nextMask: bv32, nextRol: bv32) {
    (mask >> 2) & 3 == 0 && mask >> 2 == nextMask && rol + 2 == nextRol
  }

  ghost const MASKS: seq<bv32> :=
    [0, 0, 0, 0, 0xff00_0000, 0x3fc0_0000, 0x0ff0_0000, 0x03fc_0000, 0x00ff_0000, 0x003f_c000, 0x000f_f000, 0x0003_fc00,
     0x0000_ff00, 0x0000_3fc0, 0x0000_0ff0, 0x0000_03fc]

  ghost const ROLS: seq<bv32> := [0, 2, 4, 6, 8, 10, 12, 14, 16, 18, 20, 22, 24, 26, 28, 30]

  lemma TheMasks()
    ensures AreMasks(MASKS, ROLS)
  {
    forall k | 4 <= k <= 15
      ensures if k == 15 then (MASKS[k] >> 2) & 3 != 0 else AreNext(MASKS[k], ROLS[k], MASKS[k + 1], ROLS[k + 1])
    {
      if k < 10 { EarlyMasks(k); } else { LateMasks(k); }
    }
  }

  lemma EarlyMasks(k: nat)
    requires 4 <= k < 10
    ensures AreNext(MASKS[k], ROLS[k], MASKS[k + 1], ROLS[k + 1])
  {
  }

  lemma LateMasks(k: nat)
    requires 10 <= k <= 15
    ensures if k == 15 then (MASKS[k] >> 2) & 3 != 0 else AreNext(MASKS[k], ROLS[k], MASKS[k + 1], ROLS[k + 1])
  {
  }

  /** No mask from here on leaves the value clear. */
  ghost predicate NoneLeft(imm: bv32, masks: seq<bv32>, from: nat)
    requires |masks| == 16
  {
    forall k :: from <= k <= 15 ==> imm & masks[k] != 0
  }

  ghost predicate NoneIn(imm: bv32, masks: seq<bv32>, from: nat, to: nat)
    requires to <= |masks|
  {
    forall k :: from <= k < to ==> imm & masks[k] != 0
  }

  lemma NoneInOneMore(imm: bv32, mask: bv32, masks: seq<bv32>, from: nat, to: nat)
    requires to < |masks| && NoneIn(imm, masks, from, to) && mask == masks[to] && imm & mask != 0
    ensures NoneIn(imm, masks, from, to + 1)
  {
  }

  /** One step of the search: the next mask, and whether the one before was the last. */
  method NextMask(mask0: bv32, rol0: bv32, ghost h: nat, ghost masks: seq<bv32>, ghost rols: seq<bv32>)
    returns (mask: bv32, rol: bv32, isLast: bool)
    requires AreMasks(masks, rols) && 4 <= h <= 15 && mask0 == masks[h] && rol0 == rols[h]
    ensures isLast <==> h == 15
    ensures !isLast ==> mask == masks[h + 1] && rol == rols[h + 1]
  {
    assert if h == 15 then (masks[h] >> 2) & 3 != 0 else AreNext(masks[h], rols[h], masks[h + 1], rols[h + 1]);
    rol := rol0 + 2;
    mask := mask0 >> 2;
    isLast := mask & 3 != 0;
  }

  /** Run the mask down the word; h is the place of the window. */
  method FindWindow(imm: bv32, mask0: bv32, rol0: bv32, ghost h0: nat, ghost masks: seq<bv32>, ghost rols: seq<bv32>)
    returns (found: bool, rol: bv32, ghost h: nat)
    requires AreMasks(masks, rols) && 4 <= h0 <= 15 && mask0 == masks[h0] && rol0 == rols[h0]
    ensures found ==> h0 <= h <= 15 && rol == rols[h] && imm & masks[h] == 0
    ensures !found ==> NoneLeft(imm, masks, h0)
  {
    var mask := mask0;
    rol := rol0;
    h := h0;
    while imm & mask != 0
      invariant h0 <= h <= 15 && mask == masks[h] && rol == rols[h]
      invariant NoneIn(imm, masks, h0, h)
      decreases 15 - h
    {
      NoneInOneMore(imm, mask, masks, h0, h);
      var isLast;
      mask, rol, isLast := NextMask(mask, rol, h, masks, rols);
      if isLast {
        return false, rol, h;
      }
      h := h + 1;
    }
    return true, rol, h;
  }

  lemma Aligned(value: bv32, turned: bv32, h: nat, d: nat, imm: bv32, field: bv32)
    requires 4 <= h <= 15 && turned == Turn(value, d) && imm == Turn(turned, 16 - h)
    requires UInt4(field) == (h + 20 - d) % 16 && d <= 12
    ensures Tracks(value, imm, field)
  {
    TurnSum(value, d, 16 - h);
    TurnSum(value, d + 16 - h, UInt4(field) + 12);
    Whole(h, d, UInt4(field));
    TurnSame(value, d + 16 - h + UInt4(field) + 12, 0);
  }

  lemma Whole(h: nat, d: nat, field: nat)
    requires h <= 15 && d <= 12 && field == (h + 20 - d) % 16
    ensures (d + 16 - h + field + 12) % 16 == 0
  {
  }

  /** The rotation itself; rol is then the rotation field of the top byte, modulo 16. */
  method Align(ghost value: bv32, imm0: bv32, rol0: bv32, ghost h: nat) returns (imm: bv32)
    requires 4 <= h <= 15 && rol0 == Twice(h) && 8 <= rol0 <= 30 && imm0 & Window(h) == 0
    ensures imm == Turn(imm0, 16 - h) && imm & 0xff == 0
  {
    imm := (imm0 << rol0) | (imm0 >> (32 - rol0));
    LeftIsTurn(imm0, rol0, imm, h);
    WindowCleared(imm0, h);
  }

  lemma TurnClear(value: bv32, n: nat, k: nat)
    ensures Turn(value, k) & Window(n + k) == 0 <==> value & Window(n) == 0
  {
    TurnSum(0xff, n, k);
    TurnMeet(value, Window(n), Window(n + k), k);
  }

  lemma TurnMeet(value: bv32, w: bv32, turned: bv32, k: nat)
    requires turned == Turn(w, k)
    ensures Turn(value, k) & turned == 0 <==> value & w == 0
  {
    TurnAnd(value, w, k);
    TurnZero(value & w, k);
  }

  /** Rotate the value so that its low byte is clear, if some window of it is. */
  method FindClearByte(value: bv32) returns (found: bool, imm: bv32, rol: bv32)
    ensures found ==> imm & 0xff == 0 && Tracks(value, imm, rol)
    ensures !found ==> NoClearByte(value)
  {
    found, imm, rol := SearchStraight(value);
    if !found {
      found, imm, rol := SearchAcross(value);
      if !found {
        NoWindow(value, Turn(value, 12), 12);
      }
    }
  }

  /** The search, told in windows. */
  method FindPlace(imm: bv32, mask0: bv32, rol0: bv32, ghost h0: nat) returns (found: bool, rol: bv32, ghost h: nat)
    requires 4 <= h0 <= 15 && mask0 == MASKS[h0] && rol0 == ROLS[h0]
    ensures found ==> 4 <= h <= 15 && rol == Twice(h) && imm & Window(h) == 0
    ensures !found ==> NoWindowFrom(imm, h0)
  {
    TheMasks();
    found, rol, h := FindWindow(imm, mask0, rol0, h0, MASKS, ROLS);
    if found {
      PlaceOf(h);
    } else {
      NoneLeftWindows(imm, h0);
    }
  }

  ghost predicate NoWindowFrom(imm: bv32, from: nat) {
    forall k :: from <= k <= 15 ==> imm & Window(k) != 0
  }

  method SearchStraight(value: bv32) returns (found: bool, imm: bv32, rol: bv32)
    ensures found ==> imm & 0xff == 0 && Tracks(value, imm, rol)
    ensures !found ==> NoWindowFrom(value, 4)
  {
    ghost var h;
    found, rol, h := FindPlace(value, 0xff00_0000, 8, 4);
    imm := value;
    if found {
      imm, rol := AlignStraight(value, rol, h);
    }
  }

  /** The windows that lie across the ends of the word, on the value rotated left by eight bits. */
  method SearchAcross(value: bv32) returns (found: bool, imm: bv32, rol: bv32)
    ensures found ==> imm & 0xff == 0 && Tracks(value, imm, rol)
    ensures !found ==> NoWindowFrom(Turn(value, 12), 12)
  {
    imm := (value << 8) | (value >> 24);
    Turn11And12(value);
    found, imm, rol := SearchTurned(value, imm, 12);
  }

  method SearchTurned(ghost value: bv32, turned: bv32, ghost d: nat) returns (found: bool, imm: bv32, rol: bv32)
    requires d == 12 && turned == Turn(value, d)
    ensures found ==> imm & 0xff == 0 && Tracks(value, imm, rol)
    ensures !found ==> NoWindowFrom(turned, 12)
  {
    ghost var h;
    found, rol, h := FindPlace(turned, 0xff00, 24, 12);
    imm := turned;
    if found {
      imm, rol := AlignAcross(value, turned, rol, h, d);
    }
  }

  lemma PlaceOf(h: nat)
    requires 4 <= h <= 15
    ensures MASKS[h] == Window(h) && ROLS[h] == Twice(h)
  {
    if h < 10 { EarlyPlace(h); } else { LatePlace(h); }
    TwiceValues();
  }

  lemma EarlyPlace(h: nat)
    requires 4 <= h < 10
    ensures MASKS[h] == Window(h)
  {
    Windows();
  }

  lemma LatePlace(h: nat)
    requires 10 <= h <= 15
    ensures MASKS[h] == Window(h)
  {
    Windows();
  }

  lemma NoneLeftWindows(imm: bv32, from: nat)
    requires 4 <= from && NoneLeft(imm, MASKS, from)
    ensures NoWindowFrom(imm, from)
  {
    forall k | from <= k <= 15 ensures imm & Window(k) != 0 {
      PlaceOf(k);
      assert imm & MASKS[k] != 0;
    }
  }

  method AlignStraight(value: bv32, rol0: bv32, ghost h: nat) returns (imm: bv32, rol: bv32)
    requires 4 <= h <= 15 && rol0 == Twice(h) && value & Window(h) == 0
    ensures imm & 0xff == 0 && Tracks(value, imm, rol)
  {
    Fields(h, rol0);
    imm := Align(value, value, rol0, h);
    rol := 4 + (rol0 >> 1);
    Aligned(value, value, h, 0, imm, rol);
  }

  /** The same for a value that was rotated left by eight bits first. */
  method AlignAcross(ghost value: bv32, imm0: bv32, rol0: bv32, ghost h: nat, ghost d: nat) returns (imm: bv32,
                                                                                                     rol: bv32)
    requires 4 <= h <= 15 && rol0 == Twice(h) && imm0 & Window(h) == 0 && d == 12 && imm0 == Turn(value, d)
    ensures imm & 0xff == 0 && Tracks(value, imm, rol)
  {
    Fields(h, rol0);
    imm := Align(value, imm0, rol0, h);
    rol := (rol0 >> 1) - 8;
    Aligned(value, imm0, h, d, imm, rol);
  }

  /** Every window of the value has a bit. */
  ghost predicate NoClearByte(value: bv32) {
    forall n :: 0 <= n <= 15 ==> value & Window(n) != 0
  }

  lemma NoWindow(value: bv32, turned: bv32, d: nat)
    requires NoWindowFrom(value, 4) && NoWindowFrom(turned, 12) && d == 12 && turned == Turn(value, d)
    ensures NoClearByte(value)
  {
    forall n | 0 <= n <= 15 ensures value & Window(n) != 0 {
      if n <= 3 {
        NoWindowAt(value, turned, d, n);
      }
    }
  }

  lemma NoWindowAt(value: bv32, turned: bv32, d: nat, n: nat)
    requires NoWindowFrom(turned, 12) && d == 12 && turned == Turn(value, d) && n <= 3
    ensures value & Window(n) != 0
  {
    var k := n + d;
    assert turned & Window(k) != 0;
    TurnClear(value, n, d);
  }

  // --- a value that is the sum of two modified immediates leaves some window clear

  lemma ExpandInWindow(a: bv32) returns (n: nat)
    ensures n <= 15 && ExpandImm(a) & Window(n) == ExpandImm(a)
  {
    n := UInt4(a >> 8);
    Confined(a & 0xff, n);
  }

  lemma TurnInWindow(x: bv32, n: nat, k: nat)
    requires x & Window(n) == x
    ensures Turn(x, k) & Window(n + k) == Turn(x, k)
  {
    TurnAnd(x, Window(n), k);
    TurnSum(0xff, n, k);
  }

  lemma TurnDisjoint(m: nat, d: nat, p: nat)
    requires Window(m) & Window(d) == 0
    ensures Window(m + p) & Window(d + p) == 0
  {
    TurnAnd(Window(m), Window(d), p);
    TurnZero(Window(m) & Window(d), p);
    TurnSum(0xff, m, p);
    TurnSum(0xff, d, p);
  }

  /** Some window meets neither of these two. */
  lemma FreeWindow(p: nat, q: nat) returns (n: nat)
    requires p <= 15 && q <= 15
    ensures n <= 15 && Window(n) & Window(p) == 0 && Window(n) & Window(q) == 0
  {
    var m, d;
    m, d, n := FreePlace(p, q);
    FreeOfTwo(m, d);
    DisjointAt(m, 0, p, n, p);
    DisjointAt(m, d, p, n, q);
  }

  /** The place n, counted from p, is one that is clear of 0 and of where q then is. */
  lemma FreePlace(p: nat, q: nat) returns (m: nat, d: nat, n: nat)
    requires p <= 15 && q <= 15
    ensures d <= 15 && m == if 1 <= d <= 7 then 12 else 4
    ensures n <= 15 && (m + p) % 16 == n && (d + p) % 16 == q
  {
    d := if p <= q then q - p else q + 16 - p;
    m := if 1 <= d <= 7 then 12 else 4;
    n := if m + p <= 15 then m + p else m + p - 16;
  }

  lemma DisjointAt(m: nat, d: nat, p: nat, n: nat, q: nat)
    requires Window(m) & Window(d) == 0 && (m + p) % 16 == n % 16 && (d + p) % 16 == q % 16
    ensures Window(n) & Window(q) == 0
  {
    TurnDisjoint(m, d, p);
    TurnSame(0xff, m + p, n);
    TurnSame(0xff, d + p, q);
  }

  lemma FreeOfTwo(m: nat, d: nat)
    requires d <= 15 && m == if 1 <= d <= 7 then 12 else 4
    ensures Window(m) & Window(0) == 0 && Window(m) & Window(d) == 0
  {
    Windows();
  }

  lemma Disjoint(x: bv32, y: bv32, w1: bv32, w2: bv32, w: bv32)
    ensures x & w1 == x && y & w2 == y && w & w1 == 0 && w & w2 == 0 ==> (x | y) & w == 0
  {
  }

  lemma ClearByte(x: bv32, y: bv32, p: nat, q: nat) returns (n: nat)
    requires p <= 15 && q <= 15 && x & Window(p) == x && y & Window(q) == y
    ensures n <= 15 && (x | y) & Window(n) == 0
  {
    n := FreeWindow(p, q);
    Disjoint(x, y, Window(p), Window(q), Window(n));
  }

  lemma SumHasClearByte(a: bv32, b: bv32) returns (n: nat)
    ensures n <= 15 && (ExpandImm(a) | ExpandImm(b)) & Window(n) == 0
  {
    var p := ExpandInWindow(a);
    var q := ExpandInWindow(b);
    n := ClearByte(ExpandImm(a), ExpandImm(b), p, q);
  }

  // --- step 2: split the rotated value into two bytes

  /** No two windows cover x. */
  ghost predicate NeedsThree(x: bv32) {
    forall p: nat, q: nat :: x & (Window(p) | Window(q)) != x
  }

  /** What lies in the top byte, and the rest. */
  lemma SplitTop(value: bv32, imm: bv32, rol: bv32) returns (top: bv32, rest: bv32)
    requires Tracks(value, imm, rol)
    ensures value == top | rest && Tracks(top, imm & 0xff00_0000, rol) && Tracks(rest, imm & 0x00ff_ffff, rol)
  {
    assert (imm & 0xff00_0000) | (imm & 0x00ff_ffff) == imm;
    top, rest := SplitParts(value, imm, imm & 0xff00_0000, imm & 0x00ff_ffff, rol);
  }

  lemma SplitParts(value: bv32, imm: bv32, x: bv32, y: bv32, rol: bv32) returns (top: bv32, rest: bv32)
    requires Tracks(value, imm, rol) && imm == x | y
    ensures value == top | rest && Tracks(top, x, rol) && Tracks(rest, y, rol)
  {
    TurnOr(x, y, UInt4(rol) + 12);
    top, rest := Turn(x, UInt4(rol) + 12), Turn(y, UInt4(rol) + 12);
  }

  lemma MiddleHigh(value: bv32, x: bv32, rol: bv32)
    requires Tracks(value, x, rol) && x & 0xff00_ffff == 0
    ensures Gives(Op2Word(x >> 16, rol + 4), value)
  {
    UpByte(value, x, rol);
    TopByteOp2(value, x << 8, rol + 4);
    assert (x << 8) >> 24 == x >> 16;
  }

  lemma MiddleLow(value: bv32, x: bv32, rol: bv32)
    requires Tracks(value, x, rol) && x & 0xffff_00ff == 0
    ensures Gives(Op2Word(x >> 8, rol + 8), value)
  {
    UpByte(value, x, rol);
    MiddleHigh(value, x << 8, rol + 4);
    assert (x << 8) >> 16 == x >> 8;
  }

  lemma MiddleSplit(value: bv32, high: bv32, low: bv32, rol: bv32) returns (top: bv32, rest: bv32)
    requires Tracks(value, high | low, rol) && high & 0xff00_ffff == 0 && low & 0xffff_00ff == 0
    ensures value == top | rest && Gives(Op2Word(high >> 16, rol + 4), top) && Gives(Op2Word(low >> 8, rol + 8), rest)
  {
    top, rest := SplitParts(value, high | low, high, low, rol);
    MiddleHigh(top, high, rol);
    MiddleLow(rest, low, rol);
  }

  lemma MiddleParts(imm: bv32, high: bv32, low: bv32)
    ensures imm & 0xff00_00ff == 0 && high == imm & 0x00ff_0000 && low == imm & 0xff00 ==>
              && imm == high | low && high & 0xff00_ffff == 0 && low & 0xffff_00ff == 0
              && high >> 16 == (imm >> 16) & 0xff && low >> 8 == (imm >> 8) & 0xff
  {
  }

  lemma MiddleBytes(value: bv32, imm: bv32, rol: bv32) returns (top: bv32, rest: bv32)
    requires Tracks(value, imm, rol) && imm & 0xff00_00ff == 0
    ensures value == top | rest
    ensures Gives(Op2Word((imm >> 16) & 0xff, rol + 4), top) && Gives(Op2Word((imm >> 8) & 0xff, rol + 8), rest)
  {
    var high, low := imm & 0x00ff_0000, imm & 0xff00;
    MiddleParts(imm, high, low);
    top, rest := MiddleSplit(value, high, low, rol);
  }

  lemma TwoWindowsHigh(imm: bv32, w1: bv32, w2: bv32)
    requires IsWindow(w1) && IsWindow(w2) && imm & (w1 | w2) == imm
    requires imm & 0xff == 0 && imm & 0xc000_0000 != 0
    ensures N2(N4(N8(imm << 8))) & 0x00ff_ffff == 0
  {
  }

  lemma TwoWindowsLow(imm: bv32, w1: bv32, w2: bv32)
    requires IsWindow(w1) && IsWindow(w2) && imm & (w1 | w2) == imm
    requires imm & 0xff == 0 && imm & 0xc000_0000 == 0 && imm & 0xff00_0000 != 0
    ensures N2(N4(N2(N4(imm)) << 8)) & 0x00ff_ffff == 0
  {
  }

  lemma Untracked(value: bv32, imm: bv32, rol: bv32) returns (k: nat)
    requires Tracks(value, imm, rol)
    ensures imm == Turn(value, k)
  {
    k := 32 - (UInt4(rol) + 12);
    TurnSum(imm, UInt4(rol) + 12, k);
    TurnMod(imm, 32);
  }

  lemma OrInWindows(sum: bv32, x: bv32, y: bv32, w1: bv32, w2: bv32)
    ensures sum == x | y && x & w1 == x && y & w2 == y ==> sum & (w1 | w2) == sum
  {
  }

  lemma ExpandTurned(a: bv32, k: nat) returns (x: bv32, p: nat)
    ensures x == Turn(ExpandImm(a), k) && x & Window(p) == x
  {
    var n := ExpandInWindow(a);
    TurnInWindow(ExpandImm(a), n, k);
    x, p := Turn(ExpandImm(a), k), n + k;
  }

  lemma NotASum(value: bv32, imm: bv32, rol: bv32, a: bv32, b: bv32)
    requires Tracks(value, imm, rol) && NeedsThree(imm)
    ensures value != ExpandImm(a) | ExpandImm(b)
  {
    var k := Untracked(value, imm, rol);
    NeverASum(value, k, a, b);
  }

  lemma Covered(sum: bv32, x: bv32, y: bv32, p: nat, q: nat)
    ensures sum == x | y && x & Window(p) == x && y & Window(q) == y ==> !NeedsThree(sum)
  {
    OrInWindows(sum, x, y, Window(p), Window(q));
  }

  lemma NeverASumOf(k: nat, e1: bv32, e2: bv32, p: nat, q: nat)
    requires Turn(e1, k) & Window(p) == Turn(e1, k) && Turn(e2, k) & Window(q) == Turn(e2, k)
    ensures !NeedsThree(Turn(e1 | e2, k))
  {
    var sum := SumOfTurns(e1, e2, k);
    Covered(sum, Turn(e1, k), Turn(e2, k), p, q);
  }

  lemma SumOfTurns(e1: bv32, e2: bv32, k: nat) returns (sum: bv32)
    ensures sum == Turn(e1 | e2, k) && sum == Turn(e1, k) | Turn(e2, k)
  {
    TurnOr(e1, e2, k);
    sum := Turn(e1 | e2, k);
  }

  lemma NeverASum(value: bv32, k: nat, a: bv32, b: bv32)
    requires NeedsThree(Turn(value, k))
    ensures value != ExpandImm(a) | ExpandImm(b)
  {
    var x, p := ExpandTurned(a, k);
    var y, q := ExpandTurned(b, k);
    NeverASumOf(k, ExpandImm(a), ExpandImm(b), p, q);
  }

  /** Take the top byte as an operand, and shift the rest up. */
  method TakeTop(ghost value: bv32, imm0: bv32, rol0: bv32)
    returns (op2: bv32, imm: bv32, rol: bv32, ghost top: bv32, ghost rest: bv32)
    requires Tracks(value, imm0, rol0)
    ensures value == top | rest && Gives(op2, top) && Tracks(rest, imm, rol) && imm == imm0 << 8
  {
    top, rest := SplitTop(value, imm0, rol0);
    op2, imm, rol := Op2Word((imm0 >> 24) & 0xff, rol0), imm0 << 8, rol0 + 4;
    TopParts(imm0);
    TopByteOp2(top, imm0 & 0xff00_0000, rol0);
    UpByte(rest, imm0 & 0x00ff_ffff, rol0);
  }

  lemma TopParts(imm: bv32)
    ensures (imm & 0xff00_0000) >> 24 == (imm >> 24) & 0xff && (imm & 0xff00_0000) & 0x00ff_ffff == 0
    ensures (imm & 0x00ff_ffff) << 8 == imm << 8 && (imm & 0x00ff_ffff) & 0xff00_0000 == 0
  {
  }

  /** The second operand, if nothing is left below the top byte. */
  method LastOp2(ghost value: bv32, imm: bv32, rol: bv32) returns (found: bool, op2: bv32)
    requires Tracks(value, imm, rol)
    ensures found ==> Gives(op2, value)
    ensures !found ==> imm & 0x00ff_ffff != 0
  {
    if imm & 0x00ff_ffff == 0 {
      TopByteOp2(value, imm, rol);
      return true, Op2Word(imm >> 24, rol);
    }
    return false, 0;
  }

  /** Two operands for the value, given its rotation with a clear low byte. */
  method SplitBytes(ghost value: bv32, imm: bv32, rol: bv32)
    returns (found: bool, imm1: bv32, imm2: bv32, ghost x: bv32, ghost y: bv32)
    requires Tracks(value, imm, rol) && imm & 0xff == 0
    ensures found ==> Gives(imm1, x) && Gives(imm2, y) && x | y == value
    ensures !found ==> NeedsThree(imm)
  {
    if imm & 0xff00_0000 == 0 {
      assert imm & 0xff00_00ff == 0;
      x, y := MiddleBytes(value, imm, rol);
      imm1, imm2 := Op2Word((imm >> 16) & 0xff, rol + 4), Op2Word((imm >> 8) & 0xff, rol + 8);
      found := true;
    } else if imm & 0xc000_0000 != 0 {
      found, imm1, imm2, x, y := SplitHigh(value, imm, rol);
    } else {
      found, imm1, imm2, x, y := SplitLow(value, imm, rol);
    }
  }

  method SplitHigh(ghost value: bv32, imm0: bv32, rol0: bv32)
    returns (found: bool, imm1: bv32, imm2: bv32, ghost x: bv32, ghost y: bv32)
    requires Tracks(value, imm0, rol0) && imm0 & 0xff == 0 && imm0 & 0xc000_0000 != 0
    ensures found ==> Gives(imm1, x) && Gives(imm2, y) && x | y == value
    ensures !found ==> NeedsThree(imm0)
  {
    var imm, rol;
    imm1, imm, rol, x, y := TakeTop(value, imm0, rol0);
    imm, rol := RaiseByte(y, imm, rol);
    found, imm2 := LastOp2(y, imm, rol);
    if !found {
      ThreeHigh(imm0);
    }
  }

  lemma ThreeHigh(imm: bv32)
    requires imm & 0xff == 0 && imm & 0xc000_0000 != 0 && N2(N4(N8(imm << 8))) & 0x00ff_ffff != 0
    ensures NeedsThree(imm)
  {
    forall p: nat, q: nat ensures imm & (Window(p) | Window(q)) != imm {
      WindowIsWindow(p);
      WindowIsWindow(q);
      if imm & (Window(p) | Window(q)) == imm {
        TwoWindowsHigh(imm, Window(p), Window(q));
      }
    }
  }

  method SplitLow(ghost value: bv32, imm0: bv32, rol0: bv32)
    returns (found: bool, imm1: bv32, imm2: bv32, ghost x: bv32, ghost y: bv32)
    requires Tracks(value, imm0, rol0) && imm0 & 0xff == 0 && imm0 & 0xc000_0000 == 0 && imm0 & 0xff00_0000 != 0
    ensures found ==> Gives(imm1, x) && Gives(imm2, y) && x | y == value
    ensures !found ==> NeedsThree(imm0)
  {
    var imm, rol := Raise(value, imm0, rol0);
    found, imm1, imm2, x, y := SplitRaised(value, imm, rol);
    if !found {
      ThreeLow(imm0, imm);
    }
  }

  /** Both operands of a value that starts within two bits of the top. */
  method SplitRaised(ghost value: bv32, imm0: bv32, rol0: bv32)
    returns (found: bool, imm1: bv32, imm2: bv32, ghost x: bv32, ghost y: bv32)
    requires Tracks(value, imm0, rol0)
    ensures found ==> Gives(imm1, x) && Gives(imm2, y) && x | y == value
    ensures !found ==> N2(N4(imm0 << 8)) & 0x00ff_ffff != 0
  {
    var imm, rol;
    imm1, imm, rol, x, y := TakeTop(value, imm0, rol0);
    imm, rol := Raise(y, imm, rol);
    found, imm2 := LastOp2(y, imm, rol);
  }

  lemma ThreeLow(imm: bv32, raised: bv32)
    requires imm & 0xff == 0 && imm & 0xc000_0000 == 0 && imm & 0xff00_0000 != 0
    requires raised == N2(N4(imm)) && N2(N4(raised << 8)) & 0x00ff_ffff != 0
    ensures NeedsThree(imm)
  {
    forall p: nat, q: nat ensures imm & (Window(p) | Window(q)) != imm {
      WindowIsWindow(p);
      WindowIsWindow(q);
      if imm & (Window(p) | Window(q)) == imm {
        TwoWindowsLow(imm, Window(p), Window(q));
      }
    }
  }

  lemma NoSum(value: bv32, a: bv32, b: bv32)
    requires NoClearByte(value)
    ensures value != ExpandImm(a) | ExpandImm(b)
  {
    var n := SumHasClearByte(a, b);
  }

  /** The value is what two modified immediates make together. */
  ghost predicate IsSum(value: bv32) {
    exists a, b :: value == ExpandImm(a) | ExpandImm(b)
  }

  /** Two operands for a value, exactly when it is the sum of two modified immediates. */
  method FindTwoOp2s(value: bv32) returns (found: bool, imm1: bv32, imm2: bv32, ghost x: bv32, ghost y: bv32)
    ensures found ==> Gives(imm1, x) && Gives(imm2, y) && x | y == value
    ensures found <==> IsSum(value)
  {
    var imm, rol;
    found, imm, rol := FindClearByte(value);
    x, y := 0, 0;
    if !found {
      imm1, imm2 := 0, 0;
      forall a, b ensures value != ExpandImm(a) | ExpandImm(b) {
        NoSum(value, a, b);
      }
      return;
    }
    found, imm1, imm2, x, y := SplitBytes(value, imm, rol);
    if found {
      FoundSum(value, imm1, imm2, x, y);
    } else {
      forall a, b ensures value != ExpandImm(a) | ExpandImm(b) {
        NotASum(value, imm, rol, a, b);
      }
    }
  }

  lemma FoundSum(value: bv32, imm1: bv32, imm2: bv32, x: bv32, y: bv32)
    requires Gives(imm1, x) && Gives(imm2, y) && x | y == value
    ensures IsSum(value)
  {
    assert value == ExpandImm(imm1 & 0xfff) | ExpandImm(imm2 & 0xfff);
  }
}
