/** Two-word conditional branch sites of ARM64Assembler: the linkers, the disassemblers and relinking.
    Code is a sequence of words and addresses are counted in words; fields of a word that share no
    bits are combined with +. */
module Arm64Branches {
  import opened BaseTypes

  const NOP: Word := 0xd503201f

  /** What a site tests. ne is the op bit of cbz/cbnz and tbz/tbnz: branch if not zero. */
  datatype Test =
    | OnCondition(cond: nat)
    | OnZero(is64: bool, rt: nat, ne: bool)
    | OnBit(bit: nat, rt: nat, ne: bool)
  {
    /** Encodable, and relinkable: not AL, whose inverse is always true as well, and no register 31,
        which the disassembler reads as sp and the encoder refuses. */
    predicate Valid() {
      match this
      case OnCondition(c) => c < 14
      case OnZero(_, rt, _) => rt < 31
      case OnBit(b, rt, _) => b < 64 && rt < 31
    }

    /** The fields have room for it. */
    predicate Encodable() {
      match this
      case OnCondition(c) => c < 16
      case OnZero(_, rt, _) => rt < 32
      case OnBit(b, rt, _) => b < 64 && rt < 32
    }

    function Inverted(): (t: Test)
      ensures Encodable() ==> t.Encodable()
      ensures Valid() ==> t.Valid() && t.Limit() == Limit()
    {
      match this
      case OnCondition(c) => OnCondition(if c % 2 == 0 then c + 1 else c - 1)
      case OnZero(is64, rt, ne) => OnZero(is64, rt, !ne)
      case OnBit(b, rt, ne) => OnBit(b, rt, !ne)
    }

    /** Largest displacement the short form reaches: 19 bits, or 14 for a bit test. */
    function Limit(): int { if OnBit? then 0x2000 else 0x4_0000 }

    predicate IsNear(d: int) { -Limit() <= d < Limit() }
  }

  // --- fields

  /** The low bits of x, limit being half their range. */
  function Field(x: int, limit: nat): nat
    requires limit > 0
  {
    x % (2 * limit)
  }

  function Bit(b: bool): nat { if b then 1 else 0 }

  function ConditionalBranchImmediate(imm19: int, cond: nat): Word
    requires cond < 16
  {
    0x5400_0000 + Field(imm19, 0x4_0000) * 32 + cond
  }

  function CompareAndBranchImmediate(sf: bool, op: bool, imm19: int, rt: nat): Word
    requires rt < 32
  {
    0x3400_0000 + Bit(sf) * 0x8000_0000 + Bit(op) * 0x0100_0000 + Field(imm19, 0x4_0000) * 32 + rt
  }

  function TestAndBranchImmediate(op: bool, bit: nat, imm14: int, rt: nat): Word
    requires rt < 32 && bit < 64
  {
    0x3600_0000 + bit / 32 * 0x8000_0000 + Bit(op) * 0x0100_0000 + bit % 32 * 0x8_0000 + Field(imm14, 0x2000) * 32 + rt
  }

  function UnconditionalBranchImmediate(op: bool, imm26: int): Word {
    0x1400_0000 + Bit(op) * 0x8000_0000 + Field(imm26, 0x200_0000)
  }

  function EncodeTest(t: Test, imm: int): Word
    requires t.Encodable()
  {
    match t
    case OnCondition(c) => ConditionalBranchImmediate(imm, c)
    case OnZero(is64, rt, ne) => CompareAndBranchImmediate(is64, ne, imm, rt)
    case OnBit(b, rt, ne) => TestAndBranchImmediate(ne, b, imm, rt)
  }

  // --- disassemblers

  predicate IsConditionalBranch(w: Word) { w / 0x0200_0000 == 0x2a }

  predicate IsCompareAndBranch(w: Word) { w / 0x0200_0000 % 64 == 0x1a }

  predicate IsTestAndBranch(w: Word) { w / 0x0200_0000 % 64 == 0x1b }

  predicate IsUnconditionalBranch(w: Word) { w / 0x0400_0000 % 32 == 5 }

  function Imm19(w: Word): int { Signed(w / 32 % 0x8_0000, 0x4_0000) }

  function Imm14(w: Word): int { Signed(w / 32 % 0x4000, 0x2000) }

  function Imm26(w: Word): int { Signed(w % 0x400_0000, 0x200_0000) }

  predicate OpBit(w: Word) { w / 0x0100_0000 % 2 == 1 }

  predicate TopBit(w: Word) { w / 0x8000_0000 == 1 }

  datatype Disassembled = NotATest | Found(test: Test, imm: int)

  /** The three disassemblers that relinking tries, in its order. */
  function Disassemble(w: Word): (r: Disassembled)
    ensures r.Found? ==> r.test.Encodable()
  {
    if IsConditionalBranch(w) then Found(OnCondition(w % 16), Imm19(w))
    else if IsCompareAndBranch(w) then Found(OnZero(TopBit(w), w % 32, OpBit(w)), Imm19(w))
    else if IsTestAndBranch(w) then Found(OnBit(Bit(TopBit(w)) * 32 + w / 0x8_0000 % 32, w % 32, OpBit(w)), Imm14(w))
    else NotATest
  }

  lemma ConditionalFields(imm: nat, cond: nat)
    requires imm < 0x8_0000 && cond < 16
    ensures var w := 0x5400_0000 + imm * 32 + cond;
            && w / 0x0200_0000 == 0x2a && w / 32 % 0x8_0000 == imm && w % 16 == cond && w / 16 % 2 == 0
  {
    var w, u := 0x5400_0000 + imm * 32 + cond, 0x02a0_0000 + imm;
    assert w == u * 32 + cond;
    assert w / 32 == u && w / 0x0200_0000 == u / 0x10_0000;
    assert w / 16 == u * 2;
  }

  lemma CompareFields(sf: nat, op: nat, imm: nat, rt: nat)
    requires sf < 2 && op < 2 && imm < 0x8_0000 && rt < 32
    ensures var w := 0x3400_0000 + sf * 0x8000_0000 + op * 0x0100_0000 + imm * 32 + rt;
            && w / 0x0200_0000 % 64 == 0x1a && w / 0x0200_0000 != 0x2a && w / 32 % 0x8_0000 == imm && w % 32 == rt
            && w / 0x0100_0000 % 2 == op && w / 0x8000_0000 == sf
  {
  }

  lemma BitFields(top: nat, op: nat, low: nat, imm: nat, rt: nat)
    requires top < 2 && op < 2 && low < 32 && imm < 0x4000 && rt < 32
    ensures var w := 0x3600_0000 + top * 0x8000_0000 + op * 0x0100_0000 + low * 0x8_0000 + imm * 32 + rt;
            && w / 0x0200_0000 % 64 == 0x1b && w / 0x0200_0000 != 0x2a
            && w / 0x0100_0000 % 2 == op && w / 0x8000_0000 == top
  {
  }

  lemma BitLowFields(top: nat, op: nat, low: nat, imm: nat, rt: nat)
    requires top < 2 && op < 2 && low < 32 && imm < 0x4000 && rt < 32
    ensures var w := 0x3600_0000 + top * 0x8000_0000 + op * 0x0100_0000 + low * 0x8_0000 + imm * 32 + rt;
            w / 32 % 0x4000 == imm && w % 32 == rt && w / 0x8_0000 % 32 == low
  {
    var w := 0x3600_0000 + top * 0x8000_0000 + op * 0x0100_0000 + low * 0x8_0000 + imm * 32 + rt;
    var v := 0x6c0 + top * 0x1000 + op * 32 + low;
    var u := v * 0x4000 + imm;
    assert w == u * 32 + rt;
    assert w / 32 == u && u / 0x4000 == v && u % 0x4000 == imm;
    assert w / 0x8_0000 == u / 0x4000;
    assert v % 32 == low;
  }

  lemma SignedField(x: int, limit: nat)
    requires limit == 0x4_0000 || limit == 0x2000 || limit == 0x200_0000
    requires 0 - limit <= x < limit
    ensures Field(x, limit) < 2 * limit && Signed(Field(x, limit), limit) == x
  {
  }

  lemma DisassembleCondition(c: nat, imm: int)
    requires c < 16 && -0x4_0000 <= imm < 0x4_0000
    ensures Disassemble(ConditionalBranchImmediate(imm, c)) == Found(OnCondition(c), imm)
  {
    SignedField(imm, 0x4_0000);
    ConditionalFields(Field(imm, 0x4_0000), c);
  }

  lemma DisassembleZero(is64: bool, rt: nat, ne: bool, imm: int)
    requires rt < 32 && -0x4_0000 <= imm < 0x4_0000
    ensures Disassemble(CompareAndBranchImmediate(is64, ne, imm, rt)) == Found(OnZero(is64, rt, ne), imm)
  {
    SignedField(imm, 0x4_0000);
    CompareFields(Bit(is64), Bit(ne), Field(imm, 0x4_0000), rt);
  }

  lemma DisassembleBit(b: nat, rt: nat, ne: bool, imm: int)
    requires b < 64 && rt < 32 && -0x2000 <= imm < 0x2000
    ensures Disassemble(TestAndBranchImmediate(ne, b, imm, rt)) == Found(OnBit(b, rt, ne), imm)
  {
    SignedField(imm, 0x2000);
    BitFields(b / 32, Bit(ne), b % 32, Field(imm, 0x2000), rt);
    BitLowFields(b / 32, Bit(ne), b % 32, Field(imm, 0x2000), rt);
  }

  /** A test and its displacement are read back as they were written. */
  lemma DisassembleEncoded(t: Test, imm: int)
    requires t.Valid() && t.IsNear(imm)
    ensures Disassemble(EncodeTest(t, imm)) == Found(t, imm)
  {
    match t
    case OnCondition(c) => DisassembleCondition(c, imm);
    case OnZero(is64, rt, ne) => DisassembleZero(is64, rt, ne, imm);
    case OnBit(b, rt, ne) => DisassembleBit(b, rt, ne, imm);
  }

  /** What the encoder of unconditional branches asserts of its displacement. */
  predicate FitsImm26(imm26: int) { -0x200_0000 <= imm26 < 0x200_0000 }

  lemma BranchFields(link: bool, imm26: int)
    requires FitsImm26(imm26)
    ensures var w := UnconditionalBranchImmediate(link, imm26);
            IsUnconditionalBranch(w) && Imm26(w) == imm26 && (TopBit(w) <==> link) && w != NOP
  {
    SignedField(imm26, 0x200_0000);
    UnconditionalFields(Bit(link), Field(imm26, 0x200_0000));
  }

  lemma UnconditionalFields(op: nat, imm: nat)
    requires op < 2 && imm < 0x400_0000
    ensures var w := 0x1400_0000 + op * 0x8000_0000 + imm;
            w / 0x0400_0000 % 32 == 5 && w % 0x400_0000 == imm && w / 0x8000_0000 == op && w != NOP
  {
    var w := 0x1400_0000 + op * 0x8000_0000 + imm;
    assert w == (5 + op * 32) * 0x400_0000 + imm;
    assert w / 0x400_0000 == 5 + op * 32;
  }

  // --- the ranges are those of the fields

  ghost predicate SomeTest(t: Test, d: int) { exists w: Word :: Disassemble(w) == Found(t, d) }

  /** The short form reaches a displacement if and only if some word with this test does. */
  lemma NearIsExact(t: Test, d: int)
    requires t.Valid()
    ensures t.IsNear(d) <==> SomeTest(t, d)
  {
    if t.IsNear(d) {
      DisassembleEncoded(t, d);
    }
    if w: Word :| Disassemble(w) == Found(t, d) {
      SignedRange(w / 32 % 0x8_0000, 0x4_0000);
      SignedRange(w / 32 % 0x4000, 0x2000);
    }
  }

  predicate IsBranchBy(w: Word, d: int) { IsUnconditionalBranch(w) && Imm26(w) == d }

  ghost predicate SomeBranch(d: int) { exists w: Word :: IsBranchBy(w, d) }

  lemma FitsIsExact(d: int)
    ensures FitsImm26(d) <==> SomeBranch(d)
  {
    if FitsImm26(d) {
      BranchFields(false, d);
      assert IsBranchBy(UnconditionalBranchImmediate(false, d), d);
    }
    if w: Word :| IsBranchBy(w, d) {
      SignedRange(w % 0x400_0000, 0x200_0000);
    }
  }

  // --- what the words do

  /** What the tests find: conditions, zero registers and register bits. */
  datatype Machine = Machine(holds: nat -> bool, isZero: (bool, nat) -> bool, bitSet: (nat, nat) -> bool) {
    /** Odd conditions below AL are the opposites of even ones; AL and the one after it always hold. */
    ghost predicate Valid() {
      && (forall c :: 0 <= c < 14 && c % 2 == 0 ==> holds(c + 1) == !holds(c))
      && holds(14) && holds(15)
    }

    predicate Passes(t: Test) {
      match t
      case OnCondition(c) => holds(c)
      case OnZero(is64, rt, ne) => isZero(is64, rt) != ne
      case OnBit(b, rt, ne) => bitSet(rt, b) == ne
    }
  }

  lemma InvertedFails(m: Machine, t: Test)
    requires m.Valid() && t.Valid()
    ensures m.Passes(t.Inverted()) == !m.Passes(t) && t.Inverted().Valid() && t.Inverted().Inverted() == t
  {
    match t
    case OnCondition(c) =>
      if c % 2 == 1 {
        assert m.holds(c - 1 + 1) == !m.holds(c - 1);
      }
    case OnZero(_, _, _) =>
    case OnBit(_, _, _) =>
  }

  /** Where control goes from a site at p: to the target of the first branch it takes, or past both words. */
  function Exit(m: Machine, p: int, first: Word, second: Word): int {
    match Disassemble(first)
    case Found(t, imm) =>
      if m.Passes(t) then p + imm
      else if IsUnconditionalBranch(second) then p + 1 + Imm26(second) else p + 2
    case NotATest => if IsUnconditionalBranch(second) then p + 1 + Imm26(second) else p + 2
  }

  // --- the linkers

  /** The words at a site: linkConditionalBranch, linkCompareAndBranch and linkTestAndBranch, indirect
      form, all the same but for the test. d is the displacement from the first word. */
  function LinkedWords(t: Test, d: int): (Word, Word)
    requires t.Encodable()
  {
    if t.IsNear(d) then (EncodeTest(t, d), NOP)
    else (EncodeTest(t.Inverted(), 2), UnconditionalBranchImmediate(false, d - 1))
  }

  predicate InRange(d: int) { -0x200_0000 < d < 0x200_0000 }

  lemma NearExit(m: Machine, p: int, t: Test, d: int)
    requires t.Valid() && t.IsNear(d)
    ensures Exit(m, p, EncodeTest(t, d), NOP) == if m.Passes(t) then p + d else p + 2
  {
    DisassembleEncoded(t, d);
    assert !IsUnconditionalBranch(NOP);
  }

  /** The far form skips the branch when the test fails. */
  lemma FarExit(m: Machine, p: int, t: Test, second: Word)
    requires m.Valid() && t.Valid() && IsUnconditionalBranch(second)
    ensures Exit(m, p, EncodeTest(t.Inverted(), 2), second) == if m.Passes(t) then p + 1 + Imm26(second) else p + 2
  {
    InvertedFails(m, t);
    DisassembleEncoded(t.Inverted(), 2);
  }

  /** A site that is linked to d: control reaches the target exactly when the test passes. */
  lemma LinkedExit(m: Machine, p: int, t: Test, d: int)
    requires m.Valid() && t.Valid() && InRange(d)
    ensures var (first, second) := LinkedWords(t, d);
            Exit(m, p, first, second) == if m.Passes(t) then p + d else p + 2
  {
    if t.IsNear(d) {
      NearExit(m, p, t, d);
    } else {
      BranchFields(false, d - 1);
      FarExit(m, p, t, UnconditionalBranchImmediate(false, d - 1));
    }
  }

  /** The check that the three linkers make. */
  predicate LinkerAccepts(d: int) { -0x200_0000 <= d < 0x200_0000 }

  /** The check of the encoder that writes the displacement: of the far form, counted from its second word. */
  predicate EncoderAccepts(t: Test, d: int) { t.IsNear(d) || FitsImm26(d - 1) }

  /** The displacement the linker's own check accepts but its far form cannot express: counted from
      the second word it is one too far. The encoder's assertion rejects it; where assertions are
      off the branch goes the same distance forward. */
  lemma FarthestBack(m: Machine, p: int, t: Test)
    requires m.Valid() && t.Valid() && m.Passes(t)
    ensures LinkerAccepts(-0x200_0000) && !EncoderAccepts(t, -0x200_0000)
    ensures var (first, second) := LinkedWords(t, -0x200_0000);
            Exit(m, p, first, second) == p + 0x200_0000
  {
    WrappedBranch();
    FarExit(m, p, t, 0x15ff_ffff);
  }

  lemma WrappedBranch()
    ensures UnconditionalBranchImmediate(false, -0x200_0001) == 0x15ff_ffff
    ensures IsUnconditionalBranch(0x15ff_ffff) && Imm26(0x15ff_ffff) == 0x1ff_ffff
  {
    assert Field(-0x200_0001, 0x200_0000) == 0x1ff_ffff;
  }

  /** Of the displacements that pass the linker's check, exactly those that pass the encoder's too are
      linked right: all but the farthest back. */
  lemma LinkedRight(m: Machine, p: int, t: Test, d: int)
    requires m.Valid() && t.Valid() && m.Passes(t) && LinkerAccepts(d)
    ensures EncoderAccepts(t, d) <==> d != -0x200_0000
    ensures var (first, second) := LinkedWords(t, d);
            Exit(m, p, first, second) == p + d <==> EncoderAccepts(t, d)
  {
    if d == -0x200_0000 {
      FarthestBack(m, p, t);
    } else {
      LinkedExit(m, p, t, d);
    }
  }

  // --- relinking

  /** relinkJumpOrCall on the second word of a site: an untaken nop means the short form, whose test is
      read back, inverted first if the displacement is 8; otherwise only the second word changes. */
  function RelinkedWords(first: Word, second: Word, d: int): (Word, Word) {
    match Disassemble(first)
    case Found(t, imm) =>
      if second == NOP then LinkedWords(if imm == 8 then t.Inverted() else t, d)
      else (first, UnconditionalBranchImmediate(false, d - 1))
    case NotATest => (first, UnconditionalBranchImmediate(false, d - 1))
  }

  /** The second word is no part of a short site: it is a branch itself, or no test stands in front of it. */
  predicate IsPlainJump(first: Word, second: Word) { second != NOP || Disassemble(first).NotATest? }

  /** Relinking a plain jump, at the second word: the word in front stays, whatever it is, and control that
      gets past it goes to the target. */
  lemma RelinkPlain(m: Machine, p: int, first: Word, second: Word, d: int)
    requires IsPlainJump(first, second) && FitsImm26(d - 1)
    ensures var (first', second') := RelinkedWords(first, second, d);
            && first' == first && IsUnconditionalBranch(second') && !TopBit(second') && p + 1 + Imm26(second') == p + d
            && Exit(m, p, first', second')
               == match Disassemble(first)
                  case Found(t, imm) => if m.Passes(t) then p + imm else p + d
                  case NotATest => p + d
  {
    BranchFields(false, d - 1);
  }

  /** What a site has become: the test it now carries, its displacement, and which form. */
  datatype State = State(test: Test, d: int, far: bool) {
    predicate Valid() { test.Valid() && InRange(d) && (!far ==> test.IsNear(d)) }
  }

  function Words(s: State): (Word, Word)
    requires s.test.Encodable()
  {
    if s.far then (EncodeTest(s.test.Inverted(), 2), UnconditionalBranchImmediate(false, s.d - 1))
    else (EncodeTest(s.test, s.d), NOP)
  }

  function Linked(t: Test, d: int): State { State(t, d, !t.IsNear(d)) }

  /** One relink: a far site stays far; a near one with displacement 8 turns into its opposite. */
  function Relinked(s: State, d: int): State {
    if s.far then s.(d := d) else Linked(if s.d == 8 then s.test.Inverted() else s.test, d)
  }

  lemma RelinkStep(s: State, d: int)
    requires s.Valid() && InRange(d)
    ensures Relinked(s, d).Valid() && RelinkedWords(Words(s).0, Words(s).1, d) == Words(Relinked(s, d))
  {
    if s.far {
      DisassembleEncoded(s.test.Inverted(), 2);
      BranchFields(false, s.d - 1);
    } else {
      DisassembleEncoded(s.test, s.d);
    }
  }

  lemma StateExit(m: Machine, p: int, s: State)
    requires m.Valid() && s.Valid()
    ensures Exit(m, p, Words(s).0, Words(s).1) == if m.Passes(s.test) then p + s.d else p + 2
  {
    if s.far {
      BranchFields(false, s.d - 1);
      FarExit(m, p, s.test, UnconditionalBranchImmediate(false, s.d - 1));
    } else {
      NearExit(m, p, s.test, s.d);
    }
  }

  // --- runs of relinks

  predicate AllInRange(ds: seq<int>) { forall d :: d in ds ==> InRange(d) }

  predicate AllNear(t: Test, ds: seq<int>) { forall d :: d in ds ==> t.IsNear(d) }

  /** The words after linking to the first displacement and relinking to each of the others in turn. */
  function WordsAfter(t: Test, ds: seq<int>): (Word, Word)
    requires t.Encodable() && |ds| > 0
  {
    if |ds| == 1 then LinkedWords(t, ds[0])
    else
      var before := WordsAfter(t, ds[..|ds| - 1]);
      RelinkedWords(before.0, before.1, ds[|ds| - 1])
  }

  /** How often a relink finds the site short, with displacement 8. */
  function Flips(t: Test, ds: seq<int>): nat
    requires |ds| > 0
  {
    if |ds| == 1 then 0
    else
      var before := ds[..|ds| - 1];
      Flips(t, before) + if AllNear(t, before) && before[|before| - 1] == 8 then 1 else 0
  }

  function StateAfter(t: Test, ds: seq<int>): State
    requires |ds| > 0
  {
    if |ds| == 1 then Linked(t, ds[0]) else Relinked(StateAfter(t, ds[..|ds| - 1]), ds[|ds| - 1])
  }

  lemma {:induction false} RunIsState(t: Test, ds: seq<int>)
    requires t.Valid() && |ds| > 0 && AllInRange(ds)
    ensures StateAfter(t, ds).Valid() && WordsAfter(t, ds) == Words(StateAfter(t, ds))
  {
    if |ds| > 1 {
      RunIsState(t, ds[..|ds| - 1]);
      RelinkStep(StateAfter(t, ds[..|ds| - 1]), ds[|ds| - 1]);
    }
  }

  lemma {:induction false} StateTest(t: Test, ds: seq<int>)
    requires t.Valid() && |ds| > 0
    ensures var s := StateAfter(t, ds);
            && s.test == (if Flips(t, ds) % 2 == 0 then t else t.Inverted())
            && s.d == ds[|ds| - 1] && (s.far <==> !AllNear(t, ds))
  {
    if |ds| > 1 {
      var before := ds[..|ds| - 1];
      StateTest(t, before);
      assert ds == before + [ds[|ds| - 1]];
      assert t.Inverted().Inverted() == t;
      LastNear(t, ds);
    } else {
      assert AllNear(t, ds) <==> t.IsNear(ds[0]);
    }
  }

  lemma LastNear(t: Test, ds: seq<int>)
    requires |ds| > 1
    ensures AllNear(t, ds) <==> AllNear(t, ds[..|ds| - 1]) && t.IsNear(ds[|ds| - 1])
  {
    assert ds == ds[..|ds| - 1] + [ds[|ds| - 1]];
  }

  /** Over any run of relinks, control reaches the latest target exactly when the original test agrees
      with the parity of the flips, and otherwise falls past both words. */
  lemma RelinkRun(m: Machine, p: int, t: Test, ds: seq<int>)
    requires m.Valid() && t.Valid() && |ds| > 0 && AllInRange(ds)
    ensures var (first, second) := WordsAfter(t, ds);
            Exit(m, p, first, second)
            == if m.Passes(t) == (Flips(t, ds) % 2 == 0) then p + ds[|ds| - 1] else p + 2
  {
    RunIsState(t, ds);
    StateTest(t, ds);
    StateExit(m, p, StateAfter(t, ds));
    InvertedFails(m, t);
  }

  /** So the site is right exactly when the flips are even, or the target is the word after the site. */
  lemma RelinkRunRight(m: Machine, p: int, t: Test, ds: seq<int>)
    requires m.Valid() && t.Valid() && |ds| > 0 && AllInRange(ds)
    ensures var (first, second) := WordsAfter(t, ds);
            Exit(m, p, first, second) == (if m.Passes(t) then p + ds[|ds| - 1] else p + 2)
            <==> Flips(t, ds) % 2 == 0 || ds[|ds| - 1] == 2
  {
    RelinkRun(m, p, t, ds);
  }

  /** No intermediate displacement of 8: the site is right. */
  lemma NoFlips(m: Machine, p: int, t: Test, ds: seq<int>)
    requires m.Valid() && t.Valid() && |ds| > 0 && AllInRange(ds) && forall k :: 0 <= k < |ds| - 1 ==> ds[k] != 8
    ensures var (first, second) := WordsAfter(t, ds);
            Exit(m, p, first, second) == if m.Passes(t) then p + ds[|ds| - 1] else p + 2
  {
    NoneFlips(t, ds);
    RelinkRunRight(m, p, t, ds);
  }

  lemma {:induction false} NoneFlips(t: Test, ds: seq<int>)
    requires |ds| > 0 && forall k :: 0 <= k < |ds| - 1 ==> ds[k] != 8
    ensures Flips(t, ds) == 0
  {
    if |ds| > 1 {
      NoneFlips(t, ds[..|ds| - 1]);
    }
  }

  /** A run of two targets that goes wrong, whatever the machine finds. */
  lemma EightFlips(m: Machine, p: int, t: Test)
    requires m.Valid() && t.Valid()
    ensures var (first, second) := WordsAfter(t, [8, 100]);
            Exit(m, p, first, second) == if m.Passes(t) then p + 2 else p + 100
  {
    assert [8, 100][..1] == [8];
    assert t.IsNear(8) && AllNear(t, [8]);
    assert Flips(t, [8]) == 0 && Flips(t, [8, 100]) == 1;
    RelinkRun(m, p, t, [8, 100]);
  }

  // --- the same, writing the code in place

  /** linkJumpOrCall: the word must be a branch, or a nop. It becomes a branch to the target, which
      links if it is a call; no other word changes. */
  method LinkJumpOrCall(code: array<Word>, from: nat, to: int, isCall: bool)
    requires from < code.Length && (IsUnconditionalBranch(code[from]) || code[from] == NOP)
    modifies code
    ensures code[..] == old(code[..])[from := UnconditionalBranchImmediate(isCall, to - from)]
    ensures FitsImm26(to - from) ==>
              IsUnconditionalBranch(code[from]) && from + Imm26(code[from]) == to && (TopBit(code[from]) <==> isCall)
  {
    var offset := to - from;
    code[from] := UnconditionalBranchImmediate(isCall, offset);
    if FitsImm26(offset) {
      BranchFields(isCall, offset);
    }
  }

  /** The three linkers; the direct form has no second word. */
  method LinkTest(code: array<Word>, t: Test, from: nat, to: int, isDirect: bool)
    requires t.Encodable() && from < code.Length
    requires if isDirect then t.IsNear(to - from) else from + 1 < code.Length
    requires t.IsNear(to - from) || IsUnconditionalBranch(code[from + 1]) || code[from + 1] == NOP
    modifies code
    ensures var words := LinkedWords(t, to - from);
            if isDirect then code[..] == old(code[..])[from := words.0]
            else code[..] == old(code[..])[from := words.0][from + 1 := words.1]
  {
    var offset := to - from;
    var useDirect := t.IsNear(offset);
    if useDirect || isDirect {
      code[from] := EncodeTest(t, offset);
      if !isDirect {
        code[from + 1] := NOP;
      }
    } else {
      code[from] := EncodeTest(t.Inverted(), 2);
      LinkJumpOrCall(code, from + 1, to, false);
    }
  }

  /** relinkJumpOrCall, given the second word of the site, or the only word of a plain jump or call. */
  method RelinkJumpOrCall(code: array<Word>, from: nat, to: int, isCall: bool)
    requires from < code.Length && (IsUnconditionalBranch(code[from]) || code[from] == NOP)
    requires !isCall && code[from] == NOP ==> from > 0
    modifies code
    ensures !isCall && from > 0 ==>
              var words := RelinkedWords(old(code[from - 1]), old(code[from]), to - (from - 1));
              code[..] == old(code[..])[from - 1 := words.0][from := words.1]
    ensures isCall || old(code[from]) != NOP || Disassemble(old(code[from - 1])).NotATest? ==>
              && code[..] == old(code[..])[from := code[from]]
              && (FitsImm26(to - from) ==>
                    IsUnconditionalBranch(code[from]) && from + Imm26(code[from]) == to
                    && (TopBit(code[from]) <==> isCall))
  {
    if !isCall && code[from] == NOP {
      match Disassemble(code[from - 1])
      case Found(t, imm) =>
        LinkTest(code, if imm == 8 then t.Inverted() else t, from - 1, to, false);
        return;
      case NotATest =>
    }
    LinkJumpOrCall(code, from, to, isCall);
  }
}
