/** ARM (A32) instruction words as numbers below 2^32.  A mask such as 0xfff is written as a
    remainder, a shifted field as a quotient followed by a remainder, so that the layout proofs
    stay in linear arithmetic. */
module ArmWords {
  import opened BaseTypes

  const PC: nat := 15
  const AL: nat := 14

  /** The halfword holding condition and operation. */
  function High(w: Word): nat {
    w / 0x1_0000
  }

  /** ldr rd, [pc, #+/-imm] : (w & 0x0f7f0000) == 0x051f0000 */
  predicate IsPcLoad(w: Word) {
    (High(w) / 0x100) % 0x10 == 5 && High(w) % 0x80 == 0x1f
  }

  /** b / bl with any condition. */
  predicate IsBranch(w: Word) {
    (High(w) / 0x200) % 8 == 5
  }

  /** Of a branch: it is bl, not b. */
  predicate IsLinking(w: Word) {
    (High(w) / 0x100) % 0x10 == 0xb
  }

  /** b with condition AL: what protects a constant pool. */
  predicate IsUnconditionalBranch(w: Word) {
    0xea00_0000 <= w <= 0xeaff_ffff
  }

  /** bx rm with condition AL. */
  predicate IsBranchExchange(w: Word) {
    0xe12f_ff10 <= w <= 0xe12f_ff1f
  }

  /** bkpt with condition AL: control that gets there stops. */
  predicate IsBreakpoint(w: Word) {
    w / 0x10_0000 == 0xe12 && w / 0x10 % 0x10 == 7
  }

  lemma BranchForms(w: Word)
    ensures IsUnconditionalBranch(w) ==> IsBranch(w)
    ensures IsBranchExchange(w) ==> !IsPcLoad(w) && !IsBranch(w)
  {
    if IsUnconditionalBranch(w) { assert High(w) / 0x200 == 0x75; }
    if IsBranchExchange(w) { assert High(w) == 0xe12f; }
  }

  /** The word index an `b` at word index p transfers to: imm24 is signed and counted from p + 2. */
  function BranchTarget(p: nat, w: Word): int {
    var imm24 := w % 0x100_0000;
    p + 2 + (if imm24 < 0x80_0000 then imm24 else imm24 - 0x100_0000)
  }

  predicate IsUp(w: Word) {
    (High(w) / 0x80) % 2 == 1
  }

  function Offset(w: Word): nat {
    w % 0x1000
  }

  function Rd(w: Word): nat {
    (w % 0x1_0000) / 0x1000
  }

  function Condition(w: Word): nat {
    High(w) / 0x1000
  }

  /** ldr<cond> rd, [pc, #+0] : the load before the pool slot is written into its offset field. */
  function LoadWord(cond: nat, rd: nat): (w: Word)
    requires cond < 16 && rd < 16
  {
    cond * 0x1000_0000 + 0x059f_0000 + rd * 0x1000
  }

  const DATA_TRANSFER_UP: int := 0x80_0000

  /** Every load handled by the pool keeps its condition and register; only the offset field and
      the direction bit change. */
  lemma LoadFields(cond: nat, rd: nat, off: nat)
    requires cond < 16 && rd < 16 && off < 0x1000
    ensures var w: Word := LoadWord(cond, rd) + off;
            IsPcLoad(w) && !IsBranch(w) && IsUp(w) && Offset(w) == off && Rd(w) == rd && Condition(w) == cond
    ensures var w: Word := LoadWord(cond, rd) - DATA_TRANSFER_UP + off;
            IsPcLoad(w) && !IsBranch(w) && !IsUp(w) && Offset(w) == off && Rd(w) == rd && Condition(w) == cond
  {
    HighFields(cond, 0x59f);
    HighFields(cond, 0x51f);
    assert High(LoadWord(cond, rd) + off) == cond * 0x1000 + 0x59f;
    assert High(LoadWord(cond, rd) - DATA_TRANSFER_UP + off) == cond * 0x1000 + 0x51f;
  }

  lemma HighFields(cond: nat, op: nat)
    requires cond < 16 && op < 0x1000
    ensures var h := cond * 0x1000 + op;
            h / 0x1000 == cond && h % 0x80 == op % 0x80 && (h / 0x80) % 2 == (op / 0x80) % 2
            && (h / 0x200) % 8 == (op / 0x200) % 8 && (h / 0x100) % 0x10 == op / 0x100
  {
    var h := cond * 0x1000 + op;
    assert h / 0x80 == cond * 0x20 + op / 0x80;
    HighQuarters(cond, op);
  }

  lemma HighQuarters(cond: nat, op: nat)
    requires cond < 16 && op < 0x1000
    ensures var h := cond * 0x1000 + op;
            (h / 0x200) % 8 == (op / 0x200) % 8 && (h / 0x100) % 0x10 == op / 0x100
  {
    var h := cond * 0x1000 + op;
    assert h / 0x100 == cond * 0x10 + op / 0x100;
    assert h / 0x200 == cond * 0x8 + op / 0x200;
  }

  /** Where a load finds its constant: in a slot of the pool buffer, or in a word of the code. */
  datatype Place = Pending(slot: nat) | At(index: nat)

  predicate IsReachable(p: nat, place: Place) {
    match place
    case Pending(k) => k < 2048
    case At(q) => p < q <= p + 1025
  }

  /** The load at word index p whose constant is at this place: an odd offset is the tag of a slot
      still in the pool buffer, an aligned one the distance in bytes from p + 2. */
  function EncodeLoad(cond: nat, rd: nat, p: nat, place: Place): (w: Word)
    requires cond < 16 && rd < 16 && IsReachable(p, place)
  {
    match place
    case Pending(k) => LoadWord(cond, rd) + 2 * k + 1
    case At(q) =>
      if q == p + 1 then LoadWord(cond, rd) - DATA_TRANSFER_UP + 4
      else LoadWord(cond, rd) + 4 * (q - p - 2)
  }

  /** The word a pc-relative load at word index p reads, if its offset is aligned. */
  predicate ReadsWord(p: nat, w: Word) {
    Offset(w) % 4 == 0
  }

  function ReadIndex(p: nat, w: Word): int {
    if IsUp(w) then p + 2 + Offset(w) / 4 else p + 2 - Offset(w) / 4
  }

  lemma EncodedLoad(cond: nat, rd: nat, p: nat, place: Place)
    requires cond < 16 && rd < 16 && IsReachable(p, place)
    ensures var w := EncodeLoad(cond, rd, p, place);
            IsPcLoad(w) && !IsBranch(w) && Condition(w) == cond && Rd(w) == rd
            && (place.Pending? ==> Offset(w) == 2 * place.slot + 1)
            && (place.At? ==> ReadsWord(p, w) && ReadIndex(p, w) == place.index)
  {
    match place
    case Pending(k) => LoadFields(cond, rd, 2 * k + 1);
    case At(q) => if q == p + 1 { EncodedBehind(cond, rd, p); } else { EncodedAhead(cond, rd, p, q); }
  }

  /** The word right behind the load is below the prefetched pc. */
  lemma EncodedBehind(cond: nat, rd: nat, p: nat)
    requires cond < 16 && rd < 16
    ensures var w := EncodeLoad(cond, rd, p, At(p + 1));
            && IsPcLoad(w) && !IsBranch(w) && Condition(w) == cond && Rd(w) == rd
            && ReadsWord(p, w) && ReadIndex(p, w) == p + 1
  {
    LoadFields(cond, rd, 4);
  }

  lemma EncodedAhead(cond: nat, rd: nat, p: nat, q: nat)
    requires cond < 16 && rd < 16 && p + 2 <= q <= p + 1025
    ensures var w := EncodeLoad(cond, rd, p, At(q));
            && IsPcLoad(w) && !IsBranch(w) && Condition(w) == cond && Rd(w) == rd
            && ReadsWord(p, w) && ReadIndex(p, w) == q
  {
    var words := q - p - 2;
    LoadFields(cond, rd, 4 * words);
    assert 4 * words % 4 == 0 && 4 * words / 4 == words;
  }
}
