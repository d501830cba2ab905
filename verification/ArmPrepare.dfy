/** ARMAssembler::prepareExecutableCopy: what it rewrites, and that every jump of the copy reaches
    its target. */
module ArmPrepare {
  import opened ArmWords
  import opened PoolModel
  import opened PoolLayout
  import opened PoolSteps
  import opened ArmJumpModel
  import opened BaseTypes

  const MINIMUM_BRANCH_OFFSET_DISTANCE: int := -0x80_0000
  const MAXIMUM_BRANCH_OFFSET_DISTANCE: int := 0x7f_ffff
  const ADDRESS_SPACE: int := 0x1_0000_0000
  const BKPT_0: Word := 0xe120_0070

  predicate InBranchRange(difference: int) {
    MINIMUM_BRANCH_OFFSET_DISTANCE <= difference <= MAXIMUM_BRANCH_OFFSET_DISTANCE
  }

  /** b<cond> over a signed number of words. */
  function EncodeConditionalBranch(cond: nat, difference: int): (w: Word)
    requires cond < 16 && InBranchRange(difference)
  {
    cond * 0x1000_0000 + 0x0a00_0000 + if difference < 0 then difference + 0x100_0000 else difference
  }

  lemma ConditionalBranchFields(cond: nat, p: nat, difference: int)
    requires cond < 16 && InBranchRange(difference)
    ensures var w := EncodeConditionalBranch(cond, difference);
            IsBranch(w) && !IsLinking(w) && Condition(w) == cond && BranchTarget(p, w) == p + 2 + difference
  {
    var imm24 := if difference < 0 then difference + 0x100_0000 else difference;
    BranchHigh(cond, imm24);
    assert EncodeConditionalBranch(cond, difference) == cond * 0x1000_0000 + 0x0a00_0000 + imm24;
  }

  lemma BranchHigh(cond: nat, imm24: nat)
    requires cond < 16 && imm24 < 0x100_0000
    ensures var w: Word := cond * 0x1000_0000 + 0x0a00_0000 + imm24;
            IsBranch(w) && !IsLinking(w) && Condition(w) == cond && w % 0x100_0000 == imm24
  {
    var w, op := cond * 0x1000_0000 + 0x0a00_0000 + imm24, 0xa00 + imm24 / 0x1_0000;
    assert w == (cond * 0x10 + 0xa) * 0x100_0000 + imm24;
    assert w / 0x1_0000 == cond * 0x1000 + op;
    assert op / 0x200 == 5 && op / 0x100 == 0xa;
    HighFields(cond, op);
  }

  predicate IsBranchTo(w: Word, p: nat, target: int) { IsBranch(w) && BranchTarget(p, w) == target }

  ghost predicate SomeBranchTo(p: nat, target: int) { exists w: Word :: IsBranchTo(w, p, target) }

  /** The range is that of the field: a branch at p reaches a target if and only if it is in range. */
  lemma RangeIsExact(p: nat, target: int)
    ensures InBranchRange(target - (p + 2)) <==> SomeBranchTo(p, target)
  {
    if InBranchRange(target - (p + 2)) {
      ConditionalBranchFields(AL, p, target - (p + 2));
      assert IsBranchTo(EncodeConditionalBranch(AL, target - (p + 2)), p, target);
    }
    if w: Word :| IsBranchTo(w, p, target) {
      assert 0 <= w % 0x100_0000 < 0x100_0000;
    }
  }

  /** The word index of the constant a recorded jump loads. */
  function SlotIndex(code: seq<Word>, p: nat): int
    requires p < |code|
  {
    ReadIndex(p, code[p])
  }

  predicate IsJumpAt(code: seq<Word>, p: nat) {
    p < |code| && 0 <= SlotIndex(code, p) < |code| && SlotIndex(code, p) != p
  }

  /** Distance in words from the prefetched pc of the load at p to a byte offset. */
  function Difference(p: nat, target: Word): int {
    target / 4 - (p + 2)
  }

  predicate IsNear(jump: nat, difference: int) { jump % 2 == 0 && InBranchRange(difference) }

  /** One round of the loop: the jump recorded as a byte offset with the pool flag in bit 0. */
  function Rewrite(code: seq<Word>, jump: nat, to: Word): (r: seq<Word>)
    ensures |r| == |code|
  {
    var p := jump / 4;
    if !IsJumpAt(code, p) then code
    else
      var q := SlotIndex(code, p);
      if code[q] == INVALID_BRANCH_TARGET then code
      else if IsNear(jump, Difference(p, code[q]))
      then code[p := EncodeConditionalBranch(Condition(code[p]), Difference(p, code[q]))]
      else code[q := (to + code[q]) % ADDRESS_SPACE]
  }

  function Prepared(code: seq<Word>, jumps: seq<nat>, to: Word): (r: seq<Word>)
    ensures |r| == |code|
  {
    if jumps == [] then code
    else Rewrite(Prepared(code, jumps[..|jumps| - 1], to), jumps[|jumps| - 1], to)
  }

  // --- rounds do not disturb each other

  predicate Touches(code: seq<Word>, jump: nat, x: int) {
    jump / 4 < |code| && (x == jump / 4 || x == SlotIndex(code, jump / 4))
  }

  predicate PairApart(code: seq<Word>, j: nat, k: nat) {
    k / 4 < |code| && !Touches(code, j, k / 4) && !Touches(code, j, SlotIndex(code, k / 4))
  }

  /** No word is an instruction or slot of two recorded jumps. */
  predicate Apart(code: seq<Word>, jumps: seq<nat>) {
    && (forall k :: 0 <= k < |jumps| ==> IsJumpAt(code, jumps[k] / 4))
    && forall j, k {:trigger PairApart(code, jumps[j], jumps[k])} ::
         0 <= j < |jumps| && 0 <= k < |jumps| && j != k ==> PairApart(code, jumps[j], jumps[k])
  }

  lemma ApartPrefix(code: seq<Word>, jumps: seq<nat>, n: nat)
    requires Apart(code, jumps) && n <= |jumps|
    ensures Apart(code, jumps[..n])
  {
    forall j, k | 0 <= j < n && 0 <= k < n && j != k ensures PairApart(code, jumps[..n][j], jumps[..n][k]) {
      assert PairApart(code, jumps[j], jumps[k]);
    }
  }

  lemma OthersUntouched(code: seq<Word>, jumps: seq<nat>, n: nat, k: nat)
    requires Apart(code, jumps) && n <= |jumps| && k < |jumps| && k >= n
    ensures UntouchedBy(code, jumps[..n], jumps[k] / 4) && UntouchedBy(code, jumps[..n], SlotIndex(code, jumps[k] / 4))
  {
    forall j | 0 <= j < n
      ensures !Touches(code, jumps[..n][j], jumps[k] / 4)
              && !Touches(code, jumps[..n][j], SlotIndex(code, jumps[k] / 4))
    {
      assert PairApart(code, jumps[j], jumps[k]);
    }
  }

  lemma RewriteCases(code: seq<Word>, jump: nat, to: Word, p: nat, q: nat)
    requires p == jump / 4 && IsJumpAt(code, p) && q == SlotIndex(code, p)
    ensures var target := code[q];
            Rewrite(code, jump, to)
            == if target == INVALID_BRANCH_TARGET then code
               else if IsNear(jump, Difference(p, target))
                   then code[p := EncodeConditionalBranch(Condition(code[p]), Difference(p, target))]
               else code[q := (to + target) % ADDRESS_SPACE]
  {
  }

  /** A round looks at two words, and changes at most one of them. */
  lemma RewriteIsLocal(code: seq<Word>, code': seq<Word>, jump: nat, to: Word)
    requires |code'| == |code| && IsJumpAt(code, jump / 4)
    requires var p := jump / 4; code'[p] == code[p] && code'[SlotIndex(code, p)] == code[SlotIndex(code, p)]
    ensures var p := jump / 4;
            var q := SlotIndex(code, p);
            Rewrite(code', jump, to)[p] == Rewrite(code, jump, to)[p]
            && Rewrite(code', jump, to)[q] == Rewrite(code, jump, to)[q]
            && forall x :: 0 <= x < |code| && x != p && x != q ==> Rewrite(code', jump, to)[x] == code'[x]
  {
  }

  predicate UntouchedBy(code: seq<Word>, jumps: seq<nat>, x: int) {
    forall k :: 0 <= k < |jumps| ==> !Touches(code, jumps[k], x)
  }

  lemma {:induction false} PreparedElsewhere(code: seq<Word>, jumps: seq<nat>, to: Word, x: nat)
    requires Apart(code, jumps) && x < |code| && UntouchedBy(code, jumps, x)
    ensures Prepared(code, jumps, to)[x] == code[x]
    decreases |jumps|, 0
  {
    if jumps != [] {
      var n := |jumps| - 1;
      ApartPrefix(code, jumps, n);
      assert UntouchedBy(code, jumps[..n], x);
      PreparedElsewhere(code, jumps[..n], to, x);
      BeforeRound(code, jumps, to, n);
      assert !Touches(code, jumps[n], x);
    }
  }

  /** When its turn comes, a jump finds both of its words as they were. */
  lemma {:induction false} BeforeRound(code: seq<Word>, jumps: seq<nat>, to: Word, n: nat)
    requires Apart(code, jumps) && n < |jumps|
    ensures var before, p := Prepared(code, jumps[..n], to), jumps[n] / 4;
            Rewrite(before, jumps[n], to)[p] == Rewrite(code, jumps[n], to)[p]
            && Rewrite(before, jumps[n], to)[SlotIndex(code, p)] == Rewrite(code, jumps[n], to)[SlotIndex(code, p)]
            && forall x :: 0 <= x < |code| && x != p && x != SlotIndex(code, p)
                ==> Rewrite(before, jumps[n], to)[x] == before[x]
    decreases n, 1
  {
    var p := jumps[n] / 4;
    ApartPrefix(code, jumps, n);
    OthersUntouched(code, jumps, n, n);
    PreparedElsewhere(code, jumps[..n], to, p);
    PreparedElsewhere(code, jumps[..n], to, SlotIndex(code, p));
    RewriteIsLocal(code, Prepared(code, jumps[..n], to), jumps[n], to);
  }

  lemma PreparedJump(code: seq<Word>, jumps: seq<nat>, to: Word, k: nat)
    requires Apart(code, jumps) && k < |jumps|
    ensures var p := jumps[k] / 4;
            var q := SlotIndex(code, p);
            var once := Rewrite(code, jumps[k], to);
            Prepared(code, jumps, to)[p] == once[p] && Prepared(code, jumps, to)[q] == once[q]
  {
    PreparedOnce(code, jumps, to, k, jumps[k] / 4);
    PreparedOnce(code, jumps, to, k, SlotIndex(code, jumps[k] / 4));
  }

  lemma {:induction false} PreparedOnce(code: seq<Word>, jumps: seq<nat>, to: Word, k: nat, x: nat)
    requires Apart(code, jumps) && k < |jumps| && x < |code| && Touches(code, jumps[k], x)
    ensures Prepared(code, jumps, to)[x] == Rewrite(code, jumps[k], to)[x]
  {
    var n := |jumps| - 1;
    if k < n {
      ApartPrefix(code, jumps, n);
      PreparedOnce(code, jumps[..n], to, k, x);
      LaterRound(code, jumps, to, k, x);
    } else {
      BeforeRound(code, jumps, to, n);
    }
  }

  /** The last round leaves the words of an earlier jump alone. */
  lemma LaterRound(code: seq<Word>, jumps: seq<nat>, to: Word, k: nat, x: nat)
    requires Apart(code, jumps) && k < |jumps| - 1 && x < |code| && Touches(code, jumps[k], x)
    ensures Prepared(code, jumps, to)[x] == Prepared(code, jumps[..|jumps| - 1], to)[x]
  {
    var n := |jumps| - 1;
    assert !Touches(code, jumps[n], x) by {
      assert PairApart(code, jumps[n], jumps[k]);
    }
    OtherRound(code, jumps, to, n, x);
  }

  lemma OtherRound(code: seq<Word>, jumps: seq<nat>, to: Word, n: nat, x: nat)
    requires Apart(code, jumps) && n < |jumps| && x < |code| && !Touches(code, jumps[n], x)
    ensures Rewrite(Prepared(code, jumps[..n], to), jumps[n], to)[x] == Prepared(code, jumps[..n], to)[x]
  {
    BeforeRound(code, jumps, to, n);
  }

  // --- the jumps a run has recorded

  datatype JumpRef = JumpRef(item: nat, useConstantPool: bool)

  function JumpsOf(ops: seq<Op>): seq<JumpRef> {
    if ops == [] then []
    else
      var before, op := ops[..|ops| - 1], ops[|ops| - 1];
      JumpsOf(before)
      + if op.Jump? && op.cond < 15 && op.rd < 16 then [JumpRef(|ItemsOf(before)|, op.useConstantPool)] else []
  }

  /** The k-th record is the byte offset of the load of the k-th jump item, plus its flag. */
  predicate RecordOk(s: Session, items: seq<Item>, refs: seq<JumpRef>, k: nat)
    requires |s.jumps| == |refs| && k < |refs|
  {
    var i := refs[k].item;
    && i < |items| && i < |s.layout.pos|
    && items[i].Load? && !items[i].reusable && (refs[k].useConstantPool || items[i].rd == PC)
    && s.jumps[k] == 4 * s.layout.pos[i] + (if refs[k].useConstantPool then 1 else 0)
    && forall j :: 0 <= j < k ==> refs[j].item < i
  }

  predicate RecordsOk(s: Session, items: seq<Item>, refs: seq<JumpRef>) {
    |s.jumps| == |refs| && forall k :: 0 <= k < |refs| ==> RecordOk(s, items, refs, k)
  }

  lemma StepKeepsPositions(s: Session, op: Op)
    ensures s.layout.pos <= Step(s, op).layout.pos
    ensures !op.Jump? ==> Step(s, op).jumps == s.jumps
  {
  }

  lemma AfterKeepsShape(items: seq<Item>, op: Op, i: nat)
    requires i < |items|
    ensures i < |After(items, op)|
    ensures items[i].Load? ==> After(items, op)[i].Load? && After(items, op)[i].rd == items[i].rd
                               && After(items, op)[i].reusable == items[i].reusable
  {
  }

  lemma FlushSizes(b: Buffer, lay: Layout)
    requires |lay.roles| == |b.code|
    ensures |LayoutFlush(b, lay, true).roles| == |Flush(b, true).code| && LayoutFlush(b, lay, true).pos == lay.pos
  {
  }

  lemma MakeRoomSizes(s: Session)
    requires |s.layout.roles| == |s.buffer.code|
    ensures var t := MakeRoom(s, WORD_SIZE, WORD_SIZE);
            |t.layout.roles| == |t.buffer.code| && t.layout.pos == s.layout.pos
                && !NoSpaceForBoth(t.buffer, WORD_SIZE, 4)
  {
    FlushSizes(s.buffer, s.layout);
  }

  /** Having made room, the put does not flush once more: the recorded offset is that of the load. */
  lemma JumpRecorded(s: Session, op: Op)
    requires |s.layout.roles| == |s.buffer.code| && op.Jump? && op.cond < 15 && op.rd < 16
    ensures var s', n := Step(s, op), |s.layout.pos|;
            |s'.layout.pos| == n + 1
            && s'.jumps == s.jumps + [4 * s'.layout.pos[n] + if op.useConstantPool then 1 else 0]
  {
    MakeRoomSizes(s);
  }

  lemma StepKeepsRecords(s: Session, items: seq<Item>, refs: seq<JumpRef>, op: Op)
    requires Ok(s, items) && IsLegalOp(s, items, op) && RecordsOk(s, items, refs)
    ensures RecordsOk(Step(s, op), After(items, op),
                      refs + if op.Jump? then [JumpRef(|items|, op.useConstantPool)] else [])
  {
    var s', items' := Step(s, op), After(items, op);
    var refs' := refs + if op.Jump? then [JumpRef(|items|, op.useConstantPool)] else [];
    StepKeepsPositions(s, op);
    if op.Jump? { JumpRecorded(s, op); }
    forall k | 0 <= k < |refs'| ensures RecordOk(s', items', refs', k) {
      if k < |refs| {
        assert RecordOk(s, items, refs, k);
        AfterKeepsShape(items, op, refs[k].item);
      } else {
        forall j | 0 <= j < k ensures refs'[j].item < |items| { assert RecordOk(s, items, refs, j); }
      }
    }
  }

  lemma {:induction false} RunRecords(ops: seq<Op>)
    requires IsLegalRun(ops)
    ensures RecordsOk(Run(ops), ItemsOf(ops), JumpsOf(ops))
  {
    if ops != [] {
      var before, op := ops[..|ops| - 1], ops[|ops| - 1];
      RunIsOk(before);
      RunRecords(before);
      StepKeepsRecords(Run(before), ItemsOf(before), JumpsOf(before), op);
    }
  }

  // --- the relocated copy

  /** When its condition holds, the word at p puts this address into rd, in a copy placed at to: by a
      branch if rd is pc, or by a load. */
  predicate Delivers(code: seq<Word>, p: nat, rd: nat, to: Word, address: Word) {
    p < |code|
    && if IsBranch(code[p]) then rd == PC && (to + 4 * BranchTarget(p, code[p])) % ADDRESS_SPACE == address
       else IsPcLoad(code[p]) && Rd(code[p]) == rd && ReadsWord(p, code[p])
            && 0 <= ReadIndex(p, code[p]) < |code| && code[ReadIndex(p, code[p])] == address
  }

  lemma ItemAt(b: Buffer, items: seq<Item>, lay: Layout, i: nat)
    requires Inv(b, items, lay) && b.pool == [] && i < |items| && items[i].Load?
    ensures var p := lay.pos[i];
            && p < |b.code| && lay.places[i].At? && SlotIndex(b.code, p) == lay.places[i].index < |b.code|
            && IsJumpAt(b.code, p) && lay.roles[p] == Insn(i) && lay.roles[lay.places[i].index] == Const
            && b.code[lay.places[i].index] == items[i].constant
            && IsPcLoad(b.code[p]) && !IsBranch(b.code[p]) && ReadsWord(p, b.code[p])
            && Condition(b.code[p]) == items[i].cond && Rd(b.code[p]) == items[i].rd
            && items[i].cond < 16
  {
    assert ItemOk(b, items, lay, i);
    EncodedLoad(items[i].cond, items[i].rd, lay.pos[i], lay.places[i]);
  }

  lemma RecordsAreApart(s: Session, items: seq<Item>, refs: seq<JumpRef>)
    requires Ok(s, items) && s.buffer.pool == [] && RecordsOk(s, items, refs)
    ensures Apart(s.buffer.code, s.jumps)
  {
    var code := s.buffer.code;
    forall k | 0 <= k < |refs|
      ensures RecordOk(s, items, refs, k) && s.jumps[k] / 4 == s.layout.pos[refs[k].item]
    {
      assert RecordOk(s, items, refs, k);
    }
    forall k | 0 <= k < |s.jumps| ensures IsJumpAt(code, s.jumps[k] / 4) {
      ItemAt(s.buffer, items, s.layout, refs[k].item);
    }
    forall j, k | 0 <= j < |s.jumps| && 0 <= k < |s.jumps| && j != k ensures PairApart(code, s.jumps[j], s.jumps[k]) {
      ItemAt(s.buffer, items, s.layout, refs[j].item);
      ItemAt(s.buffer, items, s.layout, refs[k].item);
      assert refs[j].item != refs[k].item;
    }
  }

  /** What has become of the jump at p with its slot at q: under its own condition it reaches its
      target. It is now a direct branch exactly if it was linked, was not asked to stay in the pool
      and its target is near enough; else it is still the load it was. Unlinked, the slot keeps its mark. */
  predicate PreparedAs(copy: seq<Word>, code: seq<Word>, p: nat, q: nat, rd: nat, useConstantPool: bool, to: Word)
    requires p < |code| == |copy| && q < |code|
  {
    var target := code[q];
    && Condition(copy[p]) == Condition(code[p])
    && (IsBranch(copy[p]) <==>
          target != INVALID_BRANCH_TARGET && !useConstantPool && InBranchRange(Difference(p, target)))
    && (!IsBranch(copy[p]) ==> copy[p] == code[p])
    && (IsBranch(copy[p]) ==> BranchTarget(p, copy[p]) == target / 4 && !IsLinking(copy[p]))
    && (target == INVALID_BRANCH_TARGET ==> copy[q] == INVALID_BRANCH_TARGET)
    && (target != INVALID_BRANCH_TARGET && target % 4 == 0 ==> Delivers(copy, p, rd, to, (to + target) % ADDRESS_SPACE))
  }

  /** The load of a recorded jump sits at its word with its own condition, and its slot holds what it was linked to. */
  predicate JumpPrepared(s: Session, items: seq<Item>, ref: JumpRef, to: Word) {
    var i := ref.item;
    && i < |items| && items[i].Load? && i < |s.layout.pos| && s.layout.pos[i] < |s.buffer.code|
    && var p, code := s.layout.pos[i], s.buffer.code;
       var q := SlotIndex(code, p);
       && 0 <= q < |code| && code[q] == items[i].constant && Condition(code[p]) == items[i].cond
       && PreparedAs(Prepared(code, s.jumps, to), code, p, q, items[i].rd, ref.useConstantPool, to)
  }

  lemma RecordFields(jump: nat, p: nat, useConstantPool: bool)
    requires jump == 4 * p + if useConstantPool then 1 else 0
    ensures jump / 4 == p && (jump % 2 == 0 <==> !useConstantPool)
  {
    assert jump == 2 * (2 * p) + if useConstantPool then 1 else 0;
  }

  lemma PreparedJumpReaches(s: Session, items: seq<Item>, refs: seq<JumpRef>, to: Word, k: nat)
    requires Ok(s, items) && s.buffer.pool == [] && RecordsOk(s, items, refs) && k < |refs|
    ensures JumpPrepared(s, items, refs[k], to)
  {
    var i := refs[k].item;
    assert RecordOk(s, items, refs, k);
    var code, p := s.buffer.code, s.layout.pos[i];
    RecordFields(s.jumps[k], p, refs[k].useConstantPool);
    ItemAt(s.buffer, items, s.layout, i);
    RecordsAreApart(s, items, refs);
    PreparedJump(code, s.jumps, to, k);
    RewrittenJump(Prepared(code, s.jumps, to), code, s.jumps[k], to, p, SlotIndex(code, p), items[i].rd,
                  refs[k].useConstantPool);
  }

  lemma RewrittenJump(copy: seq<Word>, code: seq<Word>, jump: nat, to: Word, p: nat, q: nat, rd: nat,
                      useConstantPool: bool)
    requires |copy| == |code| && jump / 4 == p && IsJumpAt(code, p) && SlotIndex(code, p) == q
    requires IsPcLoad(code[p]) && !IsBranch(code[p]) && ReadsWord(p, code[p])
    requires Rd(code[p]) == rd && (useConstantPool || rd == PC) && (jump % 2 == 0 <==> !useConstantPool)
    requires var once := Rewrite(code, jump, to); copy[p] == once[p] && copy[q] == once[q]
    ensures PreparedAs(copy, code, p, q, rd, useConstantPool, to)
  {
    ConditionInRange(code[p]);
    var difference := Difference(p, code[q]);
    if code[q] != INVALID_BRANCH_TARGET && IsNear(jump, difference) {
      ConditionalBranchFields(Condition(code[p]), p, difference);
    }
  }

  lemma ConditionInRange(w: Word)
    ensures Condition(w) < 16
  {
  }

  predicate ItemKept(s: Session, items: seq<Item>, i: nat, to: Word) {
    && i < |items| && i < |s.layout.pos| && s.layout.pos[i] < |s.buffer.code|
    && var p, copy := s.layout.pos[i], Prepared(s.buffer.code, s.jumps, to);
       copy[p] == s.buffer.code[p] && WordEvent(copy, p) == EventOf(items[i])
  }

  /** Everything that is not a recorded jump still does in the copy what it did in the buffer. */
  lemma PreparedItemUnchanged(s: Session, items: seq<Item>, refs: seq<JumpRef>, to: Word, i: nat)
    requires Ok(s, items) && AllLegal(items) && s.buffer.pool == [] && RecordsOk(s, items, refs) && i < |items|
    requires forall k :: 0 <= k < |refs| ==> refs[k].item != i
    ensures ItemKept(s, items, i, to)
  {
    var code, p := s.buffer.code, s.layout.pos[i];
    RecordsAreApart(s, items, refs);
    ItemWordEvent(s.buffer, items, s.layout, i);
    assert ItemOk(s.buffer, items, s.layout, i);
    forall k | 0 <= k < |s.jumps|
      ensures !Touches(code, s.jumps[k], p)
      ensures items[i].Load? ==> !Touches(code, s.jumps[k], SlotIndex(code, p))
    {
      assert RecordOk(s, items, refs, k);
      assert s.jumps[k] / 4 == s.layout.pos[refs[k].item];
      ItemAt(s.buffer, items, s.layout, refs[k].item);
      if items[i].Load? { ItemAt(s.buffer, items, s.layout, i); }
    }
    PreparedElsewhere(code, s.jumps, to, p);
    if items[i].Load? {
      ItemAt(s.buffer, items, s.layout, i);
      PreparedElsewhere(code, s.jumps, to, SlotIndex(code, p));
    }
  }

  /** If this word is a barrier or padding, it is the same in the copy. */
  predicate ElseKept(s: Session, p: nat, to: Word) {
    p < |s.buffer.code| && p < |s.layout.roles| && (s.layout.roles[p].Barrier? || s.layout.roles[p] == Pad) ==>
      Prepared(s.buffer.code, s.jumps, to)[p] == s.buffer.code[p]
  }

  /** Barriers and padding are no jumps and no slots. */
  lemma PreparedElseKept(s: Session, items: seq<Item>, refs: seq<JumpRef>, to: Word, p: nat)
    requires Ok(s, items) && s.buffer.pool == [] && RecordsOk(s, items, refs)
    requires p < |s.buffer.code| && (s.layout.roles[p].Barrier? || s.layout.roles[p] == Pad)
    ensures Prepared(s.buffer.code, s.jumps, to)[p] == s.buffer.code[p]
  {
    var code := s.buffer.code;
    RecordsAreApart(s, items, refs);
    forall k | 0 <= k < |s.jumps| ensures !Touches(code, s.jumps[k], p) {
      assert RecordOk(s, items, refs, k);
      ItemAt(s.buffer, items, s.layout, refs[k].item);
    }
    PreparedElsewhere(code, s.jumps, to, p);
  }

  // --- the whole of prepareExecutableCopy

  /** Flush without a barrier, then pad to an 8-byte boundary with a breakpoint. */
  function Finish(s: Session): Session {
    var flushed := FlushBare(s);
    if |flushed.buffer.code| % 2 == 0 then flushed else AddWord(flushed, BKPT_0)
  }

  function FinishedItems(s: Session, items: seq<Item>): seq<Item> {
    if |FlushBare(s).buffer.code| % 2 == 0 then items else items + [Plain(BKPT_0)]
  }

  lemma BreakpointIsLegal(s: Session, items: seq<Item>)
    ensures IsLegalOp(s, items, PutWord(BKPT_0)) && After(items, PutWord(BKPT_0)) == items + [Plain(BKPT_0)]
    ensures IsBreakpoint(BKPT_0)
  {
    assert High(BKPT_0) == 0xe120;
  }

  lemma ForcedFlush(s: Session)
    ensures Step(s, FlushNoBarrier(true)) == FlushBare(s) && FlushBare(s).buffer.pool == []
  {
  }

  lemma PadWord(s: Session)
    requires s.buffer.pool == []
    ensures AddWord(s, BKPT_0).buffer.pool == []
    ensures |AddWord(s, BKPT_0).buffer.code| == |s.buffer.code| + 1
  {
  }

  lemma OddAndOne(n: nat)
    requires n % 2 == 1
    ensures (n + 1) % 2 == 0
  {
  }

  ghost predicate AllOk(s: Session, items: seq<Item>, refs: seq<JumpRef>) {
    Ok(s, items) && AllLegal(items) && RecordsOk(s, items, refs)
  }

  lemma StepKeepsAll(s: Session, items: seq<Item>, refs: seq<JumpRef>, op: Op)
    requires AllOk(s, items, refs) && IsLegalOp(s, items, op) && !op.Jump?
    ensures AllOk(Step(s, op), After(items, op), refs)
  {
    StepKeepsOk(s, items, op);
    AfterKeepsLegal(s, items, op);
    StepKeepsRecords(s, items, refs, op);
    assert refs + [] == refs;
  }

  lemma FinishKeepsOk(s: Session, items: seq<Item>, refs: seq<JumpRef>)
    requires AllOk(s, items, refs) && IsLegalOp(s, items, FlushNoBarrier(true))
    ensures AllOk(Finish(s), FinishedItems(s, items), refs)
    ensures Finish(s).buffer.pool == [] && |Finish(s).buffer.code| % 2 == 0
  {
    var flushed := FlushBare(s);
    ForcedFlush(s);
    StepKeepsAll(s, items, refs, FlushNoBarrier(true));
    if |flushed.buffer.code| % 2 == 1 {
      PaddingKeepsOk(flushed, items, refs);
    }
  }

  lemma PaddingKeepsOk(s: Session, items: seq<Item>, refs: seq<JumpRef>)
    requires AllOk(s, items, refs) && s.buffer.pool == [] && |s.buffer.code| % 2 == 1
    ensures AllOk(AddWord(s, BKPT_0), items + [Plain(BKPT_0)], refs)
    ensures AddWord(s, BKPT_0).buffer.pool == [] && |AddWord(s, BKPT_0).buffer.code| % 2 == 0
  {
    BreakpointIsLegal(s, items);
    PadWord(s);
    OddAndOne(|s.buffer.code|);
    StepKeepsAll(s, items, refs, PutWord(BKPT_0));
  }

  /** prepareExecutableCopy, for every legal run with no constant waiting or an unconditional transfer at
      its end: each jump of the copy reaches where it was linked to under its original condition, unlinked slots keep
      their mark, and all other instructions and constants are unchanged. */
  lemma CopyIsExecutable(ops: seq<Op>, to: Word)
    requires IsLegalRun(ops) && IsLegalOp(Run(ops), ItemsOf(ops), FlushNoBarrier(true))
    ensures var s, refs := Finish(Run(ops)), JumpsOf(ops);
            var items := FinishedItems(Run(ops), ItemsOf(ops));
            && |s.buffer.code| % 2 == 0 && ItemsOf(ops) <= items
            && (forall k :: 0 <= k < |refs| ==> JumpPrepared(s, items, refs[k], to))
            && (forall i :: 0 <= i < |items| && (forall k :: 0 <= k < |refs| ==> refs[k].item != i) ==>
                  ItemKept(s, items, i, to))
            && (forall p :: 0 <= p < |s.buffer.code| ==> ElseKept(s, p, to))
  {
    RunIsOk(ops);
    RunRecords(ops);
    var s, refs := Finish(Run(ops)), JumpsOf(ops);
    var items := FinishedItems(Run(ops), ItemsOf(ops));
    FinishKeepsOk(Run(ops), ItemsOf(ops), refs);
    forall k | 0 <= k < |refs| ensures JumpPrepared(s, items, refs[k], to) {
      PreparedJumpReaches(s, items, refs, to, k);
    }
    forall i | 0 <= i < |items| && (forall k :: 0 <= k < |refs| ==> refs[k].item != i)
      ensures ItemKept(s, items, i, to)
    {
      PreparedItemUnchanged(s, items, refs, to, i);
    }
    forall p | 0 <= p < |s.buffer.code| ensures ElseKept(s, p, to) {
      if p < |s.layout.roles| && (s.layout.roles[p].Barrier? || s.layout.roles[p] == Pad) {
        PreparedElseKept(s, items, refs, to, p);
      }
    }
  }
}
