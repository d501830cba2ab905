/** Labels of ARMAssembler: what a label denotes, and that it goes on denoting it while the run goes on. */
module ArmLabels {
  import opened ArmWords
  import opened PoolModel
  import opened PoolLayout
  import opened PoolSteps
  import opened ArmJumpModel
  import opened BaseTypes

  /** labelIgnoringWatchpoints makes room for any instruction, with a constant of up to 8 bytes. */
  const LABEL: Op := EnsureSpaceForBoth(4, 8)

  /** Every label of a run: its byte offset, and the item that is put next after it. */
  function Labels(ops: seq<Op>): map<nat, nat> {
    if ops == [] then map[]
    else
      var before := Labels(ops[..|ops| - 1]);
      if ops[|ops| - 1] == LABEL then before[WORD_SIZE * |Run(ops).buffer.code| := |ItemsOf(ops)|] else before
  }

  /** A flush without a barrier is about to put a pool where this label was just taken. */
  predicate HidesLabel(ops: seq<Op>, op: Op, c: nat) {
    FlushesBare(Run(ops), op) && c in Labels(ops) && Labels(ops)[c] == |ItemsOf(ops)|
  }

  /** Some flush of the run has done that. */
  predicate Hidden(ops: seq<Op>, c: nat) {
    ops != [] && (Hidden(ops[..|ops| - 1], c) || HidesLabel(ops[..|ops| - 1], ops[|ops| - 1], c))
  }

  lemma OneMore(ops: seq<Op>, op: Op)
    ensures Run(ops + [op]) == Step(Run(ops), op) && ItemsOf(ops + [op]) == After(ItemsOf(ops), op)
    ensures IsLegalRun(ops + [op]) <==> IsLegalRun(ops) && IsLegalOp(Run(ops), ItemsOf(ops), op)
    ensures op != LABEL ==> Labels(ops + [op]) == Labels(ops)
    ensures op == LABEL ==>
              Labels(ops + [op]) == Labels(ops)[WORD_SIZE * |Step(Run(ops), op).buffer.code| := |ItemsOf(ops)|]
    ensures forall c :: Hidden(ops + [op], c) <==> Hidden(ops, c) || HidesLabel(ops, op, c)
  {
    RunMore(ops, op);
    assert (ops + [op])[..|ops|] == ops;
  }

  // --- a place that leads to an item goes on leading to it

  lemma FlushKeepsReaches(s: Session, items: seq<Item>, useBarrier: bool, q: nat, j: nat)
    requires Ok(s, items) && Reaches(s.layout, q, j) && (useBarrier || s.buffer.pool == [] || q < |s.buffer.code|)
    ensures Reaches(LayoutFlush(s.buffer, s.layout, useBarrier), q, j)
  {
    if s.buffer.pool != [] {
      FlushAddsRoles(s.buffer, s.layout, useBarrier);
      ExtendedReaches(s.buffer.code, s.layout, LayoutFlush(s.buffer, s.layout, useBarrier), q, j);
    }
  }

  lemma RoomKeepsReaches(s: Session, items: seq<Item>, flushed: bool, q: nat, j: nat)
    requires Ok(s, items) && Reaches(s.layout, q, j)
    ensures Reaches(LayoutBefore(s, flushed), q, j)
  {
    if flushed {
      FlushKeepsReaches(s, items, true, q, j);
    }
  }

  lemma LoadKeepsReaches(s: Session, items: seq<Item>, cond: nat, rd: nat, constant: Word, reusable: bool, q: nat,
                         j: nat)
    requires Ok(s, items) && Reaches(s.layout, q, j) && cond < 16 && rd < 16
    ensures Reaches(AddLoad(s, cond, rd, constant, reusable).layout, q, j)
  {
    var flushed := NoSpaceForBoth(s.buffer, WORD_SIZE, 4);
    RoomKeepsReaches(s, items, flushed, q, j);
    var slot := SlotFor(ReadyForConst(s.buffer).pool, constant, reusable);
    AppendKeepsReaches(LayoutBefore(s, flushed), Pending(slot), q, j);
  }

  lemma JumpKeepsReaches(s: Session, items: seq<Item>, cond: nat, rd: nat, useConstantPool: bool, q: nat, j: nat)
    requires Ok(s, items) && Reaches(s.layout, q, j) && cond < 16 && rd < 16
    ensures Reaches(LoadBranchTarget(s, cond, rd, useConstantPool).layout, q, j)
  {
    var flushed := NoSpaceForBoth(s.buffer, WORD_SIZE, WORD_SIZE);
    FlushKeepsOk(s, items, flushed);
    RoomKeepsReaches(s, items, flushed, q, j);
    LoadKeepsReaches(MakeRoom(s, WORD_SIZE, WORD_SIZE), items, cond, rd, INVALID_BRANCH_TARGET, false, q, j);
  }

  lemma StepKeepsReaches(s: Session, items: seq<Item>, op: Op, q: nat, j: nat)
    requires Ok(s, items) && IsLegalOp(s, items, op) && Reaches(s.layout, q, j)
    requires FlushesBare(s, op) ==> q < |s.buffer.code|
    ensures Reaches(Step(s, op).layout, q, j)
  {
    var b := s.buffer;
    match op
    case PutWord(w) =>
      RoomKeepsReaches(s, items, NoSpaceFor(b, WORD_SIZE), q, j);
      AppendKeepsReaches(LayoutBefore(s, NoSpaceFor(b, WORD_SIZE)), Pending(0), q, j);
    case PutLoad(cond, rd, constant, reusable) => LoadKeepsReaches(s, items, cond, rd, constant, reusable, q, j);
    case Jump(cond, rd, useConstantPool) => JumpKeepsReaches(s, items, cond, rd, useConstantPool, q, j);
    case EnsureSpace(n) => RoomKeepsReaches(s, items, NoSpaceFor(b, n), q, j);
    case EnsureSpaceForBoth(n, m) => RoomKeepsReaches(s, items, NoSpaceForBoth(b, n, m), q, j);
    case FlushPool => RoomKeepsReaches(s, items, true, q, j);
    case FlushNoBarrier(_) => if FlushesBare(s, op) { FlushKeepsReaches(s, items, false, q, j); }
    case Link(_, _) =>
  }

  /** Control that arrives at the end of the code, or before it. */
  lemma ReachesInCode(b: Buffer, items: seq<Item>, lay: Layout, q: nat, j: nat)
    requires Inv(b, items, lay) && Reaches(lay, q, j) && b.pool != []
    ensures q <= |b.code| && j <= |items| && (q == |b.code| <==> j == |items|)
  {
    if q < |b.code| && lay.roles[q].Barrier? {
      assert BarrierOk(b.code, lay, q);
    }
  }

  // --- labels over whole runs

  /** The label at this offset leads to its item. */
  predicate LabelOk(ops: seq<Op>, c: nat) {
    c in Labels(ops) ==> c % WORD_SIZE == 0 && Labels(ops)[c] <= |ItemsOf(ops)|
                         && Reaches(Run(ops).layout, c / WORD_SIZE, Labels(ops)[c])
  }

  lemma NewLabelOk(ops: seq<Op>)
    requires IsLegalRun(ops) && ops != [] && ops[|ops| - 1] == LABEL
    ensures LabelOk(ops, WORD_SIZE * |Run(ops).buffer.code|)
  {
    RunIsOk(ops);
    assert Placed(|Run(ops).buffer.code|, |ItemsOf(ops)|, Run(ops).layout);
    assert WORD_SIZE * |Run(ops).buffer.code| / WORD_SIZE == |Run(ops).buffer.code|;
  }

  lemma ItemsGrow(items: seq<Item>, op: Op)
    ensures |items| <= |After(items, op)|
  {
  }

  lemma OldLabelOk(ops: seq<Op>, c: nat)
    requires IsLegalRun(ops) && ops != [] && !HidesLabel(ops[..|ops| - 1], ops[|ops| - 1], c)
    requires c in Labels(ops[..|ops| - 1]) && Labels(ops)[c] == Labels(ops[..|ops| - 1])[c]
    requires LabelOk(ops[..|ops| - 1], c)
    ensures LabelOk(ops, c)
  {
    var before, op := ops[..|ops| - 1], ops[|ops| - 1];
    RunIsOk(before);
    ItemsGrow(ItemsOf(before), op);
    KeepsPlace(Run(before), ItemsOf(before), op, c / WORD_SIZE, Labels(before)[c]);
  }

  /** Unless it is the end, where a flush without a barrier is about to put a pool. */
  lemma KeepsPlace(s: Session, items: seq<Item>, op: Op, q: nat, j: nat)
    requires Ok(s, items) && IsLegalOp(s, items, op) && Reaches(s.layout, q, j)
    requires FlushesBare(s, op) ==> j != |items|
    ensures Reaches(Step(s, op).layout, q, j)
  {
    if FlushesBare(s, op) {
      ReachesInCode(s.buffer, items, s.layout, q, j);
    }
    StepKeepsReaches(s, items, op, q, j);
  }

  // --- labels that a flush has hidden

  predicate InPool(lay: Layout, q: nat) {
    q < |lay.roles| && (lay.roles[q] == Pad || lay.roles[q] == Const)
  }

  /** Padding or a constant is where the label points to. */
  predicate IntoPool(ops: seq<Op>, c: nat) {
    c in Labels(ops) && c % WORD_SIZE == 0 && InPool(Run(ops).layout, c / WORD_SIZE)
  }

  lemma IntoPoolIsWrong(ops: seq<Op>, c: nat)
    requires IntoPool(ops, c)
    ensures !LabelOk(ops, c)
  {
  }

  /** No operation takes back what a word is there for. */
  lemma StepAddsRoles(s: Session, op: Op)
    ensures s.layout.roles <= Step(s, op).layout.roles
  {
  }

  lemma PoolStays(s: Session, op: Op, q: nat)
    requires InPool(s.layout, q)
    ensures InPool(Step(s, op).layout, q)
  {
    StepAddsRoles(s, op);
  }

  lemma FlushHides(s: Session, items: seq<Item>, op: Op, q: nat)
    requires Ok(s, items) && FlushesBare(s, op) && Reaches(s.layout, q, |items|)
    ensures InPool(Step(s, op).layout, q)
  {
    ReachesInCode(s.buffer, items, s.layout, q, |items|);
    FlushAddsRoles(s.buffer, s.layout, false);
  }

  lemma HiddenNow(ops: seq<Op>, c: nat)
    requires IsLegalRun(ops) && ops != [] && LabelOk(ops[..|ops| - 1], c)
    requires HidesLabel(ops[..|ops| - 1], ops[|ops| - 1], c)
    ensures IntoPool(ops, c)
  {
    var before := ops[..|ops| - 1];
    RunIsOk(before);
    FlushHides(Run(before), ItemsOf(before), ops[|ops| - 1], c / WORD_SIZE);
    StepIntoPool(ops, c);
  }

  lemma StepIntoPool(ops: seq<Op>, c: nat)
    requires ops != [] && c in Labels(ops[..|ops| - 1]) && c % WORD_SIZE == 0
    requires InPool(Step(Run(ops[..|ops| - 1]), ops[|ops| - 1]).layout, c / WORD_SIZE)
    ensures IntoPool(ops, c)
  {
  }

  lemma HiddenBefore(ops: seq<Op>, c: nat)
    requires ops != [] && IntoPool(ops[..|ops| - 1], c)
    ensures IntoPool(ops, c)
  {
    PoolStays(Run(ops[..|ops| - 1]), ops[|ops| - 1], c / WORD_SIZE);
    StepIntoPool(ops, c);
  }

  /** Every label of a legal run that no flush has hidden leads to the item that was put next after it,
      at the word of that item or at a barrier that jumps there; one that is hidden leads into a pool. */
  lemma {:induction false} LabelsReach(ops: seq<Op>, c: nat)
    requires IsLegalRun(ops)
    ensures LabelOk(ops, c) <==> !Hidden(ops, c)
    ensures Hidden(ops, c) ==> IntoPool(ops, c)
  {
    if ops != [] {
      var before := ops[..|ops| - 1];
      LabelsReach(before, c);
      if Hidden(before, c) {
        HiddenBefore(ops, c);
        IntoPoolIsWrong(ops, c);
      } else if HidesLabel(before, ops[|ops| - 1], c) {
        HiddenNow(ops, c);
        IntoPoolIsWrong(ops, c);
      } else if ops[|ops| - 1] == LABEL && c == WORD_SIZE * |Run(ops).buffer.code| {
        NewLabelOk(ops);
      } else if c in Labels(ops) {
        OldLabelOk(ops, c);
      }
    }
  }

  lemma FirstJump()
    ensures var s := Step(INITIAL, Jump(AL, PC, false));
            && |s.buffer.code| == |s.buffer.pool| == |s.layout.pos| == 1 && Step(s, LABEL) == s
            && After([], Jump(AL, PC, false)) == [Load(AL, PC, INVALID_BRANCH_TARGET, false)]
  {
  }

  lemma LinkKeepsPool(s: Session, i: nat, target: Word)
    ensures |Step(s, Link(i, target)).buffer.pool| == |s.buffer.pool|
  {
  }

  /** This happens: a jump, a label that it is linked to, and a flush without a barrier. */
  lemma HiddenLabel() returns (ops: seq<Op>, c: Word)
    ensures IsLegalRun(ops) && Hidden(ops, c) && c in Labels(ops) && !LabelOk(ops, c)
    ensures ItemsOf(ops) == [Load(AL, PC, c, false)]
  {
    var labelled := JumpAndLabel();
    LinkToLabel(labelled);
    var linked := labelled + [Link(0, WORD_SIZE)];
    ops, c := linked + [FlushNoBarrier(true)], WORD_SIZE;
    OneMore(linked, FlushNoBarrier(true));
    LabelsReach(ops, c);
  }

  lemma LinkToLabel(ops: seq<Op>)
    requires IsLegalRun(ops) && Run(ops).buffer.pool != []
    requires ItemsOf(ops) == [Load(AL, PC, INVALID_BRANCH_TARGET, false)]
    ensures var linked := ops + [Link(0, WORD_SIZE)];
            && IsLegalRun(linked) && Labels(linked) == Labels(ops) && Run(linked).buffer.pool != []
            && ItemsOf(linked) == [Load(AL, PC, WORD_SIZE, false)]
  {
    OneMore(ops, Link(0, WORD_SIZE));
    LinkKeepsPool(Run(ops), 0, WORD_SIZE);
  }

  lemma JumpAndLabel() returns (ops: seq<Op>)
    ensures IsLegalRun(ops) && Labels(ops) == map[WORD_SIZE := 1] && Run(ops).buffer.pool != []
    ensures ItemsOf(ops) == [Load(AL, PC, INVALID_BRANCH_TARGET, false)]
  {
    var jump := [] + [Jump(AL, PC, false)];
    ops := jump + [LABEL];
    FirstJump();
    OneMore([], Jump(AL, PC, false));
    OneMore(jump, LABEL);
  }

  // --- what is put next lands on the label

  lemma RoomForAny(b: Buffer)
    requires !NoSpaceForBoth(b, 4, 8) && 0 <= b.lastConstDelta
    ensures !NoSpaceFor(b, WORD_SIZE) && !NoSpaceForBoth(b, WORD_SIZE, WORD_SIZE)
  {
  }

  lemma LabelMadeRoom(s: Session, items: seq<Item>)
    requires Ok(s, items)
    ensures var t := Step(s, LABEL); Ok(t, items) && !NoSpaceForBoth(t.buffer, 4, 8) && 0 <= t.buffer.lastConstDelta
  {
    FlushKeepsOk(s, items, NoSpaceForBoth(s.buffer, 4, 8));
  }

  /** An instruction put right after a label starts exactly there: no pool comes in between. */
  lemma PutLandsOnLabel(ops: seq<Op>, op: Op)
    requires IsLegalRun(ops) && ops != [] && ops[|ops| - 1] == LABEL
    requires IsLegalOp(Run(ops), ItemsOf(ops), op) && IsPut(op)
    ensures var lay, n := Step(Run(ops), op).layout, |ItemsOf(ops)|;
            n < |lay.pos| && WORD_SIZE * lay.pos[n] in Labels(ops) && Labels(ops)[WORD_SIZE * lay.pos[n]] == n
  {
    var before := ops[..|ops| - 1];
    RunIsOk(before);
    LabelMadeRoom(Run(before), ItemsOf(before));
    assert After(ItemsOf(before), LABEL) == ItemsOf(before);
    PutPlaces(Run(ops), ItemsOf(ops), op);
  }

  lemma PutPlaces(s: Session, items: seq<Item>, op: Op)
    requires Ok(s, items) && !NoSpaceForBoth(s.buffer, 4, 8) && 0 <= s.buffer.lastConstDelta
    requires IsLegalOp(s, items, op) && IsPut(op)
    ensures var lay := Step(s, op).layout; |items| < |lay.pos| && lay.pos[|items|] == |s.buffer.code|
  {
    RoomForAny(s.buffer);
    assert Placed(|s.buffer.code|, |items|, s.layout);
  }
}
