/** Padding in front of a pool: control that strays there stops at a breakpoint, in every run. */
module PoolPadding {
  import opened ArmWords
  import opened PoolModel
  import opened PoolLayout
  import opened PoolSteps
  import opened ArmJumpModel
  import opened BaseTypes

  predicate PadsTrap(code: seq<Word>, lay: Layout) {
    |lay.roles| == |code| && forall p :: 0 <= p < |code| && lay.roles[p] == Pad ==> IsBreakpoint(code[p])
  }

  lemma FlushPads(b: Buffer, items: seq<Item>, lay: Layout, useBarrier: bool)
    requires Inv(b, items, lay) && PadsTrap(b.code, lay)
    ensures PadsTrap(Flush(b, useBarrier).code, LayoutFlush(b, lay, useBarrier))
  {
    if b.pool != [] {
      LoadsAreInCode(b, items, lay);
      forall p | 0 <= p < |b.code| && lay.roles[p] == Pad ensures p !in b.loads {
        NotPending(b, items, lay, p);
      }
      FlushAddsWords(b, useBarrier);
      PadWritten(b, lay, useBarrier);
    }
  }

  /** The one word of padding, if there is any, stands right before the pool. */
  lemma PadPlace(b: Buffer, lay: Layout, useBarrier: bool, p: nat)
    requires |lay.roles| == |b.code| <= p && b.pool != []
    requires var roles := LayoutFlush(b, lay, useBarrier).roles; p < |roles| && roles[p] == Pad
    ensures Padding(|b.code|, useBarrier) == 1 && p == |b.code| + if useBarrier then 1 else 0
  {
  }

  lemma PadWord(b: Buffer, useBarrier: bool)
    requires Padding(|b.code|, useBarrier) == 1
    ensures var front, p := BeforePool(b, useBarrier), |b.code| + if useBarrier then 1 else 0;
            |front| == p + 1 && front[p] == PAD_FOR_ALIGN32
  {
  }

  /** Patching the loads leaves the words in front of the pool that are no loads. */
  lemma FrontKept(b: Buffer, useBarrier: bool, p: nat)
    requires b.pool != [] && p < |BeforePool(b, useBarrier)| && p !in b.loads
    ensures Flush(b, useBarrier).code[p] == BeforePool(b, useBarrier)[p]
  {
    var front := BeforePool(b, useBarrier);
    assert (front + Constants(b.pool))[p] == front[p];
  }

  lemma FlushSizes(b: Buffer, lay: Layout, useBarrier: bool)
    requires |lay.roles| == |b.code| && b.pool != []
    ensures |LayoutFlush(b, lay, useBarrier).roles| == |Flush(b, useBarrier).code|
            == |BeforePool(b, useBarrier)| + |b.pool|
  {
  }

  lemma PadWritten(b: Buffer, lay: Layout, useBarrier: bool)
    requires |lay.roles| == |b.code| && b.pool != [] && LoadsInCode(b)
    ensures var lay', code' := LayoutFlush(b, lay, useBarrier), Flush(b, useBarrier).code;
            && |lay'.roles| == |code'|
            && forall p :: |b.code| <= p < |code'| && lay'.roles[p] == Pad ==> IsBreakpoint(code'[p])
  {
    var lay', code' := LayoutFlush(b, lay, useBarrier), Flush(b, useBarrier).code;
    FlushSizes(b, lay, useBarrier);
    forall p | |b.code| <= p < |code'| && lay'.roles[p] == Pad ensures IsBreakpoint(code'[p]) {
      PadPlace(b, lay, useBarrier, p);
      PadWord(b, useBarrier);
      assert p !in b.loads;
      FrontKept(b, useBarrier, p);
    }
  }

  lemma LinkPads(b: Buffer, items: seq<Item>, lay: Layout, i: nat, target: Word)
    requires Inv(b, items, lay) && i < |items| && items[i].Load? && PadsTrap(b.code, lay)
    ensures PadsTrap(LinkLoad(b, lay.pos[i], target).code, lay)
  {
    LinkWrites(b, items, lay, i, target);
    assert ItemOk(b, items, lay, i);
  }

  lemma AppendPads(code: seq<Word>, lay: Layout, w: Word, place: Place)
    requires PadsTrap(code, lay)
    ensures PadsTrap(code + [w], LayoutPut(lay, place))
  {
  }

  predicate SessionTraps(s: Session) { PadsTrap(s.buffer.code, s.layout) }

  lemma RoomPads(s: Session, items: seq<Item>, flushed: bool)
    requires Ok(s, items) && SessionTraps(s)
    ensures PadsTrap(if flushed then Flush(s.buffer, true).code else s.buffer.code, LayoutBefore(s, flushed))
  {
    FlushPads(s.buffer, items, s.layout, true);
  }

  lemma LoadPads(s: Session, items: seq<Item>, cond: nat, rd: nat, constant: Word, reusable: bool)
    requires Ok(s, items) && SessionTraps(s) && cond < 16 && rd < 16
    ensures SessionTraps(AddLoad(s, cond, rd, constant, reusable))
  {
    var flushed := NoSpaceForBoth(s.buffer, WORD_SIZE, 4);
    RoomPads(s, items, flushed);
    var slot := SlotFor(ReadyForConst(s.buffer).pool, constant, reusable);
    AppendPads(ReadyForConst(s.buffer).code, LayoutBefore(s, flushed), TagLoad(LoadWord(cond, rd), slot),
               Pending(slot));
  }

  lemma WordPads(s: Session, items: seq<Item>, w: Word)
    requires Ok(s, items) && SessionTraps(s)
    ensures SessionTraps(AddWord(s, w))
  {
    var flushed := NoSpaceFor(s.buffer, WORD_SIZE);
    RoomPads(s, items, flushed);
    AppendPads(FlushIfNoSpaceFor(s.buffer, WORD_SIZE).code, LayoutBefore(s, flushed), w, Pending(0));
  }

  lemma JumpPads(s: Session, items: seq<Item>, cond: nat, rd: nat, useConstantPool: bool)
    requires Ok(s, items) && SessionTraps(s) && cond < 16 && rd < 16
    ensures SessionTraps(LoadBranchTarget(s, cond, rd, useConstantPool))
  {
    var flushed := NoSpaceForBoth(s.buffer, WORD_SIZE, WORD_SIZE);
    FlushKeepsOk(s, items, flushed);
    RoomPads(s, items, flushed);
    LoadPads(MakeRoom(s, WORD_SIZE, WORD_SIZE), items, cond, rd, INVALID_BRANCH_TARGET, false);
  }

  lemma StepPads(s: Session, items: seq<Item>, op: Op)
    requires Ok(s, items) && IsLegalOp(s, items, op) && SessionTraps(s)
    ensures SessionTraps(Step(s, op))
  {
    match op
    case PutWord(w) => WordPads(s, items, w);
    case PutLoad(cond, rd, constant, reusable) => LoadPads(s, items, cond, rd, constant, reusable);
    case Jump(cond, rd, useConstantPool) => JumpPads(s, items, cond, rd, useConstantPool);
    case EnsureSpace(n) => RoomPads(s, items, NoSpaceFor(s.buffer, n));
    case EnsureSpaceForBoth(n, m) => RoomPads(s, items, NoSpaceForBoth(s.buffer, n, m));
    case FlushPool => RoomPads(s, items, true);
    case FlushNoBarrier(_) => FlushPads(s.buffer, items, s.layout, false);
    case Link(i, target) => LinkPads(s.buffer, items, s.layout, i, target);
  }

  /** In every legal run every word of padding is a breakpoint. */
  lemma {:induction false} RunPadsTrap(ops: seq<Op>)
    requires IsLegalRun(ops)
    ensures SessionTraps(Run(ops))
  {
    if ops != [] {
      var before := ops[..|ops| - 1];
      RunPadsTrap(before);
      RunIsOk(before);
      StepPads(Run(before), ItemsOf(before), ops[|ops| - 1]);
    }
  }
}
