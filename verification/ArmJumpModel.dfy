/** Jumps on top of the constant pool: what ARMAssembler::linkJump, loadBranchTarget and the pool
    operations do to the buffer, and what a whole run of them keeps. */
module ArmJumpModel {
  import opened ArmWords
  import opened PoolModel
  import opened PoolLayout
  import opened PoolSteps
  import opened BaseTypes

  const INVALID_BRANCH_TARGET: Word := 0xffff_ffff

  // --- linking

  /** Write a jump target into the constant of the load at word index p, in the pool buffer if the
      load still carries a tag and in the code if it has been resolved. */
  function LinkLoad(b: Buffer, p: nat, target: Word): Buffer
    requires p < |b.code|
  {
    var w := b.code[p];
    if w % 2 == 1 then
      var k := Offset(w) / 2;
      if k < |b.pool| then b.(pool := b.pool[k := b.pool[k].(constant := target)]) else b
    else
      var q := ReadIndex(p, w);
      if 0 <= q < |b.code| then b.(code := b.code[q := target]) else b
  }

  function Linked(items: seq<Item>, i: nat, target: Word): seq<Item>
    requires i < |items| && items[i].Load?
  {
    items[i := items[i].(constant := target)]
  }

  lemma LinkWrites(b: Buffer, items: seq<Item>, lay: Layout, i: nat, target: Word)
    requires Inv(b, items, lay) && i < |items| && items[i].Load?
    ensures LinkLoad(b, lay.pos[i], target)
            == match lay.places[i]
               case Pending(k) => if k < |b.pool| then b.(pool := b.pool[k := b.pool[k].(constant := target)]) else b
               case At(q) => if q < |b.code| then b.(code := b.code[q := target]) else b
  {
    assert ItemOk(b, items, lay, i);
    EncodedLoad(items[i].cond, items[i].rd, lay.pos[i], lay.places[i]);
    OffsetParity(b.code[lay.pos[i]]);
  }

  lemma OffsetParity(w: Word)
    ensures w % 2 == Offset(w) % 2
  {
  }

  lemma LinkKeepsItem(b: Buffer, items: seq<Item>, lay: Layout, i: nat, target: Word, j: nat)
    requires Inv(b, items, lay) && UniqueOk(items, lay)
    requires i < |items| && items[i].Load? && !items[i].reusable && j < |items|
    ensures |LinkLoad(b, lay.pos[i], target).code| == |b.code|
    ensures ItemOk(LinkLoad(b, lay.pos[i], target), Linked(items, i, target), lay, j)
  {
    LinkWrites(b, items, lay, i, target);
    assert ItemOk(b, items, lay, i) && ItemOk(b, items, lay, j);
    if i != j && items[j].Load? { assert lay.places[i] != lay.places[j]; }
  }

  /** Linking a unique load changes the constant of that load and of no other, wherever the pool
      was flushed in between. */
  lemma LinkKeepsInv(b: Buffer, items: seq<Item>, lay: Layout, i: nat, target: Word)
    requires Inv(b, items, lay) && UniqueOk(items, lay)
    requires i < |items| && items[i].Load? && !items[i].reusable
    ensures Inv(LinkLoad(b, lay.pos[i], target), Linked(items, i, target), lay)
    ensures UniqueOk(Linked(items, i, target), lay)
  {
    var b', items' := LinkLoad(b, lay.pos[i], target), Linked(items, i, target);
    LinkWrites(b, items, lay, i, target);
    forall j | 0 <= j < |items'| ensures ItemOk(b', items', lay, j) {
      LinkKeepsItem(b, items, lay, i, target, j);
    }
    LinkKeepsBarriers(b, items, lay, i, target);
    LinkKeepsFlow(b, items, lay, i, target);
  }

  lemma LinkKeepsBarriers(b: Buffer, items: seq<Item>, lay: Layout, i: nat, target: Word)
    requires Inv(b, items, lay) && i < |items| && items[i].Load?
    ensures |LinkLoad(b, lay.pos[i], target).code| == |lay.roles|
            && BarriersOk(LinkLoad(b, lay.pos[i], target).code, lay)
  {
    var b' := LinkLoad(b, lay.pos[i], target);
    LinkWrites(b, items, lay, i, target);
    assert ItemOk(b, items, lay, i);
    forall p | 0 <= p < |b.code| && lay.roles[p].Barrier? ensures BarrierOk(b'.code, lay, p) {
      assert BarrierOk(b.code, lay, p);
    }
  }

  lemma LinkKeepsFlow(b: Buffer, items: seq<Item>, lay: Layout, i: nat, target: Word)
    requires Inv(b, items, lay) && i < |items| && items[i].Load?
    ensures FlowOk(Linked(items, i, target), lay)
    ensures forall k :: 0 <= k < |b.loads| ==> IsPendingLoad(b.loads[k], Linked(items, i, target), lay)
  {
    var items' := Linked(items, i, target);
    forall j | 0 <= j < |items'| ensures FlowsOn(items', lay, j) {
      assert FlowsOn(items, lay, j);
    }
    forall k | 0 <= k < |b.loads| ensures IsPendingLoad(b.loads[k], items', lay) {
      assert IsPendingLoad(b.loads[k], items, lay);
    }
  }

  // --- runs

  datatype Op =
    | PutWord(word: Word)
    | PutLoad(cond: nat, rd: nat, constant: Word, reusable: bool)
    | Jump(cond: nat, rd: nat, useConstantPool: bool)
    | EnsureSpace(insnSize: nat)
    | EnsureSpaceForBoth(insnSize: nat, constSize: nat)
    | FlushPool
    | FlushNoBarrier(isForced: bool)
    | Link(item: nat, target: Word)

  /** The instruction list an operation sequence stands for; no pool, no barrier, no alignment. */
  function After(items: seq<Item>, op: Op): seq<Item> {
    match op
    case PutWord(w) => items + [Plain(w)]
    case PutLoad(cond, rd, constant, reusable) => items + [Load(cond, rd, constant, reusable)]
    case Jump(cond, rd, _) => items + [Load(cond, rd, INVALID_BRANCH_TARGET, false)]
    case Link(i, target) => if i < |items| && items[i].Load? then Linked(items, i, target) else items
    case _ => items
  }

  function ItemsOf(ops: seq<Op>): seq<Item> {
    if ops == [] then [] else After(ItemsOf(ops[..|ops| - 1]), ops[|ops| - 1])
  }

  /** The assembler with its layout: m_buffer, and m_jumps as byte offsets with the pool flag in
      their lowest bit. */
  datatype Session = Session(buffer: Buffer, jumps: seq<nat>, layout: Layout)

  const INITIAL := Session(EMPTY, [], Layout([], [], []))

  function LayoutBefore(s: Session, flushed: bool): Layout {
    if flushed then LayoutFlush(s.buffer, s.layout, true) else s.layout
  }

  function MakeRoom(s: Session, insnSize: int, constSize: int): Session {
    s.(buffer := FlushIfNoSpaceForBoth(s.buffer, insnSize, constSize),
       layout := LayoutBefore(s, NoSpaceForBoth(s.buffer, insnSize, constSize)))
  }

  function AddLoad(s: Session, cond: nat, rd: nat, constant: Word, reusable: bool): Session
    requires cond < 16 && rd < 16
  {
    s.(buffer := PutIntWithConstantInt(s.buffer, LoadWord(cond, rd), constant, reusable),
       layout := LayoutPut(LayoutBefore(s, NoSpaceForBoth(s.buffer, WORD_SIZE, 4)),
                           Pending(SlotFor(ReadyForConst(s.buffer).pool, constant, reusable))))
  }

  /** loadBranchTarget makes room first, so that the offset it records is that of the load. */
  function LoadBranchTarget(s: Session, cond: nat, rd: nat, useConstantPool: bool): Session
    requires cond < 16 && rd < 16
  {
    var t := MakeRoom(s, WORD_SIZE, WORD_SIZE);
    AddLoad(t, cond, rd, INVALID_BRANCH_TARGET, false)
      .(jumps := s.jumps + [WORD_SIZE * |t.buffer.code| + if useConstantPool then 1 else 0])
  }

  function AddWord(s: Session, w: Word): Session {
    s.(buffer := PutInt(s.buffer, w),
       layout := LayoutPut(LayoutBefore(s, NoSpaceFor(s.buffer, WORD_SIZE)), Pending(0)))
  }

  function FlushBare(s: Session): Session {
    s.(buffer := Flush(s.buffer, false), layout := LayoutFlush(s.buffer, s.layout, false))
  }

  function Step(s: Session, op: Op): Session {
    var b := s.buffer;
    match op
    case PutWord(w) => AddWord(s, w)
    case PutLoad(cond, rd, constant, reusable) =>
      if cond < 15 && rd < 16 then AddLoad(s, cond, rd, constant, reusable) else s
    case Jump(cond, rd, useConstantPool) =>
      if cond < 15 && rd < 16 then LoadBranchTarget(s, cond, rd, useConstantPool) else s
    case EnsureSpace(n) =>
      s.(buffer := FlushIfNoSpaceFor(b, n), layout := LayoutBefore(s, NoSpaceFor(b, n)))
    case EnsureSpaceForBoth(n, m) => MakeRoom(s, n, m)
    case FlushPool =>
      s.(buffer := Flush(b, true), layout := LayoutBefore(s, true))
    case FlushNoBarrier(isForced) =>
      if isForced || 5 * |b.pool| > 3 * MAX_POOL_SIZE / WORD_SIZE
      then FlushBare(s) else s
    case Link(i, target) =>
      if i < |s.layout.pos| && s.layout.pos[i] < |b.code| then s.(buffer := LinkLoad(b, s.layout.pos[i], target)) else s
  }

  function Run(ops: seq<Op>): Session {
    if ops == [] then INITIAL else Step(Run(ops[..|ops| - 1]), ops[|ops| - 1])
  }

  /** This is a flush without a barrier that has constants to write. */
  predicate FlushesBare(s: Session, op: Op) {
    op.FlushNoBarrier? && s.buffer.pool != [] && (op.isForced || 5 * |s.buffer.pool| > 3 * MAX_POOL_SIZE / WORD_SIZE)
  }

  predicate IsPut(op: Op) { op.PutWord? || op.PutLoad? || op.Jump? }

  /** What the callers of an operation promise. */
  predicate IsLegalOp(s: Session, items: seq<Item>, op: Op) {
    match op
    case PutWord(w) => IsLegalItem(Plain(w))
    case PutLoad(cond, rd, _, _) => cond < 15 && rd < 16
    case Jump(cond, rd, useConstantPool) => cond < 15 && rd < 16 && (useConstantPool || rd == PC)
    case FlushNoBarrier(_) => FlushesBare(s, op) ==> items != [] && IsUnconditionalTransfer(items[|items| - 1])
    case Link(i, target) => i < |items| && items[i].Load? && !items[i].reusable && target % 4 == 0
    case _ => true
  }

  predicate IsLegalRun(ops: seq<Op>) {
    ops == []
    || (var before := ops[..|ops| - 1];
        IsLegalRun(before) && IsLegalOp(Run(before), ItemsOf(before), ops[|ops| - 1]))
  }

  lemma RunMore(ops: seq<Op>, op: Op)
    ensures Run(ops + [op]) == Step(Run(ops), op) && ItemsOf(ops + [op]) == After(ItemsOf(ops), op)
    ensures IsLegalRun(ops + [op]) <==> IsLegalRun(ops) && IsLegalOp(Run(ops), ItemsOf(ops), op)
  {
    assert (ops + [op])[..|ops|] == ops;
  }

  // --- what every step keeps

  lemma ResetKeepsInv(b: Buffer, items: seq<Item>, lay: Layout)
    requires Inv(b, items, lay) && b.pool == []
    ensures Inv(b.(maxDistance := MAX_POOL_SIZE), items, lay)
  {
    ItemsOkFrame(b, b.(maxDistance := MAX_POOL_SIZE), items, lay);
  }

  ghost predicate Ok(s: Session, items: seq<Item>) {
    Inv(s.buffer, items, s.layout) && UniqueOk(items, s.layout)
  }

  /** Flushing when there is no room. */
  lemma FlushKeepsOk(s: Session, items: seq<Item>, flushed: bool)
    requires Ok(s, items)
    ensures Ok(s.(buffer := if flushed then Flush(s.buffer, true) else s.buffer, layout := LayoutBefore(s, flushed)),
               items)
    ensures flushed ==> Flush(s.buffer, true).pool == []
  {
    if flushed {
      FlushKeepsInv(s.buffer, items, s.layout, true);
      FlushKeepsUnique(s.buffer, items, s.layout, true);
    }
  }

  lemma ReadyKeepsInv(s: Session, items: seq<Item>)
    requires Ok(s, items)
    ensures var lay := LayoutBefore(s, NoSpaceForBoth(s.buffer, WORD_SIZE, 4));
            Inv(ReadyForConst(s.buffer), items, lay) && UniqueOk(items, lay)
    ensures ReadyToLoad(ReadyForConst(s.buffer))
  {
    if s.buffer.pool == [] {
      ResetKeepsInv(s.buffer, items, s.layout);
    } else {
      FlushKeepsOk(s, items, NoSpaceForBoth(s.buffer, WORD_SIZE, 4));
    }
  }

  lemma AddLoadKeepsOk(s: Session, items: seq<Item>, item: Item)
    requires Ok(s, items) && item.Load? && item.cond < 16 && item.rd < 16
    ensures Ok(AddLoad(s, item.cond, item.rd, item.constant, item.reusable), items + [item])
  {
    ReadyKeepsInv(s, items);
    var c, lay := ReadyForConst(s.buffer), LayoutBefore(s, NoSpaceForBoth(s.buffer, WORD_SIZE, 4));
    LoadKeepsInv(c, items, lay, item);
    AppendLoadKeepsUnique(c, items, lay, item);
  }

  lemma PutWordKeepsOk(s: Session, items: seq<Item>, w: Word)
    requires Ok(s, items)
    ensures Ok(AddWord(s, w), items + [Plain(w)])
  {
    FlushKeepsOk(s, items, NoSpaceFor(s.buffer, WORD_SIZE));
    var c, lay := FlushIfNoSpaceFor(s.buffer, WORD_SIZE), LayoutBefore(s, NoSpaceFor(s.buffer, WORD_SIZE));
    PutKeepsInv(c, items, lay, w);
    PutKeepsUnique(items, lay, w);
  }

  lemma PutKeepsUnique(items: seq<Item>, lay: Layout, w: Word)
    requires |lay.places| == |items| && UniqueOk(items, lay)
    ensures UniqueOk(items + [Plain(w)], LayoutPut(lay, Pending(0)))
  {
  }

  lemma FlushNoBarrierKeepsOk(s: Session, items: seq<Item>)
    requires Ok(s, items)
    requires s.buffer.pool != [] ==> items != [] && IsUnconditionalTransfer(items[|items| - 1])
    ensures Ok(FlushBare(s), items)
    ensures Flush(s.buffer, false).pool == []
  {
    FlushKeepsInv(s.buffer, items, s.layout, false);
    FlushKeepsUnique(s.buffer, items, s.layout, false);
  }

  lemma JumpKeepsOk(s: Session, items: seq<Item>, cond: nat, rd: nat, useConstantPool: bool)
    requires Ok(s, items) && cond < 15 && rd < 16
    ensures Ok(Step(s, Jump(cond, rd, useConstantPool)), After(items, Jump(cond, rd, useConstantPool)))
  {
    FlushKeepsOk(s, items, NoSpaceForBoth(s.buffer, WORD_SIZE, WORD_SIZE));
    AddLoadKeepsOk(MakeRoom(s, WORD_SIZE, WORD_SIZE), items, Load(cond, rd, INVALID_BRANCH_TARGET, false));
  }

  lemma PutKeepsOk(s: Session, items: seq<Item>, op: Op)
    requires Ok(s, items) && IsLegalOp(s, items, op) && (op.PutWord? || op.PutLoad? || op.Jump? || op.Link?)
    ensures Ok(Step(s, op), After(items, op))
  {
    match op
    case PutWord(w) => PutWordKeepsOk(s, items, w);
    case PutLoad(cond, rd, constant, reusable) => AddLoadKeepsOk(s, items, Load(cond, rd, constant, reusable));
    case Jump(cond, rd, useConstantPool) => JumpKeepsOk(s, items, cond, rd, useConstantPool);
    case Link(i, target) => LinkKeepsInv(s.buffer, items, s.layout, i, target);
  }

  lemma RoomKeepsOk(s: Session, items: seq<Item>, op: Op)
    requires Ok(s, items) && IsLegalOp(s, items, op) && !(op.PutWord? || op.PutLoad? || op.Jump? || op.Link?)
    ensures Ok(Step(s, op), items) && After(items, op) == items
  {
    match op
    case EnsureSpace(n) => FlushKeepsOk(s, items, NoSpaceFor(s.buffer, n));
    case EnsureSpaceForBoth(n, m) => FlushKeepsOk(s, items, NoSpaceForBoth(s.buffer, n, m));
    case FlushPool => FlushKeepsOk(s, items, true);
    case FlushNoBarrier(_) => if s.buffer.pool == [] || FlushesBare(s, op) { FlushNoBarrierKeepsOk(s, items); }
  }

  /** Every operation keeps the layout invariant for the instruction list it stands for. */
  lemma StepKeepsOk(s: Session, items: seq<Item>, op: Op)
    requires Ok(s, items) && IsLegalOp(s, items, op)
    ensures Ok(Step(s, op), After(items, op))
  {
    if op.PutWord? || op.PutLoad? || op.Jump? || op.Link? {
      PutKeepsOk(s, items, op);
    } else {
      RoomKeepsOk(s, items, op);
    }
  }

  lemma AfterKeepsLegal(s: Session, items: seq<Item>, op: Op)
    requires AllLegal(items) && IsLegalOp(s, items, op)
    ensures AllLegal(After(items, op))
  {
    forall i | 0 <= i < |After(items, op)| ensures IsLegalItem(After(items, op)[i]) {
      if i < |items| { assert IsLegalItem(items[i]); }
    }
  }

  lemma {:induction false} RunIsOk(ops: seq<Op>)
    requires IsLegalRun(ops)
    ensures Ok(Run(ops), ItemsOf(ops)) && AllLegal(ItemsOf(ops))
  {
    if ops != [] {
      var before, op := ops[..|ops| - 1], ops[|ops| - 1];
      RunIsOk(before);
      StepKeepsOk(Run(before), ItemsOf(before), op);
      AfterKeepsLegal(Run(before), ItemsOf(before), op);
    }
  }

  // --- theorems about whole runs

  /** For every legal run that has been flushed, executing the emitted words from the start, or from
      wherever an instruction ended up, performs exactly the instruction list from there on; the words
      visited are those of the instructions, in order, and barriers. */
  lemma RunExecutes(ops: seq<Op>)
    requires IsLegalRun(ops) && Run(ops).buffer.pool == []
    ensures var s, items := Run(ops), ItemsOf(ops);
            && WordEvents(s.buffer.code, 0) == ItemEvents(items, 0)
            && |s.layout.pos| == |items|
            && (forall i :: 0 <= i < |items| ==> WordEvents(s.buffer.code, s.layout.pos[i]) == ItemEvents(items, i))
            && InsnsOf(s.layout, WordVisits(s.buffer.code, 0)) == ItemsFrom(items, 0)
            && OnlyCode(s.layout, WordVisits(s.buffer.code, 0))
  {
    RunIsOk(ops);
    var s, items := Run(ops), ItemsOf(ops);
    InvIsRunnable(s.buffer, items, s.layout);
    RunsFrom(s.buffer.code, items, s.layout, 0, 0);
    VisitsFrom(s.buffer.code, items, s.layout, 0, 0);
    forall i | 0 <= i < |items| ensures WordEvents(s.buffer.code, s.layout.pos[i]) == ItemEvents(items, i) {
      ExecutesItems(s.buffer, items, s.layout, i);
    }
  }

  // --- a run that starves

  const NOP: Word := 0xe1a0_0000

  /** One constant, n plain instructions. */
  function FillOps(n: nat): seq<Op> {
    if n == 0 then [PutLoad(AL, 0, 1, true)] else FillOps(n - 1) + [PutWord(NOP)]
  }

  predicate IsFilled(b: Buffer, n: nat) {
    |b.pool| == 1 && b.maxDistance == 2044 - 4 * n && b.lastConstDelta == if n == 0 then 4 else 0
  }

  predicate FillsUp(n: nat) { IsLegalRun(FillOps(n)) && IsFilled(Run(FillOps(n)).buffer, n) }

  lemma {:induction false} FilledState(n: nat)
    requires n <= 509
    ensures FillsUp(n)
    decreases n
  {
    if n == 0 {
      FirstConstant();
    } else {
      FilledState(n - 1);
      FillMore(n);
    }
  }

  lemma FirstConstant()
    ensures FillsUp(0)
  {
    assert FillOps(0)[..0] == [];
  }

  lemma FillMore(n: nat)
    requires 0 < n <= 509
    ensures FillsUp(n - 1) ==> FillsUp(n)
  {
    assert FillOps(n)[..|FillOps(n)| - 1] == FillOps(n - 1);
    assert High(NOP) == 0xe1a0;
    FillStep(Run(FillOps(n - 1)).buffer, n - 1);
  }

  lemma FillStep(b: Buffer, n: nat)
    requires n <= 508
    ensures IsFilled(b, n) ==> IsFilled(PutInt(b, NOP), n + 1)
  {
  }

  /** Legal runs get there: a constant, 508 instructions, and another constant. */
  lemma StarvedRunExists() returns (ops: seq<Op>)
    ensures IsLegalRun(ops) && IsStarved(Run(ops).buffer) && |ops| == 510
  {
    FilledState(508);
    FillSize(508);
    ops := FillOps(508) + [PutLoad(AL, 0, 2, true)];
    assert ops[..|ops| - 1] == FillOps(508);
  }

  lemma {:induction false} FillSize(n: nat)
    ensures |FillOps(n)| == n + 1
  {
    if n > 0 { FillSize(n - 1); }
  }

  /** The load at p still names a slot of the pool, and the distance to that slot after a flush is
      a 12-bit number. */
  predicate OffsetFits(b: Buffer, front: nat, p: nat) {
    p < |b.code| && IsPcLoad(b.code[p]) && Offset(b.code[p]) % 2 == 1
    && Offset(b.code[p]) / 2 < |b.pool|
    && p < front && (front - p - 2 + Offset(b.code[p]) / 2) * WORD_SIZE <= 0xfff
  }

  lemma PendingOffsetFits(b: Buffer, items: seq<Item>, lay: Layout, useBarrier: bool, k: nat, front: nat)
    requires Inv(b, items, lay) && k < |b.loads| && front == |BeforePool(b, useBarrier)|
    ensures front % 2 == 0 && OffsetFits(b, front, b.loads[k])
  {
    FlushInRange(b, items, lay, useBarrier, k);
    var i := lay.roles[b.loads[k]].item;
    assert ItemOk(b, items, lay, i);
    TaggedFits(b, front, b.loads[k], items[i].cond, items[i].rd, lay.places[i].slot);
  }

  lemma TaggedFits(b: Buffer, front: nat, p: nat, cond: nat, rd: nat, slot: nat)
    requires p < |b.code| && cond < 16 && rd < 16 && slot < |b.pool| && slot < 2048
    requires b.code[p] == EncodeLoad(cond, rd, p, Pending(slot))
    requires p < front && (front - p - 2 + slot) * WORD_SIZE <= 0xfff
    ensures OffsetFits(b, front, p)
  {
    EncodedLoad(cond, rd, p, Pending(slot));
    assert (2 * slot + 1) / 2 == slot;
  }

  /** In every reachable state with a pool, m_maxDistance is at most the pool size minus the bytes
      since the first pending load; so any flush finds at most 511 constants, puts them at an 8-byte
      boundary and writes offsets that fit their 12 bits. */
  lemma RunFlushInRange(ops: seq<Op>, useBarrier: bool)
    requires IsLegalRun(ops) && Run(ops).buffer.pool != []
    ensures var b, front := Run(ops).buffer, |BeforePool(Run(ops).buffer, useBarrier)|;
            && |b.pool| <= 511 && b.loads != []
            && b.maxDistance + WORD_SIZE * (|b.code| - b.loads[0]) <= MAX_POOL_SIZE
            && front % 2 == 0
            && forall k :: 0 <= k < |b.loads| ==> OffsetFits(b, front, b.loads[k])
  {
    RunIsOk(ops);
    var s, items := Run(ops), ItemsOf(ops);
    var b, front := s.buffer, |BeforePool(s.buffer, useBarrier)|;
    assert DistanceOk(b, s.layout);
    forall k | 0 <= k < |b.loads| ensures front % 2 == 0 && OffsetFits(b, front, b.loads[k]) {
      PendingOffsetFits(b, items, s.layout, useBarrier, k, front);
    }
    assert front % 2 == 0 by { PendingOffsetFits(b, items, s.layout, useBarrier, 0, front); }
  }
}
