/** Every operation of the constant-pool buffer keeps the layout invariant. */
module PoolSteps {
  import opened ArmWords
  import opened PoolModel
  import opened PoolLayout
  import opened BaseTypes

  // --- appending one instruction

  function LayoutPut(lay: Layout, place: Place): Layout {
    Layout(lay.roles + [Insn(|lay.pos|)], lay.pos + [|lay.roles|], lay.places + [place])
  }

  lemma AppendKeepsPlaced(size: nat, n: nat, lay: Layout, place: Place)
    requires Placed(size, n, lay)
    ensures Placed(size + 1, n + 1, LayoutPut(lay, place))
  {
    var lay' := LayoutPut(lay, place);
    forall p | 0 <= p < size + 1 && lay'.roles[p].Insn?
      ensures lay'.roles[p].item < n + 1 && lay'.pos[lay'.roles[p].item] == p
    {
      if p < size { assert lay'.roles[p] == lay.roles[p]; }
    }
  }

  lemma AppendKeepsReaches(lay: Layout, place: Place, q: nat, j: nat)
    requires Reaches(lay, q, j)
    ensures Reaches(LayoutPut(lay, place), q, j)
  {
  }

  lemma AppendKeepsBarriers(code: seq<Word>, w: Word, lay: Layout, place: Place)
    requires |code| == |lay.roles| && BarriersOk(code, lay)
    ensures BarriersOk(code + [w], LayoutPut(lay, place))
  {
    forall p | 0 <= p < |code| + 1 && LayoutPut(lay, place).roles[p].Barrier?
      ensures BarrierOk(code + [w], LayoutPut(lay, place), p)
    {
      assert BarrierOk(code, lay, p);
    }
  }

  lemma AppendKeepsFlow(items: seq<Item>, item: Item, lay: Layout, place: Place)
    requires Placed(|lay.roles|, |items|, lay) && FlowOk(items, lay)
    ensures |LayoutPut(lay, place).pos| == |items + [item]| && FlowOk(items + [item], LayoutPut(lay, place))
  {
    var lay', items' := LayoutPut(lay, place), items + [item];
    AppendKeepsReaches(lay, place, 0, 0);
    forall i | 0 <= i < |items'| ensures FlowsOn(items', lay', i) {
      if i < |items| {
        assert FlowsOn(items, lay, i);
        if !IsUnconditionalTransfer(items[i]) { AppendKeepsReaches(lay, place, lay.pos[i] + 1, i + 1); }
      }
    }
  }

  lemma PutKeepsItems(b: Buffer, items: seq<Item>, lay: Layout, w: Word)
    requires Placed(|b.code|, |items|, lay) && ItemsOk(b, items, lay)
    requires Placed(|b.code| + 1, |items| + 1, LayoutPut(lay, Pending(0)))
    ensures ItemsOk(b.(code := b.code + [w]), items + [Plain(w)], LayoutPut(lay, Pending(0)))
  {
    var b', items', lay' := b.(code := b.code + [w]), items + [Plain(w)], LayoutPut(lay, Pending(0));
    forall i | 0 <= i < |items'| ensures ItemOk(b', items', lay', i) {
      if i < |items| { assert ItemOk(b, items, lay, i); }
    }
  }

  lemma PutKeepsInv(b: Buffer, items: seq<Item>, lay: Layout, w: Word)
    requires Inv(b, items, lay) && !NoSpaceFor(b, WORD_SIZE)
    ensures Inv(CorrectDeltas(b.(code := b.code + [w]), WORD_SIZE), items + [Plain(w)], LayoutPut(lay, Pending(0)))
  {
    AppendKeepsPlaced(|b.code|, |items|, lay, Pending(0));
    AppendKeepsBarriers(b.code, w, lay, Pending(0));
    AppendKeepsFlow(items, Plain(w), lay, Pending(0));
    PutKeepsItems(b, items, lay, w);
    var b' := CorrectDeltas(b.(code := b.code + [w]), WORD_SIZE);
    assert ItemsOk(b', items + [Plain(w)], LayoutPut(lay, Pending(0))) by {
      ItemsOkFrame(b.(code := b.code + [w]), b', items + [Plain(w)], LayoutPut(lay, Pending(0)));
    }
    forall k | 0 <= k < |b.loads| ensures IsPendingLoad(b.loads[k], items + [Plain(w)], LayoutPut(lay, Pending(0))) {
      assert IsPendingLoad(b.loads[k], items, lay);
    }
  }

  lemma ItemsOkFrame(b: Buffer, b': Buffer, items: seq<Item>, lay: Layout)
    requires Placed(|b.code|, |items|, lay) && ItemsOk(b, items, lay)
    requires b'.code == b.code && b'.pool == b.pool && b'.loads == b.loads
    ensures ItemsOk(b', items, lay)
  {
    forall i | 0 <= i < |items| ensures ItemOk(b', items, lay, i) {
      assert ItemOk(b, items, lay, i);
    }
  }

  lemma TagFields(cond: nat, rd: nat, p: nat, slot: nat)
    requires cond < 16 && rd < 16 && slot <= 511
    ensures TagLoad(LoadWord(cond, rd), slot) == EncodeLoad(cond, rd, p, Pending(slot))
  {
    LoadFields(cond, rd, 0);
  }

  predicate ReadyToLoad(b: Buffer) {
    if b.pool == [] then b.maxDistance <= MAX_POOL_SIZE else !NoSpaceForBoth(b, WORD_SIZE, 4)
  }

  lemma AppendLoadKeepsItems(b: Buffer, items: seq<Item>, lay: Layout, item: Item)
    requires Placed(|b.code|, |items|, lay) && ItemsOk(b, items, lay)
    requires item.Load? && item.cond < 16 && item.rd < 16 && |b.pool| <= 510
    ensures var b' := AppendLoad(b, LoadWord(item.cond, item.rd), item.constant, item.reusable);
            var lay' := LayoutPut(lay, Pending(SlotFor(b.pool, item.constant, item.reusable)));
            Placed(|b'.code|, |items + [item]|, lay') && ItemsOk(b', items + [item], lay')
  {
    var slot := SlotFor(b.pool, item.constant, item.reusable);
    var insn := LoadWord(item.cond, item.rd);
    var b', items' := AppendLoad(b, insn, item.constant, item.reusable), items + [item];
    var lay' := LayoutPut(lay, Pending(slot));
    AppendKeepsPlaced(|b.code|, |items|, lay, Pending(slot));
    TagFields(item.cond, item.rd, |b.code|, slot);
    forall i | 0 <= i < |items'| ensures ItemOk(b', items', lay', i) {
      if i < |items| { assert ItemOk(b, items, lay, i); }
    }
  }

  lemma AppendLoadKeepsLoads(b: Buffer, items: seq<Item>, lay: Layout, item: Item, slot: nat)
    requires Placed(|b.code|, |items|, lay) && LoadsOk(b, items, lay) && item.Load?
    ensures var loads := b.loads + [|b.code|];
            forall k :: 0 <= k < |loads| ==> IsPendingLoad(loads[k], items + [item], LayoutPut(lay, Pending(slot)))
  {
    forall k | 0 <= k < |b.loads| ensures IsPendingLoad(b.loads[k], items + [item], LayoutPut(lay, Pending(slot))) {
      assert IsPendingLoad(b.loads[k], items, lay);
    }
  }

  lemma AppendLoadKeepsUnique(b: Buffer, items: seq<Item>, lay: Layout, item: Item)
    requires Placed(|b.code|, |items|, lay) && ItemsOk(b, items, lay) && UniqueOk(items, lay) && item.Load?
    ensures UniqueOk(items + [item], LayoutPut(lay, Pending(SlotFor(b.pool, item.constant, item.reusable))))
  {
    var slot := SlotFor(b.pool, item.constant, item.reusable);
    forall i | 0 <= i < |items| && items[i].Load? && (!items[i].reusable || !item.reusable)
      ensures lay.places[i] != Pending(slot)
    {
      assert ItemOk(b, items, lay, i);
    }
  }

  lemma LoadKeepsInv(b: Buffer, items: seq<Item>, lay: Layout, item: Item)
    requires Inv(b, items, lay) && item.Load? && item.cond < 16 && item.rd < 16 && ReadyToLoad(b)
    ensures Inv(AppendLoad(b, LoadWord(item.cond, item.rd), item.constant, item.reusable), items + [item],
                LayoutPut(lay, Pending(SlotFor(b.pool, item.constant, item.reusable))))
  {
    var slot := SlotFor(b.pool, item.constant, item.reusable);
    AppendKeepsBarriers(b.code, TagLoad(LoadWord(item.cond, item.rd), slot), lay, Pending(slot));
    AppendKeepsFlow(items, item, lay, Pending(slot));
    AppendLoadKeepsItems(b, items, lay, item);
    AppendLoadKeepsLoads(b, items, lay, item, slot);
  }

  // --- flushing

  /** Where a flush moves the constant of a load. */
  function Moved(front: nat, place: Place): Place {
    if place.Pending? then At(front + place.slot) else place
  }

  function LayoutFlush(b: Buffer, lay: Layout, useBarrier: bool): Layout {
    if b.pool == [] then lay
    else
      var pad := Padding(|b.code|, useBarrier);
      var front := |b.code| + (if useBarrier then 1 else 0) + pad;
      Layout(lay.roles
             + (if useBarrier then [Barrier(front + |b.pool|)] else [])
             + (if pad == 1 then [Pad] else [])
             + seq(|b.pool|, k => Const),
             lay.pos,
             seq(|lay.places|, i requires 0 <= i < |lay.places| => Moved(front, lay.places[i])))
  }

  /** Resolving a tag turns it into the distance to its slot, and nothing else of the load changes. */
  lemma ResolveFields(cond: nat, rd: nat, p: nat, slot: nat, front: nat)
    requires cond < 16 && rd < 16 && slot <= 510 && 1 <= front - p <= 512
    ensures ResolveLoad(EncodeLoad(cond, rd, p, Pending(slot)), front - p) == EncodeLoad(cond, rd, p, At(front + slot))
  {
    LoadFields(cond, rd, 2 * slot + 1);
  }

  /** In every reachable state a flush puts the pool at an 8-byte boundary, and the offset written
      into each pending load fits its 12 bits. */
  lemma FlushInRange(b: Buffer, items: seq<Item>, lay: Layout, useBarrier: bool, k: nat)
    requires Inv(b, items, lay) && k < |b.loads|
    ensures |BeforePool(b, useBarrier)| % 2 == 0 && |b.pool| <= 511
    ensures IsPendingLoad(b.loads[k], items, lay)
    ensures var front, p := |BeforePool(b, useBarrier)|, b.loads[k];
            1 <= front - p <= 512
            && (front - p - 2 + lay.places[lay.roles[p].item].slot) * WORD_SIZE <= 0xfff
  {
    var p := b.loads[k];
    var i := lay.roles[p].item;
    assert IsPendingLoad(p, items, lay);
    assert ItemOk(b, items, lay, i);
  }

  lemma FlushBarrier(n: nat, consts: nat, pad: nat)
    requires 1 <= consts <= 511 && pad <= 1
    ensures PlaceBarrier(WORD_SIZE * consts + WORD_SIZE * pad) == EncodeBranch(n, n + 1 + pad + consts)
  {
  }

  lemma NotPending(b: Buffer, items: seq<Item>, lay: Layout, p: nat)
    requires |lay.pos| == |lay.places| == |items|
    requires forall k :: 0 <= k < |b.loads| ==> IsPendingLoad(b.loads[k], items, lay)
    requires !IsPendingLoad(p, items, lay)
    ensures p !in b.loads
  {
  }

  predicate LoadsInCode(b: Buffer) {
    forall l :: l in b.loads ==> l < |b.code|
  }

  lemma LoadsAreInCode(b: Buffer, items: seq<Item>, lay: Layout)
    requires Placed(|b.code|, |items|, lay) && LoadsOk(b, items, lay)
    ensures LoadsInCode(b)
  {
    forall l | l in b.loads ensures l < |b.code| {
      var k :| 0 <= k < |b.loads| && b.loads[k] == l;
      assert IsPendingLoad(b.loads[k], items, lay);
    }
  }

  /** lay' places the same items in the same words, and has more words behind them. */
  predicate Extends(lay: Layout, lay': Layout) {
    && lay'.pos == lay.pos && |lay.roles| < |lay'.roles|
    && forall p :: 0 <= p < |lay.roles| ==> lay'.roles[p] == lay.roles[p]
  }

  /** The layout behind the code after a flush; front is where the pool starts. */
  predicate RolesAdded(b: Buffer, lay: Layout, lay': Layout, front: nat, useBarrier: bool)
    requires |lay.roles| == |b.code|
  {
    var n := |b.code|;
    && n <= front && |lay'.roles| == front + |b.pool| && Extends(lay, lay')
    && (forall p :: n <= p < |lay'.roles| ==> !lay'.roles[p].Insn?)
    && (forall p :: n <= p < |lay'.roles| && lay'.roles[p].Barrier? ==> p == n && useBarrier)
    && (forall p :: front <= p < |lay'.roles| ==> lay'.roles[p] == Const)
    && (useBarrier ==> lay'.roles[n] == Barrier(|lay'.roles|))
    && |lay'.places| == |lay.places|
    && (forall i :: 0 <= i < |lay.places| ==> lay'.places[i] == Moved(front, lay.places[i]))
  }

  /** The words a flush adds behind the code, and the ones it leaves alone. */
  predicate WordsAdded(b: Buffer, code': seq<Word>, front: nat, useBarrier: bool)
  {
    var n := |b.code|;
    && n <= front && |code'| == front + |b.pool| && n < |code'| <= n + 0x1000
    && (forall p :: front <= p < |code'| ==> code'[p] == b.pool[p - front].constant)
    && (forall p :: 0 <= p < n && p !in b.loads ==> code'[p] == b.code[p])
    && (useBarrier ==> code'[n] == EncodeBranch(n, |code'|))
  }

  predicate PoolAdded(b: Buffer, lay: Layout, code': seq<Word>, lay': Layout, front: nat, useBarrier: bool)
    requires |lay.roles| == |b.code|
  {
    RolesAdded(b, lay, lay', front, useBarrier) && WordsAdded(b, code', front, useBarrier)
  }

  lemma FlushAddsRoles(b: Buffer, lay: Layout, useBarrier: bool)
    requires 1 <= |b.pool| && |lay.roles| == |b.code|
    ensures RolesAdded(b, lay, LayoutFlush(b, lay, useBarrier), |BeforePool(b, useBarrier)|, useBarrier)
  {
  }

  lemma FlushAddsWords(b: Buffer, useBarrier: bool)
    requires LoadsInCode(b) && 1 <= |b.pool| <= 511
    ensures WordsAdded(b, Flush(b, useBarrier).code, |BeforePool(b, useBarrier)|, useBarrier)
  {
    var front, code' := BeforePool(b, useBarrier), Flush(b, useBarrier).code;
    if useBarrier {
      FlushBarrier(|b.code|, |b.pool|, Padding(|b.code|, true));
      assert code'[|b.code|] == front[|b.code|];
    }
    forall p | |front| <= p < |code'| ensures code'[p] == b.pool[p - |front|].constant {
      assert p !in b.loads;
      assert (front + Constants(b.pool))[p] == Constants(b.pool)[p - |front|];
    }
    forall p | 0 <= p < |b.code| && p !in b.loads ensures code'[p] == b.code[p] {
      assert (front + Constants(b.pool))[p] == front[p] == b.code[p];
    }
  }

  lemma PoolKeepsPlaced(b: Buffer, items: seq<Item>, lay: Layout, code': seq<Word>, lay': Layout, front: nat,
                        useBarrier: bool)
    requires Placed(|b.code|, |items|, lay) && PoolAdded(b, lay, code', lay', front, useBarrier)
    ensures Placed(|code'|, |items|, lay')
  {
  }

  lemma PoolKeepsBarriers(b: Buffer, items: seq<Item>, lay: Layout, code': seq<Word>, lay': Layout, front: nat,
                          useBarrier: bool)
    requires Placed(|b.code|, |items|, lay) && BarriersOk(b.code, lay) && LoadsOk(b, items, lay) && b.pool != []
    requires PoolAdded(b, lay, code', lay', front, useBarrier)
    ensures BarriersOk(code', lay')
  {
    forall p | 0 <= p < |code'| && lay'.roles[p].Barrier? ensures BarrierOk(code', lay', p) {
      if p < |b.code| {
        assert BarrierOk(b.code, lay, p);
        NotPending(b, items, lay, p);
      }
    }
  }

  /** Only the last item notices the pool behind it. */
  lemma ExtendedReaches(code: seq<Word>, lay: Layout, lay': Layout, q: nat, j: nat)
    requires |lay.roles| == |code| && BarriersOk(code, lay) && Extends(lay, lay') && Reaches(lay, q, j)
    requires 0 < |code| && lay.roles[|code| - 1].Insn?
    requires q < |code| || lay'.roles[|code|] == Barrier(|lay'.roles|)
    ensures Reaches(lay', q, j)
  {
    if q < |code| && lay.roles[q].Barrier? {
      assert BarrierOk(code, lay, q);
    }
  }

  lemma OnlyLastIsLast(items: seq<Item>, lay: Layout, i: nat)
    requires Placed(|lay.roles|, |items|, lay) && 0 < |lay.roles| && i + 1 < |items|
    requires lay.roles[|lay.roles| - 1] == Insn(|items| - 1)
    ensures lay.pos[i] + 1 < |lay.roles|
  {
    assert lay.pos[|items| - 1] == |lay.roles| - 1;
  }

  lemma ExtendedFlow(code: seq<Word>, items: seq<Item>, lay: Layout, lay': Layout)
    requires Placed(|code|, |items|, lay) && BarriersOk(code, lay) && FlowOk(items, lay) && Extends(lay, lay')
    requires 0 < |code| && |items| > 0 && lay.roles[|code| - 1] == Insn(|items| - 1)
    requires IsUnconditionalTransfer(items[|items| - 1]) || lay'.roles[|code|] == Barrier(|lay'.roles|)
    ensures FlowOk(items, lay')
  {
    ExtendedReaches(code, lay, lay', 0, 0);
    forall i | 0 <= i < |items| ensures FlowsOn(items, lay', i) {
      assert FlowsOn(items, lay, i);
      if !IsUnconditionalTransfer(items[i]) {
        if i + 1 < |items| { OnlyLastIsLast(items, lay, i); }
        ExtendedReaches(code, lay, lay', lay.pos[i] + 1, i + 1);
      }
    }
  }

  /** The word at p is the load of this item, reading from this place. */
  predicate LoadsFrom(code: seq<Word>, item: Item, p: nat, place: Place) {
    p < |code| && item.Load? && item.cond < 16 && item.rd < 16 && IsReachable(p, place)
    && code[p] == EncodeLoad(item.cond, item.rd, p, place)
  }

  lemma FlushPatches(b: Buffer, useBarrier: bool, p: nat, cond: nat, rd: nat, slot: nat, front: nat)
    requires b.pool != [] && p in b.loads && p < |b.code| && front == |BeforePool(b, useBarrier)|
    requires cond < 16 && rd < 16 && slot <= 510 && 1 <= front - p <= 512
    requires b.code[p] == EncodeLoad(cond, rd, p, Pending(slot))
    ensures var code' := Flush(b, useBarrier).code;
            p < |code'| && code'[p] == EncodeLoad(cond, rd, p, At(front + slot))
  {
    var before := BeforePool(b, useBarrier);
    assert (before + Constants(b.pool))[p] == before[p] == b.code[p];
    ResolveFields(cond, rd, p, slot, front);
  }

  lemma FlushedLoad(b: Buffer, items: seq<Item>, lay: Layout, useBarrier: bool, i: nat, front: nat)
    requires Inv(b, items, lay) && b.pool != [] && i < |items| && items[i].Load? && lay.places[i].Pending?
    requires front == |BeforePool(b, useBarrier)|
    ensures LoadsFrom(Flush(b, useBarrier).code, items[i], lay.pos[i], At(front + lay.places[i].slot))
  {
    var p := lay.pos[i];
    assert ItemOk(b, items, lay, i);
    var k :| 0 <= k < |b.loads| && b.loads[k] == p;
    FlushInRange(b, items, lay, useBarrier, k);
    FlushPatches(b, useBarrier, p, items[i].cond, items[i].rd, lay.places[i].slot, front);
  }

  lemma PoolKeepsItem(b: Buffer, items: seq<Item>, lay: Layout, b': Buffer, lay': Layout, front: nat, useBarrier: bool,
                      i: nat)
    requires Placed(|b.code|, |items|, lay) && LoadsOk(b, items, lay) && i < |items|
    requires ItemOk(b, items, lay, i)
    requires PoolAdded(b, lay, b'.code, lay', front, useBarrier)
    requires items[i].Load? && lay.places[i].Pending? ==> LoadsFrom(b'.code, items[i], lay.pos[i], lay'.places[i])
    ensures ItemOk(b', items, lay', i)
  {
    if items[i].Load? && lay.places[i].Pending? {
      assert lay'.roles[front + lay.places[i].slot] == Const;
    } else {
      NotPending(b, items, lay, lay.pos[i]);
      if items[i].Load? { NotPending(b, items, lay, lay.places[i].index); }
    }
  }

  lemma PoolKeepsItems(b: Buffer, items: seq<Item>, lay: Layout, b': Buffer, lay': Layout, front: nat, useBarrier: bool)
    requires Placed(|b.code|, |items|, lay) && LoadsOk(b, items, lay) && ItemsOk(b, items, lay)
    requires PoolAdded(b, lay, b'.code, lay', front, useBarrier)
    requires forall i :: 0 <= i < |items| && items[i].Load? && lay.places[i].Pending?
                         ==> LoadsFrom(b'.code, items[i], lay.pos[i], lay'.places[i])
    ensures Placed(|b'.code|, |items|, lay') && ItemsOk(b', items, lay')
  {
    PoolKeepsPlaced(b, items, lay, b'.code, lay', front, useBarrier);
    forall i | 0 <= i < |items| ensures ItemOk(b', items, lay', i) {
      assert ItemOk(b, items, lay, i);
      PoolKeepsItem(b, items, lay, b', lay', front, useBarrier, i);
    }
  }

  lemma PoolKeepsInv(b: Buffer, items: seq<Item>, lay: Layout, b': Buffer, lay': Layout, front: nat, useBarrier: bool)
    requires Inv(b, items, lay) && b.pool != []
    requires useBarrier || IsUnconditionalTransfer(items[|items| - 1])
    requires PoolAdded(b, lay, b'.code, lay', front, useBarrier)
    requires forall i :: 0 <= i < |items| && items[i].Load? && lay.places[i].Pending?
                         ==> LoadsFrom(b'.code, items[i], lay.pos[i], lay'.places[i])
    requires b'.pool == [] && b'.loads == [] && b'.maxDistance == b.maxDistance && b'.lastConstDelta == b.lastConstDelta
    ensures Inv(b', items, lay')
  {
    PoolKeepsItems(b, items, lay, b', lay', front, useBarrier);
    PoolKeepsBarriers(b, items, lay, b'.code, lay', front, useBarrier);
    ExtendedFlow(b.code, items, lay, lay');
  }

  lemma FlushKeepsInv(b: Buffer, items: seq<Item>, lay: Layout, useBarrier: bool)
    requires Inv(b, items, lay)
    requires useBarrier || b.pool == [] || IsUnconditionalTransfer(items[|items| - 1])
    ensures Inv(Flush(b, useBarrier), items, LayoutFlush(b, lay, useBarrier))
    ensures Flush(b, useBarrier).pool == []
  {
    if b.pool != [] {
      var b', lay', front := Flush(b, useBarrier), LayoutFlush(b, lay, useBarrier), |BeforePool(b, useBarrier)|;
      FlushAddsRoles(b, lay, useBarrier);
      LoadsAreInCode(b, items, lay);
      FlushAddsWords(b, useBarrier);
      forall i | 0 <= i < |items| && items[i].Load? && lay.places[i].Pending?
        ensures LoadsFrom(b'.code, items[i], lay.pos[i], lay'.places[i])
      {
        FlushedLoad(b, items, lay, useBarrier, i, front);
      }
      PoolKeepsInv(b, items, lay, b', lay', front, useBarrier);
    }
  }

  lemma FlushKeepsUnique(b: Buffer, items: seq<Item>, lay: Layout, useBarrier: bool)
    requires Inv(b, items, lay) && UniqueOk(items, lay)
    ensures UniqueOk(items, LayoutFlush(b, lay, useBarrier))
  {
    forall i | 0 <= i < |items| && items[i].Load? && lay.places[i].At? ensures lay.places[i].index < |b.code| {
      assert ItemOk(b, items, lay, i);
    }
  }
}
