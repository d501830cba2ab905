/** What the immediate and transfer helpers emit, put into the constant-pool buffer: it makes a legal run,
    in which each pool load yields the constant that the helpers' own theorems give it. */
module ArmEmissions {
  import opened ArmWords
  import opened PoolLayout
  import opened ArmJumpModel
  import M = ArmMachine
  import opened BaseTypes

  /** An instruction word is put as it is; ldrImmediate puts a load whose constant may be shared. */
  function ToOp(e: M.Emitted): Op {
    match e
    case Insn(w) => PutWord(w as int)
    case PoolLoad(rd, c) => PutLoad(AL, rd as int, c as int, true)
  }

  function ToOps(es: seq<M.Emitted>): seq<Op> {
    seq(|es|, k requires 0 <= k < |es| => ToOp(es[k]))
  }

  function ToItem(e: M.Emitted): Item {
    match e
    case Insn(w) => Plain(w as int)
    case PoolLoad(rd, c) => Load(AL, rd as int, c as int, true)
  }

  function ToItems(es: seq<M.Emitted>): seq<Item> {
    seq(|es|, k requires 0 <= k < |es| => ToItem(es[k]))
  }

  // --- a decoded word is position independent

  predicate IsClear(w: bv32) {
    && w & 0xf000_0000 == 0xe000_0000 && w & 0x0e00_0000 != 0x0a00_0000
    && w & 0x0fff_0000 != 0x051f_0000 && w & 0x0fff_0000 != 0x059f_0000
  }

  lemma KnownIsClear(w: bv32)
    requires M.IsKnown(M.Insn(w))
    ensures IsClear(w)
  {
  }

  lemma ClearRanges(w: bv32)
    requires IsClear(w)
    ensures 0xe000_0000 <= w < 0xf000_0000 && (w < 0xea00_0000 || w >= 0xec00_0000)
    ensures (w < 0xe51f_0000 || w >= 0xe520_0000) && (w < 0xe59f_0000 || w >= 0xe5a0_0000)
  {
  }

  lemma SameOrder(w: bv32)
    ensures (w < 0xe000_0000 <==> w as int < 0xe000_0000) && (w < 0xf000_0000 <==> w as int < 0xf000_0000)
    ensures (w < 0xea00_0000 <==> w as int < 0xea00_0000) && (w < 0xec00_0000 <==> w as int < 0xec00_0000)
  {
  }

  lemma SameOrderOfLoads(w: bv32)
    ensures (w < 0xe51f_0000 <==> w as int < 0xe51f_0000) && (w < 0xe520_0000 <==> w as int < 0xe520_0000)
    ensures (w < 0xe59f_0000 <==> w as int < 0xe59f_0000) && (w < 0xe5a0_0000 <==> w as int < 0xe5a0_0000)
  {
  }

  /** The ranges of ClearRanges, for a number. */
  predicate IsClearNumber(w: int) {
    && 0xe000_0000 <= w < 0xf000_0000 && (w < 0xea00_0000 || w >= 0xec00_0000)
    && (w < 0xe51f_0000 || w >= 0xe520_0000) && (w < 0xe59f_0000 || w >= 0xe5a0_0000)
  }

  lemma ClearAsNumber(w: bv32)
    requires IsClear(w)
    ensures IsClearNumber(w as int)
  {
    ClearRanges(w);
    SameOrder(w);
    SameOrderOfLoads(w);
  }

  lemma ClearIsLegal(w: Word)
    requires IsClearNumber(w)
    ensures IsLegalItem(Plain(w))
  {
    assert High(w) / 0x200 == w / 0x200_0000;
    PcLoadHigh(High(w));
  }

  lemma PcLoadHigh(h: nat)
    requires 0xe000 <= h < 0xf000
    ensures h / 0x100 % 0x10 == 5 && h % 0x80 == 0x1f ==> h == 0xe51f || h == 0xe59f
  {
    if h / 0x100 % 0x10 == 5 {
      assert h / 0x100 == 0xe5;
    }
  }

  /** The operation that puts this item at the end. */
  predicate Puts(op: Op, item: Item) {
    match item
    case Plain(w) => op == PutWord(w) && IsLegalItem(item)
    case Load(cond, rd, constant, reusable) => op == PutLoad(cond, rd, constant, reusable) && cond < 15 && rd < 16
  }

  lemma WordPuts(w: bv32)
    requires IsClear(w)
    ensures Puts(PutWord(w as int), Plain(w as int))
  {
    ClearAsNumber(w);
    ClearIsLegal(w as int);
  }

  lemma KnownPuts(e: M.Emitted)
    requires M.IsKnown(e)
    ensures Puts(ToOp(e), ToItem(e))
  {
    match e
    case Insn(w) =>
      KnownIsClear(w);
      WordPuts(w);
    case PoolLoad(_, _) =>
  }

  // --- emitting into the buffer

  predicate AllPut(puts: seq<Op>, items: seq<Item>) {
    |puts| == |items| && forall k :: 0 <= k < |puts| ==> Puts(puts[k], items[k])
  }

  lemma {:induction false} PutAll(ops: seq<Op>, puts: seq<Op>, items: seq<Item>)
    requires IsLegalRun(ops) && AllPut(puts, items)
    ensures IsLegalRun(ops + puts) && ItemsOf(ops + puts) == ItemsOf(ops) + items
    decreases |puts|
  {
    if puts == [] {
      assert ops + puts == ops && ItemsOf(ops) + items == ItemsOf(ops);
    } else {
      var n := |puts| - 1;
      PutAll(ops, puts[..n], items[..n]);
      PutMore(ops + puts[..n], puts[n], items[n]);
      LastApart(ops, puts);
      LastApart(ItemsOf(ops), items);
    }
  }

  lemma LastApart<T>(a: seq<T>, b: seq<T>)
    requires b != []
    ensures a + b == a + b[..|b| - 1] + [b[|b| - 1]]
  {
    assert b == b[..|b| - 1] + [b[|b| - 1]];
  }

  lemma PutMore(ops: seq<Op>, op: Op, item: Item)
    requires IsLegalRun(ops) && Puts(op, item)
    ensures IsLegalRun(ops + [op]) && ItemsOf(ops + [op]) == ItemsOf(ops) + [item]
  {
    RunMore(ops, op);
    PutIsLegal(Run(ops), ItemsOf(ops), op, item);
  }

  lemma PutIsLegal(s: Session, items: seq<Item>, op: Op, item: Item)
    requires Puts(op, item)
    ensures IsLegalOp(s, items, op) && After(items, op) == items + [item]
  {
  }

  /** Whatever has been put before, putting what a helper emitted keeps the run legal and appends just
      those instructions, a pool load as a load of its constant. */
  lemma EmittedRun(ops: seq<Op>, es: seq<M.Emitted>)
    requires IsLegalRun(ops) && M.AllKnown(es)
    ensures AllPut(ToOps(es), ToItems(es))
    ensures IsLegalRun(ops + ToOps(es)) && ItemsOf(ops + ToOps(es)) == ItemsOf(ops) + ToItems(es)
  {
    forall k | 0 <= k < |es| ensures Puts(ToOps(es)[k], ToItems(es)[k]) {
      KnownPuts(es[k]);
    }
    PutAll(ops, ToOps(es), ToItems(es));
  }

  /** Shared constants cannot be linked, so later operations keep them. */
  predicate KeepsItems(items: seq<Item>, items': seq<Item>) {
    && |items| <= |items'|
    && forall i :: 0 <= i < |items| && (items[i].Load? ==> items[i].reusable) ==> items'[i] == items[i]
  }

  lemma {:induction false} LaterKeepsItems(ops: seq<Op>, all: seq<Op>)
    requires IsLegalRun(all) && ops <= all
    ensures IsLegalRun(ops) && KeepsItems(ItemsOf(ops), ItemsOf(all))
    decreases |all|
  {
    if |ops| == |all| {
      assert ops == all;
    } else {
      var before := all[..|all| - 1];
      LaterKeepsItems(ops, before);
      OneKeepsItems(ItemsOf(ops), Run(before), ItemsOf(before), all[|all| - 1]);
    }
  }

  lemma OneKeepsItems(items: seq<Item>, s: Session, later: seq<Item>, op: Op)
    requires KeepsItems(items, later) && IsLegalOp(s, later, op)
    ensures KeepsItems(items, After(later, op))
  {
  }

  /** In every legal run that has been flushed, the word of each instruction does what it stands for. */
  lemma ItemExecutes(ops: seq<Op>, i: nat)
    requires IsLegalRun(ops) && Run(ops).buffer.pool == [] && i < |ItemsOf(ops)|
    ensures var s := Run(ops);
            && i < |s.layout.pos| && s.layout.pos[i] < |s.buffer.code|
            && WordEvent(s.buffer.code, s.layout.pos[i]) == EventOf(ItemsOf(ops)[i])
  {
    RunIsOk(ops);
    ItemWordEvent(Run(ops).buffer, ItemsOf(ops), Run(ops).layout, i);
    assert ItemOk(Run(ops).buffer, ItemsOf(ops), Run(ops).layout, i);
  }

  /** In every legal run that goes on from there the operations put are still their instructions, loads
      of shared constants with their constants, whatever was put, flushed or linked since. By EmittedRun
      these may be the operations of what a helper emitted, and by ItemExecutes that is what is done. */
  lemma PutsStay(ops: seq<Op>, puts: seq<Op>, items: seq<Item>, all: seq<Op>)
    requires IsLegalRun(ops) && AllPut(puts, items) && ops + puts <= all && IsLegalRun(all)
    ensures KeepsItems(ItemsOf(ops) + items, ItemsOf(all))
  {
    PutAll(ops, puts, items);
    LaterKeepsItems(ops + puts, all);
  }
}
