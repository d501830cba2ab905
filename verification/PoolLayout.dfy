/** How the words of a constant-pool buffer relate to the instruction list that was put into it,
    what every operation keeps of that relation, and what executing the words does. */
module PoolLayout {
  import opened ArmWords
  import opened PoolModel
  import opened BaseTypes

  // --- the abstract side: instructions in the order in which they were put

  datatype Item =
    | Plain(word: Word)
    | Load(cond: nat, rd: nat, constant: Word, reusable: bool)

  datatype Event = Executed(word: Word) | Loaded(cond: nat, rd: nat, value: Word) | Stray

  /** bx lr and the like, and ldr pc: nothing falls through these. */
  predicate IsUnconditionalTransfer(item: Item) {
    match item
    case Plain(w) => IsBranchExchange(w)
    case Load(cond, rd, _, _) => cond == AL && rd == PC
  }

  /** Words put by putInt mean the same wherever they end up. */
  predicate IsLegalItem(item: Item) {
    match item
    case Plain(w) => !IsBranch(w) && !IsPcLoad(w)
    case Load(cond, rd, _, _) => cond < 16 && rd < 16
  }

  function EventOf(item: Item): Event {
    match item
    case Plain(w) => Executed(w)
    case Load(cond, rd, constant, _) => Loaded(cond, rd, constant)
  }

  /** What running the instruction list from item i on does, up to the first unconditional transfer. */
  function ItemEvents(items: seq<Item>, i: nat): seq<Event>
    decreases |items| - i
  {
    if i >= |items| then []
    else [EventOf(items[i])]
         + if IsUnconditionalTransfer(items[i]) then [] else ItemEvents(items, i + 1)
  }

  // --- the concrete side: words in memory

  predicate EndsFlow(w: Word) {
    IsBranchExchange(w) || (IsPcLoad(w) && Condition(w) == AL && Rd(w) == PC)
  }

  function WordEvent(code: seq<Word>, p: nat): Event
    requires p < |code|
  {
    var w := code[p];
    if !IsPcLoad(w) then Executed(w)
    else if ReadsWord(p, w) && 0 <= ReadIndex(p, w) < |code| then
      Loaded(Condition(w), Rd(w), code[ReadIndex(p, w)])
    else Stray
  }

  /** Executing the words from index p: barriers are taken, loads read memory, everything else is
      an event of its own. */
  function WordEvents(code: seq<Word>, p: nat): seq<Event>
    decreases |code| - p
  {
    if p >= |code| then []
    else if IsUnconditionalBranch(code[p]) then
      var t := BranchTarget(p, code[p]);
      if p < t <= |code| then WordEvents(code, t) else [Stray]
    else [WordEvent(code, p)] + if EndsFlow(code[p]) then [] else WordEvents(code, p + 1)
  }

  /** The words control visits from index p on, barriers among them. */
  function WordVisits(code: seq<Word>, p: nat): seq<nat>
    decreases |code| - p
  {
    if p >= |code| then []
    else if IsUnconditionalBranch(code[p]) then
      var t := BranchTarget(p, code[p]);
      [p] + if p < t <= |code| then WordVisits(code, t) else []
    else [p] + if EndsFlow(code[p]) then [] else WordVisits(code, p + 1)
  }

  // --- the relation between the two

  datatype Role = Insn(item: nat) | Barrier(target: nat) | Pad | Const

  /** roles says what each word is there for; pos says where each item went, and places where the
      constant of each load is (meaningless for other items). */
  datatype Layout = Layout(roles: seq<Role>, pos: seq<nat>, places: seq<Place>)

  /** The items whose words these are, in this order. */
  function InsnsOf(lay: Layout, visits: seq<nat>): seq<nat> {
    if visits == [] then []
    else
      (if visits[0] < |lay.roles| && lay.roles[visits[0]].Insn? then [lay.roles[visits[0]].item] else [])
      + InsnsOf(lay, visits[1..])
  }

  /** None of these words is a constant or padding. */
  predicate OnlyCode(lay: Layout, visits: seq<nat>) {
    forall v :: v in visits ==> v < |lay.roles| && (lay.roles[v].Insn? || lay.roles[v].Barrier?)
  }

  /** Items i, i + 1, ... up to the first unconditional transfer. */
  function ItemsFrom(items: seq<Item>, i: nat): seq<nat>
    decreases |items| - i
  {
    if i >= |items| then [] else [i] + if IsUnconditionalTransfer(items[i]) then [] else ItemsFrom(items, i + 1)
  }

  predicate Placed(size: nat, n: nat, lay: Layout) {
    && |lay.roles| == size && |lay.pos| == |lay.places| == n
    && (forall i :: 0 <= i < n ==> lay.pos[i] < size && lay.roles[lay.pos[i]] == Insn(i))
    && (forall p :: 0 <= p < size && lay.roles[p].Insn? ==> lay.roles[p].item < n && lay.pos[lay.roles[p].item] == p)
  }

  function EncodeBranch(p: nat, target: nat): (w: Word)
    requires p < target <= p + 0x80_0000
  {
    0xea00_0000 + if target == p + 1 then 0xff_ffff else target - p - 2
  }

  predicate BarrierOk(code: seq<Word>, lay: Layout, p: nat)
    requires p < |code| == |lay.roles| && lay.roles[p].Barrier?
  {
    var t := lay.roles[p].target;
    p < t <= |code| && t <= p + 0x1000 && lay.roles[t - 1] == Const && code[p] == EncodeBranch(p, t)
  }

  predicate BarriersOk(code: seq<Word>, lay: Layout)
    requires |lay.roles| == |code|
  {
    forall p {:trigger BarrierOk(code, lay, p)} :: 0 <= p < |code| && lay.roles[p].Barrier? ==> BarrierOk(code, lay, p)
  }

  /** Control arriving at word q next performs item j (or has reached the end of everything). */
  predicate Reaches(lay: Layout, q: nat, j: nat) {
    if q >= |lay.roles| then q == |lay.roles| && j == |lay.pos|
    else match lay.roles[q]
      case Insn(i) => i == j
      case Barrier(t) => if t < |lay.roles| then lay.roles[t] == Insn(j) else t == |lay.roles| && j == |lay.pos|
      case _ => false
  }

  predicate FlowsOn(items: seq<Item>, lay: Layout, i: nat)
    requires i < |items| == |lay.pos|
  {
    IsUnconditionalTransfer(items[i]) || Reaches(lay, lay.pos[i] + 1, i + 1)
  }

  predicate FlowOk(items: seq<Item>, lay: Layout)
    requires |lay.pos| == |items|
  {
    && Reaches(lay, 0, 0)
    && forall i :: 0 <= i < |items| ==> FlowsOn(items, lay, i)
  }

  /** Item i sits in its word, and its constant in its place. */
  predicate ItemOk(b: Buffer, items: seq<Item>, lay: Layout, i: nat)
    requires i < |items| == |lay.pos| == |lay.places| && lay.pos[i] < |b.code| == |lay.roles|
  {
    var p, place := lay.pos[i], lay.places[i];
    match items[i]
    case Plain(w) => b.code[p] == w
    case Load(cond, rd, constant, reusable) =>
      && cond < 16 && rd < 16
      && IsReachable(p, place) && b.code[p] == EncodeLoad(cond, rd, p, place)
      && match place
         case Pending(k) => p in b.loads && k < |b.pool| && b.pool[k] == Slot(constant, reusable)
         case At(q) => q < |b.code| && lay.roles[q] == Const && b.code[q] == constant
  }

  predicate AllLegal(items: seq<Item>) {
    forall i :: 0 <= i < |items| ==> IsLegalItem(items[i])
  }

  predicate ItemsOk(b: Buffer, items: seq<Item>, lay: Layout)
    requires Placed(|b.code|, |items|, lay)
  {
    forall i :: 0 <= i < |items| ==> ItemOk(b, items, lay, i)
  }

  /** Every recorded load offset is that of a load still waiting for the pool. */
  predicate LoadsOk(b: Buffer, items: seq<Item>, lay: Layout)
    requires Placed(|b.code|, |items|, lay)
  {
    forall k :: 0 <= k < |b.loads| ==> IsPendingLoad(b.loads[k], items, lay)
  }

  predicate IsPendingLoad(p: nat, items: seq<Item>, lay: Layout)
    requires |lay.pos| == |lay.places| == |items|
  {
    p < |lay.roles| && lay.roles[p].Insn? && lay.roles[p].item < |items|
    && items[lay.roles[p].item].Load? && lay.places[lay.roles[p].item].Pending?
  }

  /** The place a unique constant lives in is shared with no other load. */
  predicate UniqueOk(items: seq<Item>, lay: Layout)
    requires |lay.places| == |items|
  {
    forall i, j :: 0 <= i < |items| && 0 <= j < |items| && i != j
      && items[i].Load? && items[j].Load? && !items[i].reusable
      ==> lay.places[i] != lay.places[j]
  }

  /** The counters: m_maxDistance never exceeds the pool size minus the bytes since the first
      pending load, and stays large enough unless that load is the last word. */
  predicate DistanceOk(b: Buffer, lay: Layout)
  {
    && b.maxDistance <= MAX_POOL_SIZE
    && 0 <= b.lastConstDelta <= 4
    && |b.pool| <= 511
    && (b.pool == [] <==> b.loads == [])
    && (forall k :: 0 <= k < |b.loads| ==> b.loads[0] <= b.loads[k])
    && (b.pool != [] ==>
          && b.maxDistance + WORD_SIZE * (|b.code| - b.loads[0]) <= MAX_POOL_SIZE
          && (|b.code| == b.loads[0] + 1 || b.maxDistance >= 8)
          && 0 < |b.code| == |lay.roles|
          && lay.roles[|b.code| - 1].Insn? && lay.roles[|b.code| - 1].item + 1 == |lay.pos|)
  }

  ghost predicate Inv(b: Buffer, items: seq<Item>, lay: Layout) {
    && Placed(|b.code|, |items|, lay)
    && BarriersOk(b.code, lay)
    && FlowOk(items, lay)
    && ItemsOk(b, items, lay)
    && LoadsOk(b, items, lay)
    && DistanceOk(b, lay)
  }

  // --- execution of a flushed buffer

  lemma ItemWordEvent(b: Buffer, items: seq<Item>, lay: Layout, i: nat)
    requires Inv(b, items, lay) && AllLegal(items) && b.pool == [] && i < |items|
    ensures var p := lay.pos[i];
            !IsUnconditionalBranch(b.code[p]) && WordEvent(b.code, p) == EventOf(items[i])
            && (EndsFlow(b.code[p]) <==> IsUnconditionalTransfer(items[i]))
  {
    var p := lay.pos[i];
    assert ItemOk(b, items, lay, i);
    BranchForms(b.code[p]);
    if items[i].Load? { EncodedLoad(items[i].cond, items[i].rd, p, lay.places[i]); }
  }

  lemma BranchFields(p: nat, target: nat)
    requires p < target <= p + 0x80_0000
    ensures IsUnconditionalBranch(EncodeBranch(p, target)) && BranchTarget(p, EncodeBranch(p, target)) == target
  {
  }

  /** The word of item i does what the item does, and control flows on to the next item. */
  predicate RunsItem(code: seq<Word>, items: seq<Item>, lay: Layout, i: nat)
    requires |lay.roles| == |code| && |lay.pos| == |items|
  {
    i < |items| ==>
      && lay.pos[i] < |code| && lay.roles[lay.pos[i]] == Insn(i) && !IsUnconditionalBranch(code[lay.pos[i]])
      && WordEvent(code, lay.pos[i]) == EventOf(items[i])
      && (EndsFlow(code[lay.pos[i]]) <==> IsUnconditionalTransfer(items[i]))
      && (!IsUnconditionalTransfer(items[i]) ==> Reaches(lay, lay.pos[i] + 1, i + 1))
  }

  /** A barrier takes control to its target, and the word of an item is where the item was placed. */
  predicate RunsWord(code: seq<Word>, lay: Layout, q: nat)
    requires |lay.roles| == |code|
  {
    q < |code| ==>
      match lay.roles[q]
      case Barrier(t) => IsUnconditionalBranch(code[q]) && BranchTarget(q, code[q]) == t && q < t <= |code|
      case Insn(i) => i < |lay.pos| && lay.pos[i] == q
      case _ => true
  }

  ghost predicate IsRunnable(code: seq<Word>, items: seq<Item>, lay: Layout) {
    && |lay.roles| == |code| && |lay.pos| == |items|
    && (forall i: nat :: RunsItem(code, items, lay, i)) && (forall q: nat :: RunsWord(code, lay, q))
  }

  lemma InvIsRunnable(b: Buffer, items: seq<Item>, lay: Layout)
    requires Inv(b, items, lay) && AllLegal(items) && b.pool == []
    ensures IsRunnable(b.code, items, lay)
  {
    forall i: nat ensures RunsItem(b.code, items, lay, i) {
      if i < |items| {
        ItemWordEvent(b, items, lay, i);
        assert FlowsOn(items, lay, i);
      }
    }
    forall q: nat ensures RunsWord(b.code, lay, q) {
      if q < |b.code| && lay.roles[q].Barrier? {
        assert BarrierOk(b.code, lay, q);
        BranchFields(q, lay.roles[q].target);
      }
    }
  }

  /** Executing the words from where item i was placed performs exactly items i, i+1, ... in order,
      each load yielding its own constant, at the words of these items and at barriers only. */
  lemma ExecutesItems(b: Buffer, items: seq<Item>, lay: Layout, i: nat)
    requires Inv(b, items, lay) && AllLegal(items) && b.pool == [] && i < |items|
    ensures WordEvents(b.code, lay.pos[i]) == ItemEvents(items, i)
    ensures InsnsOf(lay, WordVisits(b.code, lay.pos[i])) == ItemsFrom(items, i)
            && OnlyCode(lay, WordVisits(b.code, lay.pos[i]))
  {
    InvIsRunnable(b, items, lay);
    RunsItems(b.code, items, lay, i);
    VisitsItems(b.code, items, lay, i);
  }

  lemma {:induction false} RunsItems(code: seq<Word>, items: seq<Item>, lay: Layout, i: nat)
    requires IsRunnable(code, items, lay) && i < |items|
    ensures WordEvents(code, lay.pos[i]) == ItemEvents(items, i)
    decreases |items| - i, 0
  {
    assert RunsItem(code, items, lay, i);
    if !IsUnconditionalTransfer(items[i]) {
      RunsFrom(code, items, lay, lay.pos[i] + 1, i + 1);
    }
  }

  lemma {:induction false} RunsFrom(code: seq<Word>, items: seq<Item>, lay: Layout, q: nat, j: nat)
    requires IsRunnable(code, items, lay) && Reaches(lay, q, j) && j <= |items|
    ensures WordEvents(code, q) == ItemEvents(items, j)
    decreases |items| - j, 1
  {
    assert RunsWord(code, lay, q);
    if q < |code| && lay.roles[q].Barrier? {
      assert RunsWord(code, lay, lay.roles[q].target);
      if lay.roles[q].target < |code| { RunsItems(code, items, lay, j); }
    } else if q < |code| {
      RunsItems(code, items, lay, j);
    }
  }

  lemma VisitFirst(lay: Layout, p: nat, rest: seq<nat>)
    ensures InsnsOf(lay, [p] + rest)
            == (if p < |lay.roles| && lay.roles[p].Insn? then [lay.roles[p].item] else []) + InsnsOf(lay, rest)
    ensures OnlyCode(lay, [p] + rest)
            <==> p < |lay.roles| && (lay.roles[p].Insn? || lay.roles[p].Barrier?) && OnlyCode(lay, rest)
  {
    assert ([p] + rest)[1..] == rest;
    assert ([p] + rest)[0] == p && forall v :: v in [p] + rest <==> v == p || v in rest;
  }

  lemma VisitItem(lay: Layout, p: nat, i: nat, rest: seq<nat>, later: seq<nat>)
    requires p < |lay.roles| && lay.roles[p] == Insn(i) && InsnsOf(lay, rest) == later && OnlyCode(lay, rest)
    ensures InsnsOf(lay, [p] + rest) == [i] + later && OnlyCode(lay, [p] + rest)
  {
    VisitFirst(lay, p, rest);
  }

  lemma VisitThenRest(code: seq<Word>, items: seq<Item>, lay: Layout, i: nat, p: nat)
    requires i < |items| && p < |code| == |lay.roles| && lay.roles[p] == Insn(i) && !IsUnconditionalBranch(code[p])
    requires EndsFlow(code[p]) <==> IsUnconditionalTransfer(items[i])
    requires !EndsFlow(code[p]) ==>
               InsnsOf(lay, WordVisits(code, p + 1)) == ItemsFrom(items, i + 1)
                   && OnlyCode(lay, WordVisits(code, p + 1))
    ensures InsnsOf(lay, WordVisits(code, p)) == ItemsFrom(items, i) && OnlyCode(lay, WordVisits(code, p))
  {
    if EndsFlow(code[p]) {
      VisitItem(lay, p, i, [], []);
    } else {
      VisitItem(lay, p, i, WordVisits(code, p + 1), ItemsFrom(items, i + 1));
    }
  }

  /** On the way control visits the word of each of these items, in order, and barriers, and nothing
      else: no constant and no padding is executed. */
  lemma {:induction false} VisitsItems(code: seq<Word>, items: seq<Item>, lay: Layout, i: nat)
    requires IsRunnable(code, items, lay) && i < |items|
    ensures InsnsOf(lay, WordVisits(code, lay.pos[i])) == ItemsFrom(items, i)
    ensures OnlyCode(lay, WordVisits(code, lay.pos[i]))
    decreases |items| - i, 0
  {
    assert RunsItem(code, items, lay, i);
    if !IsUnconditionalTransfer(items[i]) {
      VisitsFrom(code, items, lay, lay.pos[i] + 1, i + 1);
    }
    VisitThenRest(code, items, lay, i, lay.pos[i]);
  }

  lemma {:induction false} VisitsFrom(code: seq<Word>, items: seq<Item>, lay: Layout, q: nat, j: nat)
    requires IsRunnable(code, items, lay) && Reaches(lay, q, j) && j <= |items|
    ensures InsnsOf(lay, WordVisits(code, q)) == ItemsFrom(items, j)
    ensures OnlyCode(lay, WordVisits(code, q))
    decreases |items| - j, 1
  {
    assert RunsWord(code, lay, q);
    if q < |code| && lay.roles[q].Barrier? {
      var t := lay.roles[q].target;
      assert RunsWord(code, lay, t);
      if t < |code| { VisitsItems(code, items, lay, j); }
      VisitFirst(lay, q, WordVisits(code, t));
    } else if q < |code| {
      VisitsItems(code, items, lay, j);
    }
  }
}
