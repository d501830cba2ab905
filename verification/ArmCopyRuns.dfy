/** Executing the relocated copy, taken jumps and barriers followed, against executing the instruction
    list with its labels. */
module ArmCopyRuns {
  import opened ArmWords
  import opened PoolLayout
  import opened ArmJumpModel
  import opened ArmPrepare
  import opened ArmLabels
  import opened BaseTypes

  /** What decides the conditions: the outcome of each conditional transfer, in the order they are met. */
  type Conditions = nat -> bool

  // --- the machine that executes words

  /** Control at a word of the copy, at an address, or gone with a bx. */
  datatype Control = InCode(word: nat) | ToAddress(address: Word) | Returned

  /** Transfers that fall through when their condition fails. */
  predicate IsDecision(w: Word) {
    (IsBranch(w) || (IsPcLoad(w) && Rd(w) == PC)) && Condition(w) != AL
  }

  function WordStep(code: seq<Word>, to: Word, p: nat, holds: bool): (seq<Event>, Control)
    requires p < |code|
  {
    var w := code[p];
    var taken := Condition(w) == AL || holds;
    if IsBranch(w) then
      var t := BranchTarget(p, w);
      ([], if !taken then InCode(p + 1) else if t >= 0 then InCode(t) else ToAddress((to + 4 * t) % ADDRESS_SPACE))
    else if IsPcLoad(w) && Rd(w) == PC then
      if !ReadsWord(p, w) || !(0 <= ReadIndex(p, w) < |code|) then ([Stray], Returned)
      else ([], if taken then ToAddress(code[ReadIndex(p, w)]) else InCode(p + 1))
    else ([WordEvent(code, p)], if IsBranchExchange(w) then Returned else InCode(p + 1))
  }

  /** The word of a copy of this size, placed at to, that control is at; the size if there is none. */
  function WordOf(size: nat, to: Word, c: Control): (p: nat)
    ensures p <= size
  {
    match c
    case InCode(p) => if p < size then p else size
    case ToAddress(a) =>
      var d := (a - to) % ADDRESS_SPACE;
      if d % 4 == 0 && d / 4 < size then d / 4 else size
    case Returned => size
  }

  datatype WordRun = WordRun(events: seq<Event>, visits: seq<nat>, end: Control, decided: nat)

  /** Up to n words, from this point of control, when so many conditions have been decided. */
  function RunWords(code: seq<Word>, to: Word, c: Control, decided: nat, n: nat, holds: Conditions): WordRun
    decreases n
  {
    var p := WordOf(|code|, to, c);
    if n == 0 || p == |code| then WordRun([], [], c, decided)
    else
      var (events, next) := WordStep(code, to, p, holds(decided));
      var rest := RunWords(code, to, next, decided + (if IsDecision(code[p]) then 1 else 0), n - 1, holds);
      WordRun(events + rest.events, [p] + rest.visits, rest.end, rest.decided)
  }

  // --- the machine that executes items

  /** An instruction list, which of its loads are recorded jumps, and the items its labels stand for. */
  datatype Program = Program(items: seq<Item>, jumps: seq<JumpRef>, labels: map<nat, nat>)

  datatype Where = AtItem(item: nat) | Outside(address: Word) | Ended

  predicate IsJump(jumps: seq<JumpRef>, i: nat) { exists k :: 0 <= k < |jumps| && jumps[k].item == i }

  /** The address a load yields once the code has been moved: what a jump was linked to is relative to the code. */
  function Relocated(jumps: seq<JumpRef>, i: nat, constant: Word, to: Word): Word {
    if IsJump(jumps, i) && constant != INVALID_BRANCH_TARGET then (to + constant) % ADDRESS_SPACE else constant
  }

  predicate DecidesItem(item: Item) { item.Load? && item.rd == PC && item.cond != AL }

  function ItemStep(program: Program, to: Word, i: nat, holds: bool): (seq<Event>, Where)
    requires i < |program.items|
  {
    match program.items[i]
    case Plain(w) => ([Executed(w)], if IsBranchExchange(w) then Ended else AtItem(i + 1))
    case Load(cond, rd, constant, _) =>
      var value := Relocated(program.jumps, i, constant, to);
      if rd != PC then ([Loaded(cond, rd, value)], AtItem(i + 1))
      else if cond != AL && !holds then ([], AtItem(i + 1))
      else if IsJump(program.jumps, i) && constant in program.labels then ([], AtItem(program.labels[constant]))
      else ([], Outside(value))
  }

  datatype ItemRun = ItemRun(events: seq<Event>, visits: seq<nat>, end: Where, decided: nat)

  function RunItems(program: Program, to: Word, at: Where, decided: nat, n: nat, holds: Conditions): ItemRun
    decreases n
  {
    if n == 0 || !at.AtItem? || at.item >= |program.items| then ItemRun([], [], at, decided)
    else
      var i := at.item;
      var (events, next) := ItemStep(program, to, i, holds(decided));
      var rest := RunItems(program, to, next, decided + (if DecidesItem(program.items[i]) then 1 else 0), n - 1, holds);
      ItemRun(events + rest.events, [i] + rest.visits, rest.end, rest.decided)
  }

  // --- how they correspond

  /** The word of the code at this address, which may be just past its end. */
  predicate IsAddressOf(a: Word, to: Word, q: nat) {
    4 * q < ADDRESS_SPACE && a == (to + 4 * q) % ADDRESS_SPACE
  }

  ghost predicate Corresponds(lay: Layout, to: Word, at: Where, c: Control) {
    match at
    case AtItem(j) =>
      (c.InCode? && Reaches(lay, c.word, j))
      || (c.ToAddress? && exists q: nat :: IsAddressOf(c.address, to, q) && Reaches(lay, q, j))
    case Outside(a) => c == ToAddress(a) || (c.InCode? && (to + 4 * c.word) % ADDRESS_SPACE == a)
    case Ended => c == Returned
  }

  /** The word of item i does what the item does, whatever its condition. */
  ghost predicate StepsItem(copy: seq<Word>, to: Word, program: Program, lay: Layout, i: nat, holds: bool)
    requires |lay.roles| == |copy| && |lay.pos| == |program.items|
  {
    i < |program.items| ==>
      && lay.pos[i] < |copy| && lay.roles[lay.pos[i]] == Insn(i)
      && var (events, next) := ItemStep(program, to, i, holds);
         var (events', c) := WordStep(copy, to, lay.pos[i], holds);
         events' == events && Corresponds(lay, to, next, c)
         && (IsDecision(copy[lay.pos[i]]) <==> DecidesItem(program.items[i]))
  }

  predicate StepsWord(copy: seq<Word>, lay: Layout, q: nat)
    requires |lay.roles| == |copy|
  {
    q < |copy| ==>
      match lay.roles[q]
      case Barrier(t) => IsBranch(copy[q]) && Condition(copy[q]) == AL && BranchTarget(q, copy[q]) == t
          && q < t <= |copy|
      case Insn(i) => i < |lay.pos| && lay.pos[i] == q
      case _ => true
  }

  ghost predicate IsCopyOf(copy: seq<Word>, to: Word, program: Program, lay: Layout) {
    && |lay.roles| == |copy| && |lay.pos| == |program.items|
    && (forall i: nat, holds: bool :: StepsItem(copy, to, program, lay, i, holds))
    && (forall q: nat :: StepsWord(copy, lay, q))
  }

  // --- simulation

  lemma ResolvesTo(a: Word, to: Word, q: nat)
    requires IsAddressOf(a, to, q)
    ensures (a - to) % ADDRESS_SPACE == 4 * q && (a - to) % ADDRESS_SPACE / 4 == q && (a - to) % ADDRESS_SPACE % 4 == 0
  {
    if to + 4 * q < ADDRESS_SPACE {
      assert a - to == 4 * q;
    } else {
      assert a - to == 4 * q - ADDRESS_SPACE;
    }
  }

  /** Control that corresponds to an item is at a word that leads to it. */
  lemma ArrivesAt(copy: seq<Word>, lay: Layout, to: Word, j: nat, c: Control)
    requires |lay.roles| == |copy| && Corresponds(lay, to, AtItem(j), c) && j < |lay.pos|
    ensures var q := WordOf(|copy|, to, c); q < |copy| && Reaches(lay, q, j)
  {
    if c.ToAddress? {
      var q: nat :| IsAddressOf(c.address, to, q) && Reaches(lay, q, j);
      ResolvesTo(c.address, to, q);
    }
  }

  /** It is the word of the item, or a barrier that leads there. */
  lemma ItemOrBarrier(copy: seq<Word>, to: Word, program: Program, lay: Layout, j: nat, c: Control)
    requires IsCopyOf(copy, to, program, lay) && Corresponds(lay, to, AtItem(j), c) && j < |program.items|
    ensures var q := WordOf(|copy|, to, c);
            && q < |copy| && lay.pos[j] < |copy|
            && if lay.roles[q].Barrier? then lay.roles[q].target == lay.pos[j] else q == lay.pos[j]
  {
    ArrivesAt(copy, lay, to, j, c);
    var q := WordOf(|copy|, to, c);
    assert StepsWord(copy, lay, q);
    if lay.roles[q].Barrier? {
      assert StepsWord(copy, lay, lay.roles[q].target);
    }
  }

  lemma NextCorresponds(copy: seq<Word>, to: Word, program: Program, lay: Layout, i: nat, holds: bool)
    returns (c: Control, at: Where)
    requires IsCopyOf(copy, to, program, lay) && i < |program.items| && lay.pos[i] < |copy|
    ensures IsNext(copy, to, program, lay, i, holds, c, at) && Corresponds(lay, to, at, c)
  {
    assert StepsItem(copy, to, program, lay, i, holds);
    c, at := WordStep(copy, to, lay.pos[i], holds).1, ItemStep(program, to, i, holds).1;
  }

  /** The word of item i and the item do the same; this is where they take control. */
  predicate IsNext(copy: seq<Word>, to: Word, program: Program, lay: Layout, i: nat, holds: bool, c: Control, at: Where)
    requires i < |program.items| == |lay.pos| && lay.pos[i] < |copy|
  {
    && lay.pos[i] < |lay.roles| && lay.roles[lay.pos[i]] == Insn(i)
    && c == WordStep(copy, to, lay.pos[i], holds).1 && at == ItemStep(program, to, i, holds).1
    && WordStep(copy, to, lay.pos[i], holds).0 == ItemStep(program, to, i, holds).0
    && (IsDecision(copy[lay.pos[i]]) <==> DecidesItem(program.items[i]))
  }

  ghost predicate Matches(lay: Layout, to: Word, words: WordRun, items: ItemRun) {
    && words.events == items.events && words.decided == items.decided
    && InsnsOf(lay, words.visits) == items.visits && OnlyCode(lay, words.visits)
    && Corresponds(lay, to, items.end, words.end)
  }

  lemma OneItem(copy: seq<Word>, to: Word, program: Program, lay: Layout, c: Control, c': Control, at': Where, i: nat,
                d: nat, d': nat, n: nat, m: nat, holds: Conditions)
    requires i < |program.items| == |lay.pos| && lay.pos[i] < |copy| && WordOf(|copy|, to, c) == lay.pos[i] && n > 0
    requires IsNext(copy, to, program, lay, i, holds(d), c', at')
             && d' == d + if DecidesItem(program.items[i]) then 1 else 0
    requires Matches(lay, to, RunWords(copy, to, c', d', m, holds), RunItems(program, to, at', d', n - 1, holds))
    ensures Matches(lay, to, RunWords(copy, to, c, d, m + 1, holds), RunItems(program, to, AtItem(i), d, n, holds))
  {
    var words, items := RunWords(copy, to, c', d', m, holds), RunItems(program, to, at', d', n - 1, holds);
    WordThenRest(copy, to, c, lay.pos[i], d, m, holds);
    ItemThenItems(program, to, i, d, n, holds);
    VisitItem(lay, lay.pos[i], i, words.visits, items.visits);
  }

  /** After the word of an item, whatever does the same as the remaining items completes the run. */
  lemma ItemAndRest(copy: seq<Word>, to: Word, program: Program, lay: Layout, c: Control, i: nat, d: nat, n: nat,
                    holds: Conditions)
    returns (c': Control, at': Where, d': nat)
    requires IsCopyOf(copy, to, program, lay) && i < |program.items| && n > 0
    requires lay.pos[i] < |copy| && WordOf(|copy|, to, c) == lay.pos[i]
    ensures Corresponds(lay, to, at', c')
    ensures forall m: nat ::
              Matches(lay, to, RunWords(copy, to, c', d', m, holds), RunItems(program, to, at', d', n - 1, holds))
              ==> Matches(lay, to, RunWords(copy, to, c, d, m + 1, holds),
                          RunItems(program, to, AtItem(i), d, n, holds))
  {
    c', at' := NextCorresponds(copy, to, program, lay, i, holds(d));
    d' := d + if DecidesItem(program.items[i]) then 1 else 0;
    forall m: nat | Matches(lay, to, RunWords(copy, to, c', d', m, holds), RunItems(program, to, at', d', n - 1, holds))
      ensures Matches(lay, to, RunWords(copy, to, c, d, m + 1, holds), RunItems(program, to, AtItem(i), d, n, holds))
    {
      OneItem(copy, to, program, lay, c, c', at', i, d, d', n, m, holds);
    }
  }

  lemma WordThenRest(code: seq<Word>, to: Word, c: Control, p: nat, d: nat, m: nat, holds: Conditions)
    requires WordOf(|code|, to, c) == p < |code|
    ensures var (events, next) := WordStep(code, to, p, holds(d));
            var rest := RunWords(code, to, next, d + (if IsDecision(code[p]) then 1 else 0), m, holds);
            RunWords(code, to, c, d, m + 1, holds)
                == WordRun(events + rest.events, [p] + rest.visits, rest.end, rest.decided)
  {
  }

  lemma ItemThenItems(program: Program, to: Word, i: nat, d: nat, n: nat, holds: Conditions)
    requires i < |program.items| && n > 0
    ensures var (events, next) := ItemStep(program, to, i, holds(d));
            var rest := RunItems(program, to, next, d + (if DecidesItem(program.items[i]) then 1 else 0), n - 1, holds);
            RunItems(program, to, AtItem(i), d, n, holds)
                == ItemRun(events + rest.events, [i] + rest.visits, rest.end, rest.decided)
  {
  }

  lemma OneBarrier(copy: seq<Word>, to: Word, program: Program, lay: Layout, c: Control, q: nat, d: nat, m: nat,
                   items: ItemRun, holds: Conditions)
    requires IsCopyOf(copy, to, program, lay) && WordOf(|copy|, to, c) == q < |copy| && lay.roles[q].Barrier?
    requires Matches(lay, to, RunWords(copy, to, InCode(lay.roles[q].target), d, m, holds), items)
    ensures Matches(lay, to, RunWords(copy, to, c, d, m + 1, holds), items)
  {
    assert StepsWord(copy, lay, q);
    VisitFirst(lay, q, RunWords(copy, to, InCode(lay.roles[q].target), d, m, holds).visits);
  }

  /** For any number of items there is a number of words, barriers added, that does the same. */
  lemma {:induction false} Simulates(copy: seq<Word>, to: Word, program: Program, lay: Layout, c: Control, at: Where,
                                     d: nat, n: nat, holds: Conditions)
    returns (m: nat)
    requires IsCopyOf(copy, to, program, lay) && Corresponds(lay, to, at, c)
    ensures m <= 2 * n && Matches(lay, to, RunWords(copy, to, c, d, m, holds), RunItems(program, to, at, d, n, holds))
    decreases n, 1
  {
    m := 0;
    if n > 0 && at.AtItem? && at.item < |program.items| {
      ItemOrBarrier(copy, to, program, lay, at.item, c);
      var q := WordOf(|copy|, to, c);
      if lay.roles[q].Barrier? {
        var t := lay.roles[q].target;
        m := SimulatesFrom(copy, to, program, lay, InCode(t), at.item, d, n, holds);
        OneBarrier(copy, to, program, lay, c, q, d, m, RunItems(program, to, at, d, n, holds), holds);
        m := m + 1;
      } else {
        m := SimulatesFrom(copy, to, program, lay, c, at.item, d, n, holds);
      }
    }
  }

  lemma {:induction false} SimulatesFrom(copy: seq<Word>, to: Word, program: Program, lay: Layout, c: Control, i: nat,
                                         d: nat, n: nat, holds: Conditions)
    returns (m: nat)
    requires IsCopyOf(copy, to, program, lay) && i < |program.items| && n > 0
    requires lay.pos[i] < |copy| && WordOf(|copy|, to, c) == lay.pos[i]
    ensures m <= 2 * n - 1
    ensures Matches(lay, to, RunWords(copy, to, c, d, m, holds), RunItems(program, to, AtItem(i), d, n, holds))
    decreases n, 0
  {
    var c', at', d' := ItemAndRest(copy, to, program, lay, c, i, d, n, holds);
    m := Simulates(copy, to, program, lay, c', at', d', n - 1, holds);
    m := m + 1;
  }

  // --- the copy that prepareExecutableCopy makes does what the items do

  /** What a recorded jump was linked to, if anything, is a word of the code. */
  predicate TargetOk(items: seq<Item>, jumps: seq<JumpRef>, k: nat) {
    k < |jumps| && jumps[k].item < |items| && items[jumps[k].item].Load? ==>
      var target := items[jumps[k].item].constant; target == INVALID_BRANCH_TARGET || target % 4 == 0
  }

  lemma {:induction false} RunTargets(ops: seq<Op>, k: nat)
    requires IsLegalRun(ops)
    ensures TargetOk(ItemsOf(ops), JumpsOf(ops), k)
  {
    if ops != [] {
      var before := ops[..|ops| - 1];
      RunTargets(before, k);
      RunRecords(before);
      if k < |JumpsOf(before)| {
        assert RecordOk(Run(before), ItemsOf(before), JumpsOf(before), k);
      }
    }
  }

  /** The copy of a finished session and what its labels stand for. */
  ghost predicate IsFinished(s: Session, program: Program) {
    && Ok(s, program.items) && AllLegal(program.items) && s.buffer.pool == []
    && RecordsOk(s, program.items, program.jumps)
    && (forall k: nat :: TargetOk(program.items, program.jumps, k))
    && (forall c: nat :: c in program.labels ==> c % 4 == 0 && Reaches(s.layout, c / 4, program.labels[c]))
  }

  lemma PlainSteps(s: Session, program: Program, to: Word, i: nat, holds: bool)
    requires IsFinished(s, program) && i < |program.items| && program.items[i].Plain? && !IsJump(program.jumps, i)
    ensures StepsItem(Prepared(s.buffer.code, s.jumps, to), to, program, s.layout, i, holds)
  {
    PreparedItemUnchanged(s, program.items, program.jumps, to, i);
    assert ItemOk(s.buffer, program.items, s.layout, i);
    assert IsLegalItem(program.items[i]);
    assert FlowsOn(program.items, s.layout, i);
  }

  lemma LoadSteps(s: Session, program: Program, to: Word, i: nat, holds: bool)
    requires IsFinished(s, program) && i < |program.items| && program.items[i].Load? && !IsJump(program.jumps, i)
    ensures StepsItem(Prepared(s.buffer.code, s.jumps, to), to, program, s.layout, i, holds)
  {
    PreparedItemUnchanged(s, program.items, program.jumps, to, i);
    ItemAt(s.buffer, program.items, s.layout, i);
    assert FlowsOn(program.items, s.layout, i);
    LoadStepsAt(Prepared(s.buffer.code, s.jumps, to), to, s.layout.pos[i], program.items[i], holds);
  }

  /** A load that was not recorded yields its constant. */
  lemma LoadStepsAt(copy: seq<Word>, to: Word, p: nat, item: Item, holds: bool)
    requires p < |copy| && item.Load? && IsPcLoad(copy[p]) && !IsBranch(copy[p]) && ReadsWord(p, copy[p])
    requires Condition(copy[p]) == item.cond && Rd(copy[p]) == item.rd && WordEvent(copy, p) == EventOf(item)
    ensures IsDecision(copy[p]) <==> DecidesItem(item)
    ensures WordStep(copy, to, p, holds)
            == if item.rd != PC then ([Loaded(item.cond, item.rd, item.constant)], InCode(p + 1))
               else ([], if item.cond == AL || holds then ToAddress(item.constant) else InCode(p + 1))
  {
    NoExchange(copy[p]);
  }

  lemma NoExchange(w: Word)
    ensures IsPcLoad(w) ==> !IsBranchExchange(w)
  {
    BranchForms(w);
  }

  lemma JumpSteps(s: Session, program: Program, to: Word, k: nat, holds: bool)
    requires IsFinished(s, program) && k < |program.jumps|
    ensures StepsItem(Prepared(s.buffer.code, s.jumps, to), to, program, s.layout, program.jumps[k].item, holds)
  {
    var i := program.jumps[k].item;
    JumpStepsWord(s, program, to, k, holds);
    JumpFlows(s, program, to, k);
    JumpMatches(Prepared(s.buffer.code, s.jumps, to), to, program, s.layout, i, holds);
  }

  /** What a recorded jump does in the copy. */
  function JumpStep(item: Item, to: Word, p: nat, branches: bool, holds: bool): (seq<Event>, Control)
    requires item.Load?
  {
    var value := if item.constant == INVALID_BRANCH_TARGET then item.constant else (to + item.constant) % ADDRESS_SPACE;
    if item.rd != PC then ([Loaded(item.cond, item.rd, value)], InCode(p + 1))
    else if item.cond != AL && !holds then ([], InCode(p + 1))
    else ([], if branches then InCode(item.constant / 4) else ToAddress(value))
  }

  lemma JumpStepsWord(s: Session, program: Program, to: Word, k: nat, holds: bool)
    requires IsFinished(s, program) && k < |program.jumps|
    ensures var i, copy := program.jumps[k].item, Prepared(s.buffer.code, s.jumps, to);
            && i < |program.items| && program.items[i].Load? && i < |s.layout.pos| && s.layout.pos[i] < |copy|
            && WordStep(copy, to, s.layout.pos[i], holds)
               == JumpStep(program.items[i], to, s.layout.pos[i], IsBranch(copy[s.layout.pos[i]]), holds)
            && (IsDecision(copy[s.layout.pos[i]]) <==> DecidesItem(program.items[i]))
            && (IsBranch(copy[s.layout.pos[i]])
                ==> program.items[i].constant % 4 == 0 && program.items[i].constant != INVALID_BRANCH_TARGET)
  {
    var i := program.jumps[k].item;
    assert RecordOk(s, program.items, program.jumps, k);
    PreparedJumpReaches(s, program.items, program.jumps, to, k);
    ItemAt(s.buffer, program.items, s.layout, i);
    assert TargetOk(program.items, program.jumps, k);
    JumpStepsAt(s.buffer.code, Prepared(s.buffer.code, s.jumps, to), s.layout.pos[i], program.items[i],
                program.jumps[k].useConstantPool, to, holds);
  }

  lemma JumpFlows(s: Session, program: Program, to: Word, k: nat)
    requires IsFinished(s, program) && k < |program.jumps|
    ensures var i := program.jumps[k].item;
            && i < |program.items| && program.items[i].Load? && IsJump(program.jumps, i)
            && i < |s.layout.pos| && s.layout.pos[i] < |s.layout.roles| && s.layout.roles[s.layout.pos[i]] == Insn(i)
            && (IsUnconditionalTransfer(program.items[i]) || Reaches(s.layout, s.layout.pos[i] + 1, i + 1))
            && (program.items[i].constant in program.labels ==>
                  LabelLeads(s.layout, to, program.items[i].constant, program.labels[program.items[i].constant]))
  {
    var i := program.jumps[k].item;
    assert RecordOk(s, program.items, program.jumps, k);
    assert FlowsOn(program.items, s.layout, i);
    if program.items[i].constant in program.labels {
      LabelCorresponds(s.layout, to, program.items[i].constant, program.labels[program.items[i].constant]);
    }
  }

  lemma JumpMatches(copy: seq<Word>, to: Word, program: Program, lay: Layout, i: nat, holds: bool)
    requires |lay.roles| == |copy| && i < |lay.pos| == |program.items| && lay.pos[i] < |copy|
             && lay.roles[lay.pos[i]] == Insn(i)
    requires program.items[i].Load? && IsJump(program.jumps, i)
    requires WordStep(copy, to, lay.pos[i], holds)
             == JumpStep(program.items[i], to, lay.pos[i], IsBranch(copy[lay.pos[i]]), holds)
    requires IsDecision(copy[lay.pos[i]]) <==> DecidesItem(program.items[i])
    requires IsBranch(copy[lay.pos[i]])
             ==> program.items[i].constant % 4 == 0 && program.items[i].constant != INVALID_BRANCH_TARGET
    requires IsUnconditionalTransfer(program.items[i]) || Reaches(lay, lay.pos[i] + 1, i + 1)
    requires program.items[i].constant in program.labels ==>
               LabelLeads(lay, to, program.items[i].constant, program.labels[program.items[i].constant])
    ensures StepsItem(copy, to, program, lay, i, holds)
  {
  }

  /** A recorded jump: it goes to its target in the copy, as a branch or by its address. */
  lemma JumpStepsAt(code: seq<Word>, copy: seq<Word>, p: nat, item: Item, useConstantPool: bool, to: Word, holds: bool)
    requires p < |code| == |copy| && item.Load? && (useConstantPool || item.rd == PC)
    requires item.constant == INVALID_BRANCH_TARGET || item.constant % 4 == 0
    requires IsPcLoad(code[p]) && ReadsWord(p, code[p]) && Rd(code[p]) == item.rd && Condition(code[p]) == item.cond
    requires 0 <= SlotIndex(code, p) < |code| && code[SlotIndex(code, p)] == item.constant
    requires PreparedAs(copy, code, p, SlotIndex(code, p), item.rd, useConstantPool, to)
    ensures IsDecision(copy[p]) <==> DecidesItem(item)
    ensures WordStep(copy, to, p, holds) == JumpStep(item, to, p, IsBranch(copy[p]), holds)
    ensures IsBranch(copy[p]) ==> item.constant % 4 == 0 && item.constant != INVALID_BRANCH_TARGET
  {
    NoExchange(copy[p]);
  }

  /** A label leads to its item, whether control goes to its word or to its address in the copy. */
  ghost predicate LabelLeads(lay: Layout, to: Word, c: Word, j: nat) {
    && c % 4 == 0 && c != INVALID_BRANCH_TARGET
    && Corresponds(lay, to, AtItem(j), ToAddress((to + c) % ADDRESS_SPACE))
        && Corresponds(lay, to, AtItem(j), InCode(c / 4))
  }

  lemma LabelCorresponds(lay: Layout, to: Word, c: Word, j: nat)
    requires c % 4 == 0 && Reaches(lay, c / 4, j)
    ensures LabelLeads(lay, to, c, j)
  {
    assert IsAddressOf((to + c) % ADDRESS_SPACE, to, c / 4);
  }

  lemma WordSteps(s: Session, program: Program, to: Word, q: nat)
    requires IsFinished(s, program)
    ensures StepsWord(Prepared(s.buffer.code, s.jumps, to), s.layout, q)
  {
    if q < |s.buffer.code| && s.layout.roles[q].Barrier? {
      PreparedElseKept(s, program.items, program.jumps, to, q);
      assert BarrierOk(s.buffer.code, s.layout, q);
      BranchFields(q, s.layout.roles[q].target);
      BarrierAlways(s.buffer.code[q]);
    }
  }

  lemma BarrierAlways(w: Word)
    requires IsUnconditionalBranch(w)
    ensures IsBranch(w) && Condition(w) == AL
  {
    BranchForms(w);
    assert High(w) / 0x1000 == 0xe;
  }

  lemma FinishedIsCopy(s: Session, program: Program, to: Word)
    requires IsFinished(s, program)
    ensures IsCopyOf(Prepared(s.buffer.code, s.jumps, to), to, program, s.layout)
  {
    var copy := Prepared(s.buffer.code, s.jumps, to);
    forall i: nat, holds: bool ensures StepsItem(copy, to, program, s.layout, i, holds) {
      if i < |program.items| {
        if IsJump(program.jumps, i) {
          var k :| 0 <= k < |program.jumps| && program.jumps[k].item == i;
          JumpSteps(s, program, to, k, holds);
        } else if program.items[i].Plain? {
          PlainSteps(s, program, to, i, holds);
        } else {
          LoadSteps(s, program, to, i, holds);
        }
      }
    }
    forall q: nat ensures StepsWord(copy, s.layout, q) {
      WordSteps(s, program, to, q);
    }
  }

  // --- whole runs

  /** prepareExecutableCopy begins with these operations. */
  function FinishOps(ops: seq<Op>): seq<Op> {
    ops + [FlushNoBarrier(true)]
    + if |FlushBare(Run(ops)).buffer.code| % 2 == 0 then [] else [PutWord(BKPT_0)]
  }

  lemma NoJump(ops: seq<Op>, op: Op)
    requires !op.Jump?
    ensures JumpsOf(ops + [op]) == JumpsOf(ops)
  {
    assert (ops + [op])[..|ops|] == ops;
  }

  /** The labels of a run that no flush has hidden. */
  function VisibleLabels(ops: seq<Op>): map<nat, nat> {
    map c | c in Labels(ops) && !Hidden(ops, c) :: Labels(ops)[c]
  }

  function ProgramOf(ops: seq<Op>): Program { Program(ItemsOf(ops), JumpsOf(ops), VisibleLabels(ops)) }

  /** The program that prepareExecutableCopy finishes: padding may be its last instruction, and its
      labels are those that the last flush has not hidden either. */
  function FinishedProgram(ops: seq<Op>): Program {
    Program(FinishedItems(Run(ops), ItemsOf(ops)), JumpsOf(ops), VisibleLabels(ops + [FlushNoBarrier(true)]))
  }

  lemma PaddingKeepsLabels(ops: seq<Op>)
    requires Run(ops).buffer.pool == []
    ensures VisibleLabels(ops + [PutWord(BKPT_0)]) == VisibleLabels(ops)
  {
    OneMore(ops, PutWord(BKPT_0));
  }

  lemma FinishIsRun(ops: seq<Op>)
    requires IsLegalRun(ops) && IsLegalOp(Run(ops), ItemsOf(ops), FlushNoBarrier(true))
    ensures var full := FinishOps(ops);
            && Run(full) == Finish(Run(ops)) && IsLegalRun(full) && Run(full).buffer.pool == []
            && ProgramOf(full) == FinishedProgram(ops)
  {
    var flushed := ops + [FlushNoBarrier(true)];
    OneMore(ops, FlushNoBarrier(true));
    NoJump(ops, FlushNoBarrier(true));
    ForcedFlush(Run(ops));
    if |FlushBare(Run(ops)).buffer.code| % 2 != 0 {
      OneMore(flushed, PutWord(BKPT_0));
      NoJump(flushed, PutWord(BKPT_0));
      PaddingKeepsLabels(flushed);
      BreakpointIsLegal(Run(flushed), ItemsOf(ops));
      PadWord(FlushBare(Run(ops)));
    } else {
      assert flushed + [] == flushed;
    }
  }

  lemma RunIsFinished(ops: seq<Op>)
    requires IsLegalRun(ops) && Run(ops).buffer.pool == []
    ensures IsFinished(Run(ops), ProgramOf(ops))
  {
    RunIsOk(ops);
    RunRecords(ops);
    forall k: nat ensures TargetOk(ItemsOf(ops), JumpsOf(ops), k) { RunTargets(ops, k); }
    forall c: nat | c in VisibleLabels(ops) ensures c % 4 == 0 && Reaches(Run(ops).layout, c / 4, VisibleLabels(ops)[c])
    {
      LabelsReach(ops, c);
    }
  }

  lemma FinishIsFinished(ops: seq<Op>)
    requires IsLegalRun(ops) && IsLegalOp(Run(ops), ItemsOf(ops), FlushNoBarrier(true))
    ensures IsFinished(Finish(Run(ops)), FinishedProgram(ops))
  {
    FinishIsRun(ops);
    RunIsFinished(FinishOps(ops));
  }

  /** prepareExecutableCopy, for every legal run with no constant waiting or an unconditional transfer at
      its end: the copy, executed from its first word with taken jumps and barriers followed, does what
      the instruction list does, executed from its first item with labels as targets, for any number of
      items and any outcome of the conditions: the same events in the same order, at the words of the same
      items, and no constant or padding is executed. A jump to a hidden label leaves the program. */
  lemma CopyRuns(ops: seq<Op>, to: Word, n: nat, holds: Conditions) returns (m: nat)
    requires IsLegalRun(ops) && IsLegalOp(Run(ops), ItemsOf(ops), FlushNoBarrier(true))
    ensures var s := Finish(Run(ops));
            && m <= 2 * n
            && Matches(s.layout, to, RunWords(Prepared(s.buffer.code, s.jumps, to), to, InCode(0), 0, m, holds),
                       RunItems(FinishedProgram(ops), to, AtItem(0), 0, n, holds))
  {
    FinishIsFinished(ops);
    assert Reaches(Finish(Run(ops)).layout, 0, 0);
    m := FinishedRuns(Finish(Run(ops)), FinishedProgram(ops), to, InCode(0), 0, n, holds);
  }

  lemma FinishedRuns(s: Session, program: Program, to: Word, c: Control, j: nat, n: nat, holds: Conditions)
    returns (m: nat)
    requires IsFinished(s, program) && Corresponds(s.layout, to, AtItem(j), c)
    ensures m <= 2 * n
    ensures Matches(s.layout, to, RunWords(Prepared(s.buffer.code, s.jumps, to), to, c, 0, m, holds),
                    RunItems(program, to, AtItem(j), 0, n, holds))
  {
    FinishedIsCopy(s, program, to);
    m := Simulates(Prepared(s.buffer.code, s.jumps, to), to, program, s.layout, c, AtItem(j), 0, n, holds);
  }

  /** The same from any label that is not hidden: control sent to its address in the copy does what the
      items from there on do. */
  lemma CopyRunsFromLabel(ops: seq<Op>, to: Word, c: Word, n: nat, holds: Conditions) returns (m: nat)
    requires IsLegalRun(ops) && IsLegalOp(Run(ops), ItemsOf(ops), FlushNoBarrier(true))
    requires c in VisibleLabels(ops + [FlushNoBarrier(true)])
    ensures var s := Finish(Run(ops));
            && m <= 2 * n
            && Matches(s.layout, to,
                       RunWords(Prepared(s.buffer.code, s.jumps, to), to, ToAddress((to + c) % ADDRESS_SPACE), 0, m,
                                holds),
                       RunItems(FinishedProgram(ops), to, AtItem(Labels(ops)[c]), 0, n, holds))
  {
    FinishIsFinished(ops);
    OneMore(ops, FlushNoBarrier(true));
    LabelCorresponds(Finish(Run(ops)).layout, to, c, Labels(ops)[c]);
    m := FinishedRuns(Finish(Run(ops)), FinishedProgram(ops), to, ToAddress((to + c) % ADDRESS_SPACE), Labels(ops)[c],
                      n, holds);
  }

  /** And from no other: control sent to the address of a hidden label executes padding or a constant. */
  lemma HiddenLabelStrays(ops: seq<Op>, to: Word, c: Word, m: nat, holds: Conditions)
    requires IsLegalRun(ops) && IsLegalOp(Run(ops), ItemsOf(ops), FlushNoBarrier(true))
    requires Hidden(ops + [FlushNoBarrier(true)], c) && m > 0
    ensures var s := Finish(Run(ops));
            !OnlyCode(s.layout, RunWords(Prepared(s.buffer.code, s.jumps, to), to, ToAddress((to + c) % ADDRESS_SPACE),
                                         0, m, holds).visits)
  {
    var s := Finish(Run(ops));
    FinishIsFinished(ops);
    HiddenInCopy(ops, c);
    StraysAt(Prepared(s.buffer.code, s.jumps, to), s.layout, to, c / 4, c, m, holds);
  }

  lemma HiddenInCopy(ops: seq<Op>, c: nat)
    requires IsLegalRun(ops) && IsLegalOp(Run(ops), ItemsOf(ops), FlushNoBarrier(true))
    requires Hidden(ops + [FlushNoBarrier(true)], c)
    ensures c % 4 == 0 && InPool(Finish(Run(ops)).layout, c / 4)
  {
    OneMore(ops, FlushNoBarrier(true));
    ForcedFlush(Run(ops));
    LabelsReach(ops + [FlushNoBarrier(true)], c);
    PoolStays(FlushBare(Run(ops)), PutWord(BKPT_0), c / 4);
  }

  lemma StraysAt(copy: seq<Word>, lay: Layout, to: Word, q: nat, c: Word, m: nat, holds: Conditions)
    requires |lay.roles| == |copy| && InPool(lay, q)
    requires c == 4 * q && m > 0
    ensures !OnlyCode(lay, RunWords(copy, to, ToAddress((to + c) % ADDRESS_SPACE), 0, m, holds).visits)
  {
    var start := ToAddress((to + c) % ADDRESS_SPACE);
    ResolvesTo(start.address, to, q);
    WordThenRest(copy, to, start, q, 0, m - 1, holds);
    assert q in RunWords(copy, to, start, 0, m, holds).visits;
  }
}
