/** Labels and watchpoint labels of the ARM64 and Thumb assemblers. A jump may later be written over the
    code at a watchpoint; no label may lie inside the bytes it overwrites. */
module WatchpointLabels {

  /** Instruction sizes and the number of bytes a replacement jump takes: ARM64, and Thumb with the
      short and (on Linux) the long replacement. */
  datatype Target = Arm64 | Thumb | ThumbLinux {
    function Unit(): nat { if Arm64? then 4 else 2 }

    /** The size of so many units. */
    function Bytes(units: nat): nat { if Arm64? then units * 4 else units * 2 }

    predicate IsAligned(x: int) { if Arm64? then x % 4 == 0 else x % 2 == 0 }

    function MaxJumpReplacementSize(): nat { if ThumbLinux? then 10 else 4 }
  }

  const INT_MIN := -0x8000_0000

  /** What has been emitted and handed out: the code size, the two indices the assembler keeps, and all
      labels and watchpoints so far. */
  datatype Marks = Marks(target: Target, size: nat, last: int, tail: int, labels: set<int>, watchpoints: set<int>)

  function Start(target: Target): Marks { Marks(target, 0, INT_MIN, INT_MIN, {}, {}) }

  datatype Op = Emit(units: nat) | Label | LabelForWatchpoint

  function Max(x: int, y: int): int { if x >= y then x else y }

  /** label() pads to the end of the last window. */
  function Labelled(m: Marks): Marks {
    var at := Max(m.size, m.tail);
    m.(size := at, labels := m.labels + {at})
  }

  /** labelForWatchpoint() reuses the last watchpoint if nothing was emitted since. */
  function Watched(m: Marks): Marks {
    var at := if m.size == m.last then m.size else Max(m.size, m.tail);
    m.(size := at, last := at, tail := at + m.target.MaxJumpReplacementSize(), labels := m.labels + {at},
       watchpoints := m.watchpoints + {at})
  }

  function Apply(m: Marks, op: Op): Marks {
    match op
    case Emit(units) => m.(size := m.size + m.target.Bytes(units))
    case Label => Labelled(m)
    case LabelForWatchpoint => Watched(m)
  }

  function After(m: Marks, ops: seq<Op>): Marks
    decreases |ops|
  {
    if ops == [] then m else After(Apply(m, ops[0]), ops[1..])
  }

  /** No label strictly inside the window of a watchpoint. */
  predicate Clear(m: Marks) {
    forall w, l :: w in m.watchpoints && l in m.labels ==> !(w < l < w + m.target.MaxJumpReplacementSize())
  }

  /** Windows of different watchpoints do not overlap. */
  predicate Disjoint(m: Marks) {
    forall v, w :: v in m.watchpoints && w in m.watchpoints && v < w ==> v + m.target.MaxJumpReplacementSize() <= w
  }

  predicate Inv(m: Marks) {
    && Clear(m) && Disjoint(m)
    && m.target.IsAligned(m.size)
    && (forall l :: l in m.labels ==> 0 <= l <= m.size && m.target.IsAligned(l))
    && (forall w :: w in m.watchpoints ==> w in m.labels && w <= m.last)
    && (if m.watchpoints == {} then m.last == INT_MIN && m.tail == INT_MIN
        else m.last in m.watchpoints && m.tail == m.last + m.target.MaxJumpReplacementSize())
  }

  /** A new label at or past the last window, and past all that was emitted, lies in no window. */
  lemma PastWindows(m: Marks, at: int)
    requires Inv(m) && at >= m.size && (at >= m.tail || at == m.last)
    ensures forall w :: w in m.watchpoints ==> !(w < at < w + m.target.MaxJumpReplacementSize())
  {
    forall w | w in m.watchpoints ensures !(w < at < w + m.target.MaxJumpReplacementSize()) {
      if w < m.last {
        assert w + m.target.MaxJumpReplacementSize() <= m.last;
      }
    }
  }

  /** Padding goes no further than it must: at every earlier offset from the end of the code on, the label
      would stand in a window. */
  lemma LabelIsEarliest(m: Marks, x: int)
    requires Inv(m) && m.size <= x < Labelled(m).size
    ensures exists w :: w in m.watchpoints && w <= x < w + m.target.MaxJumpReplacementSize()
  {
    assert m.last in m.watchpoints;
  }

  /** A watchpoint label is the label, unless it shares the last watchpoint because nothing has been emitted
      since; either way nothing that has been emitted is in its window. */
  lemma WatchIsLabel(m: Marks)
    requires Inv(m)
    ensures var at := Watched(m).size;
            && at in Watched(m).watchpoints && at in Watched(m).labels && at >= m.size
            && (at == Labelled(m).size || (at == m.size && at in m.watchpoints))
            && (m.size in m.watchpoints ==> at == m.size)
  {
  }

  lemma TailAligned(m: Marks)
    requires Inv(m) && m.watchpoints != {}
    ensures m.target.IsAligned(m.tail) && m.last <= m.size
  {
    assert m.last in m.labels;
  }

  lemma EmitKeeps(m: Marks, units: nat)
    requires Inv(m)
    ensures Inv(Apply(m, Emit(units)))
  {
    BytesAligned(m.target, m.size, units);
  }

  lemma BytesAligned(t: Target, size: nat, units: nat)
    requires t.IsAligned(size)
    ensures t.IsAligned(size + t.Bytes(units))
  {
    if t.Arm64? {
      assert (size + units * 4) % 4 == size % 4;
    } else {
      assert (size + units * 2) % 2 == size % 2;
    }
  }

  lemma LabelKeeps(m: Marks)
    requires Inv(m)
    ensures Inv(Labelled(m))
  {
    PastWindows(m, Max(m.size, m.tail));
    if m.watchpoints != {} {
      TailAligned(m);
    }
  }

  lemma WatchKeeps(m: Marks)
    requires Inv(m)
    ensures Inv(Watched(m))
  {
    var at := if m.size == m.last then m.size else Max(m.size, m.tail);
    PastWindows(m, at);
    if m.watchpoints != {} {
      TailAligned(m);
    }
    WindowStarts(m, at);
  }

  /** The new window starts where all earlier labels, and all other windows, have ended. */
  lemma WindowStarts(m: Marks, at: int)
    requires Inv(m) && at == if m.size == m.last then m.size else Max(m.size, m.tail)
    ensures forall l :: l in m.labels ==> l <= at
    ensures forall w :: w in m.watchpoints && w != at ==> w + m.target.MaxJumpReplacementSize() <= at
  {
    forall w | w in m.watchpoints && w != at ensures w + m.target.MaxJumpReplacementSize() <= at {
      if w < m.last {
        assert w + m.target.MaxJumpReplacementSize() <= m.last;
      }
    }
  }

  lemma StepKeepsInv(m: Marks, op: Op)
    requires Inv(m)
    ensures Inv(Apply(m, op)) && Apply(m, op).size >= m.size && Apply(m, op).target == m.target
    ensures m.labels <= Apply(m, op).labels && m.watchpoints <= Apply(m, op).watchpoints
    ensures !op.Emit? ==> Apply(m, op).size in Apply(m, op).labels
  {
    match op
    case Emit(units) => EmitKeeps(m, units);
    case Label => LabelKeeps(m);
    case LabelForWatchpoint => WatchKeeps(m);
  }

  /** For every run of emits, labels and watchpoint labels: replacing any of the watchpoints by a jump
      overwrites no label but its own, and no other watchpoint's window. */
  lemma {:induction false} RunKeepsInv(m: Marks, ops: seq<Op>)
    requires Inv(m)
    ensures Inv(After(m, ops))
    decreases |ops|
  {
    if ops != [] {
      StepKeepsInv(m, ops[0]);
      RunKeepsInv(Apply(m, ops[0]), ops[1..]);
    }
  }

  lemma RunIsClear(target: Target, ops: seq<Op>, w: int, l: int)
    requires var m := After(Start(target), ops); w in m.watchpoints && l in m.labels
    ensures l <= w || w + After(Start(target), ops).target.MaxJumpReplacementSize() <= l
  {
    RunKeepsInv(Start(target), ops);
  }

  // --- the assembler's own methods

  class LabelAssembler {
    const target: Target
    var size: nat
    var indexOfLastWatchpoint: int
    var indexOfTailOfLastWatchpoint: int
    ghost var marks: Marks

    ghost predicate Valid()
      reads this
    {
      && Inv(marks) && marks.target == target && marks.size == size
      && marks.last == indexOfLastWatchpoint && marks.tail == indexOfTailOfLastWatchpoint
    }

    constructor (t: Target)
      ensures Valid() && marks == Start(t) && target == t
    {
      target := t;
      size := 0;
      indexOfLastWatchpoint := INT_MIN;
      indexOfTailOfLastWatchpoint := INT_MIN;
      marks := Start(t);
    }

    method EmitUnits(units: nat)
      requires Valid()
      modifies this
      ensures Valid() && marks == Apply(old(marks), Emit(units)) && size == old(size) + units * target.Unit()
    {
      StepKeepsInv(marks, Emit(units));
      marks := Apply(marks, Emit(units));
      size := size + target.Bytes(units);
    }

    /** Nops up to the end of the last window: as wide as still fit. */
    method Pad()
      requires Valid()
      modifies this`size
      ensures size == Max(old(size), indexOfTailOfLastWatchpoint)
    {
      while size < indexOfTailOfLastWatchpoint
        invariant size <= Max(old(size), indexOfTailOfLastWatchpoint) && size >= old(size)
        invariant target.IsAligned(size)
        decreases indexOfTailOfLastWatchpoint - size
      {
        if target.Arm64? || size + 4 <= indexOfTailOfLastWatchpoint {
          PaddingFits(marks, size);
          size := size + 4;
        } else {
          PaddingFits(marks, size);
          size := size + 2;
        }
      }
    }

    method Label() returns (offset: nat)
      requires Valid()
      modifies this
      ensures Valid() && marks == Labelled(old(marks)) && offset == marks.size && offset in marks.labels
    {
      Pad();
      StepKeepsInv(marks, Op.Label);
      marks := Labelled(marks);
      offset := size;
    }

    method LabelForWatchpoint() returns (offset: nat)
      requires Valid()
      modifies this
      ensures Valid() && marks == Watched(old(marks)) && offset == marks.size && offset in marks.watchpoints
    {
      StepKeepsInv(marks, Op.LabelForWatchpoint);
      ghost var before := marks;
      offset := size;
      if offset != indexOfLastWatchpoint {
        offset := Label();
      }
      indexOfLastWatchpoint := offset;
      indexOfTailOfLastWatchpoint := offset + target.MaxJumpReplacementSize();
      marks := Watched(before);
    }
  }

  /** Sizes are multiples of the unit, so the padding never runs past the end of the window. */
  lemma PaddingFits(m: Marks, size: nat)
    requires Inv(m) && m.target.IsAligned(size) && size < m.tail
    ensures size + m.target.Unit() <= m.tail && m.target.IsAligned(size + m.target.Unit())
            && m.target.IsAligned(size + 4)
  {
    TailAligned(m);
    AlignedStep(m.target, size, m.tail);
  }

  lemma AlignedStep(t: Target, size: nat, tail: int)
    requires t.IsAligned(size) && t.IsAligned(tail) && size < tail
    ensures size + t.Unit() <= tail && t.IsAligned(size + t.Unit()) && t.IsAligned(size + 4)
  {
    if t.Arm64? {
      NextMultiple(size, tail, size / 4, tail / 4, 4);
    } else {
      NextMultiple(size, tail, size / 2, tail / 2, 2);
    }
  }

  lemma NextMultiple(x: nat, y: int, a: nat, b: int, n: nat)
    requires (n == 4 || n == 2) && x == n * a && y == n * b && x < y
    ensures x + n <= y && (x + n) % n == 0 && (x + 4) % n == 0
  {
    if n == 4 {
      assert x + 4 == 4 * (a + 1);
    } else {
      assert x + 2 == 2 * (a + 1) && x + 4 == 2 * (a + 2);
    }
  }
}
