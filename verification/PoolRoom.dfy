/** What ensureSpace and the labels promise: instructions that room was made for stand together, no pool
    in between; and exactly when the distance counter makes a put flush. */
module PoolRooms {
  import opened ArmWords
  import opened PoolModel
  import opened PoolLayout
  import opened PoolSteps
  import opened ArmJumpModel
  import opened BaseTypes

  predicate AreLegalPuts(ops: seq<Op>) { forall op :: op in ops ==> IsLegalPut(op) }

  /** Puts are legal whatever has been put before. */
  predicate IsLegalPut(op: Op) { IsPut(op) && IsLegalOp(INITIAL, [], op) }

  /** The bytes of constants that so many operations may need. */
  function ConstBytes(ops: seq<Op>): nat {
    if ops == [] then 0 else (if ops[0].PutWord? then 0 else 4) + ConstBytes(ops[1..])
  }

  function InsnBytes(ops: seq<Op>): nat { 4 * |ops| }

  /** The operations, one after the other, from this session. */
  function From(s: Session, ops: seq<Op>): Session
    decreases |ops|
  {
    if ops == [] then s else From(Step(s, ops[0]), ops[1..])
  }

  // --- room

  /** There is room for n bytes of instructions and m bytes of constants. */
  predicate HasRoom(b: Buffer, n: int, m: int) {
    0 <= b.lastConstDelta <= 4
    && (b.pool == []
        || (4 * |b.pool| + m < MAX_POOL_SIZE
            && (b.maxDistance >= n + m + b.lastConstDelta + 8 || (b.maxDistance == 2044 && n + m <= 2036))))
  }

  lemma RoomIsMade(s: Session, n: nat, m: nat)
    requires 0 <= s.buffer.lastConstDelta <= 4
    ensures HasRoom(MakeRoom(s, n, m).buffer, n, m)
  {
  }

  /** Where this put goes, when there is room for it: to the end of the code. */
  predicate PutsAtEnd(s: Session, op: Op) {
    var t := Step(s, op);
    |t.buffer.code| == |s.buffer.code| + 1 && t.layout.pos == s.layout.pos + [|s.buffer.code|]
  }

  lemma PutInRoom(s: Session, w: Word, n: int, m: nat)
    requires HasRoom(s.buffer, n, m) && n >= 4 && n + m < MAX_POOL_SIZE && |s.layout.roles| == |s.buffer.code|
    requires n % 4 == 0 && m % 4 == 0
    ensures PutsAtEnd(s, PutWord(w)) && HasRoom(Step(s, PutWord(w)).buffer, n - 4, m)
  {
  }

  lemma LoadInRoom(s: Session, op: Op, n: int, m: int)
    requires HasRoom(s.buffer, n, m) && n >= 4 && m >= 4 && n + m < MAX_POOL_SIZE
    requires n % 4 == 0 && m % 4 == 0 && |s.layout.roles| == |s.buffer.code|
    requires op.PutLoad? && op.cond < 15 && op.rd < 16
    ensures PutsAtEnd(s, op) && HasRoom(Step(s, op).buffer, n - 4, m - 4)
  {
  }

  lemma JumpInRoom(s: Session, op: Op, n: int, m: int)
    requires HasRoom(s.buffer, n, m) && n >= 4 && m >= 4 && n + m < MAX_POOL_SIZE
    requires n % 4 == 0 && m % 4 == 0 && |s.layout.roles| == |s.buffer.code|
    requires op.Jump? && op.cond < 15 && op.rd < 16
    ensures PutsAtEnd(s, op) && HasRoom(Step(s, op).buffer, n - 4, m - 4)
  {
    assert MakeRoom(s, WORD_SIZE, WORD_SIZE) == s;
    LoadInRoom(s, PutLoad(op.cond, op.rd, INVALID_BRANCH_TARGET, false), n, m);
  }

  function Row(start: nat, n: nat): seq<nat> { seq(n, k => start + k) }

  /** The last n items stand in the last n words, in order: no barrier, padding or pool in between. */
  predicate StandTogether(s: Session, t: Session, n: nat) {
    |t.buffer.code| == |s.buffer.code| + n && t.layout.pos == s.layout.pos + Row(|s.buffer.code|, n)
  }

  lemma OneInRoom(s: Session, op: Op, n: int, m: int)
    requires HasRoom(s.buffer, n, m) && n >= 4 && n + m < MAX_POOL_SIZE && n % 4 == 0 && m % 4 == 0
    requires |s.layout.roles| == |s.buffer.code| && IsLegalPut(op) && m >= ConstBytes([op])
    ensures PutsAtEnd(s, op) && HasRoom(Step(s, op).buffer, n - 4, m - ConstBytes([op]))
    ensures |Step(s, op).layout.roles| == |Step(s, op).buffer.code|
  {
    match op
    case PutWord(w) => PutInRoom(s, w, n, m);
    case PutLoad(_, _, _, _) => LoadInRoom(s, op, n, m);
    case Jump(_, _, _) => JumpInRoom(s, op, n, m);
  }

  lemma {:induction false} ConstBytesAligned(ops: seq<Op>)
    ensures ConstBytes(ops) % 4 == 0
  {
    if ops != [] {
      ConstBytesAligned(ops[1..]);
    }
  }

  lemma {:induction false} AllInRoom(s: Session, ops: seq<Op>)
    requires HasRoom(s.buffer, InsnBytes(ops), ConstBytes(ops)) && InsnBytes(ops) + ConstBytes(ops) < MAX_POOL_SIZE
    requires |s.layout.roles| == |s.buffer.code| && AreLegalPuts(ops)
    ensures StandTogether(s, From(s, ops), |ops|)
    decreases |ops|
  {
    if ops != [] {
      var rest, next := ops[1..], Step(s, ops[0]);
      ConstBytesAligned(ops);
      OneInRoom(s, ops[0], InsnBytes(ops), ConstBytes(ops));
      AllInRoom(next, rest);
      assert StandTogether(next, From(next, rest), |rest|);
      FirstStands(s, next, From(next, rest), |rest|);
    }
  }

  lemma FirstStands(s: Session, next: Session, t: Session, n: nat)
    requires |next.buffer.code| == |s.buffer.code| + 1 && next.layout.pos == s.layout.pos + [|s.buffer.code|]
    requires StandTogether(next, t, n)
    ensures StandTogether(s, t, n + 1)
  {
    assert Row(|s.buffer.code|, n + 1) == [|s.buffer.code|] + Row(|s.buffer.code| + 1, n);
  }

  lemma {:induction false} RunFrom(ops: seq<Op>, more: seq<Op>)
    ensures Run(ops + more) == From(Run(ops), more)
    decreases |more|
  {
    if more == [] {
      assert ops + more == ops;
    } else {
      var first := ops + [more[0]];
      RunMore(ops, more[0]);
      RunFrom(first, more[1..]);
      FirstApart(ops, more);
    }
  }

  lemma FirstApart<T>(a: seq<T>, b: seq<T>)
    requires b != []
    ensures a + [b[0]] + b[1..] == a + b
  {
  }

  /** ensureSpace: after any legal run, puts of no more instructions and constants than were asked for stand
      together, as long as they fit a pool at all. */
  lemma PutsStandTogether(ops: seq<Op>, n: nat, m: nat, puts: seq<Op>)
    requires IsLegalRun(ops) && AreLegalPuts(puts)
    requires InsnBytes(puts) <= n && ConstBytes(puts) <= m && InsnBytes(puts) + ConstBytes(puts) < MAX_POOL_SIZE
    ensures var room := ops + [EnsureSpaceForBoth(n, m)];
            StandTogether(Run(room), Run(room + puts), |puts|) && |Run(room).layout.pos| == |ItemsOf(ops)|
  {
    var room := ops + [EnsureSpaceForBoth(n, m)];
    RunIsOk(ops);
    RunMore(ops, EnsureSpaceForBoth(n, m));
    RunIsOk(room);
    RoomIsMade(Run(ops), n, m);
    AllInRoom(Run(room), puts);
    RunFrom(room, puts);
  }

  predicate AllWords(ops: seq<Op>) { forall op :: op in ops ==> op.PutWord? }

  /** The same for ensureSpace without constants: there is room for words as long as nothing else is put. */
  predicate HasWordRoom(b: Buffer, n: int) {
    0 <= b.lastConstDelta <= 4 && (b.pool == [] || b.maxDistance >= n + 8)
  }

  lemma {:induction false} WordsInRoom(s: Session, ops: seq<Op>)
    requires HasWordRoom(s.buffer, InsnBytes(ops)) && |s.layout.roles| == |s.buffer.code| && AllWords(ops)
    ensures StandTogether(s, From(s, ops), |ops|)
    decreases |ops|
  {
    if ops != [] {
      var rest, next := ops[1..], Step(s, ops[0]);
      assert ops[0] in ops && forall op :: op in rest ==> op in ops;
      assert PutsAtEnd(s, ops[0]) && HasWordRoom(next.buffer, InsnBytes(rest));
      WordsInRoom(next, rest);
      FirstStands(s, next, From(next, rest), |rest|);
    }
  }

  lemma WordsStandTogether(ops: seq<Op>, n: nat, puts: seq<Op>)
    requires IsLegalRun(ops) && AllWords(puts) && InsnBytes(puts) <= n
    ensures var room := ops + [EnsureSpace(n)];
            StandTogether(Run(room), Run(room + puts), |puts|) && |Run(room).layout.pos| == |ItemsOf(ops)|
  {
    var room := ops + [EnsureSpace(n)];
    RunIsOk(ops);
    RunMore(ops, EnsureSpace(n));
    RunIsOk(room);
    WordsInRoom(Run(room), puts);
    RunFrom(room, puts);
  }

  /** The limit is the size of a pool: a request of that much does not keep 511 instructions together. */
  lemma RoomHasLimit()
    ensures AreLegalPuts(FillOps(510)) && InsnBytes(FillOps(510)) + ConstBytes(FillOps(510)) == MAX_POOL_SIZE
    ensures var room := [EnsureSpaceForBoth(2044, 4)];
            !StandTogether(Run(room), Run(room + FillOps(510)), |FillOps(510)|)
  {
    var room := [EnsureSpaceForBoth(2044, 4)];
    FillIsLegal(510);
    FillSize(510);
    NothingToFlush(2044, 4);
    FromTheStart(room, FillOps(510));
    FillFlushes();
  }

  lemma NothingToFlush(n: nat, m: nat)
    ensures Run([EnsureSpaceForBoth(n, m)]) == INITIAL
  {
    var op := EnsureSpaceForBoth(n, m);
    assert [] + [op] == [op];
    RunMore([], op);
    assert MakeRoom(INITIAL, n, m) == INITIAL;
  }

  lemma FromTheStart(room: seq<Op>, more: seq<Op>)
    requires Run(room) == INITIAL
    ensures Run(room + more) == Run(more)
  {
    RunFrom(room, more);
    RunIsFrom(more);
  }

  lemma RunIsFrom(more: seq<Op>)
    ensures Run(more) == From(INITIAL, more)
  {
    assert [] + more == more;
    RunFrom([], more);
  }

  lemma FillFlushes()
    ensures |Run(FillOps(510)).buffer.code| >= 513
  {
    FilledState(509);
    FilledSize(509);
    RunMore(FillOps(509), PutWord(NOP));
    FlushGrows(Run(FillOps(509)), NOP);
  }

  lemma {:induction false} FillIsLegal(n: nat)
    ensures AreLegalPuts(FillOps(n)) && ConstBytes(FillOps(n)) == 4
    decreases n
  {
    assert High(NOP) == 0xe1a0;
    if n > 0 {
      FillIsLegal(n - 1);
      ConstBytesAdd(FillOps(n - 1), [PutWord(NOP)]);
    }
  }

  lemma {:induction false} ConstBytesAdd(a: seq<Op>, b: seq<Op>)
    ensures ConstBytes(a + b) == ConstBytes(a) + ConstBytes(b)
    decreases |a|
  {
    if a == [] {
      assert a + b == b;
    } else {
      ConstBytesAdd(a[1..], b);
      assert (a + b)[1..] == a[1..] + b;
    }
  }

  lemma FlushGrows(s: Session, w: Word)
    requires IsFilled(s.buffer, 509)
    ensures |Step(s, PutWord(w)).buffer.code| >= |s.buffer.code| + 3
  {
  }

  lemma NoFlushYet(s: Session, w: Word, n: nat)
    requires n <= 508 && IsFilled(s.buffer, n)
    ensures |Step(s, PutWord(w)).buffer.code| == |s.buffer.code| + 1
  {
  }

  lemma {:induction false} FilledSize(n: nat)
    requires n <= 509
    ensures |Run(FillOps(n)).buffer.code| == n + 1
    decreases n
  {
    if n == 0 {
      assert FillOps(0) == [] + [PutLoad(AL, 0, 1, true)];
      RunMore([], PutLoad(AL, 0, 1, true));
    } else {
      FilledSize(n - 1);
      FilledState(n - 1);
      RunMore(FillOps(n - 1), PutWord(NOP));
      NoFlushYet(Run(FillOps(n - 1)), NOP, n - 1);
    }
  }

  // --- exactly when a put flushes

  /** The bytes of code since the first load that waits for the pool. */
  function Elapsed(b: Buffer): int
    requires b.loads != []
  {
    4 * (|b.code| - b.loads[0])
  }

  /** The counter is the size of a pool less these bytes, or it was too low already when the pool began. */
  predicate IsCounted(b: Buffer) {
    && (b.lastConstDelta == 0 || b.lastConstDelta == 4) && (b.pool == [] <==> b.loads == [])
    && (b.pool != [] ==>
          && |b.pool| <= |b.code| - b.loads[0]
          && (b.maxDistance + Elapsed(b) == MAX_POOL_SIZE || b.maxDistance + Elapsed(b) < 20))
  }

  lemma FlushKeepsCounted(b: Buffer, useBarrier: bool)
    requires IsCounted(b)
    ensures IsCounted(Flush(b, useBarrier)) && Flush(b, useBarrier).pool == []
  {
  }

  lemma AppendKeepsCounted(b: Buffer, insn: Word, constant: Word, isReusable: bool)
    requires IsCounted(b) && (b.pool == [] ==> b.maxDistance == MAX_POOL_SIZE || b.maxDistance < 20)
    ensures IsCounted(AppendLoad(b, insn, constant, isReusable))
  {
  }

  lemma LoadKeepsCounted(b: Buffer, insn: Word, constant: Word, isReusable: bool)
    requires IsCounted(b)
    ensures IsCounted(PutIntWithConstantInt(b, insn, constant, isReusable))
  {
    if b.pool != [] {
      FlushKeepsCounted(b, true);
    }
    AppendKeepsCounted(ReadyForConst(b), insn, constant, isReusable);
  }

  lemma LinkKeepsCounted(b: Buffer, p: nat, target: Word)
    requires IsCounted(b) && p < |b.code|
    ensures IsCounted(LinkLoad(b, p, target))
  {
  }

  lemma WordKeepsCounted(b: Buffer, w: Word)
    requires IsCounted(b)
    ensures IsCounted(PutInt(b, w))
  {
    FlushKeepsCounted(b, true);
  }

  lemma RoomKeepsCounted(s: Session, n: int, m: int)
    requires IsCounted(s.buffer)
    ensures IsCounted(FlushIfNoSpaceFor(s.buffer, n)) && IsCounted(MakeRoom(s, n, m).buffer)
  {
    FlushKeepsCounted(s.buffer, true);
  }

  lemma StepKeepsCounted(s: Session, op: Op)
    requires IsCounted(s.buffer)
    ensures IsCounted(Step(s, op).buffer)
  {
    match op
    case PutWord(w) => WordKeepsCounted(s.buffer, w);
    case PutLoad(_, _, _, _) => LoadStepKeepsCounted(s, op);
    case Jump(_, _, _) => JumpKeepsCounted(s, op);
    case EnsureSpace(n) => RoomKeepsCounted(s, n, 0);
    case EnsureSpaceForBoth(n, m) => RoomKeepsCounted(s, n, m);
    case FlushPool => FlushKeepsCounted(s.buffer, true);
    case FlushNoBarrier(_) => FlushKeepsCounted(s.buffer, false);
    case Link(_, _) => LinkStepKeepsCounted(s, op);
  }

  lemma LinkStepKeepsCounted(s: Session, op: Op)
    requires IsCounted(s.buffer) && op.Link?
    ensures IsCounted(Step(s, op).buffer)
  {
    if op.item < |s.layout.pos| && s.layout.pos[op.item] < |s.buffer.code| {
      LinkKeepsCounted(s.buffer, s.layout.pos[op.item], op.target);
    }
  }

  lemma LoadStepKeepsCounted(s: Session, op: Op)
    requires IsCounted(s.buffer) && op.PutLoad?
    ensures IsCounted(Step(s, op).buffer)
  {
    if op.cond < 15 && op.rd < 16 {
      LoadKeepsCounted(s.buffer, LoadWord(op.cond, op.rd), op.constant, op.reusable);
    }
  }

  lemma JumpKeepsCounted(s: Session, op: Op)
    requires IsCounted(s.buffer) && op.Jump?
    ensures IsCounted(Step(s, op).buffer)
  {
    if op.cond < 15 && op.rd < 16 {
      var b := MakeRoom(s, WORD_SIZE, WORD_SIZE).buffer;
      RoomKeepsCounted(s, WORD_SIZE, WORD_SIZE);
      LoadKeepsCounted(b, LoadWord(op.cond, op.rd), INVALID_BRANCH_TARGET, false);
    }
  }

  /** In every state of every run the counter is exact, or too low from a flush inside a constant put. */
  lemma {:induction false} RunIsCounted(ops: seq<Op>)
    ensures IsCounted(Run(ops).buffer)
  {
    if ops != [] {
      RunIsCounted(ops[..|ops| - 1]);
      StepKeepsCounted(Run(ops[..|ops| - 1]), ops[|ops| - 1]);
    }
  }

  predicate IsExact(b: Buffer) {
    IsCounted(b) && b.pool != [] && b.maxDistance + Elapsed(b) == MAX_POOL_SIZE
  }

  /** With an exact counter, a put of a word flushes exactly from 510 words on, counted from the first load of
      the pool. */
  lemma WordFlushesExactly(b: Buffer, w: Word)
    requires IsExact(b)
    ensures PutInt(b, w).pool == [] <==> Elapsed(b) >= 2040
  {
    WordEmpties(b, w);
    NextWordFits(b);
  }

  lemma WordEmpties(b: Buffer, w: Word)
    requires b.pool != []
    ensures PutInt(b, w).pool == [] <==> NoSpaceFor(b, WORD_SIZE)
  {
  }

  lemma NextWordFits(b: Buffer)
    requires IsExact(b)
    ensures NoSpaceFor(b, WORD_SIZE) <==> Elapsed(b) >= 2040
  {
  }

  lemma FlushChangesCode(b: Buffer)
    requires b.pool != []
    ensures |Flush(b, true).code| > |b.code|
  {
  }

  /** Just behind a load with a new constant the next constant flushes from 508 words on, and else from 509
      on; it also does if no entry is left. */
  lemma LoadFlushesExactly(b: Buffer, insn: Word, constant: Word, isReusable: bool)
    requires IsExact(b)
    ensures |PutIntWithConstantInt(b, insn, constant, isReusable).code| == |b.code| + 1
            <==> Elapsed(b) + b.lastConstDelta < 2036 && |b.pool| < 511
  {
    NextConstantFits(b);
    OneWordMore(b, insn, constant, isReusable);
  }

  lemma NextConstantFits(b: Buffer)
    requires IsExact(b)
    ensures NoSpaceForBoth(b, WORD_SIZE, 4) <==> Elapsed(b) + b.lastConstDelta >= 2036 || |b.pool| >= 511
  {
  }

  lemma OneWordMore(b: Buffer, insn: Word, constant: Word, isReusable: bool)
    requires b.pool != []
    ensures |PutIntWithConstantInt(b, insn, constant, isReusable).code| == |b.code| + 1
            <==> !NoSpaceForBoth(b, WORD_SIZE, 4)
  {
    FlushChangesCode(b);
  }

  /** Space asked for is counted in full. */
  lemma SpaceFlushesExactly(b: Buffer, n: nat, m: nat)
    requires IsExact(b)
    ensures FlushIfNoSpaceFor(b, n).pool == []
            <==> Elapsed(b) + (if n < b.lastConstDelta then b.lastConstDelta else n) > 2040
    ensures FlushIfNoSpaceForBoth(b, n, m).pool == []
            <==> Elapsed(b) + n + m + b.lastConstDelta > 2040 || 4 * |b.pool| + m >= MAX_POOL_SIZE
  {
  }

  /** A flush without a barrier that is not forced happens from 308 of the 512 entries on, more than 60%. */
  lemma FlushesBareExactly(b: Buffer)
    ensures PoolModel.FlushWithoutBarrier(b, false).pool == [] <==> b.pool == [] || |b.pool| >= 308
  {
  }
}
