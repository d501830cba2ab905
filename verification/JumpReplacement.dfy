/** replaceWithJump: the code at a watchpoint is overwritten by a jump. What is written, where it goes, and
    that it overwrites no label but its own. */
module JumpReplacements {
  import A = Arm64Branches
  import opened BaseTypes
  import opened ThumbBranches
  import opened ThumbMachine
  import opened ThumbRanges
  import opened WatchpointLabels

  // --- Thumb

  /** The halfwords from address start on. Only Linux has the long form; the check there is made at the start
      of the jump, but linkJumpT4 counts from its end. */
  function ReplacementHalfwords(isLinux: bool, start: int, to: Word): seq<Half> {
    if isLinux && !CanBeJumpT4(start, to) then LongJump(to) else JumpT4(start + 4, to)
  }

  /** Without the long form the target must be in range; with it, only the two farthest targets behind the
      jump that pass the check are not reached: their short form starts four bytes too far on. */
  predicate IsReplaceable(isLinux: bool, start: int, to: Word) {
    if isLinux then !(-0x100_0000 <= to - start < -0x100_0000 + 4) else CanBeJumpT4(start + 4, to)
  }

  /** Executing what was written goes to the target exactly then. */
  lemma ReplacementRuns(isLinux: bool, start: int, to: Word, ip: nat, holds: Flags)
    requires start % 2 == 0 && to % 2 == 0
    ensures Run(ReplacementHalfwords(isLinux, start, to), start, ip, [], holds) == Jump(to)
            <==> IsReplaceable(isLinux, start, to)
  {
    if isLinux && !CanBeJumpT4(start, to) {
      RunLong(to, start, ip, [], 0, holds);
    } else {
      EvenDistance(start + 4, to);
      ShortRuns(start + 4, to, ip, holds);
    }
  }

  lemma ShortRuns(from: int, to: Word, ip: nat, holds: Flags)
    requires (to - from) % 2 == 0
    ensures Run(JumpT4(from, to), from - 4, ip, [], holds) == Jump(to) <==> CanBeJumpT4(from, to)
  {
    if CanBeJumpT4(from, to) {
      RunT4(from, to, ip, [], 0, holds);
    } else {
      FarT4(from, to, ip, holds);
    }
  }

  /** The halfwords from index at on, at address 2 * at. */
  method ReplaceWithJump(code: array<Half>, isLinux: bool, at: nat, to: Word)
    requires at + |ReplacementHalfwords(isLinux, 2 * at, to)| <= code.Length
    modifies code
    ensures code[..] == Written(old(code[..]), at, ReplacementHalfwords(isLinux, 2 * at, to))
    ensures to % 2 == 0 && IsReplaceable(isLinux, 2 * at, to) ==>
              GoesTo(code[at..at + |ReplacementHalfwords(isLinux, 2 * at, to)|], 2 * at, false, 0, to)
  {
    ghost var hs := ReplacementHalfwords(isLinux, 2 * at, to);
    ReplacementGoes(hs, isLinux, 2 * at, to);
    if isLinux && !CanBeJumpT4(2 * at, to) {
      WriteAt(code, at, 5, LongJump(to));
    } else {
      WriteAt(code, at, 2, JumpT4(2 * (at + 2), to));
    }
  }

  method WriteAt(code: array<Half>, at: nat, size: nat, hs: seq<Half>)
    requires |hs| == size && at + size <= code.Length
    modifies code
    ensures code[..] == Written(old(code[..]), at, hs) && code[at..at + size] == hs
  {
    WriteBefore(code, at + size, size, hs);
  }

  lemma ReplacementGoes(hs: seq<Half>, isLinux: bool, start: int, to: Word)
    requires hs == ReplacementHalfwords(isLinux, start, to) && start % 2 == 0
    ensures to % 2 == 0 && IsReplaceable(isLinux, start, to) ==> GoesTo(hs, start, false, 0, to)
  {
    if to % 2 == 0 && IsReplaceable(isLinux, start, to) {
      forall ip: nat, holds: Flags ensures GoesToFrom(hs, start, ip, holds, false, 0, to) {
        ReplacementRuns(isLinux, start, to, ip, holds);
      }
    }
  }

  // --- ARM64

  /** The words from word address start on. */
  function ReplacementWords(start: int, to: int): seq<Word> {
    [A.UnconditionalBranchImmediate(false, to - start)]
  }

  /** The word branches to the target exactly if the displacement fits its field. */
  lemma ReplacementBranches(start: int, to: int)
    ensures var w := ReplacementWords(start, to)[0];
            A.IsUnconditionalBranch(w) && !A.TopBit(w) && (start + A.Imm26(w) == to <==> A.FitsImm26(to - start))
  {
    var d := to - start;
    A.UnconditionalFields(0, A.Field(d, 0x200_0000));
    if A.FitsImm26(d) {
      A.BranchFields(false, d);
    } else {
      SignedRange(A.Field(d, 0x200_0000), 0x200_0000);
    }
  }

  method ReplaceWithBranch(code: array<Word>, start: nat, to: int)
    requires start < code.Length
    modifies code
    ensures code[..] == old(code[..])[start := ReplacementWords(start, to)[0]]
    ensures A.FitsImm26(to - start) ==> A.IsUnconditionalBranch(code[start]) && start + A.Imm26(code[start]) == to
  {
    ReplacementBranches(start, to);
    var offset := to - start;
    code[start] := A.UnconditionalBranchImmediate(false, offset);
  }

  // --- labels

  /** How many bytes are overwritten from this address on. */
  function BytesWritten(target: Target, start: int, to: Word): nat {
    match target
    case Arm64 => 4 * |ReplacementWords(start / 4, to / 4)|
    case Thumb => 2 * |ReplacementHalfwords(false, start, to)|
    case ThumbLinux => 2 * |ReplacementHalfwords(true, start, to)|
  }

  lemma {:induction false} TargetStays(m: Marks, ops: seq<Op>)
    ensures After(m, ops).target == m.target
    decreases |ops|
  {
    if ops != [] {
      TargetStays(Apply(m, ops[0]), ops[1..]);
    }
  }

  /** For every run of the assembler, every place the code is loaded at and every target: replacing a
      watchpoint by a jump overwrites no label but its own, and nothing from the next watchpoint on. */
  lemma ReplacementIsClear(target: Target, ops: seq<Op>, w: int, l: int, base: int, to: Word)
    requires var m := After(Start(target), ops); w in m.watchpoints && l in m.labels
    ensures l <= w || w + BytesWritten(target, base + w, to) <= l
  {
    RunIsClear(target, ops, w, l);
    TargetStays(Start(target), ops);
  }

  /** maxJumpReplacementSize is the most that is ever written, and some target needs it. */
  lemma LargestReplacement(target: Target, start: nat)
    requires start < 0x1_0000_0000
    ensures forall to: Word :: BytesWritten(target, start, to) <= target.MaxJumpReplacementSize()
    ensures exists to: Word :: BytesWritten(target, start, to) == target.MaxJumpReplacementSize()
  {
    var far: Word := if start < 0x8000_0000 then 0xffff_fffe else 0;
    assert BytesWritten(target, start, far) == target.MaxJumpReplacementSize();
  }
}
