/** The range checks of the Thumb branch forms are exact: a branch of the form reaches a target if and only
    if the check passes. */
module ThumbRanges {
  import opened BaseTypes
  import opened ThumbBranches
  import opened ThumbMachine

  predicate IsShortBranchIf(h: Half, offset: int) {
    !IsWide(h) && DecodeShort(h).BranchIf? && DecodeShort(h).offset == offset
  }

  predicate IsShortBranch(h: Half, offset: int) { !IsWide(h) && DecodeShort(h) == Branch(offset) }

  predicate IsWideBranchIf(h1: Half, h2: Half, offset: int) {
    IsWide(h1) && DecodeWide(h1, h2).BranchIf? && DecodeWide(h1, h2).offset == offset
  }

  predicate IsWideBranch(h1: Half, h2: Half, offset: int) { IsWide(h1) && DecodeWide(h1, h2) == Branch(offset) }

  /** Some branch of the form has this offset, counted from the address behind it plus two. */
  ghost predicate T1Reaches(offset: int) { exists h: Half :: IsShortBranchIf(h, offset) }

  ghost predicate T2Reaches(offset: int) { exists h: Half :: IsShortBranch(h, offset) }

  /** The same, counted from the address behind it. */
  ghost predicate T3Reaches(offset: int) { exists h1: Half, h2: Half :: IsWideBranchIf(h1, h2, offset) }

  ghost predicate T4Reaches(offset: int) { exists h1: Half, h2: Half :: IsWideBranch(h1, h2, offset) }

  lemma RangeT1(from: int, to: int)
    requires (to - from) % 2 == 0
    ensures CanBeJumpT1(from, to) <==> T1Reaches(to - from - 2)
  {
    if CanBeJumpT1(from, to) {
      DecodeT1(0, from, to);
      assert IsShortBranchIf(JumpT1(0, from, to), to - from - 2);
    }
    var offset := to - from - 2;
    if h: Half :| IsShortBranchIf(h, offset) {
      SignedRange(h % 256, 128);
    }
  }

  lemma RangeT2(from: int, to: int)
    requires (to - from) % 2 == 0
    ensures CanBeJumpT2(from, to) <==> T2Reaches(to - from - 2)
  {
    if CanBeJumpT2(from, to) {
      DecodeT2(from, to);
      assert IsShortBranch(JumpT2(from, to), to - from - 2);
    }
    var offset := to - from - 2;
    if h: Half :| IsShortBranch(h, offset) {
      SignedRange(h % 2048, 1024);
    }
  }

  lemma OffsetT3Range(h1: Half, h2: Half)
    ensures -0x10_0000 <= OffsetT3(h1, h2) < 0x10_0000
  {
    SignedRange(h1 / 1024 % 2 * 0x10_0000 + h2 / 2048 % 2 * 0x8_0000 + h2 / 8192 % 2 * 0x4_0000 + h1 % 64 * 0x1000
                + h2 % 2048 * 2, 0x10_0000);
  }

  lemma OffsetT4Range(h1: Half, h2: Half)
    ensures -0x100_0000 <= OffsetT4(h1, h2) < 0x100_0000
  {
    var s := h1 / 1024 % 2;
    SignedRange(s * 0x100_0000 + SignedBit(h2 / 8192 % 2, s) * 0x80_0000 + SignedBit(h2 / 2048 % 2, s) * 0x40_0000
                + h1 % 1024 * 0x1000 + h2 % 2048 * 2, 0x100_0000);
  }

  lemma RangeT3(from: int, to: int)
    requires (to - from) % 2 == 0
    ensures CanBeJumpT3(from, to) <==> T3Reaches(to - from)
  {
    if CanBeJumpT3(from, to) {
      DecodeT3(0, from, to);
      var hs := JumpT3(0, from, to);
      assert IsWideBranchIf(hs[0], hs[1], to - from);
    }
    var offset := to - from;
    if h1: Half, h2: Half :| IsWideBranchIf(h1, h2, offset) {
      OffsetT3Range(h1, h2);
    }
  }

  lemma RangeT4(from: int, to: int)
    requires (to - from) % 2 == 0
    ensures CanBeJumpT4(from, to) <==> T4Reaches(to - from)
  {
    if CanBeJumpT4(from, to) {
      DecodeT4(from, to);
      var hs := JumpT4(from, to);
      assert IsWideBranch(hs[0], hs[1], to - from);
    }
    var offset := to - from;
    if h1: Half, h2: Half :| IsWideBranch(h1, h2, offset) {
      OffsetT4Range(h1, h2);
    }
  }

  /** Out of its range the longest branch form goes elsewhere. */
  lemma FarT4(from: int, to: int, ip: nat, holds: Flags)
    requires !CanBeJumpT4(from, to)
    ensures Run(JumpT4(from, to), from - 4, ip, [], holds) != Jump(to)
  {
    var hs := JumpT4(from, to);
    T4IsB(from, to);
    BranchDecodes(hs[0], hs[1]);
    OffsetT4Range(hs[0], hs[1]);
    RunWide(hs, from - 4, ip, [], holds);
  }

  lemma BranchDecodes(h1: Half, h2: Half)
    requires IsB(h1, h2)
    ensures IsWide(h1) && DecodeWide(h1, h2) == Branch(OffsetT4(h1, h2))
  {
    assert h2 / 4096 % 8 / 4 == h2 / 16384 % 2;
  }

  // --- the sites that linkJumpAbsolute accepts

  predicate IsLongSite(hs: seq<Half>)
    requires |hs| == 5
  {
    && IsWide(hs[0]) && DecodeWide(hs[0], hs[1]).MovW? && IsWide(hs[2]) && DecodeWide(hs[2], hs[3]).MovT?
    && !IsWide(hs[4]) && DecodeShort(hs[4]).Bx?
  }

  predicate IsShortSite(hs: seq<Half>)
    requires |hs| == 5
  {
    && !IsWide(hs[0]) && DecodeShort(hs[0]).Nop? && IsWide(hs[1]) && DecodeWide(hs[1], hs[2]).Nop?
    && IsWide(hs[3]) && DecodeWide(hs[3], hs[4]).Branch?
  }

  lemma MoveWDecodes(h1: Half, h2: Half)
    ensures IsMovImmT3(h1, h2) <==> IsWide(h1) && DecodeWide(h1, h2).MovW?
  {
  }

  lemma MoveTDecodes(h1: Half, h2: Half)
    ensures IsMovT(h1, h2) <==> IsWide(h1) && DecodeWide(h1, h2).MovT?
  {
  }

  lemma BxDecodes(h: Half)
    ensures IsBX(h) <==> !IsWide(h) && DecodeShort(h).Bx?
  {
  }

  lemma BDecodes(h1: Half, h2: Half)
    ensures IsB(h1, h2) <==> IsWide(h1) && DecodeWide(h1, h2).Branch?
  {
  }

  /** A site is accepted exactly if it is the two moves and the branch, or the nops and the branch. */
  lemma SiteDecodes(hs: seq<Half>)
    requires |hs| == 5
    ensures IsSite(hs) <==> IsLongSite(hs) || IsShortSite(hs)
  {
    MoveWDecodes(hs[0], hs[1]);
    MoveTDecodes(hs[2], hs[3]);
    BxDecodes(hs[4]);
    BDecodes(hs[3], hs[4]);
  }
}
