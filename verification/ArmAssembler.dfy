/** The jump layer of ARMAssembler over its buffer: each method is one step of ArmJumpModel, and
    prepareExecutableCopy is the rewriting of ArmPrepare. */
module ArmAssemblers {
  import opened ArmWords
  import opened PoolModel
  import opened PoolLayout
  import opened PoolSteps
  import opened ArmJumpModel
  import opened ArmPrepare
  import opened ConstantPoolBuffers
  import opened BaseTypes

  class ArmAssembler {
    const buffer: ConstantPoolBuffer
    var jumps: seq<nat>            // byte offsets, with the pool flag in bit 0
    ghost var layout: Layout
    ghost var Repr: set<object>

    ghost predicate Valid()
      reads this, Repr
      ensures Valid() ==> this in Repr
    {
      && this in Repr && buffer in Repr && Repr == {this} + buffer.Repr && this !in buffer.Repr
      && buffer.Valid()
    }

    ghost function Current(): Session
      requires Valid()
      reads this, Repr
    {
      Session(buffer.state, jumps, layout)
    }

    constructor ()
      ensures Valid() && fresh(Repr) && Current() == INITIAL
    {
      buffer := new ConstantPoolBuffer();
      jumps := [];
      new;
      layout := Layout([], [], []);
      Repr := {this} + buffer.Repr;
    }

    method PutInt(w: Word)
      requires Valid()
      modifies Repr
      ensures Valid() && fresh(Repr - old(Repr))
      ensures Current() == AddWord(old(Current()), w)
    {
      layout := AddWord(Current(), w).layout;
      buffer.PutInt(w);
      Repr := {this} + buffer.Repr;
    }

    /** ldrImmediate (reusable) and ldrUniqueImmediate. */
    method LdrImmediate(rd: nat, imm: Word, cond: nat, reusable: bool)
      requires Valid() && cond < 15 && rd < 16
      modifies Repr
      ensures Valid() && fresh(Repr - old(Repr))
      ensures Current() == AddLoad(old(Current()), cond, rd, imm, reusable)
    {
      layout := AddLoad(Current(), cond, rd, imm, reusable).layout;
      buffer.PutIntWithConstantInt(LoadWord(cond, rd), imm, reusable);
      Repr := {this} + buffer.Repr;
    }

    method EnsureSpace(insnSpace: nat, constSpace: nat)
      requires Valid()
      modifies Repr
      ensures Valid() && fresh(Repr - old(Repr))
      ensures Current() == MakeRoom(old(Current()), insnSpace, constSpace)
    {
      layout := MakeRoom(Current(), insnSpace, constSpace).layout;
      buffer.FlushIfNoSpaceForBoth(insnSpace, constSpace);
      Repr := {this} + buffer.Repr;
    }

    /** Returns the label behind the load. */
    method LoadBranchTarget(rd: nat, cond: nat, useConstantPool: bool) returns (from: nat)
      requires Valid() && cond < 15 && rd < 16
      modifies Repr
      ensures Valid() && fresh(Repr - old(Repr))
      ensures Current() == ArmJumpModel.LoadBranchTarget(old(Current()), cond, rd, useConstantPool)
      ensures from == 4 * |buffer.state.code|
    {
      ghost var s := Current();
      EnsureSpace(WORD_SIZE, WORD_SIZE);
      from := RecordAndLoad(s, rd, cond, useConstantPool);
    }

    /** Once there is room, the offset recorded is that of the load. */
    method RecordAndLoad(ghost s: Session, rd: nat, cond: nat, useConstantPool: bool) returns (from: nat)
      requires Valid() && cond < 15 && rd < 16 && Current() == MakeRoom(s, WORD_SIZE, WORD_SIZE)
      modifies Repr
      ensures Valid() && fresh(Repr - old(Repr))
      ensures Current() == ArmJumpModel.LoadBranchTarget(s, cond, rd, useConstantPool)
      ensures from == 4 * |buffer.state.code|
    {
      BranchTargetLoad(s, Current(), cond, rd, useConstantPool);
      from := AppendAndLoad(rd, cond, useConstantPool);
    }

    method AppendAndLoad(rd: nat, cond: nat, useConstantPool: bool) returns (from: nat)
      requires Valid() && cond < 15 && rd < 16
      modifies Repr
      ensures Valid() && fresh(Repr - old(Repr))
      ensures var s := old(Current());
              Current() == AddLoad(s, cond, rd, INVALID_BRANCH_TARGET, false)
                             .(jumps := s.jumps + [WORD_SIZE * |s.buffer.code| + if useConstantPool then 1 else 0])
      ensures from == 4 * |buffer.state.code|
    {
      ghost var s := Current();
      AppendJump(useConstantPool);
      AddLoadIgnoresJumps(s, Current().jumps, cond, rd, INVALID_BRANCH_TARGET, false);
      LdrImmediate(rd, INVALID_BRANCH_TARGET, cond, false);
      from := buffer.CodeSize();
    }

    method AppendJump(useConstantPool: bool)
      requires Valid()
      modifies this
      ensures Valid() && Repr == old(Repr)
      ensures var s := old(Current());
              Current() == s.(jumps := s.jumps + [4 * |s.buffer.code| + if useConstantPool then 1 else 0])
    {
      var size := buffer.CodeSize();
      jumps := jumps + [size + if useConstantPool then 1 else 0];
    }

    /** from is the label returned for the load; its slot may still be in the pool or already in the code. */
    method LinkJump(from: nat, to: Word)
      requires Valid() && from >= 4 && from % 4 == 0 && IsLinkable(buffer.state, from / 4 - 1)
      modifies Repr
      ensures Valid() && Repr == old(Repr)
      ensures Current() == old(Current()).(buffer := LinkLoad(old(buffer.state), from / 4 - 1, to))
    {
      var p := from / 4 - 1;
      var insn := buffer.ReadWord(p);
      if insn % 2 == 1 {
        buffer.WriteSlot(Offset(insn) / 2, to);
      } else {
        buffer.WriteWord(ReadIndex(p, insn), to);
      }
    }

    method PrepareExecutableCopy(to: Word)
      requires Valid()
      modifies Repr
      ensures Valid() && fresh(Repr - old(Repr))
      ensures var s := Finish(old(Current()));
              Current() == s.(buffer := s.buffer.(code := Prepared(s.buffer.code, s.jumps, to)))
    {
      FlushAndAlign();
      RewriteJumps(to);
    }

    /** 64-bit alignment is required of the pool and of the code. */
    method FlushAndAlign()
      requires Valid()
      modifies Repr
      ensures Valid() && fresh(Repr - old(Repr))
      ensures Current() == Finish(old(Current()))
    {
      FlushForced();
      PadToEightBytes();
    }

    method PadToEightBytes()
      requires Valid() && buffer.state.pool == []
      modifies Repr
      ensures Valid() && fresh(Repr - old(Repr))
      ensures Current() == if |old(buffer.state.code)| % 2 == 0 then old(Current()) else AddWord(old(Current()), BKPT_0)
    {
      buffer.FlushIfNoSpaceFor(8);
      Repr := {this} + buffer.Repr;
      var size := buffer.CodeSize();
      if size % 8 != 0 {
        PutInt(BKPT_0);
      }
    }

    method FlushForced()
      requires Valid()
      modifies Repr
      ensures Valid() && fresh(Repr - old(Repr)) && buffer.state.pool == []
      ensures Current() == FlushBare(old(Current()))
    {
      BareIsForced(buffer.state);
      FlushBuffer(Flush(buffer.state, false));
    }

    method FlushBuffer(ghost flushed: Buffer)
      requires Valid() && flushed == PoolModel.FlushWithoutBarrier(buffer.state, true)
      modifies Repr
      ensures Valid() && fresh(Repr - old(Repr)) && buffer.state == flushed
      ensures jumps == old(jumps) && layout == LayoutFlush(old(buffer.state), old(layout), false)
    {
      layout := LayoutFlush(buffer.state, layout, false);
      buffer.FlushWithoutBarrier(true);
      Repr := {this} + buffer.Repr;
    }

    method RewriteJumps(to: Word)
      requires Valid()
      modifies buffer`state, buffer.buffer.storage
      ensures Valid()
      ensures buffer.state == old(buffer.state).(code := Prepared(old(buffer.state.code), jumps, to))
    {
      ghost var b := buffer.state;
      for k := 0 to |jumps|
        invariant Valid()
        invariant buffer.state == b.(code := Prepared(b.code, jumps[..k], to))
      {
        assert jumps[..k + 1][..k] == jumps[..k];
        RewriteJump(jumps[k], to);
      }
      assert jumps[..|jumps|] == jumps;
    }

    method RewriteJump(jump: nat, to: Word)
      requires Valid()
      modifies buffer`state, buffer.buffer.storage
      ensures Valid()
      ensures buffer.state == old(buffer.state).(code := Rewrite(old(buffer.state.code), jump, to))
    {
      var size := buffer.CodeSize();
      var p := jump / 4;
      if p < size / 4 {
        var ldr := buffer.ReadWord(p);
        var q := ReadIndex(p, ldr);
        if 0 <= q < size / 4 && q != p {
          RewriteLoad(jump, p, ldr, q, to);
        }
      }
    }

    method RewriteLoad(jump: nat, p: nat, ldr: Word, q: nat, to: Word)
      requires Valid() && p == jump / 4 && IsJumpAt(buffer.state.code, p)
      requires ldr == buffer.state.code[p] && q == SlotIndex(buffer.state.code, p)
      modifies buffer`state, buffer.buffer.storage
      ensures Valid()
      ensures buffer.state == old(buffer.state).(code := Rewrite(old(buffer.state.code), jump, to))
    {
      RewriteCases(buffer.state.code, jump, to, p, q);
      var target := buffer.ReadWord(q);
      if target != INVALID_BRANCH_TARGET {
        WriteJump(jump, p, ldr, q, target, to);
      }
    }

    /** Near targets become branches; of the others the slot gets the address. */
    method WriteJump(jump: nat, p: nat, ldr: Word, q: nat, target: Word, to: Word)
      requires Valid() && p < |buffer.state.code| && q < |buffer.state.code|
      modifies buffer`state, buffer.buffer.storage
      ensures Valid()
      ensures var code := old(buffer.state.code);
              buffer.state == old(buffer.state).(code := if IsNear(jump, Difference(p, target))
                then code[p := EncodeConditionalBranch(Condition(ldr), Difference(p, target))]
                else code[q := (to + target) % ADDRESS_SPACE])
    {
      var difference := Difference(p, target);
      if IsNear(jump, difference) {
        ConditionInRange(ldr);
        buffer.WriteWord(p, EncodeConditionalBranch(Condition(ldr), difference));
      } else {
        buffer.WriteWord(q, (to + target) % ADDRESS_SPACE);
      }
    }
  }

  lemma BareIsForced(b: Buffer)
    ensures PoolModel.FlushWithoutBarrier(b, true) == Flush(b, false) && Flush(b, false).pool == []
  {
  }

  /** The word at p is a load whose slot can be written. */
  predicate IsLinkable(b: Buffer, p: nat) {
    && p < |b.code|
    && if b.code[p] % 2 == 1 then Offset(b.code[p]) / 2 < |b.pool| else 0 <= ReadIndex(p, b.code[p]) < |b.code|
  }

  /** In every reachable state linkJump applied to the label of a load is the Link step of its item. */
  lemma LinkJumpLinksItsItem(s: Session, items: seq<Item>, i: nat, to: Word)
    requires Ok(s, items) && i < |items| && items[i].Load?
    ensures i < |s.layout.pos| && IsLinkable(s.buffer, s.layout.pos[i])
    ensures s.(buffer := LinkLoad(s.buffer, s.layout.pos[i], to)) == Step(s, Link(i, to))
  {
    LoadIsLinkable(s, items, i);
    assert s.layout.pos[i] < |s.buffer.code|;
  }

  lemma LoadIsLinkable(s: Session, items: seq<Item>, i: nat)
    requires Ok(s, items) && i < |items| && items[i].Load?
    ensures i < |s.layout.pos| && IsLinkable(s.buffer, s.layout.pos[i])
  {
    assert ItemOk(s.buffer, items, s.layout, i);
    EncodedIsLinkable(s.buffer, s.layout.pos[i], items[i].cond, items[i].rd, s.layout.places[i]);
  }

  lemma EncodedIsLinkable(b: Buffer, p: nat, cond: nat, rd: nat, place: Place)
    requires p < |b.code| && cond < 16 && rd < 16 && IsReachable(p, place)
    requires b.code[p] == EncodeLoad(cond, rd, p, place)
    requires match place case Pending(k) => k < |b.pool| case At(q) => q < |b.code|
    ensures IsLinkable(b, p)
  {
    EncodedLoad(cond, rd, p, place);
    OffsetParity(b.code[p]);
    match place
    case Pending(k) => assert (2 * k + 1) / 2 == k && (2 * k + 1) % 2 == 1;
    case At(_) => FourIsEven(Offset(b.code[p]));
  }

  lemma FourIsEven(x: nat)
    requires x % 4 == 0
    ensures x % 2 == 0
  {
    var q := x / 4;
    assert x == 4 * q;
    assert x == 2 * (2 * q);
  }

  lemma BranchTargetLoad(s: Session, t: Session, cond: nat, rd: nat, useConstantPool: bool)
    requires cond < 16 && rd < 16 && t == MakeRoom(s, WORD_SIZE, WORD_SIZE)
    ensures ArmJumpModel.LoadBranchTarget(s, cond, rd, useConstantPool)
            == AddLoad(t, cond, rd, INVALID_BRANCH_TARGET, false)
                 .(jumps := t.jumps + [WORD_SIZE * |t.buffer.code| + if useConstantPool then 1 else 0])
  {
  }

  lemma AddLoadIgnoresJumps(s: Session, jumps: seq<nat>, cond: nat, rd: nat, constant: Word, reusable: bool)
    requires cond < 16 && rd < 16
    ensures AddLoad(s.(jumps := jumps), cond, rd, constant, reusable)
            == AddLoad(s, cond, rd, constant, reusable).(jumps := jumps)
  {
  }
}
