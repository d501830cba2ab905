/** AssemblerBufferWithConstantPool<2048, 4, 4, ARMAssembler>: every method does to the abstract
    state what the function of PoolModel of the same name says.  Load offsets are kept in words. */
module ConstantPoolBuffers {
  import opened PoolModel
  import opened AssemblerBuffers
  import opened BaseTypes

  const POOL_ENTRIES: nat := 512

  class ConstantPoolBuffer {
    const buffer: AssemblerBuffer
    const pool: array<Word>
    const mask: array<bool>          // true for a reusable constant
    var loadOffsets: seq<nat>
    var numConsts: nat
    var maxDistance: int
    var lastConstDelta: int
    ghost var state: Buffer          // what all of this stands for
    ghost var Repr: set<object>

    ghost predicate Valid()
      reads this, Repr
      ensures Valid() ==> this in Repr
    {
      && this in Repr && buffer in Repr && pool in Repr && mask in Repr
      && buffer.Repr <= Repr && Repr == {this, pool, mask} + buffer.Repr
      && this !in buffer.Repr && pool !in buffer.Repr && mask !in buffer.Repr
      && buffer.Valid() && |buffer.Contents()| == 4 * |state.code| && Words(buffer.Contents()) == state.code
      && pool.Length == POOL_ENTRIES && mask.Length == POOL_ENTRIES && numConsts < POOL_ENTRIES
      && numConsts == |state.pool|
      && (forall k :: 0 <= k < numConsts ==> state.pool[k] == Slot(pool[k], mask[k]))
      && loadOffsets == state.loads && AscendsBelow(loadOffsets, |state.code|)
      && maxDistance == state.maxDistance && lastConstDelta == state.lastConstDelta
    }

    constructor ()
      ensures Valid() && fresh(Repr) && state == EMPTY
    {
      buffer := new AssemblerBuffer();
      pool := new Word[POOL_ENTRIES](_ => 0);
      mask := new bool[POOL_ENTRIES](_ => false);
      loadOffsets := [];
      numConsts := 0;
      maxDistance := MAX_POOL_SIZE;
      lastConstDelta := 0;
      new;
      state := EMPTY;
      Repr := {this, pool, mask} + buffer.Repr;
    }

    method CodeSize() returns (size: nat)
      requires Valid()
      ensures size == 4 * |state.code|
    {
      size := buffer.index;
    }

    /** The base class's putIntegral: no check, no delta. */
    method PutIntegral(w: Word)
      requires Valid()
      modifies Repr
      ensures Valid() && fresh(Repr - old(Repr))
      ensures state == old(state).(code := old(state.code) + [w])
    {
      WordsAppend(buffer.Contents(), w);
      buffer.PutInt(w);
      Repr := {this, pool, mask} + buffer.Repr;
      state := state.(code := state.code + [w]);
    }

    method ReadWord(p: nat) returns (w: Word)
      requires Valid() && p < |state.code|
      ensures w == state.code[p]
    {
      w := buffer.ReadInt(p);
    }

    method WriteWord(p: nat, w: Word)
      requires Valid() && p < |state.code|
      modifies this`state, buffer.storage
      ensures Valid() && state == old(state).(code := old(state.code)[p := w])
    {
      buffer.WriteInt(p, w);
      state := state.(code := state.code[p := w]);
    }

    /** A write through poolAddress(). */
    method WriteSlot(k: nat, constant: Word)
      requires Valid() && k < numConsts
      modifies this`state, pool
      ensures Valid()
      ensures state == old(state).(pool := old(state.pool)[k := old(state.pool)[k].(constant := constant)])
    {
      pool[k] := constant;
      state := state.(pool := state.pool[k := state.pool[k].(constant := constant)]);
    }

    method FlushConstantPool(useBarrier: bool)
      requires Valid()
      modifies Repr
      ensures Valid() && fresh(Repr - old(Repr))
      ensures state == Flush(old(state), useBarrier)
    {
      if numConsts == 0 {
        return;
      }
      PutBarrierAndPadding(useBarrier);
      var size := CodeSize();
      AppendPool();
      PatchLoadsAt(size / 4);
      ClearPool();
    }

    method ClearPool()
      requires Valid()
      modifies this
      ensures Valid() && Repr == old(Repr) && state == old(state).(pool := [], loads := [])
    {
      loadOffsets := [];
      numConsts := 0;
      state := state.(pool := [], loads := []);
    }

    method PutBarrierAndPadding(useBarrier: bool)
      requires Valid()
      modifies Repr
      ensures Valid() && fresh(Repr - old(Repr))
      ensures state == old(state).(code := BeforePool(old(state), useBarrier))
    {
      var size := CodeSize();
      var alignPool := (size + if useBarrier then BARRIER_SIZE else 0) % 8;
      if alignPool != 0 {
        alignPool := 8 - alignPool;
      }
      PaddingBytes(|state.code|, useBarrier);
      PutFront(useBarrier, alignPool);
    }

    method PutFront(useBarrier: bool, alignPool: nat)
      requires Valid() && alignPool == WORD_SIZE * Padding(|state.code|, useBarrier)
      modifies Repr
      ensures Valid() && fresh(Repr - old(Repr))
      ensures state == old(state).(code := BeforePool(old(state), useBarrier))
    {
      if useBarrier {
        PutIntegral(PlaceBarrier(numConsts * WORD_SIZE + alignPool));
      }
      if alignPool == 4 {
        PutIntegral(PAD_FOR_ALIGN32);
      }
    }

    method AppendPool()
      requires Valid()
      modifies Repr
      ensures Valid() && fresh(Repr - old(Repr))
      ensures state == old(state).(code := old(state.code) + Constants(old(state.pool)))
    {
      WordsAppendAll(buffer.Contents(), pool[..numConsts]);
      buffer.Append(BytesOfAll(pool[..numConsts]));
      Repr := {this, pool, mask} + buffer.Repr;
      assert pool[..numConsts] == Constants(state.pool);
      state := state.(code := state.code + Constants(state.pool));
    }

    /** The loop over m_loadOffsets: each pending load is patched in place. */
    method PatchLoadsAt(poolStart: nat)
      requires Valid()
      modifies this`state, buffer.storage
      ensures Valid()
      ensures state == old(state).(code := PatchLoads(old(state.code), old(state.loads), poolStart))
    {
      ghost var b := state;
      for k := 0 to |loadOffsets|
        invariant Valid() && IsPatched(state, b, k, poolStart)
      {
        PatchedAfter(b, state, k, poolStart);
        PatchLoad(loadOffsets[k], poolStart);
      }
      assert b.loads[..|b.loads|] == b.loads;
    }

    method PatchLoad(p: nat, poolStart: nat)
      requires Valid() && p < |state.code|
      modifies this`state, buffer.storage
      ensures Valid()
      ensures state == WithResolved(old(state), p, poolStart)
    {
      var load := ReadWord(p);
      WriteWord(p, ResolveLoad(load, poolStart - p));
    }

    method FlushWithoutBarrier(isForced: bool)
      requires Valid()
      modifies Repr
      ensures Valid() && fresh(Repr - old(Repr))
      ensures state == PoolModel.FlushWithoutBarrier(old(state), isForced)
    {
      if isForced || 5 * numConsts > 3 * MAX_POOL_SIZE / WORD_SIZE {
        FlushConstantPool(false);
      }
    }

    method FlushIfNoSpaceFor(nextInsnSize: int)
      requires Valid()
      modifies Repr
      ensures Valid() && fresh(Repr - old(Repr))
      ensures state == PoolModel.FlushIfNoSpaceFor(old(state), nextInsnSize)
    {
      if numConsts == 0 {
        return;
      }
      var delta := if lastConstDelta > nextInsnSize then lastConstDelta - nextInsnSize else 0;
      if maxDistance < nextInsnSize + delta + BARRIER_SIZE + WORD_SIZE {
        FlushConstantPool(true);
      }
    }

    method FlushIfNoSpaceForBoth(nextInsnSize: int, nextConstSize: int)
      requires Valid()
      modifies Repr
      ensures Valid() && fresh(Repr - old(Repr))
      ensures state == PoolModel.FlushIfNoSpaceForBoth(old(state), nextInsnSize, nextConstSize)
    {
      if numConsts == 0 {
        return;
      }
      if maxDistance < nextInsnSize + lastConstDelta + nextConstSize + BARRIER_SIZE + WORD_SIZE
         || numConsts * WORD_SIZE + nextConstSize >= MAX_POOL_SIZE {
        FlushConstantPool(true);
      }
    }

    method CorrectDeltas(insnSize: int)
      requires Valid()
      modifies this
      ensures Valid() && Repr == old(Repr) && state == PoolModel.CorrectDeltas(old(state), insnSize)
    {
      maxDistance := maxDistance - insnSize;
      lastConstDelta := lastConstDelta - insnSize;
      if lastConstDelta < 0 {
        lastConstDelta := 0;
      }
      state := PoolModel.CorrectDeltas(state, insnSize);
    }

    method CorrectDeltasWithConst(insnSize: int, constSize: int)
      requires Valid()
      modifies this
      ensures Valid() && Repr == old(Repr) && state == PoolModel.CorrectDeltasWithConst(old(state), insnSize, constSize)
    {
      CorrectDeltas(insnSize);
      maxDistance := maxDistance - lastConstDelta;
      lastConstDelta := constSize;
      state := state.(maxDistance := maxDistance, lastConstDelta := constSize);
    }

    method PutInt(w: Word)
      requires Valid()
      modifies Repr
      ensures Valid() && fresh(Repr - old(Repr))
      ensures state == PoolModel.PutInt(old(state), w)
    {
      FlushIfNoSpaceFor(WORD_SIZE);
      PutIntegral(w);
      CorrectDeltas(WORD_SIZE);
    }

    /** The search for a constant that may be shared. */
    method FindSlot(constant: Word, isReusable: bool) returns (slot: nat)
      requires Valid()
      ensures slot == SlotFor(state.pool, constant, isReusable)
    {
      if isReusable {
        for i := 0 to numConsts
          invariant FindReusable(state.pool, constant, i) == FindReusable(state.pool, constant, 0)
        {
          if mask[i] && pool[i] == constant {
            return i;
          }
        }
      }
      return numConsts;
    }

    method PutIntWithConstantInt(insn: Word, constant: Word, isReusable: bool)
      requires Valid()
      modifies Repr
      ensures Valid() && fresh(Repr - old(Repr))
      ensures state == PoolModel.PutIntWithConstantInt(old(state), insn, constant, isReusable)
    {
      if numConsts == 0 {
        maxDistance := MAX_POOL_SIZE;
        state := state.(maxDistance := MAX_POOL_SIZE);
      }
      FlushIfNoSpaceForBoth(WORD_SIZE, 4);
      AppendLoad(insn, constant, isReusable);
    }

    /** The rest of the put, once the pool has room. */
    method AppendLoad(insn: Word, constant: Word, isReusable: bool)
      requires Valid() && numConsts + 1 < POOL_ENTRIES
      modifies Repr
      ensures Valid() && fresh(Repr - old(Repr))
      ensures state == PoolModel.AppendLoad(old(state), insn, constant, isReusable)
    {
      var slot := FindSlot(constant, isReusable);
      PutTaggedLoad(insn, slot);
      if slot < numConsts {
        CorrectDeltas(WORD_SIZE);
      } else {
        AddSlot(constant, isReusable);
        CorrectDeltasWithConst(WORD_SIZE, 4);
      }
    }

    method PutTaggedLoad(insn: Word, slot: nat)
      requires Valid()
      modifies Repr
      ensures Valid() && fresh(Repr - old(Repr)) && numConsts == old(numConsts)
      ensures state == old(state).(code := old(state.code) + [TagLoad(insn, slot)],
              loads := old(state.loads) + [|old(state.code)|])
    {
      var size := CodeSize();
      PutIntegral(TagLoad(insn, slot));
      loadOffsets := loadOffsets + [size / 4];
      state := state.(loads := state.loads + [size / 4]);
    }

    method AddSlot(constant: Word, isReusable: bool)
      requires Valid() && numConsts + 1 < POOL_ENTRIES
      modifies this, pool, mask
      ensures Valid() && Repr == old(Repr)
      ensures state == old(state).(pool := old(state.pool) + [Slot(constant, isReusable)])
    {
      pool[numConsts] := constant;
      mask[numConsts] := isReusable;
      numConsts := numConsts + 1;
      state := state.(pool := state.pool + [Slot(constant, isReusable)]);
    }
  }

  /** Bytes that are missing to the next multiple of eight. */
  lemma PaddingBytes(words: nat, useBarrier: bool)
    ensures var a := (WORD_SIZE * words + if useBarrier then BARRIER_SIZE else 0) % 8;
            (if a == 0 then 0 else 8 - a) == WORD_SIZE * Padding(words, useBarrier)
  {
    var n := words + if useBarrier then 1 else 0;
    var q := n / 2;
    assert n == 2 * q + n % 2;
    assert WORD_SIZE * n == 8 * q + 4 * (n % 2);
  }

  predicate AscendsBelow(s: seq<nat>, limit: nat) {
    && (forall k :: 0 <= k < |s| ==> s[k] < limit)
    && forall k :: 0 < k < |s| ==> s[k - 1] < s[k]
  }

  lemma {:induction false} EarlierIsBelow(s: seq<nat>, limit: nat, k: nat)
    requires AscendsBelow(s, limit) && k < |s|
    ensures forall j :: 0 <= j < k ==> s[j] < s[k]
  {
    if k > 0 { EarlierIsBelow(s, limit, k - 1); }
  }

  lemma PatchedOneMore(code: seq<Word>, loads: seq<nat>, k: nat, poolStart: nat)
    requires k < |loads| && AscendsBelow(loads, |code|)
    ensures var before := PatchLoads(code, loads[..k], poolStart);
            before[loads[k]] == code[loads[k]]
            && PatchLoads(code, loads[..k + 1], poolStart)
               == before[loads[k] := ResolveLoad(code[loads[k]], poolStart - loads[k])]
  {
    EarlierIsBelow(loads, |code|, k);
    assert loads[..k + 1] == loads[..k] + [loads[k]];
    assert loads[k] !in loads[..k];
  }

  function WithResolved(b: Buffer, p: nat, poolStart: nat): Buffer
    requires p < |b.code|
  {
    b.(code := b.code[p := ResolveLoad(b.code[p], poolStart - p)])
  }

  /** c is b with its first k loads patched. */
  ghost predicate IsPatched(c: Buffer, b: Buffer, k: nat, poolStart: nat) {
    k <= |b.loads| && c == b.(code := PatchLoads(b.code, b.loads[..k], poolStart))
  }

  lemma PatchedAfter(b: Buffer, c: Buffer, k: nat, poolStart: nat)
    requires k < |b.loads| && AscendsBelow(b.loads, |b.code|) && IsPatched(c, b, k, poolStart)
    ensures b.loads[k] < |c.code| && IsPatched(WithResolved(c, b.loads[k], poolStart), b, k + 1, poolStart)
  {
    PatchedOneMore(b.code, b.loads, k, poolStart);
  }
}
