/** What AssemblerBufferWithConstantPool<2048, 4, 4, ARMAssembler> computes, as functions on values.
    Code positions are word indices; distances and pool sizes are in bytes, as in the source. */
module PoolModel {
  import opened ArmWords
  import opened BaseTypes

  const MAX_POOL_SIZE: int := 2048
  const BARRIER_SIZE: int := 4
  const WORD_SIZE: int := 4
  const PAD_FOR_ALIGN32: Word := 0xe12f_ff7f
  /** Stands for a failed assertion of the patching code. */
  const UNDEFINED_WORD: Word := 0xe7f0_00f0

  datatype Slot = Slot(constant: Word, reusable: bool)

  datatype Buffer = Buffer(
    code: seq<Word>,        // emitted so far
    pool: seq<Slot>,        // m_pool and m_mask, up to m_numConsts
    loads: seq<nat>,        // m_loadOffsets
    maxDistance: int,
    lastConstDelta: int)

  const EMPTY := Buffer([], [], [], MAX_POOL_SIZE, 0)

  // --- callbacks of ARMAssembler

  /** Write the tag of a pool slot into a load. */
  function TagLoad(load: Word, slot: nat): (w: Word)
  {
    if 2 * slot + 1 < 0x1000 then load - load % 0x1000 + 2 * slot + 1 else UNDEFINED_WORD
  }

  /** Replace the tag of a load by the distance to its slot; diff is the distance to the pool. */
  function ResolveLoad(load: Word, diff: int): (w: Word)
  {
    var index := Offset(load) / 2;
    if diff >= 2 || index > 0 then
      var bytes := (diff + index - 2) * WORD_SIZE;
      if 0 <= bytes <= 0xfff then load - load % 0x1000 + bytes else UNDEFINED_WORD
    else
      load - load % 0x1000 - (if IsUp(load) then DATA_TRANSFER_UP else 0) + WORD_SIZE
  }

  function PlaceBarrier(bytes: nat): (w: Word)
  {
    var words := (bytes - WORD_SIZE) / 4;
    if 0 <= words <= 0x7f_ffff then 0xea00_0000 + words else UNDEFINED_WORD
  }

  // --- flushing

  function Constants(pool: seq<Slot>): (s: seq<Word>)
    ensures |s| == |pool| && forall k :: 0 <= k < |pool| ==> s[k] == pool[k].constant
  {
    seq(|pool|, k requires 0 <= k < |pool| => pool[k].constant)
  }

  /** Every pending load gets the distance to its slot; all other words stay. */
  function PatchLoads(code: seq<Word>, loads: seq<nat>, poolStart: nat): (r: seq<Word>)
    ensures |r| == |code|
    ensures forall p :: 0 <= p < |code| ==>
              r[p] == if p in loads then ResolveLoad(code[p], poolStart - p) else code[p]
  {
    seq(|code|, p requires 0 <= p < |code| => if p in loads then ResolveLoad(code[p], poolStart - p) else code[p])
  }

  function Padding(size: nat, useBarrier: bool): nat {
    (size + if useBarrier then 1 else 0) % 2
  }

  /** Code up to the place where the pool will be put. */
  function BeforePool(b: Buffer, useBarrier: bool): (code: seq<Word>)
  {
    var pad := Padding(|b.code|, useBarrier);
    b.code
    + (if useBarrier then [PlaceBarrier(WORD_SIZE * |b.pool| + WORD_SIZE * pad)] else [])
    + (if pad == 1 then [PAD_FOR_ALIGN32] else [])
  }

  function Flush(b: Buffer, useBarrier: bool): (r: Buffer)
  {
    if b.pool == [] then b
    else
      var front := BeforePool(b, useBarrier);
      b.(code := PatchLoads(front + Constants(b.pool), b.loads, |front|), pool := [], loads := [])
  }

  predicate NoSpaceFor(b: Buffer, insnSize: int) {
    var delta := if b.lastConstDelta > insnSize then b.lastConstDelta - insnSize else 0;
    b.pool != [] && b.maxDistance < insnSize + delta + BARRIER_SIZE + WORD_SIZE
  }

  predicate NoSpaceForBoth(b: Buffer, insnSize: int, constSize: int) {
    b.pool != []
    && (b.maxDistance < insnSize + b.lastConstDelta + constSize + BARRIER_SIZE + WORD_SIZE
        || |b.pool| * WORD_SIZE + constSize >= MAX_POOL_SIZE)
  }

  function FlushIfNoSpaceFor(b: Buffer, insnSize: int): (r: Buffer)
  {
    if NoSpaceFor(b, insnSize) then Flush(b, true) else b
  }

  function FlushIfNoSpaceForBoth(b: Buffer, insnSize: int, constSize: int): (r: Buffer)
  {
    if NoSpaceForBoth(b, insnSize, constSize) then Flush(b, true) else b
  }

  function FlushWithoutBarrier(b: Buffer, isForced: bool): (r: Buffer)
  {
    if isForced || 5 * |b.pool| > 3 * MAX_POOL_SIZE / WORD_SIZE then Flush(b, false) else b
  }

  // --- deltas

  function CorrectDeltas(b: Buffer, insnSize: int): Buffer {
    var delta := b.lastConstDelta - insnSize;
    b.(maxDistance := b.maxDistance - insnSize, lastConstDelta := if delta < 0 then 0 else delta)
  }

  function CorrectDeltasWithConst(b: Buffer, insnSize: int, constSize: int): Buffer {
    var c := CorrectDeltas(b, insnSize);
    c.(maxDistance := c.maxDistance - c.lastConstDelta, lastConstDelta := constSize)
  }

  // --- checked puts

  function PutInt(b: Buffer, w: Word): (r: Buffer)
  {
    var c := FlushIfNoSpaceFor(b, WORD_SIZE);
    CorrectDeltas(c.(code := c.code + [w]), WORD_SIZE)
  }

  /** The first slot from i on that may be shared for this constant; |pool| if there is none. */
  function FindReusable(pool: seq<Slot>, constant: Word, i: nat): (k: nat)
    requires i <= |pool|
    ensures i <= k <= |pool|
    ensures k < |pool| ==> pool[k] == Slot(constant, true)
    ensures forall j :: i <= j < k ==> pool[j] != Slot(constant, true)
    decreases |pool| - i
  {
    if i == |pool| || pool[i] == Slot(constant, true) then i
    else FindReusable(pool, constant, i + 1)
  }

  /** The slot a constant gets: a shared one if there is one and sharing is allowed, else a new one. */
  function SlotFor(pool: seq<Slot>, constant: Word, isReusable: bool): (k: nat)
    ensures k <= |pool|
  {
    if isReusable then FindReusable(pool, constant, 0) else |pool|
  }

  /** The state in which a constant put appends its load. */
  function ReadyForConst(b: Buffer): (r: Buffer)
  {
    var reset := if b.pool == [] then b.(maxDistance := MAX_POOL_SIZE) else b;
    FlushIfNoSpaceForBoth(reset, WORD_SIZE, 4)
  }

  /** The rest of a constant put: the load with its tag, and a new slot if it needs one. */
  function AppendLoad(c: Buffer, insn: Word, constant: Word, isReusable: bool): Buffer {
    var slot := SlotFor(c.pool, constant, isReusable);
    var d := c.(code := c.code + [TagLoad(insn, slot)], loads := c.loads + [|c.code|]);
    if slot < |c.pool| then CorrectDeltas(d, WORD_SIZE)
    else CorrectDeltasWithConst(d.(pool := c.pool + [Slot(constant, isReusable)]), WORD_SIZE, 4)
  }

  function PutIntWithConstantInt(b: Buffer, insn: Word, constant: Word, isReusable: bool): (r: Buffer)
  {
    AppendLoad(ReadyForConst(b), insn, constant, isReusable)
  }

  /** Constants are shared exactly if both are reusable and equal; a unique one always gets a slot of its own. */
  lemma SharedOrNew(c: Buffer, insn: Word, constant: Word, isReusable: bool)
    ensures AppendLoad(c, insn, constant, isReusable).pool
            == if isReusable && Slot(constant, true) in c.pool then c.pool else c.pool + [Slot(constant, isReusable)]
  {
    var slot := SlotFor(c.pool, constant, isReusable);
    if isReusable && Slot(constant, true) in c.pool {
      var j :| 0 <= j < |c.pool| && c.pool[j] == Slot(constant, true);
      assert slot <= j;
    }
  }

  // --- a run of constants that never gets its distance back

  /** The distance check of the next constant put fails. */
  predicate IsStarved(b: Buffer) {
    b.pool != [] && 0 <= b.lastConstDelta
    && b.maxDistance < WORD_SIZE + b.lastConstDelta + 4 + BARRIER_SIZE + WORD_SIZE
  }

  datatype ConstantPut = ConstantPut(insn: Word, constant: Word, isReusable: bool)

  function PutAll(b: Buffer, puts: seq<ConstantPut>): Buffer {
    if puts == [] then b
    else
      var c := PutAll(b, puts[..|puts| - 1]);
      var last := puts[|puts| - 1];
      PutIntWithConstantInt(c, last.insn, last.constant, last.isReusable)
  }

  /** A flush inside a constant put leaves m_maxDistance as it was, so every constant put that
      directly follows flushes again: each gets a barrier and a pool of its own. */
  lemma {:induction false} StarvedRun(b: Buffer, puts: seq<ConstantPut>)
    requires IsStarved(b)
    ensures var c := PutAll(b, puts);
            IsStarved(c) && (puts != [] ==> |c.pool| == 1) && |c.code| >= |b.code| + 3 * |puts|
  {
    if puts != [] {
      StarvedRun(b, puts[..|puts| - 1]);
    }
  }

  /** A plain instruction ends it exactly when fewer than 12 bytes are left: the pool is flushed there, and
      the next constant starts afresh. Until then it goes on, with four bytes less. */
  lemma StarvationEnds(b: Buffer, w: Word, put: ConstantPut)
    requires IsStarved(b) && b.lastConstDelta <= 4
    ensures PutInt(b, w).pool == [] <==> b.maxDistance < 12
    ensures b.maxDistance < 12 ==>
              var next := PutIntWithConstantInt(PutInt(b, w), put.insn, put.constant, put.isReusable);
              next.maxDistance >= MAX_POOL_SIZE - 8
    ensures b.maxDistance >= 12 ==> IsStarved(PutInt(b, w)) && PutInt(b, w).maxDistance == b.maxDistance - 4
  {
  }
}
