/** The lazily published character buffer of OpaqueJSString: any number of calls of characters(),
    interleaved step by step, and the destructor. */
module OpaqueJSStrings {
  import opened BaseTypes

  type Pointer = nat

  /** The wrapped string: null, of 8-bit characters, or of 16-bit ones that already lie in a buffer. */
  datatype Source = NullString | EightBit(text: seq<nat>) | SixteenBit(text: seq<nat>, own: Pointer)

  /** Memory from the allocator, before and after the characters are copied into it. */
  datatype Buffer = Uninitialized | Characters(text: seq<nat>)

  /** How far one call has come. */
  datatype Call =
    | Entered
    | SawNull
    | Allocated(buffer: Pointer)
    | Filled(buffer: Pointer)
    | Lost(buffer: Pointer, winner: Pointer)
    | Returned(result: Option<Pointer>)

  /** cell is m_characters; live the allocated buffers; the counters count calls of malloc and free. */
  datatype State = State(source: Source, cell: Option<Pointer>, live: map<Pointer, Buffer>, calls: seq<Call>,
                         mallocs: nat, frees: nat, destroyed: bool)

  /** The constructors: a 16-bit string's own characters are published at once. */
  function Created(source: Source): State {
    State(source, if source.SixteenBit? then Some(source.own) else None, map[], [], 0, 0, false)
  }

  /** One atomic step: a new call, a step of call i, or the destructor. */
  datatype Action =
    | Enter
    | Load(i: nat)
    | ReturnNull(i: nat)
    | Malloc(i: nat, pointer: Pointer)
    | Copy(i: nat)
    | CompareExchange(i: nat)
    | Free(i: nat)
    | Destroy

  predicate AllReturned(s: State) { forall i :: 0 <= i < |s.calls| ==> s.calls[i].Returned? }

  /** The allocator may give out any memory that is not in use, also memory that was freed. The
      destructor runs when no reference is left, so no call is under way. */
  predicate Enabled(s: State, a: Action) {
    !s.destroyed &&
    match a
    case Enter => true
    case Load(i) => i < |s.calls| && s.calls[i].Entered?
    case ReturnNull(i) => i < |s.calls| && s.calls[i].SawNull? && s.source.NullString?
    case Malloc(i, p) =>
      i < |s.calls| && s.calls[i].SawNull? && !s.source.NullString? && p !in s.live
      && (s.source.SixteenBit? ==> p != s.source.own)
    case Copy(i) => i < |s.calls| && s.calls[i].Allocated? && !s.source.NullString?
    case CompareExchange(i) => i < |s.calls| && s.calls[i].Filled?
    case Free(i) => i < |s.calls| && s.calls[i].Lost?
    case Destroy => AllReturned(s)
  }

  function Removed(live: map<Pointer, Buffer>, p: Pointer): map<Pointer, Buffer> { live - {p} }

  function Apply(s: State, a: Action): State
    requires Enabled(s, a)
  {
    match a
    case Enter => s.(calls := s.calls + [Entered])
    case Load(i) => s.(calls := s.calls[i := if s.cell.Some? then Returned(s.cell) else SawNull])
    case ReturnNull(i) => s.(calls := s.calls[i := Returned(None)])
    case Malloc(i, p) =>
      s.(calls := s.calls[i := Allocated(p)], live := s.live[p := Uninitialized], mallocs := s.mallocs + 1)
    case Copy(i) =>
      var p := s.calls[i].buffer;
      s.(calls := s.calls[i := Filled(p)], live := s.live[p := Characters(s.source.text)])
    case CompareExchange(i) =>
      var p := s.calls[i].buffer;
      if s.cell.None? then s.(cell := Some(p), calls := s.calls[i := Returned(Some(p))])
      else s.(calls := s.calls[i := Lost(p, s.cell.value)])
    case Free(i) =>
      var call := s.calls[i];
      s.(calls := s.calls[i := Returned(Some(call.winner))], live := Removed(s.live, call.buffer), frees := s.frees + 1)
    case Destroy =>
      var dead := s.(destroyed := true);
      if s.cell.None? || (s.source.SixteenBit? && s.source.own == s.cell.value) then dead
      else dead.(live := Removed(s.live, s.cell.value), frees := s.frees + 1)
  }

  predicate Owns(c: Call) { c.Allocated? || c.Filled? || c.Lost? }

  // --- what every step keeps

  /** The cell is empty, the string's own characters, or a live buffer that holds all of them. */
  predicate CellOk(s: State) {
    match s.source
    case NullString => s.cell.None?
    case SixteenBit(_, own) => s.cell == Some(own)
    case EightBit(text) =>
      s.cell.Some? && !s.destroyed ==>
        s.cell.value in s.live && s.live[s.cell.value] == Characters(text)
  }

  /** A call that has not returned owns a live buffer of its own, or none. */
  predicate CallOk(s: State, c: Call) {
    match c
    case Entered => true
    case SawNull => !s.source.SixteenBit?
    case Allocated(p) => s.source.EightBit? && p in s.live && s.cell != Some(p)
    case Filled(p) => s.source.EightBit? && p in s.live && s.cell != Some(p) && s.live[p] == Characters(s.source.text)
    case Lost(p, w) => s.source.EightBit? && p in s.live && s.cell == Some(w) && w != p
    case Returned(r) => if s.source.NullString? then r.None? else r.Some? && r == s.cell
  }

  predicate OwnersApart(s: State) {
    forall i, j :: 0 <= i < j < |s.calls| && Owns(s.calls[i]) && Owns(s.calls[j])
        ==> s.calls[i].buffer != s.calls[j].buffer
  }

  /** Nothing is live but the published buffer and what a call still owns. */
  predicate NoLeak(s: State) {
    forall p :: p in s.live ==>
      || (s.source.EightBit? && s.cell == Some(p) && !s.destroyed)
      || exists i :: 0 <= i < |s.calls| && Owns(s.calls[i]) && s.calls[i].buffer == p
  }

  predicate Inv(s: State) {
    && CellOk(s) && (forall i :: 0 <= i < |s.calls| ==> CallOk(s, s.calls[i])) && OwnersApart(s) && NoLeak(s)
    && s.mallocs == s.frees + |s.live|
    && (s.destroyed ==> AllReturned(s) && s.live == map[])
  }

  /** A free only ever releases a buffer that is live: no buffer is freed twice. */
  predicate FreesLive(s: State, a: Action)
    requires Enabled(s, a)
  {
    match a
    case Free(i) => s.calls[i].buffer in s.live
    case Destroy => s.source.EightBit? && s.cell.Some? ==> s.cell.value in s.live
    case _ => true
  }

  lemma SizeAdded(live: map<Pointer, Buffer>, p: Pointer, b: Buffer)
    ensures |live[p := b]| == if p in live then |live| else |live| + 1
  {
    if p in live {
      assert live[p := b].Keys == live.Keys;
    } else {
      assert live[p := b].Keys == live.Keys + {p};
    }
  }

  lemma SizeRemoved(live: map<Pointer, Buffer>, p: Pointer)
    requires p in live
    ensures |Removed(live, p)| == |live| - 1
  {
    assert Removed(live, p).Keys == live.Keys - {p};
  }

  lemma CreatedInv(source: Source)
    ensures Inv(Created(source))
  {
  }

  /** Every call but the one that moves stays as it was. */
  lemma OthersKept(s: State, t: State, i: nat)
    requires Inv(s) && i < |s.calls| && |t.calls| == |s.calls| && t.source == s.source && t.destroyed == s.destroyed
    requires forall k :: 0 <= k < |s.calls| && k != i ==> t.calls[k] == s.calls[k]
    requires t.cell == s.cell
             || (s.cell.None? && Owns(s.calls[i]) && t.cell == Some(s.calls[i].buffer) && s.source.EightBit?)
    requires forall p :: p in s.live && (Owns(s.calls[i]) ==> p != s.calls[i].buffer) ==>
               p in t.live && t.live[p] == s.live[p]
    ensures forall k :: 0 <= k < |t.calls| && k != i ==> CallOk(t, t.calls[k])
  {
    forall k | 0 <= k < |t.calls| && k != i ensures CallOk(t, t.calls[k]) {
      assert CallOk(s, s.calls[k]) && CallOk(s, s.calls[i]);
      if Owns(s.calls[k]) && Owns(s.calls[i]) {
        assert s.calls[k].buffer != s.calls[i].buffer;
      }
    }
  }

  /** An owner in s that did not move is one in t. */
  lemma LeaksKept(s: State, t: State, i: nat)
    requires Inv(s) && i < |s.calls| && |t.calls| == |s.calls| && t.source == s.source && t.destroyed == s.destroyed
    requires forall k :: 0 <= k < |s.calls| && k != i ==> t.calls[k] == s.calls[k]
    requires t.cell == s.cell || s.cell.None?
    requires forall p :: p in t.live ==>
      || (p in s.live && !(Owns(s.calls[i]) && p == s.calls[i].buffer))
      || (Owns(t.calls[i]) && p == t.calls[i].buffer) || (t.source.EightBit? && t.cell == Some(p) && !t.destroyed)
    ensures NoLeak(t)
  {
    forall p | p in t.live
      ensures (t.source.EightBit? && t.cell == Some(p) && !t.destroyed)
              || exists k :: 0 <= k < |t.calls| && Owns(t.calls[k]) && t.calls[k].buffer == p
    {
      if Owns(t.calls[i]) && p == t.calls[i].buffer {
        assert t.calls[i].buffer == p;
      } else if p in s.live && !(t.source.EightBit? && t.cell == Some(p) && !t.destroyed) {
        var k :| 0 <= k < |s.calls| && Owns(s.calls[k]) && s.calls[k].buffer == p;
        assert t.calls[k] == s.calls[k];
      }
    }
  }

  /** What moving one call has to establish; the rest of the invariant is about the others. */
  lemma MoveKeeps(s: State, t: State, i: nat)
    requires Inv(s) && i < |s.calls| && |t.calls| == |s.calls| && t.source == s.source && !s.destroyed && !t.destroyed
    requires forall k :: 0 <= k < |s.calls| && k != i ==> t.calls[k] == s.calls[k] && CallOk(t, t.calls[k])
    requires CellOk(t) && CallOk(t, t.calls[i]) && NoLeak(t) && t.mallocs == t.frees + |t.live|
    requires Owns(t.calls[i]) ==>
               forall k :: 0 <= k < |s.calls| && k != i && Owns(s.calls[k]) ==> s.calls[k].buffer != t.calls[i].buffer
    ensures Inv(t)
  {
    forall j, k | 0 <= j < k < |t.calls| && Owns(t.calls[j]) && Owns(t.calls[k])
      ensures t.calls[j].buffer != t.calls[k].buffer
    {
      if j != i && k != i {
        assert s.calls[j].buffer != s.calls[k].buffer;
      }
    }
  }

  lemma EnterKeeps(s: State)
    requires Inv(s) && Enabled(s, Enter)
    ensures Inv(Apply(s, Enter))
  {
    var t := Apply(s, Enter);
    forall i | 0 <= i < |t.calls| ensures CallOk(t, t.calls[i]) {
      if i < |s.calls| { assert CallOk(s, s.calls[i]); }
    }
    forall p | p in t.live
      ensures (t.source.EightBit? && t.cell == Some(p) && !t.destroyed)
              || exists k :: 0 <= k < |t.calls| && Owns(t.calls[k]) && t.calls[k].buffer == p
    {
      if !(t.source.EightBit? && t.cell == Some(p) && !t.destroyed) {
        var k :| 0 <= k < |s.calls| && Owns(s.calls[k]) && s.calls[k].buffer == p;
        assert t.calls[k] == s.calls[k];
      }
    }
  }

  lemma ReadKeeps(s: State, a: Action, i: nat)
    requires Inv(s) && Enabled(s, a) && (a == Load(i) || a == ReturnNull(i))
    ensures Inv(Apply(s, a))
  {
    var t := Apply(s, a);
    assert CallOk(s, s.calls[i]);
    OthersKept(s, t, i);
    LeaksKept(s, t, i);
    MoveKeeps(s, t, i);
  }

  lemma MallocKeeps(s: State, i: nat, p: Pointer)
    requires Inv(s) && Enabled(s, Malloc(i, p))
    ensures Inv(Apply(s, Malloc(i, p)))
  {
    var t := Apply(s, Malloc(i, p));
    assert CallOk(s, s.calls[i]);
    SizeAdded(s.live, p, Uninitialized);
    OthersKept(s, t, i);
    LeaksKept(s, t, i);
    forall k | 0 <= k < |s.calls| && Owns(s.calls[k]) ensures s.calls[k].buffer != p {
      assert CallOk(s, s.calls[k]);
    }
    MoveKeeps(s, t, i);
  }

  lemma CopyKeeps(s: State, i: nat)
    requires Inv(s) && Enabled(s, Copy(i))
    ensures Inv(Apply(s, Copy(i)))
  {
    var t := Apply(s, Copy(i));
    assert CallOk(s, s.calls[i]);
    SizeAdded(s.live, s.calls[i].buffer, Characters(s.source.text));
    OthersKept(s, t, i);
    LeaksKept(s, t, i);
    MoveKeeps(s, t, i);
  }

  lemma ExchangeKeeps(s: State, i: nat)
    requires Inv(s) && Enabled(s, CompareExchange(i))
    ensures Inv(Apply(s, CompareExchange(i)))
  {
    var t := Apply(s, CompareExchange(i));
    assert CallOk(s, s.calls[i]);
    OthersKept(s, t, i);
    LeaksKept(s, t, i);
    MoveKeeps(s, t, i);
  }

  lemma FreeKeeps(s: State, i: nat)
    requires Inv(s) && Enabled(s, Free(i))
    ensures Inv(Apply(s, Free(i))) && FreesLive(s, Free(i))
  {
    var t := Apply(s, Free(i));
    assert CallOk(s, s.calls[i]);
    SizeRemoved(s.live, s.calls[i].buffer);
    OthersKept(s, t, i);
    LeaksKept(s, t, i);
    MoveKeeps(s, t, i);
  }

  lemma NoOwner(s: State, p: Pointer)
    requires AllReturned(s)
    ensures !exists i :: 0 <= i < |s.calls| && Owns(s.calls[i]) && s.calls[i].buffer == p
  {
  }

  lemma DestroyKeeps(s: State)
    requires Inv(s) && Enabled(s, Destroy)
    ensures Inv(Apply(s, Destroy)) && FreesLive(s, Destroy)
  {
    var t := Apply(s, Destroy);
    forall p | p in s.live ensures s.source.EightBit? && s.cell == Some(p) {
      if !(s.source.EightBit? && s.cell == Some(p)) {
        NoOwner(s, p);
      }
    }
    if s.source.EightBit? && s.cell.Some? {
      SizeRemoved(s.live, s.cell.value);
    }
    assert t.live == map[];
    forall i | 0 <= i < |t.calls| ensures CallOk(t, t.calls[i]) {
      assert CallOk(s, s.calls[i]);
    }
  }

  lemma StepKeepsInv(s: State, a: Action)
    requires Inv(s) && Enabled(s, a)
    ensures Inv(Apply(s, a)) && FreesLive(s, a)
  {
    match a
    case Enter => EnterKeeps(s);
    case Load(i) => ReadKeeps(s, a, i);
    case ReturnNull(i) => ReadKeeps(s, a, i);
    case Malloc(i, p) => MallocKeeps(s, i, p);
    case Copy(i) => CopyKeeps(s, i);
    case CompareExchange(i) => ExchangeKeeps(s, i);
    case Free(i) => FreeKeeps(s, i);
    case Destroy => DestroyKeeps(s);
  }

  // --- over all interleavings

  predicate IsRun(s: State, actions: seq<Action>)
    decreases |actions|
  {
    actions == [] || (Enabled(s, actions[0]) && IsRun(Apply(s, actions[0]), actions[1..]))
  }

  function After(s: State, actions: seq<Action>): State
    requires IsRun(s, actions)
    decreases |actions|
  {
    if actions == [] then s else After(Apply(s, actions[0]), actions[1..])
  }

  /** No step of the run frees a buffer that is not live. */
  predicate FreesOnlyLive(s: State, actions: seq<Action>)
    requires IsRun(s, actions)
    decreases |actions|
  {
    actions == [] || (FreesLive(s, actions[0]) && FreesOnlyLive(Apply(s, actions[0]), actions[1..]))
  }

  lemma {:induction false} RunKeepsInv(s: State, actions: seq<Action>)
    requires Inv(s) && IsRun(s, actions)
    ensures Inv(After(s, actions)) && FreesOnlyLive(s, actions) && After(s, actions).source == s.source
    decreases |actions|
  {
    if actions != [] {
      StepKeepsInv(s, actions[0]);
      RunKeepsInv(Apply(s, actions[0]), actions[1..]);
    }
  }

  /** Whatever the interleaving, all calls that have returned got the same pointer: null for a null
      string, the string's own characters for a 16-bit one, and for an 8-bit one the published buffer,
      live and holding every character until the destructor. No buffer is freed twice. */
  lemma CallersAgree(source: Source, actions: seq<Action>, i: nat, j: nat)
    requires IsRun(Created(source), actions)
    requires var s := After(Created(source), actions);
             i < |s.calls| && j < |s.calls| && s.calls[i].Returned? && s.calls[j].Returned?
    ensures FreesOnlyLive(Created(source), actions)
    ensures var s := After(Created(source), actions);
            var result := s.calls[i].result;
            && result == s.calls[j].result
            && match source
               case NullString => result == None
               case SixteenBit(_, own) => result == Some(own)
               case EightBit(text) =>
                 result.Some? && (!s.destroyed ==> result.value in s.live && s.live[result.value] == Characters(text))
  {
    CreatedInv(source);
    RunKeepsInv(Created(source), actions);
    var s := After(Created(source), actions);
    assert CallOk(s, s.calls[i]) && CallOk(s, s.calls[j]);
  }

  /** Once every call has returned, all allocations but the published one have been freed, each once;
      after the destructor that one has been freed too. Only 8-bit strings allocate at all. */
  lemma NothingLeaks(source: Source, actions: seq<Action>)
    requires IsRun(Created(source), actions) && AllReturned(After(Created(source), actions))
    ensures var s := After(Created(source), actions);
            && (s.destroyed ==> s.live == map[] && s.mallocs == s.frees)
            && (!s.destroyed && source.EightBit? && |s.calls| > 0
                ==> s.cell.Some? && s.live.Keys == {s.cell.value} && s.mallocs == s.frees + 1)
            && (!source.EightBit? ==> s.live == map[] && s.mallocs == s.frees)
  {
    CreatedInv(source);
    RunKeepsInv(Created(source), actions);
    var s := After(Created(source), actions);
    forall p | p in s.live ensures source.EightBit? && s.cell == Some(p) && !s.destroyed {
      NoOwner(s, p);
    }
    if !source.EightBit? || s.destroyed {
      assert s.live == map[];
    } else if |s.calls| > 0 {
      assert CallOk(s, s.calls[0]);
      assert s.live.Keys == {s.cell.value};
      assert |s.live| == |s.live.Keys|;
    }
  }

  /** A 16-bit or null string never allocates, whoever calls. */
  lemma {:induction false} OnlyEightBitAllocates(s: State, actions: seq<Action>)
    requires Inv(s) && !s.source.EightBit? && IsRun(s, actions)
    ensures After(s, actions).mallocs == s.mallocs
    decreases |actions|
  {
    if actions != [] {
      StepKeepsInv(s, actions[0]);
      OnlyEightBitAllocates(Apply(s, actions[0]), actions[1..]);
    }
  }

  // --- no call waits for another

  /** Steps a call still has to take, at most. */
  function Remaining(c: Call): nat {
    match c
    case Entered => 5
    case SawNull => 4
    case Allocated(_) => 3
    case Filled(_) => 2
    case Lost(_, _) => 1
    case Returned(_) => 0
  }

  /** The next step of call i, given memory the allocator can spare. */
  function NextAction(s: State, i: nat, spare: Pointer): Action
    requires i < |s.calls| && !s.calls[i].Returned?
  {
    match s.calls[i]
    case Entered => Load(i)
    case SawNull => if s.source.NullString? then ReturnNull(i) else Malloc(i, spare)
    case Allocated(_) => Copy(i)
    case Filled(_) => CompareExchange(i)
    case Lost(_, _) => Free(i)
  }

  /** In every reachable state every call can take its next step, which brings it nearer its end and
      leaves the other calls where they are: it returns after at most five steps of its own. */
  lemma CallProgresses(source: Source, actions: seq<Action>, i: nat, spare: Pointer)
    requires IsRun(Created(source), actions)
    requires var s := After(Created(source), actions);
             i < |s.calls| && !s.calls[i].Returned? && !s.destroyed && spare !in s.live
    ensures var s := After(Created(source), actions);
            var a := NextAction(s, i, spare);
            && Enabled(s, a) && Remaining(Apply(s, a).calls[i]) < Remaining(s.calls[i])
            && forall k :: 0 <= k < |s.calls| && k != i ==> Apply(s, a).calls[k] == s.calls[k]
  {
    CreatedInv(source);
    RunKeepsInv(Created(source), actions);
    var s := After(Created(source), actions);
    assert CallOk(s, s.calls[i]);
  }

  // --- every call can be brought to its end

  /** Steps all calls together still have to take, at most. */
  function Total(calls: seq<Call>): nat {
    if calls == [] then 0 else Remaining(calls[0]) + Total(calls[1..])
  }

  lemma {:induction false} TotalUpdated(calls: seq<Call>, i: nat, c: Call)
    requires i < |calls|
    ensures Total(calls[i := c]) == Total(calls) - Remaining(calls[i]) + Remaining(c)
  {
    if i == 0 {
      assert calls[i := c][1..] == calls[1..];
    } else {
      assert calls[i := c][1..] == calls[1..][i - 1 := c];
      TotalUpdated(calls[1..], i - 1, c);
    }
  }

  /** Memory never runs out in the model: some pointer is not in use. */
  lemma {:induction false} SparePointer(used: set<Pointer>) returns (p: Pointer)
    ensures p !in used && forall q :: q in used ==> q < p
    decreases |used|
  {
    if used == {} {
      p := 0;
    } else {
      var q :| q in used;
      var r := SparePointer(used - {q});
      p := if q < r then r else q + 1;
      forall x | x in used ensures x < p {
        assert x == q || x in used - {q};
      }
    }
  }

  lemma Progress(s: State, i: nat, spare: Pointer)
    requires Inv(s) && !s.destroyed && i < |s.calls| && !s.calls[i].Returned? && spare !in s.live
    ensures var a := NextAction(s, i, spare);
            && Enabled(s, a) && !Apply(s, a).destroyed && Apply(s, a).source == s.source
            && Apply(s, a).calls == s.calls[i := Apply(s, a).calls[i]]
            && Remaining(Apply(s, a).calls[i]) < Remaining(s.calls[i])
  {
    assert CallOk(s, s.calls[i]);
  }

  /** From every state of a run the calls under way can all return, in at most Total steps, and then the
      destructor leaves nothing behind. */
  lemma {:induction false} CanFinish(s: State) returns (rest: seq<Action>)
    requires Inv(s) && !s.destroyed
    ensures IsRun(s, rest) && |rest| <= Total(s.calls) + 1
    ensures var t := After(s, rest);
            |t.calls| == |s.calls| && AllReturned(t) && t.destroyed && t.live == map[] && t.mallocs == t.frees
    decreases Total(s.calls)
  {
    if AllReturned(s) {
      StepKeepsInv(s, Destroy);
      rest := [Destroy];
      assert rest[1..] == [] && After(s, rest) == Apply(s, Destroy);
    } else {
      var i :| 0 <= i < |s.calls| && !s.calls[i].Returned?;
      var spare := SparePointer(s.live.Keys);
      var a := NextAction(s, i, spare);
      Progress(s, i, spare);
      TotalUpdated(s.calls, i, Apply(s, a).calls[i]);
      StepKeepsInv(s, a);
      var later := CanFinish(Apply(s, a));
      rest := [a] + later;
      assert rest[1..] == later;
    }
  }

  /** Any number of threads may call at once; all of them return and nothing is left. */
  lemma {:induction false} CallersFinish(s: State, n: nat) returns (actions: seq<Action>)
    requires Inv(s) && !s.destroyed
    ensures IsRun(s, actions)
    ensures var t := After(s, actions);
            |t.calls| == |s.calls| + n && AllReturned(t) && t.destroyed && t.live == map[] && t.mallocs == t.frees
    decreases n
  {
    if n == 0 {
      actions := CanFinish(s);
    } else {
      StepKeepsInv(s, Enter);
      var later := CallersFinish(Apply(s, Enter), n - 1);
      actions := [Enter] + later;
      assert actions[1..] == later;
    }
  }

  /** Any number of threads may call characters() on a new string, and all of them get to their end. */
  lemma AnyoneMayCall(source: Source, n: nat) returns (actions: seq<Action>)
    ensures IsRun(Created(source), actions)
    ensures var t := After(Created(source), actions);
            |t.calls| == n && AllReturned(t) && t.destroyed && t.live == map[] && t.mallocs == t.frees
  {
    CreatedInv(source);
    actions := CallersFinish(Created(source), n);
  }
}
