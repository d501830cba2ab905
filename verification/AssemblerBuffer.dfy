/** The growable byte buffer beneath the assemblers. */
module AssemblerBuffers {
  import opened BaseTypes

  type Byte = b: int | 0 <= b < 0x100

  const INITIAL_CAPACITY: nat := 128

  /** The bytes of a word in memory order. */
  function BytesOf(w: Word): (s: seq<Byte>)
    ensures |s| == 4
  {
    [w % 0x100, (w / 0x100) % 0x100, (w / 0x1_0000) % 0x100, w / 0x100_0000]
  }

  function WordFrom(b0: Byte, b1: Byte, b2: Byte, b3: Byte): Word {
    b0 + b1 * 0x100 + b2 * 0x1_0000 + b3 * 0x100_0000
  }

  lemma WordRoundTrip(w: Word)
    ensures var s := BytesOf(w); WordFrom(s[0], s[1], s[2], s[3]) == w
  {
    assert w / 0x1_0000 == (w / 0x100) / 0x100 && w / 0x100_0000 == (w / 0x1_0000) / 0x100;
  }

  function WordAt(bytes: seq<Byte>, p: nat): Word
    requires 4 * p + 4 <= |bytes|
  {
    WordFrom(bytes[4 * p], bytes[4 * p + 1], bytes[4 * p + 2], bytes[4 * p + 3])
  }

  /** The bytes as words; a trailing part of a word does not count. */
  function Words(bytes: seq<Byte>): (s: seq<Word>)
    ensures |s| == |bytes| / 4
    ensures forall p :: 0 <= p < |s| ==> s[p] == WordAt(bytes, p)
  {
    seq(|bytes| / 4, p requires 0 <= p < |bytes| / 4 => WordAt(bytes, p))
  }

  lemma WordsAppend(bytes: seq<Byte>, w: Word)
    requires |bytes| % 4 == 0
    ensures Words(bytes + BytesOf(w)) == Words(bytes) + [w]
  {
    var all := bytes + BytesOf(w);
    WordRoundTrip(w);
    forall p | 0 <= p < |Words(all)| ensures Words(all)[p] == (Words(bytes) + [w])[p] {
      if p < |bytes| / 4 { assert WordAt(all, p) == WordAt(bytes, p); }
      else { assert p == |bytes| / 4; }
    }
  }

  /** Words as they lie in memory. */
  function BytesOfAll(words: seq<Word>): (s: seq<Byte>)
    ensures |s| == 4 * |words|
  {
    if words == [] then [] else BytesOfAll(words[..|words| - 1]) + BytesOf(words[|words| - 1])
  }

  lemma {:induction false} WordsAppendAll(bytes: seq<Byte>, words: seq<Word>)
    requires |bytes| % 4 == 0
    ensures Words(bytes + BytesOfAll(words)) == Words(bytes) + words
  {
    if words == [] {
      assert bytes + BytesOfAll(words) == bytes;
    } else {
      var n := |words| - 1;
      WordsAppendAll(bytes, words[..n]);
      WordsAppend(bytes + BytesOfAll(words[..n]), words[n]);
      assert bytes + BytesOfAll(words) == bytes + BytesOfAll(words[..n]) + BytesOf(words[n]);
      assert words == words[..n] + [words[n]];
    }
  }

  lemma WordsUpdate(bytes: seq<Byte>, bytes': seq<Byte>, p: nat, w: Word)
    requires |bytes'| == |bytes| && 4 * p + 4 <= |bytes|
    requires bytes'[4 * p .. 4 * p + 4] == BytesOf(w)
    requires forall k :: 0 <= k < |bytes| && k / 4 != p ==> bytes'[k] == bytes[k]
    ensures Words(bytes') == Words(bytes)[p := w]
  {
    WordRoundTrip(w);
    forall i | 0 <= i < 4 ensures bytes'[4 * p + i] == BytesOf(w)[i] {
      assert bytes'[4 * p .. 4 * p + 4][i] == bytes'[4 * p + i];
    }
    forall q | 0 <= q < |bytes| / 4 && q != p ensures WordAt(bytes', q) == WordAt(bytes, q) {
      assert (4 * q) / 4 == q && (4 * q + 1) / 4 == q && (4 * q + 2) / 4 == q && (4 * q + 3) / 4 == q;
    }
  }

  /** fastMallocGoodSize: whatever the allocator likes, but no less than asked for. */
  method GoodSize(bytes: nat) returns (size: nat)
    ensures size >= bytes
  {
    size :| size >= bytes;
  }

  class AssemblerBuffer {
    var storage: array<Byte>
    var index: nat
    ghost var Repr: set<object>

    ghost predicate Valid()
      reads this, Repr
      ensures Valid() ==> this in Repr
    {
      && Repr == {this, storage}
      && INITIAL_CAPACITY <= storage.Length
      && index <= storage.Length
    }

    ghost function Contents(): (s: seq<Byte>)
      requires Valid()
      reads this, Repr
    {
      storage[..index]
    }

    constructor ()
      ensures Valid() && fresh(Repr) && Contents() == []
    {
      var capacity := GoodSize(INITIAL_CAPACITY);
      storage := new Byte[capacity](_ => 0);
      index := 0;
      new;
      Repr := {this, storage};
    }

    predicate IsAvailable(space: nat)
      reads this, Repr
      requires Valid()
    {
      index + space <= storage.Length
    }

    method Grow(extraCapacity: nat)
      requires Valid()
      modifies this
      ensures Valid() && fresh(Repr - old(Repr))
      ensures index == old(index) && Contents() == old(Contents())
      ensures storage.Length >= old(storage.Length) + old(storage.Length) / 2 + extraCapacity
    {
      var capacity := GoodSize(storage.Length + storage.Length / 2 + extraCapacity);
      var bigger := new Byte[capacity](_ => 0);
      for k := 0 to index
        modifies bigger
        invariant bigger[..k] == storage[..k]
      {
        bigger[k] := storage[k];
      }
      storage := bigger;
      Repr := {this, storage};
    }

    /** Room is made by growing once, by half; that is enough for any space up to half of what there was. */
    method EnsureSpace(space: nat)
      requires Valid()
      modifies this
      ensures Valid() && fresh(Repr - old(Repr)) && Contents() == old(Contents())
      ensures space <= INITIAL_CAPACITY / 2 ==> IsAvailable(space)
    {
      if !IsAvailable(space) {
        Grow(0);
      }
    }

    method PutByte(value: Byte)
      requires Valid()
      modifies Repr
      ensures Valid() && fresh(Repr - old(Repr))
      ensures Contents() == old(Contents()) + [value]
    {
      if index + 1 > storage.Length {
        Grow(0);
      }
      storage[index] := value;
      index := index + 1;
    }

    method PutInt(value: Word)
      requires Valid()
      modifies Repr
      ensures Valid() && fresh(Repr - old(Repr))
      ensures Contents() == old(Contents()) + BytesOf(value)
    {
      if index + 4 > storage.Length {
        Grow(0);
      }
      ghost var before := Contents();
      storage[index] := value % 0x100;
      storage[index + 1] := (value / 0x100) % 0x100;
      storage[index + 2] := (value / 0x1_0000) % 0x100;
      storage[index + 3] := value / 0x100_0000;
      index := index + 4;
      assert Contents() == before + BytesOf(value);
    }

    /** memcpy of size bytes at the end. */
    method Append(data: seq<Byte>)
      requires Valid()
      modifies Repr
      ensures Valid() && fresh(Repr - old(Repr))
      ensures Contents() == old(Contents()) + data
    {
      if !IsAvailable(|data|) {
        Grow(|data|);
      }
      ghost var before := Contents();
      for k := 0 to |data|
        modifies storage
        invariant storage[..index + k] == before + data[..k]
      {
        storage[index + k] := data[k];
      }
      index := index + |data|;
    }

    method ReadInt(p: nat) returns (w: Word)
      requires Valid() && 4 * p + 4 <= index
      ensures w == Words(Contents())[p]
    {
      w := WordFrom(storage[4 * p], storage[4 * p + 1], storage[4 * p + 2], storage[4 * p + 3]);
      assert w == WordAt(Contents(), p);
    }

    method WriteInt(p: nat, w: Word)
      requires Valid() && 4 * p + 4 <= index
      modifies storage
      ensures Valid() && Words(Contents()) == old(Words(Contents()))[p := w]
    {
      ghost var before := Contents();
      storage[4 * p] := w % 0x100;
      storage[4 * p + 1] := (w / 0x100) % 0x100;
      storage[4 * p + 2] := (w / 0x1_0000) % 0x100;
      storage[4 * p + 3] := w / 0x100_0000;
      WordsUpdate(before, Contents(), p, w);
    }
  }
}
