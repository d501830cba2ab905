/** The trie of KeywordLookupGenerator.py: insertion, path compression and sibling order, and the map
    from keywords to tokens that all of them keep. */
module KeywordTries {
  import opened BaseTypes

  type Char = nat
  type Text = seq<Char>
  type Token = string

  /** A node: the characters of the edge into it, the token if a keyword ends here, the nodes below. */
  datatype Trie = Trie(prefix: Text, value: Option<Token>, children: seq<Trie>)

  // --- the map a trie stands for

  /** The token of s, starting below t. */
  function Find(t: Trie, s: Text): Option<Token>
    decreases t
  {
    if s == [] then t.value else FindIn(t.children, s)
  }

  function FindIn(cs: seq<Trie>, s: Text): Option<Token>
    decreases cs
  {
    if cs == [] then None
    else if cs[0].prefix <= s then Find(cs[0], s[|cs[0].prefix|..])
    else FindIn(cs[1..], s)
  }

  /** Edges are not empty, and siblings start with distinct characters. */
  predicate IsTrie(t: Trie)
    decreases t
  {
    AreSiblings(t.children)
  }

  predicate AreSiblings(cs: seq<Trie>)
    decreases cs
  {
    cs == [] || (cs[0].prefix != [] && IsTrie(cs[0]) && StartsElsewhere(cs[0].prefix[0], cs[1..])
        && AreSiblings(cs[1..]))
  }

  /** None of these edges is empty or starts with c. */
  predicate StartsElsewhere(c: Char, cs: seq<Trie>) {
    forall t :: t in cs ==> t.prefix != [] && t.prefix[0] != c
  }

  /** Through an edge: the token of s, if it starts with the edge. */
  function FindEdge(t: Trie, s: Text): Option<Token> {
    if t.prefix <= s then Find(t, s[|t.prefix|..]) else None
  }

  lemma {:induction false} NotAmong(cs: seq<Trie>, s: Text)
    requires s != [] && StartsElsewhere(s[0], cs)
    ensures FindIn(cs, s) == None
  {
    if cs != [] {
      assert cs[0] in cs;
      forall t | t in cs[1..] ensures t.prefix != [] && t.prefix[0] != s[0] {
        assert t in cs;
      }
      NotAmong(cs[1..], s);
    }
  }

  lemma FindFirst(cs: seq<Trie>, s: Text)
    requires cs != [] && AreSiblings(cs) && s != []
    ensures FindIn(cs, s) == if s[0] == cs[0].prefix[0] then FindEdge(cs[0], s) else FindIn(cs[1..], s)
  {
    if s[0] == cs[0].prefix[0] {
      NotAmong(cs[1..], s);
    }
  }

  // --- insert

  function Leaf(c: Char): Trie { Trie([c], None, []) }

  function Inserted(t: Trie, key: Text, value: Token): Trie
    decreases |key|, 1, 0
  {
    if key == [] then t.(value := Some(value)) else t.(children := InsertedIn(t.children, key, value))
  }

  function InsertedIn(cs: seq<Trie>, key: Text, value: Token): seq<Trie>
    requires key != []
    decreases |key|, 0, |cs|
  {
    if cs == [] then [Inserted(Leaf(key[0]), key[1..], value)]
    else if cs[0].prefix == [key[0]] then [Inserted(cs[0], key[1..], value)] + cs[1..]
    else [cs[0]] + InsertedIn(cs[1..], key, value)
  }

  /** Every edge is one character, as insertion leaves them. */
  predicate IsPlain(t: Trie)
    decreases t
  {
    ArePlain(t.children)
  }

  predicate ArePlain(cs: seq<Trie>)
    decreases cs
  {
    cs == [] || (|cs[0].prefix| == 1 && IsPlain(cs[0]) && StartsElsewhere(cs[0].prefix[0], cs[1..])
        && ArePlain(cs[1..]))
  }

  lemma {:induction false} PlainIsTrie(t: Trie)
    requires IsPlain(t)
    ensures IsTrie(t)
    decreases t
  {
    PlainAreSiblings(t.children);
  }

  lemma {:induction false} PlainAreSiblings(cs: seq<Trie>)
    requires ArePlain(cs)
    ensures AreSiblings(cs)
    decreases cs
  {
    if cs != [] {
      PlainIsTrie(cs[0]);
      PlainAreSiblings(cs[1..]);
    }
  }

  /** Insertion keeps edges to one character, and siblings apart. */
  lemma {:induction false} InsertKeepsPlain(t: Trie, key: Text, value: Token)
    requires IsPlain(t)
    ensures IsPlain(Inserted(t, key, value)) && Inserted(t, key, value).prefix == t.prefix
    decreases |key|, 1, 0
  {
    if key != [] {
      InsertInKeepsPlain(t.children, key, value);
    }
  }

  lemma {:induction false} InsertInKeepsPlain(cs: seq<Trie>, key: Text, value: Token)
    requires ArePlain(cs) && key != []
    ensures ArePlain(InsertedIn(cs, key, value))
    ensures forall c :: StartsElsewhere(c, cs) && c != key[0] ==> StartsElsewhere(c, InsertedIn(cs, key, value))
    decreases |key|, 0, |cs|
  {
    if cs == [] {
      InsertKeepsPlain(Leaf(key[0]), key[1..], value);
    } else if cs[0].prefix == [key[0]] {
      InsertKeepsPlain(cs[0], key[1..], value);
      var result := InsertedIn(cs, key, value);
      assert result[1..] == cs[1..];
      forall c | StartsElsewhere(c, cs) && c != key[0] ensures StartsElsewhere(c, result) {
        forall t | t in result ensures t.prefix != [] && t.prefix[0] != c {
          assert t == result[0] || t in cs;
        }
      }
    } else {
      InsertInKeepsPlain(cs[1..], key, value);
      var result := InsertedIn(cs, key, value);
      assert result[1..] == InsertedIn(cs[1..], key, value) && result[0] == cs[0];
      assert cs[0].prefix[0] != key[0];
      forall c | StartsElsewhere(c, cs) && c != key[0] ensures StartsElsewhere(c, result) {
        assert StartsElsewhere(c, cs[1..]);
        assert cs[0] in cs;
        forall t | t in result ensures t.prefix != [] && t.prefix[0] != c {
          assert t == result[0] || t in result[1..];
        }
      }
    }
  }

  /** The first characters of siblings, in their order. */
  function Firsts(cs: seq<Trie>): Text {
    if cs == [] then [] else (if cs[0].prefix == [] then [] else [cs[0].prefix[0]]) + Firsts(cs[1..])
  }

  /** A new sibling comes last, as in a dictionary; no other changes its place. */
  lemma {:induction false} InsertKeepsOrder(cs: seq<Trie>, key: Text, value: Token)
    requires ArePlain(cs) && key != []
    ensures Firsts(InsertedIn(cs, key, value))
            == if key[0] in Firsts(cs) then Firsts(cs) else Firsts(cs) + [key[0]]
    decreases |cs|
  {
    var result := InsertedIn(cs, key, value);
    if cs == [] {
      InsertKeepsPlain(Leaf(key[0]), key[1..], value);
      assert result[1..] == [];
    } else if cs[0].prefix == [key[0]] {
      InsertKeepsPlain(cs[0], key[1..], value);
      assert result[1..] == cs[1..];
    } else {
      InsertKeepsOrder(cs[1..], key, value);
      assert result[1..] == InsertedIn(cs[1..], key, value);
      assert cs[0].prefix == [cs[0].prefix[0]];
    }
  }

  /** Insertion is update of a finite map. */
  lemma {:induction false} InsertUpdates(t: Trie, key: Text, value: Token, s: Text)
    requires IsPlain(t)
    ensures Find(Inserted(t, key, value), s) == if s == key then Some(value) else Find(t, s)
    decreases |key|, 1, 0
  {
    if key != [] && s != [] {
      InsertInUpdates(t.children, key, value, s);
    }
  }

  lemma {:induction false} InsertInUpdates(cs: seq<Trie>, key: Text, value: Token, s: Text)
    requires ArePlain(cs) && key != [] && s != []
    ensures FindIn(InsertedIn(cs, key, value), s) == if s == key then Some(value) else FindIn(cs, s)
    decreases |key|, 0, |cs|
  {
    PlainAreSiblings(cs);
    InsertInKeepsPlain(cs, key, value);
    var result := InsertedIn(cs, key, value);
    PlainAreSiblings(result);
    FindFirst(result, s);
    if cs != [] {
      FindFirst(cs, s);
    }
    var child := if cs == [] then Leaf(key[0]) else cs[0];
    if child.prefix == [key[0]] {
      InsertKeepsPlain(child, key[1..], value);
      InsertUpdates(child, key[1..], value, s[1..]);
      assert s == [s[0]] + s[1..] && key == [key[0]] + key[1..];
      if s[0] == key[0] {
        assert [key[0]] <= s;
      } else if cs != [] {
        assert result[1..] == cs[1..];
      }
    } else {
      assert result[1..] == InsertedIn(cs[1..], key, value);
      InsertInUpdates(cs[1..], key, value, s);
    }
  }

  // --- coalesce

  /** Path compression of a node below the root: a node without a token and with one child joins it. */
  function Coalesced(t: Trie): Trie
    decreases t
  {
    var cs := CoalescedAll(t.children);
    if t.value.Some? || |cs| != 1 then Trie(t.prefix, t.value, cs)
    else Trie(t.prefix + cs[0].prefix, cs[0].value, cs[0].children)
  }

  function CoalescedAll(cs: seq<Trie>): (r: seq<Trie>)
    ensures |r| == |cs|
    decreases cs
  {
    if cs == [] then [] else [Coalesced(cs[0])] + CoalescedAll(cs[1..])
  }

  /** What becomes of the root, whose own result the caller ignores: only its children are compressed. */
  function RootCoalesced(t: Trie): Trie { t.(children := CoalescedAll(t.children)) }

  lemma {:induction false} CoalesceKeepsTrie(t: Trie)
    requires IsTrie(t) && t.prefix != []
    ensures IsTrie(Coalesced(t)) && Coalesced(t).prefix != [] && Coalesced(t).prefix[0] == t.prefix[0]
    decreases t
  {
    CoalesceKeepsSiblings(t.children);
    var cs := CoalescedAll(t.children);
    if |cs| == 1 {
      assert IsTrie(cs[0]);
    }
  }

  lemma {:induction false} CoalesceKeepsSiblings(cs: seq<Trie>)
    requires AreSiblings(cs)
    ensures AreSiblings(CoalescedAll(cs))
    ensures forall c :: StartsElsewhere(c, cs) ==> StartsElsewhere(c, CoalescedAll(cs))
    decreases cs
  {
    if cs != [] {
      CoalesceKeepsTrie(cs[0]);
      CoalesceKeepsSiblings(cs[1..]);
      var result := CoalescedAll(cs);
      assert result[1..] == CoalescedAll(cs[1..]);
      forall c | StartsElsewhere(c, cs) ensures StartsElsewhere(c, result) {
        assert cs[0] in cs;
        assert forall t :: t in cs[1..] ==> t in cs;
        assert StartsElsewhere(c, cs[1..]);
        forall t | t in result ensures t.prefix != [] && t.prefix[0] != c {
          assert t == result[0] || t in result[1..];
        }
      }
    }
  }

  /** Compression leaves siblings where they are. */
  lemma {:induction false} CoalesceKeepsOrder(cs: seq<Trie>)
    requires AreSiblings(cs)
    ensures Firsts(CoalescedAll(cs)) == Firsts(cs)
    decreases cs
  {
    if cs != [] {
      CoalesceKeepsTrie(cs[0]);
      CoalesceKeepsOrder(cs[1..]);
      assert CoalescedAll(cs)[1..] == CoalescedAll(cs[1..]);
    }
  }

  lemma EdgeSplit(p: Text, q: Text, s: Text)
    ensures p + q <= s <==> p <= s && q <= s[|p|..]
    ensures p + q <= s ==> s[|p + q|..] == s[|p|..][|q|..]
  {
    if p <= s && q <= s[|p|..] {
      assert s[..|p + q|] == s[..|p|] + s[|p|..][..|q|];
    }
    if p + q <= s {
      assert s[..|p|] == (p + q)[..|p|] && s[|p|..][..|q|] == (p + q)[|p|..];
    }
  }

  /** Compression below an edge does not change what is found through it. */
  lemma {:induction false} CoalesceKeepsFind(t: Trie, s: Text)
    requires IsTrie(t) && t.prefix != []
    ensures FindEdge(Coalesced(t), s) == FindEdge(t, s)
    decreases t, 1
  {
    CoalesceKeepsTrie(t);
    var cs := CoalescedAll(t.children);
    if t.prefix <= s {
      CoalesceKeepsFindIn(t.children, s[|t.prefix|..]);
    }
    if t.value.None? && |cs| == 1 {
      CoalesceKeepsSiblings(t.children);
      EdgeSplit(t.prefix, cs[0].prefix, s);
    }
  }

  lemma {:induction false} CoalesceKeepsFindIn(cs: seq<Trie>, s: Text)
    requires AreSiblings(cs)
    ensures s != [] ==> FindIn(CoalescedAll(cs), s) == FindIn(cs, s)
    decreases cs, 0
  {
    if cs != [] && s != [] {
      var result := CoalescedAll(cs);
      assert result[1..] == CoalescedAll(cs[1..]);
      CoalesceKeepsSiblings(cs);
      CoalesceKeepsTrie(cs[0]);
      FindFirst(cs, s);
      FindFirst(result, s);
      CoalesceKeepsFind(cs[0], s);
      CoalesceKeepsFindIn(cs[1..], s);
    }
  }

  lemma RootCoalesceKeepsFind(t: Trie, s: Text)
    requires IsTrie(t)
    ensures IsTrie(RootCoalesced(t)) && Find(RootCoalesced(t), s) == Find(t, s)
  {
    CoalesceKeepsSiblings(t.children);
    CoalesceKeepsFindIn(t.children, s);
  }

  /** Nodes without a token have no or several children. */
  predicate IsCompressed(t: Trie)
    decreases t
  {
    (t.value.None? ==> |t.children| != 1) && AreCompressed(t.children)
  }

  predicate AreCompressed(cs: seq<Trie>)
    decreases cs
  {
    cs == [] || (IsCompressed(cs[0]) && AreCompressed(cs[1..]))
  }

  lemma {:induction false} CoalesceCompresses(t: Trie)
    ensures IsCompressed(Coalesced(t))
    decreases t
  {
    CoalesceCompressesAll(t.children);
  }

  /** Below the root nothing more can be compressed. */
  lemma {:induction false} CoalesceCompressesAll(cs: seq<Trie>)
    ensures AreCompressed(CoalescedAll(cs))
    decreases cs
  {
    if cs != [] {
      CoalesceCompresses(cs[0]);
      CoalesceCompressesAll(cs[1..]);
      assert CoalescedAll(cs)[1..] == CoalescedAll(cs[1..]);
    }
  }

  // --- fillOut

  /** The same trie but for the order of siblings, at every level. */
  ghost predicate IsReordering(t: Trie, u: Trie)
    decreases t
  {
    u.prefix == t.prefix && u.value == t.value && AreReordered(t.children, u.children)
  }

  ghost predicate AreReordered(cs: seq<Trie>, ds: seq<Trie>)
    decreases cs
  {
    |ds| == |cs|
    && (cs == [] || exists i :: 0 <= i < |ds| && IsReordering(cs[0], ds[i]) && AreReordered(cs[1..], Without(ds, i)))
  }

  function Without(ds: seq<Trie>, i: nat): seq<Trie>
    requires i < |ds|
  {
    ds[..i] + ds[i + 1..]
  }

  lemma {:induction false} ReorderKeepsTrie(t: Trie, u: Trie)
    requires IsTrie(t) && IsReordering(t, u)
    ensures IsTrie(u)
    decreases t
  {
    ReorderKeepsSiblings(t.children, u.children);
  }

  lemma {:induction false} ReorderKeepsSiblings(cs: seq<Trie>, ds: seq<Trie>)
    requires AreSiblings(cs) && AreReordered(cs, ds)
    ensures AreSiblings(ds) && forall c :: StartsElsewhere(c, cs) ==> StartsElsewhere(c, ds)
    decreases cs
  {
    if cs != [] {
      var i :| 0 <= i < |ds| && IsReordering(cs[0], ds[i]) && AreReordered(cs[1..], Without(ds, i));
      ReorderKeepsTrie(cs[0], ds[i]);
      ReorderKeepsSiblings(cs[1..], Without(ds, i));
      PutBack(ds, i);
      forall c | StartsElsewhere(c, cs) ensures StartsElsewhere(c, ds) {
        assert cs[0] in cs;
        assert forall t :: t in cs[1..] ==> t in cs;
        assert StartsElsewhere(c, Without(ds, i));
        forall t | t in ds ensures t.prefix != [] && t.prefix[0] != c {
          InWithout(ds, i, t);
        }
      }
    }
  }

  lemma InWithout(ds: seq<Trie>, i: nat, t: Trie)
    requires i < |ds| && t in ds
    ensures t == ds[i] || t in Without(ds, i)
  {
    var k :| 0 <= k < |ds| && ds[k] == t;
    if k < i {
      assert Without(ds, i)[k] == t;
    } else if k > i {
      assert Without(ds, i)[k - 1] == t;
    }
  }

  /** Siblings stay siblings when one more, starting elsewhere, is put among them. */
  lemma {:induction false} PutBack(ds: seq<Trie>, i: nat)
    requires i < |ds| && AreSiblings(Without(ds, i))
    requires ds[i].prefix != [] && IsTrie(ds[i]) && StartsElsewhere(ds[i].prefix[0], Without(ds, i))
    ensures AreSiblings(ds)
    decreases i
  {
    var rest := Without(ds, i);
    if i == 0 {
      assert rest == ds[1..];
    } else {
      assert rest[0] == ds[0] && rest[1..] == Without(ds[1..], i - 1);
      assert forall t :: t in rest[1..] ==> t in rest;
      PutBack(ds[1..], i - 1);
      assert ds[0] in rest;
      forall t | t in ds[1..] ensures t.prefix != [] && t.prefix[0] != ds[0].prefix[0] {
        InWithout(ds[1..], i - 1, t);
      }
    }
  }

  /** What is found among siblings does not depend on where one of them stands. */
  lemma {:induction false} FindAt(ds: seq<Trie>, i: nat, s: Text)
    requires i < |ds| && AreSiblings(ds) && s != []
    ensures FindIn(ds, s) == if s[0] == ds[i].prefix[0] then FindEdge(ds[i], s) else FindIn(Without(ds, i), s)
    decreases i
  {
    FindFirst(ds, s);
    var rest := Without(ds, i);
    if i == 0 {
      assert rest == ds[1..];
    } else {
      assert rest[0] == ds[0] && rest[1..] == Without(ds[1..], i - 1);
      assert ds[i] == ds[1..][i - 1];
      FindAt(ds[1..], i - 1, s);
      assert ds[i] in ds[1..];
      if s[0] == ds[0].prefix[0] {
        RestElsewhere(ds, i);
        NotAmong(rest[1..], s);
      }
    }
  }

  lemma RestElsewhere(ds: seq<Trie>, i: nat)
    requires 0 < i < |ds| && AreSiblings(ds)
    ensures StartsElsewhere(ds[0].prefix[0], Without(ds[1..], i - 1))
  {
    forall t | t in Without(ds[1..], i - 1) ensures t in ds[1..] {}
  }

  /** Any order of siblings keeps the map. */
  lemma {:induction false} ReorderKeepsFind(t: Trie, u: Trie, s: Text)
    requires IsTrie(t) && IsReordering(t, u)
    ensures Find(u, s) == Find(t, s)
    decreases t
  {
    if s != [] {
      ReorderKeepsFindIn(t.children, u.children, s);
    }
  }

  lemma {:induction false} ReorderKeepsFindIn(cs: seq<Trie>, ds: seq<Trie>, s: Text)
    requires AreSiblings(cs) && AreReordered(cs, ds) && s != []
    ensures FindIn(ds, s) == FindIn(cs, s)
    decreases cs
  {
    if cs != [] {
      ReorderKeepsSiblings(cs, ds);
      var i :| 0 <= i < |ds| && IsReordering(cs[0], ds[i]) && AreReordered(cs[1..], Without(ds, i));
      FindAt(ds, i, s);
      FindFirst(cs, s);
      ReorderKeepsFind(cs[0], ds[i], s[if |cs[0].prefix| <= |s| then |cs[0].prefix| else 0..]);
      ReorderKeepsFindIn(cs[1..], Without(ds, i), s);
    }
  }

  lemma {:induction false} ReorderKeepsCompressed(t: Trie, u: Trie)
    requires IsReordering(t, u) && IsCompressed(t)
    ensures IsCompressed(u)
    decreases t
  {
    ReorderKeepsAllCompressed(t.children, u.children);
  }

  lemma {:induction false} ReorderKeepsAllCompressed(cs: seq<Trie>, ds: seq<Trie>)
    requires AreReordered(cs, ds) && AreCompressed(cs)
    ensures AreCompressed(ds)
    decreases cs
  {
    if cs != [] {
      var i :| 0 <= i < |ds| && IsReordering(cs[0], ds[i]) && AreReordered(cs[1..], Without(ds, i));
      ReorderKeepsCompressed(cs[0], ds[i]);
      ReorderKeepsAllCompressed(cs[1..], Without(ds, i));
      PutBackCompressed(ds, i);
    }
  }

  lemma {:induction false} PutBackCompressed(ds: seq<Trie>, i: nat)
    requires i < |ds| && AreCompressed(Without(ds, i)) && IsCompressed(ds[i])
    ensures AreCompressed(ds)
    decreases i
  {
    var rest := Without(ds, i);
    if i == 0 {
      assert rest == ds[1..];
    } else {
      assert rest[0] == ds[0] && rest[1..] == Without(ds[1..], i - 1);
      PutBackCompressed(ds[1..], i - 1);
    }
  }

  // --- the order fillOut chooses: heavier siblings first; weights in hundredths

  type Weights = map<Text, nat>

  /** The weight of everything from t down; full is the text up to and including its edge. */
  function Weight(t: Trie, full: Text, weights: Weights): nat
    decreases t
  {
    (if full in weights then weights[full] else 0) + WeightOfAll(t.children, full, weights)
  }

  function WeightOfAll(cs: seq<Trie>, full: Text, weights: Weights): nat
    decreases cs
  {
    if cs == [] then 0 else Weight(cs[0], full + cs[0].prefix, weights) + WeightOfAll(cs[1..], full, weights)
  }

  function FilledOut(t: Trie, full: Text, weights: Weights): Trie
    decreases t
  {
    t.(children := FilledOutAll(t.children, full, weights))
  }

  /** A stable sort, heaviest first. */
  function FilledOutAll(cs: seq<Trie>, full: Text, weights: Weights): seq<Trie>
    decreases cs
  {
    if cs == [] then []
    else Placed(FilledOut(cs[0], full + cs[0].prefix, weights), FilledOutAll(cs[1..], full, weights), full, weights)
  }

  function Placed(c: Trie, ds: seq<Trie>, full: Text, weights: Weights): seq<Trie> {
    if ds == [] || Weight(ds[0], full + ds[0].prefix, weights) <= Weight(c, full + c.prefix, weights) then [c] + ds
    else [ds[0]] + Placed(c, ds[1..], full, weights)
  }

  lemma {:induction false} PlacedAt(c: Trie, ds: seq<Trie>, full: Text, weights: Weights) returns (i: nat)
    ensures i < |Placed(c, ds, full, weights)| && Placed(c, ds, full, weights)[i] == c
    ensures Without(Placed(c, ds, full, weights), i) == ds
  {
    var result := Placed(c, ds, full, weights);
    if ds == [] || Weight(ds[0], full + ds[0].prefix, weights) <= Weight(c, full + c.prefix, weights) {
      i := 0;
    } else {
      var k := PlacedAt(c, ds[1..], full, weights);
      i := k + 1;
      WithoutLater(ds[0], Placed(c, ds[1..], full, weights), k);
    }
  }

  lemma WithoutLater(d: Trie, tail: seq<Trie>, k: nat)
    requires k < |tail|
    ensures Without([d] + tail, k + 1) == [d] + Without(tail, k) && ([d] + tail)[k + 1] == tail[k]
  {
  }

  /** One of the placed siblings is the new one or an old one. */
  lemma {:induction false} PlacedFrom(c: Trie, ds: seq<Trie>, full: Text, weights: Weights, t: Trie)
    requires t in Placed(c, ds, full, weights)
    ensures t == c || t in ds
  {
    var i := PlacedAt(c, ds, full, weights);
    InWithout(Placed(c, ds, full, weights), i, t);
  }

  /** Sorted, one sibling at a time. */
  predicate Descending(ds: seq<Trie>, full: Text, weights: Weights) {
    ds == [] || ((forall t :: t in ds[1..] ==>
                    Weight(ds[0], full + ds[0].prefix, weights) >= Weight(t, full + t.prefix, weights))
                 && Descending(ds[1..], full, weights))
  }

  lemma {:induction false} PlacedDescending(c: Trie, ds: seq<Trie>, full: Text, weights: Weights)
    requires Descending(ds, full, weights)
    ensures Descending(Placed(c, ds, full, weights), full, weights)
  {
    var result := Placed(c, ds, full, weights);
    if ds == [] || Weight(ds[0], full + ds[0].prefix, weights) <= Weight(c, full + c.prefix, weights) {
      assert result[1..] == ds;
    } else {
      PlacedDescending(c, ds[1..], full, weights);
      assert result[1..] == Placed(c, ds[1..], full, weights);
      forall t | t in result[1..]
        ensures Weight(ds[0], full + ds[0].prefix, weights) >= Weight(t, full + t.prefix, weights)
      {
        PlacedFrom(c, ds[1..], full, weights, t);
      }
    }
  }

  /** Sorted, at every node. */
  predicate AllDescending(t: Trie, full: Text, weights: Weights)
    decreases t, 1
  {
    Descending(t.children, full, weights) && EachDescending(t.children, full, weights)
  }

  predicate EachDescending(cs: seq<Trie>, full: Text, weights: Weights)
    decreases cs, 0
  {
    cs == [] || (AllDescending(cs[0], full + cs[0].prefix, weights) && EachDescending(cs[1..], full, weights))
  }

  lemma {:induction false} PlacedEachDescending(c: Trie, ds: seq<Trie>, full: Text, weights: Weights)
    requires EachDescending(ds, full, weights) && AllDescending(c, full + c.prefix, weights)
    ensures EachDescending(Placed(c, ds, full, weights), full, weights)
    decreases ds
  {
    var result := Placed(c, ds, full, weights);
    if ds == [] || Weight(ds[0], full + ds[0].prefix, weights) <= Weight(c, full + c.prefix, weights) {
      assert result[1..] == ds;
    } else {
      PlacedEachDescending(c, ds[1..], full, weights);
      assert result[1..] == Placed(c, ds[1..], full, weights);
    }
  }

  /** The order of the weights, at every node, and at every node nothing but an order. */
  lemma {:induction false} FillOutReorders(t: Trie, full: Text, weights: Weights)
    ensures IsReordering(t, FilledOut(t, full, weights))
    ensures AllDescending(FilledOut(t, full, weights), full, weights)
    decreases t
  {
    FillOutReordersAll(t.children, full, weights);
  }

  lemma {:induction false} FillOutReordersAll(cs: seq<Trie>, full: Text, weights: Weights)
    ensures AreReordered(cs, FilledOutAll(cs, full, weights))
    ensures Descending(FilledOutAll(cs, full, weights), full, weights)
    ensures EachDescending(FilledOutAll(cs, full, weights), full, weights)
    decreases cs
  {
    if cs != [] {
      FillOutReorders(cs[0], full + cs[0].prefix, weights);
      FillOutReordersAll(cs[1..], full, weights);
      var c, rest := FilledOut(cs[0], full + cs[0].prefix, weights), FilledOutAll(cs[1..], full, weights);
      var ds := FilledOutAll(cs, full, weights);
      PlacedDescending(c, rest, full, weights);
      PlacedEachDescending(c, rest, full, weights);
      var i := PlacedAt(c, rest, full, weights);
      assert IsReordering(cs[0], ds[i]) && AreReordered(cs[1..], Without(ds, i));
      assert |ds| == |Without(ds, i)| + 1;
    }
  }

  // --- the sort is stable

  /** The edges to siblings of this weight, in their order. */
  function OfWeight(cs: seq<Trie>, n: nat, full: Text, weights: Weights): seq<Text> {
    if cs == [] then []
    else (if Weight(cs[0], full + cs[0].prefix, weights) == n then [cs[0].prefix] else [])
         + OfWeight(cs[1..], n, full, weights)
  }

  /** At every node, siblings of the same weight stand in the same order. */
  ghost predicate IsStable(t: Trie, u: Trie, full: Text, weights: Weights)
    decreases t
  {
    && u.prefix == t.prefix
    && (forall n: nat :: OfWeight(u.children, n, full, weights) == OfWeight(t.children, n, full, weights))
    && AreStable(t.children, u.children, full, weights)
  }

  ghost predicate AreStable(cs: seq<Trie>, ds: seq<Trie>, full: Text, weights: Weights)
    decreases cs
  {
    |ds| == |cs|
    && (cs == [] || exists i :: 0 <= i < |ds| && IsStable(cs[0], ds[i], full + cs[0].prefix, weights)
                                && AreStable(cs[1..], Without(ds, i), full, weights))
  }

  lemma {:induction false} PlacedWeight(c: Trie, ds: seq<Trie>, full: Text, weights: Weights)
    ensures WeightOfAll(Placed(c, ds, full, weights), full, weights)
            == Weight(c, full + c.prefix, weights) + WeightOfAll(ds, full, weights)
    decreases ds
  {
    var result := Placed(c, ds, full, weights);
    if ds == [] || Weight(ds[0], full + ds[0].prefix, weights) <= Weight(c, full + c.prefix, weights) {
      assert result[1..] == ds;
    } else {
      PlacedWeight(c, ds[1..], full, weights);
      assert result[1..] == Placed(c, ds[1..], full, weights);
    }
  }

  lemma {:induction false} FillOutKeepsWeight(t: Trie, full: Text, weights: Weights)
    ensures Weight(FilledOut(t, full, weights), full, weights) == Weight(t, full, weights)
    decreases t
  {
    FillOutKeepsWeights(t.children, full, weights);
  }

  lemma {:induction false} FillOutKeepsWeights(cs: seq<Trie>, full: Text, weights: Weights)
    ensures WeightOfAll(FilledOutAll(cs, full, weights), full, weights) == WeightOfAll(cs, full, weights)
    decreases cs
  {
    if cs != [] {
      FillOutKeepsWeight(cs[0], full + cs[0].prefix, weights);
      FillOutKeepsWeights(cs[1..], full, weights);
      PlacedWeight(FilledOut(cs[0], full + cs[0].prefix, weights), FilledOutAll(cs[1..], full, weights), full, weights);
    }
  }

  /** A sibling is placed before those of its weight. */
  lemma {:induction false} PlacedOfWeight(c: Trie, ds: seq<Trie>, n: nat, full: Text, weights: Weights)
    ensures OfWeight(Placed(c, ds, full, weights), n, full, weights)
            == (if Weight(c, full + c.prefix, weights) == n then [c.prefix] else []) + OfWeight(ds, n, full, weights)
    decreases ds
  {
    var result := Placed(c, ds, full, weights);
    if ds == [] || Weight(ds[0], full + ds[0].prefix, weights) <= Weight(c, full + c.prefix, weights) {
      assert result[1..] == ds;
    } else {
      PlacedOfWeight(c, ds[1..], n, full, weights);
      assert result[1..] == Placed(c, ds[1..], full, weights);
    }
  }

  lemma {:induction false} FillOutStable(t: Trie, full: Text, weights: Weights)
    ensures IsStable(t, FilledOut(t, full, weights), full, weights)
    decreases t
  {
    FillOutStableAll(t.children, full, weights);
  }

  lemma {:induction false} FillOutStableAll(cs: seq<Trie>, full: Text, weights: Weights)
    ensures AreStable(cs, FilledOutAll(cs, full, weights), full, weights)
    ensures forall n: nat ::
              OfWeight(FilledOutAll(cs, full, weights), n, full, weights) == OfWeight(cs, n, full, weights)
    decreases cs
  {
    if cs != [] {
      FillOutStable(cs[0], full + cs[0].prefix, weights);
      FillOutStableAll(cs[1..], full, weights);
      FillOutKeepsWeight(cs[0], full + cs[0].prefix, weights);
      var c, rest := FilledOut(cs[0], full + cs[0].prefix, weights), FilledOutAll(cs[1..], full, weights);
      var ds := FilledOutAll(cs, full, weights);
      var i := PlacedAt(c, rest, full, weights);
      assert IsStable(cs[0], ds[i], full + cs[0].prefix, weights) && AreStable(cs[1..], Without(ds, i), full, weights);
      assert |ds| == |Without(ds, i)| + 1;
      forall n: nat ensures OfWeight(ds, n, full, weights) == OfWeight(cs, n, full, weights) {
        PlacedOfWeight(c, rest, n, full, weights);
      }
    }
  }

  // --- what the weight of a node is

  /** A node of the trie is at this path. */
  predicate HasNode(t: Trie, s: Text)
    decreases t
  {
    s == [] || HasNodeIn(t.children, s)
  }

  predicate HasNodeIn(cs: seq<Trie>, s: Text)
    decreases cs
  {
    cs != [] && ((cs[0].prefix <= s && HasNode(cs[0], s[|cs[0].prefix|..])) || HasNodeIn(cs[1..], s))
  }

  /** A node at or below t, whose own text is full, has the text key. */
  predicate Names(t: Trie, full: Text, key: Text) { full <= key && HasNode(t, key[|full|..]) }

  predicate NamesIn(cs: seq<Trie>, full: Text, key: Text) { full <= key && HasNodeIn(cs, key[|full|..]) }

  lemma {:induction false} NoNodeAmong(cs: seq<Trie>, s: Text)
    requires s != [] && StartsElsewhere(s[0], cs)
    ensures !HasNodeIn(cs, s)
    decreases cs
  {
    if cs != [] {
      assert cs[0] in cs;
      assert forall t :: t in cs[1..] ==> t in cs;
      NoNodeAmong(cs[1..], s);
    }
  }

  /** The first sibling names the key, or one of the others, but never both, and none of them the text above. */
  lemma NamedOnce(cs: seq<Trie>, full: Text, key: Text)
    requires cs != [] && AreSiblings(cs)
    ensures NamesIn(cs, full, key) <==> Names(cs[0], full + cs[0].prefix, key) || NamesIn(cs[1..], full, key)
    ensures !(Names(cs[0], full + cs[0].prefix, key) && NamesIn(cs[1..], full, key))
  {
    EdgeSplit(full, cs[0].prefix, key);
    if Names(cs[0], full + cs[0].prefix, key) {
      var s := key[|full|..];
      assert cs[0].prefix <= s && s[0] == cs[0].prefix[0];
      NoNodeAmong(cs[1..], s);
    }
  }

  lemma {:induction false} NoNodeIsEmpty(cs: seq<Trie>)
    requires AreSiblings(cs)
    ensures !HasNodeIn(cs, [])
    decreases cs
  {
    if cs != [] {
      NoNodeIsEmpty(cs[1..]);
    }
  }

  lemma {:induction false} WeightlessIsZero(t: Trie, full: Text)
    ensures Weight(t, full, map[]) == 0
    decreases t
  {
    WeightlessAreZero(t.children, full);
  }

  lemma {:induction false} WeightlessAreZero(cs: seq<Trie>, full: Text)
    ensures WeightOfAll(cs, full, map[]) == 0
    decreases cs
  {
    if cs != [] {
      WeightlessIsZero(cs[0], full + cs[0].prefix);
      WeightlessAreZero(cs[1..], full);
    }
  }

  /** The weight of a node is the sum of the weights of the texts of all nodes from it down: it is nothing
      without weights, and each weight in the table adds its own if and only if there is such a node. */
  lemma {:induction false} WeightIsSum(t: Trie, full: Text, weights: Weights, key: Text, n: nat)
    requires IsTrie(t) && key !in weights
    ensures Weight(t, full, map[]) == 0
    ensures Weight(t, full, weights[key := n]) == Weight(t, full, weights) + if Names(t, full, key) then n else 0
    decreases t
  {
    WeightlessIsZero(t, full);
    WeightsAreSum(t.children, full, weights, key, n);
    if full == key {
      assert key[|full|..] == [];
      NoNodeIsEmpty(t.children);
    } else if full <= key {
      assert key[|full|..] != [];
    }
  }

  lemma {:induction false} WeightsAreSum(cs: seq<Trie>, full: Text, weights: Weights, key: Text, n: nat)
    requires AreSiblings(cs) && key !in weights
    ensures WeightOfAll(cs, full, weights[key := n])
            == WeightOfAll(cs, full, weights) + if NamesIn(cs, full, key) then n else 0
    decreases cs
  {
    if cs != [] {
      WeightIsSum(cs[0], full + cs[0].prefix, weights, key, n);
      WeightsAreSum(cs[1..], full, weights, key, n);
      NamedOnce(cs, full, key);
    }
  }

  // --- the characters of the keywords, through the building of the trie

  predicate AllIn(s: Text, letters: set<Char>) { forall i :: 0 <= i < |s| ==> s[i] in letters }

  predicate Uses(cs: seq<Trie>, letters: set<Char>)
    decreases cs
  {
    cs == [] || (AllIn(cs[0].prefix, letters) && Uses(cs[0].children, letters) && Uses(cs[1..], letters))
  }

  lemma {:induction false} FoundInLetters(t: Trie, s: Text, letters: set<Char>)
    requires Uses(t.children, letters) && Find(t, s).Some?
    ensures AllIn(s, letters)
    decreases t
  {
    if s != [] {
      FoundAmongInLetters(t.children, s, letters);
    }
  }

  lemma {:induction false} FoundAmongInLetters(cs: seq<Trie>, s: Text, letters: set<Char>)
    requires Uses(cs, letters) && FindIn(cs, s).Some?
    ensures AllIn(s, letters)
    decreases cs
  {
    if cs[0].prefix <= s {
      FoundInLetters(cs[0], s[|cs[0].prefix|..], letters);
      assert s == cs[0].prefix + s[|cs[0].prefix|..];
    } else {
      FoundAmongInLetters(cs[1..], s, letters);
    }
  }

  lemma {:induction false} InsertUses(cs: seq<Trie>, key: Text, value: Token, letters: set<Char>)
    requires Uses(cs, letters) && AllIn(key, letters) && key != []
    ensures Uses(InsertedIn(cs, key, value), letters)
    decreases |key|, |cs|
  {
    var result := InsertedIn(cs, key, value);
    if cs == [] {
      if |key| > 1 {
        InsertUses([], key[1..], value, letters);
      }
      assert result[1..] == [];
    } else if cs[0].prefix == [key[0]] {
      if |key| > 1 {
        InsertUses(cs[0].children, key[1..], value, letters);
      }
      assert result[1..] == cs[1..];
    } else {
      InsertUses(cs[1..], key, value, letters);
      assert result[1..] == InsertedIn(cs[1..], key, value);
    }
  }

  lemma {:induction false} CoalesceUses(cs: seq<Trie>, letters: set<Char>)
    requires Uses(cs, letters)
    ensures Uses(CoalescedAll(cs), letters)
    decreases cs
  {
    if cs != [] {
      CoalesceUses(cs[0].children, letters);
      CoalesceUses(cs[1..], letters);
      assert CoalescedAll(cs)[1..] == CoalescedAll(cs[1..]);
    }
  }

  lemma {:induction false} FillOutUses(cs: seq<Trie>, full: Text, weights: Weights, letters: set<Char>)
    requires Uses(cs, letters)
    ensures Uses(FilledOutAll(cs, full, weights), letters)
    decreases cs
  {
    if cs != [] {
      FillOutUses(cs[0].children, full + cs[0].prefix, weights, letters);
      FillOutUses(cs[1..], full, weights, letters);
      PlacedUses(FilledOut(cs[0], full + cs[0].prefix, weights), FilledOutAll(cs[1..], full, weights), full, weights,
                 letters);
    }
  }

  lemma {:induction false} PlacedUses(c: Trie, ds: seq<Trie>, full: Text, weights: Weights, letters: set<Char>)
    requires Uses(ds, letters) && AllIn(c.prefix, letters) && Uses(c.children, letters)
    ensures Uses(Placed(c, ds, full, weights), letters)
    decreases ds
  {
    var result := Placed(c, ds, full, weights);
    if result == [c] + ds {
      assert result[1..] == ds;
    } else {
      PlacedUses(c, ds[1..], full, weights, letters);
      assert result[1..] == Placed(c, ds[1..], full, weights);
    }
  }

  /** Edges have at most eight characters, the most there is a macro for. */
  predicate EdgesFit(cs: seq<Trie>)
    decreases cs
  {
    cs == [] || (1 <= |cs[0].prefix| <= 8 && EdgesFit(cs[0].children) && EdgesFit(cs[1..]))
  }

  // --- no branch ends without a token

  predicate IsLive(t: Trie)
    decreases t, 1
  {
    (t.value.Some? || t.children != []) && AreLive(t.children)
  }

  predicate AreLive(cs: seq<Trie>)
    decreases cs, 0
  {
    cs == [] || (IsLive(cs[0]) && AreLive(cs[1..]))
  }

  lemma {:induction false} InsertLive(cs: seq<Trie>, key: Text, value: Token)
    requires AreLive(cs) && key != []
    ensures AreLive(InsertedIn(cs, key, value)) && InsertedIn(cs, key, value) != []
    decreases |key|, |cs|
  {
    var result := InsertedIn(cs, key, value);
    if cs == [] {
      if |key| > 1 {
        InsertLive([], key[1..], value);
      }
      assert result[1..] == [];
    } else if cs[0].prefix == [key[0]] {
      if |key| > 1 {
        InsertLive(cs[0].children, key[1..], value);
      }
      assert result[1..] == cs[1..];
    } else {
      InsertLive(cs[1..], key, value);
      assert result[1..] == InsertedIn(cs[1..], key, value);
    }
  }

  lemma {:induction false} CoalesceLive(cs: seq<Trie>)
    requires AreLive(cs)
    ensures AreLive(CoalescedAll(cs))
    decreases cs
  {
    if cs != [] {
      CoalesceLive(cs[0].children);
      CoalesceLive(cs[1..]);
      assert CoalescedAll(cs)[1..] == CoalescedAll(cs[1..]);
    }
  }

  lemma {:induction false} FillOutLive(cs: seq<Trie>, full: Text, weights: Weights)
    requires AreLive(cs)
    ensures AreLive(FilledOutAll(cs, full, weights)) && |FilledOutAll(cs, full, weights)| == |cs|
    decreases cs
  {
    if cs != [] {
      FillOutLive(cs[0].children, full + cs[0].prefix, weights);
      FillOutLive(cs[1..], full, weights);
      PlacedLive(FilledOut(cs[0], full + cs[0].prefix, weights), FilledOutAll(cs[1..], full, weights), full, weights);
    }
  }

  lemma {:induction false} PlacedLive(c: Trie, ds: seq<Trie>, full: Text, weights: Weights)
    requires AreLive(ds) && IsLive(c)
    ensures AreLive(Placed(c, ds, full, weights)) && |Placed(c, ds, full, weights)| == |ds| + 1
    decreases ds
  {
    var result := Placed(c, ds, full, weights);
    if result == [c] + ds {
      assert result[1..] == ds;
    } else {
      PlacedLive(c, ds[1..], full, weights);
      assert result[1..] == Placed(c, ds[1..], full, weights);
    }
  }

  // --- the whole table

  /** The token given last for s. */
  function LastToken(keywords: seq<(Text, Token)>, s: Text): Option<Token> {
    if keywords == [] then None
    else
      var (key, value) := keywords[|keywords| - 1];
      if s == key then Some(value) else LastToken(keywords[..|keywords| - 1], s)
  }

  /** Insert every keyword, compress, and order: the map is that of the keyword list. */
  method BuildTrie(keywords: seq<(Text, Token)>, weights: Weights, ghost letters: set<Char>) returns (root: Trie)
    requires forall k :: 0 <= k < |keywords| ==> AllIn(keywords[k].0, letters)
    ensures IsTrie(root) && root.prefix == [] && AreCompressed(root.children)
    ensures Uses(root.children, letters) && AreLive(root.children)
    ensures forall s :: Find(root, s) == LastToken(keywords, s)
    ensures AllDescending(root, [], weights)
  {
    root := Trie([], None, []);
    var k := 0;
    while k < |keywords|
      invariant 0 <= k <= |keywords| && IsPlain(root) && root.prefix == [] && Uses(root.children, letters)
      invariant AreLive(root.children)
      invariant forall s :: Find(root, s) == LastToken(keywords[..k], s)
    {
      InsertStep(root, keywords, k, letters);
      if keywords[k].0 != [] {
        InsertLive(root.children, keywords[k].0, keywords[k].1);
      }
      root := Inserted(root, keywords[k].0, keywords[k].1);
      k := k + 1;
    }
    assert keywords[..k] == keywords;
    PlainIsTrie(root);
    FinishKeepsMap(root, weights);
    CoalesceUses(root.children, letters);
    CoalesceLive(root.children);
    FillOutLive(RootCoalesced(root).children, [], weights);
    FillOutUses(RootCoalesced(root).children, [], weights, letters);
    root := FilledOut(RootCoalesced(root), [], weights);
  }

  lemma InsertedIsLast(t: Trie, keywords: seq<(Text, Token)>, k: nat)
    requires k < |keywords| && IsPlain(t) && forall s :: Find(t, s) == LastToken(keywords[..k], s)
    ensures var after := Inserted(t, keywords[k].0, keywords[k].1);
            IsPlain(after) && forall s :: Find(after, s) == LastToken(keywords[..k + 1], s)
  {
    var (key, value) := keywords[k];
    InsertKeepsPlain(t, key, value);
    forall s ensures Find(Inserted(t, key, value), s) == LastToken(keywords[..k + 1], s) {
      InsertUpdates(t, key, value, s);
      assert keywords[..k + 1][..k] == keywords[..k];
    }
  }

  lemma InsertStep(root: Trie, keywords: seq<(Text, Token)>, k: nat, letters: set<Char>)
    requires k < |keywords| && IsPlain(root) && Uses(root.children, letters) && AllIn(keywords[k].0, letters)
    requires forall s :: Find(root, s) == LastToken(keywords[..k], s)
    ensures var after := Inserted(root, keywords[k].0, keywords[k].1);
            && IsPlain(after) && after.prefix == root.prefix && Uses(after.children, letters)
            && forall s :: Find(after, s) == LastToken(keywords[..k + 1], s)
  {
    var (key, value) := keywords[k];
    InsertedIsLast(root, keywords, k);
    if key != [] {
      InsertUses(root.children, key, value, letters);
    }
  }

  lemma FinishKeepsMap(root: Trie, weights: Weights)
    requires IsTrie(root)
    ensures var done := FilledOut(RootCoalesced(root), [], weights);
            IsTrie(done) && AreCompressed(done.children) && AllDescending(done, [], weights)
                && forall s :: Find(done, s) == Find(root, s)
  {
    var compressed := RootCoalesced(root);
    FillOutReorders(compressed, [], weights);
    RootCoalesceKeepsFind(root, []);
    ReorderKeepsTrie(compressed, FilledOut(compressed, [], weights));
    CoalesceCompressesAll(root.children);
    ReorderKeepsAllCompressed(compressed.children, FilledOut(compressed, [], weights).children);
    forall s ensures Find(FilledOut(compressed, [], weights), s) == Find(root, s) {
      RootCoalesceKeepsFind(root, s);
      ReorderKeepsFind(compressed, FilledOut(compressed, [], weights), s);
    }
  }
}
