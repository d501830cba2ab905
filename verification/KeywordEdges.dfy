/** When every edge of the finished trie has a comparison macro, told of the keywords alone. */
module KeywordEdges {
  import opened KeywordTries

  // --- what is said of the keywords

  /** The trie has a node at u: a keyword ends there, or two go on differently. */
  ghost predicate Stops(keys: iset<Text>, u: Text) {
    u in keys || exists v, w :: Parts(keys, u, v, w)
  }

  predicate Parts(keys: iset<Text>, u: Text, v: Text, w: Text) {
    v in keys && w in keys && u < v && u < w && v[|u|] != w[|u|]
  }

  /** Of every eight places in a row inside a keyword one is such a node. */
  ghost predicate StopsInEight(keys: iset<Text>) {
    forall w, i: nat :: w in keys && i + 8 < |w| ==> StopsAfter(keys, w, i)
  }

  ghost predicate StopsAfter(keys: iset<Text>, w: Text, i: nat)
    requires i + 8 < |w|
  {
    exists j :: i < j <= i + 8 && Stops(keys, w[..j])
  }

  ghost function KeysOf(t: Trie): iset<Text> { iset s: Text | Find(t, s).Some? }

  // --- keys through an edge

  lemma {:induction false} ChildAt(cs: seq<Trie>, i: nat)
    requires AreSiblings(cs) && i < |cs|
    ensures cs[i].prefix != [] && IsTrie(cs[i])
    decreases i
  {
    if i > 0 {
      ChildAt(cs[1..], i - 1);
    }
  }

  lemma {:induction false} LiveAt(cs: seq<Trie>, i: nat)
    requires AreLive(cs) && i < |cs|
    ensures IsLive(cs[i])
    decreases i
  {
    if i > 0 {
      LiveAt(cs[1..], i - 1);
    }
  }

  lemma {:induction false} CompressedAt(cs: seq<Trie>, i: nat)
    requires AreCompressed(cs) && i < |cs|
    ensures IsCompressed(cs[i])
    decreases i
  {
    if i > 0 {
      CompressedAt(cs[1..], i - 1);
    }
  }

  lemma ThroughEdge(t: Trie, i: nat, s: Text)
    requires IsTrie(t) && i < |t.children|
    ensures t.children[i].prefix + s in KeysOf(t) <==> s in KeysOf(t.children[i])
  {
    var p := t.children[i].prefix;
    ChildAt(t.children, i);
    FindAt(t.children, i, p + s);
    assert (p + s)[|p|..] == s;
  }

  /** A key that starts like an edge goes through it. */
  lemma StartsLikeEdge(t: Trie, i: nat, s: Text)
    requires IsTrie(t) && i < |t.children| && s in KeysOf(t) && s != []
    requires t.children[i].prefix != [] && s[0] == t.children[i].prefix[0]
    ensures t.children[i].prefix <= s
  {
    FindAt(t.children, i, s);
  }

  lemma {:induction false} WhichEdge(cs: seq<Trie>, s: Text) returns (i: nat)
    requires FindIn(cs, s).Some?
    ensures i < |cs| && cs[i].prefix <= s
    decreases cs
  {
    i := 0;
    if !(cs[0].prefix <= s) {
      i := WhichEdge(cs[1..], s);
      i := i + 1;
    }
  }

  lemma {:induction false} SomeKey(t: Trie) returns (s: Text)
    requires IsTrie(t) && IsLive(t)
    ensures s in KeysOf(t)
    decreases t
  {
    if t.value.Some? {
      s := [];
    } else {
      ChildAt(t.children, 0);
      LiveAt(t.children, 0);
      var rest := SomeKey(t.children[0]);
      s := t.children[0].prefix + rest;
      ThroughEdge(t, 0, rest);
    }
  }

  lemma Longer(p: Text, x: Text, v: Text)
    ensures p + x < p + v <==> x < v
    ensures x < v ==> (p + v)[|p + x|] == v[|x|]
  {
    if p + x < p + v {
      assert (p + v)[|p|..] == v && (p + x)[|p|..] == x;
    }
  }

  lemma PartsBelow(t: Trie, i: nat, x: Text, v: Text, w: Text)
    requires IsTrie(t) && i < |t.children|
    ensures var p := t.children[i].prefix;
            Parts(KeysOf(t), p + x, p + v, p + w) <==> Parts(KeysOf(t.children[i]), x, v, w)
  {
    var p := t.children[i].prefix;
    ThroughEdge(t, i, v);
    ThroughEdge(t, i, w);
    Longer(p, x, v);
    Longer(p, x, w);
  }

  /** The nodes below an edge are those of the node it leads to. */
  lemma StopsBelow(t: Trie, i: nat, x: Text)
    requires IsTrie(t) && i < |t.children|
    ensures Stops(KeysOf(t), t.children[i].prefix + x) <==> Stops(KeysOf(t.children[i]), x)
  {
    var c := t.children[i];
    ThroughEdge(t, i, x);
    if v, w :| Parts(KeysOf(c), x, v, w) {
      PartsBelow(t, i, x, v, w);
    }
    if v, w :| Parts(KeysOf(t), c.prefix + x, v, w) {
      PartsBelow(t, i, x, v[|c.prefix|..], w[|c.prefix|..]);
      Behind(c.prefix, x, v);
      Behind(c.prefix, x, w);
    }
  }

  lemma Behind(p: Text, x: Text, v: Text)
    requires p + x < v
    ensures v == p + v[|p|..]
  {
    assert v[..|p|] == (p + x)[..|p|];
  }

  // --- an edge that fits ends within eight characters, at a node

  /** The node at the end of an edge shows in the keywords. */
  lemma EdgeStops(t: Trie, i: nat)
    requires IsTrie(t) && i < |t.children| && IsLive(t.children[i]) && IsCompressed(t.children[i])
    ensures Stops(KeysOf(t), t.children[i].prefix)
  {
    var c := t.children[i];
    ChildAt(t.children, i);
    if c.value.Some? {
      assert [] in KeysOf(c);
    } else {
      var v := KeyAt(c, 0);
      var w := KeyAt(c, 1);
      ChildAt(c.children, 1);
      assert c.children[1] in c.children[1..];
      assert Parts(KeysOf(c), [], v, w);
    }
    StopsBelow(t, i, []);
    assert c.prefix + [] == c.prefix;
  }

  lemma KeyAt(t: Trie, i: nat) returns (s: Text)
    requires IsTrie(t) && i < |t.children| && AreLive(t.children)
    ensures s in KeysOf(t) && t.children[i].prefix != [] && s != [] && s[0] == t.children[i].prefix[0]
  {
    ChildAt(t.children, i);
    LiveAt(t.children, i);
    var rest := SomeKey(t.children[i]);
    s := t.children[i].prefix + rest;
    ThroughEdge(t, i, rest);
  }

  lemma {:induction false} FitAt(cs: seq<Trie>, i: nat)
    requires EdgesFit(cs) && i < |cs|
    ensures 1 <= |cs[i].prefix| <= 8 && EdgesFit(cs[i].children)
    decreases i
  {
    if i > 0 {
      FitAt(cs[1..], i - 1);
    }
  }

  lemma {:induction false} FitsStops(t: Trie, w: Text, i: nat)
    requires IsTrie(t) && AreLive(t.children) && AreCompressed(t.children) && EdgesFit(t.children)
    requires w in KeysOf(t) && i + 8 < |w|
    ensures StopsAfter(KeysOf(t), w, i)
    decreases t
  {
    var k := WhichEdge(t.children, w);
    var c := t.children[k];
    var n, rest := |c.prefix|, w[|c.prefix|..];
    ChildAt(t.children, k);
    LiveAt(t.children, k);
    CompressedAt(t.children, k);
    FitAt(t.children, k);
    assert w == c.prefix + rest;
    if i < n {
      EdgeStops(t, k);
      assert w[..n] == c.prefix;
    } else {
      ThroughEdge(t, k, rest);
      FitsStops(c, rest, i - n);
      var j :| i - n < j <= i - n + 8 && Stops(KeysOf(c), rest[..j]);
      StopsBelow(t, k, rest[..j]);
      assert w[..n + j] == c.prefix + rest[..j];
    }
  }

  // --- an edge that does not fit has no node inside

  lemma NoStopInside(t: Trie, i: nat, u: Text)
    requires IsTrie(t) && i < |t.children| && u != [] && u < t.children[i].prefix
    ensures !Stops(KeysOf(t), u)
  {
    var p := t.children[i].prefix;
    ChildAt(t.children, i);
    if u in KeysOf(t) {
      StartsLikeEdge(t, i, u);
    }
    if v, w :| Parts(KeysOf(t), u, v, w) {
      StartsLikeEdge(t, i, v);
      StartsLikeEdge(t, i, w);
    }
  }

  lemma LongEdge(t: Trie, i: nat)
    requires IsTrie(t) && i < |t.children| && IsLive(t.children[i]) && StopsInEight(KeysOf(t))
    ensures |t.children[i].prefix| <= 8
  {
    var p := t.children[i].prefix;
    if |p| > 8 {
      ChildAt(t.children, i);
      var rest := SomeKey(t.children[i]);
      ThroughEdge(t, i, rest);
      assert StopsAfter(KeysOf(t), p + rest, 0);
      var j :| 0 < j <= 8 && Stops(KeysOf(t), (p + rest)[..j]);
      assert (p + rest)[..j] == p[..j];
      NoStopInside(t, i, p[..j]);
    }
  }

  lemma StopsInEightBelow(t: Trie, i: nat)
    requires IsTrie(t) && i < |t.children| && StopsInEight(KeysOf(t))
    ensures StopsInEight(KeysOf(t.children[i]))
  {
    var c := t.children[i];
    forall w, k: nat | w in KeysOf(c) && k + 8 < |w| ensures StopsAfter(KeysOf(c), w, k) {
      ThroughEdge(t, i, w);
      assert StopsAfter(KeysOf(t), c.prefix + w, |c.prefix| + k);
      var j :| |c.prefix| + k < j <= |c.prefix| + k + 8 && Stops(KeysOf(t), (c.prefix + w)[..j]);
      var x := w[..j - |c.prefix|];
      assert (c.prefix + w)[..j] == c.prefix + x;
      StopsBelow(t, i, x);
    }
  }

  lemma {:induction false} StopsFit(t: Trie)
    requires IsTrie(t) && AreLive(t.children) && StopsInEight(KeysOf(t))
    ensures EdgesFit(t.children)
    decreases t
  {
    forall i | 0 <= i < |t.children|
      ensures 1 <= |t.children[i].prefix| <= 8 && EdgesFit(t.children[i].children)
    {
      ChildAt(t.children, i);
      LiveAt(t.children, i);
      LongEdge(t, i);
      StopsInEightBelow(t, i);
      StopsFit(t.children[i]);
    }
    AllFit(t.children);
  }

  lemma {:induction false} AllFit(cs: seq<Trie>)
    requires forall i :: 0 <= i < |cs| ==> 1 <= |cs[i].prefix| <= 8 && EdgesFit(cs[i].children)
    ensures EdgesFit(cs)
    decreases cs
  {
    if cs != [] {
      AllFit(cs[1..]);
    }
  }

  /** Every edge has a macro exactly when, of every eight places in a row inside a keyword, one is the
      end of a keyword or a place where keywords part. */
  lemma FitsExactly(t: Trie)
    requires IsTrie(t) && AreLive(t.children) && AreCompressed(t.children)
    ensures EdgesFit(t.children) <==> StopsInEight(KeysOf(t))
  {
    if StopsInEight(KeysOf(t)) {
      StopsFit(t);
    }
    if EdgesFit(t.children) {
      forall w, i: nat | w in KeysOf(t) && i + 8 < |w| ensures StopsAfter(KeysOf(t), w, i) {
        FitsStops(t, w, i);
      }
    }
  }

  // --- of a keyword list

  predicate IsListed(keywords: seq<(Text, Token)>, s: Text) {
    exists k :: 0 <= k < |keywords| && keywords[k].0 == s
  }

  ghost function Keys(keywords: seq<(Text, Token)>): iset<Text> { iset s: Text | IsListed(keywords, s) }

  lemma {:induction false} LastOfKeys(keywords: seq<(Text, Token)>, s: Text)
    ensures LastToken(keywords, s).Some? <==> s in Keys(keywords)
    decreases |keywords|
  {
    if keywords != [] {
      var n := |keywords| - 1;
      LastOfKeys(keywords[..n], s);
      if s in Keys(keywords) && s != keywords[n].0 {
        var k :| 0 <= k < |keywords| && keywords[k].0 == s;
        assert keywords[..n][k].0 == s;
      }
    }
  }

  lemma SameKeys(t: Trie, keywords: seq<(Text, Token)>)
    requires forall s :: Find(t, s) == LastToken(keywords, s)
    ensures KeysOf(t) == Keys(keywords)
  {
    forall s: Text ensures s in KeysOf(t) <==> s in Keys(keywords) {
      LastOfKeys(keywords, s);
    }
  }
}
