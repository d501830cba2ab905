/** The trie as the generator keeps it: nodes whose fields are reassigned. Each method is one function
    of KeywordTries on the value the nodes stand for. */
module KeywordTrieNodes {
  import opened KeywordTries
  import opened BaseTypes

  class Node {
    var prefix: Text
    var value: Option<Token>
    var keys: seq<Node>      // the values of the dictionary, in its order; the keys are their prefixes
    ghost var Repr: set<object>

    ghost predicate Valid()
      reads this, Repr
      decreases Repr
    {
      && this in Repr
      && (forall k :: 0 <= k < |keys| ==>
            keys[k] in Repr && keys[k].Repr <= Repr && this !in keys[k].Repr && keys[k].Valid())
      && (forall j, k :: 0 <= j < k < |keys| ==> keys[j].Repr !! keys[k].Repr)
    }

    /** The trie these nodes stand for. */
    ghost function Model(): (t: Trie)
      requires Valid()
      reads this, Repr
      ensures t.prefix == prefix && t.value == value && |t.children| == |keys|
      ensures forall k :: 0 <= k < |keys| ==> t.children[k] == keys[k].Model()
      decreases Repr
    {
      Trie(prefix, value, seq(|keys|, k requires 0 <= k < |keys| && Valid() reads this, Repr => keys[k].Model()))
    }

    constructor (p: Text)
      ensures Valid() && fresh(Repr) && Model() == Trie(p, None, [])
    {
      prefix := p;
      value := None;
      keys := [];
      Repr := {this};
    }

    /** The position of the key in the dictionary, or its size. */
    method FindKey(key: Text) returns (i: nat)
      requires Valid()
      ensures i <= |keys| && (i < |keys| ==> keys[i].prefix == key)
      ensures forall k :: 0 <= k < i ==> keys[k].prefix != key
    {
      i := 0;
      while i < |keys| && keys[i].prefix != key
        invariant i <= |keys| && forall k :: 0 <= k < i ==> keys[k].prefix != key
      {
        i := i + 1;
      }
    }

    /** A new dictionary entry. */
    method AddKey(p: Text)
      requires Valid()
      modifies this
      ensures Valid() && fresh(Repr - old(Repr)) && |keys| == old(|keys|) + 1
      ensures Model() == old(Model()).(children := old(Model()).children + [Trie(p, None, [])])
    {
      var n := new Node(p);
      keys := keys + [n];
      Repr := Repr + n.Repr;
    }

    /** Insert into the child in one entry; its siblings share nothing with it. */
    method InsertAt(i: nat, key: Text, v: Token)
      requires Valid() && i < |keys|
      modifies Repr
      ensures Valid() && fresh(Repr - old(Repr))
      ensures var cs := old(Model()).children;
              Model() == old(Model()).(children := cs[i := Inserted(cs[i], key, v)])
      decreases |key|, 2
    {
      ghost var before := Model();
      InsertInto(i, key, v);
      Readopt(i);
      assert Model().children == before.children[i := Inserted(before.children[i], key, v)];
    }

    /** Child i has grown; it is still apart from its siblings. */
    method Readopt(i: nat)
      requires i < |keys| && this in Repr
      requires forall k :: 0 <= k < |keys| ==>
        keys[k].Valid() && this !in keys[k].Repr && (k != i ==> keys[k] in Repr && keys[k].Repr <= Repr)
      requires forall j, k :: 0 <= j < k < |keys| ==> keys[j].Repr !! keys[k].Repr
      modifies this`Repr
      ensures Valid() && Repr == old(Repr) + keys[i].Repr
      ensures forall k :: 0 <= k < |keys| ==> keys[k].Model() == old(keys[k].Model())
    {
      Repr := Repr + keys[i].Repr;
    }

    /** The other children keep their nodes and what they stand for. */
    method InsertInto(i: nat, key: Text, v: Token)
      requires Valid() && i < |keys|
      modifies keys[i].Repr
      ensures keys[i].Valid() && fresh(keys[i].Repr - old(keys[i].Repr))
              && keys[i].Model() == Inserted(old(keys[i].Model()), key, v)
      ensures forall k :: 0 <= k < |keys| && k != i ==>
        keys[k].Valid() && keys[k].Repr == old(keys[k].Repr) && keys[k].Model() == old(keys[k].Model())
      ensures this !in keys[i].Repr && forall k :: 0 <= k < |keys| && k != i ==> keys[k].Repr !! keys[i].Repr
      decreases |key|, 1
    {
      keys[i].Insert(key, v);
    }

    method Insert(key: Text, v: Token)
      requires Valid()
      modifies Repr
      ensures Valid() && fresh(Repr - old(Repr)) && Model() == Inserted(old(Model()), key, v)
      decreases |key|, 0
    {
      if key == [] {
        value := Some(v);
        return;
      }
      var i := FindKey([key[0]]);
      InsertedAt(Model().children, key, v, i);
      if i == |keys| {
        AddKey([key[0]]);
      }
      InsertAt(i, key[1..], v);
    }

    /** The children from k on are valid, stand for these tries, and share nothing with each other. */
    ghost predicate Pending(k: nat, models: seq<Trie>)
      reads this, Repr
    {
      && |models| == |keys| && k <= |keys| && this in Repr
      && (forall j :: k <= j < |keys| ==>
        keys[j] in Repr && keys[j].Repr <= Repr && this !in keys[j].Repr && keys[j].Valid()
            && keys[j].Model() == models[j])
      && (forall i, j :: k <= i < j < |keys| ==> keys[i].Repr !! keys[j].Repr)
    }

    /** Compress one more child; the others, and the nodes already made, share nothing with it. */
    method CoalesceKey(k: nat, ghost models: seq<Trie>, ts: seq<Node>) returns (t: Node)
      requires Pending(k, models) && k < |keys| && AreApart(ts) && this !in Union(ts)
      requires forall j :: k <= j < |keys| ==> keys[j].Repr !! Union(ts)
      modifies keys[k].Repr
      ensures Pending(k + 1, models) && AreApart(ts + [t]) && this !in t.Repr
      ensures t.Valid() && fresh(t.Repr - old(keys[k].Repr)) && t.Model() == Coalesced(models[k])
      ensures forall j :: 0 <= j < |ts| ==> ts[j].Repr == old(ts[j].Repr) && ts[j].Model() == old(ts[j].Model())
      decreases Repr, 0
    {
      t := keys[k].Coalesce();
    }

    /** ts are the first k children compressed; the rest are still as the models say, and apart from them. */
    ghost predicate Progress(k: nat, models: seq<Trie>, ts: seq<Node>)
      reads this, Repr, ts, Union(ts)
    {
      && Pending(k, models) && AreApart(ts) && this !in Union(ts)
      && (forall j :: k <= j < |keys| ==> keys[j].Repr !! Union(ts))
      && Models(ts) == CoalescedAll(models[..k])
    }

    /** used are the objects of the nodes made so far. */
    method CoalesceNext(k: nat, ghost models: seq<Trie>, ts: seq<Node>, ghost used: set<object>)
      returns (rs: seq<Node>, ghost used': set<object>)
      requires Progress(k, models, ts) && k < |keys| && used == Union(ts)
      modifies keys[k].Repr
      ensures Progress(k + 1, models, rs) && |rs| == |ts| + 1
      ensures used' == Union(rs) && fresh(used' - used - old(keys[k].Repr))
      decreases Repr, 1
    {
      var t := CoalesceKey(k, models, ts);
      CoalescedMore(models, k);
      rs := ts + [t];
      used' := Union(rs);
      assert Models(rs) == Models(ts) + [t.Model()];
    }

    /** Compress every child, in order. */
    method CoalesceKeys() returns (ts: seq<Node>)
      requires Valid()
      modifies Repr - {this}
      ensures |ts| == |keys| && AreApart(ts) && this !in Union(ts) && fresh(Union(ts) - old(Repr))
      ensures Models(ts) == CoalescedAll(old(Model()).children)
      decreases Repr, 3
    {
      ghost var models := Model().children;
      ts := CoalesceFrom(models);
      assert models[..|keys|] == models;
    }

    /** The loop over the dictionary. */
    method CoalesceFrom(ghost models: seq<Trie>) returns (ts: seq<Node>)
      requires Progress(0, models, [])
      modifies Repr - {this}
      ensures |ts| == |keys| && Progress(|keys|, models, ts) && fresh(Union(ts) - old(Repr))
      decreases Repr, 2
    {
      ts := [];
      ghost var used := Union(ts);
      var k := 0;
      while k < |keys|
        invariant 0 <= k <= |keys| && |ts| == k && Progress(k, models, ts)
        invariant used == Union(ts) && fresh(used - old(Repr))
      {
        ts, used := CoalesceNext(k, models, ts, used);
        k := k + 1;
      }
    }

    /** Replace the dictionary: the new entries stand for what they did before. */
    method SetKeys(ns: seq<Node>)
      requires AreApart(ns) && this !in Union(ns)
      modifies this
      ensures Valid() && Repr == {this} + Union(ns) && keys == ns && value == old(value) && prefix == old(prefix)
      ensures Model() == Trie(prefix, value, old(Models(ns)))
    {
      ghost var models := Models(ns);
      AssignKeys(ns);
      assert Model().children == models;
    }

    method AssignKeys(ns: seq<Node>)
      requires AreApart(ns) && this !in Union(ns)
      modifies this
      ensures Valid() && Repr == {this} + Union(ns) && keys == ns && value == old(value) && prefix == old(prefix)
      ensures AreApart(ns) && forall k :: 0 <= k < |ns| ==> ns[k].Model() == old(ns[k].Model())
    {
      keys := ns;
      Repr := {this} + Union(ns);
      forall k | 0 <= k < |ns| ensures ns[k] in Repr && ns[k].Repr <= Repr && this !in ns[k].Repr {
        assert ns[k] in ns;
      }
    }

    /** A new node for two that were joined; it shares the children of the lower one. */
    constructor Join(p: Text, suffix: Node)
      requires suffix.Valid()
      ensures Valid() && fresh(Repr - suffix.Repr) && suffix.Valid()
      ensures Model() == Trie(p + suffix.prefix, suffix.value, suffix.Model().children)
    {
      prefix := p + suffix.prefix;
      value := suffix.value;
      keys := suffix.keys;
      Repr := {this} + suffix.Repr;
    }

    /** What coalescing does to the node itself; for the root, whose result is not used, this is all. */
    method CompressChildren()
      requires Valid()
      modifies Repr
      ensures Valid() && fresh(Repr - old(Repr)) && Model() == RootCoalesced(old(Model()))
      decreases Repr, 4
    {
      var ts := CoalesceKeys();
      SetKeys(ts);
    }

    /** The node that takes this one's place. */
    method Coalesce() returns (t: Node)
      requires Valid()
      modifies Repr
      ensures t.Valid() && fresh(t.Repr - old(Repr)) && t.Model() == Coalesced(old(Model()))
      decreases Repr, 5
    {
      CompressChildren();
      t := this;
      if value.None? && |keys| == 1 {
        t := new Node.Join(prefix, keys[0]);
      }
    }
  }

  lemma CoalescedMore(cs: seq<Trie>, k: nat)
    requires k < |cs|
    ensures CoalescedAll(cs[..k + 1]) == CoalescedAll(cs[..k]) + [Coalesced(cs[k])]
    decreases k
  {
    if k > 0 {
      CoalescedMore(cs[1..], k - 1);
      assert cs[..k + 1][1..] == cs[1..][..k] && cs[..k][1..] == cs[1..][..k - 1];
    } else {
      assert cs[..1] == [cs[0]];
    }
  }

  ghost function Models(ns: seq<Node>): (ts: seq<Trie>)
    reads ns, Union(ns)
    requires AreApart(ns)
    ensures |ts| == |ns| && forall k :: 0 <= k < |ns| ==> ts[k] == ns[k].Model()
  {
    seq(|ns|, k requires 0 <= k < |ns| && AreApart(ns) reads ns, Union(ns) => ns[k].Model())
  }

  /** All objects these nodes are made of. */
  ghost function Union(ns: seq<Node>): set<object>
    reads ns
  {
    set n, o | n in ns && o in n.Repr :: o
  }

  /** Valid nodes, no two of which share a part. */
  ghost predicate AreApart(ns: seq<Node>)
    reads ns, Union(ns)
  {
    && (forall k :: 0 <= k < |ns| ==> ns[k].Valid())
    && forall j, k :: 0 <= j < k < |ns| ==> ns[j].Repr !! ns[k].Repr
  }

  /** Insertion changes the first child with the right key, or adds one at the end. */
  lemma {:induction false} InsertedAt(cs: seq<Trie>, key: Text, v: Token, i: nat)
    requires key != [] && i <= |cs| && (i < |cs| ==> cs[i].prefix == [key[0]])
    requires forall k :: 0 <= k < i ==> cs[k].prefix != [key[0]]
    ensures var ds := if i < |cs| then cs else cs + [Leaf(key[0])];
            InsertedIn(cs, key, v) == ds[i := Inserted(ds[i], key[1..], v)]
    decreases |cs|
  {
    if cs != [] && i > 0 {
      InsertedAt(cs[1..], key, v, i - 1);
    }
  }

  /** The generator's first two passes on the nodes: the map is that of the keyword list. */
  method BuildNodes(keywords: seq<(Text, Token)>) returns (root: Node)
    ensures root.Valid() && fresh(root.Repr)
    ensures var t := root.Model();
            IsTrie(t) && AreCompressed(t.children) && forall s :: Find(t, s) == LastToken(keywords, s)
  {
    root := InsertAll(keywords);
    ghost var t := root.Model();
    root.CompressChildren();
    PlainIsTrie(t);
    CoalesceCompressesAll(t.children);
    RootCoalesceKeepsFind(t, []);
    forall s ensures Find(RootCoalesced(t), s) == LastToken(keywords, s) {
      RootCoalesceKeepsFind(t, s);
    }
  }

  method InsertAll(keywords: seq<(Text, Token)>) returns (root: Node)
    ensures root.Valid() && fresh(root.Repr) && IsPlain(root.Model())
    ensures forall s :: Find(root.Model(), s) == LastToken(keywords, s)
  {
    root := new Node([]);
    var k := 0;
    while k < |keywords|
      invariant 0 <= k <= |keywords| && root.Valid() && fresh(root.Repr) && IsPlain(root.Model())
      invariant forall s :: Find(root.Model(), s) == LastToken(keywords[..k], s)
    {
      InsertedIsLast(root.Model(), keywords, k);
      root.Insert(keywords[k].0, keywords[k].1);
      k := k + 1;
    }
    assert keywords[..k] == keywords;
  }
}
