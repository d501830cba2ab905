/** The matcher that KeywordLookupGenerator.py emits: nested comparisons, and what running them finds. */
module KeywordMatchers {
  import opened KeywordEdges
  import opened KeywordTries
  import opened BaseTypes

  /** if (!isIdentPart(code + length)) return token;   or an if / else if chain of comparisons. */
  datatype Statement = ReturnToken(length: nat, token: Token) | Chain(arms: seq<Arm>)

  /** Compare the characters at code + base; if they are equal run the body. */
  datatype Arm = Arm(base: nat, chars: Text, body: seq<Statement>)

  // --- printSubTreeAsC

  /** full is the text of the path to t, including the edge into it. */
  function PrintSubTree(t: Trie, full: Text): seq<Statement>
    decreases t, 0
  {
    (if t.value.Some? then [ReturnToken(|full|, t.value.value)] else [])
    + (if t.children == [] then [] else [Chain(PrintArms(t.children, full))])
  }

  function PrintArms(cs: seq<Trie>, full: Text): seq<Arm>
    decreases cs, 0
  {
    if cs == [] then [] else [PrintArm(cs[0], full)] + PrintArms(cs[1..], full)
  }

  /** Three characters are widened to four with the one before them, which has been compared already. */
  function PrintArm(c: Trie, full: Text): Arm
    decreases c, 1
  {
    var below := full + c.prefix;
    var base := |full|;
    if base > 0 && |c.prefix| == 3 then Arm(base - 1, [below[base - 1]] + c.prefix, PrintSubTree(c, below))
    else Arm(base, c.prefix, PrintSubTree(c, below))
  }

  /** The comparisons stand in the order of the siblings. */
  lemma {:induction false} ArmsInOrder(cs: seq<Trie>, full: Text, k: nat)
    requires k < |cs|
    ensures |PrintArms(cs, full)| == |cs| && PrintArms(cs, full)[k] == PrintArm(cs[k], full)
    decreases cs
  {
    if k > 0 {
      ArmsInOrder(cs[1..], full, k - 1);
    } else if |cs| > 1 {
      ArmsInOrder(cs[1..], full, 0);
    }
  }

  function MaxLength(t: Trie, full: Text): nat
    decreases t
  {
    MaxOfAll(t.children, full, |full|)
  }

  function MaxOfAll(cs: seq<Trie>, full: Text, max: nat): (m: nat)
    ensures m >= max
    decreases cs
  {
    if cs == [] then max
    else
      var l := MaxLength(cs[0], full + cs[0].prefix);
      MaxOfAll(cs[1..], full, if l > max then l else max)
  }

  // --- the comparison macros

  /** A run of characters read as one little-endian number, in units of the character width. */
  function Packed(s: Text, width: nat): nat {
    if s == [] then 0 else s[0] + width * Packed(s[1..], width)
  }

  /** 8-bit or 16-bit characters. */
  predicate IsWidth(width: nat) { width == 256 || width == 65536 }

  predicate Fits(s: Text, width: nat) { forall i :: 0 <= i < |s| ==> s[i] < width }

  /** COMPARE_2 and, where four characters are compared at once, COMPARE_4. */
  predicate CompareWide(code: Text, at: nat, chars: Text, width: nat)
    requires at + |chars| <= |code|
  {
    Packed(code[at..at + |chars|], width) == Packed(chars, width)
  }

  predicate Compare4(code: Text, at: nat, chars: Text, width: nat, fours: bool)
    requires |chars| == 4 && at + 4 <= |code|
  {
    if fours then CompareWide(code, at, chars, width)
    else CompareWide(code, at, chars[..2], width) && CompareWide(code, at + 2, chars[2..], width)
  }

  /** code[at] == c, or COMPARE_2 to COMPARE_8; there is no macro for more. fours says whether the
      target compares four characters in one read. */
  predicate Compare(code: Text, at: nat, chars: Text, width: nat, fours: bool)
    requires 1 <= |chars| <= 8 && at + |chars| <= |code|
  {
    if |chars| == 1 then code[at] == chars[0]
    else if |chars| == 2 then CompareWide(code, at, chars, width)
    else if |chars| == 3 then CompareWide(code, at, chars[..2], width) && code[at + 2] == chars[2]
    else if |chars| == 4 then Compare4(code, at, chars, width, fours)
    else if |chars| == 5 then Compare4(code, at, chars[..4], width, fours) && code[at + 4] == chars[4]
    else if |chars| == 6 then Compare4(code, at, chars[..4], width, fours)
        && CompareWide(code, at + 4, chars[4..], width)
    else if |chars| == 7 then Compare4(code, at, chars[..4], width, fours)
        && Compare4(code, at + 3, chars[3..], width, fours)
    else Compare4(code, at, chars[..4], width, fours) && Compare4(code, at + 4, chars[4..], width, fours)
  }

  lemma {:induction false} PackedEqual(s: Text, t: Text, width: nat)
    requires IsWidth(width) && |s| == |t| && Fits(s, width) && Fits(t, width) && Packed(s, width) == Packed(t, width)
    ensures s == t
  {
    if s != [] {
      DigitsEqual(s[0], Packed(s[1..], width), t[0], Packed(t[1..], width), width);
      PackedEqual(s[1..], t[1..], width);
      assert s == [s[0]] + s[1..] && t == [t[0]] + t[1..];
    }
  }

  lemma DigitsEqual(a: nat, x: nat, b: nat, y: nat, width: nat)
    requires IsWidth(width) && a < width && b < width && a + width * x == b + width * y
    ensures a == b && x == y
  {
    if width == 256 {
      assert a + 256 * x == b + 256 * y;
    } else {
      assert a + 65536 * x == b + 65536 * y;
    }
  }

  lemma CompareWideIsEqual(code: Text, at: nat, chars: Text, width: nat)
    requires at + |chars| <= |code| && IsWidth(width) && Fits(code, width) && Fits(chars, width)
    ensures CompareWide(code, at, chars, width) <==> code[at..at + |chars|] == chars
  {
    var s := code[at..at + |chars|];
    if CompareWide(code, at, chars, width) {
      PackedEqual(s, chars, width);
    }
  }

  lemma Compare4IsEqual(code: Text, at: nat, chars: Text, width: nat, fours: bool)
    requires |chars| == 4 && at + 4 <= |code| && IsWidth(width) && Fits(code, width) && Fits(chars, width)
    ensures Compare4(code, at, chars, width, fours) <==> code[at..at + 4] == chars
  {
    CompareWideIsEqual(code, at, chars, width);
    CompareWideIsEqual(code, at, chars[..2], width);
    CompareWideIsEqual(code, at + 2, chars[2..], width);
    Joined(code, at, chars, 2, 2);
  }

  /** Equality in two pieces, which may overlap. */
  lemma Joined(code: Text, at: nat, chars: Text, j: nat, k: nat)
    requires j <= k <= |chars| && at + |chars| <= |code|
    ensures code[at..at + |chars|] == chars
            <==> code[at..at + k] == chars[..k] && code[at + j..at + |chars|] == chars[j..]
  {
    if code[at..at + |chars|] == chars {
      assert code[at..at + k] == code[at..at + |chars|][..k];
      assert code[at + j..at + |chars|] == code[at..at + |chars|][j..];
    }
    if code[at..at + k] == chars[..k] && code[at + j..at + |chars|] == chars[j..] {
      forall i | 0 <= i < |chars| ensures code[at..at + |chars|][i] == chars[i] {
        if i < k {
          assert code[at..at + k][i] == chars[..k][i];
        } else {
          assert code[at + j..at + |chars|][i - j] == chars[j..][i - j];
        }
      }
    }
  }

  /** Every macro compares exactly its characters: also the ones that read some of them twice. */
  lemma CompareIsEqual(code: Text, at: nat, chars: Text, width: nat, fours: bool)
    requires 1 <= |chars| <= 8 && at + |chars| <= |code| && IsWidth(width) && Fits(code, width) && Fits(chars, width)
    ensures Compare(code, at, chars, width, fours) <==> code[at..at + |chars|] == chars
  {
    var n := |chars|;
    if n <= 2 {
      CompareWideIsEqual(code, at, chars, width);
    } else if n == 3 {
      CompareWideIsEqual(code, at, chars[..2], width);
      Joined(code, at, chars, 2, 2);
    } else {
      Compare4IsEqual(code, at, chars[..4], width, fours);
      CompareRest(code, at, chars, width, fours);
    }
  }

  lemma CompareRest(code: Text, at: nat, chars: Text, width: nat, fours: bool)
    requires 4 <= |chars| <= 8 && at + |chars| <= |code| && IsWidth(width) && Fits(code, width) && Fits(chars, width)
    requires Compare4(code, at, chars[..4], width, fours) <==> code[at..at + 4] == chars[..4]
    ensures Compare(code, at, chars, width, fours) <==> code[at..at + |chars|] == chars
  {
    var n := |chars|;
    if n == 4 {
      assert chars[..4] == chars;
    } else if n == 5 {
      Joined(code, at, chars, 4, 4);
    } else if n == 6 {
      CompareWideIsEqual(code, at + 4, chars[4..], width);
      Joined(code, at, chars, 4, 4);
    } else if n == 7 {
      Compare4IsEqual(code, at + 3, chars[3..], width, fours);
      Joined(code, at, chars, 3, 4);
    } else {
      Compare4IsEqual(code, at + 4, chars[4..], width, fours);
      Joined(code, at, chars, 4, 4);
    }
  }

  // --- running the matcher

  datatype Outcome = Continue | Match(token: Token, length: nat)

  /** Whether the character at an index, or an escape that starts there, continues an identifier. */
  type IdentPart = (Text, nat) -> bool

  /** What a machine brings: its character width and whether it compares four characters in one read. */
  datatype Target = Target(width: nat, fours: bool)

  /** Every read is below n, and every comparison has a macro. */
  predicate InBounds(body: seq<Statement>, n: nat)
    decreases body
  {
    body == [] || (StatementInBounds(body[0], n) && InBounds(body[1..], n))
  }

  predicate StatementInBounds(s: Statement, n: nat)
    decreases s
  {
    match s
    case ReturnToken(length, _) => length < n
    case Chain(arms) => ArmsInBounds(arms, n)
  }

  predicate ArmsInBounds(arms: seq<Arm>, n: nat)
    decreases arms
  {
    arms == []
    || (1 <= |arms[0].chars| <= 8 && arms[0].base + |arms[0].chars| <= n && InBounds(arms[0].body, n)
        && ArmsInBounds(arms[1..], n))
  }

  function Run(body: seq<Statement>, code: Text, part: IdentPart, target: Target): Outcome
    requires InBounds(body, |code|)
    decreases body
  {
    if body == [] then Continue
    else
      var first := RunStatement(body[0], code, part, target);
      if first.Match? then first else Run(body[1..], code, part, target)
  }

  function RunStatement(s: Statement, code: Text, part: IdentPart, target: Target): Outcome
    requires StatementInBounds(s, |code|)
    decreases s
  {
    match s
    case ReturnToken(length, token) => if !part(code, length) then Match(token, length) else Continue
    case Chain(arms) => RunArms(arms, code, part, target)
  }

  function RunArms(arms: seq<Arm>, code: Text, part: IdentPart, target: Target): Outcome
    requires ArmsInBounds(arms, |code|)
    decreases arms
  {
    if arms == [] then Continue
    else if Compare(code, arms[0].base, arms[0].chars, target.width, target.fours)
        then Run(arms[0].body, code, part, target)
    else RunArms(arms[1..], code, part, target)
  }

  // --- bounds: nothing beyond the length of the longest keyword plus one is read

  lemma {:induction false} BoundsGrow(body: seq<Statement>, n: nat, m: nat)
    requires InBounds(body, n) && n <= m
    ensures InBounds(body, m)
    decreases body
  {
    if body != [] {
      if body[0].Chain? {
        ArmBoundsGrow(body[0].arms, n, m);
      }
      BoundsGrow(body[1..], n, m);
    }
  }

  lemma {:induction false} ArmBoundsGrow(arms: seq<Arm>, n: nat, m: nat)
    requires ArmsInBounds(arms, n) && n <= m
    ensures ArmsInBounds(arms, m)
    decreases arms
  {
    if arms != [] {
      BoundsGrow(arms[0].body, n, m);
      ArmBoundsGrow(arms[1..], n, m);
    }
  }

  lemma {:induction false} MaxIsMonotonic(cs: seq<Trie>, full: Text, max: nat, other: nat)
    requires max <= other
    ensures MaxOfAll(cs, full, max) <= MaxOfAll(cs, full, other)
    decreases cs
  {
    if cs != [] {
      var l := MaxLength(cs[0], full + cs[0].prefix);
      MaxIsMonotonic(cs[1..], full, if l > max then l else max, if l > other then l else other);
    }
  }

  lemma ChainInBounds(t: Trie, full: Text, n: nat)
    requires ArmsInBounds(PrintArms(t.children, full), n)
    ensures InBounds([Chain(PrintArms(t.children, full))], n)
  {
    var body := [Chain(PrintArms(t.children, full))];
    assert body[1..] == [] && StatementInBounds(body[0], n);
  }

  lemma {:induction false} PrintInBounds(t: Trie, full: Text)
    requires EdgesFit(t.children)
    ensures InBounds(PrintSubTree(t, full), MaxLength(t, full) + 1) && MaxLength(t, full) >= |full|
    decreases t
  {
    var n := MaxLength(t, full) + 1;
    PrintArmsInBounds(t.children, full, |full|);
    var rest := if t.children == [] then [] else [Chain(PrintArms(t.children, full))];
    ChainInBounds(t, full, n);
    if t.value.Some? {
      var body := PrintSubTree(t, full);
      assert body[1..] == rest;
    } else {
      assert PrintSubTree(t, full) == rest;
    }
  }

  lemma {:induction false} PrintArmsInBounds(cs: seq<Trie>, full: Text, max: nat)
    requires EdgesFit(cs)
    ensures ArmsInBounds(PrintArms(cs, full), MaxOfAll(cs, full, max) + 1)
    decreases cs
  {
    if cs != [] {
      var n := MaxOfAll(cs, full, max) + 1;
      var below := full + cs[0].prefix;
      var l := MaxLength(cs[0], below);
      PrintInBounds(cs[0], below);
      BoundsGrow(PrintSubTree(cs[0], below), l + 1, n);
      PrintArmsInBounds(cs[1..], full, if l > max then l else max);
      var arms := PrintArms(cs, full);
      assert arms[1..] == PrintArms(cs[1..], full);
    }
  }

  // --- the matcher finds exactly the keywords

  /** The letters keywords are made of continue identifiers, and are characters of the target's width. */
  ghost predicate AreLetters(letters: set<Char>, code: Text, part: IdentPart, target: Target) {
    && IsWidth(target.width) && Fits(code, target.width)
    && (forall c :: c in letters ==> c < target.width)
    && (forall i :: 0 <= i < |code| && code[i] in letters ==> part(code, i))
  }

  /** The comparison of an arm, widened or not, is that of the edge, once the text before it is known. */
  lemma ArmTest(c: Trie, full: Text, code: Text, target: Target)
    requires IsWidth(target.width) && Fits(code, target.width) && Fits(c.prefix, target.width)
    requires 1 <= |c.prefix| <= 8 && full <= code && |full| + |c.prefix| <= |code|
    ensures var arm := PrintArm(c, full);
            && 1 <= |arm.chars| <= 8 && arm.base + |arm.chars| == |full + c.prefix|
            && |arm.chars| == (if |c.prefix| == 3 && full != [] then 4 else |c.prefix|)
            && (Compare(code, arm.base, arm.chars, target.width, target.fours) <==> full + c.prefix <= code)
  {
    var arm := PrintArm(c, full);
    PrefixParts(full, c.prefix, code);
    if arm.base < |full| {
      WidenedTest(c.prefix, arm.chars, full, code, target);
    } else {
      CompareIsEqual(code, arm.base, arm.chars, target.width, target.fours);
    }
  }

  /** A comparison that repeats the last character before the edge. */
  lemma WidenedTest(p: Text, chars: Text, full: Text, code: Text, target: Target)
    requires IsWidth(target.width) && Fits(code, target.width) && Fits(p, target.width) && full != [] && |p| < 8
    requires full <= code && |full| + |p| <= |code| && chars == [full[|full| - 1]] + p
    ensures Compare(code, |full| - 1, chars, target.width, target.fours)
            <==> code[|full|..|full| + |p|] == p
  {
    assert full[|full| - 1] == code[|full| - 1];
    CompareIsEqual(code, |full| - 1, chars, target.width, target.fours);
    Joined(code, |full| - 1, chars, 1, 1);
    assert chars[1..] == p;
    assert code[|full| - 1..|full|] == chars[..1];
  }

  lemma PrefixParts(full: Text, p: Text, code: Text)
    requires full <= code && |full| + |p| <= |code|
    ensures full + p <= code <==> code[|full|..|full| + |p|] == p
  {
    if code[|full|..|full| + |p|] == p {
      assert code[..|full| + |p|] == full + p;
    }
    if full + p <= code {
      assert code[..|full| + |p|][|full|..] == p;
    }
  }

  lemma FirstArm(cs: seq<Trie>, full: Text, code: Text, target: Target, letters: set<Char>)
    requires IsWidth(target.width) && Fits(code, target.width) && forall c :: c in letters ==> c < target.width
    requires cs != [] && Uses(cs, letters) && EdgesFit(cs) && full <= code && ArmsInBounds(PrintArms(cs, full), |code|)
    ensures var arm := PrintArm(cs[0], full);
            && 1 <= |arm.chars| <= 8 && arm.base + |arm.chars| <= |code| && |full| + |cs[0].prefix| <= |code|
            && (Compare(code, arm.base, arm.chars, target.width, target.fours) <==> full + cs[0].prefix <= code)
  {
    assert PrintArms(cs, full)[0] == PrintArm(cs[0], full);
    ArmTest(cs[0], full, code, target);
  }

  lemma ShorterPrefix(full: Text, p: Text, s: Text, code: Text)
    requires full + s <= code
    ensures p <= s ==> full + p <= code
  {
    if p <= s {
      assert full + p == (full + s)[..|full + p|];
    }
  }

  lemma PrintUnfolds(t: Trie, full: Text, code: Text, part: IdentPart, target: Target)
    requires InBounds(PrintSubTree(t, full), |code|)
    ensures t.children != [] ==> ArmsInBounds(PrintArms(t.children, full), |code|)
    ensures t.value.Some? ==> |full| < |code|
    ensures Run(PrintSubTree(t, full), code, part, target)
            == if t.value.Some? && !part(code, |full|) then Match(t.value.value, |full|)
               else if t.children == [] then Continue
               else RunArms(PrintArms(t.children, full), code, part, target)
  {
    var body := PrintSubTree(t, full);
    var rest := if t.children == [] then [] else [Chain(PrintArms(t.children, full))];
    if t.value.Some? {
      assert body == [ReturnToken(|full|, t.value.value)] + rest;
      assert body[1..] == rest;
    } else {
      assert body == rest;
    }
    assert InBounds(rest, |code|);
    RunRest(t, full, rest, code, part, target);
  }

  lemma RunRest(t: Trie, full: Text, rest: seq<Statement>, code: Text, part: IdentPart, target: Target)
    requires rest == if t.children == [] then [] else [Chain(PrintArms(t.children, full))]
    requires InBounds(rest, |code|)
    ensures t.children != [] ==> ArmsInBounds(PrintArms(t.children, full), |code|)
    ensures Run(rest, code, part, target)
            == if t.children == [] then Continue else RunArms(PrintArms(t.children, full), code, part, target)
  {
    if rest != [] {
      assert rest[1..] == [];
      assert StatementInBounds(rest[0], |code|);
    }
  }

  /** Whatever the matcher returns is a keyword that the input starts with and that ends there. */
  lemma {:induction false} RunSound(t: Trie, full: Text, code: Text, part: IdentPart, target: Target,
                                    letters: set<Char>)
    returns (s: Text)
    requires AreLetters(letters, code, part, target) && IsTrie(t) && Uses(t.children, letters) && EdgesFit(t.children)
    requires full <= code && InBounds(PrintSubTree(t, full), |code|)
    requires Run(PrintSubTree(t, full), code, part, target).Match?
    ensures var r := Run(PrintSubTree(t, full), code, part, target);
            && Find(t, s) == Some(r.token) && full + s <= code && r.length == |full + s| < |code|
                && !part(code, r.length)
    decreases t
  {
    PrintUnfolds(t, full, code, part, target);
    if t.value.Some? && !part(code, |full|) {
      s := [];
      assert full + s == full;
    } else {
      s := ArmsSound(t.children, full, code, part, target, letters);
    }
  }

  lemma {:induction false} ArmsSound(cs: seq<Trie>, full: Text, code: Text, part: IdentPart, target: Target,
                                     letters: set<Char>)
    returns (s: Text)
    requires AreLetters(letters, code, part, target) && AreSiblings(cs) && Uses(cs, letters) && EdgesFit(cs)
    requires full <= code && ArmsInBounds(PrintArms(cs, full), |code|)
    requires RunArms(PrintArms(cs, full), code, part, target).Match?
    ensures var r := RunArms(PrintArms(cs, full), code, part, target);
            && s != [] && FindIn(cs, s) == Some(r.token) && full + s <= code && r.length == |full + s| < |code|
            && !part(code, r.length)
    decreases cs
  {
    var arms := PrintArms(cs, full);
    assert arms[0] == PrintArm(cs[0], full) && arms[1..] == PrintArms(cs[1..], full);
    FirstArm(cs, full, code, target, letters);
    var below := full + cs[0].prefix;
    if below <= code {
      var rest := RunSound(cs[0], below, code, part, target, letters);
      s := cs[0].prefix + rest;
      assert below + rest == full + s;
      assert s[|cs[0].prefix|..] == rest;
    } else {
      s := ArmsSound(cs[1..], full, code, part, target, letters);
      ShorterPrefix(full, cs[0].prefix, s, code);
    }
  }

  /** Two continuations of the same text start alike. */
  lemma SameStart(full: Text, p: Text, s: Text, code: Text)
    requires full + p <= code && full + s <= code && p != [] && s != []
    ensures p[0] == s[0] && (p <= s ==> full + p + s[|p|..] == full + s)
  {
    assert code[|full|] == (full + p)[|full|] == p[0];
    assert code[|full|] == (full + s)[|full|] == s[0];
    if p <= s {
      assert p + s[|p|..] == s;
    }
  }

  /** A keyword that the input starts with, and that ends there, is what the matcher returns. */
  lemma {:induction false} RunComplete(t: Trie, full: Text, code: Text, part: IdentPart, target: Target,
                                       letters: set<Char>, s: Text)
    requires AreLetters(letters, code, part, target) && IsTrie(t) && Uses(t.children, letters) && EdgesFit(t.children)
    requires InBounds(PrintSubTree(t, full), |code|) && AllIn(s, letters)
    requires Find(t, s).Some? && full + s <= code && |full + s| < |code| && !part(code, |full + s|)
    ensures Run(PrintSubTree(t, full), code, part, target) == Match(Find(t, s).value, |full + s|)
    decreases t
  {
    assert full == (full + s)[..|full|];
    PrintUnfolds(t, full, code, part, target);
    if s == [] {
      assert full + s == full;
    } else {
      assert code[|full|] == (full + s)[|full|] == s[0];
      ArmsComplete(t.children, full, code, part, target, letters, s);
    }
  }

  lemma {:induction false} ArmsComplete(cs: seq<Trie>, full: Text, code: Text, part: IdentPart, target: Target,
                                        letters: set<Char>, s: Text)
    requires AreLetters(letters, code, part, target) && AreSiblings(cs) && Uses(cs, letters) && EdgesFit(cs)
    requires full <= code && ArmsInBounds(PrintArms(cs, full), |code|) && AllIn(s, letters) && s != []
    requires FindIn(cs, s).Some? && full + s <= code && |full + s| < |code| && !part(code, |full + s|)
    ensures RunArms(PrintArms(cs, full), code, part, target) == Match(FindIn(cs, s).value, |full + s|)
    decreases cs
  {
    var arms := PrintArms(cs, full);
    assert arms[0] == PrintArm(cs[0], full) && arms[1..] == PrintArms(cs[1..], full);
    FirstArm(cs, full, code, target, letters);
    var below := full + cs[0].prefix;
    FindFirst(cs, s);
    if below <= code {
      SameStart(full, cs[0].prefix, s, code);
      RunComplete(cs[0], below, code, part, target, letters, s[|cs[0].prefix|..]);
    } else {
      ShorterPrefix(full, cs[0].prefix, s, code);
      ArmsComplete(cs[1..], full, code, part, target, letters, s);
    }
  }

  /** The generated parser: the token and length of the keyword found, or none for an identifier. */
  datatype Parsed = Ident | Keyword(token: Token, length: nat)

  function MaxTokenLength(root: Trie): nat { MaxLength(root, []) + 1 }

  function ParseKeyword(root: Trie, code: Text, part: IdentPart, target: Target): Parsed
    requires EdgesFit(root.children) && |code| >= MaxTokenLength(root)
  {
    PrintInBounds(root, []);
    BoundsGrow(PrintSubTree(root, []), MaxTokenLength(root), |code|);
    match Run(PrintSubTree(root, []), code, part, target)
    case Continue => Ident
    case Match(token, length) => Keyword(token, length)
  }

  /** The keyword w of the map is at the start of the input, and the next character is no part of it. */
  ghost predicate StartsWithKeyword(root: Trie, code: Text, part: IdentPart, w: Text, token: Token) {
    Find(root, w) == Some(token) && w <= code && |w| < |code| && !part(code, |w|)
  }

  /** The matcher returns a token exactly when the input starts with its keyword and the next character
      is not an identifier part; otherwise it says identifier. */
  lemma MatcherFinds(root: Trie, code: Text, part: IdentPart, target: Target, letters: set<Char>, token: Token,
                     length: nat)
    requires IsTrie(root) && Uses(root.children, letters) && EdgesFit(root.children) && |code| >= MaxTokenLength(root)
    requires AreLetters(letters, code, part, target)
    requires forall w :: Find(root, w).Some? ==> AllIn(w, letters)
    ensures ParseKeyword(root, code, part, target) == Keyword(token, length)
            <==> exists w :: |w| == length && StartsWithKeyword(root, code, part, w, token)
  {
    PrintInBounds(root, []);
    BoundsGrow(PrintSubTree(root, []), MaxTokenLength(root), |code|);
    if ParseKeyword(root, code, part, target) == Keyword(token, length) {
      var w := RunSound(root, [], code, part, target, letters);
      assert [] + w == w;
      assert StartsWithKeyword(root, code, part, w, token);
    }
    if w :| |w| == length && StartsWithKeyword(root, code, part, w, token) {
      assert [] + w == w;
      RunComplete(root, [], code, part, target, letters, w);
    }
  }

  // --- the length to look ahead is that of the longest keyword, and one more

  lemma {:induction false} MaxIsAtLeast(t: Trie, full: Text, s: Text)
    requires Find(t, s).Some?
    ensures |full| + |s| <= MaxLength(t, full)
    decreases t
  {
    if s != [] {
      MaxIsAtLeastAmong(t.children, full, |full|, s);
    }
  }

  lemma {:induction false} MaxIsAtLeastAmong(cs: seq<Trie>, full: Text, max: nat, s: Text)
    requires FindIn(cs, s).Some?
    ensures |full| + |s| <= MaxOfAll(cs, full, max)
    decreases cs
  {
    var l := MaxLength(cs[0], full + cs[0].prefix);
    if cs[0].prefix <= s {
      MaxIsAtLeast(cs[0], full + cs[0].prefix, s[|cs[0].prefix|..]);
    } else {
      MaxIsAtLeastAmong(cs[1..], full, if l > max then l else max, s);
    }
  }

  /** Some text of the trie is as long as that, if it is not empty. */
  lemma {:induction false} MaxIsReached(t: Trie, full: Text) returns (s: Text)
    requires IsTrie(t) && AreLive(t.children)
    ensures |full| + |s| == MaxLength(t, full) && (s == [] ==> t.children == [])
    ensures s != [] ==> Find(t, s).Some?
    decreases t, 0
  {
    var found;
    found, s := MaxIsReachedAmong(t.children, full, |full|);
    if !found {
      s := [];
    }
  }

  lemma {:induction false} MaxIsReachedAmong(cs: seq<Trie>, full: Text, max: nat) returns (found: bool, s: Text)
    requires AreSiblings(cs) && AreLive(cs)
    ensures found ==> s != [] && FindIn(cs, s).Some? && |full| + |s| == MaxOfAll(cs, full, max)
    ensures !found ==> MaxOfAll(cs, full, max) == max
    ensures cs != [] && max <= |full| ==> found
    decreases cs, 0
  {
    if cs == [] {
      return false, [];
    }
    var p := cs[0].prefix;
    var l := MaxLength(cs[0], full + p);
    found, s := MaxIsReachedAmong(cs[1..], full, if l > max then l else max);
    if found {
      FoundLater(cs, s);
    } else if l > max {
      var rest := MaxIsReached(cs[0], full + p);
      found, s := true, p + rest;
      assert s[|p|..] == rest;
    } else {
      var rest := MaxIsReached(cs[0], full + p);
    }
  }

  /** What is found among later siblings does not start with the first edge. */
  lemma FoundLater(cs: seq<Trie>, s: Text)
    requires cs != [] && AreSiblings(cs) && s != [] && FindIn(cs[1..], s).Some?
    ensures FindIn(cs, s).Some?
  {
    FindFirst(cs, s);
    if s[0] == cs[0].prefix[0] {
      NotAmong(cs[1..], s);
    }
  }

  function Longest(keywords: seq<(Text, Token)>): nat {
    if keywords == [] then 0
    else
      var (n, rest) := (|keywords[0].0|, Longest(keywords[1..]));
      if n > rest then n else rest
  }

  lemma {:induction false} LongestIsLongest(keywords: seq<(Text, Token)>, s: Text)
    ensures s in Keys(keywords) ==> |s| <= Longest(keywords)
    decreases |keywords|
  {
    if s in Keys(keywords) {
      var k :| 0 <= k < |keywords| && keywords[k].0 == s;
      if k > 0 {
        assert keywords[1..][k - 1].0 == s;
        LongestIsLongest(keywords[1..], s);
      }
    }
  }

  lemma {:induction false} LongestIsKeyword(keywords: seq<(Text, Token)>) returns (k: nat)
    requires keywords != []
    ensures k < |keywords| && |keywords[k].0| == Longest(keywords)
    decreases |keywords|
  {
    k := 0;
    if |keywords| > 1 && |keywords[0].0| <= Longest(keywords[1..]) {
      k := LongestIsKeyword(keywords[1..]);
      k := k + 1;
    }
  }

  /** maxTokenLength is one more than the length of the longest keyword. */
  lemma LookAheadIsExact(root: Trie, keywords: seq<(Text, Token)>)
    requires IsTrie(root) && AreLive(root.children) && forall s :: Find(root, s) == LastToken(keywords, s)
    ensures MaxTokenLength(root) == Longest(keywords) + 1
  {
    SameKeys(root, keywords);
    var s := MaxIsReached(root, []);
    LongestIsLongest(keywords, s);
    assert s != [] ==> s in KeysOf(root);
    if keywords != [] {
      var k := LongestIsKeyword(keywords);
      assert keywords[k].0 in Keys(keywords);
      assert keywords[k].0 in KeysOf(root);
      MaxIsAtLeast(root, [], keywords[k].0);
    }
  }

  // --- from a keyword list to its matcher

  /** The parser for this trie finds exactly what the list says, on every input and target. */
  ghost predicate Matches(root: Trie, keywords: seq<(Text, Token)>, letters: set<Char>)
    requires EdgesFit(root.children)
  {
    forall code, part, target, token, length | |code| >= MaxTokenLength(root)
        && AreLetters(letters, code, part, target) ::
      ParseKeyword(root, code, part, target) == Keyword(token, length)
      <==> exists w :: |w| == length && IsKeywordAt(keywords, code, part, w, token)
  }

  ghost predicate IsKeywordAt(keywords: seq<(Text, Token)>, code: Text, part: IdentPart, w: Text, token: Token) {
    LastToken(keywords, w) == Some(token) && w <= code && |w| < |code| && !part(code, |w|)
  }

  lemma GeneratedMatches(root: Trie, keywords: seq<(Text, Token)>, letters: set<Char>)
    requires IsTrie(root) && Uses(root.children, letters) && EdgesFit(root.children)
    requires forall s :: Find(root, s) == LastToken(keywords, s)
    ensures Matches(root, keywords, letters)
  {
    forall code, part, target, token, length | |code| >= MaxTokenLength(root) && AreLetters(letters, code, part, target)
      ensures ParseKeyword(root, code, part, target) == Keyword(token, length)
              <==> exists w :: |w| == length && IsKeywordAt(keywords, code, part, w, token)
    {
      forall w | Find(root, w).Some? ensures AllIn(w, letters) {
        FoundInLetters(root, w, letters);
      }
      MatcherFinds(root, code, part, target, letters, token, length);
      forall w ensures IsKeywordAt(keywords, code, part, w, token) <==> StartsWithKeyword(root, code, part, w, token) {}
    }
  }

  /** The whole generator; an edge of more than eight characters has no macro to compare it with. */
  method Generate(keywords: seq<(Text, Token)>, weights: Weights, ghost letters: set<Char>) returns (root: Trie)
    requires forall k :: 0 <= k < |keywords| ==> AllIn(keywords[k].0, letters)
    ensures EdgesFit(root.children) <==> StopsInEight(Keys(keywords))
    ensures EdgesFit(root.children) ==> Matches(root, keywords, letters)
    ensures MaxTokenLength(root) == Longest(keywords) + 1 && AllDescending(root, [], weights)
  {
    root := BuildTrie(keywords, weights, letters);
    LookAheadIsExact(root, keywords);
    FitsExactly(root);
    SameKeys(root, keywords);
    if EdgesFit(root.children) {
      GeneratedMatches(root, keywords, letters);
    }
  }
}
