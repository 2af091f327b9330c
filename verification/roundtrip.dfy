/** The round trip between the encoder (`__str__`) and the decoder (`IceNLPySentence(str)`):
    over the well-formed trees `WfSentence` describes, decoding the string form of a
    sentence gives back exactly its phrases, so `str` is stable under a decode. The
    patterns also read back some trees outside that domain, which are not
    characterised here. */
module RoundTrip {
  import opened Chars
  import opened Tree
  import opened Render
  import opened Decoder

  /* ------------------------------------------------------------- well-formed trees */

  /** A label, word or tag in the well-formed domain: non-empty word characters. */
  predicate IsToken(w: string) {
    0 < |w| && AllIn(Word, w)
  }

  predicate WfLeaf(n: Node) {
    n.Terminal? && IsToken(n.word) && IsToken(n.tag)
  }

  /** A child of a top-level phrase: a leaf, or a non-empty phrase of leaves. */
  predicate WfChild(n: Node) {
    match n
    case Terminal(_, _) => WfLeaf(n)
    case Phrase(c, es) => IsToken(c) && 0 < |es| && forall i :: 0 <= i < |es| ==> WfLeaf(es[i])
  }

  /** A phrase whose text the decoder can read back: a token label and at least one
      child, every child well formed. */
  predicate WfGroup(p: Node) {
    p.Phrase? && IsToken(p.category) && 0 < |p.elements|
    && forall i :: 0 <= i < |p.elements| ==> WfChild(p.elements[i])
  }

  /** A top-level phrase the top-level pattern finds whole: it also opens with a leaf. */
  predicate WfTop(p: Node) {
    WfGroup(p) && p.elements[0].Terminal?
  }

  predicate WfSentence(ps: seq<Node>) {
    forall i :: 0 <= i < |ps| ==> WfTop(ps[i])
  }

  /* ------------------------------------------------------------- the text of trees */

  /** Each node's string followed by one space. */
  function Spaced(es: seq<Node>): (r: string)
    ensures |es| > 0 ==> |r| > |NodeStr(es[0])|
  {
    if |es| == 0 then "" else NodeStr(es[0]) + " " + Spaced(es[1..])
  }

  /** The text between a phrase's outer brackets. */
  function GroupOf(p: Node): string
    requires p.Phrase?
  {
    p.category + " " + Spaced(p.elements)
  }

  /** The sequence of the phrases' group texts. */
  function Groups(ps: seq<Node>): (gs: seq<string>)
    requires forall i :: 0 <= i < |ps| ==> ps[i].Phrase?
    ensures |gs| == |ps|
  {
    if |ps| == 0 then [] else [GroupOf(ps[0])] + Groups(ps[1..])
  }

  /** Joining with single spaces, and one more space, is `Spaced`. */
  lemma {:induction false} JoinSpaced(es: seq<Node>)
    requires 0 < |es|
    ensures JoinStr(es) + " " == Spaced(es)
  {
    if |es| > 1 {
      JoinSpaced(es[1..]);
      assert JoinStr(es) + " " == NodeStr(es[0]) + " " + (JoinStr(es[1..]) + " ");
    }
  }

  /** A phrase with children is `[`, its group text, and `]`. */
  lemma PhraseText(p: Node)
    requires p.Phrase? && 0 < |p.elements|
    ensures NodeStr(p) == "[" + GroupOf(p) + "]"
  {
    JoinSpaced(p.elements);
    Regroup(p.category, JoinStr(p.elements));
  }

  lemma Regroup(c: string, j: string)
    ensures "[" + c + " " + j + " ]" == "[" + (c + " " + (j + " ")) + "]"
  {
    var x := "[" + c + " " + j + " ]";
    var y := "[" + (c + " " + (j + " ")) + "]";
    assert |x| == |y|;
    forall k | 0 <= k < |x|
      ensures x[k] == y[k]
    {
    }
  }

  /* -------------------------------------------------------------- character classes */

  lemma AllInConcat(k: CharClass, x: string, y: string)
    requires AllIn(k, x) && AllIn(k, y)
    ensures AllIn(k, x + y)
  {
    assert forall i :: |x| <= i < |x + y| ==> (x + y)[i] == y[i - |x|];
  }

  /** A token followed by a space is bracket-free and newline-free. */
  lemma TokenSpace(w: string)
    requires IsToken(w)
    ensures AllIn(NonBracket, w + " ") && AllIn(GroupChar, w + " ")
  {
    WordsAreWider(w);
    SpaceClasses();
    AllInConcat(NonBracket, w, " ");
    AllInConcat(GroupChar, w, " ");
  }

  /** A leaf's text and the space after it are bracket-free and newline-free. */
  lemma LeafText(e: Node)
    requires WfLeaf(e)
    ensures AllIn(NonBracket, NodeStr(e)) && AllIn(GroupChar, NodeStr(e))
  {
    TokenSpace(e.word);
    WordsAreWider(e.tag);
    AllInConcat(NonBracket, e.word + " ", e.tag);
    AllInConcat(GroupChar, e.word + " ", e.tag);
  }

  /** The spaced text of leaves is bracket-free and newline-free. */
  lemma {:induction false} LeavesText(es: seq<Node>)
    requires forall i :: 0 <= i < |es| ==> WfLeaf(es[i])
    ensures AllIn(NonBracket, Spaced(es)) && AllIn(GroupChar, Spaced(es))
  {
    if |es| == 0 {
    } else {
      LeafText(es[0]);
      LeavesText(es[1..]);
      SpaceClasses();
      AllInConcat(NonBracket, NodeStr(es[0]), " ");
      AllInConcat(GroupChar, NodeStr(es[0]), " ");
      AllInConcat(NonBracket, NodeStr(es[0]) + " ", Spaced(es[1..]));
      AllInConcat(GroupChar, NodeStr(es[0]) + " ", Spaced(es[1..]));
    }
  }

  /** The group text of a nested phrase is bracket-free and newline-free. */
  lemma ChildText(e: Node)
    requires e.Phrase? && WfChild(e)
    ensures AllIn(NonBracket, GroupOf(e)) && AllIn(GroupChar, GroupOf(e))
  {
    TokenSpace(e.category);
    LeavesText(e.elements);
    assert GroupOf(e) == (e.category + " ") + Spaced(e.elements);
    AllInConcat(NonBracket, e.category + " ", Spaced(e.elements));
    AllInConcat(GroupChar, e.category + " ", Spaced(e.elements));
  }

  /* ------------------------------------------------------------ text at an index */

  /** `x` occurs in `s` at index `i`. */
  predicate At(s: string, i: nat, x: string) {
    i + |x| <= |s| && forall k :: 0 <= k < |x| ==> s[i + k] == x[k]
  }

  lemma AtHead(s: string, i: nat, x: string)
    requires At(s, i, x) && 0 < |x|
    ensures s[i] == x[0]
  {
  }

  /** Text, one separator character, and more text. */
  lemma AtSep(s: string, i: nat, x: string, c: char, y: string)
    requires At(s, i, x + [c] + y)
    ensures At(s, i, x) && s[i + |x|] == c && At(s, i + |x| + 1, y)
  {
    var z := x + [c] + y;
    assert forall k :: 0 <= k < |x| ==> z[k] == x[k];
    assert z[|x|] == c;
    assert forall k :: 0 <= k < |y| ==> z[|x| + 1 + k] == y[k];
  }

  /** Text between brackets. */
  lemma AtBracket(s: string, i: nat, g: string)
    requires At(s, i, "[" + g + "]")
    ensures s[i] == '[' && At(s, i + 1, g) && s[i + 1 + |g|] == ']'
  {
    var z := "[" + g + "]";
    assert z[0] == '[';
    assert forall k :: 0 <= k < |g| ==> z[1 + k] == g[k];
    assert z[1 + |g|] == ']';
  }

  /** The characters at an occurrence of `x` are all in a class when those of `x` are. */
  lemma AtAll(s: string, i: nat, x: string, k: CharClass)
    requires At(s, i, x) && AllIn(k, x)
    ensures AllInAt(k, s, i, i + |x|)
  {
    forall m | i <= m < i + |x|
      ensures In(k, s[m])
    {
      assert s[m] == x[m - i];
    }
  }

  lemma AtSlice(s: string, i: nat, x: string)
    requires At(s, i, x)
    ensures s[i..i + |x|] == x
  {
  }

  lemma AtWhole(s: string)
    ensures At(s, 0, s)
  {
  }

  /** A well-formed child's text opens with a word character (a leaf) or `[` (a phrase). */
  lemma FirstChar(es: seq<Node>)
    requires 0 < |es| && WfChild(es[0])
    ensures 0 < |Spaced(es)|
    ensures es[0].Terminal? ==> IsWordChar(Spaced(es)[0])
    ensures es[0].Phrase? ==> Spaced(es)[0] == '['
  {
    assert Spaced(es)[0] == NodeStr(es[0])[0];
  }

  /** A character of class `k` extends a run over it. */
  lemma RunSkip(s: string, i: nat, k: CharClass)
    requires i < |s| && In(k, s[i])
    ensures Run(s, i, k) == Run(s, i + 1, k)
  {
  }

  /* -------------------------------------------------- the top-level pattern on text */

  /** The group tail meets `]` at once. */
  lemma GroupsEnd(s: string, j: nat)
    requires j < |s| && s[j] == ']'
    ensures MatchGroups(s, Run(s, j, NonBracket)) == Some(j + 1)
  {
    RunIs(s, j, j, NonBracket);
  }

  /** The group tail reads a nested group `[...]` and goes on after its `]`. */
  lemma GroupsNested(s: string, j: nat, c: nat)
    requires j + 1 < c < |s| && s[j] == '[' && s[c] == ']' && AllInAt(NonBracket, s, j + 1, c)
    ensures Run(s, j, NonBracket) == j
    ensures MatchGroups(s, j) == MatchGroups(s, Run(s, c + 1, NonBracket))
  {
    RunIs(s, j + 1, c, NonBracket);
  }

  /** The text of a nested phrase and the space after it, read by the group tail. */
  lemma NestedGroup(s: string, j: nat, e: Node)
    requires e.Phrase? && WfChild(e) && At(s, j, NodeStr(e))
    requires j + |NodeStr(e)| < |s| && s[j + |NodeStr(e)|] == ' '
    ensures Run(s, j, NonBracket) == j
    ensures MatchGroups(s, j) == MatchGroups(s, Run(s, j + |NodeStr(e)| + 1, NonBracket))
  {
    var g := GroupOf(e);
    var c := j + 1 + |g|;
    PhraseText(e);
    AtBracket(s, j, g);
    ChildText(e);
    AtAll(s, j + 1, g, NonBracket);
    GroupsNested(s, j, c);
    SpaceClasses();
    RunSkip(s, c + 1, NonBracket);
  }

  /** The group tail reads the spaced text of well-formed children up to the `]` after
      them. */
  lemma {:induction false} TailGroups(s: string, j: nat, es: seq<Node>)
    requires forall i :: 0 <= i < |es| ==> WfChild(es[i])
    requires At(s, j, Spaced(es)) && j + |Spaced(es)| < |s| && s[j + |Spaced(es)|] == ']'
    ensures MatchGroups(s, Run(s, j, NonBracket)) == Some(j + |Spaced(es)| + 1)
    decreases |es|
  {
    if |es| == 0 {
      GroupsEnd(s, j);
    } else {
      AtSep(s, j, NodeStr(es[0]), ' ', Spaced(es[1..]));
      TailGroups(s, j + |NodeStr(es[0])| + 1, es[1..]);
      ChildGroups(s, j, es[0]);
    }
  }

  /** Inside the group tail, the text of one well-formed child and the space after it
      are passed over. */
  lemma ChildGroups(s: string, j: nat, e: Node)
    requires WfChild(e) && At(s, j, NodeStr(e))
    requires j + |NodeStr(e)| < |s| && s[j + |NodeStr(e)|] == ' '
    ensures MatchGroups(s, Run(s, j, NonBracket))
         == MatchGroups(s, Run(s, j + |NodeStr(e)| + 1, NonBracket))
  {
    if e.Terminal? {
      LeafText(e);
      AtAll(s, j, NodeStr(e), NonBracket);
      RunFrom(s, j, j + |NodeStr(e)|, NonBracket);
      SpaceClasses();
      RunSkip(s, j + |NodeStr(e)|, NonBracket);
    } else {
      NestedGroup(s, j, e);
    }
  }

  /** The top-level pattern reads `[`, a token label and one space, and hands over to the
      group tail at the word character that follows. */
  lemma TopOpen(s: string, i: nat, a: nat)
    requires i + 1 < a && a + 1 < |s| && s[i] == '[' && AllInAt(Word, s, i + 1, a)
    requires s[a] == ' ' && IsWordChar(s[a + 1])
    ensures MatchTop(s, i) == MatchGroups(s, Run(s, a + 1, NonBracket))
  {
    SpaceClasses();
    RunIs(s, i + 1, a, Word);
    WordCharClasses(s[a + 1]);
  }

  /** The top-level pattern matches a well-formed top-level phrase's text exactly. */
  lemma MatchTopNode(s: string, i: nat, p: Node)
    requires WfTop(p) && At(s, i, NodeStr(p))
    ensures MatchTop(s, i) == Some(i + |NodeStr(p)|)
  {
    var c := p.category;
    var es := p.elements;
    var a := i + 1 + |c|;
    PhraseText(p);
    AtBracket(s, i, GroupOf(p));
    AtSep(s, i + 1, c, ' ', Spaced(es));
    AtAll(s, i + 1, c, Word);
    FirstChar(es);
    AtHead(s, a + 1, Spaced(es));
    TopOpen(s, i, a);
    TailGroups(s, a + 1, es);
  }

  /** One match of the top-level pattern and the space after it. */
  lemma FindAllSpace(s: string, i: nat, n: nat)
    requires i < n < |s| && MatchTop(s, i) == Some(n) && s[n] == ' '
    ensures FindAllFrom(s, i) == [s[i + 1..n - 1]] + FindAllFrom(s, n + 1)
  {
    FindAllMatch(s, i, n);
    FindAllSkips(s, n, n + 1);
  }

  /** The group the top-level pattern captures is the phrase's group text. */
  lemma GroupAt(s: string, i: nat, p: Node)
    requires p.Phrase? && 0 < |p.elements| && At(s, i, NodeStr(p))
    ensures s[i + 1..i + |NodeStr(p)| - 1] == GroupOf(p)
  {
    PhraseText(p);
    AtBracket(s, i, GroupOf(p));
    AtSlice(s, i + 1, GroupOf(p));
  }

  /** `re.findall` with the top-level pattern, over the string form of a well-formed
      sentence from index `i` on, followed by text without `[`, finds exactly the
      phrases' group texts. */
  lemma {:induction false} FindAllJoin(s: string, i: nat, ps: seq<Node>)
    requires WfSentence(ps) && At(s, i, JoinStr(ps))
    requires forall m :: i + |JoinStr(ps)| <= m < |s| ==> s[m] != '['
    ensures FindAllFrom(s, i) == Groups(ps)
    decreases |ps|
  {
    if |ps| > 0 {
      var p := ps[0];
      var n := i + |NodeStr(p)|;
      if |ps| > 1 {
        AtSep(s, i, NodeStr(p), ' ', JoinStr(ps[1..]));
        MatchTopNode(s, i, p);
        FindAllSpace(s, i, n);
        FindAllJoin(s, n + 1, ps[1..]);
      } else {
        MatchTopNode(s, i, p);
        FindAllMatch(s, i, n);
        FindAllSkips(s, n, |s|);
      }
      GroupAt(s, i, p);
    } else {
      FindAllSkips(s, i, |s|);
    }
  }

  /* ------------------------------------------------------ the phrase pattern on text */

  /** `node` in front of what a successful scan decodes; a failed scan stays failed. */
  function Prepend(node: Node, r: Result<seq<Node>>): (q: Result<seq<Node>>)
    ensures q.Ok? == r.Ok? && (q.Ok? ==> 0 < |q.value| && q.value[0] == node && q.value[1..] == r.value)
    ensures q.Err? ==> q == r
  {
    if r.Ok? then Ok([node] + r.value) else r
  }

  /** One step of the `re.finditer` loop: a bracket group becomes a child phrase. */
  lemma ScanGroupStep(t: string, i: nat, n: nat, child: Node)
    requires NoEmptyGroup(t) && i < |t| && MatchBracketGroup(t, i) == Some(n)
    requires NoEmptyGroup(t[i + 1..n - 1]) && ParsePhrase(t[i + 1..n - 1]) == Ok(child)
    ensures ScanContent(t, i) == Prepend(child, ScanContent(t, n))
  {
  }

  /** One step of the `re.finditer` loop: a `word tag` pair becomes a terminal. */
  lemma ScanPairStep(t: string, i: nat, m: PairMatch)
    requires NoEmptyGroup(t) && i < |t| && MatchBracketGroup(t, i).None? && MatchPair(t, i) == Some(m)
    requires m.end <= |t|
    ensures ScanContent(t, i) == Prepend(Terminal(m.word, m.tag), ScanContent(t, m.end))
  {
    assert ScanContent(t, i) == ScanAt(t, i) == ScanPair(t, i);
  }

  /** One step of the `re.finditer` loop: an index where nothing matches is passed over. */
  lemma ScanSkipStep(t: string, i: nat)
    requires NoEmptyGroup(t) && i < |t| && MatchBracketGroup(t, i).None? && MatchPair(t, i).None?
    ensures ScanContent(t, i) == ScanContent(t, i + 1)
  {
    assert ScanContent(t, i) == ScanAt(t, i) == ScanPair(t, i);
  }

  /** The `re.finditer` loop passes over a space. */
  lemma ScanSpaceStep(t: string, i: nat)
    requires NoEmptyGroup(t) && i < |t| && t[i] == ' '
    ensures ScanContent(t, i) == ScanContent(t, i + 1)
  {
    SpaceNoMatch(t, i);
    ScanSkipStep(t, i);
  }

  /** Neither alternative of the phrase pattern starts at a space. */
  lemma SpaceNoMatch(t: string, i: nat)
    requires i < |t| && t[i] == ' '
    ensures MatchBracketGroup(t, i).None? && MatchPair(t, i).None?
  {
    SpaceClasses();
    RunIs(t, i, i, NonSpace);
  }

  /** The runs the pair alternative measures over `word tag` followed by a space. */
  lemma LeafRuns(t: string, i: nat, w: string, g: string)
    requires IsToken(w) && IsToken(g) && At(t, i, w + [' '] + g)
    requires i + |w| + 1 + |g| < |t| && t[i + |w| + 1 + |g|] == ' '
    ensures var a := i + |w|;
            var e := a + 1 + |g|;
            && Run(t, i, NonSpace) == a && Run(t, a, Space) == a + 1 && Run(t, a + 1, NonSpace) == e
            && IsWordChar(t[i]) && IsWordChar(t[e - 1])
            && t[i..a] == w && t[a + 1..e] == g
  {
    var a := i + |w|;
    var e := a + 1 + |g|;
    AtSep(t, i, w, ' ', g);
    WordsAreWider(w);
    WordsAreWider(g);
    AtAll(t, i, w, NonSpace);
    AtAll(t, a + 1, g, NonSpace);
    AtAll(t, i, w, Word);
    AtAll(t, a + 1, g, Word);
    SpaceClasses();
    RunIs(t, i, a, NonSpace);
    RunIs(t, a + 1, e, NonSpace);
    WordCharClasses(t[a + 1]);
    RunIs(t, a, a + 1, Space);
    AtSlice(t, i, w);
    AtSlice(t, a + 1, g);
  }

  /** The pair alternative reads a leaf's `word tag` text, preceded by the start or a
      space and followed by a space, as exactly that leaf. */
  lemma LeafPair(t: string, i: nat, e: Node)
    requires WfLeaf(e) && At(t, i, NodeStr(e)) && (i == 0 || t[i - 1] == ' ')
    requires i + |NodeStr(e)| < |t| && t[i + |NodeStr(e)|] == ' '
    ensures MatchBracketGroup(t, i).None?
    ensures MatchPair(t, i) == Some(PairMatch(e.word, e.tag, i + |NodeStr(e)|))
  {
    LeafRuns(t, i, e.word, e.tag);
    PairAt(t, i, i + |e.word|, i + |e.word| + 1 + |e.tag|);
  }

  /** The pair alternative at `i` over a non-space run up to `a`, one space, and a
      non-space run up to `e`, where the first and the last character are word
      characters and a space follows. */
  lemma PairAt(t: string, i: nat, a: nat, e: nat)
    requires i < a && a + 1 < e < |t| && t[e] == ' ' && (i == 0 || t[i - 1] == ' ')
    requires Run(t, i, NonSpace) == a && Run(t, a, Space) == a + 1 && Run(t, a + 1, NonSpace) == e
    requires IsWordChar(t[i]) && IsWordChar(t[e - 1])
    ensures MatchBracketGroup(t, i).None?
    ensures MatchPair(t, i) == Some(PairMatch(t[i..a], t[a + 1..e], e))
  {
    SpaceClasses();
    WordCharClasses(t[i]);
    assert IsBoundary(t, e);
    assert LastBoundary(t, a + 1, e) == Some(e);
  }

  /** The bracket alternative reads a nested phrase's text as its group. */
  lemma BracketAt(t: string, i: nat, e: Node)
    requires e.Phrase? && WfChild(e) && At(t, i, NodeStr(e))
    ensures MatchBracketGroup(t, i) == Some(i + |NodeStr(e)|)
    ensures t[i + 1..i + |NodeStr(e)| - 1] == GroupOf(e)
  {
    var g := GroupOf(e);
    PhraseText(e);
    AtBracket(t, i, g);
    ChildText(e);
    AtAll(t, i + 1, g, GroupChar);
    RunIs(t, i + 1, i + 1 + |g|, GroupChar);
    AtSlice(t, i + 1, g);
  }

  /** `split(maxsplit=1)` read off the three runs it measures. */
  lemma SplitAt(s: string, j: nat, k: nat)
    requires Run(s, 0, Space) == 0 && Run(s, 0, NonSpace) == j && Run(s, j, Space) == k
    requires 0 < j && k < |s|
    ensures SplitLabel(s) == Ok((s[0..j], s[k..]))
  {
  }

  /** The runs `split(maxsplit=1)` measures over a well-formed phrase's group text: its
      label, one space, and the spaced text of its children. */
  lemma GroupRuns(p: Node)
    requires WfGroup(p)
    ensures var g := GroupOf(p);
            var j := |p.category|;
            && j + 1 < |g| && Run(g, 0, Space) == 0 && Run(g, 0, NonSpace) == j && Run(g, j, Space) == j + 1
            && g[0..j] == p.category && g[j + 1..] == Spaced(p.elements)
  {
    var g := GroupOf(p);
    var c := p.category;
    var es := p.elements;
    var t := Spaced(es);
    var j := |c|;
    AtWhole(g);
    AtSep(g, 0, c, ' ', t);
    WordCharClasses(g[0]);
    RunIs(g, 0, 0, Space);
    WordsAreWider(c);
    AtAll(g, 0, c, NonSpace);
    SpaceClasses();
    RunIs(g, 0, j, NonSpace);
    FirstChar(es);
    AtHead(g, j + 1, t);
    if es[0].Terminal? {
      WordCharClasses(g[j + 1]);
    }
    RunIs(g, j, j + 1, Space);
    AtSlice(g, 0, c);
    AtSlice(g, j + 1, t);
  }

  /** `split(maxsplit=1)` of a well-formed phrase's group text gives its label and the
      spaced text of its children. */
  lemma SplitGroup(p: Node)
    requires WfGroup(p)
    ensures SplitLabel(GroupOf(p)) == Ok((p.category, Spaced(p.elements)))
  {
    GroupRuns(p);
    SplitAt(GroupOf(p), |p.category|, |p.category| + 1);
  }

  /** The text of `e` stands at index `i` of `t`, after the start or a space, and a space
      follows it. */
  predicate Slot(t: string, i: nat, e: Node) {
    && At(t, i, NodeStr(e)) && i + |NodeStr(e)| < |t| && t[i + |NodeStr(e)|] == ' '
    && (i == 0 || t[i - 1] == ' ')
  }

  /** A leaf's text, read by the `re.finditer` loop together with the space after it. */
  lemma ScanLeafStep(t: string, i: nat, e: Node)
    requires NoEmptyGroup(t) && WfLeaf(e) && Slot(t, i, e)
    ensures ScanContent(t, i) == Prepend(e, ScanContent(t, i + |NodeStr(e)| + 1))
  {
    LeafPair(t, i, e);
    ScanSpaceStep(t, i + |NodeStr(e)|);
    ScanPairStep(t, i, PairMatch(e.word, e.tag, i + |NodeStr(e)|));
  }

  /** A nested phrase's text, read by the `re.finditer` loop together with the space
      after it, given that its group text decodes back to it. */
  lemma ScanPhraseStep(t: string, i: nat, e: Node)
    requires NoEmptyGroup(t) && e.Phrase? && WfChild(e) && Slot(t, i, e)
    requires NoEmptyGroup(GroupOf(e)) && ParsePhrase(GroupOf(e)) == Ok(e)
    ensures ScanContent(t, i) == Prepend(e, ScanContent(t, i + |NodeStr(e)| + 1))
  {
    BracketAt(t, i, e);
    ScanSpaceStep(t, i + |NodeStr(e)|);
    ScanGroupStep(t, i, i + |NodeStr(e)|, e);
  }

  /** The nested phrase at `i` has a group text free of empty groups. */
  lemma NestedNoEmpty(t: string, i: nat, e: Node)
    requires NoEmptyGroup(t) && e.Phrase? && WfChild(e) && At(t, i, NodeStr(e))
    ensures NoEmptyGroup(GroupOf(e))
  {
    BracketAt(t, i, e);
    NoEmptyGroupSlice(t, i + 1, i + |NodeStr(e)| - 1);
  }

  /** The `re.finditer` loop reads one well-formed child's text and the space after it
      as that child. */
  lemma ScanStep(t: string, i: nat, e: Node)
    requires NoEmptyGroup(t) && WfChild(e) && Slot(t, i, e)
    ensures ScanContent(t, i) == Prepend(e, ScanContent(t, i + |NodeStr(e)| + 1))
    decreases e, 2
  {
    if e.Terminal? {
      ScanLeafStep(t, i, e);
    } else {
      NestedNoEmpty(t, i, e);
      ParseGroup(e);
      ScanPhraseStep(t, i, e);
    }
  }

  /** The texts of `es` stand one after another from index `i` of `t` on, each in its
      slot, and fill `t` to the end. */
  predicate Laid(t: string, i: nat, es: seq<Node>)
    decreases |es|
  {
    if |es| == 0 then i == |t|
    else Slot(t, i, es[0]) && Laid(t, i + |NodeStr(es[0])| + 1, es[1..])
  }

  /** The spaced text of `es`, standing at the start or after a space and running to the
      end of `t`, lays the children out slot by slot. */
  lemma {:induction false} SpacedLaid(t: string, i: nat, es: seq<Node>)
    requires At(t, i, Spaced(es)) && i + |Spaced(es)| == |t| && (i == 0 || t[i - 1] == ' ')
    ensures Laid(t, i, es)
    decreases |es|
  {
    if |es| > 0 {
      AtSep(t, i, NodeStr(es[0]), ' ', Spaced(es[1..]));
      SpacedLaid(t, i + |NodeStr(es[0])| + 1, es[1..]);
    }
  }

  /** The `re.finditer` loop over well-formed children laid out slot by slot decodes
      exactly those children. */
  lemma {:induction false} ScanElements(t: string, i: nat, es: seq<Node>)
    requires NoEmptyGroup(t) && forall k :: 0 <= k < |es| ==> WfChild(es[k])
    requires i <= |t| && Laid(t, i, es)
    ensures ScanContent(t, i) == Ok(es)
    decreases es, 0
  {
    if |es| > 0 {
      ScanStep(t, i, es[0]);
      ScanElements(t, i + |NodeStr(es[0])| + 1, es[1..]);
      PrependCons(es, ScanContent(t, i + |NodeStr(es[0])| + 1));
    }
  }

  /** Decoding the first of `es` in front of a scan that decodes the rest of `es`
      decodes all of `es`. */
  lemma PrependCons(es: seq<Node>, r: Result<seq<Node>>)
    requires 0 < |es| && r == Ok(es[1..])
    ensures Prepend(es[0], r) == Ok(es)
  {
    assert [es[0]] + es[1..] == es;
  }

  /** `_parse_phrase` decodes a well-formed phrase's group text back to the phrase. */
  lemma ParseGroup(p: Node)
    requires WfGroup(p) && NoEmptyGroup(GroupOf(p))
    ensures ParsePhrase(GroupOf(p)) == Ok(p)
    decreases p, 1
  {
    var g := GroupOf(p);
    var t := Spaced(p.elements);
    SplitGroup(p);
    NoEmptyGroupSuffix(g, |g| - |t|);
    AtWhole(t);
    SpacedLaid(t, 0, p.elements);
    ScanElements(t, 0, p.elements);
  }

  /* --------------------------------------------------------------- the round trip */

  lemma {:induction false} GroupsAt(ps: seq<Node>)
    requires forall i :: 0 <= i < |ps| ==> ps[i].Phrase?
    ensures forall i :: 0 <= i < |ps| ==> Groups(ps)[i] == GroupOf(ps[i])
  {
    if |ps| > 0 {
      GroupsAt(ps[1..]);
      assert forall i :: 1 <= i < |ps| ==> ps[i] == ps[1..][i - 1];
    }
  }

  /** The list comprehension of `_parse_from_string` decodes the group texts of
      well-formed top-level phrases back to those phrases. */
  lemma ParseGroups(ps: seq<Node>, gs: seq<string>)
    requires WfSentence(ps) && gs == Groups(ps)
    requires forall i :: 0 <= i < |gs| ==> NoEmptyGroup(gs[i])
    ensures ParseAll(gs) == Ok(ps)
  {
    GroupsAt(ps);
    forall i | 0 <= i < |ps|
      ensures ParsePhrase(gs[i]) == Ok(ps[i])
    {
      ParseGroup(ps[i]);
    }
    ParseAllOk(gs, ps);
  }

  /** The list comprehension yields the decoded phrases when every group decodes. */
  lemma ParseAllOk(gs: seq<string>, ns: seq<Node>)
    requires forall i :: 0 <= i < |gs| ==> NoEmptyGroup(gs[i])
    requires |ns| == |gs| && forall i :: 0 <= i < |gs| ==> ParsePhrase(gs[i]) == Ok(ns[i])
    ensures ParseAll(gs) == Ok(ns)
  {
    var r := ParseAll(gs);
    assert r.Ok?;
    assert forall i :: 0 <= i < |ns| ==> r.value[i] == ns[i];
    assert r.value == ns;
  }

  /** Decoding the string form of well-formed phrases gives back exactly those phrases,
      in order. */
  lemma RoundTrip(ps: seq<Node>)
    requires WfSentence(ps)
    ensures ParseSentence(JoinStr(ps)) == Ok(ps)
  {
    AtWhole(JoinStr(ps));
    FindAllJoin(JoinStr(ps), 0, ps);
    FindAllShape(JoinStr(ps), 0);
    AllTopGroupsAt(FindAll(JoinStr(ps)));
    ParseGroups(ps, FindAll(JoinStr(ps)));
  }

  /** `IceNLPySentence(str(sentence))` rebuilds the sentence, for a sentence of
      well-formed phrases. */
  lemma SentenceRoundTrip(ps: seq<Node>)
    requires WfSentence(ps)
    ensures NewSentence(Text(SentenceStr(Sentence(ps)))) == Ok(Sentence(ps))
  {
    RoundTrip(ps);
  }

  /** A string that is the string form of a sentence of well-formed phrases decodes, and
      the decoded sentence prints as that same string:
      `str(IceNLPySentence(s)) == s`. */
  lemma StrStable(s: string, ps: seq<Node>)
    requires WfSentence(ps) && s == SentenceStr(Sentence(ps))
    ensures NewSentence(Text(s)).Ok?
    ensures SentenceStr(NewSentence(Text(s)).value) == s
  {
    SentenceRoundTrip(ps);
  }

  /* ----------------------------------------------------------------- repr forms */

  /** `repr` of a phrase is its string, so `IceNLPySentence(repr(p))` holds exactly the
      phrase `p`, for a well-formed top-level phrase. */
  lemma PhraseReprDecodes(p: Node)
    requires WfTop(p)
    ensures NewSentence(Text(NodeRepr(p))) == Ok(Sentence([p]))
  {
    assert JoinStr([p]) == NodeRepr(p);
    SentenceRoundTrip([p]);
  }

  /** `repr` of a sentence is its string in one more pair of brackets. The top-level
      pattern does not match at the outer `[`, which a `[` or `]` follows, so
      `re.findall` finds the phrases inside it and `IceNLPySentence(repr(s))` rebuilds
      `s`, for a sentence of well-formed phrases. */
  lemma SentenceReprDecodes(ps: seq<Node>)
    requires WfSentence(ps)
    ensures NewSentence(Text(SentenceRepr(Sentence(ps)))) == Ok(Sentence(ps))
  {
    var s := SentenceRepr(Sentence(ps));
    ReprText(ps);
    ReprNoMatch(s);
    ReprFind(s, ps);
    FindAllShape(s, 0);
    AllTopGroupsAt(FindAll(s));
    ParseGroups(ps, FindAll(s));
  }

  /** The layout of a sentence's repr: `[`, the joined phrases, which open with `[`
      when there are any, and `]`. */
  lemma ReprText(ps: seq<Node>)
    requires WfSentence(ps)
    ensures var s := SentenceRepr(Sentence(ps));
            && |s| == |JoinStr(ps)| + 2 && s[0] == '[' && (s[1] == '[' || s[1] == ']')
            && At(s, 1, JoinStr(ps)) && s[|s| - 1] == ']'
  {
    if 0 < |ps| {
      assert NodeStr(ps[0])[0] == '[';
      if 1 < |ps| {
        assert JoinStr(ps) == NodeStr(ps[0]) + " " + JoinStr(ps[1..]);
      }
    }
  }

  /** The top-level pattern needs a word character after its `[`. */
  lemma ReprNoMatch(s: string)
    requires 1 < |s| && s[0] == '[' && (s[1] == '[' || s[1] == ']')
    ensures MatchTop(s, 0).None?
  {
  }

  /** `re.findall` over a repr passes over the outer `[` and finds the phrases' groups
      inside it. */
  lemma ReprFind(s: string, ps: seq<Node>)
    requires WfSentence(ps) && |s| == |JoinStr(ps)| + 2 && At(s, 1, JoinStr(ps)) && s[|s| - 1] == ']'
    requires MatchTop(s, 0).None?
    ensures FindAll(s) == Groups(ps)
  {
    FindAllNoMatch(s, 0);
    FindAllJoin(s, 1, ps);
  }

  /* ------------------------------------------------------ outside the round trip */

  /** The text of a phrase whose children are the phrases `ps`, followed by `tail`:
      `[`, the category, one space, the children's joined text, which opens with `[`,
      ` ]`, and the tail. */
  lemma OuterText(c: string, ps: seq<Node>, tail: string)
    requires 0 < |ps| && ps[0].Phrase?
    ensures var s := NodeStr(Phrase(c, ps)) + tail;
            && |s| == |c| + |JoinStr(ps)| + 4 + |tail| && s[0] == '[' && At(s, 1, c) && s[|c| + 1] == ' '
            && s[|c| + 2] == '[' && At(s, |c| + 2, JoinStr(ps))
            && s[|c| + 2 + |JoinStr(ps)|] == ' ' && s[|c| + 3 + |JoinStr(ps)|] == ']'
            && At(s, |c| + 4 + |JoinStr(ps)|, tail)
  {
    assert NodeStr(ps[0])[0] == '[';
    if 1 < |ps| {
      assert JoinStr(ps) == NodeStr(ps[0]) + " " + JoinStr(ps[1..]);
    }
  }

  /** The top-level pattern needs a non-bracket character after the category, so it
      does not match at a phrase whose first child is a phrase. */
  lemma OuterNoMatch(s: string, c: string)
    requires IsToken(c) && |c| + 2 < |s| && s[0] == '[' && At(s, 1, c) && s[|c| + 1] == ' ' && s[|c| + 2] == '['
    ensures MatchTop(s, 0).None?
    ensures forall m :: 1 <= m < |c| + 2 ==> s[m] != '['
  {
    AtAll(s, 1, c, Word);
    SpaceClasses();
    RunIs(s, 1, |c| + 1, Word);
    forall m | 1 <= m < |c| + 1
      ensures s[m] != '['
    {
      WordCharClasses(s[m]);
    }
  }

  /** `re.findall` passes over an opening `[`, a category and a space that are
      followed by another `[`. */
  lemma OuterSkip(s: string, c: string)
    requires IsToken(c) && |c| + 2 < |s| && s[0] == '[' && At(s, 1, c) && s[|c| + 1] == ' ' && s[|c| + 2] == '['
    ensures FindAllFrom(s, 0) == FindAllFrom(s, |c| + 2)
  {
    OuterNoMatch(s, c);
    FindAllNoMatch(s, 0);
    FindAllSkips(s, 1, |c| + 2);
  }

  /** The depth limit of the top-level pattern: in the text of a phrase whose
      children are all well-formed phrases, followed by text without `[`,
      `re.findall` passes over the outer phrase and finds its children, so the decoded
      sentence holds the children in its place and the outer category is lost. */
  lemma OuterPhraseDropped(c: string, ps: seq<Node>, tail: string)
    requires IsToken(c) && 0 < |ps| && WfSentence(ps)
    requires forall m :: 0 <= m < |tail| ==> tail[m] != '['
    ensures NewSentence(Text(NodeStr(Phrase(c, ps)) + tail)) == Ok(Sentence(ps))
  {
    OuterText(c, ps, tail);
    OuterSkip(NodeStr(Phrase(c, ps)) + tail, c);
    OuterTail(NodeStr(Phrase(c, ps)) + tail, |c| + 2 + |JoinStr(ps)|, tail);
    FindAllJoin(NodeStr(Phrase(c, ps)) + tail, |c| + 2, ps);
    FindAllShape(NodeStr(Phrase(c, ps)) + tail, 0);
    AllTopGroupsAt(FindAll(NodeStr(Phrase(c, ps)) + tail));
    ParseGroups(ps, FindAll(NodeStr(Phrase(c, ps)) + tail));
  }

  /** What follows the children's text, ` ]` and a tail without `[`, holds no `[`. */
  lemma OuterTail(s: string, e: nat, tail: string)
    requires e + 2 + |tail| == |s| && s[e] == ' ' && s[e + 1] == ']' && At(s, e + 2, tail)
    requires forall m :: 0 <= m < |tail| ==> tail[m] != '['
    ensures forall m :: e <= m < |s| ==> s[m] != '['
  {
    forall m | e + 2 <= m < |s|
      ensures s[m] != '['
    {
      assert s[m] == tail[m - e - 2];
    }
  }

  /** The text of an empty phrase, `[c  ]`, is found by the top-level pattern (the
      second space passes for its content), but its group holds one token only, so
      `split(maxsplit=1)` fails: a sentence with an empty phrase does not decode. */
  lemma EmptyPhraseLost(c: string)
    requires IsToken(c)
    ensures NewSentence(Text(NodeStr(Phrase(c, [])))) == Err(ValueError)
  {
    EmptyPhraseStr(c);
    EmptyText(c);
    EmptyFind("[" + c + "  ]", c);
    EmptySplit(c);
  }

  lemma EmptyText(c: string)
    ensures var s := "[" + c + "  ]";
            && |s| == |c| + 4 && s[0] == '[' && At(s, 1, c) && s[|c| + 1] == ' ' && s[|c| + 2] == ' '
            && s[|c| + 3] == ']' && s[1..|c| + 3] == c + "  "
  {
  }

  /** `re.findall` on `[c  ]` yields the single group `c` followed by two spaces. */
  lemma EmptyFind(s: string, c: string)
    requires IsToken(c)
    requires |s| == |c| + 4 && s[0] == '[' && At(s, 1, c) && s[|c| + 1] == ' ' && s[|c| + 2] == ' ' && s[|c| + 3] == ']'
    ensures FindAllFrom(s, 0) == [s[1..|c| + 3]]
  {
    AtAll(s, 1, c, Word);
    SpaceClasses();
    RunIs(s, 1, |c| + 1, Word);
    RunIs(s, |c| + 2, |c| + 3, NonBracket);
    FindAllMatch(s, 0, |c| + 4);
  }
  /** `c` followed by two spaces is one token: `split(maxsplit=1)` raises ValueError. */
  lemma EmptySplit(c: string)
    requires IsToken(c)
    ensures SplitLabel(c + "  ").Err?
  {
    WordsAreWider(c);
    WordCharClasses(c[0]);
    AtWhole(c + "  ");
    AtAll(c + "  ", 0, c, NonSpace);
    SpaceClasses();
    RunIs(c + "  ", 0, 0, Space);
    RunIs(c + "  ", 0, |c|, NonSpace);
    RunIs(c + "  ", |c|, |c| + 2, Space);
  }
}
