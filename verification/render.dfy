/** The flat bracket notation written by `__str__` and `__repr__` of the three tree
    classes. */
module Render {
  import opened Tree

  /** `TerminalNode.__str__` and `Phrase.__str__`: `word tag`, and
      `[category child child ... ]` with a space before the closing bracket. */
  function NodeStr(n: Node): string
    decreases n, 1
  {
    match n
    case Terminal(w, t) => w + " " + t
    case Phrase(c, es) => "[" + c + " " + JoinStr(es) + " ]"
  }

  /** `" ".join(str(e) for e in ns)`. */
  function JoinStr(ns: seq<Node>): string
    decreases ns, 0
  {
    if |ns| == 0 then ""
    else if |ns| == 1 then NodeStr(ns[0])
    else NodeStr(ns[0]) + " " + JoinStr(ns[1..])
  }

  /** `__repr__`: a terminal shows as `(word, tag)`; a phrase's repr is its str. */
  function NodeRepr(n: Node): string {
    match n
    case Terminal(w, t) => "(" + w + ", " + t + ")"
    case Phrase(_, _) => NodeStr(n)
  }

  /** `IceNLPySentence.__str__`: the phrases' strings joined by single spaces. */
  function SentenceStr(s: Sentence): string {
    JoinStr(s.phrases)
  }

  /** `IceNLPySentence.__repr__`: the str form inside one more pair of brackets. */
  function SentenceRepr(s: Sentence): string {
    "[" + SentenceStr(s) + "]"
  }

  /** Joining is associative over a split of the list: the two halves' strings meet at
      exactly one space. */
  lemma {:induction false} JoinAppend(a: seq<Node>, b: seq<Node>)
    requires |a| > 0 && |b| > 0
    ensures JoinStr(a + b) == JoinStr(a) + " " + JoinStr(b)
    decreases |a|
  {
    if |a| == 1 {
      assert (a + b)[1..] == b;
    } else {
      assert (a + b)[1..] == a[1..] + b;
      JoinAppend(a[1..], b);
    }
  }

  /** A phrase with no children renders with two spaces between the category and the
      closing bracket. */
  lemma EmptyPhraseStr(c: string)
    ensures NodeStr(Phrase(c, [])) == "[" + c + "  ]"
  {
  }

  /** Rendering after `add_child` inserts the new child's string (after one space, when
      there were children already) right before the closing ` ]`, and changes nothing
      else. */
  lemma AddChildStr(p: Node, child: Node)
    requires p.Phrase?
    ensures var q := AddChild(p, NodeValue(child)).0;
            var before := NodeStr(p);
            |before| >= 2 &&
            NodeStr(q) == before[..|before| - 2] + (if |p.elements| == 0 then "" else " ") + NodeStr(child) + " ]"
  {
    var q := AddChild(p, NodeValue(child)).0;
    assert q.elements == p.elements + [child];
    if |p.elements| > 0 {
      JoinAppend(p.elements, [child]);
    }
  }

  /** Two nodes join with one space between their strings. */
  lemma JoinPair(a: Node, b: Node)
    ensures JoinStr([a, b]) == NodeStr(a) + " " + NodeStr(b)
  {
    assert [a, b][1..] == [b];
  }
}
