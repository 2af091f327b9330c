/** The tree model of `src/icenlpy/tree.py`: terminal (word, tag) leaves, labelled
    phrases with an ordered list of children, and the sentence as an ordered list of
    top-level phrases; plus the checked ways of building them (`add_child`,
    `add_children`, the `Phrase` and sentence constructors). */
module Tree {

  /** `TerminalNode` and `Phrase`; a phrase's `category` is the attribute Python calls `label`. */
  datatype Node =
    | Terminal(word: string, tag: string)
    | Phrase(category: string, elements: seq<Node>)

  /** A Python value handed to one of the checked builders: an object of one of the
      two node classes, or an object of any other class. */
  datatype Value = NodeValue(node: Node) | Foreign

  /** The two exceptions the tree module raises. */
  datatype Error = TypeError | ValueError

  datatype Result<+T> = Ok(value: T) | Err(error: Error) {
    predicate IsFailure() {
      Err?
    }

    function PropagateFailure<U>(): Result<U>
      requires Err?
    {
      Err(error)
    }

    function Extract(): T
      requires Ok?
    {
      value
    }
  }

  /** Whether a mutating call returned normally or raised. */
  datatype Outcome = Pass | Fail(error: Error)

  /** `IceNLPySentence`: its `phrases` list. */
  datatype Sentence = Sentence(phrases: seq<Node>)

  /** The nodes of the longest prefix of `vs` that holds only node objects. */
  function LeadingNodes(vs: seq<Value>): (ns: seq<Node>)
    ensures |ns| <= |vs|
    ensures forall i :: 0 <= i < |ns| ==> vs[i] == NodeValue(ns[i])
    ensures |ns| < |vs| ==> vs[|ns|] == Foreign
  {
    if |vs| == 0 || vs[0].Foreign? then [] else [vs[0].node] + LeadingNodes(vs[1..])
  }

  /** `Phrase.add_child`: a node is appended after the existing children; any other
      value raises TypeError and leaves the phrase as it was. The phrase is passed in
      and handed back, since the model has no mutable objects. */
  function AddChild(p: Node, v: Value): (r: (Node, Outcome))
    requires p.Phrase?
    ensures r.0.Phrase? && r.0.category == p.category
    ensures r.1 == Pass <==> v.NodeValue?
    ensures r.1 == Pass ==>
              && |r.0.elements| == |p.elements| + 1
              && r.0.elements[..|p.elements|] == p.elements
              && NodeValue(r.0.elements[|p.elements|]) == v
    ensures r.1 != Pass ==> r.1 == Fail(TypeError) && r.0 == p
  {
    if v.NodeValue? then (Phrase(p.category, p.elements + [v.node]), Pass)
    else (p, Fail(TypeError))
  }

  /** `Phrase.add_children`: `add_child` on each value in turn. A non-node value raises
      TypeError, and the children appended before it stay appended. */
  function AddChildren(p: Node, vs: seq<Value>): (r: (Node, Outcome))
    requires p.Phrase?
    ensures r.0.Phrase? && r.0.category == p.category
    ensures r.0.elements == p.elements + LeadingNodes(vs)
    ensures r.1 == Pass <==> forall i :: 0 <= i < |vs| ==> vs[i].NodeValue?
    ensures r.1 != Pass ==> r.1 == Fail(TypeError)
    decreases |vs|
  {
    if |vs| == 0 then (p, Pass)
    else if vs[0].Foreign? then AddChild(p, vs[0])
    else
      var q := AddChild(p, vs[0]).0;
      assert q.elements == p.elements + [vs[0].node];
      assert LeadingNodes(vs) == [vs[0].node] + LeadingNodes(vs[1..]);
      assert (forall i :: 0 <= i < |vs| ==> vs[i].NodeValue?)
          <==> (forall i :: 0 <= i < |vs| - 1 ==> vs[1..][i].NodeValue?);
      AddChildren(q, vs[1..])
  }

  /** `Phrase(label, elements)`: starts with no children and adds `elements` through
      `add_child`, so a non-node value makes the constructor raise TypeError and no
      phrase is produced. Python's default `elements=None` is the empty sequence here. */
  function NewPhrase(category: string, elements: seq<Value>): (r: Result<Node>)
    ensures r.Ok? <==> forall i :: 0 <= i < |elements| ==> elements[i].NodeValue?
    ensures r.Ok? ==>
              && r.value.Phrase? && r.value.category == category
              && |r.value.elements| == |elements|
              && forall i :: 0 <= i < |elements| ==> elements[i] == NodeValue(r.value.elements[i])
    ensures r.Err? ==> r.error == TypeError
  {
    var (p, o) := AddChildren(Phrase(category, []), elements);
    if o.Fail? then Err(o.error) else Ok(p)
  }

  /** `IceNLPySentence(input_data)` for a list: the list itself becomes `phrases` when
      every item is a `Phrase`; otherwise ValueError. */
  function FromItems(items: seq<Value>): (r: Result<Sentence>)
    ensures r.Ok? <==> forall i :: 0 <= i < |items| ==> items[i].NodeValue? && items[i].node.Phrase?
    ensures r.Ok? ==>
              && |r.value.phrases| == |items|
              && forall i :: 0 <= i < |items| ==> items[i] == NodeValue(r.value.phrases[i])
    ensures r.Err? ==> r.error == ValueError
  {
    if forall i :: 0 <= i < |items| ==> items[i].NodeValue? && items[i].node.Phrase? then
      Ok(Sentence(seq(|items|, i requires 0 <= i < |items| => items[i].node)))
    else
      Err(ValueError)
  }

  /** The nodes `ns`, each handed over as a Python object. */
  function Values(ns: seq<Node>): (vs: seq<Value>)
    ensures |vs| == |ns| && forall i :: 0 <= i < |ns| ==> vs[i] == NodeValue(ns[i])
  {
    seq(|ns|, i requires 0 <= i < |ns| => NodeValue(ns[i]))
  }

  /** `Phrase(label, elements)` over node objects always succeeds and holds exactly
      those nodes, in order. */
  lemma PhraseOfNodes(category: string, ns: seq<Node>)
    ensures NewPhrase(category, Values(ns)) == Ok(Phrase(category, ns))
  {
    var r := NewPhrase(category, Values(ns));
    assert r.value.elements == ns;
  }

  /** `IceNLPySentence(list)` over phrase objects always succeeds and holds exactly those
      phrases, in order. */
  lemma SentenceOfPhrases(ps: seq<Node>)
    requires forall i :: 0 <= i < |ps| ==> ps[i].Phrase?
    ensures FromItems(Values(ps)) == Ok(Sentence(ps))
  {
    var r := FromItems(Values(ps));
    assert r.value.phrases == ps;
  }
}
