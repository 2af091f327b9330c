/** The examples of the repository's tree tests, stated about the model: building
    phrases and sentences, their string forms, and decoding sentence strings. */
module TestVectors {
  import opened Tree
  import opened Render
  import opened Decoder
  import opened RoundTrip

  /* ------------------------------------------------------------------ building */

  /** `Phrase("NP")` followed by `add_child` of three terminals holds those terminals,
      in order, under the label `NP`. */
  lemma NounPhraseBuilt()
    ensures AddChildren(Phrase("NP", []), [NodeValue(Terminal("ein", "det")), NodeValue(Terminal("foven", "adj")),
                                           NodeValue(Terminal("setningin", "noun"))])
         == (Phrase("NP", [Terminal("ein", "det"), Terminal("foven", "adj"), Terminal("setningin", "noun")]), Pass)
  {
    var vs := [NodeValue(Terminal("ein", "det")), NodeValue(Terminal("foven", "adj")), NodeValue(Terminal("setningin", "noun"))];
    assert LeadingNodes(vs[2..]) == [Terminal("setningin", "noun")];
    assert LeadingNodes(vs[1..]) == [Terminal("foven", "adj"), Terminal("setningin", "noun")];
    assert LeadingNodes(vs) == [Terminal("ein", "det"), Terminal("foven", "adj"), Terminal("setningin", "noun")];
  }

  /** `add_child` of a string raises TypeError and leaves the phrase unchanged. */
  lemma InvalidChildRejected()
    ensures AddChild(Phrase("X", []), Foreign) == (Phrase("X", []), Fail(TypeError))
  {
  }

  /** A list of two phrases becomes the sentence's phrases, in order. */
  lemma SentenceFromPhrases()
    ensures var np := Phrase("NP", [Terminal("ein", "det"), Terminal("foven", "adj"), Terminal("setningin", "noun")]);
            var vp := Phrase("VP", [Terminal("kemur", "verb")]);
            NewSentence(Items([NodeValue(np), NodeValue(vp)])) == Ok(Sentence([np, vp]))
  {
    var np := Phrase("NP", [Terminal("ein", "det"), Terminal("foven", "adj"), Terminal("setningin", "noun")]);
    var vp := Phrase("VP", [Terminal("kemur", "verb")]);
    var r := FromItems([NodeValue(np), NodeValue(vp)]);
    assert r.Ok?;
    assert r.value.phrases == [np, vp];
  }

  /** A list holding something other than a phrase raises ValueError. */
  lemma SentenceFromForeignItem()
    ensures NewSentence(Items([Foreign, NodeValue(Phrase("NP", []))])) == Err(ValueError)
  {
    assert !([Foreign, NodeValue(Phrase("NP", []))][0].NodeValue?);
  }

  /* ------------------------------------------------------------ string forms */

  /** The string of a phrase of one terminal. */
  lemma OneLeafStr(c: string, w: string, g: string)
    ensures NodeStr(Phrase(c, [Terminal(w, g)])) == "[" + c + " " + w + " " + g + " ]"
  {
    assert JoinStr([Terminal(w, g)]) == w + " " + g;
  }

  /** The string of a phrase of two terminals. */
  lemma TwoLeavesStr(c: string, w1: string, g1: string, w2: string, g2: string)
    ensures NodeStr(Phrase(c, [Terminal(w1, g1), Terminal(w2, g2)])) == "[" + c + " " + w1 + " " + g1 + " " + w2 + " " + g2 + " ]"
  {
    JoinPair(Terminal(w1, g1), Terminal(w2, g2));
  }

  /** `repr` of a phrase built with `add_children`. */
  lemma PhraseReprExample()
    ensures var p := AddChildren(Phrase("NP", []), [NodeValue(Terminal("ein", "det")), NodeValue(Terminal("bók", "noun"))]).0;
            NodeRepr(p) == "[NP ein det bók noun ]"
  {
    var vs := [NodeValue(Terminal("ein", "det")), NodeValue(Terminal("bók", "noun"))];
    assert LeadingNodes(vs[1..]) == [Terminal("bók", "noun")];
    assert LeadingNodes(vs) == [Terminal("ein", "det"), Terminal("bók", "noun")];
    TwoLeavesStr("NP", "ein", "det", "bók", "noun");
    NounPhraseText();
  }

  lemma NounPhraseText()
    ensures "[" + "NP" + " " + "ein" + " " + "det" + " " + "bók" + " " + "noun" + " ]" == "[NP ein det bók noun ]"
  {
  }

  /** The body of the sentence `str` test: each phrase of `ps` is built by the `Phrase`
      constructor from its label and its children, the list of them by the sentence
      constructor, and the sentence's `str` is `expected`. */
  predicate PrintsAs(ps: seq<Node>, expected: string) {
    && (forall i :: 0 <= i < |ps| ==> ps[i].Phrase? && NewPhrase(ps[i].category, Values(ps[i].elements)) == Ok(ps[i]))
    && NewSentence(Items(Values(ps))) == Ok(Sentence(ps))
    && SentenceStr(Sentence(ps)) == expected
  }

  /** Both constructors accept phrases built from nodes, so a list of phrases prints as
      its string. */
  lemma Printed(ps: seq<Node>, expected: string)
    requires forall i :: 0 <= i < |ps| ==> ps[i].Phrase?
    requires SentenceStr(Sentence(ps)) == expected
    ensures PrintsAs(ps, expected)
  {
    forall i | 0 <= i < |ps|
      ensures NewPhrase(ps[i].category, Values(ps[i].elements)) == Ok(ps[i])
    {
      PhraseOfNodes(ps[i].category, ps[i].elements);
    }
    SentenceOfPhrases(ps);
  }

  /** `str` of sentences of empty phrases: two spaces before each closing bracket. */
  lemma EmptyPhrasesStr()
    ensures PrintsAs([Phrase("NP", []), Phrase("VP", [])], "[NP  ] [VP  ]")
    ensures PrintsAs([Phrase("NP", []), Phrase("VP", []), Phrase("PP", [])], "[NP  ] [VP  ] [PP  ]")
  {
    JoinPair(Phrase("NP", []), Phrase("VP", []));
    JoinPair(Phrase("VP", []), Phrase("PP", []));
    assert [Phrase("NP", []), Phrase("VP", []), Phrase("PP", [])][1..] == [Phrase("VP", []), Phrase("PP", [])];
    Printed([Phrase("NP", []), Phrase("VP", [])], "[NP  ] [VP  ]");
    Printed([Phrase("NP", []), Phrase("VP", []), Phrase("PP", [])], "[NP  ] [VP  ] [PP  ]");
  }

  /** `str` of a sentence of one phrase of one terminal. */
  lemma OnePhraseStr()
    ensures PrintsAs([Phrase("NP", [Terminal("ein", "det")])], "[NP ein det ]")
  {
    OneLeafStr("NP", "ein", "det");
    Printed([Phrase("NP", [Terminal("ein", "det")])], "[NP ein det ]");
  }

  /** `str` of a sentence of two phrases of one terminal each. */
  lemma TwoPhrasesStr()
    ensures PrintsAs([Phrase("NP", [Terminal("ein", "det")]), Phrase("VP", [Terminal("kemur", "verb")])],
                     "[NP ein det ] [VP kemur verb ]")
  {
    JoinPair(Phrase("NP", [Terminal("ein", "det")]), Phrase("VP", [Terminal("kemur", "verb")]));
    OneLeafStr("NP", "ein", "det");
    OneLeafStr("VP", "kemur", "verb");
    TwoPhrasesText();
    Printed([Phrase("NP", [Terminal("ein", "det")]), Phrase("VP", [Terminal("kemur", "verb")])],
            "[NP ein det ] [VP kemur verb ]");
  }

  lemma TwoPhrasesText()
    ensures ("[" + "NP" + " " + "ein" + " " + "det" + " ]") + " " + ("[" + "VP" + " " + "kemur" + " " + "verb" + " ]")
         == "[NP ein det ] [VP kemur verb ]"
  {
    NounLeafText();
    VerbLeafText();
  }

  lemma NounLeafText()
    ensures "[" + "NP" + " " + "ein" + " " + "det" + " ]" == "[NP ein det ]"
  {
  }

  lemma VerbLeafText()
    ensures "[" + "VP" + " " + "kemur" + " " + "verb" + " ]" == "[VP kemur verb ]"
  {
  }

  /** The sentence of the nested example: a noun phrase holding a terminal and a
      prepositional phrase, and a verb phrase. */
  function NestedExample(): seq<Node> {
    [Phrase("NP", [Terminal("ein", "det"), Phrase("PP", [Terminal("í", "prep"), Terminal("bók", "noun")])]),
     Phrase("VP", [Terminal("kemur", "verb")])]
  }

  /** `str` of the nested example. */
  lemma NestedStr()
    ensures SentenceStr(Sentence(NestedExample())) == "[NP ein det [PP í prep bók noun ] ] [VP kemur verb ]"
    ensures var pp := NestedExample()[0].elements[1];
            NewPhrase(pp.category, Values(pp.elements)) == Ok(pp)
    ensures PrintsAs(NestedExample(), "[NP ein det [PP í prep bók noun ] ] [VP kemur verb ]")
  {
    var np := NestedExample()[0];
    var vp := NestedExample()[1];
    NestedNounPhraseStr();
    OneLeafStr("VP", "kemur", "verb");
    JoinPair(np, vp);
    NestedText();
    PhraseOfNodes("PP", np.elements[1].elements);
    Printed(NestedExample(), "[NP ein det [PP í prep bók noun ] ] [VP kemur verb ]");
  }

  lemma NestedText()
    ensures "[NP ein det [PP í prep bók noun ] ]" + " " + ("[" + "VP" + " " + "kemur" + " " + "verb" + " ]")
         == "[NP ein det [PP í prep bók noun ] ] [VP kemur verb ]"
  {
    VerbLeafText();
  }

  /** `str` of the nested example's noun phrase. */
  lemma NestedNounPhraseStr()
    ensures NodeStr(NestedExample()[0]) == "[NP ein det [PP í prep bók noun ] ]"
  {
    var pp := Phrase("PP", [Terminal("í", "prep"), Terminal("bók", "noun")]);
    TwoLeavesStr("PP", "í", "prep", "bók", "noun");
    PrepPhraseText();
    JoinPair(Terminal("ein", "det"), pp);
    NestedNounPhraseText();
  }

  lemma PrepPhraseText()
    ensures "[" + "PP" + " " + "í" + " " + "prep" + " " + "bók" + " " + "noun" + " ]" == "[PP í prep bók noun ]"
  {
  }

  lemma NestedNounPhraseText()
    ensures "[" + "NP" + " " + ("ein" + " " + "det" + " " + "[PP í prep bók noun ]") + " ]"
         == "[NP ein det [PP í prep bók noun ] ]"
  {
    NounPrefixText("[PP í prep bók noun ]");
  }

  lemma NounPrefixText(p: string)
    ensures "[" + "NP" + " " + ("ein" + " " + "det" + " " + p) + " ]" == "[NP ein det " + p + " ]"
  {
  }

  /* ------------------------------------------------------------------ decoding */

  /** The labels, words and tags of the examples are runs of word characters
      (`í` and `ó` are Latin-1 letters). */
  lemma ExampleTokens()
    ensures IsToken("NP") && IsToken("PP") && IsToken("VP")
    ensures IsToken("ein") && IsToken("det") && IsToken("í") && IsToken("prep")
    ensures IsToken("bók") && IsToken("noun") && IsToken("kemur") && IsToken("verb")
  {
  }

  /** The example phrases are well formed. */
  lemma ExamplesWellFormed()
    ensures WfTop(Phrase("NP", [Terminal("ein", "det"), Terminal("bók", "noun")]))
    ensures WfTop(NestedExample()[0]) && WfTop(NestedExample()[1])
  {
    ExampleTokens();
    var pp := NestedExample()[0].elements[1];
    assert WfChild(pp) by {
      assert WfLeaf(pp.elements[0]) && WfLeaf(pp.elements[1]);
    }
  }

  /** `IceNLPySentence("[NP ein det bók noun ]")` holds one noun phrase of two
      terminals. */
  lemma DecodeNounPhrase()
    ensures NewSentence(Text("[NP ein det bók noun ]"))
         == Ok(Sentence([Phrase("NP", [Terminal("ein", "det"), Terminal("bók", "noun")])]))
  {
    ExamplesWellFormed();
    TwoLeavesStr("NP", "ein", "det", "bók", "noun");
    NounPhraseText();
    SentenceRoundTrip([Phrase("NP", [Terminal("ein", "det"), Terminal("bók", "noun")])]);
  }

  /** `IceNLPySentence("[NP ein det [PP í prep bók noun ] ]")` holds one noun phrase
      whose second child is a prepositional phrase of two terminals. */
  lemma DecodeNestedPhrase()
    ensures NewSentence(Text("[NP ein det [PP í prep bók noun ] ]")) == Ok(Sentence([NestedExample()[0]]))
  {
    ExamplesWellFormed();
    NestedNounPhraseStr();
    SentenceRoundTrip([NestedExample()[0]]);
  }

  /** `IceNLPySentence("[NP ein det [PP í prep bók noun ] ] [VP kemur verb ]")` holds
      the nested example. */
  lemma DecodeNestedSentence()
    ensures NewSentence(Text("[NP ein det [PP í prep bók noun ] ] [VP kemur verb ]")) == Ok(Sentence(NestedExample()))
  {
    ExamplesWellFormed();
    NestedStr();
    SentenceRoundTrip(NestedExample());
  }

  /** `IceNLPySentence("[NP  ]")`, the string of an empty phrase, raises ValueError. */
  lemma EmptyPhraseNotDecodable()
    ensures NewSentence(Text("[NP  ]")) == Err(ValueError)
  {
    assert IsToken("NP");
    EmptyPhraseLost("NP");
    EmptyNounPhraseText();
  }

  lemma EmptyNounPhraseText()
    ensures NodeStr(Phrase("NP", [])) == "[NP  ]"
  {
    EmptyPhraseStr("NP");
  }

  /** The children of a phrase of phrases. */
  function PromotedExample(): seq<Node> {
    [Phrase("NP", [Terminal("Hvað", "fshen")]), Phrase("CP", [Terminal("heldur", "c")]), Phrase("NP", [Terminal("þú", "fp2en")])]
  }

  /** A line of the parser's output whose `NPs` phrase holds three phrases (written
      here phrase by phrase): the decoded sentence holds those three phrases, and `NPs`
      is lost; the trailing punctuation is not inside any phrase and is dropped. */
  lemma PromotedChildren()
    ensures NewSentence(Text("[NPs " + "[NP Hvað fshen ]" + " " + "[CP heldur c ]" + " " + "[NP þú fp2en ]" + " ] ? ? \n"))
         == Ok(Sentence(PromotedExample()))
  {
    PromotedWellFormed();
    OuterPhraseDropped("NPs", PromotedExample(), " ? ? \n");
    PromotedStr();
  }

  lemma PromotedWellFormed()
    ensures IsToken("NPs") && WfSentence(PromotedExample())
  {
    assert IsToken("NPs") && IsToken("Hvað") && IsToken("fshen") && IsToken("CP") && IsToken("heldur");
    assert IsToken("c") && IsToken("NP") && IsToken("þú") && IsToken("fp2en");
  }

  lemma PromotedStr()
    ensures NodeStr(Phrase("NPs", PromotedExample())) + " ? ? \n"
         == "[NPs " + "[NP Hvað fshen ]" + " " + "[CP heldur c ]" + " " + "[NP þú fp2en ]" + " ] ? ? \n"
  {
    var ks := PromotedExample();
    OneLeafStr("NP", "Hvað", "fshen");
    OneLeafStr("CP", "heldur", "c");
    OneLeafStr("NP", "þú", "fp2en");
    assert ks[1..] == [ks[1], ks[2]];
    JoinPair(ks[1], ks[2]);
    assert JoinStr(ks) == NodeStr(ks[0]) + " " + (NodeStr(ks[1]) + " " + NodeStr(ks[2]));
    PromotedFrame(NodeStr(ks[0]), NodeStr(ks[1]), NodeStr(ks[2]));
    assert "[" + "NP" + " " + "Hvað" + " " + "fshen" + " ]" == "[NP Hvað fshen ]";
    assert "[" + "CP" + " " + "heldur" + " " + "c" + " ]" == "[CP heldur c ]";
    assert "[" + "NP" + " " + "þú" + " " + "fp2en" + " ]" == "[NP þú fp2en ]";
  }

  lemma PromotedFrame(x: string, y: string, z: string)
    ensures "[" + "NPs" + " " + (x + " " + (y + " " + z)) + " ]" + " ? ? \n"
         == "[NPs " + x + " " + y + " " + z + " ] ? ? \n"
  {
  }
}
