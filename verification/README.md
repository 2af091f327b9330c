# IceNLPy parse trees in Dafny

A model of `src/icenlpy/tree.py` from IceNLPy. That module holds the tree that IceNLPy
builds from the output of the IceParser shallow parser. The parser's output is flat
bracket notation such as `[NP ein det [PP í prep bók noun ] ] [VP kemur verb ]`.

The module has three parts:

- **The tree** (`tree.dfy`, module `Tree`). A `TerminalNode` is a (word, tag) leaf. A
  `Phrase` has a label, called `category` here, and an ordered list of children. An
  `IceNLPySentence` is an ordered list of top-level phrases. The model also covers the
  checked builders: `add_child`, `add_children`, and the `Phrase` and sentence
  constructors, which raise TypeError and ValueError.
- **The encoder** (`render.dfy`, module `Render`). `__str__` and `__repr__` of the three
  classes.
- **The decoder** (`decoder.dfy`, module `Decoder`). `IceNLPySentence(str)` does two
  things:
  - `_parse_from_string` finds the top-level groups with one regular expression.
  - `_parse_phrase` splits off the label with `split(maxsplit=1)` and walks the rest
    with a second regular expression, recursing into bracketed groups.

  Each pattern is written as a deterministic matcher that is tried at an index and
  returns where its match ends. `re.findall` and `re.finditer` become recursions over
  the index. The character classes `\w`, `\s` and `\S` are in `chars.dfy` (module
  `Chars`). The `\b` assertion is `Decoder.IsBoundary`.

`roundtrip.dfy` (module `RoundTrip`) proves the encoder and decoder against each other:

- Over the following well-formed trees, decoding a sentence's string form, or its
  `repr`, gives back exactly its phrases.
- So `str(IceNLPySentence(str(s))) == str(s)`.

The well-formed trees are these. The conditions are sufficient for the round trip,
not necessary: the patterns also read back some other trees, which are not
characterised.
- labels, words and tags are non-empty runs of word characters;
- every phrase has a child;
- a top-level phrase opens with a terminal;
- nested phrases hold only terminals.

The same module also states what happens just outside that domain:
- An empty phrase's string fails to decode.
- Take a phrase whose children are all well-formed top-level phrases, with no `[`
  in the text after it. It decodes to its children, and its own label is lost. A
  phrase whose child phrases hold phrases themselves falls outside this statement.
  For example, `[S [NP [PP a b ] ] ]` decodes to `[PP a b ]` alone.

`test_vectors.dfy` (module `TestVectors`) restates the examples of the repository's
tree tests, and one line of the parser output from its test data, against the model.

Punctuation between top-level phrases, such as `, pk`, does not become a node. The
top-level pattern at `src/icenlpy/tree.py:67` does not match it, so it is dropped.

## Model

| member | source | states |
|---|---|---|
| Tree.AddChild | src/icenlpy/tree.py:39-43 | a node is appended after the existing children, which stay as they were, and the category is kept; any other value gives TypeError and the phrase is unchanged; success exactly when the value is a node |
| Tree.AddChildren | src/icenlpy/tree.py:45-47 | the children become the old children followed by the nodes in front of the first non-node value, in order; it passes exactly when every value is a node, and raises TypeError otherwise (earlier appends stay) |
| Tree.NewPhrase | src/icenlpy/tree.py:28-37 | `Phrase(label, elements)` succeeds exactly when every element is a node; the phrase then has that label and exactly those children in order; otherwise TypeError |
| Tree.FromItems | src/icenlpy/tree.py:60-63 | a list becomes the sentence's phrases, item for item, exactly when every item is a phrase; otherwise ValueError |
| Tree.PhraseOfNodes | src/icenlpy/tree.py:28-37 | `Phrase(label, elements)` over node objects always succeeds and holds exactly those nodes in order |
| Tree.SentenceOfPhrases | src/icenlpy/tree.py:60-61 | `IceNLPySentence(list)` over phrase objects always succeeds and holds exactly those phrases in order |
| Render.NodeStr | src/icenlpy/tree.py:49-50 | definition of `str` for a phrase, and for a terminal (lines 18-19); no contract of its own; RoundTrip.RoundTrip and RoundTrip.ParseGroup show that the decoder reads it back |
| Render.JoinStr | src/icenlpy/tree.py:50 | definition of `' '.join(str(e) ...)`; no contract of its own; Render.JoinAppend states how it splits, and RoundTrip.FindAllJoin and RoundTrip.RoundTrip show that it is read back |
| Render.SentenceStr | src/icenlpy/tree.py:86-87 | definition of a sentence's `str`; no contract of its own; RoundTrip.SentenceRoundTrip shows that `IceNLPySentence` reads it back |
| Render.NodeRepr | src/icenlpy/tree.py:52-53 | definition of `repr`: a phrase's is its str, and a terminal's is `(word, tag)` (lines 21-22); no contract of its own; RoundTrip.PhraseReprDecodes is the partner for phrases |
| Render.SentenceRepr | src/icenlpy/tree.py:89-90 | definition of a sentence's `repr`, its str inside one more pair of brackets; no contract of its own; RoundTrip.SentenceReprDecodes is its partner |
| Render.JoinAppend | src/icenlpy/tree.py:49-50 | the joined string of two lists is their joined strings with exactly one space between them |
| Render.EmptyPhraseStr | src/icenlpy/tree.py:49-50 | a phrase with no children renders as `[label  ]`, two spaces before the bracket |
| Render.AddChildStr | src/icenlpy/tree.py:39-41 | after `add_child`, the new string is the old one with the child's string (after a space, unless the phrase was empty) inserted before the closing ` ]`, and nothing else changed |
| Chars.IsWordChar | src/icenlpy/tree.py:67 | definition of `\w` in a `str` pattern: `str.isalnum()` or `_`, exact up to U+00FF; no contract of its own; Chars.WordCharClasses states that a word character is neither whitespace nor a bracket, which Decoder.TopGroupMatched and RoundTrip.MatchTopNode rely on |
| Chars.IsSpace | src/icenlpy/tree.py:74 | definition of `\s` and of the separators of `str.split()`, both `str.isspace()`; no contract of its own; Decoder.SplitLabelSpec and Decoder.PairSpec are stated over it |
| Decoder.MatchGroups | src/icenlpy/tree.py:67 | the tail `(?:\[[^\[\]]+\][^\[\]]*)*\]` tried at an index; a match ends right after a `]`; Decoder.GroupsShape shows that the text it reads is shallow and free of `[]`, and Decoder.TailComplete shows that every such text up to a `]` is read |
| Decoder.MatchTop | src/icenlpy/tree.py:67 | one attempt of the top-level pattern at an index; a match starts at `[`, ends after `]`, and is more than four characters long; Decoder.FindAllShape shows that its group is a `TopGroup`, and Decoder.TopGroupMatched shows the converse, so `TopGroup` is exactly what the pattern captures |
| Decoder.FindAllFrom | src/icenlpy/tree.py:67 | definition of `re.findall` as a left-to-right scan of non-overlapping matches; no contract of its own; Decoder.FindAllShape and RoundTrip.FindAllJoin state what it returns |
| Decoder.FindAllShape | src/icenlpy/tree.py:67 | every group the top-level pattern returns is a word-character label, one space, a non-bracket character, then text whose brackets are balanced, at most one level deep, and never `[]` |
| Decoder.TopGroupMatched | src/icenlpy/tree.py:67 | `[`, then a `TopGroup` (word-character label, one space, a non-bracket character, shallow brackets, no `[]`), then `]` at an index is matched by the top-level pattern, and the match ends right after that `]` |
| Decoder.FindAllSkips | src/icenlpy/tree.py:67 | text without `[` contributes no group |
| Decoder.SplitLabel | src/icenlpy/tree.py:74 | the content it returns is a proper suffix of the text; Decoder.SplitLabelSpec gives both outcomes exactly |
| Decoder.SplitLabelSpec | src/icenlpy/tree.py:74 | `split(maxsplit=1)` succeeds exactly on text with two tokens, giving the first token and the rest after the whitespace that follows it; on text of at most one token it raises ValueError |
| Decoder.MatchBracketGroup | src/icenlpy/tree.py:76 | a match of `\[(.*?)\]` at an index spans at least the two brackets and stays inside the text; Decoder.BracketGroupSpec says which text it matches |
| Decoder.BracketGroupSpec | src/icenlpy/tree.py:76 | the first alternative `\[(.*?)\]` matches `[`, text without `]` or newline, and the first `]`; when it fails, no such `]` exists |
| Decoder.IsBoundary | src/icenlpy/tree.py:76 | definition of `\b`: exactly one side of the index is a word character, with the text's start and end counting as non-word; no contract of its own; Decoder.LastBoundary and Decoder.PairSpec are stated over it |
| Decoder.LastBoundary | src/icenlpy/tree.py:76 | the greedy `(\S+)\b` ends at the last word boundary within the token, and at none when there is none |
| Decoder.MatchPair | src/icenlpy/tree.py:76 | a match of `\b(\S+)\s+(\S+)\b` at an index is non-empty and stays inside the text; Decoder.PairSpec gives its shape, shows that the tag ends at the last word boundary of its run, and shows that no pair starts where it fails |
| Decoder.PairSpec | src/icenlpy/tree.py:76-83 | a pair match is a non-whitespace word, whitespace, and a non-whitespace tag, starting and ending at word boundaries; the greedy tag ends at the last word boundary of its non-whitespace run; every such pair at the index is found, with the same word and an end no earlier, so a failed match means no pair starts there |
| Decoder.ScanContent | src/icenlpy/tree.py:76-83 | the `re.finditer` loop yields only nodes with non-empty, whitespace-free labels, words and tags, or fails with ValueError |
| Decoder.ScanAt | src/icenlpy/tree.py:76-80 | one step of the `re.finditer` loop, trying the bracket alternative first: it yields only nodes with non-empty, whitespace-free labels, words and tags, or ValueError |
| Decoder.ScanPair | src/icenlpy/tree.py:81-83 | the pair alternative of one loop step: it yields only nodes with non-empty, whitespace-free labels, words and tags, or ValueError |
| Decoder.ParsePhrase | src/icenlpy/tree.py:73-84 | a group whose split fails raises ValueError; a decoded group is a phrase whose category is the group's first token, with non-empty, whitespace-free labels, words and tags throughout; every error is ValueError |
| Decoder.ParseAll | src/icenlpy/tree.py:71 | the list comprehension succeeds exactly when every group decodes, and then holds each group's phrase at the group's position |
| Decoder.ParseSentence | src/icenlpy/tree.py:65-71 | one decoded phrase per group found by the top-level pattern, each a phrase; errors are ValueError |
| Decoder.NewSentence | src/icenlpy/tree.py:57-63 | a string is decoded into phrases, and succeeds exactly when decoding does; a list goes through the list check; a sentence only ever holds phrases |
| RoundTrip.ScanElements | src/icenlpy/tree.py:76-83 | the `re.finditer` loop over the spaced text of well-formed children decodes exactly those children, in order |
| RoundTrip.ParseGroup | src/icenlpy/tree.py:73-84 | `_parse_phrase` on a well-formed phrase's group text gives back that phrase: its category, and each terminal and nested phrase at its position |
| RoundTrip.MatchTopNode | src/icenlpy/tree.py:67 | the top-level pattern matches the whole text of a well-formed top-level phrase |
| RoundTrip.FindAllJoin | src/icenlpy/tree.py:67 | on the string of well-formed phrases followed by text without `[`, `re.findall` returns exactly the phrases' group texts |
| RoundTrip.RoundTrip | src/icenlpy/tree.py:65-71 | decoding the string of well-formed phrases gives back exactly those phrases |
| RoundTrip.SentenceRoundTrip | src/icenlpy/tree.py:57-59 | `IceNLPySentence(str(s))` rebuilds `s` for a sentence of well-formed phrases |
| RoundTrip.StrStable | src/icenlpy/tree.py:86-87 | the string of a well-formed sentence decodes, and the decoded sentence's string is that same string |
| RoundTrip.PhraseReprDecodes | src/icenlpy/tree.py:52-53 | `IceNLPySentence(repr(p))` holds exactly `p`, for a well-formed top-level phrase |
| RoundTrip.SentenceReprDecodes | src/icenlpy/tree.py:89-90 | `IceNLPySentence(repr(s))` rebuilds `s` for a sentence of well-formed phrases: the pattern passes over the extra outer `[` and `]` |
| RoundTrip.OuterPhraseDropped | src/icenlpy/tree.py:67 | a phrase whose children are all well-formed phrases, followed by text without `[`, decodes to a sentence of its children; its own label is lost |
| RoundTrip.EmptyPhraseLost | src/icenlpy/tree.py:74 | the string of a phrase with no children is found by the top-level pattern but raises ValueError at the split |
| TestVectors.NounPhraseBuilt | test/test_tree.py:24-33 | `add_child` of three terminals gives a phrase `NP` holding them in order |
| TestVectors.InvalidChildRejected | test/test_tree.py:36-39 | `add_child` of a string raises TypeError |
| TestVectors.SentenceFromPhrases | test/test_tree.py:43-56 | a list of two phrases becomes the sentence's phrases in order |
| TestVectors.SentenceFromForeignItem | test/test_tree.py:59-61 | a list with a string in it raises ValueError |
| TestVectors.PhraseReprExample | test/test_tree.py:65-69 | `repr` after `add_children` is `[NP ein det bók noun ]` |
| TestVectors.EmptyPhrasesStr | test/test_tree.py:76-83 | the `Phrase` and sentence constructors accept the empty phrases, and the sentences print as `[NP  ] [VP  ]` and `[NP  ] [VP  ] [PP  ]` |
| TestVectors.OnePhraseStr | test/test_tree.py:84 | built through both constructors, the sentence prints as `[NP ein det ]` |
| TestVectors.TwoPhrasesStr | test/test_tree.py:85-91 | built through both constructors, the sentence prints as `[NP ein det ] [VP kemur verb ]` |
| TestVectors.NestedStr | test/test_tree.py:92-109 | built through both constructors, the inner `PP` included, the nested example prints as `[NP ein det [PP í prep bók noun ] ] [VP kemur verb ]` |
| TestVectors.DecodeNounPhrase | test/test_tree.py:118-124 | `[NP ein det bók noun ]` decodes to one noun phrase of the two terminals |
| TestVectors.DecodeNestedPhrase | test/test_tree.py:125-135 | `[NP ein det [PP í prep bók noun ] ]` decodes to the noun phrase holding a terminal and the prepositional phrase |
| TestVectors.DecodeNestedSentence | test/test_tree.py:136-145 | the two-phrase nested string decodes to the nested example |
| TestVectors.EmptyPhraseNotDecodable | src/icenlpy/tree.py:74 | `IceNLPySentence("[NP  ]")` raises ValueError |
| TestVectors.PromotedChildren | test/test_data.py:139 | the parser line `[NPs [NP Hvað fshen ] [CP heldur c ] [NP þú fp2en ] ] ? ? ` decodes to its three inner phrases; `NPs` and the trailing punctuation are dropped |

## Left out

- Logging (`logger.debug`) has no effect on the result and is not modelled.
- The command line, the tokenizer, tagger and parser wrappers, the utilities and the
  package's start-up file only run the external Java tools and handle files. They are
  not part of this model.
- Python objects are modelled as values. `add_child` and `add_children` return the
  updated phrase together with a pass/fail outcome instead of mutating it. Aliasing,
  such as one phrase object shared by two parents, is not modelled.
- The `Phrase` constructor's default `elements=None` is the empty sequence.
- `IceNLPySentence` given something that is neither a string nor iterable (Python raises
  TypeError inside `all(...)`) is not modelled. The input is a string or a list of values.
- Chars.IsWordChar: `\w` is exact for code points up to U+00FF, which covers ASCII and the Latin-1 letters
  of Icelandic. Every code point above U+00FF is treated as a non-word character, so
  words that use other letters fall outside the round-trip domain. `\s` follows
  Python's `str.isspace`.
- Python's `if match.group(1)` in `_parse_phrase` treats an empty group `[]` as a word
  pair. That would build `TerminalNode(None, None)`. The groups the top-level pattern
  returns never contain `[]`, so the decoder requires their absence and does not model
  that branch.
- Render.NodeRepr: a terminal's `repr`, `(word, tag)`, is defined but nothing reads
  it back, so no property is stated about it.
- RoundTrip.RoundTrip: holds only for the well-formed trees described above. Outside
  them, the decoder keeps the behaviour of the two patterns. `EmptyPhraseLost` and
  `OuterPhraseDropped` state two such cases. Deeper nesting, labels or words with
  non-word characters, and words containing brackets are not characterised further.
