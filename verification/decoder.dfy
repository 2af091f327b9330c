/** The decoder of `IceNLPySentence`: `_parse_from_string` finds the top-level phrases with
    `re.findall(r"\[(\w+ [^\[\]]+(?:\[[^\[\]]+\][^\[\]]*)*)\]", s)`, and `_parse_phrase`
    splits off the category and walks the rest with
    `re.finditer(r"\[(.*?)\]|\b(\S+)\s+(\S+)\b", content)`.

    Each pattern is written out as a deterministic matcher that is tried at an index of
    the input and returns the index where its match ends. Every greedy run in the two
    patterns is followed by a character outside the run's class, so the regex engine's
    backtracking can never settle on a shorter run, except for the final `(\S+)\b`,
    which `LastBoundary` models. */
module Decoder {
  import opened Chars
  import opened Tree

  datatype Option<+T> = None | Some(value: T)

  /* ---------------------------------------------------------------- bracket depth */

  function BracketStep(c: char): int {
    if c == '[' then 1 else if c == ']' then -1 else 0
  }

  /** Reading `u` from bracket depth `d`, the depth stays 0 or 1 after every character and
      is back at 0 at the end. */
  predicate ShallowFrom(u: string, d: int)
    decreases |u|
  {
    if |u| == 0 then d == 0
    else 0 <= d + BracketStep(u[0]) <= 1 && ShallowFrom(u[1..], d + BracketStep(u[0]))
  }

  /** The brackets of `u` are balanced and never nested inside one another. */
  predicate Shallow(u: string) {
    ShallowFrom(u, 0)
  }

  /** `[]` occurs in `s` at index `i`. */
  predicate EmptyGroupAt(s: string, i: nat)
    requires i + 1 < |s|
  {
    s[i] == '[' && s[i + 1] == ']'
  }

  /** `[]` does not occur in `s`. */
  predicate NoEmptyGroup(s: string) {
    forall i :: 0 <= i < |s| - 1 ==> !EmptyGroupAt(s, i)
  }

  /** What the top-level pattern's group captures: a word-character category, one space,
      a non-bracket character, then text whose brackets are balanced, one level deep at
      most, and never empty (`[]`). */
  ghost predicate TopGroup(g: string) {
    CategoryFirst(g) && Shallow(g) && NoEmptyGroup(g)
  }

  /** `g` starts with a run of word characters, one space, and a non-bracket character. */
  ghost predicate CategoryFirst(g: string) {
    exists a :: 0 < a && a + 1 < |g| && AllIn(Word, g[..a]) && g[a] == ' ' && In(NonBracket, g[a + 1])
  }

  /** Every string of `gs` is a `TopGroup`. */
  ghost predicate AllTopGroups(gs: seq<string>)
    decreases |gs|
  {
    |gs| == 0 || (TopGroup(gs[0]) && AllTopGroups(gs[1..]))
  }

  lemma {:induction false} AllTopGroupsAt(gs: seq<string>)
    requires AllTopGroups(gs)
    ensures forall i :: 0 <= i < |gs| ==> TopGroup(gs[i])
    decreases |gs|
  {
    if |gs| > 0 {
      AllTopGroupsAt(gs[1..]);
      assert forall i :: 1 <= i < |gs| ==> gs[i] == gs[1..][i - 1];
    }
  }

  lemma {:induction false} ShallowPlain(x: string)
    requires AllIn(NonBracket, x)
    ensures Shallow(x)
    decreases |x|
  {
    if |x| > 0 {
      AllInSlice(NonBracket, x, 1, |x|);
      ShallowPlain(x[1..]);
    }
  }

  lemma {:induction false} ShallowFromConcat(x: string, y: string, d: int)
    requires ShallowFrom(x, d) && Shallow(y)
    ensures ShallowFrom(x + y, d)
    decreases |x|
  {
    if |x| == 0 {
      assert x + y == y;
    } else {
      assert (x + y)[0] == x[0] && (x + y)[1..] == x[1..] + y;
      ShallowFromConcat(x[1..], y, d + BracketStep(x[0]));
    }
  }

  lemma ShallowConcat(x: string, y: string)
    requires Shallow(x) && Shallow(y)
    ensures Shallow(x + y)
  {
    ShallowFromConcat(x, y, 0);
  }

  /** Plain text read from depth 1 ends at depth 1. */
  lemma {:induction false} InsideGroup(x: string)
    requires AllIn(NonBracket, x)
    ensures ShallowFrom(x + "]", 1)
    decreases |x|
  {
    if |x| == 0 {
      assert x + "]" == "]";
      assert ("]")[1..] == [];
    } else {
      assert (x + "]")[0] == x[0] && (x + "]")[1..] == x[1..] + "]";
      AllInSlice(NonBracket, x, 1, |x|);
      InsideGroup(x[1..]);
    }
  }

  lemma ShallowBracketed(inner: string)
    requires AllIn(NonBracket, inner)
    ensures Shallow("[" + inner + "]")
  {
    InsideGroup(inner);
    assert ("[" + inner + "]")[1..] == inner + "]";
  }

  lemma NoEmptyGroupConcat(x: string, y: string)
    requires NoEmptyGroup(x) && NoEmptyGroup(y)
    requires |x| == 0 || x[|x| - 1] != '['
    ensures NoEmptyGroup(x + y)
  {
    var s := x + y;
    forall i | 0 <= i < |s| - 1
      ensures !EmptyGroupAt(s, i)
    {
      if i + 1 < |x| {
        assert !EmptyGroupAt(x, i);
      } else if i >= |x| {
        assert !EmptyGroupAt(y, i - |x|);
      } else {
        assert s[i] == x[|x| - 1];
      }
    }
  }

  lemma NoEmptyGroupSlice(s: string, i: nat, j: nat)
    requires NoEmptyGroup(s)
    requires i <= j <= |s|
    ensures NoEmptyGroup(s[i..j])
  {
    var u := s[i..j];
    forall k | 0 <= k < |u| - 1
      ensures !EmptyGroupAt(u, k)
    {
      assert !EmptyGroupAt(s, i + k);
    }
  }

  lemma NoEmptyGroupSuffix(s: string, i: nat)
    requires NoEmptyGroup(s)
    requires i <= |s|
    ensures NoEmptyGroup(s[i..])
  {
    assert s[i..] == s[i..|s|];
    NoEmptyGroupSlice(s, i, |s|);
  }

  lemma NoEmptyGroupBracketed(inner: string)
    requires 0 < |inner| && AllIn(NonBracket, inner)
    ensures NoEmptyGroup("[" + inner + "]")
  {
    var u := "[" + inner + "]";
    forall i | 0 <= i < |u| - 1
      ensures !EmptyGroupAt(u, i)
    {
      if i == 0 {
        assert u[1] == inner[0];
      } else {
        assert u[i] == inner[i - 1];
      }
    }
  }

  lemma NoEmptyGroupPlain(x: string)
    requires AllIn(NonBracket, x)
    ensures NoEmptyGroup(x)
  {
    forall i | 0 <= i < |x| - 1
      ensures !EmptyGroupAt(x, i)
    {
      assert In(NonBracket, x[i]);
    }
  }

  /* ------------------------------------------------------------ top-level pattern */

  /** The tail `(?:\[[^\[\]]+\][^\[\]]*)*\]` of the top-level pattern, tried at index `i`
      of `s`: where its match ends. Each pass reads a nested group `[...]` of non-bracket
      text and the non-bracket text after it; a `]` ends the match. */
  function MatchGroups(s: string, i: nat): (r: Option<nat>)
    requires i <= |s|
    ensures r.Some? ==> i < r.value <= |s| && s[r.value - 1] == ']'
    decreases |s| - i
  {
    if i == |s| then None
    else if s[i] == ']' then Some(i + 1)
    else if s[i] != '[' then None
    else
      var c := Run(s, i + 1, NonBracket);
      if c == i + 1 || c == |s| || s[c] != ']' then None
      else MatchGroups(s, Run(s, c + 1, NonBracket))
  }

  /** `\[(\w+ [^\[\]]+(?:\[[^\[\]]+\][^\[\]]*)*)\]` tried at index `i` of `s`: where its
      match ends. The captured group is everything between the outer brackets. */
  function MatchTop(s: string, i: nat): (r: Option<nat>)
    requires i <= |s|
    ensures r.Some? ==> i + 4 < r.value <= |s| && s[i] == '[' && s[r.value - 1] == ']'
  {
    if i == |s| || s[i] != '[' then None
    else
      var a := Run(s, i + 1, Word);
      if a == i + 1 || a == |s| || s[a] != ' ' then None
      else
        var b := Run(s, a + 1, NonBracket);
        if b == a + 1 then None
        else MatchGroups(s, b)
  }

  /** The text the group tail matches has shallow brackets and no empty group. */
  lemma {:induction false} GroupsShape(s: string, i: nat, n: nat)
    requires i <= |s| && MatchGroups(s, i) == Some(n)
    ensures Shallow(s[i..n - 1]) && NoEmptyGroup(s[i..n - 1])
    decreases |s| - i
  {
    if s[i] == ']' {
      assert s[i..n - 1] == [];
      ShallowPlain([]);
      NoEmptyGroupPlain([]);
    } else {
      var c := Run(s, i + 1, NonBracket);
      var d := Run(s, c + 1, NonBracket);
      GroupsShape(s, d, n);
      RunEnds(s, i + 1, NonBracket);
      RunEnds(s, c + 1, NonBracket);
      GroupsAssemble(s, i, c, d, n);
    }
  }

  lemma GroupsAssemble(s: string, i: nat, c: nat, d: nat, n: nat)
    requires i + 1 < c < d < n <= |s| && s[i] == '[' && s[c] == ']'
    requires AllInAt(NonBracket, s, i + 1, c) && AllInAt(NonBracket, s, c + 1, d)
    requires Shallow(s[d..n - 1]) && NoEmptyGroup(s[d..n - 1])
    ensures Shallow(s[i..n - 1]) && NoEmptyGroup(s[i..n - 1])
  {
    SliceConcat(s, i, i + 1, c);
    SliceConcat(s, i, c, c + 1);
    SliceConcat(s, i, c + 1, d);
    SliceConcat(s, i, d, n - 1);
    SliceOne(s, i);
    SliceOne(s, c);
    AllInSlice(NonBracket, s, i + 1, c);
    AllInSlice(NonBracket, s, c + 1, d);
    GroupShape(s[i + 1..c], s[c + 1..d], s[d..n - 1]);
  }

  /** A nested group, plain text, and text that is already shallow and free of empty
      groups, together are too. */
  lemma GroupShape(inner: string, plain: string, rest: string)
    requires 0 < |inner| && AllIn(NonBracket, inner) && AllIn(NonBracket, plain)
    requires Shallow(rest) && NoEmptyGroup(rest)
    ensures Shallow("[" + inner + "]" + plain + rest) && NoEmptyGroup("[" + inner + "]" + plain + rest)
  {
    var group := "[" + inner + "]";
    ShallowBracketed(inner);
    ShallowPlain(plain);
    ShallowConcat(group, plain);
    ShallowConcat(group + plain, rest);
    NoEmptyGroupBracketed(inner);
    NoEmptyGroupPlain(plain);
    NoEmptyGroupConcat(group, plain);
    NoEmptyGroupConcat(group + plain, rest);
  }

  /** What a match of the top-level pattern captures is a `TopGroup`. */
  lemma MatchedGroup(s: string, i: nat, n: nat)
    requires i <= |s| && MatchTop(s, i) == Some(n)
    ensures TopGroup(s[i + 1..n - 1])
  {
    var a := Run(s, i + 1, Word);
    var b := Run(s, a + 1, NonBracket);
    GroupsShape(s, b, n);
    TopAssemble(s, i, a, b, n);
  }

  lemma TopAssemble(s: string, i: nat, a: nat, b: nat, n: nat)
    requires i + 1 < a && a + 1 < b < n <= |s| && s[a] == ' '
    requires a == Run(s, i + 1, Word) && b == Run(s, a + 1, NonBracket)
    requires Shallow(s[b..n - 1]) && NoEmptyGroup(s[b..n - 1])
    ensures TopGroup(s[i + 1..n - 1])
  {
    RunEnds(s, i + 1, Word);
    RunEnds(s, a + 1, NonBracket);
    TopShapeAt(s, i + 1, a, b, n - 1);
  }

  /** `TopShape` on the index ranges of `s` that hold the category, the space, the run
      after it and the rest of the group. */
  lemma TopShapeAt(s: string, p: nat, a: nat, b: nat, q: nat)
    requires p < a && a + 1 < b <= q <= |s| && s[a] == ' '
    requires AllInAt(Word, s, p, a) && AllInAt(NonBracket, s, a + 1, b)
    requires Shallow(s[b..q]) && NoEmptyGroup(s[b..q])
    ensures TopGroup(s[p..q])
  {
    SliceParts(s, p, a, b, q);
    AllInSlice(Word, s, p, a);
    AllInSlice(NonBracket, s, a + 1, b);
    TopShape(s[p..a], s[a + 1..b], s[b..q]);
  }

  /** A slice cut around the character at `a` and again at `b`. */
  lemma SliceParts(s: string, p: nat, a: nat, b: nat, q: nat)
    requires p <= a < b <= q <= |s|
    ensures s[p..q] == s[p..a] + [s[a]] + s[a + 1..b] + s[b..q]
  {
    SliceConcat(s, p, a, q);
    SliceConcat(s, a, a + 1, q);
    SliceConcat(s, a + 1, b, q);
    SliceOne(s, a);
  }

  /** A category, one space, non-bracket text, and a shallow rest free of empty groups
      make a top-level group. */
  lemma TopShape(cat: string, run: string, rest: string)
    requires 0 < |cat| && AllIn(Word, cat)
    requires 0 < |run| && AllIn(NonBracket, run)
    requires Shallow(rest) && NoEmptyGroup(rest)
    ensures CategoryFirst(cat + " " + run + rest)
    ensures Shallow(cat + " " + run + rest) && NoEmptyGroup(cat + " " + run + rest)
  {
    var g := cat + " " + run + rest;
    var a := |cat|;
    WordsAreWider(cat);
    assert g[..a] == cat && g[a] == ' ' && g[a + 1] == run[0];
    var plain := cat + " " + run;
    assert g == plain + rest;
    assert AllIn(NonBracket, plain);
    ShallowPlain(plain);
    ShallowConcat(plain, rest);
    NoEmptyGroupPlain(plain);
    NoEmptyGroupConcat(plain, rest);
  }

  /** Conversely, `[`, a `TopGroup` and `]` at index `i` are a match of the top-level
      pattern, ending right after that `]`: `TopGroup` is exactly what it captures. */
  lemma TopGroupMatched(s: string, i: nat, n: nat)
    requires i + 1 < n <= |s| && s[i] == '[' && s[n - 1] == ']' && TopGroup(s[i + 1..n - 1])
    ensures MatchTop(s, i) == Some(n)
  {
    var p := TopLabel(s, i, n);
    TopRest(s, i, p, n);
    TailComplete(s, p + 1, n);
    TopTail(s, i, p);
  }

  /** The category of a `TopGroup` at `i + 1` is the whole word run there; a space and a
      non-bracket character follow it, all before the final `]`. */
  lemma TopLabel(s: string, i: nat, n: nat) returns (p: nat)
    requires i + 1 < n <= |s| && CategoryFirst(s[i + 1..n - 1])
    ensures i + 1 < p && p + 1 < n - 1 && p == Run(s, i + 1, Word) && s[p] == ' ' && In(NonBracket, s[p + 1])
    ensures AllInAt(NonBracket, s, i + 1, p + 1)
  {
    var g := s[i + 1..n - 1];
    var a :| 0 < a && a + 1 < |g| && AllIn(Word, g[..a]) && g[a] == ' ' && In(NonBracket, g[a + 1]);
    p := i + 1 + a;
    forall m | i + 1 <= m < p
      ensures In(Word, s[m])
    {
      assert s[m] == g[..a][m - i - 1];
    }
    assert s[p] == g[a] && s[p + 1] == g[a + 1];
    WordsThenSpace(s, i + 1, p);
  }

  /** A word run followed by a space: `Run` measures the word run, and the run and the
      space are free of brackets. */
  lemma WordsThenSpace(s: string, j: nat, p: nat)
    requires j <= p < |s| && AllInAt(Word, s, j, p) && s[p] == ' '
    ensures Run(s, j, Word) == p && AllInAt(NonBracket, s, j, p + 1)
  {
    SpaceClasses();
    RunIs(s, j, p, Word);
    forall m | j <= m < p + 1
      ensures In(NonBracket, s[m])
    {
      if m < p {
        WordCharClasses(s[m]);
      }
    }
  }

  /** After the category and its space, the rest of a `TopGroup` is still shallow and
      free of empty groups. */
  lemma TopRest(s: string, i: nat, p: nat, n: nat)
    requires i + 1 < p + 1 < n - 1 && n <= |s| && TopGroup(s[i + 1..n - 1])
    requires AllInAt(NonBracket, s, i + 1, p + 1)
    ensures Shallow(s[p + 1..n - 1]) && NoEmptyGroup(s[p + 1..n - 1])
  {
    var g := s[i + 1..n - 1];
    ShallowSkip(s, i + 1, p + 1, n - 1, 0);
    assert s[p + 1..n - 1] == g[p - i..|g|];
    NoEmptyGroupSlice(g, p - i, |g|);
  }

  /** The top-level pattern reads `[`, the category and its space, and a non-empty
      non-bracket run, then hands over to the group tail. */
  lemma TopTail(s: string, i: nat, p: nat)
    requires i < p && p + 1 < |s| && s[i] == '[' && p == Run(s, i + 1, Word) && i + 1 < p && s[p] == ' '
    requires In(NonBracket, s[p + 1])
    ensures MatchTop(s, i) == MatchGroups(s, Run(s, p + 1, NonBracket))
  {
    assert Run(s, p + 1, NonBracket) == Run(s, p + 2, NonBracket);
  }

  /** Reading `s` from index `p` up to `q` from depth `d`: its first character is a legal
      step, and the rest is read from the depth that step leads to. */
  lemma ShallowStep(s: string, p: nat, q: nat, d: int)
    requires p < q <= |s| && ShallowFrom(s[p..q], d)
    ensures 0 <= d + BracketStep(s[p]) <= 1 && ShallowFrom(s[p + 1..q], d + BracketStep(s[p]))
  {
    assert s[p..q][0] == s[p] && s[p..q][1..] == s[p + 1..q];
  }

  /** Non-bracket text in front leaves the depth as it was. */
  lemma {:induction false} ShallowSkip(s: string, j: nat, b: nat, q: nat, d: int)
    requires j <= b <= q <= |s| && AllInAt(NonBracket, s, j, b) && ShallowFrom(s[j..q], d)
    ensures ShallowFrom(s[b..q], d)
    decreases b - j
  {
    if j < b {
      ShallowStep(s, j, q, d);
      ShallowSkip(s, j + 1, b, q, d);
    }
  }

  /** The group tail, after the non-bracket run at `j`, reads shallow text free of empty
      groups up to the `]` at `n - 1`, and ends right after it. */
  lemma {:induction false} TailComplete(s: string, j: nat, n: nat)
    requires j < n <= |s| && s[n - 1] == ']'
    requires Shallow(s[j..n - 1]) && NoEmptyGroup(s[j..n - 1])
    ensures MatchGroups(s, Run(s, j, NonBracket)) == Some(n)
    decreases n - j
  {
    var b := Run(s, j, NonBracket);
    TailRun(s, j, n);
    if b < n - 1 {
      var c := TailOpen(s, b, n);
      TailComplete(s, c + 1, n);
      GroupsStep(s, b, c);
    }
  }

  /** The non-bracket run at `j` stops at the `]` at `n - 1` or before, and what follows
      it is still shallow and free of empty groups. */
  lemma TailRun(s: string, j: nat, n: nat)
    requires j < n <= |s| && s[n - 1] == ']'
    requires Shallow(s[j..n - 1]) && NoEmptyGroup(s[j..n - 1])
    ensures var b := Run(s, j, NonBracket);
            && b <= n - 1 && (b < n - 1 ==> !In(NonBracket, s[b]))
            && Shallow(s[b..n - 1]) && NoEmptyGroup(s[b..n - 1])
  {
    var b := Run(s, j, NonBracket);
    RunEnds(s, j, NonBracket);
    RunBefore(s, j, n - 1, NonBracket);
    ShallowSkip(s, j, b, n - 1, 0);
    assert s[j..n - 1][b - j..n - 1 - j] == s[b..n - 1];
    NoEmptyGroupSlice(s[j..n - 1], b - j, n - 1 - j);
  }

  /** Shallow text free of empty groups that starts with a bracket before the final `]`
      opens a nested group `[...]` of non-bracket text, and the text after its `]` is
      again shallow and free of empty groups. */
  lemma TailOpen(s: string, b: nat, n: nat) returns (c: nat)
    requires b < n - 1 && n <= |s| && s[n - 1] == ']' && !In(NonBracket, s[b])
    requires Shallow(s[b..n - 1]) && NoEmptyGroup(s[b..n - 1])
    ensures c == Run(s, b + 1, NonBracket) && s[b] == '[' && b + 1 < c < n - 1 && s[c] == ']'
    ensures Shallow(s[c + 1..n - 1]) && NoEmptyGroup(s[c + 1..n - 1])
  {
    TailBracket(s, b, n);
    c := Run(s, b + 1, NonBracket);
    TailInner(s, b, n);
    assert s[b..n - 1][c + 1 - b..n - 1 - b] == s[c + 1..n - 1];
    NoEmptyGroupSlice(s[b..n - 1], c + 1 - b, n - 1 - b);
  }

  /** The bracket opens a group, and a non-bracket character follows it. */
  lemma TailBracket(s: string, b: nat, n: nat)
    requires b < n - 1 && n <= |s| && !In(NonBracket, s[b])
    requires Shallow(s[b..n - 1]) && NoEmptyGroup(s[b..n - 1])
    ensures s[b] == '[' && b + 1 < n - 1 && In(NonBracket, s[b + 1]) && ShallowFrom(s[b + 1..n - 1], 1)
  {
    ShallowStep(s, b, n - 1, 0);
    ShallowInner(s, b + 1, n - 1);
    assert !EmptyGroupAt(s[b..n - 1], 0);
  }

  /** The group's non-bracket run ends at its `]`, before the final one, and the text
      after it is shallow. */
  lemma TailInner(s: string, b: nat, n: nat)
    requires b + 1 < n - 1 && n <= |s| && s[n - 1] == ']'
    requires In(NonBracket, s[b + 1]) && ShallowFrom(s[b + 1..n - 1], 1)
    ensures var c := Run(s, b + 1, NonBracket);
            b + 1 < c < n - 1 && s[c] == ']' && Shallow(s[c + 1..n - 1])
  {
    var c := Run(s, b + 1, NonBracket);
    RunEnds(s, b + 1, NonBracket);
    RunBefore(s, b + 1, n - 1, NonBracket);
    ShallowSkip(s, b + 1, c, n - 1, 1);
    ShallowClose(s, c, n - 1);
  }

  /** Text read from depth 1 is not empty, and does not open another bracket first. */
  lemma ShallowInner(s: string, p: nat, q: nat)
    requires p <= q <= |s| && ShallowFrom(s[p..q], 1)
    ensures p < q && s[p] != '['
  {
    if p < q {
      ShallowStep(s, p, q, 1);
    }
  }

  /** Text read from depth 1 that starts with a bracket starts with `]`, and the rest is
      read from depth 0. */
  lemma ShallowClose(s: string, p: nat, q: nat)
    requires p <= q <= |s| && ShallowFrom(s[p..q], 1) && (p < |s| ==> !In(NonBracket, s[p]))
    ensures p < q && s[p] == ']' && Shallow(s[p + 1..q])
  {
    ShallowInner(s, p, q);
    ShallowStep(s, p, q, 1);
  }

  /** One pass of the group tail over a nested group `[...]`. */
  lemma GroupsStep(s: string, b: nat, c: nat)
    requires b < c < |s| && s[b] == '[' && c == Run(s, b + 1, NonBracket) && b + 1 < c && s[c] == ']'
    ensures MatchGroups(s, b) == MatchGroups(s, Run(s, c + 1, NonBracket))
  {
  }

  /** `re.findall` with the top-level pattern, from index `i` of `s` on: the captured
      group of each match, left to right. Matching is tried at every index; after a
      match the search goes on where it ended, and text where no match starts is
      dropped. */
  function FindAllFrom(s: string, i: nat): (gs: seq<string>)
    requires i <= |s|
    decreases |s| - i
  {
    if i == |s| then []
    else
      match MatchTop(s, i)
      case Some(n) => [s[i + 1..n - 1]] + FindAllFrom(s, n)
      case None => FindAllFrom(s, i + 1)
  }

  /** `re.findall` with the top-level pattern over the whole of `s`. */
  function FindAll(s: string): (gs: seq<string>) {
    FindAllFrom(s, 0)
  }

  /** One step of `re.findall`: a match at `i` contributes its group and the search
      goes on where the match ended. */
  lemma FindAllMatch(s: string, i: nat, n: nat)
    requires i < |s| && MatchTop(s, i) == Some(n)
    ensures FindAllFrom(s, i) == [s[i + 1..n - 1]] + FindAllFrom(s, n)
  {
  }

  /** One step of `re.findall`: with no match at `i`, the search goes on at `i + 1`. */
  lemma FindAllNoMatch(s: string, i: nat)
    requires i < |s| && MatchTop(s, i).None?
    ensures FindAllFrom(s, i) == FindAllFrom(s, i + 1)
  {
  }

  /** Every group `re.findall` returns is a `TopGroup`. */
  lemma {:induction false} FindAllShape(s: string, i: nat)
    requires i <= |s|
    ensures AllTopGroups(FindAllFrom(s, i))
    decreases |s| - i
  {
    if i < |s| {
      var m := MatchTop(s, i);
      if m.Some? {
        var n := m.value;
        MatchedGroup(s, i, n);
        FindAllShape(s, n);
        FindAllMatch(s, i, n);
        var gs := FindAllFrom(s, i);
        assert gs[1..] == FindAllFrom(s, n);
      } else {
        FindAllShape(s, i + 1);
        FindAllNoMatch(s, i);
      }
    }
  }

  /** The top-level pattern only matches from a `[`. */
  lemma NoOpenNoMatch(s: string, i: nat)
    requires i < |s| && s[i] != '['
    ensures MatchTop(s, i).None?
  {
  }

  /** Text in which no `[` occurs is passed over by `re.findall`. */
  lemma {:induction false} FindAllSkips(s: string, i: nat, j: nat)
    requires i <= j <= |s|
    requires forall m :: i <= m < j ==> s[m] != '['
    ensures FindAllFrom(s, i) == FindAllFrom(s, j)
    decreases j - i
  {
    if i < j {
      NoOpenNoMatch(s, i);
      FindAllNoMatch(s, i);
      FindAllSkips(s, i + 1, j);
    }
  }

  /* --------------------------------------------------------------- phrase content */

  /** `s` is whitespace, then `category`, then at least one whitespace character, then
      `content`, which starts with a non-whitespace character. */
  ghost predicate SplitsInto(s: string, category: string, content: string) {
    && 0 < |category| && AllIn(NonSpace, category)
    && 0 < |content| && !IsSpace(content[0])
    && exists lead, gap :: AllIn(Space, lead) && AllIn(Space, gap) && 0 < |gap|
                           && s == lead + category + gap + content
  }

  /** `s` holds at most one whitespace-separated token. */
  ghost predicate AtMostOneToken(s: string) {
    exists lead, token, trail :: AllIn(Space, lead) && AllIn(NonSpace, token) && AllIn(Space, trail)
                                 && s == lead + token + trail
  }

  /** `category, content = s.split(maxsplit=1)`: the first token and the rest of `s`
      after the whitespace that follows it; ValueError unless `s` has two tokens. */
  function SplitLabel(s: string): (r: Result<(string, string)>)
    ensures r.Ok? ==> |r.value.1| < |s| && r.value.1 == s[|s| - |r.value.1|..]
  {
    var i := Run(s, 0, Space);
    var j := Run(s, i, NonSpace);
    var k := Run(s, j, Space);
    if i == j || k == |s| then Err(ValueError)
    else Ok((s[i..j], s[k..]))
  }

  /** `split(maxsplit=1)` succeeds exactly on text with two tokens: it gives the first
      token and the text after the whitespace that follows it; it fails with ValueError
      on text of at most one token. */
  lemma SplitLabelSpec(s: string)
    ensures SplitLabel(s).Ok? ==> SplitsInto(s, SplitLabel(s).value.0, SplitLabel(s).value.1)
    ensures SplitLabel(s).Err? ==> SplitLabel(s).error == ValueError && AtMostOneToken(s)
  {
    var i := Run(s, 0, Space);
    var j := Run(s, i, NonSpace);
    var k := Run(s, j, Space);
    SplitRuns(s, i, j, k);
    if i == j || k == |s| {
      OneToken(s, i, j);
    } else {
      TwoTokens(s, i, j, k, s[k..]);
    }
  }

  /** The three runs `SplitLabel` measures: whitespace, a token, whitespace. */
  lemma SplitRuns(s: string, i: nat, j: nat, k: nat)
    requires i == Run(s, 0, Space)
    requires j == Run(s, i, NonSpace)
    requires k == Run(s, j, Space)
    ensures AllInAt(Space, s, 0, i) && AllInAt(NonSpace, s, i, j) && AllInAt(Space, s, j, k)
    ensures i == j ==> j == |s|
    ensures j < |s| ==> j < k
    ensures k < |s| ==> !IsSpace(s[k])
  {
    RunEnds(s, 0, Space);
    RunEnds(s, i, NonSpace);
    RunEnds(s, j, Space);
  }

  lemma OneToken(s: string, i: nat, j: nat)
    requires i <= j <= |s|
    requires AllInAt(Space, s, 0, i) && AllInAt(NonSpace, s, i, j) && AllInAt(Space, s, j, |s|)
    ensures AtMostOneToken(s)
  {
    AllInSlice(Space, s, 0, i);
    AllInSlice(NonSpace, s, i, j);
    AllInSlice(Space, s, j, |s|);
    assert s == s[0..i] + s[i..j] + s[j..|s|];
  }

  lemma TwoTokens(s: string, i: nat, j: nat, k: nat, content: string)
    requires i < j < k < |s| && content == s[k..]
    requires AllInAt(Space, s, 0, i) && AllInAt(NonSpace, s, i, j) && AllInAt(Space, s, j, k)
    requires !IsSpace(s[k])
    ensures SplitsInto(s, s[i..j], content)
    ensures |content| < |s| && content == s[|s| - |content|..]
  {
    AllInSlice(Space, s, 0, i);
    AllInSlice(NonSpace, s, i, j);
    AllInSlice(Space, s, j, k);
    assert s == s[0..i] + s[i..j] + s[j..k] + content;
  }

  /** `\[(.*?)\]` tried at index `i` of `t`: where its match ends. The non-greedy group
      stops at the first `]`; `.` does not cross a newline. */
  function MatchBracketGroup(t: string, i: nat): (r: Option<nat>)
    requires i <= |t|
    ensures r.Some? ==> i + 2 <= r.value <= |t|
  {
    if i == |t| || t[i] != '[' then None
    else
      var q := Run(t, i + 1, GroupChar);
      if q == |t| || t[q] != ']' then None else Some(q + 1)
  }

  /** A bracket-group match is `[`, text without `]` or a newline, and the first `]`
      after it; with no match, no `]` can be reached from a `[` at `i` that way. */
  lemma BracketGroupSpec(t: string, i: nat)
    requires i <= |t|
    ensures MatchBracketGroup(t, i).Some? ==>
              var n := MatchBracketGroup(t, i).value;
              t[i] == '[' && t[n - 1] == ']' && AllInAt(GroupChar, t, i + 1, n - 1)
    ensures MatchBracketGroup(t, i).None? && i < |t| && t[i] == '[' ==>
              forall q :: i < q < |t| && t[q] == ']' ==> !AllInAt(GroupChar, t, i + 1, q)
  {
    if i < |t| && t[i] == '[' {
      RunEnds(t, i + 1, GroupChar);
    }
  }

  /** `\b` at index `k` of `t`: exactly one of the characters on either side is a word
      character; before the start and past the end count as non-word characters. */
  predicate IsBoundary(t: string, k: nat)
    requires k <= |t|
  {
    (0 < k && IsWordChar(t[k - 1])) != (k < |t| && IsWordChar(t[k]))
  }

  /** The greedy `(\S+)\b`: the largest end in `lo + 1 .. k` at a word boundary. */
  function LastBoundary(t: string, lo: nat, k: nat): (r: Option<nat>)
    requires lo < k <= |t|
    ensures r.Some? ==>
              && lo < r.value <= k && IsBoundary(t, r.value)
              && forall j :: r.value < j <= k ==> !IsBoundary(t, j)
    ensures r.None? ==> forall j :: lo < j <= k ==> !IsBoundary(t, j)
    decreases k
  {
    if IsBoundary(t, k) then Some(k)
    else if k == lo + 1 then None
    else LastBoundary(t, lo, k - 1)
  }

  datatype PairMatch = PairMatch(word: string, tag: string, end: nat)

  /** `\b(\S+)\s+(\S+)\b` tried at index `i` of `t`: the two captured tokens and where
      the match ends. */
  function MatchPair(t: string, i: nat): (r: Option<PairMatch>)
    requires i <= |t|
    ensures r.Some? ==> i < r.value.end <= |t|
  {
    if i == |t| || !IsBoundary(t, i) then None
    else
      var a := Run(t, i, NonSpace);
      var b := Run(t, a, Space);
      var e := Run(t, b, NonSpace);
      if a == i || b == |t| then None
      else
        RunEnds(t, a, Space);
        match LastBoundary(t, b, e)
        case None => None
        case Some(n) => Some(PairMatch(t[i..a], t[b..n], n))
  }

  /** A pair match at `i` is a token, whitespace, and a token that ends at a word
      boundary; `i` is at a word boundary too. */
  predicate PairShape(t: string, i: nat, m: PairMatch) {
    var PairMatch(w, g, n) := m;
    && 0 < |w| && 0 < |g| && i + |w| < n - |g| && n <= |t|
    && t[i..i + |w|] == w && t[n - |g|..n] == g
    && AllIn(NonSpace, w) && AllIn(NonSpace, g) && AllInAt(Space, t, i + |w|, n - |g|)
    && IsBoundary(t, i) && IsBoundary(t, n)
  }

  /** A pair match has the pair shape, and its tag ends at the last word boundary of
      the non-whitespace run it starts; conversely every pair shape at `i` is found, with
      the same word and an end no earlier than its own, so a failed match means that no
      pair starts at `i`. */
  lemma PairSpec(t: string, i: nat)
    requires i <= |t|
    ensures MatchPair(t, i).Some? ==> PairShape(t, i, MatchPair(t, i).value)
    ensures MatchPair(t, i).Some? ==>
              var m := MatchPair(t, i).value;
              forall j :: m.end < j <= Run(t, m.end - |m.tag|, NonSpace) ==> !IsBoundary(t, j)
    ensures forall m :: PairShape(t, i, m) ==>
              MatchPair(t, i).Some? && MatchPair(t, i).value.word == m.word && m.end <= MatchPair(t, i).value.end
    ensures MatchPair(t, i).None? ==> forall m :: !PairShape(t, i, m)
  {
    if MatchPair(t, i).Some? {
      PairMatched(t, i);
    }
    forall m | PairShape(t, i, m)
      ensures MatchPair(t, i).Some? && MatchPair(t, i).value.word == m.word && m.end <= MatchPair(t, i).value.end
    {
      PairFound(t, i, m);
    }
  }

  /** A pair match has the pair shape, and no later boundary lies in its tag's run. */
  lemma PairMatched(t: string, i: nat)
    requires i <= |t| && MatchPair(t, i).Some?
    ensures PairShape(t, i, MatchPair(t, i).value)
    ensures var m := MatchPair(t, i).value;
            forall j :: m.end < j <= Run(t, m.end - |m.tag|, NonSpace) ==> !IsBoundary(t, j)
  {
    var a := Run(t, i, NonSpace);
    var b := Run(t, a, Space);
    RunEnds(t, i, NonSpace);
    RunEnds(t, a, Space);
    RunEnds(t, b, NonSpace);
    var n := MatchPair(t, i).value.end;
    AllInSlice(NonSpace, t, i, a);
    AllInSlice(NonSpace, t, b, n);
  }

  /** A pair shape at `i` is found by `MatchPair`: its word is the whole
      non-whitespace run at `i`, its tag starts after the whole whitespace run, and the
      greedy tag ends at its end or at a later boundary. */
  lemma PairFound(t: string, i: nat, m: PairMatch)
    requires i <= |t| && PairShape(t, i, m)
    ensures MatchPair(t, i).Some? && MatchPair(t, i).value.word == m.word && m.end <= MatchPair(t, i).value.end
  {
    var PairMatch(w, g, n) := m;
    var a := i + |w|;
    var b := n - |g|;
    SliceAllIn(NonSpace, t, i, a);
    SliceAllIn(NonSpace, t, b, n);
    assert In(Space, t[a]);
    assert In(NonSpace, t[b]);
    RunIs(t, i, a, NonSpace);
    RunIs(t, a, b, Space);
    RunFrom(t, b, n, NonSpace);
    RunEnds(t, n, NonSpace);
    assert n <= Run(t, b, NonSpace);
  }

  /** A node as the decoder can produce it: categories, words and tags are non-empty and
      free of whitespace. */
  predicate Decoded(n: Node) {
    match n
    case Terminal(w, g) => 0 < |w| && 0 < |g| && AllIn(NonSpace, w) && AllIn(NonSpace, g)
    case Phrase(c, es) => 0 < |c| && AllIn(NonSpace, c) && forall i :: 0 <= i < |es| ==> Decoded(es[i])
  }

  /** The `re.finditer` loop of `_parse_phrase` over the content `t`, from index `i` on:
      nothing is left at the end of the content, and otherwise `ScanAt` tries the
      pattern at `i`. */
  function ScanContent(t: string, i: nat): (r: Result<seq<Node>>)
    requires NoEmptyGroup(t) && i <= |t|
    ensures r.Ok? ==> forall k :: 0 <= k < |r.value| ==> Decoded(r.value[k])
    ensures r.Err? ==> r.error == ValueError
    decreases |t|, 0, |t| - i, 1, 0
  {
    if i == |t| then Ok([]) else ScanAt(t, i)
  }

  /** One attempt of the pattern at index `i` of the content `t`: its first alternative,
      a group `[...]`, becomes a child phrase decoded from the group's text; otherwise
      `ScanPair` tries the second alternative. (The group is never empty here, so
      Python's `if match.group(1)` always takes the phrase branch.) */
  function ScanAt(t: string, i: nat): (r: Result<seq<Node>>)
    requires NoEmptyGroup(t) && i < |t|
    ensures r.Ok? ==> forall k :: 0 <= k < |r.value| ==> Decoded(r.value[k])
    ensures r.Err? ==> r.error == ValueError
    decreases |t|, 0, |t| - i, 0, 1
  {
    match MatchBracketGroup(t, i)
    case Some(n) =>
      NoEmptyGroupSlice(t, i + 1, n - 1);
      var child :- ParsePhrase(t[i + 1..n - 1]);
      var rest :- ScanContent(t, n);
      Ok([child] + rest)
    case None => ScanPair(t, i)
  }

  /** The second alternative at index `i`: a `word tag` pair becomes a terminal, and an
      index where it does not match either is skipped. */
  function ScanPair(t: string, i: nat): (r: Result<seq<Node>>)
    requires NoEmptyGroup(t) && i < |t|
    ensures r.Ok? ==> forall k :: 0 <= k < |r.value| ==> Decoded(r.value[k])
    ensures r.Err? ==> r.error == ValueError
    decreases |t|, 0, |t| - i, 0, 0
  {
    match MatchPair(t, i)
    case Some(PairMatch(w, g, n)) =>
      PairSpec(t, i);
      var rest :- ScanContent(t, n);
      Ok([Terminal(w, g)] + rest)
    case None => ScanContent(t, i + 1)
  }

  /** `_parse_phrase`: the first token is the category and the rest is scanned for
      children, as a string of its own (so the first `\b` sees no character before
      it). */
  function ParsePhrase(s: string): (r: Result<Node>)
    requires NoEmptyGroup(s)
    ensures SplitLabel(s).Err? ==> r == Err(ValueError)
    ensures r.Ok? ==>
              && SplitLabel(s).Ok? && r.value.Phrase?
              && r.value.category == SplitLabel(s).value.0 && Decoded(r.value)
    ensures r.Err? ==> r.error == ValueError
    decreases |s|, 1
  {
    SplitLabelSpec(s);
    var split :- SplitLabel(s);
    var (category, content) := split;
    NoEmptyGroupSuffix(s, |s| - |content|);
    var es :- ScanContent(content, 0);
    Ok(Phrase(category, es))
  }

  /** `[self._parse_phrase(g) for g in groups]`: every group decodes, or the whole list
      fails with the first error. */
  function ParseAll(gs: seq<string>): (r: Result<seq<Node>>)
    requires forall i :: 0 <= i < |gs| ==> NoEmptyGroup(gs[i])
    ensures r.Ok? <==> forall i :: 0 <= i < |gs| ==> ParsePhrase(gs[i]).Ok?
    ensures r.Ok? ==> |r.value| == |gs| && forall i :: 0 <= i < |gs| ==> ParsePhrase(gs[i]) == Ok(r.value[i])
    ensures r.Err? ==> r.error == ValueError
  {
    if |gs| == 0 then Ok([])
    else
      var first :- ParsePhrase(gs[0]);
      ParseAllTail(gs);
      var rest :- ParseAll(gs[1..]);
      ParseAllCons(gs, first, rest);
      Ok([first] + rest)
  }

  /** The groups after the first are those of `gs[1..]`, one place on. */
  lemma ParseAllTail(gs: seq<string>)
    requires 0 < |gs| && forall i :: 0 <= i < |gs| ==> NoEmptyGroup(gs[i])
    ensures forall i :: 0 <= i < |gs| - 1 ==> NoEmptyGroup(gs[1..][i])
    ensures (forall i :: 0 <= i < |gs| ==> ParsePhrase(gs[i]).Ok?)
            <==> ParsePhrase(gs[0]).Ok? && forall i :: 0 <= i < |gs| - 1 ==> ParsePhrase(gs[1..][i]).Ok?
  {
    AllTail(gs, g => NoEmptyGroup(g));
    AllTail(gs, g => NoEmptyGroup(g) && ParsePhrase(g).Ok?);
  }

  /** A property holds of every element exactly when it holds of the head and of every
      element of the tail. */
  lemma AllTail<A>(xs: seq<A>, p: A -> bool)
    requires 0 < |xs|
    ensures (forall i :: 0 <= i < |xs| ==> p(xs[i]))
            <==> p(xs[0]) && forall i :: 0 <= i < |xs| - 1 ==> p(xs[1..][i])
  {
    assert forall i :: 1 <= i < |xs| ==> xs[i] == xs[1..][i - 1];
  }

  lemma ParseAllCons(gs: seq<string>, first: Node, rest: seq<Node>)
    requires 0 < |gs| && forall i :: 0 <= i < |gs| ==> NoEmptyGroup(gs[i])
    requires ParsePhrase(gs[0]) == Ok(first)
    requires |rest| == |gs| - 1 && forall i :: 0 <= i < |gs| - 1 ==> ParsePhrase(gs[1..][i]) == Ok(rest[i])
    ensures forall i :: 0 <= i < |gs| ==> ParsePhrase(gs[i]) == Ok(([first] + rest)[i])
  {
    var parsed := (g: string, n: Node) => NoEmptyGroup(g) && ParsePhrase(g) == Ok(n);
    ConsPairs(gs, first, rest, parsed);
  }

  /** A relation that holds between the heads and pairwise between the tails holds
      pairwise between the whole sequences. */
  lemma ConsPairs<A, B>(xs: seq<A>, first: B, rest: seq<B>, rel: (A, B) -> bool)
    requires 0 < |xs| && rel(xs[0], first)
    requires |rest| == |xs| - 1 && forall i :: 0 <= i < |xs| - 1 ==> rel(xs[1..][i], rest[i])
    ensures forall i :: 0 <= i < |xs| ==> rel(xs[i], ([first] + rest)[i])
  {
    forall i | 0 <= i < |xs|
      ensures rel(xs[i], ([first] + rest)[i])
    {
      if i > 0 {
        assert xs[i] == xs[1..][i - 1];
      }
    }
  }

  /** `_parse_from_string`. */
  function ParseSentence(s: string): (r: Result<seq<Node>>)
    ensures r.Ok? ==>
              && |r.value| == |FindAll(s)|
              && forall i :: 0 <= i < |r.value| ==> r.value[i].Phrase? && Decoded(r.value[i])
    ensures r.Err? ==> r.error == ValueError
  {
    FindAllShape(s, 0);
    AllTopGroupsAt(FindAll(s));
    ParseAll(FindAll(s))
  }

  /** What the `IceNLPySentence` constructor is given: a string, or a list. */
  datatype Input = Text(text: string) | Items(items: seq<Value>)

  /** `IceNLPySentence(input_data)`: a string is decoded; a list must hold only phrases.
      Either way a sentence holds nothing but phrases. */
  function NewSentence(input: Input): (r: Result<Sentence>)
    ensures r.Ok? ==> forall i :: 0 <= i < |r.value.phrases| ==> r.value.phrases[i].Phrase?
    ensures input.Text? ==>
              && (r.Ok? <==> ParseSentence(input.text).Ok?)
              && (r.Ok? ==> r.value.phrases == ParseSentence(input.text).value)
    ensures input.Items? ==> r == FromItems(input.items)
    ensures r.Err? ==> r.error == ValueError
  {
    match input
    case Text(s) =>
      var ps :- ParseSentence(s);
      Ok(Sentence(ps))
    case Items(vs) => FromItems(vs)
  }
}
