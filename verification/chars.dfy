/** Character classes used by the decoder: Python's `\w` and `\s` (the latter also
    being what `str.split()` splits on), and the bracket classes of the two patterns.
    `Run` is where the greedy run of one class that starts at an index ends. That is
    what the patterns' `+` and `*` repetitions settle on wherever the run is followed by
    a character outside its class, since backtracking into such a run never helps. The
    one exception is the final `(\S+)\b` of the phrase pattern, which backtracks to the
    last word boundary inside its run (`LastBoundary` in the decoder). */
module Chars {

  /** `\w` of a `str` pattern: a character for which `str.isalnum()` holds, or `_`.
      Exact for code points up to U+00FF (ASCII and the Latin-1 letters of Icelandic):
      digits, Latin letters, `_`, the feminine and masculine ordinals, the superscript
      digits, the micro sign, the vulgar fractions, and the Latin-1 letters (`×` and `÷`
      are not letters). Every code point above U+00FF is treated as a non-word
      character. */
  predicate IsWordChar(c: char) {
    if c < '\U{80}' then ('0' <= c <= '9') || ('A' <= c <= 'Z') || c == '_' || ('a' <= c <= 'z')
    else IsLatinWordChar(c)
  }

  /** The word characters among U+0080 to U+00FF. */
  predicate IsLatinWordChar(c: char) {
    || c == '\U{AA}' || c == '\U{B2}' || c == '\U{B3}' || c == '\U{B5}'
    || c == '\U{B9}' || c == '\U{BA}' || ('\U{BC}' <= c <= '\U{BE}')
    || ('\U{C0}' <= c <= '\U{FF}' && c != '\U{D7}' && c != '\U{F7}')
  }

  /** `\s` of a `str` pattern, and the separators of `str.split()`: `str.isspace()`. */
  predicate IsSpace(c: char) {
    var n := c as int;
    if n < 0x80 then (0x09 <= n <= 0x0D) || (0x1C <= n <= 0x20)
    else if n < 0x2000 then n == 0x85 || n == 0xA0 || n == 0x1680
    else n <= 0x200A || n == 0x2028 || n == 0x2029 || n == 0x202F || n == 0x205F || n == 0x3000
  }

  datatype CharClass =
    | Word        // `\w`
    | Space       // `\s`
    | NonSpace    // `\S`
    | NonBracket  // `[^\[\]]`
    | GroupChar   // what `.` may consume inside `\[(.*?)\]` before the first `]`

  predicate In(k: CharClass, c: char) {
    match k
    case Word => IsWordChar(c)
    case Space => IsSpace(c)
    case NonSpace => !IsSpace(c)
    case NonBracket => c != '[' && c != ']'
    case GroupChar => c != ']' && c != '\n'
  }

  /** Every character of `s` is in class `k`. */
  predicate AllIn(k: CharClass, s: string) {
    forall i :: 0 <= i < |s| ==> In(k, s[i])
  }

  /** Every character of `s` from index `i` up to (not including) `j` is in class `k`. */
  predicate AllInAt(k: CharClass, s: string, i: nat, j: nat) {
    j <= |s| && forall m :: i <= m < j ==> In(k, s[m])
  }

  /** Where the longest run of class-`k` characters that starts at index `i` of `s`
      ends (what `RunEnds` and `RunIs` state). */
  function Run(s: string, i: nat, k: CharClass): (e: nat)
    requires i <= |s|
    ensures i <= e <= |s|
    decreases |s| - i
  {
    if i == |s| || !In(k, s[i]) then i else Run(s, i + 1, k)
  }

  /** The run `Run` measures is all in class `k`, and it stops at a character outside
      `k` or at the end. */
  lemma {:induction false} RunEnds(s: string, i: nat, k: CharClass)
    requires i <= |s|
    ensures AllInAt(k, s, i, Run(s, i, k))
    ensures Run(s, i, k) < |s| ==> !In(k, s[Run(s, i, k)])
    decreases |s| - i
  {
    if i < |s| && In(k, s[i]) {
      RunEnds(s, i + 1, k);
    }
  }

  /** Conversely, a run of class `k` from `i` to `e` that is followed by a character
      outside `k`, or by the end, is exactly what `Run` measures. */
  lemma {:induction false} RunIs(s: string, i: nat, e: nat, k: CharClass)
    requires i <= e <= |s| && AllInAt(k, s, i, e)
    requires e < |s| ==> !In(k, s[e])
    ensures Run(s, i, k) == e
    decreases e - i
  {
    if i < e {
      RunIs(s, i + 1, e, k);
    }
  }

  /** A run stops at the first character outside its class, or before. */
  lemma RunBefore(s: string, i: nat, q: nat, k: CharClass)
    requires i <= q < |s| && !In(k, s[q])
    ensures Run(s, i, k) <= q
  {
    RunEnds(s, i, k);
  }

  /** A run may be measured from any index inside it. */
  lemma RunFrom(s: string, i: nat, j: nat, k: CharClass)
    requires i <= j <= |s| && AllInAt(k, s, i, j)
    ensures Run(s, i, k) == Run(s, j, k)
  {
    RunEnds(s, j, k);
    RunIs(s, i, Run(s, j, k), k);
  }

  /** A word character is neither whitespace, nor a bracket, nor a newline. */
  lemma WordCharClasses(c: char)
    requires IsWordChar(c)
    ensures !IsSpace(c) && In(NonSpace, c) && In(NonBracket, c) && In(GroupChar, c)
  {
  }

  /** A space is whitespace, neither a word character nor a bracket. */
  lemma SpaceClasses()
    ensures !IsWordChar(' ') && IsSpace(' ') && In(NonBracket, ' ') && In(GroupChar, ' ')
  {
  }

  /** Every character of a word-character string is also in the wider classes. */
  lemma WordsAreWider(s: string)
    requires AllIn(Word, s)
    ensures AllIn(NonSpace, s) && AllIn(NonBracket, s) && AllIn(GroupChar, s)
  {
    forall i | 0 <= i < |s|
      ensures In(NonSpace, s[i]) && In(NonBracket, s[i]) && In(GroupChar, s[i])
    {
      WordCharClasses(s[i]);
    }
  }

  /** The characters of a slice are those of the index range it covers. */
  lemma AllInSlice(k: CharClass, s: string, i: nat, j: nat)
    requires i <= j && AllInAt(k, s, i, j)
    ensures AllIn(k, s[i..j])
  {
    assert forall m :: 0 <= m < j - i ==> s[i..j][m] == s[i + m];
  }

  /** Conversely, a slice all in class `k` puts its index range in `k`. */
  lemma SliceAllIn(k: CharClass, s: string, i: nat, j: nat)
    requires i <= j <= |s| && AllIn(k, s[i..j])
    ensures AllInAt(k, s, i, j)
  {
    forall m | i <= m < j
      ensures In(k, s[m])
    {
      assert s[m] == s[i..j][m - i];
    }
  }

  /** Adjacent slices concatenate to the slice that spans both. */
  lemma SliceConcat(s: string, i: nat, j: nat, k: nat)
    requires i <= j <= k <= |s|
    ensures s[i..k] == s[i..j] + s[j..k]
  {
  }

  /** A slice of one character is that character. */
  lemma SliceOne(s: string, i: nat)
    requires i < |s|
    ensures s[i..i + 1] == [s[i]]
  {
  }
}
