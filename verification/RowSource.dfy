/** opensRowSource: which words before a parenthesis make it a row source. */
module RowSource {
  import opened Bytes

  const FROM: text := [70, 82, 79, 77]
  const DISTINCT: text := [68, 73, 83, 84, 73, 78, 67, 84]
  const JOIN: text := [74, 79, 73, 78]
  const LATERAL: text := [76, 65, 84, 69, 82, 65, 76]
  const ALL: text := [65, 76, 76]
  const UNION: text := [85, 78, 73, 79, 78]
  const INTERSECT: text := [73, 78, 84, 69, 82, 83, 69, 67, 84]
  const EXCEPT: text := [69, 88, 67, 69, 80, 84]
  const MATERIALIZED: text := [77, 65, 84, 69, 82, 73, 65, 76, 73, 90, 69, 68]
  const NOT: text := [78, 79, 84]
  const AS_WORD: text := [65, 83]

  /** What strings.TrimRight drops before a parenthesis. */
  predicate IsBlank(c: byte) { c == SPACE || c == TAB || c == RETURN || c == NEWLINE }

  function TrimBlanks(p: text): text { TrimRight(p, IsBlank) }

  /** hasTrailingWord */
  predicate HasTrailingWord(p: text, w: text)
  {
    |w| <= |p| && EqualFold(p[|p| - |w|..], w) && (|p| == |w| || !IsIdentByte(p[|p| - |w| - 1]))
  }

  /** trimTrailingWord */
  function TrimTrailingWord(p: text, w: text): (q: text)
    ensures |q| <= |p|
  {
    if HasTrailingWord(p, w) then TrimBlanks(p[..|p| - |w|]) else p
  }

  /** opensCTEBody */
  predicate OpensCTEBody(prefix: text)
  {
    var p := TrimTrailingWord(TrimBlanks(prefix), MATERIALIZED);
    HasTrailingWord(TrimTrailingWord(p, NOT), AS_WORD)
  }

  /** opensRowSource */
  predicate OpensRowSource(prefix: text, inFrom: bool)
  {
    var p := TrimBlanks(prefix);
    var q := TrimTrailingWord(TrimTrailingWord(p, ALL), DISTINCT);
    p == [] || (inFrom && p[|p| - 1] == COMMA) ||
    (HasTrailingWord(p, FROM) && !HasTrailingWord(TrimTrailingWord(p, FROM), DISTINCT)) ||
    HasTrailingWord(p, JOIN) || HasTrailingWord(p, LATERAL) ||
    HasTrailingWord(q, UNION) || HasTrailingWord(q, INTERSECT) || HasTrailingWord(q, EXCEPT) ||
    OpensCTEBody(p)
  }

  // ---- what that accepts ----

  /** The text ends in these words, with nothing but blanks between them. */
  predicate EndsIn(p: text, words: seq<text>)
    decreases |words|
  {
    words == [] ||
    (HasTrailingWord(p, words[|words| - 1]) &&
     EndsIn(TrimTrailingWord(p, words[|words| - 1]), words[..|words| - 1]))
  }

  predicate SetOperand(p: text, op: text)
  {
    EndsIn(p, [op]) || EndsIn(p, [op, ALL]) || EndsIn(p, [op, DISTINCT]) || EndsIn(p, [op, DISTINCT, ALL])
  }

  predicate CTEBody(p: text)
  {
    EndsIn(p, [AS_WORD]) || EndsIn(p, [AS_WORD, MATERIALIZED]) ||
    EndsIn(p, [AS_WORD, NOT]) || EndsIn(p, [AS_WORD, NOT, MATERIALIZED])
  }

  predicate IsWord(w: text) { w != [] && forall i :: 0 <= i < |w| ==> 65 <= w[i] <= 90 }

  /** A text ends in one word only. */
  lemma OneTrailingWord(p: text, v: text, w: text)
    requires HasTrailingWord(p, v) && HasTrailingWord(p, w) && IsWord(v) && IsWord(w)
    ensures v == w
  {
    Shorter(p, v, w);
    Shorter(p, w, v);
    forall i | 0 <= i < |v| ensures v[i] == w[i] {
      assert Lower(p[|p| - |v|..][i]) == Lower(v[i]) && Lower(p[|p| - |w|..][i]) == Lower(w[i]);
    }
  }

  lemma Shorter(p: text, v: text, w: text)
    requires HasTrailingWord(p, v) && HasTrailingWord(p, w) && IsWord(v) && IsWord(w)
    ensures |v| >= |w|
  {
    LettersOnly(p, w, |p| - |v| - 1);
  }

  lemma LettersOnly(p: text, w: text, k: int)
    ensures HasTrailingWord(p, w) && IsWord(w) && |p| - |w| <= k < |p| ==> IsLetter(p[k])
  {
    if HasTrailingWord(p, w) && IsWord(w) && |p| - |w| <= k < |p| {
      assert p[|p| - |w|..][k - (|p| - |w|)] == p[k];
    }
  }

  lemma EndsInOne(p: text, v: text)
    ensures EndsIn(p, [v]) == HasTrailingWord(p, v)
  {
    assert [v][..0] == [];
  }

  lemma EndsInMore(p: text, words: seq<text>, w: text)
    ensures EndsIn(p, words + [w]) == (HasTrailingWord(p, w) && EndsIn(TrimTrailingWord(p, w), words))
  {
    hide HasTrailingWord, TrimTrailingWord;
    assert (words + [w])[..|words|] == words;
  }

  /** An optional word: either the text ends in it and the rest in v, or it ends in v. */
  lemma OptionalWord(p: text, words: seq<text>, v: text, w: text)
    requires IsWord(v) && IsWord(w) && v != w
    ensures EndsIn(TrimTrailingWord(p, w), words + [v]) == (EndsIn(p, words + [v]) || EndsIn(p, words + [v] + [w]))
  {
    hide EndsIn, IsWord;
    EndsInMore(p, words, v);
    EndsInMore(p, words + [v], w);
    if HasTrailingWord(p, v) && HasTrailingWord(p, w) { OneTrailingWord(p, v, w); }
    hide HasTrailingWord;
    assert !HasTrailingWord(p, w) ==> TrimTrailingWord(p, w) == p;
  }

  lemma SetOperandMeaning(p: text, op: text)
    requires IsWord(op) && op != ALL && op != DISTINCT
    ensures HasTrailingWord(TrimTrailingWord(TrimTrailingWord(p, ALL), DISTINCT), op) <==> SetOperand(p, op)
  {
    hide EndsIn, HasTrailingWord, TrimTrailingWord;
    var q := TrimTrailingWord(p, ALL);
    EndsInOne(TrimTrailingWord(q, DISTINCT), op);
    OptionalWord(q, [], op, DISTINCT);
    OptionalWord(p, [], op, ALL);
    OptionalWord(p, [op], DISTINCT, ALL);
    assert [] + [op] == [op] && [op] + [DISTINCT] == [op, DISTINCT] && [op] + [ALL] == [op, ALL] &&
           [op, DISTINCT] + [ALL] == [op, DISTINCT, ALL];
  }

  lemma CTEBodyMeaning(p: text)
    ensures OpensCTEBody(p) <==> CTEBody(TrimBlanks(p))
  {
    hide EndsIn, HasTrailingWord, TrimTrailingWord, TrimBlanks;
    var t := TrimBlanks(p);
    var q := TrimTrailingWord(t, MATERIALIZED);
    EndsInOne(TrimTrailingWord(q, NOT), AS_WORD);
    OptionalWord(q, [], AS_WORD, NOT);
    OptionalWord(t, [], AS_WORD, MATERIALIZED);
    OptionalWord(t, [AS_WORD], NOT, MATERIALIZED);
    assert [] + [AS_WORD] == [AS_WORD] && [AS_WORD] + [NOT] == [AS_WORD, NOT] &&
           [AS_WORD] + [MATERIALIZED] == [AS_WORD, MATERIALIZED] &&
           [AS_WORD, NOT] + [MATERIALIZED] == [AS_WORD, NOT, MATERIALIZED];
  }

  /** A parenthesis is a row source at the start of the text, behind a comma of a FROM clause, behind
      FROM unless that is DISTINCT FROM, behind JOIN or LATERAL, behind a set operator with optional
      DISTINCT and ALL, and behind AS with optional NOT and MATERIALIZED; nowhere else. */
  lemma RowSourceWords(prefix: text, inFrom: bool)
    ensures var p := TrimBlanks(prefix);
      OpensRowSource(prefix, inFrom) <==>
      p == [] || (inFrom && p[|p| - 1] == COMMA) ||
      (EndsIn(p, [FROM]) && !EndsIn(p, [DISTINCT, FROM])) ||
      EndsIn(p, [JOIN]) || EndsIn(p, [LATERAL]) ||
      SetOperand(p, UNION) || SetOperand(p, INTERSECT) || SetOperand(p, EXCEPT) || CTEBody(p)
  {
    hide EndsIn, HasTrailingWord, TrimTrailingWord, TrimBlanks, SetOperand, CTEBody, OpensCTEBody;
    var p := TrimBlanks(prefix);
    EndsInOne(p, FROM);
    EndsInOne(p, JOIN);
    EndsInOne(p, LATERAL);
    EndsInOne(TrimTrailingWord(p, FROM), DISTINCT);
    EndsInMore(p, [DISTINCT], FROM);
    assert [DISTINCT] + [FROM] == [DISTINCT, FROM];
    SetOperandMeaning(p, UNION);
    SetOperandMeaning(p, INTERSECT);
    SetOperandMeaning(p, EXCEPT);
    CTEBodyMeaning(p);
    TrimTwice(prefix);
  }

  lemma TrimTwice(p: text)
    ensures TrimBlanks(TrimBlanks(p)) == TrimBlanks(p)
  {
  }
}
