/** The words before a parenthesis that make it a row source, as they are written: any case, any blanks. */
module RowWords {
  import opened Bytes
  import opened RowSource
  import opened Spelling
  import opened Tokens

  /** A blank before a parenthesis: tab, line end, return or space. */
  predicate IsGap(b: byte) { b == 9 || b == 10 || b == 13 || b == 32 }

  /** The last word stands from a to b, only blanks follow it, and no name goes on before it. */
  predicate LastWord(p: text, word: string, a: nat, b: nat)
  {
    a <= b <= |p| && Spells(p[a..b], word) && (forall x :: b <= x < |p| ==> IsGap(p[x])) &&
    (a == 0 || !InName(p[a - 1]))
  }

  /** The text ends in these words, in any case and with blanks between and behind them. */
  ghost predicate Ends(p: text, phrase: seq<string>)
    decreases |phrase|, 0
  {
    phrase == [] || EndsInWord(p, phrase[|phrase| - 1], phrase[..|phrase| - 1])
  }

  ghost predicate EndsInWord(p: text, word: string, before: seq<string>)
    decreases |before|, 1
  {
    exists a: nat, b: nat :: LastWord(p, word, a, b) && Ends(p[..a], before)
  }

  /** A word of lower-case letters. */
  predicate IsLower(word: string) { word != "" && forall i :: 0 <= i < |word| ==> 'a' <= word[i] <= 'z' }

  predicate AreSpelled(words: seq<text>, phrase: seq<string>)
  {
    |words| == |phrase| && forall i :: 0 <= i < |words| ==> IsLower(phrase[i]) && IsSpelling(words[i], phrase[i])
  }

  lemma SpelledLast(words: seq<text>, phrase: seq<string>)
    requires AreSpelled(words, phrase) && words != []
    ensures var n := |words| - 1;
      AreSpelled(words[..n], phrase[..n]) && IsLower(phrase[n]) && IsSpelling(words[n], phrase[n])
  {
  }

  /** A word at the end of the text, once the blanks behind it are gone. */
  lemma TrailingIsLast(p: text, w: text, word: string)
    requires IsLower(word) && IsSpelling(w, word)
    ensures var t := TrimBlanks(p);
      HasTrailingWord(t, w) ==> |w| <= |t| && LastWord(p, word, |t| - |w|, |t|)
    ensures forall a: nat, b: nat :: LastWord(p, word, a, b) ==>
              var t := TrimBlanks(p); HasTrailingWord(t, w) && b == |t| && a == |t| - |w|
  {
    var t := TrimBlanks(p);
    assert forall x :: |t| <= x < |p| ==> IsGap(p[x]);
    if HasTrailingWord(t, w) {
      var u := t[|t| - |w|..];
      FoldIsSpelling(u, w, word);
      assert p[|t| - |w|..|t|] == u;
    }
    forall a: nat, b: nat | LastWord(p, word, a, b) ensures HasTrailingWord(t, w) && b == |t| && a == |t| - |w| {
      LastByte(p, word, a, b);
      assert t == p[..|t|] && b == |t|;
      assert t[a..] == p[a..b];
      FoldIsSpelling(p[a..b], w, word);
    }
  }

  lemma LastByte(p: text, word: string, a: nat, b: nat)
    requires LastWord(p, word, a, b) && IsLower(word)
    ensures a < b && !IsGap(p[b - 1])
  {
    assert SameLetter(p[a..b][b - a - 1], word[b - a - 1]);
  }

  /** EndsIn, in bytes. */
  lemma {:induction false} EndsExactly(p: text, words: seq<text>, phrase: seq<string>)
    requires AreSpelled(words, phrase)
    ensures EndsIn(TrimBlanks(p), words) <==> Ends(p, phrase)
    decreases |words|
  {
    hide HasTrailingWord, TrimBlanks, LastWord, IsLower, IsSpelling;
    if words != [] {
      var n := |words| - 1;
      var w, word, t := words[n], phrase[n], TrimBlanks(p);
      SpelledLast(words, phrase);
      TrailingIsLast(p, w, word);
      if HasTrailingWord(t, w) {
        var a := |t| - |w|;
        EndsExactly(p[..a], words[..n], phrase[..n]);
        TrimmedPrefix(p, a);
      }
    }
  }

  lemma TrimmedPrefix(p: text, a: nat)
    requires a <= |TrimBlanks(p)|
    ensures TrimBlanks(p)[..a] == p[..a]
  {
  }

  predicate IsWritten(w: text, word: string) { IsLower(word) && IsSpelling(w, word) }

  lemma FromWords()
    ensures IsWritten(FROM, "from") && IsWritten(DISTINCT, "distinct")
  {
  }

  lemma JoinWords()
    ensures IsWritten(JOIN, "join") && IsWritten(LATERAL, "lateral")
  {
  }

  lemma SetWords()
    ensures IsWritten(UNION, "union") && IsWritten(INTERSECT, "intersect") && IsWritten(EXCEPT, "except")
    ensures IsWritten(ALL, "all") && IsWritten(DISTINCT, "distinct")
  {
  }

  lemma CTEWords()
    ensures IsWritten(AS_WORD, "as") && IsWritten(NOT, "not") && IsWritten(MATERIALIZED, "materialized")
  {
  }

  lemma OneWord(p: text, v: text, a: string)
    requires IsWritten(v, a)
    ensures EndsIn(TrimBlanks(p), [v]) <==> Ends(p, [a])
  {
    hide EndsIn, Ends, TrimBlanks;
    EndsExactly(p, [v], [a]);
  }

  lemma TwoWords(p: text, v: text, a: string, w: text, b: string)
    requires IsWritten(v, a) && IsWritten(w, b)
    ensures EndsIn(TrimBlanks(p), [v, w]) <==> Ends(p, [a, b])
  {
    hide EndsIn, Ends, TrimBlanks, IsSpelling, IsLower;
    EndsExactly(p, [v, w], [a, b]);
  }

  lemma ThreeWords(p: text, v: text, a: string, w: text, b: string, u: text, c: string)
    requires IsWritten(v, a) && IsWritten(w, b) && IsWritten(u, c)
    ensures EndsIn(TrimBlanks(p), [v, w, u]) <==> Ends(p, [a, b, c])
  {
    hide EndsIn, Ends, TrimBlanks, IsSpelling, IsLower;
    EndsExactly(p, [v, w, u], [a, b, c]);
  }

  /** The text ends in the set operator, with DISTINCT and ALL behind it or not. */
  ghost predicate EndsInSetOperator(p: text, op: string)
  {
    Ends(p, [op]) || Ends(p, [op, "all"]) || Ends(p, [op, "distinct"]) || Ends(p, [op, "distinct", "all"])
  }

  /** The text ends in AS, with NOT and MATERIALIZED behind it or not. */
  ghost predicate EndsInAs(p: text)
  {
    Ends(p, ["as"]) || Ends(p, ["as", "materialized"]) ||
    Ends(p, ["as", "not"]) || Ends(p, ["as", "not", "materialized"])
  }

  lemma SetOperatorExactly(p: text, v: text, op: string)
    requires IsWritten(v, op)
    ensures SetOperand(TrimBlanks(p), v) <==> EndsInSetOperator(p, op)
  {
    hide EndsIn, Ends, TrimBlanks, IsWritten;
    SetWords();
    OneWord(p, v, op);
    TwoWords(p, v, op, ALL, "all");
    TwoWords(p, v, op, DISTINCT, "distinct");
    ThreeWords(p, v, op, DISTINCT, "distinct", ALL, "all");
  }

  lemma AsExactly(p: text)
    ensures CTEBody(TrimBlanks(p)) <==> EndsInAs(p)
  {
    hide EndsIn, Ends, TrimBlanks, IsWritten;
    CTEWords();
    OneWord(p, AS_WORD, "as");
    TwoWords(p, AS_WORD, "as", MATERIALIZED, "materialized");
    TwoWords(p, AS_WORD, "as", NOT, "not");
    ThreeWords(p, AS_WORD, "as", NOT, "not", MATERIALIZED, "materialized");
  }

  /** A comma and blanks end the text. */
  ghost predicate EndsInComma(p: text)
  {
    exists a: nat :: a < |p| && p[a] == 44 && forall x :: a < x < |p| ==> IsGap(p[x])
  }

  predicate OnlyGaps(p: text) { forall x :: 0 <= x < |p| ==> IsGap(p[x]) }

  lemma GapsExactly(p: text)
    ensures TrimBlanks(p) == [] <==> OnlyGaps(p)
    ensures var t := TrimBlanks(p); t != [] && t[|t| - 1] == 44 <==> EndsInComma(p)
  {
    var t := TrimBlanks(p);
    assert forall x :: |t| <= x < |p| ==> IsGap(p[x]);
    if t != [] {
      assert p[|t| - 1] == t[|t| - 1];
      assert !IsGap(p[|t| - 1]);
    }
  }

  /** Exactly what stands before a parenthesis that opens a row source: nothing, a comma of a FROM clause, FROM unless
      it is DISTINCT FROM, JOIN, LATERAL, a set operator, or AS; in any case, and with any blanks between and behind. */
  lemma RowSourceExactly(prefix: text, inFrom: bool)
    ensures OpensRowSource(prefix, inFrom) <==>
      OnlyGaps(prefix) || (inFrom && EndsInComma(prefix)) ||
      (Ends(prefix, ["from"]) && !Ends(prefix, ["distinct", "from"])) ||
      Ends(prefix, ["join"]) || Ends(prefix, ["lateral"]) ||
      EndsInSetOperator(prefix, "union") || EndsInSetOperator(prefix, "intersect") ||
      EndsInSetOperator(prefix, "except") || EndsInAs(prefix)
  {
    hide EndsIn, Ends, TrimBlanks, IsWritten, OpensRowSource, SetOperand, CTEBody, EndsInSetOperator, EndsInAs,
         OnlyGaps, EndsInComma;
    RowSourceWords(prefix, inFrom);
    GapsExactly(prefix);
    FromWords();
    JoinWords();
    SetWords();
    OneWord(prefix, FROM, "from");
    TwoWords(prefix, DISTINCT, "distinct", FROM, "from");
    OneWord(prefix, JOIN, "join");
    OneWord(prefix, LATERAL, "lateral");
    SetOperatorExactly(prefix, UNION, "union");
    SetOperatorExactly(prefix, INTERSECT, "intersect");
    SetOperatorExactly(prefix, EXCEPT, "except");
    AsExactly(prefix);
  }

  // ---- case ----

  /** The same bytes, but that letters may be in the other case. */
  predicate SameButCase(p: text, q: text)
  {
    |p| == |q| && forall i :: 0 <= i < |p| ==>
      q[i] == p[i] || (65 <= p[i] <= 90 && q[i] == p[i] + 32) || (97 <= p[i] <= 122 && q[i] == p[i] - 32)
  }

  lemma TrimInCase(p: text, q: text)
    requires SameButCase(p, q)
    ensures SameButCase(TrimBlanks(p), TrimBlanks(q))
  {
    var t, u := TrimBlanks(p), TrimBlanks(q);
    assert forall x :: 0 <= x < |p| ==> (IsBlank(p[x]) <==> IsBlank(q[x]));
    assert t != [] ==> t[|t| - 1] == p[|t| - 1];
    assert u != [] ==> u[|u| - 1] == q[|u| - 1];
    assert |t| == |u|;
  }

  lemma WordInCase(p: text, q: text, w: text)
    requires SameButCase(p, q)
    ensures HasTrailingWord(p, w) <==> HasTrailingWord(q, w)
    ensures SameButCase(TrimTrailingWord(p, w), TrimTrailingWord(q, w))
  {
    hide TrimBlanks;
    var n := |p| - |w|;
    if n >= 0 {
      assert forall x :: 0 <= x < |w| ==> Lower(p[n..][x]) == Lower(q[n..][x]);
      TrimInCase(p[..n], q[..n]);
    }
  }

  /** Texts that differ in the case of letters only open row sources alike. */
  lemma CaseDoesNotMatter(p: text, q: text, inFrom: bool)
    requires SameButCase(p, q)
    ensures OpensRowSource(p, inFrom) <==> OpensRowSource(q, inFrom)
  {
    hide HasTrailingWord, TrimTrailingWord, TrimBlanks, OpensCTEBody;
    TrimInCase(p, q);
    var t, u := TrimBlanks(p), TrimBlanks(q);
    WordInCase(t, u, FROM);
    WordInCase(TrimTrailingWord(t, FROM), TrimTrailingWord(u, FROM), DISTINCT);
    WordInCase(t, u, JOIN);
    WordInCase(t, u, LATERAL);
    WordInCase(t, u, ALL);
    var v, w := TrimTrailingWord(t, ALL), TrimTrailingWord(u, ALL);
    WordInCase(v, w, DISTINCT);
    v, w := TrimTrailingWord(v, DISTINCT), TrimTrailingWord(w, DISTINCT);
    WordInCase(v, w, UNION);
    WordInCase(v, w, INTERSECT);
    WordInCase(v, w, EXCEPT);
    CTEInCase(t, u);
  }

  lemma CTEInCase(p: text, q: text)
    requires SameButCase(p, q)
    ensures OpensCTEBody(p) <==> OpensCTEBody(q)
  {
    hide HasTrailingWord, TrimTrailingWord, TrimBlanks;
    TrimInCase(p, q);
    var t, u := TrimBlanks(p), TrimBlanks(q);
    WordInCase(t, u, MATERIALIZED);
    t, u := TrimTrailingWord(t, MATERIALIZED), TrimTrailingWord(u, MATERIALIZED);
    WordInCase(t, u, NOT);
    WordInCase(TrimTrailingWord(t, NOT), TrimTrailingWord(u, NOT), AS_WORD);
  }
}
