/** One step of the passes at a place whose bytes are known, for texts that are written out. */
module Steps {
  import opened Bytes
  import opened ChunkWalk
  import opened Lexing
  import opened Numbers
  import opened Redact
  import opened Spans
  import opened Strip

  // ---- what is cut off ----

  /** The first q from k on closes the run. */
  lemma {:induction false} RunTo(q: byte, s: text, k: nat, n: nat)
    requires k + n < |s| && (forall p :: k <= p < k + n ==> s[p] != q) && s[k + n] == q
    requires k + n + 1 < |s| ==> s[k + n + 1] != q
    ensures Run(q, false, s, k) == Extent(n + 1, true)
    decreases n
  {
    if n > 0 { RunTo(q, s, k + 1, n - 1); }
  }

  lemma {:induction false} RunOpen(q: byte, s: text, k: nat)
    requires k <= |s| && forall p :: k <= p < |s| ==> s[p] != q
    ensures Run(q, false, s, k) == Extent(|s| - k, false)
    decreases |s| - k
  {
    if k < |s| { RunOpen(q, s, k + 1); }
  }

  /** One step of a run, escapes or not. */
  lemma RunStep(q: byte, escape: bool, s: text, k: nat)
    requires k <= |s|
    ensures Run(q, escape, s, k) ==
      if k == |s| then Extent(0, false)
      else if escape && s[k] == BACKSLASH then
        if k + 1 == |s| then Extent(1, false) else Run(q, escape, s, k + 2).After(2)
      else if s[k] == q then
        if k + 1 < |s| && s[k + 1] == q then Run(q, escape, s, k + 2).After(2) else Extent(1, true)
      else Run(q, escape, s, k + 1).After(1)
  {
  }

  lemma BlockStep(s: text, k: nat)
    requires k + 1 < |s|
    ensures BlockEnd(s, k) ==
      if s[k] == STAR && s[k + 1] == SLASH then Extent(2, true) else BlockEnd(s, k + 1).After(1)
  {
  }

  /** A byte that starts nothing. */
  predicate IsOrdinary(b: byte) { b !in {SQUOTE, DQUOTE, BACKTICK, DOLLAR, DASH, SLASH, HASH} }

  lemma OrdinaryCut(r: Reading, s: text, i: nat)
    requires i < |s| && IsOrdinary(s[i])
    ensures CutFrom(r, s, i) == Cut(Plain, 1, true)
  {
  }

  /** A quoted run of n bytes without escapes. */
  lemma QuotedCut(r: Reading, s: text, i: nat, n: nat)
    requires i + n <= |s| && 2 <= n && OpensQuote(r, s, i) && s[i + n - 1] == s[i]
    requires Escapes(r, s[i]) ==> BACKSLASH !in s
    requires (forall p :: i < p < i + n - 1 ==> s[p] != s[i]) && (i + n < |s| ==> s[i + n] != s[i])
    ensures CutFrom(r, s, i) == Cut(Quoted, n, true)
  {
    hide Run;
    RunTo(s[i], s, i + 1, n - 2);
    if Escapes(r, s[i]) { RunWithoutBackslash(s[i], s, i + 1); }
  }

  lemma OpenCut(r: Reading, s: text, i: nat)
    requires i < |s| && OpensQuote(r, s, i) && (Escapes(r, s[i]) ==> BACKSLASH !in s)
    requires forall p :: i < p < |s| ==> s[p] != s[i]
    ensures CutFrom(r, s, i) == Cut(Quoted, |s| - i, false)
  {
    hide Run;
    RunOpen(s[i], s, i + 1);
    if Escapes(r, s[i]) { RunWithoutBackslash(s[i], s, i + 1); }
  }

  lemma RunCut(r: Reading, s: text, i: nat)
    requires i < |s| && OpensQuote(r, s, i)
    ensures var e := Run(s[i], Escapes(r, s[i]), s, i + 1); CutFrom(r, s, i) == Cut(Quoted, 1 + e.len, e.closed)
  {
  }

  lemma BlockCut(r: Reading, s: text, i: nat)
    requires i + 1 < |s| && OpensBlockComment(r, s, i)
    ensures var e := BlockRun(s, i); CutFrom(r, s, i) == Cut(BlockComment, e.len, e.closed)
  {
  }

  lemma LexOrdinary(r: Reading, s: text, i: nat)
    requires i < |s| && IsOrdinary(s[i])
    ensures Lex(r, s, i) == [Chunk(Plain, [s[i]], true)] + Lex(r, s, i + 1)
  {
    hide CutFrom;
    OrdinaryCut(r, s, i);
    assert s[i..i + 1] == [s[i]];
  }

  lemma LexClosed(r: Reading, s: text, i: nat, kind: Kind, t: text)
    requires i < |s| && OccursAt(s, t, i) && CutFrom(r, s, i) == Cut(kind, |t|, true)
    ensures Lex(r, s, i) == [Chunk(kind, t, true)] + Lex(r, s, i + |t|)
  {
    hide CutFrom;
  }

  // ---- what is stripped ----

  lemma CopiedByStrip(s: text, i: nat)
    requires i < |s| && !CutFrom(STRIPPING, s, i).kind.IsComment()
    ensures var j := i + CutFrom(STRIPPING, s, i).len; StrippedFrom(s, i) == s[i..j] + StrippedFrom(s, j)
  {
    hide CutFrom, StrippedFrom;
    var _, j := StripStep([], s, i);
    assert [] + StrippedFrom(s, i) == StrippedFrom(s, i) && [] + s[i..j] == s[i..j];
  }

  lemma BlankedByStrip(s: text, i: nat)
    requires i < |s| && CutFrom(STRIPPING, s, i).kind.IsComment()
    ensures var j := i + CutFrom(STRIPPING, s, i).len; StrippedFrom(s, i) == [SPACE] + StrippedFrom(s, j)
  {
    hide CutFrom, StrippedFrom;
    var _, j := StripStep([], s, i);
    assert [] + StrippedFrom(s, i) == StrippedFrom(s, i) && [] + [SPACE] == [SPACE];
  }

  /** Nothing is stripped from i on. */
  ghost predicate BareFrom(t: text, i: nat)
    requires i <= |t|
  {
    forall c :: c in Lex(STRIPPING, t, i) ==> !c.IsComment()
  }

  lemma BareStep(t: text, i: nat)
    requires i < |t|
    ensures var c := CutFrom(STRIPPING, t, i);
      BareFrom(t, i) <==> !c.kind.LineComment? && !c.kind.BlockComment? && BareFrom(t, i + c.len)
  {
    hide CutFrom;
    var c := ChunkFrom(STRIPPING, t, i);
    var rest := Lex(STRIPPING, t, i + CutFrom(STRIPPING, t, i).len);
    assert Lex(STRIPPING, t, i) == [c] + rest;
    if BareFrom(t, i) {
      assert c in Lex(STRIPPING, t, i);
      assert forall x :: x in rest ==> x in Lex(STRIPPING, t, i);
    }
  }

  lemma BareEnd(t: text)
    ensures BareFrom(t, |t|)
  {
  }

  lemma BareIsStripped(t: text)
    requires BareFrom(t, 0)
    ensures Stripped(t) == t
  {
    hide CutAt;
    StripShrinks(t);
  }

  // ---- what is written ----

  lemma AllWritten(s: text, d: Dialect)
    requires BACKSLASH !in s
    ensures RedactedText(s, d) == WrittenFrom(d, s, 0, 0)
  {
    hide WrittenFrom, RedactedText, PiecesFrom, Pieces;
    FromTheStart(s, d);
  }

  /** A plain byte that is no digit is copied. */
  lemma ByteWritten(d: Dialect, s: text, i: nat, prev: byte)
    requires i < |s| && (IsOrdinary(s[i]) || s[i] in {DASH, SLASH, HASH}) && !IsDigit(s[i])
    ensures WrittenFrom(d, s, i, prev) == [s[i]] + WrittenFrom(d, s, i + 1, s[i])
  {
    hide CutFrom, WrittenFrom, NumberLen, SuppressesNumber, DollarTag, DollarRun, Run;
    LiteralCut(false, d, s, i);
    ChunkWritten(d, s, i, prev);
  }

  /** A quoted run of n bytes: a name in backticks, a value in single quotes. */
  lemma QuotedWritten(d: Dialect, s: text, i: nat, n: nat, prev: byte)
    requires i + n <= |s| && 2 <= n && s[i] in {BACKTICK, SQUOTE} && s[i + n - 1] == s[i]
    requires (forall p :: i < p < i + n - 1 ==> s[p] != s[i]) && (i + n < |s| ==> s[i + n] != s[i])
    ensures WrittenFrom(d, s, i, prev) ==
      if s[i] == BACKTICK then s[i..i + n] + WrittenFrom(d, s, i + n, s[i])
      else [QUESTION] + WrittenFrom(d, s, i + n, QUESTION)
  {
    hide CutFrom, WrittenFrom, NumberLen, SuppressesNumber, DollarTag, DollarRun, Run;
    RunTo(s[i], s, i + 1, n - 2);
    LiteralCut(false, d, s, i);
    ChunkWritten(d, s, i, prev);
  }

  /** A quote that nothing closes. */
  lemma OpenWritten(d: Dialect, s: text, i: nat, prev: byte)
    requires i < |s| && s[i] in {BACKTICK, SQUOTE, DQUOTE} && forall p :: i < p < |s| ==> s[p] != s[i]
    ensures WrittenFrom(d, s, i, prev) == if s[i] == BACKTICK then s[i..] else [QUESTION]
  {
    hide CutFrom, WrittenFrom, NumberLen, SuppressesNumber, DollarTag, DollarRun, Run;
    RunOpen(s[i], s, i + 1);
    LiteralCut(false, d, s, i);
    ChunkWritten(d, s, i, prev);
    NothingFrom(d, s, QUESTION);
    NothingFrom(d, s, s[|s| - 1]);
    assert s[i..] == s[i..|s|] && s[i..] + [] == s[i..];
  }
}
