/** Redaction does not depend on what the redacted literals hold. */
module NonInterference {
  import opened Bytes
  import opened ChunkWalk
  import opened Lexing
  import opened Queries
  import opened Spans
  import opened Redact
  import opened Strip

  // ---- non-interference ----

  /** In comment-free text that backslashes do not make ambiguous, rewriting redacted literals into
      other redacted literals with the same opening byte leaves the redacted text as it is, whatever
      surrounds them. */
  lemma NonInterference(s: text, d: Dialect, cs': seq<Chunk>)
    requires OneReading(s, d) && OneReading(Join(cs'), d)
    requires WellFormed(Lex(LiteralReading(false, d), s, 0)) && WellFormed(cs')
    requires Rewrites(LiteralReading(false, d), Lex(LiteralReading(false, d), s, 0), cs')
    requires SameSkeleton(Lex(LiteralReading(false, d), s, 0), cs', d)
    ensures RedactedText(Join(cs'), d) == RedactedText(s, d)
  {
    hide CutFrom, Rewrites, RedactedText, Out, WellFormed, SameSkeleton, Lex, OneReading;
    var r := LiteralReading(false, d);
    var s' := Join(cs');
    assert s'[0..] == s';
    Relex(r, s, 0, cs', s', 0);
    RedactedIsOut(s, d);
    RedactedIsOut(s', d);
    OutOfSkeleton(Lex(r, s, 0), cs', d, 0);
  }

  /** The n-th chunk of s, a redacted literal, may be any other complete redacted literal with the
      same opening byte; one that replaces a closed literal must be closed. */
  predicate MayReplace(s: text, d: Dialect, n: nat, lit: Chunk)
  {
    var r := LiteralReading(false, d);
    var cs := Lex(r, s, 0);
    n < |cs| && cs[n].text != [] && ClassOfChunk(cs[n], d) == Value &&
    lit.kind == cs[n].kind && Complete(r, lit) && lit.text[0] == cs[n].text[0] &&
    (cs[n].closed ==> lit.closed) && ClassOfChunk(lit, d) == Value
  }

  /** Replacing one literal. */
  lemma ReplaceLiteral(s: text, d: Dialect, n: nat, lit: Chunk)
    requires MayReplace(s, d, n, lit)
    requires OneReading(s, d) && OneReading(Join(Lex(LiteralReading(false, d), s, 0)[n := lit]), d)
    ensures RedactedText(Join(Lex(LiteralReading(false, d), s, 0)[n := lit]), d) == RedactedText(s, d)
  {
    hide CutFrom, RedactedText, First, Lex, OneReading;
    var r := LiteralReading(false, d);
    var cs := Lex(r, s, 0);
    var cs' := cs[n := lit];
    LexWellFormed(d, s, 0);
    LexComplete(r, s, 0);
    assert lit.text[..1] == cs[n].text[..1];
    assert WellFormed(cs');
    forall i | 0 <= i < |cs| ensures Replaces(r, cs[i], cs'[i]) { assert cs[i] in cs; }
    NonInterference(s, d, cs');
  }

  // ---- with comments in the query ----

  /** Redacting a query whose own comments are stripped is redacting its chunks. */
  lemma QueryIsOut(sql: text, d: Dialect)
    requires OneReading(Stripped(sql), d) && SameComments(sql, false, d)
    ensures var cs := StripChunks(Lex(Whole(false, d), sql, 0)); WellFormed(cs) && Redacted(sql, d) == Out(cs, d, 0)
  {
    hide CutFrom, Out, Lex, OneReading, SameComments;
    ReadsTheQuery(sql, false, d);
    LexWellFormed(d, Stripped(sql), 0);
    RedactedIsOut(Stripped(sql), d);
  }

  /** Literals may become others that are redacted; what is not redacted, names too, stays. */
  predicate OnlyValuesChange(cs: seq<Chunk>, cs': seq<Chunk>, d: Dialect)
  {
    |cs'| == |cs| && forall i :: 0 <= i < |cs| && cs[i].IsLiteral() && cs'[i] != cs[i] ==>
      cs[i].text != [] && cs'[i].text != [] && ClassOfChunk(cs[i], d) == ClassOfChunk(cs'[i], d) == Value
  }

  /** For whole queries, comments included: rewriting literals (and comments into spaces) does not
      change what redaction returns. */
  lemma QueryNonInterference(sql: text, d: Dialect, cs': seq<Chunk>)
    requires OneReading(Stripped(sql), d) && OneReading(Stripped(Join(cs')), d)
    requires SameComments(sql, false, d) && SameComments(Join(cs'), false, d)
    requires Rewrites(Whole(false, d), Lex(Whole(false, d), sql, 0), cs')
    requires OnlyValuesChange(Lex(Whole(false, d), sql, 0), cs', d)
    ensures Redacted(Join(cs'), d) == Redacted(sql, d)
  {
    hide CutFrom, Out, Redacted, Lex, Rewrites, WellFormed, OnlyValuesChange, OneReading, SameComments;
    var sql', r := Join(cs'), Whole(false, d);
    var cs := Lex(r, sql, 0);
    assert sql'[0..] == sql';
    Relex(r, sql, 0, cs', sql', 0);
    QueryIsOut(sql, d);
    QueryIsOut(sql', d);
    SkeletonOfStripped(r, cs, cs', d);
    OutOfSkeleton(StripChunks(cs), StripChunks(cs'), d, 0);
  }

  /** Rewriting literals and comments keeps the skeleton of the stripped chunks. */
  lemma SkeletonOfStripped(r: Reading, cs: seq<Chunk>, cs': seq<Chunk>, d: Dialect)
    requires Rewrites(r, cs, cs') && OnlyValuesChange(cs, cs', d)
    requires WellFormed(StripChunks(cs)) && WellFormed(StripChunks(cs'))
    ensures SameSkeleton(StripChunks(cs), StripChunks(cs'), d)
  {
    hide ClassOfChunk;
    forall i | 0 <= i < |cs|
      ensures var c, c' := StripChunks(cs)[i], StripChunks(cs')[i];
              c' == c || (ClassOfChunk(c, d) == ClassOfChunk(c', d) == Value)
    {
      assert Replaces(r, cs[i], cs'[i]);
    }
  }

  /** With plain names the query and its rewriting have the comments that stripping sees, whatever the literals hold. */
  lemma PlainNamesStay(sql: text, d: Dialect, cs': seq<Chunk>)
    requires PlainNames(Lex(Whole(false, d), sql, 0))
    requires Rewrites(Whole(false, d), Lex(Whole(false, d), sql, 0), cs')
    requires OnlyValuesChange(Lex(Whole(false, d), sql, 0), cs', d)
    ensures SameComments(sql, false, d) && SameComments(Join(cs'), false, d)
  {
    hide CutFrom, Lex, IsPlainName, SameComments;
    var sql', cs := Join(cs'), Lex(Whole(false, d), sql, 0);
    assert sql'[0..] == sql';
    Relex(Whole(false, d), sql, 0, cs', sql', 0);
    forall c' | c' in cs' && InBackticks(c') ensures IsPlainName(c'.text) {
      var i :| 0 <= i < |cs'| && cs'[i] == c';
      NameStays(Whole(false, d), cs[i], c', d);
      assert cs[i] in cs;
    }
    PlainNamesSuffice(sql, d);
    PlainNamesSuffice(sql', d);
  }

  lemma NameStays(r: Reading, c: Chunk, c': Chunk, d: Dialect)
    requires c.text != [] && Replaces(r, c, c') && InBackticks(c')
    requires c.IsLiteral() && c' != c ==> c'.text != [] && ClassOfChunk(c', d) == Value
    ensures c' == c
  {
  }
}
