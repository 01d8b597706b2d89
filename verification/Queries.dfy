/** Whole queries: how a database reads one, and when stripping comments first leaves redaction the same text. */
module Queries {
  import opened Bytes
  import opened Lexing
  import opened Spans
  import opened Strip

  /** The reading of a whole query, in which quotes, names in backticks and comments hide one another. */
  function Whole(escapes: bool, d: Dialect): Reading
  {
    Reading(escapes, escapes && d != Postgres, true, Quoting, true, false, true)
  }

  /** The comments that stripComments takes out are those of the reading, as far as the text left over tells. */
  predicate SameComments(sql: text, escapes: bool, d: Dialect)
  {
    Join(StripChunks(Lex(Whole(escapes, d), sql, 0))) == Stripped(sql)
  }

  /** Redaction cuts a text as the reading of a whole query does, but for comments. */
  lemma WholeCut(escapes: bool, d: Dialect, s: text, i: nat)
    requires i < |s|
    ensures var c := CutFrom(Whole(escapes, d), s, i);
      !c.kind.IsComment() ==> CutFrom(LiteralReading(escapes, d), s, i) == c
  {
    hide Run, DollarTag, DollarRun, LineRun, BlockRun;
  }

  lemma {:induction false} CommentFreeAlike(escapes: bool, d: Dialect, s: text, i: nat)
    requires i <= |s| && forall c :: c in Lex(Whole(escapes, d), s, i) ==> !c.IsComment()
    ensures Lex(LiteralReading(escapes, d), s, i) == Lex(Whole(escapes, d), s, i)
    decreases |s| - i
  {
    hide CutFrom;
    if i < |s| {
      assert ChunkFrom(Whole(escapes, d), s, i) in Lex(Whole(escapes, d), s, i);
      WholeCut(escapes, d, s, i);
      CommentFreeAlike(escapes, d, s, i + CutFrom(Whole(escapes, d), s, i).len);
    }
  }

  /** The pass that finds literals meets those of the query, with a space for each comment, exactly when the comments
      stripped before are the query's. */
  lemma ReadsTheQuery(sql: text, escapes: bool, d: Dialect)
    ensures SameComments(sql, escapes, d) <==>
            Lex(LiteralReading(escapes, d), Stripped(sql), 0) == StripChunks(Lex(Whole(escapes, d), sql, 0))
  {
    hide CutFrom, CutAt;
    var r, s := Whole(escapes, d), Stripped(sql);
    var cs := Lex(r, sql, 0);
    LexJoins(LiteralReading(escapes, d), s, 0);
    assert s[0..] == s;
    if SameComments(sql, escapes, d) {
      WholeLexes(sql, escapes, d);
      CommentFreeAlike(escapes, d, s, 0);
    }
  }

  /** What is left over is read as it was read in the query. */
  lemma WholeLexes(sql: text, escapes: bool, d: Dialect)
    requires SameComments(sql, escapes, d)
    ensures Lex(Whole(escapes, d), Stripped(sql), 0) == StripChunks(Lex(Whole(escapes, d), sql, 0))
  {
    hide CutFrom, CutAt;
    var r, s := Whole(escapes, d), Stripped(sql);
    assert s[0..] == s;
    StripRewrites(r, sql);
    Relex(r, sql, 0, StripChunks(Lex(r, sql, 0)), s, 0);
  }

  lemma StripRewrites(r: Reading, sql: text)
    requires !r.backticks.QuotingIfPaired?
    ensures Rewrites(r, Lex(r, sql, 0), StripChunks(Lex(r, sql, 0)))
  {
    hide CutFrom, First;
    var cs := Lex(r, sql, 0);
    LexComplete(r, sql, 0);
    forall i | 0 <= i < |cs| ensures cs[i].text != [] && Replaces(r, cs[i], StripChunks(cs)[i]) { assert cs[i] in cs; }
  }

  // ---- a condition on the names alone ----

  /** Nothing in the name opens a literal or a comment when its backticks are not quotes. */
  predicate IsPlainName(t: text)
  {
    (forall p :: 0 <= p < |t| ==> t[p] !in {SQUOTE, DQUOTE, DOLLAR}) &&
    (forall p :: 0 <= p < |t| - 1 ==> !(t[p] == DASH && t[p + 1] == DASH) && !(t[p] == SLASH && t[p + 1] == STAR))
  }

  predicate InBackticks(c: Chunk) { c.kind.Quoted? && c.text != [] && c.text[0] == BACKTICK }

  predicate PlainNames(cs: seq<Chunk>)
  {
    forall c :: c in cs && InBackticks(c) ==> IsPlainName(c.text)
  }

  /** Outside backticks comments are stripped under the reading without escapes. */
  lemma OutsideBackticks(d: Dialect, s: text, i: nat)
    requires i < |s| && s[i] != BACKTICK
    ensures CutFrom(STRIPPING, s, i) == CutFrom(Whole(false, d), s, i)
  {
    hide Run, DollarTag, DollarRun, LineRun, BlockRun;
  }

  lemma InsideName(d: Dialect, s: text, i: nat)
    requires i < |s| && s[i] == BACKTICK
    ensures var c := ChunkFrom(Whole(false, d), s, i); var j := i + |c.text|;
      InBackticks(c) && c.text == s[i..j] && (j < |s| ==> s[j - 1] == BACKTICK)
  {
    hide Run, DollarTag, DollarRun, LineRun, BlockRun;
    RunEnds(BACKTICK, false, s, i + 1);
  }

  /** The bytes of a plain name are copied one by one. */
  lemma {:induction false} NameStripped(s: text, i: nat, p: nat, j: nat)
    requires i <= p <= j <= |s| && IsPlainName(s[i..j]) && (i < j < |s| ==> s[j - 1] == BACKTICK)
    ensures StrippedFrom(s, p) == s[p..j] + StrippedFrom(s, j)
    decreases j - p
  {
    hide CutFrom, StrippedFrom;
    if p == j {
      assert s[p..j] + StrippedFrom(s, j) == StrippedFrom(s, j);
    } else {
      PlainInName(s, i, p, j);
      var c, k := StripStep([], s, p);
      assert [] + StrippedFrom(s, p) == StrippedFrom(s, p) && [] + s[p..k] == s[p..k];
      NameStripped(s, i, p + 1, j);
      assert s[p..p + 1] + (s[p + 1..j] + StrippedFrom(s, j)) == s[p..j] + StrippedFrom(s, j);
    }
  }

  lemma PlainInName(s: text, i: nat, p: nat, j: nat)
    requires i <= p < j <= |s| && IsPlainName(s[i..j]) && (j < |s| ==> s[j - 1] == BACKTICK)
    ensures CutFrom(STRIPPING, s, p) == Cut(Plain, 1, true)
  {
    hide CutFrom, Run, DollarTag, DollarRun, LineRun, BlockRun;
    assert s[i..j][p - i] == s[p];
    if p + 1 < j { assert s[i..j][p - i + 1] == s[p + 1]; }
    StripCut(s, p);
  }

  /** With plain names, or none, the comments are the same. */
  lemma {:induction false} PlainNamesAlike(d: Dialect, s: text, i: nat)
    requires i <= |s| && PlainNames(Lex(Whole(false, d), s, i))
    ensures StrippedFrom(s, i) == Join(StripChunks(Lex(Whole(false, d), s, i)))
    decreases |s| - i
  {
    hide CutFrom, StrippedFrom, Lex, ChunkFrom, PlainNames;
    var r := Whole(false, d);
    if i == |s| {
      NothingLeft(s);
      NothingToLex(r, s);
    } else {
      var c := ChunkFrom(r, s, i);
      var j := i + |c.text|;
      LexFirst(r, s, i);
      NamesBehind(c, Lex(r, s, j));
      PlainNamesAlike(d, s, j);
      JoinStripped(c, Lex(r, s, j));
      StrippedAlike(d, s, i);
    }
  }

  lemma NamesBehind(c: Chunk, cs: seq<Chunk>)
    requires PlainNames([c] + cs)
    ensures PlainNames(cs) && (InBackticks(c) ==> IsPlainName(c.text))
  {
    hide IsPlainName, InBackticks;
    assert c in [c] + cs && forall x :: x in cs ==> x in [c] + cs;
  }

  /** One chunk of the whole reading, where its name is plain if it is one. */
  lemma StrippedAlike(d: Dialect, s: text, i: nat)
    requires i < |s|
    requires var c := ChunkFrom(Whole(false, d), s, i); InBackticks(c) ==> IsPlainName(c.text)
    ensures var c := ChunkFrom(Whole(false, d), s, i);
      StrippedFrom(s, i) == (if c.IsComment() then [SPACE] else c.text) + StrippedFrom(s, i + |c.text|)
  {
    hide CutFrom, StrippedFrom, IsPlainName;
    var c := ChunkFrom(Whole(false, d), s, i);
    if s[i] == BACKTICK {
      InsideName(d, s, i);
      NameStripped(s, i, i, i + |c.text|);
    } else {
      OutsideBackticks(d, s, i);
      var _, _ := StripStep([], s, i);
      assert [] + StrippedFrom(s, i) == StrippedFrom(s, i) && [] + c.text == c.text && [] + [SPACE] == [SPACE];
    }
  }

  lemma NothingToLex(r: Reading, s: text)
    ensures Lex(r, s, |s|) == [] == StripChunks([])
  {
  }

  lemma JoinStripped(c: Chunk, cs: seq<Chunk>)
    ensures Join(StripChunks([c] + cs)) == (if c.IsComment() then [SPACE] else c.text) + Join(StripChunks(cs))
  {
    assert StripChunks([c] + cs)[1..] == StripChunks(cs);
  }

  lemma StrippedNames(cs: seq<Chunk>)
    requires PlainNames(cs)
    ensures PlainNames(StripChunks(cs))
  {
    hide IsPlainName;
    forall c | c in StripChunks(cs) && InBackticks(c) ensures IsPlainName(c.text) {
      var i :| 0 <= i < |cs| && StripChunks(cs)[i] == c;
      assert cs[i] in cs;
    }
  }

  lemma PlainNamesSuffice(sql: text, d: Dialect)
    requires PlainNames(Lex(Whole(false, d), sql, 0))
    ensures SameComments(sql, false, d)
  {
    hide Lex;
    PlainNamesAlike(d, sql, 0);
  }

  predicate PlainlyFree(cs: seq<Chunk>, b: byte)
  {
    forall c :: c in cs ==> c.kind.Plain? ==> c.text != [b]
  }

  /** In particular where no backtick stands outside the literals that stripping sees. */
  lemma {:induction false} NoNames(d: Dialect, s: text, i: nat)
    requires i <= |s| && PlainlyFree(Lex(STRIPPING, s, i), BACKTICK)
    ensures PlainNames(Lex(Whole(false, d), s, i))
    decreases |s| - i
  {
    hide CutFrom, Lex, IsPlainName;
    if i == |s| {
      NothingToLex(Whole(false, d), s);
    } else {
      LexFirst(STRIPPING, s, i);
      NotAName(s, i);
      OutsideBackticks(d, s, i);
      LexFirst(Whole(false, d), s, i);
      NoNames(d, s, i + CutFrom(STRIPPING, s, i).len);
    }
  }

  lemma NotAName(s: text, i: nat)
    requires i < |s| && var c := ChunkFrom(STRIPPING, s, i); c.kind.Plain? ==> c.text != [BACKTICK]
    ensures s[i] != BACKTICK
  {
    hide CutFrom, Run, DollarTag, DollarRun, LineRun, BlockRun;
    StripCut(s, i);
    assert s[i..i + 1] == [s[i]];
  }
}
