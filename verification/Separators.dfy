/** Which statement separators of a whole query IsMultiStatement finds. */
module Separators {
  import opened Blank
  import opened Bytes
  import opened Lexing
  import opened Queries
  import opened Spans
  import opened Strip

  /** A chunk with something besides white space that is no comment. */
  ghost predicate IsContent(c: Chunk) { !c.IsComment() && Content(c.text, 0) }

  /** A ";" in no literal, name or comment of the query, and content behind it. */
  ghost predicate SeparatesAt(cs: seq<Chunk>, i: nat, j: nat)
  {
    i < j < |cs| && cs[i] == Chunk(Plain, [SEMICOLON], true) && IsContent(cs[j])
  }

  ghost predicate IsMulti(sql: text, escapes: bool, d: Dialect)
  {
    exists i, j :: SeparatesAt(Lex(Whole(escapes, d), sql, 0), i, j)
  }

  /** What IsMultiStatement answers. */
  ghost predicate FoundMulti(sql: text)
  {
    Separates(Blanking(true, false), Stripped(sql)) || Separates(Blanking(false, false), Stripped(sql))
  }

  // ---- from chunks to places ----

  /** A byte of a chunk behind i is a byte of the text behind i. */
  lemma {:induction false} ContentBehind(r: Reading, s: text, i: nat, k: nat)
    requires i <= |s| && k < |Lex(r, s, i)| && Content(Lex(r, s, i)[k].text, 0)
    ensures Content(s, i)
    decreases |s| - i
  {
    hide CutFrom, Content, Lex;
    if i == |s| {
      NothingToLex(r, s);
    } else {
      LexFirst(r, s, i);
      var c, j := ChunkFrom(r, s, i), i + CutFrom(r, s, i).len;
      if k == 0 {
        ContentOfSlice(s, i, j);
      } else {
        ContentBehind(r, s, j, k - 1);
        ContentEarlier(s, i, j);
      }
    }
  }

  lemma ContentOfSlice(s: text, i: nat, j: nat)
    requires i <= j <= |s| && Content(s[i..j], 0)
    ensures Content(s, i)
  {
    var p :| 0 <= p < j - i && !IsSpace(s[i..j][p]);
    assert s[i + p] == s[i..j][p];
  }

  lemma ContentEarlier(s: text, i: nat, j: nat)
    requires i <= j && Content(s, j)
    ensures Content(s, i)
  {
  }

  lemma {:induction false} SeparatesInText(r: Reading, s: text, i: nat, m: nat, n: nat)
    requires i <= |s| && SeparatesAt(Lex(r, s, i), m, n)
    ensures SeparatesFrom(r, s, i)
    decreases |s| - i
  {
    hide CutFrom, Content, Lex;
    if i == |s| {
      NothingToLex(r, s);
    } else {
      LexFirst(r, s, i);
      var cs, j := Lex(r, s, i), i + CutFrom(r, s, i).len;
      var rest := Lex(r, s, j);
      assert cs[n] == rest[n - 1];
      if m == 0 {
        ContentBehind(r, s, j, n - 1);
        assert SeparatorAt(r, s, i, i);
      } else {
        assert cs[m] == rest[m - 1];
        SeparatesInText(r, s, j, m - 1, n - 1);
        SeparatesEarlier(r, s, i);
      }
    }
  }

  lemma SeparatesEarlier(r: Reading, s: text, i: nat)
    requires i < |s| && SeparatesFrom(r, s, i + CutFrom(r, s, i).len)
    ensures SeparatesFrom(r, s, i)
  {
    hide CutFrom, Content;
    var j := i + CutFrom(r, s, i).len;
    var p :| j <= p < |s| && SeparatorAt(r, s, j, p);
    assert SeparatorAt(r, s, i, p);
  }

  // ---- names whose backticks are not quotes ----

  /** Blanking cuts a text as redaction does, but for names in backticks. */
  lemma BlankingCut(d: Dialect, s: text, i: nat)
    requires i < |s| && s[i] != BACKTICK
    ensures CutFrom(Blanking(true, false), s, i) == CutFrom(LiteralReading(false, d), s, i)
  {
    hide Run, DollarTag, DollarRun;
  }

  lemma {:induction false} PastName(s: text, i: nat, p: nat, j: nat, q: nat)
    requires i <= p <= j <= q < |s| && IsPlainName(s[i..j])
    ensures KindAt(Blanking(true, false), s, p, q) == KindAt(Blanking(true, false), s, j, q)
    decreases j - p
  {
    hide CutFrom, IsPlainName;
    if p < j {
      PlainInBlanking(s, i, p, j);
      PastName(s, i, p + 1, j, q);
    }
  }

  lemma PlainInBlanking(s: text, i: nat, p: nat, j: nat)
    requires i <= p < j <= |s| && IsPlainName(s[i..j])
    ensures CutFrom(Blanking(true, false), s, p) == Cut(Plain, 1, true)
  {
    hide Run, DollarRun;
    assert s[i..j][p - i] == s[p];
  }

  lemma NameChunk(d: Dialect, s: text, i: nat)
    requires i < |s| && s[i] == BACKTICK
    ensures InBackticks(ChunkFrom(LiteralReading(false, d), s, i))
  {
    hide Run, DollarTag, DollarRun;
  }

  /** A plain byte outside names is plain to blanking too. */
  lemma {:induction false} StillPlain(d: Dialect, s: text, i: nat, p: nat)
    requires i <= p < |s| && PlainNames(Lex(LiteralReading(false, d), s, i))
    requires KindAt(LiteralReading(false, d), s, i, p).Plain?
    ensures KindAt(Blanking(true, false), s, i, p).Plain?
    decreases |s| - i
  {
    hide CutFrom, IsPlainName, InBackticks, Lex;
    var r := LiteralReading(false, d);
    var c, j := ChunkFrom(r, s, i), i + CutFrom(r, s, i).len;
    LexFirst(r, s, i);
    NamesBehind(c, Lex(r, s, j));
    if j <= p { StillPlain(d, s, j, p); }
    if s[i] == BACKTICK {
      NameChunk(d, s, i);
      NameIsNotPlain(c);
      PastName(s, i, i, j, p);
    } else {
      BlankingCut(d, s, i);
    }
  }

  lemma NameIsNotPlain(c: Chunk)
    requires InBackticks(c)
    ensures !c.kind.Plain?
  {
  }

  // ---- none is missed ----

  /** Where the reading's comments are those that stripping sees, its escapes end no literal elsewhere and its names
      are plain, no separator of the query is missed. */
  lemma NoneMissed(sql: text, escapes: bool, d: Dialect)
    requires SameComments(sql, escapes, d) && PlainNames(Lex(Whole(escapes, d), sql, 0))
    requires Lex(LiteralReading(escapes, d), Stripped(sql), 0) == Lex(LiteralReading(false, d), Stripped(sql), 0)
    ensures IsMulti(sql, escapes, d) ==> FoundMulti(sql)
  {
    hide Lex, Stripped, IsPlainName, Content, SeparatesFrom, KindAt;
    if IsMulti(sql, escapes, d) {
      var cs, s, r := Lex(Whole(escapes, d), sql, 0), Stripped(sql), LiteralReading(false, d);
      ReadsTheQuery(sql, escapes, d);
      var i, j :| SeparatesAt(cs, i, j);
      assert SeparatesAt(StripChunks(cs), i, j);
      SeparatesInText(r, s, 0, i, j);
      StrippedNames(cs);
      StillSeparates(d, s);
    }
  }

  lemma StillSeparates(d: Dialect, s: text)
    requires Separates(LiteralReading(false, d), s) && PlainNames(Lex(LiteralReading(false, d), s, 0))
    ensures Separates(Blanking(true, false), s)
  {
    hide Lex, IsPlainName, Content, KindAt;
    var p :| 0 <= p < |s| && SeparatorAt(LiteralReading(false, d), s, 0, p);
    StillPlain(d, s, 0, p);
    assert SeparatorAt(Blanking(true, false), s, 0, p);
  }
}
