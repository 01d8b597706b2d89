/** Texts, written out, that show why the theorems about whole queries need their conditions. */
module Inputs {
  import opened Bytes
  import opened Blank
  import opened ChunkWalk
  import opened Idempotence
  import opened Lexing
  import opened NonInterference
  import opened Numbers
  import opened Queries
  import opened Redact
  import opened Separators
  import opened Spans
  import opened Steps
  import opened Strip

  // ---- non-interference: a name with a quote in it ----

  /** A name that holds a quote, then 'x' y and a line end. */
  const QUOTE_NAME: text := [96, 39, 96, 32, 39, 120, 39, 32, 121, 10]

  /** The same with '--' for 'x'. */
  const QUOTE_NAME_DASHES: text := [96, 39, 96, 32, 39, 45, 45, 39, 32, 121, 10]

  const DASHES: Chunk := Chunk(Quoted, [39, 45, 45, 39], true)

  /** The chunks of such a text, t being the literal. */
  function NameAnd(t: text): seq<Chunk>
  {
    [Chunk(Quoted, [96, 39, 96], true), BLANK, Chunk(Quoted, t, true), BLANK, Chunk(Plain, [121], true),
     Chunk(Plain, [10], true)]
  }

  lemma QuoteNameChunks(d: Dialect, s: text, t: text)
    requires (s == QUOTE_NAME && t == [39, 120, 39]) || (s == QUOTE_NAME_DASHES && t == [39, 45, 45, 39])
    ensures Lex(Whole(false, d), s, 0) == NameAnd(t) && Join(NameAnd(t)) == s
  {
    hide CutFrom, Lex, Join;
    var r, n := Whole(false, d), |t|;
    QuotedCut(r, s, 0, 3);
    LexClosed(r, s, 0, Quoted, [96, 39, 96]);
    LexOrdinary(r, s, 3);
    QuotedCut(r, s, 4, n);
    LexClosed(r, s, 4, Quoted, t);
    LexOrdinary(r, s, 4 + n);
    LexOrdinary(r, s, 5 + n);
    LexOrdinary(r, s, 6 + n);
    NothingToLex(r, s);
    LexJoins(r, s, 0);
    assert s[0..] == s;
  }

  lemma DashesForX(d: Dialect)
    ensures var cs := Lex(Whole(false, d), QUOTE_NAME, 0);
      |cs| == 6 && QUOTE_NAME_DASHES == Join(cs[2 := DASHES]) &&
      Rewrites(Whole(false, d), cs, cs[2 := DASHES]) && OnlyValuesChange(cs, cs[2 := DASHES], d)
  {
    hide Lex, CutAt, Join, First, Complete;
    QuoteNameChunks(d, QUOTE_NAME, [39, 120, 39]);
    QuoteNameChunks(d, QUOTE_NAME_DASHES, DASHES.text);
    assert NameAnd([39, 120, 39])[2 := DASHES] == NameAnd(DASHES.text);
    ItsOwnRewriting(Whole(false, d), QUOTE_NAME, 0);
    DashesComplete(d);
  }

  lemma DashesComplete(d: Dialect)
    ensures Complete(Whole(false, d), DASHES)
  {
    hide CutAt;
    QuotedCut(Whole(false, d), DASHES.text, 0, 4);
    assert DASHES.text[..4] == DASHES.text;
  }

  lemma QuoteNameStripped()
    ensures Stripped(QUOTE_NAME) == QUOTE_NAME
  {
    hide CutFrom, BareFrom, StrippedFrom;
    var s := QUOTE_NAME;
    StripCut(s, 0);
    QuotedCut(STRIPPING, s, 1, 4);
    OrdinaryCut(STRIPPING, s, 5);
    OpenCut(STRIPPING, s, 6);
    BareStep(s, 0);
    BareStep(s, 1);
    BareStep(s, 5);
    BareStep(s, 6);
    BareEnd(s);
    BareIsStripped(s);
  }

  lemma DashesStripped()
    ensures Stripped(QUOTE_NAME_DASHES) == [96, 39, 96, 32, 39, 32, 10]
  {
    hide CutFrom, StrippedFrom;
    var s := QUOTE_NAME_DASHES;
    StripCut(s, 0);
    QuotedCut(STRIPPING, s, 1, 4);
    LineRunIs(s, 5, 5);
    StripCut(s, 5);
    OrdinaryCut(STRIPPING, s, 10);
    CopiedByStrip(s, 0);
    CopiedByStrip(s, 1);
    BlankedByStrip(s, 5);
    CopiedByStrip(s, 10);
    Strip.NothingLeft(s);
    assert s[0..1] + (s[1..5] + ([SPACE] + (s[10..11] + []))) == [96, 39, 96, 32, 39, 32, 10];
  }

  lemma QuoteNameRedacted(d: Dialect)
    ensures Redacted(QUOTE_NAME, d) == [96, 39, 96, 32, 63, 32, 121, 10]
  {
    hide WrittenFrom, RedactedText, Stripped;
    QuoteNameStripped();
    AllWritten(QUOTE_NAME, d);
    NameWritten(d, QUOTE_NAME);
    QuoteNameTail(d);
    assert [96, 39, 96, 32] + [63, 32, 121, 10] == [96, 39, 96, 32, 63, 32, 121, 10];
  }

  /** The name and the space behind it. */
  lemma NameWritten(d: Dialect, s: text)
    requires |s| >= 5 && s[..4] == [96, 39, 96, 32]
    ensures WrittenFrom(d, s, 0, 0) == [96, 39, 96, 32] + WrittenFrom(d, s, 4, SPACE)
  {
    hide WrittenFrom;
    assert forall p :: 0 <= p < 4 ==> s[p] == s[..4][p];
    QuotedWritten(d, s, 0, 3, 0);
    ByteWritten(d, s, 3, BACKTICK);
    assert s[0..3] == [96, 39, 96];
  }

  lemma QuoteNameTail(d: Dialect)
    ensures WrittenFrom(d, QUOTE_NAME, 4, SPACE) == [63, 32, 121, 10]
  {
    hide WrittenFrom;
    var s := QUOTE_NAME;
    QuotedWritten(d, s, 4, 3, SPACE);
    ByteWritten(d, s, 7, QUESTION);
    ByteWritten(d, s, 8, SPACE);
    ByteWritten(d, s, 9, 121);
    NothingFrom(d, s, 10);
  }

  lemma DashesRedacted(d: Dialect)
    ensures Redacted(QUOTE_NAME_DASHES, d) == [96, 39, 96, 32, 63]
  {
    hide WrittenFrom, RedactedText, Stripped;
    var s := [96, 39, 96, 32, 39, 32, 10];
    DashesStripped();
    AllWritten(s, d);
    NameWritten(d, s);
    OpenWritten(d, s, 4, SPACE);
  }

  lemma CommentsOfQuoteName(d: Dialect)
    ensures SameComments(QUOTE_NAME, false, d) && !SameComments(QUOTE_NAME_DASHES, false, d)
  {
    hide Lex, Join, Stripped, CutAt;
    QuoteNameChunks(d, QUOTE_NAME, [39, 120, 39]);
    QuoteNameChunks(d, QUOTE_NAME_DASHES, DASHES.text);
    assert forall t :: StripChunks(NameAnd(t)) == NameAnd(t);
    QuoteNameStripped();
    DashesStripped();
  }

  /** A quote in a name, without the condition: stripping takes the name's quote for one that opens a literal, and
      then what the next literal holds decides whether there is a comment. */
  lemma QuoteInName(d: Dialect)
    ensures var cs := Lex(Whole(false, d), QUOTE_NAME, 0);
      |cs| == 6 && QUOTE_NAME_DASHES == Join(cs[2 := DASHES]) &&
      Rewrites(Whole(false, d), cs, cs[2 := DASHES]) && OnlyValuesChange(cs, cs[2 := DASHES], d)
    ensures Redacted(QUOTE_NAME, d) == [96, 39, 96, 32, 63, 32, 121, 10]
    ensures Redacted(QUOTE_NAME_DASHES, d) == [96, 39, 96, 32, 63]
    ensures SameComments(QUOTE_NAME, false, d) && !SameComments(QUOTE_NAME_DASHES, false, d)
  {
    hide CutFrom, Lex, Redacted, Rewrites, OnlyValuesChange, SameComments;
    DashesForX(d);
    QuoteNameRedacted(d);
    DashesRedacted(d);
    CommentsOfQuoteName(d);
  }

  // ---- provenance: comments that are not the ones that stripping sees ----

  /** A name -- in backticks, a line end and 'a' */
  const DASH_NAME: text := [96, 45, 45, 96, 10, 39, 97, 39]

  lemma DashNameStripped()
    ensures Stripped(DASH_NAME) == [96, 32, 10, 39, 97, 39]
  {
    hide CutFrom, StrippedFrom;
    var s := DASH_NAME;
    StripCut(s, 0);
    LineRunIs(s, 1, 3);
    StripCut(s, 1);
    OrdinaryCut(STRIPPING, s, 4);
    QuotedCut(STRIPPING, s, 5, 3);
    CopiedByStrip(s, 0);
    BlankedByStrip(s, 1);
    CopiedByStrip(s, 4);
    CopiedByStrip(s, 5);
    Strip.NothingLeft(s);
    assert s[0..1] + ([SPACE] + (s[4..5] + (s[5..8] + []))) == [96, 32, 10, 39, 97, 39];
  }

  lemma DashNameRedacted(d: Dialect)
    ensures Redacted(DASH_NAME, d) == [96, 32, 10, 39, 97, 39]
  {
    hide WrittenFrom, RedactedText, Stripped;
    var s := [96, 32, 10, 39, 97, 39];
    DashNameStripped();
    AllWritten(s, d);
    OpenWritten(d, s, 0, 0);
    assert s[0..] == s;
  }

  /** Its chunks. */
  function DashName(): seq<Chunk>
  {
    [Chunk(Quoted, [96, 45, 45, 96], true), Chunk(Plain, [10], true), Chunk(Quoted, [39, 97, 39], true)]
  }

  lemma DashNameChunks(escapes: bool, d: Dialect)
    ensures Lex(Whole(escapes, d), DASH_NAME, 0) == DashName()
  {
    hide CutFrom, Lex;
    var r, s := Whole(escapes, d), DASH_NAME;
    QuotedCut(r, s, 0, 4);
    LexClosed(r, s, 0, Quoted, [96, 45, 45, 96]);
    LexOrdinary(r, s, 4);
    QuotedCut(r, s, 5, 3);
    LexClosed(r, s, 5, Quoted, [39, 97, 39]);
    NothingToLex(r, s);
  }

  lemma DashNameDiffers(escapes: bool, d: Dialect)
    ensures !SameComments(DASH_NAME, escapes, d)
  {
    hide Lex, Stripped, Join;
    DashNameStripped();
    DashNameChunks(escapes, d);
    LexJoins(Whole(escapes, d), DASH_NAME, 0);
    assert DASH_NAME[0..] == DASH_NAME && StripChunks(DashName()) == DashName();
  }

  /** A comment mark in a name: stripping takes out the rest of the line, the quote that closes the name with it, and
      redaction copies the literal behind it as part of a name. */
  lemma MarkInName(escapes: bool, d: Dialect)
    ensures Redacted(DASH_NAME, d) == [96, 32, 10, 39, 97, 39] && !SameComments(DASH_NAME, escapes, d)
    ensures Lex(Whole(escapes, d), DASH_NAME, 0) == DashName() && ClassOfChunk(DashName()[2], d) == Value
  {
    hide CutFrom, Lex, Redacted, SameComments;
    DashNameRedacted(d);
    DashNameChunks(escapes, d);
    DashNameDiffers(escapes, d);
  }

  /** A name -- in backticks */
  const DASHES_ONLY: text := [96, 45, 45, 96]

  /** The condition is not needed where the reading has no literal and no comment at all. */
  lemma NothingToHide(escapes: bool, d: Dialect)
    ensures !SameComments(DASHES_ONLY, escapes, d)
    ensures Lex(Whole(escapes, d), DASHES_ONLY, 0) == [Chunk(Quoted, DASHES_ONLY, true)]
  {
    hide CutFrom, Lex, Join, StrippedFrom;
    var r, s := Whole(escapes, d), DASHES_ONLY;
    OnlyAName(r, s);
    assert StripChunks(Lex(r, s, 0)) == Lex(r, s, 0);
    OneSpaceLeft();
  }

  lemma OnlyAName(r: Reading, s: text)
    requires s == DASHES_ONLY && r.backticks.Quoting?
    ensures Lex(r, s, 0) == [Chunk(Quoted, s, true)] && Join(Lex(r, s, 0)) == s
  {
    hide CutFrom, Lex, Join;
    QuotedCut(r, s, 0, 4);
    LexClosed(r, s, 0, Quoted, s);
    NothingToLex(r, s);
    LexJoins(r, s, 0);
    assert s[0..] == s;
  }

  lemma OneSpaceLeft()
    ensures |Stripped(DASHES_ONLY)| == 2
  {
    hide CutFrom, StrippedFrom;
    var s := DASHES_ONLY;
    StripCut(s, 0);
    LineRunIs(s, 1, 3);
    StripCut(s, 1);
    CopiedByStrip(s, 0);
    BlankedByStrip(s, 1);
    Strip.NothingLeft(s);
  }

  /** '\'' then a comment that holds '\' and then 'a' */
  const ESCAPED: text := [39, 92, 39, 39, 47, 42, 39, 92, 39, 42, 47, 39, 97, 39]

  /** The same, where backslashes do not escape: three literals with \ and a between them. */
  lemma EscapedRuns()
    ensures Run(SQUOTE, false, ESCAPED, 1) == Extent(6, true) && Run(SQUOTE, false, ESCAPED, 9) == Extent(3, true)
    ensures Run(SQUOTE, false, ESCAPED, 14) == Run(SQUOTE, true, ESCAPED, 14) == Extent(0, false)
  {
    hide Run;
    var s := ESCAPED;
    RunTo(SQUOTE, s, 4, 2);
    RunStep(SQUOTE, false, s, 2);
    RunStep(SQUOTE, false, s, 1);
    RunTo(SQUOTE, s, 9, 2);
    RunStep(SQUOTE, false, s, 14);
    RunStep(SQUOTE, true, s, 14);
  }

  /** Where they do: '\'', the run from the comment, and 'a' */
  lemma EscapingRuns()
    ensures Run(SQUOTE, true, ESCAPED, 1) == Extent(3, true) && Run(SQUOTE, true, ESCAPED, 7) == Extent(5, true)
    ensures Run(SQUOTE, true, ESCAPED, 12) == Extent(2, true) && BlockRun(ESCAPED, 4) == Extent(7, true)
  {
    hide Run, BlockEnd;
    var s := ESCAPED;
    RunStep(SQUOTE, true, s, 3);
    RunStep(SQUOTE, true, s, 1);
    RunStep(SQUOTE, true, s, 11);
    RunStep(SQUOTE, true, s, 10);
    RunStep(SQUOTE, true, s, 9);
    RunStep(SQUOTE, true, s, 7);
    RunStep(SQUOTE, true, s, 13);
    RunStep(SQUOTE, true, s, 12);
    BlockStep(s, 9);
    BlockStep(s, 8);
    BlockStep(s, 7);
    BlockStep(s, 6);
  }

  lemma EscapedStripped()
    ensures Stripped(ESCAPED) == ESCAPED
  {
    hide CutFrom, BareFrom, Run, StrippedFrom;
    var s := ESCAPED;
    EscapedRuns();
    StripCut(s, 0);
    StripCut(s, 8);
    StripCut(s, 13);
    OrdinaryCut(STRIPPING, s, 7);
    OrdinaryCut(STRIPPING, s, 12);
    BareStep(s, 0);
    BareStep(s, 7);
    BareStep(s, 8);
    BareStep(s, 12);
    BareStep(s, 13);
    BareEnd(s);
    BareIsStripped(s);
  }

  lemma EscapedChunks(d: Dialect)
    ensures Lex(Whole(true, d), ESCAPED, 0) ==
      [Chunk(Quoted, [39, 92, 39, 39], true), Chunk(BlockComment, [47, 42, 39, 92, 39, 42, 47], true),
       Chunk(Quoted, [39, 97, 39], true)]
  {
    hide CutFrom, Lex, Run, BlockRun;
    var r, s := Whole(true, d), ESCAPED;
    EscapingRuns();
    RunCut(r, s, 0);
    LexClosed(r, s, 0, Quoted, [39, 92, 39, 39]);
    BlockCut(r, s, 4);
    LexClosed(r, s, 4, BlockComment, [47, 42, 39, 92, 39, 42, 47]);
    RunCut(r, s, 11);
    LexClosed(r, s, 11, Quoted, [39, 97, 39]);
    NothingToLex(r, s);
  }

  /** A quote outside names opens a value. */
  lemma ValueFrom(escapes: bool, d: Dialect, s: text, i: nat)
    requires i < |s| && s[i] == SQUOTE
    ensures var r := LiteralReading(escapes, d); var j := i + 1 + Run(SQUOTE, escapes, s, i + 1).len;
      SpansFrom(r, d, Value, s, i) == [Span(i, j)] + SpansFrom(r, d, Value, s, j) &&
      SpansFrom(r, d, Name, s, i) == SpansFrom(r, d, Name, s, j)
  {
    hide CutFrom, Run, DollarTag, DollarRun;
    LiteralCut(escapes, d, s, i);
    SpansHead(LiteralReading(escapes, d), d, Value, s, i);
    SpansHead(LiteralReading(escapes, d), d, Name, s, i);
  }

  lemma NoneFrom(escapes: bool, d: Dialect, s: text, i: nat)
    requires i < |s| && (IsOrdinary(s[i]) || s[i] == SLASH)
    ensures var r := LiteralReading(escapes, d);
      SpansFrom(r, d, Value, s, i) == SpansFrom(r, d, Value, s, i + 1) &&
      SpansFrom(r, d, Name, s, i) == SpansFrom(r, d, Name, s, i + 1)
  {
    hide CutFrom, Run, DollarTag, DollarRun;
    LiteralCut(escapes, d, s, i);
    SpansHead(LiteralReading(escapes, d), d, Value, s, i);
    SpansHead(LiteralReading(escapes, d), d, Name, s, i);
  }

  lemma EscapedSpans(d: Dialect)
    ensures LiteralsOf(ESCAPED, false, d) == [Span(0, 7), Span(8, 12), Span(13, 14)] && NamesOf(ESCAPED, false, d) == []
    ensures LiteralsOf(ESCAPED, true, d) == [Span(0, 4), Span(6, 12), Span(13, 14)]
  {
    hide SpansFrom, Run;
    var s := ESCAPED;
    EscapedRuns();
    EscapingRuns();
    ValueFrom(false, d, s, 0);
    NoneFrom(false, d, s, 7);
    ValueFrom(false, d, s, 8);
    NoneFrom(false, d, s, 12);
    ValueFrom(false, d, s, 13);
    ValueFrom(true, d, s, 0);
    NoneFrom(true, d, s, 4);
    NoneFrom(true, d, s, 5);
    ValueFrom(true, d, s, 6);
    NoneFrom(true, d, s, 12);
    ValueFrom(true, d, s, 13);
    NoSpansLeft(LiteralReading(false, d), d, Value, s);
    NoSpansLeft(LiteralReading(false, d), d, Name, s);
    NoSpansLeft(LiteralReading(true, d), d, Value, s);
  }

  lemma EscapedUnion()
    ensures Union([Span(0, 7), Span(8, 12), Span(13, 14)], [Span(0, 4), Span(6, 12), Span(13, 14)]) ==
            [Span(0, 12), Span(13, 14)]
  {
    var a, b, c, x, y := Span(0, 7), Span(8, 12), Span(13, 14), Span(0, 4), Span(6, 12);
    var m := [Span(0, 12)];
    assert Absorb([], a) == [a] && Absorb([a], x) == [a] && Absorb([a], y) == m && Absorb(m, b) == m;
    assert Absorb(m, c) == m + [c] && Absorb(m + [c], c) == m + [c];
    hide Absorb;
    assert [a, b, c][1..] == [b, c] && [b, c][1..] == [c] && [x, y, c][1..] == [y, c] && [y, c][1..] == [c];
    assert MergeFrom(m + [c], [], [c]) == m + [c];
    assert MergeFrom(m, [c], [c]) == MergeFrom(m + [c], [], [c]);
    assert MergeFrom(m, [b, c], [c]) == MergeFrom(m, [c], [c]);
    assert MergeFrom([a], [b, c], [y, c]) == MergeFrom(m, [b, c], [c]);
    assert MergeFrom([a], [b, c], [x, y, c]) == MergeFrom([a], [b, c], [y, c]);
  }

  lemma EscapedPieces(d: Dialect)
    ensures Pieces(ESCAPED, d) == [Literal(Span(0, 12)), Copy(12), Literal(Span(13, 14))]
  {
    hide Walk, LiteralsOf, NamesOf, Union;
    var s, rs, last := ESCAPED, [Span(0, 12), Span(13, 14)], [Span(13, 14)];
    EscapedSpans(d);
    EscapedUnion();
    assert s[1] == BACKSLASH;
    assert rs[1..] == last;
    WalkPiece(s, rs, [], 0, 0);
    WalkDrops(s, rs, last, [], [], 12, QUESTION);
    WalkPiece(s, last, [], 12, QUESTION);
    WalkPiece(s, last, [], 13, 97);
    NoPieces(s, last, [], 14, QUESTION);
  }

  /** A comment mark behind an escaped quote: stripping takes it for part of a literal, redaction with it, and then the
      quotes in the comment pair up with those of the literal behind it. */
  lemma MarkBehindEscape(d: Dialect)
    ensures Redacted(ESCAPED, d) == [QUESTION, 97, QUESTION] && Stripped(ESCAPED) == ESCAPED
    ensures Pieces(ESCAPED, d)[1] == Copy(12) && !SameComments(ESCAPED, true, d)
    ensures Lex(Whole(true, d), ESCAPED, 0) ==
      [Chunk(Quoted, [39, 92, 39, 39], true), Chunk(BlockComment, [47, 42, 39, 92, 39, 42, 47], true),
       Chunk(Quoted, [39, 97, 39], true)]
  {
    hide Lex, Pieces, Stripped, RedactedText, SameComments, Render;
    EscapedStripped();
    EscapedPieces(d);
    EscapedChunks(d);
    TextOfPieces(ESCAPED, d);
    EscapedRendered();
    EscapedDiffers(d);
  }

  lemma TextOfPieces(s: text, d: Dialect)
    ensures RedactedText(s, d) == Render(Pieces(s, d), s)
  {
    hide Walk, Render, RedactedSpans, NamesOf;
  }

  lemma EscapedRendered()
    ensures Render([Literal(Span(0, 12)), Copy(12), Literal(Span(13, 14))], ESCAPED) == [QUESTION, 97, QUESTION]
  {
    var ps := [Literal(Span(0, 12)), Copy(12), Literal(Span(13, 14))];
    var t := Render(ps, ESCAPED);
    hide Render;
    assert t[0] == Byte(ps[0], ESCAPED) && t[1] == Byte(ps[1], ESCAPED) && t[2] == Byte(ps[2], ESCAPED);
  }

  lemma EscapedDiffers(d: Dialect)
    ensures !SameComments(ESCAPED, true, d)
  {
    hide Lex, Stripped, Join, StripChunks;
    EscapedStripped();
    EscapedChunks(d);
    EscapedBlanked();
  }

  lemma EscapedBlanked()
    ensures var cs := [Chunk(Quoted, [39, 92, 39, 39], true), Chunk(BlockComment, [47, 42, 39, 92, 39, 42, 47], true),
                       Chunk(Quoted, [39, 97, 39], true)];
      |Join(StripChunks(cs))| == 8
  {
    hide StripChunks;
    var a, b, c := Chunk(Quoted, [39, 92, 39, 39], true), Chunk(BlockComment, [47, 42, 39, 92, 39, 42, 47], true),
                   Chunk(Quoted, [39, 97, 39], true);
    assert StripChunks([a, b, c]) == [a, BLANK, c];
    assert [a, BLANK, c][1..] == [BLANK, c] && [BLANK, c][1..] == [c] && [c][1..] == [];
    assert Join([c]) == c.text && Join([BLANK, c]) == [SPACE] + c.text;
  }

  // ---- idempotence: the causes ----

  /** 1$$abc */
  const NUMBER_THEN_TAG: text := [49, DOLLAR, DOLLAR, 97, 98, 99]

  /** The number becomes a "?", behind which $$ opens a string. */
  lemma NumberCause(d: Dialect)
    ensures !Settled(Stripped(NUMBER_THEN_TAG), d)
    ensures Redacted(Redacted(NUMBER_THEN_TAG, d), d) != Redacted(NUMBER_THEN_TAG, d)
  {
    hide CutFrom, Redacted, PiecesFrom, NumberLen, Pieces, Reopens, Stripped;
    var s := NUMBER_THEN_TAG;
    NothingToStrip(s, 0);
    StripShrinks(s);
    FromTheStart(s, d);
    NumberByteIsPlain(d, s, 0);
    NumberIsAhead();
    StructurePieces(d, s, 0, 0);
    assert Number(0, 1) in PiecesFrom(d, s, 0, 0);
    ItReopens();
    IdempotentExactly(s, d);
  }

  lemma ItReopens()
    ensures Reopens(NUMBER_THEN_TAG, 1)
  {
    assert IdentRun(NUMBER_THEN_TAG, 2) == 0 && IdentRun(NUMBER_THEN_TAG, 3) == 3;
  }

  lemma NumberIsAhead()
    ensures NumberLen(NUMBER_THEN_TAG, 0) == 1 && !SuppressesNumber(0)
  {
    assert DecimalRun(NUMBER_THEN_TAG, 1) == 0 && ExponentLen(NUMBER_THEN_TAG, 1) == 0;
  }

  lemma {:induction false} NothingToStrip(s: text, i: nat)
    requires i <= |s| && DASH !in s && SLASH !in s
    ensures forall c :: c in Lex(STRIPPING, s, i) ==> !c.IsComment()
    decreases |s| - i
  {
    hide CutFrom, Run, DollarTag, DollarRun, LineRun, BlockRun;
    if i < |s| {
      StripCut(s, i);
      assert s[i] in s;
      NothingToStrip(s, i + CutFrom(STRIPPING, s, i).len);
    }
  }

  /** `'` '"' `'` -- " */
  const TICKS: text := [96, 39, 96, 32, 39, 34, 39, 32, 96, 39, 96, 32, 45, 45, 32, 34]

  /** `'` ? `'` -- ? */
  const TICKS_REDACTED: text := [96, 39, 96, 32, 63, 32, 96, 39, 96, 32, 45, 45, 32, 63]

  lemma TicksWritten(d: Dialect)
    ensures WrittenFrom(d, TICKS, 0, 0) == TICKS_REDACTED
  {
    hide WrittenFrom;
    var s := TICKS;
    QuotedWritten(d, s, 0, 3, 0);
    ByteWritten(d, s, 3, BACKTICK);
    QuotedWritten(d, s, 4, 3, SPACE);
    TicksTail(d);
  }

  lemma TicksTail(d: Dialect)
    ensures WrittenFrom(d, TICKS, 7, QUESTION) == TICKS_REDACTED[5..]
  {
    hide WrittenFrom;
    var s := TICKS;
    ByteWritten(d, s, 7, QUESTION);
    QuotedWritten(d, s, 8, 3, SPACE);
    TicksEnd(d);
    assert TICKS_REDACTED[5..] == [SPACE] + (s[8..11] + TICKS_REDACTED[9..]);
  }

  lemma TicksEnd(d: Dialect)
    ensures WrittenFrom(d, TICKS, 11, BACKTICK) == TICKS_REDACTED[9..]
  {
    hide WrittenFrom;
    var s := TICKS;
    ByteWritten(d, s, 11, BACKTICK);
    ByteWritten(d, s, 12, SPACE);
    ByteWritten(d, s, 13, DASH);
    ByteWritten(d, s, 14, DASH);
    OpenWritten(d, s, 15, SPACE);
    assert TICKS_REDACTED[9..] == [SPACE] + ([DASH] + ([DASH] + ([SPACE] + [QUESTION])));
  }

  lemma TicksHaveNoComment()
    ensures BareFrom(TICKS, 0)
  {
    hide CutFrom, DollarTag, DollarRun, Run, LineRun, BlockRun, BareFrom;
    var s := TICKS;
    RunTo(SQUOTE, s, 2, 2);
    RunTo(DQUOTE, s, 6, 9);
    StripCut(s, 0);
    StripCut(s, 1);
    StripCut(s, 5);
    BareStep(s, 0);
    BareStep(s, 1);
    BareStep(s, 5);
    BareEnd(s);
  }

  lemma RedactedTicksHaveOne()
    ensures !BareFrom(TICKS_REDACTED, 0)
  {
    hide CutFrom, DollarTag, DollarRun, Run, LineRun, BlockRun, BareFrom;
    var t := TICKS_REDACTED;
    RunTo(SQUOTE, t, 2, 5);
    StripCut(t, 0);
    StripCut(t, 1);
    StripCut(t, 8);
    StripCut(t, 9);
    StripCut(t, 10);
    BareStep(t, 0);
    BareStep(t, 1);
    BareStep(t, 8);
    BareStep(t, 9);
    BareStep(t, 10);
  }

  /** With backticks a quote that redaction keeps inside a name can move what comment stripping takes for a
      literal, and uncover a comment. */
  lemma BacktickCause(d: Dialect)
    ensures Redacted(TICKS, d) == TICKS_REDACTED && !CommentFree(STRIPPING, TICKS_REDACTED)
    ensures Redacted(Redacted(TICKS, d), d) != Redacted(TICKS, d)
  {
    hide Redacted, WrittenFrom, Lex;
    TicksHaveNoComment();
    TicksWritten(d);
    RedactedTicksHaveOne();
    Uncovered(TICKS, TICKS_REDACTED, d);
  }

  lemma Uncovered(sql: text, t: text, d: Dialect)
    requires BACKSLASH !in sql && CommentFree(STRIPPING, sql) && WrittenFrom(d, sql, 0, 0) == t
    requires !CommentFree(STRIPPING, t)
    ensures Redacted(sql, d) == t && Redacted(t, d) != t
  {
    hide RedactedText, Stripped, WrittenFrom, PiecesFrom, Settled, CommentFree;
    StripShrinks(sql);
    FromTheStart(sql, d);
    IdempotentExactly(sql, d);
  }

  /** '\' then a backtick and '1 */
  const HALF_NAME: text := [39, 92, 39, 96, 39, 49]

  lemma HalfNameStripped()
    ensures Stripped(HALF_NAME) == HALF_NAME
  {
    hide CutFrom, BareFrom, StrippedFrom;
    var s := HALF_NAME;
    QuotedCut(STRIPPING, s, 0, 3);
    StripCut(s, 3);
    OpenCut(STRIPPING, s, 4);
    BareStep(s, 0);
    BareStep(s, 3);
    BareStep(s, 4);
    BareEnd(s);
    BareIsStripped(s);
  }

  lemma HalfNameRuns()
    ensures Run(SQUOTE, false, HALF_NAME, 1) == Extent(2, true) && Run(SQUOTE, true, HALF_NAME, 1) == Extent(4, true)
    ensures Run(BACKTICK, false, HALF_NAME, 4) == Extent(2, false)
  {
    hide Run;
    var s := HALF_NAME;
    RunTo(SQUOTE, s, 1, 1);
    RunStep(SQUOTE, true, s, 4);
    RunStep(SQUOTE, true, s, 3);
    RunStep(SQUOTE, true, s, 1);
    RunOpen(BACKTICK, s, 4);
  }

  /** A backtick opens a name. */
  lemma NameFrom(d: Dialect, s: text, i: nat)
    requires i < |s| && s[i] == BACKTICK
    ensures var r := LiteralReading(false, d); var j := i + 1 + Run(BACKTICK, false, s, i + 1).len;
      SpansFrom(r, d, Value, s, i) == SpansFrom(r, d, Value, s, j) &&
      SpansFrom(r, d, Name, s, i) == [Span(i, j)] + SpansFrom(r, d, Name, s, j)
  {
    hide CutFrom, Run, DollarTag, DollarRun;
    LiteralCut(false, d, s, i);
    SpansHead(LiteralReading(false, d), d, Value, s, i);
    SpansHead(LiteralReading(false, d), d, Name, s, i);
  }

  lemma HalfNameSpans(d: Dialect)
    ensures LiteralsOf(HALF_NAME, false, d) == [Span(0, 3)] && NamesOf(HALF_NAME, false, d) == [Span(3, 6)]
    ensures LiteralsOf(HALF_NAME, true, d) == [Span(0, 5)] && RedactedSpans(HALF_NAME, d) == [Span(0, 5)]
  {
    hide SpansFrom, Run;
    var s, a, b := HALF_NAME, Span(0, 3), Span(0, 5);
    HalfNameRuns();
    ValueFrom(false, d, s, 0);
    NameFrom(d, s, 3);
    ValueFrom(true, d, s, 0);
    NoneFrom(true, d, s, 5);
    NoSpansLeft(LiteralReading(false, d), d, Value, s);
    NoSpansLeft(LiteralReading(false, d), d, Name, s);
    NoSpansLeft(LiteralReading(true, d), d, Value, s);
    assert s[1] == BACKSLASH;
    assert [a][1..] == [] && [b][1..] == [] && Absorb([], a) == [a] && Absorb([a], b) == [b];
    assert MergeFrom([a], [], [b]) == MergeFrom([b], [], []);
  }

  lemma HalfNameRedacted(d: Dialect)
    ensures RedactedText(HALF_NAME, d) == [QUESTION, 49]
  {
    hide Walk, LiteralsOf, NamesOf, RedactedSpans, Render, RedactedText;
    var s, rs, ks := HALF_NAME, [Span(0, 5)], [Span(3, 6)];
    HalfNameSpans(d);
    assert rs[1..] == [] && ks[1..] == [];
    WalkPiece(s, rs, ks, 0, 0);
    WalkDrops(s, rs, [], ks, ks, 5, QUESTION);
    WalkPiece(s, [], ks, 5, QUESTION);
    NoPieces(s, [], ks, 6, 49);
    TextOfPieces(s, d);
    RenderFirst(Literal(Span(0, 5)), [Copy(5)], s);
    RenderFirst(Copy(5), [], s);
    assert [Literal(Span(0, 5))] + [Copy(5)] == [Literal(Span(0, 5)), Copy(5)] && [Copy(5)] + [] == [Copy(5)];
    assert Render([], s) == [];
  }

  lemma OneRedacted(d: Dialect)
    ensures Redacted([QUESTION, 49], d) == [QUESTION, QUESTION]
  {
    hide WrittenFrom, RedactedText, CutFrom, BareFrom, StrippedFrom, ClassFrom, NumberLen;
    var s := [QUESTION, 49];
    OrdinaryCut(STRIPPING, s, 0);
    OrdinaryCut(STRIPPING, s, 1);
    BareStep(s, 0);
    BareStep(s, 1);
    BareEnd(s);
    BareIsStripped(s);
    AllWritten(s, d);
    ByteWritten(d, s, 0, 0);
    NumberByteIsPlain(d, s, 1);
    ChunkWritten(d, s, 1, QUESTION);
    OneIsANumber(s);
    NothingFrom(d, s, QUESTION);
  }

  lemma OneIsANumber(s: text)
    requires s == [QUESTION, 49]
    ensures NumberLen(s, 1) == 1
  {
    assert DecimalRun(s, 2) == 0;
  }

  /** Where the two backslash readings differ a name can be redacted in part; what is left of it is no name then. */
  lemma ReadingsCause(d: Dialect)
    ensures Redacted(HALF_NAME, d) == [QUESTION, 49] && Redacted(Redacted(HALF_NAME, d), d) == [QUESTION, QUESTION]
    ensures !OneReading(Stripped(HALF_NAME), d)
  {
    hide RedactedText, Stripped, RedactedSpans, LiteralsOf;
    HalfNameStripped();
    HalfNameSpans(d);
    HalfNameRedacted(d);
    OneRedacted(d);
  }

  // ---- separators: two that are missed ----

  /** '\''; and a */
  const ESCAPE_THEN_STATEMENT: text := [39, 92, 39, 39, 59, 97]

  /** A name that holds a quote, then ; and a */
  const QUOTE_NAME_THEN_STATEMENT: text := [96, 39, 96, 59, 97]

  /** An open run at i hides everything behind it. */
  lemma HiddenFrom(r: Reading, s: text, i: nat)
    requires i < |s| && CutFrom(r, s, i) == Cut(Quoted, |s| - i, false)
    ensures !SeparatesFrom(r, s, i)
  {
    hide CutFrom;
  }

  lemma FirstIsNone(r: Reading, s: text)
    requires 1 < |s| && s[0] != SEMICOLON && CutFrom(r, s, 0) == Cut(Plain, 1, true) && !SeparatesFrom(r, s, 1)
    ensures !Separates(r, s)
  {
    hide CutFrom;
    LaterSeparator(r, s, 0);
  }

  /** Where backslashes escape, the ";" behind an escaped quote is missed. */
  lemma MissedBehindEscape(d: Dialect)
    ensures IsMulti(ESCAPE_THEN_STATEMENT, true, d) && !FoundMulti(ESCAPE_THEN_STATEMENT)
  {
    hide CutFrom, Lex, Run, StrippedFrom, BareFrom, SeparatesFrom;
    var s, r := ESCAPE_THEN_STATEMENT, Whole(true, d);
    EscapeRuns();
    RunCut(STRIPPING, s, 0);
    BareStep(s, 0);
    BareEnd(s);
    BareIsStripped(s);
    RunCut(Blanking(true, false), s, 0);
    RunCut(Blanking(false, false), s, 0);
    HiddenFrom(Blanking(true, false), s, 0);
    HiddenFrom(Blanking(false, false), s, 0);
    RunCut(r, s, 0);
    LexClosed(r, s, 0, Quoted, [39, 92, 39, 39]);
    LexOrdinary(r, s, 4);
    LexOrdinary(r, s, 5);
    NothingToLex(r, s);
    StatementBehind(Lex(r, s, 0));
  }

  lemma EscapeRuns()
    ensures Run(SQUOTE, false, ESCAPE_THEN_STATEMENT, 1) == Extent(5, false)
    ensures Run(SQUOTE, true, ESCAPE_THEN_STATEMENT, 1) == Extent(3, true)
  {
    hide Run;
    var s := ESCAPE_THEN_STATEMENT;
    RunOpen(SQUOTE, s, 4);
    RunStep(SQUOTE, false, s, 2);
    RunStep(SQUOTE, false, s, 1);
    RunStep(SQUOTE, true, s, 3);
    RunStep(SQUOTE, true, s, 1);
  }

  /** A chunk, a ";" and a letter. */
  lemma StatementBehind(cs: seq<Chunk>)
    requires |cs| == 3 && cs[1] == Chunk(Plain, [59], true) && cs[2] == Chunk(Plain, [97], true)
    ensures exists i, j :: SeparatesAt(cs, i, j)
  {
    assert !IsSpace(cs[2].text[0]);
    assert SeparatesAt(cs, 1, 2);
  }

  /** So is, however backslashes are read, the one behind a name that holds a quote. */
  lemma MissedBehindName(escapes: bool, d: Dialect)
    ensures IsMulti(QUOTE_NAME_THEN_STATEMENT, escapes, d) && !FoundMulti(QUOTE_NAME_THEN_STATEMENT)
  {
    hide CutFrom, Lex, StrippedFrom, BareFrom, SeparatesFrom;
    var s, r := QUOTE_NAME_THEN_STATEMENT, Whole(escapes, d);
    StripCut(s, 0);
    OpenCut(STRIPPING, s, 1);
    BareStep(s, 0);
    BareStep(s, 1);
    BareEnd(s);
    BareIsStripped(s);
    NothingBehindName(Blanking(true, false));
    NothingBehindName(Blanking(false, false));
    QuotedCut(r, s, 0, 3);
    LexClosed(r, s, 0, Quoted, [96, 39, 96]);
    LexOrdinary(r, s, 3);
    LexOrdinary(r, s, 4);
    NothingToLex(r, s);
    StatementBehind(Lex(r, s, 0));
  }

  lemma NothingBehindName(r: Reading)
    requires r in {Blanking(true, false), Blanking(false, false)}
    ensures !Separates(r, QUOTE_NAME_THEN_STATEMENT)
  {
    hide CutFrom, SeparatesFrom;
    var s := QUOTE_NAME_THEN_STATEMENT;
    OrdinaryBacktick(r, s);
    OpenCut(r, s, 1);
    HiddenFrom(r, s, 1);
    FirstIsNone(r, s);
  }

  lemma OrdinaryBacktick(r: Reading, s: text)
    requires s != [] && s[0] == BACKTICK && r.backticks.Ordinary?
    ensures CutFrom(r, s, 0) == Cut(Plain, 1, true)
  {
  }
}
