/** What each pass takes for a literal or a comment, in bytes, and what it writes in its place. */
module Passes {
  import opened Blank
  import opened Bytes
  import opened Lexing
  import opened Queries
  import opened Spans
  import opened Strip
  import opened Suppress
  import opened Tokens

  /** A quoted run with escapes or without, from its first byte to its end. */
  ghost predicate IsRun(s: text, i: nat, escapes: bool, c: Cut)
    requires i < |s|
  {
    c.kind.Quoted? && RunEndsAt(s[i], escapes, s, i + 1, i + c.len, c.closed)
  }

  /** A delimiter that does not go on with a name. */
  ghost predicate OpensString(s: text, i: nat)
  {
    (i == 0 || (i <= |s| && !InName(s[i - 1]))) && exists n :: TagIs(s, i, n)
  }

  /** A dollar quote, up to the next copy of its delimiter. */
  ghost predicate IsString(s: text, i: nat, c: Cut)
  {
    c.kind.DollarQuoted? && exists n :: TagIs(s, i, n) && StringEndsAt(s, i, n, i + c.len, c.closed)
  }

  predicate IsByte(c: Cut) { c == Cut(Plain, 1, true) }

  /** A line comment, up to the next line end. */
  ghost predicate IsLine(s: text, i: nat, c: Cut)
  {
    c.kind.LineComment? && i + c.len <= |s| && (forall p :: i < p < i + c.len ==> s[p] != 10) &&
    (i + c.len < |s| ==> s[i + c.len] == 10)
  }

  /** A block comment, up to the first end mark behind its opening. */
  ghost predicate IsBlock(s: text, i: nat, c: Cut)
  {
    var j := i + c.len;
    c.kind.BlockComment? && j <= |s| &&
    if c.closed then
      i + 4 <= j && s[j - 2] == 42 && s[j - 1] == 47 &&
      forall p :: i + 2 <= p < j - 2 ==> !(s[p] == 42 && s[p + 1] == 47)
    else j == |s| && forall p :: i + 2 <= p < |s| - 1 ==> !(s[p] == 42 && s[p + 1] == 47)
  }

  predicate OpensBlock(s: text, i: nat) { i + 1 < |s| && s[i] == 47 && s[i + 1] == 42 }

  predicate OpensDashes(s: text, i: nat) { i + 1 < |s| && s[i] == 45 && s[i + 1] == 45 }

  /** What a cut is, under any reading. */
  lemma CutIs(r: Reading, s: text, i: nat)
    requires i < |s|
    ensures var c := CutFrom(r, s, i);
      (c.kind.Quoted? ==> IsRun(s, i, (s[i] == 39 && r.escapeSingle) || (s[i] == 34 && r.escapeDouble), c)) &&
      (c.kind.DollarQuoted? ==> IsString(s, i, c)) && (c.kind.LineComment? ==> IsLine(s, i, c)) &&
      (c.kind.BlockComment? ==> IsBlock(s, i, c)) && (c.kind.Plain? ==> IsByte(c))
    ensures var k := CutFrom(r, s, i).kind;
      (k.DollarQuoted? <==> r.dollar && OpensString(s, i)) && (k.BlockComment? <==> r.comments && OpensBlock(s, i))
  {
    hide CutFrom, RunEndsAt, TagIs, StringEndsAt;
    QuotedExactly(r, s, i);
    DollarExactly(r, s, i);
    LineExactly(r, s, i);
    BlockExactly(r, s, i);
    if CutFrom(r, s, i).kind.Plain? { PlainIsOneByte(r, s, i); }
  }

  /** Redaction reads quotes, with escapes in single quotes and, but under Postgres, in double quotes, and dollar
      quotes; it knows no comments. */
  lemma RedactionReads(s: text, escapes: bool, d: Dialect, i: nat)
    requires i < |s|
    ensures var c := CutFrom(LiteralReading(escapes, d), s, i);
      if s[i] in {34, 39, 96} then IsRun(s, i, escapes && (s[i] == 39 || (s[i] == 34 && d != Postgres)), c)
      else if OpensString(s, i) then IsString(s, i, c)
      else IsByte(c)
  {
    var r := LiteralReading(escapes, d);
    hide CutFrom, RunEndsAt, TagIs, StringEndsAt, IsByte, IsString, OpensString;
    CutIs(r, s, i);
    QuotedExactly(r, s, i);
    LineExactly(r, s, i);
  }

  /** Stripping reads single and double quotes without escapes, dollar quotes, "--" and block comments. */
  lemma StrippingReads(s: text, i: nat)
    requires i < |s|
    ensures var c := CutFrom(STRIPPING, s, i);
      if s[i] in {34, 39} then IsRun(s, i, false, c)
      else if OpensString(s, i) then IsString(s, i, c)
      else if OpensDashes(s, i) then IsLine(s, i, c)
      else if OpensBlock(s, i) then IsBlock(s, i, c)
      else IsByte(c)
  {
    hide CutFrom, RunEndsAt, TagIs, StringEndsAt, IsByte, IsString, IsLine, IsBlock, OpensString;
    CutIs(STRIPPING, s, i);
    QuotedExactly(STRIPPING, s, i);
    LineExactly(STRIPPING, s, i);
  }

  /** Blanking reads single and double quotes without escapes, dollar quotes if told to, and, if told to, a backtick
      that has another one behind it. */
  lemma BlankingReads(dollarQuotes: bool, backticks: bool, s: text, i: nat)
    requires i < |s|
    ensures var c := CutFrom(Blanking(dollarQuotes, backticks), s, i);
      if s[i] in {34, 39} || (backticks && s[i] == 96 && exists k :: i < k < |s| && s[k] == 96) then
        IsRun(s, i, false, c)
      else if dollarQuotes && OpensString(s, i) then IsString(s, i, c)
      else IsByte(c)
  {
    var r := Blanking(dollarQuotes, backticks);
    hide CutFrom, RunEndsAt, TagIs, StringEndsAt, IsByte, IsString, OpensString;
    CutIs(r, s, i);
    QuotedExactly(r, s, i);
    LineExactly(r, s, i);
  }

  /** The search for directives reads quotes and backticks, with escapes in the first two or without, dollar quotes or
      none, block comments, and "#" and "--" as it is told. */
  lemma SuppressionReads(backslash: bool, dollar: bool, hash: bool, looseDash: bool, s: text, i: nat)
    requires i < |s|
    ensures var c := CutFrom(LexReading(backslash, dollar, hash, looseDash), s, i);
      if s[i] in {34, 39, 96} then IsRun(s, i, backslash && s[i] != 96, c)
      else if dollar && OpensString(s, i) then IsString(s, i, c)
      else if (hash && s[i] == 35) || (OpensDashes(s, i) && (looseDash || i + 2 == |s| || s[i + 2] <= 32)) then
        IsLine(s, i, c)
      else if OpensBlock(s, i) then IsBlock(s, i, c)
      else IsByte(c)
  {
    var r := LexReading(backslash, dollar, hash, looseDash);
    hide CutFrom, RunEndsAt, TagIs, StringEndsAt, IsByte, IsString, IsLine, IsBlock, OpensString;
    CutIs(r, s, i);
    QuotedExactly(r, s, i);
    LineExactly(r, s, i);
  }

  /** Reading a whole query is redaction's reading with the comments that stripping looks for. */
  lemma QueryReads(s: text, escapes: bool, d: Dialect, i: nat)
    requires i < |s|
    ensures var c := CutFrom(Whole(escapes, d), s, i);
      if s[i] in {34, 39, 96} then IsRun(s, i, escapes && (s[i] == 39 || (s[i] == 34 && d != Postgres)), c)
      else if OpensString(s, i) then IsString(s, i, c)
      else if OpensDashes(s, i) then IsLine(s, i, c)
      else if OpensBlock(s, i) then IsBlock(s, i, c)
      else IsByte(c)
  {
    var r := Whole(escapes, d);
    hide CutFrom, RunEndsAt, TagIs, StringEndsAt, IsByte, IsString, IsLine, IsBlock, OpensString;
    CutIs(r, s, i);
    QuotedExactly(r, s, i);
    LineExactly(r, s, i);
  }

  // ---- what is written ----

  /** Stripping writes one space for a comment and everything else as it is. */
  lemma StrippingWrites(s: text)
    ensures var before, after := Lex(STRIPPING, s, 0), Lex(STRIPPING, Stripped(s), 0);
      |after| == |before| &&
      forall k :: 0 <= k < |before| ==>
        if before[k].kind in {LineComment, BlockComment} then after[k].kind == Plain && after[k].text == [32]
        else after[k] == before[k]
  {
    hide Lex, Stripped;
    StripLexes(s);
  }

  /** c' is what blanking leaves of c: two quotes, with an "x" between backticks, or two delimiters. */
  ghost predicate IsEmptied(c: Chunk, c': Chunk)
  {
    match c.kind
    case Quoted =>
      c.text != [] && c'.kind == Quoted &&
      c'.text == if c.text[0] == 96 then [96, 120, 96] else [c.text[0], c.text[0]]
    case DollarQuoted =>
      c'.kind == DollarQuoted &&
      exists n: nat :: TagIs(c.text, 0, n) && n <= |c.text| && c'.text == c.text[..n] + c.text[..n]
    case _ => c' == c
  }

  lemma BlankingWrites(dollarQuotes: bool, backticks: bool, s: text)
    ensures var r := Blanking(dollarQuotes, backticks);
      var before, after := Lex(r, s, 0), Lex(r, Blanked(r, s), 0);
      |after| == |before| && forall k :: 0 <= k < |before| ==> IsEmptied(before[k], after[k])
  {
    var r := Blanking(dollarQuotes, backticks);
    hide Lex, Blanked, TagIs, BlankChunk, IsEmptied;
    BlankLexes(r, s);
    var before := Lex(r, s, 0);
    forall k | 0 <= k < |before| ensures IsEmptied(before[k], BlankChunk(before[k])) { Emptied(r, s, before, k); }
  }

  lemma Emptied(r: Reading, s: text, cs: seq<Chunk>, k: nat)
    requires cs == Lex(r, s, 0) && Nonempty(cs) && k < |cs|
    ensures IsEmptied(cs[k], BlankChunk(cs[k]))
  {
    hide Lex, TagIs;
    LexComplete(r, s, 0);
    assert cs[k] in cs;
    if cs[k].kind.DollarQuoted? {
      var n := DollarTag(cs[k].text, 0);
      hide DollarTag;
      TagExactly(cs[k].text, 0, n);
    }
  }
}
