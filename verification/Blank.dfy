/** blankQuoted and IsMultiStatement: emptying literals, and finding a second statement. */
module Blank {
  import opened Bytes
  import opened Lexing
  import opened Scanners
  import Strip

  function Blanking(dollarQuotes: bool, backticks: bool): Reading
  {
    Reading(false, false, dollarQuotes, if backticks then QuotingIfPaired else Ordinary, false, false, false)
  }

  predicate IsBlanking(r: Reading) { r == Blanking(r.dollar, r.backticks.QuotingIfPaired?) }

  /** A literal reduced to its delimiters; a backtick name keeps one byte of its own. */
  function BlankChunk(c: Chunk): Chunk
    requires c.text != []
  {
    if c.kind.Quoted? then Chunk(Quoted, BlankRun(c.text[0]), true)
    else if c.kind.DollarQuoted? then
      var tag := c.text[..DollarTag(c.text, 0)];
      Chunk(DollarQuoted, tag + tag, true)
    else c
  }

  function BlankRun(q: byte): text { if q == BACKTICK then [q, LOWER_X, q] else [q, q] }

  predicate Nonempty(cs: seq<Chunk>) { forall i :: 0 <= i < |cs| ==> cs[i].text != [] }

  function BlankChunks(cs: seq<Chunk>): (r: seq<Chunk>)
    requires Nonempty(cs)
    ensures |r| == |cs| && forall i :: 0 <= i < |cs| ==> r[i] == BlankChunk(cs[i])
  {
    if cs == [] then [] else [BlankChunk(cs[0])] + BlankChunks(cs[1..])
  }

  lemma {:induction false} LexNonempty(r: Reading, s: text, i: nat)
    requires i <= |s|
    ensures Nonempty(Lex(r, s, i))
    decreases |s| - i
  {
    hide CutAt;
    if i < |s| { LexNonempty(r, s, i + CutFrom(r, s, i).len); }
  }

  function BlankedFrom(r: Reading, s: text, i: nat): text
    requires i <= |s|
  {
    LexNonempty(r, s, i);
    Join(BlankChunks(Lex(r, s, i)))
  }

  function Blanked(r: Reading, s: text): text { BlankedFrom(r, s, 0) }

  // ---- the pass ----

  /** One step of the pass: what is appended to b for the chunk at i. */
  lemma BlankStep(b: text, r: Reading, s: text, i: nat) returns (a: text, j: nat)
    requires i < |s|
    ensures j == i + CutFrom(r, s, i).len <= |s|
    ensures BlankedFrom(r, s, i) == a + BlankedFrom(r, s, j)
    ensures b + BlankedFrom(r, s, i) == b + a + BlankedFrom(r, s, j)
    ensures var c := CutFrom(r, s, i);
      a == if c.kind.Quoted? then BlankRun(s[i])
      else if c.kind.DollarQuoted? then var tag := s[i..i + DollarTag(s, i)]; tag + tag
      else s[i..j]
  {
    hide CutAt;
    var c := ChunkFrom(r, s, i);
    j := i + CutFrom(r, s, i).len;
    a := BlankChunk(c).text;
    LexNonempty(r, s, i);
    LexNonempty(r, s, j);
    assert BlankedFrom(r, s, i) == a + BlankedFrom(r, s, j);
    assert b + (a + BlankedFrom(r, s, j)) == b + a + BlankedFrom(r, s, j);
    if c.kind.DollarQuoted? { ChunkTag(r, s, i); }
  }

  lemma ChunkTag(r: Reading, s: text, i: nat)
    requires i < |s| && CutFrom(r, s, i).kind.DollarQuoted?
    ensures var c := ChunkFrom(r, s, i).text; var n := DollarTag(s, i);
            0 < DollarTag(c, 0) == n <= |c| && c[..n] == s[i..i + n]
  {
    hide Run, LineRun, BlockRun;
    var c := ChunkFrom(r, s, i).text;
    DollarShift(s, i);
    assert s[i..] == c + s[i + |c|..];
    TagInContext(c, s[i + |c|..]);
  }

  predicate OpensTag(r: Reading, s: text, i: nat)
    requires i < |s|
  {
    r.dollar && s[i] == DOLLAR && !WordBefore(s, i) && DollarTag(s, i) > 0
  }

  predicate OpensRun(r: Reading, s: text, i: nat)
    requires i < |s|
  {
    s[i] == SQUOTE || s[i] == DQUOTE ||
    (r.backticks.QuotingIfPaired? && s[i] == BACKTICK && IndexFrom(s, [BACKTICK], i + 1) >= 0)
  }

  /** What the pass meets at i under its reading. */
  lemma BlankCut(r: Reading, s: text, i: nat)
    requires i < |s| && IsBlanking(r)
    ensures CutFrom(r, s, i) ==
      if OpensTag(r, s, i) then
        var e := DollarRun(s, i); Cut(DollarQuoted, e.len, e.closed)
      else if OpensRun(r, s, i) then
        var e := Run(s[i], false, s, i + 1); Cut(Quoted, 1 + e.len, e.closed)
      else Cut(Plain, 1, true)
  {
    hide IndexFrom, OccursAt;
    AnotherBacktick(s, i);
  }

  lemma AnotherBacktick(s: text, i: nat)
    requires i < |s|
    ensures IndexFrom(s, [BACKTICK], i + 1) >= 0 <==> exists k :: i < k < |s| && s[k] == BACKTICK
  {
    hide IndexFrom;
    var m := IndexFrom(s, [BACKTICK], i + 1);
    forall k | i < k < |s| ensures OccursAt(s, [BACKTICK], k) <==> s[k] == BACKTICK {
      OccursOnce(s, BACKTICK, k);
    }
  }

  lemma OccursOnce(t: text, b: byte, k: nat)
    requires k < |t|
    ensures OccursAt(t, [b], k) <==> t[k] == b
  {
    assert t[k..k + 1] == [t[k]];
  }

  /** How the pass goes on at i. */
  lemma BlankCases(b: text, r: Reading, s: text, i: nat)
    requires i < |s| && IsBlanking(r)
    ensures OpensTag(r, s, i) ==>
      var tag, j := s[i..i + DollarTag(s, i)], i + DollarRun(s, i).len;
      j <= |s| && b + BlankedFrom(r, s, i) == b + tag + tag + BlankedFrom(r, s, j)
    ensures !OpensTag(r, s, i) && OpensRun(r, s, i) ==>
      var j := i + 1 + Run(s[i], false, s, i + 1).len;
      j <= |s| && b + BlankedFrom(r, s, i) == b + BlankRun(s[i]) + BlankedFrom(r, s, j)
    ensures !OpensTag(r, s, i) && !OpensRun(r, s, i) ==>
      b + BlankedFrom(r, s, i) == b + [s[i]] + BlankedFrom(r, s, i + 1)
  {
    hide CutFrom, BlankedFrom, DollarRun, DollarTag, IndexFrom, OccursAt, Run, BlankRun;
    var a, j := BlankStep(b, r, s, i);
    BlankCut(r, s, i);
    if OpensTag(r, s, i) {
      var tag := s[i..i + DollarTag(s, i)];
      assert b + (tag + tag) == b + tag + tag;
    }
    assert s[i..i + 1] == [s[i]];
  }

  /** blankQuoted */
  method BlankQuoted(s: text, dollarQuotes: bool, backticks: bool) returns (b: text)
    ensures b == Blanked(Blanking(dollarQuotes, backticks), s)
  {
    hide BlankedFrom, DollarRun, DollarTag, IndexFrom, OccursAt, Run, BlankRun;
    ghost var r := Blanking(dollarQuotes, backticks);
    b := [];
    var i := 0;
    while i < |s|
      invariant i <= |s|
      invariant b + BlankedFrom(r, s, i) == Blanked(r, s)
    {
      BlankCases(b, r, s, i);
      var c := s[i];
      if dollarQuotes && c == DOLLAR {
        var end, tagLen, ok := ScanDollarQuoted(s, i);
        if ok {
          b := b + s[i..i + tagLen];
          b := b + s[i..i + tagLen];
          i := end;
          continue;
        }
      }
      if c == SQUOTE || c == DQUOTE ||
         (backticks && c == BACKTICK && IndexFrom(s, [BACKTICK], i + 1) >= 0) {
        b, i := BlankQuotedRun(b, s, i);
        continue;
      }
      b := b + [c];
      i := i + 1;
    }
    NothingLeft(r, s);
  }

  lemma NothingLeft(r: Reading, s: text)
    ensures BlankedFrom(r, s, |s|) == []
  {
  }

  /** blankQuotedRun: appends the emptied run that opens at s[i]. */
  method BlankQuotedRun(b: text, s: text, i: nat) returns (b': text, end: nat)
    requires i < |s|
    ensures end == i + 1 + Run(s[i], false, s, i + 1).len && b' == b + BlankRun(s[i])
  {
    var q := s[i];
    b' := b + [q];
    if q == BACKTICK {
      b' := b' + [LOWER_X];
    }
    end := i + 1;
    ghost var all := Run(q, false, s, i + 1);
    while end < |s|
      invariant i + 1 <= end <= |s|
      invariant all == Run(q, false, s, end).After(end - i - 1)
    {
      if s[end] == q {
        if end + 1 < |s| && s[end + 1] == q {
          end := end + 2;
          continue;
        }
        assert all.len == end - i;
        end := end + 1;
        break;
      }
      end := end + 1;
    }
    b' := b' + [q];
    assert b' == b + BlankRun(q);
  }

  // ---- blanking is exact ----

  lemma BlankRunComplete(r: Reading, q: byte)
    requires q == SQUOTE || q == DQUOTE || (q == BACKTICK && r.backticks.QuotingIfPaired?)
    requires !Escapes(r, q)
    ensures Complete(r, Chunk(Quoted, BlankRun(q), true))
  {
    var t := BlankRun(q);
    assert OpensQuote(r, t, 0) by { assert t[|t| - 1] == q; }
    assert Run(q, false, t, |t| - 1) == Extent(1, true);
  }

  /** A dollar quote with an empty body lexes to itself, and keeps its delimiter. */
  lemma BlankDollarComplete(r: Reading, t: text)
    requires t != [] && DollarTag(t, 0) > 0 && r.dollar && !r.comments
    ensures var n := DollarTag(t, 0); var u := t[..n] + t[..n];
            DollarTag(u, 0) == n && Complete(r, Chunk(DollarQuoted, u, true))
  {
    var n := DollarTag(t, 0);
    var tag := t[..n];
    var u := tag + tag;
    assert t == tag + t[n..];
    TagInContext(tag, t[n..]);
    TagInContext(tag, tag);
    assert u[0..n] == tag && u[n..n + n] == tag;
    assert OccursAt(u, tag, n);
    assert IndexFrom(u, tag, n) == n;
    assert u[..|u|] == u;
  }

  lemma BlankReplaces(r: Reading, s: text, i: nat)
    requires i < |s| && IsBlanking(r)
    ensures var c := ChunkFrom(r, s, i); var c' := BlankChunk(c);
            Replaces(r, c, c') && c'.text != [] && BlankChunk(c') == c' &&
            (r.backticks.QuotingIfPaired? ==> BACKTICK in c'.text ==> BACKTICK in c.text)
  {
    hide CutAt, CutFrom;
    var c := ChunkFrom(r, s, i);
    BlankCut(r, s, i);
    if c.kind.Quoted? {
      BlankRunComplete(r, s[i]);
      assert c.text[0] == s[i];
      assert BACKTICK in BlankRun(s[i]) ==> s[i] == BACKTICK;
    } else if c.kind.DollarQuoted? {
      ChunkTag(r, s, i);
      BlankDollarComplete(r, c.text);
    }
  }

  lemma {:induction false} BlankRewrites(r: Reading, s: text, i: nat)
    requires i <= |s| && IsBlanking(r)
    ensures Nonempty(Lex(r, s, i)) && Rewrites(r, Lex(r, s, i), BlankChunks(Lex(r, s, i)))
    ensures var bs := BlankChunks(Lex(r, s, i)); Nonempty(bs) && BlankChunks(bs) == bs
    decreases |s| - i
  {
    hide CutAt, Replaces;
    LexNonempty(r, s, i);
    if i < |s| {
      BlankReplaces(r, s, i);
      var j := i + CutFrom(r, s, i).len;
      BlankRewrites(r, s, j);
      var cs, bs := Lex(r, s, j), BlankChunks(Lex(r, s, j));
      assert Lex(r, s, i) == [ChunkFrom(r, s, i)] + cs;
      assert BlankChunks(Lex(r, s, i)) == [BlankChunk(ChunkFrom(r, s, i))] + bs;
    }
  }

  /** Blanking commutes with lexing: the blanked text has the same plain bytes in the same
      places, and the emptied form of each literal. */
  lemma BlankLexes(r: Reading, s: text)
    requires IsBlanking(r)
    ensures Nonempty(Lex(r, s, 0))
    ensures Lex(r, Blanked(r, s), 0) == BlankChunks(Lex(r, s, 0))
  {
    hide CutAt;
    BlankRewrites(r, s, 0);
    assert Blanked(r, s)[0..] == Join(BlankChunks(Lex(r, s, 0)));
    Relex(r, s, 0, BlankChunks(Lex(r, s, 0)), Blanked(r, s), 0);
  }

  lemma BlankIdempotent(r: Reading, s: text)
    requires IsBlanking(r)
    ensures Blanked(r, Blanked(r, s)) == Blanked(r, s)
  {
    hide CutAt;
    BlankLexes(r, s);
    BlankRewrites(r, s, 0);
  }

  // ---- statement separators ----

  /** hasStatementSeparator: a ";" with something besides white space after it. */
  predicate HasStatementSeparator(blanked: text)
  {
    var k := IndexFrom(blanked, [SEMICOLON], 0);
    k >= 0 && TrimSpace(blanked[k + 1..]) != []
  }

  /** IsMultiStatement */
  method IsMultiStatement(sql: text) returns (multi: bool)
    ensures var s := Strip.Stripped(sql);
            multi <==> Separates(Blanking(true, false), s) || Separates(Blanking(false, false), s)
  {
    var s := Strip.StripComments(sql);
    SeparatorIsOutsideLiterals(Blanking(true, false), s);
    SeparatorIsOutsideLiterals(Blanking(false, false), s);
    var dollars := BlankQuoted(s, true, false);
    var plain := BlankQuoted(s, false, false);
    multi := HasStatementSeparator(dollars) || HasStatementSeparator(plain);
  }

  ghost predicate SeparatorAt(r: Reading, s: text, i: nat, p: nat)
    requires i <= p < |s|
  {
    s[p] == 59 && KindAt(r, s, i, p).Plain? && Content(s, p + 1)
  }

  /** A byte that is no tab, line end, return, feed or space stands at or after i. */
  ghost predicate Content(s: text, i: nat) { exists k :: i <= k < |s| && !(9 <= s[k] <= 13 || s[k] == 32) }

  ghost predicate SeparatesFrom(r: Reading, s: text, i: nat)
  {
    exists p :: i <= p < |s| && SeparatorAt(r, s, i, p)
  }

  /** Some ";" of s lies outside all literals and has content after it. */
  ghost predicate Separates(r: Reading, s: text) { SeparatesFrom(r, s, 0) }

  /** HasStatementSeparator, one byte at a time. */
  ghost predicate SemicolonThenContent(t: text, k: nat)
    requires k <= |t|
    decreases |t| - k
  {
    k < |t| && if t[k] == SEMICOLON then Content(t, k + 1) else SemicolonThenContent(t, k + 1)
  }

  lemma SeparatorSteps(t: text)
    ensures HasStatementSeparator(t) <==> SemicolonThenContent(t, 0)
  {
    hide IndexFrom, Content, SemicolonThenContent, TrimSpace;
    SemicolonFrom(t, 0);
    var k := IndexFrom(t, [SEMICOLON], 0);
    if k >= 0 { ContentOfTail(t, k + 1); }
  }

  lemma ContentOfTail(t: text, k: nat)
    requires k <= |t|
    ensures TrimSpace(t[k..]) != [] <==> Content(t, k)
  {
    var u := t[k..];
    assert forall m :: k <= m < |t| ==> t[m] == u[m - k];
    assert forall m :: 0 <= m < |u| ==> u[m] == t[m + k];
  }

  lemma {:induction false} SemicolonFrom(t: text, from: nat)
    requires from <= |t|
    ensures var k := IndexFrom(t, [SEMICOLON], from);
            SemicolonThenContent(t, from) <==> k >= 0 && Content(t, k + 1)
    decreases |t| - from
  {
    hide Content;
    if from < |t| {
      OccursOnce(t, SEMICOLON, from);
      SemicolonFrom(t, from + 1);
    }
  }

  lemma ContentOfConcat(a: text, rest: text, k: nat)
    requires k <= |a + rest|
    ensures k < |a| ==> (Content(a + rest, k) <==> Content(a, k) || Content(rest, 0))
    ensures |a| <= k ==> (Content(a + rest, k) <==> Content(rest, k - |a|))
  {
    var t := a + rest;
    assert forall m :: 0 <= m < |a| ==> t[m] == a[m];
    assert forall m :: 0 <= m < |rest| ==> t[|a| + m] == rest[m];
    assert forall m :: |a| <= m < |t| ==> t[m] == rest[m - |a|];
  }

  /** A piece without ";" in front does not matter to the first ";". */
  lemma {:induction false} SkipPiece(a: text, rest: text, k: nat)
    requires k <= |a + rest| && SEMICOLON !in a
    ensures SemicolonThenContent(a + rest, k) == SemicolonThenContent(rest, if k < |a| then 0 else k - |a|)
    decreases |a + rest| - k
  {
    hide Content;
    var t := a + rest;
    if k < |t| {
      SkipPiece(a, rest, k + 1);
      if k < |a| { assert t[k] == a[k] && a[k] in a; } else { ContentOfConcat(a, rest, k + 1); }
    }
  }

  /** An emptied literal holds no ";" and is content; so was the literal. */
  lemma PieceFacts(r: Reading, s: text, i: nat, a: text)
    requires i < |s| && IsBlanking(r)
    requires var c := CutFrom(r, s, i);
      a == if c.kind.Quoted? then BlankRun(s[i])
      else if c.kind.DollarQuoted? then var tag := s[i..i + DollarTag(s, i)]; tag + tag
      else s[i..i + c.len]
    ensures var c := CutFrom(r, s, i);
      if c.kind.Plain? then a == [s[i]] && c.len == 1
      else SEMICOLON !in a && Content(a, 0) && !IsSpace(s[i])
  {
    hide CutAt, CutFrom;
    BlankCut(r, s, i);
    var c := CutFrom(r, s, i);
    if c.kind.DollarQuoted? {
      var n := DollarTag(s, i);
      var tag := s[i..i + n];
      assert forall k :: 0 <= k < n ==> tag[k] == s[i + k];
      assert forall k :: i + 1 <= k < i + n - 1 ==> IsIdentByte(s[k]);
      assert !IsSpace(a[0]);
    } else if c.kind.Quoted? {
      assert !IsSpace(a[0]);
    }
  }

  /** Blanking keeps whether content follows. */
  lemma {:induction false} BlankKeepsContent(r: Reading, s: text, i: nat)
    requires i <= |s| && IsBlanking(r)
    ensures Content(BlankedFrom(r, s, i), 0) <==> Content(s, i)
    decreases |s| - i
  {
    hide CutAt, CutFrom, BlankedFrom;
    if i < |s| {
      var a, j := BlankStep([], r, s, i);
      PieceFacts(r, s, i, a);
      BlankKeepsContent(r, s, j);
      ContentOfConcat(a, BlankedFrom(r, s, j), 0);
      if !CutFrom(r, s, i).kind.Plain? {
        assert Content(s, i);
      } else {
        assert Content(a, 0) <==> !IsSpace(a[0]);
      }
    } else {
      NothingLeft(r, s);
    }
  }

  lemma {:induction false} SeparatorFrom(r: Reading, s: text, i: nat)
    requires i <= |s| && IsBlanking(r)
    ensures SemicolonThenContent(BlankedFrom(r, s, i), 0) <==> SeparatesFrom(r, s, i)
    decreases |s| - i
  {
    hide CutAt, CutFrom, BlankedFrom;
    if i < |s| {
      var a, j := BlankStep([], r, s, i);
      PieceFacts(r, s, i, a);
      SeparatorFrom(r, s, j);
      var rest := BlankedFrom(r, s, j);
      if a == [SEMICOLON] && CutFrom(r, s, i).kind.Plain? {
        BlankKeepsContent(r, s, j);
        ContentOfConcat(a, rest, 1);
        FirstSeparator(r, s, i);
      } else {
        SkipPiece(a, rest, 0);
        LaterSeparator(r, s, i);
      }
    } else {
      NothingLeft(r, s);
    }
  }

  lemma FirstSeparator(r: Reading, s: text, i: nat)
    requires i < |s| && s[i] == SEMICOLON && CutFrom(r, s, i).kind.Plain? && CutFrom(r, s, i).len == 1
    ensures SeparatesFrom(r, s, i) <==> Content(s, i + 1)
  {
    hide CutAt, CutFrom;
    if Content(s, i + 1) { assert SeparatorAt(r, s, i, i); }
  }

  lemma LaterSeparator(r: Reading, s: text, i: nat)
    requires i < |s| && (CutFrom(r, s, i).kind.Plain? ==> s[i] != SEMICOLON && CutFrom(r, s, i).len == 1)
    ensures SeparatesFrom(r, s, i) <==> SeparatesFrom(r, s, i + CutFrom(r, s, i).len)
  {
    hide CutAt, CutFrom;
    var j := i + CutFrom(r, s, i).len;
    if SeparatesFrom(r, s, i) {
      var p :| i <= p < |s| && SeparatorAt(r, s, i, p);
      assert p >= j && SeparatorAt(r, s, j, p);
    }
    if SeparatesFrom(r, s, j) {
      var p :| j <= p < |s| && SeparatorAt(r, s, j, p);
      assert SeparatorAt(r, s, i, p);
    }
  }

  /** The separator test on the blanked text finds exactly the ";" outside all literals. */
  lemma SeparatorIsOutsideLiterals(r: Reading, s: text)
    requires IsBlanking(r)
    ensures HasStatementSeparator(Blanked(r, s)) <==> Separates(r, s)
  {
    SeparatorSteps(Blanked(r, s));
    SeparatorFrom(r, s, 0);
  }
}
