/**
 The one declarative lexer that the repository's hand-written scanners are
 proved against. A text is cut into chunks: plain bytes, quoted runs,
 dollar-quoted strings and comments. A Reading says which constructs exist, so
 each scanner (and each dialect reading a scanner is run under) is one Reading.

 The central theorem is Relex: rewriting the chunks of a text in place, each
 literal by another complete literal and each comment by itself or a space,
 and lexing the joined result gives exactly the rewritten chunks back.
 */
module Lexing {
  import opened Bytes

  /** Backticks are plain bytes, quotes, or quotes only when another follows. */
  datatype Backticks = Ordinary | Quoting | QuotingIfPaired

  datatype Reading = Reading(
    escapeSingle: bool,    // a backslash escapes inside '...'
    escapeDouble: bool,    // a backslash escapes inside "..."
    dollar: bool,          // $tag$...$tag$ is a literal
    backticks: Backticks,
    comments: bool,        // -- and /* */ are comments
    hash: bool,            // # is a comment too
    looseDash: bool)       // -- needs no white space after it

  datatype Kind = Plain | Quoted | DollarQuoted | LineComment | BlockComment {
    predicate IsComment() { LineComment? || BlockComment? }

    predicate IsLiteral() { Quoted? || DollarQuoted? }
  }

  /** A maximal lexical unit; closed tells whether its closing delimiter was found. */
  datatype Chunk = Chunk(kind: Kind, text: text, closed: bool) {
    predicate IsComment() { kind.IsComment() }

    predicate IsLiteral() { kind.IsLiteral() }
  }

  datatype Extent = Extent(len: nat, closed: bool) {
    function After(n: nat): Extent { Extent(n + len, closed) }
  }

  // ---- quoted runs ----

  /** How far a run reaches from k on, whose opening quote q stands before k. */
  function Run(q: byte, escape: bool, s: text, k: nat): (e: Extent)
    requires k <= |s|
    ensures k + e.len <= |s| && (e.closed ==> 0 < e.len)
    decreases |s| - k
  {
    if k == |s| then Extent(0, false)
    else if escape && s[k] == BACKSLASH then
      if k + 1 == |s| then Extent(1, false) else Run(q, escape, s, k + 2).After(2)
    else if s[k] == q then
      if k + 1 < |s| && s[k + 1] == q then Run(q, escape, s, k + 2).After(2) else Extent(1, true)
    else Run(q, escape, s, k + 1).After(1)
  }

  /** A closed run ends in its quote, which is not doubled; an open one reaches the end. */
  lemma {:induction false} RunEnds(q: byte, escape: bool, s: text, k: nat)
    requires k <= |s|
    ensures var e := Run(q, escape, s, k); var end := k + e.len;
            if e.closed then k < end && s[end - 1] == q && (end < |s| ==> s[end] != q) else end == |s|
    decreases |s| - k
  {
    if k < |s| { RunEnds(q, escape, s, k + 1); }
    if k + 1 < |s| { RunEnds(q, escape, s, k + 2); }
  }

  /** A closed run does not depend on what follows it, unless that doubles its quote. */
  lemma {:induction false} RunInContext(q: byte, escape: bool, t: text, more: text, k: nat)
    requires k <= |t|
    requires Run(q, escape, t, k) == Extent(|t| - k, true) ==> more == [] || more[0] != q
    requires Run(q, escape, t, k) == Extent(|t| - k, true) || Run(q, escape, t + more, k) == Extent(|t| - k, true)
    ensures Run(q, escape, t, k) == Run(q, escape, t + more, k)
    decreases |t| - k
  {
    var u := t + more;
    if k == |t| {
    } else if (escape && t[k] == BACKSLASH) || (t[k] == q && k + 1 < |u| && u[k + 1] == q) {
      if k + 1 < |t| { RunInContext(q, escape, t, more, k + 2); }
    } else if t[k] != q {
      RunInContext(q, escape, t, more, k + 1);
    }
  }

  lemma {:induction false} RunShift(q: byte, escape: bool, s: text, i: nat, k: nat)
    requires i <= k <= |s|
    ensures Run(q, escape, s, k) == Run(q, escape, s[i..], k - i)
    decreases |s| - k
  {
    if k < |s| { RunShift(q, escape, s, i, k + 1); }
    if k + 1 < |s| { RunShift(q, escape, s, i, k + 2); }
  }

  // ---- dollar quotes ----

  /** The number of identifier bytes from k on. */
  function IdentRun(s: text, k: nat): (n: nat)
    requires k <= |s|
    ensures k + n <= |s| && (k + n < |s| ==> !IsIdentByte(s[k + n]))
    ensures forall i :: k <= i < k + n ==> IsIdentByte(s[i])
    decreases |s| - k
  {
    if k == |s| || !IsIdentByte(s[k]) then 0 else 1 + IdentRun(s, k + 1)
  }

  lemma {:induction false} IdentRunIs(s: text, k: nat, n: nat)
    requires k + n <= |s| && forall i :: k <= i < k + n ==> IsIdentByte(s[i])
    requires k + n < |s| ==> !IsIdentByte(s[k + n])
    ensures IdentRun(s, k) == n
    decreases n
  {
    if n > 0 { IdentRunIs(s, k + 1, n - 1); }
  }

  /** The length of the $tag$ delimiter at i, or 0; a tag does not start with a digit. */
  function DollarTag(s: text, i: nat): (n: nat)
    requires i < |s|
    ensures n == 0 || (2 <= n && i + n <= |s| && s[i] == s[i + n - 1] == DOLLAR)
  {
    var n := IdentRun(s, i + 1);
    var j := i + 1 + n;
    if s[i] != DOLLAR || (n > 0 && IsDigit(s[i + 1])) || j == |s| || s[j] != DOLLAR then 0 else n + 2
  }

  /** How far the dollar-quoted string at i reaches: past the next copy of its delimiter. */
  function DollarRun(s: text, i: nat): (e: Extent)
    requires i < |s| && DollarTag(s, i) > 0
    ensures DollarTag(s, i) <= e.len && i + e.len <= |s|
  {
    var n := DollarTag(s, i);
    var k := IndexFrom(s, s[i..i + n], i + n);
    if k < 0 then Extent(|s| - i, false) else Extent(k as nat - i + n, true)
  }

  lemma DollarEnds(s: text, i: nat)
    requires i < |s| && DollarTag(s, i) > 0
    ensures var e := DollarRun(s, i); if e.closed then s[i + e.len - 1] == DOLLAR else i + e.len == |s|
  {
    var n := DollarTag(s, i);
    var tag := s[i..i + n];
    var k := IndexFrom(s, tag, i + n);
    if k >= 0 { assert s[k + n - 1] == s[k..k + n][n - 1] == tag[n - 1] == s[i + n - 1]; }
  }

  lemma TagInContext(t: text, more: text)
    requires t != [] && (DollarTag(t, 0) > 0 || 0 < DollarTag(t + more, 0) <= |t|)
    ensures DollarTag(t + more, 0) == DollarTag(t, 0)
  {
    var u := t + more;
    var n := if DollarTag(t, 0) > 0 then IdentRun(t, 1) else IdentRun(u, 1);
    assert forall i :: 1 <= i <= n + 1 ==> u[i] == t[i];
    IdentRunIs(u, 1, n);
    IdentRunIs(t, 1, n);
  }

  /** A closed dollar-quoted string does not depend on what follows it. */
  lemma DollarInContext(t: text, more: text)
    requires t != [] && (DollarTag(t, 0) > 0 || 0 < DollarTag(t + more, 0) <= |t|)
    requires (DollarTag(t, 0) > 0 && DollarRun(t, 0) == Extent(|t|, true)) ||
             (DollarTag(t + more, 0) > 0 && DollarRun(t + more, 0) == Extent(|t|, true))
    ensures DollarTag(t + more, 0) == DollarTag(t, 0) > 0 && DollarRun(t + more, 0) == DollarRun(t, 0)
  {
    TagInContext(t, more);
    var n := DollarTag(t, 0);
    assert (t + more)[0..n] == t[0..n];
    IndexInPrefix(t, more, t[0..n], n);
  }

  lemma DollarShift(s: text, i: nat)
    requires i < |s|
    ensures DollarTag(s, i) == DollarTag(s[i..], 0)
    ensures DollarTag(s, i) > 0 ==> DollarRun(s, i) == DollarRun(s[i..], 0)
  {
    IdentRunIs(s[i..], 1, IdentRun(s, i + 1));
    var n := DollarTag(s, i);
    if n > 0 {
      assert s[i..][0..n] == s[i..i + n];
      IndexShift(s, s[i..i + n], i, i + n);
    }
  }

  // ---- comments ----

  /** A line comment runs up to the newline, which is not part of it. */
  function LineRun(s: text, k: nat): (n: nat)
    requires k <= |s|
    ensures k + n <= |s| && (k + n < |s| ==> s[k + n] == NEWLINE)
    ensures forall i :: k <= i < k + n ==> s[i] != NEWLINE
    decreases |s| - k
  {
    if k == |s| || s[k] == NEWLINE then 0 else 1 + LineRun(s, k + 1)
  }

  lemma {:induction false} LineRunIs(s: text, k: nat, n: nat)
    requires k + n <= |s| && forall i :: k <= i < k + n ==> s[i] != NEWLINE
    requires k + n < |s| ==> s[k + n] == NEWLINE
    ensures LineRun(s, k) == n
    decreases n
  {
    if n > 0 { LineRunIs(s, k + 1, n - 1); }
  }

  /** How far the block comment at i reaches: past the first end mark after its opening. */
  function BlockRun(s: text, i: nat): (e: Extent)
    requires i + 2 <= |s|
    ensures 2 <= e.len && i + e.len <= |s|
  {
    BlockEnd(s, i + 2).After(2)
  }

  function BlockEnd(s: text, k: nat): (e: Extent)
    requires k <= |s|
    ensures k + e.len <= |s|
    decreases |s| - k
  {
    if k + 1 >= |s| then Extent(|s| - k, false)
    else if s[k] == STAR && s[k + 1] == SLASH then Extent(2, true)
    else BlockEnd(s, k + 1).After(1)
  }

  lemma {:induction false} BlockEnds(s: text, k: nat)
    requires k <= |s|
    ensures var e := BlockEnd(s, k); if e.closed then e.len >= 2 && s[k + e.len - 1] == SLASH else k + e.len == |s|
    decreases |s| - k
  {
    if k < |s| { BlockEnds(s, k + 1); }
  }

  lemma {:induction false} BlockInContext(t: text, more: text, k: nat)
    requires k <= |t|
    requires BlockEnd(t, k) == Extent(|t| - k, true) || BlockEnd(t + more, k) == Extent(|t| - k, true)
    ensures BlockEnd(t, k) == BlockEnd(t + more, k)
    decreases |t| - k
  {
    BlockEnds(t + more, k);
    if k + 1 < |t| && !(t[k] == STAR && t[k + 1] == SLASH) { BlockInContext(t, more, k + 1); }
  }

  lemma {:induction false} BlockShift(s: text, i: nat, k: nat)
    requires i <= k <= |s|
    ensures BlockEnd(s, k) == BlockEnd(s[i..], k - i)
    decreases |s| - k
  {
    if k < |s| { BlockShift(s, i, k + 1); }
  }

  // ---- the lexer ----

  predicate OpensQuote(r: Reading, s: text, i: nat)
    requires i < |s|
  {
    s[i] == SQUOTE || s[i] == DQUOTE ||
    (s[i] == BACKTICK &&
     (r.backticks.Quoting? || (r.backticks.QuotingIfPaired? && exists k | i < k < |s| :: s[k] == BACKTICK)))
  }

  predicate Escapes(r: Reading, q: byte)
  {
    (q == SQUOTE && r.escapeSingle) || (q == DQUOTE && r.escapeDouble)
  }

  /** isLineComment */
  predicate IsLineComment(s: text, i: nat, hash: bool, looseDash: bool)
    requires i < |s|
  {
    if s[i] == HASH then hash
    else if s[i] != DASH || i + 1 >= |s| || s[i + 1] != DASH then false
    else looseDash || i + 2 >= |s| || s[i + 2] <= SPACE
  }

  predicate OpensLineComment(r: Reading, s: text, i: nat)
    requires i < |s|
  {
    r.comments && IsLineComment(s, i, r.hash, r.looseDash)
  }

  predicate OpensBlockComment(r: Reading, s: text, i: nat)
    requires i < |s|
  {
    r.comments && s[i] == SLASH && i + 1 < |s| && s[i + 1] == STAR
  }

  /** What starts at i and how long it is, where word tells whether an identifier byte precedes i. */
  datatype Cut = Cut(kind: Kind, len: nat, closed: bool)

  function CutAt(r: Reading, word: bool, s: text, i: nat): (c: Cut)
    requires i < |s|
    ensures 0 < c.len && i + c.len <= |s| && (c.kind.Quoted? && c.closed ==> 2 <= c.len)
  {
    if OpensQuote(r, s, i) then
      var e := Run(s[i], Escapes(r, s[i]), s, i + 1);
      Cut(Quoted, 1 + e.len, e.closed)
    else if r.dollar && !word && DollarTag(s, i) > 0 then
      var e := DollarRun(s, i);
      Cut(DollarQuoted, e.len, e.closed)
    else if OpensLineComment(r, s, i) then
      Cut(LineComment, LineLen(s, i), true)
    else if OpensBlockComment(r, s, i) then
      var e := BlockRun(s, i);
      Cut(BlockComment, e.len, e.closed)
    else
      Cut(Plain, 1, true)
  }

  function LineLen(s: text, i: nat): (n: nat)
    requires i < |s|
    ensures 0 < n && i + n <= |s|
  {
    1 + LineRun(s, i + 1)
  }

  /** What starts at i depends only on the text from i on. */
  lemma CutShift(r: Reading, word: bool, s: text, i: nat)
    requires i < |s|
    ensures CutAt(r, word, s, i) == CutAt(r, word, s[i..], 0)
  {
    hide Run, DollarTag, DollarRun, LineRun, BlockEnd;
    var t := s[i..];
    assert OpensQuote(r, s, i) == OpensQuote(r, t, 0) by {
      if k :| i < k < |s| && s[k] == BACKTICK { assert t[k - i] == BACKTICK; }
    }
    RunShift(s[i], Escapes(r, s[i]), s, i, i + 1);
    DollarShift(s, i);
    LineRunIs(t, 1, LineRun(s, i + 1));
    if i + 2 <= |s| { BlockShift(s, i, i + 2); }
  }

  /** The first chunk of t. */
  function First(r: Reading, word: bool, t: text): (c: Chunk)
    requires t != []
    ensures 0 < |c.text| <= |t|
  {
    var c := CutAt(r, word, t, 0);
    Chunk(c.kind, t[..c.len], c.closed)
  }

  function Join(cs: seq<Chunk>): text
  {
    if cs == [] then [] else cs[0].text + Join(cs[1..])
  }

  // ---- the lexer at a position, as a scanner meets it ----

  predicate WordBefore(s: text, i: nat)
    requires i <= |s|
  {
    i > 0 && IsIdentByte(s[i - 1])
  }

  function CutFrom(r: Reading, s: text, i: nat): (c: Cut)
    requires i < |s|
    ensures 0 < c.len && i + c.len <= |s| && (c.kind.Quoted? && c.closed ==> 2 <= c.len)
  {
    CutAt(r, WordBefore(s, i), s, i)
  }

  function ChunkFrom(r: Reading, s: text, i: nat): Chunk
    requires i < |s|
  {
    var c := CutFrom(r, s, i);
    Chunk(c.kind, s[i..i + c.len], c.closed)
  }

  /** The chunks of s from i on. */
  function Lex(r: Reading, s: text, i: nat): (cs: seq<Chunk>)
    requires i <= |s|
    decreases |s| - i
  {
    if i == |s| then [] else [ChunkFrom(r, s, i)] + Lex(r, s, i + CutFrom(r, s, i).len)
  }

  lemma LexFirst(r: Reading, s: text, i: nat)
    requires i < |s|
    ensures var c := ChunkFrom(r, s, i); var cs := Lex(r, s, i + CutFrom(r, s, i).len);
      Lex(r, s, i) == [c] + cs && |c.text| == CutFrom(r, s, i).len && c.text[0] == s[i] &&
      forall x :: x in Lex(r, s, i) <==> x == c || x in cs
  {
    hide CutFrom;
  }

  /** Lexing loses nothing. */
  lemma {:induction false} LexJoins(r: Reading, s: text, i: nat)
    requires i <= |s|
    ensures Join(Lex(r, s, i)) == s[i..]
    decreases |s| - i
  {
    hide CutAt;
    if i < |s| {
      var j := i + CutFrom(r, s, i).len;
      LexJoins(r, s, j);
      assert s[i..] == s[i..j] + s[j..];
    }
  }

  /** The kind of the chunk that covers position p, when lexing from i. */
  ghost function KindAt(r: Reading, s: text, i: nat, p: nat): Kind
    requires i <= p < |s|
    decreases |s| - i
  {
    var c := CutFrom(r, s, i);
    if p < i + c.len then c.kind else KindAt(r, s, i + c.len, p)
  }

  /** A chunk is the first chunk of the text it starts. */
  lemma ChunkIsFirst(r: Reading, s: text, i: nat)
    requires i < |s|
    ensures First(r, WordBefore(s, i), s[i..]) == ChunkFrom(r, s, i)
  {
    CutShift(r, WordBefore(s, i), s, i);
    var n := CutFrom(r, s, i).len;
    assert s[i..][..n] == s[i..i + n];
  }

  // ---- stability ----

  /** What is known of a chunk c cut off the front of a text, with rest left behind it. */
  predicate Shape(c: Chunk, rest: text)
  {
    c.text != [] &&
    var last := c.text[|c.text| - 1];
    match c.kind
    case Plain => |c.text| == 1 && c.closed
    case Quoted =>
      c.text[0] in {SQUOTE, DQUOTE, BACKTICK} &&
      if c.closed then |c.text| >= 2 && last == c.text[0] && (rest == [] || rest[0] != c.text[0]) else rest == []
    case DollarQuoted => c.text[0] == DOLLAR && if c.closed then last == DOLLAR else rest == []
    case LineComment => c.text[0] in {DASH, HASH} && c.closed && (rest == [] || rest[0] == NEWLINE)
    case BlockComment => c.text[0] == SLASH && if c.closed then last == SLASH else rest == []
  }

  lemma FirstShape(r: Reading, word: bool, t: text)
    requires t != []
    ensures var c := First(r, word, t); c.text[0] == t[0] && Shape(c, t[|c.text|..])
  {
    var c := First(r, word, t);
    match c.kind
    case Plain =>
    case Quoted => RunEnds(t[0], Escapes(r, t[0]), t, 1);
    case DollarQuoted => DollarEnds(t, 0);
    case LineComment =>
    case BlockComment => BlockEnds(t, 2);
  }

  /** A chunk that its own text lexes to. */
  predicate Complete(r: Reading, c: Chunk)
  {
    c.text != [] && First(r, false, c.text) == c
  }

  lemma FirstComplete(r: Reading, word: bool, t: text)
    requires t != []
    ensures Complete(r, First(r, word, t))
  {
    var c := First(r, word, t);
    FirstShape(r, word, t);
    if !c.closed {
      assert c.text == t;
    } else {
      assert t == c.text + t[|c.text|..];
      ClosedAlone(r, word, c, t[|c.text|..]);
    }
  }

  lemma ClosedAlone(r: Reading, word: bool, c: Chunk, rest: text)
    requires c.closed && Shape(c, rest) && First(r, word, c.text + rest) == c
    ensures Complete(r, c)
  {
    var a, t := c.text, c.text + rest;
    match c.kind
    case Plain =>
    case Quoted => RunInContext(t[0], Escapes(r, t[0]), a, rest, 1);
    case DollarQuoted => DollarInContext(a, rest);
    case LineComment =>
      assert t[0] == DASH ==> t[1] == DASH;
      LineRunIs(a, 1, |a| - 1);
    case BlockComment => BlockInContext(a, rest, 2);
  }

  lemma ChunkComplete(r: Reading, s: text, i: nat)
    requires i < |s|
    ensures var c := ChunkFrom(r, s, i); Complete(r, c) && Shape(c, s[i + |c.text|..])
  {
    hide CutAt, Shape, Complete, First;
    ChunkIsFirst(r, s, i);
    FirstComplete(r, WordBefore(s, i), s[i..]);
    FirstShape(r, WordBefore(s, i), s[i..]);
    var n := |ChunkFrom(r, s, i).text|;
    assert s[i..][n..] == s[i + n..];
  }

  lemma {:induction false} LexComplete(r: Reading, s: text, i: nat)
    requires i <= |s|
    ensures forall c :: c in Lex(r, s, i) ==> Complete(r, c)
    decreases |s| - i
  {
    if i < |s| {
      ChunkComplete(r, s, i);
      LexComplete(r, s, i + CutFrom(r, s, i).len);
    }
  }

  /** A complete chunk that is not plain is cut off again from any text that may follow it. */
  lemma FirstInContext(r: Reading, word: bool, c: Chunk, rest: text)
    requires Complete(r, c) && !c.kind.Plain? && Shape(c, rest)
    requires c.kind.DollarQuoted? ==> !word
    ensures First(r, word, c.text + rest) == c
  {
    var a, t := c.text, c.text + rest;
    assert t[..|a|] == a;
    if !c.closed {
      assert t == a;
    } else {
      match c.kind
      case Quoted =>
        RunInContext(a[0], Escapes(r, a[0]), a, rest, 1);
        assert a[|a| - 1] == t[|a| - 1];
      case DollarQuoted => DollarInContext(a, rest);
      case LineComment => LineRunIs(t, 1, |a| - 1);
      case BlockComment => BlockInContext(a, rest, 2);
    }
  }

  // ---- rewriting chunks ----

  const BLANK: Chunk := Chunk(Plain, [SPACE], true)

  /** c' may stand where c stood: plain bytes stay, a comment stays or becomes one space,
      a literal becomes any complete literal with the same opening byte (and closed if c was). */
  predicate Replaces(r: Reading, c: Chunk, c': Chunk)
    requires c.text != []
  {
    if c.kind.Plain? then c' == c
    else if c.IsComment() then c' == c || c' == BLANK
    else c'.kind == c.kind && Complete(r, c') && c'.text[..1] == c.text[..1] && (c.closed ==> c'.closed)
  }

  predicate Rewrites(r: Reading, cs: seq<Chunk>, cs': seq<Chunk>)
  {
    |cs'| == |cs| &&
    (forall i :: 0 <= i < |cs| ==> cs[i].text != [] && Replaces(r, cs[i], cs'[i])) &&
    (r.backticks.QuotingIfPaired? ==>
      forall i :: 0 <= i < |cs| ==> BACKTICK in cs'[i].text ==> BACKTICK in cs[i].text)
  }

  lemma RewritesTail(r: Reading, cs: seq<Chunk>, cs': seq<Chunk>)
    requires cs != [] && Rewrites(r, cs, cs')
    ensures cs[0].text != [] && Replaces(r, cs[0], cs'[0]) && Rewrites(r, cs[1..], cs'[1..])
  {
    forall i | 0 <= i < |cs| - 1
      ensures cs[1..][i].text != [] && Replaces(r, cs[1..][i], cs'[1..][i])
      ensures r.backticks.QuotingIfPaired? ==> BACKTICK in cs'[1..][i].text ==> BACKTICK in cs[1..][i].text
    {
      assert cs[1..][i] == cs[i + 1] && cs'[1..][i] == cs'[i + 1];
    }
  }

  /** Rewriting keeps the first byte, except that a comment may have become a space. */
  predicate SameHead(t: text, t': text)
  {
    (t == [] <==> t' == []) &&
    (t != [] ==> t'[0] == t[0] || (t[0] in {DASH, SLASH, HASH} && t'[0] == SPACE))
  }

  lemma RewriteHead(r: Reading, s: text, i: nat, cs': seq<Chunk>)
    requires i <= |s| && Rewrites(r, Lex(r, s, i), cs')
    ensures SameHead(s[i..], Join(cs'))
  {
    if i < |s| {
      RewritesTail(r, Lex(r, s, i), cs');
      ChunkComplete(r, s, i);
      var c := ChunkFrom(r, s, i);
      assert c.text[0] == s[i];
      ReplacesHead(r, c, s[i + |c.text|..], cs'[0]);
    }
  }

  lemma ReplacesHead(r: Reading, c: Chunk, rest: text, c': Chunk)
    requires Shape(c, rest) && Replaces(r, c, c')
    ensures c'.text != []
    ensures c'.text[0] == c.text[0] || (c.text[0] in {DASH, SLASH, HASH} && c'.text[0] == SPACE)
  {
    assert c'.text[..1] == c.text[..1] ==> c'.text[0] == c'.text[..1][0] == c.text[..1][0];
  }

  /** Rewriting keeps a leading identifier run and whether a dollar sign ends it. */
  lemma {:induction false} RewriteIdentRun(r: Reading, s: text, i: nat, cs': seq<Chunk>)
    requires i <= |s| && Rewrites(r, Lex(r, s, i), cs')
    ensures SameIdentRun(s[i..], Join(cs'))
    decreases |s| - i
  {
    hide CutAt;
    RewriteHead(r, s, i, cs');
    if i < |s| && IsIdentByte(s[i]) {
      RewritesTail(r, Lex(r, s, i), cs');
      IdentIsPlain(r, s, i);
      RewriteIdentRun(r, s, i + 1, cs'[1..]);
      SameIdentRunStep(s[i], s[i + 1..], Join(cs'[1..]));
      assert s[i..] == [s[i]] + s[i + 1..];
    }
  }

  lemma IdentIsPlain(r: Reading, s: text, i: nat)
    requires i < |s| && IsIdentByte(s[i])
    ensures ChunkFrom(r, s, i) == Chunk(Plain, [s[i]], true)
  {
  }

  predicate SameIdentRun(t: text, t': text)
  {
    var n := IdentRun(t, 0);
    IdentRun(t', 0) == n && t'[..n] == t[..n] && (n < |t| <==> n < |t'|) &&
    (n < |t| ==> (t[n] == DOLLAR <==> t'[n] == DOLLAR))
  }

  lemma SameIdentRunStep(b: byte, t: text, t': text)
    requires IsIdentByte(b) && SameIdentRun(t, t')
    ensures SameIdentRun([b] + t, [b] + t')
  {
    var n := IdentRun(t, 0);
    var u, u' := [b] + t, [b] + t';
    assert u[..n + 1] == [b] + t[..n] && u'[..n + 1] == [b] + t'[..n];
    forall i | 0 <= i < n + 1 ensures IsIdentByte(u[i]) && IsIdentByte(u'[i]) {
      assert u[i] == u[..n + 1][i] && u'[i] == u'[..n + 1][i];
      if i > 0 { assert u[i] == t[i - 1]; }
    }
    IdentRunIs(u, 0, n + 1);
    IdentRunIs(u', 0, n + 1);
  }

  lemma {:induction false} JoinContains(cs: seq<Chunk>, cs': seq<Chunk>, b: byte)
    requires |cs| == |cs'| && forall i :: 0 <= i < |cs| ==> b in cs'[i].text ==> b in cs[i].text
    ensures b in Join(cs') ==> b in Join(cs)
  {
    if cs != [] {
      JoinContains(cs[1..], cs'[1..], b);
      assert b in cs'[0].text ==> b in cs[0].text;
    }
  }

  /** A plain byte stays plain when what follows it is rewritten. */
  lemma PlainInContext(r: Reading, word: bool, s: text, i: nat, cs': seq<Chunk>)
    requires r.comments ==> r.looseDash
    requires i < |s| && CutAt(r, word, s, i).kind.Plain?
    requires Rewrites(r, Lex(r, s, i + 1), cs')
    ensures First(r, word, [s[i]] + Join(cs')) == Chunk(Plain, [s[i]], true)
  {
    DollarStaysPlain(r, s, i, cs');
    QuoteStaysPlain(r, s, i, cs');
    RewriteHead(r, s, i + 1, cs');
    assert ([s[i]] + Join(cs'))[..1] == [s[i]];
  }

  lemma DollarStaysPlain(r: Reading, s: text, i: nat, cs': seq<Chunk>)
    requires r.comments ==> r.looseDash
    requires i < |s| && Rewrites(r, Lex(r, s, i + 1), cs')
    ensures DollarTag(s, i) == 0 ==> DollarTag([s[i]] + Join(cs'), 0) == 0
  {
    assert s[i..] == [s[i]] + s[i + 1..];
    DollarShift(s, i);
    RewriteIdentRun(r, s, i + 1, cs');
    SameTag(s[i], s[i + 1..], Join(cs'));
  }

  lemma QuoteStaysPlain(r: Reading, s: text, i: nat, cs': seq<Chunk>)
    requires i < |s| && Rewrites(r, Lex(r, s, i + 1), cs')
    ensures OpensQuote(r, [s[i]] + Join(cs'), 0) ==> OpensQuote(r, s, i)
  {
    hide CutAt;
    var t' := [s[i]] + Join(cs');
    if r.backticks.QuotingIfPaired? && OpensQuote(r, t', 0) && s[i] == BACKTICK {
      var k :| 0 < k < |t'| && t'[k] == BACKTICK;
      assert Join(cs')[k - 1] == BACKTICK;
      JoinContains(Lex(r, s, i + 1), cs', BACKTICK);
      LexJoins(r, s, i + 1);
      var m :| 0 <= m < |s[i + 1..]| && s[i + 1..][m] == BACKTICK;
      assert s[i + 1 + m] == BACKTICK;
    }
  }

  lemma SameTag(b: byte, t: text, t': text)
    requires SameIdentRun(t, t')
    ensures DollarTag([b] + t, 0) == 0 ==> DollarTag([b] + t', 0) == 0
  {
    var n := IdentRun(t, 0);
    var u, u' := [b] + t, [b] + t';
    assert n > 0 ==> t'[0] == t'[..n][0] == t[..n][0] == t[0];
    IdentRunIs(u, 1, n);
    IdentRunIs(u', 1, n);
  }

  lemma RelexFirst(r: Reading, word: bool, s: text, i: nat, cs': seq<Chunk>)
    requires r.comments ==> r.looseDash
    requires i < |s| && Rewrites(r, Lex(r, s, i), cs')
    requires word == WordBefore(s, i) || s[i] != DOLLAR
    ensures First(r, word, cs'[0].text + Join(cs'[1..])) == cs'[0]
  {
    hide Run, DollarRun, DollarTag, LineRun, BlockRun, Replaces, Complete;
    var c := ChunkFrom(r, s, i);
    var j := i + |c.text|;
    RewritesTail(r, Lex(r, s, i), cs');
    assert CutAt(r, word, s, i) == CutFrom(r, s, i);
    if c.kind.Plain? {
      assert c.text == [s[i]];
      PlainInContext(r, word, s, i, cs'[1..]);
    } else {
      RewriteHead(r, s, j, cs'[1..]);
      ChunkComplete(r, s, i);
      assert c.kind.DollarQuoted? ==> !word;
      ReplacementFirst(r, word, c, s[j..], cs'[0], Join(cs'[1..]));
    }
  }

  lemma ReplacementFirst(r: Reading, word: bool, c: Chunk, rest: text, c': Chunk, rest': text)
    requires Complete(r, c) && Shape(c, rest) && !c.kind.Plain? && Replaces(r, c, c')
    requires SameHead(rest, rest') && (c.kind.DollarQuoted? ==> !word)
    ensures First(r, word, c'.text + rest') == c'
  {
    if c' == BLANK {
      assert ([SPACE] + rest')[0] == SPACE && ([SPACE] + rest')[..1] == [SPACE];
    } else {
      ReplacesHead(r, c, rest, c');
      CompleteShape(r, c');
      FirstInContext(r, word, c', rest');
    }
  }

  lemma CompleteShape(r: Reading, c: Chunk)
    requires Complete(r, c)
    ensures Shape(c, [])
  {
    FirstShape(r, false, c.text);
    assert c.text[|c.text|..] == [];
  }

  /** What precedes k in t and what precedes i in s are alike to a dollar sign standing at i. */
  predicate SameBefore(s: text, i: nat, t: text, k: nat)
    requires i <= |s| && k <= |t|
  {
    WordBefore(t, k) == WordBefore(s, i) || i == |s| || s[i] != DOLLAR
  }

  /** Lexing the rewritten chunks, wherever they stand, gives them back. */
  lemma {:induction false} Relex(r: Reading, s: text, i: nat, cs': seq<Chunk>, t: text, k: nat)
    requires r.comments ==> r.looseDash
    requires i <= |s| && Rewrites(r, Lex(r, s, i), cs')
    requires k <= |t| && t[k..] == Join(cs') && SameBefore(s, i, t, k)
    ensures Lex(r, t, k) == cs'
    decreases |s| - i
  {
    hide CutAt;
    if i < |s| {
      var j, m := RelexHead(r, s, i, cs', t, k);
      Relex(r, s, j, cs'[1..], t, m);
      LexStep(r, t, k, cs');
    }
  }

  lemma RelexHead(r: Reading, s: text, i: nat, cs': seq<Chunk>, t: text, k: nat) returns (j: nat, m: nat)
    requires r.comments ==> r.looseDash
    requires i < |s| && Rewrites(r, Lex(r, s, i), cs')
    requires k <= |t| && t[k..] == Join(cs') && SameBefore(s, i, t, k)
    ensures i < j <= |s| && k < m == k + |cs'[0].text| <= |t|
    ensures First(r, WordBefore(t, k), t[k..]) == cs'[0]
    ensures Rewrites(r, Lex(r, s, j), cs'[1..])
    ensures t[m..] == Join(cs'[1..]) && SameBefore(s, j, t, m)
  {
    hide CutAt;
    j, m := i + CutFrom(r, s, i).len, k + |cs'[0].text|;
    RelexFirst(r, WordBefore(t, k), s, i, cs');
    RewritesTail(r, Lex(r, s, i), cs');
    CutText(t, k, cs'[0].text, Join(cs'[1..]));
    RelexWord(r, s, i, cs'[0], t, m);
  }

  lemma CutText(t: text, k: nat, a: text, rest: text)
    requires k <= |t| && t[k..] == a + rest
    ensures k + |a| <= |t| && t[k..k + |a|] == a && t[k + |a|..] == rest
  {
    assert t[k..k + |a|] == t[k..][..|a|] && t[k + |a|..] == t[k..][|a|..];
  }

  lemma LexStep(r: Reading, t: text, k: nat, cs: seq<Chunk>)
    requires k < |t| && cs != [] && 0 < |cs[0].text| <= |t| - k
    requires First(r, WordBefore(t, k), t[k..]) == cs[0]
    requires Lex(r, t, k + |cs[0].text|) == cs[1..]
    ensures Lex(r, t, k) == cs
  {
    ChunkIsFirst(r, t, k);
  }

  /** Only the text before a dollar sign matters to it, and rewriting keeps that. */
  lemma RelexWord(r: Reading, s: text, i: nat, c': Chunk, t: text, m: nat)
    requires i < |s| && Replaces(r, ChunkFrom(r, s, i), c')
    requires c'.text != [] ==> |c'.text| <= m <= |t| && t[m - |c'.text|..m] == c'.text
    ensures c'.text != [] && SameBefore(s, i + CutFrom(r, s, i).len, t, m)
  {
    hide CutAt;
    ChunkComplete(r, s, i);
    var c := ChunkFrom(r, s, i);
    var j := i + |c.text|;
    ReplacesHead(r, c, s[j..], c');
    ReplacesWord(r, c, s[j..], c');
    assert s[j - 1] == c.text[|c.text| - 1];
    assert t[m - 1] == t[m - |c'.text|..m][|c'.text| - 1];
  }

  lemma ReplacesWord(r: Reading, c: Chunk, rest: text, c': Chunk)
    requires Shape(c, rest) && Replaces(r, c, c')
    ensures EndsIdent(c'.text) == EndsIdent(c.text) || rest == [] || rest[0] != DOLLAR
  {
    if c.IsLiteral() && c.closed {
      CompleteShape(r, c');
    }
  }
}
