/** stripComments, and that it changes nothing but comments. */
module Strip {
  import opened Bytes
  import opened Lexing
  import opened Scanners

  /** The reading comments are stripped under: '...', "..." and $tag$...$tag$ hide comment marks. */
  const STRIPPING: Reading := Reading(false, false, true, Ordinary, true, false, true)

  function StripChunk(c: Chunk): Chunk { if c.IsComment() then BLANK else c }

  function StripChunks(cs: seq<Chunk>): (r: seq<Chunk>)
    ensures |r| == |cs| && forall i :: 0 <= i < |cs| ==> r[i] == StripChunk(cs[i])
  {
    if cs == [] then [] else [StripChunk(cs[0])] + StripChunks(cs[1..])
  }

  function Stripped(s: text): text { StrippedFrom(s, 0) }

  function StrippedFrom(s: text, i: nat): text
    requires i <= |s|
  {
    Join(StripChunks(Lex(STRIPPING, s, i)))
  }

  /** One step of the pass: what is appended to b for the chunk c at i, and where the next one starts. */
  lemma StripStep(b: text, s: text, i: nat) returns (c: Cut, j: nat)
    requires i < |s|
    ensures c == CutFrom(STRIPPING, s, i) && j == i + c.len <= |s|
    ensures c.kind.LineComment? || c.kind.BlockComment? ==>
      b + StrippedFrom(s, i) == b + [SPACE] + StrippedFrom(s, j)
    ensures !c.kind.LineComment? && !c.kind.BlockComment? ==>
      b + StrippedFrom(s, i) == b + s[i..j] + StrippedFrom(s, j)
  {
    hide CutAt;
    c := CutFrom(STRIPPING, s, i);
    j := i + c.len;
    var a := StripChunk(ChunkFrom(STRIPPING, s, i)).text;
    assert StrippedFrom(s, i) == a + StrippedFrom(s, j);
    assert b + (a + StrippedFrom(s, j)) == b + a + StrippedFrom(s, j);
  }

  /** What the pass meets at i under its reading. */
  lemma StripCut(s: text, i: nat)
    requires i < |s|
    ensures CutFrom(STRIPPING, s, i) ==
      if s[i] == SQUOTE || s[i] == DQUOTE then
        var e := Run(s[i], false, s, i + 1); Cut(Quoted, 1 + e.len, e.closed)
      else if s[i] == DOLLAR && !WordBefore(s, i) && DollarTag(s, i) > 0 then
        var e := DollarRun(s, i); Cut(DollarQuoted, e.len, e.closed)
      else if s[i] == DASH && i + 1 < |s| && s[i + 1] == DASH then Cut(LineComment, LineRun(s, i), true)
      else if s[i] == SLASH && i + 1 < |s| && s[i + 1] == STAR then
        var e := BlockRun(s, i); Cut(BlockComment, e.len, e.closed)
      else Cut(Plain, 1, true)
  {
  }

  /** stripComments */
  method StripComments(s: text) returns (b: text)
    ensures b == Stripped(s)
  {
    hide CutFrom, StrippedFrom;
    b := [];
    var i := 0;
    while i < |s|
      invariant i <= |s| ==> b + StrippedFrom(s, i) == Stripped(s)
      invariant i > |s| ==> b + StrippedFrom(s, |s|) == Stripped(s)
    {
      ghost var _, j := StripStep(b, s, i);
      StripCut(s, i);
      var c := s[i];
      if c == SQUOTE || c == DQUOTE {
        b, i := CopyStringLiteral(b, s, i);
      } else if c == DOLLAR {
        var end, _, ok := ScanDollarQuoted(s, i);
        if !ok {
          assert s[i..j] == [c];
          b := b + [c];
          i := i + 1;
          continue;
        }
        b := b + s[i..end];
        i := end;
      } else if c == DASH && i + 1 < |s| && s[i + 1] == DASH {
        i := SkipLineComment(s, i);
        b := b + [SPACE];
      } else if c == SLASH && i + 1 < |s| && s[i + 1] == STAR {
        BlockEnds(s, i + 2);
        i := SkipBlockComment(s, i);
        b := b + [SPACE];
      } else {
        assert s[i..j] == [c];
        b := b + [c];
        i := i + 1;
      }
    }
    NothingLeft(s);
  }

  lemma NothingLeft(s: text)
    ensures StrippedFrom(s, |s|) == []
  {
  }

  /** copyStringLiteral: appends the literal opening at s[i] to b. */
  method CopyStringLiteral(b: text, s: text, i: nat) returns (b': text, end: nat)
    requires i < |s|
    ensures end == i + 1 + Run(s[i], false, s, i + 1).len && b' == b + s[i..end]
  {
    var q := s[i];
    b', end := b + [q], i + 1;
    ghost var all := Run(q, false, s, i + 1);
    while end < |s|
      invariant i + 1 <= end <= |s|
      invariant b' == b + s[i..end]
      invariant all == Run(q, false, s, end).After(end - i - 1)
    {
      b' := b' + [s[end]];
      if s[end] == q {
        if end + 1 < |s| && s[end + 1] == q {
          b' := b' + [s[end + 1]];
          end := end + 2;
          continue;
        }
        return b', end + 1;
      }
      end := end + 1;
    }
  }

  // ---- what stripping keeps ----

  /** Stripping commutes with lexing: the stripped text has the literals and plain bytes of the
      original, in order, and one space where each comment was. */
  lemma StripLexes(s: text)
    ensures Lex(STRIPPING, Stripped(s), 0) == StripChunks(Lex(STRIPPING, s, 0))
  {
    hide CutAt;
    var cs := Lex(STRIPPING, s, 0);
    LexComplete(STRIPPING, s, 0);
    forall i | 0 <= i < |cs| ensures cs[i].text != [] && Replaces(STRIPPING, cs[i], StripChunks(cs)[i]) {
      assert cs[i] in cs;
    }
    assert Stripped(s)[0..] == Join(StripChunks(cs));
    Relex(STRIPPING, s, 0, StripChunks(cs), Stripped(s), 0);
  }

  predicate CommentFree(r: Reading, s: text)
  {
    forall c :: c in Lex(r, s, 0) ==> !c.IsComment()
  }

  lemma StripLeavesNoComment(s: text)
    ensures CommentFree(STRIPPING, Stripped(s))
  {
    hide CutAt;
    StripLexes(s);
  }

  function Literals(cs: seq<Chunk>): seq<Chunk>
  {
    if cs == [] then [] else (if cs[0].IsLiteral() then [cs[0]] else []) + Literals(cs[1..])
  }

  lemma {:induction false} StripChunksLiterals(cs: seq<Chunk>)
    ensures Literals(StripChunks(cs)) == Literals(cs)
  {
    if cs != [] { StripChunksLiterals(cs[1..]); }
  }

  /** Every literal survives byte for byte and in order. */
  lemma StripKeepsLiterals(s: text)
    ensures Literals(Lex(STRIPPING, Stripped(s), 0)) == Literals(Lex(STRIPPING, s, 0))
  {
    hide CutAt;
    StripLexes(s);
    StripChunksLiterals(Lex(STRIPPING, s, 0));
  }

  lemma {:induction false} StripChunksShrink(cs: seq<Chunk>)
    requires forall c :: c in cs ==> c.IsComment() ==> |c.text| >= 2
    ensures |Join(StripChunks(cs))| <= |Join(cs)|
    ensures (forall c :: c in cs ==> !c.IsComment()) <==> |Join(StripChunks(cs))| == |Join(cs)|
    ensures (forall c :: c in cs ==> !c.IsComment()) ==> StripChunks(cs) == cs
  {
    if cs != [] {
      StripChunksShrink(cs[1..]);
      assert forall c :: c in cs <==> c == cs[0] || c in cs[1..];
    }
  }

  lemma {:induction false} CommentsAreLong(s: text, i: nat)
    requires i <= |s|
    ensures forall c :: c in Lex(STRIPPING, s, i) ==> c.IsComment() ==> |c.text| >= 2
    decreases |s| - i
  {
    hide CutAt, CutFrom;
    if i < |s| {
      StripCut(s, i);
      CommentsAreLong(s, i + CutFrom(STRIPPING, s, i).len);
    }
  }

  /** Stripping never lengthens a text, and leaves exactly the comment-free ones alone. */
  lemma StripShrinks(s: text)
    ensures |Stripped(s)| <= |s|
    ensures Stripped(s) == s <==> CommentFree(STRIPPING, s)
  {
    hide CutAt;
    CommentsAreLong(s, 0);
    StripChunksShrink(Lex(STRIPPING, s, 0));
    LexJoins(STRIPPING, s, 0);
    assert s[0..] == s;
  }

  lemma StripIdempotent(s: text)
    ensures Stripped(Stripped(s)) == Stripped(s)
  {
    hide CutAt;
    StripLeavesNoComment(s);
    StripShrinks(Stripped(s));
  }
}
