/** Where in a query the bytes of its redacted form come from. */
module Origins {
  import opened Bytes
  import opened Lexing
  import opened Queries
  import opened Redact
  import opened Spans
  import opened Strip

  /** The chunk that holds the p-th byte, and where in it. */
  function Locate(cs: seq<Chunk>, p: nat): (r: (Chunk, nat))
    requires p < |Join(cs)|
    ensures r.0 in cs && r.1 < |r.0.text| && r.0.text[r.1] == Join(cs)[p]
  {
    if p < |cs[0].text| then (cs[0], p) else Locate(cs[1..], p - |cs[0].text|)
  }

  predicate NoneEmpty(cs: seq<Chunk>) { forall c :: c in cs ==> c.text != [] }

  /** Where the p-th byte of the stripped chunks comes from; the space left by a comment, from its first byte. */
  function Origin(cs: seq<Chunk>, p: nat): (q: nat)
    requires p < |Join(StripChunks(cs))| && NoneEmpty(cs)
    ensures q < |Join(cs)|
  {
    var n := |StripChunk(cs[0]).text|;
    if p >= n then |cs[0].text| + Origin(cs[1..], p - n) else if cs[0].IsComment() then 0 else p
  }

  lemma {:induction false} OriginAscends(cs: seq<Chunk>, p: nat, p': nat)
    requires p < p' < |Join(StripChunks(cs))| && NoneEmpty(cs)
    ensures Origin(cs, p) < Origin(cs, p')
  {
    var n := |StripChunk(cs[0]).text|;
    if p >= n { OriginAscends(cs[1..], p - n, p' - n); }
  }

  lemma LocateStep(cs: seq<Chunk>, p: nat)
    requires p < |Join(cs)|
    ensures cs != [] &&
      if p < |cs[0].text| then Locate(cs, p) == (cs[0], p)
      else p - |cs[0].text| < |Join(cs[1..])| && Locate(cs, p) == Locate(cs[1..], p - |cs[0].text|)
  {
  }

  /** The first chunk's bytes, and those behind them. */
  lemma OriginStep(cs: seq<Chunk>, p: nat)
    requires p < |Join(StripChunks(cs))| && NoneEmpty(cs)
    ensures cs != [] && NoneEmpty(cs[1..]) &&
      var n := |StripChunk(cs[0]).text|;
      if p >= n then
        p - n < |Join(StripChunks(cs[1..]))| &&
        Origin(cs, p) == |cs[0].text| + Origin(cs[1..], p - n) &&
        Locate(StripChunks(cs), p) == Locate(StripChunks(cs[1..]), p - n)
      else
        Origin(cs, p) == (if cs[0].IsComment() then 0 else p) &&
        Locate(StripChunks(cs), p) == (StripChunk(cs[0]), p) && 0 < |cs[0].text|
  {
    assert StripChunks(cs)[1..] == StripChunks(cs[1..]);
    LocateStep(StripChunks(cs), p);
    hide Locate;
  }

  /** The byte stands at the same place of the same chunk, or it is the space of a comment. */
  ghost predicate SamePlace(cs: seq<Chunk>, p: nat)
    requires p < |Join(StripChunks(cs))| && NoneEmpty(cs)
  {
    var (c, at) := Locate(cs, Origin(cs, p));
    if c.IsComment() then at == 0 && Locate(StripChunks(cs), p) == (BLANK, 0)
    else Locate(StripChunks(cs), p) == (c, at)
  }

  lemma {:induction false} OriginMeans(cs: seq<Chunk>, p: nat)
    requires p < |Join(StripChunks(cs))| && NoneEmpty(cs)
    ensures SamePlace(cs, p)
  {
    hide Locate, Origin, Join, StripChunks, NoneEmpty;
    OriginStep(cs, p);
    LocateStep(cs, Origin(cs, p));
    var n := |StripChunk(cs[0]).text|;
    if p >= n { OriginMeans(cs[1..], p - n); }
  }

  lemma LexHead(r: Reading, s: text, i: nat)
    requires i < |s|
    ensures var c, j := ChunkFrom(r, s, i), i + CutFrom(r, s, i).len;
      Lex(r, s, i) == [c] + Lex(r, s, j) && c.text != [] && |c.text| == j - i &&
      |Join(Lex(r, s, i))| == |s| - i && |Join(Lex(r, s, j))| == |s| - j
  {
    hide CutAt;
    LexJoins(r, s, i);
    LexJoins(r, s, i + CutFrom(r, s, i).len);
  }

  /** The class of a byte is that of its chunk. */
  lemma {:induction false} ClassOfByte(r: Reading, d: Dialect, s: text, i: nat, p: nat)
    requires i <= p < |s|
    ensures |Join(Lex(r, s, i))| == |s| - i && Locate(Lex(r, s, i), p - i).0.text != []
    ensures ClassAt(r, d, s, i, p) == ClassOfChunk(Locate(Lex(r, s, i), p - i).0, d)
    decreases |s| - i
  {
    hide CutFrom, ClassFrom, ClassOfChunk, Lex, Join, Locate;
    var j := i + CutFrom(r, s, i).len;
    LexHead(r, s, i);
    ClassFromChunk(r, d, s, i);
    LocateStep(Lex(r, s, i), p - i);
    assert ([ChunkFrom(r, s, i)] + Lex(r, s, j))[1..] == Lex(r, s, j);
    if j <= p { ClassOfByte(r, d, s, j, p); }
  }

  /** The output byte b is the byte of the query at q, in no comment and no redacted literal of the reading, or the
      one space that stands for the comment that starts at q. */
  predicate FromQuery(sql: text, escapes: bool, d: Dialect, q: nat, b: byte)
  {
    var cs := Lex(Whole(escapes, d), sql, 0);
    q < |sql| && Join(cs) == sql &&
    var (c, at) := Locate(cs, q);
    if c.IsComment() then at == 0 && b == 32 else c.text != [] && ClassOfChunk(c, d) != Value && b == sql[q]
  }

  /** The output byte b, written for the piece p, is a "?" or comes from the query. */
  ghost predicate Follows(sql: text, escapes: bool, d: Dialect, p: Piece, b: byte)
  {
    var cs := Lex(Whole(escapes, d), sql, 0);
    if p.Copy? then
      p.at < |Join(StripChunks(cs))| && NoneEmpty(cs) &&
      FromQuery(sql, escapes, d, Origin(cs, p.at), b)
    else b == 63
  }

  lemma ChunksNotEmpty(r: Reading, sql: text)
    ensures NoneEmpty(Lex(r, sql, 0))
  {
    hide CutFrom, First;
    LexComplete(r, sql, 0);
  }

  /** A byte of the stripped text that lies in no redacted literal, seen from the query. */
  lemma ByteFromQuery(sql: text, escapes: bool, d: Dialect, p: nat)
    requires SameComments(sql, escapes, d)
    requires p < |Stripped(sql)| && !InLiteral(Stripped(sql), escapes, d, p)
    ensures Follows(sql, escapes, d, Copy(p), Stripped(sql)[p])
  {
    hide CutFrom, ClassFrom, ClassOfChunk, Lex, First, Join, StripChunks, Stripped;
    var r, s := Whole(escapes, d), Stripped(sql);
    var cs := Lex(r, sql, 0);
    ChunksNotEmpty(r, sql);
    ReadsTheQuery(sql, escapes, d);
    ClassOfByte(LiteralReading(escapes, d), d, s, 0, p);
    OriginMeans(cs, p);
    LexJoins(r, sql, 0);
    assert sql[0..] == sql;
  }

  /** For whole queries, and either backslash reading whose comments are the ones that stripping sees: every output
      byte is a "?" or comes, in order, from a byte of the query outside its comments and redacted literals, but for
      one space where a comment was. */
  lemma QueryProvenance(sql: text, escapes: bool, d: Dialect)
    requires SameComments(sql, escapes, d)
    ensures var ps, t := Pieces(Stripped(sql), d), Redacted(sql, d);
      |ps| == |t| && forall k :: 0 <= k < |ps| ==> Follows(sql, escapes, d, ps[k], t[k])
    ensures var ps, cs := Pieces(Stripped(sql), d), Lex(Whole(escapes, d), sql, 0);
      forall j, k :: 0 <= j < k < |ps| && ps[j].Copy? && ps[k].Copy? ==> Origin(cs, ps[j].at) < Origin(cs, ps[k].at)
  {
    hide Lex, Join, StripChunks, Origin, FromQuery, Redacted, Pieces, Stripped, InLiteral, RedactedText;
    var s, cs := Stripped(sql), Lex(Whole(escapes, d), sql, 0);
    var ps, t := Pieces(s, d), Redacted(sql, d);
    PiecesTraced(s, d);
    RedactedIs(sql, d);
    ChunksNotEmpty(Whole(escapes, d), sql);
    forall k | 0 <= k < |ps| ensures Follows(sql, escapes, d, ps[k], t[k]) {
      if ps[k].Copy? { ByteFromQuery(sql, escapes, d, ps[k].at); }
    }
    forall j, k | 0 <= j < k < |ps| && ps[j].Copy? && ps[k].Copy?
      ensures Origin(cs, ps[j].at) < Origin(cs, ps[k].at)
    {
      OriginAscends(cs, ps[j].at, ps[k].at);
    }
  }

  lemma RedactedIs(sql: text, d: Dialect)
    ensures Redacted(sql, d) == RedactedText(Stripped(sql), d)
  {
  }

  /** Provenance, for copied bytes. */
  lemma PiecesTraced(s: text, d: Dialect)
    ensures var ps, t := Pieces(s, d), RedactedText(s, d);
      |ps| == |t| &&
      (forall k :: 0 <= k < |ps| ==>
        if ps[k].Copy? then
          ps[k].at < |s| && t[k] == s[ps[k].at] && forall escapes :: !InLiteral(s, escapes, d, ps[k].at)
        else t[k] == 63) &&
      forall j, k :: 0 <= j < k < |ps| && ps[j].Copy? && ps[k].Copy? ==> ps[j].at < ps[k].at
  {
    hide Walk, RedactedSpans, NamesOf, InLiteral, Tiles, SpansIn, RedactedText;
    Provenance(s, d);
    var ps, t := Pieces(s, d), RedactedText(s, d);
    forall k | 0 <= k < |ps|
      ensures if ps[k].Copy? then
                ps[k].at < |s| && t[k] == s[ps[k].at] && forall escapes :: !InLiteral(s, escapes, d, ps[k].at)
              else t[k] == 63
    {
      assert Traced(ps[k], t[k], s, d);
    }
    forall j, k | 0 <= j < k < |ps| && ps[j].Copy? && ps[k].Copy? ensures ps[j].at < ps[k].at {
      assert ps[j].End() <= ps[k].Start();
    }
  }
}
