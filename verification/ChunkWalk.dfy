/** The redaction walk, chunk by chunk: where the reading with escapes adds no span, the walk over two span lists is a
    walk over the chunks of the text. */
module ChunkWalk {
  import opened Bytes
  import opened Lexing
  import opened Numbers
  import opened Spans
  import opened Redact

  // ---- the walk, chunk by chunk ----

  /** Chunks of a comment-free text: none empty, plain ones single bytes. */
  predicate WellFormed(cs: seq<Chunk>)
  {
    forall k :: 0 <= k < |cs| ==> cs[k].text != [] && !cs[k].IsComment() && (cs[k].kind.Plain? ==> |cs[k].text| == 1)
  }

  /** The bytes of the leading plain chunks. */
  function PlainPrefix(cs: seq<Chunk>): (u: text)
    requires WellFormed(cs)
    ensures |u| <= |cs| && (cs != [] && cs[0].kind.Plain? ==> u != [] && u[0] == cs[0].text[0])
  {
    if cs == [] || !cs[0].kind.Plain? then [] else cs[0].text + PlainPrefix(cs[1..])
  }

  /** What redaction writes for the chunks cs, prev being the byte written before. */
  function Out(cs: seq<Chunk>, d: Dialect, prev: byte): text
    requires WellFormed(cs)
    decreases |cs|
  {
    if cs == [] then []
    else match ClassOfChunk(cs[0], d)
      case Value => [QUESTION] + Out(cs[1..], d, QUESTION)
      case Name => cs[0].text + Out(cs[1..], d, cs[0].text[|cs[0].text| - 1])
      case Structure =>
        var b := cs[0].text[0];
        if IsDigit(b) && !SuppressesNumber(prev) then
          [QUESTION] + Out(cs[NumberLen(PlainPrefix(cs), 0)..], d, QUESTION)
        else [b] + Out(cs[1..], d, b)
  }

  /** The same chunks, except that a redacted literal may have become another one. */
  predicate SameSkeleton(cs: seq<Chunk>, cs': seq<Chunk>, d: Dialect)
    requires WellFormed(cs) && WellFormed(cs')
  {
    |cs| == |cs'| && forall k :: 0 <= k < |cs| ==>
      if ClassOfChunk(cs[k], d) == Value then ClassOfChunk(cs'[k], d) == Value else cs'[k] == cs[k]
  }

  lemma {:induction false} SamePlainPrefix(cs: seq<Chunk>, cs': seq<Chunk>, d: Dialect)
    requires WellFormed(cs) && WellFormed(cs') && SameSkeleton(cs, cs', d)
    ensures PlainPrefix(cs) == PlainPrefix(cs')
  {
    if cs != [] && cs[0].kind.Plain? {
      SkeletonTail(cs, cs', d, 1);
      SamePlainPrefix(cs[1..], cs'[1..], d);
    }
  }

  lemma SkeletonTail(cs: seq<Chunk>, cs': seq<Chunk>, d: Dialect, n: nat)
    requires WellFormed(cs) && WellFormed(cs') && SameSkeleton(cs, cs', d) && n <= |cs|
    ensures WellFormed(cs[n..]) && WellFormed(cs'[n..]) && SameSkeleton(cs[n..], cs'[n..], d)
  {
    forall k | 0 <= k < |cs| - n
      ensures if ClassOfChunk(cs[n..][k], d) == Value then ClassOfChunk(cs'[n..][k], d) == Value
              else cs'[n..][k] == cs[n..][k]
    {
      assert cs[n..][k] == cs[n + k] && cs'[n..][k] == cs'[n + k];
    }
  }

  lemma OutStep(cs: seq<Chunk>, d: Dialect, prev: byte)
    requires WellFormed(cs) && cs != []
    ensures Out(cs, d, prev) ==
      match ClassOfChunk(cs[0], d)
      case Value => [QUESTION] + Out(cs[1..], d, QUESTION)
      case Name => cs[0].text + Out(cs[1..], d, cs[0].text[|cs[0].text| - 1])
      case Structure =>
        if IsDigit(cs[0].text[0]) && !SuppressesNumber(prev) then
          [QUESTION] + Out(cs[NumberLen(PlainPrefix(cs), 0)..], d, QUESTION)
        else [cs[0].text[0]] + Out(cs[1..], d, cs[0].text[0])
  {
    hide NumberLen, SuppressesNumber, ClassOfChunk;
  }

  /** The first piece of the output: how many chunks it takes, and its bytes. */
  function FirstPiece(cs: seq<Chunk>, d: Dialect, prev: byte): (p: (nat, text))
    requires WellFormed(cs) && cs != []
    ensures 0 < p.0 <= |cs| && p.1 != []
  {
    match ClassOfChunk(cs[0], d)
    case Value => (1, [QUESTION])
    case Name => (1, cs[0].text)
    case Structure =>
      if IsDigit(cs[0].text[0]) && !SuppressesNumber(prev) then (NumberLen(PlainPrefix(cs), 0), [QUESTION])
      else (1, [cs[0].text[0]])
  }

  lemma OutPiece(cs: seq<Chunk>, d: Dialect, prev: byte)
    requires WellFormed(cs) && cs != []
    ensures var (n, t) := FirstPiece(cs, d, prev); Out(cs, d, prev) == t + Out(cs[n..], d, t[|t| - 1])
  {
    hide NumberLen, SuppressesNumber, ClassOfChunk, Out;
    OutStep(cs, d, prev);
  }

  /** The skeleton decides the first piece. */
  lemma SamePiece(cs: seq<Chunk>, cs': seq<Chunk>, d: Dialect, prev: byte)
    requires WellFormed(cs) && WellFormed(cs') && SameSkeleton(cs, cs', d) && cs != []
    ensures cs' != [] && FirstPiece(cs, d, prev) == FirstPiece(cs', d, prev)
  {
    hide NumberLen, SuppressesNumber, ClassOfChunk, PlainPrefix;
    SamePlainPrefix(cs, cs', d);
    assert if ClassOfChunk(cs[0], d) == Value then ClassOfChunk(cs'[0], d) == Value else cs'[0] == cs[0];
  }

  /** What is written depends on the skeleton only. */
  lemma {:induction false} OutOfSkeleton(cs: seq<Chunk>, cs': seq<Chunk>, d: Dialect, prev: byte)
    requires WellFormed(cs) && WellFormed(cs') && SameSkeleton(cs, cs', d)
    ensures Out(cs, d, prev) == Out(cs', d, prev)
    decreases |cs|
  {
    if cs == [] {
      assert cs' == [];
    } else {
      hide FirstPiece, SameSkeleton, Out, WellFormed;
      SamePiece(cs, cs', d, prev);
      OutPiece(cs, d, prev);
      OutPiece(cs', d, prev);
      var (n, t) := FirstPiece(cs, d, prev);
      SkeletonTail(cs, cs', d, n);
      OutOfSkeleton(cs[n..], cs'[n..], d, t[|t| - 1]);
    }
  }

  // ---- the chunk form is what the walk writes ----

  lemma {:induction false} LexWellFormed(d: Dialect, s: text, i: nat)
    requires i <= |s|
    ensures WellFormed(Lex(LiteralReading(false, d), s, i))
    decreases |s| - i
  {
    hide CutFrom, Run, DollarTag, DollarRun;
    if i < |s| {
      LiteralCut(false, d, s, i);
      LexWellFormed(d, s, i + CutFrom(LiteralReading(false, d), s, i).len);
    }
  }

  /** The bytes a number may hold are plain chunks of their own. */
  lemma {:induction false} PlainStretch(d: Dialect, s: text, i: nat, n: nat)
    requires i + n <= |s| && forall p :: i <= p < i + n ==> IsNumberByte(s[p])
    ensures var r := LiteralReading(false, d);
            SpansFrom(r, d, Value, s, i) == SpansFrom(r, d, Value, s, i + n) &&
            SpansFrom(r, d, Name, s, i) == SpansFrom(r, d, Name, s, i + n) &&
            n <= |Lex(r, s, i)| && Lex(r, s, i)[n..] == Lex(r, s, i + n)
    decreases n
  {
    hide CutFrom, ClassFrom;
    if n > 0 {
      assert IsNumberByte(s[i]);
      NumberByteIsPlain(d, s, i);
      PlainStretch(d, s, i + 1, n - 1);
      PlainStep(d, s, i);
    }
  }

  lemma NumberByteIsPlain(d: Dialect, s: text, i: nat)
    requires i < |s| && IsNumberByte(s[i])
    ensures var r := LiteralReading(false, d);
      CutFrom(r, s, i) == Cut(Plain, 1, true) && ClassFrom(r, d, s, i) == Structure
  {
    hide CutFrom, Run, DollarTag, DollarRun;
    LiteralCut(false, d, s, i);
  }

  /** A plain byte adds one chunk and no span. */
  lemma PlainStep(d: Dialect, s: text, i: nat)
    requires i < |s|
    requires var r := LiteralReading(false, d);
      CutFrom(r, s, i) == Cut(Plain, 1, true) && ClassFrom(r, d, s, i) == Structure
    ensures var r := LiteralReading(false, d);
      SpansFrom(r, d, Value, s, i) == SpansFrom(r, d, Value, s, i + 1) &&
      SpansFrom(r, d, Name, s, i) == SpansFrom(r, d, Name, s, i + 1) &&
      |Lex(r, s, i)| == |Lex(r, s, i + 1)| + 1 &&
      forall n :: 0 < n <= |Lex(r, s, i)| ==> Lex(r, s, i)[n..] == Lex(r, s, i + 1)[n - 1..]
  {
    hide CutFrom, ClassFrom;
    var r := LiteralReading(false, d);
    assert [] + SpansFrom(r, d, Value, s, i + 1) == SpansFrom(r, d, Value, s, i + 1);
    assert [] + SpansFrom(r, d, Name, s, i + 1) == SpansFrom(r, d, Name, s, i + 1);
    assert Lex(r, s, i) == [ChunkFrom(r, s, i)] + Lex(r, s, i + 1);
  }

  /** The leading plain chunks reach up to the end or a delimiter, where every number stops. */
  lemma {:induction false} PlainPrefixPart(d: Dialect, s: text, i: nat)
    requires i <= |s| && WellFormed(Lex(LiteralReading(false, d), s, i))
    ensures NumberPart(PlainPrefix(Lex(LiteralReading(false, d), s, i)), s, i)
    decreases |s| - i
  {
    hide CutFrom, IsNumberByte, PlainPrefix, WellFormed, Lex, NumberPart;
    var r := LiteralReading(false, d);
    PrefixStep(d, s, i);
    if i < |s| && CutFrom(r, s, i).kind.Plain? {
      LexWellFormed(d, s, i + 1);
      PlainPrefixPart(d, s, i + 1);
      PartStep(PlainPrefix(Lex(r, s, i + 1)), s, i);
    } else {
      if i < |s| { PlainOrDelimiter(d, s, i); }
      NoPart(s, i);
    }
  }

  lemma PrefixStep(d: Dialect, s: text, i: nat)
    requires i <= |s| && WellFormed(Lex(LiteralReading(false, d), s, i))
    ensures var r := LiteralReading(false, d);
      if i < |s| && CutFrom(r, s, i).kind.Plain? then
        CutFrom(r, s, i).len == 1 && WellFormed(Lex(r, s, i + 1)) &&
        PlainPrefix(Lex(r, s, i)) == [s[i]] + PlainPrefix(Lex(r, s, i + 1))
      else PlainPrefix(Lex(r, s, i)) == []
  {
    hide CutFrom;
    if i < |s| {
      PlainOrDelimiter(d, s, i);
      LexWellFormed(d, s, i + CutFrom(LiteralReading(false, d), s, i).len);
      assert Lex(LiteralReading(false, d), s, i)[0] == ChunkFrom(LiteralReading(false, d), s, i);
    }
  }

  lemma PartStep(u: text, s: text, i: nat)
    requires i < |s| && NumberPart(u, s, i + 1)
    ensures NumberPart([s[i]] + u, s, i)
  {
    hide IsNumberByte;
  }

  lemma NoPart(s: text, i: nat)
    requires i == |s| || (i < |s| && !IsNumberByte(s[i]))
    ensures NumberPart([], s, i)
  {
  }

  /** A chunk is one plain byte, or it opens with a byte no number holds. */
  lemma PlainOrDelimiter(d: Dialect, s: text, i: nat)
    requires i < |s|
    ensures var c := CutFrom(LiteralReading(false, d), s, i); if c.kind.Plain? then c.len == 1 else !IsNumberByte(s[i])
  {
    hide CutFrom, Run, DollarTag, DollarRun;
    LiteralCut(false, d, s, i);
  }


  /** Only the spans that end after i matter to the walk from i. */
  lemma WalkDrops(s: text, rs: seq<Span>, rs': seq<Span>, ks: seq<Span>, ks': seq<Span>, i: nat, prev: byte)
    requires DropPassed(rs, i) == DropPassed(rs', i) && DropPassed(ks, i) == DropPassed(ks', i)
    ensures Walk(s, rs, ks, i, prev) == Walk(s, rs', ks', i, prev)
  {
    hide DropPassed, NumberLen, SuppressesNumber;
  }

  /** One step of the walk whose lists hold no span that has passed. */
  lemma WalkPiece(s: text, rs: seq<Span>, ks: seq<Span>, i: nat, prev: byte)
    requires i < |s| && rs == DropPassed(rs, i) && ks == DropPassed(ks, i)
    ensures Walk(s, rs, ks, i, prev) ==
      if rs != [] && rs[0].lo <= i then [Literal(rs[0])] + Walk(s, rs, ks, rs[0].hi, QUESTION)
      else if !(ks != [] && ks[0].lo <= i) && IsDigit(s[i]) && !SuppressesNumber(prev) then
        [Number(i, i + NumberLen(s, i))] + Walk(s, rs, ks, i + NumberLen(s, i), QUESTION)
      else [Copy(i)] + Walk(s, rs, ks, i + 1, s[i])
  {
    hide DropPassed, NumberLen, SuppressesNumber;
  }

  /** The bytes from i to j, copied. */
  function Copies(i: nat, j: nat): seq<Piece>
    decreases j - i
  {
    if i >= j then [] else [Copy(i)] + Copies(i + 1, j)
  }

  lemma {:induction false} CopiesAreCopies(i: nat, j: nat)
    ensures forall p :: p in Copies(i, j) ==> p.Copy?
    decreases j - i
  {
    if i < j { CopiesAreCopies(i + 1, j); }
  }

  /** The bytes of a kept name are copied. */
  lemma {:induction false} CopyName(s: text, rs: seq<Span>, ks: seq<Span>, k: nat, j: nat, prev: byte)
    requires k < j <= |s| && ks != [] && ks[0].lo <= k && ks[0].hi == j
    requires rs != [] ==> j <= rs[0].lo < rs[0].hi
    ensures Walk(s, rs, ks, k, prev) == Copies(k, j) + Walk(s, rs, ks, j, s[j - 1])
    decreases j - k
  {
    hide Walk, NumberLen, SuppressesNumber;
    WalkPiece(s, rs, ks, k, prev);
    var rest := Walk(s, rs, ks, j, s[j - 1]);
    if k + 1 < j {
      CopyName(s, rs, ks, k + 1, j, s[k]);
      assert [Copy(k)] + (Copies(k + 1, j) + rest) == [Copy(k)] + Copies(k + 1, j) + rest;
    } else {
      assert Copies(k, j) == [Copy(k)];
    }
  }

  /** Past the chunk at i the lists from i and from behind it are the same. */
  lemma DropsAgree(d: Dialect, s: text, i: nat)
    requires i < |s|
    ensures var r := LiteralReading(false, d); var j := i + CutFrom(r, s, i).len;
      DropPassed(SpansFrom(r, d, Value, s, i), j) == DropPassed(SpansFrom(r, d, Value, s, j), j) &&
      DropPassed(SpansFrom(r, d, Name, s, i), j) == DropPassed(SpansFrom(r, d, Name, s, j), j)
  {
    hide CutFrom, ClassFrom;
    var r := LiteralReading(false, d); var j := i + CutFrom(r, s, i).len;
    var rs, ks := SpansFrom(r, d, Value, s, j), SpansFrom(r, d, Name, s, j);
    assert ([Span(i, j)] + rs)[1..] == rs && ([Span(i, j)] + ks)[1..] == ks;
    assert [] + rs == rs && [] + ks == ks;
  }

  /** A literal or name starts its list. */
  lemma SpansAtChunk(d: Dialect, s: text, i: nat)
    requires i < |s|
    ensures var r := LiteralReading(false, d); var j := i + CutFrom(r, s, i).len;
      (ClassFrom(r, d, s, i) == Value ==>
        SpansFrom(r, d, Value, s, i) == [Span(i, j)] + SpansFrom(r, d, Value, s, j)) &&
      (ClassFrom(r, d, s, i) != Value ==> SpansFrom(r, d, Value, s, i) == SpansFrom(r, d, Value, s, j)) &&
      (ClassFrom(r, d, s, i) == Name ==> SpansFrom(r, d, Name, s, i) == [Span(i, j)] + SpansFrom(r, d, Name, s, j)) &&
      (ClassFrom(r, d, s, i) != Name ==> SpansFrom(r, d, Name, s, i) == SpansFrom(r, d, Name, s, j))
  {
    hide CutFrom, ClassFrom;
    var r := LiteralReading(false, d); var j := i + CutFrom(r, s, i).len;
    assert [] + SpansFrom(r, d, Value, s, j) == SpansFrom(r, d, Value, s, j);
    assert [] + SpansFrom(r, d, Name, s, j) == SpansFrom(r, d, Name, s, j);
  }

  /** The pieces of the walk from i on, where prev was written last. */
  function PiecesFrom(d: Dialect, s: text, i: nat, prev: byte): seq<Piece>
    requires i <= |s|
  {
    var r := LiteralReading(false, d);
    Walk(s, SpansFrom(r, d, Value, s, i), SpansFrom(r, d, Name, s, i), i, prev)
  }

  /** The two branches of the walk that copy or replace a whole chunk. */
  lemma WholeChunkPieces(d: Dialect, s: text, i: nat, prev: byte)
    requires i < |s| && ClassFrom(LiteralReading(false, d), d, s, i) != Structure
    ensures var r := LiteralReading(false, d); var j := i + CutFrom(r, s, i).len;
      PiecesFrom(d, s, i, prev) ==
      if ClassFrom(r, d, s, i) == Value then [Literal(Span(i, j))] + PiecesFrom(d, s, j, QUESTION)
      else Copies(i, j) + PiecesFrom(d, s, j, s[j - 1])
  {
    hide CutFrom, ClassFrom, Walk, NumberLen, SuppressesNumber, DropPassed, SpansFrom;
    var r := LiteralReading(false, d);
    var j := i + CutFrom(r, s, i).len;
    var rs, ks := SpansFrom(r, d, Value, s, i), SpansFrom(r, d, Name, s, i);
    var rs', ks' := SpansFrom(r, d, Value, s, j), SpansFrom(r, d, Name, s, j);
    SpansAhead(d, s, i);
    SpansAhead(d, s, j);
    DropsAgree(d, s, i);
    SpansAtChunk(d, s, i);
    if ClassFrom(r, d, s, i) == Value {
      WalkPiece(s, rs, ks, i, prev);
      WalkDrops(s, rs, rs', ks, ks', j, QUESTION);
    } else {
      CopyName(s, rs, ks, i, j, prev);
      WalkDrops(s, rs, rs', ks, ks', j, s[j - 1]);
    }
  }

  /** The two branches that copy a byte or replace a number. */
  lemma StructurePieces(d: Dialect, s: text, i: nat, prev: byte)
    requires i < |s| && ClassFrom(LiteralReading(false, d), d, s, i) == Structure
    ensures PiecesFrom(d, s, i, prev) ==
      if IsDigit(s[i]) && !SuppressesNumber(prev) then
        [Number(i, i + NumberLen(s, i))] + PiecesFrom(d, s, i + NumberLen(s, i), QUESTION)
      else [Copy(i)] + PiecesFrom(d, s, i + 1, s[i])
  {
    hide CutFrom, ClassFrom, Walk, NumberLen, SuppressesNumber, DropPassed, SpansFrom;
    var r := LiteralReading(false, d);
    var rs, ks := SpansFrom(r, d, Value, s, i), SpansFrom(r, d, Name, s, i);
    StructureIsPlain(d, s, i);
    SpansAhead(d, s, i + 1);
    SpansAhead(d, s, i);
    SpansAtChunk(d, s, i);
    WalkPiece(s, rs, ks, i, prev);
    if IsDigit(s[i]) && !SuppressesNumber(prev) {
      NumberBytes(s, i);
      PlainStretch(d, s, i, NumberLen(s, i));
    }
  }

  /** What the walk writes from i on. */
  function WrittenFrom(d: Dialect, s: text, i: nat, prev: byte): text
    requires i <= |s|
  {
    Render(PiecesFrom(d, s, i, prev), s)
  }

  lemma RenderFirst(p: Piece, ps: seq<Piece>, s: text)
    ensures Render([p] + ps, s) == [Byte(p, s)] + Render(ps, s)
  {
    assert ([p] + ps)[1..] == ps;
  }

  lemma {:induction false} RenderCopies(s: text, i: nat, j: nat, ps: seq<Piece>)
    requires i <= j <= |s|
    ensures Render(Copies(i, j) + ps, s) == s[i..j] + Render(ps, s)
    decreases j - i
  {
    hide Render, Copies;
    CopiesStep(i, j, ps);
    if i == j {
      assert s[i..j] + Render(ps, s) == Render(ps, s);
    } else {
      RenderCopies(s, i + 1, j, ps);
      RenderFirst(Copy(i), Copies(i + 1, j) + ps, s);
      assert s[i..j] == [s[i]] + s[i + 1..j];
      assert [s[i]] + (s[i + 1..j] + Render(ps, s)) == [s[i]] + s[i + 1..j] + Render(ps, s);
    }
  }

  lemma CopiesStep(i: nat, j: nat, ps: seq<Piece>)
    requires i <= j
    ensures Copies(i, j) + ps == if i == j then ps else [Copy(i)] + (Copies(i + 1, j) + ps)
  {
    assert i < j ==> [Copy(i)] + Copies(i + 1, j) + ps == [Copy(i)] + (Copies(i + 1, j) + ps);
    assert [] + ps == ps;
  }

  /** One chunk: what the walk writes for it, and the walk that goes on behind it. */
  lemma ChunkWritten(d: Dialect, s: text, i: nat, prev: byte)
    requires i < |s|
    ensures var r := LiteralReading(false, d); var j := i + CutFrom(r, s, i).len;
      WrittenFrom(d, s, i, prev) ==
      match ClassFrom(r, d, s, i)
      case Value => [QUESTION] + WrittenFrom(d, s, j, QUESTION)
      case Name => s[i..j] + WrittenFrom(d, s, j, s[j - 1])
      case Structure =>
        if IsDigit(s[i]) && !SuppressesNumber(prev) then
          [QUESTION] + WrittenFrom(d, s, i + NumberLen(s, i), QUESTION)
        else [s[i]] + WrittenFrom(d, s, i + 1, s[i])
  {
    hide CutFrom, ClassFrom, PiecesFrom, Render, Copies, NumberLen, SuppressesNumber;
    var r := LiteralReading(false, d);
    var j := i + CutFrom(r, s, i).len;
    match ClassFrom(r, d, s, i)
    case Value =>
      WholeChunkPieces(d, s, i, prev);
      RenderFirst(Literal(Span(i, j)), PiecesFrom(d, s, j, QUESTION), s);
    case Name =>
      WholeChunkPieces(d, s, i, prev);
      RenderCopies(s, i, j, PiecesFrom(d, s, j, s[j - 1]));
    case Structure =>
      StructurePieces(d, s, i, prev);
      if IsDigit(s[i]) && !SuppressesNumber(prev) {
        var n := NumberLen(s, i);
        RenderFirst(Number(i, i + n), PiecesFrom(d, s, i + n, QUESTION), s);
      } else {
        RenderFirst(Copy(i), PiecesFrom(d, s, i + 1, s[i]), s);
      }
  }

  /** The spans from i on are all ahead of i. */
  lemma SpansAhead(d: Dialect, s: text, i: nat)
    requires i <= |s|
    ensures var r := LiteralReading(false, d);
            var rs, ks := SpansFrom(r, d, Value, s, i), SpansFrom(r, d, Name, s, i);
            DropPassed(rs, i) == rs && DropPassed(ks, i) == ks &&
            (rs != [] ==> i <= rs[0].lo < rs[0].hi) && (ks != [] ==> i <= ks[0].lo < ks[0].hi)
  {
    hide CutFrom, ClassFrom, SpansFrom;
    SpansOrdered(LiteralReading(false, d), d, Value, s, i);
    SpansOrdered(LiteralReading(false, d), d, Name, s, i);
  }

  lemma StructureIsPlain(d: Dialect, s: text, i: nat)
    requires i < |s| && ClassFrom(LiteralReading(false, d), d, s, i) == Structure
    ensures CutFrom(LiteralReading(false, d), s, i) == Cut(Plain, 1, true)
  {
    hide CutFrom, Run, DollarTag, DollarRun;
    LiteralCut(false, d, s, i);
  }

  lemma NotStructure(d: Dialect, s: text, i: nat)
    requires i < |s| && ClassFrom(LiteralReading(false, d), d, s, i) != Structure
    ensures var c := CutFrom(LiteralReading(false, d), s, i);
      c.kind.IsLiteral() && (c.kind.DollarQuoted? ==> !WordBefore(s, i))
  {
    hide CutFrom, Run, DollarTag, DollarRun;
    LiteralCut(false, d, s, i);
  }

  lemma NothingFrom(d: Dialect, s: text, prev: byte)
    ensures WrittenFrom(d, s, |s|, prev) == [] == Out([], d, prev)
  {
  }

  /** The walk writes the first piece of the chunks, and goes on behind the chunks it takes. */
  lemma PieceWritten(d: Dialect, s: text, i: nat, prev: byte) returns (j: nat)
    requires i < |s| && WellFormed(Lex(LiteralReading(false, d), s, i))
    ensures i < j <= |s|
    ensures var r := LiteralReading(false, d);
      var (n, t) := FirstPiece(Lex(r, s, i), d, prev);
      Lex(r, s, i)[n..] == Lex(r, s, j) && WrittenFrom(d, s, i, prev) == t + WrittenFrom(d, s, j, t[|t| - 1])
  {
    hide CutFrom, ClassFrom, WrittenFrom, NumberLen, SuppressesNumber, ClassOfChunk, PlainPrefix, SpansFrom;
    var r := LiteralReading(false, d);
    var cs := Lex(r, s, i);
    j := i + CutFrom(r, s, i).len;
    assert cs[0] == ChunkFrom(r, s, i) && cs[1..] == Lex(r, s, j);
    ChunkWritten(d, s, i, prev);
    ClassFromChunk(r, d, s, i);
    if ClassFrom(r, d, s, i) == Structure {
      StructureIsPlain(d, s, i);
      if IsDigit(s[i]) && !SuppressesNumber(prev) {
        NumberChunks(d, s, i);
        j := i + NumberLen(s, i);
      }
    }
  }

  /** A number is as long in the plain prefix as in the text, and takes one chunk per byte. */
  lemma NumberChunks(d: Dialect, s: text, i: nat)
    requires i < |s| && IsDigit(s[i]) && WellFormed(Lex(LiteralReading(false, d), s, i))
    requires CutFrom(LiteralReading(false, d), s, i) == Cut(Plain, 1, true)
    ensures var cs, n := Lex(LiteralReading(false, d), s, i), NumberLen(s, i);
      PlainPrefix(cs) != [] && IsDigit(PlainPrefix(cs)[0]) && NumberLen(PlainPrefix(cs), 0) == n <= |cs| &&
      cs[n..] == Lex(LiteralReading(false, d), s, i + n)
  {
    hide CutFrom, NumberLen, SpansFrom;
    var cs := Lex(LiteralReading(false, d), s, i);
    assert cs[0] == ChunkFrom(LiteralReading(false, d), s, i);
    PlainPrefixPart(d, s, i);
    NumberInPart(PlainPrefix(cs), s, i);
    NumberBytes(s, i);
    PlainStretch(d, s, i, NumberLen(s, i));
  }

  lemma {:induction false} WrittenIsOut(d: Dialect, s: text, i: nat, prev: byte)
    requires i <= |s| && WellFormed(Lex(LiteralReading(false, d), s, i))
    ensures WrittenFrom(d, s, i, prev) == Out(Lex(LiteralReading(false, d), s, i), d, prev)
    decreases |s| - i
  {
    hide WrittenFrom, FirstPiece, Out, WellFormed, ChunkFrom;
    if i == |s| {
      NothingFrom(d, s, prev);
    } else {
      var cs := Lex(LiteralReading(false, d), s, i);
      var j := PieceWritten(d, s, i, prev);
      var (n, t) := FirstPiece(cs, d, prev);
      OutPiece(cs, d, prev);
      LexWellFormed(d, s, j);
      WrittenIsOut(d, s, j, t[|t| - 1]);
    }
  }

  /** In one reading the redacted text is what the chunks give. */
  lemma RedactedIsOut(s: text, d: Dialect)
    requires OneReading(s, d)
    ensures WellFormed(Lex(LiteralReading(false, d), s, 0))
    ensures RedactedText(s, d) == Out(Lex(LiteralReading(false, d), s, 0), d, 0)
  {
    hide CutFrom, ClassFrom, RedactedText, WrittenFrom, Out, SpansFrom;
    LexWellFormed(d, s, 0);
    WrittenIsOut(d, s, 0, 0);
    FromTheStart(s, d);
  }

  /** In one reading the walk is the one over the chunks. */
  lemma FromTheStart(s: text, d: Dialect)
    requires OneReading(s, d)
    ensures Pieces(s, d) == PiecesFrom(d, s, 0, 0) && RedactedText(s, d) == WrittenFrom(d, s, 0, 0)
  {
    hide Walk, Render, SpansFrom;
  }

  /** The same text is redacted alike, where a "$" in front of it meets a word in both places or in none. */
  lemma SameBehind(d: Dialect, s: text, i: nat, t: text, k: nat, prev: byte)
    requires i <= |s| && k <= |t| && s[i..] == t[k..] && SameBefore(s, i, t, k)
    ensures WrittenFrom(d, s, i, prev) == WrittenFrom(d, t, k, prev)
  {
    hide WrittenFrom, Lex, Out, WellFormed, SameBefore;
    var r := LiteralReading(false, d);
    ItsOwnRewriting(r, s, i);
    LexJoins(r, s, i);
    Relex(r, s, i, Lex(r, s, i), t, k);
    LexWellFormed(d, s, i);
    WrittenIsOut(d, s, i, prev);
    WrittenIsOut(d, t, k, prev);
  }

  lemma ItsOwnRewriting(r: Reading, s: text, i: nat)
    requires i <= |s|
    ensures Rewrites(r, Lex(r, s, i), Lex(r, s, i))
  {
    hide Lex, First;
    var cs := Lex(r, s, i);
    LexComplete(r, s, i);
    forall k | 0 <= k < |cs| ensures cs[k].text != [] && Replaces(r, cs[k], cs[k]) { assert cs[k] in cs; }
  }
}
