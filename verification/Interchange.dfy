/** Redaction does not depend on which number stands where one is redacted. */
module Interchange {
  import opened Bytes
  import opened ChunkWalk
  import opened Lexing
  import opened Numbers
  import opened Redact
  import opened Spans

  /** s with u in place of the bytes from lo to hi. */
  function Swap(s: text, lo: nat, hi: nat, u: text): text
    requires lo <= hi <= |s|
  {
    s[..lo] + u + s[hi..]
  }

  /** Both texts have a digit at lo and the same bytes before it. */
  predicate Alike(s: text, lo: nat, t: text)
  {
    lo < |s| && lo < |t| && s[..lo] == t[..lo] && IsDigit(s[lo]) && IsDigit(t[lo])
  }

  lemma SameByte(s: text, t: text, lo: nat, p: nat)
    requires p < lo <= |s| && lo <= |t| && s[..lo] == t[..lo]
    ensures s[p] == t[p]
  {
    assert s[p] == s[..lo][p] && t[p] == t[..lo][p];
  }

  // ---- delimiters before the number ----

  /** Without a word before the number no tag reaches it. */
  lemma TagBefore(s: text, lo: nat, t: text, i: nat)
    requires Alike(s, lo, t) && !WordBefore(s, lo) && i < lo && DollarTag(s, i) == 0
    ensures DollarTag(t, i) == 0
  {
    SameByte(s, t, lo, i);
    if i + 1 < lo {
      var n := IdentRun(s, i + 1);
      assert i + 1 + n < lo;
      forall p | i + 1 <= p <= i + 1 + n ensures s[p] == t[p] { SameByte(s, t, lo, p); }
      IdentRunIs(t, i + 1, n);
    }
  }

  /** A tag that ends before the number stands in both texts. */
  lemma TagWithin(s: text, lo: nat, t: text, i: nat)
    requires Alike(s, lo, t) && i < lo && DollarTag(t, i) > 0 && i + DollarTag(t, i) <= lo
    ensures DollarTag(s, i) == DollarTag(t, i)
  {
    var n := IdentRun(t, i + 1);
    forall p | i <= p <= i + 1 + n ensures s[p] == t[p] { SameByte(s, t, lo, p); }
    IdentRunIs(s, i + 1, n);
  }

  lemma StructureBefore(d: Dialect, s: text, lo: nat, t: text, i: nat)
    requires Alike(s, lo, t) && i < lo && ClassFrom(LiteralReading(false, d), d, s, i) == Structure
    requires (s[i] == DOLLAR && !WordBefore(s, i) ==> DollarTag(t, i) == 0) ||
             (ClassFrom(LiteralReading(false, d), d, t, i) != Structure ==>
               i + CutFrom(LiteralReading(false, d), t, i).len <= lo)
    ensures t[i] == s[i] && ClassFrom(LiteralReading(false, d), d, t, i) == Structure
  {
    hide CutFrom, Run, DollarTag, DollarRun;
    StructureIsPlain(d, s, i);
    LiteralCut(false, d, s, i);
    LiteralCut(false, d, t, i);
    SameByte(s, t, lo, i);
    if i > 0 { SameByte(s, t, lo, i - 1); }
    if s[i] == DOLLAR && DollarTag(t, i) > 0 && !WordBefore(t, i) { TagWithin(s, lo, t, i); }
  }

  // ---- literals and names before the number ----

  /** A literal or name that ends by lo is the same chunk of t. */
  lemma ChunkBefore(d: Dialect, s: text, lo: nat, t: text, i: nat)
    requires Alike(s, lo, t) && i < lo && ClassFrom(LiteralReading(false, d), d, s, i) != Structure
    requires i + CutFrom(LiteralReading(false, d), s, i).len <= lo
    ensures ChunkFrom(LiteralReading(false, d), t, i) == ChunkFrom(LiteralReading(false, d), s, i)
  {
    hide CutFrom, ClassFrom, First, Complete;
    var r := LiteralReading(false, d);
    var c := ChunkFrom(r, s, i);
    var j := i + |c.text|;
    NotStructure(d, s, i);
    ChunkComplete(r, s, i);
    SliceOfSlice(s, 0, lo, i, j);
    SliceOfSlice(t, 0, lo, i, j);
    assert t[0..lo] == t[..lo] && s[0..lo] == s[..lo] && t[i..j] == s[i..j] == c.text;
    assert t[i..] == c.text + t[j..];
    if j < lo { SameByte(s, t, lo, j); }
    if i > 0 { SameByte(s, t, lo, i - 1); }
    StillShape(c, s[j..], t[j..]);
    FirstInContext(r, WordBefore(t, i), c, t[j..]);
    ChunkIsFirst(r, t, i);
  }

  lemma StillShape(c: Chunk, rest: text, rest': text)
    requires Shape(c, rest) && c.IsLiteral() && rest != [] && rest' != []
    requires rest'[0] == rest[0] || IsDigit(rest'[0])
    ensures Shape(c, rest')
  {
  }

  /** What ChunkBefore means for the walk. */
  lemma ChunkAlike(d: Dialect, s: text, lo: nat, t: text, i: nat)
    requires Alike(s, lo, t) && i < lo && ClassFrom(LiteralReading(false, d), d, s, i) != Structure
    requires i + CutFrom(LiteralReading(false, d), s, i).len <= lo
    ensures var r := LiteralReading(false, d); var n := CutFrom(r, s, i).len;
      CutFrom(r, t, i).len == n && ClassFrom(r, d, t, i) == ClassFrom(r, d, s, i) &&
      t[i..i + n] == s[i..i + n] && t[i + n - 1] == s[i + n - 1]
  {
    hide CutFrom, ClassFrom, ClassOfChunk;
    var r := LiteralReading(false, d);
    ChunkBefore(d, s, lo, t, i);
    ClassFromChunk(r, d, s, i);
    ClassFromChunk(r, d, t, i);
    var c, n := ChunkFrom(r, s, i), CutFrom(r, s, i).len;
    assert |ChunkFrom(r, t, i).text| == |c.text| == n;
    SameByte(s, t, lo, i + n - 1);
  }

  // ---- numbers before the number ----

  /** Runs that end before lo in one text, or by lo in both, are equal. */
  lemma {:induction false} RunsBefore(s: text, t: text, lo: nat, k: nat, radix: byte)
    requires k <= lo <= |s| && lo <= |t| && s[..lo] == t[..lo]
    ensures k + DecimalRun(s, k) < lo ==> DecimalRun(t, k) == DecimalRun(s, k)
    ensures k + DigitRun(s, k) < lo ==> DigitRun(t, k) == DigitRun(s, k)
    ensures var m, n := RadixRun(s, k, radix), RadixRun(t, k, radix);
      k + m < lo || (k + m <= lo && k + n <= lo) ==> m == n
    decreases lo - k
  {
    if k < lo {
      SameByte(s, t, lo, k);
      RunsBefore(s, t, lo, k + 1, radix);
    }
  }

  /** Digits are taken up to the end of the run, so no run stops at the digit at lo. */
  lemma {:induction false} RunsPassDigit(s: text, lo: nat, k: nat)
    requires k <= lo < |s| && IsDigit(s[lo])
    ensures k + DecimalRun(s, k) != lo && k + DigitRun(s, k) != lo
    decreases lo - k
  {
    if k < lo { RunsPassDigit(s, lo, k + 1); }
  }

  lemma {:induction false} RadixRunDigits(s: text, k: nat, radix: byte)
    requires k <= |s|
    ensures var n := RadixRun(s, k, radix); n > 0 ==> IsIdentByte(s[k + n - 1])
    decreases |s| - k
  {
    if k < |s| { RadixRunDigits(s, k + 1, radix); }
  }

  lemma RadixBefore(s: text, lo: nat, t: text, i: nat)
    requires Alike(s, lo, t) && i < lo && IsDigit(s[i]) && i + NumberLen(s, i) <= lo
    requires WordBefore(s, lo) ==> IsDigit(t[i]) && i + NumberLen(t, i) <= lo
    ensures RadixLen(t, i) == RadixLen(s, i)
  {
    SameByte(s, t, lo, i);
    if s[i] == ZERO && i + 1 < lo {
      SameByte(s, t, lo, i + 1);
      if Lower(s[i + 1]) in {LOWER_X, LOWER_B} {
        var radix := Lower(s[i + 1]);
        RadixRunDigits(s, i + 2, radix);
        RunsBefore(s, t, lo, i + 2, radix);
      }
    }
  }

  /** A number that ends by lo is the same number of t. */
  lemma NumberBefore(s: text, lo: nat, t: text, i: nat)
    requires Alike(s, lo, t) && i < lo && IsDigit(s[i]) && i + NumberLen(s, i) <= lo
    requires WordBefore(s, lo) ==> IsDigit(t[i]) && i + NumberLen(t, i) <= lo
    ensures IsDigit(t[i]) && NumberLen(t, i) == NumberLen(s, i)
  {
    SameByte(s, t, lo, i);
    RadixBefore(s, lo, t, i);
    if RadixLen(s, i) == 0 {
      RunsBefore(s, t, lo, i, LOWER_X);
      RunsPassDigit(s, lo, i);
      ExponentBefore(s, lo, t, i + DecimalRun(s, i));
    }
  }

  lemma ExponentBefore(s: text, lo: nat, t: text, k: nat)
    requires k < lo < |s| && lo < |t| && s[..lo] == t[..lo] && IsDigit(s[lo]) && IsDigit(t[lo])
    requires k + ExponentLen(s, k) <= lo
    ensures ExponentLen(t, k) == ExponentLen(s, k)
  {
    SameByte(s, t, lo, k);
    if k + 1 < lo { SameByte(s, t, lo, k + 1); }
    if k + 2 < lo { SameByte(s, t, lo, k + 2); }
    if k + 1 < lo { RunsBefore(s, t, lo, k + 1, LOWER_X); RunsPassDigit(s, lo, k + 1); }
    if k + 2 < lo { RunsBefore(s, t, lo, k + 2, LOWER_X); RunsPassDigit(s, lo, k + 2); }
  }

  // ---- the walks up to the number ----

  lemma PiecesAhead(d: Dialect, s: text, i: nat, prev: byte)
    requires i <= |s|
    ensures forall p :: p in PiecesFrom(d, s, i, prev) ==> i <= p.Start() < p.End()
  {
    hide Walk, SpansFrom, CutFrom;
    var r := LiteralReading(false, d);
    var rs, ks := SpansFrom(r, d, Value, s, i), SpansFrom(r, d, Name, s, i);
    SpansOrdered(r, d, Value, s, i);
    SpansOpen(false, d, s, i);
    WalkTiles(s, rs, ks, i, prev);
    TilesAscend(Walk(s, rs, ks, i, prev), i, |s|);
  }

  /** A number among the pieces from lo on that starts at lo is the first of them. */
  lemma NumberFirst(d: Dialect, s: text, lo: nat, hi: nat, prev: byte)
    requires lo < |s| && IsDigit(s[lo]) && Number(lo, hi) in PiecesFrom(d, s, lo, prev)
    ensures !SuppressesNumber(prev) && ClassFrom(LiteralReading(false, d), d, s, lo) == Structure
  {
    hide PiecesFrom, NumberLen, SuppressesNumber, CutFrom, ClassFrom;
    NumberByteIsPlain(d, s, lo);
    StructurePieces(d, s, lo, prev);
    PiecesAhead(d, s, lo + 1, s[lo]);
  }

  /** A literal or a name before a number ends before it. */
  lemma NumberBehind(d: Dialect, s: text, lo: nat, hi: nat, i: nat, prev: byte) returns (j: nat, b: byte)
    requires i < |s| && Number(lo, hi) in PiecesFrom(d, s, i, prev)
    requires ClassFrom(LiteralReading(false, d), d, s, i) != Structure
    ensures j == i + CutFrom(LiteralReading(false, d), s, i).len <= lo
    ensures b == if ClassFrom(LiteralReading(false, d), d, s, i) == Value then QUESTION else s[j - 1]
    ensures Number(lo, hi) in PiecesFrom(d, s, j, b)
  {
    hide PiecesFrom, CutFrom, ClassFrom, Copies;
    j := i + CutFrom(LiteralReading(false, d), s, i).len;
    b := if ClassFrom(LiteralReading(false, d), d, s, i) == Value then QUESTION else s[j - 1];
    WholeChunkPieces(d, s, i, prev);
    CopiesAreCopies(i, j);
    PiecesAhead(d, s, j, b);
  }

  /** A "$" of s that is no part of a name and opens a string unless something keeps its delimiter from being one. */
  ghost predicate MayOpen(d: Dialect, s: text, i: nat, k: nat)
  {
    i <= k < |s| && s[k] == DOLLAR && !WordBefore(s, k) && ClassAt(LiteralReading(false, d), d, s, i, k) == Structure
  }

  /** Nothing of s from i up to lo, with these pieces, is something else in t: no copied "$" opens a string, and the
      numbers end where they did. */
  ghost predicate Undisturbed(ps: seq<Piece>, d: Dialect, s: text, i: nat, lo: nat, t: text)
    requires lo <= |t|
  {
    (forall k: nat :: Copy(k) in ps && k < lo && MayOpen(d, s, i, k) ==> DollarTag(t, k) == 0) &&
    (forall k: nat, e: nat :: Number(k, e) in ps && k < e <= lo ==> IsDigit(t[k]) && NumberLen(t, k) == e - k)
  }

  /** The number is still to come in s, and in t too or nothing before it is disturbed. */
  ghost predicate ToCome(d: Dialect, s: text, lo: nat, hi: nat, t: text, hi': nat, i: nat, prev: byte)
  {
    Alike(s, lo, t) && i <= lo && Number(lo, hi) in PiecesFrom(d, s, i, prev) &&
    (Number(lo, hi') in PiecesFrom(d, t, i, prev) || Undisturbed(PiecesFrom(d, s, i, prev), d, s, i, lo, t))
  }

  /** One step of both walks: the same pieces, the same output, and the number is still to come. */
  ghost predicate Together(d: Dialect, s: text, lo: nat, hi: nat, t: text, hi': nat, i: nat, prev: byte,
                           head: seq<Piece>, w: text, j: nat, b: byte)
  {
    i < j <= lo < |s| && lo < |t| && ToCome(d, s, lo, hi, t, hi', j, b) &&
    PiecesFrom(d, t, i, prev) == head + PiecesFrom(d, t, j, b) &&
    WrittenFrom(d, s, i, prev) == w + WrittenFrom(d, s, j, b) &&
    WrittenFrom(d, t, i, prev) == w + WrittenFrom(d, t, j, b) &&
    (Undisturbed(PiecesFrom(d, s, j, b), d, s, j, lo, t) ==> Undisturbed(PiecesFrom(d, s, i, prev), d, s, i, lo, t))
  }

  /** Between i and j nothing changes the class of what is behind j. */
  ghost predicate SameClassBehind(d: Dialect, s: text, i: nat, j: nat)
  {
    i <= j <= |s| && forall k :: j <= k < |s| ==>
      ClassAt(LiteralReading(false, d), d, s, i, k) == ClassAt(LiteralReading(false, d), d, s, j, k)
  }

  lemma ClassBehindChunk(d: Dialect, s: text, i: nat)
    requires i < |s|
    ensures SameClassBehind(d, s, i, i + CutFrom(LiteralReading(false, d), s, i).len)
  {
    hide CutFrom, ClassFrom;
  }

  lemma {:induction false} ClassBehindNumber(d: Dialect, s: text, i: nat, j: nat)
    requires i <= j <= |s| && forall p :: i <= p < j ==> IsNumberByte(s[p])
    ensures SameClassBehind(d, s, i, j)
    decreases j - i
  {
    hide CutFrom, ClassFrom, IsNumberByte;
    if i < j {
      NumberByteIsPlain(d, s, i);
      ClassBehindChunk(d, s, i);
      ClassBehindNumber(d, s, i + 1, j);
    }
  }

  /** What is undisturbed from i on is the first pieces and the rest. */
  lemma UndisturbedStep(d: Dialect, s: text, lo: nat, t: text, i: nat, prev: byte, head: seq<Piece>, j: nat, b: byte)
    requires i < j <= lo < |s| && lo < |t| && PiecesFrom(d, s, i, prev) == head + PiecesFrom(d, s, j, b)
    requires SameClassBehind(d, s, i, j) && Undisturbed(head, d, s, i, lo, t)
    ensures Undisturbed(PiecesFrom(d, s, i, prev), d, s, i, lo, t) <==>
            Undisturbed(PiecesFrom(d, s, j, b), d, s, j, lo, t)
  {
    hide PiecesFrom, NumberLen, WordBefore, ClassAt;
    var all, rest := PiecesFrom(d, s, i, prev), PiecesFrom(d, s, j, b);
    PiecesAhead(d, s, j, b);
    assert forall p :: p in all <==> p in head || p in rest;
    forall k: nat | Copy(k) in rest && k < lo ensures MayOpen(d, s, i, k) <==> MayOpen(d, s, j, k) {
      assert Copy(k).Start() == k;
    }
  }

  /** The walk over t meets structure where the walk over s does. */
  lemma StructureToo(d: Dialect, s: text, lo: nat, hi: nat, t: text, hi': nat, i: nat, prev: byte)
    requires ToCome(d, s, lo, hi, t, hi', i, prev) && i < lo
    requires ClassFrom(LiteralReading(false, d), d, s, i) == Structure
    ensures t[i] == s[i] && ClassFrom(LiteralReading(false, d), d, t, i) == Structure
  {
    hide PiecesFrom, CutFrom, ClassFrom, NumberLen, SuppressesNumber, WordBefore;
    if Number(lo, hi') in PiecesFrom(d, t, i, prev) {
      if ClassFrom(LiteralReading(false, d), d, t, i) != Structure { var _, _ := NumberBehind(d, t, lo, hi', i, prev); }
    } else if s[i] == DOLLAR {
      StructurePieces(d, s, i, prev);
      assert Copy(i) in PiecesFrom(d, s, i, prev);
      StructureIsPlain(d, s, i);
      assert ClassAt(LiteralReading(false, d), d, s, i, i) == Structure;
    }
    StructureBefore(d, s, lo, t, i);
  }

  /** Over a byte. */
  lemma ByteStep(d: Dialect, s: text, lo: nat, hi: nat, t: text, hi': nat, i: nat, prev: byte)
    requires ToCome(d, s, lo, hi, t, hi', i, prev) && i < lo
    requires ClassFrom(LiteralReading(false, d), d, s, i) == Structure
    requires !(IsDigit(s[i]) && !SuppressesNumber(prev))
    ensures Together(d, s, lo, hi, t, hi', i, prev, [Copy(i)], [s[i]], i + 1, s[i])
  {
    hide PiecesFrom, WrittenFrom, NumberLen, SuppressesNumber, CutFrom, ClassFrom;
    StructureToo(d, s, lo, hi, t, hi', i, prev);
    StructurePieces(d, s, i, prev);
    StructurePieces(d, t, i, prev);
    ChunkWritten(d, s, i, prev);
    ChunkWritten(d, t, i, prev);
    assert Number(lo, hi) != Copy(i) && Number(lo, hi') != Copy(i);
    StructureIsPlain(d, s, i);
    ClassBehindChunk(d, s, i);
    ByteUndisturbed(d, s, lo, t, i);
    UndisturbedStep(d, s, lo, t, i, prev, [Copy(i)], i + 1, s[i]);
  }

  lemma ByteUndisturbed(d: Dialect, s: text, lo: nat, t: text, i: nat)
    requires Alike(s, lo, t) && i < lo && t[i] == s[i] && ClassFrom(LiteralReading(false, d), d, t, i) == Structure
    ensures Undisturbed([Copy(i)], d, s, i, lo, t)
  {
    hide CutFrom, Run, DollarTag, DollarRun, NumberLen;
    LiteralCut(false, d, t, i);
    if i > 0 { SameByte(s, t, lo, i - 1); }
  }

  /** Over another number. */
  lemma NumberStep(d: Dialect, s: text, lo: nat, hi: nat, t: text, hi': nat, i: nat, prev: byte)
    requires ToCome(d, s, lo, hi, t, hi', i, prev) && i < lo
    requires ClassFrom(LiteralReading(false, d), d, s, i) == Structure
    requires IsDigit(s[i]) && !SuppressesNumber(prev)
    ensures var j := i + NumberLen(s, i);
      Together(d, s, lo, hi, t, hi', i, prev, [Number(i, j)], [QUESTION], j, QUESTION)
  {
    hide PiecesFrom, WrittenFrom, NumberLen, SuppressesNumber, CutFrom, ClassFrom;
    StructureToo(d, s, lo, hi, t, hi', i, prev);
    NumberPiece(d, s, lo, hi, i, prev);
    SameNumber(d, s, lo, hi, t, hi', i, prev);
    StructurePieces(d, s, i, prev);
    StructurePieces(d, t, i, prev);
    ChunkWritten(d, s, i, prev);
    ChunkWritten(d, t, i, prev);
    var j := i + NumberLen(s, i);
    NumberBytes(s, i);
    ClassBehindNumber(d, s, i, j);
    UndisturbedStep(d, s, lo, t, i, prev, [Number(i, j)], j, QUESTION);
  }

  lemma SameNumber(d: Dialect, s: text, lo: nat, hi: nat, t: text, hi': nat, i: nat, prev: byte)
    requires ToCome(d, s, lo, hi, t, hi', i, prev) && i < lo && t[i] == s[i]
    requires ClassFrom(LiteralReading(false, d), d, s, i) == Structure
    requires ClassFrom(LiteralReading(false, d), d, t, i) == Structure
    requires IsDigit(s[i]) && !SuppressesNumber(prev) && i + NumberLen(s, i) <= lo
    ensures NumberLen(t, i) == NumberLen(s, i)
  {
    hide PiecesFrom, NumberLen, SuppressesNumber, CutFrom, ClassFrom;
    if Number(lo, hi') in PiecesFrom(d, t, i, prev) {
      NumberPiece(d, t, lo, hi', i, prev);
      NumberBefore(s, lo, t, i);
    } else {
      StructurePieces(d, s, i, prev);
      assert Number(i, i + NumberLen(s, i)) in PiecesFrom(d, s, i, prev);
    }
  }

  /** A number before the number ends by it. */
  lemma NumberPiece(d: Dialect, s: text, lo: nat, hi: nat, i: nat, prev: byte)
    requires i < lo && i < |s| && Number(lo, hi) in PiecesFrom(d, s, i, prev)
    requires ClassFrom(LiteralReading(false, d), d, s, i) == Structure && IsDigit(s[i]) && !SuppressesNumber(prev)
    ensures var j := i + NumberLen(s, i); j <= lo && Number(lo, hi) in PiecesFrom(d, s, j, QUESTION)
  {
    hide PiecesFrom, NumberLen, SuppressesNumber, CutFrom, ClassFrom;
    StructurePieces(d, s, i, prev);
    PiecesAhead(d, s, i + NumberLen(s, i), QUESTION);
  }

  /** Over a literal or a name. */
  lemma ChunkStep(d: Dialect, s: text, lo: nat, hi: nat, t: text, hi': nat, i: nat, prev: byte)
    returns (head: seq<Piece>, w: text, j: nat, b: byte)
    requires ToCome(d, s, lo, hi, t, hi', i, prev) && i < lo
    requires ClassFrom(LiteralReading(false, d), d, s, i) != Structure
    ensures Together(d, s, lo, hi, t, hi', i, prev, head, w, j, b)
  {
    hide PiecesFrom, WrittenFrom, CutFrom, ClassFrom, Alike;
    AlikeInRange(s, lo, t);
    j, b := NumberBehind(d, s, lo, hi, i, prev);
    ChunkAlike(d, s, lo, t, i);
    head, w := ChunkAgain(d, s, t, i, prev, j, b);
    ClassBehindChunk(d, s, i);
    HeadUndisturbed(d, s, lo, t, i, j, head);
    UndisturbedStep(d, s, lo, t, i, prev, head, j, b);
    if Number(lo, hi') in PiecesFrom(d, t, i, prev) { var _, _ := NumberBehind(d, t, lo, hi', i, prev); }
  }

  lemma HeadUndisturbed(d: Dialect, s: text, lo: nat, t: text, i: nat, j: nat, head: seq<Piece>)
    requires i < |s| && lo <= |t| && j == i + CutFrom(LiteralReading(false, d), s, i).len
    requires ClassFrom(LiteralReading(false, d), d, s, i) != Structure
    requires head == [Literal(Span(i, j))] || head == Copies(i, j)
    ensures Undisturbed(head, d, s, i, lo, t)
  {
    hide CutFrom, ClassFrom, NumberLen, Copies;
    CopiesAreCopies(i, j);
    CopiesWithin(i, j);
  }

  lemma {:induction false} CopiesWithin(i: nat, j: nat)
    ensures forall k: nat :: Copy(k) in Copies(i, j) ==> i <= k < j
    decreases j - i
  {
    if i < j { CopiesWithin(i + 1, j); }
  }

  lemma AlikeInRange(s: text, lo: nat, t: text)
    requires Alike(s, lo, t)
    ensures lo < |s| && lo < |t|
  {
  }

  lemma ChunkAgain(d: Dialect, s: text, t: text, i: nat, prev: byte, j: nat, b: byte)
    returns (head: seq<Piece>, w: text)
    requires i < |s| && i < |t| && ClassFrom(LiteralReading(false, d), d, s, i) != Structure
    requires ClassFrom(LiteralReading(false, d), d, t, i) == ClassFrom(LiteralReading(false, d), d, s, i)
    requires j == i + CutFrom(LiteralReading(false, d), s, i).len == i + CutFrom(LiteralReading(false, d), t, i).len
    requires t[i..j] == s[i..j] && t[j - 1] == s[j - 1]
    requires b == if ClassFrom(LiteralReading(false, d), d, s, i) == Value then QUESTION else s[j - 1]
    ensures head == [Literal(Span(i, j))] || head == Copies(i, j)
    ensures PiecesFrom(d, s, i, prev) == head + PiecesFrom(d, s, j, b)
    ensures PiecesFrom(d, t, i, prev) == head + PiecesFrom(d, t, j, b)
    ensures WrittenFrom(d, s, i, prev) == w + WrittenFrom(d, s, j, b)
    ensures WrittenFrom(d, t, i, prev) == w + WrittenFrom(d, t, j, b)
  {
    hide PiecesFrom, WrittenFrom, NumberLen, SuppressesNumber, CutFrom, ClassFrom, Copies;
    WholeChunkPieces(d, s, i, prev);
    WholeChunkPieces(d, t, i, prev);
    ChunkWritten(d, s, i, prev);
    ChunkWritten(d, t, i, prev);
    if ClassFrom(LiteralReading(false, d), d, s, i) == Value {
      head, w := [Literal(Span(i, j))], [QUESTION];
    } else {
      head, w := Copies(i, j), s[i..j];
    }
  }

  lemma Step(d: Dialect, s: text, lo: nat, hi: nat, t: text, hi': nat, i: nat, prev: byte)
    returns (head: seq<Piece>, w: text, j: nat, b: byte)
    requires ToCome(d, s, lo, hi, t, hi', i, prev) && i < lo
    ensures Together(d, s, lo, hi, t, hi', i, prev, head, w, j, b)
  {
    hide PiecesFrom, NumberLen, CutFrom, ClassFrom, Together, SuppressesNumber;
    if ClassFrom(LiteralReading(false, d), d, s, i) != Structure {
      head, w, j, b := ChunkStep(d, s, lo, hi, t, hi', i, prev);
    } else if IsDigit(s[i]) && !SuppressesNumber(prev) {
      NumberStep(d, s, lo, hi, t, hi', i, prev);
      j, b := i + NumberLen(s, i), QUESTION;
      head, w := [Number(i, j)], [QUESTION];
    } else {
      ByteStep(d, s, lo, hi, t, hi', i, prev);
      head, w, j, b := [Copy(i)], [s[i]], i + 1, s[i];
    }
  }

  /** Up to the number both walks write the same. */
  lemma {:induction false} UpToNumber(d: Dialect, s: text, lo: nat, hi: nat, t: text, hi': nat, i: nat, prev: byte)
    returns (w: text, b: byte)
    requires ToCome(d, s, lo, hi, t, hi', i, prev)
    ensures lo < |s| && lo < |t| && Number(lo, hi) in PiecesFrom(d, s, lo, b)
    ensures forall p :: p in PiecesFrom(d, t, lo, b) ==> p in PiecesFrom(d, t, i, prev)
    ensures WrittenFrom(d, s, i, prev) == w + WrittenFrom(d, s, lo, b)
    ensures WrittenFrom(d, t, i, prev) == w + WrittenFrom(d, t, lo, b)
    ensures Undisturbed(PiecesFrom(d, s, i, prev), d, s, i, lo, t)
    decreases lo - i
  {
    hide PiecesFrom, WrittenFrom, Undisturbed;
    if i == lo {
      w, b := [], prev;
      NothingBefore(d, s, lo, t, prev);
    } else {
      var head, x, j, c := Step(d, s, lo, hi, t, hi', i, prev);
      w, b := UpToNumber(d, s, lo, hi, t, hi', j, c);
      w := x + w;
    }
  }

  lemma NothingBefore(d: Dialect, s: text, lo: nat, t: text, prev: byte)
    requires lo <= |s| && lo <= |t|
    ensures Undisturbed(PiecesFrom(d, s, lo, prev), d, s, lo, lo, t)
  {
    hide PiecesFrom, NumberLen;
    PiecesAhead(d, s, lo, prev);
    forall k: nat | Copy(k) in PiecesFrom(d, s, lo, prev) ensures k >= lo { assert Copy(k).Start() == k; }
    forall k: nat, e: nat | Number(k, e) in PiecesFrom(d, s, lo, prev) ensures k >= lo {
      assert Number(k, e).Start() == k;
    }
  }

  /** The number is the next piece of both walks. */
  lemma AtNumber(d: Dialect, s: text, lo: nat, hi: nat, t: text, b: byte)
    requires Alike(s, lo, t) && Number(lo, hi) in PiecesFrom(d, s, lo, b)
    ensures WrittenFrom(d, s, lo, b) == [QUESTION] + WrittenFrom(d, s, lo + NumberLen(s, lo), QUESTION)
    ensures WrittenFrom(d, t, lo, b) == [QUESTION] + WrittenFrom(d, t, lo + NumberLen(t, lo), QUESTION)
    ensures Number(lo, lo + NumberLen(t, lo)) in PiecesFrom(d, t, lo, b)
  {
    hide PiecesFrom, WrittenFrom, NumberLen, SuppressesNumber, CutFrom, ClassFrom;
    NumberFirst(d, s, lo, hi, b);
    NumberByteIsPlain(d, t, lo);
    ChunkWritten(d, s, lo, b);
    ChunkWritten(d, t, lo, b);
    StructurePieces(d, t, lo, b);
  }

  // ---- the text behind it ----

  /** A string opens at i, if no word stands before it. */
  predicate Delimits(s: text, i: nat)
    requires i <= |s|
  {
    i < |s| && DollarTag(s, i) > 0
  }

  /** The same text is redacted alike exactly when a delimiter in front of it meets a word in both places or in none. */
  lemma BehindExactly(d: Dialect, s: text, i: nat, t: text, k: nat)
    requires i <= |s| && k <= |t| && s[i..] == t[k..]
    ensures WrittenFrom(d, s, i, QUESTION) == WrittenFrom(d, t, k, QUESTION) <==>
            (Delimits(s, i) ==> WordBefore(s, i) == WordBefore(t, k))
  {
    hide WrittenFrom, CutFrom, NumberLen, SuppressesNumber, DollarTag, DollarRun, Run;
    if i == |s| || s[i] != DOLLAR || WordBefore(s, i) == WordBefore(t, k) {
      if i < |s| && s[i] != DOLLAR { OnlyDollar(s, i); }
      SameBehind(d, s, i, t, k, QUESTION);
    } else {
      assert t[k] == t[k..][0] == s[i..][0] == s[i];
      DollarShift(s, i);
      DollarShift(t, k);
      LiteralCut(false, d, s, i);
      LiteralCut(false, d, t, k);
      ChunkWritten(d, s, i, QUESTION);
      ChunkWritten(d, t, k, QUESTION);
      if DollarTag(s, i) == 0 {
        assert s[i + 1..] == s[i..][1..] == t[k..][1..] == t[k + 1..];
        SameBehind(d, s, i + 1, t, k + 1, DOLLAR);
      } else {
        var x, y := WrittenFrom(d, s, i, QUESTION), WrittenFrom(d, t, k, QUESTION);
        assert x[0] == (if WordBefore(s, i) then DOLLAR else QUESTION);
        assert y[0] == (if WordBefore(t, k) then DOLLAR else QUESTION);
      }
    }
  }

  lemma OnlyDollar(s: text, i: nat)
    requires i < |s| && s[i] != DOLLAR
    ensures DollarTag(s, i) == 0
  {
  }

  // ---- whole texts ----

  /** A number piece starts with a digit and ends where the number does. */
  lemma {:induction false} PieceIsNumber(s: text, redact: seq<Span>, keep: seq<Span>, i: nat, prev: byte)
    ensures forall p :: p in Walk(s, redact, keep, i, prev) && p.Number? ==>
              p.lo < |s| && IsDigit(s[p.lo]) && p.hi == p.lo + NumberLen(s, p.lo)
    decreases |s| - i
  {
    if i < |s| {
      hide NumberLen, Walk, DropPassed;
      var head, rs, ks, j, tail := WalkUnfold(s, redact, keep, i, prev);
      PieceIsNumber(s, rs, ks, j, Byte(head, s));
    }
  }

  lemma NumberFromTail(s: text, i: nat)
    requires i < |s| && IsDigit(s[i])
    ensures NumberLen(s[i..], 0) == NumberLen(s, i)
  {
    hide NumberLen;
    NumberInPart(s[i..], s, i);
  }

  /** The bytes of t behind lo, and that a number of s is one of t. */
  lemma SwapAlike(s: text, lo: nat, hi: nat, u: text)
    requires lo < hi <= |s| && IsDigit(s[lo]) && u != [] && IsDigit(u[0]) && NumberLen(u + s[hi..], 0) == |u|
    ensures var t := Swap(s, lo, hi, u); Alike(s, lo, t) && NumberLen(t, lo) == |u|
  {
    hide NumberLen;
    var t := Swap(s, lo, hi, u);
    assert t[lo..] == u + s[hi..];
    assert t[lo] == t[lo..][0];
    NumberFromTail(t, lo);
  }

  /** u is read as one number in place of the one from lo to hi. */
  predicate ReadsAlone(s: text, lo: nat, hi: nat, u: text)
  {
    lo < hi <= |s| && u != [] && IsDigit(u[0]) && NumberLen(u + s[hi..], 0) == |u|
  }

  /** In place of a redacted number another one is redacted exactly when it disturbs nothing before it. */
  lemma StillANumber(s: text, d: Dialect, lo: nat, hi: nat, u: text)
    requires Number(lo, hi) in Pieces(s, d) && ReadsAlone(s, lo, hi, u)
    requires OneReading(s, d) && OneReading(Swap(s, lo, hi, u), d)
    ensures var t := Swap(s, lo, hi, u);
      Number(lo, lo + |u|) in Pieces(t, d) <==> Undisturbed(Pieces(s, d), d, s, 0, lo, t)
  {
    hide Walk, WrittenFrom, PiecesFrom, NumberLen, RedactedSpans, NamesOf, OneReading, Undisturbed;
    var t := Swap(s, lo, hi, u);
    PieceIsNumber(s, RedactedSpans(s, d), NamesOf(s, false, d), 0, 0);
    SwapAlike(s, lo, hi, u);
    FromTheStart(s, d);
    FromTheStart(t, d);
    if ToCome(d, s, lo, hi, t, lo + |u|, 0, 0) {
      var _, b := UpToNumber(d, s, lo, hi, t, lo + |u|, 0, 0);
      AtNumber(d, s, lo, hi, t, b);
    }
  }

  /** A place that is structure is a plain byte, and a "$" there that no word precedes is no delimiter. */
  lemma {:induction false} NoDelimiterAt(d: Dialect, s: text, i: nat, k: nat)
    requires MayOpen(d, s, i, k)
    ensures DollarTag(s, k) == 0
    decreases |s| - i
  {
    hide CutFrom, Run, DollarTag, DollarRun, WordBefore;
    var j := i + CutFrom(LiteralReading(false, d), s, i).len;
    if k < j {
      StructureIsPlain(d, s, i);
      LiteralCut(false, d, s, i);
    } else {
      NoDelimiterAt(d, s, j, k);
    }
  }

  /** Nothing is disturbed where no word ends before the number. */
  lemma UndisturbedWithoutWord(s: text, d: Dialect, lo: nat, hi: nat, u: text)
    requires Number(lo, hi) in Pieces(s, d) && ReadsAlone(s, lo, hi, u) && !WordBefore(s, lo)
    ensures Undisturbed(Pieces(s, d), d, s, 0, lo, Swap(s, lo, hi, u))
  {
    hide Walk, NumberLen, RedactedSpans, NamesOf, WordBefore, MayOpen;
    var t := Swap(s, lo, hi, u);
    PieceIsNumber(s, RedactedSpans(s, d), NamesOf(s, false, d), 0, 0);
    SwapAlike(s, lo, hi, u);
    forall k: nat | Copy(k) in Pieces(s, d) && k < lo && MayOpen(d, s, 0, k) ensures DollarTag(t, k) == 0 {
      NoDelimiterAt(d, s, 0, k);
      TagBefore(s, lo, t, k);
    }
    forall k: nat, e: nat | Number(k, e) in Pieces(s, d) && k < e <= lo
      ensures IsDigit(t[k]) && NumberLen(t, k) == e - k
    {
      NumberBefore(s, lo, t, k);
    }
  }

  /** A redacted number may be any other that disturbs nothing before it: the redacted text stays the same exactly when
      a "$" behind it that could open a string meets a word before it with both numbers or with none. */
  lemma NumbersDoNotMatter(s: text, d: Dialect, lo: nat, hi: nat, u: text)
    requires Number(lo, hi) in Pieces(s, d) && ReadsAlone(s, lo, hi, u)
    requires Undisturbed(Pieces(s, d), d, s, 0, lo, Swap(s, lo, hi, u))
    requires OneReading(s, d) && OneReading(Swap(s, lo, hi, u), d)
    ensures RedactedText(Swap(s, lo, hi, u), d) == RedactedText(s, d) <==>
            (Delimits(s, hi) ==> IsIdentByte(s[hi - 1]) == EndsIdent(u))
  {
    hide Walk, WrittenFrom, PiecesFrom, NumberLen, RedactedText, RedactedSpans, NamesOf, Delimits, OneReading,
         Undisturbed;
    var t := Swap(s, lo, hi, u);
    PieceIsNumber(s, RedactedSpans(s, d), NamesOf(s, false, d), 0, 0);
    SwapAlike(s, lo, hi, u);
    FromTheStart(s, d);
    FromTheStart(t, d);
    var w, b := UpToNumber(d, s, lo, hi, t, lo + |u|, 0, 0);
    AtNumber(d, s, lo, hi, t, b);
    assert t[lo + |u|..] == s[hi..] && t[lo + |u| - 1] == u[|u| - 1];
    BehindExactly(d, s, hi, t, lo + |u|);
    var x, y := WrittenFrom(d, s, hi, QUESTION), WrittenFrom(d, t, lo + |u|, QUESTION);
    SameFront([QUESTION], x, y);
    SameFront(w, [QUESTION] + x, [QUESTION] + y);
  }

  lemma SameFront(w: text, x: text, y: text)
    ensures w + x == w + y <==> x == y
  {
    assert (w + x)[|w|..] == x && (w + y)[|w|..] == y;
  }

  /** A "$", a byte that is not ASCII, and 1.5$ */
  const DECIMAL_TAG: text := [DOLLAR, 195, 49, DOT, 53, DOLLAR]

  /** The same with 15: now the two "$" are a delimiter, and a string opens. */
  const INTEGER_TAG: text := [DOLLAR, 195, 49, 53, DOLLAR]

  lemma TagsDiffer()
    ensures DollarTag(DECIMAL_TAG, 0) == 0 && DollarTag(INTEGER_TAG, 0) == 5
    ensures NumberLen(DECIMAL_TAG, 2) == 3
  {
    IdentRunIs(DECIMAL_TAG, 1, 2);
    IdentRunIs(INTEGER_TAG, 1, 3);
    assert RadixLen(DECIMAL_TAG, 2) == 0;
    assert DecimalRun(DECIMAL_TAG, 5) == 0 && DecimalRun(DECIMAL_TAG, 4) == 1 && DecimalRun(DECIMAL_TAG, 3) == 2;
    assert ExponentLen(DECIMAL_TAG, 5) == 0;
  }

  /** A word before the number matters, for a delimiter can hold an integer and no decimal. */
  lemma WordBeforeMatters(d: Dialect)
    ensures Swap(DECIMAL_TAG, 2, 5, [49, 53]) == INTEGER_TAG && Number(2, 5) in Pieces(DECIMAL_TAG, d)
    ensures WordBefore(DECIMAL_TAG, 2) && RedactedText(INTEGER_TAG, d) != RedactedText(DECIMAL_TAG, d)
  {
    hide CutFrom, ClassFrom, PiecesFrom, WrittenFrom, Pieces, RedactedText, NumberLen;
    var s, t := DECIMAL_TAG, INTEGER_TAG;
    TagsDiffer();
    FirstClasses(d);
    FromTheStart(s, d);
    FromTheStart(t, d);
    ChunkWritten(d, s, 0, 0);
    ChunkWritten(d, t, 0, 0);
    StructurePieces(d, s, 0, 0);
    StructurePieces(d, s, 1, DOLLAR);
    StructurePieces(d, s, 2, 195);
    assert Number(2, 5) in PiecesFrom(d, s, 2, 195);
    assert Swap(s, 2, 5, [49, 53]) == t;
    assert WrittenFrom(d, s, 0, 0)[0] == DOLLAR && WrittenFrom(d, t, 0, 0)[0] == QUESTION;
  }

  lemma FirstClasses(d: Dialect)
    ensures var r := LiteralReading(false, d);
      ClassFrom(r, d, DECIMAL_TAG, 0) == Structure && ClassFrom(r, d, DECIMAL_TAG, 1) == Structure &&
      ClassFrom(r, d, DECIMAL_TAG, 2) == Structure &&
      ClassFrom(r, d, INTEGER_TAG, 0) == Value
  {
    hide CutFrom, Run, DollarTag, DollarRun, NumberLen;
    TagsDiffer();
    LiteralCut(false, d, DECIMAL_TAG, 0);
    LiteralCut(false, d, DECIMAL_TAG, 1);
    LiteralCut(false, d, DECIMAL_TAG, 2);
    LiteralCut(false, d, INTEGER_TAG, 0);
  }
}
