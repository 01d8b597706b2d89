/** When redacting twice is redacting once: exactly when no "$" behind a redacted number opens a string, now that
    a "?" stands before it instead of a digit or a letter. */
module Idempotence {
  import opened Bytes
  import opened ChunkWalk
  import opened Lexing
  import opened Numbers
  import opened Queries
  import opened Redact
  import opened Spans
  import opened Strip

  // ---- the condition ----

  /** The delimiter at i is in the redacted text what it was: no digit of its tag is redacted, and an empty tag's
      second "$" opens no string of its own. */
  predicate TagSurvives(s: text, i: nat)
    requires i < |s|
  {
    var n := DollarTag(s, i);
    n > 0 && (forall p :: i + 1 < p < i + n && IsDigit(s[p]) ==> s[p - 1] < 128) &&
    !(n == 2 && DollarTag(s, i + 1) > 0)
  }

  /** A string opens behind the number that ends at hi once the number is a "?". */
  predicate Reopens(s: text, hi: nat)
  {
    0 < hi < |s| && IsIdentByte(s[hi - 1]) && TagSurvives(s, hi)
  }

  /** No number of the walk has a string behind it that its last byte kept closed. */
  predicate Settled(s: text, d: Dialect)
  {
    forall p :: p in Pieces(s, d) && p.Number? ==> !Reopens(s, p.hi)
  }

  // ---- the output as a text of its own ----

  /** t ends in what the walk writes for s from i on, and prev stands before that. */
  ghost predicate Follows(d: Dialect, s: text, i: nat, prev: byte, t: text, k: nat)
  {
    i <= |s| && k <= |t| && t[k..] == WrittenFrom(d, s, i, prev) && prev == (if k == 0 then 0 else t[k - 1])
  }

  function Fixed(d: Dialect): Reading { LiteralReading(false, d) }

  /** The walk starts with the byte it stands at, or with a placeholder. */
  lemma HeadOfOutput(d: Dialect, s: text, i: nat, prev: byte)
    requires i <= |s|
    ensures WrittenFrom(d, s, i, prev) == [] <==> i == |s|
    ensures i < |s| ==> WrittenFrom(d, s, i, prev)[0] in {s[i], QUESTION}
  {
    hide CutFrom, ClassFrom, WrittenFrom, NumberLen, SuppressesNumber;
    if i < |s| { ChunkWritten(d, s, i, prev); } else { NothingFrom(d, s, prev); }
  }

  /** A byte of the output, and the output behind it. */
  lemma FollowsTail(d: Dialect, s: text, i: nat, prev: byte, t: text, k: nat, head: text, j: nat)
    requires Follows(d, s, i, prev, t, k) && head != [] && j <= |s|
    requires WrittenFrom(d, s, i, prev) == head + WrittenFrom(d, s, j, head[|head| - 1])
    ensures k + |head| <= |t| && t[k..k + |head|] == head
    ensures Follows(d, s, j, head[|head| - 1], t, k + |head|)
  {
    hide WrittenFrom;
    CutText(t, k, head, WrittenFrom(d, s, j, head[|head| - 1]));
    assert t[k + |head| - 1] == t[k..k + |head|][|head| - 1];
  }

  // ---- delimiters in the output ----

  /** None of the n bytes from p on starts a number that is redacted. */
  predicate CleanRun(s: text, p: nat, n: nat, prev: byte)
    requires p + n <= |s|
    decreases n
  {
    n == 0 || (!(IsDigit(s[p]) && !SuppressesNumber(prev)) && CleanRun(s, p + 1, n - 1, s[p]))
  }

  lemma {:induction false} CleanMeans(s: text, p: nat, n: nat, prev: byte)
    requires p + n <= |s| && forall x :: p <= x < p + n ==> IsIdentByte(s[x])
    requires n > 0 && IsDigit(s[p]) ==> SuppressesNumber(prev)
    ensures CleanRun(s, p, n, prev) <==> forall x :: p < x < p + n && IsDigit(s[x]) ==> s[x - 1] < 128
    decreases n
  {
    if n > 1 {
      if IsDigit(s[p + 1]) && s[p] >= 128 {
        assert !CleanRun(s, p + 1, n - 1, s[p]);
      } else {
        CleanMeans(s, p + 1, n - 1, s[p]);
      }
    }
  }

  /** The identifier run at p stands in the output, or the output's run stops at a placeholder. */
  ghost predicate RunShown(d: Dialect, s: text, p: nat, prev: byte, t: text, q: nat)
  {
    p <= |s| && q <= |t| &&
    var m := IdentRun(s, p);
    if CleanRun(s, p, m, prev) then
      IdentRun(t, q) == m && t[q..q + m] == s[p..p + m] &&
      Follows(d, s, p + m, if m == 0 then prev else s[p + m - 1], t, q + m)
    else q + IdentRun(t, q) < |t| && t[q + IdentRun(t, q)] == QUESTION
  }

  lemma RunShownStep(d: Dialect, s: text, p: nat, prev: byte, t: text, q: nat)
    requires p < |s| && q < |t| && IsIdentByte(s[p]) && t[q] == s[p] && !(IsDigit(s[p]) && !SuppressesNumber(prev))
    requires RunShown(d, s, p + 1, s[p], t, q + 1)
    ensures RunShown(d, s, p, prev, t, q)
  {
    hide Follows, SuppressesNumber;
    var m := IdentRun(s, p + 1);
    if CleanRun(s, p + 1, m, s[p]) {
      assert t[q..q + 1 + m] == [t[q]] + t[q + 1..q + 1 + m];
      assert s[p..p + 1 + m] == [s[p]] + s[p + 1..p + 1 + m];
    }
  }

  lemma RunShownEnd(d: Dialect, s: text, p: nat, prev: byte, t: text, q: nat)
    requires p <= |s| && q <= |t| && Follows(d, s, p, prev, t, q) && (q < |t| ==> !IsIdentByte(t[q]))
    requires p < |s| && IsIdentByte(s[p]) ==> q < |t| && t[q] == QUESTION && IsDigit(s[p]) && !SuppressesNumber(prev)
    ensures RunShown(d, s, p, prev, t, q)
  {
    hide Follows, SuppressesNumber;
    assert t[q..q] == s[p..p];
  }

  /** An identifier run is copied up to a digit that is redacted, if it has one. */
  lemma {:induction false} RunInOutput(d: Dialect, s: text, p: nat, prev: byte, t: text, q: nat)
    requires Follows(d, s, p, prev, t, q)
    ensures RunShown(d, s, p, prev, t, q)
    decreases |s| - p
  {
    hide WrittenFrom, SuppressesNumber, NumberLen, RunShown;
    HeadOfOutput(d, s, p, prev);
    FirstByte(d, s, p, prev, t, q);
    if p < |s| && IsIdentByte(s[p]) {
      IdentWritten(d, s, p, prev);
      if IsDigit(s[p]) && !SuppressesNumber(prev) {
        RunShownEnd(d, s, p, prev, t, q);
      } else {
        FollowsTail(d, s, p, prev, t, q, [s[p]], p + 1);
        RunInOutput(d, s, p + 1, s[p], t, q + 1);
        RunShownStep(d, s, p, prev, t, q);
      }
    } else {
      RunShownEnd(d, s, p, prev, t, q);
    }
  }

  lemma FirstByte(d: Dialect, s: text, i: nat, prev: byte, t: text, k: nat)
    requires Follows(d, s, i, prev, t, k)
    ensures (k == |t| <==> WrittenFrom(d, s, i, prev) == []) && (k < |t| ==> t[k] == WrittenFrom(d, s, i, prev)[0])
  {
    hide WrittenFrom;
    if k < |t| { assert t[k] == t[k..][0]; }
  }

  /** An identifier byte is copied, or starts a number. */
  lemma IdentWritten(d: Dialect, s: text, p: nat, prev: byte)
    requires p < |s| && IsIdentByte(s[p])
    ensures WrittenFrom(d, s, p, prev) ==
      if IsDigit(s[p]) && !SuppressesNumber(prev) then [QUESTION] + WrittenFrom(d, s, p + NumberLen(s, p), QUESTION)
      else [s[p]] + WrittenFrom(d, s, p + 1, s[p])
  {
    hide CutFrom, WrittenFrom, SuppressesNumber, NumberLen, DollarTag, DollarRun, Run;
    LiteralCut(false, d, s, p);
    ChunkWritten(d, s, p, prev);
  }

  /** A "$" shows in the output where it does, unless it opens a string. */
  lemma DollarShown(d: Dialect, s: text, i: nat, prev: byte, t: text, k: nat)
    requires Follows(d, s, i, prev, t, k)
    ensures (k < |t| && t[k] == DOLLAR) <==>
            (i < |s| && s[i] == DOLLAR && (WordBefore(s, i) || DollarTag(s, i) == 0))
  {
    hide CutFrom, WrittenFrom, SuppressesNumber, NumberLen, DollarTag, DollarRun, Run, WordBefore;
    FirstByte(d, s, i, prev, t, k);
    HeadOfOutput(d, s, i, prev);
    if i < |s| && s[i] == DOLLAR {
      LiteralCut(false, d, s, i);
      ChunkWritten(d, s, i, prev);
    }
  }

  /** A copied "$" and the delimiter it opens in the output. */
  lemma TagInOutput(d: Dialect, s: text, i: nat, prev: byte, t: text, k: nat)
    requires Follows(d, s, i, prev, t, k) && i < |s| && s[i] == DOLLAR
    requires CutFrom(Fixed(d), s, i) == Cut(Plain, 1, true)
    ensures k < |t| && t[k] == DOLLAR && (DollarTag(t, k) > 0 <==> TagSurvives(s, i))
  {
    hide CutFrom, WrittenFrom, SuppressesNumber, NumberLen, DollarTag, TagSurvives, RunShown;
    ChunkWritten(d, s, i, prev);
    FollowsTail(d, s, i, prev, t, k, [DOLLAR], i + 1);
    assert t[k] == t[k..k + 1][0];
    RunInOutput(d, s, i + 1, DOLLAR, t, k + 1);
    var m := IdentRun(s, i + 1);
    if CleanRun(s, i + 1, m, DOLLAR) {
      CleanTag(d, s, i, t, k);
    } else {
      UncleanTag(d, s, i, t, k);
    }
  }

  lemma UncleanTag(d: Dialect, s: text, i: nat, t: text, k: nat)
    requires i < |s| && s[i] == DOLLAR && k < |t| && t[k] == DOLLAR && RunShown(d, s, i + 1, DOLLAR, t, k + 1)
    requires !CleanRun(s, i + 1, IdentRun(s, i + 1), DOLLAR)
    ensures DollarTag(t, k) == 0 && !TagSurvives(s, i)
  {
    hide Follows;
    CleanMeans(s, i + 1, IdentRun(s, i + 1), DOLLAR);
  }

  lemma TagByParts(s: text, i: nat)
    requires i < |s| && s[i] == DOLLAR
    ensures var m := IdentRun(s, i + 1); var j := i + 1 + m;
      (DollarTag(s, i) > 0 <==> (m > 0 ==> !IsDigit(s[i + 1])) && j < |s| && s[j] == DOLLAR) &&
      (DollarTag(s, i) == 2 <==> DollarTag(s, i) > 0 && m == 0)
  {
  }

  lemma SurvivesMeans(s: text, i: nat)
    requires i < |s| && s[i] == DOLLAR && CleanRun(s, i + 1, IdentRun(s, i + 1), DOLLAR)
    ensures TagSurvives(s, i) <==>
            DollarTag(s, i) > 0 && !(IdentRun(s, i + 1) == 0 && DollarTag(s, i + 1) > 0)
  {
    CleanMeans(s, i + 1, IdentRun(s, i + 1), DOLLAR);
  }

  lemma CleanTag(d: Dialect, s: text, i: nat, t: text, k: nat)
    requires i < |s| && s[i] == DOLLAR && k < |t| && t[k] == DOLLAR && RunShown(d, s, i + 1, DOLLAR, t, k + 1)
    requires CleanRun(s, i + 1, IdentRun(s, i + 1), DOLLAR)
    ensures DollarTag(t, k) > 0 <==> TagSurvives(s, i)
  {
    hide Follows, DollarTag, TagSurvives, CleanRun, RunShown, WordBefore;
    var m := IdentRun(s, i + 1);
    var j := i + 1 + m;
    CleanRunShown(d, s, i + 1, DOLLAR, t, k + 1);
    DollarShown(d, s, j, if m == 0 then DOLLAR else s[j - 1], t, k + 1 + m);
    SurvivesMeans(s, i);
    TagByParts(s, i);
    TagByParts(t, k);
    WordOfRun(s, i);
  }

  lemma WordOfRun(s: text, i: nat)
    requires i < |s| && s[i] == DOLLAR
    ensures var m := IdentRun(s, i + 1); WordBefore(s, i + 1 + m) <==> m > 0
  {
  }

  lemma CleanRunShown(d: Dialect, s: text, p: nat, prev: byte, t: text, q: nat)
    requires p <= |s| && q <= |t| && RunShown(d, s, p, prev, t, q) && CleanRun(s, p, IdentRun(s, p), prev)
    ensures var m := IdentRun(s, p);
      IdentRun(t, q) == m && (m > 0 ==> t[q] == s[p]) &&
      Follows(d, s, p + m, if m == 0 then prev else s[p + m - 1], t, q + m)
  {
    hide Follows, CleanRun;
    var m := IdentRun(s, p);
    assert m > 0 ==> t[q] == t[q..q + m][0] && s[p] == s[p..p + m][0];
  }

  // ---- the walk over the output, next to the walk over the text ----

  /** If a "$" stands at i that would open a string in the output, a word stands before it there. */
  ghost predicate Calm(d: Dialect, s: text, i: nat, t: text, k: nat)
    requires i <= |s| && k <= |t|
  {
    i < |s| && s[i] == DOLLAR && CutFrom(Fixed(d), s, i).kind.Plain? && TagSurvives(s, i) ==> WordBefore(t, k)
  }

  /** No word ends where a literal or a name ends. */
  lemma AfterLiteral(d: Dialect, s: text, i: nat)
    requires i < |s| && ClassFrom(Fixed(d), d, s, i) != Structure
    ensures var j := i + CutFrom(Fixed(d), s, i).len; j == |s| || !WordBefore(s, j)
  {
    hide CutFrom, Run, DollarRun, DollarTag;
    ChunkComplete(Fixed(d), s, i);
    var c := ChunkFrom(Fixed(d), s, i);
    var j := i + |c.text|;
    assert s[j - 1] == c.text[|c.text| - 1];
    LiteralCut(false, d, s, i);
  }

  /** A "$" that is plain although a delimiter stands there has a word before it. */
  lemma PlainDollar(d: Dialect, s: text, i: nat)
    requires i < |s| && s[i] == DOLLAR && CutFrom(Fixed(d), s, i).kind.Plain? && DollarTag(s, i) > 0
    ensures WordBefore(s, i)
  {
    hide CutFrom, DollarRun, DollarTag, Run;
    LiteralCut(false, d, s, i);
  }

  /** A placeholder of the output is copied. */
  lemma PlaceholderAgain(d: Dialect, t: text, k: nat, prev: byte)
    requires k < |t| && t[k] == QUESTION
    ensures CutFrom(Fixed(d), t, k).len == 1
    ensures WrittenFrom(d, t, k, prev) == t[k..k + 1] + WrittenFrom(d, t, k + 1, QUESTION)
  {
    hide CutFrom, WrittenFrom, NumberLen, SuppressesNumber, DollarTag, DollarRun, Run;
    LiteralCut(false, d, t, k);
    ChunkWritten(d, t, k, prev);
    assert t[k..k + 1] == [QUESTION];
  }

  /** A kept name is copied, and its closing quote is not doubled in the output. */
  lemma NameCopied(d: Dialect, s: text, i: nat, prev: byte, t: text, k: nat)
    requires Follows(d, s, i, prev, t, k) && i < |s| && ClassFrom(Fixed(d), d, s, i) == Name
    ensures var c := ChunkFrom(Fixed(d), s, i);
      k + |c.text| <= |t| && t[k..k + |c.text|] == c.text &&
      Follows(d, s, i + |c.text|, c.text[|c.text| - 1], t, k + |c.text|) &&
      Shape(c, t[k + |c.text|..]) && c.kind.Quoted?
  {
    hide CutFrom, ClassFrom, ChunkFrom, WrittenFrom, First, Complete, Follows, Shape;
    var c := ChunkFrom(Fixed(d), s, i);
    var j, m := i + |c.text|, k + |c.text|;
    NameWrittenOut(d, s, i, prev);
    FollowsInRange(d, s, i, prev, t, k);
    FollowsTail(d, s, i, prev, t, k, c.text, j);
    BehindName(d, c, s, j, c.text[|c.text| - 1], t, m);
  }

  lemma NameWrittenOut(d: Dialect, s: text, i: nat, prev: byte)
    requires i < |s| && ClassFrom(Fixed(d), d, s, i) == Name
    ensures var c := ChunkFrom(Fixed(d), s, i); var j := i + |c.text|;
      c.text != [] && c.kind.Quoted? && j <= |s| && Shape(c, s[j..]) &&
      WrittenFrom(d, s, i, prev) == c.text + WrittenFrom(d, s, j, c.text[|c.text| - 1])
  {
    hide CutFrom, ClassFrom, WrittenFrom, NumberLen, SuppressesNumber, First, Complete, Shape;
    ChunkComplete(Fixed(d), s, i);
    ChunkWritten(d, s, i, prev);
    NameIsQuoted(d, s, i);
  }

  lemma BehindName(d: Dialect, c: Chunk, s: text, j: nat, prev: byte, t: text, m: nat)
    requires Follows(d, s, j, prev, t, m) && Shape(c, s[j..]) && c.kind.Quoted?
    ensures Shape(c, t[m..])
  {
    hide WrittenFrom, Shape;
    HeadOfOutput(d, s, j, prev);
    FirstByte(d, s, j, prev, t, m);
    QuoteNotDoubled(c, s[j..], t[m..]);
  }

  lemma FollowsInRange(d: Dialect, s: text, i: nat, prev: byte, t: text, k: nat)
    requires Follows(d, s, i, prev, t, k)
    ensures i <= |s| && k <= |t|
  {
  }

  lemma QuoteNotDoubled(c: Chunk, rest: text, rest': text)
    requires Shape(c, rest) && c.kind.Quoted? && (rest == [] <==> rest' == [])
    requires rest' != [] ==> rest'[0] in {rest[0], QUESTION}
    ensures Shape(c, rest')
  {
  }

  /** A kept name is the same name in the output. */
  lemma NameAgain(d: Dialect, s: text, i: nat, prev: byte, t: text, k: nat)
    requires Follows(d, s, i, prev, t, k) && i < |s| && ClassFrom(Fixed(d), d, s, i) == Name
    ensures var n := CutFrom(Fixed(d), s, i).len;
      k + n <= |t| && t[k..k + n] == s[i..i + n] && Follows(d, s, i + n, s[i + n - 1], t, k + n) &&
      ChunkFrom(Fixed(d), t, k) == ChunkFrom(Fixed(d), s, i) &&
      WrittenFrom(d, t, k, prev) == t[k..k + n] + WrittenFrom(d, t, k + n, t[k + n - 1])
  {
    hide CutFrom, ClassFrom, ClassOfChunk, WrittenFrom, NumberLen, SuppressesNumber, Complete, Shape, Follows;
    var r := Fixed(d);
    var c := ChunkFrom(r, s, i);
    NameCopied(d, s, i, prev, t, k);
    ChunkComplete(r, s, i);
    SameChunk(r, c, t, k);
    ClassFromChunk(r, d, s, i);
    ClassFromChunk(r, d, t, k);
    ChunkWritten(d, t, k, prev);
  }

  lemma SameChunk(r: Reading, c: Chunk, t: text, k: nat)
    requires Complete(r, c) && c.kind.Quoted? && k + |c.text| <= |t| && t[k..k + |c.text|] == c.text
    requires Shape(c, t[k + |c.text|..])
    ensures k < |t| && ChunkFrom(r, t, k) == c
  {
    hide First, Complete, CutFrom, ChunkFrom;
    var rest := t[k + |c.text|..];
    FirstInContext(r, WordBefore(t, k), c, rest);
    assert t[k..] == c.text + rest;
    ChunkIsFirst(r, t, k);
  }

  lemma NameIsQuoted(d: Dialect, s: text, i: nat)
    requires i < |s| && ClassFrom(Fixed(d), d, s, i) == Name
    ensures CutFrom(Fixed(d), s, i).kind.Quoted? && s[i] in {DQUOTE, BACKTICK}
  {
    hide CutFrom, DollarRun, DollarTag, Run;
    LiteralCut(false, d, s, i);
  }

  /** A copied byte is copied again. */
  lemma CopyAgain(d: Dialect, s: text, i: nat, prev: byte, t: text, k: nat)
    requires Follows(d, s, i, prev, t, k) && i < |s| && ClassFrom(Fixed(d), d, s, i) == Structure
    requires !(IsDigit(s[i]) && !SuppressesNumber(prev)) && Calm(d, s, i, t, k)
    ensures k < |t| && t[k] == s[i] && Follows(d, s, i + 1, s[i], t, k + 1)
    ensures CutFrom(Fixed(d), t, k) == CutFrom(Fixed(d), s, i) == Cut(Plain, 1, true)
    ensures WrittenFrom(d, t, k, prev) == t[k..k + 1] + WrittenFrom(d, t, k + 1, s[i])
  {
    hide CutFrom, WrittenFrom, NumberLen, SuppressesNumber, DollarTag, DollarRun, Run, TagSurvives, WordBefore;
    StructureIsPlain(d, s, i);
    ChunkWritten(d, s, i, prev);
    FollowsTail(d, s, i, prev, t, k, [s[i]], i + 1);
    assert t[k] == t[k..k + 1][0];
    LiteralCut(false, d, s, i);
    if s[i] == DOLLAR { TagInOutput(d, s, i, prev, t, k); }
    LiteralCut(false, d, t, k);
    ChunkWritten(d, t, k, prev);
  }

  /** One step of both walks: the text from i gives the pieces in head and goes on at j, and the output from k
      copies itself up to m. Behind a number the output may open a string; behind anything else it stays calm. */
  ghost predicate StepsTo(d: Dialect, s: text, i: nat, prev: byte, t: text, k: nat, head: seq<Piece>, j: nat, m: nat)
  {
    i < j <= |s| && k < m <= |t| && Follows(d, s, j, t[m - 1], t, m) &&
    PiecesFrom(d, s, i, prev) == head + PiecesFrom(d, s, j, t[m - 1]) &&
    WrittenFrom(d, t, k, prev) == t[k..m] + WrittenFrom(d, t, m, t[m - 1]) &&
    CutFrom(Fixed(d), t, k).len == m - k &&
    (j == i + CutFrom(Fixed(d), s, i).len || forall p :: i <= p < j ==> IsNumberByte(s[p])) &&
    if head == [Number(i, j)] then t[m - 1] == QUESTION
    else Calm(d, s, j, t, m) && forall p :: p in head ==> !p.Number?
  }

  lemma StepAgain(d: Dialect, s: text, i: nat, prev: byte, t: text, k: nat)
    returns (head: seq<Piece>, j: nat, m: nat)
    requires Follows(d, s, i, prev, t, k) && i < |s| && Calm(d, s, i, t, k)
    ensures StepsTo(d, s, i, prev, t, k, head, j, m)
  {
    hide *;
    if ClassFrom(Fixed(d), d, s, i) == Structure {
      if IsDigit(s[i]) && !SuppressesNumber(prev) {
        head, j, m := NumberStep(d, s, i, prev, t, k);
      } else {
        head, j, m := CopyStep(d, s, i, prev, t, k);
      }
    } else if ClassFrom(Fixed(d), d, s, i) == Value {
      head, j, m := ValueStep(d, s, i, prev, t, k);
    } else {
      head, j, m := NameStep(d, s, i, prev, t, k);
    }
  }

  lemma NumberStep(d: Dialect, s: text, i: nat, prev: byte, t: text, k: nat)
    returns (head: seq<Piece>, j: nat, m: nat)
    requires Follows(d, s, i, prev, t, k) && i < |s| && ClassFrom(Fixed(d), d, s, i) == Structure
    requires IsDigit(s[i]) && !SuppressesNumber(prev)
    ensures StepsTo(d, s, i, prev, t, k, head, j, m)
  {
    hide ClassFrom, PiecesFrom, WrittenFrom, NumberLen, SuppressesNumber, CutFrom;
    j, m := i + NumberLen(s, i), k + 1;
    head := [Number(i, j)];
    StructurePieces(d, s, i, prev);
    ChunkWritten(d, s, i, prev);
    FollowsTail(d, s, i, prev, t, k, [QUESTION], j);
    assert t[k] == t[k..k + 1][0];
    PlaceholderAgain(d, t, k, prev);
    NumberBytes(s, i);
  }

  lemma ValueStep(d: Dialect, s: text, i: nat, prev: byte, t: text, k: nat)
    returns (head: seq<Piece>, j: nat, m: nat)
    requires Follows(d, s, i, prev, t, k) && i < |s| && ClassFrom(Fixed(d), d, s, i) == Value
    ensures StepsTo(d, s, i, prev, t, k, head, j, m)
  {
    hide ClassFrom, PiecesFrom, WrittenFrom, NumberLen, SuppressesNumber, CutFrom, TagSurvives;
    j, m := i + CutFrom(Fixed(d), s, i).len, k + 1;
    head := [Literal(Span(i, j))];
    WholeChunkPieces(d, s, i, prev);
    ChunkWritten(d, s, i, prev);
    FollowsTail(d, s, i, prev, t, k, [QUESTION], j);
    assert t[k] == t[k..k + 1][0];
    PlaceholderAgain(d, t, k, prev);
    CalmBehind(d, s, i, t, m);
  }

  /** Behind a literal or a name no delimiter is plain. */
  lemma CalmBehind(d: Dialect, s: text, i: nat, t: text, m: nat)
    requires i < |s| && ClassFrom(Fixed(d), d, s, i) != Structure && m <= |t|
    ensures Calm(d, s, i + CutFrom(Fixed(d), s, i).len, t, m)
  {
    hide ClassFrom, CutFrom;
    var j := i + CutFrom(Fixed(d), s, i).len;
    AfterLiteral(d, s, i);
    if j < |s| && s[j] == DOLLAR && CutFrom(Fixed(d), s, j).kind.Plain? && TagSurvives(s, j) { PlainDollar(d, s, j); }
  }

  lemma NameStep(d: Dialect, s: text, i: nat, prev: byte, t: text, k: nat)
    returns (head: seq<Piece>, j: nat, m: nat)
    requires Follows(d, s, i, prev, t, k) && i < |s| && ClassFrom(Fixed(d), d, s, i) == Name
    ensures StepsTo(d, s, i, prev, t, k, head, j, m)
  {
    hide ClassFrom, PiecesFrom, WrittenFrom, NumberLen, SuppressesNumber, CutFrom, Follows, Calm, Copies;
    var n := CutFrom(Fixed(d), s, i).len;
    j, m := i + n, k + n;
    head := Copies(i, j);
    WholeChunkPieces(d, s, i, prev);
    FollowsInRange(d, s, i, prev, t, k);
    NameAgain(d, s, i, prev, t, k);
    assert t[m - 1] == t[k..m][n - 1] == s[i..j][n - 1] == s[j - 1];
    CalmBehind(d, s, i, t, m);
    CopiesAreCopies(i, j);
    assert |head| > 0 ==> head[0] in head;
    assert |ChunkFrom(Fixed(d), t, k).text| == n;
  }

  lemma CopyStep(d: Dialect, s: text, i: nat, prev: byte, t: text, k: nat)
    returns (head: seq<Piece>, j: nat, m: nat)
    requires Follows(d, s, i, prev, t, k) && i < |s| && ClassFrom(Fixed(d), d, s, i) == Structure
    requires !(IsDigit(s[i]) && !SuppressesNumber(prev)) && Calm(d, s, i, t, k)
    ensures StepsTo(d, s, i, prev, t, k, head, j, m)
  {
    hide ClassFrom, PiecesFrom, WrittenFrom, NumberLen, SuppressesNumber, CutFrom, Follows, Calm;
    j, m := i + 1, k + 1;
    head := [Copy(i)];
    StructurePieces(d, s, i, prev);
    FollowsInRange(d, s, i, prev, t, k);
    CopyAgain(d, s, i, prev, t, k);
    assert t[m - 1] == s[i];
    CalmBehindCopy(d, s, i, t, m);
    assert head[0] == Copy(i) && forall p :: p in head ==> p == Copy(i);
  }

  lemma CalmBehindCopy(d: Dialect, s: text, i: nat, t: text, m: nat)
    requires i < |s| && 0 < m <= |t| && t[m - 1] == s[i]
    ensures Calm(d, s, i + 1, t, m)
  {
    hide CutFrom;
    var j := i + 1;
    if j < |s| && s[j] == DOLLAR && CutFrom(Fixed(d), s, j).kind.Plain? && TagSurvives(s, j) { PlainDollar(d, s, j); }
  }

  // ---- settled text is copied, unsettled text is not ----

  ghost predicate SettledFrom(d: Dialect, s: text, i: nat, prev: byte)
    requires i <= |s|
  {
    forall p :: p in PiecesFrom(d, s, i, prev) && p.Number? ==> !Reopens(s, p.hi)
  }

  /** Behind a number where no string opens the output is calm. */
  lemma CalmBehindNumber(d: Dialect, s: text, j: nat, t: text, m: nat)
    requires j <= |s| && m <= |t| && !Reopens(s, j)
    ensures Calm(d, s, j, t, m)
  {
    hide CutFrom;
    if j < |s| && s[j] == DOLLAR && CutFrom(Fixed(d), s, j).kind.Plain? && TagSurvives(s, j) { PlainDollar(d, s, j); }
  }

  /** The output of a settled text is copied byte for byte. */
  lemma {:induction false} SettledAgain(d: Dialect, s: text, i: nat, prev: byte, t: text, k: nat)
    requires Follows(d, s, i, prev, t, k) && Calm(d, s, i, t, k) && SettledFrom(d, s, i, prev)
    ensures WrittenFrom(d, t, k, prev) == t[k..]
    decreases |s| - i
  {
    hide WrittenFrom, PiecesFrom, Calm, Reopens;
    if i == |s| {
      NothingFrom(d, s, prev);
      NothingFrom(d, t, prev);
    } else {
      var head, j, m := StepAgain(d, s, i, prev, t, k);
      assert forall p :: p in PiecesFrom(d, s, j, t[m - 1]) ==> p in PiecesFrom(d, s, i, prev);
      if head == [Number(i, j)] {
        assert Number(i, j) in PiecesFrom(d, s, i, prev);
        CalmBehindNumber(d, s, j, t, m);
      }
      SettledAgain(d, s, j, t[m - 1], t, m);
      assert t[k..] == t[k..m] + t[m..];
    }
  }

  /** A value of two bytes or more starts at or behind k. */
  ghost predicate StringFrom(d: Dialect, t: text, k: nat)
    requires k <= |t|
  {
    exists x :: x in SpansFrom(Fixed(d), d, Value, t, k) && x.hi - x.lo >= 2
  }

  lemma StringBehind(d: Dialect, t: text, k: nat)
    requires k < |t|
    ensures var n := CutFrom(Fixed(d), t, k).len;
      StringFrom(d, t, k + n) || (n >= 2 && ClassFrom(Fixed(d), d, t, k) == Value) ==> StringFrom(d, t, k)
  {
    hide CutFrom, ClassFrom;
    var n := CutFrom(Fixed(d), t, k).len;
    SpansHead(Fixed(d), d, Value, t, k);
    var rest := SpansFrom(Fixed(d), d, Value, t, k + n);
    if n >= 2 && ClassFrom(Fixed(d), d, t, k) == Value { assert Span(k, k + n) in [Span(k, k + n)] + rest; }
    if StringFrom(d, t, k + n) {
      var x :| x in rest && x.hi - x.lo >= 2;
      assert x in SpansFrom(Fixed(d), d, Value, t, k);
    }
  }

  /** Behind such a number the output opens a string. */
  lemma OpensAgain(d: Dialect, s: text, j: nat, t: text, m: nat)
    requires Follows(d, s, j, QUESTION, t, m) && 0 < m && Reopens(s, j)
    ensures StringFrom(d, t, m)
  {
    hide CutFrom, WrittenFrom, NumberLen, SuppressesNumber, DollarTag, DollarRun, Run, StringFrom;
    SurvivesOpens(s, j);
    LiteralCut(false, d, s, j);
    TagInOutput(d, s, j, QUESTION, t, m);
    LiteralCut(false, d, t, m);
    StringBehind(d, t, m);
  }

  lemma SurvivesOpens(s: text, j: nat)
    requires j < |s| && TagSurvives(s, j)
    ensures s[j] == DOLLAR
  {
  }

  /** The output of an unsettled text has a string. */
  lemma {:induction false} UnsettledOpens(d: Dialect, s: text, i: nat, prev: byte, t: text, k: nat)
    requires Follows(d, s, i, prev, t, k) && Calm(d, s, i, t, k) && !SettledFrom(d, s, i, prev)
    ensures StringFrom(d, t, k)
    decreases |s| - i
  {
    hide WrittenFrom, Calm, Reopens, PiecesFrom, StringFrom;
    SomePieces(d, s, i, prev);
    var head, j, m := StepAgain(d, s, i, prev, t, k);
    StringBehind(d, t, k);
    if head == [Number(i, j)] && Reopens(s, j) {
      OpensAgain(d, s, j, t, m);
    } else {
      assert !SettledFrom(d, s, j, t[m - 1]) by {
        var p :| p in PiecesFrom(d, s, i, prev) && p.Number? && Reopens(s, p.hi);
        assert p in head || p in PiecesFrom(d, s, j, t[m - 1]);
      }
      if head == [Number(i, j)] { CalmBehindNumber(d, s, j, t, m); }
      UnsettledOpens(d, s, j, t[m - 1], t, m);
    }
  }

  lemma SomePieces(d: Dialect, s: text, i: nat, prev: byte)
    requires i <= |s| && !SettledFrom(d, s, i, prev)
    ensures i < |s|
  {
  }

  // ---- a text that is copied has one reading, a text with a string is shortened ----

  /** A run that holds no backslash is the same with escapes. */
  lemma {:induction false} RunWithoutEscape(q: byte, s: text, k: nat)
    requires k <= |s| && Run(q, false, s, k).closed && q != BACKSLASH
    requires forall p :: k <= p < k + Run(q, false, s, k).len ==> s[p] != BACKSLASH
    ensures Run(q, true, s, k) == Run(q, false, s, k)
    decreases |s| - k
  {
    if s[k] != q {
      RunWithoutEscape(q, s, k + 1);
    } else if k + 1 < |s| && s[k + 1] == q {
      RunWithoutEscape(q, s, k + 2);
    }
  }

  /** A kept name is kept under both backslash readings. */
  lemma NameInBoth(d: Dialect, t: text, k: nat)
    requires k < |t| && ClassFrom(Fixed(d), d, t, k) == Name
    ensures CutFrom(LiteralReading(true, d), t, k) == CutFrom(Fixed(d), t, k)
    ensures ClassFrom(LiteralReading(true, d), d, t, k) == Name
  {
    hide CutFrom, Run, DollarTag, DollarRun;
    LiteralCut(false, d, t, k);
    LiteralCut(true, d, t, k);
    if t[k] == DQUOTE && d == Unknown {
      var n := CutFrom(Fixed(d), t, k).len;
      var body := t[k + 1..k + n - 1];
      assert forall p :: k + 1 <= p < k + n - 1 ==> t[p] == body[p - k - 1];
      RunEnds(DQUOTE, false, t, k + 1);
      RunWithoutEscape(DQUOTE, t, k + 1);
    }
  }

  lemma StructureInBoth(d: Dialect, t: text, k: nat)
    requires k < |t| && ClassFrom(Fixed(d), d, t, k) == Structure
    ensures CutFrom(LiteralReading(true, d), t, k) == CutFrom(Fixed(d), t, k)
    ensures ClassFrom(LiteralReading(true, d), d, t, k) == Structure
  {
    hide CutFrom, Run, DollarTag, DollarRun;
    LiteralCut(false, d, t, k);
    LiteralCut(true, d, t, k);
  }

  /** A chunk that is written as it is is no value, and the rest is written as it is too. */
  lemma CopiedChunk(d: Dialect, t: text, k: nat, prev: byte)
    requires k < |t| && WrittenFrom(d, t, k, prev) == t[k..]
    ensures var m := k + CutFrom(Fixed(d), t, k).len;
      ClassFrom(Fixed(d), d, t, k) != Value && WrittenFrom(d, t, m, t[m - 1]) == t[m..]
  {
    hide CutFrom, ClassFrom, WrittenFrom, NumberLen, SuppressesNumber;
    var m := k + CutFrom(Fixed(d), t, k).len;
    ChunkWritten(d, t, k, prev);
    assert t[k..][0] == t[k] && t[k..] == t[k..m] + t[m..];
    match ClassFrom(Fixed(d), d, t, k)
    case Value => ValueOpens(d, t, k);
    case Name => assert t[k..][m - k..] == t[m..];
    case Structure =>
      StructureIsPlain(d, t, k);
      assert t[k..][1..] == t[m..];
  }

  lemma ValueOpens(d: Dialect, t: text, k: nat)
    requires k < |t| && ClassFrom(Fixed(d), d, t, k) == Value
    ensures t[k] != QUESTION
  {
    hide CutFrom, Run, DollarTag, DollarRun;
    LiteralCut(false, d, t, k);
  }

  /** A text that is copied has no value under either reading. */
  lemma {:induction false} CopiedHasNoValue(d: Dialect, t: text, k: nat, prev: byte)
    requires k <= |t| && WrittenFrom(d, t, k, prev) == t[k..]
    ensures SpansFrom(Fixed(d), d, Value, t, k) == [] && SpansFrom(LiteralReading(true, d), d, Value, t, k) == []
    decreases |t| - k
  {
    hide CutFrom, ClassFrom, WrittenFrom, SpansFrom;
    if k == |t| {
      NoSpansLeft(Fixed(d), d, Value, t);
      NoSpansLeft(LiteralReading(true, d), d, Value, t);
    } else {
      var m := k + CutFrom(Fixed(d), t, k).len;
      CopiedChunk(d, t, k, prev);
      if ClassFrom(Fixed(d), d, t, k) == Name { NameInBoth(d, t, k); } else { StructureInBoth(d, t, k); }
      SpansHead(Fixed(d), d, Value, t, k);
      SpansHead(LiteralReading(true, d), d, Value, t, k);
      CopiedHasNoValue(d, t, m, t[m - 1]);
    }
  }

  /** A span of the reading without escapes lies in a redacted span. */
  lemma InRedactedSpan(t: text, d: Dialect, x: Span) returns (y: Span)
    requires x in LiteralsOf(t, false, d)
    ensures y in RedactedSpans(t, d) && (x.hi - x.lo >= 2 ==> y.hi - y.lo >= 2)
  {
    hide SpansFrom, MergeFrom, Covers;
    var a, b := LiteralsOf(t, false, d), LiteralsOf(t, true, d);
    SpansOrdered(Fixed(d), d, Value, t, 0);
    SpansOrdered(LiteralReading(true, d), d, Value, t, 0);
    UnionCovers(a, b, |t|);
    y := x;
    if BACKSLASH in t && b != [] { y := SpanAround(a, Union(a, b), |t|, x); }
  }

  lemma SpanAround(a: seq<Span>, u: seq<Span>, n: nat, x: Span) returns (y: Span)
    requires Ordered(a, n) && Ordered(u, n) && Apart(u) && x in a && forall p :: Covers(a, p) ==> Covers(u, p)
    ensures y in u && (x.hi - x.lo >= 2 ==> y.hi - y.lo >= 2)
  {
    var i :| 0 <= i < |a| && a[i] == x;
    assert Covers(a, x.lo);
    var k :| 0 <= k < |u| && u[k].lo <= x.lo < u[k].hi;
    y := u[k];
    if x.hi - x.lo >= 2 {
      assert Covers(a, x.lo + 1);
      var m :| 0 <= m < |u| && u[m].lo <= x.lo + 1 < u[m].hi;
      assert m == k;
    }
  }

  lemma {:induction false} SpanIsPiece(ps: seq<Piece>, y: Span)
    requires y in SpansIn(ps)
    ensures Literal(y) in ps
  {
    if ps[0] != Literal(y) { SpanIsPiece(ps[1..], y); }
  }

  lemma {:induction false} LongPiece(ps: seq<Piece>, i: nat, n: nat, p: Piece)
    requires Tiles(ps, i, n) && p in ps && p.End() - p.Start() >= 2
    ensures |ps| < n - i
    decreases |ps|
  {
    TilesAscend(ps[1..], ps[0].End(), n);
    if ps[0] != p { LongPiece(ps[1..], ps[0].End(), n, p); }
  }

  lemma StringShrinks(t: text, d: Dialect)
    requires StringFrom(d, t, 0)
    ensures |RedactedText(t, d)| < |t|
  {
    hide SpansFrom, Walk, RedactedSpans, NamesOf, InLiteral;
    var x :| x in LiteralsOf(t, false, d) && x.hi - x.lo >= 2;
    var y := InRedactedSpan(t, d, x);
    Provenance(t, d);
    SpanIsPiece(Pieces(t, d), y);
    LongPiece(Pieces(t, d), 0, |t|, Literal(y));
  }

  /** Redacting a redacted text again: it stays exactly when it is settled, and shrinks otherwise. */
  lemma TextIdempotent(s: text, d: Dialect)
    requires OneReading(s, d)
    ensures var t := RedactedText(s, d);
      if Settled(s, d) then RedactedText(t, d) == t else |RedactedText(t, d)| < |t|
  {
    hide RedactedText, WrittenFrom, PiecesFrom, Reopens, OneReading, StringFrom;
    var t := RedactedText(s, d);
    FromTheStart(s, d);
    assert t[0..] == t;
    CalmAtStart(d, s, t);
    if Settled(s, d) {
      SettledAgain(d, s, 0, 0, t, 0);
      CopiedHasNoValue(d, t, 0, 0);
      NoValueOneReading(t, d);
      FromTheStart(t, d);
    } else {
      UnsettledOpens(d, s, 0, 0, t, 0);
      StringShrinks(t, d);
    }
  }

  lemma NoValueOneReading(t: text, d: Dialect)
    requires LiteralsOf(t, false, d) == [] && LiteralsOf(t, true, d) == []
    ensures OneReading(t, d)
  {
    hide SpansFrom;
  }

  lemma CalmAtStart(d: Dialect, s: text, t: text)
    ensures Calm(d, s, 0, t, 0)
  {
    hide CutFrom;
    if 0 < |s| && s[0] == DOLLAR && CutFrom(Fixed(d), s, 0).kind.Plain? && TagSurvives(s, 0) { PlainDollar(d, s, 0); }
  }

  // ---- whole queries ----

  /** From i on the text has no comment, and its names are plain. */
  ghost predicate Quiet(d: Dialect, s: text, i: nat)
    requires i <= |s|
  {
    Lex(Whole(false, d), s, i) == Lex(Fixed(d), s, i) && PlainNames(Lex(Fixed(d), s, i))
  }

  lemma QuietHead(d: Dialect, s: text, i: nat)
    requires i < |s| && Quiet(d, s, i)
    ensures var c := ChunkFrom(Fixed(d), s, i);
      CutFrom(Whole(false, d), s, i) == CutFrom(Fixed(d), s, i) && Quiet(d, s, i + |c.text|) &&
      (InBackticks(c) ==> IsPlainName(c.text))
  {
    hide CutFrom, IsPlainName, InBackticks, Lex;
    var a, b := ChunkFrom(Whole(false, d), s, i), ChunkFrom(Fixed(d), s, i);
    LexFirst(Whole(false, d), s, i);
    LexFirst(Fixed(d), s, i);
    var whole, fixed := Lex(Whole(false, d), s, i), Lex(Fixed(d), s, i);
    assert whole[0] == a && fixed[0] == b;
    assert whole[1..] == Lex(Whole(false, d), s, i + |a.text|) && fixed[1..] == Lex(Fixed(d), s, i + |b.text|);
    NamesBehind(b, fixed[1..]);
  }

  lemma {:induction false} QuietStretch(d: Dialect, s: text, i: nat, j: nat)
    requires i <= j <= |s| && Quiet(d, s, i) && forall p :: i <= p < j ==> IsNumberByte(s[p])
    ensures Quiet(d, s, j)
    decreases j - i
  {
    hide Quiet, CutFrom;
    if i < j {
      NumberByteIsPlain(d, s, i);
      QuietHead(d, s, i);
      QuietStretch(d, s, i + 1, j);
    }
  }

  /** A byte of the output that opens a comment does so in the text. */
  lemma NoCommentShown(d: Dialect, s: text, i: nat, prev: byte, t: text, k: nat)
    requires Follows(d, s, i, prev, t, k) && i < |s| && Quiet(d, s, i)
    ensures k < |t| && CutFrom(Whole(false, d), t, k) == CutFrom(Fixed(d), t, k)
    ensures !CutFrom(Fixed(d), t, k).kind.IsComment()
  {
    hide CutFrom, WrittenFrom, NumberLen, SuppressesNumber, DollarTag, DollarRun, Run, LineRun, BlockRun, Quiet;
    QuietHead(d, s, i);
    MarkIsCut(d, s, i);
    FirstByte(d, s, i, prev, t, k);
    HeadOfOutput(d, s, i, prev);
    if t[k] == DASH || t[k] == SLASH {
      LiteralCut(false, d, s, i);
      ChunkWritten(d, s, i, prev);
      FollowsTail(d, s, i, prev, t, k, [s[i]], i + 1);
      FirstByte(d, s, i + 1, s[i], t, k + 1);
      HeadOfOutput(d, s, i + 1, s[i]);
    }
    MarkIsCut(d, t, k);
  }

  /** Only a comment mark is cut differently. */
  lemma MarkIsCut(d: Dialect, s: text, i: nat)
    requires i < |s|
    ensures !CutFrom(Fixed(d), s, i).kind.IsComment()
    ensures CutFrom(Whole(false, d), s, i) == CutFrom(Fixed(d), s, i) <==>
            !(i + 1 < |s| && ((s[i] == DASH && s[i + 1] == DASH) || (s[i] == SLASH && s[i + 1] == STAR)))
  {
    hide Run, DollarTag, DollarRun, LineRun, BlockRun;
  }

  /** A name of the output is one of the text. */
  lemma NameShown(d: Dialect, s: text, i: nat, prev: byte, t: text, k: nat)
    requires Follows(d, s, i, prev, t, k) && i < |s| && Quiet(d, s, i)
    ensures k < |t| && var c := ChunkFrom(Fixed(d), t, k); InBackticks(c) ==> IsPlainName(c.text)
  {
    hide CutFrom, WrittenFrom, Quiet, IsPlainName, ClassFrom;
    QuietHead(d, s, i);
    FirstByte(d, s, i, prev, t, k);
    HeadOfOutput(d, s, i, prev);
    LexFirst(Fixed(d), t, k);
    if t[k] == BACKTICK {
      BacktickIsName(d, s, i);
      NameAgain(d, s, i, prev, t, k);
    }
  }

  lemma BacktickIsName(d: Dialect, s: text, i: nat)
    requires i < |s| && s[i] == BACKTICK
    ensures ClassFrom(Fixed(d), d, s, i) == Name
  {
    hide CutFrom, Run, DollarTag, DollarRun;
    LiteralCut(false, d, s, i);
  }

  /** The output of a settled, quiet text is quiet. */
  lemma {:induction false} SettledIsQuiet(d: Dialect, s: text, i: nat, prev: byte, t: text, k: nat)
    requires Follows(d, s, i, prev, t, k) && Calm(d, s, i, t, k) && SettledFrom(d, s, i, prev) && Quiet(d, s, i)
    ensures Quiet(d, t, k)
    decreases |s| - i
  {
    hide WrittenFrom, PiecesFrom, Calm, Reopens, Quiet, CutFrom;
    if i == |s| {
      NothingFrom(d, s, prev);
      QuietEnd(d, t);
    } else {
      var head, j, m := StepAgain(d, s, i, prev, t, k);
      NoCommentShown(d, s, i, prev, t, k);
      NameShown(d, s, i, prev, t, k);
      assert forall p :: p in PiecesFrom(d, s, j, t[m - 1]) ==> p in PiecesFrom(d, s, i, prev);
      if head == [Number(i, j)] {
        assert Number(i, j) in PiecesFrom(d, s, i, prev);
        CalmBehindNumber(d, s, j, t, m);
      }
      QuietHead(d, s, i);
      if j != i + CutFrom(Fixed(d), s, i).len { QuietStretch(d, s, i, j); }
      SettledIsQuiet(d, s, j, t[m - 1], t, m);
      QuietStep(d, t, k);
    }
  }

  lemma QuietEnd(d: Dialect, t: text)
    ensures Quiet(d, t, |t|)
  {
  }

  lemma QuietStep(d: Dialect, t: text, k: nat)
    requires k < |t| && CutFrom(Whole(false, d), t, k) == CutFrom(Fixed(d), t, k)
    requires Quiet(d, t, k + CutFrom(Fixed(d), t, k).len)
    requires var c := ChunkFrom(Fixed(d), t, k); InBackticks(c) ==> IsPlainName(c.text)
    ensures Quiet(d, t, k)
  {
    hide CutFrom, IsPlainName, InBackticks;
  }

  /** A quiet text is stripped of nothing. */
  lemma QuietIsBare(d: Dialect, t: text)
    requires Quiet(d, t, 0)
    ensures Stripped(t) == t
  {
    hide CutFrom, IsPlainName, InBackticks, Lex, Stripped;
    PlainNamesSuffice(t, d);
    LexWellFormed(d, t, 0);
    NothingBlanked(Lex(Fixed(d), t, 0));
    LexJoins(Fixed(d), t, 0);
    assert t[0..] == t;
  }

  lemma NothingBlanked(cs: seq<Chunk>)
    requires WellFormed(cs)
    ensures StripChunks(cs) == cs
  {
  }

  /** Where the stripped text has one reading: redacting twice is redacting once exactly when the redacted text has no
      comment and no number of the walk has a string behind it that opens in the redacted text. */
  lemma IdempotentExactly(sql: text, d: Dialect)
    requires OneReading(Stripped(sql), d)
    ensures Redacted(Redacted(sql, d), d) == Redacted(sql, d) <==>
            CommentFree(STRIPPING, Redacted(sql, d)) && Settled(Stripped(sql), d)
  {
    hide RedactedText, Stripped, Settled, CommentFree, OneReading;
    var s, t := Stripped(sql), Redacted(sql, d);
    TextIdempotent(s, d);
    StripShrinks(t);
    StrippedIsShorter(t);
    TextShrinks(Stripped(t), d);
  }

  lemma StrippedIsShorter(t: text)
    ensures Stripped(t) != t ==> |Stripped(t)| < |t|
  {
    hide CutAt;
    CommentsAreLong(t, 0);
    StripChunksShrink(Lex(STRIPPING, t, 0));
    LexJoins(STRIPPING, t, 0);
    assert t[0..] == t;
  }

  lemma TextShrinks(s: text, d: Dialect)
    ensures |RedactedText(s, d)| <= |s|
  {
    hide Walk, RedactedSpans, NamesOf;
    Provenance(s, d);
    TilesAscend(Pieces(s, d), 0, |s|);
  }

  /** With plain names the redacted text has no comment either, and the condition is on the numbers of the query
      alone. */
  lemma IdempotentWithPlainNames(sql: text, d: Dialect)
    requires OneReading(Stripped(sql), d) && PlainNames(Lex(Whole(false, d), sql, 0))
    ensures Redacted(Redacted(sql, d), d) == Redacted(sql, d) <==> Settled(Stripped(sql), d)
  {
    hide RedactedText, WrittenFrom, PiecesFrom, Reopens, CutFrom, Stripped, OneReading, CommentFree, PlainNames, Quiet;
    IdempotentExactly(sql, d);
    var s := Stripped(sql);
    var t := RedactedText(s, d);
    if Settled(s, d) {
      FromTheStart(s, d);
      assert t[0..] == t;
      CalmAtStart(d, s, t);
      StrippedIsQuiet(sql, d);
      SettledIsQuiet(d, s, 0, 0, t, 0);
      QuietIsBare(d, t);
      StripShrinks(t);
    }
  }

  lemma StrippedIsQuiet(sql: text, d: Dialect)
    requires PlainNames(Lex(Whole(false, d), sql, 0))
    ensures Quiet(d, Stripped(sql), 0)
  {
    hide Lex, Stripped, PlainNames;
    PlainNamesSuffice(sql, d);
    WholeLexes(sql, false, d);
    ReadsTheQuery(sql, false, d);
    StrippedNames(Lex(Whole(false, d), sql, 0));
  }
}
