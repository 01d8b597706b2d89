/** The redaction walk: what it writes, where each byte of it comes from, and that it does not
    depend on what the literals hold. */
module Redact {
  import opened Bytes
  import opened Numbers
  import opened Spans
  import Strip

  /** Where a piece of output comes from: a copied byte, a literal span or a number. */
  datatype Piece = Copy(at: nat) | Literal(span: Span) | Number(lo: nat, hi: nat) {
    function Start(): nat { match this case Copy(at) => at case Literal(sp) => sp.lo case Number(lo, _) => lo }

    function End(): nat { match this case Copy(at) => at + 1 case Literal(sp) => sp.hi case Number(_, hi) => hi }
  }

  /** suppressesNumber: a digit after prev belongs to a name or a placeholder. */
  predicate SuppressesNumber(prev: byte)
  {
    IsLetter(prev) || IsDigit(prev) || prev == UNDERSCORE || prev == DOLLAR || prev == AT
  }

  function DropPassed(a: seq<Span>, i: nat): (b: seq<Span>)
    ensures b != [] ==> i < b[0].hi
  {
    if a != [] && a[0].hi <= i then DropPassed(a[1..], i) else a
  }

  /** The walk from i on, prev being the byte written last (0 at the start). */
  function Walk(s: text, redact: seq<Span>, keep: seq<Span>, i: nat, prev: byte): seq<Piece>
    decreases |s| - i
  {
    if i >= |s| then []
    else
      var rs, ks := DropPassed(redact, i), DropPassed(keep, i);
      if rs != [] && rs[0].lo <= i then [Literal(rs[0])] + Walk(s, rs, ks, rs[0].hi, QUESTION)
      else if !(ks != [] && ks[0].lo <= i) && IsDigit(s[i]) && !SuppressesNumber(prev) then
        var j := i + NumberLen(s, i);
        [Number(i, j)] + Walk(s, rs, ks, j, QUESTION)
      else [Copy(i)] + Walk(s, rs, ks, i + 1, s[i])
  }

  function Byte(p: Piece, s: text): byte
  {
    match p
    case Copy(at) => if at < |s| then s[at] else QUESTION
    case _ => QUESTION
  }

  function Render(ps: seq<Piece>, s: text): (t: text)
    ensures |t| == |ps| && forall k :: 0 <= k < |ps| ==> t[k] == Byte(ps[k], s)
  {
    if ps == [] then [] else [Byte(ps[0], s)] + Render(ps[1..], s)
  }

  function Pieces(s: text, d: Dialect): seq<Piece>
  {
    Walk(s, RedactedSpans(s, d), NamesOf(s, false, d), 0, 0)
  }

  /** What the walk writes from i on. */
  function Written(s: text, redact: seq<Span>, keep: seq<Span>, i: nat, prev: byte): text
  {
    Render(Walk(s, redact, keep, i, prev), s)
  }

  /** The redacted form of a comment-free text. */
  function RedactedText(s: text, d: Dialect): text { Written(s, RedactedSpans(s, d), NamesOf(s, false, d), 0, 0) }

  // ---- redact ----

  /** One step of the walk, once the spans that end at or before i are dropped. */
  lemma WalkStep(s: text, redact: seq<Span>, keep: seq<Span>, rs: seq<Span>, ks: seq<Span>, i: nat, prev: byte)
    requires i < |s| && rs == DropPassed(redact, i) && ks == DropPassed(keep, i)
    ensures Written(s, redact, keep, i, prev) ==
      if rs != [] && rs[0].lo <= i then [QUESTION] + Written(s, rs, ks, rs[0].hi, QUESTION)
      else if !(ks != [] && ks[0].lo <= i) && IsDigit(s[i]) && !SuppressesNumber(prev) then
        [QUESTION] + Written(s, rs, ks, i + NumberLen(s, i), QUESTION)
      else [s[i]] + Written(s, rs, ks, i + 1, s[i])
  {
    hide NumberLen, SuppressesNumber, DropPassed;
  }

  /** The same, behind what is written already. */
  lemma WalkAppend(b: text, s: text, redact: seq<Span>, keep: seq<Span>, rs: seq<Span>, ks: seq<Span>,
                   i: nat, prev: byte)
    requires i < |s| && rs == DropPassed(redact, i) && ks == DropPassed(keep, i)
    ensures b + Written(s, redact, keep, i, prev) ==
      if rs != [] && rs[0].lo <= i then b + [QUESTION] + Written(s, rs, ks, rs[0].hi, QUESTION)
      else if !(ks != [] && ks[0].lo <= i) && IsDigit(s[i]) && !SuppressesNumber(prev) then
        b + [QUESTION] + Written(s, rs, ks, i + NumberLen(s, i), QUESTION)
      else b + [s[i]] + Written(s, rs, ks, i + 1, s[i])
  {
    hide NumberLen, SuppressesNumber, DropPassed, Written;
    WalkStep(s, redact, keep, rs, ks, i, prev);
  }

  lemma NothingWritten(s: text, redact: seq<Span>, keep: seq<Span>, i: nat, prev: byte)
    requires i >= |s|
    ensures Written(s, redact, keep, i, prev) == []
  {
  }

  /** Advancing past the spans that end at or before i. */
  method SkipPassed(a: seq<Span>, from: nat, i: nat) returns (k: nat)
    requires from <= |a|
    ensures from <= k <= |a| && a[k..] == DropPassed(a[from..], i)
    ensures k < |a| ==> i < a[k].hi
  {
    k := from;
    while k < |a| && a[k].hi <= i
      invariant from <= k <= |a|
      invariant DropPassed(a[from..], i) == DropPassed(a[k..], i)
    {
      assert a[k..][1..] == a[k + 1..];
      k := k + 1;
    }
  }

  /** The part of redact after stripComments. */
  method RedactStripped(s: text, d: Dialect) returns (b: text)
    ensures b == RedactedText(s, d)
  {
    hide Written, DropPassed, NumberLen, RedactedSpans, NamesOf;
    var redact, keep := RedactSpans(s, d);
    b := [];
    var prev: byte := 0;
    var ri, ki, i := 0, 0, 0;
    assert redact[0..] == redact && keep[0..] == keep;
    while i < |s|
      invariant ri <= |redact| && ki <= |keep|
      invariant b + Written(s, redact[ri..], keep[ki..], i, prev) == RedactedText(s, d)
      decreases |s| - i
    {
      ghost var rs, ks := redact[ri..], keep[ki..];
      ri := SkipPassed(redact, ri, i);
      ki := SkipPassed(keep, ki, i);
      WalkAppend(b, s, rs, ks, redact[ri..], keep[ki..], i, prev);
      if ri < |redact| && i >= redact[ri].lo {
        b := b + [QUESTION];
        prev := QUESTION;
        i := redact[ri].hi;
        continue;
      }
      var inIdent := ki < |keep| && i >= keep[ki].lo;
      var c := s[i];
      if !inIdent && IsDigit(c) && !SuppressesNumber(prev) {
        i := ScanNumber(s, i);
        b := b + [QUESTION];
        prev := QUESTION;
        continue;
      }
      b := b + [c];
      prev := c;
      i := i + 1;
    }
    NothingWritten(s, redact[ri..], keep[ki..], i, prev);
  }

  function Redacted(sql: text, d: Dialect): text { RedactedText(Strip.Stripped(sql), d) }

  /** redact */
  method Redact(sql: text, d: Dialect) returns (b: text)
    ensures b == Redacted(sql, d)
  {
    var s := Strip.StripComments(sql);
    b := RedactStripped(s, d);
  }

  // ---- provenance ----

  /** A place where the walk may stand: not strictly inside a span. */
  predicate Between(a: seq<Span>, i: nat)
  {
    forall k :: 0 <= k < |a| ==> !(a[k].lo < i < a[k].hi)
  }

  /** The pieces tile s from i to its end, one after the other. */
  predicate Tiles(ps: seq<Piece>, i: nat, n: nat)
    decreases |ps|
  {
    if ps == [] then i == n
    else ps[0].Start() == i && i < ps[0].End() <= n && Tiles(ps[1..], ps[0].End(), n)
  }

  function SpansIn(ps: seq<Piece>): seq<Span>
  {
    if ps == [] then [] else (if ps[0].Literal? then [ps[0].span] else []) + SpansIn(ps[1..])
  }

  /** No byte of a copied or number piece lies in a redacted span. */
  ghost predicate Outside(p: Piece, redact: seq<Span>)
  {
    p.Literal? || forall k :: p.Start() <= k < p.End() ==> !Covers(redact, k)
  }

  lemma {:induction false} DropKeeps(a: seq<Span>, i: nat, n: nat)
    requires Ordered(a, n)
    ensures Ordered(DropPassed(a, i), n)
    ensures Between(a, i) ==> Between(DropPassed(a, i), i)
  {
    if a != [] && a[0].hi <= i { DropKeeps(a[1..], i, n); }
  }

  lemma {:induction false} DropCovers(a: seq<Span>, i: nat, n: nat)
    requires Ordered(a, n)
    ensures forall p :: i <= p ==> (Covers(DropPassed(a, i), p) <==> Covers(a, p))
  {
    if a != [] && a[0].hi <= i {
      DropCovers(a[1..], i, n);
      forall p | i <= p ensures Covers(a[1..], p) <==> Covers(a, p) {
        TailCovers(a, n, p);
      }
    }
  }

  lemma {:induction false} DropOpens(a: seq<Span>, i: nat, s: text)
    requires OpensAtDelimiter(a, s)
    ensures OpensAtDelimiter(DropPassed(a, i), s)
  {
    if a != [] && a[0].hi <= i { DropOpens(a[1..], i, s); }
  }

  /** A number that starts between spans stops before the next one, which opens with a delimiter. */
  lemma NumberBetween(s: text, a: seq<Span>, i: nat)
    requires i < |s| && IsDigit(s[i]) && Ordered(a, |s|) && OpensAtDelimiter(a, s) && !Covers(a, i)
    ensures var j := i + NumberLen(s, i); Between(a, j) && forall p :: i <= p < j ==> !Covers(a, p)
  {
    NumberBytes(s, i);
    var j := i + NumberLen(s, i);
    forall k | 0 <= k < |a| ensures a[k].hi <= i || j <= a[k].lo {
      if i < a[k].hi {
        assert a[k].lo > i;
        assert !IsNumberByte(s[a[k].lo]);
      }
    }
  }

  lemma {:induction false} TilesAscend(ps: seq<Piece>, i: nat, n: nat)
    requires Tiles(ps, i, n)
    ensures forall k :: 0 <= k < |ps| ==> i <= ps[k].Start() < ps[k].End() <= n
    ensures forall j, k :: 0 <= j < k < |ps| ==> ps[j].End() <= ps[k].Start()
    ensures i <= n && |ps| <= n - i
    decreases |ps|
  {
    if ps != [] {
      TilesAscend(ps[1..], ps[0].End(), n);
      assert forall k :: 1 <= k < |ps| ==> ps[k] == ps[1..][k - 1];
    }
  }

  /** The walk's first piece, and the walk that goes on from j. */
  lemma WalkUnfold(s: text, redact: seq<Span>, keep: seq<Span>, i: nat, prev: byte)
    returns (head: Piece, rs: seq<Span>, ks: seq<Span>, j: nat, tail: seq<Piece>)
    requires i < |s|
    ensures rs == DropPassed(redact, i) && ks == DropPassed(keep, i) && i < j
    ensures Walk(s, redact, keep, i, prev) == [head] + tail && tail == Walk(s, rs, ks, j, Byte(head, s))
    ensures if rs != [] && rs[0].lo <= i then head == Literal(rs[0]) && j == rs[0].hi
            else if !(ks != [] && ks[0].lo <= i) && IsDigit(s[i]) && !SuppressesNumber(prev) then
              head == Number(i, j) && j == i + NumberLen(s, i)
            else head == Copy(i) && j == i + 1
  {
    hide DropPassed, NumberLen, SuppressesNumber;
    rs, ks := DropPassed(redact, i), DropPassed(keep, i);
    head := Walk(s, redact, keep, i, prev)[0];
    j := if head.Copy? then i + 1 else head.End();
    tail := Walk(s, rs, ks, j, Byte(head, s));
  }

  /** The walk's pieces tile the text, its literal pieces are the redacted spans in order, and
      nothing else touches a span. */
  lemma {:induction false} WalkTiles(s: text, redact: seq<Span>, keep: seq<Span>, i: nat, prev: byte)
    requires i <= |s| && Ordered(redact, |s|) && OpensAtDelimiter(redact, s) && Between(redact, i)
    ensures var ps := Walk(s, redact, keep, i, prev);
            Tiles(ps, i, |s|) && SpansIn(ps) == DropPassed(redact, i) &&
            forall k :: 0 <= k < |ps| ==> Outside(ps[k], redact)
    decreases |s| - i
  {
    hide NumberLen, Covers, Walk, DropPassed, Between, Ordered, OpensAtDelimiter, Outside;
    DropKeeps(redact, i, |s|);
    DropCovers(redact, i, |s|);
    DropOpens(redact, i, s);
    if i == |s| {
      WalkEnds(s, redact, keep, prev);
    } else {
      var head, rs, ks, j, tail := WalkUnfold(s, redact, keep, i, prev);
      WalkHead(s, rs, head, i, j);
      WalkTiles(s, rs, ks, j, Byte(head, s));
      DropNext(rs, i, j, |s|);
      var ps := [head] + tail;
      assert ps[1..] == tail && ps[0] == head;
      TilesAscend(ps, i, |s|);
      forall k | 0 <= k < |ps| ensures Outside(ps[k], redact) {
        if k > 0 { assert ps[k] == tail[k - 1]; }
        OutsideDropped(ps[k], redact, rs, i);
      }
    }
  }

  lemma WalkEnds(s: text, redact: seq<Span>, keep: seq<Span>, prev: byte)
    requires Ordered(redact, |s|)
    ensures Walk(s, redact, keep, |s|, prev) == [] && DropPassed(redact, |s|) == []
  {
    DropKeeps(redact, |s|, |s|);
  }

  lemma OutsideDropped(p: Piece, redact: seq<Span>, rs: seq<Span>, i: nat)
    requires i <= p.Start() && Outside(p, rs)
    requires forall k :: i <= k ==> (Covers(rs, k) <==> Covers(redact, k))
    ensures Outside(p, redact)
  {
  }

  /** The first piece is as it should be, and the walk may stand where it ends. */
  lemma WalkHead(s: text, rs: seq<Span>, head: Piece, i: nat, j: nat)
    requires i < |s| && Ordered(rs, |s|) && OpensAtDelimiter(rs, s) && Between(rs, i)
    requires rs != [] ==> i < rs[0].hi
    requires if rs != [] && rs[0].lo <= i then head == Literal(rs[0]) && j == rs[0].hi
             else if head.Number? then IsDigit(s[i]) && head == Number(i, j) && j == i + NumberLen(s, i)
             else head == Copy(i) && j == i + 1
    ensures head.Start() == i < head.End() == j <= |s| && Between(rs, j) && Outside(head, rs)
    ensures rs != [] && i < rs[0].lo ==> j <= rs[0].lo
  {
    hide NumberLen;
    if rs != [] && rs[0].lo <= i {
      assert rs[0].lo == i;
    } else {
      assert !Covers(rs, i);
      if head.Number? {
        NumberBetween(s, rs, i);
        if rs != [] { HeadCovers(rs, rs[0].lo); }
      }
    }
  }

  lemma DropNext(rs: seq<Span>, i: nat, j: nat, n: nat)
    requires Ordered(rs, n) && i < j
    requires rs != [] ==> if rs[0].lo <= i then rs[0].hi == j else j <= rs[0].lo
    ensures DropPassed(rs, j) == if rs != [] && rs[0].lo <= i then rs[1..] else rs
  {
    if rs != [] && rs[0].lo <= i {
      assert rs[1..] != [] ==> rs[1..][0] == rs[1];
    }
  }

  lemma {:induction false} WalkAfter(s: text, redact: seq<Span>, keep: seq<Span>, i: nat, prev: byte)
    ensures forall p :: p in Walk(s, redact, keep, i, prev) ==> p.Copy? ==> i <= p.at < |s|
    decreases |s| - i
  {
    if i < |s| {
      hide NumberLen, Walk, DropPassed;
      var head, rs, ks, j, tail := WalkUnfold(s, redact, keep, i, prev);
      WalkAfter(s, rs, ks, j, Byte(head, s));
    }
  }

  /** The byte written before the k-th piece. */
  function Previous(ps: seq<Piece>, s: text, prev: byte, k: nat): byte
    requires k <= |ps|
  {
    if k == 0 then prev else Byte(ps[k - 1], s)
  }

  /** If the k-th piece copies a digit outside the kept names, what is written before it makes
      the digit part of a name. */
  ghost predicate DigitInWord(ps: seq<Piece>, s: text, keep: seq<Span>, prev: byte, k: nat)
    requires k < |ps|
  {
    ps[k].Copy? && ps[k].at < |s| && IsDigit(s[ps[k].at]) ==>
      Covers(keep, ps[k].at) || SuppressesNumber(Previous(ps, s, prev, k))
  }

  ghost predicate DigitsInWords(ps: seq<Piece>, s: text, keep: seq<Span>, prev: byte)
  {
    forall k :: 0 <= k < |ps| ==> DigitInWord(ps, s, keep, prev, k)
  }

  lemma {:induction false} WalkDigits(s: text, redact: seq<Span>, keep: seq<Span>, i: nat, prev: byte)
    requires Ordered(keep, |s|)
    ensures DigitsInWords(Walk(s, redact, keep, i, prev), s, keep, prev)
    decreases |s| - i
  {
    hide Walk;
    if i >= |s| {
      NoPieces(s, redact, keep, i, prev);
    } else {
      hide NumberLen, SuppressesNumber, Covers, DropPassed, Ordered, DigitInWord;
      DropKeeps(keep, i, |s|);
      DropCovers(keep, i, |s|);
      var head, rs, ks, j, tail := WalkUnfold(s, redact, keep, i, prev);
      WalkDigits(s, rs, ks, j, Byte(head, s));
      WalkAfter(s, rs, ks, j, Byte(head, s));
      HeadCovers(ks, i);
      HeadDigit(head, tail, s, keep, ks, i, prev);
      forall k | 0 < k < |[head] + tail| ensures DigitInWord([head] + tail, s, keep, prev, k) {
        TailDigit(head, tail, s, keep, ks, i, prev, k);
      }
    }
  }

  lemma NoPieces(s: text, redact: seq<Span>, keep: seq<Span>, i: nat, prev: byte)
    requires i >= |s|
    ensures Walk(s, redact, keep, i, prev) == []
  {
  }

  lemma HeadDigit(head: Piece, tail: seq<Piece>, s: text, keep: seq<Span>, ks: seq<Span>, i: nat, prev: byte)
    requires i < |s| && (Covers(ks, i) <==> Covers(keep, i)) && (head.Copy? ==> head.at == i)
    requires head.Copy? && IsDigit(s[i]) ==> Covers(ks, i) || SuppressesNumber(prev)
    ensures DigitInWord([head] + tail, s, keep, prev, 0)
  {
  }

  lemma TailDigit(head: Piece, tail: seq<Piece>, s: text, keep: seq<Span>, ks: seq<Span>, i: nat, prev: byte, k: nat)
    requires 0 < k < 1 + |tail| && DigitInWord(tail, s, ks, Byte(head, s), k - 1)
    requires forall p :: p in tail ==> p.Copy? ==> i <= p.at
    requires forall p :: i <= p ==> (Covers(ks, p) <==> Covers(keep, p))
    ensures DigitInWord([head] + tail, s, keep, prev, k)
  {
    assert ([head] + tail)[k] == tail[k - 1] && tail[k - 1] in tail;
  }

  lemma HeadCovers(a: seq<Span>, i: nat)
    ensures a != [] && a[0].lo <= i < a[0].hi ==> Covers(a, i)
  {
  }

  /** Where every byte of the redacted text comes from: the pieces tile the text, the literal
      pieces are exactly the redacted spans, each written as one "?", and a copied byte lies in no
      literal of either backslash reading and keeps its order. */
  lemma Provenance(s: text, d: Dialect)
    ensures |Pieces(s, d)| == |RedactedText(s, d)|
    ensures Tiles(Pieces(s, d), 0, |s|) && SpansIn(Pieces(s, d)) == RedactedSpans(s, d)
    ensures forall j, k :: 0 <= j < k < |Pieces(s, d)| ==> Pieces(s, d)[j].End() <= Pieces(s, d)[k].Start()
    ensures forall k :: 0 <= k < |Pieces(s, d)| ==> Traced(Pieces(s, d)[k], RedactedText(s, d)[k], s, d)
  {
    hide Walk, RedactedSpans, NamesOf, InLiteral, Tiles, SpansIn, Covers, Traced, Outside, Ordered, OpensAtDelimiter;
    var redact := RedactedSpans(s, d);
    var ps := Pieces(s, d);
    RedactedSpansExact(s, d);
    AtTheStart(redact, |s|);
    WalkTiles(s, redact, NamesOf(s, false, d), 0, 0);
    TilesAscend(ps, 0, |s|);
    forall k | 0 <= k < |ps| ensures Traced(ps[k], RedactedText(s, d)[k], s, d) {
      PieceTraced(ps[k], redact, s, d);
    }
  }

  lemma AtTheStart(a: seq<Span>, n: nat)
    requires Ordered(a, n)
    ensures Between(a, 0) && DropPassed(a, 0) == a
  {
  }

  lemma PieceTraced(p: Piece, redact: seq<Span>, s: text, d: Dialect)
    requires Outside(p, redact) && p.End() <= |s|
    requires forall k :: 0 <= k < |s| ==>
               (Covers(redact, k) <==> InLiteral(s, false, d, k) || InLiteral(s, true, d, k))
    ensures Traced(p, Byte(p, s), s, d)
  {
    hide InLiteral, Covers;
    if p.Copy? { assert !Covers(redact, p.at); }
  }

  /** An output byte b is a "?", or the copy of a byte that no reading puts into a literal. */
  ghost predicate Traced(p: Piece, b: byte, s: text, d: Dialect)
  {
    if p.Copy? then
      p.at < |s| && b == s[p.at] && !InLiteral(s, false, d, p.at) && !InLiteral(s, true, d, p.at)
    else b == 63
  }

  /** No digit of a numeric literal is copied: a copied digit stands in a kept quoted name or
      follows a digit, a letter, "_", "$" or "@" in the output. */
  lemma CopiedDigits(s: text, d: Dialect)
    ensures |Pieces(s, d)| == |RedactedText(s, d)|
    ensures forall k :: 0 <= k < |Pieces(s, d)| ==> var p := Pieces(s, d)[k];
              p.Copy? && p.at < |s| && 48 <= s[p.at] <= 57 && !Covers(NamesOf(s, false, d), p.at) ==>
              k > 0 && var b := RedactedText(s, d)[k - 1];
              48 <= b <= 57 || 65 <= b <= 90 || 97 <= b <= 122 || b == 95 || b == 36 || b == 64
  {
    hide Walk, NamesOf, RedactedSpans, Covers, Ordered;
    NamesOrdered(s, d);
    WalkDigits(s, RedactedSpans(s, d), NamesOf(s, false, d), 0, 0);
    var ps := Pieces(s, d);
    assert DigitsInWords(ps, s, NamesOf(s, false, d), 0);
    forall k | 0 <= k < |ps| && ps[k].Copy? && ps[k].at < |s| && IsDigit(s[ps[k].at])
      ensures Covers(NamesOf(s, false, d), ps[k].at) || (k > 0 && SuppressesNumber(RedactedText(s, d)[k - 1]))
    {
      assert DigitInWord(ps, s, NamesOf(s, false, d), 0, k);
    }
  }

  /** A number piece is a number that starts outside the kept names, and no name or placeholder goes on before it. */
  ghost predicate StandsAlone(ps: seq<Piece>, s: text, keep: seq<Span>, prev: byte, k: nat)
    requires k < |ps|
  {
    ps[k].Number? ==>
      ps[k].lo < |s| && IsDigit(s[ps[k].lo]) && ps[k].hi == ps[k].lo + NumberLen(s, ps[k].lo) &&
      !Covers(keep, ps[k].lo) && !SuppressesNumber(Previous(ps, s, prev, k))
  }

  ghost predicate AllStandAlone(ps: seq<Piece>, s: text, keep: seq<Span>, prev: byte)
  {
    forall k :: 0 <= k < |ps| ==> StandsAlone(ps, s, keep, prev, k)
  }

  lemma {:induction false} WalkNumbers(s: text, redact: seq<Span>, keep: seq<Span>, i: nat, prev: byte)
    requires Ordered(keep, |s|)
    ensures AllStandAlone(Walk(s, redact, keep, i, prev), s, keep, prev)
    ensures forall p :: p in Walk(s, redact, keep, i, prev) && p.Number? ==> i <= p.lo
    decreases |s| - i
  {
    hide Walk;
    if i >= |s| {
      NoPieces(s, redact, keep, i, prev);
    } else {
      hide NumberLen, SuppressesNumber, Covers, DropPassed, Ordered, StandsAlone;
      DropKeeps(keep, i, |s|);
      DropCovers(keep, i, |s|);
      var head, rs, ks, j, tail := WalkUnfold(s, redact, keep, i, prev);
      WalkNumbers(s, rs, ks, j, Byte(head, s));
      NotCovered(ks, i, |s|);
      HeadAlone(head, tail, s, keep, ks, i, prev);
      forall k | 0 < k < |[head] + tail| ensures StandsAlone([head] + tail, s, keep, prev, k) {
        TailAlone(head, tail, s, keep, ks, i, prev, k);
      }
    }
  }

  lemma NotCovered(a: seq<Span>, i: nat, n: nat)
    requires Ordered(a, n)
    ensures a != [] && i < a[0].hi && Covers(a, i) ==> a[0].lo <= i
  {
  }

  lemma HeadAlone(head: Piece, tail: seq<Piece>, s: text, keep: seq<Span>, ks: seq<Span>, i: nat, prev: byte)
    requires i < |s| && (Covers(ks, i) <==> Covers(keep, i))
    requires head.Number? ==>
      IsDigit(s[i]) && head == Number(i, i + NumberLen(s, i)) && !SuppressesNumber(prev) && !Covers(ks, i)
    ensures StandsAlone([head] + tail, s, keep, prev, 0)
  {
    hide SuppressesNumber, Covers;
  }

  lemma TailAlone(head: Piece, tail: seq<Piece>, s: text, keep: seq<Span>, ks: seq<Span>, i: nat, prev: byte, k: nat)
    requires 0 < k < 1 + |tail| && StandsAlone(tail, s, ks, Byte(head, s), k - 1)
    requires forall p :: p in tail && p.Number? ==> i <= p.lo
    requires forall p :: i <= p ==> (Covers(ks, p) <==> Covers(keep, p))
    ensures StandsAlone([head] + tail, s, keep, prev, k)
  {
    assert ([head] + tail)[k] == tail[k - 1] && tail[k - 1] in tail;
  }

  /** Conversely a number piece is a whole number, starts outside the kept names and follows none of those bytes. */
  lemma NumbersStandAlone(s: text, d: Dialect)
    ensures |Pieces(s, d)| == |RedactedText(s, d)|
    ensures forall k :: 0 <= k < |Pieces(s, d)| && Pieces(s, d)[k].Number? ==> var lo := Pieces(s, d)[k].lo;
              lo < |s| && 48 <= s[lo] <= 57 && Pieces(s, d)[k].hi == lo + NumberLen(s, lo) &&
              !Covers(NamesOf(s, false, d), lo) &&
              (k > 0 ==> var b := RedactedText(s, d)[k - 1];
                !(48 <= b <= 57 || 65 <= b <= 90 || 97 <= b <= 122 || b == 95 || b == 36 || b == 64))
  {
    hide Walk, NamesOf, RedactedSpans, Covers, Ordered;
    NamesOrdered(s, d);
    WalkNumbers(s, RedactedSpans(s, d), NamesOf(s, false, d), 0, 0);
    var ps := Pieces(s, d);
    assert AllStandAlone(ps, s, NamesOf(s, false, d), 0);
    forall k | 0 <= k < |ps| && ps[k].Number?
      ensures ps[k].lo < |s| && IsDigit(s[ps[k].lo]) && ps[k].hi == ps[k].lo + NumberLen(s, ps[k].lo)
      ensures !Covers(NamesOf(s, false, d), ps[k].lo)
      ensures k > 0 ==> !SuppressesNumber(RedactedText(s, d)[k - 1])
    {
      assert StandsAlone(ps, s, NamesOf(s, false, d), 0, k);
    }
  }

  lemma NamesOrdered(s: text, d: Dialect)
    ensures Ordered(NamesOf(s, false, d), |s|)
  {
    SpansOrdered(LiteralReading(false, d), d, Name, s, 0);
  }

  /** Redaction never lengthens a query. */
  lemma RedactShrinks(sql: text, d: Dialect)
    ensures |Redacted(sql, d)| <= |sql|
  {
    hide RedactedText, Strip.Stripped;
    var s := Strip.Stripped(sql);
    Strip.StripShrinks(sql);
    Provenance(s, d);
    TilesAscend(Pieces(s, d), 0, |s|);
  }
}
