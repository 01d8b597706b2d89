/** literalSpans, unionSpans and redactSpans: which bytes of a comment-free text are literals. */
module Spans {
  import opened Bytes
  import opened Lexing
  import opened Scanners

  /** A half-open byte range. */
  datatype Span = Span(lo: nat, hi: nat)

  datatype Dialect = Unknown | Postgres | MySQL

  /** What a chunk is to redaction: structure, a quoted name that is kept, or a value. */
  datatype Class = Structure | Name | Value

  function LiteralReading(backslashEscapes: bool, d: Dialect): Reading
  {
    Reading(backslashEscapes, backslashEscapes && d != Postgres, true, Quoting, false, false, false)
  }

  /** doubleQuotedIsIdent */
  predicate DoubleQuotedIsIdent(body: text, d: Dialect)
  {
    match d
    case Postgres => true
    case MySQL => false
    case Unknown =>
      body != [] &&
      (body[0] == UNDERSCORE || IsLetter(body[0])) &&
      forall i :: 0 <= i < |body| ==> body[i] < 128 && (IsIdentByte(body[i]) || body[i] == DOLLAR)
  }

  function ClassFrom(r: Reading, d: Dialect, s: text, i: nat): Class
    requires i < |s|
  {
    var c := CutFrom(r, s, i);
    match c.kind
    case Quoted =>
      if s[i] == SQUOTE then Value
      else if s[i] == DQUOTE then
        if c.closed && DoubleQuotedIsIdent(s[i + 1..i + c.len - 1], d) then Name else Value
      else Name
    case DollarQuoted => Value
    case _ => Structure
  }

  /** The class of a chunk by itself. */
  function ClassOfChunk(c: Chunk, d: Dialect): Class
    requires c.text != []
  {
    match c.kind
    case Quoted =>
      if c.text[0] == SQUOTE then Value
      else if c.text[0] == DQUOTE then
        if c.closed && |c.text| >= 2 && DoubleQuotedIsIdent(c.text[1..|c.text| - 1], d) then Name else Value
      else Name
    case DollarQuoted => Value
    case _ => Structure
  }

  lemma ClassFromChunk(r: Reading, d: Dialect, s: text, i: nat)
    requires i < |s|
    ensures ClassOfChunk(ChunkFrom(r, s, i), d) == ClassFrom(r, d, s, i)
  {
    hide CutFrom, DoubleQuotedIsIdent;
    var c, n := ChunkFrom(r, s, i), CutFrom(r, s, i).len;
    assert forall k :: 0 <= k < n ==> c.text[k] == s[i + k];
    if n >= 2 { assert c.text[1..n - 1] == s[i + 1..i + n - 1]; }
  }

  /** The spans of one class, from i on. */
  function SpansFrom(r: Reading, d: Dialect, class_: Class, s: text, i: nat): seq<Span>
    requires i <= |s|
    decreases |s| - i
  {
    if i == |s| then []
    else
      var j := i + CutFrom(r, s, i).len;
      (if ClassFrom(r, d, s, i) == class_ then [Span(i, j)] else []) + SpansFrom(r, d, class_, s, j)
  }

  function LiteralsOf(s: text, backslashEscapes: bool, d: Dialect): seq<Span>
  {
    SpansFrom(LiteralReading(backslashEscapes, d), d, Value, s, 0)
  }

  function NamesOf(s: text, backslashEscapes: bool, d: Dialect): seq<Span>
  {
    SpansFrom(LiteralReading(backslashEscapes, d), d, Name, s, 0)
  }

  // ---- literalSpans ----

  /** What the pass meets at i under its reading. */
  lemma LiteralCut(esc: bool, d: Dialect, s: text, i: nat)
    requires i < |s|
    ensures CutFrom(LiteralReading(esc, d), s, i) ==
      if s[i] == SQUOTE then var e := Run(SQUOTE, esc, s, i + 1); Cut(Quoted, 1 + e.len, e.closed)
      else if s[i] == DQUOTE then
        var e := Run(DQUOTE, esc && d != Postgres, s, i + 1); Cut(Quoted, 1 + e.len, e.closed)
      else if s[i] == BACKTICK then var e := Run(BACKTICK, false, s, i + 1); Cut(Quoted, 1 + e.len, e.closed)
      else if s[i] == DOLLAR && !WordBefore(s, i) && DollarTag(s, i) > 0 then
        var e := DollarRun(s, i); Cut(DollarQuoted, e.len, e.closed)
      else Cut(Plain, 1, true)
  {
  }

  lemma SpansStep(a: seq<Span>, r: Reading, d: Dialect, class_: Class, s: text, i: nat)
    requires i < |s|
    ensures var j := i + CutFrom(r, s, i).len;
      a + SpansFrom(r, d, class_, s, i) ==
      (if ClassFrom(r, d, s, i) == class_ then a + [Span(i, j)] else a) + SpansFrom(r, d, class_, s, j)
  {
    hide CutAt, ClassFrom;
    var j := i + CutFrom(r, s, i).len;
    assert a + ([Span(i, j)] + SpansFrom(r, d, class_, s, j)) == a + [Span(i, j)] + SpansFrom(r, d, class_, s, j);
    assert a + ([] + SpansFrom(r, d, class_, s, j)) == a + SpansFrom(r, d, class_, s, j);
  }

  /** literalSpans */
  method LiteralSpans(s: text, backslashEscapes: bool, d: Dialect) returns (redact: seq<Span>, keep: seq<Span>)
    ensures redact == LiteralsOf(s, backslashEscapes, d)
    ensures keep == NamesOf(s, backslashEscapes, d)
  {
    hide CutFrom, SpansFrom, DollarRun, Run, DollarTag;
    ghost var r := LiteralReading(backslashEscapes, d);
    redact, keep := [], [];
    var i := 0;
    while i < |s|
      invariant i <= |s|
      invariant redact + SpansFrom(r, d, Value, s, i) == LiteralsOf(s, backslashEscapes, d)
      invariant keep + SpansFrom(r, d, Name, s, i) == NamesOf(s, backslashEscapes, d)
    {
      LiteralCut(backslashEscapes, d, s, i);
      SpansStep(redact, r, d, Value, s, i);
      SpansStep(keep, r, d, Name, s, i);
      var c := s[i];
      if c == SQUOTE {
        var j := ScanQuotedRun(s, i, backslashEscapes);
        redact := redact + [Span(i, j)];
        i := j;
      } else if c == DQUOTE {
        var j, closed := ScanQuotedRunClosed(s, i, backslashEscapes && d != Postgres);
        if closed && DoubleQuotedIsIdent(s[i + 1..j - 1], d) {
          keep := keep + [Span(i, j)];
        } else {
          redact := redact + [Span(i, j)];
        }
        i := j;
      } else if c == BACKTICK {
        var j := ScanQuotedRun(s, i, false);
        keep := keep + [Span(i, j)];
        i := j;
      } else if c == DOLLAR {
        var j, _, ok := ScanDollarQuoted(s, i);
        if ok {
          redact := redact + [Span(i, j)];
          i := j;
          continue;
        }
        i := i + 1;
      } else {
        i := i + 1;
      }
    }
    NoSpansLeft(r, d, Value, s);
    NoSpansLeft(r, d, Name, s);
  }

  lemma NoSpansLeft(r: Reading, d: Dialect, class_: Class, s: text)
    ensures SpansFrom(r, d, class_, s, |s|) == []
  {
  }

  // ---- span lists ----

  /** Ascending, disjoint, non-empty and inside [0, n). */
  predicate Ordered(a: seq<Span>, n: nat)
  {
    (forall k :: 0 <= k < |a| ==> a[k].lo < a[k].hi <= n) &&
    forall j, k :: 0 <= j < k < |a| ==> a[j].hi <= a[k].lo
  }

  /** No two spans touch. */
  predicate Apart(a: seq<Span>)
  {
    forall j, k :: 0 <= j < k < |a| ==> a[j].hi < a[k].lo
  }

  ghost predicate Covers(a: seq<Span>, p: int)
  {
    exists k :: 0 <= k < |a| && a[k].lo <= p < a[k].hi
  }

  /** The class of the chunk that covers p, when lexing from i. */
  ghost function ClassAt(r: Reading, d: Dialect, s: text, i: nat, p: nat): Class
    requires i <= p < |s|
    decreases |s| - i
  {
    var j := i + CutFrom(r, s, i).len;
    if p < j then ClassFrom(r, d, s, i) else ClassAt(r, d, s, j, p)
  }

  /** The spans of a class are a well-formed list, whatever the text. */
  lemma {:induction false} SpansOrdered(r: Reading, d: Dialect, class_: Class, s: text, i: nat)
    requires i <= |s|
    ensures var a := SpansFrom(r, d, class_, s, i);
            Ordered(a, |s|) && forall k :: 0 <= k < |a| ==> i <= a[k].lo
    decreases |s| - i
  {
    hide CutAt, ClassFrom;
    if i < |s| { SpansOrdered(r, d, class_, s, i + CutFrom(r, s, i).len); }
  }

  /** They cover exactly the bytes whose chunk is of the class. */
  lemma {:induction false} SpansCover(r: Reading, d: Dialect, class_: Class, s: text, i: nat, p: nat)
    requires i <= p < |s|
    ensures Covers(SpansFrom(r, d, class_, s, i), p) <==> ClassAt(r, d, s, i, p) == class_
    decreases |s| - i
  {
    hide CutAt, ClassFrom;
    var j := i + CutFrom(r, s, i).len;
    var rest := SpansFrom(r, d, class_, s, j);
    SpansOrdered(r, d, class_, s, j);
    var first := if ClassFrom(r, d, s, i) == class_ then [Span(i, j)] else [];
    CoversConcat(first, rest, p);
    CoversOne(Span(i, j), p);
    if j <= p { SpansCover(r, d, class_, s, j, p); }
  }

  lemma CoversConcat(a: seq<Span>, b: seq<Span>, p: int)
    ensures Covers(a + b, p) <==> Covers(a, p) || Covers(b, p)
  {
    var c := a + b;
    assert forall k :: 0 <= k < |a| ==> c[k] == a[k];
    assert forall k :: 0 <= k < |b| ==> c[|a| + k] == b[k];
    assert forall k :: |a| <= k < |c| ==> c[k] == b[k - |a|];
  }

  // ---- unionSpans ----

  /** next merged into the list so far, as unionSpans does it. */
  function Absorb(merged: seq<Span>, next: Span): seq<Span>
  {
    var n := |merged|;
    if n > 0 && next.lo <= merged[n - 1].hi then
      if next.hi > merged[n - 1].hi then merged[n - 1 := Span(merged[n - 1].lo, next.hi)] else merged
    else merged + [next]
  }

  function MergeFrom(merged: seq<Span>, a: seq<Span>, b: seq<Span>): seq<Span>
    decreases |a| + |b|
  {
    if a == [] && b == [] then merged
    else if b == [] || (a != [] && a[0].lo <= b[0].lo) then MergeFrom(Absorb(merged, a[0]), a[1..], b)
    else MergeFrom(Absorb(merged, b[0]), a, b[1..])
  }

  function Union(a: seq<Span>, b: seq<Span>): seq<Span>
  {
    if a == [] then b else if b == [] then a else MergeFrom([], a, b)
  }

  /** unionSpans */
  method UnionSpans(a: seq<Span>, b: seq<Span>) returns (merged: seq<Span>)
    ensures merged == Union(a, b)
  {
    if |a| == 0 {
      return b;
    }
    if |b| == 0 {
      return a;
    }
    merged := [];
    var i, j := 0, 0;
    while i < |a| || j < |b|
      invariant i <= |a| && j <= |b|
      invariant MergeFrom(merged, a[i..], b[j..]) == MergeFrom([], a, b)
      decreases |a| - i + |b| - j
    {
      ghost var restA, restB := a[i..], b[j..];
      assert i < |a| ==> restA[0] == a[i] && restA[1..] == a[i + 1..];
      assert j < |b| ==> restB[0] == b[j] && restB[1..] == b[j + 1..];
      var next;
      if j >= |b| || (i < |a| && a[i].lo <= b[j].lo) {
        next, i := a[i], i + 1;
      } else {
        next, j := b[j], j + 1;
      }
      var n := |merged|;
      if n > 0 && next.lo <= merged[n - 1].hi {
        if next.hi > merged[n - 1].hi {
          merged := merged[n - 1 := Span(merged[n - 1].lo, next.hi)];
        }
        continue;
      }
      merged := merged + [next];
    }
  }

  predicate LoFrom(x: Span, a: seq<Span>) { exists k :: 0 <= k < |a| && a[k].lo == x.lo }

  /** What the merge loop keeps: the list so far is apart, covers what was absorbed, and starts no
      later than what remains. */
  ghost predicate MergeInv(merged: seq<Span>, rest: seq<Span>, n: nat)
  {
    Ordered(merged, n) && Apart(merged) && Ordered(rest, n) &&
    (merged != [] ==> forall k :: 0 <= k < |rest| ==> merged[|merged| - 1].lo <= rest[k].lo)
  }

  lemma AbsorbKeeps(merged: seq<Span>, next: Span, n: nat)
    requires Ordered(merged, n) && Apart(merged) && next.lo < next.hi <= n
    requires merged != [] ==> merged[|merged| - 1].lo <= next.lo
    ensures var m := Absorb(merged, next);
            m != [] && Ordered(m, n) && Apart(m) && m[|m| - 1].lo <= next.lo
  {
    var last := |merged| - 1;
    if last >= 0 && next.lo <= merged[last].hi {
      assert forall k :: 0 <= k <= last ==> Absorb(merged, next)[k].lo == merged[k].lo;
      assert forall k :: 0 <= k < last ==> Absorb(merged, next)[k] == merged[k];
    } else {
      AppendKeeps(merged, next, n);
    }
  }

  lemma AppendKeeps(merged: seq<Span>, next: Span, n: nat)
    requires Ordered(merged, n) && Apart(merged) && next.lo < next.hi <= n
    requires merged != [] ==> merged[|merged| - 1].hi < next.lo
    ensures Ordered(merged + [next], n) && Apart(merged + [next])
  {
    var last := |merged| - 1;
    assert forall k :: 0 <= k < last ==> merged[k].hi < merged[last].lo;
  }

  lemma AbsorbStarts(merged: seq<Span>, next: Span)
    ensures forall k :: 0 <= k < |Absorb(merged, next)| ==>
              var x := Absorb(merged, next)[k]; LoFrom(x, merged) || x.lo == next.lo
  {
    assert forall k :: 0 <= k < |merged| ==> LoFrom(merged[k], merged);
    var last := |merged| - 1;
    assert last >= 0 ==> LoFrom(Span(merged[last].lo, next.hi), merged);
  }

  lemma AbsorbCovers(merged: seq<Span>, next: Span)
    requires merged != [] ==> merged[|merged| - 1].lo <= next.lo
    ensures forall p :: Covers(Absorb(merged, next), p) <==> Covers(merged, p) || next.lo <= p < next.hi
  {
    var m, last := Absorb(merged, next), |merged| - 1;
    forall p ensures Covers(m, p) <==> Covers(merged, p) || next.lo <= p < next.hi {
      if last >= 0 && next.lo <= merged[last].hi {
        CoversConcat(merged[..last], [merged[last]], p);
        CoversConcat(merged[..last], [m[last]], p);
        assert merged[..last] + [merged[last]] == merged && merged[..last] + [m[last]] == m;
        CoversOne(merged[last], p);
        CoversOne(m[last], p);
      } else {
        CoversConcat(merged, [next], p);
        CoversOne(next, p);
      }
    }
  }

  lemma CoversOne(x: Span, p: int)
    ensures Covers([x], p) <==> x.lo <= p < x.hi
  {
    assert [x][0] == x;
  }

  /** Two well-formed lists: the merge is well-formed, apart, and covers exactly both. */
  lemma {:induction false} MergeCovers(merged: seq<Span>, a: seq<Span>, b: seq<Span>, n: nat)
    requires MergeInv(merged, a, n) && MergeInv(merged, b, n)
    ensures var u := MergeFrom(merged, a, b);
            Ordered(u, n) && Apart(u) &&
            forall p :: Covers(u, p) <==> Covers(merged, p) || Covers(a, p) || Covers(b, p)
    ensures forall k :: 0 <= k < |MergeFrom(merged, a, b)| ==>
              var x := MergeFrom(merged, a, b)[k]; LoFrom(x, merged) || LoFrom(x, a) || LoFrom(x, b)
    decreases |a| + |b|
  {
    if a == [] && b == [] {
      assert forall k :: 0 <= k < |merged| ==> LoFrom(merged[k], merged);
    } else if b == [] || (a != [] && a[0].lo <= b[0].lo) {
      MergeStep(merged, a, b, n);
      MergeCovers(Absorb(merged, a[0]), a[1..], b, n);
      MergeCoverage(merged, a, b, MergeFrom(merged, a, b));
    } else {
      MergeStep(merged, b, a, n);
      MergeCovers(Absorb(merged, b[0]), a, b[1..], n);
      MergeCoverage(merged, b, a, MergeFrom(merged, a, b));
    }
  }

  lemma MergeStep(merged: seq<Span>, a: seq<Span>, b: seq<Span>, n: nat)
    requires MergeInv(merged, a, n) && MergeInv(merged, b, n)
    requires a != [] && (b != [] ==> a[0].lo <= b[0].lo)
    ensures MergeInv(Absorb(merged, a[0]), a[1..], n) && MergeInv(Absorb(merged, a[0]), b, n)
    ensures forall p :: Covers(Absorb(merged, a[0]), p) <==> Covers(merged, p) || a[0].lo <= p < a[0].hi
    ensures forall k :: 0 <= k < |Absorb(merged, a[0])| ==>
              var x := Absorb(merged, a[0])[k]; LoFrom(x, merged) || x.lo == a[0].lo
  {
    hide Absorb;
    AbsorbKeeps(merged, a[0], n);
    AbsorbStarts(merged, a[0]);
    AbsorbCovers(merged, a[0]);
    assert forall k :: 0 <= k < |b| ==> b[0].lo <= b[k].lo;
  }

  lemma MergeCoverage(merged: seq<Span>, a: seq<Span>, b: seq<Span>, u: seq<Span>)
    requires a != []
    requires forall p :: Covers(Absorb(merged, a[0]), p) <==> Covers(merged, p) || a[0].lo <= p < a[0].hi
    requires forall p :: Covers(u, p) <==> Covers(Absorb(merged, a[0]), p) || Covers(a[1..], p) || Covers(b, p)
    requires forall k :: 0 <= k < |Absorb(merged, a[0])| ==>
               var x := Absorb(merged, a[0])[k]; LoFrom(x, merged) || x.lo == a[0].lo
    requires forall k :: 0 <= k < |u| ==>
               var x := u[k]; LoFrom(x, Absorb(merged, a[0])) || LoFrom(x, a[1..]) || LoFrom(x, b)
    ensures forall p :: Covers(u, p) <==> Covers(merged, p) || Covers(a, p) || Covers(b, p)
    ensures forall k :: 0 <= k < |u| ==> var x := u[k]; LoFrom(x, merged) || LoFrom(x, a) || LoFrom(x, b)
  {
    forall p ensures Covers(a, p) <==> a[0].lo <= p < a[0].hi || Covers(a[1..], p) {
      CoversConcat([a[0]], a[1..], p);
      assert [a[0]] + a[1..] == a;
      CoversOne(a[0], p);
    }
    forall k | 0 <= k < |u| ensures LoFrom(u[k], merged) || LoFrom(u[k], a) || LoFrom(u[k], b) {
      if LoFrom(u[k], Absorb(merged, a[0])) {
        var m :| 0 <= m < |Absorb(merged, a[0])| && Absorb(merged, a[0])[m].lo == u[k].lo;
        if !LoFrom(Absorb(merged, a[0])[m], merged) { assert a[0].lo == u[k].lo; }
      } else if LoFrom(u[k], a[1..]) {
        var m :| 0 <= m < |a[1..]| && a[1..][m].lo == u[k].lo;
        assert a[m + 1].lo == u[k].lo;
      }
    }
  }

  /** unionSpans of two well-formed lists is well-formed, covers exactly their union, starts
      every span where one of theirs starts, and merges touching spans unless a list is empty. */
  lemma UnionCovers(a: seq<Span>, b: seq<Span>, n: nat)
    requires Ordered(a, n) && Ordered(b, n)
    ensures var u := Union(a, b);
            Ordered(u, n) && (a != [] && b != [] ==> Apart(u)) &&
            forall p :: Covers(u, p) <==> Covers(a, p) || Covers(b, p)
    ensures forall k :: 0 <= k < |Union(a, b)| ==> LoFrom(Union(a, b)[k], a) || LoFrom(Union(a, b)[k], b)
  {
    if a == [] || b == [] {
      var u := Union(a, b);
      assert forall k :: 0 <= k < |u| ==> LoFrom(u[k], u);
    } else {
      MergeCovers([], a, b, n);
    }
  }

  /** A list whose spans are apart is determined by the bytes it covers. */
  lemma {:induction false} ApartUnique(a: seq<Span>, b: seq<Span>, n: nat)
    requires Ordered(a, n) && Apart(a) && Ordered(b, n) && Apart(b)
    requires forall p :: Covers(a, p) <==> Covers(b, p)
    ensures a == b
    decreases |a|
  {
    hide Covers;
    CoversSomething(a, n);
    CoversSomething(b, n);
    if a != [] {
      FirstSpan(a, b, n);
      FirstSpan(b, a, n);
      forall p ensures Covers(a[1..], p) <==> Covers(b[1..], p) {
        TailCovers(a, n, p);
        TailCovers(b, n, p);
      }
      ApartUnique(a[1..], b[1..], n);
      assert a == [a[0]] + a[1..] && b == [b[0]] + b[1..];
    }
  }

  lemma CoversSomething(a: seq<Span>, n: nat)
    requires Ordered(a, n)
    ensures a == [] <==> forall p :: !Covers(a, p)
  {
    if a != [] { assert Covers(a, a[0].lo); }
  }

  lemma FirstSpan(a: seq<Span>, b: seq<Span>, n: nat)
    requires Ordered(a, n) && Apart(a) && Ordered(b, n) && Apart(b) && a != [] && b != []
    requires forall p :: Covers(a, p) <==> Covers(b, p)
    ensures a[0].lo >= b[0].lo && (a[0].lo == b[0].lo ==> a[0].hi <= b[0].hi)
  {
    FirstCovered(a, n, a[0].lo);
    FirstCovered(b, n, a[0].lo);
    FirstCovered(a, n, b[0].hi);
    FirstCovered(b, n, b[0].hi);
  }

  lemma FirstCovered(a: seq<Span>, n: nat, p: int)
    requires Ordered(a, n) && Apart(a) && a != []
    ensures p <= a[0].hi ==> (Covers(a, p) <==> a[0].lo <= p < a[0].hi)
  {
  }

  lemma TailCovers(a: seq<Span>, n: nat, p: int)
    requires Ordered(a, n) && a != []
    ensures Covers(a[1..], p) <==> Covers(a, p) && a[0].hi <= p
  {
    CoversConcat([a[0]], a[1..], p);
    assert [a[0]] + a[1..] == a;
    if Covers(a[1..], p) {
      var k :| 0 <= k < |a[1..]| && a[1..][k].lo <= p < a[1..][k].hi;
      assert a[k + 1] == a[1..][k];
    }
  }

  /** Merging a list with itself changes it exactly when two of its spans touch. */
  lemma SelfUnion(a: seq<Span>, n: nat)
    requires Ordered(a, n)
    ensures Union(a, a) == a <==> Apart(a)
  {
    UnionCovers(a, a, n);
    if Apart(a) { ApartUnique(Union(a, a), a, n); }
  }

  // ---- redactSpans ----

  /** The spans to redact: those of the reading without escapes, united with those of the reading
      with escapes when a backslash occurs. */
  function RedactedSpans(s: text, d: Dialect): seq<Span>
  {
    if BACKSLASH !in s then LiteralsOf(s, false, d) else Union(LiteralsOf(s, false, d), LiteralsOf(s, true, d))
  }

  /** redactSpans */
  method RedactSpans(s: text, d: Dialect) returns (redact: seq<Span>, keep: seq<Span>)
    ensures redact == RedactedSpans(s, d)
    ensures keep == NamesOf(s, false, d)
  {
    var loose, keepLoose := LiteralSpans(s, false, d);
    if BACKSLASH !in s {
      return loose, keepLoose;
    }
    var strict, _ := LiteralSpans(s, true, d);
    redact := UnionSpans(loose, strict);
    keep := keepLoose;
  }

  lemma {:induction false} RunWithoutBackslash(q: byte, s: text, k: nat)
    requires k <= |s| && BACKSLASH !in s
    ensures Run(q, true, s, k) == Run(q, false, s, k)
    decreases |s| - k
  {
    if k < |s| { RunWithoutBackslash(q, s, k + 1); assert s[k] in s; }
    if k + 1 < |s| { RunWithoutBackslash(q, s, k + 2); }
  }

  /** Without a backslash the two readings find the same spans, list for list. */
  lemma {:induction false} SameWithoutBackslash(d: Dialect, class_: Class, s: text, i: nat)
    requires i <= |s| && BACKSLASH !in s
    ensures SpansFrom(LiteralReading(true, d), d, class_, s, i) == SpansFrom(LiteralReading(false, d), d, class_, s, i)
    decreases |s| - i
  {
    hide CutFrom, Run;
    if i < |s| {
      LiteralCut(true, d, s, i);
      LiteralCut(false, d, s, i);
      RunWithoutBackslash(s[i], s, i + 1);
      SameWithoutBackslash(d, class_, s, i + CutFrom(LiteralReading(true, d), s, i).len);
    }
  }

  /** Whether p lies in a redacted literal under one backslash reading. */
  ghost predicate InLiteral(s: text, backslashEscapes: bool, d: Dialect, p: nat)
    requires p < |s|
  {
    ClassAt(LiteralReading(backslashEscapes, d), d, s, 0, p) == Value
  }

  predicate OpensAtDelimiter(a: seq<Span>, s: text)
  {
    forall k :: 0 <= k < |a| ==> a[k].lo < |s| && s[a[k].lo] in {SQUOTE, DQUOTE, DOLLAR}
  }

  lemma {:induction false} SpansOpen(esc: bool, d: Dialect, s: text, i: nat)
    requires i <= |s|
    ensures OpensAtDelimiter(SpansFrom(LiteralReading(esc, d), d, Value, s, i), s)
    decreases |s| - i
  {
    hide CutFrom, Run, DollarTag, DollarRun;
    if i < |s| {
      LiteralCut(esc, d, s, i);
      SpansOpen(esc, d, s, i + CutFrom(LiteralReading(esc, d), s, i).len);
    }
  }

  /** For every text, with or without backslashes, the redacted spans are a well-formed list that
      covers exactly the bytes that lie in a literal under one of the two readings. */
  lemma RedactedSpansExact(s: text, d: Dialect)
    ensures Ordered(RedactedSpans(s, d), |s|) && OpensAtDelimiter(RedactedSpans(s, d), s)
    ensures forall p :: 0 <= p < |s| ==>
              (Covers(RedactedSpans(s, d), p) <==> InLiteral(s, false, d, p) || InLiteral(s, true, d, p))
  {
    hide CutFrom, ClassFrom;
    var loose, strict := LiteralsOf(s, false, d), LiteralsOf(s, true, d);
    SpansOrdered(LiteralReading(false, d), d, Value, s, 0);
    SpansOrdered(LiteralReading(true, d), d, Value, s, 0);
    SpansOpen(false, d, s, 0);
    SpansOpen(true, d, s, 0);
    forall p | 0 <= p < |s|
      ensures Covers(loose, p) <==> InLiteral(s, false, d, p)
      ensures Covers(strict, p) <==> InLiteral(s, true, d, p)
    {
      SpansCover(LiteralReading(false, d), d, Value, s, 0, p);
      SpansCover(LiteralReading(true, d), d, Value, s, 0, p);
    }
    if BACKSLASH !in s {
      SameWithoutBackslash(d, Value, s, 0);
    } else {
      UnionCovers(loose, strict, |s|);
    }
  }

  predicate LiteralAt(cs: seq<Chunk>, d: Dialect, k: int)
  {
    0 <= k < |cs| && cs[k].text != [] && ClassOfChunk(cs[k], d) == Value
  }

  /** Two redacted literals stand next to each other. */
  ghost predicate Neighbours(cs: seq<Chunk>, d: Dialect)
  {
    exists k :: LiteralAt(cs, d, k) && LiteralAt(cs, d, k + 1)
  }

  lemma NeighboursStep(c: Chunk, cs: seq<Chunk>, d: Dialect)
    ensures Neighbours([c] + cs, d) <==> Neighbours(cs, d) || (LiteralAt([c] + cs, d, 0) && LiteralAt(cs, d, 0))
  {
    hide ClassOfChunk;
    var all := [c] + cs;
    assert forall k :: 0 < k ==> (LiteralAt(all, d, k) <==> LiteralAt(cs, d, k - 1));
    if k :| LiteralAt(cs, d, k) && LiteralAt(cs, d, k + 1) {
      assert LiteralAt(all, d, k + 1) && LiteralAt(all, d, k + 1 + 1);
    }
    if LiteralAt(all, d, 0) && LiteralAt(cs, d, 0) { assert LiteralAt(all, d, 0 + 1); }
    if k :| LiteralAt(all, d, k) && LiteralAt(all, d, k + 1) {
      if k > 0 { assert LiteralAt(cs, d, k - 1) && LiteralAt(cs, d, k - 1 + 1); }
    }
  }

  /** The spans are apart exactly when no two literals are neighbours. */
  lemma {:induction false} ApartExactly(r: Reading, d: Dialect, s: text, i: nat)
    requires i <= |s|
    ensures Apart(SpansFrom(r, d, Value, s, i)) <==> !Neighbours(Lex(r, s, i), d)
    ensures var a := SpansFrom(r, d, Value, s, i); LiteralAt(Lex(r, s, i), d, 0) <==> a != [] && a[0].lo == i
    decreases |s| - i
  {
    hide CutFrom, ClassFrom, ClassOfChunk, Neighbours, Apart, LiteralAt, SpansFrom, Ordered;
    if i == |s| {
      NoNeighbours(d);
      NoSpansLeft(r, d, Value, s);
    } else {
      var j := i + CutFrom(r, s, i).len;
      var rest := SpansFrom(r, d, Value, s, j);
      ApartExactly(r, d, s, j);
      SpansOrdered(r, d, Value, s, j);
      LiteralAtHead(r, d, s, i);
      NeighboursStep(ChunkFrom(r, s, i), Lex(r, s, j), d);
      SpansHead(r, d, Value, s, i);
      ApartStep(Span(i, j), rest, |s|);
    }
  }

  lemma SpansHead(r: Reading, d: Dialect, class_: Class, s: text, i: nat)
    requires i < |s|
    ensures var j := i + CutFrom(r, s, i).len; var rest := SpansFrom(r, d, class_, s, j);
      SpansFrom(r, d, class_, s, i) == if ClassFrom(r, d, s, i) == class_ then [Span(i, j)] + rest else rest
  {
    hide CutFrom, ClassFrom;
    var rest := SpansFrom(r, d, class_, s, i + CutFrom(r, s, i).len);
    assert [] + rest == rest;
  }

  lemma LiteralAtHead(r: Reading, d: Dialect, s: text, i: nat)
    requires i < |s|
    ensures LiteralAt(Lex(r, s, i), d, 0) <==> ClassFrom(r, d, s, i) == Value
  {
    hide CutFrom, ClassFrom, ClassOfChunk;
    ClassFromChunk(r, d, s, i);
    assert Lex(r, s, i)[0] == ChunkFrom(r, s, i);
  }

  lemma NoNeighbours(d: Dialect)
    ensures !Neighbours([], d) && !LiteralAt([], d, 0) && Apart([])
  {
  }

  lemma ApartStep(x: Span, a: seq<Span>, n: nat)
    requires Ordered(a, n) && forall k :: 0 <= k < |a| ==> x.hi <= a[k].lo
    ensures Apart([x] + a) <==> Apart(a) && (a != [] ==> a[0].lo != x.hi)
  {
    var all := [x] + a;
    assert all[0] == x && forall k :: 0 < k < |all| ==> all[k] == a[k - 1];
    if Apart(all) {
      forall j, k | 0 <= j < k < |a| ensures a[j].hi < a[k].lo { assert all[j + 1].hi < all[k + 1].lo; }
      if a != [] { assert all[0].hi < all[1].lo; }
    } else {
      var j, k :| 0 <= j < k < |all| && all[j].hi >= all[k].lo;
      if j == 0 { assert a[0].lo <= a[k - 1].lo; } else { assert a[j - 1].hi >= a[k - 1].lo; }
    }
  }

  /** The single pass taken without a backslash returns the very list the union of both passes would return exactly
      when no two redacted literals are neighbours in the text; it always covers the same bytes. */
  lemma FastPathExact(s: text, d: Dialect)
    requires BACKSLASH !in s
    ensures RedactedSpans(s, d) == Union(LiteralsOf(s, false, d), LiteralsOf(s, true, d)) <==>
            !Neighbours(Lex(LiteralReading(false, d), s, 0), d)
    ensures forall p :: Covers(RedactedSpans(s, d), p) <==>
                        Covers(Union(LiteralsOf(s, false, d), LiteralsOf(s, true, d)), p)
  {
    hide CutFrom, ClassFrom, Union, Covers, Neighbours;
    SameWithoutBackslash(d, Value, s, 0);
    SpansOrdered(LiteralReading(false, d), d, Value, s, 0);
    ApartExactly(LiteralReading(false, d), d, s, 0);
    SelfUnion(LiteralsOf(s, false, d), |s|);
    UnionCovers(LiteralsOf(s, false, d), LiteralsOf(s, true, d), |s|);
  }

  /** Under every dialect $$a$$'' is two literals for the single pass, and one span for the union. */
  lemma FastPathDiffers(d: Dialect)
    ensures var s := [DOLLAR, DOLLAR, 97, DOLLAR, DOLLAR, SQUOTE, SQUOTE];
      BACKSLASH !in s && RedactedSpans(s, d) == [Span(0, 5), Span(5, 7)] &&
      Union(LiteralsOf(s, false, d), LiteralsOf(s, true, d)) == [Span(0, 7)]
  {
    hide SpansFrom, CutFrom, ClassFrom, Union;
    var s := [DOLLAR, DOLLAR, 97, DOLLAR, DOLLAR, SQUOTE, SQUOTE];
    TouchingCuts(d);
    var r := LiteralReading(false, d);
    SpansStep([], r, d, Value, s, 0);
    SpansStep([Span(0, 5)], r, d, Value, s, 5);
    NoSpansLeft(r, d, Value, s);
    assert [] + SpansFrom(r, d, Value, s, 0) == SpansFrom(r, d, Value, s, 0);
    assert [] + [Span(0, 5)] == [Span(0, 5)] && [Span(0, 5)] + [Span(5, 7)] + [] == [Span(0, 5), Span(5, 7)];
    assert SpansFrom(r, d, Value, s, 0) == [Span(0, 5), Span(5, 7)];
    SameWithoutBackslash(d, Value, s, 0);
    TouchingUnion();
  }

  lemma TouchingCuts(d: Dialect)
    ensures var s, r := [DOLLAR, DOLLAR, 97, DOLLAR, DOLLAR, SQUOTE, SQUOTE], LiteralReading(false, d);
      CutFrom(r, s, 0) == Cut(DollarQuoted, 5, true) && CutFrom(r, s, 5) == Cut(Quoted, 2, true) &&
      ClassFrom(r, d, s, 0) == ClassFrom(r, d, s, 5) == Value
  {
    hide CutFrom;
    var s := [DOLLAR, DOLLAR, 97, DOLLAR, DOLLAR, SQUOTE, SQUOTE];
    LiteralCut(false, d, s, 0);
    LiteralCut(false, d, s, 5);
    assert s[0..2] == s[3..5] && s[2..4] == [97, DOLLAR];
    assert OccursAt(s, s[0..2], 3) && !OccursAt(s, s[0..2], 2);
  }

  lemma TouchingUnion()
    ensures var a := [Span(0, 5), Span(5, 7)]; Union(a, a) == [Span(0, 7)]
  {
    var x, y, z := Span(0, 5), Span(5, 7), Span(0, 7);
    assert [x, y][1..] == [y] && [y][1..] == [];
    assert Absorb([], x) == [x] && Absorb([x], x) == [x] && Absorb([x], y) == [z] && Absorb([z], y) == [z];
    hide Absorb;
    assert MergeFrom([z], [], [y]) == MergeFrom([z], [], []) == [z];
    assert MergeFrom([x], [y], [y]) == MergeFrom([z], [], [y]);
    assert MergeFrom([x], [y], [x, y]) == MergeFrom([x], [y], [y]);
  }

  /** The reading with escapes adds nothing: the redacted spans are those of the one without. */
  predicate OneReading(s: text, d: Dialect) { RedactedSpans(s, d) == LiteralsOf(s, false, d) }

  /** That is so without a backslash; with one, exactly when whatever the escaping reading takes for a literal lies in
      literals of the other, and these have no neighbours if it takes anything. */
  lemma OneReadingExactly(s: text, d: Dialect)
    ensures OneReading(s, d) <==>
            BACKSLASH !in s ||
            ((forall p :: 0 <= p < |s| && InLiteral(s, true, d, p) ==> InLiteral(s, false, d, p)) &&
             ((forall p :: 0 <= p < |s| ==> !InLiteral(s, true, d, p)) ||
              !Neighbours(Lex(LiteralReading(false, d), s, 0), d)))
  {
    hide CutFrom, ClassFrom, Union, Neighbours, InLiteral;
    var a, b := LiteralsOf(s, false, d), LiteralsOf(s, true, d);
    SpansOrdered(LiteralReading(false, d), d, Value, s, 0);
    SpansOrdered(LiteralReading(true, d), d, Value, s, 0);
    ApartExactly(LiteralReading(false, d), d, s, 0);
    CoversLiterals(s, false, d);
    CoversLiterals(s, true, d);
    UnionKeeps(a, b, |s|);
  }

  lemma CoversLiterals(s: text, esc: bool, d: Dialect)
    ensures forall p :: Covers(LiteralsOf(s, esc, d), p) <==> 0 <= p < |s| && InLiteral(s, esc, d, p)
    ensures LiteralsOf(s, esc, d) == [] <==> forall p :: 0 <= p < |s| ==> !InLiteral(s, esc, d, p)
  {
    hide CutFrom, ClassFrom;
    var a := LiteralsOf(s, esc, d);
    SpansOrdered(LiteralReading(esc, d), d, Value, s, 0);
    forall p ensures Covers(a, p) <==> 0 <= p < |s| && InLiteral(s, esc, d, p) {
      if 0 <= p < |s| { SpansCover(LiteralReading(esc, d), d, Value, s, 0, p); }
    }
    CoversSomething(a, |s|);
  }

  /** The union with b is a itself. */
  lemma UnionKeeps(a: seq<Span>, b: seq<Span>, n: nat)
    requires Ordered(a, n) && Ordered(b, n)
    ensures Union(a, b) == a <==> (forall p :: Covers(b, p) ==> Covers(a, p)) && (b == [] || Apart(a))
  {
    hide Covers;
    UnionCovers(a, b, n);
    CoversSomething(a, n);
    CoversSomething(b, n);
    if a != [] && b != [] && Apart(a) && forall p :: Covers(b, p) ==> Covers(a, p) {
      ApartUnique(Union(a, b), a, n);
    }
  }

  // ---- dialects ----

  /** Under either reading MySQL redacts every byte that is redacted when the dialect is unknown. */
  lemma {:induction false} MySQLClass(esc: bool, s: text, i: nat, p: nat)
    requires i <= p < |s|
    ensures ClassAt(LiteralReading(esc, Unknown), Unknown, s, i, p) == Value ==>
            ClassAt(LiteralReading(esc, MySQL), MySQL, s, i, p) == Value
    decreases |s| - i
  {
    hide CutAt;
    assert LiteralReading(esc, Unknown) == LiteralReading(esc, MySQL);
    var j := i + CutFrom(LiteralReading(esc, MySQL), s, i).len;
    if j <= p { MySQLClass(esc, s, j, p); }
  }

  lemma MySQLCoversUnknown(s: text, p: nat)
    requires p < |s|
    ensures Covers(RedactedSpans(s, Unknown), p) ==> Covers(RedactedSpans(s, MySQL), p)
  {
    hide CutFrom, ClassFrom, RedactedSpans, Covers;
    RedactedSpansExact(s, Unknown);
    RedactedSpansExact(s, MySQL);
    MySQLClass(false, s, 0, p);
    MySQLClass(true, s, 0, p);
  }

  lemma {:induction false} SameWithoutDoubleQuote(esc: bool, s: text, i: nat)
    requires i <= |s| && DQUOTE !in s
    ensures SpansFrom(LiteralReading(esc, Postgres), Postgres, Value, s, i) ==
            SpansFrom(LiteralReading(esc, Unknown), Unknown, Value, s, i)
    decreases |s| - i
  {
    hide CutFrom, Run, DollarTag, DollarRun;
    if i < |s| {
      LiteralCut(esc, Postgres, s, i);
      LiteralCut(esc, Unknown, s, i);
      assert s[i] in s;
      SameWithoutDoubleQuote(esc, s, i + CutFrom(LiteralReading(esc, Unknown), s, i).len);
    }
  }

  /** Without a double quote Postgres redacts the same list of spans as the unknown dialect. */
  lemma PostgresIsUnknown(s: text)
    requires DQUOTE !in s
    ensures RedactedSpans(s, Postgres) == RedactedSpans(s, Unknown)
  {
    hide CutFrom, ClassFrom;
    SameWithoutDoubleQuote(false, s, 0);
    SameWithoutDoubleQuote(true, s, 0);
  }

  /** Between k and end the quote q occurs doubled only. */
  predicate DoubledOnly(q: byte, s: text, k: nat, end: nat)
    requires k <= end <= |s|
    decreases end - k
  {
    k == end ||
    if s[k] == q then k + 1 < end && s[k + 1] == q && DoubledOnly(q, s, k + 2, end)
    else DoubledOnly(q, s, k + 1, end)
  }

  lemma {:induction false} RunBody(q: byte, s: text, k: nat)
    requires k <= |s| && Run(q, false, s, k).closed
    ensures DoubledOnly(q, s, k, k + Run(q, false, s, k).len - 1)
    decreases |s| - k
  {
    if s[k] != q {
      RunBody(q, s, k + 1);
    } else if k + 1 < |s| && s[k + 1] == q {
      RunBody(q, s, k + 2);
    }
  }

  /** Under Postgres a quoted name ends at its first undoubled quote, whatever a backslash means. */
  lemma {:induction false} PostgresNames(esc: bool, s: text, i: nat)
    requires i <= |s|
    ensures forall sp :: sp in SpansFrom(LiteralReading(esc, Postgres), Postgres, Name, s, i) ==>
              sp.lo < sp.hi <= |s| &&
              (s[sp.lo] == DQUOTE ==>
                sp.lo + 2 <= sp.hi && s[sp.hi - 1] == DQUOTE && DoubledOnly(DQUOTE, s, sp.lo + 1, sp.hi - 1))
    decreases |s| - i
  {
    hide CutFrom, Run, DollarTag, DollarRun, DoubledOnly;
    if i < |s| {
      LiteralCut(esc, Postgres, s, i);
      var j := i + CutFrom(LiteralReading(esc, Postgres), s, i).len;
      PostgresNames(esc, s, j);
      if s[i] == DQUOTE {
        RunEnds(DQUOTE, false, s, i + 1);
        if Run(DQUOTE, false, s, i + 1).closed { RunBody(DQUOTE, s, i + 1); }
      }
    }
  }

  // ---- what is redacted and what is kept ----

  /** A span of a class is a chunk of that class. */
  lemma {:induction false} SpanIsChunk(r: Reading, d: Dialect, class_: Class, s: text, i: nat, x: Span)
    requires i <= |s| && x in SpansFrom(r, d, class_, s, i)
    ensures i <= x.lo < |s| && x.hi == x.lo + CutFrom(r, s, x.lo).len && ClassFrom(r, d, s, x.lo) == class_
    decreases |s| - i
  {
    hide CutFrom, ClassFrom, SpansFrom;
    if i == |s| {
      NoSpansLeft(r, d, class_, s);
    } else {
      var j := i + CutFrom(r, s, i).len;
      SpansHead(r, d, class_, s, i);
      if x in SpansFrom(r, d, class_, s, j) { SpanIsChunk(r, d, class_, s, j, x); }
    }
  }

  /** What a double-quoted run is, by its bytes: a name under Postgres if it is closed, never under MySQL, and with the
      dialect unknown if it is closed and holds "_" or a letter, then letters, digits, "_" and "$" only. */
  predicate IsNameByBytes(s: text, lo: nat, hi: nat, closed: bool, d: Dialect)
    requires lo < hi <= |s|
  {
    closed && !d.MySQL? &&
    (d.Unknown? ==>
      hi - lo > 2 && (s[lo + 1] == 95 || 65 <= s[lo + 1] <= 90 || 97 <= s[lo + 1] <= 122) &&
      forall p :: lo < p < hi - 1 ==>
        s[p] == 95 || s[p] == 36 || 48 <= s[p] <= 57 || 65 <= s[p] <= 90 || 97 <= s[p] <= 122)
  }

  lemma NameByBytes(esc: bool, d: Dialect, s: text, i: nat)
    requires i < |s|
    ensures var c := CutFrom(LiteralReading(esc, d), s, i); var class_ := ClassFrom(LiteralReading(esc, d), d, s, i);
      class_ != Structure ==>
        s[i] in {34, 36, 39, 96} &&
        (class_ == Name <==> s[i] == 96 || (s[i] == 34 && IsNameByBytes(s, i, i + c.len, c.closed, d)))
  {
    hide CutFrom, Run, DollarTag, DollarRun;
    LiteralCut(esc, d, s, i);
    var c := CutFrom(LiteralReading(esc, d), s, i);
    if s[i] == DQUOTE && c.closed {
      var body := s[i + 1..i + c.len - 1];
      assert forall p :: 0 <= p < |body| ==> body[p] == s[i + 1 + p];
      assert forall p :: i + 1 <= p < i + c.len - 1 ==> s[p] == body[p - i - 1];
    }
  }

  /** Of the runs that literalSpans finds, those in single quotes and dollar quotes are redacted, those in backticks are
      kept, and one in double quotes is kept exactly when it is a name by its bytes. */
  lemma KeptExactly(s: text, esc: bool, d: Dialect, x: Span)
    requires x in LiteralsOf(s, esc, d) || x in NamesOf(s, esc, d)
    ensures x.lo < x.hi <= |s| && s[x.lo] in {34, 36, 39, 96}
    ensures x in NamesOf(s, esc, d) <==> x !in LiteralsOf(s, esc, d)
    ensures x in NamesOf(s, esc, d) <==>
            s[x.lo] == 96 ||
            (s[x.lo] == 34 && IsNameByBytes(s, x.lo, x.hi, CutFrom(LiteralReading(esc, d), s, x.lo).closed, d))
  {
    hide CutFrom, ClassFrom, SpansFrom;
    var r := LiteralReading(esc, d);
    if x in LiteralsOf(s, esc, d) { SpanIsChunk(r, d, Value, s, 0, x); }
    if x in NamesOf(s, esc, d) { SpanIsChunk(r, d, Name, s, 0, x); }
    NameByBytes(esc, d, s, x.lo);
  }

  /** literalSpans finds every run: the two lists together cover the bytes of all quoted runs and dollar quotes, and no
      others. */
  lemma NoneLeftOut(s: text, esc: bool, d: Dialect, p: nat)
    requires p < |s|
    ensures Covers(LiteralsOf(s, esc, d), p) || Covers(NamesOf(s, esc, d), p) <==>
            KindAt(LiteralReading(esc, d), s, 0, p) in {Quoted, DollarQuoted}
  {
    hide SpansFrom, ClassAt, KindAt, Covers;
    var r := LiteralReading(esc, d);
    SpansCover(r, d, Value, s, 0, p);
    SpansCover(r, d, Name, s, 0, p);
    ClassByKind(r, d, s, 0, p);
  }

  lemma {:induction false} ClassByKind(r: Reading, d: Dialect, s: text, i: nat, p: nat)
    requires i <= p < |s|
    ensures ClassAt(r, d, s, i, p) == Structure <==> KindAt(r, s, i, p) !in {Quoted, DollarQuoted}
    decreases |s| - i
  {
    hide CutFrom, DoubleQuotedIsIdent;
    var j := i + CutFrom(r, s, i).len;
    if j <= p { ClassByKind(r, d, s, j, p); }
  }
}
