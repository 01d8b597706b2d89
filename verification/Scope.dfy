/** scopedBounds: whether a WHERE or a LIMIT bounds the statement's rows. */
module Scope {
  import opened Bytes
  import opened Parens
  import opened Regions
  import opened RowSource
  import opened RowWords
  import opened Spans
  import opened Unwrap

  // ---- the stack ----

  function CountTrue(a: seq<bool>): nat
  {
    if a == [] then 0 else CountTrue(a[..|a| - 1]) + if a[|a| - 1] then 1 else 0
  }

  lemma {:induction false} NoneTrue(a: seq<bool>)
    ensures CountTrue(a) == 0 <==> forall k :: 0 <= k < |a| ==> !a[k]
  {
    if a != [] { NoneTrue(a[..|a| - 1]); }
  }

  /** A stack with a flag for each enclosing parenthesis, set where it gives no rows, and the number of set flags. */
  class RowScope {
    var open: seq<bool>
    var nonRow: int

    ghost predicate Valid()
      reads this
    {
      nonRow == CountTrue(open)
    }

    constructor ()
      ensures Valid() && open == []
    {
      open, nonRow := [], 0;
    }

    method Push(notRowSource: bool)
      requires Valid()
      modifies this
      ensures Valid() && open == old(open) + [notRowSource]
    {
      open := open + [notRowSource];
      if notRowSource {
        nonRow := nonRow + 1;
      }
    }

    /** A pop of the empty stack does nothing. */
    method Pop()
      requires Valid()
      modifies this
      ensures Valid() && open == if old(open) == [] then [] else old(open)[..|old(open)| - 1]
    {
      var n := |open|;
      if n == 0 {
        return;
      }
      if open[n - 1] {
        nonRow := nonRow - 1;
      }
      open := open[..n - 1];
    }
  }

  // ---- the specification ----

  predicate InSpan(spans: seq<Span>, pos: nat)
  {
    exists k :: 0 <= k < |spans| && spans[k].lo <= pos < spans[k].hi
  }

  /** The parenthesis at p opens a row source; only a SELECT has any. */
  predicate IsRowSource(s: text, select: bool, froms: seq<Span>, p: nat)
    requires p < |s|
  {
    select && OpensRowSource(s[..p], Depth(s, p) == 0 && InSpan(froms, p))
  }

  /** Every parenthesis around i is a row source. */
  ghost predicate Bounding(s: text, select: bool, froms: seq<Span>, i: nat)
    requires i <= |s|
  {
    forall p :: Encloses(s, p, i) ==> IsRowSource(s, select, froms, p)
  }

  /** Some match that starts before i bounds the rows. */
  ghost predicate BoundBefore(s: text, select: bool, froms: seq<Span>, ms: seq<Span>, i: nat)
    requires Ordered(ms, |s|)
  {
    exists m :: m in ms && m.lo < i && Bounding(s, select, froms, m.lo)
  }

  /** The FROM regions scopedBounds looks at. */
  function Froms(s: text, select: bool, from: Matcher, end: Matcher): seq<Span>
    requires FindsIn(from, s) && FindsIn(end, s)
  {
    if select then RegionsOf(TopMatches(s, from), TopMatches(s, end), |s|) else []
  }

  /** No parenthesis encloses position i. */
  ghost predicate IsTop(s: text, i: nat)
    requires i <= |s|
  {
    forall q: nat :: !Encloses(s, q, i)
  }

  lemma DepthZeroExactly(s: text, p: nat)
    requires p <= |s|
    ensures Depth(s, p) == 0 <==> IsTop(s, p)
  {
    hide Encloses, OpenAt;
    var a := OpenAt(s, p);
    forall q: nat ensures q in a <==> Encloses(s, q, p) { OpenIsEnclosing(s, p, q); }
    if a != [] { assert a[0] in a; }
  }

  /** A FROM outside parentheses stands before p, and no keyword that ends its clause stands between, outside
      parentheses, or starts at p. */
  ghost predicate InFromClause(s: text, from: Matcher, end: Matcher, p: nat)
    requires p < |s|
  {
    exists f :: f in from(s) && f.lo <= f.hi <= p && IsTop(s, f.lo) && NoneEnds(s, end, f.hi, p)
  }

  ghost predicate NoneEnds(s: text, end: Matcher, lo: nat, p: nat)
    requires p < |s|
  {
    forall e :: e in end(s) && lo <= e.lo <= p ==> !IsTop(s, e.lo)
  }

  /** The FROM regions are the FROM clauses. */
  lemma FromsExactly(s: text, select: bool, from: Matcher, end: Matcher, p: nat)
    requires p < |s| && FindsIn(from, s) && FindsIn(end, s)
    ensures InSpan(Froms(s, select, from, end), p) <==> select && InFromClause(s, from, end, p)
  {
    hide Depth, IsTop, TopMatches, RegionEnd, NoneEnds;
    var froms := TopMatches(s, from);
    if k :| select && 0 <= k < |froms| && froms[k].hi <= p < RegionEnd(TopMatches(s, end), froms[k].hi, |s|) {
      RegionIsClause(s, from, end, k, p);
    }
    if select && InFromClause(s, from, end, p) {
      var f :| f in from(s) && f.lo <= f.hi <= p && IsTop(s, f.lo) && NoneEnds(s, end, f.hi, p);
      var k := ClauseIsRegion(s, from, end, f, p);
      assert Froms(s, select, from, end)[k].lo <= p < Froms(s, select, from, end)[k].hi;
    }
  }

  lemma TopMatchesAre(s: text, re: Matcher)
    requires FindsIn(re, s)
    ensures forall m :: m in TopMatches(s, re) <==> m in re(s) && m.lo <= m.hi <= |s| && IsTop(s, m.lo)
    ensures Ordered(TopMatches(s, re), |s|)
  {
    hide Depth, TopOf, IsTop;
    TopOfMeaning(s, re(s), |re(s)|);
    assert re(s)[..|re(s)|] == re(s);
    forall m | m in re(s) ensures m.lo <= m.hi <= |s| && (Depth(s, m.lo) == 0 <==> IsTop(s, m.lo)) {
      DepthZeroExactly(s, m.lo);
    }
  }

  lemma RegionIsClause(s: text, from: Matcher, end: Matcher, k: nat, p: nat)
    requires p < |s| && FindsIn(from, s) && FindsIn(end, s) && k < |TopMatches(s, from)|
    requires var f := TopMatches(s, from)[k]; f.hi <= p < RegionEnd(TopMatches(s, end), f.hi, |s|)
    ensures InFromClause(s, from, end, p)
  {
    hide TopMatches, RegionEnd, IsTop, Ordered, FindsIn;
    TopMatchesAre(s, from);
    TopMatchesAre(s, end);
    var f := TopMatches(s, from)[k];
    RegionEndMeaning(TopMatches(s, end), f.hi, |s|);
    MatchesFit(s, end);
    assert f in TopMatches(s, from);
  }

  lemma MatchesFit(s: text, re: Matcher)
    requires FindsIn(re, s)
    ensures forall m :: m in re(s) ==> m.lo <= m.hi <= |s|
  {
  }

  lemma ClauseIsRegion(s: text, from: Matcher, end: Matcher, f: Span, p: nat) returns (k: nat)
    requires p < |s| && FindsIn(from, s) && FindsIn(end, s)
    requires f in from(s) && f.lo <= f.hi <= p && IsTop(s, f.lo) && NoneEnds(s, end, f.hi, p)
    ensures k < |TopMatches(s, from)| && TopMatches(s, from)[k] == f
    ensures p < RegionEnd(TopMatches(s, end), f.hi, |s|)
  {
    hide TopMatches, RegionEnd, IsTop, Ordered, FindsIn;
    TopMatchesAre(s, from);
    TopMatchesAre(s, end);
    RegionEndMeaning(TopMatches(s, end), f.hi, |s|);
    k :| 0 <= k < |TopMatches(s, from)| && TopMatches(s, from)[k] == f;
  }

  /** The "(" at p, which no other encloses, stands in a FROM clause, behind a comma. */
  ghost predicate ListsRows(s: text, from: Matcher, end: Matcher, p: nat)
    requires p < |s|
  {
    IsTop(s, p) && InFromClause(s, from, end, p) && EndsInComma(s[..p])
  }

  /** A row source, in words: only in a SELECT, and behind nothing, a comma of a FROM clause, FROM without DISTINCT,
      JOIN, LATERAL, a set operator, or AS. */
  lemma RowSourceIs(s: text, select: bool, from: Matcher, end: Matcher, p: nat)
    requires p < |s| && FindsIn(from, s) && FindsIn(end, s)
    ensures IsRowSource(s, select, Froms(s, select, from, end), p) <==>
      select &&
      (OnlyGaps(s[..p]) || ListsRows(s, from, end, p) ||
       (Ends(s[..p], ["from"]) && !Ends(s[..p], ["distinct", "from"])) ||
       Ends(s[..p], ["join"]) || Ends(s[..p], ["lateral"]) ||
       EndsInSetOperator(s[..p], "union") || EndsInSetOperator(s[..p], "intersect") ||
       EndsInSetOperator(s[..p], "except") || EndsInAs(s[..p]))
  {
    hide OpensRowSource, Ends, EndsInSetOperator, EndsInAs, EndsInComma, OnlyGaps, Depth, IsTop, InFromClause, Froms,
         InSpan, FindsIn;
    var froms := Froms(s, select, from, end);
    RowSourceExactly(s[..p], Depth(s, p) == 0 && InSpan(froms, p));
    DepthZeroExactly(s, p);
    FromsExactly(s, select, from, end, p);
  }

  // ---- scopedBounds ----

  /** The flags of the parentheses open at i. */
  ghost predicate Tracks(flags: seq<bool>, s: text, select: bool, froms: seq<Span>, i: nat)
    requires i <= |s|
  {
    var a := OpenAt(s, i);
    |flags| == |a| && forall k :: 0 <= k < |a| ==> flags[k] == !IsRowSource(s, select, froms, a[k])
  }

  /** The stack has no flag set exactly where every enclosing parenthesis is a row source. */
  lemma TracksBounding(flags: seq<bool>, s: text, select: bool, froms: seq<Span>, i: nat)
    requires i <= |s| && Tracks(flags, s, select, froms, i)
    ensures CountTrue(flags) == 0 <==> Bounding(s, select, froms, i)
  {
    hide IsRowSource, Encloses, Depth, OpenAt;
    NoneTrue(flags);
    var a := OpenAt(s, i);
    forall p: nat ensures p in a <==> Encloses(s, p, i) { OpenIsEnclosing(s, i, p); }
    assert forall k :: 0 <= k < |a| ==> a[k] in a;
  }

  /** A byte keeps the stack in step. */
  lemma TracksStep(flags: seq<bool>, s: text, select: bool, froms: seq<Span>, i: nat)
    requires i < |s| && Tracks(flags, s, select, froms, i)
    ensures var after :=
        if s[i] == OPEN then flags + [!IsRowSource(s, select, froms, i)]
        else if s[i] == CLOSE && flags != [] then flags[..|flags| - 1]
        else flags;
      Tracks(after, s, select, froms, i + 1)
    ensures |flags| == Depth(s, i)
  {
    hide IsRowSource, Depth;
  }

  /** The matches still to come at i. */
  predicate Pending(ms: seq<Span>, left: seq<Span>, i: nat)
  {
    |left| <= |ms| && left == ms[|ms| - |left|..] &&
    (forall j :: 0 <= j < |ms| - |left| ==> ms[j].lo < i) &&
    forall j :: 0 <= j < |left| ==> i <= left[j].lo
  }

  /** advance: consumes the first match when it starts at i */
  function Advance(locs: seq<Span>, i: nat): (seq<Span>, bool)
  {
    if |locs| > 0 && locs[0].lo == i then (locs[1..], true) else (locs, false)
  }

  lemma AdvancePending(ms: seq<Span>, left: seq<Span>, i: nat, n: nat)
    requires Ordered(ms, n) && Pending(ms, left, i)
    ensures Pending(ms, Advance(left, i).0, i + 1)
  {
    var k := |ms| - |left|;
    if left != [] {
      assert left[0] == ms[k];
      forall j | 0 <= j < |left| - 1 ensures left[1..][j] == ms[k + 1 + j] && left[0].hi <= left[1..][j].lo {
        assert left[j + 1] == ms[k + 1 + j];
      }
    }
  }

  lemma HitIsMatch(ms: seq<Span>, left: seq<Span>, i: nat, n: nat)
    requires Ordered(ms, n) && Pending(ms, left, i)
    ensures Advance(left, i).1 <==> exists m :: m in ms && m.lo == i
  {
    var k := |ms| - |left|;
    if left != [] { assert left[0] == ms[k] && ms[k] in ms; }
    forall m | m in ms && m.lo == i ensures left != [] && left[0].lo == i {
      var j :| 0 <= j < |ms| && ms[j] == m;
      assert left[j - k] == m;
    }
  }

  lemma AdvanceStep(s: text, select: bool, froms: seq<Span>, ms: seq<Span>, left: seq<Span>, i: nat)
    requires i < |s| && Ordered(ms, |s|) && Pending(ms, left, i)
    ensures Pending(ms, Advance(left, i).0, i + 1)
    ensures BoundBefore(s, select, froms, ms, i + 1) <==>
            BoundBefore(s, select, froms, ms, i) || (Advance(left, i).1 && Bounding(s, select, froms, i))
  {
    hide Bounding, Pending, Advance, Ordered;
    AdvancePending(ms, left, i, |s|);
    HitIsMatch(ms, left, i, |s|);
  }

  lemma Finished(s: text, select: bool, froms: seq<Span>, ms: seq<Span>)
    requires Ordered(ms, |s|)
    ensures BoundBefore(s, select, froms, ms, |s|) <==> exists m :: m in ms && Bounding(s, select, froms, m.lo)
    ensures ms == [] ==> !BoundBefore(s, select, froms, ms, |s|)
    ensures !BoundBefore(s, select, froms, ms, 0)
  {
    hide Bounding;
  }

  /** inSpan */
  method FindSpan(spans: seq<Span>, pos: nat) returns (found: bool)
    ensures found <==> InSpan(spans, pos)
  {
    for k := 0 to |spans|
      invariant forall j :: 0 <= j < k ==> !(spans[j].lo <= pos < spans[j].hi)
    {
      if spans[k].lo <= pos < spans[k].hi {
        return true;
      }
    }
    return false;
  }

  /** scopedBounds */
  method ScopedBounds(sanitized: text, select: bool, where: Matcher, limit: Matcher, from: Matcher, end: Matcher)
    returns (hasWhere: bool, hasLimit: bool)
    requires var s := Unwrapped(sanitized);
      FindsIn(where, s) && FindsIn(limit, s) && FindsIn(from, s) && FindsIn(end, s)
    ensures var s := Unwrapped(sanitized);
      var froms := Froms(s, select, from, end);
      (hasWhere <==> exists m :: m in where(s) && Bounding(s, select, froms, m.lo)) &&
      (hasLimit <==> exists m :: m in limit(s) && Bounding(s, select, froms, m.lo))
  {
    hide FindsIn, Unwrapped, Bounding, BoundBefore, Pending, Tracks, Advance, RegionsOf, TopMatches, OpensRowSource;
    var s := UnwrapStatementParens(sanitized);
    FindsOrdered(where, s);
    FindsOrdered(limit, s);
    var wl, ll := where(s), limit(s);
    ghost var fr := Froms(s, select, from, end);
    Finished(s, select, fr, wl);
    Finished(s, select, fr, ll);
    hasWhere, hasLimit := false, false;
    if |wl| == 0 && |ll| == 0 {
      return;
    }
    var froms := [];
    if select {
      froms := FromRegions(s, from, end);
    }
    var sc := new RowScope();
    Start(s, select, froms, wl, ll);
    var i := 0;
    while i < |s|
      invariant i <= |s| && sc.Valid() && Tracks(sc.open, s, select, froms, i)
      invariant Pending(where(s), wl, i) && Pending(limit(s), ll, i)
      invariant hasWhere <==> BoundBefore(s, select, froms, where(s), i)
      invariant hasLimit <==> BoundBefore(s, select, froms, limit(s), i)
      modifies sc
    {
      TracksBounding(sc.open, s, select, froms, i);
      TracksStep(sc.open, s, select, froms, i);
      AdvanceStep(s, select, froms, where(s), wl, i);
      AdvanceStep(s, select, froms, limit(s), ll, i);
      var w := Advance(wl, i);
      wl := w.0;
      if w.1 && sc.nonRow == 0 {
        hasWhere := true;
      }
      var l := Advance(ll, i);
      ll := l.0;
      if l.1 && sc.nonRow == 0 {
        hasLimit := true;
      }
      if s[i] == OPEN {
        var inFrom := FindSpan(froms, i);
        sc.Push(!select || !OpensRowSource(s[..i], |sc.open| == 0 && inFrom));
      } else if s[i] == CLOSE {
        sc.Pop();
      }
      i := i + 1;
    }
  }

  lemma FindsOrdered(re: Matcher, s: text)
    requires FindsIn(re, s)
    ensures Ordered(re(s), |s|)
  {
  }

  lemma Start(s: text, select: bool, froms: seq<Span>, wl: seq<Span>, ll: seq<Span>)
    requires Ordered(wl, |s|) && Ordered(ll, |s|)
    ensures Tracks([], s, select, froms, 0) && Pending(wl, wl, 0) && Pending(ll, ll, 0)
  {
  }

  // ---- consequences ----

  /** Nothing encloses a position exactly where the naive depth is zero. */
  lemma NothingEncloses(s: text, i: nat)
    requires i <= |s|
    ensures Depth(s, i) == 0 <==> forall p :: !Encloses(s, p, i)
  {
    hide Depth, Encloses;
    var a := OpenAt(s, i);
    forall p: nat ensures p in a <==> Encloses(s, p, i) { OpenIsEnclosing(s, i, p); }
    assert |a| > 0 ==> a[0] in a;
  }

  /** For other kinds than SELECT the answer is the top-level one; a top-level keyword always bounds. */
  lemma OutsideParentheses(s: text, select: bool, froms: seq<Span>, i: nat)
    requires i <= |s|
    ensures Depth(s, i) == 0 ==> Bounding(s, select, froms, i)
    ensures !select ==> (Bounding(s, select, froms, i) <==> Depth(s, i) == 0)
  {
    hide Depth, Encloses, OpensRowSource;
    NothingEncloses(s, i);
  }

  /** scopedBounds and hasTopLevelWhere agree on a statement that is not a SELECT. */
  lemma NonSelectIsTopLevel(s: text, froms: seq<Span>, where: Matcher)
    requires FindsIn(where, s)
    ensures (exists m :: m in where(s) && Bounding(s, false, froms, m.lo)) <==>
            exists m :: m in where(s) && Depth(s, m.lo) == 0
  {
    hide Depth, Bounding;
    forall m | m in where(s) ensures Bounding(s, false, froms, m.lo) <==> Depth(s, m.lo) == 0 {
      OutsideParentheses(s, false, froms, m.lo);
    }
  }
}
