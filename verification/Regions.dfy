/** Top-level matches and FROM regions. A regular expression is any function from a text to its matches:
    ascending, not overlapping, not empty, and free of parentheses. */
module Regions {
  import opened Bytes
  import opened Parens
  import opened Spans
  import opened Spelling

  type Matcher = text -> seq<Span>

  predicate ParenFree(s: text, m: Span)
    requires m.hi <= |s|
  {
    forall p :: m.lo <= p < m.hi ==> !IsParen(s[p])
  }

  predicate FindsIn(re: Matcher, s: text)
  {
    Ordered(re(s), |s|) && forall k :: 0 <= k < |re(s)| ==> ParenFree(s, re(s)[k])
  }

  // ---- a keyword between word boundaries is such an expression ----

  predicate IsWordByte(c: byte) { IsLetter(c) || IsDigit(c) || c == UNDERSCORE }

  /** The keyword stands at k, and no word byte touches it. */
  predicate WordAt(s: text, w: text, k: nat)
  {
    k + |w| <= |s| && EqualFold(s[k..k + |w|], w) &&
    (k == 0 || !IsWordByte(s[k - 1])) && (k + |w| == |s| || !IsWordByte(s[k + |w|]))
  }

  function KeywordsFrom(w: text, s: text, k: nat): seq<Span>
    requires w != []
    decreases |s| - k
  {
    if k >= |s| then []
    else if WordAt(s, w, k) then [Span(k, k + |w|)] + KeywordsFrom(w, s, k + |w|)
    else KeywordsFrom(w, s, k + 1)
  }

  lemma {:induction false} KeywordsAreMatches(w: text, s: text, k: nat)
    requires w != [] && forall i :: 0 <= i < |w| ==> IsLetter(w[i])
    ensures var m := KeywordsFrom(w, s, k);
      Ordered(m, |s|) && (forall j :: 0 <= j < |m| ==> k <= m[j].lo) &&
      forall j :: 0 <= j < |m| ==> ParenFree(s, m[j])
    decreases |s| - k
  {
    hide EqualFold;
    if k < |s| {
      if WordAt(s, w, k) {
        KeywordsAreMatches(w, s, k + |w|);
        KeywordParenFree(w, s, k);
      } else {
        KeywordsAreMatches(w, s, k + 1);
      }
    }
  }

  lemma KeywordParenFree(w: text, s: text, k: nat)
    requires WordAt(s, w, k) && forall i :: 0 <= i < |w| ==> IsLetter(w[i])
    ensures ParenFree(s, Span(k, k + |w|))
  {
    forall p | k <= p < k + |w| ensures !IsParen(s[p]) {
      assert s[k..k + |w|][p - k] == s[p] && Lower(s[p]) == Lower(w[p - k]);
    }
  }

  /** The keyword, in any case, from k on, with no letter, digit or "_" before or behind it. */
  ghost predicate KeywordAt(s: text, word: string, k: nat)
  {
    k + |word| <= |s| && Spells(s[k..k + |word|], word) && (k == 0 || !GoesOn(s[k - 1])) &&
    (k + |word| == |s| || !GoesOn(s[k + |word|]))
  }

  /** A byte with which a word goes on. */
  predicate GoesOn(b: byte) { b == 95 || 48 <= b <= 57 || 65 <= b <= 90 || 97 <= b <= 122 }

  /** The matches of a keyword are exactly the places where it stands by itself. */
  lemma {:induction false} KeywordsExactly(w: text, word: string, s: text, k: nat, x: Span)
    requires w != [] && IsSpelling(w, word) && forall i :: 0 <= i < |word| ==> 'a' <= word[i] <= 'z'
    ensures x in KeywordsFrom(w, s, k) <==> k <= x.lo && x.hi == x.lo + |w| && KeywordAt(s, word, x.lo)
    decreases |s| - k
  {
    hide WordAt, KeywordAt;
    if k < |s| {
      WordExactly(w, word, s, k);
      if WordAt(s, w, k) {
        KeywordsExactly(w, word, s, k + |w|, x);
        if k < x.lo < k + |w| && KeywordAt(s, word, x.lo) {
          WordExactly(w, word, s, x.lo);
          OneWordOnly(w, word, s, k, x.lo);
        }
      } else {
        KeywordsExactly(w, word, s, k + 1, x);
      }
    } else {
      if KeywordAt(s, word, x.lo) { KeywordFits(s, word, x.lo); }
    }
  }

  lemma KeywordFits(s: text, word: string, k: nat)
    requires KeywordAt(s, word, k)
    ensures k + |word| <= |s|
  {
  }

  lemma WordExactly(w: text, word: string, s: text, k: nat)
    requires IsSpelling(w, word)
    ensures WordAt(s, w, k) <==> KeywordAt(s, word, k)
  {
    if k + |w| <= |s| { FoldIsSpelling(s[k..k + |w|], w, word); }
  }

  /** A keyword does not start inside another. */
  lemma OneWordOnly(w: text, word: string, s: text, k: nat, m: nat)
    requires WordAt(s, w, k) && k < m < k + |w| && IsSpelling(w, word)
    requires forall i :: 0 <= i < |word| ==> 'a' <= word[i] <= 'z'
    ensures !WordAt(s, w, m)
  {
    assert Lower(s[k..k + |w|][m - 1 - k]) == Lower(w[m - 1 - k]);
    assert s[m - 1] == s[k..k + |w|][m - 1 - k];
  }

  // ---- topLevelMatches ----

  /** The matches that start at depth zero, among the first n. */
  function TopOf(s: text, ms: seq<Span>, n: nat): seq<Span>
    requires n <= |ms| && Ordered(ms, |s|)
  {
    if n == 0 then []
    else TopOf(s, ms, n - 1) + if Depth(s, ms[n - 1].lo) == 0 then [ms[n - 1]] else []
  }

  function TopMatches(s: text, re: Matcher): seq<Span>
    requires FindsIn(re, s)
  {
    TopOf(s, re(s), |re(s)|)
  }

  lemma {:induction false} TopOfMeaning(s: text, ms: seq<Span>, n: nat)
    requires n <= |ms| && Ordered(ms, |s|)
    ensures |TopOf(s, ms, n)| <= n
    ensures forall m :: m in TopOf(s, ms, n) <==> m in ms[..n] && Depth(s, m.lo) == 0
    ensures Ordered(TopOf(s, ms, n), |s|)
  {
    hide Depth;
    TopOfOrdered(s, ms, n);
    if n > 0 {
      TopOfMeaning(s, ms, n - 1);
      assert ms[..n] == ms[..n - 1] + [ms[n - 1]];
      hide Ordered;
    }
  }

  lemma {:induction false} TopOfOrdered(s: text, ms: seq<Span>, n: nat)
    requires n <= |ms| && Ordered(ms, |s|)
    ensures var t := TopOf(s, ms, n);
      Ordered(t, |s|) && forall k :: 0 <= k < |t| && n < |ms| ==> t[k].hi <= ms[n].lo
  {
    hide Depth;
    if n > 0 { TopOfOrdered(s, ms, n - 1); }
  }

  /** The inner loop of topLevelMatches: the depth at hi, from the depth at lo. */
  method AdvanceDepth(s: text, from: nat, lo: nat, to: nat) returns (depth: nat, pos: nat)
    requires lo <= to <= |s| && from == Depth(s, lo)
    ensures pos == to && depth == Depth(s, to)
  {
    depth, pos := from, lo;
    while pos < to
      invariant lo <= pos <= to && depth == Depth(s, pos)
    {
      if s[pos] == OPEN {
        depth := depth + 1;
      } else if s[pos] == CLOSE {
        depth := Max(depth - 1, 0);
      }
      pos := pos + 1;
    }
  }

  /** The loop of topLevelMatches: keeps the top-level matches in place at the front of locs. */
  method KeepTopLevel(s: text, locs: array<Span>) returns (n: nat)
    requires Ordered(locs[..], |s|)
    modifies locs
    ensures n <= locs.Length && locs[..n] == TopOf(s, old(locs[..]), locs.Length)
  {
    hide Depth;
    DepthStart(s);
    ghost var ms := locs[..];
    n := 0;
    var depth, pos := 0, 0;
    for k := 0 to locs.Length
      invariant n <= k
      invariant pos <= |s| && depth == Depth(s, pos)
      invariant k < locs.Length ==> pos <= ms[k].lo
      invariant locs[..n] == TopOf(s, ms, k)
      invariant forall j :: k <= j < locs.Length ==> locs[j] == ms[j]
    {
      var loc := locs[k];
      depth, pos := AdvanceDepth(s, depth, pos, loc.lo);
      if depth == 0 {
        ghost var kept := locs[..n];
        locs[n] := loc;
        n := n + 1;
        assert locs[..n] == kept + [loc];
      }
      assert k + 1 < locs.Length ==> loc.hi <= ms[k + 1].lo;
    }
  }

  /** topLevelMatches */
  method TopLevelMatches(s: text, re: Matcher) returns (out: seq<Span>)
    requires FindsIn(re, s)
    ensures out == TopMatches(s, re)
  {
    var found := re(s);
    var locs := new Span[|found|](i requires 0 <= i < |found| => found[i]);
    assert locs[..] == found;
    var n := KeepTopLevel(s, locs);
    return locs[..n];
  }

  // ---- fromRegions ----

  /** The first end that starts at or after lo, or the end of the text. */
  function RegionEnd(ends: seq<Span>, lo: nat, n: nat): nat
  {
    if ends == [] then n else if ends[0].lo >= lo then ends[0].lo else RegionEnd(ends[1..], lo, n)
  }

  function RegionsOf(froms: seq<Span>, ends: seq<Span>, n: nat): seq<Span>
  {
    seq(|froms|, k requires 0 <= k < |froms| => Span(froms[k].hi, RegionEnd(ends, froms[k].hi, n)))
  }

  /** fromRegions */
  method FromRegions(s: text, from: Matcher, end: Matcher) returns (out: seq<Span>)
    requires FindsIn(from, s) && FindsIn(end, s)
    ensures out == RegionsOf(TopMatches(s, from), TopMatches(s, end), |s|)
  {
    hide TopMatches;
    var ends := TopLevelMatches(s, end);
    var froms := TopLevelMatches(s, from);
    out := [];
    for k := 0 to |froms|
      invariant out == RegionsOf(froms, ends, |s|)[..k]
    {
      var hi := |s|;
      for e := 0 to |ends|
        invariant hi == |s| && RegionEnd(ends, froms[k].hi, |s|) == RegionEnd(ends[e..], froms[k].hi, |s|)
      {
        assert ends[e..][1..] == ends[e + 1..];
        if ends[e].lo >= froms[k].hi {
          hi := ends[e].lo;
          break;
        }
      }
      out := out + [Span(froms[k].hi, hi)];
    }
  }

  /** The end of a region: no end keyword starts inside it, and one starts at its end unless the text ends. */
  lemma {:induction false} RegionEndMeaning(ends: seq<Span>, lo: nat, n: nat)
    requires Ordered(ends, n) && lo <= n
    ensures lo <= RegionEnd(ends, lo, n) <= n
    ensures forall e :: e in ends ==> !(lo <= e.lo < RegionEnd(ends, lo, n))
    ensures RegionEnd(ends, lo, n) == n || exists e :: e in ends && e.lo == RegionEnd(ends, lo, n)
  {
    if ends != [] && ends[0].lo < lo {
      RegionEndMeaning(ends[1..], lo, n);
    } else if ends != [] {
      assert ends[0] in ends;
    }
  }

  /** A region starts behind a top-level FROM, at depth zero: depth in the region is depth in the text, and
      no top-level end keyword starts in it. */
  lemma RegionMeaning(s: text, from: Matcher, end: Matcher, k: nat)
    requires FindsIn(from, s) && FindsIn(end, s)
    requires k < |RegionsOf(TopMatches(s, from), TopMatches(s, end), |s|)|
    ensures var r := RegionsOf(TopMatches(s, from), TopMatches(s, end), |s|)[k];
      r.lo <= r.hi <= |s| &&
      (exists m :: m in from(s) && m.hi == r.lo && Depth(s, m.lo) == 0) &&
      (forall e :: e in end(s) && Depth(s, e.lo) == 0 ==> !(r.lo <= e.lo < r.hi)) &&
      (r.hi == |s| || exists e :: e in end(s) && Depth(s, e.lo) == 0 && e.lo == r.hi) &&
      forall j: nat :: j <= r.hi - r.lo ==> Depth(s[r.lo..r.hi], j) == Depth(s, r.lo + j)
  {
    hide Depth, TopOf, RegionEnd;
    var froms, ends := TopMatches(s, from), TopMatches(s, end);
    TopOfMeaning(s, from(s), |from(s)|);
    TopOfMeaning(s, end(s), |end(s)|);
    assert from(s)[..|from(s)|] == from(s) && end(s)[..|end(s)|] == end(s);
    var m := froms[k];
    assert m in froms;
    var j :| 0 <= j < |from(s)| && from(s)[j] == m;
    assert ParenFree(s, m);
    DepthWithoutParens(s, m.lo, m.hi);
    RegionEndMeaning(ends, m.hi, |s|);
    var hi := RegionEnd(ends, m.hi, |s|);
    forall j: nat | j <= hi - m.hi ensures Depth(s[m.hi..hi], j) == Depth(s, m.hi + j) {
      DepthInSlice(s, m.hi, hi, j);
    }
  }

  // ---- hasTopLevelWhere, hasTopLevelJoin, hasTopLevelOrderBy ----

  /** The loop of hasTopLevelWhere and of its siblings. */
  method HasTopLevel(s: text, re: Matcher) returns (found: bool)
    requires FindsIn(re, s)
    ensures found <==> exists m :: m in re(s) && Depth(s, m.lo) == 0
    ensures found <==> TopMatches(s, re) != []
  {
    hide Depth;
    TopOfMeaning(s, re(s), |re(s)|);
    assert re(s)[..|re(s)|] == re(s);
    for k := 0 to |re(s)|
      invariant forall j :: 0 <= j < k ==> Depth(s, re(s)[j].lo) != 0
    {
      var depth := ParenDepthBefore(s, re(s)[k].lo);
      if depth == 0 {
        assert re(s)[k] in TopMatches(s, re);
        return true;
      }
    }
    NoTop(s, re(s), |re(s)|);
    return false;
  }

  lemma {:induction false} NoTop(s: text, ms: seq<Span>, n: nat)
    requires n <= |ms| && Ordered(ms, |s|) && forall j :: 0 <= j < |ms| ==> Depth(s, ms[j].lo) != 0
    ensures TopOf(s, ms, n) == []
  {
    hide Depth;
    if n > 0 { NoTop(s, ms, n - 1); }
  }
}
