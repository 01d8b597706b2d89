/** unwrapStatementParens: the parentheses around a whole statement. */
module Unwrap {
  import opened Bytes
  import opened Parens
  import opened Tokens

  /** strings.TrimSuffix(t, ";") */
  function TrimSemicolon(t: text): text
  {
    if t != [] && t[|t| - 1] == SEMICOLON then t[..|t| - 1] else t
  }

  /** The statement without white space around it and without its semicolon. */
  function Core(x: text): text { TrimSpace(TrimSemicolon(TrimSpace(x))) }

  /** The first byte is a parenthesis that the last byte closes. */
  predicate Wrapped(s: text)
  {
    s != [] && s[0] == OPEN && ClosesAt(s, 0, |s| - 1) && forall i :: 0 <= i < |s| - 1 ==> !ClosesAt(s, 0, i)
  }

  function Unwrapped(x: text): text
    decreases |x|
  {
    var s := Core(x);
    CoreShrinks(x);
    if Wrapped(s) then Unwrapped(s[1..|s| - 1]) else x
  }

  lemma CoreShrinks(x: text)
    ensures |Core(x)| <= |x|
  {
  }

  /** unwrapStatementParens */
  method UnwrapStatementParens(sanitized: text) returns (result: text)
    ensures result == Unwrapped(sanitized)
  {
    hide TrimSpace, Balance;
    result := sanitized;
    while true
      invariant Unwrapped(result) == Unwrapped(sanitized)
      decreases |result|
    {
      CoreShrinks(result);
      var s := TrimSpace(result);
      s := TrimSpace(TrimSemicolon(s));
      if s == [] || s[0] != OPEN {
        return;
      }
      var close := ParenContent(s, 0);
      if close < 0 || close + 1 != |s| {
        return;
      }
      result := s[1..close];
    }
  }

  /** Unwrapping again changes nothing: no parenthesis around the whole is left. */
  lemma {:induction false} UnwrapIdempotent(x: text)
    ensures !Wrapped(Core(Unwrapped(x)))
    ensures Unwrapped(Unwrapped(x)) == Unwrapped(x)
    decreases |x|
  {
    hide Core;
    CoreShrinks(x);
    var s := Core(x);
    if Wrapped(s) { UnwrapIdempotent(s[1..|s| - 1]); }
  }

  // ---- what is removed ----

  /** How often c occurs in t. */
  function Count(c: byte, t: text): nat
  {
    if t == [] then 0 else (if t[0] == c then 1 else 0) + Count(c, t[1..])
  }

  lemma {:induction false} CountConcat(c: byte, t: text, u: text)
    ensures Count(c, t + u) == Count(c, t) + Count(c, u)
  {
    if t == [] {
      assert t + u == u;
    } else {
      assert (t + u)[1..] == t[1..] + u;
      CountConcat(c, t[1..], u);
    }
  }

  lemma {:induction false} CountNone(c: byte, t: text)
    requires c !in t
    ensures Count(c, t) == 0
  {
    if t != [] { CountNone(c, t[1..]); }
  }

  /** White space and k opening parentheses. */
  ghost predicate Before(t: text, k: nat)
  {
    (forall c :: c in t ==> 9 <= c <= 13 || c == 32 || c == 40) && Count(40, t) == k
  }

  /** White space, semicolons and k closing parentheses. */
  ghost predicate After(t: text, k: nat)
  {
    (forall c :: c in t ==> 9 <= c <= 13 || c == 32 || c == 59 || c == 41) && Count(41, t) == k
  }

  /** x[a..b] is x without k matched parentheses around it, and everything in it is k levels deeper in x. */
  ghost predicate Wraps(x: text, a: nat, b: nat, k: nat)
  {
    a <= b <= |x| && Before(x[..a], k) && After(x[b..], k) &&
    (k > 0 ==> 0 < a && x[a - 1] == 40 && b < |x| && x[b] == 41 && Depth(x[a..b], b - a) == 0) &&
    forall j: nat :: j <= b - a ==> Depth(x, a + j) == k + Depth(x[a..b], j)
  }

  /** The core is a slice; around it stand only white space and a semicolon. */
  lemma CoreSlice(x: text) returns (c: nat, d: nat)
    ensures c <= d <= |x| && Core(x) == x[c..d]
    ensures forall p :: 0 <= p < c ==> IsSpace(x[p])
    ensures forall p :: d <= p < |x| ==> IsSpace(x[p]) || x[p] == SEMICOLON
  {
    hide TrimLeft, TrimRight, TrimSpace;
    var a, b := TrimSlice(x);
    var t := TrimSpace(x);
    var u := TrimSemicolon(t);
    assert u == x[a..a + |u|];
    var e, f := TrimSlice(u);
    c, d := a + e, a + f;
    SliceOfSlice(x, a, a + |u|, e, f);
    assert forall p :: 0 <= p < e ==> u[p] == x[a + p];
    assert forall p :: f <= p < |u| ==> u[p] == x[a + p];
    forall p | 0 <= p < c ensures IsSpace(x[p]) {
      if p >= a { assert x[p] == u[p - a]; }
    }
    forall p | d <= p < |x| ensures IsSpace(x[p]) || x[p] == SEMICOLON {
      if p < a + |u| { assert x[p] == u[p - a]; }
      if a + |u| <= p < b { assert x[p] == t[p - a]; }
    }
  }

  lemma TrimSlice(x: text) returns (a: nat, b: nat)
    ensures a <= b <= |x| && TrimSpace(x) == x[a..b]
    ensures forall p :: 0 <= p < a || b <= p < |x| ==> IsSpace(x[p])
  {
    hide TrimLeft, TrimRight;
    var l := TrimLeft(x, IsSpace);
    var u := TrimRight(l, IsSpace);
    a := |x| - |l|;
    b := a + |u|;
    forall p | b <= p < |x| ensures IsSpace(x[p]) { assert x[p] == l[p - a]; }
  }

  /** Inside the outer parentheses the depth is one more than without them. */
  lemma {:induction false} DepthInside(s: text, j: nat)
    requires Wrapped(s) && j <= |s| - 2
    ensures Depth(s, 1 + j) == Balance(s, 0, 1 + j) >= 1
    ensures Depth(s[1..|s| - 1], j) == Depth(s, 1 + j) - 1
  {
    if j == 0 {
      assert Balance(s, 0, 0) == 0 && Depth(s, 0) == 0;
    } else {
      DepthInside(s, j - 1);
      OpenUntilClosed(s, 0, |s| - 1, 1 + j);
      assert s[1..|s| - 1][j - 1] == s[j];
    }
  }

  lemma OneLevel(x: text, c: nat, d: nat)
    requires c <= d <= |x| && Wrapped(x[c..d])
    requires forall p :: 0 <= p < c ==> IsSpace(x[p])
    requires forall p :: d <= p < |x| ==> IsSpace(x[p]) || x[p] == SEMICOLON
    ensures c + 1 <= d - 1 && Wraps(x, c + 1, d - 1, 1)
  {
    hide Depth, Balance, Count, Wrapped;
    DepthStart(x);
    var s := x[c..d];
    WrappedEnds(s);
    OneLevelText(x, c, d);
    var inner := x[c + 1..d - 1];
    SliceOfSlice(x, c, d, 1, |s| - 1);
    DepthWithoutParens(x, 0, c);
    forall j: nat | j <= |inner| ensures Depth(x, c + 1 + j) == 1 + Depth(inner, j) {
      DepthInSlice(x, c, d, 1 + j);
      DepthInside(s, j);
    }
    DepthInside(s, |s| - 2);
  }

  lemma WrappedEnds(s: text)
    requires Wrapped(s)
    ensures |s| >= 2 && s[0] == OPEN && s[|s| - 1] == CLOSE && Balance(s, 0, |s| - 1) == 1
  {
  }

  lemma OneLevelText(x: text, c: nat, d: nat)
    requires c + 2 <= d <= |x| && x[c] == OPEN && x[d - 1] == CLOSE
    requires forall p :: 0 <= p < c ==> IsSpace(x[p])
    requires forall p :: d <= p < |x| ==> IsSpace(x[p]) || x[p] == SEMICOLON
    ensures Before(x[..c + 1], 1) && After(x[d - 1..], 1)
  {
    assert x[..c + 1] == x[..c] + [OPEN] && x[d - 1..] == [CLOSE] + x[d..];
    CountConcat(OPEN, x[..c], [OPEN]);
    CountNone(OPEN, x[..c]);
    CountNone(CLOSE, x[d..]);
  }

  /** Levels add up. */
  lemma TwoLevels(x: text, a: nat, b: nat, k: nat, e: nat, f: nat, m: nat)
    requires Wraps(x, a, b, k) && Wraps(x[a..b], e, f, m)
    requires m == 0 ==> e == 0 && f == b - a
    ensures a + f <= |x| && x[a..b][e..f] == x[a + e..a + f] && Wraps(x, a + e, a + f, k + m)
  {
    hide Depth, Count;
    var u := x[a..b];
    SliceOfSlice(x, a, b, e, f);
    assert x[..a + e] == x[..a] + u[..e] && x[a + f..] == u[f..] + x[b..];
    CountConcat(OPEN, x[..a], u[..e]);
    CountConcat(CLOSE, u[f..], x[b..]);
    forall j: nat | j <= f - e ensures Depth(x, a + e + j) == k + m + Depth(u[e..f], j) {
      assert Depth(x, a + (e + j)) == k + Depth(u, e + j);
    }
  }

  /** Unwrapping removes white space, semicolons and k matched parentheses around one slice, and moves
      every depth by k. */
  lemma {:induction false} UnwrapShape(x: text) returns (a: nat, b: nat, k: nat)
    ensures Wraps(x, a, b, k) && Unwrapped(x) == x[a..b]
    ensures k == 0 ==> a == 0 && b == |x|
    decreases |x|
  {
    hide Core, Wraps, Wrapped;
    var c, d := CoreSlice(x);
    var s := Core(x);
    if Wrapped(s) {
      OneLevel(x, c, d);
      var inner := x[c + 1..d - 1];
      SliceOfSlice(x, c, d, 1, |s| - 1);
      var e, f, m := UnwrapShape(inner);
      TwoLevels(x, c + 1, d - 1, 1, e, f, m);
      a, b, k := c + 1 + e, c + 1 + f, 1 + m;
    } else {
      a, b, k := 0, |x|, 0;
      assert x[0..|x|] == x;
      NoLevel(x);
    }
  }

  lemma NoLevel(x: text)
    ensures Wraps(x, 0, |x|, 0)
  {
    hide Depth;
    assert x[0..|x|] == x && x[..0] == [] && x[|x|..] == [];
  }

  // ---- adding parentheses ----

  lemma {:induction false} BalanceInside(s: text, j: nat)
    requires j <= |s|
    ensures Balance([OPEN] + s + [CLOSE], 0, 1 + j) == 1 + Balance(s, 0, j)
  {
    var t := [OPEN] + s + [CLOSE];
    if j == 0 {
      assert Balance(t, 0, 0) == 0 && Balance(s, 0, 0) == 0;
    } else {
      BalanceInside(s, j - 1);
      assert t[j] == s[j - 1];
    }
  }

  predicate OnlyWhite(t: text) { forall i :: 0 <= i < |t| ==> IsWhite(t[i]) }

  /** A balanced statement in parentheses is read like the bare one, with white space around them and a semicolon. */
  lemma ParenthesesDoNotMatter(s: text, before: text, behind: text, semicolon: bool, after: text)
    requires Balance(s, 0, |s|) == 0 && forall j: nat :: j <= |s| ==> Balance(s, 0, j) >= 0
    requires OnlyWhite(before) && OnlyWhite(behind) && OnlyWhite(after)
    ensures Unwrapped(before + ([40] + s + [41]) + behind + (if semicolon then [59] else []) + after) == Unwrapped(s)
  {
    hide Balance, Core, Wrapped, OnlyWhite;
    var t := [OPEN] + s + [CLOSE];
    CoreOfParens(t, before, behind, semicolon, after);
    AroundIsWrapped(s);
    assert t[1..|t| - 1] == s;
  }

  lemma CoreOfParens(t: text, before: text, behind: text, semicolon: bool, after: text)
    requires t != [] && t[0] == OPEN && t[|t| - 1] == CLOSE
    requires OnlyWhite(before) && OnlyWhite(behind) && OnlyWhite(after)
    ensures Core(before + t + behind + (if semicolon then [59] else []) + after) == t
  {
    hide TrimSpace;
    if semicolon {
      var u := t + behind + [59];
      assert before + t + behind + [59] + after == before + u + after;
      TrimAround(before, u, after);
      assert u[..|u| - 1] == [] + t + behind;
      TrimAround([], t, behind);
    } else {
      assert before + t + behind + [] + after == before + t + (behind + after);
      TrimAround(before, t, behind + after);
      assert t == [] + t + [];
      TrimAround([], t, []);
    }
  }

  lemma TrimAround(before: text, t: text, after: text)
    requires OnlyWhite(before) && OnlyWhite(after) && t != []
    requires !IsWhite(t[0]) && !IsWhite(t[|t| - 1])
    ensures TrimSpace(before + t + after) == t
  {
    hide OnlyWhite;
    assert before + t + after == before + (t + after);
    TrimBefore(before, t + after);
    TrimBehind(t, after);
  }

  lemma TrimBefore(before: text, t: text)
    requires OnlyWhite(before) && t != [] && !IsWhite(t[0])
    ensures TrimLeft(before + t, IsSpace) == t
  {
    var x, n := before + t, |before|;
    var u := TrimLeft(x, IsSpace);
    hide TrimLeft;
    assert x[n] == t[0] && forall p :: 0 <= p < n ==> x[p] == before[p];
    assert |x| - |u| == n && x[n..] == t;
  }

  lemma TrimBehind(t: text, after: text)
    requires OnlyWhite(after) && t != [] && !IsWhite(t[|t| - 1])
    ensures TrimRight(t + after, IsSpace) == t
  {
    var x := t + after;
    var u := TrimRight(x, IsSpace);
    hide TrimRight;
    assert x[|t| - 1] == t[|t| - 1] && forall p :: |t| <= p < |x| ==> x[p] == after[p - |t|];
    assert |u| == |t| && x[..|t|] == t;
  }

  lemma AroundIsWrapped(s: text)
    requires Balance(s, 0, |s|) == 0 && forall j: nat :: j <= |s| ==> Balance(s, 0, j) >= 0
    ensures Wrapped([OPEN] + s + [CLOSE])
  {
    hide Balance;
    var t := [OPEN] + s + [CLOSE];
    BalanceInside(s, |s|);
    ClosedByLast(t);
    forall i | 0 <= i < |t| - 1 ensures !ClosesAt(t, 0, i) {
      BalanceInside(s, i);
    }
  }

  lemma ClosedByLast(t: text)
    requires t != [] && t[|t| - 1] == CLOSE && Balance(t, 0, |t| - 1) == 1
    ensures ClosesAt(t, 0, |t| - 1)
  {
  }
}
