/** Parenthesis depth in the fallback parser: the naive count, and the one-pass cutting built on it. */
module Parens {
  import opened Bytes

  predicate IsParen(c: byte) { c == OPEN || c == CLOSE }

  /** Depth after one more byte; a ")" with nothing open is ignored. */
  function Step(depth: nat, c: byte): nat
  {
    if c == OPEN then depth + 1 else if c == CLOSE && depth > 0 then depth - 1 else depth
  }

  /** The number of unmatched "(" before idx. */
  function Depth(s: text, idx: nat): nat
    requires idx <= |s|
  {
    if idx == 0 then 0 else Step(Depth(s, idx - 1), s[idx - 1])
  }

  lemma DepthStart(s: text)
    ensures Depth(s, 0) == 0
  {
  }

  /** parenDepthBefore */
  method ParenDepthBefore(s: text, idx: nat) returns (depth: nat)
    requires idx <= |s|
    ensures depth == Depth(s, idx)
  {
    depth := 0;
    for i := 0 to idx
      invariant depth == Depth(s, i)
    {
      if s[i] == OPEN {
        depth := depth + 1;
      } else if s[i] == CLOSE {
        if depth > 0 {
          depth := depth - 1;
        }
      }
    }
  }

  /** A slice that starts at depth zero sees the depths of the whole text. */
  lemma {:induction false} DepthInSlice(s: text, lo: nat, hi: nat, j: nat)
    requires lo <= hi <= |s| && j <= hi - lo && Depth(s, lo) == 0
    ensures Depth(s[lo..hi], j) == Depth(s, lo + j)
  {
    if j > 0 {
      DepthInSlice(s, lo, hi, j - 1);
      assert s[lo..hi][j - 1] == s[lo + j - 1];
    }
  }

  lemma {:induction false} DepthWithoutParens(s: text, lo: nat, hi: nat)
    requires lo <= hi <= |s| && forall p :: lo <= p < hi ==> !IsParen(s[p])
    ensures Depth(s, hi) == Depth(s, lo)
  {
    if lo < hi { DepthWithoutParens(s, lo, hi - 1); }
  }

  // ---- balance, and what encloses a position ----

  /** "(" minus ")" in s[p..j]. */
  function Balance(s: text, p: nat, j: nat): int
    requires j <= |s|
    decreases j
  {
    if j <= p then 0
    else Balance(s, p, j - 1) + (if s[j - 1] == OPEN then 1 else if s[j - 1] == CLOSE then -1 else 0)
  }

  /** The "(" at p is still open at i. */
  ghost predicate Encloses(s: text, p: nat, i: nat)
    requires i <= |s|
  {
    p < i && s[p] == OPEN && forall j :: p < j <= i ==> Balance(s, p, j) >= 1
  }

  /** The positions of the parentheses open at i, outermost first. */
  function OpenAt(s: text, i: nat): (a: seq<nat>)
    requires i <= |s|
    ensures |a| == Depth(s, i)
    ensures forall k :: 0 <= k < |a| ==> a[k] < i && s[a[k]] == OPEN
  {
    if i == 0 then []
    else
      var a := OpenAt(s, i - 1);
      if s[i - 1] == OPEN then a + [i - 1] else if s[i - 1] == CLOSE && a != [] then a[..|a| - 1] else a
  }

  lemma {:induction false} OpenBalance(s: text, i: nat)
    requires i <= |s|
    ensures forall k :: 0 <= k < |OpenAt(s, i)| ==> Balance(s, OpenAt(s, i)[k], i) == |OpenAt(s, i)| - k
  {
    if i > 0 {
      OpenBalance(s, i - 1);
      var a, b := OpenAt(s, i - 1), OpenAt(s, i);
      forall k | 0 <= k < |b| ensures Balance(s, b[k], i) == |b| - k {
        if k < |a| {
          assert b[k] == a[k];
        } else {
          assert b[k] == i - 1 && Balance(s, i - 1, i - 1) == 0;
        }
      }
    }
  }

  /** The stack holds exactly the parentheses that enclose the position. */
  lemma {:induction false} OpenIsEnclosing(s: text, i: nat, p: nat)
    requires i <= |s|
    ensures p in OpenAt(s, i) <==> Encloses(s, p, i)
  {
    hide Depth;
    if i > 0 {
      OpenIsEnclosing(s, i - 1, p);
      OpenBalance(s, i);
      OpenBalance(s, i - 1);
      EnclosesStep(s, p, i);
      OpenStep(s, i, p);
    }
  }

  lemma EnclosesStep(s: text, p: nat, i: nat)
    requires 0 < i <= |s|
    ensures Encloses(s, p, i) <==>
            (p == i - 1 && s[p] == OPEN) || (Encloses(s, p, i - 1) && Balance(s, p, i) >= 1)
  {
    hide Depth;
    if p == i - 1 { assert Balance(s, p, p) == 0; }
    if Encloses(s, p, i) { assert p < i - 1 ==> Encloses(s, p, i - 1); }
  }

  /** A position stays on the stack as long as its balance does not drop to zero. */
  lemma OpenStep(s: text, i: nat, p: nat)
    requires 0 < i <= |s|
    requires var a := OpenAt(s, i - 1);
      forall k :: 0 <= k < |a| ==> Balance(s, a[k], i - 1) == |a| - k
    ensures p in OpenAt(s, i) <==> (p == i - 1 && s[p] == OPEN) || (p in OpenAt(s, i - 1) && Balance(s, p, i) >= 1)
  {
    hide Depth;
    var a, b := OpenAt(s, i - 1), OpenAt(s, i);
    if p in a {
      var k :| 0 <= k < |a| && a[k] == p;
      assert k < |b| ==> b[k] == p;
      if s[i - 1] == CLOSE && k == |a| - 1 { NotBefore(s, a, i - 1, p); }
    }
    if p in b && p !in a {
      var k :| 0 <= k < |b| && b[k] == p;
      assert k == |a|;
    }
    assert s[i - 1] == OPEN ==> b[|a|] == i - 1;
  }

  lemma NotBefore(s: text, a: seq<nat>, i: nat, p: nat)
    requires i <= |s| && a != [] && a[|a| - 1] == p
    requires forall k :: 0 <= k < |a| ==> Balance(s, a[k], i) == |a| - k
    ensures p !in a[..|a| - 1]
  {
    assert forall k :: 0 <= k < |a| - 1 ==> a[..|a| - 1][k] == a[k] != p;
  }

  // ---- parenContent ----

  /** Where the parenthesis that open starts is closed: the first ")" that brings the balance to zero. */
  predicate ClosesAt(s: text, open: nat, i: nat)
  {
    open <= i < |s| && s[i] == CLOSE && Balance(s, open, i + 1) == 0
  }

  /** parenContent, as the index of the closing parenthesis, or -1 */
  method ParenContent(s: text, open: nat) returns (close: int)
    ensures close >= 0 ==> ClosesAt(s, open, close) && forall i :: open <= i < close ==> !ClosesAt(s, open, i)
    ensures close < 0 ==> forall i :: !ClosesAt(s, open, i)
  {
    var depth := 0;
    var i := open;
    while i < |s|
      invariant open <= i && (i <= |s| || i == open)
      invariant i <= |s| ==> depth == Balance(s, open, i)
      invariant forall j :: open <= j < i ==> !ClosesAt(s, open, j)
    {
      if s[i] == OPEN {
        depth := depth + 1;
      } else if s[i] == CLOSE {
        depth := depth - 1;
        if depth == 0 {
          return i;
        }
      }
      i := i + 1;
    }
    return -1;
  }

  /** Up to its close the parenthesis stays open, and the text between is balanced. */
  lemma {:induction false} OpenUntilClosed(s: text, open: nat, close: nat, j: nat)
    requires open < j <= close < |s| && s[open] == OPEN
    requires forall i :: open <= i < close ==> !ClosesAt(s, open, i)
    ensures Balance(s, open, j) >= 1
  {
    if j == open + 1 {
      assert Balance(s, open, open) == 0;
    } else {
      OpenUntilClosed(s, open, close, j - 1);
      assert !ClosesAt(s, open, j - 1);
    }
  }

  // ---- splitTopLevelCommas ----

  predicate CutsAt(s: text, i: nat) { i < |s| && s[i] == COMMA && Depth(s, i) == 0 }

  /** The commas from i on that lie outside all parentheses. */
  function TopCommas(s: text, i: nat): (cuts: seq<nat>)
    requires i <= |s|
    ensures forall k :: 0 <= k < |cuts| ==> i <= cuts[k] && CutsAt(s, cuts[k])
    ensures forall j, k :: 0 <= j < k < |cuts| ==> cuts[j] < cuts[k]
    decreases |s| - i
  {
    if i == |s| then [] else (if CutsAt(s, i) then [i] else []) + TopCommas(s, i + 1)
  }

  /** The pieces of s[start..], when no comma in start..i cuts. */
  function Pieces(s: text, start: nat, i: nat): (p: seq<text>)
    requires start <= i <= |s|
    ensures p != []
    decreases |s| - i
  {
    if i == |s| then [s[start..]]
    else if CutsAt(s, i) then [s[start..i]] + Pieces(s, i + 1, i + 1)
    else Pieces(s, start, i + 1)
  }

  lemma PiecesStep(segs: seq<text>, s: text, start: nat, i: nat)
    requires start <= i < |s|
    ensures segs + Pieces(s, start, i) ==
      if CutsAt(s, i) then segs + [s[start..i]] + Pieces(s, i + 1, i + 1) else segs + Pieces(s, start, i + 1)
  {
    hide Depth;
    assert segs + ([s[start..i]] + Pieces(s, i + 1, i + 1)) == segs + [s[start..i]] + Pieces(s, i + 1, i + 1);
  }

  /** splitTopLevelCommas */
  method SplitTopLevelCommas(s: text) returns (segs: seq<text>)
    ensures segs == Pieces(s, 0, 0)
  {
    hide Pieces;
    segs := [];
    var depth, start := 0, 0;
    for i := 0 to |s|
      invariant depth == Depth(s, i)
      invariant start <= i
      invariant segs + Pieces(s, start, i) == Pieces(s, 0, 0)
    {
      PiecesStep(segs, s, start, i);
      if s[i] == OPEN {
        depth := depth + 1;
      } else if s[i] == CLOSE {
        if depth > 0 {
          depth := depth - 1;
        }
      } else if s[i] == COMMA {
        if depth == 0 {
          segs := segs + [s[start..i]];
          start := i + 1;
        }
      }
    }
    LastPiece(s, start);
    segs := segs + [s[start..]];
  }

  lemma LastPiece(s: text, start: nat)
    requires start <= |s|
    ensures Pieces(s, start, |s|) == [s[start..]]
  {
  }

  /** Where the piece with this number starts, for cuts at these commas. */
  function PieceLo(start: nat, cuts: seq<nat>, k: nat): nat
    requires k <= |cuts|
  {
    if k == 0 then start else cuts[k - 1] + 1
  }

  function PieceHi(end: nat, cuts: seq<nat>, k: nat): nat
    requires k <= |cuts|
  {
    if k < |cuts| then cuts[k] else end
  }

  predicate IsPiece(s: text, start: nat, cuts: seq<nat>, k: nat, piece: text)
    requires k <= |cuts|
  {
    PieceLo(start, cuts, k) <= PieceHi(|s|, cuts, k) <= |s| &&
    piece == s[PieceLo(start, cuts, k)..PieceHi(|s|, cuts, k)]
  }

  lemma PieceShift(s: text, start: nat, i: nat, rest: seq<nat>, k: nat, piece: text)
    requires 0 < k <= |rest| + 1
    ensures IsPiece(s, start, [i] + rest, k, piece) == IsPiece(s, i + 1, rest, k - 1, piece)
  {
  }

  lemma PiecesShift(s: text, start: nat, i: nat, rest: seq<nat>, p: seq<text>)
    requires start <= i < |s| && |p| == |rest| + 1
    requires forall k :: 0 <= k < |p| ==> IsPiece(s, i + 1, rest, k, p[k])
    ensures var cuts, q := [i] + rest, [s[start..i]] + p;
      forall k :: 0 <= k < |q| ==> IsPiece(s, start, cuts, k, q[k])
  {
    var cuts, q := [i] + rest, [s[start..i]] + p;
    assert IsPiece(s, start, cuts, 0, q[0]);
    hide IsPiece;
    forall k | 0 < k < |q| ensures IsPiece(s, start, cuts, k, q[k]) {
      PieceShift(s, start, i, rest, k, p[k - 1]);
    }
  }

  lemma LastIsPiece(s: text, start: nat)
    requires start <= |s|
    ensures IsPiece(s, start, [], 0, s[start..])
  {
  }

  /** The text is cut at every comma outside parentheses, and nowhere else. */
  lemma {:induction false} CutsExactly(s: text, start: nat, i: nat)
    requires start <= i <= |s|
    ensures var cuts, p := TopCommas(s, i), Pieces(s, start, i);
      |p| == |cuts| + 1 && forall k :: 0 <= k < |p| ==> IsPiece(s, start, cuts, k, p[k])
    decreases |s| - i
  {
    hide CutsAt, IsPiece;
    if i == |s| {
      LastIsPiece(s, start);
    } else {
      if CutsAt(s, i) {
        CutsExactly(s, i + 1, i + 1);
        PiecesShift(s, start, i, TopCommas(s, i + 1), Pieces(s, i + 1, i + 1));
      } else {
        CutsExactly(s, start, i + 1);
        assert [] + TopCommas(s, i + 1) == TopCommas(s, i + 1);
      }
    }
  }

  lemma {:induction false} EveryTopComma(s: text, i: nat, c: nat)
    requires i <= c && CutsAt(s, c)
    ensures c in TopCommas(s, i)
    decreases c - i
  {
    hide Depth;
    if i < c { EveryTopComma(s, i + 1, c); }
  }

  /** The pieces with a comma between them. */
  function WithCommas(p: seq<text>): text
    requires p != []
  {
    if |p| == 1 then p[0] else p[0] + [COMMA] + WithCommas(p[1..])
  }

  /** Joining the pieces restores the text. */
  lemma {:induction false} SplitJoins(s: text, start: nat, i: nat)
    requires start <= i <= |s|
    ensures WithCommas(Pieces(s, start, i)) == s[start..]
    decreases |s| - i
  {
    hide Depth;
    if i < |s| {
      if CutsAt(s, i) {
        SplitJoins(s, i + 1, i + 1);
        var rest := Pieces(s, i + 1, i + 1);
        assert ([s[start..i]] + rest)[1..] == rest;
        assert s[start..i] + [COMMA] + s[i + 1..] == s[start..];
      } else {
        SplitJoins(s, start, i + 1);
      }
    }
  }

  /** Text without a comma of its own outside parentheses is one piece. */
  lemma {:induction false} OnePiece(s: text, start: nat, i: nat)
    requires start <= i <= |s| && forall c :: i <= c ==> !CutsAt(s, c)
    ensures Pieces(s, start, i) == [s[start..]]
    decreases |s| - i
  {
    hide Depth;
    if i < |s| { OnePiece(s, start, i + 1); }
  }

  /** Splitting a piece again gives the piece. */
  lemma {:induction false} PiecesAreWhole(s: text, start: nat, i: nat)
    requires start <= i <= |s| && Depth(s, start) == 0
    requires forall c :: start <= c < i ==> !CutsAt(s, c)
    ensures forall p :: p in Pieces(s, start, i) ==> Pieces(p, 0, 0) == [p]
    decreases |s| - i
  {
    hide Depth;
    if i == |s| || CutsAt(s, i) {
      PieceIsWhole(s, start, i);
      if i < |s| {
        DepthAfterComma(s, i);
        PiecesAreWhole(s, i + 1, i + 1);
      } else {
        assert s[start..|s|] == s[start..];
      }
    } else {
      PiecesAreWhole(s, start, i + 1);
    }
  }

  lemma DepthAfterComma(s: text, i: nat)
    requires CutsAt(s, i)
    ensures Depth(s, i + 1) == 0
  {
  }

  lemma PieceIsWhole(s: text, lo: nat, hi: nat)
    requires lo <= hi <= |s| && Depth(s, lo) == 0
    requires forall c :: lo <= c < hi ==> !CutsAt(s, c)
    ensures Pieces(s[lo..hi], 0, 0) == [s[lo..hi]]
  {
    hide Depth, Pieces;
    var p := s[lo..hi];
    forall c: nat ensures !CutsAt(p, c) {
      if c < |p| { DepthInSlice(s, lo, hi, c); assert !CutsAt(s, lo + c); }
    }
    OnePiece(p, 0, 0);
    assert p[0..] == p;
  }
}
