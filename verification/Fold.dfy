/** foldRedacted: white space collapsed, placeholder lists folded, a trailing ";" trimmed. */
module Fold {
  import opened Bytes

  // ---- strings.Join(strings.Fields(t), " ") ----

  /** The length of the word t starts with. */
  function WordLen(t: text): (n: nat)
    ensures n <= |t| && (t != [] && !IsSpace(t[0]) ==> n > 0) && (n < |t| ==> IsSpace(t[n]))
  {
    if t == [] || IsSpace(t[0]) then 0 else 1 + WordLen(t[1..])
  }

  function Fields(t: text): seq<text>
    decreases |t|
  {
    var u := TrimLeft(t, IsSpace);
    if u == [] then [] else [u[..WordLen(u)]] + Fields(u[WordLen(u)..])
  }

  function JoinWords(ws: seq<text>): text
  {
    if ws == [] then [] else if |ws| == 1 then ws[0] else ws[0] + [SPACE] + JoinWords(ws[1..])
  }

  // ---- fpListRe: "(?" then one or more of "," or ", " and "?", then ")" ----

  /** Where a list whose items are done at k ends: past its ")" at or after k, or 0. */
  function ListEnd(t: text, k: nat): (e: nat)
    ensures e == 0 || k < e <= |t|
    decreases |t| - k
  {
    if k >= |t| then 0
    else if t[k] == CLOSE then k + 1
    else if t[k] == COMMA && k + 1 < |t| && t[k + 1] == QUESTION then ListEnd(t, k + 2)
    else if t[k] == COMMA && k + 2 < |t| && t[k + 1] == SPACE && t[k + 2] == QUESTION then ListEnd(t, k + 3)
    else 0
  }

  /** The length of the match of fpListRe at i, or 0. */
  function ListLen(t: text, i: nat): (n: nat)
    ensures n == 0 || (4 <= n && i + n <= |t| && t[i] == OPEN)
  {
    if i + 2 < |t| && t[i] == OPEN && t[i + 1] == QUESTION && t[i + 2] == COMMA && ListEnd(t, i + 2) > 0
    then ListEnd(t, i + 2) - i else 0
  }

  const FOLDED: text := [OPEN, QUESTION, CLOSE]

  /** ReplaceAllString(t, "(?)"), from i on. */
  function FoldFrom(t: text, i: nat): text
    requires i <= |t|
    decreases |t| - i
  {
    if i == |t| then []
    else if ListLen(t, i) > 0 then FOLDED + FoldFrom(t, i + ListLen(t, i))
    else [t[i]] + FoldFrom(t, i + 1)
  }

  predicate IsTrailing(c: byte) { c == SEMICOLON || c == SPACE }

  /** foldRedacted */
  function FoldRedacted(t: text): text
  {
    TrimRight(FoldFrom(JoinWords(Fields(t)), 0), IsTrailing)
  }

  // ---- collapsing white space ----

  /** Joining the fields, one byte at a time: started tells whether a word came before, gap whether
      white space did since. */
  function Collapse(t: text, started: bool, gap: bool): text
  {
    if t == [] then []
    else if IsSpace(t[0]) then Collapse(t[1..], started, true)
    else (if started && gap then [SPACE] else []) + [t[0]] + Collapse(t[1..], true, false)
  }

  lemma {:induction false} CollapseTrims(t: text, started: bool, gap: bool)
    ensures var u := TrimLeft(t, IsSpace);
            Collapse(t, started, gap) == Collapse(u, started, gap || u != t)
  {
    if t != [] && IsSpace(t[0]) {
      CollapseTrims(t[1..], started, true);
      assert TrimLeft(t, IsSpace) != t;
    }
  }

  lemma {:induction false} CollapseWord(t: text, n: nat)
    requires n == WordLen(t)
    ensures Collapse(t, true, false) == t[..n] + Collapse(t[n..], true, false)
  {
    if n > 0 {
      CollapseWord(t[1..], n - 1);
      assert t[..n] == [t[0]] + t[1..][..n - 1];
      assert t[n..] == t[1..][n - 1..];
    }
  }

  lemma {:induction false} FieldsCollapse(t: text, started: bool)
    ensures Collapse(t, started, started) ==
            (if started && Fields(t) != [] then [SPACE] else []) + JoinWords(Fields(t))
    decreases |t|
  {
    var u := TrimLeft(t, IsSpace);
    CollapseTrims(t, started, started);
    if u != [] {
      var n := WordLen(u);
      var w, rest := u[..n], u[n..];
      WordThenGap(u, n);
      FieldsCollapse(rest, true);
      FirstWord(u, started, w, Collapse(rest, true, true));
      assert Fields(t) == [w] + Fields(rest);
      WordsJoined(w, Fields(rest));
    }
  }

  lemma WordThenGap(u: text, n: nat)
    requires u != [] && !IsSpace(u[0]) && n == WordLen(u)
    ensures Collapse(u[1..], true, false) == u[..n][1..] + Collapse(u[n..], true, true)
  {
    assert u[1..][..n - 1] == u[..n][1..] && u[1..][n - 1..] == u[n..];
    CollapseWord(u[1..], n - 1);
    GapBefore(u[n..]);
  }

  lemma WordsJoined(w: text, ws: seq<text>)
    ensures JoinWords([w] + ws) == w + ((if ws != [] then [SPACE] else []) + JoinWords(ws))
  {
    assert ([w] + ws)[1..] == ws;
  }

  /** After a word the text is over or goes on with white space. */
  lemma GapBefore(rest: text)
    requires rest == [] || IsSpace(rest[0])
    ensures Collapse(rest, true, false) == Collapse(rest, true, true)
  {
  }

  lemma FirstWord(u: text, started: bool, w: text, tail: text)
    requires u != [] && !IsSpace(u[0]) && w != [] && w[0] == u[0]
    requires Collapse(u[1..], true, false) == w[1..] + tail
    ensures Collapse(u, started, started) == (if started then [SPACE] else []) + (w + tail)
    ensures !started ==> Collapse(u, started, true) == w + tail
  {
    assert w == [u[0]] + w[1..];
    assert [u[0]] + (w[1..] + tail) == w + tail;
  }

  lemma JoinedFields(t: text)
    ensures JoinWords(Fields(t)) == Collapse(t, false, false)
  {
    FieldsCollapse(t, false);
  }

  /** Where Collapse stands after a: whether a word came, and white space since. */
  function After(a: text, started: bool, gap: bool): (bool, bool)
  {
    if a == [] then (started, gap)
    else if IsSpace(a[0]) then After(a[1..], started, true)
    else After(a[1..], true, false)
  }

  lemma {:induction false} CollapseConcat(a: text, b: text, started: bool, gap: bool)
    ensures Collapse(a + b, started, gap) ==
            Collapse(a, started, gap) + Collapse(b, After(a, started, gap).0, After(a, started, gap).1)
  {
    if a == [] {
      assert a + b == b;
    } else {
      assert (a + b)[1..] == a[1..] + b;
      if IsSpace(a[0]) { CollapseConcat(a[1..], b, started, true); } else { CollapseConcat(a[1..], b, true, false); }
    }
  }

  /** White space only as single spaces between other bytes; may says whether one may stand first. */
  predicate Tidy(t: text, may: bool)
  {
    t == [] ||
    if IsSpace(t[0]) then t[0] == SPACE && may && t[1..] != [] && Tidy(t[1..], false)
    else Tidy(t[1..], true)
  }

  lemma {:induction false} CollapseIsTidy(t: text, started: bool, gap: bool)
    ensures Tidy(Collapse(t, started, gap), started)
  {
    if t != [] {
      if IsSpace(t[0]) {
        CollapseIsTidy(t[1..], started, true);
      } else {
        CollapseIsTidy(t[1..], true, false);
        var v := Collapse(t[1..], true, false);
        var u := [t[0]] + v;
        assert u[1..] == v;
        assert ([SPACE] + u)[1..] == u;
        assert [SPACE] + [t[0]] + v == [SPACE] + u && [] + [t[0]] + v == u;
      }
    }
  }

  lemma {:induction false} TidyStays(t: text, started: bool)
    requires Tidy(t, started)
    ensures Collapse(t, started, false) == t
  {
    if t != [] {
      if IsSpace(t[0]) {
        var u := t[1..];
        TidyStays(u[1..], true);
        assert Collapse(u, true, true) == [SPACE] + [u[0]] + u[1..];
      } else {
        TidyStays(t[1..], true);
      }
    }
  }

  lemma {:induction false} TidyDrop(t: text, k: nat, may: bool)
    requires Tidy(t, may) && 0 < k <= |t| && !IsSpace(t[k - 1])
    ensures Tidy(t[k..], true)
  {
    if k > 1 {
      TidyDrop(t[1..], k - 1, !IsSpace(t[0]));
      assert t[1..][k - 1..] == t[k..];
    }
  }

  lemma {:induction false} TidyPrefix(t: text, n: nat, may: bool)
    requires Tidy(t, may) && n <= |t| && (n > 0 ==> !IsSpace(t[n - 1]))
    ensures Tidy(t[..n], may)
  {
    if n > 0 {
      TidyPrefix(t[1..], n - 1, !IsSpace(t[0]));
      assert t[..n][1..] == t[1..][..n - 1];
    }
  }

  // ---- folding lists ----

  predicate NoLists(t: text) { forall i :: 0 <= i < |t| ==> ListLen(t, i) == 0 }

  predicate IsListByte(c: byte) { c == QUESTION || c == COMMA || c == SPACE || c == CLOSE }

  lemma {:induction false} ListEndBytes(t: text, k: nat)
    requires ListEnd(t, k) > 0
    ensures forall p :: k <= p < ListEnd(t, k) ==> IsListByte(t[p])
    ensures t[ListEnd(t, k) - 1] == CLOSE
    decreases |t| - k
  {
    if t[k] == COMMA {
      if t[k + 1] == QUESTION { ListEndBytes(t, k + 2); } else { ListEndBytes(t, k + 3); }
    }
  }

  /** Behind its "(" a list has no "(". */
  lemma ListBytes(t: text, i: nat)
    requires ListLen(t, i) > 0
    ensures forall p :: i < p < i + ListLen(t, i) ==> IsListByte(t[p])
    ensures !IsSpace(t[i + ListLen(t, i) - 1])
  {
    ListEndBytes(t, i + 2);
  }

  /** u from k on has the n bytes t has from i on. */
  predicate SameBytes(t: text, i: nat, u: text, k: nat, n: nat)
  {
    i + n <= |t| && k + n <= |u| && forall p :: k <= p < k + n ==> u[p] == t[p - k + i]
  }

  lemma {:induction false} ListEndBySame(t: text, i: nat, u: text, k: nat)
    requires ListEnd(t, i) > 0 && SameBytes(t, i, u, k, ListEnd(t, i) - i)
    ensures ListEnd(u, k) == ListEnd(t, i) - i + k
    decreases |t| - i
  {
    if t[i] == COMMA {
      if t[i + 1] == QUESTION {
        ListEndBySame(t, i + 2, u, k + 2);
      } else {
        ListEndBySame(t, i + 3, u, k + 3);
      }
    }
  }

  /** A match is decided by its own bytes. */
  lemma ListBySame(t: text, i: nat, u: text, k: nat)
    requires ListLen(t, i) > 0 && SameBytes(t, i, u, k, ListLen(t, i))
    ensures ListLen(u, k) == ListLen(t, i)
  {
    ListEndBySame(t, i + 2, u, k + 2);
  }

  /** The folded text copies the original up to its first "(". */
  lemma {:induction false} FoldCopies(t: text, i: nat, n: nat)
    requires i <= |t| && n <= |FoldFrom(t, i)| && forall m :: 0 <= m < n ==> FoldFrom(t, i)[m] != OPEN
    ensures SameBytes(t, i, FoldFrom(t, i), 0, n)
    decreases |t| - i
  {
    if i < |t| && n > 0 {
      hide ListLen;
      var u := FoldFrom(t, i);
      assert u[0] != OPEN;
      assert ListLen(t, i) == 0;
      var v := FoldFrom(t, i + 1);
      assert u == [t[i]] + v;
      assert forall m :: 0 <= m < n - 1 ==> v[m] == u[m + 1];
      FoldCopies(t, i + 1, n - 1);
      assert forall p :: 0 < p < n ==> u[p] == v[p - 1];
    }
  }

  /** Folding leaves no foldable list. */
  lemma {:induction false} FoldLeavesNone(t: text, i: nat)
    requires i <= |t|
    ensures NoLists(FoldFrom(t, i))
    decreases |t| - i
  {
    hide ListLen;
    if i < |t| {
      if ListLen(t, i) > 0 {
        FoldLeavesNone(t, i + ListLen(t, i));
        PrependFolded(FoldFrom(t, i + ListLen(t, i)));
      } else {
        FoldLeavesNone(t, i + 1);
        NoNewList(t, i);
        PrependByte(t[i], FoldFrom(t, i + 1));
      }
    }
  }

  /** Folding what follows a byte does not make it the start of a list. */
  lemma NoNewList(t: text, i: nat)
    requires i < |t| && ListLen(t, i) == 0
    ensures ListLen([t[i]] + FoldFrom(t, i + 1), 0) == 0
  {
    hide FoldFrom, ListLen;
    var v := FoldFrom(t, i + 1);
    var u := [t[i]] + v;
    var n := ListLen(u, 0);
    if n > 0 {
      ListBytes(u, 0);
      NoOpenBehind(t[i], v, n);
      FoldCopies(t, i + 1, n - 1);
      SamePrepended(t[i], v, t, i, n);
      ListBySame(u, 0, t, i);
    }
  }

  lemma NoOpenBehind(b: byte, v: text, n: nat)
    requires 0 < n <= 1 + |v| && forall p :: 0 < p < n ==> IsListByte(([b] + v)[p])
    ensures forall m :: 0 <= m < n - 1 ==> v[m] != OPEN
  {
    assert forall m :: 0 <= m < n - 1 ==> v[m] == ([b] + v)[m + 1];
  }

  lemma SamePrepended(b: byte, v: text, t: text, i: nat, n: nat)
    requires i < |t| && t[i] == b && n > 0 && SameBytes(t, i + 1, v, 0, n - 1)
    ensures SameBytes([b] + v, 0, t, i, n)
  {
    forall p | i <= p < i + n ensures t[p] == ([b] + v)[p - i + 0] {
      if p > i { assert v[p - i - 1] == t[p - i - 1 - 0 + (i + 1)]; }
    }
  }

  lemma PrependByte(b: byte, v: text)
    requires NoLists(v) && ListLen([b] + v, 0) == 0
    ensures NoLists([b] + v)
  {
    var u := [b] + v;
    forall i | 0 <= i < |u| ensures ListLen(u, i) == 0 {
      if i > 0 && ListLen(u, i) > 0 {
        assert forall p :: i - 1 <= p < i - 1 + ListLen(u, i) ==> v[p] == u[p + 1];
        ListBySame(u, i, v, i - 1);
      }
    }
  }

  lemma PrependFolded(v: text)
    requires NoLists(v)
    ensures NoLists(FOLDED + v)
  {
    PrependByte(CLOSE, v);
    PrependByte(QUESTION, [CLOSE] + v);
    PrependByte(OPEN, [QUESTION] + ([CLOSE] + v));
    assert [OPEN] + ([QUESTION] + ([CLOSE] + v)) == FOLDED + v;
  }

  lemma {:induction false} FoldNothing(t: text, i: nat)
    requires i <= |t| && NoLists(t)
    ensures FoldFrom(t, i) == t[i..]
    decreases |t| - i
  {
    if i < |t| { FoldNothing(t, i + 1); }
  }

  lemma {:induction false} FoldKeepsTidy(t: text, i: nat, may: bool)
    requires i <= |t| && Tidy(t[i..], may)
    ensures Tidy(FoldFrom(t, i), may) && (i < |t| ==> FoldFrom(t, i) != [])
    decreases |t| - i
  {
    if i < |t| {
      var u, n := t[i..], ListLen(t, i);
      if n > 0 {
        ListBytes(t, i);
        assert u[n - 1] == t[i + n - 1];
        TidyDrop(u, n, may);
        assert u[n..] == t[i + n..];
        FoldKeepsTidy(t, i + n, true);
        FoldedTidy(FoldFrom(t, i + n), may);
      } else {
        assert u[1..] == t[i + 1..];
        FoldKeepsTidy(t, i + 1, !IsSpace(t[i]));
        assert ([t[i]] + FoldFrom(t, i + 1))[1..] == FoldFrom(t, i + 1);
      }
    }
  }

  lemma FoldedTidy(v: text, may: bool)
    requires Tidy(v, true)
    ensures Tidy(FOLDED + v, may)
  {
    var u := FOLDED + v;
    assert u[1..][1..][1..] == v;
    assert Tidy(u[1..][1..], true);
    assert Tidy(u[1..], true);
  }

  /** A prefix has no list the whole text has not. */
  lemma PrefixNoLists(t: text, n: nat)
    requires n <= |t| && NoLists(t)
    ensures NoLists(t[..n])
  {
    forall i | 0 <= i < n ensures ListLen(t[..n], i) == 0 {
      if ListLen(t[..n], i) > 0 { ListBySame(t[..n], i, t, i); }
    }
  }

  /** What foldRedacted returns is tidy, has no foldable list and no trailing "; ". */
  lemma FoldedShape(t: text)
    ensures var r := FoldRedacted(t);
            Tidy(r, false) && NoLists(r) && (r != [] ==> !IsTrailing(r[|r| - 1]))
  {
    hide Collapse, FoldFrom, Fields, JoinWords, ListLen;
    var j := JoinWords(Fields(t));
    JoinedFields(t);
    CollapseIsTidy(t, false, false);
    assert j[0..] == j;
    var f := FoldFrom(j, 0);
    FoldKeepsTidy(j, 0, false);
    FoldLeavesNone(j, 0);
    var r := TrimRight(f, IsTrailing);
    TidyTrimmed(f, |r|);
    PrefixNoLists(f, |r|);
  }

  lemma TidyTrimmed(f: text, n: nat)
    requires Tidy(f, false) && n <= |f| && (n > 0 ==> !IsTrailing(f[n - 1]))
    ensures Tidy(f[..n], false)
  {
    TidySpaces(f, false);
    TidyPrefix(f, n, false);
  }

  lemma {:induction false} TidySpaces(t: text, may: bool)
    requires Tidy(t, may)
    ensures forall i :: 0 <= i < |t| && IsSpace(t[i]) ==> t[i] == SPACE
  {
    if t != [] {
      TidySpaces(t[1..], !IsSpace(t[0]));
      assert forall i :: 0 < i < |t| ==> t[i] == t[1..][i - 1];
    }
  }

  /** foldRedacted is idempotent. */
  lemma FoldIdempotent(t: text)
    ensures FoldRedacted(FoldRedacted(t)) == FoldRedacted(t)
  {
    hide Collapse, FoldFrom, Fields, JoinWords, ListLen;
    var r := FoldRedacted(t);
    FoldedShape(t);
    JoinedFields(r);
    TidyStays(r, false);
    FoldNothing(r, 0);
    assert r[0..] == r;
    assert TrimRight(r, IsTrailing) == r;
  }

  // ---- lists of any length ----

  /** The text of |gaps| + 1 placeholders, each gap "," or ", ", from the first gap on. */
  function Items(gaps: seq<bool>): text
  {
    if gaps == [] then [CLOSE]
    else [COMMA] + (if gaps[0] then [SPACE] else []) + [QUESTION] + Items(gaps[1..])
  }

  function PlaceholderList(gaps: seq<bool>): text { [OPEN, QUESTION] + Items(gaps) }

  lemma {:induction false} ItemsEnd(gaps: seq<bool>, a: text, b: text)
    ensures ListEnd(a + Items(gaps) + b, |a|) == |a| + |Items(gaps)|
  {
    var t := a + Items(gaps) + b;
    if gaps == [] {
      assert t[|a|] == CLOSE;
    } else {
      var item := [COMMA] + (if gaps[0] then [SPACE] else []) + [QUESTION];
      assert Items(gaps) == item + Items(gaps[1..]);
      assert t == (a + item) + Items(gaps[1..]) + b;
      assert t[|a|] == item[0] && t[|a| + 1] == item[1] && (gaps[0] ==> t[|a| + 2] == item[2]);
      ItemsEnd(gaps[1..], a + item, b);
    }
  }

  /** A list of two or more placeholders is one match. */
  lemma ListMatches(gaps: seq<bool>, b: text)
    requires gaps != []
    ensures ListLen(PlaceholderList(gaps) + b, 0) == |PlaceholderList(gaps)|
  {
    var t := PlaceholderList(gaps) + b;
    assert t == [OPEN, QUESTION] + Items(gaps) + b;
    ItemsEnd(gaps, [OPEN, QUESTION], b);
    assert t[2] == Items(gaps)[0] == COMMA;
  }

  lemma {:induction false} ItemsTidy(gaps: seq<bool>)
    ensures Tidy(Items(gaps), true) && !IsSpace(Items(gaps)[|Items(gaps)| - 1])
  {
    if gaps != [] {
      ItemsTidy(gaps[1..]);
      var rest := Items(gaps[1..]);
      var u := Items(gaps);
      if gaps[0] {
        assert u == [COMMA, SPACE, QUESTION] + rest;
        assert u[1..] == [SPACE, QUESTION] + rest && u[1..][1..] == [QUESTION] + rest && u[1..][1..][1..] == rest;
        assert Tidy(u[1..][1..], false);
      } else {
        assert u == [COMMA, QUESTION] + rest;
        assert u[1..] == [QUESTION] + rest && u[1..][1..] == rest;
      }
    }
  }

  lemma {:induction false} AfterWord(a: text, started: bool, gap: bool)
    requires a != [] && !IsSpace(a[|a| - 1])
    ensures After(a, started, gap) == (true, false)
  {
    if |a| > 1 {
      if IsSpace(a[0]) { AfterWord(a[1..], started, true); } else { AfterWord(a[1..], true, false); }
    }
  }

  lemma ListTidy(gaps: seq<bool>, started: bool, gap: bool)
    ensures var l := PlaceholderList(gaps);
            Collapse(l, started, gap) == (if started && gap then [SPACE] else []) + l &&
            After(l, started, gap) == (true, false)
  {
    var l := PlaceholderList(gaps);
    ItemsTidy(gaps);
    AfterWord(l, started, gap);
    assert l[1..] == [QUESTION] + Items(gaps) && l[1..][1..] == Items(gaps);
    assert Tidy(l[1..], true);
    TidyStays(l[1..], true);
    assert l == [OPEN] + l[1..];
    assert (if started && gap then [SPACE] else []) + [OPEN] + l[1..] == (if started && gap then [SPACE] else []) + l;
  }

  /** What is in front of a "(" folds by itself. */
  lemma {:induction false} FoldSplits(a: text, v: text, i: nat)
    requires i <= |a| && v != [] && v[0] == OPEN
    ensures FoldFrom(a + v, i) == FoldFrom(a, i) + FoldFrom(v, 0)
    decreases |a| - i
  {
    hide ListLen;
    var t := a + v;
    if i == |a| {
      FoldShifts(a, v, 0);
    } else {
      ListInFront(a, v, i);
      var n := ListLen(a, i);
      if n > 0 {
        FoldSplits(a, v, i + n);
        assert FOLDED + (FoldFrom(a, i + n) + FoldFrom(v, 0)) == FOLDED + FoldFrom(a, i + n) + FoldFrom(v, 0);
      } else {
        FoldSplits(a, v, i + 1);
        assert [a[i]] + (FoldFrom(a, i + 1) + FoldFrom(v, 0)) == [a[i]] + FoldFrom(a, i + 1) + FoldFrom(v, 0);
      }
    }
  }

  lemma ListInFront(a: text, v: text, i: nat)
    requires i < |a| && v != [] && v[0] == OPEN
    ensures ListLen(a + v, i) == ListLen(a, i)
  {
    var t := a + v;
    if ListLen(a, i) > 0 {
      ListBySame(a, i, t, i);
    } else if ListLen(t, i) > 0 {
      ListBytes(t, i);
      assert t[|a|] == OPEN && !IsListByte(OPEN);
      assert i + ListLen(t, i) <= |a|;
      ListBySame(t, i, a, i);
    }
  }

  lemma {:induction false} FoldShifts(a: text, v: text, k: nat)
    requires k <= |v|
    ensures FoldFrom(a + v, |a| + k) == FoldFrom(v, k)
    decreases |v| - k
  {
    hide ListLen;
    if k < |v| {
      ListShifts(a, v, k);
      if ListLen(v, k) > 0 {
        FoldShifts(a, v, k + ListLen(v, k));
      } else {
        FoldShifts(a, v, k + 1);
      }
    }
  }

  lemma ListShifts(a: text, v: text, k: nat)
    requires k < |v|
    ensures ListLen(a + v, |a| + k) == ListLen(v, k)
  {
    var t := a + v;
    if ListLen(v, k) > 0 {
      ListBySame(v, k, t, |a| + k);
    } else if ListLen(t, |a| + k) > 0 {
      assert forall p :: 0 <= p < |v| ==> v[p] == t[|a| + p];
      ListBySame(t, |a| + k, v, k);
    }
  }

  /** A list of one or more placeholders folds to "(?)" in front of anything. */
  lemma ListFolds(gaps: seq<bool>, b: text)
    ensures FoldFrom(PlaceholderList(gaps) + b, 0) == FOLDED + FoldFrom(b, 0)
  {
    var l := PlaceholderList(gaps);
    if gaps != [] {
      ListMatches(gaps, b);
      MatchFolds(l, b);
    } else {
      assert l == FOLDED;
      OneFolds(b);
    }
  }

  lemma MatchFolds(l: text, b: text)
    requires 0 < ListLen(l + b, 0) == |l|
    ensures FoldFrom(l + b, 0) == FOLDED + FoldFrom(b, 0)
  {
    hide ListLen;
    FoldShifts(l, b, 0);
  }

  lemma OneFolds(b: text)
    ensures FoldFrom(FOLDED + b, 0) == FOLDED + FoldFrom(b, 0)
  {
    hide ListLen;
    var t := FOLDED + b;
    OneIsNoMatch(b);
    FoldShifts(FOLDED, b, 0);
    assert FoldFrom(t, 2) == [CLOSE] + FoldFrom(b, 0);
    assert FoldFrom(t, 1) == [QUESTION] + ([CLOSE] + FoldFrom(b, 0));
    assert FoldFrom(t, 0) == [OPEN] + ([QUESTION] + ([CLOSE] + FoldFrom(b, 0)));
  }

  lemma OneIsNoMatch(b: text)
    ensures var t := FOLDED + b; ListLen(t, 0) == ListLen(t, 1) == ListLen(t, 2) == 0
  {
    var t := FOLDED + b;
    assert t[0] == OPEN && t[1] == QUESTION && t[2] == CLOSE;
  }

  /** In any context, a parenthesised list of any number of placeholders, however spaced, gives the
      text a single placeholder gives. */
  lemma AnyListLength(before: text, gaps: seq<bool>, after: text)
    ensures FoldRedacted(before + PlaceholderList(gaps) + after) == FoldRedacted(before + PlaceholderList([]) + after)
  {
    hide FoldFrom, Fields, JoinWords, Collapse, PlaceholderList, After;
    ListInContext(before, gaps, after);
    ListInContext(before, [], after);
  }

  /** What foldRedacted returns for a list in a context, without the list. */
  lemma ListInContext(before: text, gaps: seq<bool>, after: text)
    ensures var st := After(before, false, false);
            FoldRedacted(before + PlaceholderList(gaps) + after) ==
            TrimRight(FoldFrom(Collapse(before, false, false) + (if st.0 && st.1 then [SPACE] else []), 0) +
                      (FOLDED + FoldFrom(Collapse(after, true, false), 0)), IsTrailing)
  {
    hide FoldFrom, Fields, JoinWords, Collapse, After;
    var l, st := PlaceholderList(gaps), After(before, false, false);
    var t := before + l + after;
    JoinedFields(t);
    CollapseConcat(before + l, after, false, false);
    CollapseConcat(before, l, false, false);
    AfterConcat(before, l, false, false);
    ListTidy(gaps, st.0, st.1);
    var a, b := Collapse(before, false, false) + (if st.0 && st.1 then [SPACE] else []), Collapse(after, true, false);
    assert Collapse(t, false, false) == a + (l + b);
    FoldSplits(a, l + b, 0);
    ListFolds(gaps, b);
  }

  lemma {:induction false} AfterConcat(a: text, b: text, started: bool, gap: bool)
    ensures After(a + b, started, gap) == After(b, After(a, started, gap).0, After(a, started, gap).1)
  {
    if a == [] {
      assert a + b == b;
    } else {
      assert (a + b)[1..] == a[1..] + b;
      if IsSpace(a[0]) { AfterConcat(a[1..], b, started, true); } else { AfterConcat(a[1..], b, true, false); }
    }
  }
}
