/** What folding does to the bytes: the words it keeps, the lists it folds and what it trims. */
module FoldBytes {
  import opened Bytes
  import opened Fold
  import opened Tokens

  // ---- words ----

  predicate IsWord(w: text) { w != [] && forall i :: 0 <= i < |w| ==> !IsWhite(w[i]) }

  /** The words stand in t where at says, white space between them and around them and none in them. */
  ghost predicate WordsAt(t: text, words: seq<text>, at: seq<nat>)
  {
    |at| == |words| && AllHere(t, words, at) && AllApart(words, at) && NoneLost(t, words, at)
  }

  ghost predicate AllHere(t: text, words: seq<text>, at: seq<nat>)
    requires |at| == |words|
  {
    forall k :: 0 <= k < |at| ==> WordHere(t, words[k], at[k])
  }

  ghost predicate AllApart(words: seq<text>, at: seq<nat>)
    requires |at| == |words|
  {
    forall j, k :: 0 <= j < k < |at| ==> at[j] + |words[j]| < at[k]
  }

  ghost predicate NoneLost(t: text, words: seq<text>, at: seq<nat>)
    requires |at| == |words|
  {
    forall p :: 0 <= p < |t| && !IsWhite(t[p]) ==> InWord(words, at, p)
  }

  ghost predicate WordHere(t: text, word: text, a: nat)
  {
    IsWord(word) && a + |word| <= |t| && t[a..a + |word|] == word
  }

  ghost predicate InWord(words: seq<text>, at: seq<nat>, p: nat)
    requires |at| == |words|
  {
    exists k :: 0 <= k < |at| && at[k] <= p < at[k] + |words[k]|
  }

  /** The first word of t is its bytes from a to e. */
  ghost predicate IsFirst(t: text, a: nat, e: nat)
    requires a <= e <= |t|
  {
    a < e && (e < |t| ==> IsWhite(t[e])) && (forall p :: 0 <= p < a ==> IsWhite(t[p])) &&
    forall p :: a <= p < e ==> !IsWhite(t[p])
  }

  /** The fields of a text are its words. */
  lemma {:induction false} FieldsExactly(t: text) returns (at: seq<nat>)
    ensures WordsAt(t, Fields(t), at)
    decreases |t|
  {
    hide WordLen, Fields, AllHere, AllApart, NoneLost;
    if TrimLeft(t, IsSpace) == [] {
      at := [];
      NoWords(t);
    } else {
      var a, e := FirstField(t);
      var rest := FieldsExactly(t[e..]);
      at := FirstOfWords(t, a, e, Fields(t[e..]), rest);
    }
  }

  lemma NoWords(t: text)
    requires TrimLeft(t, IsSpace) == []
    ensures WordsAt(t, Fields(t), [])
  {
    hide InWord;
    assert Fields(t) == [];
    assert forall p :: 0 <= p < |t| ==> IsWhite(t[p]);
  }

  lemma FirstField(t: text) returns (a: nat, e: nat)
    requires TrimLeft(t, IsSpace) != []
    ensures a < e <= |t| && IsFirst(t, a, e) && Fields(t) == [t[a..e]] + Fields(t[e..])
  {
    hide TrimLeft, WordLen, Fields;
    var u := TrimLeft(t, IsSpace);
    var n := FieldsUnfold(t);
    WordIsSolid(u);
    a, e := |t| - |u|, |t| - |u| + n;
    WordOf(t, u, a, e);
  }

  lemma WordOf(t: text, u: text, a: nat, e: nat)
    requires a < e <= |t| && u == t[a..]
    ensures t[a..e] == u[..e - a] && t[e..] == u[e - a..] && (e < |t| ==> t[e] == u[e - a])
    ensures forall p :: a <= p < e ==> t[p] == u[p - a]
  {
  }

  lemma FieldsUnfold(t: text) returns (n: nat)
    requires TrimLeft(t, IsSpace) != []
    ensures var u := TrimLeft(t, IsSpace);
      n == WordLen(u) && 0 < n <= |u| && Fields(t) == [u[..n]] + Fields(u[n..]) && (n < |u| ==> IsWhite(u[n]))
  {
    n := WordLen(TrimLeft(t, IsSpace));
  }

  lemma {:induction false} WordIsSolid(u: text)
    ensures forall i :: 0 <= i < WordLen(u) ==> !IsWhite(u[i])
  {
    if u != [] && !IsSpace(u[0]) {
      WordIsSolid(u[1..]);
      assert forall i :: 0 < i < |u| ==> u[i] == u[1..][i - 1];
    }
  }

  lemma FirstOfWords(t: text, a: nat, e: nat, words: seq<text>, rest: seq<nat>) returns (at: seq<nat>)
    requires a < e <= |t| && IsFirst(t, a, e) && WordsAt(t[e..], words, rest)
    ensures WordsAt(t, [t[a..e]] + words, at)
  {
    var all := [t[a..e]] + words;
    at := [a] + Moved(rest, e);
    StandHere(t, a, e, words, rest);
    StandApart(t, a, e, words, rest);
    hide AllHere, AllApart, WordHere, InWord;
    forall p | 0 <= p < |t| && !IsWhite(t[p]) ensures InWord(all, at, p) { StandsIn(t, a, e, words, rest, p); }
  }

  function Moved(at: seq<nat>, d: nat): (r: seq<nat>)
    ensures |r| == |at| && forall k :: 0 <= k < |at| ==> r[k] == at[k] + d
  {
    seq(|at|, k requires 0 <= k < |at| => at[k] + d)
  }

  lemma StandHere(t: text, a: nat, e: nat, words: seq<text>, rest: seq<nat>)
    requires a < e <= |t| && IsFirst(t, a, e) && |rest| == |words| && AllHere(t[e..], words, rest)
    ensures AllHere(t, [t[a..e]] + words, [a] + Moved(rest, e))
  {
    FirstHere(t, a, e);
    forall k | 0 <= k < |rest| ensures WordHere(t, words[k], rest[k] + e) { BehindHere(t, e, words[k], rest[k]); }
    hide WordHere;
    var all, at := [t[a..e]] + words, [a] + Moved(rest, e);
    assert forall k :: 0 < k < |at| ==> all[k] == words[k - 1] && at[k] == rest[k - 1] + e;
  }

  lemma FirstHere(t: text, a: nat, e: nat)
    requires a < e <= |t| && IsFirst(t, a, e)
    ensures WordHere(t, t[a..e], a)
  {
  }

  lemma BehindHere(t: text, e: nat, word: text, a: nat)
    requires e <= |t| && WordHere(t[e..], word, a)
    ensures WordHere(t, word, a + e)
  {
    assert t[e..|t|] == t[e..];
    SliceOfSlice(t, e, |t|, a, a + |word|);
  }

  lemma StandApart(t: text, a: nat, e: nat, words: seq<text>, rest: seq<nat>)
    requires a < e <= |t| && IsFirst(t, a, e) && |rest| == |words|
    requires AllHere(t[e..], words, rest) && AllApart(words, rest)
    ensures AllApart([t[a..e]] + words, [a] + Moved(rest, e))
  {
    forall k | 0 <= k < |rest| ensures rest[k] > 0 { NotAtOnce(t[e..], words[k], rest[k]); }
    hide WordHere, IsFirst;
  }

  lemma NotAtOnce(t: text, word: text, a: nat)
    requires WordHere(t, word, a) && (t != [] ==> IsWhite(t[0]))
    ensures a > 0
  {
    assert t[a..a + |word|][0] == t[a];
  }

  lemma StandsIn(t: text, a: nat, e: nat, words: seq<text>, rest: seq<nat>, p: nat)
    requires a < e <= |t| && IsFirst(t, a, e) && |rest| == |words| && NoneLost(t[e..], words, rest)
    requires p < |t| && !IsWhite(t[p])
    ensures InWord([t[a..e]] + words, [a] + Moved(rest, e), p)
  {
    var all, at := [t[a..e]] + words, [a] + Moved(rest, e);
    if p < e {
      assert at[0] <= p < at[0] + |all[0]|;
    } else {
      assert t[e..][p - e] == t[p];
      assert InWord(words, rest, p - e);
      var k :| 0 <= k < |rest| && rest[k] <= p - e < rest[k] + |words[k]|;
      assert at[k + 1] <= p < at[k + 1] + |all[k + 1]|;
    }
  }

  // ---- joining ----

  /** Single spaces only, and none at the ends. */
  predicate SingleSpaces(t: text)
  {
    (forall i :: 0 <= i < |t| ==> !(9 <= t[i] <= 13)) && (t != [] ==> t[0] != 32 && t[|t| - 1] != 32) &&
    forall i :: 0 < i < |t| ==> !(t[i - 1] == 32 && t[i] == 32)
  }

  lemma {:induction false} TidyIsSingle(t: text, may: bool)
    requires Tidy(t, may)
    ensures (forall i :: 0 <= i < |t| ==> !(9 <= t[i] <= 13)) && (t != [] ==> t[|t| - 1] != 32)
    ensures (forall i :: 0 < i < |t| ==> !(t[i - 1] == 32 && t[i] == 32)) && (t != [] && !may ==> t[0] != 32)
  {
    if t != [] {
      TidyIsSingle(t[1..], !IsSpace(t[0]));
      assert forall i :: 0 < i < |t| ==> t[i] == t[1..][i - 1];
      assert t[1..] != [] ==> t[|t| - 1] == t[1..][|t| - 2];
    }
  }

  predicate AreWords(ws: seq<text>) { forall k :: 0 <= k < |ws| ==> IsWord(ws[k]) }

  lemma {:induction false} FieldsOfJoined(ws: seq<text>)
    requires AreWords(ws)
    ensures Fields(JoinWords(ws)) == ws
  {
    hide Fields, JoinWords, AreWords, IsWord;
    if ws == [] {
      NothingJoined();
    } else {
      FirstIsWord(ws);
      FieldsOfJoined(ws[1..]);
      OneMoreJoined(ws[0], ws[1..]);
      assert ws == [ws[0]] + ws[1..];
    }
  }

  lemma FirstIsWord(ws: seq<text>)
    requires ws != [] && AreWords(ws)
    ensures IsWord(ws[0]) && AreWords(ws[1..])
  {
    hide IsWord;
    assert forall k :: 0 <= k < |ws[1..]| ==> ws[1..][k] == ws[k + 1];
  }

  lemma OneMoreJoined(w: text, ws: seq<text>)
    requires IsWord(w) && Fields(JoinWords(ws)) == ws
    ensures Fields(JoinWords([w] + ws)) == [w] + ws
  {
    hide Fields, JoinWords;
    var more := (if ws != [] then [SPACE] else []) + JoinWords(ws);
    WordsJoined(w, ws);
    NothingJoined();
    FieldsBehind(w, more);
    if ws != [] { FieldsBehindSpace(JoinWords(ws)); } else { assert more == []; }
  }

  lemma NothingJoined()
    ensures JoinWords([]) == [] && Fields([]) == []
  {
  }

  lemma {:induction false} WordLenOf(w: text, tail: text)
    requires (forall i :: 0 <= i < |w| ==> !IsWhite(w[i])) && (tail != [] ==> tail[0] == 32)
    ensures WordLen(w + tail) == |w|
  {
    if w != [] {
      assert (w + tail)[1..] == w[1..] + tail;
      WordLenOf(w[1..], tail);
    } else {
      assert w + tail == tail;
    }
  }

  lemma FieldsBehind(w: text, tail: text)
    requires IsWord(w) && (tail != [] ==> tail[0] == 32)
    ensures Fields(w + tail) == [w] + Fields(tail)
  {
    hide WordLen;
    WordLenOf(w, tail);
    var t := w + tail;
    assert t[0] == w[0] && t[..|w|] == w && t[|w|..] == tail;
    assert TrimLeft(t, IsSpace) == t;
  }

  lemma FieldsBehindSpace(t: text)
    ensures Fields([SPACE] + t) == Fields(t)
  {
    hide WordLen;
    assert ([SPACE] + t)[1..] == t;
    assert TrimLeft([SPACE] + t, IsSpace) == TrimLeft(t, IsSpace);
  }

  /** Joining the words puts one space between them, and nothing else: the words of the result are the same. */
  lemma JoinedExactly(t: text)
    ensures var j := JoinWords(Fields(t)); SingleSpaces(j) && Fields(j) == Fields(t)
  {
    hide Fields, JoinWords, Collapse;
    var j := JoinWords(Fields(t));
    JoinedFields(t);
    CollapseIsTidy(t, false, false);
    TidyIsSingle(j, false);
    var at := FieldsExactly(t);
    assert forall k :: 0 <= k < |at| ==> WordHere(t, Fields(t)[k], at[k]);
    FieldsOfJoined(Fields(t));
  }

  // ---- lists and the end ----

  /** Only lists of two placeholders or more are folded. */
  lemma {:induction false} ListEndExactly(t: text, k: nat) returns (gaps: seq<bool>)
    requires ListEnd(t, k) > 0
    ensures t[k..ListEnd(t, k)] == Items(gaps) && (gaps == [] <==> t[k] == 41)
    decreases |t| - k
  {
    var e := ListEnd(t, k);
    if t[k] == CLOSE {
      gaps := [];
    } else if t[k + 1] == QUESTION {
      var rest := ListEndExactly(t, k + 2);
      gaps := [false] + rest;
      assert t[k..e] == [COMMA] + [] + [QUESTION] + t[k + 2..e];
    } else {
      var rest := ListEndExactly(t, k + 3);
      gaps := [true] + rest;
      assert t[k..e] == [COMMA] + [SPACE] + [QUESTION] + t[k + 3..e];
    }
  }

  /** What is folded is a list of two placeholders or more, for which "(?)" is written; other bytes are copied. */
  lemma FoldedAreLists(t: text, i: nat) returns (gaps: seq<bool>)
    requires i < |t|
    ensures var n := ListLen(t, i);
      if n == 0 then FoldFrom(t, i) == [t[i]] + FoldFrom(t, i + 1)
      else
        gaps != [] && t[i..i + n] == PlaceholderList(gaps) &&
        t[i] == 40 && t[i + 1] == 63 && t[i + 2] == 44 && t[i + n - 1] == 41 &&
        (forall p :: i < p < i + n ==> t[p] in {63, 44, 32, 41}) &&
        FoldFrom(t, i) == [40, 63, 41] + FoldFrom(t, i + n)
  {
    gaps := [];
    if ListLen(t, i) > 0 {
      gaps := ListEndExactly(t, i + 2);
      ListEndBytes(t, i + 2);
      hide ListEnd;
      assert t[i..i + ListLen(t, i)] == [OPEN, QUESTION] + t[i + 2..ListEnd(t, i + 2)];
    }
  }

  /** The folded text in bytes: no other white space than single spaces, no foldable list, and only semicolons and
      spaces were cut off its end, all of them. */
  lemma FoldedBytes(t: text) returns (tail: text)
    ensures var r := FoldRedacted(t);
      SingleSpaces(r) && NoLists(r) && FoldFrom(JoinWords(Fields(t)), 0) == r + tail &&
      (forall i :: 0 <= i < |tail| ==> tail[i] == 59 || tail[i] == 32) && (r != [] ==> r[|r| - 1] != 59)
  {
    hide Fields, JoinWords, FoldFrom, ListLen;
    var f, r := FoldFrom(JoinWords(Fields(t)), 0), FoldRedacted(t);
    FoldedShape(t);
    TidyIsSingle(r, false);
    tail := f[|r|..];
    assert forall i :: 0 <= i < |tail| ==> tail[i] == f[|r| + i];
  }
}
