/** Byte strings and the byte classes the SQL scanners share. */
module Bytes {
  newtype byte = x: int | 0 <= x < 256

  type text = seq<byte>

  const TAB: byte := 9
  const NEWLINE: byte := 10
  const RETURN: byte := 13
  const SPACE: byte := 32
  const DQUOTE: byte := 34
  const HASH: byte := 35
  const DOLLAR: byte := 36
  const SQUOTE: byte := 39
  const OPEN: byte := 40
  const CLOSE: byte := 41
  const STAR: byte := 42
  const PLUS: byte := 43
  const COMMA: byte := 44
  const DASH: byte := 45
  const DOT: byte := 46
  const SLASH: byte := 47
  const ZERO: byte := 48
  const COLON: byte := 58
  const SEMICOLON: byte := 59
  const QUESTION: byte := 63
  const AT: byte := 64
  const BACKSLASH: byte := 92
  const UNDERSCORE: byte := 95
  const BACKTICK: byte := 96
  const LOWER_X: byte := 120

  predicate IsDigit(c: byte) { 48 <= c <= 57 }

  predicate IsLetter(c: byte) { 65 <= c <= 90 || 97 <= c <= 122 }

  /** A byte of an unquoted identifier; every non-ASCII byte counts. */
  predicate IsIdentByte(c: byte) { c == UNDERSCORE || IsDigit(c) || c >= 128 || IsLetter(c) }

  /** ASCII white space: tab, newline, vertical tab, form feed, return, space. */
  predicate IsSpace(c: byte) { 9 <= c <= 13 || c == SPACE }

  /** ASCII case folding. */
  function Lower(c: byte): byte { if 65 <= c <= 90 then c + 32 else c }

  predicate EqualFold(a: text, b: text)
  {
    |a| == |b| && forall i :: 0 <= i < |a| ==> Lower(a[i]) == Lower(b[i])
  }

  /** Whether the last byte of t is an identifier byte. */
  predicate EndsIdent(t: text) { t != [] && IsIdentByte(t[|t| - 1]) }

  predicate OccursAt(hay: text, needle: text, k: int)
  {
    0 <= k <= |hay| - |needle| && hay[k..k + |needle|] == needle
  }

  /** The first index of needle in hay that is at least from, or -1. */
  function IndexFrom(hay: text, needle: text, from: nat): (k: int)
    ensures k < 0 ==> k == -1 && forall j :: from <= j ==> !OccursAt(hay, needle, j)
    ensures k >= 0 ==> from <= k && OccursAt(hay, needle, k) && forall j :: from <= j < k ==> !OccursAt(hay, needle, j)
    decreases |hay| - from
  {
    if from + |needle| > |hay| then -1
    else if OccursAt(hay, needle, from) then from
    else IndexFrom(hay, needle, from + 1)
  }

  lemma OccursInPrefix(hay: text, more: text, needle: text, k: int)
    requires k <= |hay| - |needle|
    ensures OccursAt(hay + more, needle, k) == OccursAt(hay, needle, k)
  {
    if 0 <= k {
      assert (hay + more)[k..k + |needle|] == hay[k..k + |needle|];
    }
  }

  /** Text after a match does not move the first match. */
  lemma {:induction false} IndexInPrefix(hay: text, more: text, needle: text, from: nat)
    requires IndexFrom(hay, needle, from) >= 0 || 0 <= IndexFrom(hay + more, needle, from) <= |hay| - |needle|
    ensures IndexFrom(hay + more, needle, from) == IndexFrom(hay, needle, from)
    decreases |hay| - from
  {
    OccursInPrefix(hay, more, needle, from);
    if !OccursAt(hay, needle, from) {
      IndexInPrefix(hay, more, needle, from + 1);
    }
  }

  lemma {:induction false} IndexShift(hay: text, needle: text, i: nat, from: nat)
    requires i <= from && i <= |hay|
    ensures var k := IndexFrom(hay, needle, from);
            IndexFrom(hay[i..], needle, from - i) == if k < 0 then -1 else k - i
    decreases |hay| - from
  {
    if from + |needle| <= |hay| {
      assert hay[i..][from - i..from - i + |needle|] == hay[from..from + |needle|];
      IndexShift(hay, needle, i, from + 1);
    }
  }

  // ---- trimming ----

  function TrimLeft(t: text, drop: byte -> bool): (u: text)
    ensures |u| <= |t| && u == t[|t| - |u|..]
    ensures u != [] ==> !drop(u[0])
    ensures forall i :: 0 <= i < |t| - |u| ==> drop(t[i])
  {
    if t == [] || !drop(t[0]) then t else TrimLeft(t[1..], drop)
  }

  function TrimRight(t: text, drop: byte -> bool): (u: text)
    ensures |u| <= |t| && u == t[..|u|]
    ensures u != [] ==> !drop(u[|u| - 1])
    ensures forall i :: |u| <= i < |t| ==> drop(t[i])
  {
    if t == [] || !drop(t[|t| - 1]) then t else TrimRight(t[..|t| - 1], drop)
  }

  /** strings.TrimSpace, for ASCII white space. */
  function TrimSpace(t: text): (u: text)
    ensures u == [] <==> forall i :: 0 <= i < |t| ==> IsSpace(t[i])
  {
    TrimRight(TrimLeft(t, IsSpace), IsSpace)
  }

  lemma SliceOfSlice(t: text, lo: nat, hi: nat, a: nat, b: nat)
    requires lo <= hi <= |t| && a <= b <= hi - lo
    ensures t[lo..hi][a..b] == t[lo + a..lo + b]
  {
    var u, v := t[lo..hi][a..b], t[lo + a..lo + b];
    assert |u| == |v| && forall i :: 0 <= i < |u| ==> u[i] == t[lo + a + i] == v[i];
  }

  function Max(a: int, b: int): int { if a < b then b else a }

  function Min(a: int, b: int): int { if a < b then a else b }
}
