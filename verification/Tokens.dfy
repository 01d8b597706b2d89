/** What the lexer cuts off, in bytes: where each kind of chunk starts and where it ends. */
module Tokens {
  import opened Bytes
  import opened Lexing

  // ---- quoted runs ----

  /** From k to end stand whole units: a byte that is neither the quote nor an escape, the quote twice, or a backslash
      that escapes and the byte behind it. */
  ghost predicate Units(q: byte, escapes: bool, s: text, k: nat, end: nat)
    requires end <= |s|
    decreases end - k
  {
    k == end ||
    (k < end && s[k] != q && !(escapes && s[k] == 92) && Units(q, escapes, s, k + 1, end)) ||
    (k + 1 < end && s[k] == q && s[k + 1] == q && !(escapes && q == 92) && Units(q, escapes, s, k + 2, end)) ||
    (k + 1 < end && escapes && s[k] == 92 && Units(q, escapes, s, k + 2, end))
  }

  /** The run whose body starts at k ends at j: past a quote that is not doubled, or open at the end of the text. */
  ghost predicate RunEndsAt(q: byte, escapes: bool, s: text, k: nat, j: nat, closed: bool)
  {
    k <= j <= |s| &&
    if closed then
      k < j && Units(q, escapes, s, k, j - 1) && s[j - 1] == q && (j < |s| ==> s[j] != q)
    else
      j == |s| && (Units(q, escapes, s, k, j) || (k < j && escapes && s[j - 1] == 92 && Units(q, escapes, s, k, j - 1)))
  }

  /** The lexer finds that end and no other. */
  lemma {:induction false} RunExactly(q: byte, escapes: bool, s: text, k: nat, j: nat, closed: bool)
    requires k <= |s| && q != 92
    ensures RunEndsAt(q, escapes, s, k, j, closed) <==> k <= j && Run(q, escapes, s, k) == Extent(j - k, closed)
    decreases |s| - k
  {
    if k < |s| {
      if escapes && s[k] == 92 {
        if k + 1 < |s| {
          RunExactly(q, escapes, s, k + 2, j, closed);
          if k <= j <= |s| { UnitsStep(q, escapes, s, k, j); }
          if k < j <= |s| { UnitsStep(q, escapes, s, k, j - 1); }
        }
      } else if s[k] == q {
        if k + 1 < |s| && s[k + 1] == q { RunExactly(q, escapes, s, k + 2, j, closed); }
      } else {
        RunExactly(q, escapes, s, k + 1, j, closed);
      }
    }
  }

  lemma UnitsStep(q: byte, escapes: bool, s: text, k: nat, end: nat)
    requires k + 1 < |s| && end <= |s| && escapes && s[k] == 92 && q != 92
    ensures Units(q, escapes, s, k, end) <==> k == end || (k + 1 < end && Units(q, escapes, s, k + 2, end))
  {
  }

  // ---- dollar quotes ----

  /** A byte that can stand in a name or a tag: "_", a digit, a letter, or one that is not ASCII. */
  predicate InName(b: byte) { b == 95 || 48 <= b <= 57 || 65 <= b <= 90 || 97 <= b <= 122 || b >= 128 }

  /** A white byte: tab, the two line feeds, form feed, return or space. */
  predicate IsWhite(b: byte) { 9 <= b <= 13 || b == 32 }

  /** A delimiter of n bytes stands at i: "$", a tag that does not start with a digit, "$". */
  ghost predicate TagIs(s: text, i: nat, n: nat)
  {
    2 <= n && i + n <= |s| && s[i] == 36 && s[i + n - 1] == 36 && (n > 2 ==> !(48 <= s[i + 1] <= 57)) &&
    forall p :: i < p < i + n - 1 ==> InName(s[p])
  }

  lemma TagExactly(s: text, i: nat, n: nat)
    requires i < |s| && n > 0
    ensures TagIs(s, i, n) <==> DollarTag(s, i) == n
  {
    if TagIs(s, i, n) { IdentRunIs(s, i + 1, n - 2); }
  }

  /** The n bytes from i on stand at p again. */
  ghost predicate CopyAt(s: text, i: nat, n: nat, p: nat)
  {
    i + n <= |s| && p + n <= |s| && forall x :: i <= x < i + n ==> s[x - i + p] == s[x]
  }

  /** The string whose delimiter of n bytes stands at i ends at j: past the next copy of it, or with the text. */
  ghost predicate StringEndsAt(s: text, i: nat, n: nat, j: nat, closed: bool)
  {
    if closed then
      i + n <= j - n && CopyAt(s, i, n, j - n) && forall p: nat :: i + n <= p < j - n ==> !CopyAt(s, i, n, p)
    else j == |s| && forall p: nat :: i + n <= p ==> !CopyAt(s, i, n, p)
  }

  lemma CopyIsOccurrence(s: text, i: nat, n: nat, p: nat)
    requires i + n <= |s|
    ensures CopyAt(s, i, n, p) <==> OccursAt(s, s[i..i + n], p)
  {
    var tag := s[i..i + n];
    if p + n <= |s| {
      var u := s[p..p + n];
      if CopyAt(s, i, n, p) {
        forall y | 0 <= y < n ensures u[y] == tag[y] { assert s[i + y] == s[p + y]; }
      }
      if u == tag {
        forall x | i <= x < i + n ensures s[x - i + p] == s[x] { assert u[x - i] == tag[x - i]; }
      }
    }
  }

  lemma StringEnds(s: text, i: nat)
    requires i < |s| && DollarTag(s, i) > 0
    ensures var n, e := DollarTag(s, i), DollarRun(s, i); StringEndsAt(s, i, n, i + e.len, e.closed)
  {
    hide DollarTag, CopyAt, OccursAt;
    var n := DollarTag(s, i);
    forall p: nat ensures CopyAt(s, i, n, p) <==> OccursAt(s, s[i..i + n], p) { CopyIsOccurrence(s, i, n, p); }
  }

  // ---- chunks ----

  /** A quoted run: which bytes open it, and where it ends. */
  lemma QuotedExactly(r: Reading, s: text, i: nat)
    requires i < |s|
    ensures var c := CutFrom(r, s, i);
      (c.kind.Quoted? <==>
        s[i] == 39 || s[i] == 34 ||
        (s[i] == 96 &&
         (r.backticks.Quoting? || (r.backticks.QuotingIfPaired? && exists k :: i < k < |s| && s[k] == 96)))) &&
      (c.kind.Quoted? ==>
        var escapes := (s[i] == 39 && r.escapeSingle) || (s[i] == 34 && r.escapeDouble);
        RunEndsAt(s[i], escapes, s, i + 1, i + c.len, c.closed))
  {
    hide Run, DollarTag, DollarRun, LineRun, BlockRun, RunEndsAt;
    var c := CutFrom(r, s, i);
    if c.kind.Quoted? { RunExactly(s[i], Escapes(r, s[i]), s, i + 1, i + c.len, c.closed); }
  }

  /** A dollar quote: no byte of a name before it, a delimiter, and its next copy. */
  lemma DollarExactly(r: Reading, s: text, i: nat)
    requires i < |s|
    ensures var c := CutFrom(r, s, i);
      (c.kind.DollarQuoted? <==> r.dollar && (i == 0 || !InName(s[i - 1])) && exists n :: TagIs(s, i, n)) &&
      (c.kind.DollarQuoted? ==> exists n :: TagIs(s, i, n) && StringEndsAt(s, i, n, i + c.len, c.closed))
  {
    hide Run, DollarTag, DollarRun, LineRun, BlockRun, StringEndsAt;
    var m := DollarTag(s, i);
    if m > 0 {
      TagExactly(s, i, m);
      StringEnds(s, i);
    }
    if n: nat :| TagIs(s, i, n) { TagExactly(s, i, n); }
  }

  /** A line comment: "#", or "--" with white space behind it unless that is not asked for; up to the next line end. */
  lemma LineExactly(r: Reading, s: text, i: nat)
    requires i < |s|
    ensures var c := CutFrom(r, s, i); var j := i + c.len;
      (c.kind.LineComment? <==>
        r.comments && ((s[i] == 35 && r.hash) ||
        (s[i] == 45 && i + 1 < |s| && s[i + 1] == 45 && (r.looseDash || i + 2 == |s| || s[i + 2] <= 32)))) &&
      (c.kind.LineComment? ==> (forall p :: i < p < j ==> s[p] != 10) && (j < |s| ==> s[j] == 10))
  {
    hide Run, DollarRun, BlockRun;
  }

  /** A block comment: up to the first end mark behind the opening. */
  lemma BlockExactly(r: Reading, s: text, i: nat)
    requires i < |s|
    ensures var c := CutFrom(r, s, i); var j := i + c.len;
      (c.kind.BlockComment? <==> r.comments && s[i] == 47 && i + 1 < |s| && s[i + 1] == 42) &&
      (c.kind.BlockComment? ==>
        if c.closed then
          i + 4 <= j && s[j - 2] == 42 && s[j - 1] == 47 &&
          forall p :: i + 2 <= p < j - 2 ==> !(s[p] == 42 && s[p + 1] == 47)
        else j == |s| && forall p :: i + 2 <= p < |s| - 1 ==> !(s[p] == 42 && s[p + 1] == 47))
  {
    hide Run, DollarTag, DollarRun, LineRun, BlockEnd;
    if i + 2 <= |s| { FirstEndMark(s, i + 2); }
  }

  lemma {:induction false} FirstEndMark(s: text, k: nat)
    requires k <= |s|
    ensures var e := BlockEnd(s, k); var j := k + e.len;
      if e.closed then
        k + 2 <= j && s[j - 2] == 42 && s[j - 1] == 47 && forall p :: k <= p < j - 2 ==> !(s[p] == 42 && s[p + 1] == 47)
      else j == |s| && forall p :: k <= p < |s| - 1 ==> !(s[p] == 42 && s[p + 1] == 47)
    decreases |s| - k
  {
    if k + 1 < |s| { FirstEndMark(s, k + 1); }
  }

  /** Anything else is one byte. */
  lemma PlainIsOneByte(r: Reading, s: text, i: nat)
    requires i < |s| && CutFrom(r, s, i).kind.Plain?
    ensures CutFrom(r, s, i) == Cut(Plain, 1, true)
  {
    hide Run, DollarTag, DollarRun, LineRun, BlockRun;
  }
}
