/** The index scanners every lexing pass of the repository is built from. */
module Scanners {
  import opened Bytes
  import opened Lexing

  /** scanQuotedRunClosed: the index past the run opening at s[i], and whether its quote closed it. */
  method ScanQuotedRunClosed(s: text, i: nat, backslashEscapes: bool) returns (end: nat, closed: bool)
    requires i < |s|
    ensures var e := Run(s[i], backslashEscapes, s, i + 1); end == i + 1 + e.len && closed == e.closed
  {
    var q := s[i];
    var k := i + 1;
    ghost var all := Run(q, backslashEscapes, s, i + 1);
    while k < |s|
      invariant i + 1 <= k <= |s| + 1
      invariant k <= |s| ==> all == Run(q, backslashEscapes, s, k).After(k - i - 1)
      invariant k > |s| ==> all == Extent(|s| - i - 1, false)
    {
      if backslashEscapes && s[k] == BACKSLASH {
        k := k + 2;
      } else if s[k] == q {
        if k + 1 < |s| && s[k + 1] == q {
          k := k + 2;
          continue;
        }
        return k + 1, true;
      } else {
        k := k + 1;
      }
    }
    return |s|, false;
  }

  /** scanQuotedRun */
  method ScanQuotedRun(s: text, i: nat, backslashEscapes: bool) returns (end: nat)
    requires i < |s|
    ensures end == i + 1 + Run(s[i], backslashEscapes, s, i + 1).len
  {
    var closed;
    end, closed := ScanQuotedRunClosed(s, i, backslashEscapes);
  }

  /** scanDollarQuoted: whether a dollar-quoted string opens at s[i], the index past it and
      the length of its delimiter. */
  method ScanDollarQuoted(s: text, i: nat) returns (end: nat, tagLen: nat, ok: bool)
    requires i < |s| && s[i] == DOLLAR
    ensures ok <==> !WordBefore(s, i) && DollarTag(s, i) > 0
    ensures ok ==> tagLen == DollarTag(s, i) && end == i + DollarRun(s, i).len
    ensures !ok ==> end == 0 && tagLen == 0
  {
    hide IndexFrom, OccursAt;
    if i > 0 && IsIdentByte(s[i - 1]) {
      return 0, 0, false;
    }
    var j := i + 1;
    while j < |s| && IsIdentByte(s[j])
      invariant i + 1 <= j <= |s|
      invariant IdentRun(s, i + 1) == j - i - 1 + IdentRun(s, j)
      invariant j > i + 1 ==> !IsDigit(s[i + 1])
    {
      if j == i + 1 && IsDigit(s[j]) {
        return 0, 0, false;
      }
      j := j + 1;
    }
    if j >= |s| || s[j] != DOLLAR {
      return 0, 0, false;
    }
    var tag := s[i..j + 1];
    var k := IndexFrom(s, tag, j + 1);
    if k < 0 {
      return |s|, |tag|, true;
    }
    return k as nat + |tag|, |tag|, true;
  }

  /** skipLineComment: the index of the newline, or the end of the text, that ends the comment. */
  method SkipLineComment(s: text, i: nat) returns (end: nat)
    requires i <= |s|
    ensures end == i + LineRun(s, i)
  {
    end := i;
    while end < |s| && s[end] != NEWLINE
      invariant i <= end <= |s|
      invariant LineRun(s, i) == end - i + LineRun(s, end)
    {
      end := end + 1;
    }
  }

  /** skipBlockComment: the index past the comment's end mark; past the text when there is none. */
  method SkipBlockComment(s: text, i: nat) returns (end: nat)
    requires i + 2 <= |s|
    ensures var e := BlockRun(s, i); if e.closed then end == i + e.len else end > |s|
  {
    end := i + 2;
    while end + 1 < |s| && (s[end] != STAR || s[end + 1] != SLASH)
      invariant i + 2 <= end <= |s|
      invariant BlockEnd(s, i + 2) == BlockEnd(s, end).After(end - i - 2)
    {
      end := end + 1;
    }
    end := end + 2;
  }
}
