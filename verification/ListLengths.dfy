/** The length of a value list does not matter to a query's fingerprint. */
module ListLengths {
  import opened Bytes
  import opened ChunkWalk
  import opened Fold
  import opened Lexing
  import opened Numbers
  import opened Redact
  import opened Spans

  // ---- a text whose literals are closed, in front of a parenthesis ----

  /** Every literal and name of a that starts at or behind i is closed. */
  ghost predicate ClosedFrom(d: Dialect, a: text, i: nat)
    requires i <= |a|
  {
    forall c :: c in Lex(LiteralReading(false, d), a, i) ==> c.closed
  }

  lemma ClosedStep(d: Dialect, a: text, i: nat)
    requires i < |a| && ClosedFrom(d, a, i)
    ensures var r := LiteralReading(false, d);
      ChunkFrom(r, a, i).closed && ClosedFrom(d, a, i + CutFrom(r, a, i).len)
  {
    hide CutFrom;
    var r := LiteralReading(false, d);
    assert ChunkFrom(r, a, i) in Lex(r, a, i);
  }

  lemma ClosedStretch(d: Dialect, a: text, i: nat, n: nat)
    requires i + n <= |a| && ClosedFrom(d, a, i) && forall p :: i <= p < i + n ==> IsNumberByte(a[p])
    ensures ClosedFrom(d, a, i + n)
  {
    hide CutFrom, SpansFrom, Lex;
    PlainStretch(d, a, i, n);
  }

  lemma TagInFront(a: text, z: text, i: nat)
    requires i < |a| && z != [] && z[0] == OPEN && DollarTag(a, i) == 0
    ensures DollarTag(a + z, i) == 0
  {
    IdentRunIs(a + z, i + 1, IdentRun(a, i + 1));
  }

  /** What starts at i in a is the same with a parenthesis behind a. */
  lemma SameInFront(d: Dialect, a: text, z: text, i: nat)
    requires i < |a| && z != [] && z[0] == OPEN && ChunkFrom(LiteralReading(false, d), a, i).closed
    ensures ChunkFrom(LiteralReading(false, d), a + z, i) == ChunkFrom(LiteralReading(false, d), a, i)
  {
    if ClassFrom(LiteralReading(false, d), d, a, i) == Structure {
      PlainInFront(d, a, z, i);
    } else {
      LiteralInFront(d, a, z, i);
    }
  }

  lemma PlainInFront(d: Dialect, a: text, z: text, i: nat)
    requires i < |a| && z != [] && z[0] == OPEN && ClassFrom(LiteralReading(false, d), d, a, i) == Structure
    ensures ChunkFrom(LiteralReading(false, d), a + z, i) == ChunkFrom(LiteralReading(false, d), a, i)
  {
    hide CutFrom, Run, DollarTag, DollarRun;
    StructureIsPlain(d, a, i);
    LiteralCut(false, d, a, i);
    LiteralCut(false, d, a + z, i);
    if DollarTag(a, i) == 0 { TagInFront(a, z, i); }
    assert (a + z)[i..i + 1] == [a[i]] == a[i..i + 1];
  }

  lemma LiteralInFront(d: Dialect, a: text, z: text, i: nat)
    requires i < |a| && z != [] && z[0] == OPEN && ChunkFrom(LiteralReading(false, d), a, i).closed
    requires ClassFrom(LiteralReading(false, d), d, a, i) != Structure
    ensures ChunkFrom(LiteralReading(false, d), a + z, i) == ChunkFrom(LiteralReading(false, d), a, i)
  {
    hide CutFrom, ClassFrom, First, Complete;
    var r := LiteralReading(false, d);
    var c := ChunkFrom(r, a, i);
    var j := i + |c.text|;
    NotStructure(d, a, i);
    ChunkComplete(r, a, i);
    assert (a + z)[i..] == a[i..] + z == c.text + (a[j..] + z);
    FirstInContext(r, WordBefore(a + z, i), c, a[j..] + z);
    ChunkIsFirst(r, a + z, i);
  }

  lemma NumberInFront(a: text, z: text, i: nat)
    requires i < |a| && IsDigit(a[i]) && z != [] && z[0] == OPEN
    ensures NumberLen(a + z, i) == NumberLen(a, i)
  {
    hide NumberLen;
    NumberInPart(a[i..], a, i);
    NumberInPart(a[i..], a + z, i);
  }

  /** In front of a parenthesis the text is redacted by itself. */
  lemma {:induction false} WrittenInFront(d: Dialect, a: text, z: text, i: nat, prev: byte) returns (b: byte)
    requires i <= |a| && ClosedFrom(d, a, i) && z != [] && z[0] == OPEN
    ensures WrittenFrom(d, a + z, i, prev) == WrittenFrom(d, a, i, prev) + WrittenFrom(d, a + z, |a|, b)
    decreases |a| - i
  {
    hide CutFrom, ClassFrom, WrittenFrom, NumberLen, SuppressesNumber, ClosedFrom;
    if i == |a| {
      b := prev;
      NothingFrom(d, a, prev);
    } else {
      var j, e, head := StepInFront(d, a, z, i, prev);
      b := WrittenInFront(d, a, z, j, e);
    }
  }

  lemma StepInFront(d: Dialect, a: text, z: text, i: nat, prev: byte) returns (j: nat, e: byte, head: text)
    requires i < |a| && ClosedFrom(d, a, i) && z != [] && z[0] == OPEN
    ensures i < j <= |a| && ClosedFrom(d, a, j)
    ensures WrittenFrom(d, a, i, prev) == head + WrittenFrom(d, a, j, e)
    ensures WrittenFrom(d, a + z, i, prev) == head + WrittenFrom(d, a + z, j, e)
  {
    hide CutFrom, ClassFrom, ClassOfChunk, WrittenFrom, NumberLen, SuppressesNumber, ClosedFrom;
    var r := LiteralReading(false, d);
    ClosedStep(d, a, i);
    SameInFront(d, a, z, i);
    ClassFromChunk(r, d, a, i);
    ClassFromChunk(r, d, a + z, i);
    ChunkWritten(d, a, i, prev);
    ChunkWritten(d, a + z, i, prev);
    j := i + CutFrom(r, a, i).len;
    assert |ChunkFrom(r, a + z, i).text| == CutFrom(r, a + z, i).len && |ChunkFrom(r, a, i).text| == j - i;
    match ClassFrom(r, d, a, i)
    case Value =>
      e, head := QUESTION, [QUESTION];
    case Name =>
      e, head := a[j - 1], a[i..j];
    case Structure =>
      StructureIsPlain(d, a, i);
      if IsDigit(a[i]) && !SuppressesNumber(prev) {
        NumberInFront(a, z, i);
        NumberBytes(a, i);
        ClosedStretch(d, a, i, NumberLen(a, i));
        j, e, head := i + NumberLen(a, i), QUESTION, [QUESTION];
      } else {
        e, head := a[i], [a[i]];
      }
  }

  // ---- the list ----

  /** A value that redaction replaces: a complete literal that is closed, or a number. */
  predicate IsItem(d: Dialect, u: text)
  {
    u != [] &&
    var c := First(LiteralReading(false, d), false, u);
    (c.text == u && c.closed && ClassOfChunk(c, d) == Value) || (IsDigit(u[0]) && NumberLen(u, 0) == |u|)
  }

  /** What follows the first item. */
  function MoreItems(items: seq<text>, gaps: seq<bool>): text
    requires |items| == |gaps|
  {
    if gaps == [] then [CLOSE]
    else [COMMA] + (if gaps[0] then [SPACE] else []) + items[0] + MoreItems(items[1..], gaps[1..])
  }

  /** A parenthesised list of one item more than it has gaps, each gap a comma with or without a space. */
  function ValueList(items: seq<text>, gaps: seq<bool>): text
    requires |items| == |gaps| + 1
  {
    [OPEN] + items[0] + MoreItems(items[1..], gaps)
  }

  /** An item behind a separator and before one is a "?". */
  lemma ItemWritten(d: Dialect, s: text, i: nat, u: text, prev: byte)
    requires IsItem(d, u) && OccursAt(s, u, i) && i + |u| < |s| && s[i + |u|] in {COMMA, CLOSE}
    requires !WordBefore(s, i) && prev in {OPEN, COMMA, SPACE}
    ensures WrittenFrom(d, s, i, prev) == [QUESTION] + WrittenFrom(d, s, i + |u|, QUESTION)
  {
    hide WrittenFrom, NumberLen, First, CutFrom, ClassFrom, ClassOfChunk;
    var c := First(LiteralReading(false, d), false, u);
    if c.text == u && c.closed && ClassOfChunk(c, d) == Value {
      LiteralItem(d, s, i, c, prev);
    } else {
      forall p | 0 <= p < |u| ensures u[p] == s[i + p] { StandsByte(s, i, u, p); }
      assert s[i] == u[0];
      NumberByteIsPlain(d, s, i);
      NumberInPart(u, s, i);
      ChunkWritten(d, s, i, prev);
    }
  }

  lemma LiteralItem(d: Dialect, s: text, i: nat, c: Chunk, prev: byte)
    requires c.text != [] && c == First(LiteralReading(false, d), false, c.text)
    requires c.closed && ClassOfChunk(c, d) == Value
    requires OccursAt(s, c.text, i) && i + |c.text| < |s| && s[i + |c.text|] in {COMMA, CLOSE} && !WordBefore(s, i)
    ensures WrittenFrom(d, s, i, prev) == [QUESTION] + WrittenFrom(d, s, i + |c.text|, QUESTION)
  {
    hide WrittenFrom, NumberLen, First, CutFrom, ClassFrom;
    var r := LiteralReading(false, d);
    var rest := s[i + |c.text|..];
    CompleteShape(r, c);
    assert s[i..] == c.text + rest;
    FirstInContext(r, WordBefore(s, i), c, rest);
    ChunkIsFirst(r, s, i);
    ClassFromChunk(r, d, s, i);
    assert |ChunkFrom(r, s, i).text| == CutFrom(r, s, i).len;
    ChunkWritten(d, s, i, prev);
  }

  /** A separator is copied. */
  lemma SeparatorWritten(d: Dialect, s: text, i: nat, prev: byte)
    requires i < |s| && s[i] in {OPEN, COMMA, SPACE, CLOSE}
    ensures WrittenFrom(d, s, i, prev) == [s[i]] + WrittenFrom(d, s, i + 1, s[i])
  {
    hide CutFrom, WrittenFrom, NumberLen, SuppressesNumber, DollarTag, DollarRun, Run;
    LiteralCut(false, d, s, i);
    ChunkWritten(d, s, i, prev);
  }

  lemma SeparatorsWritten(d: Dialect, s: text, i: nat, gap: bool, prev: byte)
    requires OccursAt(s, Separator(gap), i)
    ensures var n := |Separator(gap)|;
      0 < n && s[i + n - 1] in {COMMA, SPACE} &&
      WrittenFrom(d, s, i, prev) == Separator(gap) + WrittenFrom(d, s, i + n, s[i + n - 1])
  {
    hide WrittenFrom;
    StandsByte(s, i, Separator(gap), 0);
    SeparatorWritten(d, s, i, prev);
    if gap {
      StandsByte(s, i, Separator(gap), 1);
      SeparatorWritten(d, s, i + 1, COMMA);
    }
  }

  lemma {:induction false} MoreItemsWritten(d: Dialect, s: text, i: nat, items: seq<text>, gaps: seq<bool>)
    requires |items| == |gaps| && (forall u :: u in items ==> IsItem(d, u)) && OccursAt(s, MoreItems(items, gaps), i)
    ensures WrittenFrom(d, s, i, QUESTION) ==
            Items(gaps) + WrittenFrom(d, s, i + |MoreItems(items, gaps)|, CLOSE)
    decreases |gaps|
  {
    hide WrittenFrom, IsItem, OccursAt, Separator, Items, MoreItems;
    if gaps == [] {
      LastWritten(d, s, i, items);
    } else {
      ItemsApart(s, i, items, gaps);
      SeparatorsWritten(d, s, i, gaps[0], QUESTION);
      var n, u := |Separator(gaps[0])|, items[0];
      var k := i + n + |u|;
      FirstOfMore(s, k, items[1..], gaps[1..]);
      assert u in items;
      BehindSeparator(s, i + n);
      ItemWritten(d, s, i + n, u, s[i + n - 1]);
      MoreItemsWritten(d, s, k, items[1..], gaps[1..]);
      var end := WrittenFrom(d, s, i + |MoreItems(items, gaps)|, CLOSE);
      Regroup(gaps, WrittenFrom(d, s, i + n, s[i + n - 1]), WrittenFrom(d, s, k, QUESTION), end);
    }
  }

  lemma Regroup(gaps: seq<bool>, x: text, y: text, z: text)
    requires gaps != [] && x == [QUESTION] + y && y == Items(gaps[1..]) + z
    ensures Separator(gaps[0]) + x == Items(gaps) + z
  {
    var sep, rest := Separator(gaps[0]), Items(gaps[1..]);
    assert sep + ([QUESTION] + (rest + z)) == (sep + [QUESTION] + rest) + z;
  }

  lemma BehindSeparator(s: text, i: nat)
    requires 0 < i <= |s| && s[i - 1] in {OPEN, COMMA, SPACE}
    ensures !WordBefore(s, i)
  {
  }

  lemma LastWritten(d: Dialect, s: text, i: nat, items: seq<text>)
    requires items == [] && OccursAt(s, MoreItems(items, []), i)
    ensures WrittenFrom(d, s, i, QUESTION) == Items([]) + WrittenFrom(d, s, i + |MoreItems(items, [])|, CLOSE)
  {
    hide WrittenFrom;
    StandsByte(s, i, [CLOSE], 0);
    SeparatorWritten(d, s, i, QUESTION);
  }

  lemma FirstOfMore(s: text, k: nat, items: seq<text>, gaps: seq<bool>)
    requires |items| == |gaps| && OccursAt(s, MoreItems(items, gaps), k)
    ensures k < |s| && s[k] in {COMMA, CLOSE}
  {
    MoreItemsShape(items, gaps);
    StandsByte(s, k, MoreItems(items, gaps), 0);
  }

  lemma {:induction false} MoreItemsShape(items: seq<text>, gaps: seq<bool>)
    requires |items| == |gaps|
    ensures var t := MoreItems(items, gaps); t != [] && t[0] in {COMMA, CLOSE} && t[|t| - 1] == CLOSE
  {
    if gaps != [] {
      MoreItemsShape(items[1..], gaps[1..]);
      var head, rest := [COMMA] + (if gaps[0] then [SPACE] else []) + items[0], MoreItems(items[1..], gaps[1..]);
      assert MoreItems(items, gaps) == head + rest && head[0] == COMMA;
    }
  }

  function Separator(gap: bool): text { [COMMA] + if gap then [SPACE] else [] }

  /** The places of the separator, the first item and what follows. */
  lemma ItemsApart(s: text, i: nat, items: seq<text>, gaps: seq<bool>)
    requires |items| == |gaps| && gaps != [] && OccursAt(s, MoreItems(items, gaps), i)
    ensures var n := |Separator(gaps[0])|; var k := i + n + |items[0]|;
      OccursAt(s, Separator(gaps[0]), i) && OccursAt(s, items[0], i + n) &&
      OccursAt(s, MoreItems(items[1..], gaps[1..]), k) &&
      |MoreItems(items, gaps)| == k - i + |MoreItems(items[1..], gaps[1..])|
  {
    Stands3(s, i, Separator(gaps[0]), items[0], MoreItems(items[1..], gaps[1..]));
  }

  lemma Stands3(s: text, i: nat, x: text, y: text, z: text)
    requires OccursAt(s, x + y + z, i)
    ensures OccursAt(s, x, i) && OccursAt(s, y, i + |x|) && OccursAt(s, z, i + |x| + |y|)
  {
    var n := |x + y + z|;
    SliceOfSlice(s, i, i + n, 0, |x|);
    SliceOfSlice(s, i, i + n, |x|, |x| + |y|);
    SliceOfSlice(s, i, i + n, |x| + |y|, n);
    assert (x + y + z)[0..|x|] == x && (x + y + z)[|x|..|x| + |y|] == y && (x + y + z)[|x| + |y|..n] == z;
  }

  lemma StandsByte(s: text, i: nat, u: text, p: nat)
    requires OccursAt(s, u, i) && p < |u|
    ensures s[i + p] == u[p]
  {
    assert s[i..i + |u|][p] == s[i + p];
  }

  // ---- whole texts ----

  /** From the list on. */
  lemma FromTheList(d: Dialect, s: text, i: nat, items: seq<text>, gaps: seq<bool>, b: text, prev: byte)
    requires |items| == |gaps| + 1 && (forall u :: u in items ==> IsItem(d, u))
    requires OccursAt(s, ValueList(items, gaps), i) && s[i + |ValueList(items, gaps)|..] == b
    ensures WrittenFrom(d, s, i, prev) == PlaceholderList(gaps) + WrittenFrom(d, b, 0, 0)
  {
    hide WrittenFrom, IsItem, OccursAt, MoreItems;
    var more := MoreItems(items[1..], gaps);
    var k := i + 1 + |items[0]|;
    Stands3(s, i, [OPEN], items[0], more);
    FirstOfMore(s, k, items[1..], gaps);
    StandsByte(s, i, [OPEN], 0);
    SeparatorWritten(d, s, i, prev);
    BehindSeparator(s, i + 1);
    assert items[0] in items;
    ItemWritten(d, s, i + 1, items[0], OPEN);
    MoreItemsWritten(d, s, k, items[1..], gaps);
    MoreItemsShape(items[1..], gaps);
    StandsByte(s, k, more, |more| - 1);
    Behind(d, s, k + |more|, b);
  }

  /** In front of, at and behind the list. */
  lemma ListWritten(d: Dialect, a: text, items: seq<text>, gaps: seq<bool>, b: text)
    requires ClosedFrom(d, a, 0) && |items| == |gaps| + 1 && forall u :: u in items ==> IsItem(d, u)
    ensures WrittenFrom(d, a + ValueList(items, gaps) + b, 0, 0) ==
            WrittenFrom(d, a, 0, 0) + PlaceholderList(gaps) + WrittenFrom(d, b, 0, 0)
  {
    hide WrittenFrom, IsItem, ClosedFrom, PlaceholderList;
    var l := ValueList(items, gaps);
    var s := a + (l + b);
    assert a + l + b == s;
    assert l[0] == OPEN;
    hide ValueList;
    var e := WrittenInFront(d, a, l + b, 0, 0);
    assert s[|a|..|a| + |l|] == l && s[|a| + |l|..] == b;
    FromTheList(d, s, |a|, items, gaps, b, e);
  }

  /** What was written before matters only as far as it makes a digit part of a name. */
  lemma SamePrevious(d: Dialect, s: text, i: nat, p: byte, q: byte)
    requires i <= |s| && SuppressesNumber(p) == SuppressesNumber(q)
    ensures WrittenFrom(d, s, i, p) == WrittenFrom(d, s, i, q)
  {
    hide CutFrom, ClassFrom, WrittenFrom, NumberLen, SuppressesNumber;
    if i == |s| {
      NothingFrom(d, s, p);
      NothingFrom(d, s, q);
    } else {
      ChunkWritten(d, s, i, p);
      ChunkWritten(d, s, i, q);
    }
  }

  /** Behind a ")" a text is redacted by itself. */
  lemma Behind(d: Dialect, s: text, k: nat, b: text)
    requires 0 < k <= |s| && s[k - 1] == CLOSE && s[k..] == b
    ensures WrittenFrom(d, s, k, CLOSE) == WrittenFrom(d, b, 0, 0)
  {
    hide WrittenFrom;
    SameBehind(d, s, k, b, 0, CLOSE);
    SamePrevious(d, b, 0, CLOSE, 0);
  }

  /** A list of values is redacted to a list of as many placeholders, and what surrounds it by itself. */
  lemma ListRedacted(d: Dialect, a: text, items: seq<text>, gaps: seq<bool>, b: text)
    requires ClosedFrom(d, a, 0) && |items| == |gaps| + 1 && forall u :: u in items ==> IsItem(d, u)
    requires OneReading(a + ValueList(items, gaps) + b, d)
    ensures RedactedText(a + ValueList(items, gaps) + b, d) ==
            WrittenFrom(d, a, 0, 0) + PlaceholderList(gaps) + WrittenFrom(d, b, 0, 0)
    ensures OneReading(a, d) ==> WrittenFrom(d, a, 0, 0) == RedactedText(a, d)
    ensures OneReading(b, d) ==> WrittenFrom(d, b, 0, 0) == RedactedText(b, d)
  {
    hide WrittenFrom, IsItem, ClosedFrom, RedactedText, PiecesFrom, Pieces, OneReading;
    ListWritten(d, a, items, gaps, b);
    FromTheStart(a + ValueList(items, gaps) + b, d);
    if OneReading(a, d) { FromTheStart(a, d); }
    if OneReading(b, d) { FromTheStart(b, d); }
  }
}
