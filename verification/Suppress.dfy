/** lexSQL, commentDirective, parseIgnoreDirective and intersectDirectives: which rules a query
    switches off, and that text inside a literal never does. */
module Suppress {
  import opened Bytes
  import opened Lexing
  import opened Scanners
  import opened Spans

  /** The reading lexSQL runs under. */
  function LexReading(backslash: bool, dollar: bool, hash: bool, looseDash: bool): Reading
  {
    Reading(backslash, backslash, dollar, Quoting, true, hash, looseDash)
  }

  /** The comment spans, or the literal spans, from i on. */
  function RangesFrom(r: Reading, comments: bool, s: text, i: nat): seq<Span>
    requires i <= |s|
    decreases |s| - i
  {
    if i == |s| then []
    else
      var c := CutFrom(r, s, i);
      (if Picks(comments, c.kind) then [Span(i, i + c.len)] else []) + RangesFrom(r, comments, s, i + c.len)
  }

  predicate Picks(comments: bool, k: Kind) { if comments then k.IsComment() else k.IsLiteral() }

  /** What the pass meets at i under its reading. */
  lemma SqlCut(bs: bool, dollar: bool, hash: bool, loose: bool, s: text, i: nat)
    requires i < |s|
    ensures CutFrom(LexReading(bs, dollar, hash, loose), s, i) ==
      if s[i] == SQUOTE || s[i] == DQUOTE || s[i] == BACKTICK then
        var e := Run(s[i], bs && s[i] != BACKTICK, s, i + 1); Cut(Quoted, 1 + e.len, e.closed)
      else if s[i] == DOLLAR && dollar && !WordBefore(s, i) && DollarTag(s, i) > 0 then
        var e := DollarRun(s, i); Cut(DollarQuoted, e.len, e.closed)
      else if IsLineComment(s, i, hash, loose) then Cut(LineComment, LineRun(s, i), true)
      else if s[i] == SLASH && i + 1 < |s| && s[i + 1] == STAR then
        var e := BlockRun(s, i); Cut(BlockComment, e.len, e.closed)
      else Cut(Plain, 1, true)
  {
  }

  lemma RangesStep(a: seq<Span>, r: Reading, comments: bool, s: text, i: nat)
    requires i < |s|
    ensures var c := CutFrom(r, s, i);
      a + RangesFrom(r, comments, s, i) ==
      (if Picks(comments, c.kind) then a + [Span(i, i + c.len)] else a) + RangesFrom(r, comments, s, i + c.len)
  {
    hide CutAt;
    var j := i + CutFrom(r, s, i).len;
    assert a + ([Span(i, j)] + RangesFrom(r, comments, s, j)) == a + [Span(i, j)] + RangesFrom(r, comments, s, j);
    assert a + ([] + RangesFrom(r, comments, s, j)) == a + RangesFrom(r, comments, s, j);
  }

  lemma NoRangesLeft(r: Reading, comments: bool, s: text)
    ensures RangesFrom(r, comments, s, |s|) == []
  {
  }

  /** lexSQL */
  method LexSQL(sql: text, backslash: bool, dollar: bool, hash: bool, looseDash: bool)
    returns (comments: seq<Span>, literals: seq<Span>)
    ensures comments == RangesFrom(LexReading(backslash, dollar, hash, looseDash), true, sql, 0)
    ensures literals == RangesFrom(LexReading(backslash, dollar, hash, looseDash), false, sql, 0)
  {
    hide CutFrom, RangesFrom, DollarRun, Run, DollarTag, LineRun;
    ghost var r := LexReading(backslash, dollar, hash, looseDash);
    comments, literals := [], [];
    var i := 0;
    while i < |sql|
      invariant i <= |sql|
      invariant comments + RangesFrom(r, true, sql, i) == RangesFrom(r, true, sql, 0)
      invariant literals + RangesFrom(r, false, sql, i) == RangesFrom(r, false, sql, 0)
    {
      SqlCut(backslash, dollar, hash, looseDash, sql, i);
      RangesStep(comments, r, true, sql, i);
      RangesStep(literals, r, false, sql, i);
      var c := sql[i];
      if c == SQUOTE || c == DQUOTE || c == BACKTICK {
        var j := ScanQuotedRun(sql, i, backslash && c != BACKTICK);
        literals := literals + [Span(i, j)];
        i := j;
      } else if c == DOLLAR && dollar {
        var j, _, ok := ScanDollarQuoted(sql, i);
        if !ok {
          i := i + 1;
          continue;
        }
        literals := literals + [Span(i, j)];
        i := j;
      } else if IsLineComment(sql, i, hash, looseDash) {
        var j := SkipLineComment(sql, i);
        comments := comments + [Span(i, j)];
        i := j;
      } else if c == SLASH && i + 1 < |sql| && sql[i + 1] == STAR {
        BlockEnds(sql, i + 2);
        var j := SkipBlockComment(sql, i);
        j := if j < |sql| then j else |sql|;
        comments := comments + [Span(i, j)];
        i := j;
      } else {
        i := i + 1;
      }
    }
    NoRangesLeft(r, true, sql);
    NoRangesLeft(r, false, sql);
  }

  /** The spans cover exactly the bytes of line and block comments, or those of quoted runs and dollar quotes. */
  lemma {:induction false} RangesCover(r: Reading, comments: bool, s: text, i: nat, p: nat)
    requires i <= p < |s|
    ensures var k := KindAt(r, s, i, p);
      Covers(RangesFrom(r, comments, s, i), p) <==>
      if comments then k == LineComment || k == BlockComment else k == Quoted || k == DollarQuoted
    decreases |s| - i
  {
    PicksExactly(comments, CutFrom(r, s, i).kind);
    hide CutAt, Picks;
    var c := CutFrom(r, s, i);
    var j := i + c.len;
    var first := if Picks(comments, c.kind) then [Span(i, j)] else [];
    RangesOrdered(r, comments, s, j);
    CoversConcat(first, RangesFrom(r, comments, s, j), p);
    CoversOne(Span(i, j), p);
    if j <= p { RangesCover(r, comments, s, j, p); }
  }

  lemma PicksExactly(comments: bool, k: Kind)
    ensures Picks(comments, k) <==>
            if comments then k == LineComment || k == BlockComment else k == Quoted || k == DollarQuoted
  {
  }

  lemma {:induction false} RangesOrdered(r: Reading, comments: bool, s: text, i: nat)
    requires i <= |s|
    ensures var a := RangesFrom(r, comments, s, i);
            Ordered(a, |s|) && forall k :: 0 <= k < |a| ==> i <= a[k].lo
    decreases |s| - i
  {
    hide CutAt, Picks;
    if i < |s| { RangesOrdered(r, comments, s, i + CutFrom(r, s, i).len); }
  }

  // ---- the directive in a comment ----

  /** sqlguard:ignore */
  const TOKEN: text := [115, 113, 108, 103, 117, 97, 114, 100, 58, 105, 103, 110, 111, 114, 101]

  predicate TokenAt(t: text, k: int)
  {
    0 <= k <= |t| - |TOKEN| && EqualFold(t[k..k + |TOKEN|], TOKEN)
  }

  /** A byte of a rule list: letters, digits, "_", ",", "-" and the white space of \s. */
  predicate IsRuleByte(c: byte)
  {
    IsLetter(c) || IsDigit(c) || c == UNDERSCORE || c == COMMA || c == DASH || (IsSpace(c) && c != 11)
  }

  function RuleRun(t: text, k: nat): (n: nat)
    requires k <= |t|
    ensures k + n <= |t|
    decreases |t| - k
  {
    if k == |t| || !IsRuleByte(t[k]) then 0 else 1 + RuleRun(t, k + 1)
  }

  /** A match of ignoreTokenRe: where it starts, and the rule list behind its colon. */
  datatype Match = Match(at: nat, list: text)

  /** Where the list of the token at k starts and ends; empty when no colon and list follow. */
  function ListBounds(t: text, k: nat): (b: (nat, nat))
    requires TokenAt(t, k)
    ensures k + |TOKEN| <= b.0 <= b.1 <= |t|
  {
    var e := k + |TOKEN|;
    if e < |t| && t[e] == COLON && RuleRun(t, e + 1) > 0 then (e + 1, e + 1 + RuleRun(t, e + 1)) else (e, e)
  }

  /** The matches of ignoreTokenRe at or after k, left to right and not overlapping. */
  function Matches(t: text, k: nat): seq<Match>
    decreases |t| - k
  {
    if k >= |t| then []
    else if TokenAt(t, k) then
      var b := ListBounds(t, k);
      [Match(k, t[b.0..b.1])] + Matches(t, b.1)
    else Matches(t, k + 1)
  }

  function SplitCommas(t: text): seq<text>
  {
    var k := IndexFrom(t, [COMMA], 0);
    if k < 0 then [t] else [t[..k]] + SplitCommas(t[k + 1..])
  }

  /** The rule names of a list. */
  function NamesIn(list: text): set<text>
  {
    set x | x in SplitCommas(list) && TrimSpace(x) != [] :: TrimSpace(x)
  }

  /** What a query switches off: everything, or the named rules. */
  datatype Ignored = Ignored(all: bool, rules: set<text>) {
    predicate Canonical() { all ==> rules == {} }

    predicate Suppresses(name: text) { all || name in rules }
  }

  predicate InAny(readings: seq<seq<Span>>, pos: nat)
  {
    exists k, m :: 0 <= k < |readings| && 0 <= m < |readings[k]| && readings[k][m].lo <= pos < readings[k][m].hi
  }

  /** A directive that counts: its position in the query and its list. */
  datatype Hit = Hit(pos: nat, list: text)

  function HitsIn(ms: seq<Match>, lo: nat, literals: seq<seq<Span>>): seq<Hit>
  {
    if ms == [] then []
    else
      (if InAny(literals, lo + ms[0].at) then [] else [Hit(lo + ms[0].at, ms[0].list)]) +
      HitsIn(ms[1..], lo, literals)
  }

  function HitsOf(sql: text, comments: seq<Span>, literals: seq<seq<Span>>): seq<Hit>
    requires Ordered(comments, |sql|)
  {
    if comments == [] then []
    else
      HitsIn(Matches(sql[comments[0].lo..comments[0].hi], 0), comments[0].lo, literals) +
      HitsOf(sql, comments[1..], literals)
  }

  /** What the hits switch off together. */
  function Collect(hits: seq<Hit>): Ignored
  {
    if hits == [] then Ignored(false, {})
    else if TrimSpace(hits[0].list) == [] then Ignored(true, {})
    else Add(NamesIn(TrimSpace(hits[0].list)), Collect(hits[1..]))
  }

  function Add(names: set<text>, x: Ignored): Ignored
  {
    if x.all then Ignored(true, {}) else Ignored(false, names + x.rules)
  }

  /** The literal spans under the four combinations of the markers dialects disagree about. */
  function Variants(sql: text, backslash: bool, dollar: bool): seq<seq<Span>>
  {
    [RangesFrom(LexReading(backslash, dollar, true, true), false, sql, 0),
     RangesFrom(LexReading(backslash, dollar, true, false), false, sql, 0),
     RangesFrom(LexReading(backslash, dollar, false, true), false, sql, 0),
     RangesFrom(LexReading(backslash, dollar, false, false), false, sql, 0)]
  }

  function Hits(sql: text, backslash: bool, dollar: bool): seq<Hit>
  {
    RangesOrdered(LexReading(backslash, dollar, true, true), true, sql, 0);
    HitsOf(sql, RangesFrom(LexReading(backslash, dollar, true, true), true, sql, 0), Variants(sql, backslash, dollar))
  }

  lemma CollectCanonical(hits: seq<Hit>)
    ensures Collect(hits).Canonical() && Add({}, Collect(hits)) == Collect(hits)
  {
    hide NamesIn, TrimSpace;
    var x := Collect(hits);
    assert {} + x.rules == x.rules;
  }

  lemma NoHitsLeft(lo: nat, literals: seq<seq<Span>>)
    ensures HitsIn([], lo, literals) == []
  {
  }

  lemma NothingMore(sql: text, literals: seq<seq<Span>>, rules: set<text>)
    ensures Add(rules, Collect(HitsOf(sql, [], literals))) == Ignored(false, rules)
  {
  }

  /** The loops of commentDirective that collect the literals of every marker combination. */
  method LiteralVariants(sql: text, backslash: bool, dollar: bool) returns (literals: seq<seq<Span>>)
    ensures literals == Variants(sql, backslash, dollar)
  {
    hide RangesFrom;
    literals := [];
    for h := 0 to 2
      invariant literals == Variants(sql, backslash, dollar)[..2 * h]
    {
      for l := 0 to 2
        invariant literals == Variants(sql, backslash, dollar)[..2 * h + l]
      {
        var _, lits := LexSQL(sql, backslash, dollar, h == 0, l == 0);
        literals := literals + [lits];
      }
    }
  }

  /** inAnySpans */
  method InAnySpans(readings: seq<seq<Span>>, pos: nat) returns (found: bool)
    ensures found <==> InAny(readings, pos)
  {
    for k := 0 to |readings|
      invariant forall j, m :: 0 <= j < k && 0 <= m < |readings[j]| ==> !(readings[j][m].lo <= pos < readings[j][m].hi)
    {
      for m := 0 to |readings[k]|
        invariant forall n :: 0 <= n < m ==> !(readings[k][n].lo <= pos < readings[k][n].hi)
      {
        if readings[k][m].lo <= pos < readings[k][m].hi {
          return true;
        }
      }
    }
    return false;
  }

  /** The loop over the names of one list. */
  method AddNames(rules: set<text>, list: text) returns (out: set<text>)
    ensures out == rules + NamesIn(list)
  {
    hide TrimSpace, SplitCommas;
    out := rules;
    var names := SplitCommas(list);
    for k := 0 to |names|
      invariant out == rules + set x | x in names[..k] && TrimSpace(x) != [] :: TrimSpace(x)
    {
      assert names[..k + 1] == names[..k] + [names[k]];
      var name := TrimSpace(names[k]);
      if name != [] {
        out := out + {name};
      }
    }
    assert names[..|names|] == names;
  }

  /** commentDirective */
  method CommentDirective(sql: text, backslash: bool, dollar: bool) returns (all: bool, rules: set<text>)
    ensures Ignored(all, rules) == Collect(Hits(sql, backslash, dollar))
  {
    hide RangesFrom, Matches, TokenAt, ListBounds, NamesIn, InAny, TrimSpace, HitsIn, Collect, Add;
    var comments, _ := LexSQL(sql, backslash, dollar, true, true);
    var literals := LiteralVariants(sql, backslash, dollar);
    RangesOrdered(LexReading(backslash, dollar, true, true), true, sql, 0);
    assert comments[0..] == comments;
    CollectCanonical(Hits(sql, backslash, dollar));
    rules := {};
    var k := 0;
    while k < |comments|
      invariant k <= |comments| && Ordered(comments[k..], |sql|)
      invariant Collect(Hits(sql, backslash, dollar)) == Add(rules, Collect(HitsOf(sql, comments[k..], literals)))
    {
      var c := comments[k];
      var ms := Matches(sql[c.lo..c.hi], 0);
      assert comments[k..][0] == c && comments[k..][1..] == comments[k + 1..];
      ghost var rest := HitsOf(sql, comments[k + 1..], literals);
      var j := 0;
      while j < |ms|
        invariant j <= |ms|
        invariant Collect(Hits(sql, backslash, dollar)) == Add(rules, Collect(HitsIn(ms[j..], c.lo, literals) + rest))
      {
        var m := ms[j];
        assert ms[j..][0] == m && ms[j..][1..] == ms[j + 1..];
        HitStep(ms[j..], c.lo, literals, rest, rules);
        j := j + 1;
        var inside := InAnySpans(literals, c.lo + m.at);
        if inside {
          continue;
        }
        var list := TrimSpace(m.list);
        if list == [] {
          return true, {};
        }
        rules := AddNames(rules, list);
      }
      NoHitsLeft(c.lo, literals);
      assert ms[j..] == [] && [] + rest == rest;
      k := k + 1;
    }
    assert comments[k..] == [];
    NothingMore(sql, literals, rules);
    return false, rules;
  }

  /** One match: skipped inside a literal, everything without a list, its names otherwise. */
  lemma HitStep(ms: seq<Match>, lo: nat, literals: seq<seq<Span>>, rest: seq<Hit>, rules: set<text>)
    requires ms != []
    ensures var tail := HitsIn(ms[1..], lo, literals) + rest;
      Add(rules, Collect(HitsIn(ms, lo, literals) + rest)) ==
      if InAny(literals, lo + ms[0].at) then Add(rules, Collect(tail))
      else if TrimSpace(ms[0].list) == [] then Ignored(true, {})
      else Add(rules + NamesIn(TrimSpace(ms[0].list)), Collect(tail))
  {
    hide InAny, NamesIn, TrimSpace;
    var tail := HitsIn(ms[1..], lo, literals) + rest;
    if InAny(literals, lo + ms[0].at) {
      assert HitsIn(ms, lo, literals) + rest == tail;
    } else {
      var h := Hit(lo + ms[0].at, ms[0].list);
      assert HitsIn(ms, lo, literals) + rest == [h] + tail;
      assert ([h] + tail)[1..] == tail;
    }
  }

  // ---- parseIgnoreDirective ----

  /** intersectDirectives */
  function Meet(a: Ignored, b: Ignored): Ignored
  {
    if a.all && b.all then Ignored(true, {})
    else if a.all then Ignored(false, b.rules)
    else if b.all then Ignored(false, a.rules)
    else Ignored(false, a.rules * b.rules)
  }

  /** intersectDirectives, over its loop */
  method IntersectDirectives(aAll: bool, a: set<text>, bAll: bool, b: set<text>) returns (all: bool, out: set<text>)
    ensures Ignored(all, out) == Meet(Ignored(aAll, a), Ignored(bAll, b))
  {
    if aAll && bAll {
      return true, {};
    }
    if aAll {
      return false, b;
    }
    if bAll {
      return false, a;
    }
    all, out := false, {};
    var left := a;
    while left != {}
      invariant left <= a && out == (a - left) * b
    {
      var name :| name in left;
      left := left - {name};
      if name in b {
        out := out + {name};
      }
    }
  }

  function Directive(sql: text, backslash: bool, dollar: bool): Ignored { Collect(Hits(sql, backslash, dollar)) }

  /** What all four backslash and dollar readings agree to switch off. */
  function MeetOfReadings(sql: text): Ignored
  {
    Meet(Meet(Meet(Directive(sql, false, true), Directive(sql, false, false)),
              Directive(sql, true, true)), Directive(sql, true, false))
  }

  /** containsFold, for the directive's token */
  method ContainsToken(s: text) returns (found: bool)
    ensures found <==> exists k :: TokenAt(s, k)
  {
    hide EqualFold;
    var i := 0;
    while i + |TOKEN| <= |s|
      invariant forall k :: TokenAt(s, k) ==> i <= k
    {
      if TokenAt(s, i) {
        return true;
      }
      i := i + 1;
    }
    return false;
  }

  /** parseIgnoreDirective */
  method ParseIgnoreDirective(sql: text) returns (ignoreAll: bool, ignored: set<text>)
    ensures Ignored(ignoreAll, ignored) == MeetOfReadings(sql)
  {
    hide Meet, Hits, Collect;
    var found := ContainsToken(sql);
    if !found {
      NothingWithoutToken(sql);
      return false, {};
    }
    ignoreAll, ignored := false, {};
    var first := true;
    ghost var met: seq<Ignored> := [];
    for b := 0 to 2
      invariant first <==> met == []
      invariant met != [] ==> Ignored(ignoreAll, ignored) == MeetAll(met)
      invariant met == Taken(sql, 2 * b)
    {
      var backslash := b == 1;
      if backslash && BACKSLASH !in sql {
        continue;
      }
      for d := 0 to 2
        invariant first <==> met == []
        invariant met != [] ==> Ignored(ignoreAll, ignored) == MeetAll(met)
        invariant met == Taken(sql, 2 * b + d)
      {
        var dollar := d == 0;
        if !dollar && DOLLAR !in sql {
          continue;
        }
        var all, rules := CommentDirective(sql, backslash, dollar);
        ghost var was := met;
        met := met + [Ignored(all, rules)];
        assert met[..|was|] == was;
        if first {
          ignoreAll, ignored, first := all, rules, false;
          continue;
        }
        ignoreAll, ignored := IntersectDirectives(ignoreAll, ignored, all, rules);
      }
    }
    TakenIsEnough(sql);
  }

  /** The meet of a list, from the left. */
  function MeetAll(xs: seq<Ignored>): Ignored
    requires xs != []
  {
    if |xs| == 1 then xs[0] else Meet(MeetAll(xs[..|xs| - 1]), xs[|xs| - 1])
  }

  /** The readings that are run among the first n, in order. */
  function Taken(sql: text, n: nat): seq<Ignored>
    requires n <= 4
  {
    if n == 0 then []
    else
      var backslash, dollar := n > 2, n % 2 == 1;
      var before := Taken(sql, n - 1);
      if (backslash && BACKSLASH !in sql) || (!dollar && DOLLAR !in sql) then before
      else before + [Directive(sql, backslash, dollar)]
  }

  // ---- the meet ----

  /** intersectDirectives is the meet of what two readings suppress: commutative, associative,
      idempotent, with "everything" on top. */
  lemma MeetLaws(a: Ignored, b: Ignored, c: Ignored)
    requires a.Canonical() && b.Canonical() && c.Canonical()
    ensures Meet(a, b).Canonical() && Meet(a, b) == Meet(b, a)
    ensures Meet(Meet(a, b), c) == Meet(a, Meet(b, c))
    ensures Meet(a, a) == a
    ensures Meet(Ignored(true, {}), a) == a
    ensures forall name :: Meet(a, b).Suppresses(name) <==> a.Suppresses(name) && b.Suppresses(name)
  {
    assert a.rules * b.rules == b.rules * a.rules;
    assert a.rules * b.rules * c.rules == a.rules * (b.rules * c.rules);
    assert a.rules * a.rules == a.rules;
  }

  lemma {:induction false} RangesWithoutBackslash(dollar: bool, h: bool, l: bool, comments: bool, s: text, i: nat)
    requires i <= |s| && BACKSLASH !in s
    ensures RangesFrom(LexReading(true, dollar, h, l), comments, s, i) ==
            RangesFrom(LexReading(false, dollar, h, l), comments, s, i)
    decreases |s| - i
  {
    hide CutFrom, Run, DollarTag, DollarRun, IsLineComment, LineRun, BlockRun;
    if i < |s| {
      SqlCut(true, dollar, h, l, s, i);
      SqlCut(false, dollar, h, l, s, i);
      RunWithoutBackslash(s[i], s, i + 1);
      RangesWithoutBackslash(dollar, h, l, comments, s, i + CutFrom(LexReading(true, dollar, h, l), s, i).len);
    }
  }

  lemma {:induction false} RangesWithoutDollar(bs: bool, h: bool, l: bool, comments: bool, s: text, i: nat)
    requires i <= |s| && DOLLAR !in s
    ensures RangesFrom(LexReading(bs, false, h, l), comments, s, i) ==
            RangesFrom(LexReading(bs, true, h, l), comments, s, i)
    decreases |s| - i
  {
    hide CutFrom, Run, DollarTag, DollarRun, IsLineComment, LineRun, BlockRun;
    if i < |s| {
      SqlCut(bs, false, h, l, s, i);
      SqlCut(bs, true, h, l, s, i);
      assert s[i] in s;
      RangesWithoutDollar(bs, h, l, comments, s, i + CutFrom(LexReading(bs, true, h, l), s, i).len);
    }
  }

  /** A skipped reading would have found what the one that is run finds. */
  lemma SkippedReadings(sql: text, backslash: bool, dollar: bool)
    ensures BACKSLASH !in sql ==> Directive(sql, true, dollar) == Directive(sql, false, dollar)
    ensures DOLLAR !in sql ==> Directive(sql, backslash, false) == Directive(sql, backslash, true)
  {
    hide RangesFrom, HitsOf, Collect;
    if BACKSLASH !in sql {
      RangesWithoutBackslash(dollar, true, true, true, sql, 0);
      RangesWithoutBackslash(dollar, true, true, false, sql, 0);
      RangesWithoutBackslash(dollar, true, false, false, sql, 0);
      RangesWithoutBackslash(dollar, false, true, false, sql, 0);
      RangesWithoutBackslash(dollar, false, false, false, sql, 0);
    }
    if DOLLAR !in sql {
      RangesWithoutDollar(backslash, true, true, true, sql, 0);
      RangesWithoutDollar(backslash, true, true, false, sql, 0);
      RangesWithoutDollar(backslash, true, false, false, sql, 0);
      RangesWithoutDollar(backslash, false, true, false, sql, 0);
      RangesWithoutDollar(backslash, false, false, false, sql, 0);
    }
  }

  /** The readings that are run give the meet of all four. */
  lemma TakenIsEnough(sql: text)
    ensures Taken(sql, 4) != [] && MeetAll(Taken(sql, 4)) == MeetOfReadings(sql)
  {
    hide Directive, Meet;
    var a, b := Directive(sql, false, true), Directive(sql, false, false);
    var c, d := Directive(sql, true, true), Directive(sql, true, false);
    DirectivesCanonical(sql);
    SkippedReadings(sql, false, true);
    SkippedReadings(sql, true, true);
    SkippedReadings(sql, false, false);
    TakenList(sql);
    MeetOfFour(a, b, c, d);
    if BACKSLASH !in sql {
      if DOLLAR !in sql { assert MeetAll([a]) == a; } else { assert [a, b][..1] == [a]; }
    } else if DOLLAR !in sql {
      assert [a, c][..1] == [a];
    } else {
      FourTaken(a, b, c, d);
    }
  }

  lemma FourTaken(a: Ignored, b: Ignored, c: Ignored, d: Ignored)
    ensures MeetAll([a, b, c, d]) == Meet(Meet(Meet(a, b), c), d)
  {
    hide Meet;
    assert [a, b, c, d][..3] == [a, b, c] && [a, b, c][..2] == [a, b] && [a, b][..1] == [a];
    assert MeetAll([a]) == a && MeetAll([a, b]) == Meet(a, b) && MeetAll([a, b, c]) == Meet(Meet(a, b), c);
  }

  lemma DirectivesCanonical(sql: text)
    ensures forall bs, dl :: Directive(sql, bs, dl).Canonical()
  {
    hide Hits;
    forall bs, dl ensures Directive(sql, bs, dl).Canonical() {
      CollectCanonical(Hits(sql, bs, dl));
    }
  }

  lemma TakenList(sql: text)
    ensures var a, b := Directive(sql, false, true), Directive(sql, false, false);
            var c, d := Directive(sql, true, true), Directive(sql, true, false);
            Taken(sql, 4) == if BACKSLASH !in sql then if DOLLAR !in sql then [a] else [a, b]
                             else if DOLLAR !in sql then [a, c] else [a, b, c, d]
  {
    hide Directive;
    assert Taken(sql, 1) == [Directive(sql, false, true)];
    assert Taken(sql, 2) == if DOLLAR !in sql then Taken(sql, 1) else Taken(sql, 1) + [Directive(sql, false, false)];
    assert Taken(sql, 3) == if BACKSLASH !in sql then Taken(sql, 2) else Taken(sql, 2) + [Directive(sql, true, true)];
  }

  /** Repeated readings do not change the meet. */
  lemma MeetOfFour(a: Ignored, b: Ignored, c: Ignored, d: Ignored)
    requires a.Canonical() && b.Canonical() && c.Canonical() && d.Canonical()
    ensures a == b == c == d ==> Meet(Meet(Meet(a, b), c), d) == a
    ensures a == c && b == d ==> Meet(Meet(Meet(a, b), c), d) == Meet(a, b)
    ensures a == b && c == d ==> Meet(Meet(Meet(a, b), c), d) == Meet(a, c)
  {
    hide Meet;
    MeetLaws(a, a, a);
    MeetLaws(a, b, a);
    MeetLaws(a, b, b);
    MeetLaws(b, a, a);
    MeetLaws(a, c, c);
    MeetLaws(c, c, c);
    MeetLaws(b, b, b);
  }

  // ---- without a token nothing is suppressed ----

  lemma TokenInSlice(sql: text, lo: nat, hi: nat, k: int)
    requires lo <= hi <= |sql| && TokenAt(sql[lo..hi], k)
    ensures TokenAt(sql, lo + k)
  {
    SliceOfSlice(sql, lo, hi, k, k + |TOKEN|);
  }

  lemma {:induction false} MatchesAreTokens(t: text, k: nat)
    ensures forall m :: m in Matches(t, k) ==> TokenAt(t, m.at)
    decreases |t| - k
  {
    hide TokenAt, RuleRun;
    if k < |t| {
      if TokenAt(t, k) { MatchesAreTokens(t, ListBounds(t, k).1); } else { MatchesAreTokens(t, k + 1); }
    }
  }

  lemma {:induction false} HitsAreMatches(ms: seq<Match>, lo: nat, literals: seq<seq<Span>>)
    ensures forall h :: h in HitsIn(ms, lo, literals) ==>
              h.pos >= lo && Match(h.pos - lo, h.list) in ms && !InAny(literals, h.pos)
  {
    hide InAny;
    if ms != [] { HitsAreMatches(ms[1..], lo, literals); }
  }

  /** A hit: the token stands at its position, in one of the comments and in none of the literals. */
  ghost predicate Genuine(sql: text, comments: seq<Span>, literals: seq<seq<Span>>, h: Hit)
  {
    TokenAt(sql, h.pos) && Covers(comments, h.pos) && !InAny(literals, h.pos)
  }

  lemma {:induction false} HitsAreGenuine(sql: text, comments: seq<Span>, literals: seq<seq<Span>>)
    requires Ordered(comments, |sql|)
    ensures forall h :: h in HitsOf(sql, comments, literals) ==> Genuine(sql, comments, literals, h)
  {
    hide Matches, HitsIn, TokenAt, InAny, Covers;
    if comments != [] {
      var c := comments[0];
      assert comments == [c] + comments[1..];
      var t := sql[c.lo..c.hi];
      var ms := Matches(t, 0);
      HitsAreGenuine(sql, comments[1..], literals);
      MatchesAreTokens(t, 0);
      HitsAreMatches(ms, c.lo, literals);
      forall h | h in HitsOf(sql, comments, literals) ensures Genuine(sql, comments, literals, h) {
        CoversConcat([c], comments[1..], h.pos);
        CoversOne(c, h.pos);
        assert h in HitsIn(ms, c.lo, literals) || h in HitsOf(sql, comments[1..], literals);
        if h in HitsIn(ms, c.lo, literals) {
          TokenInSlice(sql, c.lo, c.hi, h.pos - c.lo);
          TokenFits(t, h.pos - c.lo);
        }
      }
    }
  }

  lemma TokenFits(t: text, k: int)
    requires TokenAt(t, k)
    ensures 0 <= k < |t|
  {
  }

  lemma SomeHit(hits: seq<Hit>)
    ensures hits != [] ==> exists h :: h in hits
  {
    assert |hits| > 0 ==> hits[0] in hits;
  }

  lemma NothingWithoutToken(sql: text)
    requires forall k :: !TokenAt(sql, k)
    ensures MeetOfReadings(sql) == Ignored(false, {})
  {
    hide Meet, HitsOf, TokenAt, RangesFrom;
    forall bs, dl ensures Directive(sql, bs, dl) == Ignored(false, {}) {
      RangesOrdered(LexReading(bs, dl, true, true), true, sql, 0);
      HitsAreGenuine(sql, RangesFrom(LexReading(bs, dl, true, true), true, sql, 0), Variants(sql, bs, dl));
      var hits := Hits(sql, bs, dl);
      SomeHit(hits);
    }
    MeetLaws(Ignored(false, {}), Ignored(false, {}), Ignored(false, {}));
  }

  // ---- what suppression means ----

  /** A hit suppresses the name: it has no list, or the name is in it. */
  predicate HitSuppresses(h: Hit, name: text)
  {
    TrimSpace(h.list) == [] || name in NamesIn(TrimSpace(h.list))
  }

  lemma {:induction false} CollectMeaning(hits: seq<Hit>, name: text)
    ensures Collect(hits).Suppresses(name) <==> exists h :: h in hits && HitSuppresses(h, name)
    ensures Collect(hits).all <==> exists h :: h in hits && TrimSpace(h.list) == []
  {
    hide NamesIn, TrimSpace;
    if hits != [] {
      CollectMeaning(hits[1..], name);
      assert forall h :: h in hits <==> h == hits[0] || h in hits[1..];
      assert hits[0] in hits;
      if exists h :: h in hits[1..] && HitSuppresses(h, name) {
        var h :| h in hits[1..] && HitSuppresses(h, name);
        assert h in hits;
      }
    }
  }

  /** The directive at position p counts under one backslash and dollar reading: it stands in a
      comment when every marker is accepted, and in no literal whichever markers are. */
  ghost predicate Counts(sql: text, backslash: bool, dollar: bool, p: nat)
  {
    TokenAt(sql, p) && p < |sql| &&
    KindAt(LexReading(backslash, dollar, true, true), sql, 0, p).IsComment() &&
    forall hash, loose :: !KindAt(LexReading(backslash, dollar, hash, loose), sql, 0, p).IsLiteral()
  }

  lemma GenuineCounts(sql: text, backslash: bool, dollar: bool, h: Hit)
    requires Genuine(sql, RangesFrom(LexReading(backslash, dollar, true, true), true, sql, 0),
                     Variants(sql, backslash, dollar), h)
    ensures Counts(sql, backslash, dollar, h.pos)
  {
    hide KindAt, RangesFrom, TokenAt;
    TokenFits(sql, h.pos);
    var r := LexReading(backslash, dollar, true, true);
    var comments, literals := RangesFrom(r, true, sql, 0), Variants(sql, backslash, dollar);
    RangesCover(r, true, sql, 0, h.pos);
    forall hash, loose
      ensures !KindAt(LexReading(backslash, dollar, hash, loose), sql, 0, h.pos).IsLiteral()
    {
      var k := if hash then if loose then 0 else 1 else if loose then 2 else 3;
      RangesCover(LexReading(backslash, dollar, hash, loose), false, sql, 0, h.pos);
      NotInThat(literals, k, h.pos);
    }
  }

  lemma NotInThat(readings: seq<seq<Span>>, k: nat, pos: nat)
    requires k < |readings| && !InAny(readings, pos)
    ensures !Covers(readings[k], pos)
  {
  }

  /** A rule is suppressed only if every reading has a directive for it that counts. */
  lemma SuppressionIsGenuine(sql: text, name: text, backslash: bool, dollar: bool)
    ensures MeetOfReadings(sql).Suppresses(name) ==>
      exists h :: h in Hits(sql, backslash, dollar) && HitSuppresses(h, name) && Counts(sql, backslash, dollar, h.pos)
  {
    hide Meet, Collect, HitsOf, RangesFrom, Counts, HitSuppresses, Genuine;
    EveryReading(sql, name);
    var r := LexReading(backslash, dollar, true, true);
    RangesOrdered(r, true, sql, 0);
    CollectMeaning(Hits(sql, backslash, dollar), name);
    HitsAreGenuine(sql, RangesFrom(r, true, sql, 0), Variants(sql, backslash, dollar));
    if MeetOfReadings(sql).Suppresses(name) {
      var h :| h in Hits(sql, backslash, dollar) && HitSuppresses(h, name);
      GenuineCounts(sql, backslash, dollar, h);
    }
  }

  /** Conversely, the result suppresses exactly what all four readings suppress. */
  lemma EveryReading(sql: text, name: text)
    ensures MeetOfReadings(sql).Suppresses(name) <==>
            forall bs, dl :: Directive(sql, bs, dl).Suppresses(name)
  {
    hide Meet, Directive;
    DirectivesCanonical(sql);
    var a, b := Directive(sql, false, true), Directive(sql, false, false);
    var c, d := Directive(sql, true, true), Directive(sql, true, false);
    MeetLaws(a, b, c);
    MeetLaws(Meet(a, b), c, d);
    MeetLaws(Meet(Meet(a, b), c), d, d);
  }
}
