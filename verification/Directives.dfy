/** What a directive says: which texts are tokens, which list a token has, and what a query with one directive
    switches off. */
module Directives {
  import opened Bytes
  import opened Lexing
  import opened Spans
  import opened Spelling
  import opened Suppress
  import opened Tokens

  // ---- tokens and lists ----

  lemma TokenSpelled()
    ensures IsSpelling(TOKEN, "sqlguard:ignore")
  {
    var w := "sqlguard:ignore";
    assert |w| == 15 && |TOKEN| == 15;
    assert w[0] == 's' && w[1] == 'q' && w[2] == 'l' && w[3] == 'g' && w[4] == 'u' && w[5] == 'a' && w[6] == 'r';
    assert w[7] == 'd' && w[8] == ':' && w[9] == 'i' && w[10] == 'g' && w[11] == 'n' && w[12] == 'o' && w[13] == 'r';
    assert w[14] == 'e';
  }

  /** sqlguard:ignore stands at k, in any case. */
  predicate IsToken(t: text, k: nat) { k + 15 <= |t| && Spells(t[k..k + 15], "sqlguard:ignore") }

  lemma TokenExactly(t: text, k: nat)
    ensures TokenAt(t, k) <==> IsToken(t, k)
  {
    TokenSpelled();
    if k + 15 <= |t| { FoldIsSpelling(t[k..k + 15], TOKEN, "sqlguard:ignore"); }
  }

  /** A byte that a list can hold: "_", ",", "-", digits, letters, and tab, line end, form feed, return and space. */
  predicate InList(b: byte)
  {
    b == 95 || b == 44 || b == 45 || 48 <= b <= 57 || 65 <= b <= 90 || 97 <= b <= 122 ||
    b == 9 || b == 10 || b == 12 || b == 13 || b == 32
  }

  lemma {:induction false} RunIsList(t: text, k: nat)
    requires k <= |t|
    ensures var j := k + RuleRun(t, k); (forall p :: k <= p < j ==> InList(t[p])) && (j < |t| ==> !InList(t[j]))
    decreases |t| - k
  {
    if k < |t| { RunIsList(t, k + 1); }
  }

  /** The list of the token at k is the longest run of list bytes behind a colon; there is none exactly when no colon
      follows the token, or no such byte the colon. */
  lemma ListExactly(t: text, k: nat)
    requires TokenAt(t, k)
    ensures var (lo, hi) := ListBounds(t, k);
      if k + 16 < |t| && t[k + 15] == 58 && InList(t[k + 16]) then
        lo == k + 16 < hi <= |t| && (forall p :: lo <= p < hi ==> InList(t[p])) && (hi < |t| ==> !InList(t[hi]))
      else lo == hi == k + 15
  {
    var e := k + 15;
    if e < |t| { RunIsList(t, e + 1); }
  }

  // ---- which tokens are matched ----

  /** Where a match ends. */
  function EndOf(t: text, m: Match): nat
  {
    if TokenAt(t, m.at) then ListBounds(t, m.at).1 else m.at
  }

  /** A token at or behind k, with its list. */
  ghost predicate IsMatch(t: text, k: nat, m: Match)
  {
    k <= m.at && TokenAt(t, m.at) && m.list == t[ListBounds(t, m.at).0..ListBounds(t, m.at).1]
  }

  /** A token at p is one of the matches, or inside one. */
  ghost predicate Matched(t: text, ms: seq<Match>, p: nat)
  {
    exists x :: 0 <= x < |ms| && ms[x].at <= p < EndOf(t, ms[x])
  }

  /** The matches are tokens with their lists, one behind the other, and every token is matched or inside a match. */
  ghost predicate AreTheMatches(t: text, k: nat, ms: seq<Match>)
  {
    (forall x :: 0 <= x < |ms| ==> IsMatch(t, k, ms[x])) &&
    (forall x, y :: 0 <= x < y < |ms| ==> EndOf(t, ms[x]) <= ms[y].at) &&
    forall p: nat :: k <= p && TokenAt(t, p) ==> Matched(t, ms, p)
  }

  lemma {:induction false} MatchesExactly(t: text, k: nat)
    ensures AreTheMatches(t, k, Matches(t, k))
    decreases |t| - k
  {
    hide TokenAt, ListBounds, AreTheMatches;
    if k >= |t| {
      NoTokenBehind(t, k);
    } else if TokenAt(t, k) {
      MatchesExactly(t, ListBounds(t, k).1);
      FirstMatch(t, k, Matches(t, ListBounds(t, k).1));
    } else {
      MatchesExactly(t, k + 1);
      NoMatchHere(t, k, Matches(t, k + 1));
    }
  }

  lemma NoTokenBehind(t: text, k: nat)
    requires k >= |t|
    ensures AreTheMatches(t, k, [])
  {
  }

  lemma NoMatchHere(t: text, k: nat, ms: seq<Match>)
    requires !TokenAt(t, k) && AreTheMatches(t, k + 1, ms)
    ensures AreTheMatches(t, k, ms)
  {
    hide TokenAt, ListBounds, Matched, EndOf;
    assert forall x :: 0 <= x < |ms| ==> IsMatch(t, k + 1, ms[x]);
  }

  lemma FirstMatch(t: text, k: nat, rest: seq<Match>)
    requires TokenAt(t, k) && AreTheMatches(t, ListBounds(t, k).1, rest)
    ensures AreTheMatches(t, k, [Match(k, t[ListBounds(t, k).0..ListBounds(t, k).1])] + rest)
  {
    hide TokenAt, ListBounds, IsMatch, Matched, EndOf;
    var e := ListBounds(t, k).1;
    var m := Match(k, t[ListBounds(t, k).0..e]);
    var all := [m] + rest;
    FirstEnds(t, k, m);
    forall x | 0 <= x < |all| ensures IsMatch(t, k, all[x]) {
      if x > 0 { Earlier(t, k, e, rest[x - 1]); }
    }
    forall x, y | 0 <= x < y < |all| ensures EndOf(t, all[x]) <= all[y].at {
      Earlier(t, k, e, rest[y - 1]);
      if x > 0 { assert all[x] == rest[x - 1] && all[y] == rest[y - 1]; }
    }
    forall p: nat | k <= p && TokenAt(t, p) ensures Matched(t, all, p) { StillMatched(t, m, rest, p, e); }
  }

  lemma FirstEnds(t: text, k: nat, m: Match)
    requires TokenAt(t, k) && m == Match(k, t[ListBounds(t, k).0..ListBounds(t, k).1])
    ensures IsMatch(t, k, m) && EndOf(t, m) == ListBounds(t, k).1 > k
  {
  }

  lemma Earlier(t: text, k: nat, e: nat, m: Match)
    requires IsMatch(t, e, m) && k <= e
    ensures IsMatch(t, k, m) && e <= m.at
  {
  }

  lemma StillMatched(t: text, m: Match, rest: seq<Match>, p: nat, e: nat)
    requires m.at <= p && (p < e ==> p < EndOf(t, m)) && (p >= e ==> Matched(t, rest, p))
    ensures Matched(t, [m] + rest, p)
  {
    hide EndOf;
    var all := [m] + rest;
    assert all[0] == m;
    if p >= e {
      var x :| 0 <= x < |rest| && rest[x].at <= p < EndOf(t, rest[x]);
      assert all[x + 1] == rest[x];
    }
  }

  // ---- names in a list ----

  /** name, which neither starts nor ends with white space, stands at a in x, and around it white space only. */
  ghost predicate TrimmedAt(x: text, name: text, a: nat)
  {
    name != [] && !IsWhite(name[0]) && !IsWhite(name[|name| - 1]) && a + |name| <= |x| && x[a..a + |name|] == name &&
    forall p :: 0 <= p < a || a + |name| <= p < |x| ==> IsWhite(x[p])
  }

  /** x stands in the list between two commas, or a comma and an end. */
  ghost predicate IsBetweenCommas(list: text, x: text)
  {
    exists lo: nat, hi: nat :: PieceAt(list, lo, hi) && x == list[lo..hi]
  }

  ghost predicate PieceAt(list: text, lo: nat, hi: nat)
  {
    lo <= hi <= |list| && (lo == 0 || list[lo - 1] == 44) && (hi == |list| || list[hi] == 44) &&
    forall p :: lo <= p < hi ==> list[p] != 44
  }

  lemma TrimExactly(x: text, name: text)
    ensures name != [] && TrimSpace(x) == name <==> exists a: nat :: TrimmedAt(x, name, a)
  {
    hide TrimSpace, TrimmedAt;
    var a := TrimIsTrimmed(x);
    if b: nat :| TrimmedAt(x, name, b) { TrimmedOnce(x, TrimSpace(x), name, a, b); }
  }

  lemma TrimIsTrimmed(x: text) returns (a: nat)
    ensures TrimSpace(x) != [] ==> TrimmedAt(x, TrimSpace(x), a)
  {
    hide TrimLeft, TrimRight;
    var u := TrimLeft(x, IsSpace);
    a := |x| - |u|;
    var v := TrimSpace(x);
    if v != [] {
      assert x[a..a + |v|] == v;
      forall p | 0 <= p < a || a + |v| <= p < |x| ensures IsWhite(x[p]) {
        if p >= a { assert x[p] == u[p - a]; }
      }
    }
  }

  /** Trimming has one result. */
  lemma TrimmedOnce(x: text, v: text, name: text, a: nat, b: nat)
    requires TrimmedAt(x, name, b) && v == TrimSpace(x) && (v != [] ==> TrimmedAt(x, v, a))
    ensures v == name && name != []
  {
    assert name[0] == x[b..b + |name|][0] == x[b];
    assert name[|name| - 1] == x[b..b + |name|][|name| - 1] == x[b + |name| - 1];
    assert !IsSpace(x[b]);
    assert v[0] == x[a..a + |v|][0] == x[a];
    assert v[|v| - 1] == x[a..a + |v|][|v| - 1] == x[a + |v| - 1];
    assert a == b && a + |v| == b + |name|;
  }

  // ---- the pieces between commas ----

  lemma PieceShift(t: text, k: nat, lo: nat, hi: nat)
    requires k < |t| && t[k] == 44
    ensures PieceAt(t[k + 1..], lo, hi) <==> PieceAt(t, lo + k + 1, hi + k + 1)
  {
    var u := t[k + 1..];
    assert forall p :: 0 <= p < |u| ==> u[p] == t[p + k + 1];
    if PieceAt(u, lo, hi) {
      forall p | lo + k + 1 <= p < hi + k + 1 ensures t[p] != 44 { assert t[p] == u[p - k - 1]; }
    }
    if PieceAt(t, lo + k + 1, hi + k + 1) {
      forall p | lo <= p < hi ensures u[p] != 44 { assert u[p] == t[p + k + 1]; }
    }
  }

  lemma PieceOfTail(t: text, k: nat, x: text)
    requires k < |t| && t[k] == 44 && IsBetweenCommas(t[k + 1..], x)
    ensures IsBetweenCommas(t, x)
  {
    var lo: nat, hi: nat :| PieceAt(t[k + 1..], lo, hi) && x == t[k + 1..][lo..hi];
    PieceShift(t, k, lo, hi);
    SliceOfTail(t, k + 1, lo, hi);
  }

  lemma PiecesBehind(t: text, k: nat, x: text)
    requires k < |t| && t[k] == 44 && forall p :: 0 <= p < k ==> t[p] != 44
    ensures IsBetweenCommas(t, x) <==> x == t[..k] || IsBetweenCommas(t[k + 1..], x)
  {
    if IsBetweenCommas(t[k + 1..], x) { PieceOfTail(t, k, x); }
    if x == t[..k] {
      assert PieceAt(t, 0, k) && t[0..k] == x;
    }
    if IsBetweenCommas(t, x) {
      var lo: nat, hi: nat :| PieceAt(t, lo, hi) && x == t[lo..hi];
      InFirstOrLater(t, k, lo, hi);
      if lo > 0 {
        PieceShift(t, k, lo - k - 1, hi - k - 1);
        SliceOfTail(t, k + 1, lo - k - 1, hi - k - 1);
      } else {
        assert t[0..k] == t[..k];
      }
    }
  }

  lemma SliceOfTail(t: text, k: nat, lo: nat, hi: nat)
    requires k <= |t| && lo <= hi <= |t| - k
    ensures t[k..][lo..hi] == t[lo + k..hi + k]
  {
    assert t[k..] == t[k..|t|];
    SliceOfSlice(t, k, |t|, lo, hi);
  }

  /** Splitting at commas gives exactly what stands between them. */
  lemma {:induction false} SplitExactly(t: text, x: text)
    ensures x in SplitCommas(t) <==> IsBetweenCommas(t, x)
    decreases |t|
  {
    hide IsBetweenCommas;
    var k := IndexFrom(t, [COMMA], 0);
    FirstComma(t, k);
    if k < 0 {
      OnlyPiece(t, x);
    } else {
      SplitExactly(t[k + 1..], x);
      PiecesBehind(t, k, x);
    }
  }

  lemma FirstComma(t: text, k: int)
    requires k == IndexFrom(t, [COMMA], 0)
    ensures k < 0 ==> forall p :: 0 <= p < |t| ==> t[p] != 44
    ensures k >= 0 ==> k < |t| && t[k] == 44 && forall p :: 0 <= p < k ==> t[p] != 44
  {
    assert forall p :: 0 <= p < |t| ==> t[p..p + 1] == [t[p]];
    forall p | 0 <= p < |t| && (k < 0 || p < k) ensures t[p] != 44 { assert !OccursAt(t, [COMMA], p); }
  }

  lemma OnlyPiece(t: text, x: text)
    requires forall p :: 0 <= p < |t| ==> t[p] != 44
    ensures IsBetweenCommas(t, x) <==> x == t
  {
    assert PieceAt(t, 0, |t|) && t[0..|t|] == t;
  }

  lemma InFirstOrLater(t: text, k: nat, lo: nat, hi: nat)
    requires k < |t| && t[k] == 44 && (forall p :: 0 <= p < k ==> t[p] != 44) && PieceAt(t, lo, hi)
    ensures if lo == 0 then hi == k else k < lo
  {
  }

  /** name stands at p between lo and hi, and around it white space only. */
  ghost predicate NameAt(t: text, lo: nat, hi: nat, name: text, p: nat)
  {
    lo <= p && p + |name| <= hi <= |t| && name != [] && !IsWhite(name[0]) && !IsWhite(name[|name| - 1]) &&
    t[p..p + |name|] == name && forall x :: lo <= x < p || p + |name| <= x < hi ==> IsWhite(t[x])
  }

  /** The list names it: it stands between two commas, or a comma and an end, with white space around it only. */
  ghost predicate Names(list: text, name: text)
  {
    exists lo: nat, hi: nat, p: nat :: PieceAt(list, lo, hi) && NameAt(list, lo, hi, name, p)
  }

  lemma TrimmedInPlace(t: text, lo: nat, hi: nat, name: text, a: nat)
    requires lo <= hi <= |t|
    ensures TrimmedAt(t[lo..hi], name, a) <==> NameAt(t, lo, hi, name, lo + a)
  {
    var u := t[lo..hi];
    assert forall x :: 0 <= x < |u| ==> u[x] == t[lo + x];
    assert forall x :: lo <= x < hi ==> t[x] == u[x - lo];
    if a + |name| <= |u| { SliceOfSlice(t, lo, hi, a, a + |name|); }
  }

  /** A list names exactly what stands between its commas, without white space around it, if that is not empty. */
  lemma NamesExactly(list: text, name: text)
    ensures name in NamesIn(list) <==> Names(list, name)
  {
    hide SplitCommas, TrimSpace, TrimmedAt, NameAt;
    if name in NamesIn(list) {
      var x :| x in SplitCommas(list) && TrimSpace(x) == name != [];
      SplitExactly(list, x);
      TrimExactly(x, name);
      var lo: nat, hi: nat :| PieceAt(list, lo, hi) && x == list[lo..hi];
      var a: nat :| TrimmedAt(list[lo..hi], name, a);
      TrimmedInPlace(list, lo, hi, name, a);
    }
    if Names(list, name) {
      var lo: nat, hi: nat, p: nat :| PieceAt(list, lo, hi) && NameAt(list, lo, hi, name, p);
      NameBehind(list, lo, hi, name, p);
      SplitExactly(list, list[lo..hi]);
      TrimmedInPlace(list, lo, hi, name, p - lo);
      TrimExactly(list[lo..hi], name);
    }
  }

  lemma NameBehind(t: text, lo: nat, hi: nat, name: text, p: nat)
    requires NameAt(t, lo, hi, name, p)
    ensures lo <= p && name != []
  {
  }

  /** Cutting white space off the list takes no name away and adds none. */
  lemma NamesOfTrimmed(list: text, name: text)
    ensures name in NamesIn(TrimSpace(list)) <==> name in NamesIn(list)
  {
    hide TrimSpace, NamesIn, PieceAt, NameAt, TrimmedAt;
    var v := TrimSpace(list);
    var a := TrimIsTrimmed(list);
    NamesExactly(list, name);
    NamesExactly(v, name);
    if Names(v, name) {
      var lo: nat, hi: nat, p: nat :| PieceAt(v, lo, hi) && NameAt(v, lo, hi, name, p);
      Widened(list, v, a, lo, hi, name, p);
    }
    if Names(list, name) {
      var lo: nat, hi: nat, p: nat :| PieceAt(list, lo, hi) && NameAt(list, lo, hi, name, p);
      Narrowed(list, v, a, lo, hi, name, p);
    }
  }

  /** v stands in list at a, and around it white space. */
  ghost predicate Surrounded(list: text, v: text, a: nat)
  {
    a + |v| <= |list| && (forall x :: a <= x < a + |v| ==> list[x] == v[x - a]) &&
    forall x :: 0 <= x < a || a + |v| <= x < |list| ==> IsWhite(list[x])
  }

  lemma TrimSurrounded(list: text, v: text, a: nat)
    requires TrimmedAt(list, v, a)
    ensures Surrounded(list, v, a)
  {
    assert forall x :: a <= x < a + |v| ==> list[x] == list[a..a + |v|][x - a];
  }

  lemma SameSlice(list: text, v: text, a: nat, p: nat, n: nat)
    requires Surrounded(list, v, a) && p + n <= |v|
    ensures list[a + p..a + p + n] == v[p..p + n]
  {
  }

  lemma Widened(list: text, v: text, a: nat, lo: nat, hi: nat, name: text, p: nat)
    requires v == TrimSpace(list) && (v != [] ==> TrimmedAt(list, v, a))
    requires PieceAt(v, lo, hi) && NameAt(v, lo, hi, name, p)
    ensures Names(list, name)
  {
    hide TrimSpace, TrimmedAt;
    TrimSurrounded(list, v, a);
    var l, h := if lo == 0 then 0 else lo + a, if hi == |v| then |list| else hi + a;
    SameSlice(list, v, a, p, |name|);
    assert PieceAt(list, l, h);
    assert NameAt(list, l, h, name, a + p);
  }

  lemma Narrowed(list: text, v: text, a: nat, lo: nat, hi: nat, name: text, p: nat)
    requires v == TrimSpace(list) && (v != [] ==> TrimmedAt(list, v, a))
    requires PieceAt(list, lo, hi) && NameAt(list, lo, hi, name, p)
    ensures Names(v, name)
  {
    hide TrimmedAt, TrimLeft, TrimRight, Surrounded, PieceAt;
    EndsOfName(list, lo, hi, name, p);
    assert !IsSpace(list[p]);
    hide TrimSpace;
    TrimSurrounded(list, v, a);
    var l, h := if lo <= a then 0 else lo - a, if hi >= a + |v| then |v| else hi - a;
    NameWithin(list, v, a, lo, hi, name, p);
    NarrowedPiece(list, v, a, lo, hi, p);
    NarrowedName(list, v, a, lo, hi, name, p, l, h);
  }

  lemma EndsOfName(t: text, lo: nat, hi: nat, name: text, p: nat)
    requires NameAt(t, lo, hi, name, p)
    ensures t[p] == name[0] && t[p + |name| - 1] == name[|name| - 1]
  {
    assert t[p] == t[p..p + |name|][0] && t[p + |name| - 1] == t[p..p + |name|][|name| - 1];
  }

  lemma NameWithin(list: text, v: text, a: nat, lo: nat, hi: nat, name: text, p: nat)
    requires Surrounded(list, v, a) && NameAt(list, lo, hi, name, p)
    ensures a <= p && p + |name| <= a + |v|
  {
    EndsOfName(list, lo, hi, name, p);
  }

  lemma NarrowedPiece(list: text, v: text, a: nat, lo: nat, hi: nat, p: nat)
    requires Surrounded(list, v, a) && PieceAt(list, lo, hi) && lo <= p < hi && a <= p < a + |v|
    ensures PieceAt(v, if lo <= a then 0 else lo - a, if hi >= a + |v| then |v| else hi - a)
  {
    assert forall x :: 0 <= x < |v| ==> v[x] == list[x + a];
  }

  lemma NarrowedName(list: text, v: text, a: nat, lo: nat, hi: nat, name: text, p: nat, l: nat, h: nat)
    requires Surrounded(list, v, a) && NameAt(list, lo, hi, name, p) && a <= p && p + |name| <= a + |v|
    requires l == (if lo <= a then 0 else lo - a) && h == (if hi >= a + |v| then |v| else hi - a)
    ensures NameAt(v, l, h, name, p - a)
  {
    SameSlice(list, v, a, p - a, |name|);
    assert forall x :: 0 <= x < |v| ==> v[x] == list[x + a];
  }

  // ---- a query with one directive ----

  /** A hit is a match in a comment that no literal covers, and every such match is one. */
  lemma {:induction false} HitsExactly(sql: text, comments: seq<Span>, literals: seq<seq<Span>>, h: Hit)
    requires Ordered(comments, |sql|)
    ensures h in HitsOf(sql, comments, literals) <==>
            exists c, m :: c in comments && m in Matches(sql[c.lo..c.hi], 0) && h == Hit(c.lo + m.at, m.list) &&
                           !InAny(literals, h.pos)
  {
    hide Matches, InAny;
    if comments != [] {
      var c := comments[0];
      var ms := Matches(sql[c.lo..c.hi], 0);
      HitsInExactly(ms, c.lo, literals, h);
      HitsExactly(sql, comments[1..], literals, h);
      assert c in comments && forall x :: x in comments <==> x == c || x in comments[1..];
    }
  }

  lemma {:induction false} HitsInExactly(ms: seq<Match>, lo: nat, literals: seq<seq<Span>>, h: Hit)
    ensures h in HitsIn(ms, lo, literals) <==>
            exists m :: m in ms && h == Hit(lo + m.at, m.list) && !InAny(literals, h.pos)
  {
    hide InAny;
    if ms != [] {
      HitsInExactly(ms[1..], lo, literals, h);
      assert ms[0] in ms && forall x :: x in ms <==> x == ms[0] || x in ms[1..];
    }
  }

  /** p is in a literal if "#" starts a comment or not, or if "--" does so without white space behind it or not. */
  ghost predicate InALiteral(sql: text, backslash: bool, dollar: bool, p: nat)
    requires p < |sql|
  {
    exists hash, loose :: KindAt(LexReading(backslash, dollar, hash, loose), sql, 0, p) in {Quoted, DollarQuoted}
  }

  /** The directive m in comment c counts under one backslash and dollar reading: it stands in a comment when every
      marker is one, and in no literal whichever markers are. */
  ghost predicate CountsIn(sql: text, backslash: bool, dollar: bool, c: Span, m: Match)
  {
    c in RangesFrom(LexReading(backslash, dollar, true, true), true, sql, 0) && c.lo <= c.hi <= |sql| &&
    m in Matches(sql[c.lo..c.hi], 0) && c.lo + m.at < |sql| && !InALiteral(sql, backslash, dollar, c.lo + m.at)
  }

  /** A list switches a rule off if it names it, or if there is nothing in it. */
  ghost predicate SwitchesOff(list: text, name: text)
  {
    (forall p :: 0 <= p < |list| ==> IsWhite(list[p])) || Names(list, name)
  }

  ghost predicate SomeDirective(sql: text, backslash: bool, dollar: bool, name: text)
  {
    exists c, m :: CountsIn(sql, backslash, dollar, c, m) && SwitchesOff(m.list, name)
  }

  /** A rule is switched off exactly when under each backslash and dollar reading a directive that counts does so. */
  lemma SuppressedExactly(sql: text, name: text)
    ensures MeetOfReadings(sql).Suppresses(name) <==> forall bs, dl :: SomeDirective(sql, bs, dl, name)
  {
    hide MeetOfReadings, Directive, SomeDirective;
    EveryReading(sql, name);
    forall bs, dl ensures Directive(sql, bs, dl).Suppresses(name) <==> SomeDirective(sql, bs, dl, name) {
      OneReadingSuppresses(sql, bs, dl, name);
    }
  }

  lemma OneReadingSuppresses(sql: text, bs: bool, dl: bool, name: text)
    ensures Directive(sql, bs, dl).Suppresses(name) <==> SomeDirective(sql, bs, dl, name)
  {
    hide Collect, Hits, RangesFrom, Matches, Variants, CountsIn, SwitchesOff, HitSuppresses;
    var hits := Hits(sql, bs, dl);
    CollectMeaning(hits, name);
    if h :| h in hits && HitSuppresses(h, name) {
      HitSwitches(h, name);
      var c, m := HitCounts(sql, bs, dl, h);
      assert SwitchesOff(m.list, name);
    }
    if c, m :| CountsIn(sql, bs, dl, c, m) && SwitchesOff(m.list, name) {
      CountedIsHit(sql, bs, dl, c, m);
      HitSwitches(Hit(c.lo + m.at, m.list), name);
    }
  }

  lemma HitSwitches(h: Hit, name: text)
    ensures HitSuppresses(h, name) <==> SwitchesOff(h.list, name)
  {
    hide NamesIn, Names;
    NamesOfTrimmed(h.list, name);
    NamesExactly(h.list, name);
  }

  lemma HitCounts(sql: text, bs: bool, dl: bool, h: Hit) returns (c: Span, m: Match)
    requires h in Hits(sql, bs, dl)
    ensures CountsIn(sql, bs, dl, c, m) && h == Hit(c.lo + m.at, m.list)
  {
    hide HitsOf, RangesFrom, Matches, Variants, InAny, InALiteral;
    var r := LexReading(bs, dl, true, true);
    RangesOrdered(r, true, sql, 0);
    var comments := RangesFrom(r, true, sql, 0);
    HitsExactly(sql, comments, Variants(sql, bs, dl), h);
    c, m :| c in comments && m in Matches(sql[c.lo..c.hi], 0) && h == Hit(c.lo + m.at, m.list) &&
            !InAny(Variants(sql, bs, dl), h.pos);
    MatchFits(sql[c.lo..c.hi], m);
    InSomeVariant(sql, bs, dl, h.pos);
  }

  lemma CountedIsHit(sql: text, bs: bool, dl: bool, c: Span, m: Match)
    requires CountsIn(sql, bs, dl, c, m)
    ensures Hit(c.lo + m.at, m.list) in Hits(sql, bs, dl)
  {
    hide HitsOf, RangesFrom, Matches, Variants, InAny, InALiteral;
    var r := LexReading(bs, dl, true, true);
    RangesOrdered(r, true, sql, 0);
    HitsExactly(sql, RangesFrom(r, true, sql, 0), Variants(sql, bs, dl), Hit(c.lo + m.at, m.list));
    InSomeVariant(sql, bs, dl, c.lo + m.at);
  }

  lemma MatchFits(t: text, m: Match)
    requires m in Matches(t, 0)
    ensures m.at < |t|
  {
    hide Matches;
    MatchesExactly(t, 0);
  }

  lemma InSomeVariant(sql: text, bs: bool, dl: bool, p: nat)
    requires p < |sql|
    ensures InAny(Variants(sql, bs, dl), p) <==> InALiteral(sql, bs, dl, p)
  {
    hide KindAt, RangesFrom, Covers, InAny;
    forall hash, loose
      ensures Covers(RangesFrom(LexReading(bs, dl, hash, loose), false, sql, 0), p) <==>
              KindAt(LexReading(bs, dl, hash, loose), sql, 0, p) in {Quoted, DollarQuoted}
    {
      RangesCover(LexReading(bs, dl, hash, loose), false, sql, 0, p);
    }
    var v := Variants(sql, bs, dl);
    InAnyOfFour(v[0], v[1], v[2], v[3], p);
  }

  lemma InAnyOfFour(a: seq<Span>, b: seq<Span>, c: seq<Span>, d: seq<Span>, p: nat)
    ensures InAny([a, b, c, d], p) <==> Covers(a, p) || Covers(b, p) || Covers(c, p) || Covers(d, p)
  {
    var all := [a, b, c, d];
    assert all[0] == a && all[1] == b && all[2] == c && all[3] == d;
    if InAny(all, p) {
      var k, m :| 0 <= k < |all| && 0 <= m < |all[k]| && all[k][m].lo <= p < all[k][m].hi;
      assert Covers(all[k], p);
    }
    if k :| 0 <= k < 4 && Covers(all[k], p) {
      var m :| 0 <= m < |all[k]| && all[k][m].lo <= p < all[k][m].hi;
      assert InAny(all, p);
    }
  }

  /** What follows the token: nothing, or a colon and a list. */
  function Tail(list: text): text { if list == [] then [] else [58] + list }

  /** The query starts with a block comment that holds the token and this list and nothing else, and holds no other
      token. */
  ghost predicate OneDirective(sql: text, list: text)
  {
    var n := |Tail(list)|;
    |sql| >= n + 19 && sql[0] == 47 && sql[1] == 42 && sql[17..17 + n] == Tail(list) &&
    sql[17 + n] == 42 && sql[18 + n] == 47 && (forall p :: 0 <= p < |list| ==> InList(list[p])) &&
    forall p: nat :: IsToken(sql, p) <==> p == 2
  }

  lemma OnlyToken(sql: text, list: text)
    requires OneDirective(sql, list)
    ensures forall p: nat :: TokenAt(sql, p) <==> p == 2
  {
    hide TokenAt, IsToken;
    forall p: nat ensures TokenAt(sql, p) <==> p == 2 { TokenExactly(sql, p); }
  }

  /** The comment ends behind the list, under every reading. */
  lemma FirstComment(sql: text, list: text, r: Reading)
    requires OneDirective(sql, list) && r.comments
    ensures CutFrom(r, sql, 0) == Cut(BlockComment, 19 + |Tail(list)|, true)
  {
    hide CutFrom, IsToken;
    QuotedExactly(r, sql, 0);
    BlockExactly(r, sql, 0);
    NoStar(sql, list);
  }

  lemma NoStar(sql: text, list: text)
    requires OneDirective(sql, list)
    ensures forall p :: 2 <= p < 17 + |Tail(list)| ==> sql[p] != 42
  {
    assert IsToken(sql, 2);
    forall p | 2 <= p < 17 + |Tail(list)| ensures sql[p] != 42 {
      if p < 17 {
        TokenHasNoStar(sql[2..17], p - 2);
      } else {
        assert sql[p] == sql[17..17 + |Tail(list)|][p - 17];
      }
    }
  }

  lemma TokenHasNoStar(t: text, p: nat)
    requires Spells(t, "sqlguard:ignore") && p < 15
    ensures t[p] != 42
  {
    TokenSpelled();
    FoldIsSpelling(t, TOKEN, "sqlguard:ignore");
    assert Lower(t[p]) == Lower(TOKEN[p]);
    assert forall x :: 0 <= x < 15 ==> Lower(TOKEN[x]) != 42;
  }

  /** The first comment's only match. */
  lemma OneMatch(sql: text, list: text)
    requires OneDirective(sql, list)
    ensures Matches(sql[0..19 + |Tail(list)|], 0) == [Match(2, list)]
  {
    hide TokenAt, ListBounds, IsToken;
    var u := sql[0..19 + |Tail(list)|];
    OnlyToken(sql, list);
    forall p: nat ensures TokenAt(u, p) <==> p == 2 { TokenOfSlice(sql, 19 + |Tail(list)|, p); }
    assert !TokenAt(u, 0) && !TokenAt(u, 1) && TokenAt(u, 2);
    NoMoreMatches(u, ListBounds(u, 2).1);
    ListOfFirst(sql, list);
    assert Matches(u, 2) == [Match(2, list)] + Matches(u, ListBounds(u, 2).1);
    assert Matches(u, 0) == Matches(u, 1) == Matches(u, 2);
  }

  lemma ListOfFirst(sql: text, list: text)
    requires OneDirective(sql, list) && TokenAt(sql[0..19 + |Tail(list)|], 2)
    ensures var u := sql[0..19 + |Tail(list)|]; u[ListBounds(u, 2).0..ListBounds(u, 2).1] == list
  {
    hide TokenAt, IsToken;
    var n := |Tail(list)|;
    var u := sql[0..19 + n];
    ListExactly(u, 2);
    assert u[17..17 + n] == Tail(list);
    if list != [] {
      assert u[17] == Tail(list)[0] && u[18..17 + n] == Tail(list)[1..] == list;
      assert forall p :: 18 <= p < 17 + n ==> u[p] == list[p - 18];
      assert !InList(u[17 + n]);
      var (lo, hi) := ListBounds(u, 2);
      assert hi == 17 + n;
    }
  }

  lemma TokenOfSlice(sql: text, n: nat, p: nat)
    requires n <= |sql| && (TokenAt(sql, p) ==> p + 15 <= n)
    ensures TokenAt(sql[0..n], p) <==> TokenAt(sql, p)
  {
    TokenSpelled();
    if p + 15 <= n { SliceOfSlice(sql, 0, n, p, p + 15); }
  }

  lemma NoMoreMatches(t: text, k: nat)
    requires forall p: nat :: p >= k ==> !TokenAt(t, p)
    ensures Matches(t, k) == []
  {
    hide TokenAt, ListBounds;
    MatchesExactly(t, k);
    var ms := Matches(t, k);
    assert ms != [] ==> IsMatch(t, k, ms[0]);
  }

  /** No literal of any variant covers the token. */
  lemma InNoLiteral(sql: text, list: text, backslash: bool, dollar: bool)
    requires OneDirective(sql, list)
    ensures !InAny(Variants(sql, backslash, dollar), 2)
  {
    hide RangesFrom, CutFrom;
    forall hash, loose ensures !Covers(RangesFrom(LexReading(backslash, dollar, hash, loose), false, sql, 0), 2) {
      var r := LexReading(backslash, dollar, hash, loose);
      FirstComment(sql, list, r);
      RangesCover(r, false, sql, 0, 2);
    }
    var v: seq<seq<Span>> := Variants(sql, backslash, dollar);
    if k: nat, m: nat :| k < |v| && m < |v[k]| && v[k][m].lo <= 2 < v[k][m].hi {
      assert Covers(v[k], 2);
    }
  }

  /** Under each reading the directive is the query's only hit. */
  lemma OneHit(sql: text, list: text, backslash: bool, dollar: bool)
    requires OneDirective(sql, list)
    ensures Hits(sql, backslash, dollar) == [Hit(2, list)]
  {
    hide RangesFrom, Matches, InAny, Variants, HitsIn;
    var r, n := LexReading(backslash, dollar, true, true), 19 + |Tail(list)|;
    var comments, literals := RangesFrom(r, true, sql, 0), Variants(sql, backslash, dollar);
    FirstOfComments(sql, list, r);
    OneMatch(sql, list);
    InNoLiteral(sql, list, backslash, dollar);
    RangesOrdered(r, true, sql, 0);
    NoHitBehind(sql, list, comments, literals);
    OneHitIn(list, literals);
  }

  lemma OneHitIn(list: text, literals: seq<seq<Span>>)
    requires !InAny(literals, 2)
    ensures HitsIn([Match(2, list)], 0, literals) == [Hit(2, list)]
  {
    hide InAny;
    assert [Match(2, list)][1..] == [];
  }

  lemma FirstOfComments(sql: text, list: text, r: Reading)
    requires OneDirective(sql, list) && r.comments
    ensures var a := RangesFrom(r, true, sql, 0); a != [] && a[0] == Span(0, 19 + |Tail(list)|)
  {
    hide CutFrom;
    FirstComment(sql, list, r);
  }

  lemma NoHitBehind(sql: text, list: text, comments: seq<Span>, literals: seq<seq<Span>>)
    requires OneDirective(sql, list) && Ordered(comments, |sql|) && comments != []
    requires comments[0] == Span(0, 19 + |Tail(list)|)
    ensures HitsOf(sql, comments[1..], literals) == []
  {
    hide HitsOf, TokenAt, InAny, IsToken;
    OnlyToken(sql, list);
    var rest := HitsOf(sql, comments[1..], literals);
    HitsAreGenuine(sql, comments[1..], literals);
    if rest != [] {
      assert rest[0] in rest;
      assert Genuine(sql, comments[1..], literals, rest[0]);
      TailCovers(comments, |sql|, rest[0].pos);
    }
  }

  /** Every reading gives the same answer, and so does their meet. */
  lemma OneDirectiveMeans(sql: text, list: text)
    requires OneDirective(sql, list)
    ensures MeetOfReadings(sql) == Collect([Hit(2, list)])
  {
    hide Hits, Collect, Meet;
    OneHit(sql, list, false, true);
    OneHit(sql, list, false, false);
    OneHit(sql, list, true, true);
    OneHit(sql, list, true, false);
    var x := Collect([Hit(2, list)]);
    CollectCanonical([Hit(2, list)]);
    MeetLaws(x, x, x);
  }

  /** A query with one directive, in its first comment, and with no list or a white one, switches everything off. */
  lemma BareDirective(sql: text, list: text)
    requires OneDirective(sql, list) && forall p :: 0 <= p < |list| ==> IsWhite(list[p])
    ensures MeetOfReadings(sql) == Ignored(true, {})
  {
    hide MeetOfReadings;
    OneDirectiveMeans(sql, list);
    assert TrimSpace(list) == [];
  }

  /** With another list it switches off exactly the names that stand in the list. */
  lemma DirectiveWithList(sql: text, list: text, name: text)
    requires OneDirective(sql, list) && exists p :: 0 <= p < |list| && !IsWhite(list[p])
    ensures !MeetOfReadings(sql).all
    ensures name in MeetOfReadings(sql).rules <==> Names(list, name)
  {
    hide MeetOfReadings, NamesIn, Names;
    OneDirectiveMeans(sql, list);
    assert [Hit(2, list)][1..] == [];
    NamesExactly(list, name);
    NamesOfTrimmed(list, name);
  }
}
