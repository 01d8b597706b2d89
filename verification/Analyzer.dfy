/** Analyze: rules over one parsed statement, under the ignore directives, with one identity for all findings.
    Statements, parsers and rule bodies are parameters. */
module Analyzer {
  import opened Bytes
  import opened Fold
  import opened Redact
  import opened Spans
  import opened Suppress
  import opened Wrappers
  import ChunkWalk
  import Interchange
  import Lexing
  import ListLengths
  import NonInterference
  import Queries
  import Strip

  datatype Message = Text(text: text) | Repeated(count: nat, window: int) | Slow(elapsed: int, threshold: int)

  /** A Result of the source. */
  datatype Finding = Finding(ruleName: text, severity: nat, query: text, fingerprint: text, message: Message)

  /** A rule, with the registry's severity when it has one. */
  datatype BoundRule<!S(!new)> = BoundRule(check: S -> Option<Finding>, severity: nat, hasSeverity: bool)

  /** parse answers None for an error or a missing statement; severity holds the profile's overrides. */
  datatype Config<!S(!new)> = Config(
    rules: seq<BoundRule<S>>,
    parse: text -> Option<S>,
    fallback: text -> S,
    severity: map<text, nat>,
    rawQuery: bool,
    dialect: Dialect)

  /** The identity of a query. */
  function Fingerprint(sql: text, d: Dialect): text { FoldRedacted(Redacted(sql, d)) }

  /** The query as it is shown. */
  function Display<S(!new)>(a: Config<S>, raw: text): text
  {
    if a.rawQuery then raw else Redacted(raw, a.dialect)
  }

  /** PrepareQuery: one redaction for both results */
  method PrepareQuery<S(!new)>(a: Config<S>, raw: text) returns (display: text, fingerprint: text)
    ensures display == Display(a, raw) && fingerprint == Fingerprint(raw, a.dialect)
  {
    hide Redacted, FoldRedacted;
    var redacted := Redact.Redact(raw, a.dialect);
    fingerprint := FoldRedacted(redacted);
    display := if a.rawQuery then raw else redacted;
  }

  function Statement<S(!new)>(a: Config<S>, query: text): S
  {
    match a.parse(query)
    case Some(stmt) => stmt
    case None => a.fallback(query)
  }

  /** The profile's override wins over the registry, and the registry over the rule. */
  function SeverityOf<S(!new)>(a: Config<S>, br: BoundRule<S>, r: Finding): nat
  {
    if r.ruleName in a.severity then a.severity[r.ruleName] else if br.hasSeverity then br.severity else r.severity
  }

  /** A finding that no directive names; a rule without a name can only be switched off with all the others. */
  predicate Kept(ignored: Ignored, r: Finding)
  {
    !ignored.all && (r.ruleName == [] || r.ruleName !in ignored.rules)
  }

  /** What a rule reports, when it does. */
  function Outcome<S(!new)>(a: Config<S>, br: BoundRule<S>, query: text): Option<Finding>
  {
    match br.check(Statement(a, query))
    case None => None
    case Some(r) =>
      if !Kept(MeetOfReadings(query), r) then None
      else Some(r.(severity := SeverityOf(a, br, r),
                   query := Display(a, query),
                   fingerprint := Fingerprint(query, a.dialect)))
  }

  /** What the rules from k on report, in their order. */
  function FindingsFrom<S(!new)>(a: Config<S>, query: text, k: nat): seq<Finding>
    requires k <= |a.rules|
    decreases |a.rules| - k
  {
    if k == |a.rules| then []
    else (match Outcome(a, a.rules[k], query) case None => [] case Some(r) => [r]) + FindingsFrom(a, query, k + 1)
  }

  function Findings<S(!new)>(a: Config<S>, query: text): seq<Finding> { FindingsFrom(a, query, 0) }

  lemma FindingsStep<S(!new)>(a: Config<S>, query: text, k: nat, done: seq<Finding>)
    requires k < |a.rules|
    ensures done + FindingsFrom(a, query, k) ==
      (match Outcome(a, a.rules[k], query) case None => done case Some(r) => done + [r]) + FindingsFrom(a, query, k + 1)
  {
    hide Outcome;
    var rest := FindingsFrom(a, query, k + 1);
    match Outcome(a, a.rules[k], query) {
      case None => assert [] + rest == rest;
      case Some(r) => assert done + ([r] + rest) == done + [r] + rest;
    }
  }

  lemma {:induction false} AllIgnored<S(!new)>(a: Config<S>, query: text, k: nat)
    requires k <= |a.rules|
    ensures MeetOfReadings(query).all ==> FindingsFrom(a, query, k) == []
    decreases |a.rules| - k
  {
    hide MeetOfReadings, Redacted, FoldRedacted;
    if k < |a.rules| { AllIgnored(a, query, k + 1); }
  }

  /** Analyze */
  method Analyze<S(!new)>(a: Config<S>, query: text) returns (results: seq<Finding>)
    ensures results == Findings(a, query)
  {
    hide MeetOfReadings, Redacted, FoldRedacted, FindingsFrom;
    var stmt := match a.parse(query) case Some(st) => st case None => a.fallback(query);
    var ignoreAll, ignored := ParseIgnoreDirective(query);
    var display, fingerprint: text := [], [];
    var prepared := false;
    results := [];
    for k := 0 to |a.rules|
      invariant prepared ==> display == Display(a, query) && fingerprint == Fingerprint(query, a.dialect)
      invariant results + FindingsFrom(a, query, k) == Findings(a, query)
    {
      if ignoreAll {
        AllIgnored(a, query, k);
        return;
      }
      FindingsStep(a, query, k, results);
      var br := a.rules[k];
      var found := br.check(stmt);
      if found.None? {
        continue;
      }
      var r := found.value;
      if r.ruleName != [] && r.ruleName in ignored {
        continue;
      }
      if br.hasSeverity {
        r := r.(severity := br.severity);
      }
      if r.ruleName in a.severity {
        r := r.(severity := a.severity[r.ruleName]);
      }
      if !prepared {
        display, fingerprint := PrepareQuery(a, query);
        prepared := true;
      }
      r := r.(query := display);
      r := r.(fingerprint := fingerprint);
      results := results + [r];
    }
    NoRulesLeft(a, query);
  }

  lemma NoRulesLeft<S(!new)>(a: Config<S>, query: text)
    ensures FindingsFrom(a, query, |a.rules|) == []
  {
  }

  /** f is what rule br says about the statement, under the query's identity: with the severity the profile has for the
      rule, or else the registry, or else the finding itself, and if no directive names it; a finding without a rule's
      name is left out only with all the others. */
  ghost predicate IsReported<S(!new)>(a: Config<S>, query: text, br: BoundRule<S>, f: Finding)
  {
    var parsed := a.parse(query);
    var said := br.check(if parsed.Some? then parsed.value else a.fallback(query));
    var ignored := MeetOfReadings(query);
    said.Some? &&
    var r := said.value;
    f.ruleName == r.ruleName && f.message == r.message && f.fingerprint == Fingerprint(query, a.dialect) &&
    (if a.rawQuery then f.query == query else f.query == Redacted(query, a.dialect)) &&
    (r.ruleName in a.severity ==> f.severity == a.severity[r.ruleName]) &&
    (r.ruleName !in a.severity && br.hasSeverity ==> f.severity == br.severity) &&
    (r.ruleName !in a.severity && !br.hasSeverity ==> f.severity == r.severity) &&
    !ignored.all && (r.ruleName == [] || r.ruleName !in ignored.rules)
  }

  /** The findings are what the rules report, each of them once and in the order of the rules; from holds the rules. */
  lemma {:induction false} FindingsExactly<S(!new)>(a: Config<S>, query: text, k: nat) returns (from: seq<nat>)
    requires k <= |a.rules|
    ensures var found := FindingsFrom(a, query, k);
      |from| == |found| &&
      (forall x :: 0 <= x < |from| ==>
        k <= from[x] < |a.rules| && IsReported(a, query, a.rules[from[x]], found[x])) &&
      (forall x, y :: 0 <= x < y < |from| ==> from[x] < from[y]) &&
      forall m, f :: k <= m < |a.rules| && IsReported(a, query, a.rules[m], f) ==> m in from
    decreases |a.rules| - k
  {
    hide MeetOfReadings, Redacted, FoldRedacted, IsReported, Outcome;
    if k == |a.rules| {
      from := [];
    } else {
      from := FindingsExactly(a, query, k + 1);
      OutcomeExactly(a, query, a.rules[k]);
      if Outcome(a, a.rules[k], query).Some? { from := [k] + from; }
    }
  }

  lemma OutcomeExactly<S(!new)>(a: Config<S>, query: text, br: BoundRule<S>)
    ensures forall f :: IsReported(a, query, br, f) ==> Outcome(a, br, query).Some?
    ensures Outcome(a, br, query).Some? ==> IsReported(a, query, br, Outcome(a, br, query).value)
  {
    hide MeetOfReadings, Redacted, FoldRedacted;
  }

  /** Every finding carries the query's one identity, and none is of a rule the directives switch off. */
  lemma {:induction false} OneIdentity<S(!new)>(a: Config<S>, query: text, k: nat)
    requires k <= |a.rules|
    ensures forall f :: f in FindingsFrom(a, query, k) ==>
              f.fingerprint == Fingerprint(query, a.dialect) && f.query == Display(a, query) &&
              Kept(MeetOfReadings(query), f)
    decreases |a.rules| - k
  {
    hide MeetOfReadings, Redacted, FoldRedacted;
    if k < |a.rules| { OneIdentity(a, query, k + 1); }
  }

  /** A rule that fires is missing from the findings only when every reading of the query switches it off. */
  lemma MissingOnlyIfIgnored<S(!new)>(a: Config<S>, query: text, k: nat)
    requires k < |a.rules| && a.rules[k].check(Statement(a, query)).Some?
    ensures var r := a.rules[k].check(Statement(a, query)).value;
      (exists f :: f in Findings(a, query) && f.ruleName == r.ruleName && f.message == r.message) ||
      forall bs, dl :: Directive(query, bs, dl).Suppresses(r.ruleName)
  {
    hide MeetOfReadings, Redacted, FoldRedacted, Directive;
    var r := a.rules[k].check(Statement(a, query)).value;
    EveryReading(query, r.ruleName);
    if Kept(MeetOfReadings(query), r) { OutcomeIsFound(a, query, 0, k); }
  }

  lemma {:induction false} OutcomeIsFound<S(!new)>(a: Config<S>, query: text, from: nat, k: nat)
    requires from <= k < |a.rules|
    ensures Outcome(a, a.rules[k], query).Some? ==>
              Outcome(a, a.rules[k], query).value in FindingsFrom(a, query, from)
    decreases k - from
  {
    hide Outcome;
    if from < k { OutcomeIsFound(a, query, from + 1, k); }
  }

  /** Queries that differ only in what their redacted literals hold, and in their comments, have one identity, if
      stripping sees the comments of both. */
  lemma LiteralsDoNotMatter(sql: text, d: Dialect, cs': seq<Lexing.Chunk>)
    requires OneReading(Strip.Stripped(sql), d) && OneReading(Strip.Stripped(Lexing.Join(cs')), d)
    requires Queries.SameComments(sql, false, d) && Queries.SameComments(Lexing.Join(cs'), false, d)
    requires Lexing.Rewrites(Queries.Whole(false, d), Lexing.Lex(Queries.Whole(false, d), sql, 0), cs')
    requires NonInterference.OnlyValuesChange(Lexing.Lex(Queries.Whole(false, d), sql, 0), cs', d)
    ensures Fingerprint(Lexing.Join(cs'), d) == Fingerprint(sql, d)
  {
    hide Redacted, FoldRedacted, Lexing.Lex, Lexing.Rewrites, OneReading, Queries.SameComments;
    NonInterference.QueryNonInterference(sql, d, cs');
  }

  /** So have queries that, comments aside, differ in one redacted number, if nothing before it is disturbed and no "$"
      that could open a string stands behind it and meets a word before it with only one of the numbers. */
  lemma NumbersDoNotMatter(sql: text, sql': text, d: Dialect, lo: nat, hi: nat, u: text)
    requires var s, t := Strip.Stripped(sql), Strip.Stripped(sql');
      OneReading(s, d) && OneReading(t, d) && Number(lo, hi) in Pieces(s, d) &&
      Interchange.ReadsAlone(s, lo, hi, u) && t == Interchange.Swap(s, lo, hi, u) &&
      Interchange.Undisturbed(Pieces(s, d), d, s, 0, lo, t) &&
      (Interchange.Delimits(s, hi) ==> IsIdentByte(s[hi - 1]) == EndsIdent(u))
    ensures Fingerprint(sql', d) == Fingerprint(sql, d)
  {
    hide RedactedText, FoldRedacted, Strip.Stripped, Pieces, Interchange.Delimits, Interchange.Undisturbed;
    hide Interchange.ReadsAlone, OneReading;
    Interchange.NumbersDoNotMatter(Strip.Stripped(sql), d, lo, hi, u);
  }

  /** So have queries that, comments aside, differ in one parenthesised list, in its values and in their number. */
  lemma ListLengthsDoNotMatter(sql: text, sql': text, d: Dialect, a: text, items: seq<text>, gaps: seq<bool>,
                               items': seq<text>, gaps': seq<bool>, b: text)
    requires ListLengths.ClosedFrom(d, a, 0) && |items| == |gaps| + 1 && |items'| == |gaps'| + 1
    requires forall u :: u in items || u in items' ==> ListLengths.IsItem(d, u)
    requires Strip.Stripped(sql) == a + ListLengths.ValueList(items, gaps) + b
    requires Strip.Stripped(sql') == a + ListLengths.ValueList(items', gaps') + b
    requires OneReading(Strip.Stripped(sql), d) && OneReading(Strip.Stripped(sql'), d)
    ensures Fingerprint(sql', d) == Fingerprint(sql, d)
  {
    hide RedactedText, FoldRedacted, PlaceholderList, Strip.Stripped, ListLengths.ValueList, ListLengths.IsItem;
    hide OneReading, ChunkWalk.WrittenFrom;
    ListLengths.ListRedacted(d, a, items, gaps, b);
    ListLengths.ListRedacted(d, a, items', gaps', b);
    AnyListLength(ChunkWalk.WrittenFrom(d, a, 0, 0), gaps, ChunkWalk.WrittenFrom(d, b, 0, 0));
    AnyListLength(ChunkWalk.WrittenFrom(d, a, 0, 0), gaps', ChunkWalk.WrittenFrom(d, b, 0, 0));
  }
}
