/** The guard: cache, deduper and tracker around the analyzer. Clock readings are parameters of each call. */
module Guard {
  import opened Analyzer
  import opened Bytes
  import opened Cache
  import opened Spelling
  import opened Wrappers
  import D = Dedup
  import L = Lru
  import T = Tracker

  /** "slow-query" */
  const SLOW_QUERY: text := [115, 108, 111, 119, 45, 113, 117, 101, 114, 121]

  /** "n-plus-one" */
  const N_PLUS_ONE: text := [110, 45, 112, 108, 117, 115, 45, 111, 110, 101]

  /** The options that decide what a guard does; limits is None without N+1 detection. */
  datatype Options<!S(!new)> = Options(
    a: Config<S>,
    window: int,
    maxKeys: int,
    limits: Option<T.Limits>,
    n1Severity: nat,
    slowEnabled: bool,
    slowSeverity: nat,
    slowThreshold: int)

  /** What a guard remembers, apart from its cache, and what it has reported, oldest first. */
  datatype State = State(seen: map<text, int>, queries: T.Records, reports: seq<seq<Finding>>)

  /** A query, and the clock when it is reported and when it is tracked. */
  datatype Request = Request(query: text, reportAt: int, trackAt: int)

  /** The calls of a guard: Check, CheckLatency and ResetN1. */
  datatype Event = Check(r: Request) | Latency(query: text, elapsed: int) | Reset

  // ---- the specification: a guard without a cache, which fingerprints each query ----

  /** The findings the deduper lets through, in order, and its map after them. */
  function Admit(seen: map<text, int>, window: int, maxKeys: int, found: seq<Finding>, now: int)
    : (map<text, int>, seq<Finding>)
    decreases |found|
  {
    if found == [] then (seen, [])
    else
      var (after, ok) := D.AllowStep(seen, window, maxKeys, D.Key(found[0].fingerprint, found[0].ruleName), now);
      var (last, kept) := Admit(after, window, maxKeys, found[1..], now);
      (last, (if ok then [found[0]] else []) + kept)
  }

  function AfterReport<S(!new)>(o: Options<S>, st: State, found: seq<Finding>, now: int): State
  {
    var (seen, kept) := Admit(st.seen, o.window, o.maxKeys, found, now);
    State(seen, st.queries, if kept == [] then st.reports else st.reports + [kept])
  }

  function Repetition<S(!new)>(o: Options<S>, fingerprint: text, count: nat): Finding
    requires o.limits.Some?
  {
    Finding(N_PLUS_ONE, o.n1Severity, fingerprint, fingerprint, Repeated(count, o.limits.value.window))
  }

  function AfterTrack<S(!new)>(o: Options<S>, st: State, fingerprint: text, now: int): State
  {
    match o.limits
    case None => st
    case Some(limits) =>
      var (queries, out) := T.LazyStep(st.queries, limits, fingerprint, now);
      State(st.seen, queries,
        if out.Counted? && out.report then st.reports + [[Repetition(o, fingerprint, out.n)]] else st.reports)
  }

  /** A slow query is reported, with its display and fingerprint, when the rule is on and the threshold reached. */
  function SlowReport<S(!new)>(o: Options<S>, query: text, elapsed: int): seq<seq<Finding>>
  {
    if !o.slowEnabled || elapsed < o.slowThreshold then []
    else [[Finding(SLOW_QUERY, o.slowSeverity, Display(o.a, query), Fingerprint(query, o.a.dialect),
                   Slow(elapsed, o.slowThreshold))]]
  }

  function AfterLatency<S(!new)>(o: Options<S>, st: State, query: text, elapsed: int): State
  {
    st.(reports := st.reports + SlowReport(o, query, elapsed))
  }

  function AfterReset(st: State): State { st.(queries := map[]) }

  function AfterCheck<S(!new)>(o: Options<S>, st: State, r: Request): State
  {
    AfterTrack(o, AfterReport(o, st, Findings(o.a, r.query), r.reportAt), Fingerprint(r.query, o.a.dialect), r.trackAt)
  }

  function AfterEvent<S(!new)>(o: Options<S>, st: State, e: Event): State
  {
    match e
    case Check(r) => AfterCheck(o, st, r)
    case Latency(query, elapsed) => AfterLatency(o, st, query, elapsed)
    case Reset => AfterReset(st)
  }

  // ---- what the guard's own findings say ----

  /** A finding named slow-query, with the severity of that rule, the query as it is shown, its fingerprint, and the two
      times. */
  ghost predicate IsSlowFinding<S(!new)>(o: Options<S>, query: text, elapsed: int, f: Finding)
  {
    IsSpelling(f.ruleName, "slow-query") && f.severity == o.slowSeverity && f.query == Display(o.a, query) &&
    f.fingerprint == Fingerprint(query, o.a.dialect) && f.message == Slow(elapsed, o.slowThreshold)
  }

  lemma SlowQuerySpelled()
    ensures IsSpelling(SLOW_QUERY, "slow-query")
  {
  }

  /** A finding named n-plus-one, with the severity of that rule, the fingerprint as its query too, and how often it ran
      in which window. */
  ghost predicate IsRepetition<S(!new)>(o: Options<S>, fingerprint: text, count: nat, f: Finding)
  {
    IsSpelling(f.ruleName, "n-plus-one") && f.severity == o.n1Severity && f.query == f.fingerprint == fingerprint &&
    o.limits.Some? && f.message == Repeated(count, o.limits.value.window)
  }

  lemma RepetitionSpelled<S(!new)>(o: Options<S>, fingerprint: text, count: nat)
    requires o.limits.Some?
    ensures IsRepetition(o, fingerprint, count, Repetition(o, fingerprint, count))
  {
  }

  /** The batches a check adds: what the deduper lets through, if anything, and a repetition if the tracker says so. */
  lemma CheckReports<S(!new)>(o: Options<S>, st: State, r: Request)
    ensures var before, after, found := st.reports, AfterCheck(o, st, r).reports, Findings(o.a, r.query);
      var kept := Admit(st.seen, o.window, o.maxKeys, found, r.reportAt).1;
      var fingerprint := Fingerprint(r.query, o.a.dialect);
      var n := |before| + if kept == [] then 0 else 1;
      |before| <= n <= |after| && after[..|before|] == before && (kept != [] ==> after[|before|] == kept) &&
      match o.limits
      case None => |after| == n
      case Some(limits) =>
        var out := T.LazyStep(st.queries, limits, fingerprint, r.trackAt).1;
        if out.Counted? && out.report then
          |after| == n + 1 && |after[n]| == 1 && IsRepetition(o, fingerprint, out.n, after[n][0])
        else |after| == n
  {
    hide Admit, Findings, Fingerprint, T.LazyStep, Repetition, IsRepetition;
    if o.limits.Some? {
      var out := T.LazyStep(st.queries, o.limits.value, Fingerprint(r.query, o.a.dialect), r.trackAt).1;
      if out.Counted? { RepetitionSpelled(o, Fingerprint(r.query, o.a.dialect), out.n); }
    }
  }

  /** The batch a latency adds: one finding, exactly when the rule is on and the threshold reached. */
  lemma LatencyReports<S(!new)>(o: Options<S>, st: State, query: text, elapsed: int)
    ensures var after := AfterLatency(o, st, query, elapsed);
      after.seen == st.seen && after.queries == st.queries &&
      if o.slowEnabled && o.slowThreshold <= elapsed then
        |after.reports| == |st.reports| + 1 && after.reports[..|st.reports|] == st.reports &&
        |after.reports[|st.reports|]| == 1 && IsSlowFinding(o, query, elapsed, after.reports[|st.reports|][0])
      else after.reports == st.reports
  {
    hide Display, Fingerprint, IsSpelling;
    SlowQuerySpelled();
    assert st.reports + [] == st.reports;
  }

  // ---- the code ----

  class Guard<S(!new)> {
    const o: Options<S>
    const cache: AnalysisCache?<seq<Finding>>
    const deduper: D.Deduper
    const tracker: T.QueryTracker?
    var reports: seq<seq<Finding>>

    ghost predicate Valid()
      reads this, deduper, tracker, cache
    {
      (cache != null ==> cache.Valid()) && deduper.window == o.window && deduper.maxKeys == o.maxKeys &&
      (tracker != null <==> o.limits.Some?) && (tracker != null ==> tracker.limits == o.limits.value)
    }

    /** The state the specification speaks of. */
    ghost function Now(): State
      reads this, deduper, tracker
    {
      State(deduper.seen, if tracker == null then map[] else tracker.queries, reports)
    }

    /** The elements of the cache. */
    ghost function Footprint(): set<Element<seq<Finding>>>
      reads this, cache
    {
      if cache == null then {} else cache.Elements()
    }

    ghost function Entries(): seq<Item<seq<Finding>>>
      reads this, cache, Footprint()
    {
      if cache == null then [] else Items(cache.ll)
    }

    /** NewGuard, for resolved options: a cache only for a positive size, a tracker only with limits */
    constructor (a: Config<S>, dedupWindow: int, cacheSize: int, n1: Option<(int, int)>, n1Severity: nat,
                 slowEnabled: bool, slowSeverity: nat, slowThreshold: int)
      ensures Valid() && Now() == State(map[], map[], []) && Entries() == []
      ensures fresh(deduper) && (cache != null ==> fresh(cache)) && (tracker != null ==> fresh(tracker))
      ensures o == Options(a, dedupWindow, 10000,
        if n1.None? then None else Some(T.Limits(n1.value.0, n1.value.1, 10000)),
        n1Severity, slowEnabled, slowSeverity, slowThreshold)
    {
      o := Options(a, dedupWindow, 10000,
        if n1.None? then None else Some(T.Limits(n1.value.0, n1.value.1, 10000)),
        n1Severity, slowEnabled, slowSeverity, slowThreshold);
      deduper := new D.Deduper(dedupWindow);
      if cacheSize > 0 {
        cache := new AnalysisCache(cacheSize);
      } else {
        cache := null;
      }
      if n1.Some? {
        tracker := new T.QueryTracker(n1.value.0, n1.value.1);
      } else {
        tracker := null;
      }
      reports := [];
    }

    /** The analysis of the query: from the cache, or computed and stored. */
    method AnalyzeQuery(query: text) returns (results: seq<Finding>)
      requires Valid()
      modifies cache, Footprint()
      ensures Valid()
      ensures results == old(Obtained(o, Capacity(), Entries(), query))
      ensures Entries() == old(EntriesAfter(o, Capacity(), Entries(), query)) && Now() == old(Now())
      ensures fresh(Footprint() - old(Footprint()))
    {
      hide Findings, Find, Items, Linked, Touch, AfterGet;
      MissKeeps(Entries(), query);
      if cache == null {
        results := Analyze(o.a, query);
        return;
      }
      var found := cache.Get(query);
      if found.Some? {
        return found.value;
      }
      results := Analyze(o.a, query);
      cache.Put(query, results);
    }

    /** report */
    method Report(results: seq<Finding>, now: int)
      requires Valid()
      modifies this, deduper
      ensures Valid() && Now() == AfterReport(o, old(Now()), results, now) && Entries() == old(Entries())
    {
      hide Admit, D.AllowStep;
      var kept := [];
      ghost var all := Admit(deduper.seen, o.window, o.maxKeys, results, now).1;
      assert results[0..] == results && [] + all == all;
      for k := 0 to |results|
        invariant Valid() && reports == old(reports)
        invariant Now().queries == old(Now()).queries
        invariant var (last, rest) := Admit(deduper.seen, o.window, o.maxKeys, results[k..], now);
          (last, kept + rest) == Admit(old(deduper.seen), o.window, o.maxKeys, results, now)
      {
        var r := results[k];
        AdmitFirst(deduper.seen, o.window, o.maxKeys, results, k, now, kept);
        var ok := deduper.Allow(r.fingerprint, r.ruleName, now);
        if ok {
          kept := kept + [r];
        }
      }
      assert results[|results|..] == [] && kept + [] == kept;
      NothingAdmitted(deduper.seen, o.window, o.maxKeys, now);
      if |kept| > 0 {
        reports := reports + [kept];
      }
    }

    /** Check: a finding's own fingerprint feeds the tracker when there is one */
    method Check(query: text, reportAt: int, trackAt: int)
      requires Valid()
      modifies this, deduper, tracker, cache, Footprint()
      ensures Valid()
      ensures (Entries(), Now()) == old(CachedCheck(o, Capacity(), Entries(), Now(), Request(query, reportAt, trackAt)))
      ensures fresh(Footprint() - old(Footprint()))
    {
      hide Obtained, EntriesAfter, Items, AfterReport, AfterTrack, Identity, Linked;
      var results := AnalyzeQuery(query);
      NothingToReport(o, Now(), reportAt);
      if |results| > 0 {
        Report(results, reportAt);
      }
      FeedTracker(results, query, trackAt);
    }

    /** The second half of Check */
    method FeedTracker(results: seq<Finding>, query: text, trackAt: int)
      requires Valid()
      modifies this, tracker
      ensures Valid() && Now() == AfterTrack(o, old(Now()), Identity(o, results, query), trackAt)
      ensures Entries() == old(Entries())
    {
      hide Fingerprint, T.LazyStep, Display, Items, Linked, Repetition;
      if tracker != null {
        var fingerprint;
        if |results| > 0 {
          fingerprint := results[0].fingerprint;
        } else {
          var _, identity := PrepareQuery(o.a, query);
          fingerprint := identity;
        }
        var out := tracker.TrackFingerprint(fingerprint, trackAt);
        if out.Counted? && out.report {
          reports := reports + [[Repetition(o, fingerprint, out.n)]];
        }
      }
    }

    ghost function Capacity(): Option<int>
      reads this
    {
      if cache == null then None else Some(cache.capacity)
    }

    /** CheckLatency */
    method CheckLatency(query: text, elapsed: int)
      requires Valid()
      modifies this`reports
      ensures Valid() && Now() == AfterLatency(o, old(Now()), query, elapsed) && Entries() == old(Entries())
    {
      hide Fingerprint, Display, Items, Linked;
      if o.slowEnabled && elapsed >= o.slowThreshold {
        var display, fingerprint := PrepareQuery(o.a, query);
        var slow := Finding(SLOW_QUERY, o.slowSeverity, display, fingerprint, Slow(elapsed, o.slowThreshold));
        reports := reports + [[slow]];
      } else {
        assert reports + [] == reports;
      }
    }

    /** ResetN1 */
    method ResetN1()
      requires Valid()
      modifies tracker
      ensures Valid() && Now() == AfterReset(old(Now())) && Entries() == old(Entries())
    {
      if tracker != null {
        tracker.Reset();
      }
    }
  }

  // ---- the cache is invisible ----

  function Analysis<S(!new)>(o: Options<S>): text -> seq<Finding> { query => Findings(o.a, query) }

  /** The findings of the query as the guard obtains them. */
  function Obtained<S(!new)>(o: Options<S>, capacity: Option<int>, entries: seq<Item<seq<Finding>>>, query: text)
    : seq<Finding>
  {
    if capacity.Some? && Find(entries, query).Some? then Find(entries, query).value else Findings(o.a, query)
  }

  function EntriesAfter<S(!new)>(o: Options<S>, capacity: Option<int>, entries: seq<Item<seq<Finding>>>, query: text)
    : seq<Item<seq<Finding>>>
  {
    if capacity.None? then entries else L.AnalyzeStep(entries, capacity.value, query, Analysis(o))
  }

  /** A finding carries the fingerprint already. */
  function Identity<S(!new)>(o: Options<S>, found: seq<Finding>, query: text): text
  {
    if found != [] then found[0].fingerprint else Fingerprint(query, o.a.dialect)
  }

  lemma MissKeeps<R(!new)>(entries: seq<Item<R>>, query: text)
    ensures Find(entries, query).None? ==> AfterGet(entries, query) == entries
  {
  }

  lemma NothingToReport<S(!new)>(o: Options<S>, st: State, now: int)
    ensures AfterReport(o, st, [], now) == st
  {
  }

  /** Check as the code does it, on values: the cache's entries and the rest of the state. */
  function CachedCheck<S(!new)>(o: Options<S>, capacity: Option<int>, entries: seq<Item<seq<Finding>>>, st: State,
                                r: Request)
    : (seq<Item<seq<Finding>>>, State)
  {
    var found := Obtained(o, capacity, entries, r.query);
    (EntriesAfter(o, capacity, entries, r.query),
     AfterTrack(o, AfterReport(o, st, found, r.reportAt), Identity(o, found, r.query), r.trackAt))
  }

  function CachedEvent<S(!new)>(o: Options<S>, capacity: Option<int>, entries: seq<Item<seq<Finding>>>, st: State,
                                e: Event)
    : (seq<Item<seq<Finding>>>, State)
  {
    match e
    case Check(r) => CachedCheck(o, capacity, entries, st, r)
    case Latency(query, elapsed) => (entries, AfterLatency(o, st, query, elapsed))
    case Reset => (entries, AfterReset(st))
  }

  function CachedRun<S(!new)>(o: Options<S>, capacity: Option<int>, es: seq<Event>): (seq<Item<seq<Finding>>>, State)
  {
    if es == [] then ([], State(map[], map[], []))
    else
      var n := |es| - 1;
      var (entries, st) := CachedRun(o, capacity, es[..n]);
      CachedEvent(o, capacity, entries, st, es[n])
  }

  /** The specification over a run: no cache, every query analyzed and fingerprinted anew. */
  function PlainRun<S(!new)>(o: Options<S>, es: seq<Event>): State
  {
    if es == [] then State(map[], map[], [])
    else AfterEvent(o, PlainRun(o, es[..|es| - 1]), es[|es| - 1])
  }

  lemma EntriesKeep<S(!new)>(o: Options<S>, capacity: Option<int>, entries: seq<Item<seq<Finding>>>, query: text)
    requires AllFrom(entries, Analysis(o))
    ensures AllFrom(EntriesAfter(o, capacity, entries, query), Analysis(o))
  {
    hide Findings, Find, Without;
    WithoutMembers(entries, query);
    if Find(entries, query).Some? { FindIsMember(entries, query); }
    var first := [Item(query, Analysis(o)(query))] + Without(entries, query);
    assert AllFrom(first, Analysis(o));
    if capacity.Some? { assert forall x :: x in Take(first, capacity.value) ==> x in first; }
  }

  lemma CachedStep<S(!new)>(o: Options<S>, capacity: Option<int>, entries: seq<Item<seq<Finding>>>, st: State,
                            r: Request)
    requires AllFrom(entries, Analysis(o))
    ensures CachedCheck(o, capacity, entries, st, r).1 == AfterCheck(o, st, r)
    ensures AllFrom(CachedCheck(o, capacity, entries, st, r).0, Analysis(o))
  {
    EntriesKeep(o, capacity, entries, r.query);
    hide EntriesAfter, AfterReport, AfterTrack, Fingerprint, Find;
    if Find(entries, r.query).Some? { FindIsMember(entries, r.query); }
    OneIdentity(o.a, r.query, 0);
    hide Findings;
    var found := Findings(o.a, r.query);
    assert found != [] ==> found[0] in found;
  }

  /** Over any sequence of calls, and whatever the size of the cache, the guard reports the same findings and
      leaves the same deduper and tracker state as a guard without a cache that fingerprints each query. */
  lemma {:induction false} CacheIsInvisible<S(!new)>(o: Options<S>, capacity: Option<int>, es: seq<Event>)
    ensures CachedRun(o, capacity, es).1 == PlainRun(o, es)
    ensures AllFrom(CachedRun(o, capacity, es).0, Analysis(o))
  {
    hide CachedCheck, AfterCheck, AfterLatency;
    if es != [] {
      var n := |es| - 1;
      CacheIsInvisible(o, capacity, es[..n]);
      var (entries, st) := CachedRun(o, capacity, es[..n]);
      if es[n].Check? { CachedStep(o, capacity, entries, st, es[n].r); }
    }
  }

  /** The queries of the Checks, in order. */
  function Checked(es: seq<Event>): seq<text>
  {
    if es == [] then []
    else Checked(es[..|es| - 1]) + match es[|es| - 1] case Check(r) => [r.query] case _ => []
  }

  /** After any sequence of calls a query is in the cache exactly when it was checked and fewer distinct queries than
      the capacity were checked since. */
  lemma CachedInRun<S(!new)>(o: Options<S>, capacity: int, es: seq<Event>, query: text)
    ensures Find(CachedRun(o, Some(capacity), es).0, query).Some? <==>
            query in Checked(es) && |L.Since(Checked(es), query)| < capacity
  {
    hide CachedRun, L.AfterQueries, L.Since, Find, Checked;
    RunIsRecency(o, capacity, es);
    L.CachedExactly(Checked(es), capacity, query, Analysis(o));
  }

  lemma {:induction false} RunIsRecency<S(!new)>(o: Options<S>, capacity: int, es: seq<Event>)
    ensures CachedRun(o, Some(capacity), es).0 == L.AfterQueries(Checked(es), capacity, Analysis(o))
  {
    hide L.AnalyzeStep, Findings, AfterReport, AfterTrack, AfterLatency, Identity, Obtained;
    if es != [] {
      var n := |es| - 1;
      RunIsRecency(o, capacity, es[..n]);
      var before := Checked(es[..n]);
      if es[n].Check? {
        assert (before + [es[n].r.query])[..|before|] == before;
      } else {
        assert before + [] == before;
      }
    }
  }

  lemma NothingAdmitted(seen: map<text, int>, window: int, maxKeys: int, now: int)
    ensures Admit(seen, window, maxKeys, [], now) == (seen, [])
  {
  }

  lemma AdmitFirst(seen: map<text, int>, window: int, maxKeys: int, found: seq<Finding>, k: nat, now: int,
                   kept: seq<Finding>)
    requires k < |found|
    ensures var (after, ok) := D.AllowStep(seen, window, maxKeys, D.Key(found[k].fingerprint, found[k].ruleName), now);
      var (last, rest) := Admit(seen, window, maxKeys, found[k..], now);
      var (last', rest') := Admit(after, window, maxKeys, found[k + 1..], now);
      last == last' && kept + rest == (if ok then kept + [found[k]] else kept) + rest'
  {
    hide D.AllowStep;
    var (after, ok) := D.AllowStep(seen, window, maxKeys, D.Key(found[k].fingerprint, found[k].ruleName), now);
    assert found[k..][1..] == found[k + 1..];
    var rest := Admit(after, window, maxKeys, found[k + 1..], now).1;
    assert kept + ([found[k]] + rest) == kept + [found[k]] + rest;
    assert kept + ([] + rest) == kept + rest;
  }

  // ---- what a run reports, in terms of the runs of the deduper and of the tracker ----

  /** The deduper's calls for some findings. */
  function CallsFor(found: seq<Finding>, now: int): seq<D.Call>
  {
    seq(|found|, i requires 0 <= i < |found| => D.Call(D.Key(found[i].fingerprint, found[i].ruleName), now))
  }

  /** The deduper's calls over a run. */
  function Calls<S(!new)>(o: Options<S>, es: seq<Event>): seq<D.Call>
  {
    if es == [] then []
    else
      var n := |es| - 1;
      Calls(o, es[..n]) +
      match es[n]
      case Check(r) => CallsFor(Findings(o.a, r.query), r.reportAt)
      case _ => []
  }

  /** The tracker's operations over a run. */
  function Executions<S(!new)>(o: Options<S>, es: seq<Event>): seq<T.Op>
  {
    if es == [] then []
    else
      var n := |es| - 1;
      Executions(o, es[..n]) +
      match es[n]
      case Check(r) => [T.Execute(Fingerprint(r.query, o.a.dialect), r.trackAt)]
      case Latency(_, _) => []
      case Reset => [T.Reset]
  }

  /** The findings whose answer is true. */
  function Passed(found: seq<Finding>, answers: seq<bool>): seq<Finding>
    requires |found| == |answers|
  {
    if found == [] then [] else (if answers[0] then [found[0]] else []) + Passed(found[1..], answers[1..])
  }

  /** What the deduper lets through of the last query's findings. */
  function LetThrough<S(!new)>(o: Options<S>, es: seq<Event>): seq<Finding>
    requires es != [] && es[|es| - 1].Check?
  {
    var n := |es| - 1;
    Passed(Findings(o.a, es[n].r.query), D.Run(Calls(o, es), o.window, o.maxKeys).1[|Calls(o, es[..n])|..])
  }

  /** What the tracker makes of the last query. */
  function Tracked<S(!new)>(o: Options<S>, es: seq<Event>): T.Outcome
    requires es != [] && es[|es| - 1].Check? && o.limits.Some?
  {
    T.Run(Executions(o, es), o.limits.value, false).1[|Executions(o, es[..|es| - 1])|]
  }

  /** The batches of a run: per query the findings the deduper passes, and a repetition when the tracker says so;
      the slow queries between them. */
  function Emitted<S(!new)>(o: Options<S>, es: seq<Event>): seq<seq<Finding>>
  {
    if es == [] then []
    else
      var n := |es| - 1;
      Emitted(o, es[..n]) +
      match es[n]
      case Check(r) =>
        var kept := LetThrough(o, es);
        var out := if o.limits.None? then T.Dropped else Tracked(o, es);
        (if kept == [] then [] else [kept]) +
        if out.Counted? && out.report then [[Repetition(o, Fingerprint(r.query, o.a.dialect), out.n)]] else []
      case Latency(query, elapsed) => SlowReport(o, query, elapsed)
      case Reset => []
  }

  /** Letting findings through one by one is a run of the deduper. */
  lemma {:induction false} AdmitIsRun(calls: seq<D.Call>, window: int, maxKeys: int, found: seq<Finding>, now: int)
    ensures var all := D.Run(calls + CallsFor(found, now), window, maxKeys);
      Admit(D.Run(calls, window, maxKeys).0, window, maxKeys, found, now) == (all.0, Passed(found, all.1[|calls|..])) &&
      all.1[..|calls|] == D.Run(calls, window, maxKeys).1
    decreases |found|
  {
    hide D.AllowStep, D.Run;
    if found == [] {
      assert calls + CallsFor(found, now) == calls;
    } else {
      var c := D.Call(D.Key(found[0].fingerprint, found[0].ruleName), now);
      D.RunMore(calls, c, window, maxKeys);
      AdmitIsRun(calls + [c], window, maxKeys, found[1..], now);
      assert calls + CallsFor(found, now) == calls + [c] + CallsFor(found[1..], now);
      var all := D.Run(calls + CallsFor(found, now), window, maxKeys).1;
      assert all[..|calls| + 1][|calls|] == all[|calls|];
      assert all[|calls|..][1..] == all[|calls| + 1..];
      assert all[..|calls| + 1][..|calls|] == all[..|calls|];
    }
  }

  lemma TrackerRunMore<S(!new)>(o: Options<S>, es: seq<Event>)
    requires es != [] && o.limits.Some?
    ensures var n := |es| - 1;
      var (q, outs) := T.Run(Executions(o, es[..n]), o.limits.value, false);
      T.Run(Executions(o, es), o.limits.value, false) ==
      match es[n]
      case Check(r) =>
        var (after, out) := T.LazyStep(q, o.limits.value, Fingerprint(r.query, o.a.dialect), r.trackAt);
        (after, outs + [out])
      case Latency(_, _) => (q, outs)
      case Reset => (map[], outs + [T.Cleared])
  {
    hide Fingerprint, T.LazyStep;
    var n := |es| - 1;
    var before := Executions(o, es[..n]);
    match es[n] {
      case Check(r) =>
        assert (before + [T.Execute(Fingerprint(r.query, o.a.dialect), r.trackAt)])[..|before|] == before;
      case Latency(_, _) => assert before + [] == before;
      case Reset => assert (before + [T.Reset])[..|before|] == before;
    }
  }

  lemma RunsStart<S(!new)>(o: Options<S>)
    ensures Matches(o, [])
  {
    hide D.AllowStep, T.LazyStep;
  }

  /** What GuardRuns says of one run. */
  predicate Matches<S(!new)>(o: Options<S>, es: seq<Event>)
  {
    var st := PlainRun(o, es);
    st.seen == D.Run(Calls(o, es), o.window, o.maxKeys).0 &&
    st.queries == (if o.limits.None? then map[] else T.Run(Executions(o, es), o.limits.value, false).0) &&
    st.reports == Emitted(o, es)
  }

  lemma CheckMatches<S(!new)>(o: Options<S>, es: seq<Event>)
    requires es != [] && es[|es| - 1].Check?
    ensures Matches(o, es[..|es| - 1]) ==> Matches(o, es)
  {
    hide D.Run, T.Run, T.LazyStep, Fingerprint, Findings, Admit, CallsFor, Passed, Repetition;
    var n := |es| - 1;
    var r := es[n].r;
    AdmitIsRun(Calls(o, es[..n]), o.window, o.maxKeys, Findings(o.a, r.query), r.reportAt);
    if o.limits.Some? { TrackerRunMore(o, es); }
    var e := Emitted(o, es[..n]);
    var kept := Admit(PlainRun(o, es[..n]).seen, o.window, o.maxKeys, Findings(o.a, r.query), r.reportAt).1;
    assert e + [] == e && e + [kept] + [] == e + [kept];
  }

  lemma OtherMatches<S(!new)>(o: Options<S>, es: seq<Event>)
    requires es != [] && !es[|es| - 1].Check?
    ensures Matches(o, es[..|es| - 1]) ==> Matches(o, es)
  {
    hide D.Run, T.Run, T.LazyStep, Fingerprint, SlowReport;
    var n := |es| - 1;
    assert Calls(o, es[..n]) + [] == Calls(o, es[..n]);
    if o.limits.Some? { TrackerRunMore(o, es); }
    assert Emitted(o, es[..n]) + [] == Emitted(o, es[..n]);
  }

  /** Over any run the guard's maps are those of a run of the deduper and of a run of the tracker, and it reports
      exactly what those two let through, batch by batch, and the slow queries. */
  lemma {:induction false} GuardRuns<S(!new)>(o: Options<S>, es: seq<Event>)
    ensures Matches(o, es)
  {
    hide Matches;
    if es == [] {
      RunsStart(o);
    } else {
      GuardRuns(o, es[..|es| - 1]);
      if es[|es| - 1].Check? { CheckMatches(o, es); } else { OtherMatches(o, es); }
    }
  }
}
