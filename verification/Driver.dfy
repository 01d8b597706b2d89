/** The wrapped connection and statement, and what database/sql makes of their answers. The base driver's
    answers and the clock readings around them are parameters. */
module Driver {
  import opened Analyzer
  import opened Bytes
  import opened Cache
  import opened Spelling
  import opened Wrappers
  import G = Guard

  /** What a base call answers: success, another error, or one of the two errors database/sql acts on. */
  datatype Answer = Done | Failed | ErrSkip | ErrBadConn {
    /** Whether the query ran: both special errors promise that it did not. */
    predicate Executed() { Done? || Failed? }
  }

  /** The clock around the base call, then in report and in the tracker. */
  datatype Times = Times(start: int, end: int, reportAt: int, trackAt: int)

  datatype NamedValue<V> = NamedValue(name: text, value: V)

  /** namedToValues: no positional values when an argument has a name */
  method NamedToValues<V(0)>(named: seq<NamedValue<V>>) returns (result: Option<seq<V>>)
    ensures result.None? <==> exists i :: 0 <= i < |named| && named[i].name != []
    ensures result.Some? ==>
      |result.value| == |named| && forall i :: 0 <= i < |named| ==> result.value[i] == named[i].value
  {
    var values := new V[|named|];
    for i := 0 to |named|
      invariant forall j :: 0 <= j < i ==> named[j].name == [] && values[j] == named[j].value
    {
      if named[i].name != [] {
        return None;
      }
      values[i] := named[i].value;
    }
    return Some(values[..]);
  }

  type Entries = seq<Item<seq<Finding>>>

  /** What one answered base call does to the guard: a check when the query ran, and the latency when it succeeded. */
  function AfterAnswer<S(!new)>(o: G.Options<S>, capacity: Option<int>, entries: Entries, st: G.State,
                                query: text, answer: Answer, times: Times): (Entries, G.State)
  {
    if !answer.Executed() then (entries, st)
    else
      var (after, checked) := G.CachedCheck(o, capacity, entries, st, G.Request(query, times.reportAt, times.trackAt));
      (after, if answer.Done? then G.AfterLatency(o, checked, query, times.end - times.start) else checked)
  }

  /** What is left after a check, plus one finding about a slow query if the call succeeded, the rule is on and the time
      between start and end of the call reaches the threshold. */
  ghost predicate Moved<S(!new)>(o: G.Options<S>, query: text, succeeded: bool, times: Times,
                                 entries: Entries, st: G.State, checked: (Entries, G.State))
  {
    entries == checked.0 && st.seen == checked.1.seen && st.queries == checked.1.queries &&
    if succeeded && o.slowEnabled && o.slowThreshold <= times.end - times.start then
      |st.reports| == |checked.1.reports| + 1 && st.reports[..|checked.1.reports|] == checked.1.reports &&
      var batch := st.reports[|checked.1.reports|];
      |batch| == 1 && G.IsSlowFinding(o, query, times.end - times.start, batch[0])
    else st.reports == checked.1.reports
  }

  /** What an answer does: nothing if the query did not run; else what a check does, and the slow query is reported
      after a success only. */
  lemma AnswerMeaning<S(!new)>(o: G.Options<S>, capacity: Option<int>, entries: Entries, st: G.State,
                               query: text, answer: Answer, times: Times)
    ensures var (entries', st') := AfterAnswer(o, capacity, entries, st, query, answer, times);
      match answer
      case Done =>
        Moved(o, query, true, times, entries', st',
              G.CachedCheck(o, capacity, entries, st, G.Request(query, times.reportAt, times.trackAt)))
      case Failed =>
        Moved(o, query, false, times, entries', st',
              G.CachedCheck(o, capacity, entries, st, G.Request(query, times.reportAt, times.trackAt)))
      case _ => entries' == entries && st' == st
  {
    hide G.CachedCheck, Display, Fingerprint, IsSpelling;
    G.SlowQuerySpelled();
    var checked := G.CachedCheck(o, capacity, entries, st, G.Request(query, times.reportAt, times.trackAt)).1;
    assert checked.reports + [] == checked.reports;
  }

  lemma UnfoldAnswer<S(!new)>(o: G.Options<S>, capacity: Option<int>, entries: Entries, st: G.State,
                              query: text, answer: Answer, times: Times)
    ensures AfterAnswer(o, capacity, entries, st, query, answer, times) ==
      if !answer.Executed() then (entries, st)
      else
        var r := G.Request(query, times.reportAt, times.trackAt);
        var (after, checked) := G.CachedCheck(o, capacity, entries, st, r);
        (after, if answer.Done? then G.AfterLatency(o, checked, query, times.end - times.start) else checked)
  {
    hide G.CachedCheck, G.AfterLatency;
  }

  /** analyzeExecuted: the elapsed time is read before Check */
  method AnalyzeExecuted<S(!new)>(g: G.Guard<S>, query: text, times: Times, err: Answer)
    requires g.Valid()
    modifies g, g.deduper, g.tracker, g.cache, g.Footprint()
    ensures g.Valid() && fresh(g.Footprint() - old(g.Footprint()))
    ensures (g.Entries(), g.Now()) == old(AfterAnswer(g.o, g.Capacity(), g.Entries(), g.Now(), query, err, times))
    ensures !err.Executed() ==> g.Footprint() == old(g.Footprint())
    ensures err in {ErrSkip, ErrBadConn} ==> (g.Entries(), g.Now()) == old((g.Entries(), g.Now()))
    ensures err in {Done, Failed} ==>
      Moved(g.o, query, err == Done, times, g.Entries(), g.Now(),
            old(G.CachedCheck(g.o, g.Capacity(), g.Entries(), g.Now(),
                              G.Request(query, times.reportAt, times.trackAt))))
  {
    hide G.CachedCheck, G.AfterLatency, Linked, Items, AfterAnswer, Moved;
    AnswerMeaning(g.o, g.Capacity(), g.Entries(), g.Now(), query, err, times);
    UnfoldAnswer(g.o, g.Capacity(), g.Entries(), g.Now(), query, err, times);
    if err == ErrSkip || err == ErrBadConn {
      return;
    }
    var elapsed := times.end - times.start;
    g.Check(query, times.reportAt, times.trackAt);
    if err == Done {
      g.CheckLatency(query, elapsed);
    }
  }

  /** How the base can be called directly. */
  datatype Entry = WithContext | Legacy | NoEntry

  /** The answer of a call: ErrSkip without an entry point, an error for named arguments on a legacy one,
      the base's own answer otherwise. */
  function CallAnswer<V>(entry: Entry, args: seq<NamedValue<V>>, base: Answer): Answer
  {
    match entry
    case WithContext => base
    case Legacy => if exists i :: 0 <= i < |args| && args[i].name != [] then Failed else base
    case NoEntry => ErrSkip
  }

  /** Whether the call reaches the base. */
  predicate Reaches<V>(entry: Entry, args: seq<NamedValue<V>>)
  {
    entry.WithContext? || (entry.Legacy? && forall i :: 0 <= i < |args| ==> args[i].name == [])
  }

  /** The QueryContext and ExecContext of wConn and of wStmt share this shape: entry says what the base offers;
      a statement always has a legacy entry. */
  class Wrapped<S(!new)> {
    const g: G.Guard<S>
    const entry: Entry

    constructor (g: G.Guard<S>, entry: Entry)
      ensures this.g == g && this.entry == entry
    {
      this.g := g;
      this.entry := entry;
    }

    method Call<V(0)>(query: text, args: seq<NamedValue<V>>, base: Answer, times: Times) returns (err: Answer)
      requires g.Valid()
      modifies g, g.deduper, g.tracker, g.cache, g.Footprint()
      ensures g.Valid() && fresh(g.Footprint() - old(g.Footprint()))
      ensures err == CallAnswer(entry, args, base)
      ensures err == if entry == NoEntry then ErrSkip
                     else if entry == Legacy && exists i :: 0 <= i < |args| && args[i].name != [] then Failed
                     else base
      ensures Reaches(entry, args) ==>
        (g.Entries(), g.Now()) == old(AfterAnswer(g.o, g.Capacity(), g.Entries(), g.Now(), query, base, times))
      ensures !Reaches(entry, args) || !base.Executed() ==>
        (g.Entries(), g.Now()) == old((g.Entries(), g.Now())) && g.Footprint() == old(g.Footprint())
    {
      hide AfterAnswer, Linked, Items;
      NoEffect(g.o, g.Capacity(), g.Entries(), g.Now(), query, base, times);
      if entry.WithContext? {
        err := base;
        AnalyzeExecuted(g, query, times, err);
        return;
      }
      if entry.Legacy? {
        var values := NamedToValues(args);
        if values.None? {
          return Failed;
        }
        err := base;
        AnalyzeExecuted(g, query, times, err);
        return;
      }
      return ErrSkip;
    }
  }

  lemma NoEffect<S(!new)>(o: G.Options<S>, capacity: Option<int>, entries: Entries, st: G.State,
                          query: text, answer: Answer, times: Times)
    ensures !answer.Executed() ==> AfterAnswer(o, capacity, entries, st, query, answer, times) == (entries, st)
  {
  }

  // ---- one logical query through database/sql ----

  /** One connection database/sql tries: the direct call; when that is skipped, Prepare and the statement call. */
  datatype Attempt = Attempt(
    entry: Entry, direct: Answer, directTimes: Times,
    prepare: Answer,
    stmtEntry: Entry, stmt: Answer, stmtTimes: Times)

  /** database/sql: the direct call, then a prepared statement on ErrSkip, and another connection on ErrBadConn. */
  method LogicalQuery<S(!new), V(0)>(g: G.Guard<S>, query: text, args: seq<NamedValue<V>>, attempts: seq<Attempt>)
    returns (err: Answer)
    requires g.Valid()
    modifies g, g.deduper, g.tracker, g.cache, g.Footprint()
    ensures g.Valid()
    ensures (g.Entries(), g.Now()) ==
      old(match Run(args, attempts)
          case None => (g.Entries(), g.Now())
          case Some(run) => AfterAnswer(g.o, g.Capacity(), g.Entries(), g.Now(), query, run.answer, run.times))
    ensures err == Answered(args, attempts)
    ensures LastDecides(g.o, old(g.Capacity()), query, BaseCalls(args, attempts),
                        old((g.Entries(), g.Now())), (g.Entries(), g.Now()))
  {
    hide AfterAnswer, Linked, Items, Reaches, CallAnswer, LastDecides, BaseCalls;
    LastCallDecides(g.o, g.Capacity(), g.Entries(), g.Now(), query, args, attempts);
    for k := 0 to |attempts|
      invariant g.Valid() && g.Footprint() == old(g.Footprint())
      invariant (g.Entries(), g.Now()) == old((g.Entries(), g.Now()))
      invariant Run(args, attempts[k..]) == Run(args, attempts)
      invariant Answered(args, attempts[k..]) == Answered(args, attempts)
    {
      var a := attempts[k];
      assert attempts[k..][0] == a && attempts[k..][1..] == attempts[k + 1..];
      AnswerOfCall(a.entry, args, a.direct);
      AnswerOfCall(a.stmtEntry, args, a.stmt);
      var conn := new Wrapped(g, a.entry);
      err := conn.Call(query, args, a.direct, a.directTimes);
      if err == ErrBadConn {
        continue;
      }
      if err != ErrSkip {
        return;
      }
      if a.prepare == ErrBadConn {
        continue;
      }
      if a.prepare != Done {
        return Failed;
      }
      var stmt := new Wrapped(g, a.stmtEntry);
      err := stmt.Call(query, args, a.stmt, a.stmtTimes);
      if err != ErrBadConn {
        return;
      }
    }
    return ErrBadConn;
  }

  /** The last call of the base decides: nothing happens if the query did not run in it; else a check, and the slow
      query is reported if that very call succeeded and took long enough. */
  ghost predicate LastDecides<S(!new)>(o: G.Options<S>, capacity: Option<int>, query: text, calls: seq<Execution>,
                                       before: (Entries, G.State), after: (Entries, G.State))
  {
    if calls == [] || calls[|calls| - 1].answer in {ErrSkip, ErrBadConn} then after == before
    else
      var times := calls[|calls| - 1].times;
      Moved(o, query, calls[|calls| - 1].answer == Done, times, after.0, after.1,
            G.CachedCheck(o, capacity, before.0, before.1, G.Request(query, times.reportAt, times.trackAt)))
  }

  lemma LastCallDecides<S(!new), V>(o: G.Options<S>, capacity: Option<int>, entries: Entries, st: G.State,
                                    query: text, args: seq<NamedValue<V>>, attempts: seq<Attempt>)
    ensures LastDecides(o, capacity, query, BaseCalls(args, attempts), (entries, st),
                        match Run(args, attempts)
                        case None => (entries, st)
                        case Some(run) => AfterAnswer(o, capacity, entries, st, query, run.answer, run.times))
  {
    hide AfterAnswer, Moved, BaseCalls, Run, Answered, G.CachedCheck;
    CheckedOnce(args, attempts);
    if Run(args, attempts).Some? {
      var run := Run(args, attempts).value;
      AnswerMeaning(o, capacity, entries, st, query, run.answer, run.times);
    } else {
      LastDidNotRun(BaseCalls(args, attempts));
    }
  }

  lemma AnswerOfCall<V>(entry: Entry, args: seq<NamedValue<V>>, base: Answer)
    ensures CallAnswer(entry, args, base) ==
      if Reaches(entry, args) then base else if entry.NoEntry? then ErrSkip else Failed
  {
  }

  datatype Execution = Execution(answer: Answer, times: Times)

  /** The last answer database/sql sees on one connection. */
  function Outcome<V>(args: seq<NamedValue<V>>, a: Attempt): Answer
  {
    var direct := CallAnswer(a.entry, args, a.direct);
    if !direct.ErrSkip? then direct
    else if a.prepare.ErrBadConn? then ErrBadConn
    else if !a.prepare.Done? then Failed
    else CallAnswer(a.stmtEntry, args, a.stmt)
  }

  /** The calls of Query or Exec that reach the base on one connection, with its answers. */
  function OwnCalls<V>(args: seq<NamedValue<V>>, a: Attempt): seq<Execution>
  {
    (if Reaches(a.entry, args) then [Execution(a.direct, a.directTimes)] else []) +
    if CallAnswer(a.entry, args, a.direct).ErrSkip? && a.prepare.Done? && Reaches(a.stmtEntry, args) then
      [Execution(a.stmt, a.stmtTimes)]
    else []
  }

  /** Where the query ran on one connection, if it did. */
  function OwnRun<V>(args: seq<NamedValue<V>>, a: Attempt): Option<Execution>
  {
    if Reaches(a.entry, args) && a.direct.Executed() then Some(Execution(a.direct, a.directTimes))
    else if CallAnswer(a.entry, args, a.direct).ErrSkip? && a.prepare.Done? && Reaches(a.stmtEntry, args) &&
      a.stmt.Executed() then Some(Execution(a.stmt, a.stmtTimes))
    else None
  }

  /** Where the query ran: another connection is tried only after ErrBadConn. */
  function Run<V>(args: seq<NamedValue<V>>, attempts: seq<Attempt>): Option<Execution>
  {
    if attempts == [] then None
    else if Outcome(args, attempts[0]).ErrBadConn? then Run(args, attempts[1..])
    else OwnRun(args, attempts[0])
  }

  /** What the caller of database/sql gets. */
  function Answered<V>(args: seq<NamedValue<V>>, attempts: seq<Attempt>): Answer
  {
    if attempts == [] then ErrBadConn
    else if Outcome(args, attempts[0]).ErrBadConn? then Answered(args, attempts[1..])
    else Outcome(args, attempts[0])
  }

  /** Every call of Query or Exec that reaches the base during the attempts, in order. */
  function BaseCalls<V>(args: seq<NamedValue<V>>, attempts: seq<Attempt>): seq<Execution>
  {
    if attempts == [] then []
    else
      OwnCalls(args, attempts[0]) +
      if Outcome(args, attempts[0]).ErrBadConn? then BaseCalls(args, attempts[1..]) else []
  }

  /** In how many of the calls the query ran. */
  function Ran(calls: seq<Execution>): nat
  {
    if calls == [] then 0
    else (if calls[0].answer in {ErrSkip, ErrBadConn} then 0 else 1) + Ran(calls[1..])
  }

  lemma {:induction false} RanConcat(a: seq<Execution>, b: seq<Execution>)
    ensures Ran(a + b) == Ran(a) + Ran(b)
  {
    if a == [] {
      assert a + b == b;
    } else {
      assert (a + b)[1..] == a[1..] + b;
      RanConcat(a[1..], b);
    }
  }

  lemma LastDidNotRun(calls: seq<Execution>)
    requires Ran(calls) == 0
    ensures calls != [] ==> calls[|calls| - 1].answer in {ErrSkip, ErrBadConn}
  {
    if calls != [] {
      var n := |calls| - 1;
      assert calls[..n] + [calls[n]] == calls;
      RanConcat(calls[..n], [calls[n]]);
    }
  }

  /** On one connection the query ran in at most one call, the last; in none before a retry. */
  lemma OwnOnce<V>(args: seq<NamedValue<V>>, a: Attempt)
    ensures var own, run := OwnCalls(args, a), OwnRun(args, a);
      Ran(own) == (if run.Some? then 1 else 0) &&
      (run.Some? ==> run.value.answer in {Done, Failed} && own != [] && own[|own| - 1] == run.value) &&
      (run.Some? ==> Outcome(args, a) == run.value.answer) && (Outcome(args, a).ErrBadConn? ==> run.None?)
  {
    hide Reaches, CallAnswer;
    AnswerOfCall(a.entry, args, a.direct);
    AnswerOfCall(a.stmtEntry, args, a.stmt);
    var x, y := Execution(a.direct, a.directTimes), Execution(a.stmt, a.stmtTimes);
    RanConcat([x], [y]);
    assert Ran([x]) == (if a.direct.Executed() then 1 else 0) && Ran([y]) == (if a.stmt.Executed() then 1 else 0);
    assert [] + [y] == [y] && [x] + [] == [x];
  }

  /** For any answers of the base, whatever is skipped, retried or rejected: the query ran in at most one of the calls,
      the last, and Run finds that call exactly when there is one. */
  lemma {:induction false} CheckedOnce<V>(args: seq<NamedValue<V>>, attempts: seq<Attempt>)
    ensures var calls, run := BaseCalls(args, attempts), Run(args, attempts);
      Ran(calls) == (if run.Some? then 1 else 0) &&
      (run.Some? ==> run.value.answer in {Done, Failed} && calls != [] && calls[|calls| - 1] == run.value &&
                     Answered(args, attempts) == run.value.answer)
  {
    if attempts != [] {
      var a := attempts[0];
      OwnOnce(args, a);
      CheckedOnce(args, attempts[1..]);
      RanConcat(OwnCalls(args, a), BaseCalls(args, attempts[1..]));
      assert OwnCalls(args, a) + [] == OwnCalls(args, a);
      hide OwnCalls, OwnRun, Outcome;
    }
  }

  // ---- which calls are made ----

  /** The base can be called there with these arguments. */
  predicate Offers<V>(entry: Entry, args: seq<NamedValue<V>>)
  {
    entry == WithContext || (entry == Legacy && forall k :: 0 <= k < |args| ==> args[k].name == [])
  }

  /** The direct call is skipped: there is none, or the base declines it. */
  predicate Skips<V>(args: seq<NamedValue<V>>, a: Attempt)
  {
    a.entry == NoEntry || (Offers(a.entry, args) && a.direct == ErrSkip)
  }

  /** The connection is bad: the direct call says so or, when that is skipped, Prepare or the statement's call. */
  predicate IsBad<V>(args: seq<NamedValue<V>>, a: Attempt)
  {
    (Offers(a.entry, args) && a.direct == ErrBadConn) ||
    (Skips(args, a) &&
     (a.prepare == ErrBadConn || (a.prepare == Done && Offers(a.stmtEntry, args) && a.stmt == ErrBadConn)))
  }

  /** The calls on one connection: the direct one if the base offers it, and the statement's if that one is skipped,
      Prepare succeeds and the statement offers it. */
  predicate AreCallsOf<V>(args: seq<NamedValue<V>>, a: Attempt, calls: seq<Execution>)
  {
    var direct, stmt := Execution(a.direct, a.directTimes), Execution(a.stmt, a.stmtTimes);
    if Skips(args, a) && a.prepare == Done && Offers(a.stmtEntry, args) then
      calls == if Offers(a.entry, args) then [direct, stmt] else [stmt]
    else calls == if Offers(a.entry, args) then [direct] else []
  }

  lemma OneConnection<V>(args: seq<NamedValue<V>>, a: Attempt)
    ensures AreCallsOf(args, a, OwnCalls(args, a))
    ensures Outcome(args, a) == ErrBadConn <==> IsBad(args, a)
    ensures var answer := Outcome(args, a);
      IsBad(args, a) ||
      if !Skips(args, a) then answer == if Offers(a.entry, args) then a.direct else Failed
      else if a.prepare != Done then answer == Failed
      else if Offers(a.stmtEntry, args) then answer == a.stmt
      else answer == if a.stmtEntry == Legacy then Failed else ErrSkip
  {
    hide CallAnswer, Reaches, Offers;
    AnswerOfCall(a.entry, args, a.direct);
    AnswerOfCall(a.stmtEntry, args, a.stmt);
    OffersIsReaches(a.entry, args);
    OffersIsReaches(a.stmtEntry, args);
  }

  lemma OffersIsReaches<V>(entry: Entry, args: seq<NamedValue<V>>)
    ensures Offers(entry, args) <==> Reaches(entry, args)
    ensures (entry == NoEntry ==> !Offers(entry, args)) && (entry == WithContext ==> Offers(entry, args))
  {
  }

  /** Bad connections are left for the next one, and the first that is not bad decides: its calls are the last, and its
      answer is the answer. */
  lemma {:induction false} FirstGoodDecides<V>(args: seq<NamedValue<V>>, attempts: seq<Attempt>, k: nat)
    requires k <= |attempts| && forall j :: 0 <= j < k ==> IsBad(args, attempts[j])
    ensures k == |attempts| ==> Answered(args, attempts) == ErrBadConn
    ensures k < |attempts| && !IsBad(args, attempts[k]) ==>
      Answered(args, attempts) == Outcome(args, attempts[k]) &&
      BaseCalls(args, attempts) == BaseCalls(args, attempts[..k]) + OwnCalls(args, attempts[k])
  {
    hide IsBad, Outcome, OwnCalls, BaseCalls, Answered;
    NoAttempt(args);
    if attempts != [] {
      FirstConnection(args, attempts);
      if k == 0 {
        assert attempts[..0] == [] && [] + OwnCalls(args, attempts[0]) == OwnCalls(args, attempts[0]);
      } else {
        var rest := attempts[1..];
        assert attempts[..k][1..] == rest[..k - 1];
        FirstConnection(args, attempts[..k]);
        assert k < |attempts| ==> attempts[k] == rest[k - 1];
        FirstGoodDecides(args, rest, k - 1);
      }
    }
  }

  lemma NoAttempt<V>(args: seq<NamedValue<V>>)
    ensures Answered(args, []) == ErrBadConn && BaseCalls(args, []) == []
  {
  }

  lemma FirstConnection<V>(args: seq<NamedValue<V>>, attempts: seq<Attempt>)
    requires attempts != []
    ensures var a, rest := attempts[0], attempts[1..];
      if IsBad(args, a) then
        Answered(args, attempts) == Answered(args, rest) &&
        BaseCalls(args, attempts) == OwnCalls(args, a) + BaseCalls(args, rest)
      else Answered(args, attempts) == Outcome(args, a) && BaseCalls(args, attempts) == OwnCalls(args, a)
  {
    hide IsBad, Outcome, OwnCalls;
    OneConnection(args, attempts[0]);
  }
}
