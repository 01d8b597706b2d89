/** What holds of a guard's reports over every run of its calls, whatever is reset or slow in between. */
module Reports {
  import opened Analyzer
  import opened Bytes
  import opened Guard
  import D = Dedup
  import T = Tracker

  /** The clock that report reads does not go back. */
  predicate ReportsInOrder(es: seq<Event>)
  {
    forall i, j :: 0 <= i < j < |es| && es[i].Check? && es[j].Check? ==> es[i].r.reportAt <= es[j].r.reportAt
  }

  /** The clock that the tracker reads does not go back. */
  predicate ExecutionsInOrder(es: seq<Event>)
  {
    forall i, j :: 0 <= i < j < |es| && es[i].Check? && es[j].Check? ==> es[i].r.trackAt <= es[j].r.trackAt
  }

  // ---- findings ----

  /** The batch of findings reported for the query at i. */
  function Batch<S(!new)>(o: Options<S>, es: seq<Event>, i: nat): seq<Finding>
    requires i < |es| && es[i].Check?
  {
    Admit(PlainRun(o, es[..i]).seen, o.window, o.maxKeys, Findings(o.a, es[i].r.query), es[i].r.reportAt).1
  }

  /** Which finding the a-th of those that passed is. */
  function Origin(found: seq<Finding>, answers: seq<bool>, a: nat): (k: nat)
    requires |found| == |answers| && a < |Passed(found, answers)|
    ensures k < |found| && answers[k] && found[k] == Passed(found, answers)[a]
  {
    if answers[0] && a == 0 then 0
    else 1 + Origin(found[1..], answers[1..], if answers[0] then a - 1 else a)
  }

  lemma {:induction false} OriginAscends(found: seq<Finding>, answers: seq<bool>, a: nat, b: nat)
    requires |found| == |answers| && a < b < |Passed(found, answers)|
    ensures Origin(found, answers, a) < Origin(found, answers, b)
  {
    var n := if answers[0] then 1 else 0;
    if a >= n { OriginAscends(found[1..], answers[1..], a - n, b - n); }
  }

  lemma {:induction false} CallsPrefix<S(!new)>(o: Options<S>, es: seq<Event>, i: nat)
    requires i <= |es|
    ensures var before := Calls(o, es[..i]); before <= Calls(o, es)
  {
    hide CallsFor, Findings;
    if i < |es| {
      CallsPrefix(o, es[..|es| - 1], i);
      assert es[..|es| - 1][..i] == es[..i];
    } else {
      assert es[..i] == es;
    }
  }

  lemma {:induction false} CallsAfter<S(!new)>(o: Options<S>, es: seq<Event>, now: int)
    requires forall i :: 0 <= i < |es| && es[i].Check? ==> es[i].r.reportAt <= now
    ensures D.After(Calls(o, es), now)
  {
    hide Findings;
    if es != [] { CallsAfter(o, es[..|es| - 1], now); }
  }

  lemma {:induction false} CallsInOrder<S(!new)>(o: Options<S>, es: seq<Event>)
    requires ReportsInOrder(es)
    ensures D.Monotone(Calls(o, es))
  {
    hide Findings;
    if es != [] {
      var n := |es| - 1;
      CallsInOrder(o, es[..n]);
      if es[n].Check? { CallsAfter(o, es[..n], es[n].r.reportAt); }
    }
  }

  /** The deduper's call that let the a-th finding of the batch through. */
  ghost predicate CalledAt<S(!new)>(o: Options<S>, es: seq<Event>, i: nat, a: nat, p: nat)
    requires i < |es| && es[i].Check? && a < |Batch(o, es, i)|
  {
    var calls, f := Calls(o, es), Batch(o, es, i)[a];
    |Calls(o, es[..i])| <= p < |Calls(o, es[..i + 1])| <= |calls| &&
    calls[p] == D.Call(D.Key(f.fingerprint, f.ruleName), es[i].r.reportAt) &&
    D.Run(calls, o.window, o.maxKeys).1[p]
  }

  /** The batch at i is what the deduper's run lets through. */
  lemma BatchIsPassed<S(!new)>(o: Options<S>, es: seq<Event>, i: nat) returns (answers: seq<bool>)
    requires i < |es| && es[i].Check?
    ensures var before, found := Calls(o, es[..i]), Findings(o.a, es[i].r.query);
      |answers| == |found| && Batch(o, es, i) == Passed(found, answers) &&
      Calls(o, es[..i + 1]) == before + CallsFor(found, es[i].r.reportAt) &&
      D.Run(Calls(o, es[..i + 1]), o.window, o.maxKeys).1[|before|..] == answers
  {
    hide D.Run, Admit, CallsFor, Passed, Findings, PlainRun;
    assert es[..i + 1][..i] == es[..i];
    GuardRuns(o, es[..i]);
    AdmitIsRun(Calls(o, es[..i]), o.window, o.maxKeys, Findings(o.a, es[i].r.query), es[i].r.reportAt);
    answers := D.Run(Calls(o, es[..i + 1]), o.window, o.maxKeys).1[|Calls(o, es[..i])|..];
    CallsForLength(Findings(o.a, es[i].r.query), es[i].r.reportAt);
  }

  lemma CallsForLength(found: seq<Finding>, now: int)
    ensures |CallsFor(found, now)| == |found|
  {
  }

  lemma CallOf<S(!new)>(o: Options<S>, es: seq<Event>, i: nat, answers: seq<bool>, a: nat) returns (p: nat)
    requires i < |es| && es[i].Check? && a < |Batch(o, es, i)|
    requires var before, found := Calls(o, es[..i]), Findings(o.a, es[i].r.query);
      |answers| == |found| && Batch(o, es, i) == Passed(found, answers) &&
      Calls(o, es[..i + 1]) == before + CallsFor(found, es[i].r.reportAt) &&
      D.Run(Calls(o, es[..i + 1]), o.window, o.maxKeys).1[|before|..] == answers
    ensures CalledAt(o, es, i, a, p) && p == |Calls(o, es[..i])| + Origin(Findings(o.a, es[i].r.query), answers, a)
  {
    hide D.Run, Calls, Batch, Findings, Passed;
    var k := Origin(Findings(o.a, es[i].r.query), answers, a);
    p := |Calls(o, es[..i])| + k;
    CallsPrefix(o, es, i + 1);
    assert Calls(o, es)[..|Calls(o, es[..i + 1])|] == Calls(o, es[..i + 1]);
    AnswersPrefix(o, Calls(o, es), |Calls(o, es[..i + 1])|);
    assert D.Run(Calls(o, es[..i + 1]), o.window, o.maxKeys).1[p] == answers[k];
    assert Calls(o, es[..i + 1])[p] == CallsFor(Findings(o.a, es[i].r.query), es[i].r.reportAt)[k];
  }

  lemma AnswersPrefix<S(!new)>(o: Options<S>, calls: seq<D.Call>, n: nat)
    requires n <= |calls|
    ensures D.Run(calls[..n], o.window, o.maxKeys).1 == D.Run(calls, o.window, o.maxKeys).1[..n]
  {
    hide D.Run;
    if n < |calls| {
      D.RunPrefix(calls, o.window, o.maxKeys, n);
    } else {
      assert calls[..n] == calls;
    }
  }

  /** Two reports of one finding come from different queries that are more than the window apart. */
  lemma FindingsApart<S(!new)>(o: Options<S>, es: seq<Event>, i: nat, a: nat, j: nat, b: nat)
    requires o.window > 0 && ReportsInOrder(es)
    requires i < |es| && es[i].Check? && a < |Batch(o, es, i)|
    requires j < |es| && es[j].Check? && b < |Batch(o, es, j)|
    requires i < j || (i == j && a < b)
    requires var f, g := Batch(o, es, i)[a], Batch(o, es, j)[b];
      f.fingerprint == g.fingerprint && f.ruleName == g.ruleName
    ensures i < j && es[j].r.reportAt - es[i].r.reportAt > o.window
  {
    hide D.Run, Calls, Batch, Findings, Passed;
    CallsInOrder(o, es);
    var answers := BatchIsPassed(o, es, i);
    var p := CallOf(o, es, i, answers, a);
    var answers' := BatchIsPassed(o, es, j);
    var q := CallOf(o, es, j, answers', b);
    if i < j {
      CallsPrefix(o, es[..j], i + 1);
      assert es[..j][..i + 1] == es[..i + 1];
    } else {
      OriginAscends(Findings(o.a, es[i].r.query), answers, a, b);
    }
    D.AllowancesApart(Calls(o, es), o.window, o.maxKeys, p, q);
  }

  // ---- repetitions ----

  /** The query at i is reported as repeated. */
  predicate Repeats<S(!new)>(o: Options<S>, es: seq<Event>, i: nat)
  {
    i < |es| && es[i].Check? && o.limits.Some? &&
    var out := T.LazyStep(PlainRun(o, es[..i]).queries, o.limits.value, Fingerprint(es[i].r.query, o.a.dialect),
                          es[i].r.trackAt).1;
    out.Counted? && out.report
  }

  /** How many queries of the fingerprint are checked from an event on. */
  function Checks<S(!new)>(o: Options<S>, es: seq<Event>, fingerprint: text, from: nat): nat
  {
    var n := |es| - 1;
    if n < from then 0
    else
      Checks(o, es[..n], fingerprint, from) +
      if es[n].Check? && Fingerprint(es[n].r.query, o.a.dialect) == fingerprint then 1 else 0
  }

  lemma {:induction false} ExecutionsPrefix<S(!new)>(o: Options<S>, es: seq<Event>, i: nat)
    requires i <= |es|
    ensures Executions(o, es[..i]) <= Executions(o, es)
  {
    hide Fingerprint;
    if i < |es| {
      ExecutionsPrefix(o, es[..|es| - 1], i);
      assert es[..|es| - 1][..i] == es[..i];
    } else {
      assert es[..i] == es;
    }
  }

  lemma {:induction false} ExecutionsAfter<S(!new)>(o: Options<S>, es: seq<Event>, now: int)
    requires forall i :: 0 <= i < |es| && es[i].Check? ==> es[i].r.trackAt <= now
    ensures T.After(Executions(o, es), now)
  {
    hide Fingerprint;
    if es != [] { ExecutionsAfter(o, es[..|es| - 1], now); }
  }

  lemma {:induction false} OpsInOrder<S(!new)>(o: Options<S>, es: seq<Event>)
    requires ExecutionsInOrder(es)
    ensures T.Monotone(Executions(o, es))
  {
    hide Fingerprint;
    if es != [] {
      var n := |es| - 1;
      OpsInOrder(o, es[..n]);
      if es[n].Check? { ExecutionsAfter(o, es[..n], es[n].r.trackAt); }
    }
  }

  lemma OneMore(ops: seq<T.Op>, op: T.Op, key: text, s: nat)
    requires s <= |ops|
    ensures T.Executions(ops + [op], key, s) ==
            T.Executions(ops, key, s) + if op.Execute? && op.key == key then 1 else 0
  {
    assert (ops + [op])[..|ops|] == ops;
  }

  lemma NoneYet(ops: seq<T.Op>, key: text)
    ensures T.Executions(ops, key, |ops|) == 0
  {
  }

  /** The tracker counts the guard's checks. */
  lemma {:induction false} ChecksAreExecutions<S(!new)>(o: Options<S>, es: seq<Event>, fingerprint: text, from: nat)
    requires from <= |es|
    ensures T.Executions(Executions(o, es), fingerprint, |Executions(o, es[..from])|) ==
            Checks(o, es, fingerprint, from)
  {
    hide Fingerprint, T.Executions;
    if from == |es| {
      assert es[..from] == es;
      NoneYet(Executions(o, es), fingerprint);
    } else {
      var n := |es| - 1;
      var before, s := Executions(o, es[..n]), |Executions(o, es[..from])|;
      ChecksAreExecutions(o, es[..n], fingerprint, from);
      ExecutionsPrefix(o, es[..n], from);
      assert es[..n][..from] == es[..from];
      match es[n] {
        case Check(r) =>
          OneMore(before, T.Execute(Fingerprint(r.query, o.a.dialect), r.trackAt), fingerprint, s);
        case Latency(_, _) => assert before + [] == before;
        case Reset => OneMore(before, T.Reset, fingerprint, s);
      }
    }
  }

  lemma {:induction false} FewerLater(ops: seq<T.Op>, key: text, s: nat, s': nat)
    requires s <= s'
    ensures T.Executions(ops, key, s') <= T.Executions(ops, key, s)
  {
    if |ops| - 1 >= s { FewerLater(ops[..|ops| - 1], key, s, s'); }
  }

  lemma ExecutionAt<S(!new)>(o: Options<S>, es: seq<Event>, i: nat)
    requires i < |es| && es[i].Check?
    ensures var ops, p := Executions(o, es), |Executions(o, es[..i])|;
      |Executions(o, es[..i + 1])| == p + 1 <= |ops| && ops[..p] == Executions(o, es[..i]) &&
      ops[p] == T.Execute(Fingerprint(es[i].r.query, o.a.dialect), es[i].r.trackAt)
  {
    hide Fingerprint;
    ExecutionsPrefix(o, es, i);
    ExecutionsPrefix(o, es, i + 1);
    assert es[..i + 1][..i] == es[..i];
    assert Executions(o, es[..i + 1])[|Executions(o, es[..i])|] ==
           T.Execute(Fingerprint(es[i].r.query, o.a.dialect), es[i].r.trackAt);
  }

  /** A reported repetition is a report of the tracker's run. */
  lemma RepeatsInRun<S(!new)>(o: Options<S>, es: seq<Event>, i: nat)
    requires Repeats(o, es, i)
    ensures var ops, p := Executions(o, es), |Executions(o, es[..i])|;
      |Executions(o, es[..i + 1])| == p + 1 <= |ops| &&
      ops[p] == T.Execute(Fingerprint(es[i].r.query, o.a.dialect), es[i].r.trackAt) &&
      var out := T.Run(ops, o.limits.value, false).1[p]; out.Counted? && out.report
  {
    hide Fingerprint, T.Run, T.LazyStep, PlainRun, Executions, Calls, D.Run, Emitted;
    ExecutionAt(o, es, i);
    GuardRuns(o, es[..i]);
    T.OutcomeAt(Executions(o, es), o.limits.value, |Executions(o, es[..i])|);
  }

  /** Behind one report of a repetition its query has to be checked max(2, threshold) times for the next one. */
  lemma RepetitionsApart<S(!new)>(o: Options<S>, es: seq<Event>, i: nat, j: nat)
    requires ExecutionsInOrder(es) && i < j && Repeats(o, es, i) && Repeats(o, es, j)
    requires Fingerprint(es[i].r.query, o.a.dialect) == Fingerprint(es[j].r.query, o.a.dialect)
    ensures Checks(o, es[..j + 1], Fingerprint(es[j].r.query, o.a.dialect), i + 1) >=
            T.ReportAt(o.limits.value.threshold)
  {
    hide Fingerprint, T.Run, T.LazyStep, PlainRun, Executions, T.Executions, Checks;
    var es' := es[..j + 1];
    assert es'[..i] == es[..i] && es'[..j] == es[..j] && es'[..i + 1] == es[..i + 1] == es[..j][..i + 1];
    assert Repeats(o, es', i) && Repeats(o, es', j);
    RepeatsInRun(o, es', i);
    RepeatsInRun(o, es', j);
    OpsInOrder(o, es');
    ExecutionsPrefix(o, es[..j], i + 1);
    var ops, p, q := Executions(o, es'), |Executions(o, es[..i])|, |Executions(o, es[..j])|;
    var s := T.ReportsApart(ops, o.limits.value, p, q);
    assert es'[..j + 1] == es' && ops[..q + 1] == ops;
    FewerLater(ops, ops[q].key, |Executions(o, es[..i + 1])|, s);
    ChecksAreExecutions(o, es', ops[q].key, i + 1);
  }
}
