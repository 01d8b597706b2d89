/** The N+1 tracker: executions of one fingerprint are counted per epoch, and an epoch is reported once.
    Times and the window are integers of one unit. */
module Tracker {
  import opened Bytes
  import opened Sets

  datatype Record = Record(count: nat, firstSeen: int, reported: bool)

  datatype Limits = Limits(threshold: int, window: int, maxKeys: int)

  /** What one execution did; Counted(n, true) is a report of n executions, and
      Cleared stands for a Reset. */
  datatype Outcome = Started | Dropped | Counted(n: nat, report: bool) | Cleared

  type Records = map<text, Record>

  predicate IsLive(r: Record, window: int, now: int) { now - r.firstSeen <= window }

  /** The records whose window has not elapsed. */
  function Live(q: Records, window: int, now: int): Records
  {
    map k | k in q && IsLive(q[k], window, now) :: q[k]
  }

  function Bump(r: Record, threshold: int): Record
  {
    Record(r.count + 1, r.firstSeen, r.reported || r.count + 1 >= threshold)
  }

  function CountedOnce(r: Record, threshold: int): Outcome
  {
    Counted(r.count + 1, r.count + 1 >= threshold && !r.reported)
  }

  /** One execution, as the code does it: expired records are evicted only when the map is full. */
  function LazyStep(q: Records, c: Limits, key: text, now: int): (Records, Outcome)
  {
    var kept := if |q| >= c.maxKeys then Live(q, c.window, now) else q;
    if key !in kept then
      if |kept| >= c.maxKeys then (kept, Dropped) else (kept[key := Record(1, now, false)], Started)
    else if !IsLive(kept[key], c.window, now) then (kept[key := Record(1, now, false)], Started)
    else (kept[key := Bump(kept[key], c.threshold)], CountedOnce(kept[key], c.threshold))
  }

  /** One execution when expired records vanish at once. */
  function EagerStep(q: Records, c: Limits, key: text, now: int): (Records, Outcome)
  {
    var live := Live(q, c.window, now);
    if key in live then (live[key := Bump(live[key], c.threshold)], CountedOnce(live[key], c.threshold))
    else if |live| >= c.maxKeys then (live, Dropped)
    else (live[key := Record(1, now, false)], Started)
  }

  class QueryTracker {
    var queries: Records
    const limits: Limits

    /** NewQueryTracker */
    constructor (threshold: int, window: int)
      ensures queries == map[] && limits == Limits(threshold, window, 10000)
    {
      queries := map[];
      limits := Limits(threshold, window, 10000);
    }

    /** trackFingerprint, up to the call of the reporter */
    method TrackFingerprint(normalized: text, now: int) returns (out: Outcome)
      modifies this
      ensures (queries, out) == LazyStep(old(queries), limits, normalized, now)
    {
      if |queries| >= limits.maxKeys {
        EvictExpired(now);
      }
      if normalized !in queries {
        if |queries| >= limits.maxKeys {
          return Dropped;
        }
        queries := queries[normalized := Record(1, now, false)];
        return Started;
      }
      var rec := queries[normalized];
      if now - rec.firstSeen > limits.window {
        queries := queries[normalized := Record(1, now, false)];
        return Started;
      }
      rec := rec.(count := rec.count + 1);
      var shouldReport := rec.count >= limits.threshold && !rec.reported;
      if shouldReport {
        rec := rec.(reported := true);
      }
      queries := queries[normalized := rec];
      return Counted(rec.count, shouldReport);
    }

    /** evictExpired */
    method EvictExpired(now: int)
      modifies this
      ensures queries == Live(old(queries), limits.window, now)
    {
      var left := queries.Keys;
      ghost var was := queries;
      while left != {}
        invariant left <= was.Keys
        invariant forall k :: k in queries <==> k in was && (k in left || IsLive(was[k], limits.window, now))
        invariant forall k :: k in queries ==> queries[k] == was[k]
      {
        var k :| k in left;
        left := left - {k};
        if now - queries[k].firstSeen > limits.window {
          queries := queries - {k};
        }
      }
    }

    /** Reset */
    method Reset()
      modifies this
      ensures queries == map[]
    {
      queries := map[];
    }
  }

  // ---- the lazy map refines the eager one ----

  lemma LiveIsPart(q: Records, window: int, now: int)
    ensures Live(q, window, now).Keys <= q.Keys && |Live(q, window, now)| <= |q|
    ensures Live(Live(q, window, now), window, now) == Live(q, window, now)
  {
    var l := Live(q, window, now);
    SubsetSize(l.Keys, q.Keys);
    assert |l| == |l.Keys| && |q| == |q.Keys|;
  }

  /** The same live records give the same outcome, and the same live records at every later time. */
  lemma StepRefines(q: Records, e: Records, c: Limits, key: text, now: int, later: int)
    requires Live(q, c.window, now) == Live(e, c.window, now) && now <= later
    ensures LazyStep(q, c, key, now).1 == EagerStep(e, c, key, now).1
    ensures Live(LazyStep(q, c, key, now).0, c.window, later) == Live(EagerStep(e, c, key, now).0, c.window, later)
  {
    var live := Live(q, c.window, now);
    LiveIsPart(q, c.window, now);
    assert key in live <==> key in q && IsLive(q[key], c.window, now);
    SameLater(q, e, c.window, now, later);
    LaterPart(q, c.window, now, later);
    LaterPart(e, c.window, now, later);
  }

  lemma SameLater(q: Records, e: Records, window: int, now: int, later: int)
    requires Live(q, window, now) == Live(e, window, now) && now <= later
    ensures Live(q, window, later) == Live(e, window, later)
  {
    LaterPart(q, window, now, later);
    LaterPart(e, window, now, later);
  }

  /** What is live later was live before. */
  lemma LaterPart(q: Records, window: int, now: int, later: int)
    requires now <= later
    ensures Live(Live(q, window, now), window, later) == Live(q, window, later)
  {
  }

  // ---- runs ----

  /** Executions, and the Resets between requests. */
  datatype Op = Execute(key: text, now: int) | Reset

  /** The records and the outcomes after the operations, from the empty map. */
  function Run(ops: seq<Op>, c: Limits, eager: bool): (r: (Records, seq<Outcome>))
    ensures |r.1| == |ops|
  {
    if ops == [] then (map[], [])
    else
      var n := |ops| - 1;
      var (q, outs) := Run(ops[..n], c, eager);
      match ops[n]
      case Reset => (map[], outs + [Cleared])
      case Execute(key, now) =>
        var (after, out) := if eager then EagerStep(q, c, key, now) else LazyStep(q, c, key, now);
        (after, outs + [out])
  }

  predicate Monotone(ops: seq<Op>)
  {
    forall i, j :: 0 <= i < j < |ops| && ops[i].Execute? && ops[j].Execute? ==> ops[i].now <= ops[j].now
  }

  predicate After(ops: seq<Op>, now: int)
  {
    forall i :: 0 <= i < |ops| && ops[i].Execute? ==> ops[i].now <= now
  }

  /** Over every run on a clock that does not go back, the code gives the outcomes of the eager tracker. */
  lemma {:induction false} RunRefines(ops: seq<Op>, c: Limits, later: int)
    requires Monotone(ops) && After(ops, later)
    ensures Run(ops, c, false).1 == Run(ops, c, true).1
    ensures Live(Run(ops, c, false).0, c.window, later) == Live(Run(ops, c, true).0, c.window, later)
  {
    hide LazyStep, EagerStep, Live;
    if ops != [] {
      var n := |ops| - 1;
      match ops[n] {
        case Reset => RunRefines(ops[..n], c, later);
        case Execute(key, now) =>
          RunRefines(ops[..n], c, now);
          StepRefines(Run(ops[..n], c, false).0, Run(ops[..n], c, true).0, c, key, now, later);
      }
    }
  }

  lemma {:induction false} RunPrefix(ops: seq<Op>, c: Limits, eager: bool, i: nat)
    requires i < |ops|
    ensures Run(ops[..i], c, eager).1 == Run(ops, c, eager).1[..i]
    ensures Run(ops[..i + 1], c, eager).1 == Run(ops, c, eager).1[..i + 1]
  {
    hide LazyStep, EagerStep;
    var n := |ops| - 1;
    if i < n {
      RunPrefix(ops[..n], c, eager, i);
      assert ops[..n][..i] == ops[..i] && ops[..n][..i + 1] == ops[..i + 1];
    } else {
      assert ops[..i + 1] == ops;
    }
  }

  // ---- epochs ----

  /** An epoch that started at s, was not cleared since, and is within its window at now. */
  predicate Epoch(ops: seq<Op>, outs: seq<Outcome>, window: int, s: nat, now: int)
    requires |outs| == |ops|
  {
    s < |ops| && ops[s].Execute? && outs[s].Started? && now - ops[s].now <= window &&
    forall j :: s < j < |ops| ==> ops[j].Execute?
  }

  predicate EpochOf(ops: seq<Op>, outs: seq<Outcome>, window: int, key: text, s: nat, now: int)
    requires |outs| == |ops|
  {
    Epoch(ops, outs, window, s, now) && ops[s].key == key
  }

  /** How often the key was executed from s on. */
  function Executions(ops: seq<Op>, key: text, s: nat): nat
  {
    var n := |ops| - 1;
    if n < s then 0 else Executions(ops[..n], key, s) + if ops[n].Execute? && ops[n].key == key then 1 else 0
  }

  lemma {:induction false} AtLeastOne(ops: seq<Op>, key: text, s: nat)
    requires s < |ops| && ops[s].Execute? && ops[s].key == key
    ensures Executions(ops, key, s) >= 1
  {
    if s < |ops| - 1 { AtLeastOne(ops[..|ops| - 1], key, s); }
  }

  /** The execution with this number is the one that reports. */
  function ReportAt(threshold: int): int { Max(2, threshold) }

  function RecordOf(ops: seq<Op>, c: Limits, key: text, s: nat): Record
    requires s < |ops| && ops[s].Execute?
  {
    var m := Executions(ops, key, s);
    Record(m, ops[s].now, m >= ReportAt(c.threshold))
  }

  lemma Last(ops: seq<Op>, c: Limits)
    requires ops != [] && ops[|ops| - 1].Execute?
    ensures var n := |ops| - 1;
      var (e, outs) := Run(ops[..n], c, true);
      var (after, out) := EagerStep(e, c, ops[n].key, ops[n].now);
      Run(ops, c, true) == (after, outs + [out])
  {
    hide LazyStep, EagerStep;
  }

  /** A live epoch has a record that counts its executions and says whether it was reported. */
  lemma {:induction false} EpochHasRecord(ops: seq<Op>, c: Limits, key: text, s: nat, now: int)
    requires Monotone(ops) && After(ops, now) && EpochOf(ops, Run(ops, c, true).1, c.window, key, s, now)
    ensures var e := Run(ops, c, true).0; key in e && e[key] == RecordOf(ops, c, key, s)
  {
    hide EagerStep, Run;
    var n := |ops| - 1;
    Last(ops, c);
    var last := ops[n];
    var (e, outs) := Run(ops[..n], c, true);
    if s < n {
      assert EpochOf(ops[..n], outs, c.window, key, s, last.now);
      EpochHasRecord(ops[..n], c, key, s, last.now);
      AtLeastOne(ops[..n], key, s);
      StepKeeps(e, c, last.key, last.now, key);
    } else {
      assert Executions(ops[..n], key, s) == 0;
      StartedNow(e, c, key, last.now);
    }
  }

  /** A step counts its own key and leaves the other live records alone. */
  lemma StepKeeps(e: Records, c: Limits, at: text, now: int, key: text)
    requires key in e && IsLive(e[key], c.window, now)
    ensures var after := EagerStep(e, c, at, now).0;
      key in after && after[key] == if key == at then Bump(e[key], c.threshold) else e[key]
  {
  }

  /** A live record belongs to a live epoch. */
  lemma {:induction false} RecordHasEpoch(ops: seq<Op>, c: Limits, key: text, now: int) returns (s: nat)
    requires Monotone(ops) && After(ops, now) && key in Live(Run(ops, c, true).0, c.window, now)
    ensures EpochOf(ops, Run(ops, c, true).1, c.window, key, s, now)
  {
    hide EagerStep, Run;
    RecordsNeedExecution(ops, c, key, now);
    var n := |ops| - 1;
    Last(ops, c);
    var last := ops[n];
    var (e, outs) := Run(ops[..n], c, true);
    LiveComesFrom(e, c, last.key, last.now, key, now);
    if last.key == key && EagerStep(e, c, key, last.now).1.Started? {
      s := n;
      StartedNow(e, c, key, last.now);
    } else {
      s := RecordHasEpoch(ops[..n], c, key, last.now);
      EpochHasRecord(ops[..n], c, key, s, last.now);
      StepKeeps(e, c, last.key, last.now, key);
    }
  }

  lemma RecordsNeedExecution(ops: seq<Op>, c: Limits, key: text, now: int)
    requires key in Live(Run(ops, c, true).0, c.window, now)
    ensures ops != [] && ops[|ops| - 1].Execute?
  {
  }

  lemma StartedNow(e: Records, c: Limits, key: text, now: int)
    requires EagerStep(e, c, key, now).1.Started?
    ensures var after := EagerStep(e, c, key, now).0; key in after && after[key] == Record(1, now, false)
  {
  }

  /** What is live after a step was live before it or was started by it. */
  lemma LiveComesFrom(e: Records, c: Limits, at: text, now: int, key: text, later: int)
    requires now <= later && key in Live(EagerStep(e, c, at, now).0, c.window, later)
    ensures (at == key && EagerStep(e, c, at, now).1.Started?) || key in Live(e, c.window, now)
  {
  }

  // ---- what the tracker does ----

  /** The keys with a live epoch. */
  function LiveKeys(ops: seq<Op>, outs: seq<Outcome>, window: int, now: int): set<text>
    requires |outs| == |ops|
  {
    set s | 0 <= s < |ops| && Epoch(ops, outs, window, s, now) :: ops[s].key
  }

  /** The next execution on a clock that does not go back. In a live epoch it is counted, and it reports exactly
      when its number is max(2, threshold); without one it is dropped exactly when maxKeys keys have a live
      epoch, and starts an epoch otherwise. */
  lemma TrackedExactly(ops: seq<Op>, c: Limits, key: text, now: int)
    requires Monotone(ops) && After(ops, now)
    ensures var (q, outs) := Run(ops, c, false);
      var out := LazyStep(q, c, key, now).1;
      (forall s :: EpochOf(ops, outs, c.window, key, s, now) ==>
        var m := Executions(ops, key, s) + 1; out == Counted(m, m == ReportAt(c.threshold))) &&
      ((forall s :: !EpochOf(ops, outs, c.window, key, s, now)) ==>
        out == if |LiveKeys(ops, outs, c.window, now)| >= c.maxKeys then Dropped else Started)
  {
    hide LazyStep, Run, Epoch, Executions, Live;
    RunRefines(ops, c, now);
    var (q, outs) := Run(ops, c, false);
    var e := Run(ops, c, true).0;
    StepRefines(q, e, c, key, now, now);
    LiveKeysAre(ops, c, now);
    forall s | EpochOf(ops, outs, c.window, key, s, now)
      ensures var m := Executions(ops, key, s) + 1; LazyStep(q, c, key, now).1 == Counted(m, m == ReportAt(c.threshold))
    {
      EpochIsCounted(ops, c, key, s, now);
    }
    if forall s :: !EpochOf(ops, outs, c.window, key, s, now) {
      if key in Live(e, c.window, now) {
        var s := RecordHasEpoch(ops, c, key, now);
        assert false;
      }
    }
  }

  lemma EpochIsCounted(ops: seq<Op>, c: Limits, key: text, s: nat, now: int)
    requires Monotone(ops) && After(ops, now) && EpochOf(ops, Run(ops, c, true).1, c.window, key, s, now)
    ensures var m := Executions(ops, key, s) + 1;
      EagerStep(Run(ops, c, true).0, c, key, now).1 == Counted(m, m == ReportAt(c.threshold))
  {
    hide Run, Executions;
    EpochHasRecord(ops, c, key, s, now);
    AtLeastOne(ops, key, s);
  }

  lemma LiveKeysAre(ops: seq<Op>, c: Limits, now: int)
    requires Monotone(ops) && After(ops, now)
    ensures var (e, outs) := Run(ops, c, true);
      |Live(e, c.window, now)| == |LiveKeys(ops, outs, c.window, now)|
  {
    hide Run, Executions;
    var (e, outs) := Run(ops, c, true);
    var live, keys := Live(e, c.window, now), LiveKeys(ops, outs, c.window, now);
    forall key ensures key in live.Keys <==> key in keys {
      if key in live {
        var s := RecordHasEpoch(ops, c, key, now);
      }
      if key in keys {
        var s :| 0 <= s < |ops| && Epoch(ops, outs, c.window, s, now) && ops[s].key == key;
        EpochHasRecord(ops, c, key, s, now);
      }
    }
    assert live.Keys == keys && |live| == |live.Keys|;
  }

  lemma {:induction false} OutcomeAt(ops: seq<Op>, c: Limits, i: nat)
    requires i < |ops| && ops[i].Execute?
    ensures Run(ops, c, false).1[i] == LazyStep(Run(ops[..i], c, false).0, c, ops[i].key, ops[i].now).1
  {
    hide LazyStep;
    var n := |ops| - 1;
    if i < n {
      OutcomeAt(ops[..n], c, i);
      assert ops[..n][..i] == ops[..i];
    }
  }

  lemma EpochStarted(ops: seq<Op>, outs: seq<Outcome>, window: int, s: nat, now: int)
    requires |outs| == |ops| && Epoch(ops, outs, window, s, now)
    ensures s < |ops|
  {
  }

  /** TrackedExactly, for the execution at i of a run. */
  lemma TrackedAt(ops: seq<Op>, c: Limits, i: nat)
    requires Monotone(ops) && i < |ops| && ops[i].Execute?
    ensures var outs := Run(ops, c, false).1;
      var key, now := ops[i].key, ops[i].now;
      (forall s :: EpochOf(ops[..i], outs[..i], c.window, key, s, now) ==>
        var m := Executions(ops[..i + 1], key, s); outs[i] == Counted(m, m == ReportAt(c.threshold))) &&
      ((forall s :: !EpochOf(ops[..i], outs[..i], c.window, key, s, now)) ==>
        outs[i] == if |LiveKeys(ops[..i], outs[..i], c.window, now)| >= c.maxKeys then Dropped else Started)
  {
    hide LazyStep, Run, Epoch, LiveKeys;
    var outs := Run(ops, c, false).1;
    RunPrefix(ops, c, false, i);
    TrackedExactly(ops[..i], c, ops[i].key, ops[i].now);
    OutcomeAt(ops, c, i);
    hide Executions;
    var key, now := ops[i].key, ops[i].now;
    forall s: nat | EpochOf(ops[..i], outs[..i], c.window, key, s, now)
      ensures var m := Executions(ops[..i + 1], key, s); outs[i] == Counted(m, m == ReportAt(c.threshold))
    {
      EpochStarted(ops[..i], outs[..i], c.window, s, now);
      ExecutionsStep(ops, key, s, i);
    }
  }

  /** Between Resets the epochs of one key start more than the window apart. */
  lemma EpochsApart(ops: seq<Op>, c: Limits, i: nat, j: nat)
    requires Monotone(ops) && i < j < |ops| && forall k :: i <= k <= j ==> ops[k].Execute?
    requires var outs := Run(ops, c, false).1;
      ops[i].key == ops[j].key && outs[i].Started? && outs[j].Started?
    ensures ops[j].now - ops[i].now > c.window
  {
    hide Run, Executions, LiveKeys;
    var outs := Run(ops, c, false).1;
    assert ops[..j][i] == ops[i] && outs[..j][i] == outs[i];
    assert ops[j].now - ops[i].now <= c.window ==> EpochOf(ops[..j], outs[..j], c.window, ops[j].key, i, ops[j].now);
    TrackedAt(ops, c, j);
  }

  /** The execution at i belongs to the epoch that started at s. */
  predicate InEpoch(ops: seq<Op>, outs: seq<Outcome>, window: int, s: nat, i: nat)
    requires |outs| == |ops|
  {
    s < i < |ops| && ops[i].Execute? && EpochOf(ops[..i], outs[..i], window, ops[i].key, s, ops[i].now)
  }

  lemma {:induction false} ExecutionsGrow(ops: seq<Op>, key: text, s: nat, i: nat, j: nat)
    requires s <= i <= j <= |ops|
    ensures Executions(ops[..i], key, s) <= Executions(ops[..j], key, s)
    ensures i < j && ops[j - 1].Execute? && ops[j - 1].key == key ==>
              Executions(ops[..i], key, s) < Executions(ops[..j], key, s)
  {
    if i < j {
      ExecutionsGrow(ops, key, s, i, j - 1);
      assert ops[..j][..j - 1] == ops[..j - 1] && ops[..j][j - 1] == ops[j - 1];
    }
  }

  /** No epoch is reported twice. */
  lemma OneReport(ops: seq<Op>, c: Limits, s: nat, i: nat, j: nat)
    requires Monotone(ops) && i < j
    requires InEpoch(ops, Run(ops, c, false).1, c.window, s, i) && InEpoch(ops, Run(ops, c, false).1, c.window, s, j)
    ensures var outs := Run(ops, c, false).1;
      outs[i].Counted? && outs[j].Counted? && !(outs[i].report && outs[j].report)
  {
    hide Run, Executions, LiveKeys, Epoch;
    TrackedAt(ops, c, i);
    TrackedAt(ops, c, j);
    assert ops[i].key == ops[j].key;
    ExecutionsGrow(ops, ops[j].key, s, i + 1, j + 1);
  }

  /** Between two reports of one key an epoch starts that has max(2, threshold) executions of its own. */
  lemma ReportsApart(ops: seq<Op>, c: Limits, i: nat, j: nat) returns (s: nat)
    requires Monotone(ops) && i < j < |ops| && ops[i].Execute? && ops[j].Execute? && ops[i].key == ops[j].key
    requires var outs := Run(ops, c, false).1; outs[i].Counted? && outs[i].report && outs[j].Counted? && outs[j].report
    ensures i < s < j && InEpoch(ops, Run(ops, c, false).1, c.window, s, j)
    ensures Executions(ops[..j + 1], ops[j].key, s) == ReportAt(c.threshold)
  {
    hide Run, Executions, LiveKeys, Epoch;
    var outs := Run(ops, c, false).1;
    TrackedAt(ops, c, j);
    s :| EpochOf(ops[..j], outs[..j], c.window, ops[j].key, s, ops[j].now);
    EpochStarted(ops[..j], outs[..j], c.window, s, ops[j].now);
    if s <= i {
      StartIsNoReport(ops, outs, c.window, s, j);
      InEarlier(ops, outs, c.window, s, i, j);
      OneReport(ops, c, s, i, j);
    }
  }

  lemma StartIsNoReport(ops: seq<Op>, outs: seq<Outcome>, window: int, s: nat, j: nat)
    requires |outs| == |ops| && InEpoch(ops, outs, window, s, j)
    ensures outs[s].Started?
  {
    assert outs[..j][s] == outs[s];
  }

  /** An epoch with max(2, threshold) executions has been reported, at the execution of that number. */
  lemma {:induction false} ReportHappens(ops: seq<Op>, c: Limits, s: nat, j: nat) returns (i: nat)
    requires Monotone(ops) && InEpoch(ops, Run(ops, c, false).1, c.window, s, j)
    requires Executions(ops[..j + 1], ops[j].key, s) >= ReportAt(c.threshold)
    ensures s < i <= j && InEpoch(ops, Run(ops, c, false).1, c.window, s, i) && ops[i].key == ops[j].key
    ensures Run(ops, c, false).1[i] == Counted(ReportAt(c.threshold), true)
    decreases j
  {
    hide Run, LiveKeys, Executions;
    var outs := Run(ops, c, false).1;
    var key := ops[j].key;
    TrackedAt(ops, c, j);
    if Executions(ops[..j + 1], key, s) == ReportAt(c.threshold) {
      i := j;
    } else {
      ExecutionsStep(ops, key, s, j);
      var p := PreviousExecution(ops, key, s, j - 1);
      InEarlier(ops, outs, c.window, s, p, j);
      i := ReportHappens(ops, c, s, p);
    }
  }

  lemma ExecutionsStep(ops: seq<Op>, key: text, s: nat, p: nat)
    requires s <= p < |ops|
    ensures Executions(ops[..p + 1], key, s) ==
            Executions(ops[..p], key, s) + if ops[p].Execute? && ops[p].key == key then 1 else 0
  {
    assert ops[..p + 1][..p] == ops[..p];
  }

  lemma NoneBefore(ops: seq<Op>, key: text, s: nat)
    requires s <= |ops|
    ensures Executions(ops[..s], key, s) == 0
  {
  }

  /** The last execution of the key at or before p. */
  lemma {:induction false} PreviousExecution(ops: seq<Op>, key: text, s: nat, p: nat) returns (q: nat)
    requires s <= p < |ops| && Executions(ops[..p + 1], key, s) >= 2
    ensures s < q <= p && ops[q].Execute? && ops[q].key == key
    ensures Executions(ops[..q + 1], key, s) == Executions(ops[..p + 1], key, s)
  {
    hide Executions;
    NoneBefore(ops, key, s);
    ExecutionsStep(ops, key, s, p);
    if ops[p].Execute? && ops[p].key == key {
      q := p;
    } else {
      q := PreviousExecution(ops, key, s, p - 1);
    }
  }

  lemma InEarlier(ops: seq<Op>, outs: seq<Outcome>, window: int, s: nat, p: nat, j: nat)
    requires |outs| == |ops| && Monotone(ops) && InEpoch(ops, outs, window, s, j)
    requires s < p < j && ops[p].Execute? && ops[p].key == ops[j].key
    ensures InEpoch(ops, outs, window, s, p)
  {
    assert ops[..p][s] == ops[s] && outs[..p][s] == outs[s] && ops[..j][s] == ops[s] && outs[..j][s] == outs[s];
    forall k | s < k < p ensures ops[..p][k].Execute? {
      assert ops[..j][k] == ops[k];
    }
  }

  /** An execution changes the record of its own key only; of the others those whose window has elapsed go, and only
      when the map is full. */
  lemma OthersStay(q: Records, c: Limits, key: text, now: int, other: text)
    requires other != key
    ensures var after := LazyStep(q, c, key, now).0;
      (other in after <==> other in q && (|q| < c.maxKeys || now - q[other].firstSeen <= c.window)) &&
      (other in after ==> after[other] == q[other])
  {
    hide Bump, CountedOnce;
  }

  /** The map never grows past maxKeys, whatever the clock does. */
  lemma {:induction false} RunBounded(ops: seq<Op>, c: Limits)
    requires c.maxKeys >= 0
    ensures |Run(ops, c, false).0| <= c.maxKeys
  {
    hide LazyStep;
    if ops != [] {
      var n := |ops| - 1;
      RunBounded(ops[..n], c);
      if ops[n].Execute? { StepBounded(Run(ops[..n], c, false).0, c, ops[n].key, ops[n].now); }
    }
  }

  lemma StepBounded(q: Records, c: Limits, key: text, now: int)
    requires |q| <= c.maxKeys
    ensures |LazyStep(q, c, key, now).0| <= c.maxKeys
  {
    LiveIsPart(q, c.window, now);
    var kept := if |q| >= c.maxKeys then Live(q, c.window, now) else q;
    UpdateSize(kept, key, Record(1, now, false));
    if key in kept { UpdateSize(kept, key, Bump(kept[key], c.threshold)); }
  }

  lemma UpdateSize(q: Records, key: text, r: Record)
    ensures |q[key := r]| == |q| + if key in q then 0 else 1
  {
    assert q[key := r].Keys == q.Keys + {key} && |q[key := r]| == |q.Keys + {key}|;
  }
}
