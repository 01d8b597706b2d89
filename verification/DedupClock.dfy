/** For which clocks the deduper keeps the passes of a finding apart: exactly those that never, once the map can be
    full, run past an entry's window and come back into it. */
module DedupClock {
  import opened Bytes
  import opened Dedup
  import opened Sets

  /** The calls for these findings (fingerprint and rule) at these times. */
  function At(who: seq<(text, text)>, ts: seq<int>): (calls: seq<Call>)
    requires |who| == |ts|
    ensures |calls| == |ts| && forall p :: 0 <= p < |ts| ==> calls[p] == Call(Key(who[p].0, who[p].1), ts[p])
  {
    seq(|ts|, p requires 0 <= p < |ts| => Call(Key(who[p].0, who[p].1), ts[p]))
  }

  /** The passes of each key are more than the window apart. */
  predicate Spaced(calls: seq<Call>, window: int, maxKeys: int)
  {
    var answers := Run(calls, window, maxKeys).1;
    forall i, l :: 0 <= i < l < |calls| && calls[i].key == calls[l].key && answers[i] && answers[l] ==>
      calls[l].now - calls[i].now > window
  }

  /** Past i by more than the window at j, and back within the window at l. */
  predicate Returns(ts: seq<int>, window: int, maxKeys: int, i: nat, j: nat, l: nat)
  {
    i < j < l < |ts| && maxKeys <= j && ts[j] - ts[i] > window >= ts[l] - ts[i]
  }

  ghost predicate Steady(ts: seq<int>, window: int, maxKeys: int)
  {
    forall i, j, l :: !Returns(ts, window, maxKeys, i, j, l)
  }

  // ---- a steady clock keeps passes apart ----

  predicate LastPass(calls: seq<Call>, answers: seq<bool>, key: text, i: nat)
    requires |answers| == |calls|
  {
    i < |calls| && calls[i].key == key && answers[i] &&
    forall x :: i < x < |calls| && calls[x].key == key ==> !answers[x]
  }

  lemma {:induction false} NoMoreKeysThanCalls(calls: seq<Call>, window: int, maxKeys: int)
    ensures |Run(calls, window, maxKeys).0| <= |calls|
  {
    hide AllowStep;
    if calls != [] {
      var n := |calls| - 1;
      NoMoreKeysThanCalls(calls[..n], window, maxKeys);
      OneMoreKey(Run(calls[..n], window, maxKeys).0, window, maxKeys, calls[n].key, calls[n].now);
    }
  }

  lemma OneMoreKey(seen: map<text, int>, window: int, maxKeys: int, key: text, now: int)
    ensures |AllowStep(seen, window, maxKeys, key, now).0| <= |seen| + 1
  {
    LiveIsPart(seen, window, now);
    var kept := if |seen| >= maxKeys then Live(seen, window, now) else seen;
    assert kept[key := now].Keys == kept.Keys + {key};
    assert |kept[key := now]| == |kept.Keys + {key}|;
  }

  /** What the map remembers of a key whose last pass was at i: its time, unless a later call of a full map was
      past its window. */
  lemma {:induction false} Remembered(calls: seq<Call>, window: int, maxKeys: int, key: text, i: nat)
    requires window > 0 && LastPass(calls, Run(calls, window, maxKeys).1, key, i)
    ensures var seen := Run(calls, window, maxKeys).0;
      if key in seen then seen[key] == calls[i].now
      else exists j :: i < j < |calls| && maxKeys <= j && calls[j].now - calls[i].now > window
  {
    hide AllowStep;
    var n := |calls| - 1;
    var (seen, answers) := Run(calls[..n], window, maxKeys);
    var c := calls[n];
    KeepsOrEvicts(seen, window, maxKeys, c.key, c.now, key);
    if i < n {
      assert forall x :: 0 <= x < n ==> calls[..n][x] == calls[x] && Run(calls, window, maxKeys).1[x] == answers[x];
      Remembered(calls[..n], window, maxKeys, key, i);
      NoMoreKeysThanCalls(calls[..n], window, maxKeys);
      if key !in seen {
        var j :| i < j < n && maxKeys <= j && calls[..n][j].now - calls[..n][i].now > window;
        assert calls[j].now - calls[i].now > window;
      }
    }
  }

  lemma KeepsOrEvicts(seen: map<text, int>, window: int, maxKeys: int, at: text, now: int, key: text)
    requires window > 0
    ensures var (after, ok) := AllowStep(seen, window, maxKeys, at, now);
      if at == key && ok then key in after && after[key] == now
      else (key in after ==> key in seen && after[key] == seen[key]) &&
           (key in seen && key !in after ==> |seen| >= maxKeys && now - seen[key] > window)
  {
  }

  /** The last pass of a key that has passed. */
  lemma {:induction false} FindLast(calls: seq<Call>, answers: seq<bool>, key: text, i: nat) returns (a: nat)
    requires |answers| == |calls| && i < |calls| && calls[i].key == key && answers[i]
    ensures i <= a && LastPass(calls, answers, key, a)
    decreases |calls|
  {
    var n := |calls| - 1;
    if calls[n].key == key && answers[n] {
      a := n;
    } else {
      a := FindLast(calls[..n], answers[..n], key, i);
    }
  }

  /** Two passes of one key within the window show that the clock returned. */
  lemma {:induction false} ReturnOf(calls: seq<Call>, ts: seq<int>, window: int, maxKeys: int, i: nat, l: nat)
    returns (a: nat, j: nat, b: nat)
    requires window > 0 && |ts| == |calls| && forall p :: 0 <= p < |ts| ==> ts[p] == calls[p].now
    requires i < l < |calls| && calls[i].key == calls[l].key && ts[l] - ts[i] <= window
    requires var answers := Run(calls, window, maxKeys).1; answers[i] && answers[l]
    ensures Returns(ts, window, maxKeys, a, j, b)
    decreases l
  {
    hide AllowStep, Run;
    var answers := Run(calls, window, maxKeys).1;
    var key := calls[l].key;
    RunPrefix(calls, window, maxKeys, l);
    a := FindLast(calls[..l], answers[..l], key, i);
    if ts[l] - ts[a] > window {
      a, j, b := ReturnOf(calls, ts, window, maxKeys, i, a);
    } else {
      Remembered(calls[..l], window, maxKeys, key, a);
      AllowedWhen(Run(calls[..l], window, maxKeys).0, window, maxKeys, key, ts[l]);
      j :| a < j < l && maxKeys <= j && calls[..l][j].now - calls[..l][a].now > window;
      b := l;
    }
  }

  // ---- an unsteady clock has a run that lets a finding through twice ----

  /** The x-th of a supply of findings, and its key. */
  function Finding(x: nat): (text, text) { (seq(x, _ => 1), [1]) }

  function KeyOf(x: nat): text { Key(Finding(x).0, Finding(x).1) }

  lemma KeysDiffer(x: nat, y: nat)
    ensures KeyOf(x) == KeyOf(y) <==> x == y
  {
    assert |KeyOf(x)| == x + 2 && |KeyOf(y)| == y + 2;
  }

  /** The keys of the findings from a up to b. */
  function Keys(a: nat, b: nat): set<text> { set x | a <= x < b :: KeyOf(x) }

  lemma {:induction false} KeysCount(a: nat, b: nat)
    requires a <= b
    ensures |Keys(a, b)| == b - a
    decreases b - a
  {
    if a < b {
      KeysCount(a, b - 1);
      forall x | a <= x < b - 1 ensures KeyOf(x) != KeyOf(b - 1) { KeysDiffer(x, b - 1); }
      assert Keys(a, b) == Keys(a, b - 1) + {KeyOf(b - 1)};
    }
  }

  /** Who calls: finding 0 at i and at l; before j the findings 1 up to maxKeys - 1, the last of them new at the last
      place; from j on finding 1. */
  function Who(p: nat, i: nat, j: nat, l: nat, maxKeys: nat): nat
    requires maxKeys >= 2
  {
    if p == i || p == l then 0
    else if p >= j then 1
    else
      var r := if p > i then p - 1 else p;
      if r + 2 == j then maxKeys - 1 else Max(1, Min(r + 1, maxKeys - 2))
  }

  lemma WhoRange(p: nat, i: nat, j: nat, l: nat, maxKeys: nat)
    requires maxKeys >= 2
    ensures Who(p, i, j, l, maxKeys) < maxKeys && (Who(p, i, j, l, maxKeys) == 0 <==> p == i || p == l)
  {
  }

  /** The map after n calls. */
  function Seen(calls: seq<Call>, window: int, maxKeys: int, n: nat): map<text, int>
    requires n <= |calls|
  {
    Run(calls[..n], window, maxKeys).0
  }

  lemma SeenStep(calls: seq<Call>, window: int, maxKeys: int, n: nat)
    requires n < |calls|
    ensures Seen(calls, window, maxKeys, n + 1) ==
            AllowStep(Seen(calls, window, maxKeys, n), window, maxKeys, calls[n].key, calls[n].now).0
  {
    hide AllowStep;
    assert calls[..n + 1][..n] == calls[..n] && calls[..n + 1][n] == calls[n];
  }

  lemma {:induction false} SeenStart(calls: seq<Call>, window: int, maxKeys: int)
    ensures Seen(calls, window, maxKeys, 0) == map[]
  {
  }

  /** The calls of the run. */
  ghost predicate IsRun(calls: seq<Call>, ts: seq<int>, window: int, maxKeys: nat, i: nat, j: nat, l: nat)
  {
    window > 0 && maxKeys >= 2 && Returns(ts, window, maxKeys, i, j, l) && |calls| == |ts| &&
    forall p :: 0 <= p < |ts| ==> calls[p] == Call(KeyOf(Who(p, i, j, l, maxKeys)), ts[p])
  }

  /** What holds before the call at n, up to j: finding 0 is there since i with its time, if it is there. */
  ghost predicate Filling(calls: seq<Call>, ts: seq<int>, window: int, maxKeys: nat, i: nat, n: nat)
    requires n <= |calls| && i < |ts|
  {
    var seen := Seen(calls, window, maxKeys, n);
    seen.Keys <= Keys(0, maxKeys) && (n <= i ==> KeyOf(0) !in seen) && (KeyOf(0) in seen ==> seen[KeyOf(0)] == ts[i])
  }

  lemma FillingStep(calls: seq<Call>, ts: seq<int>, window: int, maxKeys: nat, i: nat, j: nat, l: nat, n: nat)
    requires IsRun(calls, ts, window, maxKeys, i, j, l) && n < j && Filling(calls, ts, window, maxKeys, i, n)
    ensures Filling(calls, ts, window, maxKeys, i, n + 1)
  {
    hide Run;
    var x := Who(n, i, j, l, maxKeys);
    var seen := Seen(calls, window, maxKeys, n);
    WhoRange(n, i, j, l, maxKeys);
    KeysDiffer(x, 0);
    SeenStep(calls, window, maxKeys, n);
    assert KeyOf(x) in Keys(0, maxKeys);
    hide Seen, Who, KeyOf, Keys;
    KeepsOrEvicts(seen, window, maxKeys, KeyOf(x), ts[n], KeyOf(0));
    StepKeys(seen, window, maxKeys, KeyOf(x), ts[n]);
  }

  lemma StepKeys(seen: map<text, int>, window: int, maxKeys: int, key: text, now: int)
    ensures AllowStep(seen, window, maxKeys, key, now).0.Keys <= seen.Keys + {key}
  {
  }

  lemma {:induction false} FillingUp(calls: seq<Call>, ts: seq<int>, window: int, maxKeys: nat,
                                     i: nat, j: nat, l: nat, n: nat)
    requires IsRun(calls, ts, window, maxKeys, i, j, l) && n <= j
    ensures Filling(calls, ts, window, maxKeys, i, n)
  {
    hide Seen, Who, KeyOf, Keys;
    if n == 0 {
      SeenStart(calls, window, maxKeys);
    } else {
      FillingUp(calls, ts, window, maxKeys, i, j, l, n - 1);
      FillingStep(calls, ts, window, maxKeys, i, j, l, n - 1);
    }
  }

  /** Without finding 0 the map has room. */
  lemma RoomWithoutZero(seen: map<text, int>, maxKeys: nat)
    requires maxKeys >= 1 && seen.Keys <= Keys(0, maxKeys) && KeyOf(0) !in seen
    ensures |seen| <= maxKeys - 1
  {
    forall k | k in seen ensures k in Keys(1, maxKeys) {
      assert k in Keys(0, maxKeys);
      var x :| 0 <= x < maxKeys && k == KeyOf(x);
      assert x != 0;
    }
    SubsetSize(seen.Keys, Keys(1, maxKeys));
    KeysCount(1, maxKeys);
    assert |seen| == |seen.Keys|;
  }

  /** A finding that is not there passes when the map has room. */
  lemma PassesWithRoom(seen: map<text, int>, window: int, maxKeys: int, key: text, now: int)
    requires window > 0 && key !in seen && |seen| < maxKeys
    ensures AllowStep(seen, window, maxKeys, key, now).1
  {
    AllowedWhen(seen, window, maxKeys, key, now);
    LiveIsPart(seen, window, now);
  }

  // ---- with three keys or more, or when finding 0 comes last: no eviction before j ----

  /** The keys the map can hold before j: all but that of finding 0, or all but that of the last finding. */
  function Early(i: nat, j: nat, maxKeys: nat): set<text>
    requires maxKeys >= 2
  {
    if i + 1 == j then Keys(1, maxKeys) else Keys(0, maxKeys - 1)
  }

  /** All findings called so far are there, and before j the map has room. */
  ghost predicate Growing(calls: seq<Call>, window: int, maxKeys: nat, i: nat, j: nat, l: nat, n: nat)
    requires n <= |calls| && maxKeys >= 2
  {
    var seen := Seen(calls, window, maxKeys, n);
    (forall p :: 0 <= p < n ==> KeyOf(Who(p, i, j, l, maxKeys)) in seen) &&
    (n < j ==> seen.Keys <= Early(i, j, maxKeys))
  }

  lemma {:induction false} GrowingUp(calls: seq<Call>, ts: seq<int>, window: int, maxKeys: nat,
                                     i: nat, j: nat, l: nat, n: nat)
    requires IsRun(calls, ts, window, maxKeys, i, j, l) && n <= j && (maxKeys >= 3 || i + 1 == j)
    ensures Growing(calls, window, maxKeys, i, j, l, n)
  {
    if n == 0 {
      hide Seen, Who, KeyOf, Keys;
      SeenStart(calls, window, maxKeys);
    } else {
      hide Growing;
      GrowingUp(calls, ts, window, maxKeys, i, j, l, n - 1);
      GrowingStep(calls, ts, window, maxKeys, i, j, l, n - 1);
    }
  }

  lemma GrowingStep(calls: seq<Call>, ts: seq<int>, window: int, maxKeys: nat, i: nat, j: nat, l: nat, n: nat)
    requires IsRun(calls, ts, window, maxKeys, i, j, l) && n < j && (maxKeys >= 3 || i + 1 == j)
    requires Growing(calls, window, maxKeys, i, j, l, n)
    ensures Growing(calls, window, maxKeys, i, j, l, n + 1)
  {
    hide Seen, Who, KeyOf, Keys, Early, AllowStep;
    SeenStep(calls, window, maxKeys, n);
    var seen := Seen(calls, window, maxKeys, n);
    var key := KeyOf(Who(n, i, j, l, maxKeys));
    EarlyHasRoom(seen, i, j, maxKeys);
    KeptWithRoom(seen, window, maxKeys, key, ts[n]);
    StepKeys(seen, window, maxKeys, key, ts[n]);
    if n + 1 < j { EarlyHasWho(n, i, j, l, maxKeys); }
  }

  lemma EarlyHasRoom(seen: map<text, int>, i: nat, j: nat, maxKeys: nat)
    requires maxKeys >= 2 && seen.Keys <= Early(i, j, maxKeys)
    ensures |seen| < maxKeys
  {
    hide Keys;
    KeysCount(1, maxKeys);
    KeysCount(0, maxKeys - 1);
    SubsetSize(seen.Keys, Early(i, j, maxKeys));
    assert |seen| == |seen.Keys|;
  }

  lemma KeptWithRoom(seen: map<text, int>, window: int, maxKeys: int, key: text, now: int)
    requires window > 0 && |seen| < maxKeys
    ensures var after := AllowStep(seen, window, maxKeys, key, now).0; key in after && seen.Keys <= after.Keys
  {
  }

  lemma EarlyHasWho(p: nat, i: nat, j: nat, l: nat, maxKeys: nat)
    requires maxKeys >= 2 && p + 1 < j && i < j < l && maxKeys <= j && (maxKeys >= 3 || i + 1 == j)
    ensures KeyOf(Who(p, i, j, l, maxKeys)) in Early(i, j, maxKeys)
  {
    hide KeyOf, Keys;
    var x := Who(p, i, j, l, maxKeys);
    KeyIn(x, 1, maxKeys);
    KeyIn(x, 0, maxKeys - 1);
  }

  lemma KeyIn(x: nat, a: nat, b: nat)
    ensures a <= x < b ==> KeyOf(x) in Keys(a, b)
  {
  }

  /** Every finding has been called before j. */
  lemma Called(x: nat, i: nat, j: nat, l: nat, maxKeys: nat) returns (p: nat)
    requires x < maxKeys && 2 <= maxKeys <= j && i < j < l
    ensures p < j && Who(p, i, j, l, maxKeys) == x
  {
    if x == 0 {
      p := i;
    } else if x == maxKeys - 1 {
      p := if i + 1 == j then j - 2 else j - 1;
    } else {
      p := if x - 1 < i then x - 1 else x;
    }
  }

  lemma FullAt(calls: seq<Call>, ts: seq<int>, window: int, maxKeys: nat, i: nat, j: nat, l: nat)
    requires IsRun(calls, ts, window, maxKeys, i, j, l) && (maxKeys >= 3 || i + 1 == j)
    ensures |Seen(calls, window, maxKeys, j)| >= maxKeys
  {
    hide Seen, Who, KeyOf;
    GrowingUp(calls, ts, window, maxKeys, i, j, l, j);
    var seen := Seen(calls, window, maxKeys, j);
    forall k | k in Keys(0, maxKeys) ensures k in seen {
      var x :| 0 <= x < maxKeys && k == KeyOf(x);
      var p := Called(x, i, j, l, maxKeys);
    }
    SubsetSize(Keys(0, maxKeys), seen.Keys);
    KeysCount(0, maxKeys);
    assert |seen| == |seen.Keys|;
  }

  // ---- with two keys: finding 1 stays ----

  lemma {:induction false} OneStays(calls: seq<Call>, ts: seq<int>, window: int, i: nat, j: nat, l: nat, n: nat)
    requires IsRun(calls, ts, window, 2, i, j, l) && n <= j && (n > 1 || (n == 1 && i != 0))
    ensures KeyOf(1) in Seen(calls, window, 2, n)
  {
    hide Seen, Who, KeyOf, Keys;
    var seen := Seen(calls, window, 2, n - 1);
    FillingUp(calls, ts, window, 2, i, j, l, n - 1);
    SeenStep(calls, window, 2, n - 1);
    WhoRange(n - 1, i, j, l, 2);
    if n - 1 == i {
      OneStays(calls, ts, window, i, j, l, n - 1);
      RoomWithoutZero(seen, 2);
      KeptWithRoom(seen, window, 2, KeyOf(0), ts[n - 1]);
    } else {
      BothOrRoom(seen, window, ts[n - 1]);
    }
  }

  /** Of two findings the one that calls is there afterwards. */
  lemma BothOrRoom(seen: map<text, int>, window: int, now: int)
    requires window > 0 && seen.Keys <= Keys(0, 2)
    ensures KeyOf(1) in AllowStep(seen, window, 2, KeyOf(1), now).0
  {
    hide KeyOf;
    var kept := if |seen| >= 2 then Live(seen, window, now) else seen;
    if KeyOf(1) !in kept {
      assert kept.Keys <= {KeyOf(0)} by {
        forall k | k in kept ensures k == KeyOf(0) { assert k in Keys(0, 2); }
      }
      SubsetSize(kept.Keys, {KeyOf(0)});
      assert |kept| == |kept.Keys|;
    }
  }

  lemma BothAt(calls: seq<Call>, ts: seq<int>, window: int, i: nat, j: nat, l: nat)
    requires IsRun(calls, ts, window, 2, i, j, l) && KeyOf(0) in Seen(calls, window, 2, j)
    ensures |Seen(calls, window, 2, j)| >= 2
  {
    hide Seen, Who, KeyOf, Keys;
    OneStays(calls, ts, window, i, j, l, j);
    KeysDiffer(0, 1);
    var seen := Seen(calls, window, 2, j);
    SubsetSize({KeyOf(0), KeyOf(1)}, seen.Keys);
    assert |seen| == |seen.Keys|;
  }

  // ---- from j on finding 0 is gone ----

  ghost predicate Gone(seen: map<text, int>, maxKeys: nat)
  {
    KeyOf(0) !in seen && seen.Keys <= Keys(0, maxKeys)
  }

  lemma {:induction false} GoneFrom(calls: seq<Call>, ts: seq<int>, window: int, maxKeys: nat,
                                    i: nat, j: nat, l: nat, n: nat)
    requires IsRun(calls, ts, window, maxKeys, i, j, l) && j < n <= l
    ensures Gone(Seen(calls, window, maxKeys, n), maxKeys)
  {
    hide Gone, Seen, Who, KeyOf, AllowStep;
    SeenStep(calls, window, maxKeys, n - 1);
    WhoAfter(n - 1, i, j, l, maxKeys);
    var seen := Seen(calls, window, maxKeys, n - 1);
    if n - 1 == j {
      GoneAt(calls, ts, window, maxKeys, i, j, l);
    } else {
      GoneFrom(calls, ts, window, maxKeys, i, j, l, n - 1);
      StaysGone(seen, window, maxKeys, ts[n - 1]);
    }
  }

  lemma StaysGone(seen: map<text, int>, window: int, maxKeys: nat, now: int)
    requires Gone(seen, maxKeys) && maxKeys >= 2
    ensures Gone(AllowStep(seen, window, maxKeys, KeyOf(1), now).0, maxKeys)
  {
    hide KeyOf, Keys, AllowStep;
    KeyIn(1, 0, maxKeys);
    KeysDiffer(0, 1);
    StepKeys(seen, window, maxKeys, KeyOf(1), now);
  }

  /** The call at j evicts finding 0, for the map is full if it holds it. */
  lemma GoneAt(calls: seq<Call>, ts: seq<int>, window: int, maxKeys: nat, i: nat, j: nat, l: nat)
    requires IsRun(calls, ts, window, maxKeys, i, j, l)
    ensures Gone(AllowStep(Seen(calls, window, maxKeys, j), window, maxKeys, KeyOf(1), ts[j]).0, maxKeys)
  {
    hide Seen, Who, KeyOf, Keys, AllowStep;
    var seen := Seen(calls, window, maxKeys, j);
    FillingUp(calls, ts, window, maxKeys, i, j, l, j);
    if KeyOf(0) in seen {
      FullWithZero(calls, ts, window, maxKeys, i, j, l);
      KeysDiffer(0, 1);
      KeyIn(1, 0, maxKeys);
      StepKeys(seen, window, maxKeys, KeyOf(1), ts[j]);
      EvictedWhenFull(seen, window, maxKeys, KeyOf(1), ts[j], KeyOf(0));
    } else {
      StaysGone(seen, window, maxKeys, ts[j]);
    }
  }

  lemma FullWithZero(calls: seq<Call>, ts: seq<int>, window: int, maxKeys: nat, i: nat, j: nat, l: nat)
    requires IsRun(calls, ts, window, maxKeys, i, j, l) && KeyOf(0) in Seen(calls, window, maxKeys, j)
    ensures |Seen(calls, window, maxKeys, j)| >= maxKeys
  {
    hide Seen, Who, KeyOf, Keys;
    if maxKeys >= 3 || i + 1 == j {
      FullAt(calls, ts, window, maxKeys, i, j, l);
    } else {
      BothAt(calls, ts, window, i, j, l);
    }
  }

  lemma WhoAfter(p: nat, i: nat, j: nat, l: nat, maxKeys: nat)
    requires maxKeys >= 2 && i < j <= p < l
    ensures Who(p, i, j, l, maxKeys) == 1
  {
  }

  lemma EvictedWhenFull(seen: map<text, int>, window: int, maxKeys: int, at: text, now: int, key: text)
    requires window > 0 && key in seen && |seen| >= maxKeys && now - seen[key] > window && at != key
    ensures key !in AllowStep(seen, window, maxKeys, at, now).0
  {
  }

  /** A clock that returns has a run in which one finding passes twice within the window. */
  lemma PassesTwice(calls: seq<Call>, ts: seq<int>, window: int, maxKeys: nat, i: nat, j: nat, l: nat)
    requires IsRun(calls, ts, window, maxKeys, i, j, l)
    ensures var answers := Run(calls, window, maxKeys).1;
      answers[i] && answers[l] && calls[i].key == calls[l].key && calls[l].now - calls[i].now <= window
  {
    hide Seen, KeyOf, Keys, Run, AllowStep;
    WhoRange(i, i, j, l, maxKeys);
    WhoRange(l, i, j, l, maxKeys);
    FillingUp(calls, ts, window, maxKeys, i, j, l, i);
    RoomWithoutZero(Seen(calls, window, maxKeys, i), maxKeys);
    PassesWithRoom(Seen(calls, window, maxKeys, i), window, maxKeys, KeyOf(0), ts[i]);
    GoneFrom(calls, ts, window, maxKeys, i, j, l, l);
    RoomWithoutZero(Seen(calls, window, maxKeys, l), maxKeys);
    PassesWithRoom(Seen(calls, window, maxKeys, l), window, maxKeys, KeyOf(0), ts[l]);
    AnswerAt(calls, window, maxKeys, i);
    AnswerAt(calls, window, maxKeys, l);
  }

  lemma AnswerAt(calls: seq<Call>, window: int, maxKeys: int, n: nat)
    requires n < |calls|
    ensures Run(calls, window, maxKeys).1[n] ==
            AllowStep(Seen(calls, window, maxKeys, n), window, maxKeys, calls[n].key, calls[n].now).1
  {
    hide AllowStep, Run;
    RunPrefix(calls, window, maxKeys, n);
  }

  // ---- both directions ----

  ghost predicate AlwaysSpaced(ts: seq<int>, window: int, maxKeys: int)
  {
    forall who: seq<(text, text)> | |who| == |ts| :: Spaced(At(who, ts), window, maxKeys)
  }

  /** For a positive window and room for two findings: every run with these times keeps the passes of each finding
      more than the window apart exactly when the times are steady. */
  lemma SpacedExactly(ts: seq<int>, window: int, maxKeys: nat)
    requires window > 0 && maxKeys >= 2
    ensures AlwaysSpaced(ts, window, maxKeys) <==> Steady(ts, window, maxKeys)
  {
    hide Run, Spaced, Returns, At;
    if Steady(ts, window, maxKeys) {
      forall who: seq<(text, text)> | |who| == |ts| ensures Spaced(At(who, ts), window, maxKeys) {
        SteadyIsSpaced(At(who, ts), ts, window, maxKeys);
      }
    } else {
      var i, j, l :| Returns(ts, window, maxKeys, i, j, l);
      var who := UnspacedRun(ts, window, maxKeys, i, j, l);
    }
  }

  lemma SteadyIsSpaced(calls: seq<Call>, ts: seq<int>, window: int, maxKeys: int)
    requires window > 0 && |ts| == |calls| && (forall p :: 0 <= p < |ts| ==> ts[p] == calls[p].now)
    requires Steady(ts, window, maxKeys)
    ensures Spaced(calls, window, maxKeys)
  {
    hide Run, Returns;
    var answers := Run(calls, window, maxKeys).1;
    forall i, l | 0 <= i < l < |calls| && calls[i].key == calls[l].key && answers[i] && answers[l]
      ensures calls[l].now - calls[i].now > window
    {
      if ts[l] - ts[i] <= window { var a, j, b := ReturnOf(calls, ts, window, maxKeys, i, l); }
    }
  }

  lemma UnspacedRun(ts: seq<int>, window: int, maxKeys: nat, i: nat, j: nat, l: nat) returns (who: seq<(text, text)>)
    requires window > 0 && maxKeys >= 2 && Returns(ts, window, maxKeys, i, j, l)
    ensures |who| == |ts| && !Spaced(At(who, ts), window, maxKeys)
  {
    hide Run;
    who := seq(|ts|, p requires 0 <= p < |ts| => Finding(Who(p, i, j, l, maxKeys)));
    PassesTwice(At(who, ts), ts, window, maxKeys, i, j, l);
  }

  /** Whatever the capacity, one reading that goes back is enough: a finding passes twice within the window. */
  lemma ClockMustNotGoBack(window: int, maxKeys: nat) returns (ts: seq<int>)
    requires window > 0 && maxKeys >= 2
    ensures |ts| == maxKeys + 2 && !AlwaysSpaced(ts, window, maxKeys)
    ensures forall p, q :: 0 <= p < q < maxKeys + 1 ==> ts[p] <= ts[q]
  {
    ts := seq(maxKeys + 2, p => if p == maxKeys then window + 1 else 0);
    assert Returns(ts, window, maxKeys, 0, maxKeys, maxKeys + 1);
    SpacedExactly(ts, window, maxKeys);
  }
}
