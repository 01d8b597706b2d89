/** The deduper: a finding is let through once per window. Times and the window are integers of one unit. */
module Dedup {
  import opened Bytes
  import opened Sets

  const NUL: byte := 0

  /** The identity of a finding in the deduper's map. */
  function Key(fingerprint: text, rule: text): text { fingerprint + [NUL] + rule }

  /** The entries whose window has not elapsed at now. */
  function Live(seen: map<text, int>, window: int, now: int): map<text, int>
  {
    map k | k in seen && now - seen[k] <= window :: seen[k]
  }

  /** One call: the map after it, and whether the finding is let through. */
  function AllowStep(seen: map<text, int>, window: int, maxKeys: int, key: text, now: int): (map<text, int>, bool)
  {
    if window <= 0 then (seen, true)
    else
      var kept := if |seen| >= maxKeys then Live(seen, window, now) else seen;
      if |kept| >= maxKeys && key !in kept then (kept, false)
      else if key !in kept || now - kept[key] > window then (kept[key := now], true)
      else (kept, false)
  }

  class Deduper {
    var seen: map<text, int>
    const window: int
    const maxKeys: int

    /** newDeduper */
    constructor (window: int)
      ensures seen == map[] && this.window == window && maxKeys == 10000
    {
      seen := map[];
      this.window := window;
      maxKeys := 10000;
    }

    /** allow */
    method Allow(fingerprint: text, rule: text, now: int) returns (ok: bool)
      modifies this
      ensures (seen, ok) == AllowStep(old(seen), window, maxKeys, Key(fingerprint, rule), now)
    {
      if window <= 0 {
        return true;
      }
      var key := Key(fingerprint, rule);
      if |seen| >= maxKeys {
        EvictExpired(now);
        if |seen| >= maxKeys {
          if key !in seen {
            return false;
          }
        }
      }
      if key !in seen || now - seen[key] > window {
        seen := seen[key := now];
        return true;
      }
      return false;
    }

    /** evictExpired */
    method EvictExpired(now: int)
      modifies this
      ensures seen == Live(old(seen), window, now)
    {
      var left := seen.Keys;
      ghost var was := seen;
      while left != {}
        invariant left <= was.Keys
        invariant forall k :: k in seen <==> k in was && (k in left || now - was[k] <= window)
        invariant forall k :: k in seen ==> seen[k] == was[k]
      {
        var k :| k in left;
        left := left - {k};
        if now - seen[k] > window {
          seen := seen - {k};
        }
      }
    }
  }

  // ---- one call, whatever the clock does ----

  lemma LiveIsPart(seen: map<text, int>, window: int, now: int)
    ensures Live(seen, window, now).Keys <= seen.Keys && |Live(seen, window, now)| <= |seen|
  {
    var l := Live(seen, window, now);
    SubsetSize(l.Keys, seen.Keys);
    assert |l| == |l.Keys| && |seen| == |seen.Keys|;
  }

  /** A finding is let through exactly when its key is not live and fewer than maxKeys keys are. */
  lemma AllowedWhen(seen: map<text, int>, window: int, maxKeys: int, key: text, now: int)
    requires window > 0
    ensures var live := Live(seen, window, now);
      AllowStep(seen, window, maxKeys, key, now).1 <==> key !in live && |live| < maxKeys
  {
    LiveIsPart(seen, window, now);
  }

  /** The map never grows past maxKeys, whatever the clock does. */
  lemma BoundedStep(seen: map<text, int>, window: int, maxKeys: int, key: text, now: int)
    requires |seen| <= maxKeys
    ensures |AllowStep(seen, window, maxKeys, key, now).0| <= maxKeys
  {
    LiveIsPart(seen, window, now);
    var kept := if |seen| >= maxKeys then Live(seen, window, now) else seen;
    assert kept[key := now].Keys == kept.Keys + {key};
    assert |kept[key := now]| == |kept.Keys + {key}|;
  }

  // ---- runs ----

  datatype Call = Call(key: text, now: int)

  /** The map and the answers after the calls, from the empty map. */
  function Run(calls: seq<Call>, window: int, maxKeys: int): (r: (map<text, int>, seq<bool>))
    ensures |r.1| == |calls|
  {
    if calls == [] then (map[], [])
    else
      var n := |calls| - 1;
      var (seen, answers) := Run(calls[..n], window, maxKeys);
      var (after, ok) := AllowStep(seen, window, maxKeys, calls[n].key, calls[n].now);
      (after, answers + [ok])
  }

  predicate Monotone(calls: seq<Call>)
  {
    forall i, j :: 0 <= i < j < |calls| ==> calls[i].now <= calls[j].now
  }

  /** A call changes the entry of its own key only, and only when it passes; of the others those whose window has
      elapsed go, and only when the map is full. */
  lemma OthersStay(seen: map<text, int>, window: int, maxKeys: int, key: text, now: int, other: text)
    requires window > 0
    ensures var (after, ok) := AllowStep(seen, window, maxKeys, key, now);
      if other == key && ok then other in after && after[other] == now
      else
        (other in after <==> other in seen && (|seen| < maxKeys || now - seen[other] <= window)) &&
        (other in after ==> after[other] == seen[other])
  {
  }

  lemma {:induction false} RunBounded(calls: seq<Call>, window: int, maxKeys: nat)
    ensures |Run(calls, window, maxKeys).0| <= maxKeys
  {
    hide AllowStep;
    if calls != [] {
      var n := |calls| - 1;
      RunBounded(calls[..n], window, maxKeys);
      BoundedStep(Run(calls[..n], window, maxKeys).0, window, maxKeys, calls[n].key, calls[n].now);
    }
  }

  /** The key was let through within the window before now. */
  predicate Recent(calls: seq<Call>, answers: seq<bool>, window: int, key: text, now: int)
    requires |answers| == |calls|
  {
    exists i :: 0 <= i < |calls| && answers[i] && calls[i].key == key && now - calls[i].now <= window
  }

  /** All keys let through within the window before now. */
  function RecentKeys(calls: seq<Call>, answers: seq<bool>, window: int, now: int): set<text>
    requires |answers| == |calls|
  {
    set i | 0 <= i < |calls| && answers[i] && now - calls[i].now <= window :: calls[i].key
  }

  predicate After(calls: seq<Call>, now: int) { forall i :: 0 <= i < |calls| ==> calls[i].now <= now }

  /** What the lazily evicted map means: it is live exactly for the keys recently let through. */
  lemma {:induction false} LiveIsRecent(calls: seq<Call>, window: int, maxKeys: int, key: text, now: int)
    requires window > 0 && Monotone(calls) && After(calls, now)
    ensures var (seen, answers) := Run(calls, window, maxKeys);
      key in Live(seen, window, now) <==> Recent(calls, answers, window, key, now)
  {
    if calls != [] {
      hide AllowStep;
      var n := |calls| - 1;
      var c := calls[n];
      var (seen, answers) := Run(calls[..n], window, maxKeys);
      LiveIsRecent(calls[..n], window, maxKeys, key, now);
      LiveAfterStep(seen, window, maxKeys, c, key, now);
      RecentStep(calls, answers, AllowStep(seen, window, maxKeys, c.key, c.now).1, window, key, now);
    }
  }

  /** After a call a key is live when the call let it through within the window, or when it was live. */
  lemma LiveAfterStep(seen: map<text, int>, window: int, maxKeys: int, c: Call, key: text, now: int)
    requires window > 0 && c.now <= now
    ensures var (after, ok) := AllowStep(seen, window, maxKeys, c.key, c.now);
      key in Live(after, window, now) <==>
      (ok && c.key == key && now - c.now <= window) || key in Live(seen, window, now)
  {
  }

  lemma RecentStep(calls: seq<Call>, answers: seq<bool>, ok: bool, window: int, key: text, now: int)
    requires |answers| + 1 == |calls|
    ensures var n, c := |answers|, calls[|answers|];
      Recent(calls, answers + [ok], window, key, now) <==>
      (ok && c.key == key && now - c.now <= window) || Recent(calls[..n], answers, window, key, now)
  {
    var n := |answers|;
    var all := answers + [ok];
    assert all[n] == ok && forall i :: 0 <= i < n ==> all[i] == answers[i] && calls[..n][i] == calls[i];
  }

  /** Over every run on a clock that does not go back, a finding is let through exactly when it was not let
      through within the window and fewer than maxKeys others were. */
  lemma AllowExactly(calls: seq<Call>, window: int, maxKeys: int, c: Call)
    requires window > 0 && Monotone(calls) && After(calls, c.now)
    ensures var (seen, answers) := Run(calls, window, maxKeys);
      AllowStep(seen, window, maxKeys, c.key, c.now).1 <==>
      !Recent(calls, answers, window, c.key, c.now) && |RecentKeys(calls, answers, window, c.now)| < maxKeys
  {
    hide AllowStep, Run;
    var (seen, answers) := Run(calls, window, maxKeys);
    AllowedWhen(seen, window, maxKeys, c.key, c.now);
    var live, recent := Live(seen, window, c.now), RecentKeys(calls, answers, window, c.now);
    forall key ensures key in live.Keys <==> key in recent {
      LiveIsRecent(calls, window, maxKeys, key, c.now);
    }
    assert live.Keys == recent;
    assert |live| == |live.Keys|;
  }

  lemma {:induction false} RunPrefix(calls: seq<Call>, window: int, maxKeys: int, i: nat)
    requires i < |calls|
    ensures var answers := Run(calls, window, maxKeys).1;
      Run(calls[..i], window, maxKeys).1 == answers[..i] &&
      answers[i] == AllowStep(Run(calls[..i], window, maxKeys).0, window, maxKeys, calls[i].key, calls[i].now).1
  {
    hide AllowStep;
    var n := |calls| - 1;
    if i < n {
      RunPrefix(calls[..n], window, maxKeys, i);
      assert calls[..n][..i] == calls[..i];
    }
  }

  /** Two calls that let the same key through are more than the window apart. */
  lemma AllowancesApart(calls: seq<Call>, window: int, maxKeys: int, i: nat, j: nat)
    requires window > 0 && Monotone(calls) && i < j < |calls| && calls[i].key == calls[j].key
    requires var answers := Run(calls, window, maxKeys).1; answers[i] && answers[j]
    ensures calls[j].now - calls[i].now > window
  {
    hide AllowStep, Run;
    RunPrefix(calls, window, maxKeys, j);
    var answers := Run(calls, window, maxKeys).1;
    AllowExactly(calls[..j], window, maxKeys, calls[j]);
    assert calls[..j][i] == calls[i] && answers[..j][i];
  }

  lemma RunMore(calls: seq<Call>, c: Call, window: int, maxKeys: int)
    ensures var (seen, answers) := Run(calls, window, maxKeys);
      var (after, ok) := AllowStep(seen, window, maxKeys, c.key, c.now);
      Run(calls + [c], window, maxKeys) == (after, answers + [ok])
  {
    hide AllowStep;
    assert (calls + [c])[..|calls|] == calls;
  }

  /** Nothing is held back. */
  predicate AllPass(calls: seq<Call>, window: int, maxKeys: int)
  {
    forall i :: 0 <= i < |calls| ==> Run(calls, window, maxKeys).1[i]
  }

  /** The deduper is off, over every run, exactly when its window is not positive; it then remembers nothing. */
  lemma OffExactly(window: int, maxKeys: int)
    ensures (forall calls :: AllPass(calls, window, maxKeys)) <==> window <= 0
    ensures window <= 0 ==> forall calls :: Run(calls, window, maxKeys).0 == map[]
  {
    hide Run;
    forall calls | window <= 0 ensures AllPass(calls, window, maxKeys) && Run(calls, window, maxKeys).0 == map[] {
      WithoutWindow(calls, window, maxKeys);
    }
    if window > 0 {
      var c := Call([], 0);
      hide AllPass;
      PassesOnce(c, window, maxKeys);
    }
  }

  lemma {:induction false} WithoutWindow(calls: seq<Call>, window: int, maxKeys: int)
    requires window <= 0
    ensures AllPass(calls, window, maxKeys) && Run(calls, window, maxKeys).0 == map[]
  {
    if calls != [] {
      WithoutWindow(calls[..|calls| - 1], window, maxKeys);
    }
  }

  /** A call repeated at once does not pass twice. */
  lemma PassesOnce(c: Call, window: int, maxKeys: int)
    requires window > 0
    ensures !AllPass([c, c], window, maxKeys)
  {
    hide Run, AllowStep;
    if AllPass([c, c], window, maxKeys) {
      assert [c, c][0] == c && Run([c, c], window, maxKeys).1[0] && Run([c, c], window, maxKeys).1[1];
      AllowancesApart([c, c], window, maxKeys, 0, 1);
      assert false;
    }
  }

  // ---- the key ----

  lemma LastNul(f: text, r: text)
    requires NUL !in r
    ensures var k := Key(f, r); |f| < |k| && k[|f|] == NUL && forall i :: |f| < i < |k| ==> k[i] != NUL
  {
    var k := Key(f, r);
    forall i | |f| < i < |k| ensures k[i] != NUL {
      assert k[i] == r[i - |f| - 1];
    }
  }

  /** The pair is determined by the key when rule names hold no NUL. */
  lemma KeyInjective(f: text, r: text, g: text, q: text)
    requires 0 !in r && 0 !in q && Key(f, r) == Key(g, q)
    ensures f == g && r == q
  {
    var k := Key(f, r);
    LastNul(f, r);
    LastNul(g, q);
    assert k[..|f|] == f && Key(g, q)[..|g|] == g;
    assert k[|f| + 1..] == r && Key(g, q)[|g| + 1..] == q;
  }

  /** Every rule name with a NUL shares each of its keys with another finding. */
  lemma NulCollides(f: text, r: text) returns (g: text, q: text)
    requires 0 in r
    ensures Key(g, q) == Key(f, r) && q != r && 0 !in q
  {
    var i := |r| - 1;
    while r[i] != NUL
      invariant 0 <= i < |r| && NUL !in r[i + 1..] && NUL in r[..i + 1]
      decreases i
    {
      assert r[..i + 1] == r[..i] + [r[i]] && r[i..] == [r[i]] + r[i + 1..];
      i := i - 1;
    }
    g, q := f + [NUL] + r[..i], r[i + 1..];
    assert r == r[..i] + [NUL] + q;
    assert Key(g, q) == f + [NUL] + (r[..i] + [NUL] + q);
  }
}
