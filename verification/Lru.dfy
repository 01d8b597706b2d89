/** Least recently used: what the cache holds after any sequence of analyses. */
module Lru {
  import opened Bytes
  import opened Cache
  import opened Wrappers

  /** One Guard.analyze: a hit moves the entry to the front, a miss stores the analysis. */
  function AnalyzeStep<R(!new)>(items: seq<Item<R>>, capacity: int, query: text, analyze: text -> R): seq<Item<R>>
  {
    if Find(items, query).Some? then AfterGet(items, query) else Touch(items, capacity, query, analyze(query))
  }

  function AfterQueries<R(!new)>(queries: seq<text>, capacity: int, analyze: text -> R): seq<Item<R>>
  {
    if queries == [] then []
    else
      var n := |queries| - 1;
      AnalyzeStep(AfterQueries(queries[..n], capacity, analyze), capacity, queries[n], analyze)
  }

  /** A cache without a bound: every query analyzed, most recently used first. */
  function Recency<R(!new)>(queries: seq<text>, analyze: text -> R): seq<Item<R>>
  {
    if queries == [] then []
    else
      var n := |queries| - 1;
      [Item(queries[n], analyze(queries[n]))] + Without(Recency(queries[..n], analyze), queries[n])
  }

  lemma {:induction false} RecencyKeeps<R(!new)>(queries: seq<text>, analyze: text -> R)
    ensures DistinctKeys(Recency(queries, analyze)) && AllFrom(Recency(queries, analyze), analyze)
  {
    if queries != [] {
      var n := |queries| - 1;
      var before, q := Recency(queries[..n], analyze), queries[n];
      RecencyKeeps(queries[..n], analyze);
      WithoutMembers(before, q);
      WithoutDistinct(before, q);
      hide Without;
      DistinctCons(Item(q, analyze(q)), Without(before, q));
    }
  }

  /** Dropping past the bound before or after the removal of a key makes no difference. */
  lemma {:induction false} TakeWithout<R(!new)>(items: seq<Item<R>>, key: text, n: nat)
    requires DistinctKeys(items)
    ensures Take(Without(Take(items, n + 1), key), n) == Take(Without(items, key), n)
  {
    if items != [] && n > 0 {
      var x, rest := items[0], items[1..];
      DistinctTail(items);
      assert items == [x] + rest;
      TakeCons(x, rest, n + 1);
      if x.key == key {
        FoundFirst(x, rest, key, n);
      } else {
        TakeWithout(rest, key, n - 1);
        KeptFirst(x, rest, key, n);
      }
    }
  }

  lemma FoundFirst<R(!new)>(x: Item<R>, rest: seq<Item<R>>, key: text, n: nat)
    requires DistinctKeys([x] + rest) && x.key == key && Take([x] + rest, n + 1) == [x] + Take(rest, n)
    ensures Take(Without(Take([x] + rest, n + 1), key), n) == Take(Without([x] + rest, key), n)
  {
    WithoutFirst([x] + rest, key);
    WithoutFirst([x] + Take(rest, n), key);
    hide Without;
    assert ([x] + rest)[1..] == rest && ([x] + Take(rest, n))[1..] == Take(rest, n);
    NotFound(rest, key);
    NotFound(Take(rest, n), key);
  }

  lemma KeptFirst<R(!new)>(x: Item<R>, rest: seq<Item<R>>, key: text, n: nat)
    requires x.key != key && n > 0 && Take([x] + rest, n + 1) == [x] + Take(rest, n)
    requires Take(Without(Take(rest, n), key), n - 1) == Take(Without(rest, key), n - 1)
    ensures Take(Without(Take([x] + rest, n + 1), key), n) == Take(Without([x] + rest, key), n)
  {
    WithoutFirst([x] + rest, key);
    WithoutFirst([x] + Take(rest, n), key);
    hide Without, Take;
    assert ([x] + rest)[1..] == rest && ([x] + Take(rest, n))[1..] == Take(rest, n);
    TakeCons(x, Without(Take(rest, n), key), n);
    TakeCons(x, Without(rest, key), n);
  }

  lemma TakeCons<R(!new)>(x: Item<R>, rest: seq<Item<R>>, n: int)
    requires n > 0
    ensures Take([x] + rest, n) == [x] + Take(rest, n - 1)
  {
  }

  /** The cache holds the most recently used queries, as many as fit, in recency order. */
  lemma {:induction false} HoldsMostRecent<R(!new)>(queries: seq<text>, capacity: int, analyze: text -> R)
    ensures AfterQueries(queries, capacity, analyze) == Take(Recency(queries, analyze), capacity)
  {
    if queries != [] {
      var n := |queries| - 1;
      var q := queries[n];
      HoldsMostRecent(queries[..n], capacity, analyze);
      RecencyKeeps(queries[..n], analyze);
      AnalyzeTouches(Recency(queries[..n], analyze), capacity, q, analyze);
    }
  }

  lemma AnalyzeTouches<R(!new)>(all: seq<Item<R>>, capacity: int, q: text, analyze: text -> R)
    requires DistinctKeys(all) && AllFrom(all, analyze)
    ensures AnalyzeStep(Take(all, capacity), capacity, q, analyze) ==
            Take([Item(q, analyze(q))] + Without(all, q), capacity)
  {
    hide DistinctKeys, Without, Find;
    var items := Take(all, capacity);
    TakeKeeps(all, capacity, analyze);
    StepKeeps(items, capacity, q, analyze);
    if Find(items, q).Some? { FindIsMember(items, q); }
    if capacity > 0 {
      TakeWithout(all, q, capacity - 1);
      TakeCons(Item(q, analyze(q)), Without(items, q), capacity);
      TakeCons(Item(q, analyze(q)), Without(all, q), capacity);
    }
  }

  /** A larger cache never misses where a smaller one hits: the smaller holds a prefix of the larger. */
  lemma Inclusion<R(!new)>(queries: seq<text>, small: int, large: int, analyze: text -> R)
    requires small <= large
    ensures AfterQueries(queries, small, analyze) <= AfterQueries(queries, large, analyze)
    ensures forall k :: Find(AfterQueries(queries, small, analyze), k).Some? ==>
              Find(AfterQueries(queries, large, analyze), k) == Find(AfterQueries(queries, small, analyze), k)
  {
    HoldsMostRecent(queries, small, analyze);
    HoldsMostRecent(queries, large, analyze);
    var a, b := AfterQueries(queries, small, analyze), AfterQueries(queries, large, analyze);
    hide AfterQueries, Recency, Find;
    forall k | Find(a, k).Some? ensures Find(b, k) == Find(a, k) { FindInPrefix(a, b, k); }
  }

  lemma {:induction false} FindInPrefix<R(!new)>(a: seq<Item<R>>, b: seq<Item<R>>, key: text)
    requires a <= b && Find(a, key).Some?
    ensures Find(b, key) == Find(a, key)
  {
    if a[0].key != key { FindInPrefix(a[1..], b[1..], key); }
  }

  // ---- when a query is cached ----

  /** The distinct queries analyzed since the last use of key. */
  function Since(queries: seq<text>, key: text): set<text>
  {
    if queries == [] || queries[|queries| - 1] == key then {}
    else Since(queries[..|queries| - 1], key) + {queries[|queries| - 1]}
  }

  /** The keys in front of key. */
  function Ahead<R(!new)>(items: seq<Item<R>>, key: text): set<text>
  {
    if items == [] || items[0].key == key then {} else {items[0].key} + Ahead(items[1..], key)
  }

  lemma {:induction false} AheadWithout<R(!new)>(items: seq<Item<R>>, q: text, key: text)
    requires q != key
    ensures Ahead(Without(items, q), key) == Ahead(items, key) - {q}
    ensures Find(Without(items, q), key) == Find(items, key)
  {
    if items != [] {
      var rest := items[1..];
      AheadWithout(rest, q, key);
      assert items == [items[0]] + rest;
      WithoutFirst(items, q);
      FirstOf(items[0], rest, key);
      FirstOf(items[0], Without(rest, q), key);
      hide Without, Ahead, Find;
    }
  }

  lemma FirstOf<R(!new)>(x: Item<R>, rest: seq<Item<R>>, key: text)
    ensures Ahead([x] + rest, key) == if x.key == key then {} else {x.key} + Ahead(rest, key)
    ensures Find([x] + rest, key) == if x.key == key then Some(x.results) else Find(rest, key)
  {
    assert ([x] + rest)[1..] == rest;
  }

  lemma {:induction false} AheadIsSince<R(!new)>(queries: seq<text>, key: text, analyze: text -> R)
    ensures Ahead(Recency(queries, analyze), key) == Since(queries, key)
    ensures Find(Recency(queries, analyze), key).Some? <==> key in queries
  {
    if queries != [] {
      var n := |queries| - 1;
      var q := queries[n];
      var before := Recency(queries[..n], analyze);
      AheadIsSince(queries[..n], key, analyze);
      FirstOf(Item(q, analyze(q)), Without(before, q), key);
      assert key in queries <==> key in queries[..n] || key == q by { assert queries == queries[..n] + [q]; }
      hide Without, Ahead, Find;
      if q != key { AheadWithout(before, q, key); }
    }
  }

  lemma {:induction false} AheadMembers<R(!new)>(items: seq<Item<R>>, key: text)
    ensures forall k :: k in Ahead(items, key) ==> Find(items, k).Some?
  {
    if items != [] { AheadMembers(items[1..], key); }
  }

  /** A key is among the first n exactly when fewer than n keys are in front of it. */
  lemma {:induction false} FoundInTake<R(!new)>(items: seq<Item<R>>, key: text, n: int)
    requires DistinctKeys(items)
    ensures Find(Take(items, n), key).Some? <==> Find(items, key).Some? && |Ahead(items, key)| < n
  {
    if items != [] && n > 0 && items[0].key != key {
      var rest := items[1..];
      DistinctTail(items);
      FoundInTake(rest, key, n - 1);
      assert items == [items[0]] + rest;
      TakeCons(items[0], rest, n);
      NotAhead(rest, items[0].key, key);
    }
  }

  lemma NotAhead<R(!new)>(rest: seq<Item<R>>, k: text, key: text)
    requires NoKey(rest, k)
    ensures k !in Ahead(rest, key)
  {
    hide Ahead;
    NotFound(rest, k);
    AheadMembers(rest, key);
  }

  /** A query is answered from the cache exactly when it was analyzed before and fewer distinct queries than
      the capacity were analyzed since. */
  lemma CachedExactly<R(!new)>(queries: seq<text>, capacity: int, key: text, analyze: text -> R)
    ensures Find(AfterQueries(queries, capacity, analyze), key).Some? <==>
            key in queries && |Since(queries, key)| < capacity
  {
    hide AfterQueries, Recency, Ahead, Since, Find, DistinctKeys;
    HoldsMostRecent(queries, capacity, analyze);
    RecencyKeeps(queries, analyze);
    FoundInTake(Recency(queries, analyze), key, capacity);
    AheadIsSince(queries, key, analyze);
  }
}
