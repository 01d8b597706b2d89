/** The analysis cache: a bounded map from query text to results, with the least recently used entry evicted. */
module Cache {
  import opened Bytes
  import opened Wrappers

  /** What the cache stores: a query and its results. */
  datatype Item<R> = Item(key: text, results: R)

  // ---- the specification: the items in recency order ----

  function Find<R(!new)>(items: seq<Item<R>>, key: text): Option<R>
  {
    if items == [] then None
    else if items[0].key == key then Some(items[0].results)
    else Find(items[1..], key)
  }

  function Without<R(!new)>(items: seq<Item<R>>, key: text): (out: seq<Item<R>>)
    ensures |out| <= |items|
  {
    if items == [] then []
    else (if items[0].key == key then [] else [items[0]]) + Without(items[1..], key)
  }

  function Take<T>(a: seq<T>, n: int): seq<T> { if n <= 0 then [] else if |a| <= n then a else a[..n] }

  /** The item goes to the front; past the capacity the oldest item is dropped. */
  function Touch<R(!new)>(items: seq<Item<R>>, capacity: int, key: text, results: R): seq<Item<R>>
  {
    Take([Item(key, results)] + Without(items, key), capacity)
  }

  function AfterGet<R(!new)>(items: seq<Item<R>>, key: text): seq<Item<R>>
  {
    match Find(items, key)
    case None => items
    case Some(r) => [Item(key, r)] + Without(items, key)
  }

  predicate DistinctKeys<R(!new)>(items: seq<Item<R>>)
  {
    forall i, j :: 0 <= i < j < |items| ==> items[i].key != items[j].key
  }

  // ---- the cache ----

  /** An element of the recency list; the map points at it. */
  class Element<R(!new)> {
    const key: text
    var results: R

    constructor (key: text, results: R)
      ensures this.key == key && this.results == results
    {
      this.key := key;
      this.results := results;
    }
  }

  /** The items of a list of elements. */
  function Items<R(!new)>(ll: seq<Element<R>>): (items: seq<Item<R>>)
    reads ll
    ensures |items| == |ll| && forall i :: 0 <= i < |ll| ==> items[i] == Item(ll[i].key, ll[i].results)
  {
    if ll == [] then [] else [Item(ll[0].key, ll[0].results)] + Items(ll[1..])
  }

  /** The list without an element. */
  function Removed<R(!new)>(ll: seq<Element<R>>, el: Element<R>): (out: seq<Element<R>>)
    ensures forall i :: 0 <= i < |out| ==> out[i] in ll && out[i] != el
    ensures forall i :: 0 <= i < |ll| && ll[i] != el ==> ll[i] in out
  {
    if ll == [] then [] else (if ll[0] == el then [] else [ll[0]]) + Removed(ll[1..], el)
  }

  lemma {:induction false} RemovedItems<R(!new)>(ll: seq<Element<R>>, el: Element<R>)
    requires forall x :: x in ll && x.key == el.key ==> x == el
    ensures Items(Removed(ll, el)) == Without(Items(ll), el.key)
  {
    if ll != [] {
      RemovedItems(ll[1..], el);
      assert Items(ll)[1..] == Items(ll[1..]);
    }
  }

  lemma {:induction false} FoundItem<R(!new)>(items: seq<Item<R>>, i: nat)
    requires DistinctKeys(items) && i < |items|
    ensures Find(items, items[i].key) == Some(items[i].results)
  {
    if i > 0 { FoundItem(items[1..], i - 1); }
  }

  /** Removing a key removes nothing else. */
  lemma {:induction false} WithoutMembers<R(!new)>(items: seq<Item<R>>, key: text)
    ensures forall x :: x in Without(items, key) <==> x in items && x.key != key
  {
    if items != [] { WithoutMembers(items[1..], key); }
  }

  lemma WithoutFirst<R(!new)>(items: seq<Item<R>>, key: text)
    requires items != []
    ensures var rest := Without(items[1..], key);
      Without(items, key) == if items[0].key == key then rest else [items[0]] + rest
  {
  }

  lemma {:induction false} WithoutDistinct<R(!new)>(items: seq<Item<R>>, key: text)
    requires DistinctKeys(items)
    ensures DistinctKeys(Without(items, key))
  {
    if items != [] {
      WithoutFirst(items, key);
      hide Without;
      DistinctTail(items);
      WithoutDistinct(items[1..], key);
      WithoutMembers(items[1..], key);
      hide DistinctKeys;
      if items[0].key != key { DistinctCons(items[0], Without(items[1..], key)); }
    }
  }

  predicate NoKey<R(==,!new)>(items: seq<Item<R>>, key: text) { forall x :: x in items ==> x.key != key }

  lemma DistinctTail<R(!new)>(items: seq<Item<R>>)
    requires items != [] && DistinctKeys(items)
    ensures DistinctKeys(items[1..]) && NoKey(items[1..], items[0].key)
  {
  }

  lemma DistinctCons<R(!new)>(x: Item<R>, rest: seq<Item<R>>)
    requires DistinctKeys(rest) && NoKey(rest, x.key)
    ensures DistinctKeys([x] + rest)
  {
    assert forall j :: 0 <= j < |rest| ==> rest[j] in rest;
  }

  lemma {:induction false} NotFound<R(!new)>(items: seq<Item<R>>, key: text)
    requires forall i :: 0 <= i < |items| ==> items[i].key != key
    ensures Find(items, key) == None && Without(items, key) == items
  {
    if items != [] { NotFound(items[1..], key); }
  }

  /** The map and the list hold the same elements, one per key. */
  ghost predicate Linked<R(!new)>(ll: seq<Element<R>>, items: map<text, Element<R>>)
  {
    (forall k :: k in items ==> items[k] in ll && items[k].key == k) &&
    (forall i :: 0 <= i < |ll| ==> ll[i].key in items && items[ll[i].key] == ll[i]) &&
    forall i, j :: 0 <= i < j < |ll| ==> ll[i].key != ll[j].key
  }

  lemma {:induction false} RemovedLength<R(!new)>(ll: seq<Element<R>>, el: Element<R>)
    requires forall i, j :: 0 <= i < j < |ll| ==> ll[i].key != ll[j].key
    ensures |Removed(ll, el)| == |ll| - if el in ll then 1 else 0
    ensures var out := Removed(ll, el); forall i, j :: 0 <= i < j < |out| ==> out[i].key != out[j].key
  {
    if ll != [] { RemovedLength(ll[1..], el); }
  }

  lemma LinkedFront<R(!new)>(ll: seq<Element<R>>, items: map<text, Element<R>>, el: Element<R>)
    requires Linked(ll, items) && el in ll
    ensures var front := [el] + Removed(ll, el); Linked(front, items) && |front| == |ll|
  {
    RemovedLength(ll, el);
    var rest := Removed(ll, el);
    hide Removed;
    var front := [el] + rest;
    forall k | k in items ensures items[k] in front {
      var i :| 0 <= i < |ll| && ll[i] == items[k];
    }
    forall i | 0 <= i < |front| ensures front[i].key in items && items[front[i].key] == front[i] {
      if i > 0 { assert rest[i - 1] in ll; }
    }
  }

  lemma RemovedIsWithout<R(!new)>(ll: seq<Element<R>>, items: map<text, Element<R>>, el: Element<R>)
    requires Linked(ll, items) && el in ll
    ensures Items(Removed(ll, el)) == Without(Items(ll), el.key)
  {
    RemovedItems(ll, el);
  }

  lemma LinkedPush<R(!new)>(ll: seq<Element<R>>, items: map<text, Element<R>>, el: Element<R>)
    requires Linked(ll, items) && el.key !in items
    ensures Linked([el] + ll, items[el.key := el])
  {
    var front := [el] + ll;
    assert forall i :: 0 < i < |front| ==> front[i] == ll[i - 1];
    assert front[0] == el;
    assert forall x :: x in ll ==> x in front;
  }

  lemma LinkedDrop<R(!new)>(ll: seq<Element<R>>, items: map<text, Element<R>>)
    requires Linked(ll, items) && ll != []
    ensures var n := |ll| - 1; Linked(ll[..n], items - {ll[n].key})
  {
    var n := |ll| - 1;
    forall k | k in items && k != ll[n].key ensures items[k] in ll[..n] {
      var i :| 0 <= i < |ll| && ll[i] == items[k];
      assert ll[..n][i] == items[k];
    }
  }

  lemma DropItems<R(!new)>(ll: seq<Element<R>>)
    requires ll != []
    ensures Items(ll[..|ll| - 1]) == Items(ll)[..|ll| - 1]
  {
  }

  lemma Front<R(!new)>(el: Element<R>, ll: seq<Element<R>>)
    ensures Items([el] + ll) == [Item(el.key, el.results)] + Items(ll)
  {
  }

  /** A lookup in the map is a lookup in the list. */
  lemma Lookup<R(!new)>(ll: seq<Element<R>>, items: map<text, Element<R>>, key: text)
    requires Linked(ll, items)
    ensures Find(Items(ll), key) == if key in items then Some(items[key].results) else None
    ensures key !in items ==> Without(Items(ll), key) == Items(ll)
  {
    if key in items {
      var i :| 0 <= i < |ll| && ll[i] == items[key];
      FoundItem(Items(ll), i);
    } else {
      NotFound(Items(ll), key);
    }
  }

  class AnalysisCache<R(!new)> {
    var ll: seq<Element<R>>
    var items: map<text, Element<R>>
    const capacity: int

    ghost predicate Valid()
      reads this
    {
      Linked(ll, items) && |ll| <= Max(capacity, 0)
    }

    ghost function Elements(): set<Element<R>>
      reads this
    {
      set el | el in ll
    }

    /** newAnalysisCache */
    constructor (capacity: int)
      ensures Valid() && ll == [] && this.capacity == capacity
    {
      ll := [];
      items := map[];
      this.capacity := capacity;
    }

    /** list.MoveToFront */
    method MoveToFront(el: Element<R>)
      requires Linked(ll, items) && el in ll
      modifies this`ll
      ensures Linked(ll, items) && |ll| == |old(ll)| && ll == [el] + Removed(old(ll), el)
      ensures Items(ll) == [Item(el.key, el.results)] + old(Without(Items(ll), el.key))
    {
      hide Linked, Without, Removed, Items;
      LinkedFront(ll, items, el);
      RemovedIsWithout(ll, items, el);
      Front(el, Removed(ll, el));
      ll := [el] + Removed(ll, el);
    }

    /** list.PushFront, with the entry in the map */
    method PushFront(key: text, results: R)
      requires Linked(ll, items) && key !in items
      modifies this`ll, this`items
      ensures Linked(ll, items) && |ll| == |old(ll)| + 1 && fresh(ll[0]) && ll[1..] == old(ll)
      ensures Items(ll) == [Item(key, results)] + old(Items(ll))
    {
      hide Linked, Items;
      var el := new Element(key, results);
      LinkedPush(ll, items, el);
      Front(el, ll);
      ll := [el] + ll;
      items := items[key := el];
    }

    /** list.Remove of list.Back, with the entry in the map */
    method RemoveBack()
      requires Linked(ll, items) && ll != []
      modifies this`ll, this`items
      ensures Linked(ll, items) && ll == old(ll)[..|old(ll)| - 1]
      ensures Items(ll) == old(Items(ll))[..|ll|]
    {
      hide Linked, Items;
      LinkedDrop(ll, items);
      DropItems(ll);
      var oldest := ll[|ll| - 1];
      ll := ll[..|ll| - 1];
      items := items - {oldest.key};
    }

    /** get */
    method Get(query: text) returns (found: Option<R>)
      requires Valid()
      modifies this
      ensures Valid() && found == old(Find(Items(ll), query)) && Items(ll) == old(AfterGet(Items(ll), query))
      ensures Elements() <= old(Elements())
    {
      hide Linked, Without, Find, Items;
      Lookup(ll, items, query);
      if query in items {
        Points(ll, items, query);
        var el := items[query];
        MoveToFront(el);
        return Some(el.results);
      }
      return None;
    }

    /** put */
    method Put(query: text, results: R)
      requires Valid()
      modifies this, Elements()
      ensures Valid() && Items(ll) == old(Touch(Items(ll), capacity, query, results))
      ensures fresh(Elements() - old(Elements()))
    {
      hide Linked, Without, Find, Items, Removed;
      Lookup(ll, items, query);
      if query in items {
        Points(ll, items, query);
        var el := items[query];
        MoveToFront(el);
        SetFront(results);
        return;
      }
      PushFront(query, results);
      if |ll| > capacity {
        if |ll| > 0 {
          RemoveBack();
        }
      }
    }

    /** The update of the entry that was moved to the front. */
    method SetFront(results: R)
      requires Linked(ll, items) && ll != []
      modifies ll[0]
      ensures Items(ll) == [Item(ll[0].key, results)] + old(Items(ll))[1..]
    {
      hide Items;
      var el, rest := ll[0], ll[1..];
      assert ll == [el] + rest;
      assert el !in rest;
      hide Linked;
      Front(el, rest);
      el.results := results;
      Front(el, rest);
    }
  }

  lemma Points<R(!new)>(ll: seq<Element<R>>, items: map<text, Element<R>>, key: text)
    requires Linked(ll, items) && key in items
    ensures items[key] in ll && items[key].key == key
  {
  }

  // ---- any interleaving of steps ----

  /** The two operations, each one locked section. */
  datatype Step<R> = Get(key: text) | Put(key: text, results: R)

  function AfterSteps<R(!new)>(steps: seq<Step<R>>, capacity: int): seq<Item<R>>
  {
    if steps == [] then []
    else
      var n := |steps| - 1;
      var items := AfterSteps(steps[..n], capacity);
      match steps[n]
      case Get(key) => AfterGet(items, key)
      case Put(key, results) => Touch(items, capacity, key, results)
  }

  predicate AllFrom<R(==,!new)>(items: seq<Item<R>>, analyze: text -> R)
  {
    forall x :: x in items ==> x.results == analyze(x.key)
  }

  /** However gets and puts of several callers interleave, each entry holds the analysis of its own query,
      no query has two entries, and the capacity is kept. */
  lemma {:induction false} EntriesAreAnalyses<R(!new)>(steps: seq<Step<R>>, capacity: int, analyze: text -> R)
    requires forall s :: s in steps && s.Put? ==> s.results == analyze(s.key)
    ensures var items := AfterSteps(steps, capacity);
      AllFrom(items, analyze) && DistinctKeys(items) && |items| <= Max(capacity, 0)
  {
    hide Without, Find;
    if steps != [] {
      var n := |steps| - 1;
      var items := AfterSteps(steps[..n], capacity);
      assert steps[n] in steps && forall s :: s in steps[..n] ==> s in steps;
      EntriesAreAnalyses(steps[..n], capacity, analyze);
      StepKeeps(items, capacity, steps[n].key, analyze);
      if steps[n].Get? && Find(items, steps[n].key).Some? { FindIsMember(items, steps[n].key); }
    }
  }

  lemma {:induction false} FindIsMember<R(!new)>(items: seq<Item<R>>, key: text)
    requires Find(items, key).Some?
    ensures Item(key, Find(items, key).value) in items
  {
    if items[0].key != key { FindIsMember(items[1..], key); }
  }

  lemma {:induction false} WithoutIsShorter<R(!new)>(items: seq<Item<R>>, key: text)
    requires Find(items, key).Some?
    ensures |Without(items, key)| < |items|
  {
    if items[0].key != key { WithoutIsShorter(items[1..], key); }
  }

  lemma TakeKeeps<R(!new)>(items: seq<Item<R>>, n: int, analyze: text -> R)
    requires AllFrom(items, analyze) && DistinctKeys(items)
    ensures AllFrom(Take(items, n), analyze) && DistinctKeys(Take(items, n)) && |Take(items, n)| <= Max(n, 0)
  {
    if 0 < n < |items| {
      forall x | x in items[..n] ensures x in items {
        var i :| 0 <= i < n && items[..n][i] == x;
        assert items[i] == x;
      }
    }
  }

  /** Touching a key keeps what every entry satisfies. */
  lemma StepKeeps<R(!new)>(items: seq<Item<R>>, capacity: int, key: text, analyze: text -> R)
    requires AllFrom(items, analyze) && DistinctKeys(items) && |items| <= Max(capacity, 0)
    ensures var out := Touch(items, capacity, key, analyze(key));
      AllFrom(out, analyze) && DistinctKeys(out) && |out| <= Max(capacity, 0)
    ensures Find(items, key) == Some(analyze(key)) ==> AfterGet(items, key) == Touch(items, capacity, key, analyze(key))
  {
    hide Without, DistinctKeys;
    var rest := Without(items, key);
    WithoutMembers(items, key);
    WithoutDistinct(items, key);
    var first := Item(key, analyze(key));
    DistinctCons(first, rest);
    assert AllFrom([first] + rest, analyze);
    TakeKeeps([first] + rest, capacity, analyze);
    if Find(items, key).Some? { WithoutIsShorter(items, key); }
  }
}
