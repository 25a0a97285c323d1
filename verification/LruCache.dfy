/**
 * The controller's LRU cache: a map from keys to entries and a list of the keys,
 * most recently used first.  The results say what the list is after every run, when
 * a lookup hits, and that a larger cache always contains a smaller one.
 */
module Lru {
  import opened Wrappers
  import opened RecencyStack
  import opened Sequences

  datatype Item = Item(value: nat, time: nat)

  datatype Cache = Cache(capacity: nat, items: map<nat, Item>, order: seq<nat>)

  datatype Op = Get(key: nat, time: nat) | Put(key: nat, value: nat, time: nat)

  ghost predicate Ok(c: Cache) {
    && 1 <= c.capacity
    && Distinct(c.order)
    && |c.order| <= c.capacity
    && c.items.Keys == Elements(c.order)
  }

  function GetStep(c: Cache, k: nat, time: nat): (r: Cache) {
    if k in c.items then
      c.(items := c.items[k := c.items[k].(time := time)], order := Touch(c.order, k))
    else c
  }

  function PutStep(c: Cache, k: nat, value: nat, time: nat): (r: Cache)
    requires Ok(c)
  {
    var item := Item(value, time);
    if k in c.items then
      c.(items := c.items[k := item], order := Touch(c.order, k))
    else if |c.order| >= c.capacity then
      var n := |c.order| - 1;
      c.(items := (c.items - {c.order[n]})[k := item], order := [k] + c.order[..n])
    else
      c.(items := c.items[k := item], order := [k] + c.order)
  }

  lemma TouchOk(s: seq<nat>, k: nat)
    requires Distinct(s)
    ensures Distinct(Touch(s, k))
    ensures |Touch(s, k)| == if k in s then |s| else |s| + 1
    ensures forall x :: x in Touch(s, k) <==> x == k || x in s
  {
    WithoutDistinct(s, k);
    if k !in s {
      WithoutAbsent(s, k);
    }
  }

  lemma GetKeeps(c: Cache, k: nat, time: nat)
    requires Ok(c)
    ensures Ok(GetStep(c, k, time))
  {
    TouchOk(c.order, k);
  }

  lemma PutKeeps(c: Cache, k: nat, value: nat, time: nat)
    requires Ok(c)
    ensures Ok(PutStep(c, k, value, time))
  {
    TouchOk(c.order, k);
  }

  /** A put, and a get that hits, leave the first `capacity` keys of the touched order. */
  lemma StepIsTouch(c: Cache, k: nat, value: nat, time: nat)
    requires Ok(c)
    ensures PutStep(c, k, value, time).order == Take(Touch(c.order, k), c.capacity)
    ensures k in c.items ==> GetStep(c, k, time).order == Take(Touch(c.order, k), c.capacity)
  {
    TouchOk(c.order, k);
    if k !in c.items {
      WithoutAbsent(c.order, k);
    }
  }

  function Step(c: Cache, op: Op): (r: Cache)
    requires Ok(c)
    ensures Ok(r) && r.capacity == c.capacity
  {
    match op
    case Get(k, t) => GetKeeps(c, k, t); GetStep(c, k, t)
    case Put(k, v, t) => PutKeeps(c, k, v, t); PutStep(c, k, v, t)
  }

  function Exec(capacity: nat, run: seq<Op>): (r: Cache)
    requires 1 <= capacity
    ensures Ok(r) && r.capacity == capacity
  {
    if run == [] then Cache(capacity, map[], []) else Step(Exec(capacity, run[..|run| - 1]), run[|run| - 1])
  }

  // ---------------------------------------------------------------------------
  // Every run
  // ---------------------------------------------------------------------------

  /** The keys a run touches: every put, and every get whose key is among the most recent. */
  function Touched(capacity: nat, run: seq<Op>): (r: seq<nat>) {
    if run == [] then []
    else
      var before, op := Touched(capacity, run[..|run| - 1]), run[|run| - 1];
      if op.Put? || op.key in Take(Stack(before), capacity) then before + [op.key] else before
  }

  /** What a key was last put with, and when it was last touched. */
  function Recorded(capacity: nat, run: seq<Op>, k: nat): (r: Option<Item>) {
    if run == [] then None
    else
      var before, op := run[..|run| - 1], run[|run| - 1];
      var item := Recorded(capacity, before, k);
      if op.key != k then item
      else if op.Put? then Some(Item(op.value, op.time))
      else if item.Some? && k in Take(Stack(Touched(capacity, before)), capacity) then
        Some(item.value.(time := op.time))
      else item
  }

  /**
   * After every run of gets and puts the resident keys, in list order, are the first
   * `capacity` of the distinct touched keys, most recent first.
   */
  lemma {:induction false} OrderIsRecency(capacity: nat, run: seq<Op>)
    requires 1 <= capacity
    ensures Exec(capacity, run).order == Take(Stack(Touched(capacity, run)), capacity)
  {
    if run != [] {
      var before, op := run[..|run| - 1], run[|run| - 1];
      OrderIsRecency(capacity, before);
      var c, t := Exec(capacity, before), Touched(capacity, before);
      StackDistinct(t);
      StackSnoc(t, op.key);
      TouchTake(Stack(t), op.key, capacity);
      StepIsTouch(c, op.key, if op.Put? then op.value else 0, op.time);
    }
  }

  /** Each resident key carries the value it was last put with. */
  lemma {:induction false} ValuesAreLastPut(capacity: nat, run: seq<Op>, k: nat)
    requires 1 <= capacity
    ensures k in Exec(capacity, run).items ==> Recorded(capacity, run, k) == Some(Exec(capacity, run).items[k])
  {
    if run != [] {
      ValuesAreLastPut(capacity, run[..|run| - 1], k);
      OrderIsRecency(capacity, run[..|run| - 1]);
    }
  }

  /** A get hits exactly when its key was touched before and fewer than `capacity` other keys since. */
  lemma HitsByReuseDistance(capacity: nat, run: seq<Op>, k: nat)
    requires 1 <= capacity
    ensures var t := Touched(capacity, run);
            k in Exec(capacity, run).items <==> k in t && |UsedSince(t, k)| < capacity
  {
    OrderIsRecency(capacity, run);
    ReuseDistance(Touched(capacity, run), k, capacity);
  }

  // ---------------------------------------------------------------------------
  // Get, then put on a miss
  // ---------------------------------------------------------------------------

  datatype Access = Access(key: nat, value: nat, time: nat)

  function AccessStep(c: Cache, a: Access): (r: Cache)
    requires Ok(c)
    ensures Ok(r) && r.capacity == c.capacity
  {
    if a.key in c.items then Step(c, Get(a.key, a.time)) else Step(c, Put(a.key, a.value, a.time))
  }

  function ExecAccesses(capacity: nat, run: seq<Access>): (r: Cache)
    requires 1 <= capacity
    ensures Ok(r) && r.capacity == capacity
  {
    if run == [] then Cache(capacity, map[], [])
    else AccessStep(ExecAccesses(capacity, run[..|run| - 1]), run[|run| - 1])
  }

  function HitCount(capacity: nat, run: seq<Access>): (r: nat)
    requires 1 <= capacity
  {
    if run == [] then 0
    else
      var before, a := run[..|run| - 1], run[|run| - 1];
      HitCount(capacity, before) + (if a.key in ExecAccesses(capacity, before).items then 1 else 0)
  }

  function Keys(run: seq<Access>): (r: seq<nat>) {
    if run == [] then [] else Keys(run[..|run| - 1]) + [run[|run| - 1].key]
  }

  lemma AccessIsTouch(c: Cache, a: Access)
    requires Ok(c)
    ensures AccessStep(c, a).order == Take(Touch(c.order, a.key), c.capacity)
  {
    StepIsTouch(c, a.key, a.value, a.time);
  }

  lemma {:induction false} AccessesAreRecency(capacity: nat, run: seq<Access>)
    requires 1 <= capacity
    ensures ExecAccesses(capacity, run).order == Take(Stack(Keys(run)), capacity)
  {
    if run != [] {
      var before, a := run[..|run| - 1], run[|run| - 1];
      AccessesAreRecency(capacity, before);
      AccessIsTouch(ExecAccesses(capacity, before), a);
      StackDistinct(Keys(before));
      StackSnoc(Keys(before), a.key);
      TouchTake(Stack(Keys(before)), a.key, capacity);
    }
  }

  lemma {:induction false} HitsAreRecency(capacity: nat, run: seq<Access>)
    requires 1 <= capacity
    ensures HitCount(capacity, run) == Hits(Keys(run), capacity)
  {
    if run != [] {
      var before := run[..|run| - 1];
      HitsAreRecency(capacity, before);
      AccessesAreRecency(capacity, before);
      assert Keys(run)[..|Keys(run)| - 1] == Keys(before);
    }
  }

  /** Under this discipline a larger cache contains a smaller one and never hits less. */
  lemma LargerCacheContains(small: nat, large: nat, run: seq<Access>)
    requires 1 <= small <= large
    ensures ExecAccesses(small, run).order <= ExecAccesses(large, run).order
    ensures HitCount(small, run) <= HitCount(large, run)
  {
    AccessesAreRecency(small, run);
    AccessesAreRecency(large, run);
    HitsAreRecency(small, run);
    HitsAreRecency(large, run);
    HitsGrow(Keys(run), small, large);
  }

  // ---------------------------------------------------------------------------
  // The cache as the source runs it
  // ---------------------------------------------------------------------------

  class LruCache {
    const capacity: nat
    var cache: map<nat, Item>
    var lruList: seq<nat>

    ghost function State(): (r: Cache)
      reads this
    {
      Cache(capacity, cache, lruList)
    }

    ghost predicate Valid()
      reads this
    {
      Ok(State())
    }

    constructor (size: nat)
      requires 1 <= size
      ensures Valid() && State() == Cache(size, map[], [])
    {
      capacity, cache, lruList := size, map[], [];
    }

    method Get(key: nat, time: nat) returns (r: Option<nat>)
      requires Valid()
      modifies this
      ensures Valid() && State() == GetStep(old(State()), key, time)
      ensures r == if key in old(cache) then Some(old(cache)[key].value) else None
    {
      GetKeeps(State(), key, time);
      if key !in cache {
        return None;
      }
      lruList := Without(lruList, key);
      lruList := [key] + lruList;
      cache := cache[key := cache[key].(time := time)];
      r := Some(cache[key].value);
    }

    method Put(key: nat, value: nat, time: nat)
      requires Valid()
      modifies this
      ensures Valid() && State() == PutStep(old(State()), key, value, time)
    {
      PutKeeps(State(), key, value, time);
      ElementsSize(lruList);
      if key in cache {
        lruList := Without(lruList, key);
      } else if |cache| >= capacity {
        var victim := lruList[|lruList| - 1];
        lruList := lruList[..|lruList| - 1];
        cache := cache - {victim};
      }
      lruList := [key] + lruList;
      cache := cache[key := Item(value, time)];
    }

    method Remove(key: nat) returns (found: bool)
      requires Valid()
      modifies this
      ensures Valid() && found == (key in old(cache))
      ensures cache == old(cache) - {key} && lruList == Without(old(lruList), key)
    {
      found := key in cache;
      WithoutDistinct(lruList, key);
      if !found {
        WithoutAbsent(lruList, key);
        assert cache - {key} == cache;
        return;
      }
      lruList := Without(lruList, key);
      cache := cache - {key};
    }
  }
}
