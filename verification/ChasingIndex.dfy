/**
 * The index of the pointer-chasing benchmark: random slots are linked one after
 * another, skipping those already linked.  The result is one cycle through all
 * slots, and it is completed exactly if the random draws reach every slot.
 */
module ChasingIndex {
  import opened Wrappers
  import opened Sequences

  predicate Closed(index: seq<nat>) {
    forall i :: 0 <= i < |index| ==> index[i] < |index|
  }

  /** The slot reached from slot 0 by following the index `n` times. */
  function Follow(index: seq<nat>, n: nat): (r: nat)
    requires index != [] && Closed(index)
    ensures r < |index|
  {
    if n == 0 then 0 else index[Follow(index, n - 1)]
  }

  /** Following the index visits every slot, each once, and then is back at slot 0. */
  ghost predicate SingleCycle(index: seq<nat>) {
    && index != [] && Closed(index)
    && Follow(index, |index|) == 0
    && (forall i, j :: 0 <= i < j < |index| ==> Follow(index, i) != Follow(index, j))
    && (forall s: nat :: s < |index| ==> Reached(index, s))
  }

  ghost predicate Reached(index: seq<nat>, s: nat)
    requires index != [] && Closed(index)
  {
    exists n: nat :: n < |index| && Follow(index, n) == s
  }

  // ---------------------------------------------------------------------------
  // The order of the slots
  // ---------------------------------------------------------------------------

  /** The slots in the order the draws first reach them; `None` if the draws run out before all are reached. */
  function Visit(path: seq<nat>, size: nat, draws: seq<nat>): (r: Option<seq<nat>>)
    requires size > 0
    decreases |draws|
  {
    if |path| >= size then Some(path)
    else if draws == [] then None
    else
      var next := draws[0] % size;
      Visit(if next in path then path else path + [next], size, draws[1..])
  }

  predicate IsPath(path: seq<nat>, size: nat) {
    && 0 < |path| <= size
    && path[0] == 0
    && Distinct(path)
    && forall i :: 0 <= i < |path| ==> path[i] < size
  }

  /** Each slot of the path but the last leads to its successor; all other slots are still zero. */
  predicate Linked(index: seq<nat>, path: seq<nat>) {
    && IsPath(path, |index|)
    && (forall i :: 0 <= i < |path| - 1 ==> index[path[i]] == path[i + 1])
    && (forall s :: 0 <= s < |index| && s !in path[..|path| - 1] ==> index[s] == 0)
  }

  lemma Extends(path: seq<nat>, size: nat, next: nat)
    requires IsPath(path, size) && next < size && next !in path
    ensures IsPath(path + [next], size)
  {
    var longer := path + [next];
    forall i | 0 <= i < |longer| ensures longer[i] < size {
    }
    if |longer| > size {
      Pigeonhole(path, size);
    }
  }

  /** The draws reach all slots exactly if every other slot than 0 is some draw modulo the size. */
  lemma {:induction false} VisitIffCovers(path: seq<nat>, size: nat, draws: seq<nat>)
    requires size > 0 && IsPath(path, size)
    ensures Visit(path, size, draws).Some?
            <==> forall s: nat :: s < size && s !in path ==> Drawn(draws, size, s)
    ensures Visit(path, size, draws).Some? ==>
              && IsPath(Visit(path, size, draws).value, size)
              && |Visit(path, size, draws).value| == size
              && path <= Visit(path, size, draws).value
    decreases |draws|
  {
    Pigeonhole(path, size);
    if |path| < size && draws != [] {
      var next := draws[0] % size;
      DrawnNext(draws, size);
      if next !in path {
        Extends(path, size, next);
      }
      VisitIffCovers(if next in path then path else path + [next], size, draws[1..]);
    }
  }

  ghost predicate Drawn(draws: seq<nat>, size: nat, s: nat)
    requires size > 0
  {
    exists i :: 0 <= i < |draws| && draws[i] % size == s
  }

  lemma DrawnNext(draws: seq<nat>, size: nat)
    requires size > 0 && draws != []
    ensures forall s: nat :: Drawn(draws, size, s) <==> draws[0] % size == s || Drawn(draws[1..], size, s)
  {
    forall s: nat ensures Drawn(draws, size, s) <==> draws[0] % size == s || Drawn(draws[1..], size, s) {
      if i :| 0 <= i < |draws| && draws[i] % size == s {
        if i > 0 {
          assert draws[1..][i - 1] == draws[i];
        }
      }
      if j :| 0 <= j < |draws[1..]| && draws[1..][j] % size == s {
        assert draws[j + 1] % size == s;
      }
    }
  }

  // ---------------------------------------------------------------------------
  // A linked path over all slots is a single cycle
  // ---------------------------------------------------------------------------

  lemma LinkedClosed(index: seq<nat>, path: seq<nat>)
    requires Linked(index, path)
    ensures Closed(index)
  {
    forall s | 0 <= s < |index| ensures index[s] < |index| {
      if s in path[..|path| - 1] {
        var i :| 0 <= i < |path| - 1 && path[i] == s;
        assert index[path[i]] == path[i + 1];
      }
    }
  }

  lemma {:induction false} FollowPath(index: seq<nat>, path: seq<nat>, n: nat)
    requires Linked(index, path) && Closed(index) && n < |path|
    ensures Follow(index, n) == path[n]
  {
    if n > 0 {
      FollowPath(index, path, n - 1);
      assert index[path[n - 1]] == path[n];
    }
  }

  lemma LinkedPathIsCycle(index: seq<nat>, path: seq<nat>)
    requires Linked(index, path) && |path| == |index|
    ensures SingleCycle(index)
  {
    LinkedClosed(index, path);
    forall n: nat | n < |index| ensures Follow(index, n) == path[n] {
      FollowPath(index, path, n);
    }
    var last := |index| - 1;
    assert path[last] !in path[..last];
    assert Follow(index, last) == path[last];
    Pigeonhole(path, |index|);
    forall s: nat | s < |index| ensures Reached(index, s) {
      assert s in path;
      var n: nat :| n < |path| && path[n] == s;
      assert Follow(index, n) == s;
    }
  }

  /** What the loop's test sees: a slot is taken exactly if it is on the path. */
  lemma TakenIffOnPath(index: seq<nat>, path: seq<nat>, next: nat)
    requires Linked(index, path) && next < |index|
    ensures index[next] != 0 || next == path[|path| - 1] <==> next in path
  {
    if next in path {
      var i :| 0 <= i < |path| && path[i] == next;
      if i < |path| - 1 {
        assert index[path[i]] == path[i + 1] != path[0];
      }
    }
  }

  /** While slots are missing from the path, some draw ends the inner loop. */
  lemma FreeSlotExists(index: seq<nat>, path: seq<nat>) returns (next: nat)
    requires Linked(index, path) && |path| < |index|
    ensures next < |index| && index[next] == 0 && next != path[|path| - 1]
  {
    Pigeonhole(path, |index|);
    next :| next < |index| && next !in path;
    TakenIffOnPath(index, path, next);
  }

  lemma LinkNext(index: seq<nat>, path: seq<nat>, next: nat)
    requires Linked(index, path) && next < |index| && next !in path
    ensures Linked(index[path[|path| - 1] := next], path + [next])
  {
    Extends(path, |index|, next);
    var last := |path| - 1;
    var longer, linked := path + [next], index[path[last] := next];
    forall i | 0 <= i < last ensures linked[longer[i]] == longer[i + 1] {
      assert path[i] != path[last] && index[path[i]] == path[i + 1];
    }
    assert longer[..|longer| - 1] == path;
    forall s | 0 <= s < |index| && s !in path ensures linked[s] == 0 {
      assert s !in path[..last];
    }
  }

  // ---------------------------------------------------------------------------
  // The construction, in place
  // ---------------------------------------------------------------------------

  /** The first draw whose slot is not on the path gives `next`; `left` are the draws after it. */
  ghost predicate FirstFree(draws: seq<nat>, size: nat, path: seq<nat>, next: nat, left: seq<nat>)
    requires size > 0
  {
    && |left| < |draws| && left == draws[|draws| - |left|..]
    && next == draws[|draws| - |left| - 1] % size && next < size && next !in path
    && forall i :: 0 <= i < |draws| - |left| - 1 ==> draws[i] % size in path
  }

  /** Draws until a slot is free; reports 1 exactly if no draw is. */
  method NextFree(index: array<nat>, current: nat, draws: seq<nat>, ghost path: seq<nat>)
    returns (failed: nat, next: nat, left: seq<nat>)
    requires index.Length > 0 && Linked(index[..], path)
    requires |path| < index.Length && current == path[|path| - 1]
    ensures failed <= 1
    ensures failed == 0 ==> FirstFree(draws, index.Length, path, next, left)
    ensures failed == 0 <==> exists i :: 0 <= i < |draws| && draws[i] % index.Length !in path
    ensures failed == 0 ==> Visit(path, index.Length, draws) == Visit(path + [next], index.Length, left)
    ensures failed != 0 ==> Visit(path, index.Length, draws).None?
  {
    left, next, failed := draws, 0, 0;
    while true
      invariant |left| <= |draws| && left == draws[|draws| - |left|..]
      invariant forall i :: 0 <= i < |draws| - |left| ==> draws[i] % index.Length in path
      invariant Visit(path, index.Length, draws) == Visit(path, index.Length, left)
      decreases |left|
    {
      ghost var taken := |draws| - |left|;
      if left == [] {
        return 1, next, left;
      }
      assert left[0] == draws[taken];
      next, left := left[0] % index.Length, left[1..];
      TakenIffOnPath(index[..], path, next);
      if index[next] == 0 && next != current {
        assert draws[taken] % index.Length !in path;
        return 0, next, left;
      }
    }
  }

  /** Fails exactly if the draws miss a slot; otherwise the index is one cycle through all slots. */
  method InitChasingIndex(index: array<nat>, draws: seq<nat>) returns (failed: nat)
    requires index.Length > 0
    modifies index
    ensures failed <= 1
    ensures failed == 0 <==> forall s: nat :: 0 < s < index.Length ==> Drawn(draws, index.Length, s)
    ensures failed == 0 ==> SingleCycle(index[..])
    ensures failed == 0 ==> exists path :: Visit([0], index.Length, draws) == Some(path) && Linked(index[..], path)
  {
    for k := 0 to index.Length
      invariant forall i :: 0 <= i < k ==> index[i] == 0
    {
      index[k] := 0;
    }
    ghost var path := [0];
    VisitIffCovers(path, index.Length, draws);
    var current, left := 0, draws;
    for i := 0 to index.Length - 1
      invariant Linked(index[..], path)
      invariant |path| == i + 1 && current == path[|path| - 1]
      invariant Visit([0], index.Length, draws) == Visit(path, index.Length, left)
    {
      var next;
      failed, next, left := NextFree(index, current, left, path);
      if failed != 0 {
        return 1;
      }
      LinkNext(index[..], path, next);
      index[current] := next;
      current := next;
      path := path + [next];
    }
    LinkedPathIsCycle(index[..], path);
    failed := 0;
  }
}
