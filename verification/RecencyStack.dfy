/**
 * The recency order of a trace: its distinct keys, most recently used first.  A
 * least-recently-used cache of any capacity is a prefix of it; the lemmas here say
 * so, and say how deep a key lies.
 */
module RecencyStack {
  import opened Sequences

  function Without(s: seq<nat>, k: nat): (r: seq<nat>)
    ensures |r| <= |s|
    ensures forall x :: x in r <==> x in s && x != k
  {
    if s == [] then [] else (if s[0] == k then [] else [s[0]]) + Without(s[1..], k)
  }

  function Touch(s: seq<nat>, k: nat): (r: seq<nat>) {
    [k] + Without(s, k)
  }

  /** The keys of a trace in order of their last use, latest first. */
  function Stack(trace: seq<nat>): (r: seq<nat>) {
    if trace == [] then [] else Touch(Stack(trace[..|trace| - 1]), trace[|trace| - 1])
  }

  function Take(s: seq<nat>, c: nat): (r: seq<nat>)
    ensures |r| == if |s| <= c then |s| else c
    ensures r <= s
  {
    if |s| <= c then s else s[..c]
  }

  lemma {:induction false} WithoutAbsent(s: seq<nat>, k: nat)
    requires k !in s
    ensures Without(s, k) == s
  {
    if s != [] {
      WithoutAbsent(s[1..], k);
    }
  }

  lemma {:induction false} WithoutDistinct(s: seq<nat>, k: nat)
    requires Distinct(s)
    ensures Distinct(Without(s, k))
    ensures k in s ==> |Without(s, k)| == |s| - 1
  {
    if s != [] {
      var rest := s[1..];
      WithoutDistinct(rest, k);
      if s[0] == k {
        WithoutAbsent(rest, k);
      } else {
        var w := Without(rest, k);
        assert forall j :: 0 <= j < |w| ==> w[j] in rest;
        assert s[0] !in rest;
      }
    }
  }

  lemma {:induction false} StackDistinct(trace: seq<nat>)
    ensures Distinct(Stack(trace))
    ensures forall k :: k in Stack(trace) <==> k in trace
  {
    if trace != [] {
      var before, k := trace[..|trace| - 1], trace[|trace| - 1];
      StackDistinct(before);
      WithoutDistinct(Stack(before), k);
      assert trace == before + [k];
    }
  }

  lemma StackSnoc(trace: seq<nat>, k: nat)
    ensures Stack(trace + [k]) == Touch(Stack(trace), k)
  {
    assert (trace + [k])[..|trace + [k]| - 1] == trace;
  }

  lemma DropLast(s: seq<nat>)
    requires Distinct(s) && s != []
    ensures Distinct(s[..|s| - 1]) && Elements(s[..|s| - 1]) == Elements(s) - {s[|s| - 1]}
  {
  }

  lemma Prepend(s: seq<nat>, k: nat)
    requires Distinct(s) && k !in s
    ensures Distinct([k] + s) && Elements([k] + s) == Elements(s) + {k}
  {
  }

  lemma {:induction false} TakeWithout(s: seq<nat>, k: nat, m: nat)
    requires Distinct(s)
    ensures Take(Without(s, k), m) == Take(Without(Take(s, m + 1), k), m)
  {
    if s != [] {
      var x, rest := s[0], s[1..];
      PrependTake(x, rest, m + 1);
      assert s == [x] + rest;
      WithoutHead(x, rest, k);
      WithoutHead(x, Take(rest, m), k);
      if x == k {
        WithoutAbsent(rest, k);
        WithoutAbsent(Take(rest, m), k);
      } else if m > 0 {
        TakeWithout(rest, k, m - 1);
        PrependTake(x, Without(rest, k), m);
        PrependTake(x, Without(Take(rest, m), k), m);
      }
    }
  }

  lemma WithoutHead(x: nat, s: seq<nat>, k: nat)
    ensures Without([x] + s, k) == if x == k then Without(s, k) else [x] + Without(s, k)
  {
    assert ([x] + s)[1..] == s;
  }

  /** Touching a truncated stack and truncating a touched stack come to the same. */
  lemma TouchTake(s: seq<nat>, k: nat, c: nat)
    requires Distinct(s) && 1 <= c
    ensures Take(Touch(Take(s, c), k), c) == Take(Touch(s, k), c)
  {
    TakeWithout(s, k, c - 1);
    PrependTake(k, Without(s, k), c);
    PrependTake(k, Without(Take(s, c), k), c);
  }

  lemma PrependTake(k: nat, s: seq<nat>, c: nat)
    requires 1 <= c
    ensures Take([k] + s, c) == [k] + Take(s, c - 1)
  {
  }

  // ---------------------------------------------------------------------------
  // How deep a key lies
  // ---------------------------------------------------------------------------

  function LastUse(trace: seq<nat>, k: nat): (r: int)
    ensures -1 <= r < |trace|
    ensures 0 <= r <==> k in trace
    ensures 0 <= r ==> trace[r] == k
    ensures forall i :: r < i < |trace| ==> trace[i] != k
  {
    if trace == [] then -1
    else if trace[|trace| - 1] == k then |trace| - 1
    else LastUse(trace[..|trace| - 1], k)
  }

  /** The distinct keys used after the last use of `k`. */
  function UsedSince(trace: seq<nat>, k: nat): (r: set<nat>) {
    set i | LastUse(trace, k) < i < |trace| :: trace[i]
  }

  /** The keys in front of `k`. */
  function Front(s: seq<nat>, k: nat): (r: set<nat>)
    ensures k !in r
  {
    if s == [] || s[0] == k then {} else {s[0]} + Front(s[1..], k)
  }

  lemma {:induction false} FrontTouch(s: seq<nat>, x: nat, k: nat)
    requires x != k
    ensures Front(Without(s, x), k) + {x} == Front(s, k) + {x}
  {
    if s != [] {
      FrontTouch(s[1..], x, k);
      if s[0] == x {
        assert Without(s, x) == Without(s[1..], x);
      } else {
        assert Without(s, x) == [s[0]] + Without(s[1..], x);
        assert Without(s, x)[1..] == Without(s[1..], x);
      }
    }
  }

  lemma UsedSinceSnoc(trace: seq<nat>, x: nat, k: nat)
    requires x != k
    ensures UsedSince(trace + [x], k) == UsedSince(trace, k) + {x}
  {
    var t := trace + [x];
    assert t[..|t| - 1] == trace;
    forall y ensures y in UsedSince(t, k) <==> y in UsedSince(trace, k) + {x} {
      if y in UsedSince(trace, k) {
        var i :| LastUse(trace, k) < i < |trace| && trace[i] == y;
        assert t[i] == y;
      }
      if y == x {
        assert t[|trace|] == x;
      }
    }
  }

  /** What lies above a key in the stack is exactly what was used since. */
  lemma {:induction false} FrontIsUsedSince(trace: seq<nat>, k: nat)
    requires k in trace
    ensures Front(Stack(trace), k) == UsedSince(trace, k)
  {
    var before, x := trace[..|trace| - 1], trace[|trace| - 1];
    assert trace == before + [x];
    if x != k {
      FrontIsUsedSince(before, k);
      FrontTouch(Stack(before), x, k);
      UsedSinceSnoc(before, x, k);
      assert Touch(Stack(before), x)[1..] == Without(Stack(before), x);
    }
  }

  function Depth(s: seq<nat>, k: nat): (r: nat)
    requires k in s
    ensures r < |s| && s[r] == k
  {
    if s[0] == k then 0 else 1 + Depth(s[1..], k)
  }

  lemma {:induction false} FrontSize(s: seq<nat>, k: nat)
    requires Distinct(s) && k in s
    ensures |Front(s, k)| == Depth(s, k)
    ensures forall x :: x in Front(s, k) ==> x in s
  {
    if s[0] != k {
      var rest := s[1..];
      FrontSize(rest, k);
      assert s[0] !in rest;
    }
  }

  lemma DepthIsFront(s: seq<nat>, k: nat, c: nat)
    requires Distinct(s) && k in s
    ensures k in Take(s, c) <==> |Front(s, k)| < c
  {
    FrontSize(s, k);
    var d := Depth(s, k);
    if d < c {
      assert Take(s, c)[d] == k;
    }
  }

  /**
   * The reuse distance: a key is among the `c` most recent exactly when it was used
   * before and fewer than `c` other distinct keys were used since.
   */
  lemma ReuseDistance(trace: seq<nat>, k: nat, c: nat)
    ensures k in Take(Stack(trace), c) <==> k in trace && |UsedSince(trace, k)| < c
  {
    StackDistinct(trace);
    if k in trace {
      FrontIsUsedSince(trace, k);
      DepthIsFront(Stack(trace), k, c);
    } else {
      assert k !in Stack(trace);
    }
  }

  /** How many uses find their key among the `c` most recent. */
  function Hits(trace: seq<nat>, c: nat): (r: nat) {
    if trace == [] then 0
    else Hits(trace[..|trace| - 1], c)
         + (if trace[|trace| - 1] in Take(Stack(trace[..|trace| - 1]), c) then 1 else 0)
  }

  /** A deeper prefix of the stack never hits less. */
  lemma {:induction false} HitsGrow(trace: seq<nat>, c: nat, d: nat)
    requires c <= d
    ensures Take(Stack(trace), c) <= Take(Stack(trace), d)
    ensures Hits(trace, c) <= Hits(trace, d)
  {
    if trace != [] {
      HitsGrow(trace[..|trace| - 1], c, d);
    }
  }
}
