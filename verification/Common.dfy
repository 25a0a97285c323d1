/** Small types and facts shared by the models. */
module Wrappers {
  datatype Option<+T> = None | Some(value: T)

  /** Only the last of two updates of the same key counts. */
  lemma Overwrite<K, V>(m: map<K, V>, k: K, a: V, b: V)
    ensures m[k := a][k := b] == m[k := b]
  {
  }

  lemma {:induction false} SubsetSize<T>(a: set<T>, b: set<T>)
    requires a <= b
    ensures |a| <= |b|
  {
    if a != {} {
      var x :| x in a;
      SubsetSize(a - {x}, b - {x});
    }
  }
}

/** Machine words. */
module Words {
  /** The number of 64-bit values. */
  const WORD: nat := 0x1_0000_0000_0000_0000

  /** The lowest 64 bits. */
  function Low(x: nat): (r: nat) {
    x % WORD
  }

  /** Addition in 64 bits. */
  function WordSum(a: nat, b: nat): (r: nat) {
    (a + b) % WORD
  }

  /** Sums of words wrap at 2^64. */
  lemma WordSumWraps(a: nat, b: nat)
    requires a < 0x1_0000_0000_0000_0000 && b < 0x1_0000_0000_0000_0000
    ensures WordSum(a, b)
            == if a + b < 0x1_0000_0000_0000_0000 then a + b else a + b - 0x1_0000_0000_0000_0000
    ensures Low(a) == a
  {
  }
}

/** Cache lines. */
module CacheLines {
  const LINE_SIZE: nat := 64

  /** `addr & ~63`. */
  function LineOf(addr: nat): (r: nat)
    ensures r <= addr < r + LINE_SIZE && r % LINE_SIZE == 0
  {
    addr - addr % LINE_SIZE
  }
}

/** The states the two MOESI directories keep for a line. */
module Moesi {
  datatype CacheState = Invalid | Shared | Exclusive | Modified | Owned
}

/** Sorting by a key, and sequences of distinct numbers. */
module Sequences {
  import opened Wrappers

  predicate Distinct(s: seq<nat>) {
    forall i, j :: 0 <= i < j < |s| ==> s[i] != s[j]
  }

  function Elements(s: seq<nat>): (r: set<nat>) {
    set k | k in s
  }

  lemma {:induction false} ElementsSize(s: seq<nat>)
    requires Distinct(s)
    ensures |Elements(s)| == |s|
  {
    if s != [] {
      var rest := s[1..];
      ElementsSize(rest);
      assert s[0] !in Elements(rest);
      assert Elements(s) == Elements(rest) + {s[0]};
    }
  }

  /** Permutations have the same elements. */
  lemma SameMembers<T>(a: seq<T>, b: seq<T>, x: T)
    requires multiset(a) == multiset(b)
    ensures x in a <==> x in b
  {
    assert x in a <==> x in multiset(a);
    assert x in b <==> x in multiset(b);
  }

  predicate AscendingBy<T>(s: seq<T>, key: T -> int) {
    forall i, j :: 0 <= i < j < |s| ==> key(s[i]) <= key(s[j])
  }

  function Placed<T>(x: T, s: seq<T>, key: T -> int): (r: seq<T>)
    ensures multiset(r) == multiset(s) + multiset{x}
  {
    if s == [] then [x]
    else if key(x) < key(s[0]) then [x] + s
    else
      assert s == [s[0]] + s[1..];
      [s[0]] + Placed(x, s[1..], key)
  }

  function SortBy<T>(s: seq<T>, key: T -> int): (r: seq<T>)
    ensures multiset(r) == multiset(s)
  {
    if s == [] then []
    else
      assert s == s[..|s| - 1] + [s[|s| - 1]];
      Placed(s[|s| - 1], SortBy(s[..|s| - 1], key), key)
  }

  lemma {:induction false} PlacedAscends<T>(x: T, s: seq<T>, key: T -> int)
    requires AscendingBy(s, key)
    ensures AscendingBy(Placed(x, s, key), key)
  {
    if s != [] && key(x) >= key(s[0]) {
      var rest := s[1..];
      PlacedAscends(x, rest, key);
      var placed := Placed(x, rest, key);
      forall j | 0 <= j < |placed| ensures key(s[0]) <= key(placed[j]) {
        SameMembers(placed, rest + [x], placed[j]);
      }
      AscendsFrom(s[0], placed, key);
    }
  }

  lemma AscendsFrom<T>(x: T, s: seq<T>, key: T -> int)
    requires AscendingBy(s, key) && forall j :: 0 <= j < |s| ==> key(x) <= key(s[j])
    ensures AscendingBy([x] + s, key)
  {
  }

  lemma {:induction false} SortAscends<T>(s: seq<T>, key: T -> int)
    ensures AscendingBy(SortBy(s, key), key)
  {
    if s != [] {
      SortAscends(s[..|s| - 1], key);
      PlacedAscends(s[|s| - 1], SortBy(s[..|s| - 1], key), key);
    }
  }

  /** Distinct numbers below `n`, as many as there are, are all of them. */
  lemma {:induction false} Pigeonhole(s: seq<nat>, n: nat)
    requires Distinct(s) && |s| <= n
    requires forall i :: 0 <= i < |s| ==> s[i] < n
    ensures |s| == n <==> forall x: nat :: x < n ==> x in s
  {
    ElementsSize(s);
    var all := Below(n);
    assert Elements(s) <= all;
    if |s| == n && exists x: nat :: x < n && x !in s {
      var x: nat :| x < n && x !in s;
      SubsetSize(Elements(s) + {x}, all);
    }
    if forall x: nat :: x < n ==> x in s {
      SubsetSize(all, Elements(s));
    }
  }

  function Below(n: nat): (r: set<nat>)
    ensures forall x: nat :: x in r <==> x < n
    ensures |r| == n
  {
    if n == 0 then {} else Below(n - 1) + {n - 1}
  }
}

/** Quotient and remainder. */
module Arithmetic {
  lemma DivMod(q: nat, d: nat, r: nat)
    requires r < d
    ensures (q * d + r) / d == q && (q * d + r) % d == r
  {
    var x := q * d + r;
    var k := x / d - q;
    assert x == (x / d) * d + x % d;
    assert k * d == r - x % d;
    assert k == 0;
  }
}
