/**
 * The reorder-buffer window: each branch record adds its instructions and misses to
 * its thread's counters and its misses' types to a queue, and old records leave from
 * the front of the controller's ring until at most 512 instructions remain.
 *
 * The results: for one thread the ring is, after every run, the longest suffix of
 * all its records that fits, and every counter is a sum over that suffix; with two
 * threads the shared ring makes the eviction pop an empty queue.
 */
module RobWindow {
  import opened Wrappers

  const ROB_SIZE: nat := 512

  datatype Lbr = Lbr(from: nat, to: nat, flags: nat)

  /** `flags & LBR_DATA_MASK`. */
  function Misses(r: Lbr): (n: nat)
    ensures n < 4
  {
    r.flags % 4
  }

  /** `(flags & LBR_INS_MASK) >> LBR_INS_SHIFT`: 28 bits from bit 16. */
  function Instructions(r: Lbr): (n: nat)
    ensures n < 0x1000_0000
  {
    r.flags / 0x1_0000 % 0x1000_0000
  }

  datatype Thread = Thread(
    types: seq<int>,
    typesRob: seq<int>,
    mCount: map<int, int>,
    missBase: int,
    missCount: int,
    insCount: int)

  const NEW_THREAD: Thread := Thread([], [], map[], 0, 0, 0)

  // ---------------------------------------------------------------------------
  // One record
  // ---------------------------------------------------------------------------

  function Get(m: map<int, int>, k: int): (r: int) {
    if k in m then m[k] else 0
  }

  function AddAll(m: map<int, int>, ks: seq<int>, d: int): (r: map<int, int>) {
    if ks == [] then m
    else
      var before, k := AddAll(m, ks[..|ks| - 1], d), ks[|ks| - 1];
      before[k := Get(before, k) + d]
  }

  /** The types given to `n` misses: the queued ones first, then 0. */
  function Assigned(types: seq<int>, n: nat): (r: seq<int>)
    ensures |r| == n
  {
    if n <= |types| then types[..n] else types + seq(n - |types|, _ => 0)
  }

  function Rest(types: seq<int>, n: nat): (r: seq<int>) {
    if n <= |types| then types[n..] else []
  }

  function Admit(t: Thread, r: Lbr): (s: Thread) {
    var types := Assigned(t.types, Misses(r));
    Thread(Rest(t.types, Misses(r)), t.typesRob + types, AddAll(t.mCount, types, 1),
           t.missBase, t.missCount + Misses(r), t.insCount + Instructions(r))
  }

  function Expel(t: Thread, r: Lbr): (s: Thread)
    requires Misses(r) <= |t.typesRob|
  {
    t.(insCount := t.insCount - Instructions(r),
       missCount := t.missCount - Misses(r),
       missBase := t.missBase + Misses(r),
       mCount := AddAll(t.mCount, t.typesRob[..Misses(r)], -1),
       typesRob := t.typesRob[Misses(r)..])
  }

  /** The eviction loop; `None` when it would pop an empty queue. */
  function Evict(ring: seq<Lbr>, t: Thread): (r: Option<(seq<Lbr>, Thread)>) {
    if t.insCount <= ROB_SIZE then Some((ring, t))
    else if ring == [] || |t.typesRob| < Misses(ring[0]) then None
    else Evict(ring[1..], Expel(t, ring[0]))
  }

  function Insert(ring: seq<Lbr>, t: Thread, r: Lbr): (s: Option<(seq<Lbr>, Thread)>) {
    Evict(ring + [r], Admit(t, r))
  }

  // ---------------------------------------------------------------------------
  // The controller: one ring, many threads
  // ---------------------------------------------------------------------------

  datatype Event = MissType(tid: nat, kind: int) | Record(tid: nat, lbr: Lbr)

  datatype Controller = Controller(ring: seq<Lbr>, threads: map<nat, Thread>)

  function ThreadOf(c: Controller, tid: nat): (r: Thread) {
    if tid in c.threads then c.threads[tid] else NEW_THREAD
  }

  function Step(c: Controller, e: Event): (r: Option<Controller>) {
    var t := ThreadOf(c, e.tid);
    match e
    case MissType(tid, kind) => Some(c.(threads := c.threads[tid := t.(types := t.types + [kind])]))
    case Record(tid, lbr) =>
      var s := Insert(c.ring, t, lbr);
      if s.None? then None else Some(Controller(s.value.0, c.threads[tid := s.value.1]))
  }

  /** The state after a run, or `None` once some step would pop an empty queue. */
  function Exec(run: seq<Event>): (r: Option<Controller>) {
    if run == [] then Some(Controller([], map[]))
    else
      var before := Exec(run[..|run| - 1]);
      if before.None? then None else Step(before.value, run[|run| - 1])
  }

  // ---------------------------------------------------------------------------
  // Sums over records
  // ---------------------------------------------------------------------------

  function InsTotal(rs: seq<Lbr>): (r: nat) {
    if rs == [] then 0 else Instructions(rs[0]) + InsTotal(rs[1..])
  }

  function MissTotal(rs: seq<Lbr>): (r: nat) {
    if rs == [] then 0 else Misses(rs[0]) + MissTotal(rs[1..])
  }

  function Count(ks: seq<int>, k: int): (r: nat) {
    multiset(ks)[k]
  }

  lemma {:induction false} TotalsAppend(a: seq<Lbr>, b: seq<Lbr>)
    ensures InsTotal(a + b) == InsTotal(a) + InsTotal(b)
    ensures MissTotal(a + b) == MissTotal(a) + MissTotal(b)
  {
    if a == [] {
      assert a + b == b;
    } else {
      TotalsAppend(a[1..], b);
      assert (a + b)[1..] == a[1..] + b;
    }
  }

  /** The longest suffix that fits the reorder buffer. */
  function Fitting(rs: seq<Lbr>): (r: seq<Lbr>)
    ensures |r| <= |rs|
  {
    if InsTotal(rs) <= ROB_SIZE then rs else Fitting(rs[1..])
  }

  /** What `Fitting` means: a suffix, within bounds, and no longer one is. */
  lemma {:induction false} FittingIsLongest(rs: seq<Lbr>)
    ensures Fitting(rs) == rs[|rs| - |Fitting(rs)|..]
    ensures InsTotal(Fitting(rs)) <= ROB_SIZE
    ensures forall k :: 0 <= k < |rs| - |Fitting(rs)| ==> InsTotal(rs[k..]) > ROB_SIZE
  {
    if InsTotal(rs) > ROB_SIZE {
      var rest := rs[1..];
      FittingIsLongest(rest);
      forall k | 0 <= k < |rs| - |Fitting(rs)| ensures InsTotal(rs[k..]) > ROB_SIZE {
        if k > 0 {
          assert rest[k - 1..] == rs[k..];
        } else {
          assert rs[0..] == rs;
        }
      }
    }
  }

  /** Evicting step by step, or from scratch, leaves the same suffix. */
  lemma {:induction false} FittingExtends(rs: seq<Lbr>, r: Lbr)
    ensures Fitting(Fitting(rs) + [r]) == Fitting(rs + [r])
  {
    if InsTotal(rs) > ROB_SIZE {
      FittingExtends(rs[1..], r);
      TotalsAppend(rs, [r]);
      assert (rs + [r])[1..] == rs[1..] + [r];
    }
  }

  // ---------------------------------------------------------------------------
  // Counters over the window
  // ---------------------------------------------------------------------------

  /** The thread's counters are the sums over the ring. */
  ghost predicate Agrees(ring: seq<Lbr>, t: Thread) {
    && t.insCount == InsTotal(ring)
    && t.missCount == MissTotal(ring) == |t.typesRob|
    && forall k :: Get(t.mCount, k) == Count(t.typesRob, k)
  }

  lemma Distribute(d: int, n: int)
    ensures d * (n + 1) == d * n + d
  {
  }

  lemma {:induction false} AddAllCounts(m: map<int, int>, ks: seq<int>, d: int, k: int)
    ensures Get(AddAll(m, ks, d), k) == Get(m, k) + d * Count(ks, k)
  {
    if ks != [] {
      var before, last := ks[..|ks| - 1], ks[|ks| - 1];
      AddAllCounts(m, before, d, k);
      assert ks == before + [last];
      var n := Count(before, k);
      assert Count(ks, k) == if k == last then n + 1 else n;
      Distribute(d, n);
    }
  }

  lemma AdmitAgrees(ring: seq<Lbr>, t: Thread, r: Lbr)
    requires Agrees(ring, t)
    ensures Agrees(ring + [r], Admit(t, r))
  {
    TotalsAppend(ring, [r]);
    var types := Assigned(t.types, Misses(r));
    forall k ensures Get(AddAll(t.mCount, types, 1), k) == Count(t.typesRob + types, k) {
      AddAllCounts(t.mCount, types, 1, k);
    }
  }

  lemma ExpelAgrees(ring: seq<Lbr>, t: Thread)
    requires Agrees(ring, t) && ring != []
    ensures Misses(ring[0]) <= |t.typesRob|
    ensures Agrees(ring[1..], Expel(t, ring[0]))
  {
    var n := Misses(ring[0]);
    var left := t.typesRob[..n];
    assert t.typesRob == left + t.typesRob[n..];
    forall k ensures Get(AddAll(t.mCount, left, -1), k) == Count(t.typesRob[n..], k) {
      AddAllCounts(t.mCount, left, -1, k);
    }
  }

  /** With agreeing counters the eviction never fails, stops at the longest fitting suffix, and conserves misses. */
  lemma {:induction false} EvictAgrees(ring: seq<Lbr>, t: Thread)
    requires Agrees(ring, t)
    ensures var s := Evict(ring, t);
            && s.Some?
            && s.value.0 == Fitting(ring)
            && Agrees(s.value.0, s.value.1)
            && s.value.1.types == t.types
            && s.value.1.missBase + s.value.1.missCount == t.missBase + t.missCount
            && |s.value.1.typesRob| <= |t.typesRob|
            && s.value.1.typesRob == t.typesRob[|t.typesRob| - |s.value.1.typesRob|..]
    decreases |ring|
  {
    if t.insCount > ROB_SIZE {
      ExpelAgrees(ring, t);
      EvictAgrees(ring[1..], Expel(t, ring[0]));
    }
  }

  // ---------------------------------------------------------------------------
  // One record, whatever the counters
  // ---------------------------------------------------------------------------

  /** The fields of the flags: two bits of misses, 28 bits of instructions from bit 16, the rest ignored. */
  lemma FlagFields(from: nat, to: nat, misses: nat, skipped: nat, instructions: nat, rest: nat)
    requires misses < 4 && skipped < 0x4000 && instructions < 0x1000_0000
    ensures var r := Lbr(from, to, misses + 4 * skipped + 0x1_0000 * (instructions + 0x1000_0000 * rest));
            Misses(r) == misses && Instructions(r) == instructions
  {
    var low, high := misses + 4 * skipped, instructions + 0x1000_0000 * rest;
    LowField(misses, skipped, high);
    HighField(low, high);
    FieldOf(instructions, rest);
  }

  lemma LowField(misses: nat, skipped: nat, high: nat)
    requires misses < 4
    ensures (misses + 4 * skipped + 0x1_0000 * high) % 4 == misses
  {
    assert misses + 4 * skipped + 0x1_0000 * high == misses + 4 * (skipped + 0x4000 * high);
  }

  lemma HighField(low: nat, high: nat)
    requires low < 0x1_0000
    ensures (low + 0x1_0000 * high) / 0x1_0000 == high
  {
  }

  lemma FieldOf(instructions: nat, rest: nat)
    requires instructions < 0x1000_0000
    ensures (instructions + 0x1000_0000 * rest) % 0x1000_0000 == instructions
  {
  }

  lemma TotalsFront(rs: seq<Lbr>, k: nat)
    requires 1 <= k <= |rs|
    ensures InsTotal(rs[..k]) == Instructions(rs[0]) + InsTotal(rs[1..][..k - 1])
    ensures MissTotal(rs[..k]) == Misses(rs[0]) + MissTotal(rs[1..][..k - 1])
  {
    assert rs[..k][0] == rs[0] && rs[..k][1..] == rs[1..][..k - 1];
  }

  /** What is left when the first `k` records of the ring are evicted. */
  ghost predicate Evicted(ring: seq<Lbr>, t: Thread, k: nat, left: seq<Lbr>, u: Thread)
    requires k <= |ring|
  {
    left == ring[k..] && Reduced(t, u, MissTotal(ring[..k]), InsTotal(ring[..k]))
  }

  /** What is left of a thread when its first `n` misses and `ins` instructions are gone. */
  ghost predicate Reduced(t: Thread, u: Thread, n: nat, ins: nat) {
    && n <= |t.typesRob| && u.typesRob == t.typesRob[n..]
    && u.insCount == t.insCount - ins
    && u.missCount == t.missCount - n && u.missBase == t.missBase + n
    && u.types == t.types
    && Uncounted(u, t, t.typesRob, n)
  }

  /** The counts of `u` are those of `t` less the first `n` types. */
  ghost predicate Uncounted(u: Thread, t: Thread, types: seq<int>, n: nat)
    requires n <= |types|
  {
    forall x :: Get(u.mCount, x) == Get(t.mCount, x) - Count(types[..n], x)
  }

  lemma DropTwice<T>(s: seq<T>, m: nat, n: nat)
    requires m + n <= |s|
    ensures s[m..][n..] == s[m + n..]
  {
  }

  lemma EvictedCounts(t: Thread, lbr: Lbr, n: nat, u: Thread, x: int)
    requires Misses(lbr) + n <= |t.typesRob|
    requires Get(u.mCount, x) == Get(Expel(t, lbr).mCount, x) - Count(t.typesRob[Misses(lbr)..][..n], x)
    ensures Get(u.mCount, x) == Get(t.mCount, x) - Count(t.typesRob[..Misses(lbr) + n], x)
  {
    var m := Misses(lbr);
    ExpelCounts(t, lbr, x);
    CountSplit(t.typesRob, m, n, x);
  }

  lemma ExpelCounts(t: Thread, lbr: Lbr, x: int)
    requires Misses(lbr) <= |t.typesRob|
    ensures Get(Expel(t, lbr).mCount, x) == Get(t.mCount, x) - Count(t.typesRob[..Misses(lbr)], x)
  {
    AddAllCounts(t.mCount, t.typesRob[..Misses(lbr)], -1, x);
  }

  lemma EvictedNext(ring: seq<Lbr>, t: Thread, k: nat, left: seq<Lbr>, u: Thread)
    requires ring != [] && k < |ring| && left == ring[1..][k..]
    requires Reduced(t, u, Misses(ring[0]) + MissTotal(ring[1..][..k]),
                     Instructions(ring[0]) + InsTotal(ring[1..][..k]))
    ensures Evicted(ring, t, k + 1, left, u)
  {
    TotalsFront(ring, k + 1);
    DropTwice(ring, 1, k);
  }

  lemma EvictedStep(ring: seq<Lbr>, t: Thread, k: nat, left: seq<Lbr>, u: Thread)
    requires ring != [] && k < |ring| && Misses(ring[0]) <= |t.typesRob|
    requires Evicted(ring[1..], Expel(t, ring[0]), k, left, u)
    ensures Evicted(ring, t, k + 1, left, u)
  {
    ReducedNext(t, ring[0], MissTotal(ring[1..][..k]), InsTotal(ring[1..][..k]), u);
    EvictedNext(ring, t, k, left, u);
  }

  lemma ReducedNext(t: Thread, lbr: Lbr, n: nat, ins: nat, u: Thread)
    requires Misses(lbr) <= |t.typesRob| && Reduced(Expel(t, lbr), u, n, ins)
    ensures Reduced(t, u, Misses(lbr) + n, Instructions(lbr) + ins)
  {
    DropTwice(t.typesRob, Misses(lbr), n);
    UncountedNext(t, lbr, n, u);
  }

  lemma UncountedNext(t: Thread, lbr: Lbr, n: nat, u: Thread)
    requires Misses(lbr) + n <= |t.typesRob| && Uncounted(u, Expel(t, lbr), t.typesRob[Misses(lbr)..], n)
    ensures Uncounted(u, t, t.typesRob, Misses(lbr) + n)
  {
    forall x ensures Get(u.mCount, x) == Get(t.mCount, x) - Count(t.typesRob[..Misses(lbr) + n], x) {
      EvictedCounts(t, lbr, n, u, x);
    }
  }

  lemma CountSplit(ks: seq<int>, m: nat, n: nat, x: int)
    requires m + n <= |ks|
    ensures Count(ks[..m + n], x) == Count(ks[..m], x) + Count(ks[m..][..n], x)
  {
    assert ks[..m + n] == ks[..m] + ks[m..][..n];
  }

  /** The eviction takes the fewest records from the front that bring the thread to 512 instructions. */
  lemma {:induction false} EvictIs(ring: seq<Lbr>, t: Thread) returns (k: nat)
    requires Evict(ring, t).Some?
    ensures k <= |ring| && Evicted(ring, t, k, Evict(ring, t).value.0, Evict(ring, t).value.1)
    ensures t.insCount - InsTotal(ring[..k]) <= 512
    ensures forall j :: 0 <= j < k ==> t.insCount - InsTotal(ring[..j]) > 512
    decreases |ring|
  {
    if t.insCount <= ROB_SIZE {
      k := 0;
      assert ring[..0] == [] && t.typesRob[..0] == [];
    } else {
      var j := EvictIs(ring[1..], Expel(t, ring[0]));
      k := j + 1;
      EvictedStep(ring, t, j, Evict(ring, t).value.0, Evict(ring, t).value.1);
      FewestNext(ring, t, j);
    }
  }

  lemma FewestNext(ring: seq<Lbr>, t: Thread, j: nat)
    requires ring != [] && j < |ring| && t.insCount > 512
    requires t.insCount - Instructions(ring[0]) - InsTotal(ring[1..][..j]) <= 512
    requires forall i :: 0 <= i < j ==> t.insCount - Instructions(ring[0]) - InsTotal(ring[1..][..i]) > 512
    ensures t.insCount - InsTotal(ring[..j + 1]) <= 512
    ensures forall i :: 0 <= i < j + 1 ==> t.insCount - InsTotal(ring[..i]) > 512
  {
    TotalsFront(ring, j + 1);
    forall i | 0 <= i < j + 1 ensures t.insCount - InsTotal(ring[..i]) > 512 {
      if i > 0 {
        TotalsFront(ring, i);
      } else {
        assert ring[..0] == [];
      }
    }
  }

  /** Some number of records from the front suffices, and their misses are all in the queue. */
  ghost predicate Affordable(ring: seq<Lbr>, t: Thread) {
    exists k :: 0 <= k <= |ring| && Suffices(ring, t, k)
  }

  predicate Suffices(ring: seq<Lbr>, t: Thread, k: nat)
    requires k <= |ring|
  {
    MissTotal(ring[..k]) <= |t.typesRob| && t.insCount - InsTotal(ring[..k]) <= 512
  }

  lemma SufficesNext(ring: seq<Lbr>, t: Thread, k: nat)
    requires 1 <= k <= |ring| && Misses(ring[0]) <= |t.typesRob|
    ensures Suffices(ring, t, k) <==> Suffices(ring[1..], Expel(t, ring[0]), k - 1)
  {
    TotalsFront(ring, k);
  }

  /** The exact condition under which no empty queue is popped. */
  lemma {:induction false} EvictIff(ring: seq<Lbr>, t: Thread)
    ensures Evict(ring, t).Some? <==> Affordable(ring, t)
    decreases |ring|
  {
    assert ring[..0] == [];
    if t.insCount <= ROB_SIZE {
      assert Suffices(ring, t, 0);
    } else if ring != [] {
      if Misses(ring[0]) <= |t.typesRob| {
        var rest, u := ring[1..], Expel(t, ring[0]);
        EvictIff(rest, u);
        if k :| 0 <= k <= |ring| && Suffices(ring, t, k) {
          SufficesNext(ring, t, k);
          assert Suffices(rest, u, k - 1);
        }
        if k :| 0 <= k <= |rest| && Suffices(rest, u, k) {
          SufficesNext(ring, t, k + 1);
        }
      } else {
        forall k | 0 <= k <= |ring| ensures !Suffices(ring, t, k) {
          if k > 0 {
            TotalsFront(ring, k);
          }
        }
      }
    }
  }

  /** The types given to `n` misses, one by one: the queued ones in order, then 0. */
  lemma AssignedAre(types: seq<int>, n: nat)
    ensures forall i :: 0 <= i < n ==> Assigned(types, n)[i] == if i < |types| then types[i] else 0
    ensures |Rest(types, n)| == if n <= |types| then |types| - n else 0
    ensures forall i :: 0 <= i < |Rest(types, n)| ==> Rest(types, n)[i] == types[n + i]
  {
  }

  /** What an insertion does, whatever the counters: the record's fields and types are added, then records evicted. */
  lemma InsertIs(ring: seq<Lbr>, t: Thread, lbr: Lbr) returns (k: nat, admitted: Thread)
    requires Insert(ring, t, lbr).Some?
    ensures admitted.insCount == t.insCount + Instructions(lbr)
    ensures admitted.missCount == t.missCount + Misses(lbr) && admitted.missBase == t.missBase
    ensures admitted.types == Rest(t.types, Misses(lbr))
    ensures admitted.typesRob == t.typesRob + Assigned(t.types, Misses(lbr))
    ensures forall x :: Get(admitted.mCount, x) == Get(t.mCount, x) + Count(Assigned(t.types, Misses(lbr)), x)
    ensures var s := Insert(ring, t, lbr).value;
            && k <= |ring| + 1 && Evicted(ring + [lbr], admitted, k, s.0, s.1)
            && admitted.insCount - InsTotal((ring + [lbr])[..k]) <= 512
            && forall j :: 0 <= j < k ==> admitted.insCount - InsTotal((ring + [lbr])[..j]) > 512
  {
    admitted := Admit(t, lbr);
    forall x ensures Get(admitted.mCount, x) == Get(t.mCount, x) + Count(Assigned(t.types, Misses(lbr)), x) {
      AddAllCounts(t.mCount, Assigned(t.types, Misses(lbr)), 1, x);
    }
    k := EvictIs(ring + [lbr], admitted);
  }

  // ---------------------------------------------------------------------------
  // Every run of one thread
  // ---------------------------------------------------------------------------

  predicate OneThread(run: seq<Event>, tid: nat) {
    forall i :: 0 <= i < |run| ==> run[i].tid == tid
  }

  function Records(run: seq<Event>): (r: seq<Lbr>) {
    if run == [] then []
    else Records(run[..|run| - 1]) + (if run[|run| - 1].Record? then [run[|run| - 1].lbr] else [])
  }

  /** The miss types queued and not yet given to a miss. */
  function Queued(run: seq<Event>): (r: seq<int>) {
    if run == [] then []
    else
      var e, q := run[|run| - 1], Queued(run[..|run| - 1]);
      if e.MissType? then q + [e.kind] else Rest(q, Misses(e.lbr))
  }

  /** The types of all misses ever seen, in order. */
  function AllTypes(run: seq<Event>): (r: seq<int>) {
    if run == [] then []
    else
      var e, before := run[|run| - 1], run[..|run| - 1];
      AllTypes(before) + (if e.Record? then Assigned(Queued(before), Misses(e.lbr)) else [])
  }

  /** The state in terms of all records, the queued types and all types assigned so far. */
  ghost predicate WindowOf(ring: seq<Lbr>, t: Thread, records: seq<Lbr>, queued: seq<int>, all: seq<int>) {
    && ring == Fitting(records)
    && Agrees(ring, t)
    && t.types == queued
    && t.missBase + t.missCount == |all| == MissTotal(records)
    && 0 <= t.missBase
    && t.typesRob == all[t.missBase..]
  }

  ghost predicate IsWindow(c: Controller, tid: nat, run: seq<Event>) {
    WindowOf(c.ring, ThreadOf(c, tid), Records(run), Queued(run), AllTypes(run))
  }

  lemma SuffixOfSuffix(all: seq<int>, more: seq<int>, from: nat, kept: nat)
    requires from <= |all| && kept <= |all[from..] + more|
    ensures var s := all[from..] + more;
            s[|s| - kept..] == (all + more)[|all + more| - kept..]
  {
  }

  lemma InsertKeeps(ring: seq<Lbr>, t: Thread, records: seq<Lbr>, queued: seq<int>, all: seq<int>, lbr: Lbr)
    requires WindowOf(ring, t, records, queued, all)
    ensures var s := Insert(ring, t, lbr);
            var n := Misses(lbr);
            && s.Some?
            && WindowOf(s.value.0, s.value.1, records + [lbr], Rest(queued, n), all + Assigned(queued, n))
  {
    AdmitAgrees(ring, t, lbr);
    EvictAgrees(ring + [lbr], Admit(t, lbr));
    FittingExtends(records, lbr);
    TotalsAppend(records, [lbr]);
    var s := Evict(ring + [lbr], Admit(t, lbr)).value.1;
    SuffixOfSuffix(all, Assigned(queued, Misses(lbr)), t.missBase, |s.typesRob|);
  }

  /** What one more record adds to the history. */
  lemma RecordHistory(run: seq<Event>, tid: nat, lbr: Lbr)
    ensures var all := run + [Record(tid, lbr)];
            && Records(all) == Records(run) + [lbr]
            && Queued(all) == Rest(Queued(run), Misses(lbr))
            && AllTypes(all) == AllTypes(run) + Assigned(Queued(run), Misses(lbr))
  {
    var all := run + [Record(tid, lbr)];
    assert all[..|all| - 1] == run;
  }

  /** A step that records leaves the ring and the thread that the insertion gives. */
  lemma RecordInserts(c: Controller, tid: nat, lbr: Lbr, ring: seq<Lbr>, t: Thread)
    requires Insert(c.ring, ThreadOf(c, tid), lbr) == Some((ring, t))
    ensures Step(c, Record(tid, lbr)) == Some(Controller(ring, c.threads[tid := t]))
  {
  }

  lemma MakesWindow(c: Controller, tid: nat, run: seq<Event>,
                    ring: seq<Lbr>, t: Thread, records: seq<Lbr>, queued: seq<int>, all: seq<int>)
    requires c.ring == ring && ThreadOf(c, tid) == t
    requires Records(run) == records && Queued(run) == queued && AllTypes(run) == all
    requires WindowOf(ring, t, records, queued, all)
    ensures IsWindow(c, tid, run)
  {
  }

  lemma InsertWindow(ring: seq<Lbr>, t: Thread, records: seq<Lbr>, queued: seq<int>, all: seq<int>, lbr: Lbr)
    returns (left: seq<Lbr>, u: Thread)
    requires WindowOf(ring, t, records, queued, all)
    ensures Insert(ring, t, lbr) == Some((left, u))
    ensures WindowOf(left, u, records + [lbr], Rest(queued, Misses(lbr)), all + Assigned(queued, Misses(lbr)))
  {
    InsertKeeps(ring, t, records, queued, all, lbr);
    var s := Insert(ring, t, lbr).value;
    left, u := s.0, s.1;
  }

  lemma RecordStep(c: Controller, tid: nat, run: seq<Event>, lbr: Lbr) returns (d: Controller)
    requires IsWindow(c, tid, run)
    ensures Step(c, Record(tid, lbr)) == Some(d)
    ensures IsWindow(d, tid, run + [Record(tid, lbr)])
  {
    var ring, t := InsertWindow(c.ring, ThreadOf(c, tid), Records(run), Queued(run), AllTypes(run), lbr);
    RecordInserts(c, tid, lbr, ring, t);
    d := Controller(ring, c.threads[tid := t]);
    RecordHistory(run, tid, lbr);
    MakesWindow(d, tid, run + [Record(tid, lbr)], ring, t, Records(run) + [lbr],
                Rest(Queued(run), Misses(lbr)), AllTypes(run) + Assigned(Queued(run), Misses(lbr)));
  }

  lemma MissTypeHistory(run: seq<Event>, tid: nat, kind: int)
    ensures var all := run + [MissType(tid, kind)];
            && Records(all) == Records(run)
            && Queued(all) == Queued(run) + [kind]
            && AllTypes(all) == AllTypes(run)
  {
    var all := run + [MissType(tid, kind)];
    assert all[..|all| - 1] == run;
  }

  lemma QueueKeeps(ring: seq<Lbr>, t: Thread, records: seq<Lbr>, queued: seq<int>, all: seq<int>, kind: int)
    requires WindowOf(ring, t, records, queued, all)
    ensures WindowOf(ring, t.(types := t.types + [kind]), records, queued + [kind], all)
  {
  }

  lemma MissTypeStep(c: Controller, tid: nat, run: seq<Event>, kind: int) returns (d: Controller)
    requires IsWindow(c, tid, run)
    ensures Step(c, MissType(tid, kind)) == Some(d)
    ensures IsWindow(d, tid, run + [MissType(tid, kind)])
  {
    var t := ThreadOf(c, tid);
    var u := t.(types := t.types + [kind]);
    d := c.(threads := c.threads[tid := u]);
    QueueKeeps(c.ring, t, Records(run), Queued(run), AllTypes(run), kind);
    MissTypeHistory(run, tid, kind);
    MakesWindow(d, tid, run + [MissType(tid, kind)], c.ring, u, Records(run), Queued(run) + [kind], AllTypes(run));
  }

  lemma EmptyWindow(run: seq<Event>, tid: nat)
    requires run == []
    ensures Exec(run).Some? && IsWindow(Exec(run).value, tid, run)
  {
  }

  lemma EventStep(c: Controller, tid: nat, run: seq<Event>, e: Event) returns (d: Controller)
    requires IsWindow(c, tid, run) && e.tid == tid
    ensures Step(c, e) == Some(d) && IsWindow(d, tid, run + [e])
  {
    match e
    case Record(_, lbr) => d := RecordStep(c, tid, run, lbr);
    case MissType(_, kind) => d := MissTypeStep(c, tid, run, kind);
  }

  lemma ExecSnoc(run: seq<Event>, e: Event)
    ensures Exec(run + [e]) == if Exec(run).None? then None else Step(Exec(run).value, e)
  {
    assert (run + [e])[..|run + [e]| - 1] == run;
  }

  /**
   * After every run of one thread no empty queue was popped, the ring is the longest
   * suffix of all records with at most 512 instructions, each counter is the sum over
   * that suffix, and evicted plus present misses are all misses ever seen.
   */
  lemma {:induction false} OneThreadWindow(run: seq<Event>, tid: nat)
    requires OneThread(run, tid)
    ensures Exec(run).Some? && IsWindow(Exec(run).value, tid, run)
  {
    var c := WindowAfter(run, tid);
  }

  lemma {:induction false} WindowAfter(run: seq<Event>, tid: nat) returns (c: Controller)
    requires OneThread(run, tid)
    ensures Exec(run) == Some(c) && IsWindow(c, tid, run)
  {
    if run == [] {
      EmptyWindow(run, tid);
      c := Controller([], map[]);
    } else {
      var before, e := run[..|run| - 1], run[|run| - 1];
      assert run == before + [e];
      c := WindowAfter(before, tid);
      ExecSnoc(before, e);
      c := EventStep(c, tid, before, e);
    }
  }

  // ---------------------------------------------------------------------------
  // Which type a miss gets
  // ---------------------------------------------------------------------------

  /** All miss types pushed, in order. */
  function Pushed(run: seq<Event>): (r: seq<int>) {
    if run == [] then []
    else if run[|run| - 1].MissType? then Pushed(run[..|run| - 1]) + [run[|run| - 1].kind]
    else Pushed(run[..|run| - 1])
  }

  /** How many misses the records seen so far hold. */
  function MissesIn(run: seq<Event>): (r: nat) {
    if run == [] then 0
    else
      var e := run[|run| - 1];
      MissesIn(run[..|run| - 1]) + if e.Record? then Misses(e.lbr) else 0
  }

  /** How many of the types pushed no miss has been given yet. */
  function Ungiven(run: seq<Event>): (r: nat) {
    if run == [] then 0
    else
      var u, e := Ungiven(run[..|run| - 1]), run[|run| - 1];
      if e.MissType? then u + 1 else if Misses(e.lbr) <= u then u - Misses(e.lbr) else 0
  }

  /** The last `u` of some types. */
  predicate LastOf(queued: seq<int>, pushed: seq<int>, u: nat) {
    u <= |pushed| && queued == pushed[|pushed| - u..]
  }

  lemma LastPushed(queued: seq<int>, pushed: seq<int>, u: nat, kind: int)
    requires LastOf(queued, pushed, u)
    ensures LastOf(queued + [kind], pushed + [kind], u + 1)
  {
  }

  lemma LastRest(queued: seq<int>, pushed: seq<int>, u: nat, n: nat)
    requires LastOf(queued, pushed, u)
    ensures LastOf(Rest(queued, n), pushed, if n <= u then u - n else 0)
  {
  }

  /** The queue holds the last types pushed. */
  lemma {:induction false} QueuedAre(run: seq<Event>)
    ensures LastOf(Queued(run), Pushed(run), Ungiven(run))
  {
    if run != [] {
      var before, e := run[..|run| - 1], run[|run| - 1];
      QueuedAre(before);
      if e.MissType? {
        LastPushed(Queued(before), Pushed(before), Ungiven(before), e.kind);
      } else {
        LastRest(Queued(before), Pushed(before), Ungiven(before), Misses(e.lbr));
      }
    }
  }

  /** Miss `i` of a record that comes after `before`, among all types given. */
  ghost predicate Given(before: seq<Event>, i: nat, all: seq<int>) {
    TypeIs(all, MissesIn(before) + i, Pushed(before), Ungiven(before), i)
  }

  /** The type at a place is the `i`-th of the last `u` pushed, and 0 where there are fewer. */
  predicate TypeIs(all: seq<int>, at: nat, pushed: seq<int>, u: nat, i: nat) {
    && at < |all| && u <= |pushed|
    && all[at] == if i < u then pushed[|pushed| - u + i] else 0
  }

  lemma GivenLonger(before: seq<Event>, i: nat, all: seq<int>, more: seq<int>)
    requires Given(before, i, all) && all <= more
    ensures Given(before, i, more)
  {
  }

  lemma AllTypesGrow(run: seq<Event>)
    requires run != []
    ensures AllTypes(run[..|run| - 1]) <= AllTypes(run)
  {
  }

  lemma {:induction false} AllTypesLength(run: seq<Event>)
    ensures |AllTypes(run)| == MissesIn(run)
  {
    if run != [] {
      AllTypesLength(run[..|run| - 1]);
    }
  }

  /**
   * In every run the misses are given, in order, the types pushed and not yet given, and 0
   * where none was left.
   */
  lemma {:induction false} TypesInOrder(run: seq<Event>, k: nat, i: nat)
    requires k < |run| && run[k].Record? && i < Misses(run[k].lbr)
    ensures Given(run[..k], i, AllTypes(run))
  {
    var before := run[..|run| - 1];
    if k == |run| - 1 {
      GivenLast(run, i);
    } else {
      assert before[..k] == run[..k] && before[k] == run[k];
      TypesInOrder(before, k, i);
      AllTypesGrow(run);
      GivenLonger(run[..k], i, AllTypes(before), AllTypes(run));
    }
  }

  lemma GivenLast(run: seq<Event>, i: nat)
    requires run != [] && run[|run| - 1].Record? && i < Misses(run[|run| - 1].lbr)
    ensures Given(run[..|run| - 1], i, AllTypes(run))
  {
    GivenAfter(run[..|run| - 1], Misses(run[|run| - 1].lbr), i);
  }

  lemma GivenAfter(before: seq<Event>, n: nat, i: nat)
    requires i < n
    ensures Given(before, i, AllTypes(before) + Assigned(Queued(before), n))
  {
    AllTypesLength(before);
    QueuedAre(before);
    GivenFrom(before, AllTypes(before), Queued(before), n, i);
  }

  lemma GivenFrom(before: seq<Event>, given: seq<int>, queued: seq<int>, n: nat, i: nat)
    requires i < n && |given| == MissesIn(before) && LastOf(queued, Pushed(before), Ungiven(before))
    ensures Given(before, i, given + Assigned(queued, n))
  {
    TypeAt(given, Pushed(before), Ungiven(before), queued, n, i);
  }

  lemma TypeAt(before: seq<int>, pushed: seq<int>, u: nat, queued: seq<int>, n: nat, i: nat)
    requires LastOf(queued, pushed, u) && i < n
    ensures TypeIs(before + Assigned(queued, n), |before| + i, pushed, u, i)
  {
    AssignedAre(queued, n);
    PlaceAfter(before, Assigned(queued, n), i);
  }

  lemma PlaceAfter(before: seq<int>, more: seq<int>, i: nat)
    requires i < |more|
    ensures (before + more)[|before| + i] == more[i]
  {
  }

  // ---------------------------------------------------------------------------
  // Several threads share the ring
  // ---------------------------------------------------------------------------

  predicate Among(run: seq<Event>, tids: set<nat>) {
    forall i :: 0 <= i < |run| ==> run[i].tid in tids
  }

  ghost predicate NeverPopsEmpty(tids: set<nat>) {
    forall run :: Among(run, tids) ==> Exec(run).Some?
  }

  /** An event changes its own thread only; a miss type is queued and leaves the ring alone; a record is inserted. */
  lemma StepTouches(c: Controller, e: Event, other: nat)
    ensures Step(c, e).None? <==> e.Record? && Insert(c.ring, ThreadOf(c, e.tid), e.lbr).None?
    ensures Step(c, e).Some? ==>
              var r, t := Step(c, e).value, ThreadOf(c, e.tid);
              && (other != e.tid ==> ThreadOf(r, other) == ThreadOf(c, other))
              && (e.MissType? ==> r.ring == c.ring && ThreadOf(r, e.tid) == t.(types := t.types + [e.kind]))
              && (e.Record? ==> Some((r.ring, ThreadOf(r, e.tid))) == Insert(c.ring, t, e.lbr))
  {
  }

  lemma ExecTwo(d: Event, e: Event)
    ensures Exec([d, e]) == var before := Step(Controller([], map[]), d);
                            if before.None? then None else Step(before.value, e)
  {
    assert [d, e][..1] == [d] && [d][..0] == [];
    assert Exec([d]) == Step(Controller([], map[]), d);
  }

  /** A long record of one thread evicts another's, whose misses its own queue does not hold. */
  lemma TwoThreadsPopEmpty(a: nat, b: nat, first: Lbr, second: Lbr)
    requires a != b
    requires Instructions(first) <= ROB_SIZE < Instructions(second)
    requires Misses(second) < Misses(first)
    ensures Exec([Record(a, first), Record(b, second)]).None?
  {
    ExecTwo(Record(a, first), Record(b, second));
    var c := Controller([], map[]);
    assert [] + [first] == [first];
    assert Step(c, Record(a, first)) == Some(Controller([first], map[a := Admit(NEW_THREAD, first)]));
    assert ([first] + [second])[0] == first;
    assert Insert([first], NEW_THREAD, second).None?;
  }

  /** No run of the given threads pops an empty queue exactly if there is at most one thread. */
  lemma SafeIffOneThread(tids: set<nat>)
    ensures NeverPopsEmpty(tids) <==> |tids| <= 1
  {
    if |tids| <= 1 {
      forall run: seq<Event> | Among(run, tids) ensures Exec(run).Some? {
        var tid := if run == [] then 0 else run[0].tid;
        assert OneThread(run, tid) by {
          if run != [] {
            SubsetSize({tid}, tids);
            forall i | 0 <= i < |run| ensures run[i].tid == tid {
              SubsetSize({tid, run[i].tid}, tids);
            }
          }
        }
        OneThreadWindow(run, tid);
      }
    } else {
      var a :| a in tids;
      assert |tids - {a}| >= 1;
      var b :| b in tids - {a};
      var first, second := Lbr(0, 0, 1), Lbr(0, 0, 513 * 0x1_0000);
      TwoThreadsPopEmpty(a, b, first, second);
      assert Among([Record(a, first), Record(b, second)], tids);
    }
  }

  // ---------------------------------------------------------------------------
  // The insertion, in place
  // ---------------------------------------------------------------------------

  lemma AssignedNext(types: seq<int>, n: nat)
    ensures var x := if Rest(types, n) == [] then 0 else Rest(types, n)[0];
            && Assigned(types, n + 1) == Assigned(types, n) + [x]
            && Rest(types, n + 1) == if Rest(types, n) == [] then [] else Rest(types, n)[1..]
  {
  }

  lemma AddAllNext(m: map<int, int>, ks: seq<int>, k: int, d: int)
    ensures var before := AddAll(m, ks, d);
            AddAll(m, ks + [k], d) == before[k := Get(before, k) + d]
  {
    assert (ks + [k])[..|ks|] == ks;
  }

  lemma InsertAgrees(ring: seq<Lbr>, t: Thread, lbr: Lbr)
    ensures Agrees(ring, t) ==>
              var s := Insert(ring, t, lbr);
              s.Some? && Agrees(s.value.0, s.value.1) && s.value.0 == Fitting(ring + [lbr])
  {
    if Agrees(ring, t) {
      AdmitAgrees(ring, t, lbr);
      EvictAgrees(ring + [lbr], Admit(t, lbr));
    }
  }

  /** The controller's ring beside the counters of one of the threads that feed it. */
  class RobCounters {
    var ring: seq<Lbr>
    var types: seq<int>
    var typesRob: seq<int>
    var mCount: map<int, int>
    var missBase: int
    var missCount: int
    var insCount: int

    constructor ()
      ensures ring == [] && Counters() == NEW_THREAD
    {
      ring, types, typesRob, mCount := [], [], [], map[];
      missBase, missCount, insCount := 0, 0, 0;
    }

    function Counters(): (t: Thread)
      reads this
    {
      Thread(types, typesRob, mCount, missBase, missCount, insCount)
    }

    /** What a simulated access leaves for the next misses; the counters are not touched. */
    method PushType(kind: int)
      modifies `types
      ensures Counters() == old(Counters()).(types := old(types) + [kind])
      ensures Agrees(ring, old(Counters())) ==> Agrees(ring, Counters())
    {
      types := types + [kind];
    }

    method TakeType() returns (front: int)
      modifies `types
      ensures front == if old(types) == [] then 0 else old(types)[0]
      ensures types == if old(types) == [] then [] else old(types)[1..]
    {
      if types == [] {
        types := types + [0];
      }
      front := types[0];
      types := types[1..];
    }

    method AdmitTypes(n: nat)
      modifies `types, `typesRob, `mCount
      ensures types == Rest(old(types), n)
      ensures typesRob == old(typesRob) + Assigned(old(types), n)
      ensures mCount == AddAll(old(mCount), Assigned(old(types), n), 1)
    {
      for i := 0 to n
        invariant types == Rest(old(types), i)
        invariant typesRob == old(typesRob) + Assigned(old(types), i)
        invariant mCount == AddAll(old(mCount), Assigned(old(types), i), 1)
      {
        AssignedNext(old(types), i);
        var front := TakeType();
        AddAllNext(old(mCount), Assigned(old(types), i), front, 1);
        assert typesRob + [front] == old(typesRob) + (Assigned(old(types), i) + [front]);
        mCount := mCount[front := Get(mCount, front) + 1];
        typesRob := typesRob + [front];
      }
    }

    method ExpelTypes(n: nat)
      requires n <= |typesRob|
      modifies `typesRob, `mCount
      ensures typesRob == old(typesRob)[n..]
      ensures mCount == AddAll(old(mCount), old(typesRob)[..n], -1)
    {
      for i := 0 to n
        invariant typesRob == old(typesRob)[i..]
        invariant mCount == AddAll(old(mCount), old(typesRob)[..i], -1)
      {
        var front := typesRob[0];
        AddAllNext(old(mCount), old(typesRob)[..i], front, -1);
        assert old(typesRob)[..i + 1] == old(typesRob)[..i] + [front];
        mCount := mCount[front := Get(mCount, front) - 1];
        typesRob := typesRob[1..];
      }
    }

    /**
     * Performs the insertion wherever it pops no empty queue; counters that are the sums
     * over the ring stay so, and the ring is then the longest suffix that fits.
     */
    method InsertOne(lbr: Lbr)
      requires Insert(ring, Counters(), lbr).Some?
      modifies this
      ensures Insert(old(ring), old(Counters()), lbr) == Some((ring, Counters()))
      ensures Agrees(old(ring), old(Counters())) ==> Agrees(ring, Counters()) && ring == Fitting(old(ring) + [lbr])
    {
      ghost var goal := Insert(ring, Counters(), lbr);
      ring := ring + [lbr];
      AdmitRecord(lbr);
      while insCount > ROB_SIZE
        invariant Evict(ring, Counters()) == goal
        decreases |ring|
      {
        ExpelOldest();
      }
      InsertAgrees(old(ring), old(Counters()), lbr);
    }

    method AdmitRecord(lbr: Lbr)
      modifies `types, `typesRob, `mCount, `missCount, `insCount
      ensures Counters() == Admit(old(Counters()), lbr)
    {
      AdmitTypes(Misses(lbr));
      missCount := missCount + Misses(lbr);
      insCount := insCount + Instructions(lbr);
    }

    method ExpelOldest()
      requires insCount > ROB_SIZE && Evict(ring, Counters()).Some?
      modifies this
      ensures old(ring) != [] && ring == old(ring)[1..]
      ensures Misses(old(ring)[0]) <= |old(typesRob)| && Counters() == Expel(old(Counters()), old(ring)[0])
    {
      var oldest := ring[0];
      insCount := insCount - Instructions(oldest);
      missCount := missCount - Misses(oldest);
      missBase := missBase + Misses(oldest);
      ExpelTypes(Misses(oldest));
      ring := ring[1..];
    }
  }
}
