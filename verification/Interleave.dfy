/**
 * The interleaving allocation policy: once local memory is 90% full, expanders are
 * chosen round robin over a cycle in which each has a share by its write latency.
 *
 * The results: while none is full, any consecutive choices over one cycle take each
 * expander exactly as often as its weight; with full ones the retry ends exactly if
 * some expander of positive weight has room; however the shares are rounded, a cycle
 * has at most ten positions and eleven or more equal expanders are never chosen.
 */
module InterleavePolicy {
  import opened Arithmetic
  import opened Rounding

  // ---------------------------------------------------------------------------
  // The cycle
  // ---------------------------------------------------------------------------

  function Total(weights: seq<nat>): (r: nat) {
    if weights == [] then 0 else weights[0] + Total(weights[1..])
  }

  /** The expander at a position of the cycle: the first whose prefix sum exceeds it. */
  function Pick(weights: seq<nat>, position: nat): (i: nat)
    requires position < Total(weights)
    ensures i < |weights| && weights[i] > 0
  {
    if position < weights[0] then 0 else 1 + Pick(weights[1..], position - weights[0])
  }

  function Repeat(i: nat, n: nat): (r: seq<nat>) {
    seq(n, _ => i)
  }

  /** The cycle written out: each expander, from number `first`, as often as its weight. */
  function Cycle(weights: seq<nat>, first: nat): (r: seq<nat>)
    ensures |r| == Total(weights)
  {
    if weights == [] then [] else Repeat(first, weights[0]) + Cycle(weights[1..], first + 1)
  }

  lemma {:induction false} PickIsCycle(weights: seq<nat>, first: nat, position: nat)
    requires position < Total(weights)
    ensures Cycle(weights, first)[position] == first + Pick(weights, position)
  {
    if position >= weights[0] {
      PickIsCycle(weights[1..], first + 1, position - weights[0]);
    }
  }

  lemma {:induction false} RepeatCount(i: nat, n: nat, k: nat)
    ensures multiset(Repeat(i, n))[k] == if k == i then n else 0
  {
    if n > 0 {
      RepeatCount(i, n - 1, k);
      assert Repeat(i, n) == Repeat(i, n - 1) + [i];
    } else {
      assert Repeat(i, n) == [];
    }
  }

  lemma {:induction false} CycleCount(weights: seq<nat>, first: nat, k: nat)
    ensures multiset(Cycle(weights, first))[k]
            == if first <= k < first + |weights| then weights[k - first] else 0
  {
    if weights != [] {
      var rest := weights[1..];
      RepeatCount(first, weights[0], k);
      CycleCount(rest, first + 1, k);
      AppendCount(Repeat(first, weights[0]), Cycle(rest, first + 1), k);
      assert first < k < first + |weights| ==> rest[k - first - 1] == weights[k - first];
    }
  }

  lemma AppendCount(a: seq<nat>, b: seq<nat>, k: nat)
    ensures multiset(a + b)[k] == multiset(a)[k] + multiset(b)[k]
  {
  }

  lemma SliceHead(s: seq<nat>, i: nat, j: nat)
    requires i < j <= |s|
    ensures s[i..j] == [s[i]] + s[i + 1..j]
  {
  }

  // ---------------------------------------------------------------------------
  // Choices while none is full
  // ---------------------------------------------------------------------------

  function Next(weights: seq<nat>, last: nat): (r: nat)
    requires Total(weights) > 0
    ensures r < Total(weights)
  {
    (last + 1) % Total(weights)
  }

  /** The results of `n` consecutive calls after position `last`. */
  function Choices(weights: seq<nat>, last: nat, n: nat): (r: seq<nat>)
    requires Total(weights) > 0
    ensures |r| == n
    decreases n
  {
    if n == 0 then []
    else [Pick(weights, Next(weights, last))] + Choices(weights, Next(weights, last), n - 1)
  }

  predicate Lists(cycle: seq<nat>, weights: seq<nat>) {
    && |cycle| == Total(weights)
    && forall p: nat :: p < Total(weights) ==> cycle[p] == Pick(weights, p)
  }

  lemma {:induction false} ChoicesUpTo(weights: seq<nat>, cycle: seq<nat>, last: nat, n: nat)
    requires Lists(cycle, weights) && last + n < |cycle|
    ensures Choices(weights, last, n) == cycle[last + 1..last + 1 + n]
    decreases n
  {
    if n > 0 {
      Wrapped(last + 1, |cycle|);
      ChoicesUpTo(weights, cycle, last + 1, n - 1);
      SliceHead(cycle, last + 1, last + 1 + n);
    }
  }

  lemma Wrapped(x: nat, n: nat)
    requires x <= n && n > 0
    ensures x % n == if x == n then 0 else x
  {
  }

  lemma {:induction false} ChoicesConcat(weights: seq<nat>, last: nat, m: nat, n: nat)
    requires last + m < Total(weights)
    ensures Choices(weights, last, m + n) == Choices(weights, last, m) + Choices(weights, last + m, n)
    decreases m
  {
    if m > 0 {
      Wrapped(last + 1, Total(weights));
      ChoicesConcat(weights, last + 1, m - 1, n);
    }
  }

  lemma ChoicesFirst(weights: seq<nat>, last: nat, next: nat, n: nat)
    requires Total(weights) > 0 && next == Next(weights, last)
    ensures Choices(weights, last, n + 1) == [Pick(weights, next)] + Choices(weights, next, n)
  {
  }

  lemma FromTheEnd(weights: seq<nat>, cycle: seq<nat>, last: nat)
    requires Lists(cycle, weights) && last < |cycle|
    ensures Choices(weights, |cycle| - 1, last + 1) == cycle[..last + 1]
  {
    Wrapped(|cycle|, |cycle|);
    ChoicesFirst(weights, |cycle| - 1, 0, last);
    ChoicesUpTo(weights, cycle, 0, last);
    SliceHead(cycle, 0, last + 1);
    assert cycle[0..last + 1] == cycle[..last + 1];
  }

  /** One round of choices is the cycle, turned. */
  lemma OneRound(weights: seq<nat>, last: nat)
    requires last < Total(weights)
    ensures Choices(weights, last, Total(weights))
            == Cycle(weights, 0)[last + 1..] + Cycle(weights, 0)[..last + 1]
  {
    var cycle := Cycle(weights, 0);
    forall p: nat | p < Total(weights) ensures cycle[p] == Pick(weights, p) {
      PickIsCycle(weights, 0, p);
    }
    var rest := |cycle| - 1 - last;
    ChoicesConcat(weights, last, rest, last + 1);
    ChoicesUpTo(weights, cycle, last, rest);
    FromTheEnd(weights, cycle, last);
  }

  /** Any round of consecutive choices takes each expander exactly as often as its weight. */
  lemma FairRound(weights: seq<nat>, last: nat, k: nat)
    requires last < Total(weights)
    ensures multiset(Choices(weights, last, Total(weights)))[k] == if k < |weights| then weights[k] else 0
  {
    var cycle := Cycle(weights, 0);
    OneRound(weights, last);
    Turned(cycle, last + 1);
    CycleCount(weights, 0, k);
  }

  lemma Turned(s: seq<nat>, n: nat)
    requires n <= |s|
    ensures multiset(s[n..] + s[..n]) == multiset(s)
  {
    assert s == s[..n] + s[n..];
  }

  // ---------------------------------------------------------------------------
  // Full expanders
  // ---------------------------------------------------------------------------

  /** The expander tried at the `k`th attempt of a call. */
  function Attempt(weights: seq<nat>, last: nat, k: nat): (i: nat)
    requires Total(weights) > 0
    ensures i < |weights|
  {
    Pick(weights, (last + k) % Total(weights))
  }

  ghost predicate SomeRoom(weights: seq<nat>, room: seq<bool>)
    requires |room| == |weights|
  {
    exists i :: 0 <= i < |weights| && weights[i] > 0 && room[i]
  }

  lemma {:induction false} PositionOf(weights: seq<nat>, i: nat) returns (position: nat)
    requires i < |weights| && weights[i] > 0
    ensures position < Total(weights) && Pick(weights, position) == i
  {
    if i == 0 {
      position := 0;
    } else {
      var p := PositionOf(weights[1..], i - 1);
      position := weights[0] + p;
    }
  }

  lemma Distance(last: nat, position: nat, size: nat) returns (k: nat)
    requires last < size && position < size
    ensures 1 <= k <= size && (last + k) % size == position
  {
    k := if position > last then position - last else position - last + size;
    DivMod(if position > last then 0 else 1, size, position);
  }

  /** Some attempt among the first `Total(weights)` succeeds if any expander of positive weight has room. */
  lemma AttemptSucceeds(weights: seq<nat>, room: seq<bool>, last: nat) returns (k: nat)
    requires |room| == |weights| && SomeRoom(weights, room) && last < Total(weights)
    ensures 1 <= k <= Total(weights) && room[Attempt(weights, last, k)]
  {
    var i :| 0 <= i < |weights| && weights[i] > 0 && room[i];
    var position := PositionOf(weights, i);
    var size := Total(weights);
    k := Distance(last, position, size);
  }

  /** The retry ends, within one cycle, exactly if some expander of positive weight has room. */
  lemma RetryEndsIff(weights: seq<nat>, room: seq<bool>, last: nat)
    requires |room| == |weights| && last < Total(weights)
    ensures (exists k: nat :: room[Attempt(weights, last, k)]) <==> SomeRoom(weights, room)
    ensures SomeRoom(weights, room) ==> exists k :: 1 <= k <= Total(weights) && room[Attempt(weights, last, k)]
  {
    if k: nat :| room[Attempt(weights, last, k)] {
      var i := Attempt(weights, last, k);
      assert weights[i] > 0 && room[i];
    }
    if SomeRoom(weights, room) {
      var k := AttemptSucceeds(weights, room, last);
      assert room[Attempt(weights, last, k)];
    }
  }

  /** The scan of the prefix sums. */
  method PickIndex(weights: seq<nat>, position: nat) returns (index: nat)
    requires position < Total(weights)
    ensures index == Pick(weights, position)
  {
    var sum := 0;
    index := 0;
    while true
      invariant index <= |weights| && sum <= position
      invariant position - sum < Total(weights[index..])
      invariant Pick(weights, position) == index + Pick(weights[index..], position - sum)
      decreases |weights| - index
    {
      assert weights[index..] != [] && weights[index..][1..] == weights[index + 1..];
      sum := sum + weights[index];
      if sum > position {
        return;
      }
      index := index + 1;
    }
  }

  /** What a call finds: the first attempt after position `last` whose expander has room. */
  ghost predicate FirstWithRoom(weights: seq<nat>, room: seq<bool>, last: nat, position: nat, index: int)
    requires |room| == |weights| && Total(weights) > 0
  {
    exists k ::
      && 1 <= k <= Total(weights)
      && position == (last + k) % Total(weights)
      && index == Attempt(weights, last, k) && room[index]
      && NoRoomBefore(weights, room, last, k)
  }

  predicate NoRoomBefore(weights: seq<nat>, room: seq<bool>, last: nat, k: nat)
    requires |room| == |weights| && Total(weights) > 0
  {
    forall j :: 1 <= j < k ==> !room[Attempt(weights, last, j)]
  }

  lemma FoundFirst(weights: seq<nat>, room: seq<bool>, last: nat, k: nat, position: nat)
    requires |room| == |weights| && 1 <= k <= Total(weights) && NoRoomBefore(weights, room, last, k)
    requires position == (last + k) % Total(weights) && room[Pick(weights, position)]
    ensures FirstWithRoom(weights, room, last, position, Pick(weights, position))
  {
    assert Pick(weights, position) == Attempt(weights, last, k);
  }

  lemma PassedFull(weights: seq<nat>, room: seq<bool>, last: nat, k: nat, position: nat, found: nat)
    requires |room| == |weights| && 0 < Total(weights) && NoRoomBefore(weights, room, last, k)
    requires position == (last + k) % Total(weights) && !room[Pick(weights, position)]
    requires room[Attempt(weights, last, found)]
    ensures NoRoomBefore(weights, room, last, k + 1) && k != found
  {
    assert !room[Attempt(weights, last, k)];
  }

  method NextWithRoom(weights: seq<nat>, size: nat, room: seq<bool>, last: nat) returns (position: nat, index: nat)
    requires |room| == |weights| && size == Total(weights) && last < size && SomeRoom(weights, room)
    ensures position < size && FirstWithRoom(weights, room, last, position, index)
  {
    ghost var found := AttemptSucceeds(weights, room, last);
    ghost var k := 0;
    position := last;
    Wrapped(last, size);
    while true
      invariant k < found <= size && position < size && position == (last + k) % size
      invariant NoRoomBefore(weights, room, last, k + 1)
      decreases found - k
    {
      NextPosition(last, k, size);
      position := (position + 1) % size;
      k := k + 1;
      index := PickIndex(weights, position);
      if room[index] {
        FoundFirst(weights, room, last, k, position);
        return;
      }
      PassedFull(weights, room, last, k, position, found);
    }
  }

  /** While every expander has room, a call takes the next position of the cycle. */
  lemma AllRoomIsNext(weights: seq<nat>, room: seq<bool>, last: nat, position: nat, index: int)
    requires |room| == |weights| && Total(weights) > 0 && forall i :: 0 <= i < |room| ==> room[i]
    requires FirstWithRoom(weights, room, last, position, index)
    ensures position == (last + 1) % Total(weights) && index == Pick(weights, position)
    ensures [index as nat] == Choices(weights, last, 1)
  {
    var k :| && 1 <= k <= Total(weights)
             && position == (last + k) % Total(weights)
             && index == Attempt(weights, last, k) && room[index]
             && NoRoomBefore(weights, room, last, k);
    assert room[Attempt(weights, last, 1)];
    assert k == 1;
  }

  /** One call beyond local memory: `room` says which expanders are below their capacity. */
  class Policy {
    var weights: seq<nat>
    var allSize: nat
    var lastRemote: nat

    ghost predicate Valid()
      reads this
    {
      allSize == Total(weights) && (allSize > 0 ==> lastRemote < allSize)
    }

    constructor (weights: seq<nat>)
      ensures Valid() && this.weights == weights && lastRemote == 0
    {
      this.weights, allSize, lastRemote := weights, Total(weights), 0;
    }

    /** The first attempt that finds room decides; -1 stands for local memory. */
    method ComputeOnce(localRoom: bool, room: seq<bool>) returns (index: int)
      requires Valid() && |room| == |weights|
      requires localRoom || allSize == 0 || SomeRoom(weights, room)
      modifies `lastRemote
      ensures Valid()
      ensures localRoom || allSize == 0 ==> index == -1 && lastRemote == old(lastRemote)
      ensures !localRoom && allSize > 0 ==> FirstWithRoom(weights, room, old(lastRemote), lastRemote, index)
    {
      if localRoom || allSize == 0 {
        return -1;
      }
      lastRemote, index := NextWithRoom(weights, allSize, room, lastRemote);
    }
  }

  lemma NextPosition(last: nat, k: nat, n: nat)
    requires n > 0
    ensures ((last + k) % n + 1) % n == (last + k + 1) % n
  {
    var q, r := (last + k) / n, (last + k) % n;
    assert last + k + 1 == q * n + (r + 1);
    if r + 1 < n {
      DivMod(q, n, r + 1);
      Wrapped(r + 1, n);
    } else {
      assert last + k + 1 == (q + 1) * n + 0;
      DivMod(q + 1, n, 0);
      Wrapped(n, n);
    }
  }

  // ---------------------------------------------------------------------------
  // The weights
  // ---------------------------------------------------------------------------

  /** What is computed from the speeds, the reciprocals of the latencies: running sums, quotients, shares of ten. */
  datatype Computed = Computed(sums: seq<real>, quotients: seq<real>, shares: seq<real>)

  /** Every operation rounds, in whatever direction. */
  predicate Rounded(c: Computed, speeds: seq<real>, u: real) {
    && SumsRounded(c.sums, speeds, u)
    && |c.quotients| == |c.shares| == |speeds|
    && c.sums[|speeds|] > 0.0
    && (forall i :: 0 <= i < |speeds| ==> Near(c.quotients[i], speeds[i] / c.sums[|speeds|], u))
    && (forall i :: 0 <= i < |speeds| ==> Near(c.shares[i], c.quotients[i] * 10.0, u))
  }

  /** The error is small for the number of expanders: in double precision, for fewer than 10^13 of them. */
  predicate Precise(n: nat, u: real) {
    0.0 <= u && Error(n, u) <= 0.01
  }

  /** The weight is the share rounded down. */
  function WeightsOf(shares: seq<real>): (r: seq<nat>)
    requires forall i :: 0 <= i < |shares| ==> shares[i] >= 0.0
    ensures |r| == |shares|
    ensures forall i :: 0 <= i < |r| ==> r[i] == shares[i].Floor
  {
    if shares == [] then []
    else WeightsOf(shares[..|shares| - 1]) + [shares[|shares| - 1].Floor]
  }

  predicate ShareNear(share: real, speed: real, exact: real) {
    0.0 <= share && NotAbove(share, speed, exact) && NotBelow(share, speed, exact)
  }

  lemma SharesAreNear(c: Computed, speeds: seq<real>, u: real, i: nat)
    requires Positive(speeds) && Rounded(c, speeds, u) && Precise(|speeds|, u) && i < |speeds|
    ensures ShareNear(c.shares[i], speeds[i], SumOf(speeds))
  {
    var n := |speeds|;
    SumBounds(c.sums, speeds, u);
    SumPositive(speeds);
    assert Error(n, u) == Error(n - 1, u) + u;
    RoundedShare(speeds[i], c.sums[n], SumOf(speeds), c.quotients[i], c.shares[i], Error(n, u), u);
  }

  predicate AllNear(shares: seq<real>, speeds: seq<real>) {
    && |shares| == |speeds|
    && (forall i :: 0 <= i < |shares| ==> 0.0 <= shares[i])
    && (forall i :: 0 <= i < |shares| ==> ShareNear(shares[i], speeds[i], SumOf(speeds)))
  }

  lemma SharesAllNear(c: Computed, speeds: seq<real>, u: real)
    requires Positive(speeds) && Rounded(c, speeds, u) && Precise(|speeds|, u)
    ensures AllNear(c.shares, speeds)
  {
    forall i | 0 <= i < |speeds| ensures ShareNear(c.shares[i], speeds[i], SumOf(speeds)) {
      SharesAreNear(c, speeds, u, i);
    }
  }

  lemma {:induction false} TotalSnoc(w: seq<nat>, x: nat)
    ensures Total(w + [x]) == Total(w) + x
  {
    if w == [] {
      assert w + [x] == [x];
    } else {
      TotalSnoc(w[1..], x);
      assert (w + [x])[1..] == w[1..] + [x];
    }
  }

  /** One more weight, with its share, below the bound. */
  lemma AddWeight(total: nat, x: nat, share: real, speed: real, sum: real, speeds: real)
    requires 0.0 <= sum && x as real <= share && NotAbove(share, speed, sum)
    requires WeighsBelow(total, sum, speeds)
    ensures WeighsBelow(total + x, sum, speeds + speed)
  {
    Scale(sum, x as real, share);
    Distribute(sum, total as real, x as real);
  }

  predicate WeighsBelow(total: nat, sum: real, speeds: real) {
    total as real * sum <= 10.31 * speeds
  }

  lemma AtMostTen(total: nat, sum: real)
    requires sum > 0.0 && WeighsBelow(total, sum, sum)
    ensures total <= 10
  {
    Cancel(total as real, 10.31, sum);
  }

  lemma {:induction false} TotalBelowShares(shares: seq<real>, speeds: seq<real>, sum: real)
    requires |shares| == |speeds| && sum > 0.0
    requires forall i :: 0 <= i < |shares| ==> 0.0 <= shares[i]
    requires forall i :: 0 <= i < |shares| ==> NotAbove(shares[i], speeds[i], sum)
    ensures WeighsBelow(Total(WeightsOf(shares)), sum, SumOf(speeds))
  {
    if shares != [] {
      var n := |shares| - 1;
      TotalBelowShares(shares[..n], speeds[..n], sum);
      var x, w := shares[n].Floor, WeightsOf(shares[..n]);
      TotalSnoc(w, x);
      AddWeight(Total(w), x, shares[n], speeds[n], sum, SumOf(speeds[..n]));
    }
  }

  /** However the operations round, a cycle has at most ten positions. */
  lemma CycleAtMostTen(c: Computed, speeds: seq<real>, u: real)
    requires Positive(speeds) && Rounded(c, speeds, u) && Precise(|speeds|, u)
    ensures forall i :: 0 <= i < |speeds| ==> c.shares[i] >= 0.0
    ensures Total(WeightsOf(c.shares)) <= 10
  {
    SharesAllNear(c, speeds, u);
    NearSharesAtMostTen(c.shares, speeds);
  }

  lemma NearSharesAtMostTen(shares: seq<real>, speeds: seq<real>)
    requires Positive(speeds) && AllNear(shares, speeds)
    ensures Total(WeightsOf(shares)) <= 10
  {
    if speeds != [] {
      SumPositive(speeds);
      TotalBelowShares(shares, speeds, SumOf(speeds));
      AtMostTen(Total(WeightsOf(shares)), SumOf(speeds));
    }
  }

  // ---------------------------------------------------------------------------
  // Equal expanders
  // ---------------------------------------------------------------------------

  lemma {:induction false} EqualSum(speeds: seq<real>, speed: real)
    requires forall i :: 0 <= i < |speeds| ==> speeds[i] == speed
    ensures SumOf(speeds) == |speeds| as real * speed
  {
    if speeds != [] {
      EqualSum(speeds[..|speeds| - 1], speed);
      Distribute(speed, (|speeds| - 1) as real, 1.0);
    }
  }

  lemma Whole(a: nat, b: nat)
    ensures a as real * b as real == (a * b) as real
  {
  }

  /** Cancelling the common speed. */
  lemma ShareTimesHigh(share: real, m: real, speed: real, x: real)
    requires speed > 0.0 && x == share * m && NotAbove(share, speed, m * speed)
    ensures x <= 10.31
  {
    Regroup(share, m, speed);
    Cancel(x, 10.31, speed);
  }

  lemma ShareTimesLow(share: real, m: real, speed: real, x: real)
    requires speed > 0.0 && x == share * m && NotBelow(share, speed, m * speed)
    ensures 9.7 <= x
  {
    Regroup(share, m, speed);
    Cancel(9.7, x, speed);
  }

  lemma WeightHigh(share: real, w: nat, n: nat)
    requires w as real <= share && share * n as real <= 10.31
    ensures w * n <= 10
  {
    Scale(n as real, w as real, share);
    Whole(w, n);
  }

  lemma WeightLow(share: real, v: nat, n: nat)
    requires share <= v as real && 9.7 <= share * n as real
    ensures 10 <= v * n
  {
    Scale(n as real, share, v as real);
    Whole(v, n);
  }

  lemma Quotient(w: nat, n: nat)
    requires n > 0 && w * n <= 10 <= (w + 1) * n
    ensures 10 % n != 0 ==> w == 10 / n
    ensures 10 % n == 0 ==> w == 10 / n || w + 1 == 10 / n
    ensures n > 10 ==> w == 0
  {
    if 10 < (w + 1) * n {
      DivMod(w, n, 10 - w * n);
    } else {
      DivMod(w + 1, n, 0);
    }
  }

  /**
   * The share rounds down to ten divided by `n`, or, exactly where `n` divides ten and
   * the share is below the quotient, to one less; and to 0 for `n` above ten.
   */
  predicate TenOver(share: real, n: nat)
    requires n > 0
  {
    var w := share.Floor;
    && 0 <= w && w * n <= 10 <= (w + 1) * n
    && (n > 10 ==> w == 0)
    && (w == 10 / n <==> 10 % n != 0 || share >= (10 / n) as real)
    && (w != 10 / n ==> w + 1 == 10 / n)
  }

  /** The weight of an expander among `n` equal ones, in terms of the computed share. */
  lemma EqualWeight(share: real, n: nat, speed: real)
    requires speed > 0.0 && n > 0 && ShareNear(share, speed, n as real * speed)
    ensures TenOver(share, n)
  {
    var w := share.Floor;
    ShareTimesHigh(share, n as real, speed, share * n as real);
    ShareTimesLow(share, n as real, speed, share * n as real);
    WeightHigh(share, w, n);
    WeightLow(share, w + 1, n);
    Quotient(w, n);
  }

  /**
   * However the operations round, each of `n` equal expanders weighs ten divided by
   * `n`, rounded down, or, exactly where `n` divides ten and the share was rounded
   * below the quotient, one less; so with eleven or more none is ever chosen.
   */
  lemma EqualExpanders(c: Computed, speeds: seq<real>, u: real, i: nat)
    requires Positive(speeds) && Rounded(c, speeds, u) && Precise(|speeds|, u) && i < |speeds|
    requires forall k :: 0 <= k < |speeds| ==> speeds[k] == speeds[0]
    ensures TenOver(c.shares[i], |speeds|)
  {
    SharesAreNear(c, speeds, u, i);
    EqualNear(c.shares[i], speeds, speeds[i]);
  }

  lemma EqualNear(share: real, speeds: seq<real>, speed: real)
    requires speeds != [] && speed > 0.0 && forall k :: 0 <= k < |speeds| ==> speeds[k] == speed
    requires ShareNear(share, speed, SumOf(speeds))
    ensures TenOver(share, |speeds|)
  {
    EqualSum(speeds, speed);
    EqualShare(share, |speeds|, speed, SumOf(speeds));
  }

  lemma EqualShare(share: real, n: nat, speed: real, total: real)
    requires speed > 0.0 && n > 0 && total == n as real * speed && ShareNear(share, speed, total)
    ensures TenOver(share, n)
  {
    EqualWeight(share, n, speed);
  }

  /** Sums that are exact but for the last, which rounds up. */
  function LastUp(n: nat, speed: real, u: real): (r: seq<real>)
    ensures |r| == n + 1
  {
    seq(n + 1, k requires 0 <= k <= n => if k == n > 0 then n as real * speed * (1.0 + u) else k as real * speed)
  }

  lemma NearItself(x: real, u: real)
    requires 0.0 <= x && 0.0 <= u
    ensures Near(x, x, u) && Near(x * (1.0 + u), x, u)
  {
    Positively(x, u);
    assert x * (1.0 + u) == x + x * u;
  }

  lemma LastUpRounds(n: nat, speed: real, u: real, speeds: seq<real>)
    requires speed > 0.0 && 0.0 <= u && |speeds| == n && forall k :: 0 <= k < n ==> speeds[k] == speed
    ensures SumsRounded(LastUp(n, speed, u), speeds, u)
  {
    var sums := LastUp(n, speed, u);
    forall k | 0 <= k < n ensures Near(sums[k + 1], sums[k] + speeds[k], u) {
      Distribute(speed, k as real, 1.0);
      Positively((k + 1) as real, speed);
      NearItself((k + 1) as real * speed, u);
    }
  }

  lemma BelowOne(speed: real, u: real, sum: real)
    requires speed > 0.0 && 0.0 < u && sum == 10.0 * speed * (1.0 + u)
    ensures sum > 0.0 && 0.0 <= speed / sum && speed / sum * 10.0 < 1.0
  {
    assert sum == 10.0 * speed + 10.0 * (speed * u);
    assert speed * u > 0.0;
    DivideBack(speed, sum);
    SmallShare(speed, sum, speed / sum);
  }

  lemma SmallShare(speed: real, sum: real, q: real)
    requires sum > 0.0 && 10.0 * speed < sum && q * sum == speed
    ensures q * 10.0 < 1.0
  {
    assert (q * 10.0) * sum == 10.0 * speed;
    if 1.0 <= q * 10.0 {
      Scale(sum, 1.0, q * 10.0);
    }
  }

  /** A sum that rounds up is enough: ten equal expanders then weigh nothing either. */
  lemma TenMayWeighNothing(speed: real, speeds: seq<real>, u: real) returns (c: Computed)
    requires speed > 0.0 && 0.0 < u <= 0.001
    requires |speeds| == 10 && forall k :: 0 <= k < |speeds| ==> speeds[k] == speed
    ensures Rounded(c, speeds, u) && Precise(|speeds|, u)
    ensures forall i :: 0 <= i < |speeds| ==> c.shares[i].Floor == 0
  {
    var n := |speeds|;
    var sums := LastUp(n, speed, u);
    BelowOne(speed, u, sums[n]);
    var q := speed / sums[n];
    c := Computed(sums, seq(n, _ => q), seq(n, _ => q * 10.0));
    LastUpRounds(n, speed, u, speeds);
    NearItself(q, u);
    NearItself(q * 10.0, u);
  }

  // ---------------------------------------------------------------------------
  // Ten expanders of write latency 3, in double precision
  // ---------------------------------------------------------------------------

  /** The running sums of ten times a third, in units of 2^-54. */
  const THIRD: nat := 6004799503160661
  const THIRD_SUMS: seq<nat> :=
    [0, 6004799503160661, 12009599006321322, 18014398509481984, 24019198012642644, 30023997515803304,
     36028797018963964, 42033596522124624, 48038396025285288, 54043195528445952, 60047995031606616]
  const TWO_54: nat := 0x40_0000_0000_0000
  const TWO_56: nat := 0x100_0000_0000_0000
  /** A third divided by the last sum, and ten times that, in units of 2^-56. */
  const THIRD_QUOTIENT: nat := 7205759403792793
  const THIRD_SHARE: nat := 72057594037927928

  lemma ThirdRounds()
    ensures RoundsTo(TWO_54, 3, THIRD)
  {
    assert RoundsBy(TWO_54, 3, THIRD, 0);
  }

  lemma SumRoundsBy(k: nat, e: nat, m: nat)
    requires k < 10 && RoundsBy(THIRD_SUMS[k] + THIRD, 1, m, e) && THIRD_SUMS[k + 1] == m * Pow2(e)
    ensures RoundsTo(THIRD_SUMS[k] + THIRD, 1, THIRD_SUMS[k + 1])
  {
  }

  lemma ThirdSumsRound(k: nat)
    requires k < 10
    ensures RoundsTo(THIRD_SUMS[k] + THIRD, 1, THIRD_SUMS[k + 1])
  {
    var e := if k == 0 then 0 else if k < 3 then 1 else if k < 6 then 2 else 3;
    assert Pow2(0) == 1 && Pow2(1) == 2 && Pow2(2) == 4 && Pow2(3) == 8;
    SumRoundsBy(k, e, THIRD_SUMS[k + 1] / Pow2(e));
  }

  lemma ThirdShareRounds()
    ensures RoundsTo(THIRD * TWO_56, THIRD_SUMS[10], THIRD_QUOTIENT)
    ensures RoundsTo(THIRD_QUOTIENT * 10, 1, THIRD_SHARE)
  {
    assert Pow2(0) == 1 && Pow2(3) == 8;
    assert RoundsBy(THIRD * TWO_56, THIRD_SUMS[10], THIRD_QUOTIENT, 0);
    assert RoundsBy(THIRD_QUOTIENT * 10, 1, THIRD_SHARE / 8, 3);
  }

  /**
   * The whole computation for ten expanders of write latency 3, each number the nearest
   * double: a share ends just below one, so all ten weigh nothing.
   */
  lemma TenThirdsWeighNothing()
    ensures RoundsTo(TWO_54, 3, THIRD)
    ensures THIRD_SUMS[0] == 0 && forall k :: 0 <= k < 10 ==> RoundsTo(THIRD_SUMS[k] + THIRD, 1, THIRD_SUMS[k + 1])
    ensures RoundsTo(THIRD * TWO_56, THIRD_SUMS[10], THIRD_QUOTIENT)
    ensures RoundsTo(THIRD_QUOTIENT * 10, 1, THIRD_SHARE)
    ensures THIRD_SHARE / TWO_56 == 0
  {
    ThirdRounds();
    forall k | 0 <= k < 10 ensures RoundsTo(THIRD_SUMS[k] + THIRD, 1, THIRD_SUMS[k + 1]) {
      ThirdSumsRound(k);
    }
    ThirdShareRounds();
  }
}
