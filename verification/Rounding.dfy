/**
 * Arithmetic that rounds: every operation may be off by a relative error `u`, in
 * either direction (2^-53 for double precision).  The results bound a running sum, and
 * the share of ten that a summand has in it, as the interleaving policy computes them.
 */
module Rounding {

  predicate Near(y: real, x: real, u: real) {
    x - x * u <= y <= x + x * u
  }

  predicate Positive(xs: seq<real>) {
    forall i :: 0 <= i < |xs| ==> xs[i] > 0.0
  }

  function SumOf(xs: seq<real>): (r: real) {
    if xs == [] then 0.0 else SumOf(xs[..|xs| - 1]) + xs[|xs| - 1]
  }

  /** Running sums from 0, each addition rounded. */
  predicate SumsRounded(sums: seq<real>, xs: seq<real>, u: real) {
    && |sums| == |xs| + 1
    && sums[0] == 0.0
    && forall k :: 0 <= k < |xs| ==> Near(sums[k + 1], sums[k] + xs[k], u)
  }

  /** The error that `n` operations accumulate. */
  function Error(n: nat, u: real): (r: real)
    requires 0.0 <= u
    ensures r >= 0.0 && r == n as real * u
  {
    if n == 0 then 0.0 else Error(n - 1, u) + u
  }

  // ---------------------------------------------------------------------------
  // Products
  // ---------------------------------------------------------------------------

  lemma Scale(k: real, a: real, b: real)
    requires 0.0 <= k && a <= b
    ensures k * a <= k * b
  {
  }

  lemma Cancel(a: real, b: real, k: real)
    requires a * k <= b * k && k > 0.0
    ensures a <= b
  {
  }

  lemma Distribute(k: real, a: real, b: real)
    ensures (a + b) * k == a * k + b * k
    ensures (a - b) * k == a * k - b * k
  {
  }

  lemma Regroup(k: real, a: real, b: real)
    ensures (k * a) * b == k * (a * b) == a * (k * b)
  {
  }

  lemma Positively(a: real, b: real)
    requires 0.0 <= a && 0.0 <= b
    ensures 0.0 <= a * b
  {
  }

  lemma DivideBack(a: real, b: real)
    requires a > 0.0 && b > 0.0
    ensures a / b > 0.0 && (a / b) * b == a
  {
  }

  // ---------------------------------------------------------------------------
  // A running sum
  // ---------------------------------------------------------------------------

  /** The sum is not below the exact one by more than the error, or not above it. */
  predicate Low(sum: real, exact: real, e: real) {
    exact - exact * e <= sum
  }

  predicate High(sum: real, exact: real, e: real) {
    sum - sum * e <= exact
  }

  /** Taking off the same share of two numbers keeps their order. */
  lemma TakeOff(p: real, b: real, u: real)
    requires p <= b && 0.0 <= u <= 1.0
    ensures p - p * u <= b - b * u
  {
    Distribute(u, b, p);
    Scale(b - p, u, 1.0);
  }

  lemma OneMoreExact(a: real, b: real, x: real, e: real)
    requires 0.0 <= x && 0.0 <= e && a - a * e <= b
    ensures (a + x) - (a + x) * e <= b + x
  {
    Distribute(e, a, x);
    Positively(x, e);
  }

  /** An error on top of another is no worse than their sum. */
  lemma LowerTwice(t: real, e: real, u: real, f: real, p: real)
    requires 0.0 <= t && 0.0 <= e && 0.0 <= u && p == t - t * e && f == e + u
    ensures t - t * f <= p - p * u
  {
    var a := t * e;
    Positively(t, e);
    Positively(a, u);
    Distribute(u, t, a);
    assert t * f == t * e + t * u;
  }

  lemma UpperTwice(b: real, e: real, u: real, f: real, p: real)
    requires 0.0 <= b && 0.0 <= e && 0.0 <= u && p == b + b * u && f == e + u
    ensures p - p * f <= b - b * e
  {
    var d := b * u;
    Positively(b, u);
    Positively(d, f);
    Distribute(f, b, d);
    assert b * f == b * e + b * u;
  }

  lemma Chain(a: real, b: real, c: real, d: real)
    requires a <= b <= c <= d
    ensures a <= d
  {
  }

  lemma RoundLow(t: real, b: real, after: real, e: real, u: real, f: real)
    requires 0.0 <= t && 0.0 <= e && 0.0 <= u <= 1.0 && f == e + u
    requires t - t * e <= b && b - b * u <= after
    ensures t - t * f <= after
  {
    var p := t - t * e;
    TakeOff(p, b, u);
    LowerTwice(t, e, u, f, p);
    Chain(t - t * f, p - p * u, b - b * u, after);
  }

  lemma RoundHigh(b: real, t: real, after: real, e: real, u: real, f: real)
    requires 0.0 <= b && 0.0 <= e && 0.0 <= u && f == e + u && f <= 1.0
    requires b - b * e <= t && after <= b + b * u
    ensures after - after * f <= t
  {
    var p := b + b * u;
    TakeOff(after, p, f);
    UpperTwice(b, e, u, f, p);
    Chain(after - after * f, p - p * f, b - b * e, t);
  }

  lemma LowStep(before: real, exact: real, x: real, after: real, e: real, u: real, f: real)
    requires 0.0 <= exact && 0.0 <= x && 0.0 <= e && 0.0 <= u <= 1.0 && f == e + u
    requires Low(before, exact, e) && Near(after, before + x, u)
    ensures Low(after, exact + x, f)
  {
    OneMoreExact(exact, before, x, e);
    RoundLow(exact + x, before + x, after, e, u, f);
  }

  lemma HighStep(before: real, exact: real, x: real, after: real, e: real, u: real, f: real)
    requires 0.0 <= before && 0.0 <= x && 0.0 <= e && 0.0 <= u && f == e + u && f <= 1.0
    requires High(before, exact, e) && Near(after, before + x, u)
    ensures High(after, exact + x, f)
  {
    OneMoreExact(before, exact, x, e);
    RoundHigh(before + x, exact + x, after, e, u, f);
  }

  lemma StaysPositive(b: real, after: real, u: real)
    requires 0.0 <= b && 0.0 <= u <= 1.0 && Near(after, b, u)
    ensures 0.0 <= after
  {
    Scale(b, u, 1.0);
  }

  lemma {:induction false} SumPositive(xs: seq<real>)
    requires Positive(xs)
    ensures SumOf(xs) >= 0.0 && (xs != [] ==> SumOf(xs) > 0.0)
  {
    if xs != [] {
      SumPositive(xs[..|xs| - 1]);
    }
  }

  /** A rounded running sum is the exact sum up to the accumulated error, either way. */
  lemma {:induction false} SumBounds(sums: seq<real>, xs: seq<real>, u: real)
    requires Positive(xs) && SumsRounded(sums, xs, u) && 0.0 <= u && Error(|xs|, u) <= 1.0
    ensures 0.0 <= sums[|xs|]
    ensures Low(sums[|xs|], SumOf(xs), Error(|xs|, u))
    ensures High(sums[|xs|], SumOf(xs), Error(|xs|, u))
  {
    if xs != [] {
      var n := |xs| - 1;
      SumBounds(sums[..n + 1], xs[..n], u);
      SumPositive(xs[..n]);
      var e, f := Error(n, u), Error(n + 1, u);
      LowStep(sums[n], SumOf(xs[..n]), xs[n], sums[n + 1], e, u, f);
      HighStep(sums[n], SumOf(xs[..n]), xs[n], sums[n + 1], e, u, f);
      StaysPositive(sums[n] + xs[n], sums[n + 1], u);
    }
  }

  // ---------------------------------------------------------------------------
  // A share of ten
  // ---------------------------------------------------------------------------

  /** A computed share is at most 3.1% above, or at most 3% below, ten times the exact one. */
  predicate NotAbove(share: real, x: real, exact: real) {
    share * exact <= 10.31 * x
  }

  predicate NotBelow(share: real, x: real, exact: real) {
    9.7 * x <= share * exact
  }

  lemma UpOnePercent(y: real, x: real, u: real)
    requires Near(y, x, u) && 0.0 <= x && 0.0 <= u <= 0.01
    ensures y <= 1.01 * x
  {
    Scale(x, u, 0.01);
  }

  lemma DownOnePercent(y: real, x: real, u: real)
    requires Near(y, x, u) && 0.0 <= x && 0.0 <= u <= 0.01
    ensures 0.99 * x <= y
  {
    Scale(x, u, 0.01);
  }

  lemma LowOnePercent(sum: real, exact: real, e: real)
    requires Low(sum, exact, e) && 0.0 <= exact && e <= 0.01
    ensures 0.99 * exact <= sum
  {
    Scale(exact, e, 0.01);
  }

  lemma HighOnePercent(sum: real, exact: real, e: real)
    requires High(sum, exact, e) && 0.0 <= sum && e <= 0.01
    ensures 0.99 * sum <= exact
  {
    Scale(sum, e, 0.01);
  }

  lemma ShareHigh(x: real, sum: real, exact: real, q: real, share: real)
    requires sum > 0.0 && 0.0 <= share && 0.99 * exact <= sum && q * sum == x && share <= 10.201 * q
    ensures NotAbove(share, x, exact)
  {
    Scale(sum, share, 10.201 * q);
    Regroup(10.201, sum, q);
    Scale(share, 0.99 * exact, sum);
    Regroup(0.99, share, exact);
  }

  lemma ShareLow(x: real, sum: real, exact: real, q: real, share: real)
    requires sum > 0.0 && 0.0 <= share && 0.99 * sum <= exact && q * sum == x && 9.801 * q <= share
    ensures NotBelow(share, x, exact)
  {
    Scale(sum, 9.801 * q, share);
    Regroup(9.801, sum, q);
    Scale(share, 0.99 * sum, exact);
    Regroup(0.99, share, sum);
  }

  /** A rounded quotient by the rounded sum, times ten and rounded again. */
  lemma RoundedShare(x: real, sum: real, exact: real, quotient: real, share: real, e: real, u: real)
    requires x > 0.0 && sum > 0.0 && exact > 0.0 && 0.0 <= u <= 0.01 && 0.0 <= e <= 0.01
    requires Low(sum, exact, e) && High(sum, exact, e)
    requires Near(quotient, x / sum, u) && Near(share, quotient * 10.0, u)
    ensures 0.0 <= share && NotAbove(share, x, exact) && NotBelow(share, x, exact)
  {
    var q := x / sum;
    DivideBack(x, sum);
    UpOnePercent(quotient, q, u);
    DownOnePercent(quotient, q, u);
    UpOnePercent(share, quotient * 10.0, u);
    DownOnePercent(share, quotient * 10.0, u);
    LowOnePercent(sum, exact, e);
    HighOnePercent(sum, exact, e);
    ShareHigh(x, sum, exact, q, share);
    ShareLow(x, sum, exact, q, share);
  }

  // ---------------------------------------------------------------------------
  // Double precision
  // ---------------------------------------------------------------------------

  const MANTISSA: nat := 0x20_0000_0000_0000

  function Pow2(e: nat): (r: nat) {
    if e == 0 then 1 else 2 * Pow2(e - 1)
  }

  /**
   * `m` units of size `g`, together `a`, are `num` rounded to 53 significant bits, a tie
   * to the even one, as section 4.3.1 of IEEE 754 has it.
   */
  predicate Rounds(num: nat, g: nat, m: nat, a: nat) {
    && MANTISSA / 2 * g <= num < MANTISSA * g
    && 2 * a - g <= 2 * num <= 2 * a + g
    && (2 * num == 2 * a + g || 2 * num == 2 * a - g ==> m % 2 == 0)
  }

  /** `m * 2^e` is `num / den` rounded so; numbers are multiples of some common unit. */
  predicate RoundsBy(num: nat, den: nat, m: nat, e: nat) {
    var g := Pow2(e) * den;
    Rounds(num, g, m, m * g)
  }

  ghost predicate RoundsTo(num: nat, den: nat, y: nat) {
    exists m: nat, e: nat :: RoundsBy(num, den, m, e) && y == m * Pow2(e)
  }

  lemma {:induction false} Pow2Grows(d: nat, e: nat)
    requires d < e
    ensures 2 * Pow2(d) <= Pow2(e)
  {
    if d + 1 < e {
      Pow2Grows(d, e - 1);
    }
  }

  lemma Step(m: nat, d: nat, g: nat)
    ensures (m + d) * g == m * g + d * g
  {
  }

  lemma AtLeastTwice(d: nat, g: nat)
    requires 2 <= d
    ensures 2 * g <= d * g
  {
    Step(2, d - 2, g);
  }

  lemma Further(m: nat, n: nat, g: nat)
    requires m < n
    ensures n == m + 1 ==> n * g == m * g + g
    ensures n > m + 1 ==> n * g >= m * g + 2 * g
  {
    Step(m, n - m, g);
    if n > m + 1 {
      AtLeastTwice(n - m, g);
    }
  }

  lemma NotBoth(num: nat, g: nat, m: nat, a: nat, n: nat, b: nat)
    requires Rounds(num, g, m, a) && Rounds(num, g, n, b) && m < n
    requires n == m + 1 ==> b == a + g
    ensures n > m + 1 && b < a + 2 * g
  {
  }

  lemma SameMantissa(num: nat, g: nat, m: nat, a: nat, n: nat, b: nat)
    requires Rounds(num, g, m, a) && Rounds(num, g, n, b) && a == m * g && b == n * g
    ensures m >= n
  {
    if m < n {
      Further(m, n, g);
      NotBoth(num, g, m, a, n, b);
    }
  }

  lemma NotLarger(num: nat, f: nat, m: nat, a: nat, g: nat, n: nat, b: nat)
    requires Rounds(num, f, m, a) && Rounds(num, g, n, b)
    ensures g < 2 * f
  {
  }

  lemma SameExponent(den: nat, d: nat, f: nat, e: nat, g: nat)
    requires f == Pow2(d) * den && g == Pow2(e) * den && g < 2 * f
    ensures d >= e
  {
    if d < e {
      Pow2Grows(d, e);
      Doubled(Pow2(d), Pow2(e), den);
    }
  }

  lemma Doubled(x: nat, y: nat, den: nat)
    requires 2 * x <= y
    ensures 2 * (x * den) <= y * den
  {
    assert y * den == 2 * (x * den) + (y - 2 * x) * den;
  }

  lemma Decompose(num: nat, den: nat, y: nat) returns (m: nat, e: nat, g: nat, a: nat)
    requires RoundsTo(num, den, y)
    ensures y == m * Pow2(e) && g == Pow2(e) * den && a == m * g && Rounds(num, g, m, a)
  {
    m, e :| RoundsBy(num, den, m, e) && y == m * Pow2(e);
    g := Pow2(e) * den;
    a := m * g;
  }

  /** There is at most one nearest double. */
  lemma RoundsToOne(num: nat, den: nat, y: nat, z: nat)
    requires RoundsTo(num, den, y) && RoundsTo(num, den, z)
    ensures y == z
  {
    var m, d, f, a := Decompose(num, den, y);
    var n, e, g, b := Decompose(num, den, z);
    NotLarger(num, f, m, a, g, n, b);
    NotLarger(num, g, n, b, f, m, a);
    SameExponent(den, d, f, e, g);
    SameExponent(den, e, g, d, f);
    SameMantissa(num, f, m, a, n, b);
    SameMantissa(num, f, n, b, m, a);
  }
}
