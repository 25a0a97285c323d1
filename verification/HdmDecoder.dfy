/**
 * The decoder of host-managed device memory: an address belongs to the range that
 * covers it, or to one of several targets among which its region is interleaved.
 *
 * The results: interleaving is a bijection between the region and targets with
 * offsets, with a closed inverse; the binary search over any sorted order agrees with
 * the scan of the original order exactly if no range starts inside a different one;
 * sorting keeps every decoded place, and the remote flag exactly where the first range
 * of the target keeps it.
 */
module HdmDecoder {
  import opened Arithmetic
  import opened Sequences
  import opened Words

  const NO_TARGET: nat := 0xFFFF_FFFF

  datatype Range = Range(base: nat, size: nat, target: nat, remote: bool)

  datatype Mode = Interleaved | RangeBased | Hybrid

  datatype Interleave = Interleave(granularity: nat, targets: seq<nat>, base: nat, total: nat)

  datatype Decoded = Decoded(target: nat, offset: nat, remote: bool, hops: nat)

  const NOT_FOUND: Decoded := Decoded(NO_TARGET, 0, false, 0)

  /** The five granularities of the configuration. */
  predicate IsGranularity(g: nat) {
    g == 64 || g == 256 || g == 4096 || g == 2097152 || g == 1073741824
  }

  // ---------------------------------------------------------------------------
  // Ranges
  // ---------------------------------------------------------------------------

  function End(r: Range): (e: nat) {
    WordSum(r.base, r.size)
  }

  predicate Covers(r: Range, addr: nat) {
    r.base <= addr < End(r)
  }

  function Within(r: Range, addr: nat): (d: Decoded)
    requires Covers(r, addr)
  {
    Decoded(r.target, addr - r.base, r.remote, if r.remote then 1 else 0)
  }

  function Scan(ranges: seq<Range>, addr: nat): (d: Decoded) {
    if ranges == [] then NOT_FOUND
    else if Covers(ranges[0], addr) then Within(ranges[0], addr)
    else Scan(ranges[1..], addr)
  }

  /** The binary search between `lo` and `hi` inclusive. */
  function Search(ranges: seq<Range>, addr: nat, lo: int, hi: int): (d: Decoded)
    requires 0 <= lo <= hi + 1 <= |ranges|
    decreases hi + 1 - lo
  {
    if lo > hi then NOT_FOUND
    else
      var mid := lo + (hi - lo) / 2;
      if addr < ranges[mid].base then Search(ranges, addr, lo, mid - 1)
      else if addr >= End(ranges[mid]) then Search(ranges, addr, mid + 1, hi)
      else Within(ranges[mid], addr)
  }

  predicate ByBase(ranges: seq<Range>) {
    forall i, j :: 0 <= i < j < |ranges| ==> ranges[i].base <= ranges[j].base
  }

  predicate SortedOrder(order: seq<Range>, ranges: seq<Range>) {
    ByBase(order) && multiset(order) == multiset(ranges)
  }

  function BaseOf(r: Range): (k: int) {
    r.base
  }

  lemma ByBaseIsAscending(s: seq<Range>)
    ensures ByBase(s) <==> AscendingBy(s, BaseOf)
  {
    if AscendingBy(s, BaseOf) {
      forall i, j | 0 <= i < j < |s| ensures s[i].base <= s[j].base {
        assert BaseOf(s[i]) <= BaseOf(s[j]);
      }
    }
  }

  lemma PlacedByBase(r: Range, order: seq<Range>)
    requires ByBase(order)
    ensures ByBase(Placed(r, order, BaseOf))
  {
    ByBaseIsAscending(order);
    PlacedAscends(r, order, BaseOf);
    ByBaseIsAscending(Placed(r, order, BaseOf));
  }

  lemma SortedOrderExists(ranges: seq<Range>)
    ensures SortedOrder(SortBy(ranges, BaseOf), ranges)
  {
    SortAscends(ranges, BaseOf);
    ByBaseIsAscending(SortBy(ranges, BaseOf));
  }

  /** No range starts inside a different one; an empty or wrapping range covers nothing and may still start inside. */
  predicate Apart(ranges: seq<Range>) {
    forall i, j :: 0 <= i < |ranges| && 0 <= j < |ranges| && ranges[i] != ranges[j] ==>
      !Covers(ranges[i], ranges[j].base)
  }

  /** The scan finds the one range that covers the address, wherever it stands. */
  lemma {:induction false} ScanFinds(ranges: seq<Range>, addr: nat, r: Range)
    requires Apart(ranges) && r in ranges && Covers(r, addr)
    ensures Scan(ranges, addr) == Within(r, addr)
  {
    var first := ranges[0];
    if first != r {
      var j :| 0 <= j < |ranges| && ranges[j] == r;
      assert !Covers(ranges[0], ranges[j].base) && !Covers(ranges[j], ranges[0].base);
      ScanFinds(ranges[1..], addr, r);
    }
  }

  lemma {:induction false} ScanMisses(ranges: seq<Range>, addr: nat)
    requires forall i :: 0 <= i < |ranges| ==> !Covers(ranges[i], addr)
    ensures Scan(ranges, addr) == NOT_FOUND
  {
    if ranges != [] {
      ScanMisses(ranges[1..], addr);
    }
  }

  /** The address lies in the range, whose end wraps at 2^64, and is decoded by its distance from the range's base. */
  predicate DecodedFrom(r: Range, addr: nat, d: Decoded) {
    && r.base <= addr < (r.base + r.size) % WORD
    && d.target == r.target && d.offset == addr - r.base
    && d.remote == r.remote && d.hops == if r.remote then 1 else 0
  }

  predicate Outside(r: Range, addr: nat) {
    addr < r.base || (r.base + r.size) % WORD <= addr
  }

  /** Of any ranges the scan takes the first that the address lies in. */
  lemma {:induction false} ScanIsFirst(ranges: seq<Range>, addr: nat) returns (i: nat)
    ensures i <= |ranges| && forall j :: 0 <= j < i ==> Outside(ranges[j], addr)
    ensures i < |ranges| ==> DecodedFrom(ranges[i], addr, Scan(ranges, addr))
    ensures i == |ranges| ==> Scan(ranges, addr) == Decoded(0xFFFF_FFFF, 0, false, 0)
  {
    if ranges == [] || Covers(ranges[0], addr) {
      i := 0;
    } else {
      var k := ScanIsFirst(ranges[1..], addr);
      i := k + 1;
      forall j | 0 <= j < i ensures Outside(ranges[j], addr) {
        assert j > 0 ==> ranges[j] == ranges[1..][j - 1];
      }
    }
  }

  /** In any order the search answers with a range that the address lies in, or not at all. */
  lemma {:induction false} SearchIsSound(ranges: seq<Range>, addr: nat, lo: int, hi: int) returns (i: int)
    requires 0 <= lo <= hi + 1 <= |ranges|
    ensures var d := Search(ranges, addr, lo, hi);
            if i < 0 then d == Decoded(0xFFFF_FFFF, 0, false, 0)
            else lo <= i <= hi && DecodedFrom(ranges[i], addr, d)
    decreases hi + 1 - lo
  {
    i := -1;
    if lo <= hi {
      var mid := lo + (hi - lo) / 2;
      if addr < ranges[mid].base {
        i := SearchIsSound(ranges, addr, lo, mid - 1);
      } else if addr >= End(ranges[mid]) {
        i := SearchIsSound(ranges, addr, mid + 1, hi);
      } else {
        i := mid;
      }
    }
  }

  /** Nothing, or the decoding by one of the ranges. */
  ghost predicate FromSome(ranges: seq<Range>, addr: nat, d: Decoded) {
    d == Decoded(0xFFFF_FFFF, 0, false, 0) || exists i :: 0 <= i < |ranges| && DecodedFrom(ranges[i], addr, d)
  }

  lemma ScanFromSome(ranges: seq<Range>, addr: nat)
    ensures FromSome(ranges, addr, Scan(ranges, addr))
  {
    var i := ScanIsFirst(ranges, addr);
  }

  lemma SearchFromSome(ranges: seq<Range>, addr: nat)
    ensures FromSome(ranges, addr, Search(ranges, addr, 0, |ranges| - 1))
  {
    var i := SearchIsSound(ranges, addr, 0, |ranges| - 1);
  }

  /** However the ranges are searched; and apart from each other, both searches agree. */
  lemma FromSomeRange(ranges: seq<Range>, sorted: bool, addr: nat)
    requires sorted ==> ByBase(ranges)
    ensures var d := if sorted then Search(ranges, addr, 0, |ranges| - 1) else Scan(ranges, addr);
            FromSome(ranges, addr, d) && (Apart(ranges) ==> d == Scan(ranges, addr))
  {
    if sorted {
      SearchFromSome(ranges, addr);
      if Apart(ranges) {
        SearchIsScan(ranges, ranges, addr);
      }
    } else {
      ScanFromSome(ranges, addr);
    }
  }

  predicate NoneCovers(ranges: seq<Range>, addr: nat, lo: int, hi: int) {
    forall i :: lo <= i < hi && 0 <= i < |ranges| ==> !Covers(ranges[i], addr)
  }

  lemma LaterStartAfter(ranges: seq<Range>, addr: nat, mid: nat)
    requires ByBase(ranges) && mid < |ranges| && addr < ranges[mid].base
    ensures NoneCovers(ranges, addr, mid, |ranges|)
  {
  }

  lemma EarlierEndBefore(ranges: seq<Range>, addr: nat, mid: nat)
    requires ByBase(ranges) && Apart(ranges) && mid < |ranges| && ranges[mid].base <= addr && addr >= End(ranges[mid])
    ensures NoneCovers(ranges, addr, 0, mid + 1)
  {
    forall i | 0 <= i <= mid ensures !Covers(ranges[i], addr) {
      assert ranges[i] != ranges[mid] ==> !Covers(ranges[i], ranges[mid].base);
    }
  }

  /** Either no range of the stretch covers the address, or the decoded place is in one that does. */
  ghost predicate Answers(ranges: seq<Range>, addr: nat, lo: int, hi: int, d: Decoded) {
    || (d == NOT_FOUND && NoneCovers(ranges, addr, lo, hi))
    || (exists m :: 0 <= m < |ranges| && Covers(ranges[m], addr) && d == Within(ranges[m], addr))
  }

  /** What the search returns: a covering range if there is one. */
  lemma {:induction false} SearchFinds(ranges: seq<Range>, addr: nat, lo: int, hi: int)
    requires 0 <= lo <= hi + 1 <= |ranges| && ByBase(ranges) && Apart(ranges)
    ensures Answers(ranges, addr, lo, hi + 1, Search(ranges, addr, lo, hi))
    decreases hi + 1 - lo
  {
    if lo <= hi {
      var mid := lo + (hi - lo) / 2;
      if addr < ranges[mid].base {
        SearchFinds(ranges, addr, lo, mid - 1);
        LaterStartAfter(ranges, addr, mid);
      } else if addr >= End(ranges[mid]) {
        SearchFinds(ranges, addr, mid + 1, hi);
        EarlierEndBefore(ranges, addr, mid);
      }
    }
  }

  lemma ApartMoves(a: seq<Range>, b: seq<Range>)
    requires multiset(a) == multiset(b) && Apart(a)
    ensures Apart(b)
  {
    forall i | 0 <= i < |b| ensures b[i] in a {
      SameMembers(a, b, b[i]);
    }
    forall i, j | 0 <= i < |b| && 0 <= j < |b| && b[i] != b[j] ensures !Covers(b[i], b[j].base) {
      var k :| 0 <= k < |a| && a[k] == b[i];
      var l :| 0 <= l < |a| && a[l] == b[j];
      assert !Covers(a[k], a[l].base);
    }
  }

  /** Where no range starts inside another, searching any sorted order is scanning the original one. */
  lemma SearchIsScan(ranges: seq<Range>, order: seq<Range>, addr: nat)
    requires Apart(ranges) && SortedOrder(order, ranges)
    ensures Search(order, addr, 0, |order| - 1) == Scan(ranges, addr)
  {
    ApartMoves(ranges, order);
    SearchFinds(order, addr, 0, |order| - 1);
    var d := Search(order, addr, 0, |order| - 1);
    if d == NOT_FOUND && NoneCovers(order, addr, 0, |order|) {
      forall i | 0 <= i < |ranges| ensures !Covers(ranges[i], addr) {
        SameMembers(ranges, order, ranges[i]);
      }
      ScanMisses(ranges, addr);
    } else {
      var m :| 0 <= m < |order| && Covers(order[m], addr) && d == Within(order[m], addr);
      SameMembers(ranges, order, order[m]);
      ScanFinds(ranges, addr, order[m]);
    }
  }

  /** Whatever order the ranges were added in, every address is searched as it is scanned. */
  ghost predicate SearchAgrees(ranges: seq<Range>) {
    forall added, order, addr ::
      multiset(added) == multiset(ranges) && SortedOrder(order, ranges)
      ==> Search(order, addr, 0, |order| - 1) == Scan(added, addr)
  }

  lemma FirstAdded(ranges: seq<Range>, i: nat) returns (added: seq<Range>)
    requires i < |ranges|
    ensures multiset(added) == multiset(ranges) && added != [] && added[0] == ranges[i]
  {
    added := [ranges[i]] + ranges[..i] + ranges[i + 1..];
    assert ranges == ranges[..i] + [ranges[i]] + ranges[i + 1..];
  }

  /** Where two of the ranges cover an address at different places, one order of adding them is searched wrongly. */
  lemma OverlapBreaks(ranges: seq<Range>, i: nat, j: nat, addr: nat)
    requires i < |ranges| && j < |ranges| && Covers(ranges[i], addr) && Covers(ranges[j], addr)
    requires Within(ranges[i], addr) != Within(ranges[j], addr)
    ensures !SearchAgrees(ranges)
  {
    var order := SortBy(ranges, BaseOf);
    SortedOrderExists(ranges);
    var a := FirstAdded(ranges, i);
    var b := FirstAdded(ranges, j);
    assert Scan(a, addr) == Within(ranges[i], addr) && Scan(b, addr) == Within(ranges[j], addr);
    var found := Search(order, addr, 0, |order| - 1);
    assert found != Scan(a, addr) || found != Scan(b, addr);
  }

  /** Ranges of one start, target and flag: where both cover an address they decode it alike. */
  predicate Twins(r: Range, s: Range) {
    r.base == s.base && r.target == s.target && r.remote == s.remote
  }

  /** The exact condition where no range is empty and no two different ones are twins: each range may be added once. */
  lemma SearchAgreesIff(ranges: seq<Range>)
    requires forall i :: 0 <= i < |ranges| ==> Covers(ranges[i], ranges[i].base)
    requires forall i, j :: 0 <= i < |ranges| && 0 <= j < |ranges| && ranges[i] != ranges[j]
                            ==> !Twins(ranges[i], ranges[j])
    ensures SearchAgrees(ranges) <==> Apart(ranges)
  {
    if Apart(ranges) {
      forall added, order, addr | multiset(added) == multiset(ranges) && SortedOrder(order, ranges)
        ensures Search(order, addr, 0, |order| - 1) == Scan(added, addr)
      {
        ApartMoves(ranges, added);
        SearchIsScan(added, order, addr);
      }
    } else {
      var i, j :| 0 <= i < |ranges| && 0 <= j < |ranges| && ranges[i] != ranges[j] && Covers(ranges[i], ranges[j].base);
      OverlapBreaks(ranges, i, j, ranges[j].base);
    }
  }

  /** As the fields allow: 64-bit bases and sizes, and a target that is not the mark for none. */
  predicate Fits(r: Range) {
    r.base < WORD && r.size < WORD && r.target < NO_TARGET
  }

  ghost predicate SameRanges(a: seq<Range>, b: seq<Range>) {
    forall r :: r in a <==> r in b
  }

  /** The same with every range added any number of times, but at least once. */
  ghost predicate AlwaysAgrees(ranges: seq<Range>) {
    forall added, order, addr ::
      SameRanges(added, ranges) && SortedOrder(order, added)
      ==> Search(order, addr, 0, |order| - 1) == Scan(added, addr)
  }

  lemma ApartRepeats(ranges: seq<Range>, added: seq<Range>)
    requires Apart(ranges) && SameRanges(added, ranges)
    ensures Apart(added)
  {
    forall i, j | 0 <= i < |added| && 0 <= j < |added| && added[i] != added[j]
      ensures !Covers(added[i], added[j].base)
    {
      assert added[i] in ranges && added[j] in ranges;
      var k :| 0 <= k < |ranges| && ranges[k] == added[i];
      var l :| 0 <= l < |ranges| && ranges[l] == added[j];
      assert !Covers(ranges[k], ranges[l].base);
    }
  }

  lemma {:induction false} SearchMisses(ranges: seq<Range>, addr: nat, lo: int, hi: int)
    requires 0 <= lo <= hi + 1 <= |ranges| && NoneCovers(ranges, addr, lo, hi + 1)
    ensures Search(ranges, addr, lo, hi) == NOT_FOUND
    decreases hi + 1 - lo
  {
    if lo <= hi {
      var mid := lo + (hi - lo) / 2;
      if addr < ranges[mid].base {
        SearchMisses(ranges, addr, lo, mid - 1);
      } else {
        SearchMisses(ranges, addr, mid + 1, hi);
      }
    }
  }

  /** By base, and among equal bases those that cover the address first. */
  function CoveringFirst(addr: nat): (key: Range -> int) {
    (r: Range) => 2 * r.base + if Covers(r, addr) then 0 else 1
  }

  lemma CoveringFirstByBase(order: seq<Range>, addr: nat)
    requires AscendingBy(order, CoveringFirst(addr))
    ensures ByBase(order)
  {
    forall i, j | 0 <= i < j < |order| ensures order[i].base <= order[j].base {
      assert CoveringFirst(addr)(order[i]) <= CoveringFirst(addr)(order[j]);
    }
  }

  /** Where a key belongs in an ascending sequence. */
  lemma {:induction false} PlaceFor(s: seq<Range>, key: Range -> int, k: int) returns (at: nat)
    requires AscendingBy(s, key)
    ensures at <= |s|
    ensures forall i :: 0 <= i < at ==> key(s[i]) <= k
    ensures forall i :: at <= i < |s| ==> k <= key(s[i])
  {
    at := 0;
    while at < |s| && key(s[at]) <= k
      invariant at <= |s|
      invariant forall i :: 0 <= i < at ==> key(s[i]) <= k
    {
      at := at + 1;
    }
  }

  /** `n` copies of `x` put into `s` at `at`. */
  function Stuffed(s: seq<Range>, at: nat, x: Range, n: nat): (r: seq<Range>)
    requires at <= |s|
    ensures |r| == |s| + n
    ensures forall i :: 0 <= i < |r| ==> r[i] == if i < at then s[i] else if i < at + n then x else s[i - n]
  {
    s[..at] + seq(n, _ => x) + s[at..]
  }

  lemma StuffedAscends(s: seq<Range>, at: nat, x: Range, n: nat, key: Range -> int)
    requires AscendingBy(s, key) && at <= |s|
    requires forall i :: 0 <= i < at ==> key(s[i]) <= key(x)
    requires forall i :: at <= i < |s| ==> key(x) <= key(s[i])
    ensures AscendingBy(Stuffed(s, at, x, n), key)
  {
  }

  lemma StuffedSame(s: seq<Range>, at: nat, x: Range, n: nat)
    requires at <= |s| && x in s
    ensures SameRanges(Stuffed(s, at, x, n), s)
  {
    var r := Stuffed(s, at, x, n);
    forall y | y in s ensures y in r {
      var i :| 0 <= i < |s| && s[i] == y;
      assert r[if i < at then i else i + n] == y;
    }
  }

  lemma Sorted(ranges: seq<Range>, key: Range -> int) returns (sorted: seq<Range>)
    ensures AscendingBy(sorted, key) && |sorted| == |ranges| && SameRanges(sorted, ranges)
  {
    sorted := SortBy(ranges, key);
    SortAscends(ranges, key);
    assert |multiset(sorted)| == |multiset(ranges)|;
    SameMembersAll(sorted, ranges);
  }

  /** The ranges in order, with so many copies of `short` that the search begins at one of them. */
  lemma Crowded(ranges: seq<Range>, short: Range, key: Range -> int) returns (order: seq<Range>)
    requires short in ranges
    ensures |order| == 2 * |ranges| + 1 && order[|ranges|] == short
    ensures AscendingBy(order, key) && SameRanges(order, ranges)
  {
    var n := |ranges|;
    var sorted := Sorted(ranges, key);
    var at := PlaceFor(sorted, key, key(short));
    StuffedAscends(sorted, at, short, n + 1, key);
    StuffedSame(sorted, at, short, n + 1);
    order := Stuffed(sorted, at, short, n + 1);
  }

  lemma SameMembersAll(a: seq<Range>, b: seq<Range>)
    requires multiset(a) == multiset(b)
    ensures SameRanges(a, b)
  {
    forall r ensures r in a <==> r in b {
      SameMembers(a, b, r);
    }
  }

  /** Ranges behind a `short` one in that order do not cover the address either. */
  lemma NoneBehind(ranges: seq<Range>, order: seq<Range>, at: nat, base: nat, addr: nat)
    requires SameRanges(order, ranges) && AscendingBy(order, CoveringFirst(addr)) && at < |order|
    requires base <= order[at].base && !Covers(order[at], addr)
    requires forall i :: 0 <= i < |ranges| && Covers(ranges[i], addr) ==> ranges[i].base == base
    ensures NoneCovers(order, addr, at + 1, |order|)
  {
    forall i | at < i < |order| ensures !Covers(order[i], addr) {
      assert CoveringFirst(addr)(order[at]) <= CoveringFirst(addr)(order[i]);
      assert order[i] in ranges;
    }
  }

  /** A range that covers the address is missed once enough copies of `short`, which does not, follow its start. */
  lemma CopiesHide(ranges: seq<Range>, long: nat, short: nat, addr: nat)
    requires long < |ranges| && short < |ranges| && Covers(ranges[long], addr) && Fits(ranges[long])
    requires ranges[long].base <= ranges[short].base <= addr && End(ranges[short]) <= addr
    requires forall i :: 0 <= i < |ranges| && Covers(ranges[i], addr) ==> ranges[i].base == ranges[long].base
    ensures !AlwaysAgrees(ranges)
  {
    var n := |ranges|;
    var order := Crowded(ranges, ranges[short], CoveringFirst(addr));
    CoveringFirstByBase(order, addr);
    NoneBehind(ranges, order, n, ranges[long].base, addr);
    SearchMisses(order, addr, n + 1, 2 * n);
    var added := AddedFirst(ranges, order, ranges[long]);
    Differs(ranges, added, order, addr);
  }

  lemma AddedFirst(ranges: seq<Range>, order: seq<Range>, r: Range) returns (added: seq<Range>)
    requires SameRanges(order, ranges) && r in ranges
    ensures multiset(added) == multiset(order) && added != [] && added[0] == r && SameRanges(added, ranges)
  {
    assert r in order;
    var at :| 0 <= at < |order| && order[at] == r;
    added := FirstAdded(order, at);
    SameMembersAll(added, order);
  }

  lemma Differs(ranges: seq<Range>, added: seq<Range>, order: seq<Range>, addr: nat)
    requires SameRanges(added, ranges) && SortedOrder(order, added) && |order| % 2 == 1
    requires added != [] && Covers(added[0], addr) && Fits(added[0])
    requires var mid := |order| / 2;
             order[mid].base <= addr && End(order[mid]) <= addr
             && Search(order, addr, mid + 1, |order| - 1) == NOT_FOUND
    ensures !AlwaysAgrees(ranges)
  {
    assert Scan(added, addr) != NOT_FOUND;
    SearchRight(order, addr);
  }

  lemma SearchRight(order: seq<Range>, addr: nat)
    requires |order| % 2 == 1
    requires var mid := |order| / 2; order[mid].base <= addr && End(order[mid]) <= addr
    ensures Search(order, addr, 0, |order| - 1) == Search(order, addr, |order| / 2 + 1, |order| - 1)
  {
  }

  /** Agreement however often the ranges are added includes agreement when each is added once. */
  lemma AlwaysIsOnce(ranges: seq<Range>)
    requires AlwaysAgrees(ranges)
    ensures SearchAgrees(ranges)
  {
    forall added, order, addr | multiset(added) == multiset(ranges) && SortedOrder(order, ranges)
      ensures Search(order, addr, 0, |order| - 1) == Scan(added, addr)
    {
      SameMembersAll(added, ranges);
    }
  }

  lemma InsideBreaks(ranges: seq<Range>, i: nat, j: nat)
    requires forall k :: 0 <= k < |ranges| ==> Fits(ranges[k])
    requires i < |ranges| && j < |ranges| && ranges[i] != ranges[j] && Covers(ranges[i], ranges[j].base)
    ensures !AlwaysAgrees(ranges)
  {
    var r, s := ranges[i], ranges[j];
    if Covers(s, s.base) && !Twins(r, s) {
      OverlapHides(ranges, i, j, s.base);
    } else if !Covers(s, s.base) {
      HiddenAt(ranges, i, j, s.base);
    } else if End(s) < End(r) {
      HiddenAt(ranges, i, j, End(s));
    } else {
      TwinEnds(r, s);
      HiddenAt(ranges, j, i, End(r));
    }
  }

  lemma OverlapHides(ranges: seq<Range>, i: nat, j: nat, addr: nat)
    requires i < |ranges| && j < |ranges| && Covers(ranges[i], addr) && Covers(ranges[j], addr)
    requires Within(ranges[i], addr) != Within(ranges[j], addr)
    ensures !AlwaysAgrees(ranges)
  {
    OverlapBreaks(ranges, i, j, addr);
    if AlwaysAgrees(ranges) {
      AlwaysIsOnce(ranges);
    }
  }

  /** Twins that end together are one range. */
  lemma TwinEnds(r: Range, s: Range)
    requires Fits(r) && Fits(s) && Twins(r, s) && r != s
    ensures End(r) != End(s)
  {
  }

  lemma HiddenAt(ranges: seq<Range>, long: nat, short: nat, addr: nat)
    requires long < |ranges| && short < |ranges| && Covers(ranges[long], addr) && Fits(ranges[long])
    requires ranges[long].base <= ranges[short].base <= addr && End(ranges[short]) <= addr
    ensures !AlwaysAgrees(ranges)
  {
    if k :| 0 <= k < |ranges| && Covers(ranges[k], addr) && ranges[k].base != ranges[long].base {
      OverlapHides(ranges, long, k, addr);
    } else {
      CopiesHide(ranges, long, short, addr);
    }
  }

  /**
   * The exact condition for all ranges, the empty, the wrapping and those of one start
   * included: however often and in whatever order they are added, the search agrees
   * with the scan if and only if no range starts inside a different one.
   */
  lemma AlwaysAgreesIff(ranges: seq<Range>)
    requires forall i :: 0 <= i < |ranges| ==> Fits(ranges[i])
    ensures AlwaysAgrees(ranges) <==> Apart(ranges)
  {
    if Apart(ranges) {
      forall added, order, addr | SameRanges(added, ranges) && SortedOrder(order, added)
        ensures Search(order, addr, 0, |order| - 1) == Scan(added, addr)
      {
        ApartRepeats(ranges, added);
        SearchIsScan(added, order, addr);
      }
    } else {
      var i, j :| 0 <= i < |ranges| && 0 <= j < |ranges| && ranges[i] != ranges[j] && Covers(ranges[i], ranges[j].base);
      InsideBreaks(ranges, i, j);
    }
  }

  /** Once each is not enough to break: a range and its shorter twin alone are searched as they are scanned. */
  lemma TwinsAloneAgree(long: Range, short: Range, order: seq<Range>, addr: nat)
    requires Twins(long, short) && (order == [long, short] || order == [short, long])
    ensures Search(order, addr, 0, 1) == Scan([long, short], addr) == Scan([short, long], addr)
  {
    assert [long, short][1..] == [short] && [short, long][1..] == [long] && [short][1..] == [long][1..] == [];
    assert Scan([short], addr) == if Covers(short, addr) then Within(short, addr) else NOT_FOUND;
    assert Scan([long], addr) == if Covers(long, addr) then Within(long, addr) else NOT_FOUND;
    assert Search(order, addr, 1, 1) == if Covers(order[1], addr) then Within(order[1], addr) else NOT_FOUND;
  }

  /** With a second short twin the search misses what the scan finds. */
  lemma ShortTwinsHide(long: Range, short: Range, addr: nat)
    requires Twins(long, short) && Covers(long, addr) && End(short) <= addr
    ensures ByBase([long, short, short])
    ensures Scan([long, short, short], addr) == Within(long, addr)
    ensures Search([long, short, short], addr, 0, 2) == NOT_FOUND
  {
    var ranges := [long, short, short];
    assert ranges[0] == long && ranges[1] == short && ranges[2] == short;
    assert Search(ranges, addr, 2, 2) == NOT_FOUND;
  }

  /** Where two ranges of different targets overlap, the order decides: sorting changes the answer. */
  lemma OverlapDisagrees(first: Range, second: Range, addr: nat)
    requires Covers(first, addr) && Covers(second, addr)
    requires second.base < first.base && first.target != second.target
    ensures ByBase([second, first]) && multiset([second, first]) == multiset([first, second])
    ensures Scan([first, second], addr) == Within(first, addr)
    ensures Search([second, first], addr, 0, 1) == Within(second, addr) != Scan([first, second], addr)
  {
    assert [first, second][0] == first && [second, first][0] == second;
  }

  /** Empty ranges inside another hide it from the search, though not from the scan. */
  lemma EmptyRangeHides(r: Range, empty: Range, addr: nat)
    requires Covers(r, addr) && empty.size == 0 && r.base <= empty.base <= addr < WORD
    ensures ByBase([r, empty, empty])
    ensures Scan([r, empty, empty], addr) == Within(r, addr)
    ensures Search([r, empty, empty], addr, 0, 2) == NOT_FOUND
  {
    var ranges := [r, empty, empty];
    assert ranges[0] == r && ranges[1] == empty && ranges[2] == empty;
    assert End(empty) == empty.base;
    assert Search(ranges, addr, 2, 2) == NOT_FOUND;
  }

  // ---------------------------------------------------------------------------
  // Interleaving
  // ---------------------------------------------------------------------------

  function RemoteOf(ranges: seq<Range>, target: nat): (r: bool) {
    if ranges == [] then false
    else if ranges[0].target == target then ranges[0].remote
    else RemoteOf(ranges[1..], target)
  }

  predicate InRegion(c: Interleave, addr: nat) {
    c.base <= addr < WordSum(c.base, c.total)
  }

  function BlockOf(c: Interleave, addr: nat): (b: nat)
    requires c.granularity > 0 && c.base <= addr
  {
    (addr - c.base) / c.granularity
  }

  function OffsetOf(c: Interleave, addr: nat): (r: nat)
    requires c.granularity > 0 && c.targets != [] && c.base <= addr
  {
    BlockOf(c, addr) / |c.targets| * c.granularity + (addr - c.base) % c.granularity
  }

  function TargetOf(c: Interleave, addr: nat): (r: nat)
    requires c.granularity > 0 && c.targets != [] && c.base <= addr
  {
    c.targets[BlockOf(c, addr) % |c.targets|]
  }

  function Spread(c: Interleave, ranges: seq<Range>, addr: nat): (d: Decoded)
    requires c.granularity > 0
  {
    if c.targets == [] || !InRegion(c, addr) then NOT_FOUND
    else
      var remote := RemoteOf(ranges, TargetOf(c, addr));
      Decoded(TargetOf(c, addr), OffsetOf(c, addr), remote, if remote then 1 else 0)
  }

  /** The address at an offset of the `i`th target. */
  function Gather(c: Interleave, i: nat, offset: nat): (addr: nat)
    requires c.granularity > 0
  {
    c.base + (offset / c.granularity * |c.targets| + i) * c.granularity + offset % c.granularity
  }

  /** Distinct targets, each given the same whole number of blocks, in a region that does not wrap. */
  predicate Even(c: Interleave) {
    && c.granularity > 0 && c.targets != []
    && (forall i, j :: 0 <= i < j < |c.targets| ==> c.targets[i] != c.targets[j])
    && c.base + c.total < WORD
    && c.total % (|c.targets| * c.granularity) == 0
  }

  lemma Less(a: nat, b: nat, d: nat, r: nat)
    requires a < b && r < d
    ensures a * d + r < b * d
  {
    assert (a + 1) * d <= b * d;
  }

  lemma Fewer(a: nat, b: nat, d: nat)
    requires a * d < b * d
    ensures a < b
  {
  }

  /** The blocks of the region: `total` is `rounds` blocks for each target. */
  lemma Blocks(c: Interleave) returns (rounds: nat)
    requires Even(c)
    ensures c.total == rounds * |c.targets| * c.granularity
    ensures c.total / |c.targets| == rounds * c.granularity
  {
    var n, g := |c.targets|, c.granularity;
    assert n * g > 0;
    rounds := c.total / (n * g);
    assert c.total == rounds * (n * g);
    assert rounds * (n * g) == (rounds * g) * n == rounds * n * g;
    DivMod(rounds * g, n, 0);
  }

  /** Block `q * n + i`, byte `r` of it, as a distance from the base, and back. */
  lemma Distance(q: nat, n: nat, i: nat, g: nat, r: nat, rounds: nat, rel: nat)
    requires i < n && r < g && q < rounds && rel == (q * n + i) * g + r
    ensures rel < rounds * n * g
    ensures rel / g == q * n + i && rel % g == r
    ensures rel / g / n == q && rel / g % n == i
  {
    Less(q, rounds, n, i);
    Less(q * n + i, rounds * n, g, r);
    DivMod(q * n + i, g, r);
    DivMod(q, n, i);
  }

  lemma RoundOf(offset: nat, g: nat, rounds: nat)
    requires g > 0 && offset < rounds * g
    ensures offset / g < rounds && offset / g * g + offset % g == offset
  {
    Fewer(offset / g, rounds, g);
  }

  /** Gathering lands in the region, and spreading gives the target and the offset back. */
  lemma SpreadGather(c: Interleave, ranges: seq<Range>, i: nat, offset: nat)
    requires Even(c) && i < |c.targets| && offset < c.total / |c.targets|
    ensures InRegion(c, Gather(c, i, offset))
    ensures Spread(c, ranges, Gather(c, i, offset)).target == c.targets[i]
    ensures Spread(c, ranges, Gather(c, i, offset)).offset == offset
  {
    var addr, q, r := GatherAt(c, i, offset);
    SpreadAt(c, ranges, addr, q, i, r);
  }

  /** Byte `r` of block `i` in round `q` of the region. */
  predicate LiesAt(c: Interleave, addr: nat, q: nat, i: nat, r: nat)
    requires c.granularity > 0 && c.targets != []
  {
    && c.base <= addr < c.base + c.total
    && (addr - c.base) % c.granularity == r
    && BlockOf(c, addr) / |c.targets| == q
    && BlockOf(c, addr) % |c.targets| == i
  }

  lemma Relative(n: nat, g: nat, rounds: nat, i: nat, offset: nat) returns (rel: nat, q: nat, r: nat)
    requires i < n && g > 0 && offset < rounds * g
    ensures rel == (offset / g * n + i) * g + offset % g && rel < rounds * n * g
    ensures rel % g == r && rel / g / n == q && rel / g % n == i && offset == q * g + r
  {
    RoundOf(offset, g, rounds);
    q, r := offset / g, offset % g;
    rel := (q * n + i) * g + r;
    Distance(q, n, i, g, r, rounds, rel);
  }

  lemma GatherAt(c: Interleave, i: nat, offset: nat) returns (addr: nat, q: nat, r: nat)
    requires Even(c) && i < |c.targets| && offset < c.total / |c.targets|
    ensures addr == Gather(c, i, offset) && LiesAt(c, addr, q, i, r) && offset == q * c.granularity + r
  {
    var rounds := Blocks(c);
    var rel;
    rel, q, r := Relative(|c.targets|, c.granularity, rounds, i, offset);
    addr := c.base + rel;
  }

  lemma SpreadAt(c: Interleave, ranges: seq<Range>, addr: nat, q: nat, i: nat, r: nat)
    requires Even(c) && i < |c.targets| && LiesAt(c, addr, q, i, r)
    ensures InRegion(c, addr)
    ensures Spread(c, ranges, addr).target == c.targets[i]
    ensures Spread(c, ranges, addr).offset == q * c.granularity + r
  {
    assert WordSum(c.base, c.total) == c.base + c.total;
  }

  /** The flag of a target is that of the first range that names it; a target no range names is local. */
  lemma {:induction false} RemoteIsFirst(ranges: seq<Range>, target: nat) returns (i: nat)
    ensures i <= |ranges| && forall j :: 0 <= j < i ==> ranges[j].target != target
    ensures if i < |ranges| then ranges[i].target == target && RemoteOf(ranges, target) == ranges[i].remote
            else !RemoteOf(ranges, target)
  {
    if ranges == [] || ranges[0].target == target {
      i := 0;
    } else {
      var k := RemoteIsFirst(ranges[1..], target);
      i := k + 1;
      forall j | 0 <= j < i ensures ranges[j].target != target {
        assert j > 0 ==> ranges[j] == ranges[1..][j - 1];
      }
    }
  }

  /**
   * Where any configuration puts an address of its region: byte `r` of block `i` in round
   * `q` goes to byte `r` of block `q` of target `i`.  Other addresses go nowhere.
   */
  lemma SpreadIs(c: Interleave, ranges: seq<Range>, addr: nat) returns (q: nat, i: nat, r: nat)
    requires c.granularity > 0
    ensures var d := Spread(c, ranges, addr);
            if c.targets != [] && c.base <= addr < (c.base + c.total) % WORD then
              && i < |c.targets| && r < c.granularity
              && addr - c.base == (q * |c.targets| + i) * c.granularity + r
              && d.target == c.targets[i] && d.offset == q * c.granularity + r
              && d.remote == RemoteOf(ranges, d.target) && d.hops == if d.remote then 1 else 0
            else d == Decoded(0xFFFF_FFFF, 0, false, 0)
  {
    q, i, r := 0, 0, 0;
    if c.targets != [] && c.base <= addr < (c.base + c.total) % WORD {
      var rel, g, n := addr - c.base, c.granularity, |c.targets|;
      q, i, r := rel / g / n, rel / g % n, rel % g;
      BlockParts(rel, g, n);
    }
  }

  lemma BlockParts(rel: nat, g: nat, n: nat)
    requires g > 0 && n > 0
    ensures rel == (rel / g / n * n + rel / g % n) * g + rel % g
  {
    var b := rel / g;
    assert b == b / n * n + b % n;
    assert rel == b * g + rel % g;
  }

  lemma Split(rel: nat, n: nat, g: nat, rounds: nat)
    requires n > 0 && g > 0 && rel < rounds * n * g
    ensures var q, i := rel / g / n, rel / g % n;
            var offset := q * g + rel % g;
            && offset < rounds * g
            && offset / g == q && offset % g == rel % g
            && (q * n + i) * g + rel % g == rel
  {
    var block := rel / g;
    assert rel == block * g + rel % g;
    Fewer(block, rounds * n, g);
    var q, i := block / n, block % n;
    assert block == q * n + i;
    Fewer(q, rounds, n);
    Less(q, rounds, g, rel % g);
    DivMod(q, g, rel % g);
  }

  /** Spreading an address of the region gives an offset inside the target, and gathering gives the address back. */
  lemma GatherSpread(c: Interleave, ranges: seq<Range>, addr: nat)
    requires Even(c) && InRegion(c, addr)
    ensures var i := BlockOf(c, addr) % |c.targets|;
            var d := Spread(c, ranges, addr);
            && d.target == c.targets[i]
            && d.offset < c.total / |c.targets|
            && Gather(c, i, d.offset) == addr
  {
    var rounds := Blocks(c);
    Split(addr - c.base, |c.targets|, c.granularity, rounds);
  }

  /** So no two addresses of the region share a target and an offset. */
  lemma SpreadInjective(c: Interleave, ranges: seq<Range>, a: nat, b: nat)
    requires Even(c) && InRegion(c, a) && InRegion(c, b)
    requires Spread(c, ranges, a).target == Spread(c, ranges, b).target
    requires Spread(c, ranges, a).offset == Spread(c, ranges, b).offset
    ensures a == b
  {
    GatherSpread(c, ranges, a);
    GatherSpread(c, ranges, b);
  }

  // ---------------------------------------------------------------------------
  // The modes
  // ---------------------------------------------------------------------------

  function Decode(mode: Mode, c: Interleave, ranges: seq<Range>, sorted: bool, addr: nat): (d: Decoded)
    requires c.granularity > 0
  {
    var byRange := if sorted then Search(ranges, addr, 0, |ranges| - 1) else Scan(ranges, addr);
    match mode
    case RangeBased => byRange
    case Interleaved => Spread(c, ranges, addr)
    case Hybrid => if byRange.target != NO_TARGET then byRange else Spread(c, ranges, addr)
  }

  /**
   * What each mode answers over any ranges while they are not sorted: the first range
   * that the address lies in, the interleaving, or the one where the other finds nothing.
   */
  lemma ModesDecide(mode: Mode, c: Interleave, ranges: seq<Range>, addr: nat) returns (i: nat)
    requires c.granularity > 0
    ensures i <= |ranges| && forall j :: 0 <= j < i ==> Outside(ranges[j], addr)
    ensures var d := Decode(mode, c, ranges, false, addr);
            match mode
            case RangeBased =>
              if i < |ranges| then DecodedFrom(ranges[i], addr, d) else d == Decoded(0xFFFF_FFFF, 0, false, 0)
            case Interleaved => d == Spread(c, ranges, addr)
            case Hybrid =>
              if i < |ranges| && ranges[i].target != 0xFFFF_FFFF then DecodedFrom(ranges[i], addr, d)
              else d == Spread(c, ranges, addr)
  {
    i := ScanIsFirst(ranges, addr);
  }

  /**
   * In hybrid mode, over ranges none of which starts inside another and which name real
   * targets, sorted or not: a range that covers the address decides, and interleaving decides
   * exactly the addresses that no range covers.
   */
  lemma HybridDecides(c: Interleave, ranges: seq<Range>, sorted: bool, addr: nat)
    requires c.granularity > 0 && Apart(ranges) && (sorted ==> ByBase(ranges))
    requires forall i :: 0 <= i < |ranges| ==> ranges[i].target != NO_TARGET
    ensures forall i :: 0 <= i < |ranges| && Covers(ranges[i], addr)
              ==> Decode(Hybrid, c, ranges, sorted, addr) == Within(ranges[i], addr)
    ensures NoneCovers(ranges, addr, 0, |ranges|) ==>
              Decode(Hybrid, c, ranges, sorted, addr) == Spread(c, ranges, addr)
  {
    FlagDoesNotMatter(c, ranges, sorted, addr);
    forall i | 0 <= i < |ranges| && Covers(ranges[i], addr)
      ensures Decode(Hybrid, c, ranges, sorted, addr) == Within(ranges[i], addr)
    {
      ScanFinds(ranges, addr, ranges[i]);
    }
    if NoneCovers(ranges, addr, 0, |ranges|) {
      ScanMisses(ranges, addr);
    }
  }

  /** Over ranges that stand in order, the flag only chooses between search and scan, and they agree. */
  lemma FlagDoesNotMatter(c: Interleave, ranges: seq<Range>, sorted: bool, addr: nat)
    requires c.granularity > 0 && Apart(ranges) && (sorted ==> ByBase(ranges))
    ensures (if sorted then Search(ranges, addr, 0, |ranges| - 1) else Scan(ranges, addr)) == Scan(ranges, addr)
    ensures forall mode :: Decode(mode, c, ranges, sorted, addr) == Decode(mode, c, ranges, false, addr)
  {
    if sorted {
      SearchIsScan(ranges, ranges, addr);
    }
  }

  lemma WhenApart(mode: Mode, c: Interleave, ranges: seq<Range>, sorted: bool, addr: nat)
    requires c.granularity > 0 && (sorted ==> ByBase(ranges))
    ensures Apart(ranges) ==> Decode(mode, c, ranges, sorted, addr) == Decode(mode, c, ranges, false, addr)
  {
    if Apart(ranges) {
      FlagDoesNotMatter(c, ranges, sorted, addr);
    }
  }

  // ---------------------------------------------------------------------------
  // What sorting the ranges changes
  // ---------------------------------------------------------------------------

  /** Whether interleaving, rather than a range, decides the address. */
  predicate ByInterleave(mode: Mode, c: Interleave, ranges: seq<Range>, addr: nat)
    requires c.granularity > 0
  {
    && c.targets != [] && InRegion(c, addr) && !mode.RangeBased?
    && (mode.Hybrid? ==> Scan(ranges, addr).target == NO_TARGET)
  }

  predicate SamePlace(d: Decoded, e: Decoded) {
    d.target == e.target && d.offset == e.offset
  }

  /** Sorting keeps the target and the offset of every address in every mode. */
  lemma SortKeepsPlace(mode: Mode, c: Interleave, ranges: seq<Range>, order: seq<Range>, addr: nat)
    requires c.granularity > 0 && Apart(ranges) && SortedOrder(order, ranges)
    ensures SamePlace(Decode(mode, c, order, true, addr), Decode(mode, c, ranges, false, addr))
  {
    SearchIsScan(ranges, order, addr);
  }

  /** Sorting keeps all that is decoded exactly if a range decides, or the target's first range has the same flag. */
  lemma SortKeepsDecodedIff(mode: Mode, c: Interleave, ranges: seq<Range>, order: seq<Range>, addr: nat)
    requires c.granularity > 0 && Apart(ranges) && SortedOrder(order, ranges)
    ensures Decode(mode, c, order, true, addr) == Decode(mode, c, ranges, false, addr)
            <==> (ByInterleave(mode, c, ranges, addr)
                  ==> RemoteOf(order, TargetOf(c, addr)) == RemoteOf(ranges, TargetOf(c, addr)))
  {
    SearchIsScan(ranges, order, addr);
  }

  /** Interleaving decides some address in favour of the target. */
  ghost predicate Serves(mode: Mode, c: Interleave, ranges: seq<Range>, target: nat)
    requires c.granularity > 0
  {
    exists addr :: ByInterleave(mode, c, ranges, addr) && TargetOf(c, addr) == target
  }

  predicate DecodesSame(mode: Mode, c: Interleave, ranges: seq<Range>, order: seq<Range>, addr: nat)
    requires c.granularity > 0
  {
    Decode(mode, c, order, true, addr) == Decode(mode, c, ranges, false, addr)
  }

  predicate FlagKept(ranges: seq<Range>, order: seq<Range>, target: nat) {
    RemoteOf(order, target) == RemoteOf(ranges, target)
  }

  lemma ServedFlagKept(mode: Mode, c: Interleave, ranges: seq<Range>, order: seq<Range>, target: nat)
    requires c.granularity > 0 && Apart(ranges) && SortedOrder(order, ranges) && Serves(mode, c, ranges, target)
    requires forall addr :: DecodesSame(mode, c, ranges, order, addr)
    ensures FlagKept(ranges, order, target)
  {
    var addr :| ByInterleave(mode, c, ranges, addr) && TargetOf(c, addr) == target;
    assert DecodesSame(mode, c, ranges, order, addr);
    SortKeepsDecodedIff(mode, c, ranges, order, addr);
  }

  lemma FlagsKeptSuffice(mode: Mode, c: Interleave, ranges: seq<Range>, order: seq<Range>, addr: nat)
    requires c.granularity > 0 && Apart(ranges) && SortedOrder(order, ranges)
    requires forall t :: Serves(mode, c, ranges, t) ==> FlagKept(ranges, order, t)
    ensures DecodesSame(mode, c, ranges, order, addr)
  {
    SortKeepsDecodedIff(mode, c, ranges, order, addr);
    if ByInterleave(mode, c, ranges, addr) {
      assert Serves(mode, c, ranges, TargetOf(c, addr));
      assert FlagKept(ranges, order, TargetOf(c, addr));
    }
  }

  /** For all addresses at once: the flag of each target that interleaving serves must survive the sorting. */
  lemma SortKeepsAllIff(mode: Mode, c: Interleave, ranges: seq<Range>, order: seq<Range>)
    requires c.granularity > 0 && Apart(ranges) && SortedOrder(order, ranges)
    ensures (forall addr :: DecodesSame(mode, c, ranges, order, addr))
            <==> forall t :: Serves(mode, c, ranges, t) ==> FlagKept(ranges, order, t)
  {
    if forall addr :: DecodesSame(mode, c, ranges, order, addr) {
      forall t | Serves(mode, c, ranges, t) ensures FlagKept(ranges, order, t) {
        ServedFlagKept(mode, c, ranges, order, t);
      }
    } else if forall t :: Serves(mode, c, ranges, t) ==> FlagKept(ranges, order, t) {
      forall addr ensures DecodesSame(mode, c, ranges, order, addr) {
        FlagsKeptSuffice(mode, c, ranges, order, addr);
      }
    }
  }

  /** All ranges of a target carry one flag. */
  predicate OneFlag(ranges: seq<Range>) {
    forall i, j :: 0 <= i < |ranges| && 0 <= j < |ranges| && ranges[i].target == ranges[j].target
                   ==> ranges[i].remote == ranges[j].remote
  }

  lemma {:induction false} RemoteOfAny(ranges: seq<Range>, r: Range)
    requires OneFlag(ranges) && r in ranges
    ensures RemoteOf(ranges, r.target) == r.remote
  {
    if ranges[0].target != r.target {
      RemoteOfAny(ranges[1..], r);
    }
  }

  lemma {:induction false} RemoteOfNone(ranges: seq<Range>, target: nat)
    requires forall i :: 0 <= i < |ranges| ==> ranges[i].target != target
    ensures !RemoteOf(ranges, target)
  {
    if ranges != [] {
      RemoteOfNone(ranges[1..], target);
    }
  }

  lemma OneFlagSurvives(ranges: seq<Range>, order: seq<Range>, target: nat)
    requires OneFlag(ranges) && multiset(order) == multiset(ranges)
    ensures RemoteOf(order, target) == RemoteOf(ranges, target)
  {
    forall i | 0 <= i < |order| ensures order[i] in ranges {
      SameMembers(order, ranges, order[i]);
    }
    if i :| 0 <= i < |order| && order[i].target == target {
      RemoteOfAny(order, order[i]);
      RemoteOfAny(ranges, order[i]);
    } else {
      forall i | 0 <= i < |ranges| ensures ranges[i].target != target {
        SameMembers(order, ranges, ranges[i]);
      }
      RemoteOfNone(order, target);
      RemoteOfNone(ranges, target);
    }
  }

  /** A condition on the ranges alone: with one flag for each target, sorting changes nothing that is decoded. */
  lemma OneFlagKeepsAll(mode: Mode, c: Interleave, ranges: seq<Range>, order: seq<Range>, addr: nat)
    requires c.granularity > 0 && Apart(ranges) && SortedOrder(order, ranges) && OneFlag(ranges)
    ensures Decode(mode, c, order, true, addr) == Decode(mode, c, ranges, false, addr)
  {
    SortKeepsDecodedIff(mode, c, ranges, order, addr);
    if ByInterleave(mode, c, ranges, addr) {
      OneFlagSurvives(ranges, order, TargetOf(c, addr));
    }
  }

  /** A target with a remote and a local range, added against the order of their bases: sorting turns its flag. */
  lemma SortChangesRemote(c: Interleave, first: Range, second: Range, addr: nat)
    requires c.granularity > 0 && c.targets != [] && InRegion(c, addr)
    requires !Covers(second, first.base) && second.base < first.base
    requires first.target == second.target == TargetOf(c, addr) && first.remote != second.remote
    requires !Covers(first, addr) && !Covers(second, addr)
    ensures Apart([first, second]) && SortedOrder([second, first], [first, second])
    ensures forall mode: Mode :: !mode.RangeBased? ==>
              && Decode(mode, c, [first, second], false, addr).remote == first.remote
              && Decode(mode, c, [second, first], true, addr).remote == second.remote
  {
    var ranges, order := [first, second], [second, first];
    assert ranges[0] == first && ranges[1] == second && order[0] == second && order[1] == first;
    assert multiset(order) == multiset(ranges);
    assert Apart(ranges);
    ScanMisses(ranges, addr);
    SearchIsScan(ranges, order, addr);
  }

  // ---------------------------------------------------------------------------
  // The decoder, in place
  // ---------------------------------------------------------------------------

  /** A sorted permutation of the ranges; the order of ranges with the same base does not matter. */
  method SortByBase(ranges: seq<Range>) returns (order: seq<Range>)
    ensures SortedOrder(order, ranges)
  {
    order := [];
    for i := 0 to |ranges|
      invariant SortedOrder(order, ranges[..i])
    {
      PlacedByBase(ranges[i], order);
      order := Placed(ranges[i], order, BaseOf);
      assert ranges[..i + 1] == ranges[..i] + [ranges[i]];
    }
    assert ranges[..|ranges|] == ranges;
  }

  class Decoder {
    const mode: Mode
    var ranges: seq<Range>
    var interleave: Interleave
    var sorted: bool

    ghost predicate Valid()
      reads this
    {
      interleave.granularity > 0 && (sorted ==> ByBase(ranges))
    }

    constructor (mode: Mode)
      ensures Valid() && this.mode == mode && ranges == [] && !sorted
      ensures interleave == Interleave(256, [], 0, 0)
    {
      this.mode := mode;
      ranges, sorted, interleave := [], false, Interleave(256, [], 0, 0);
    }

    method AddRange(base: nat, size: nat, target: nat, remote: bool)
      requires Valid()
      modifies `ranges, `sorted
      ensures Valid() && ranges == old(ranges) + [Range(base, size, target, remote)] && !sorted
    {
      ranges := ranges + [Range(base, size, target, remote)];
      sorted := false;
    }

    method ConfigureInterleave(granularity: nat, targets: seq<nat>, base: nat, total: nat)
      requires Valid() && IsGranularity(granularity)
      modifies `interleave
      ensures Valid() && interleave == Interleave(granularity, targets, base, total)
    {
      interleave := Interleave(granularity, targets, base, total);
    }

    /**
     * After sorting, every address is searched as it was scanned before and decodes to
     * the same place, provided no range starts inside another; see `SortKeepsAllIff`
     * for when the remote flag is kept too.
     */
    method SortRanges()
      requires Valid()
      modifies `ranges, `sorted
      ensures Valid() && sorted && multiset(ranges) == multiset(old(ranges))
      ensures Apart(old(ranges)) ==>
                && (forall addr :: Search(ranges, addr, 0, |ranges| - 1) == Scan(old(ranges), addr))
                && (forall addr :: SamePlace(Decode(mode, interleave, ranges, true, addr),
                                             Decode(mode, interleave, old(ranges), false, addr)))
    {
      var order := SortByBase(ranges);
      if Apart(ranges) {
        forall addr
          ensures Search(order, addr, 0, |order| - 1) == Scan(ranges, addr)
          ensures SamePlace(Decode(mode, interleave, order, true, addr), Decode(mode, interleave, ranges, false, addr))
        {
          SearchIsScan(ranges, order, addr);
          SortKeepsPlace(mode, interleave, ranges, order, addr);
        }
      }
      ranges, sorted := order, true;
    }

    method ScanRanges(addr: nat) returns (d: Decoded)
      ensures d == Scan(ranges, addr)
    {
      for i := 0 to |ranges|
        invariant Scan(ranges, addr) == Scan(ranges[i..], addr)
      {
        if Covers(ranges[i], addr) {
          return Within(ranges[i], addr);
        }
        assert ranges[i..][1..] == ranges[i + 1..];
      }
      return NOT_FOUND;
    }

    method SearchRanges(addr: nat) returns (d: Decoded)
      ensures d == Search(ranges, addr, 0, |ranges| - 1)
    {
      var lo, hi := 0, |ranges| - 1;
      while lo <= hi
        invariant 0 <= lo <= hi + 1 <= |ranges|
        invariant Search(ranges, addr, lo, hi) == Search(ranges, addr, 0, |ranges| - 1)
      {
        var mid := lo + (hi - lo) / 2;
        if addr < ranges[mid].base {
          hi := mid - 1;
        } else if addr >= End(ranges[mid]) {
          lo := mid + 1;
        } else {
          return Within(ranges[mid], addr);
        }
      }
      return NOT_FOUND;
    }

    method DecodeRange(addr: nat) returns (d: Decoded)
      requires Valid()
      ensures d == if sorted then Search(ranges, addr, 0, |ranges| - 1) else Scan(ranges, addr)
      ensures Apart(ranges) ==> d == Scan(ranges, addr)
      ensures FromSome(ranges, addr, d)
    {
      FromSomeRange(ranges, sorted, addr);
      if sorted {
        d := SearchRanges(addr);
      } else {
        d := ScanRanges(addr);
      }
    }

    method IsRemote(target: nat) returns (r: bool)
      ensures r == RemoteOf(ranges, target)
    {
      for i := 0 to |ranges|
        invariant RemoteOf(ranges, target) == RemoteOf(ranges[i..], target)
      {
        if ranges[i].target == target {
          return ranges[i].remote;
        }
        assert ranges[i..][1..] == ranges[i + 1..];
      }
      return false;
    }

    method DecodeInterleaved(addr: nat) returns (d: Decoded)
      requires Valid()
      ensures d == Spread(interleave, ranges, addr)
    {
      if interleave.targets == [] || !InRegion(interleave, addr) {
        return NOT_FOUND;
      }
      var target := TargetOf(interleave, addr);
      var remote := IsRemote(target);
      return Decoded(target, OffsetOf(interleave, addr), remote, if remote then 1 else 0);
    }

    method DecodeAddress(addr: nat) returns (d: Decoded)
      requires Valid()
      ensures d == Decode(mode, interleave, ranges, sorted, addr)
      ensures Apart(ranges) ==> d == Decode(mode, interleave, ranges, false, addr)
    {
      WhenApart(mode, interleave, ranges, sorted, addr);
      match mode
      case RangeBased => d := DecodeRange(addr);
      case Interleaved => d := DecodeInterleaved(addr);
      case Hybrid =>
        d := DecodeRange(addr);
        if d.target == NO_TARGET {
          d := DecodeInterleaved(addr);
        }
    }
  }
}
