/**
 * The expander's index of the addresses it holds: sorted, merged into spans of
 * consecutive addresses and searched for the first span that does not end before the
 * address.
 *
 * The results: a freshly built index answers exactly membership; on every run an
 * answer is membership in the addresses held when the spans were last built; and
 * since each query of the program follows a call that marks the index valid without
 * building the spans, the program's queries all answer that the address is not local.
 */
module AddressIndex {
  import opened Sequences
  import opened Words

  type Address = a: nat | a < WORD

  datatype Span = Span(start: Address, end: Address)

  // ---------------------------------------------------------------------------
  // Sorting and merging
  // ---------------------------------------------------------------------------

  predicate Ascending(s: seq<Address>) {
    forall i, j :: 0 <= i < j < |s| ==> s[i] <= s[j]
  }

  function Itself(a: Address): (r: int) {
    a
  }

  function Sort(s: seq<Address>): (r: seq<Address>) {
    SortBy(s, Itself)
  }

  lemma SortAscending(s: seq<Address>)
    ensures Ascending(Sort(s)) && multiset(Sort(s)) == multiset(s)
  {
    SortAscends(s, Itself);
    var r := Sort(s);
    forall i, j | 0 <= i < j < |r| ensures r[i] <= r[j] {
      assert Itself(r[i]) <= Itself(r[j]);
    }
  }

  /** The spans when `current` is still growing and `rest` is to come; the end wraps at 64 bits. */
  function Merge(current: Span, rest: seq<Address>): (r: seq<Span>)
    ensures r != []
    decreases |rest|
  {
    if rest == [] then [current]
    else if rest[0] == WordSum(current.end, 1) then Merge(Span(current.start, rest[0]), rest[1..])
    else [current] + Merge(Span(rest[0], rest[0]), rest[1..])
  }

  function Spans(occupation: seq<Address>): (r: seq<Span>) {
    var s := Sort(occupation);
    if s == [] then [] else Merge(Span(s[0], s[0]), s[1..])
  }

  ghost predicate InSpans(spans: seq<Span>, x: Address) {
    exists i :: 0 <= i < |spans| && spans[i].start <= x <= spans[i].end
  }

  /** Starts and ends both ascend; spans may overlap where an address is held twice. */
  predicate Ordered(spans: seq<Span>) {
    && (forall i :: 0 <= i < |spans| ==> spans[i].start <= spans[i].end)
    && (forall i, j :: 0 <= i < j < |spans| ==> spans[i].start <= spans[j].start && spans[i].end <= spans[j].end)
  }

  lemma InSpansSplit(span: Span, spans: seq<Span>, x: Address)
    ensures InSpans([span] + spans, x) <==> span.start <= x <= span.end || InSpans(spans, x)
  {
    var all := [span] + spans;
    if InSpans(all, x) {
      var i :| 0 <= i < |all| && all[i].start <= x <= all[i].end;
      assert i > 0 ==> spans[i - 1] == all[i];
    }
    if span.start <= x <= span.end {
      assert all[0] == span;
    }
    if InSpans(spans, x) {
      var i :| 0 <= i < |spans| && spans[i].start <= x <= spans[i].end;
      assert all[i + 1] == spans[i];
    }
  }

  lemma {:induction false} MergeOrdered(current: Span, rest: seq<Address>)
    requires current.start <= current.end && Ascending(rest) && (rest == [] || current.end <= rest[0])
    ensures Ordered(Merge(current, rest))
    ensures Merge(current, rest)[0].start == current.start && Merge(current, rest)[0].end >= current.end
    decreases |rest|
  {
    if rest != [] {
      var a, later := rest[0], rest[1..];
      if a == WordSum(current.end, 1) {
        MergeOrdered(Span(current.start, a), later);
      } else {
        MergeOrdered(Span(a, a), later);
        OrderedCons(current, Merge(Span(a, a), later));
      }
    }
  }

  lemma OrderedCons(span: Span, spans: seq<Span>)
    requires Ordered(spans) && spans != [] && span.start <= span.end
    requires span.start <= spans[0].start && span.end <= spans[0].end
    ensures Ordered([span] + spans)
  {
  }

  /** The merged spans hold exactly the addresses given. */
  lemma {:induction false} MergeHolds(current: Span, rest: seq<Address>, x: Address)
    requires current.start <= current.end && Ascending(rest) && (rest == [] || current.end <= rest[0])
    ensures InSpans(Merge(current, rest), x) <==> current.start <= x <= current.end || x in rest
    decreases |rest|
  {
    if rest == [] {
      InSpansSplit(current, [], x);
      assert [current] + [] == [current];
    } else {
      var a, later := rest[0], rest[1..];
      assert rest == [a] + later;
      if a == WordSum(current.end, 1) {
        MergeHolds(Span(current.start, a), later, x);
      } else {
        MergeHolds(Span(a, a), later, x);
        InSpansSplit(current, Merge(Span(a, a), later), x);
      }
    }
  }

  lemma SpansHold(occupation: seq<Address>, x: Address)
    ensures Ordered(Spans(occupation))
    ensures InSpans(Spans(occupation), x) <==> x in occupation
  {
    var s := Sort(occupation);
    SortAscending(occupation);
    SameMembers(s, occupation, x);
    if s != [] {
      MergedHold(s, x);
    }
  }

  lemma MergedHold(s: seq<Address>, x: Address)
    requires s != [] && Ascending(s)
    ensures var spans := Merge(Span(s[0], s[0]), s[1..]); Ordered(spans) && (InSpans(spans, x) <==> x in s)
  {
    var first, rest := Span(s[0], s[0]), s[1..];
    assert s == [s[0]] + rest;
    MergeOrdered(first, rest);
    MergeHolds(first, rest, x);
  }

  /** The addresses of a span, one by one. */
  function Stretch(start: Address, end: Address): (r: seq<Address>)
    requires start <= end
    ensures |r| == end - start + 1 && forall i :: 0 <= i < |r| ==> r[i] == start + i
  {
    seq(end - start + 1, i requires 0 <= i < end - start + 1 => start + i)
  }

  /** All addresses of the spans, in order. */
  function Expanded(spans: seq<Span>): (r: seq<Address>)
    requires forall i :: 0 <= i < |spans| ==> spans[i].start <= spans[i].end
  {
    if spans == [] then [] else Stretch(spans[0].start, spans[0].end) + Expanded(spans[1..])
  }

  /** No span could be joined with the next. */
  predicate Unjoinable(spans: seq<Span>) {
    forall i :: 0 <= i < |spans| - 1 ==> spans[i].end + 1 != spans[i + 1].start
  }

  lemma NextAddress(end: Address, a: Address)
    requires end <= a
    ensures a == WordSum(end, 1) <==> a == end + 1
  {
    WordSumWraps(end, 1);
  }

  lemma StretchNext(start: Address, end: Address, a: Address, later: seq<Address>)
    requires start <= end && a == end + 1
    ensures Stretch(start, a) + later == Stretch(start, end) + ([a] + later)
  {
    assert Stretch(start, a) == Stretch(start, end) + [a];
  }

  lemma StretchNew(start: Address, end: Address, a: Address, later: seq<Address>)
    requires start <= end
    ensures Stretch(start, end) + (Stretch(a, a) + later) == Stretch(start, end) + ([a] + later)
  {
    assert Stretch(a, a) == [a];
  }

  /** Merging loses and repeats nothing, and joins all it can. */
  lemma {:induction false} MergeExpands(current: Span, rest: seq<Address>)
    requires current.start <= current.end && Ascending(rest) && (rest == [] || current.end <= rest[0])
    ensures Ordered(Merge(current, rest))
    ensures Expanded(Merge(current, rest)) == Stretch(current.start, current.end) + rest
    ensures Unjoinable(Merge(current, rest)) && Merge(current, rest)[0].start == current.start
    decreases |rest|
  {
    MergeOrdered(current, rest);
    if rest == [] {
      assert Expanded([current]) == Stretch(current.start, current.end) + [];
    } else {
      var a, later := rest[0], rest[1..];
      assert rest == [a] + later;
      NextAddress(current.end, a);
      if a == WordSum(current.end, 1) {
        MergeExpands(Span(current.start, a), later);
        StretchNext(current.start, current.end, a, later);
      } else {
        MergeExpands(Span(a, a), later);
        ExpandedCons(current, Merge(Span(a, a), later));
        StretchNew(current.start, current.end, a, later);
      }
    }
  }

  lemma ExpandedCons(span: Span, spans: seq<Span>)
    requires span.start <= span.end && Ordered(spans)
    ensures forall i :: 0 <= i < |[span] + spans| ==> ([span] + spans)[i].start <= ([span] + spans)[i].end
    ensures Expanded([span] + spans) == Stretch(span.start, span.end) + Expanded(spans)
    ensures Unjoinable(spans) && (spans != [] ==> span.end + 1 != spans[0].start) ==> Unjoinable([span] + spans)
  {
    var all := [span] + spans;
    assert all[1..] == spans;
    forall i | 0 <= i < |all| ensures all[i].start <= all[i].end {
      assert i > 0 ==> all[i] == spans[i - 1];
    }
    if Unjoinable(spans) && (spans != [] ==> span.end + 1 != spans[0].start) {
      forall i | 0 <= i < |all| - 1 ensures all[i].end + 1 != all[i + 1].start {
        assert all[i + 1] == spans[i] && (i > 0 ==> all[i] == spans[i - 1]);
      }
    }
  }

  /** The spans, written out, are the held addresses in order, repetitions included; none joins the next. */
  lemma SpansExpand(occupation: seq<Address>)
    ensures Ordered(Spans(occupation)) && Unjoinable(Spans(occupation))
    ensures Expanded(Spans(occupation)) == Sort(occupation)
  {
    var s := Sort(occupation);
    SortAscending(occupation);
    if s != [] {
      MergeExpands(Span(s[0], s[0]), s[1..]);
      assert Stretch(s[0], s[0]) + s[1..] == s;
    }
  }

  // ---------------------------------------------------------------------------
  // The query
  // ---------------------------------------------------------------------------

  /** The first span that does not end before the address. */
  function FirstEnding(spans: seq<Span>, x: Address): (k: nat)
    ensures k <= |spans|
    ensures k < |spans| ==> x <= spans[k].end
    ensures forall i :: 0 <= i < k ==> spans[i].end < x
  {
    if spans == [] || x <= spans[0].end then 0 else 1 + FirstEnding(spans[1..], x)
  }

  lemma {:induction false} FirstEndingIs(spans: seq<Span>, x: Address, k: nat)
    requires k <= |spans| && (k < |spans| ==> x <= spans[k].end)
    requires forall i :: 0 <= i < k ==> spans[i].end < x
    ensures FirstEnding(spans, x) == k
  {
    if k > 0 {
      FirstEndingIs(spans[1..], x, k - 1);
    }
  }

  predicate Local(spans: seq<Span>, x: Address) {
    var k := FirstEnding(spans, x);
    k < |spans| && spans[k].start <= x
  }

  lemma LocalIffInSpans(spans: seq<Span>, x: Address)
    requires Ordered(spans)
    ensures Local(spans, x) <==> InSpans(spans, x)
  {
    if InSpans(spans, x) {
      var i :| 0 <= i < |spans| && spans[i].start <= x <= spans[i].end;
      var k := FirstEnding(spans, x);
      assert k <= i;
      assert k == i || spans[k].start <= spans[i].start;
    }
  }

  // ---------------------------------------------------------------------------
  // Every run
  // ---------------------------------------------------------------------------

  datatype Index = Index(occupation: seq<Address>, spans: seq<Span>, valid: bool)

  const EMPTY: Index := Index([], [], false)

  /** `Change` is any operation that leaves other addresses held; it may or may not mark the index invalid. */
  datatype Op =
    | Change(held: seq<Address>, invalidates: bool)
    | UpdateAddressCache
    | Query(addr: Address)

  function Step(s: Index, op: Op): (r: Index) {
    match op
    case Change(held, invalidates) => Index(held, s.spans, s.valid && !invalidates)
    case UpdateAddressCache => s.(valid := true)
    case Query(_) => if s.valid then s else Index(Sort(s.occupation), Spans(s.occupation), true)
  }

  predicate Answer(s: Index, addr: Address) {
    Local(Step(s, Query(addr)).spans, addr)
  }

  function Exec(run: seq<Op>): (r: Index) {
    if run == [] then EMPTY else Step(Exec(run[..|run| - 1]), run[|run| - 1])
  }

  /** The addresses held when the spans were last built. */
  function Snapshot(run: seq<Op>): (r: seq<Address>) {
    if run == [] then []
    else
      var before := run[..|run| - 1];
      if run[|run| - 1].Query? && !Exec(before).valid then Exec(before).occupation else Snapshot(before)
  }

  lemma {:induction false} SpansAreSnapshot(run: seq<Op>)
    ensures Exec(run).spans == Spans(Snapshot(run))
  {
    if run != [] {
      SpansAreSnapshot(run[..|run| - 1]);
    }
  }

  lemma LocalIffHeld(occupation: seq<Address>, addr: Address)
    ensures Local(Spans(occupation), addr) <==> addr in occupation
  {
    SpansHold(occupation, addr);
    LocalIffInSpans(Spans(occupation), addr);
  }

  /** After every run: an invalid index answers membership, a valid one membership when the spans were last built. */
  lemma AnswersSnapshot(run: seq<Op>, addr: Address)
    ensures var s := Exec(run);
            Answer(s, addr) <==> if s.valid then addr in Snapshot(run) else addr in s.occupation
  {
    SpansAreSnapshot(run);
    LocalIffHeld(Snapshot(run), addr);
    LocalIffHeld(Exec(run).occupation, addr);
  }

  /** Operation `i` made the index valid, and nothing since invalidated it. */
  predicate ValidSince(run: seq<Op>, i: nat) {
    && i < |run| && !run[i].Change?
    && forall j :: i < j < |run| && run[j].Change? ==> !run[j].invalidates
  }

  /** The addresses that were last left held. */
  function LastHeld(run: seq<Op>): (r: seq<Address>) {
    if run == [] then []
    else if run[|run| - 1].Change? then run[|run| - 1].held
    else LastHeld(run[..|run| - 1])
  }

  lemma ValidNext(run: seq<Op>, i: nat)
    requires i < |run| - 1
    ensures var last := run[|run| - 1];
            ValidSince(run, i) <==> ValidSince(run[..|run| - 1], i) && !(last.Change? && last.invalidates)
  {
    var before := run[..|run| - 1];
    assert forall j :: 0 <= j < |before| ==> before[j] == run[j];
  }

  /** After every run: the index is valid exactly if built or updated since the last invalidation. */
  lemma {:induction false} IndexIsHistory(run: seq<Op>)
    ensures Exec(run).valid <==> exists i: nat :: ValidSince(run, i)
    ensures multiset(Exec(run).occupation) == multiset(LastHeld(run))
  {
    if run != [] {
      var n := |run| - 1;
      var before, last := run[..n], run[n];
      IndexIsHistory(before);
      SortAscending(Exec(before).occupation);
      forall i: nat | i < n
        ensures ValidSince(run, i) <==> ValidSince(before, i) && !(last.Change? && last.invalidates)
      {
        ValidNext(run, i);
      }
      if !last.Change? {
        assert ValidSince(run, n);
      }
    }
  }

  /** As the program queries: only after the address cache was updated, with at most other queries between. */
  predicate Guarded(run: seq<Op>) {
    forall i :: 0 <= i < |run| && run[i].Query? ==> i > 0 && (run[i - 1].UpdateAddressCache? || run[i - 1].Query?)
  }

  lemma {:induction false} GuardedNeverBuilds(run: seq<Op>)
    requires Guarded(run)
    ensures Snapshot(run) == []
    ensures run != [] && !run[|run| - 1].Change? ==> Exec(run).valid
  {
    if run != [] {
      var before := run[..|run| - 1];
      assert forall i :: 0 <= i < |before| ==> before[i] == run[i];
      GuardedNeverBuilds(before);
    }
  }

  /** So no query of the program ever answers that an address is local, whatever is held. */
  lemma GuardedNeverLocal(run: seq<Op>, addr: Address)
    requires Guarded(run + [Query(addr)])
    ensures !Answer(Exec(run), addr)
  {
    var all := run + [Query(addr)];
    assert forall i :: 0 <= i < |run| ==> run[i] == all[i];
    assert Guarded(run);
    GuardedNeverBuilds(run);
    assert all[|run|] == Query(addr) && all[|run| - 1] == run[|run| - 1];
    AnswersSnapshot(run, addr);
  }

  // ---------------------------------------------------------------------------
  // The index, in place
  // ---------------------------------------------------------------------------

  method MergeAll(sorted: seq<Address>) returns (spans: seq<Span>)
    requires sorted != []
    ensures spans == Merge(Span(sorted[0], sorted[0]), sorted[1..])
  {
    spans := [];
    var current := Span(sorted[0], sorted[0]);
    for i := 1 to |sorted|
      invariant spans + Merge(current, sorted[i..]) == Merge(Span(sorted[0], sorted[0]), sorted[1..])
    {
      assert sorted[i..][1..] == sorted[i + 1..];
      if sorted[i] == WordSum(current.end, 1) {
        current := Span(current.start, sorted[i]);
      } else {
        spans := spans + [current];
        current := Span(sorted[i], sorted[i]);
      }
    }
    spans := spans + [current];
  }

  class Indexed {
    var occupation: seq<Address>
    var addressCache: set<nat>
    var spans: seq<Span>
    var valid: bool

    constructor ()
      ensures View() == EMPTY
    {
      occupation, addressCache, spans, valid := [], {}, [], false;
    }

    function View(): (s: Index)
      reads this
    {
      Index(occupation, spans, valid)
    }

    method UpdateAddressCache()
      modifies `addressCache, `valid
      ensures View() == Step(old(View()), Op.UpdateAddressCache)
      ensures !old(valid) ==> addressCache == Elements(occupation)
    {
      if valid {
        return;
      }
      addressCache := {};
      for i := 0 to |occupation|
        invariant addressCache == Elements(occupation[..i])
      {
        addressCache := addressCache + {occupation[i]};
        assert occupation[..i + 1] == occupation[..i] + [occupation[i]];
      }
      assert occupation[..|occupation|] == occupation;
      valid := true;
    }

    method UpdateRangeCache()
      modifies `occupation, `spans, `valid
      ensures valid
      ensures old(valid) ==> occupation == old(occupation) && spans == old(spans)
      ensures !old(valid) ==> occupation == Sort(old(occupation)) && spans == Spans(old(occupation))
    {
      if valid {
        return;
      }
      spans := [];
      occupation := Sort(occupation);
      if occupation == [] {
        valid := true;
        return;
      }
      spans := MergeAll(occupation);
      valid := true;
    }

    /** The standard library's lower bound, over ends that ascend. */
    method LowerBound(addr: Address) returns (k: nat)
      requires Ordered(spans)
      ensures k == FirstEnding(spans, addr)
    {
      var lo, hi := 0, |spans|;
      while lo < hi
        invariant 0 <= lo <= hi <= |spans|
        invariant forall i :: 0 <= i < lo ==> spans[i].end < addr
        invariant forall i :: hi <= i < |spans| ==> addr <= spans[i].end
      {
        var mid := lo + (hi - lo) / 2;
        if spans[mid].end < addr {
          lo := mid + 1;
        } else {
          hi := mid;
        }
      }
      k := lo;
      FirstEndingIs(spans, addr, k);
    }

    method IsAddressLocal(addr: Address) returns (r: bool)
      requires valid ==> Ordered(spans)
      modifies `occupation, `spans, `valid
      ensures View() == Step(old(View()), Query(addr))
      ensures r == Answer(old(View()), addr) && Ordered(spans)
      ensures !old(valid) ==> (r <==> addr in old(occupation))
    {
      if !valid {
        SpansHold(occupation, addr);
        LocalIffHeld(occupation, addr);
        UpdateRangeCache();
      }
      var k := LowerBound(addr);
      r := k < |spans| && spans[k].start <= addr <= spans[k].end;
    }
  }
}
