/**
 * The huge-page policy's translation model: one TLB per page size, each an LRU list
 * of pages, and a record of the virtual addresses already translated.  The results
 * give the exact condition for a hit over every run of walks and tie the statistics
 * to the run.  The returned latency is represented by which of the three cases
 * applies.
 */
module HugePages {
  import opened Arithmetic
  import opened RecencyStack
  import opened Sequences
  import opened Wrappers

  datatype PageSize = CacheLine | Page4K | Huge2M | Huge1G

  datatype Level = K4 | M2 | G1

  /** No walk needed, only the TLB refilled, or a full page-table walk. */
  datatype WalkKind = Hit | Refill | FullWalk

  datatype Tlb = Tlb(entries: seq<nat>, hits: nat, misses: nat)

  datatype Policy = Policy(k4: Tlb, m2: Tlb, g1: Tlb, vaPa: map<nat, nat>, walks: nat)

  datatype Walk = Walk(va: nat, pa: nat, size: PageSize)

  function LevelOf(size: PageSize): (r: Level) {
    match size
    case Huge2M => M2
    case Huge1G => G1
    case _ => K4
  }

  function Capacity(l: Level): (r: nat)
    ensures 1 <= r
  {
    match l
    case K4 => 64
    case M2 => 32
    case G1 => 4
  }

  function PageBytes(l: Level): (r: nat)
    ensures 0 < r
  {
    match l
    case K4 => 4096
    case M2 => 2097152
    case G1 => 1073741824
  }

  function PageOf(va: nat, l: Level): (r: nat)
    ensures r <= va < r + PageBytes(l)
  {
    va - va % PageBytes(l)
  }

  function At(s: Policy, l: Level): (r: Tlb) {
    match l
    case K4 => s.k4
    case M2 => s.m2
    case G1 => s.g1
  }

  function With(s: Policy, l: Level, t: Tlb): (r: Policy)
    ensures At(r, l) == t && forall m :: m != l ==> At(r, m) == At(s, m)
  {
    match l
    case K4 => s.(k4 := t)
    case M2 => s.(m2 := t)
    case G1 => s.(g1 := t)
  }

  function Inserted(entries: seq<nat>, page: nat, capacity: nat): (r: seq<nat>) {
    var kept := Without(entries, page);
    [page] + if |kept| >= capacity > 0 then kept[..|kept| - 1] else kept
  }

  function KindOf(s: Policy, w: Walk): (r: WalkKind) {
    var l := LevelOf(w.size);
    if PageOf(w.va, l) in At(s, l).entries then Hit else if w.va in s.vaPa then Refill else FullWalk
  }

  function Step(s: Policy, w: Walk): (r: Policy) {
    var l := LevelOf(w.size);
    var page, t := PageOf(w.va, l), At(s, l);
    match KindOf(s, w)
    case Hit => With(s, l, t.(entries := Touch(t.entries, page), hits := t.hits + 1))
    case Refill => With(s, l, Tlb(Inserted(t.entries, page, Capacity(l)), t.hits, t.misses + 1))
    case FullWalk =>
      With(s, l, Tlb(Inserted(t.entries, page, Capacity(l)), t.hits, t.misses + 1))
        .(vaPa := s.vaPa[w.va := w.pa], walks := s.walks + 1)
  }

  const EMPTY: Tlb := Tlb([], 0, 0)

  function Exec(run: seq<Walk>): (r: Policy) {
    if run == [] then Policy(EMPTY, EMPTY, EMPTY, map[], 0) else Step(Exec(run[..|run| - 1]), run[|run| - 1])
  }

  // ---------------------------------------------------------------------------
  // Every run
  // ---------------------------------------------------------------------------

  /** The pages walked at one level, in order. */
  function Pages(run: seq<Walk>, l: Level): (r: seq<nat>) {
    if run == [] then []
    else
      var w := run[|run| - 1];
      Pages(run[..|run| - 1], l) + (if LevelOf(w.size) == l then [PageOf(w.va, l)] else [])
  }

  lemma WalkIsTouch(entries: seq<nat>, page: nat, c: nat)
    requires Distinct(entries) && |entries| <= c && 1 <= c
    ensures page in entries ==> Touch(entries, page) == Take(Touch(entries, page), c)
    ensures page !in entries ==> Inserted(entries, page, c) == Take(Touch(entries, page), c)
  {
    WithoutDistinct(entries, page);
    if page !in entries {
      WithoutAbsent(entries, page);
    }
  }

  lemma StepEntries(s: Policy, w: Walk, l: Level)
    requires Distinct(At(s, l).entries) && |At(s, l).entries| <= Capacity(l)
    ensures At(Step(s, w), l).entries
            == if LevelOf(w.size) == l then Take(Touch(At(s, l).entries, PageOf(w.va, l)), Capacity(l))
               else At(s, l).entries
  {
    WalkIsTouch(At(s, l).entries, PageOf(w.va, l), Capacity(l));
  }

  /** After every run a TLB holds the most recently walked distinct pages of its level, as many as fit. */
  lemma {:induction false} EntriesAreRecency(run: seq<Walk>, l: Level)
    ensures At(Exec(run), l).entries == Take(Stack(Pages(run, l)), Capacity(l))
  {
    if run != [] {
      var before, w := run[..|run| - 1], run[|run| - 1];
      EntriesAreRecency(before, l);
      var t, page := Pages(before, l), PageOf(w.va, l);
      StackDistinct(t);
      StepEntries(Exec(before), w, l);
      TouchTake(Stack(t), page, Capacity(l));
      StackSnoc(t, page);
      assert t + [] == t;
    }
  }

  /** A walk hits exactly when its page was walked before and fewer than the capacity of others since. */
  lemma HitIff(run: seq<Walk>, w: Walk)
    ensures var l := LevelOf(w.size);
            var page, t := PageOf(w.va, l), Pages(run, l);
            KindOf(Exec(run), w) == Hit <==> page in t && |UsedSince(t, page)| < Capacity(l)
  {
    var l := LevelOf(w.size);
    EntriesAreRecency(run, l);
    ReuseDistance(Pages(run, l), PageOf(w.va, l), Capacity(l));
  }

  /** The hit and miss counters of a level are those of its own walks. */
  lemma {:induction false} StatsAreHistory(run: seq<Walk>, l: Level)
    ensures At(Exec(run), l).hits == Hits(Pages(run, l), Capacity(l))
    ensures At(Exec(run), l).hits + At(Exec(run), l).misses == |Pages(run, l)|
  {
    if run != [] {
      var before, w := run[..|run| - 1], run[|run| - 1];
      assert run == before + [w];
      StatsAreHistory(before, l);
      StatsNext(before, w, l);
    }
  }

  lemma StatsNext(run: seq<Walk>, w: Walk, l: Level)
    requires At(Exec(run), l).hits == Hits(Pages(run, l), Capacity(l))
    requires At(Exec(run), l).hits + At(Exec(run), l).misses == |Pages(run, l)|
    ensures At(Exec(run + [w]), l).hits == Hits(Pages(run + [w], l), Capacity(l))
    ensures At(Exec(run + [w]), l).hits + At(Exec(run + [w]), l).misses == |Pages(run + [w], l)|
  {
    var t := Pages(run, l);
    EntriesAreRecency(run, l);
    StepStats(Exec(run), w, l);
    RunSnoc(run, w, l);
    HitsSnoc(t, PageOf(w.va, l), Capacity(l));
  }

  lemma RunSnoc(run: seq<Walk>, w: Walk, l: Level)
    ensures Exec(run + [w]) == Step(Exec(run), w)
    ensures Pages(run + [w], l) == if LevelOf(w.size) == l then Pages(run, l) + [PageOf(w.va, l)] else Pages(run, l)
  {
    assert (run + [w])[..|run + [w]| - 1] == run;
  }

  lemma StepStats(s: Policy, w: Walk, l: Level)
    ensures var t, mine := At(Step(s, w), l), LevelOf(w.size) == l;
            var hit := PageOf(w.va, l) in At(s, l).entries;
            && t.hits == At(s, l).hits + (if mine && hit then 1 else 0)
            && t.misses == At(s, l).misses + (if mine && !hit then 1 else 0)
  {
  }

  lemma HitsSnoc(t: seq<nat>, page: nat, c: nat)
    ensures Hits(t + [page], c) == Hits(t, c) + (if page in Take(Stack(t), c) then 1 else 0)
  {
    assert (t + [page])[..|t + [page]| - 1] == t;
  }

  ghost predicate Translated(s: Policy, l: Level, page: nat) {
    exists va :: va in s.vaPa && PageOf(va, l) == page
  }

  lemma StepTranslated(s: Policy, w: Walk, l: Level)
    requires forall page :: page in At(s, l).entries ==> Translated(s, l, page)
    ensures forall page :: page in At(Step(s, w), l).entries ==> Translated(Step(s, w), l, page)
  {
    var r := Step(s, w);
    forall page | page in At(r, l).entries ensures Translated(r, l, page) {
      if page in At(s, l).entries {
        var va :| va in s.vaPa && PageOf(va, l) == page;
        assert va in r.vaPa;
      } else {
        assert w.va in r.vaPa && PageOf(w.va, l) == page;
      }
    }
  }

  /** Every page in a TLB is the page of an address already translated. */
  lemma {:induction false} PagesAreTranslated(run: seq<Walk>, l: Level)
    ensures forall page :: page in At(Exec(run), l).entries ==> Translated(Exec(run), l, page)
  {
    if run != [] {
      PagesAreTranslated(run[..|run| - 1], l);
      StepTranslated(Exec(run[..|run| - 1]), run[|run| - 1], l);
    }
  }

  /** Full walks are counted once per translated address. */
  lemma {:induction false} WalksAreCounted(run: seq<Walk>)
    ensures Exec(run).walks == |Exec(run).vaPa|
  {
    if run != [] {
      WalksAreCounted(run[..|run| - 1]);
    }
  }

  // ---------------------------------------------------------------------------
  // Pages and translations
  // ---------------------------------------------------------------------------

  /** The size of the pages that a walk is looked up by. */
  function SizeInBytes(size: PageSize): (r: nat)
    ensures r > 0
  {
    if size == Huge2M then 2 * 1024 * 1024 else if size == Huge1G then 1024 * 1024 * 1024 else 4 * 1024
  }

  /** The page is the multiple of 4 KiB, 2 MiB or 1 GiB at or below the address. */
  lemma PageIs(va: nat, size: PageSize)
    ensures var page, n := PageOf(va, LevelOf(size)), SizeInBytes(size);
            page % n == 0 && page <= va < page + n && page / n == va / n
  {
    var n := SizeInBytes(size);
    assert PageBytes(LevelOf(size)) == n;
    assert va == va / n * n + va % n;
    DivMod(va / n, n, 0);
  }

  /** Addresses have one page exactly if they lie in one. */
  lemma OnePageIff(a: nat, b: nat, size: PageSize)
    ensures PageOf(a, LevelOf(size)) == PageOf(b, LevelOf(size)) <==> a / SizeInBytes(size) == b / SizeInBytes(size)
  {
    var n := SizeInBytes(size);
    PageIs(a, size);
    PageIs(b, size);
    assert PageOf(a, LevelOf(size)) == a / n * n && PageOf(b, LevelOf(size)) == b / n * n;
  }

  /** Whatever was walked, two addresses of one page hit alike. */
  lemma HitAlike(run: seq<Walk>, v: Walk, w: Walk)
    requires v.size == w.size && v.va / SizeInBytes(v.size) == w.va / SizeInBytes(w.size)
    ensures KindOf(Exec(run), v) == Hit <==> KindOf(Exec(run), w) == Hit
  {
    OnePageIff(v.va, w.va, v.size);
  }

  /** The rule of `HitIff`. */
  ghost predicate HitsByRule(run: seq<Walk>, w: Walk) {
    var l := LevelOf(w.size);
    var page, t := PageOf(w.va, l), Pages(run, l);
    page in t && |UsedSince(t, page)| < if l == K4 then 64 else if l == M2 then 32 else 4
  }

  /** The physical address of the first walk of `va` that missed. */
  ghost function FirstMiss(run: seq<Walk>, va: nat): (r: Option<nat>) {
    if run == [] then None
    else
      var before, w := run[..|run| - 1], run[|run| - 1];
      var r := FirstMiss(before, va);
      if r.None? && w.va == va && !HitsByRule(before, w) then Some(w.pa) else r
  }

  lemma StepTranslates(s: Policy, w: Walk, va: nat)
    ensures var added := w.va == va && va !in s.vaPa && KindOf(s, w) != Hit;
            && (va in Step(s, w).vaPa <==> added || va in s.vaPa)
            && (added ==> Step(s, w).vaPa[va] == w.pa)
            && (va in s.vaPa ==> Step(s, w).vaPa[va] == s.vaPa[va])
  {
  }

  /** After every run: an address is translated exactly if a walk of it missed, as the first such walk gave it. */
  lemma {:induction false} TranslationIsHistory(run: seq<Walk>, va: nat)
    ensures va in Exec(run).vaPa <==> FirstMiss(run, va).Some?
    ensures va in Exec(run).vaPa ==> Exec(run).vaPa[va] == FirstMiss(run, va).value
  {
    if run != [] {
      var before, w := run[..|run| - 1], run[|run| - 1];
      TranslationIsHistory(before, va);
      HitIff(before, w);
      StepTranslates(Exec(before), w, va);
    }
  }

  /** What a walk is after every run: a hit by the rule, otherwise a refill if an earlier walk of the address missed. */
  lemma KindIsHistory(run: seq<Walk>, w: Walk)
    ensures KindOf(Exec(run), w)
            == if HitsByRule(run, w) then Hit else if FirstMiss(run, w.va).Some? then Refill else FullWalk
  {
    HitIff(run, w);
    TranslationIsHistory(run, w.va);
  }

  // ---------------------------------------------------------------------------
  // The policy as the source runs it
  // ---------------------------------------------------------------------------

  class TlbCache {
    const capacity: nat
    var entries: seq<nat>
    var index: set<nat>

    ghost predicate Valid()
      reads this
    {
      1 <= capacity && Distinct(entries) && index == Elements(entries)
    }

    constructor (size: nat)
      requires 1 <= size
      ensures Valid() && entries == [] && capacity == size
    {
      capacity, entries, index := size, [], {};
    }

    method Lookup(page: nat) returns (hit: bool)
      requires Valid()
      modifies this
      ensures Valid() && hit == (page in old(entries))
      ensures entries == if hit then Touch(old(entries), page) else old(entries)
    {
      hit := page in index;
      if hit {
        WithoutDistinct(entries, page);
        entries := [page] + Without(entries, page);
      }
    }

    method Insert(page: nat)
      requires Valid()
      modifies this
      ensures Valid() && entries == Inserted(old(entries), page, capacity)
    {
      WithoutDistinct(entries, page);
      if page in index {
        entries := Without(entries, page);
        index := index - {page};
      } else {
        WithoutAbsent(entries, page);
      }
      assert index == Elements(entries) && entries == Without(old(entries), page);
      if |entries| >= capacity {
        DropLast(entries);
        index := index - {entries[|entries| - 1]};
        entries := entries[..|entries| - 1];
      }
      Prepend(entries, page);
      entries := [page] + entries;
      index := index + {page};
    }
  }

  class HugePagePolicy {
    const tlb4k: TlbCache
    const tlb2m: TlbCache
    const tlb1g: TlbCache
    var vaPaCache: map<nat, nat>
    var hits: map<Level, nat>
    var misses: map<Level, nat>
    var ptwCount: nat

    ghost predicate Valid()
      reads this, tlb4k, tlb2m, tlb1g
    {
      && tlb4k != tlb2m && tlb4k != tlb1g && tlb2m != tlb1g
      && tlb4k.Valid() && tlb2m.Valid() && tlb1g.Valid()
      && tlb4k.capacity == Capacity(K4) && tlb2m.capacity == Capacity(M2) && tlb1g.capacity == Capacity(G1)
      && hits.Keys == misses.Keys == {K4, M2, G1}
    }

    ghost function State(): (r: Policy)
      requires Valid()
      reads this, tlb4k, tlb2m, tlb1g
    {
      Policy(Tlb(tlb4k.entries, hits[K4], misses[K4]), Tlb(tlb2m.entries, hits[M2], misses[M2]),
             Tlb(tlb1g.entries, hits[G1], misses[G1]), vaPaCache, ptwCount)
    }

    constructor ()
      ensures Valid() && State() == Exec([])
      ensures fresh(tlb4k) && fresh(tlb2m) && fresh(tlb1g)
    {
      tlb4k := new TlbCache(64);
      tlb2m := new TlbCache(32);
      tlb1g := new TlbCache(4);
      vaPaCache, ptwCount := map[], 0;
      hits, misses := map[K4 := 0, M2 := 0, G1 := 0], map[K4 := 0, M2 := 0, G1 := 0];
    }

    /** Looks the page up in its TLB, and puts it there on a miss. */
    method WalkTlb(l: Level, page: nat) returns (hit: bool)
      requires Valid()
      modifies tlb4k, tlb2m, tlb1g
      ensures Valid() && hit == (page in At(old(State()), l).entries)
      ensures var t := At(old(State()), l);
              State() == With(old(State()), l, t.(entries := if hit then Touch(t.entries, page)
                                                             else Inserted(t.entries, page, Capacity(l))))
    {
      var tlb := match l case K4 => tlb4k case M2 => tlb2m case G1 => tlb1g;
      hit := tlb.Lookup(page);
      if !hit {
        tlb.Insert(page);
      }
    }

    method CheckPageTableWalk(w: Walk) returns (kind: WalkKind)
      requires Valid()
      modifies this, tlb4k, tlb2m, tlb1g
      ensures Valid() && State() == Step(old(State()), w) && kind == KindOf(old(State()), w)
    {
      var l := LevelOf(w.size);
      var hit := WalkTlb(l, PageOf(w.va, l));
      if hit {
        CountHit(l);
        return Hit;
      }
      kind := CountMiss(l, w.va, w.pa);
    }

    method CountHit(l: Level)
      requires Valid()
      modifies `hits
      ensures Valid() && State() == With(old(State()), l, At(old(State()), l).(hits := At(old(State()), l).hits + 1))
    {
      hits := hits[l := hits[l] + 1];
    }

    method CountMiss(l: Level, va: nat, pa: nat) returns (kind: WalkKind)
      requires Valid()
      modifies `misses, `vaPaCache, `ptwCount
      ensures Valid() && kind == if va in old(vaPaCache) then Refill else FullWalk
      ensures var s := old(State());
              var t := With(s, l, At(s, l).(misses := At(s, l).misses + 1));
              State() == if va in s.vaPa then t else t.(vaPa := s.vaPa[va := pa], walks := s.walks + 1)
    {
      misses := misses[l := misses[l] + 1];
      if va in vaPaCache {
        return Refill;
      }
      ptwCount := ptwCount + 1;
      vaPaCache := vaPaCache[va := pa];
      kind := FullWalk;
    }
  }
}
