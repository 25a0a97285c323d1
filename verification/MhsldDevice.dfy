/**
 * The multi-headed single logical device: sixteen host ports ("heads") share one
 * memory through a MOESI directory.  Heads come and go, and give back regions of
 * the pool, while lines still name them as owner or sharer; the device indexes its
 * head table with those names.
 *
 * The results: through every run each name the directory holds is an active head,
 * so every index is in range and no invalidation is filtered away; and exactly when
 * the walk over a released region ends.  Latencies and bandwidth shares (floating
 * point) are not modelled.
 */
module Mhsld {
  import opened CacheLines
  import opened Moesi
  import opened Words

  const MAX_HEADS: nat := 16
  const NO_HEAD: nat := 0xFFFF_FFFF
  const VERSION_MODULUS: nat := 0x1_0000_0000

  datatype Head = Head(active: bool, granted: nat, used: nat, readCount: nat, writeCount: nat, backInvalidations: nat)

  datatype Line = Line(
    owner: nat,
    state: CacheState,
    sharers: set<nat>,
    version: nat,
    accesses: nat,
    lastAccess: nat,
    dirty: bool)

  datatype Totals = Totals(messages: nat, invalidations: nat, downgrades: nat, writebacks: nat)

  datatype Device = Device(heads: seq<Head>, directory: map<nat, Line>, total: Totals)

  datatype Op =
    | Activate(head: nat, capacity: nat)
    | Deactivate(head: nat)
    | Allocate(head: nat, size: nat)
    | Release(head: nat, addr: nat, size: nat)
    | Read(head: nat, addr: nat, time: nat)
    | Write(head: nat, addr: nat, time: nat)
    | Writeback(head: nat, addr: nat)
    | InvalidateSharers(head: nat, addr: nat)
    | DowngradeOwner(head: nat, addr: nat)

  const FRESH: Line := Line(NO_HEAD, Invalid, {}, 0, 0, 0, false)
  const IDLE: Head := Head(false, 0, 0, 0, 0, 0)

  // ---------------------------------------------------------------------------
  // Steps
  // ---------------------------------------------------------------------------

  predicate Live(heads: seq<Head>, h: nat) {
    h < MAX_HEADS && h < |heads| && heads[h].active
  }

  function LineAt(d: Device, line: nat): (r: Line) {
    if line in d.directory then d.directory[line] else FRESH
  }

  function BackTold(p: Head): (r: Head) {
    p.(backInvalidations := p.backInvalidations + 1)
  }

  /** Adds one back-invalidation to each head named. */
  function Notify(heads: seq<Head>, names: set<nat>): (r: seq<Head>)
    ensures |r| == |heads|
    ensures forall i {:trigger r[i]} :: 0 <= i < |heads| ==>
              r[i] == if i in names then BackTold(heads[i]) else heads[i]
  {
    seq(|heads|, i requires 0 <= i < |heads| =>
      if i in names then BackTold(heads[i]) else heads[i])
  }

  function CountRead(heads: seq<Head>, h: nat): (r: seq<Head>)
    requires h < |heads|
  {
    heads[h := heads[h].(readCount := heads[h].readCount + 1)]
  }

  function CountWrite(heads: seq<Head>, h: nat): (r: seq<Head>)
    requires h < |heads|
  {
    heads[h := heads[h].(writeCount := heads[h].writeCount + 1)]
  }

  /** The sharers an invalidation reaches: active ones other than `h`. */
  function Reached(heads: seq<Head>, l: Line, h: nat): (r: set<nat>) {
    set s | s in l.sharers && s != h && Live(heads, s)
  }

  /** The totals after `n` invalidation messages. */
  function Told(t: Totals, n: nat): (r: Totals) {
    t.(messages := t.messages + n, invalidations := t.invalidations + n)
  }

  /** Invalidating the sharers of a line: what the heads and totals become (the set itself is then cleared). */
  function Invalidated(d: Device, l: Line, h: nat): (r: Device) {
    var names := Reached(d.heads, l, h);
    d.(heads := Notify(d.heads, names), total := Told(d.total, |names|))
  }

  predicate Holds(l: Line, h: nat) {
    l.owner == h && (l.state.Exclusive? || l.state.Modified? || l.state.Owned?)
  }

  function ReadLine(l: Line, h: nat, time: nat): (r: Line) {
    var t := l.(accesses := l.accesses + 1, lastAccess := time);
    if Holds(l, h) || h in l.sharers then t
    else
      match l.state
      case Invalid => t.(sharers := l.sharers + {h}, state := Shared, owner := h)
      case Shared => t.(sharers := l.sharers + {h})
      case Exclusive => t.(sharers := l.sharers + {l.owner} + {h}, state := Shared)
      case Modified => t.(state := Owned, sharers := l.sharers + {h})
      case Owned => t.(sharers := l.sharers + {h})
  }

  function ReadTotals(l: Line, h: nat, t: Totals): (r: Totals) {
    if Holds(l, h) || h in l.sharers || l.state.Invalid? || l.state.Shared? then t
    else t.(messages := t.messages + 1, downgrades := t.downgrades + if l.state.Modified? then 1 else 0)
  }

  function WriteLine(l: Line, h: nat, time: nat): (r: Line) {
    l.(accesses := l.accesses + 1, lastAccess := time, version := (l.version + 1) % VERSION_MODULUS,
       state := Modified, dirty := true,
       owner := h,
       sharers := if l.owner == h && (l.state.Exclusive? || l.state.Modified?) then l.sharers else {})
  }

  /** A snoop to an owner that is not the requester. */
  function Snooped(d: Device, l: Line): (r: Device) {
    d.(heads := Notify(d.heads, {l.owner}),
       total := d.total.(messages := d.total.messages + 1,
                         writebacks := d.total.writebacks
                                       + if l.state.Modified? || l.state.Owned? then 1 else 0))
  }

  function WriteEffects(d: Device, l: Line, h: nat): (r: Device) {
    if l.state.Invalid? || (l.owner == h && (l.state.Exclusive? || l.state.Modified?)) then d
    else if l.state.Shared? || l.owner == h then Invalidated(d, l, h)
    else Invalidated(Snooped(d, l), l, h)
  }

  function Forget(l: Line, h: nat): (r: Line) {
    var t := l.(sharers := l.sharers - {h});
    if l.owner == h then t.(owner := NO_HEAD, state := Invalid) else t
  }

  function ForgetOnExit(l: Line, h: nat): (r: Line) {
    Forget(l, h).(dirty := l.dirty || (l.owner == h && l.state.Modified?))
  }

  function RegionEnd(addr: nat, size: nat): (r: nat) {
    WordSum(addr, size)
  }

  /** The lines a release walks over. */
  predicate InRegion(line: nat, addr: nat, size: nat) {
    line % LINE_SIZE == 0 && LineOf(addr) <= line < RegionEnd(addr, size)
  }

  function ReleaseDirectory(dir: map<nat, Line>, h: nat, addr: nat, size: nat): (r: map<nat, Line>) {
    map k | k in dir :: if InRegion(k, addr, size) then Forget(dir[k], h) else dir[k]
  }

  function WritebackLine(l: Line, h: nat): (r: Line) {
    l.(dirty := l.dirty && !(l.state.Modified? || l.state.Owned?),
       state := Invalid, owner := NO_HEAD, sharers := l.sharers - {h})
  }

  function DowngradeLine(l: Line): (r: Line) {
    match l.state
    case Modified => l.(state := Owned, dirty := true)
    case Exclusive => l.(sharers := l.sharers + {l.owner}, state := Shared, owner := NO_HEAD)
    case _ => l
  }

  function ActivateStep(d: Device, h: nat, capacity: nat): (r: Device)
    requires |d.heads| == MAX_HEADS
  {
    if h >= MAX_HEADS then d
    else d.(heads := d.heads[h := d.heads[h].(active := true, granted := capacity, used := 0)])
  }

  function DeactivateStep(d: Device, h: nat): (r: Device)
    requires |d.heads| == MAX_HEADS
  {
    if h >= MAX_HEADS then d
    else d.(heads := d.heads[h := d.heads[h].(active := false)],
            directory := map k | k in d.directory :: ForgetOnExit(d.directory[k], h))
  }

  /** The head's use with `size` more, in 64-bit arithmetic. */
  function UsedAfter(p: Head, size: nat): (r: nat) {
    WordSum(p.used, size)
  }

  predicate Grants(p: Head, size: nat) {
    UsedAfter(p, size) <= p.granted
  }

  function AllocateStep(d: Device, h: nat, size: nat): (r: Device)
    requires |d.heads| == MAX_HEADS
  {
    if !Live(d.heads, h) || !Grants(d.heads[h], size) then d
    else d.(heads := d.heads[h := d.heads[h].(used := UsedAfter(d.heads[h], size))])
  }

  function ReleaseStep(d: Device, h: nat, addr: nat, size: nat): (r: Device)
    requires |d.heads| == MAX_HEADS
  {
    if !Live(d.heads, h) then d
    else
      var p := d.heads[h];
      d.(heads := d.heads[h := p.(used := if p.used >= size then p.used - size else p.used)],
         directory := ReleaseDirectory(d.directory, h, addr, size))
  }

  function ReadStep(d: Device, h: nat, addr: nat, time: nat): (r: Device)
    requires |d.heads| == MAX_HEADS
  {
    if !Live(d.heads, h) then d
    else
      var l := LineAt(d, LineOf(addr));
      d.(heads := CountRead(d.heads, h),
         directory := d.directory[LineOf(addr) := ReadLine(l, h, time)],
         total := ReadTotals(l, h, d.total))
  }

  function WriteStep(d: Device, h: nat, addr: nat, time: nat): (r: Device)
    requires |d.heads| == MAX_HEADS
  {
    if !Live(d.heads, h) then d
    else
      var l := LineAt(d, LineOf(addr));
      WriteEffects(d.(heads := CountWrite(d.heads, h)), l, h)
        .(directory := d.directory[LineOf(addr) := WriteLine(l, h, time)])
  }

  function WritebackStep(d: Device, h: nat, addr: nat): (r: Device) {
    if LineOf(addr) !in d.directory || d.directory[LineOf(addr)].owner != h then d
    else
      d.(directory := d.directory[LineOf(addr) := WritebackLine(d.directory[LineOf(addr)], h)],
         total := d.total.(writebacks := d.total.writebacks + 1))
  }

  function InvalidateStep(d: Device, h: nat, addr: nat): (r: Device) {
    if LineOf(addr) !in d.directory then d
    else
      var l := d.directory[LineOf(addr)];
      Invalidated(d, l, h).(directory := d.directory[LineOf(addr) := l.(sharers := {})])
  }

  function DowngradeStep(d: Device, h: nat, addr: nat): (r: Device) {
    var l := LineAt(d, LineOf(addr));
    if l.owner == NO_HEAD || l.owner == h then d
    else
      d.(directory := d.directory[LineOf(addr) := DowngradeLine(l)],
         total := d.total.(messages := d.total.messages + 1, downgrades := d.total.downgrades + 1))
  }

  function Step(d: Device, op: Op): (r: Device)
    requires |d.heads| == MAX_HEADS
    ensures |r.heads| == MAX_HEADS
  {
    match op
    case Activate(h, capacity) => ActivateStep(d, h, capacity)
    case Deactivate(h) => DeactivateStep(d, h)
    case Allocate(h, size) => AllocateStep(d, h, size)
    case Release(h, addr, size) => ReleaseStep(d, h, addr, size)
    case Read(h, addr, time) => ReadStep(d, h, addr, time)
    case Write(h, addr, time) => WriteStep(d, h, addr, time)
    case Writeback(h, addr) => WritebackStep(d, h, addr)
    case InvalidateSharers(h, addr) => InvalidateStep(d, h, addr)
    case DowngradeOwner(h, addr) => DowngradeStep(d, h, addr)
  }

  function Start(): (r: Device) {
    Device(seq(MAX_HEADS, _ => IDLE), map[], Totals(0, 0, 0, 0))
  }

  function Exec(run: seq<Op>): (r: Device)
    ensures |r.heads| == MAX_HEADS
  {
    if run == [] then Start() else Step(Exec(run[..|run| - 1]), run[|run| - 1])
  }

  // ---------------------------------------------------------------------------
  // Every name in the directory is an active head
  // ---------------------------------------------------------------------------

  ghost predicate NamesOk(heads: seq<Head>, l: Line) {
    && (!l.state.Invalid? ==> Live(heads, l.owner))
    && (forall s :: s in l.sharers ==> Live(heads, s))
  }

  ghost predicate LineOk(heads: seq<Head>, l: Line) {
    && NamesOk(heads, l)
    && !l.state.Exclusive?
    && (l.owner == NO_HEAD <==> l.state.Invalid?)
    && (l.state.Modified? ==> l.sharers == {})
    && (l.state.Owned? ==> l.owner !in l.sharers)
  }

  ghost predicate Ok(d: Device) {
    && |d.heads| == MAX_HEADS
    && forall k :: k in d.directory ==> LineOk(d.heads, d.directory[k])
  }

  /** A change that deactivates nobody keeps every line's names good. */
  lemma HeadsGrow(a: seq<Head>, b: seq<Head>, l: Line)
    requires |a| == |b| && LineOk(a, l)
    requires forall i :: 0 <= i < |a| && a[i].active ==> b[i].active
    ensures LineOk(b, l)
  {
  }

  lemma NamesGrow(a: seq<Head>, b: seq<Head>, l: Line)
    requires |a| == |b| && NamesOk(a, l)
    requires forall i :: 0 <= i < |a| && a[i].active ==> b[i].active
    ensures NamesOk(b, l)
  {
  }

  lemma ReadKeeps(heads: seq<Head>, l: Line, h: nat, time: nat)
    requires LineOk(heads, l) && Live(heads, h)
    ensures LineOk(heads, ReadLine(l, h, time))
  {
  }

  lemma WriteKeeps(heads: seq<Head>, l: Line, h: nat, time: nat)
    requires LineOk(heads, l) && Live(heads, h)
    ensures LineOk(heads, WriteLine(l, h, time))
  {
  }

  lemma ForgetKeeps(a: seq<Head>, b: seq<Head>, l: Line, h: nat)
    requires |a| == |b| == MAX_HEADS && LineOk(a, l)
    requires forall i :: 0 <= i < |a| && a[i].active && i != h ==> b[i].active
    ensures LineOk(b, Forget(l, h)) && LineOk(b, ForgetOnExit(l, h))
    ensures h != NO_HEAD ==> Forget(l, h).owner != h && h !in Forget(l, h).sharers
  {
  }

  /** Replacing one line, while deactivating nobody. */
  lemma UpdateKeeps(d: Device, heads: seq<Head>, line: nat, l: Line, total: Totals)
    requires Ok(d) && |heads| == MAX_HEADS && LineOk(heads, l)
    requires forall i :: 0 <= i < MAX_HEADS && d.heads[i].active ==> heads[i].active
    ensures Ok(Device(heads, d.directory[line := l], total))
  {
    forall k | k in d.directory[line := l] && k != line ensures LineOk(heads, d.directory[k]) {
      HeadsGrow(d.heads, heads, d.directory[k]);
    }
  }

  lemma ReadStepKeeps(d: Device, h: nat, addr: nat, time: nat)
    requires Ok(d)
    ensures Ok(ReadStep(d, h, addr, time))
  {
    if Live(d.heads, h) {
      var l, r := LineAt(d, LineOf(addr)), ReadStep(d, h, addr, time);
      ReadKeeps(d.heads, l, h, time);
      HeadsGrow(d.heads, r.heads, ReadLine(l, h, time));
      UpdateKeeps(d, r.heads, LineOf(addr), ReadLine(l, h, time), r.total);
    }
  }

  lemma WriteStepKeeps(d: Device, h: nat, addr: nat, time: nat)
    requires Ok(d)
    ensures Ok(WriteStep(d, h, addr, time))
  {
    if Live(d.heads, h) {
      var l := LineAt(d, LineOf(addr));
      var w := WriteEffects(d.(heads := CountWrite(d.heads, h)), l, h);
      EffectsGrow(d, l, h);
      WriteKeeps(d.heads, l, h, time);
      HeadsGrow(d.heads, w.heads, WriteLine(l, h, time));
      UpdateKeeps(d, w.heads, LineOf(addr), WriteLine(l, h, time), w.total);
    }
  }

  predicate Grows(a: seq<Head>, b: seq<Head>) {
    |a| == |b| && forall i :: 0 <= i < |a| && a[i].active ==> b[i].active
  }

  lemma NotifyGrows(heads: seq<Head>, names: set<nat>)
    ensures Grows(heads, Notify(heads, names))
  {
  }

  /** Messages to other heads deactivate nobody. */
  lemma EffectsGrow(d: Device, l: Line, h: nat)
    requires h < |d.heads|
    ensures Grows(d.heads, WriteEffects(d.(heads := CountWrite(d.heads, h)), l, h).heads)
  {
    var counted := d.(heads := CountWrite(d.heads, h));
    assert Grows(d.heads, counted.heads);
    NotifyGrows(counted.heads, Reached(counted.heads, l, h));
    var snooped := Snooped(counted, l);
    NotifyGrows(counted.heads, {l.owner});
    NotifyGrows(snooped.heads, Reached(snooped.heads, l, h));
  }

  lemma ForgetStepsKeep(d: Device, h: nat, addr: nat, size: nat)
    requires Ok(d)
    ensures Ok(DeactivateStep(d, h)) && Ok(ReleaseStep(d, h, addr, size))
  {
    var a, b := DeactivateStep(d, h), ReleaseStep(d, h, addr, size);
    forall k | k in d.directory ensures LineOk(a.heads, a.directory[k]) && LineOk(b.heads, b.directory[k]) {
      ForgetKeeps(d.heads, a.heads, d.directory[k], h);
      ForgetKeeps(d.heads, b.heads, d.directory[k], h);
      HeadsGrow(d.heads, b.heads, d.directory[k]);
    }
  }

  lemma WritebackStepKeeps(d: Device, h: nat, addr: nat)
    requires Ok(d)
    ensures Ok(WritebackStep(d, h, addr))
  {
    if LineOf(addr) in d.directory {
      var l := d.directory[LineOf(addr)];
      UpdateKeeps(d, d.heads, LineOf(addr), WritebackLine(l, h), WritebackStep(d, h, addr).total);
    }
  }

  lemma InvalidateStepKeeps(d: Device, h: nat, addr: nat)
    requires Ok(d)
    ensures Ok(InvalidateStep(d, h, addr))
  {
    if LineOf(addr) in d.directory {
      var l, r := d.directory[LineOf(addr)], InvalidateStep(d, h, addr);
      HeadsGrow(d.heads, r.heads, l.(sharers := {}));
      UpdateKeeps(d, r.heads, LineOf(addr), l.(sharers := {}), r.total);
    }
  }

  lemma DowngradeStepKeeps(d: Device, h: nat, addr: nat)
    requires Ok(d)
    ensures Ok(DowngradeStep(d, h, addr))
  {
    if LineOf(addr) in d.directory {
      var l := d.directory[LineOf(addr)];
      UpdateKeeps(d, d.heads, LineOf(addr), DowngradeLine(l), DowngradeStep(d, h, addr).total);
    }
  }

  lemma StepKeeps(d: Device, op: Op)
    requires Ok(d)
    ensures Ok(Step(d, op))
  {
    match op
    case Activate(_, _) =>
    case Allocate(_, _) =>
    case Deactivate(h) => ForgetStepsKeep(d, h, 0, 0);
    case Release(h, addr, size) => ForgetStepsKeep(d, h, addr, size);
    case Read(h, addr, time) => ReadStepKeeps(d, h, addr, time);
    case Write(h, addr, time) => WriteStepKeeps(d, h, addr, time);
    case Writeback(h, addr) => WritebackStepKeeps(d, h, addr);
    case InvalidateSharers(h, addr) => InvalidateStepKeeps(d, h, addr);
    case DowngradeOwner(h, addr) => DowngradeStepKeeps(d, h, addr);
  }

  /**
   * Through every run each owner and sharer named by the directory is an active head
   * below sixteen, a modified line has no sharers, and no line is Exclusive.
   */
  lemma {:induction false} EveryNameIsActive(run: seq<Op>)
    ensures Ok(Exec(run))
  {
    if run != [] {
      EveryNameIsActive(run[..|run| - 1]);
      StepKeeps(Exec(run[..|run| - 1]), run[|run| - 1]);
    }
  }

  /** The active filter of an invalidation never drops a sharer. */
  lemma NobodyIsFiltered(run: seq<Op>, line: nat, h: nat)
    requires line in Exec(run).directory
    ensures var d := Exec(run); Reached(d.heads, d.directory[line], h) == d.directory[line].sharers - {h}
  {
    EveryNameIsActive(run);
  }

  /** A head that is not active (never activated, or deactivated since) appears nowhere in the directory. */
  lemma InactiveHeadsAreAbsent(run: seq<Op>, line: nat, h: nat)
    requires line in Exec(run).directory && h != NO_HEAD && !Live(Exec(run).heads, h)
    ensures var l := Exec(run).directory[line]; l.owner != h && h !in l.sharers
  {
    EveryNameIsActive(run);
  }

  // ---------------------------------------------------------------------------
  // A line as a function of its history
  // ---------------------------------------------------------------------------

  /** A head is active if its last activation was not followed by a deactivation. */
  predicate Active(run: seq<Op>, h: nat) {
    run != [] &&
    match run[|run| - 1]
    case Activate(g, _) => (g == h && h < MAX_HEADS) || Active(run[..|run| - 1], h)
    case Deactivate(g) => g != h && Active(run[..|run| - 1], h)
    case _ => Active(run[..|run| - 1], h)
  }

  lemma StepActive(d: Device, op: Op, h: nat)
    requires |d.heads| == MAX_HEADS && h < MAX_HEADS && !op.Activate? && !op.Deactivate?
    ensures Step(d, op).heads[h].active == d.heads[h].active
  {
    match op
    case Write(w, addr, _) =>
      if Live(d.heads, w) {
        EffectsKeepUse(d.(heads := CountWrite(d.heads, w)), LineAt(d, LineOf(addr)), w, h);
      }
    case _ =>
  }

  lemma {:induction false} ActiveIsHistory(run: seq<Op>, h: nat)
    ensures Live(Exec(run).heads, h) <==> Active(run, h)
  {
    if run != [] {
      var before, op := run[..|run| - 1], run[|run| - 1];
      ActiveIsHistory(before, h);
      if !op.Activate? && !op.Deactivate? && h < MAX_HEADS {
        StepActive(Exec(before), op, h);
      }
    }
  }

  /**
   * What the operations on a line amount to: its owner, the heads with a copy beside
   * the owner, whether the owner `wrote` the line and, if so, whether it has `parted`
   * with the only copy since, and whether a write is not yet written back.
   */
  datatype Tenure = Tenure(
    known: bool,
    owner: nat,
    copies: set<nat>,
    wrote: bool,
    parted: bool,
    dirty: bool,
    writes: nat,
    accesses: nat,
    last: nat)

  const UNKNOWN: Tenure := Tenure(false, NO_HEAD, {}, false, false, false, 0, 0, 0)

  function TenureOf(run: seq<Op>, line: nat): (r: Tenure) {
    if run == [] then UNKNOWN
    else
      var before, op := run[..|run| - 1], run[|run| - 1];
      NextTenure(TenureOf(before, line), op, line, !op.Deactivate? && Active(before, op.head))
  }

  /** The line after `op`, by a head that is `active` or not. */
  function NextTenure(t: Tenure, op: Op, line: nat, active: bool): (r: Tenure) {
    match op
    case Activate(_, _) => t
    case Allocate(_, _) => t
    case Read(h, addr, time) => if active && LineOf(addr) == line then ReadTenure(t, h, time) else t
    case Write(h, addr, time) =>
      if active && LineOf(addr) == line then
        Tenure(true, h, {}, true, false, true, t.writes + 1, t.accesses + 1, time)
      else t
    case Deactivate(h) => if h < MAX_HEADS then Left(t, h) else t
    case Release(h, addr, size) => if active && InRegion(line, addr, size) then Left(t, h) else t
    case Writeback(h, addr) =>
      if t.known && LineOf(addr) == line && t.owner == h then Left(t, h).(dirty := t.dirty && !t.wrote) else t
    case InvalidateSharers(_, addr) => if LineOf(addr) == line then t.(copies := {}) else t
    case DowngradeOwner(h, addr) =>
      if LineOf(addr) == line && t.owner != h && t.owner != NO_HEAD then t.(parted := true) else t
  }

  /** A reader without a copy of an unowned line becomes its owner; any other gets a copy. */
  function ReadTenure(t: Tenure, h: nat, time: nat): (r: Tenure) {
    var u := t.(known := true, accesses := t.accesses + 1, last := time,
                copies := if t.wrote && h == t.owner then t.copies else t.copies + {h});
    if t.owner == NO_HEAD && h !in t.copies then u.(owner := h, wrote := false, parted := false)
    else u.(parted := t.parted || h != t.owner)
  }

  /** Head `h` gives the line up. */
  function Left(t: Tenure, h: nat): (r: Tenure) {
    var u := t.(copies := t.copies - {h});
    if t.owner == h then u.(owner := NO_HEAD, wrote := false, parted := false) else u
  }

  /** The line's record, all of it, said from the tenure. */
  function LineFrom(t: Tenure): (r: Line) {
    Line(t.owner,
         if t.owner == NO_HEAD then Invalid else if !t.wrote then Shared else if t.parted then Owned else Modified,
         t.copies, t.writes % VERSION_MODULUS, t.accesses, t.last, t.dirty)
  }

  ghost predicate Sound(t: Tenure) {
    && (t.wrote ==> t.owner != NO_HEAD && t.dirty && t.owner !in t.copies)
    && (t.wrote && !t.parted ==> t.copies == {})
    && (!t.known ==> t == UNKNOWN)
  }

  lemma NextSound(t: Tenure, op: Op, line: nat, active: bool)
    requires Sound(t) && (active ==> op.head < MAX_HEADS)
    ensures Sound(NextTenure(t, op, line, active))
  {
  }

  lemma {:induction false} ActiveIsHead(run: seq<Op>, h: nat)
    requires Active(run, h)
    ensures h < MAX_HEADS
  {
    if !(run[|run| - 1].Activate? && run[|run| - 1].head == h && h < MAX_HEADS) {
      ActiveIsHead(run[..|run| - 1], h);
    }
  }

  lemma {:induction false} SoundAfter(run: seq<Op>, line: nat)
    ensures Sound(TenureOf(run, line))
  {
    if run != [] {
      var before, op := run[..|run| - 1], run[|run| - 1];
      SoundAfter(before, line);
      var active := !op.Deactivate? && Active(before, op.head);
      if active {
        ActiveIsHead(before, op.head);
      }
      NextSound(TenureOf(before, line), op, line, active);
    }
  }

  lemma ReadIsTenure(t: Tenure, h: nat, time: nat)
    requires Sound(t) && h < MAX_HEADS
    ensures ReadLine(LineFrom(t), h, time) == LineFrom(ReadTenure(t, h, time))
  {
    assert h in t.copies ==> t.copies + {h} == t.copies;
  }

  lemma WriteIsTenure(t: Tenure, h: nat, time: nat)
    requires Sound(t) && h < MAX_HEADS
    ensures WriteLine(LineFrom(t), h, time)
            == LineFrom(Tenure(true, h, {}, true, false, true, t.writes + 1, t.accesses + 1, time))
  {
    VersionIncrement(t.writes);
  }

  lemma VersionIncrement(writes: nat)
    ensures (writes % VERSION_MODULUS + 1) % VERSION_MODULUS == (writes + 1) % VERSION_MODULUS
  {
  }

  lemma LeftIsTenure(t: Tenure, h: nat)
    requires Sound(t)
    ensures Forget(LineFrom(t), h) == LineFrom(Left(t, h))
    ensures ForgetOnExit(LineFrom(t), h) == LineFrom(Left(t, h))
    ensures t.owner == h ==> WritebackLine(LineFrom(t), h) == LineFrom(Left(t, h).(dirty := t.dirty && !t.wrote))
  {
  }

  /** The line and the directory's knowledge of it agree with the tenure. */
  ghost predicate Recorded(d: Device, line: nat, t: Tenure) {
    && (line in d.directory <==> t.known)
    && LineAt(d, line) == LineFrom(t)
  }

  lemma ReadRecorded(d: Device, line: nat, t: Tenure, op: Op, active: bool)
    requires |d.heads| == MAX_HEADS && Recorded(d, line, t) && Sound(t) && op.Read?
    requires active <==> Live(d.heads, op.head)
    ensures Recorded(Step(d, op), line, NextTenure(t, op, line, active))
  {
    if active && LineOf(op.addr) == line {
      ReadIsTenure(t, op.head, op.time);
    }
  }

  /** A write changes the directory at its line only. */
  lemma WriteDirectory(d: Device, h: nat, addr: nat, time: nat)
    requires |d.heads| == MAX_HEADS && Live(d.heads, h)
    ensures WriteStep(d, h, addr, time).directory
            == d.directory[LineOf(addr) := WriteLine(LineAt(d, LineOf(addr)), h, time)]
  {
  }

  lemma WriteRecorded(d: Device, line: nat, t: Tenure, op: Op, active: bool)
    requires |d.heads| == MAX_HEADS && Recorded(d, line, t) && Sound(t) && op.Write?
    requires active <==> Live(d.heads, op.head)
    ensures Recorded(Step(d, op), line, NextTenure(t, op, line, active))
  {
    if active {
      WriteDirectory(d, op.head, op.addr, op.time);
      if LineOf(op.addr) == line {
        WriteIsTenure(t, op.head, op.time);
      }
    }
  }

  lemma LeavingRecorded(d: Device, line: nat, t: Tenure, op: Op, active: bool)
    requires |d.heads| == MAX_HEADS && Recorded(d, line, t) && Sound(t)
    requires op.Deactivate? || (op.Release? && (active <==> Live(d.heads, op.head)))
    ensures Recorded(Step(d, op), line, NextTenure(t, op, line, active))
  {
    LeftIsTenure(t, op.head);
    assert !t.known ==> LineFrom(Left(t, op.head)) == FRESH;
  }

  lemma OwnerRecorded(d: Device, line: nat, t: Tenure, op: Op, active: bool)
    requires |d.heads| == MAX_HEADS && Recorded(d, line, t) && Sound(t)
    requires op.Writeback? || op.InvalidateSharers? || op.DowngradeOwner? || op.Activate? || op.Allocate?
    ensures Recorded(Step(d, op), line, NextTenure(t, op, line, active))
  {
    LeftIsTenure(t, op.head);
  }

  lemma StepRecorded(d: Device, line: nat, t: Tenure, op: Op, active: bool)
    requires |d.heads| == MAX_HEADS && Recorded(d, line, t) && Sound(t)
    requires op.Deactivate? || (active <==> Live(d.heads, op.head))
    ensures Recorded(Step(d, op), line, NextTenure(t, op, line, active))
  {
    match op
    case Read(_, _, _) => ReadRecorded(d, line, t, op, active);
    case Write(_, _, _) => WriteRecorded(d, line, t, op, active);
    case Deactivate(_) => LeavingRecorded(d, line, t, op, active);
    case Release(_, _, _) => LeavingRecorded(d, line, t, op, active);
    case _ => OwnerRecorded(d, line, t, op, active);
  }

  /**
   * After every run of the nine operations the whole record of a line, owner, state,
   * sharers, version, access count and dirty mark, is the stated function of the
   * operations so far, and a line has a record exactly if an active head accessed it.
   */
  lemma {:induction false} LineIsHistory(run: seq<Op>, line: nat)
    ensures Recorded(Exec(run), line, TenureOf(run, line))
  {
    if run != [] {
      var before, op := run[..|run| - 1], run[|run| - 1];
      LineIsHistory(before, line);
      SoundAfter(before, line);
      ActiveIsHistory(before, op.head);
      var active := !op.Deactivate? && Active(before, op.head);
      StepRecorded(Exec(before), line, TenureOf(before, line), op, active);
    }
  }

  // ---------------------------------------------------------------------------
  // Heads and totals as functions of the history
  // ---------------------------------------------------------------------------

  /** The copies a write takes: those of an owned line at other heads; a line without owner tells nobody. */
  function TakenBy(t: Tenure, writer: nat): (r: set<nat>) {
    if t.owner == NO_HEAD then {} else t.copies - {writer}
  }

  /** A write to a line that another head wrote asks that head for it. */
  predicate Asks(t: Tenure, writer: nat) {
    t.wrote && t.owner != writer
  }

  /** How often an operation on the line of `t` tells head `h` to give something up. */
  function ToldTo(t: Tenure, op: Op, active: bool, h: nat): (r: nat) {
    match op
    case Write(w, _, _) =>
      if !active then 0
      else (if h in TakenBy(t, w) then 1 else 0) + (if Asks(t, w) && h == t.owner then 1 else 0)
    case InvalidateSharers(x, _) => if t.known && h in t.copies - {x} then 1 else 0
    case _ => 0
  }

  /** What an operation on the line of `t` adds to the totals. */
  function AddedBy(t: Tenure, op: Op, active: bool): (r: Totals) {
    match op
    case Read(h, _, _) =>
      if active && t.wrote && h != t.owner && h !in t.copies then Totals(1, 0, if t.parted then 0 else 1, 0)
      else Totals(0, 0, 0, 0)
    case Write(w, _, _) =>
      if !active then Totals(0, 0, 0, 0)
      else
        var n, asked := |TakenBy(t, w)|, if Asks(t, w) then 1 else 0;
        Totals(n + asked, n, 0, asked)
    case Writeback(h, _) => if t.known && t.owner == h then Totals(0, 0, 0, 1) else Totals(0, 0, 0, 0)
    case InvalidateSharers(x, _) =>
      if t.known then Totals(|t.copies - {x}|, |t.copies - {x}|, 0, 0) else Totals(0, 0, 0, 0)
    case DowngradeOwner(h, _) =>
      if t.owner != NO_HEAD && t.owner != h then Totals(1, 0, 1, 0) else Totals(0, 0, 0, 0)
    case _ => Totals(0, 0, 0, 0)
  }

  function Sum(a: Totals, b: Totals): (r: Totals) {
    Totals(a.messages + b.messages, a.invalidations + b.invalidations, a.downgrades + b.downgrades,
           a.writebacks + b.writebacks)
  }

  /** The tenure of the line an operation names; for operations that name none, of no line. */
  function TenureAt(run: seq<Op>, op: Op): (r: Tenure) {
    if op.Activate? || op.Deactivate? || op.Allocate? || op.Release? then UNKNOWN else TenureOf(run, LineOf(op.addr))
  }

  function TotalsOf(run: seq<Op>): (r: Totals) {
    if run == [] then Totals(0, 0, 0, 0)
    else
      var before, op := run[..|run| - 1], run[|run| - 1];
      Sum(TotalsOf(before), AddedBy(TenureAt(before, op), op, Active(before, op.head)))
  }

  /** What head `h` was granted, has in use, read, wrote and was told, said from the operations alone. */
  function HeadOf(run: seq<Op>, h: nat): (r: Head) {
    if run == [] then IDLE
    else
      var before, op := run[..|run| - 1], run[|run| - 1];
      var p, active := HeadOf(before, h), Active(before, op.head);
      OwnOp(p, op, active, h)
        .(active := Active(run, h),
          backInvalidations := p.backInvalidations + ToldTo(TenureAt(before, op), op, active, h))
  }

  /** An activation starts the use at 0; allocations add to it what fits, releases take back what is there. */
  function OwnOp(p: Head, op: Op, active: bool, h: nat): (r: Head) {
    if op.head != h then p
    else
      match op
      case Activate(_, capacity) => p.(granted := capacity, used := 0)
      case Allocate(_, size) =>
        var used := (p.used + size) % WORD;
        if active && used <= p.granted then p.(used := used) else p
      case Release(_, _, size) => if active && size <= p.used then p.(used := p.used - size) else p
      case Read(_, _, _) => if active then p.(readCount := p.readCount + 1) else p
      case Write(_, _, _) => if active then p.(writeCount := p.writeCount + 1) else p
      case _ => p
  }

  lemma ReachedAll(heads: seq<Head>, l: Line, h: nat)
    requires forall s :: s in l.sharers ==> Live(heads, s)
    ensures Reached(heads, l, h) == l.sharers - {h}
  {
  }

  predicate AllLive(heads: seq<Head>, l: Line) {
    forall s :: s in l.sharers ==> Live(heads, s)
  }

  lemma TellsOnce(d: Device, names: set<nat>, h: nat) returns (r: Device)
    requires h < |d.heads|
    ensures r == d.(heads := Notify(d.heads, names), total := Told(d.total, |names|)) && |r.heads| == |d.heads|
    ensures r.heads[h] == if h in names then BackTold(d.heads[h]) else d.heads[h]
    ensures r.total == Sum(d.total, Totals(|names|, |names|, 0, 0))
  {
    r := d.(heads := Notify(d.heads, names), total := Told(d.total, |names|));
  }

  /** An invalidation tells each sharer but one, once. */
  lemma InvalidatedTells(d: Device, l: Line, w: nat, h: nat) returns (r: Device)
    requires AllLive(d.heads, l) && h < |d.heads|
    ensures r == Invalidated(d, l, w) && |r.heads| == |d.heads|
    ensures r.heads[h] == if h in l.sharers - {w} then BackTold(d.heads[h]) else d.heads[h]
    ensures r.total == Sum(d.total, Totals(|l.sharers - {w}|, |l.sharers - {w}|, 0, 0))
  {
    ReachedAll(d.heads, l, w);
    r := TellsOnce(d, l.sharers - {w}, h);
  }

  lemma SnoopedTells(d: Device, l: Line, h: nat) returns (r: Device)
    requires (l.state.Modified? || l.state.Owned?) && h < |d.heads|
    ensures r == Snooped(d, l) && |r.heads| == |d.heads|
    ensures r.heads[h] == if h == l.owner then BackTold(d.heads[h]) else d.heads[h]
    ensures r.total == Sum(d.total, Totals(1, 0, 0, 1))
  {
    r := Snooped(d, l);
  }

  lemma SnoopedLive(d: Device, l: Line)
    requires AllLive(d.heads, l)
    ensures AllLive(Snooped(d, l).heads, l)
  {
  }

  lemma BothTell(d: Device, l: Line, w: nat, h: nat) returns (r: Device)
    requires (l.state.Modified? || l.state.Owned?) && h < |d.heads| && AllLive(d.heads, l) && l.owner !in l.sharers
    ensures r == Invalidated(Snooped(d, l), l, w) && |r.heads| == |d.heads|
    ensures r.heads[h] == if h in l.sharers - {w} || h == l.owner then BackTold(d.heads[h]) else d.heads[h]
    ensures r.total == Sum(d.total, Totals(|l.sharers - {w}| + 1, |l.sharers - {w}|, 0, 1))
  {
    SnoopedLive(d, l);
    var asked := SnoopedTells(d, l, h);
    r := InvalidatedTells(asked, l, w, h);
  }

  /** Whom a write tells. */
  lemma WriteTells(d: Device, t: Tenure, w: nat, h: nat) returns (r: Device)
    requires |d.heads| == MAX_HEADS && h < MAX_HEADS && Sound(t) && AllLive(d.heads, LineFrom(t))
    ensures r == WriteEffects(d, LineFrom(t), w) && |r.heads| == MAX_HEADS
    ensures r.heads[h].backInvalidations == d.heads[h].backInvalidations + ToldTo(t, Write(w, 0, 0), true, h)
    ensures r.heads[h] == d.heads[h].(backInvalidations := r.heads[h].backInvalidations)
    ensures r.total == Sum(d.total, AddedBy(t, Write(w, 0, 0), true))
  {
    var l := LineFrom(t);
    if Asks(t, w) {
      r := BothTell(d, l, w, h);
    } else if t.owner != NO_HEAD && !(t.wrote && !t.parted) {
      r := InvalidatedTells(d, l, w, h);
    } else {
      r := d;
      assert TakenBy(t, w) == {};
    }
  }

  /** The head table and the totals agree with the history. */
  ghost predicate Kept(d: Device, h: nat, p: Head, total: Totals) {
    h < |d.heads| && d.heads[h] == p && d.total == total
  }

  lemma CountedLive(heads: seq<Head>, w: nat, l: Line)
    requires w < |heads| && AllLive(heads, l)
    ensures AllLive(CountWrite(heads, w), l)
  {
  }

  lemma WriteKept(d: Device, op: Op, h: nat, t: Tenure, active: bool)
    requires |d.heads| == MAX_HEADS && h < MAX_HEADS && op.Write? && (active <==> Live(d.heads, op.head))
    requires LineAt(d, LineOf(op.addr)) == LineFrom(t) && Sound(t) && AllLive(d.heads, LineFrom(t))
    ensures var p := d.heads[h];
            Kept(Step(d, op), h,
                 OwnOp(p, op, active, h).(backInvalidations := p.backInvalidations + ToldTo(t, op, active, h)),
                 Sum(d.total, AddedBy(t, op, active)))
  {
    if active {
      CountedLive(d.heads, op.head, LineFrom(t));
      var r := WriteTells(d.(heads := CountWrite(d.heads, op.head)), t, op.head, h);
      WriteLeaves(d, op, r);
      assert AddedBy(t, op, true) == AddedBy(t, Write(op.head, 0, 0), true);
      assert ToldTo(t, op, true, h) == ToldTo(t, Write(op.head, 0, 0), true, h);
    }
  }

  lemma WriteLeaves(d: Device, op: Op, r: Device)
    requires |d.heads| == MAX_HEADS && op.Write? && Live(d.heads, op.head)
    requires r == WriteEffects(d.(heads := CountWrite(d.heads, op.head)), LineAt(d, LineOf(op.addr)), op.head)
    ensures Step(d, op).heads == r.heads && Step(d, op).total == r.total
  {
  }

  lemma LineOpKept(d: Device, op: Op, h: nat, t: Tenure, active: bool)
    requires |d.heads| == MAX_HEADS && h < MAX_HEADS && (active <==> Live(d.heads, op.head))
    requires op.Read? || op.Writeback? || op.DowngradeOwner?
    requires LineAt(d, LineOf(op.addr)) == LineFrom(t) && (LineOf(op.addr) in d.directory <==> t.known)
    requires Sound(t)
    ensures var p := d.heads[h];
            Kept(Step(d, op), h,
                 OwnOp(p, op, active, h).(backInvalidations := p.backInvalidations + ToldTo(t, op, active, h)),
                 Sum(d.total, AddedBy(t, op, active)))
  {
  }

  lemma InvalidationKept(d: Device, op: Op, h: nat, t: Tenure, active: bool)
    requires |d.heads| == MAX_HEADS && h < MAX_HEADS && op.InvalidateSharers?
    requires LineAt(d, LineOf(op.addr)) == LineFrom(t) && (LineOf(op.addr) in d.directory <==> t.known)
    requires AllLive(d.heads, LineFrom(t))
    ensures var p := d.heads[h];
            Kept(Step(d, op), h,
                 OwnOp(p, op, active, h).(backInvalidations := p.backInvalidations + ToldTo(t, op, active, h)),
                 Sum(d.total, AddedBy(t, op, active)))
  {
    if t.known {
      var r := SharersTold(d, op, h, t, active);
      InvalidatedStep(d, op, r);
    }
  }

  lemma SharersTold(d: Device, op: Op, h: nat, t: Tenure, active: bool) returns (r: Device)
    requires h < |d.heads| && op.InvalidateSharers? && AllLive(d.heads, LineFrom(t)) && t.known
    ensures r == Invalidated(d, LineFrom(t), op.head) && |r.heads| == |d.heads|
    ensures r.heads[h].backInvalidations == d.heads[h].backInvalidations + ToldTo(t, op, active, h)
    ensures r.heads[h] == d.heads[h].(backInvalidations := r.heads[h].backInvalidations)
    ensures r.total == Sum(d.total, AddedBy(t, op, active))
  {
    r := InvalidatedTells(d, LineFrom(t), op.head, h);
  }

  lemma InvalidatedStep(d: Device, op: Op, r: Device)
    requires |d.heads| == MAX_HEADS && op.InvalidateSharers? && LineOf(op.addr) in d.directory
    requires r == Invalidated(d, LineAt(d, LineOf(op.addr)), op.head)
    ensures Step(d, op).heads == r.heads && Step(d, op).total == r.total
  {
  }

  lemma PoolOpKept(d: Device, op: Op, h: nat, active: bool)
    requires |d.heads| == MAX_HEADS && h < MAX_HEADS && (active <==> Live(d.heads, op.head))
    requires op.Activate? || op.Deactivate? || op.Allocate? || op.Release?
    ensures var p, r := d.heads[h], Step(d, op);
            Kept(r, h, OwnOp(p, op, active, h).(active := r.heads[h].active), d.total)
  {
  }

  /**
   * After every run of the nine operations: each head's grant, use, read and write counts
   * and back-invalidations, and the totals, are the stated functions of the operations so
   * far.  Each copy that a write or an invalidation takes from another head counts once,
   * and so does each write on a line another head wrote.
   */
  lemma {:induction false} HeadsAreHistory(run: seq<Op>, h: nat)
    requires h < MAX_HEADS
    ensures Exec(run).heads[h] == HeadOf(run, h) && Exec(run).total == TotalsOf(run)
  {
    if run != [] {
      var before, op := run[..|run| - 1], run[|run| - 1];
      HeadsAreHistory(before, h);
      ActiveIsHistory(before, op.head);
      ActiveIsHistory(run, h);
      StepKept(before, op, h);
    }
  }

  lemma StepKept(before: seq<Op>, op: Op, h: nat)
    requires h < MAX_HEADS && (Live(Exec(before).heads, op.head) <==> Active(before, op.head))
    ensures var d, t, active := Exec(before), TenureAt(before, op), Active(before, op.head);
            var p, r := d.heads[h], Step(d, op);
            Kept(r, h,
                 OwnOp(p, op, active, h).(active := r.heads[h].active,
                                          backInvalidations := p.backInvalidations + ToldTo(t, op, active, h)),
                 Sum(d.total, AddedBy(t, op, active)))
  {
    var d, active := Exec(before), Active(before, op.head);
    if op.Activate? || op.Deactivate? || op.Allocate? || op.Release? {
      PoolOpKept(d, op, h, active);
    } else {
      var line := LineOf(op.addr);
      LineIsHistory(before, line);
      SoundAfter(before, line);
      EveryNameIsActive(before);
      StepActive(d, op, h);
      LineKept(d, op, h, TenureOf(before, line), active);
    }
  }

  lemma LineKept(d: Device, op: Op, h: nat, t: Tenure, active: bool)
    requires Ok(d) && h < MAX_HEADS && (active <==> Live(d.heads, op.head)) && Sound(t)
    requires !op.Activate? && !op.Deactivate? && !op.Allocate? && !op.Release?
    requires Recorded(d, LineOf(op.addr), t)
    ensures var p := d.heads[h];
            Kept(Step(d, op), h,
                 OwnOp(p, op, active, h).(backInvalidations := p.backInvalidations + ToldTo(t, op, active, h)),
                 Sum(d.total, AddedBy(t, op, active)))
  {
    assert AllLive(d.heads, LineFrom(t));
    if op.Write? {
      WriteKept(d, op, h, t, active);
    } else if op.InvalidateSharers? {
      InvalidationKept(d, op, h, t, active);
    } else {
      LineOpKept(d, op, h, t, active);
    }
  }

  // ---------------------------------------------------------------------------
  // Accounting: what the heads were told is what the totals say
  // ---------------------------------------------------------------------------

  function BackTotal(heads: seq<Head>): (r: nat) {
    if heads == [] then 0 else BackTotal(heads[..|heads| - 1]) + heads[|heads| - 1].backInvalidations
  }

  lemma {:induction false} NotifyAdds(heads: seq<Head>, names: set<nat>)
    requires forall i :: i in names ==> i < |heads|
    ensures BackTotal(Notify(heads, names)) == BackTotal(heads) + |names|
  {
    if heads == [] {
      assert names == {};
    } else {
      var n := |heads| - 1;
      var rest := names - {n};
      NotifyAdds(heads[..n], rest);
      assert Notify(heads, names)[..n] == Notify(heads[..n], rest);
      assert n in names ==> |names| == |rest| + 1;
      assert n !in names ==> rest == names;
    }
  }

  lemma {:induction false} SameBackTotal(a: seq<Head>, b: seq<Head>)
    requires |a| == |b| && forall i :: 0 <= i < |a| ==> a[i].backInvalidations == b[i].backInvalidations
    ensures BackTotal(a) == BackTotal(b)
  {
    if a != [] {
      SameBackTotal(a[..|a| - 1], b[..|b| - 1]);
    }
  }

  /** A write that snoops: the line is owned by another head. */
  function SnoopsAt(d: Device, op: Op): (r: nat)
    requires |d.heads| == MAX_HEADS
  {
    if op.Write? && Live(d.heads, op.head) && Snooping(LineAt(d, LineOf(op.addr)), op.head) then 1 else 0
  }

  predicate Snooping(l: Line, h: nat) {
    !l.state.Invalid? && !l.state.Shared? && l.owner != h
  }

  /** A message that no head counts: a read miss on an owned line, or a downgrade. */
  function QuietAt(d: Device, op: Op): (r: nat)
    requires |d.heads| == MAX_HEADS
  {
    match op
    case Read(h, addr, _) =>
      var l := LineAt(d, LineOf(addr));
      if Live(d.heads, h) && !Holds(l, h) && h !in l.sharers && !l.state.Invalid? && !l.state.Shared? then 1 else 0
    case DowngradeOwner(h, addr) =>
      var l := LineAt(d, LineOf(addr));
      if l.owner != NO_HEAD && l.owner != h then 1 else 0
    case _ => 0
  }

  function Snoops(run: seq<Op>): (r: nat) {
    if run == [] then 0 else Snoops(run[..|run| - 1]) + SnoopsAt(Exec(run[..|run| - 1]), run[|run| - 1])
  }

  function QuietMessages(run: seq<Op>): (r: nat) {
    if run == [] then 0 else QuietMessages(run[..|run| - 1]) + QuietAt(Exec(run[..|run| - 1]), run[|run| - 1])
  }

  /** The heads were told of every invalidation and every snoop, and messages are these and the quiet ones. */
  ghost predicate Accounted(d: Device, snoops: nat, quiet: nat) {
    && BackTotal(d.heads) == d.total.invalidations + snoops
    && d.total.messages == BackTotal(d.heads) + quiet
  }

  lemma InvalidatedAccounted(d: Device, l: Line, h: nat, snoops: nat, quiet: nat)
    requires |d.heads| == MAX_HEADS && Accounted(d, snoops, quiet)
    ensures Accounted(Invalidated(d, l, h), snoops, quiet)
  {
    NotifyAdds(d.heads, Reached(d.heads, l, h));
  }

  lemma SnoopedAccounted(d: Device, l: Line, snoops: nat, quiet: nat)
    requires |d.heads| == MAX_HEADS && l.owner < MAX_HEADS && Accounted(d, snoops, quiet)
    ensures Accounted(Snooped(d, l), snoops + 1, quiet)
  {
    NotifyAdds(d.heads, {l.owner});
  }

  lemma EffectsAccounted(d: Device, l: Line, h: nat, snoops: nat, quiet: nat)
    requires |d.heads| == MAX_HEADS && (l.state.Invalid? || l.owner < MAX_HEADS) && Accounted(d, snoops, quiet)
    ensures Accounted(WriteEffects(d, l, h), if Snooping(l, h) then snoops + 1 else snoops, quiet)
  {
    if Snooping(l, h) {
      SnoopedAccounted(d, l, snoops, quiet);
      InvalidatedAccounted(Snooped(d, l), l, h, snoops + 1, quiet);
    } else {
      InvalidatedAccounted(d, l, h, snoops, quiet);
    }
  }

  lemma WriteAccounted(d: Device, h: nat, addr: nat, time: nat, snoops: nat, quiet: nat)
    requires Ok(d) && Accounted(d, snoops, quiet)
    ensures Accounted(WriteStep(d, h, addr, time), snoops + SnoopsAt(d, Write(h, addr, time)), quiet)
  {
    if Live(d.heads, h) {
      var l, t := LineAt(d, LineOf(addr)), d.(heads := CountWrite(d.heads, h));
      SameBackTotal(d.heads, t.heads);
      EffectsAccounted(t, l, h, snoops, quiet);
    }
  }

  lemma OthersAccounted(d: Device, op: Op, snoops: nat, quiet: nat)
    requires |d.heads| == MAX_HEADS && Accounted(d, snoops, quiet) && !op.Write? && !op.InvalidateSharers?
    ensures Accounted(Step(d, op), snoops, quiet + QuietAt(d, op))
  {
    SameBackTotal(d.heads, Step(d, op).heads);
  }

  lemma StepAccounted(d: Device, op: Op, snoops: nat, quiet: nat)
    requires Ok(d) && Accounted(d, snoops, quiet)
    ensures Accounted(Step(d, op), snoops + SnoopsAt(d, op), quiet + QuietAt(d, op))
  {
    match op
    case Write(h, addr, time) => WriteAccounted(d, h, addr, time, snoops, quiet);
    case InvalidateSharers(h, addr) => InvalidateAccounted(d, h, addr, snoops, quiet);
    case _ => OthersAccounted(d, op, snoops, quiet);
  }

  lemma InvalidateAccounted(d: Device, h: nat, addr: nat, snoops: nat, quiet: nat)
    requires |d.heads| == MAX_HEADS && Accounted(d, snoops, quiet)
    ensures Accounted(InvalidateStep(d, h, addr), snoops, quiet)
  {
    if LineOf(addr) in d.directory {
      InvalidatedAccounted(d, d.directory[LineOf(addr)], h, snoops, quiet);
    }
  }

  /**
   * After every run: the back-invalidations of all heads are the invalidations and the
   * snoops, and the messages are these, the read misses on owned lines and the downgrades.
   */
  lemma {:induction false} BackInvalidationsAccounted(run: seq<Op>)
    ensures Accounted(Exec(run), Snoops(run), QuietMessages(run))
  {
    if run == [] {
      IdleTotal(MAX_HEADS);
    } else {
      var before := run[..|run| - 1];
      BackInvalidationsAccounted(before);
      EveryNameIsActive(before);
      StepAccounted(Exec(before), run[|run| - 1], Snoops(before), QuietMessages(before));
    }
  }

  lemma {:induction false} IdleTotal(n: nat)
    ensures BackTotal(seq(n, _ => IDLE)) == 0
  {
    if n != 0 {
      IdleTotal(n - 1);
      assert seq(n, _ => IDLE)[..n - 1] == seq(n - 1, _ => IDLE);
    }
  }

  // ---------------------------------------------------------------------------
  // What is allocated
  // ---------------------------------------------------------------------------

  /** More than fits is granted exactly where use and size together pass 2^64 and what is left of them fits. */
  lemma OverGrantIff(p: Head, size: nat)
    requires p.used < WORD && size < WORD && p.granted < WORD
    ensures Grants(p, size) && p.used + size > p.granted
            <==> WORD <= p.used + size <= WORD + p.granted
  {
    if p.used + size >= WORD {
      assert UsedAfter(p, size) == p.used + size - WORD;
    }
  }

  /** Such a head, reached: it holds `first` bytes, is given `second` more, and the two exceed its grant. */
  lemma OverGrantReached(h: nat, capacity: nat, first: nat, second: nat)
    requires h < MAX_HEADS && first <= capacity < WORD && second < WORD
    requires WORD <= first + second <= WORD + capacity
    ensures var d := Exec([Activate(h, capacity), Allocate(h, first)]);
            && Live(d.heads, h) && d.heads[h].used == first && d.heads[h].granted == capacity < first + second
            && Grants(d.heads[h], second)
            && Exec([Activate(h, capacity), Allocate(h, first), Allocate(h, second)]).heads[h].used
               == first + second - WORD
  {
    var a, b, c := Activate(h, capacity), Allocate(h, first), Allocate(h, second);
    assert [a, b, c][..2] == [a, b] && [a, b][..1] == [a] && [a][..0] == [];
    assert Exec([a]) == Step(Start(), a);
    assert Exec([a, b]) == Step(Exec([a]), b);
    OverGrantIff(Exec([a, b]).heads[h], second);
  }

  predicate SameUse(p: Head, q: Head) {
    p.active == q.active && p.used == q.used && p.granted == q.granted
  }

  lemma EffectsKeepUse(d: Device, l: Line, writer: nat, h: nat)
    requires h < |d.heads|
    ensures |WriteEffects(d, l, writer).heads| == |d.heads| && SameUse(WriteEffects(d, l, writer).heads[h], d.heads[h])
  {
  }

  lemma StepUse(d: Device, op: Op, h: nat)
    requires |d.heads| == MAX_HEADS && h < MAX_HEADS && d.heads[h].used <= d.heads[h].granted
    ensures Step(d, op).heads[h].used <= Step(d, op).heads[h].granted
  {
    match op
    case Write(w, addr, time) =>
      if Live(d.heads, w) {
        EffectsKeepUse(d.(heads := CountWrite(d.heads, w)), LineAt(d, LineOf(addr)), w, h);
      }
    case _ =>
  }

  /** Even so, through every run no head's recorded use exceeds what it was granted. */
  lemma {:induction false} UseWithinGrant(run: seq<Op>, h: nat)
    requires h < MAX_HEADS
    ensures Exec(run).heads[h].used <= Exec(run).heads[h].granted
  {
    if run != [] {
      UseWithinGrant(run[..|run| - 1], h);
      StepUse(Exec(run[..|run| - 1]), run[|run| - 1], h);
    }
  }

  // ---------------------------------------------------------------------------
  // What a release walks over, and when the walk ends
  // ---------------------------------------------------------------------------

  /** The lines given up: those of the bytes from the start of the first line to the end of the region. */
  lemma RegionLines(line: nat, addr: nat, size: nat)
    requires addr + size < WORD
    ensures InRegion(line, addr, size)
            <==> exists b :: addr - addr % LINE_SIZE <= b < addr + size && b - b % LINE_SIZE == line
  {
    assert RegionEnd(addr, size) == addr + size;
    if InRegion(line, addr, size) {
      assert line - line % LINE_SIZE == line;
    }
    if b :| addr - addr % LINE_SIZE <= b < addr + size && b - b % LINE_SIZE == line {
      FirstLine(addr, b);
    }
  }

  lemma FirstLine(addr: nat, b: nat)
    requires addr - addr % LINE_SIZE <= b
    ensures addr - addr % LINE_SIZE <= b - b % LINE_SIZE && (b - b % LINE_SIZE) % LINE_SIZE == 0
  {
  }

  /** A region that passes the end of the address space gives up lines only as far as its wrapped end. */
  lemma RegionWraps(line: nat, addr: nat, size: nat)
    requires addr < WORD <= addr + size < 2 * WORD
    ensures InRegion(line, addr, size)
            <==> line % LINE_SIZE == 0 && addr - addr % LINE_SIZE <= line < addr + size - WORD
  {
    assert RegionEnd(addr, size) == addr + size - WORD;
  }

  /** The line the walk looks at after `k` steps, in 64-bit arithmetic. */
  function Visited(addr: nat, k: nat): (r: nat) {
    (LineOf(addr) + LINE_SIZE * k) % WORD
  }

  predicate WalkEnds(addr: nat, size: nat) {
    RegionEnd(addr, size) <= WORD - LINE_SIZE
  }

  /** The walk reaches a line at or past the region's end exactly when that end is not in the last line. */
  lemma ReleaseWalk(addr: nat, size: nat)
    requires addr < WORD
    ensures (exists k: nat :: RegionEnd(addr, size) <= Visited(addr, k)) <==> WalkEnds(addr, size)
  {
    forall k: nat ensures Visited(addr, k) <= WORD - LINE_SIZE {
      VisitedAligned(addr, k);
    }
    if WalkEnds(addr, size) {
      var k := (WORD - LINE_SIZE - LineOf(addr)) / LINE_SIZE;
      assert Visited(addr, k) == WORD - LINE_SIZE;
    }
  }

  lemma VisitedAligned(addr: nat, k: nat)
    ensures Visited(addr, k) % LINE_SIZE == 0
    ensures Visited(addr, k) <= WORD - LINE_SIZE
  {
    var x := LineOf(addr) + LINE_SIZE * k;
    var m := x / LINE_SIZE;
    assert x == LINE_SIZE * m;
    assert x % WORD == x - WORD * (x / WORD);
    assert x % WORD == LINE_SIZE * (m - (WORD / LINE_SIZE) * (x / WORD));
  }

  // ---------------------------------------------------------------------------
  // The device as the source runs it
  // ---------------------------------------------------------------------------

  class MhsldDevice {
    const heads: array<Head>
    var directory: map<nat, Line>
    var total: Totals
    const capacity: nat

    ghost function State(): (r: Device)
      reads this, heads
    {
      Device(heads[..], directory, total)
    }

    /** The invariant the device relies on whenever it indexes `heads` with a stored name. */
    ghost predicate Valid()
      reads this, heads
    {
      heads.Length == MAX_HEADS && Ok(State())
    }

    lemma Reestablish(d: Device)
      requires heads.Length == MAX_HEADS && State() == d && Ok(d)
      ensures Valid()
    {
    }

    constructor (totalCapacity: nat)
      ensures Valid() && State() == Start() && fresh(heads)
    {
      heads := new Head[MAX_HEADS](_ => IDLE);
      directory, total, capacity := map[], Totals(0, 0, 0, 0), totalCapacity;
      new;
      assert heads[..] == Start().heads;
    }

    method ActivateHead(h: nat, capacityAlloc: nat) returns (ok: bool)
      requires Valid()
      modifies heads
      ensures Valid() && State() == ActivateStep(old(State()), h, capacityAlloc)
      ensures ok == (h < MAX_HEADS)
    {
      StepKeeps(State(), Activate(h, capacityAlloc));
      ok := h < MAX_HEADS;
      if ok {
        heads[h] := heads[h].(active := true, granted := capacityAlloc, used := 0);
      }
    }

    /** Forgets the head on every line of the directory, one after another. */
    method ForgetEverywhere(h: nat)
      modifies this`directory
      ensures directory == map k | k in old(directory) :: ForgetOnExit(old(directory)[k], h)
    {
      var left := directory.Keys;
      while left != {}
        invariant left <= directory.Keys == old(directory).Keys
        invariant forall k :: k in directory ==>
                    directory[k] == if k in left then old(directory)[k] else ForgetOnExit(old(directory)[k], h)
      {
        var k :| k in left;
        left := left - {k};
        var l := directory[k];
        if l.owner == h {
          if l.state.Modified? {
            l := l.(dirty := true);
          }
          l := l.(owner := NO_HEAD, state := Invalid);
        }
        directory := directory[k := l.(sharers := l.sharers - {h})];
      }
    }

    method DeactivateHead(h: nat)
      requires Valid()
      modifies this`directory, heads
      ensures Valid() && State() == DeactivateStep(old(State()), h)
      ensures h < MAX_HEADS ==>
                forall k :: k in directory ==> directory[k].owner != h && h !in directory[k].sharers
    {
      ForgetStepsKeep(State(), h, 0, 0);
      if h >= MAX_HEADS {
        return;
      }
      heads[h] := heads[h].(active := false);
      ForgetEverywhere(h);
      assert heads[..] == old(heads[..])[h := old(heads[h]).(active := false)];
    }

    /** Walks the released region line by line; see `ReleaseWalk` for what the precondition excludes. */
    method ForgetRegion(h: nat, addr: nat, size: nat)
      requires addr < WORD && WalkEnds(addr, size)
      modifies this`directory
      ensures directory == ReleaseDirectory(old(directory), h, addr, size)
    {
      var line, end := LineOf(addr), WordSum(addr, size);
      ghost var dir := directory;
      WalkedEnds(dir, h, addr, size, end);
      while line < end
        invariant line % LINE_SIZE == 0 && LineOf(addr) <= line <= WORD - LINE_SIZE
        invariant directory == Walked(dir, h, addr, size, line)
        decreases WORD - line
      {
        WalkedNext(dir, h, addr, size, line);
        ForgetAt(h, line);
        line := WordSum(line, LINE_SIZE);
      }
      WalkedEnds(dir, h, addr, size, line);
    }

    method ForgetAt(h: nat, line: nat)
      modifies this`directory
      ensures directory == if line in old(directory) then old(directory)[line := Forget(old(directory)[line], h)]
                           else old(directory)
    {
      if line in directory {
        var l := directory[line];
        l := l.(sharers := l.sharers - {h});
        if l.owner == h {
          l := l.(owner := NO_HEAD, state := Invalid);
        }
        directory := directory[line := l];
      }
    }

    method ReleasePool(h: nat, addr: nat, size: nat)
      requires Valid() && addr < WORD && WalkEnds(addr, size)
      modifies this`directory, heads
      ensures Valid() && State() == ReleaseStep(old(State()), h, addr, size)
    {
      ghost var target := ReleaseStep(State(), h, addr, size);
      ForgetStepsKeep(State(), h, addr, size);
      if h < MAX_HEADS && heads[h].active {
        ForgetRegion(h, addr, size);
        GiveBack(h, size);
      }
      Reestablish(target);
    }

    method GiveBack(h: nat, size: nat)
      requires h < heads.Length
      modifies heads
      ensures var p := old(heads[h]);
              heads[..] == old(heads[..])[h := p.(used := if p.used >= size then p.used - size else p.used)]
    {
      if heads[h].used >= size {
        heads[h] := heads[h].(used := heads[h].used - size);
      }
    }

    method AllocatePool(h: nat, size: nat) returns (addr: nat)
      requires Valid()
      modifies heads
      ensures Valid() && State() == AllocateStep(old(State()), h, size)
      ensures addr == if h < MAX_HEADS && old(heads[h].active) && Grants(old(heads[h]), size)
                      then WordSum(h * (capacity / MAX_HEADS), old(heads[h].used)) else 0
    {
      StepKeeps(State(), Allocate(h, size));
      addr := 0;
      if h >= MAX_HEADS || !heads[h].active || WordSum(heads[h].used, size) > heads[h].granted {
        return;
      }
      addr := WordSum(h * (capacity / MAX_HEADS), heads[h].used);
      heads[h] := heads[h].(used := WordSum(heads[h].used, size));
      assert heads[..] == old(heads[..])[h := heads[h]];
    }

    /** The line after a read by `h`; `Exclusive` is handled although no operation produces it. */
    method Acquire(l: Line, h: nat, time: nat) returns (r: Line)
      modifies this`total
      ensures r == ReadLine(l, h, time) && total == ReadTotals(l, h, old(total))
    {
      r := l.(accesses := l.accesses + 1, lastAccess := time);
      if (l.owner == h && (l.state.Exclusive? || l.state.Modified? || l.state.Owned?)) || h in l.sharers {
        return;
      }
      match l.state {
        case Invalid => r := r.(sharers := r.sharers + {h}, state := Shared, owner := h);
        case Shared => r := r.(sharers := r.sharers + {h});
        case Exclusive =>
          r := r.(sharers := r.sharers + {r.owner} + {h}, state := Shared);
          total := total.(messages := total.messages + 1);
        case Modified =>
          r := r.(state := Owned, sharers := r.sharers + {h});
          total := total.(messages := total.messages + 1, downgrades := total.downgrades + 1);
        case Owned =>
          r := r.(sharers := r.sharers + {h});
          total := total.(messages := total.messages + 1);
      }
    }

    method ReadWithCoherency(h: nat, addr: nat, time: nat)
      requires Valid()
      modifies this, heads
      ensures Valid() && State() == ReadStep(old(State()), h, addr, time)
    {
      ReadStepKeeps(State(), h, addr, time);
      if h >= MAX_HEADS || !heads[h].active {
        return;
      }
      var line := LineOf(addr);
      var l := if line in directory then directory[line] else FRESH;
      heads[h] := heads[h].(readCount := heads[h].readCount + 1);
      assert heads[..] == CountRead(old(heads[..]), h);
      l := Acquire(l, h, time);
      directory := directory[line := l];
    }

    /** The sharers to tell; their names, stored in the line, index the head table. */
    method ToInvalidate(l: Line, except: nat) returns (names: set<nat>)
      requires heads.Length == MAX_HEADS && NamesOk(heads[..], l)
      ensures names == Reached(heads[..], l, except)
    {
      names := {};
      var left := l.sharers;
      while left != {}
        invariant left <= l.sharers
        invariant forall s :: s in names <==> s in l.sharers - left && s != except && Live(heads[..], s)
      {
        var s :| s in left;
        assert Live(heads[..], s);
        left := left - {s};
        if s != except && heads[s].active {
          names := names + {s};
        }
      }
    }

    method TellOne(s: nat)
      requires heads.Length == MAX_HEADS && s < MAX_HEADS
      modifies this`total, heads
      ensures heads[..] == old(heads[..])[s := BackTold(old(heads[s]))]
      ensures total == Told(old(total), 1)
    {
      heads[s] := BackTold(heads[s]);
      total := total.(messages := total.messages + 1, invalidations := total.invalidations + 1);
    }

    method Tell(names: set<nat>)
      requires heads.Length == MAX_HEADS && forall s :: s in names ==> s < MAX_HEADS
      modifies this`total, heads
      ensures heads[..] == Notify(old(heads[..]), names)
      ensures total == Told(old(total), |names|)
    {
      var left := names;
      ghost var start := heads[..];
      NotifyNone(start, names);
      while left != {}
        invariant left <= names && |left| <= |names|
        invariant heads[..] == Notify(start, names - left)
        invariant total == Told(old(total), |names| - |left|)
        decreases |left|
      {
        var s :| s in left;
        NotifyNext(start, names, left, s);
        TellOne(s);
        left := left - {s};
      }
      assert names - left == names;
    }

    method TellSharers(l: Line, except: nat)
      requires heads.Length == MAX_HEADS && NamesOk(heads[..], l)
      modifies this`total, heads
      ensures State() == Invalidated(old(State()), l, except)
    {
      var names := ToInvalidate(l, except);
      Tell(names);
    }

    /** A snoop message to the owner of a line. */
    method Snoop(l: Line)
      requires heads.Length == MAX_HEADS && l.owner < MAX_HEADS
      modifies this`total, heads
      ensures State() == Snooped(old(State()), l)
    {
      if l.state.Modified? || l.state.Owned? {
        total := total.(writebacks := total.writebacks + 1);
      }
      heads[l.owner] := heads[l.owner].(backInvalidations := heads[l.owner].backInvalidations + 1);
      total := total.(messages := total.messages + 1);
      assert heads[..] == Notify(old(heads[..]), {l.owner});
    }

    method InvalidateEntry(h: nat, addr: nat)
      requires heads.Length == MAX_HEADS
      requires LineOf(addr) in directory ==> NamesOk(heads[..], directory[LineOf(addr)])
      modifies this, heads
      ensures State() == InvalidateStep(old(State()), h, addr)
    {
      if LineOf(addr) in directory {
        var l := directory[LineOf(addr)];
        TellSharers(l, h);
        directory := directory[LineOf(addr) := l.(sharers := {})];
      }
    }

    method InvalidateSharers(h: nat, addr: nat)
      requires Valid()
      modifies this, heads
      ensures Valid() && State() == InvalidateStep(old(State()), h, addr)
    {
      ghost var target := InvalidateStep(State(), h, addr);
      InvalidateStepKeeps(State(), h, addr);
      assert LineOf(addr) in directory ==> LineOk(heads[..], directory[LineOf(addr)]);
      InvalidateEntry(h, addr);
      Reestablish(target);
    }

    /** What a write costs the other heads, before the line changes hands. */
    method TakeFromOthers(l: Line, h: nat)
      requires heads.Length == MAX_HEADS && NamesOk(heads[..], l)
      modifies this`total, heads
      ensures State() == WriteEffects(old(State()), l, h)
    {
      if l.state.Invalid? || (l.owner == h && (l.state.Exclusive? || l.state.Modified?)) {
        return;
      }
      if !l.state.Shared? && l.owner != h {
        Snoop(l);
        NamesGrow(old(heads[..]), heads[..], l);
      }
      TellSharers(l, h);
    }

    method WriteEntry(l: Line, h: nat, time: nat) returns (r: Line)
      requires heads.Length == MAX_HEADS && NamesOk(heads[..], l) && h < MAX_HEADS
      modifies this`total, heads
      ensures r == WriteLine(l, h, time)
      ensures State() == WriteEffects(old(State()).(heads := CountWrite(old(heads[..]), h)), l, h)
    {
      heads[h] := heads[h].(writeCount := heads[h].writeCount + 1);
      assert heads[..] == CountWrite(old(heads[..]), h);
      NamesGrow(old(heads[..]), heads[..], l);
      TakeFromOthers(l, h);
      r := l.(accesses := l.accesses + 1, lastAccess := time, version := (l.version + 1) % VERSION_MODULUS);
      if !(l.owner == h && (l.state.Exclusive? || l.state.Modified?)) {
        r := r.(owner := h, sharers := {});
      }
      r := r.(state := Modified, dirty := true);
    }

    method WriteDirectory(h: nat, addr: nat, time: nat)
      requires heads.Length == MAX_HEADS
      requires LineOf(addr) in directory ==> NamesOk(heads[..], directory[LineOf(addr)])
      modifies this, heads
      ensures State() == WriteStep(old(State()), h, addr, time)
    {
      if h >= MAX_HEADS || !heads[h].active {
        return;
      }
      var line := LineOf(addr);
      var l := if line in directory then directory[line] else FRESH;
      l := WriteEntry(l, h, time);
      directory := directory[line := l];
    }

    method WriteWithCoherency(h: nat, addr: nat, time: nat)
      requires Valid()
      modifies this, heads
      ensures Valid() && State() == WriteStep(old(State()), h, addr, time)
    {
      ghost var target := WriteStep(State(), h, addr, time);
      WriteStepKeeps(State(), h, addr, time);
      assert LineOf(addr) in directory ==> LineOk(heads[..], directory[LineOf(addr)]);
      WriteDirectory(h, addr, time);
      Reestablish(target);
    }

    /** An atomic is a write; it only adds latency. */
    method AtomicWithCoherency(h: nat, addr: nat, time: nat)
      requires Valid()
      modifies this, heads
      ensures Valid() && State() == WriteStep(old(State()), h, addr, time)
    {
      WriteWithCoherency(h, addr, time);
    }

    method WritebackLineOf(h: nat, addr: nat)
      requires Valid()
      modifies this
      ensures Valid() && State() == WritebackStep(old(State()), h, addr)
    {
      WritebackStepKeeps(State(), h, addr);
      var line := LineOf(addr);
      if line !in directory || directory[line].owner != h {
        return;
      }
      var l := directory[line];
      if l.state.Modified? || l.state.Owned? {
        l := l.(dirty := false);
      }
      directory := directory[line := l.(state := Invalid, owner := NO_HEAD, sharers := l.sharers - {h})];
      total := total.(writebacks := total.writebacks + 1);
    }

    method DowngradeOwner(h: nat, addr: nat)
      requires Valid()
      modifies this
      ensures Valid() && State() == DowngradeStep(old(State()), h, addr)
    {
      ghost var target := DowngradeStep(State(), h, addr);
      DowngradeStepKeeps(State(), h, addr);
      DowngradeEntry(h, addr);
      Reestablish(target);
    }

    method DowngradeEntry(h: nat, addr: nat)
      modifies this
      ensures State() == DowngradeStep(old(State()), h, addr)
    {
      var line := LineOf(addr);
      if line !in directory || directory[line].owner == NO_HEAD || directory[line].owner == h {
        return;
      }
      var l := Downgraded(directory[line]);
      directory := directory[line := l];
      total := total.(messages := total.messages + 1, downgrades := total.downgrades + 1);
    }

    method Downgraded(l: Line) returns (r: Line)
      ensures r == DowngradeLine(l)
    {
      r := l;
      if l.state.Modified? {
        r := l.(state := Owned, dirty := true);
      } else if l.state.Exclusive? {
        r := l.(sharers := l.sharers + {l.owner}, state := Shared, owner := NO_HEAD);
      }
    }
  }

  lemma NotifyNone(heads: seq<Head>, names: set<nat>)
    ensures Notify(heads, names - names) == heads
  {
  }

  lemma NotifyOne(heads: seq<Head>, told: set<nat>, s: nat)
    requires s < |heads| && s !in told
    ensures var before := Notify(heads, told);
            Notify(heads, told + {s}) == before[s := BackTold(before[s])]
  {
  }

  lemma NotifyNext(heads: seq<Head>, names: set<nat>, left: set<nat>, s: nat)
    requires s < |heads| && s in left && left <= names
    ensures var before := Notify(heads, names - left);
            Notify(heads, names - (left - {s}))
            == before[s := BackTold(before[s])]
  {
    NotifyOne(heads, names - left, s);
    assert names - (left - {s}) == (names - left) + {s};
  }

  /** The directory when a release has walked up to a line. */
  function Walked(dir: map<nat, Line>, h: nat, addr: nat, size: nat, upTo: nat): (r: map<nat, Line>) {
    map k | k in dir :: if InRegion(k, addr, size) && k < upTo then Forget(dir[k], h) else dir[k]
  }

  lemma WalkedEnds(dir: map<nat, Line>, h: nat, addr: nat, size: nat, upTo: nat)
    requires RegionEnd(addr, size) <= upTo
    ensures Walked(dir, h, addr, size, LineOf(addr)) == dir
    ensures Walked(dir, h, addr, size, upTo) == ReleaseDirectory(dir, h, addr, size)
  {
  }

  lemma WalkedNext(dir: map<nat, Line>, h: nat, addr: nat, size: nat, line: nat)
    requires InRegion(line, addr, size)
    ensures var before := Walked(dir, h, addr, size, line);
            Walked(dir, h, addr, size, line + LINE_SIZE)
            == if line in before then before[line := Forget(before[line], h)] else before
  {
    var before, after := Walked(dir, h, addr, size, line), Walked(dir, h, addr, size, line + LINE_SIZE);
    forall k | k in dir && k != line ensures after[k] == before[k] {
      if k % LINE_SIZE == 0 {
        SameSide(k, line);
      }
    }
  }

  lemma SameSide(k: nat, line: nat)
    requires k % LINE_SIZE == 0 && line % LINE_SIZE == 0 && k != line
    ensures k < line + LINE_SIZE <==> k < line
  {
  }
}
