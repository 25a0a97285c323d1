/**
 * What the expander's pipeline and address cache hold, said from the requests alone:
 * which requests a call issues and when they complete, which wait, what a free leaves,
 * and what the address cache knows.
 */
module ExpanderHistory {
  import opened Expander
  import opened Sequences
  import opened Words

  // ---------------------------------------------------------------------------
  // One call of the pipeline
  // ---------------------------------------------------------------------------

  /** The last of the first `n` requests of a queue that goes to an address, or -1. */
  function LastTo(queue: seq<Request>, n: nat, a: nat): (k: int)
    requires n <= |queue|
    ensures -1 <= k < n
    ensures 0 <= k ==> queue[k].addr == a
    ensures forall j :: k < j < n ==> queue[j].addr != a
  {
    if n == 0 then -1 else if queue[n - 1].addr == a then n - 1 else LastTo(queue, n - 1, a)
  }

  function KindCount(queue: seq<Request>, isRead: bool): (r: nat) {
    if queue == [] then 0 else (if queue[0].isRead == isRead then 1 else 0) + KindCount(queue[1..], isRead)
  }

  /**
   * What is in flight to an address once the first `n` requests of a queue were issued at
   * `now`: the last of them to that address, complete after the latency of the queue it
   * left, or else what was in flight before.
   */
  ghost predicate Flies(after: map<nat, Request>, before: map<nat, Request>, queue: seq<Request>, n: nat,
                        now: nat, latency: Latency, a: nat)
    requires n <= |queue|
  {
    var k := LastTo(queue, n, a);
    if 0 <= k then a in after && after[a] == queue[k].(completes := now + latency(queue[k], |queue| - k))
    else (a in after <==> a in before) && (a in before ==> after[a] == before[a])
  }

  /** The call stops only at an empty queue, at 32 requests in flight, or at a head without a credit of its kind. */
  predicate Stops(s: State) {
    || s.queue == []
    || |s.inFlight| >= 32
    || (if s.queue[0].isRead then s.readCredits else s.writeCredits) == 0
  }

  lemma LastToRest(queue: seq<Request>, n: nat, a: nat)
    requires 1 <= n <= |queue|
    ensures var k := LastTo(queue[1..], n - 1, a);
            LastTo(queue, n, a) == if 0 <= k then k + 1 else if queue[0].addr == a then 0 else -1
  {
    var rest, k, m := queue[1..], LastTo(queue[1..], n - 1, a), LastTo(queue, n, a);
    assert forall j :: 0 <= j < |rest| ==> rest[j] == queue[j + 1];
    if 0 <= k {
      assert queue[k + 1].addr == a;
    }
    if 1 <= m {
      assert rest[m - 1].addr == a;
    }
  }

  lemma FliesFurther(s: State, after: map<nat, Request>, n: nat, now: nat, latency: Latency, a: nat)
    requires CanIssue(s) && 1 <= n <= |s.queue|
    requires Flies(after, Issue(s, now, latency).inFlight, s.queue[1..], n - 1, now, latency, a)
    ensures Flies(after, s.inFlight, s.queue, n, now, latency, a)
  {
    LastToRest(s.queue, n, a);
  }

  /** The issue loop takes requests from the head, as far as it can. */
  lemma {:induction false} IssuesPrefix(s: State, now: nat, latency: Latency) returns (n: nat)
    ensures n <= |s.queue|
    ensures var r := IssueAll(s, now, latency);
            && r.queue == s.queue[n..] && Stops(r)
            && (forall a :: Flies(r.inFlight, s.inFlight, s.queue, n, now, latency, a))
            && r.readCredits + KindCount(s.queue[..n], true) == s.readCredits
            && r.writeCredits + KindCount(s.queue[..n], false) == s.writeCredits
            && r.occupation == s.occupation && r.addressCache == s.addressCache && r.cacheValid == s.cacheValid
    decreases |s.queue|
  {
    if CanIssue(s) {
      var t := Issue(s, now, latency);
      var m := IssuesPrefix(t, now, latency);
      n := m + 1;
      var r := IssueAll(s, now, latency);
      forall a ensures Flies(r.inFlight, s.inFlight, s.queue, n, now, latency, a) {
        assert Flies(r.inFlight, t.inFlight, s.queue[1..], m, now, latency, a);
        FliesFurther(s, r.inFlight, n, now, latency, a);
      }
      KindCountHead(s.queue, n, true);
      KindCountHead(s.queue, n, false);
      assert s.queue[1..][m..] == s.queue[n..];
    } else {
      n := 0;
      assert s.queue[..0] == [];
    }
  }

  lemma KindCountHead(queue: seq<Request>, n: nat, isRead: bool)
    requires 1 <= n <= |queue|
    ensures KindCount(queue[..n], isRead)
            == (if queue[0].isRead == isRead then 1 else 0) + KindCount(queue[1..][..n - 1], isRead)
  {
    assert queue[..n][1..] == queue[1..][..n - 1];
  }

  /** What is in flight and not complete. */
  ghost predicate StillFlying(after: map<nat, Request>, before: map<nat, Request>, now: nat) {
    forall a :: && (a in after <==> a in before && before[a].completes > now)
                && (a in after ==> after[a] == before[a])
  }

  function CompletedOf(s: State, now: nat, isRead: bool): (r: set<nat>) {
    set a | a in s.inFlight && s.inFlight[a].completes <= now && s.inFlight[a].isRead == isRead
  }

  /** The completed requests leave, and each gives its credit back, up to two of a kind. */
  lemma CompletesDone(s: State, now: nat)
    requires s.readCredits <= 2 && s.writeCredits <= 2
    ensures var r := Complete(s, now);
            var readTotal := s.readCredits + |CompletedOf(s, now, true)|;
            var writeTotal := s.writeCredits + |CompletedOf(s, now, false)|;
            && r.queue == s.queue && StillFlying(r.inFlight, s.inFlight, now)
            && r.readCredits == (if readTotal < 2 then readTotal else 2)
            && r.writeCredits == (if writeTotal < 2 then writeTotal else 2)
            && r.occupation == s.occupation && r.addressCache == s.addressCache && r.cacheValid == s.cacheValid
  {
    assert Done(s.inFlight, now) * OfKind(s.inFlight, true) == CompletedOf(s, now, true);
    assert Done(s.inFlight, now) * OfKind(s.inFlight, false) == CompletedOf(s, now, false);
  }

  /** All that a call of the pipeline does: it completes, then issues the longest prefix of the queue that it can. */
  lemma ProcessIs(s: State, now: nat, latency: Latency) returns (n: nat, flying: map<nat, Request>)
    requires s.readCredits <= 2 && s.writeCredits <= 2
    ensures n <= |s.queue| && StillFlying(flying, s.inFlight, now)
    ensures var r := Process(s, now, latency);
            var readTotal := s.readCredits + |CompletedOf(s, now, true)|;
            var writeTotal := s.writeCredits + |CompletedOf(s, now, false)|;
            && r.queue == s.queue[n..] && Stops(r)
            && (forall a :: Flies(r.inFlight, flying, s.queue, n, now, latency, a))
            && r.readCredits + KindCount(s.queue[..n], true) == (if readTotal < 2 then readTotal else 2)
            && r.writeCredits + KindCount(s.queue[..n], false) == (if writeTotal < 2 then writeTotal else 2)
            && r.occupation == s.occupation && r.addressCache == s.addressCache && r.cacheValid == s.cacheValid
  {
    CompletesDone(s, now);
    flying := Complete(s, now).inFlight;
    n := IssuesPrefix(Complete(s, now), now, latency);
  }

  /** The pipeline's part of the state. */
  predicate SamePipeline(s: State, t: State) {
    && s.queue == t.queue && s.inFlight == t.inFlight
    && s.readCredits == t.readCredits && s.writeCredits == t.writeCredits
  }

  /** Insertions of this expander and latency measurements run the pipeline; nothing else touches it. */
  lemma PipelineRuns(s: State, op: Op, latency: Latency)
    ensures var (t, code) := Step(s, op, latency);
            match op
            case Insert(time, tid, addr, mine) =>
              if !mine then t == s
              else
                var p := Process(s, time, latency);
                SamePipeline(t, if addr == 0 || code == 0 then p
                                else p.(queue := p.queue + [Request(time, addr, tid, code == 2, 0)]))
            case MeasureLatency(now) => SamePipeline(t, Process(s, now, latency))
            case _ => SamePipeline(t, s)
  {
  }

  // ---------------------------------------------------------------------------
  // What waits
  // ---------------------------------------------------------------------------

  /** The requests a run accepted, in order: a load of a held address is a read, anything else a write. */
  function Accepted(run: seq<Op>, latency: Latency): (r: seq<Request>) {
    if run == [] then []
    else
      var before, op := run[..|run| - 1], run[|run| - 1];
      var code := Step(Exec(INITIAL, before, latency), op, latency).1;
      if op.Insert? && op.mine && op.addr != 0 && code != 0
      then Accepted(before, latency) + [Request(op.time, op.addr, op.tid, code == 2, 0)]
      else Accepted(before, latency)
  }

  /** The queue is the tail of what was accepted. */
  predicate Waits(queue: seq<Request>, accepted: seq<Request>) {
    |queue| <= |accepted| && queue == accepted[|accepted| - |queue|..]
  }

  lemma WaitsLess(queue: seq<Request>, accepted: seq<Request>, n: nat)
    requires Waits(queue, accepted) && n <= |queue|
    ensures Waits(queue[n..], accepted)
  {
  }

  lemma WaitsMore(queue: seq<Request>, accepted: seq<Request>, q: Request)
    requires Waits(queue, accepted)
    ensures Waits(queue + [q], accepted + [q])
  {
  }

  lemma StepWaits(s: State, op: Op, latency: Latency, accepted: seq<Request>)
    requires s.readCredits <= 2 && s.writeCredits <= 2 && Waits(s.queue, accepted)
    ensures var (t, code) := Step(s, op, latency);
            Waits(t.queue, if op.Insert? && op.mine && op.addr != 0 && code != 0
                           then accepted + [Request(op.time, op.addr, op.tid, code == 2, 0)] else accepted)
  {
    match op
    case Insert(time, tid, addr, mine) =>
      if mine {
        var n, flying := ProcessIs(s, time, latency);
        EnqueueWaits(Process(s, time, latency), time, tid, addr, accepted);
      }
    case MeasureLatency(now) => var n, flying := ProcessIs(s, now, latency);
    case _ =>
  }

  lemma EnqueueWaits(s: State, time: nat, tid: nat, addr: nat, accepted: seq<Request>)
    requires Waits(s.queue, accepted)
    ensures var (t, code) := Enqueue(s, time, tid, addr);
            Waits(t.queue, if addr != 0 && code != 0 then accepted + [Request(time, addr, tid, code == 2, 0)]
                           else accepted)
  {
    WaitsMore(s.queue, accepted, Request(time, addr, tid, true, 0));
    WaitsMore(s.queue, accepted, Request(time, addr, tid, false, 0));
  }

  /** After every run the requests that wait are the last ones accepted, in order and as they came. */
  lemma {:induction false} QueueIsHistory(run: seq<Op>, latency: Latency)
    ensures Waits(Exec(INITIAL, run, latency).queue, Accepted(run, latency))
  {
    if run != [] {
      var before := run[..|run| - 1];
      QueueIsHistory(before, latency);
      ReachableBounds(before, latency);
      StepWaits(Exec(INITIAL, before, latency), run[|run| - 1], latency, Accepted(before, latency));
    }
  }

  // ---------------------------------------------------------------------------
  // What a free leaves, and what the address cache knows
  // ---------------------------------------------------------------------------

  function Trues(keep: seq<bool>): (r: nat) {
    if keep == [] then 0 else (if keep[0] then 1 else 0) + Trues(keep[1..])
  }

  /** A free leaves the addresses it keeps, in order. */
  lemma {:induction false} KeptAre(occupation: seq<nat>, keep: seq<bool>, i: nat)
    requires |keep| == |occupation|
    ensures |Kept(occupation, keep)| == Trues(keep)
    ensures i < |keep| && keep[i] ==>
              Trues(keep[..i]) < Trues(keep) && Kept(occupation, keep)[Trues(keep[..i])] == occupation[i]
  {
    if keep != [] {
      KeptAre(occupation[1..], keep[1..], if i == 0 then 0 else i - 1);
      if 0 < i < |keep| {
        assert keep[..i][1..] == keep[1..][..i - 1];
      }
    }
  }

  datatype Known = Known(valid: bool, addresses: set<nat>)

  /** Some held address is the one deleted or lies in the stretch, whose end wraps at 2^64. */
  predicate Hit(held: seq<nat>, start: nat, length: nat) {
    exists i :: 0 <= i < |held| && (held[i] == start || start <= held[i] <= (start + length) % WORD)
  }

  /**
   * What the address cache knows: a rebuild of an invalid cache collects the held
   * addresses, a store adds its own, and a free or a deletion that touches a held address
   * only marks the cache invalid.
   */
  ghost function KnownAfter(run: seq<Op>, latency: Latency): (r: Known) {
    if run == [] then Known(false, {})
    else
      var before, op := run[..|run| - 1], run[|run| - 1];
      var k, held := KnownAfter(before, latency), Held(before, latency);
      match op
      case Insert(_, _, addr, mine) =>
        var code := Step(Exec(INITIAL, before, latency), op, latency).1;
        if mine && addr != 0 && code == 1 then k.(addresses := k.addresses + {addr}) else k
      case MeasureLatency(_) => if k.valid then k else Known(true, Elements(held))
      case UpdateAddressCache => if k.valid then k else Known(true, Elements(held))
      case FreeStats(keep) => if |keep| == |held| && Trues(keep) < |held| then k.(valid := false) else k
      case DeleteEntry(start, length) => if Hit(held, start, length) then k.(valid := false) else k
  }

  function KnownIn(s: State): (r: Known) {
    Known(s.cacheValid, s.addressCache)
  }

  lemma EnqueueKnown(s: State, time: nat, tid: nat, addr: nat)
    ensures var (t, code) := Enqueue(s, time, tid, addr);
            KnownIn(t) == if addr != 0 && code == 1 then Known(s.cacheValid, s.addressCache + {addr}) else KnownIn(s)
  {
  }

  lemma FreeKnown(s: State, keep: seq<bool>, latency: Latency)
    ensures KnownIn(Step(s, FreeStats(keep), latency).0)
            == if |keep| == |s.occupation| && Trues(keep) < |s.occupation|
               then Known(false, s.addressCache) else KnownIn(s)
  {
    if |keep| == |s.occupation| {
      KeptAre(s.occupation, keep, 0);
    }
  }

  lemma TouchedIsHit(held: seq<nat>, start: nat, length: nat)
    ensures Touched(held, start, length) <==> Hit(held, start, length)
  {
  }

  /** The address cache and its validity after every run. */
  lemma {:induction false} CacheIsHistory(run: seq<Op>, latency: Latency)
    ensures KnownIn(Exec(INITIAL, run, latency)) == KnownAfter(run, latency)
  {
    if run != [] {
      var before, op := run[..|run| - 1], run[|run| - 1];
      CacheIsHistory(before, latency);
      OccupationIsHistory(before, latency);
      ReachableBounds(before, latency);
      var s := Exec(INITIAL, before, latency);
      match op
      case Insert(time, tid, addr, mine) =>
        if mine {
          var n, flying := ProcessIs(s, time, latency);
          EnqueueKnown(Process(s, time, latency), time, tid, addr);
        }
      case MeasureLatency(now) => var n, flying := ProcessIs(s, now, latency);
      case UpdateAddressCache =>
      case FreeStats(keep) => FreeKnown(s, keep, latency);
      case DeleteEntry(start, length) => TouchedIsHit(s.occupation, start, length);
    }
  }
}
