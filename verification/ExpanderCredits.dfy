/**
 * The request pipeline of a memory expander: inserted requests wait in a queue of 64,
 * are issued while a credit of their kind is free, and give the credit back when they
 * complete.  Requests in flight are kept by address, so a second request to an
 * address takes the place of the first, whose credit then never comes back.
 *
 * The results: over every run the credits, the requests in flight and the lost
 * requests of a kind add up to 2; two lost requests of a kind block the queue for
 * good; writes can be blocked so by insertions alone, and reads only where an address
 * is freed while it is being read, and then they can.
 */
module Expander {
  import opened Sequences
  import opened Words
  import opened Wrappers

  const MAX_QUEUE_SIZE: nat := 64
  const INITIAL_CREDITS: nat := 2

  datatype Request = Request(time: nat, addr: nat, tid: nat, isRead: bool, completes: nat)

  /** The pipeline latency of a request, given the length of the queue it leaves. */
  type Latency = (Request, nat) -> nat

  /**
   * `lostReads` and `lostWrites` observe how many requests were replaced in flight;
   * the program has no such counters and nothing it does depends on them.
   */
  datatype State = State(
    queue: seq<Request>,
    inFlight: map<nat, Request>,
    readCredits: nat,
    writeCredits: nat,
    occupation: seq<nat>,
    addressCache: set<nat>,
    cacheValid: bool,
    lostReads: nat,
    lostWrites: nat)

  const INITIAL: State := State([], map[], INITIAL_CREDITS, INITIAL_CREDITS, [], {}, false, 0, 0)

  function Credits(s: State, isRead: bool): (r: nat) {
    if isRead then s.readCredits else s.writeCredits
  }

  function Lost(s: State, isRead: bool): (r: nat) {
    if isRead then s.lostReads else s.lostWrites
  }

  function OfKind(m: map<nat, Request>, isRead: bool): (r: set<nat>) {
    set a | a in m && m[a].isRead == isRead
  }

  // ---------------------------------------------------------------------------
  // The steps
  // ---------------------------------------------------------------------------

  function Done(m: map<nat, Request>, now: nat): (r: set<nat>) {
    set a | a in m && m[a].completes <= now
  }

  function Capped(credits: nat, back: nat): (r: nat) {
    if credits >= INITIAL_CREDITS then credits
    else if credits + back > INITIAL_CREDITS then INITIAL_CREDITS
    else credits + back
  }

  /** The given requests leave and each gives its credit back. */
  function CompleteSome(s: State, done: set<nat>): (r: State) {
    s.(inFlight := s.inFlight - done,
       readCredits := Capped(s.readCredits, |done * OfKind(s.inFlight, true)|),
       writeCredits := Capped(s.writeCredits, |done * OfKind(s.inFlight, false)|))
  }

  function Complete(s: State, now: nat): (r: State) {
    CompleteSome(s, Done(s.inFlight, now))
  }

  predicate CanIssue(s: State) {
    && s.queue != []
    && |s.inFlight| < MAX_QUEUE_SIZE / 2
    && Credits(s, s.queue[0].isRead) > 0
  }

  function Issue(s: State, now: nat, latency: Latency): (r: State)
    requires CanIssue(s)
  {
    var q := s.queue[0];
    var replaced := q.addr in s.inFlight;
    s.(queue := s.queue[1..],
       inFlight := s.inFlight[q.addr := q.(completes := now + latency(q, |s.queue|))],
       readCredits := if q.isRead then s.readCredits - 1 else s.readCredits,
       writeCredits := if q.isRead then s.writeCredits else s.writeCredits - 1,
       lostReads := s.lostReads + (if replaced && s.inFlight[q.addr].isRead then 1 else 0),
       lostWrites := s.lostWrites + (if replaced && !s.inFlight[q.addr].isRead then 1 else 0))
  }

  function IssueAll(s: State, now: nat, latency: Latency): (r: State)
    decreases |s.queue|
  {
    if CanIssue(s) then IssueAll(Issue(s, now, latency), now, latency) else s
  }

  function Process(s: State, now: nat, latency: Latency): (r: State) {
    IssueAll(Complete(s, now), now, latency)
  }

  function WithoutFirst(occupation: seq<nat>, addr: nat): (r: seq<nat>) {
    if occupation == [] then []
    else if occupation[0] == addr then occupation[1..]
    else [occupation[0]] + WithoutFirst(occupation[1..], addr)
  }

  /** Queues a request: a read if the address is known, otherwise a write that makes it known. */
  function Enqueue(s: State, time: nat, tid: nat, addr: nat): (r: (State, nat)) {
    if addr == 0 then (s, 1)
    else if |s.queue| >= MAX_QUEUE_SIZE then (s, 0)
    else if addr in s.addressCache && addr in s.occupation then
      (s.(queue := s.queue + [Request(time, addr, tid, true, 0)],
          occupation := WithoutFirst(s.occupation, addr) + [addr]), 2)
    else
      (s.(queue := s.queue + [Request(time, addr, tid, false, 0)],
          occupation := s.occupation + [addr],
          addressCache := s.addressCache + {addr}), 1)
  }

  function Kept(occupation: seq<nat>, keep: seq<bool>): (r: seq<nat>)
    requires |keep| == |occupation|
    ensures |r| <= |occupation|
  {
    if keep == [] then []
    else (if keep[0] then [occupation[0]] else []) + Kept(occupation[1..], keep[1..])
  }

  function Rebuilt(s: State): (r: State) {
    if s.cacheValid then s
    else s.(addressCache := Elements(s.occupation), cacheValid := true)
  }

  predicate Touched(occupation: seq<nat>, addr: nat, length: nat) {
    exists i :: 0 <= i < |occupation| &&
      (occupation[i] == addr || addr <= occupation[i] <= WordSum(addr, length))
  }

  datatype Op =
    | Insert(time: nat, tid: nat, addr: nat, mine: bool)
    | MeasureLatency(now: nat)
    | UpdateAddressCache
    | FreeStats(keep: seq<bool>)
    | DeleteEntry(start: nat, length: nat)

  /** The effect of an operation; a mask of the wrong length frees nothing. */
  function Step(s: State, op: Op, latency: Latency): (r: (State, nat)) {
    match op
    case Insert(time, tid, addr, mine) =>
      if mine then Enqueue(Process(s, time, latency), time, tid, addr) else (s, 0)
    case MeasureLatency(now) => (Rebuilt(Process(s, now, latency)), 0)
    case UpdateAddressCache => (Rebuilt(s), 0)
    case FreeStats(keep) =>
      if |keep| != |s.occupation| then (s, 0)
      else
        var kept := Kept(s.occupation, keep);
        (s.(occupation := kept, cacheValid := s.cacheValid && |kept| == |s.occupation|), 0)
    case DeleteEntry(start, length) =>
      (s.(cacheValid := s.cacheValid && !Touched(s.occupation, start, length)), 0)
  }

  function Exec(s: State, run: seq<Op>, latency: Latency): (r: State) {
    if run == [] then s
    else Step(Exec(s, run[..|run| - 1], latency), run[|run| - 1], latency).0
  }

  // ---------------------------------------------------------------------------
  // Credits are conserved
  // ---------------------------------------------------------------------------

  ghost predicate KindConserved(s: State, isRead: bool) {
    Credits(s, isRead) + |OfKind(s.inFlight, isRead)| + Lost(s, isRead) == INITIAL_CREDITS
  }

  ghost predicate Conserved(s: State) {
    KindConserved(s, true) && KindConserved(s, false)
  }

  lemma CompleteKind(s: State, now: nat, isRead: bool)
    requires KindConserved(s, isRead)
    ensures KindConserved(Complete(s, now), isRead)
  {
    var before, done := OfKind(s.inFlight, isRead), Done(s.inFlight, now);
    assert OfKind(s.inFlight - done, isRead) == before - done * before;
    SubsetSize(done * before, before);
  }

  lemma OfKindUpdate(m: map<nat, Request>, r: Request, isRead: bool)
    ensures |OfKind(m[r.addr := r], isRead)| == |OfKind(m, isRead)|
                                                - (if r.addr in m && m[r.addr].isRead == isRead then 1 else 0)
                                                + (if r.isRead == isRead then 1 else 0)
  {
    var after, without := OfKind(m[r.addr := r], isRead), OfKind(m, isRead) - {r.addr};
    if r.isRead == isRead {
      assert after == without + {r.addr};
    } else {
      assert after == without;
    }
  }

  lemma IssueKind(s: State, now: nat, latency: Latency, isRead: bool)
    requires CanIssue(s) && KindConserved(s, isRead)
    ensures KindConserved(Issue(s, now, latency), isRead)
  {
    var q := s.queue[0];
    OfKindUpdate(s.inFlight, q.(completes := now + latency(q, |s.queue|)), isRead);
  }

  lemma {:induction false} IssueAllConserves(s: State, now: nat, latency: Latency)
    requires Conserved(s)
    ensures Conserved(IssueAll(s, now, latency))
    decreases |s.queue|
  {
    if CanIssue(s) {
      IssueKind(s, now, latency, true);
      IssueKind(s, now, latency, false);
      IssueAllConserves(Issue(s, now, latency), now, latency);
    }
  }

  lemma ProcessConserves(s: State, now: nat, latency: Latency)
    requires Conserved(s)
    ensures Conserved(Process(s, now, latency))
  {
    CompleteKind(s, now, true);
    CompleteKind(s, now, false);
    IssueAllConserves(Complete(s, now), now, latency);
  }

  lemma OutsideConserves(s: State, time: nat, tid: nat, addr: nat)
    requires Conserved(s)
    ensures Conserved(Enqueue(s, time, tid, addr).0) && Conserved(Rebuilt(s))
  {
  }

  lemma StepConserves(s: State, op: Op, latency: Latency)
    requires Conserved(s)
    ensures Conserved(Step(s, op, latency).0)
  {
    match op
    case Insert(time, tid, addr, _) =>
      ProcessConserves(s, time, latency);
      OutsideConserves(Process(s, time, latency), time, tid, addr);
    case MeasureLatency(now) =>
      ProcessConserves(s, now, latency);
      OutsideConserves(Process(s, now, latency), 0, 0, 0);
    case UpdateAddressCache =>
    case FreeStats(_) =>
    case DeleteEntry(_, _) =>
  }

  /** Over every run, credits, requests in flight and lost requests of a kind add up to 2. */
  lemma {:induction false} CreditsConserved(s: State, run: seq<Op>, latency: Latency)
    requires Conserved(s)
    ensures Conserved(Exec(s, run, latency))
  {
    if run != [] {
      CreditsConserved(s, run[..|run| - 1], latency);
      StepConserves(Exec(s, run[..|run| - 1], latency), run[|run| - 1], latency);
    }
  }

  lemma KindsCover(m: map<nat, Request>)
    ensures |m| == |OfKind(m, true)| + |OfKind(m, false)|
  {
    var r, w := OfKind(m, true), OfKind(m, false);
    assert m.Keys == r + w && r * w == {};
    assert |m.Keys| == |m|;
  }

  lemma StepQueue(s: State, op: Op, latency: Latency)
    requires |s.queue| <= MAX_QUEUE_SIZE
    ensures |Step(s, op, latency).0.queue| <= MAX_QUEUE_SIZE
  {
    match op
    case Insert(time, _, _, _) => IssueAllShortens(Complete(s, time), time, latency);
    case MeasureLatency(now) => IssueAllShortens(Complete(s, now), now, latency);
    case UpdateAddressCache =>
    case FreeStats(_) =>
    case DeleteEntry(_, _) =>
  }

  lemma {:induction false} QueueBound(s: State, run: seq<Op>, latency: Latency)
    requires |s.queue| <= MAX_QUEUE_SIZE
    ensures |Exec(s, run, latency).queue| <= MAX_QUEUE_SIZE
  {
    if run != [] {
      QueueBound(s, run[..|run| - 1], latency);
      StepQueue(Exec(s, run[..|run| - 1], latency), run[|run| - 1], latency);
    }
  }

  lemma {:induction false} IssueAllShortens(s: State, now: nat, latency: Latency)
    ensures |IssueAll(s, now, latency).queue| <= |s.queue|
    decreases |s.queue|
  {
    if CanIssue(s) {
      IssueAllShortens(Issue(s, now, latency), now, latency);
    }
  }

  /** In every reachable state: at most 64 queued, at most 4 in flight, at most 2 credits of a kind. */
  lemma ReachableBounds(run: seq<Op>, latency: Latency)
    ensures var s := Exec(INITIAL, run, latency);
            && Conserved(s)
            && |s.queue| <= MAX_QUEUE_SIZE
            && |s.inFlight| + s.lostReads + s.lostWrites <= 2 * INITIAL_CREDITS
            && s.readCredits <= INITIAL_CREDITS && s.writeCredits <= INITIAL_CREDITS
  {
    assert OfKind(map[], true) == {} && OfKind(map[], false) == {};
    CreditsConserved(INITIAL, run, latency);
    QueueBound(INITIAL, run, latency);
    KindsCover(Exec(INITIAL, run, latency).inFlight);
  }

  lemma AllComplete(s: State, now: nat, isRead: bool)
    requires KindConserved(s, isRead)
    requires forall a :: a in s.inFlight ==> s.inFlight[a].completes <= now
    ensures Complete(s, now).inFlight == map[]
    ensures Credits(Complete(s, now), isRead) == INITIAL_CREDITS - Lost(s, isRead)
  {
    CompleteKind(s, now, isRead);
    assert Done(s.inFlight, now) == s.inFlight.Keys;
    assert OfKind(map[], isRead) == {};
  }

  /** Once everything in flight is complete, all credits of a kind are back exactly if none was lost. */
  lemma DrainedCredits(run: seq<Op>, latency: Latency, now: nat, isRead: bool)
    requires var m := Exec(INITIAL, run, latency).inFlight; forall a :: a in m ==> m[a].completes <= now
    ensures var s := Exec(INITIAL, run, latency);
            Credits(Complete(s, now), isRead) == INITIAL_CREDITS <==> Lost(s, isRead) == 0
  {
    ReachableBounds(run, latency);
    AllComplete(Exec(INITIAL, run, latency), now, isRead);
  }

  // ---------------------------------------------------------------------------
  // Lost credits block the queue
  // ---------------------------------------------------------------------------

  /** The head of the queue is of a kind all of whose credits are lost. */
  predicate Blocked(s: State) {
    s.queue != [] && Lost(s, s.queue[0].isRead) >= INITIAL_CREDITS
  }

  /** What a caller can see of it: no credit of the head's kind, and none to come back. */
  lemma BlockedVisible(s: State)
    requires Conserved(s)
    ensures Blocked(s) <==>
              && s.queue != []
              && Credits(s, s.queue[0].isRead) == 0
              && OfKind(s.inFlight, s.queue[0].isRead) == {}
  {
    if s.queue != [] {
      var k := s.queue[0].isRead;
      assert KindConserved(s, k);
      assert |OfKind(s.inFlight, k)| == 0 <==> OfKind(s.inFlight, k) == {};
    }
  }

  lemma BlockedProcess(s: State, now: nat, latency: Latency)
    requires Conserved(s) && Blocked(s)
    ensures Process(s, now, latency) == Complete(s, now)
  {
    CompleteKind(s, now, s.queue[0].isRead);
  }

  /** The queue keeps its requests, and stays blocked. */
  predicate StillBlocked(s: State, t: State) {
    s.queue <= t.queue && Blocked(t)
  }

  lemma CompleteBlocked(s: State, now: nat)
    requires Blocked(s)
    ensures Complete(s, now).queue == s.queue && Blocked(Complete(s, now))
  {
  }

  lemma OutsideBlocked(s: State, time: nat, tid: nat, addr: nat)
    requires Blocked(s)
    ensures StillBlocked(s, Enqueue(s, time, tid, addr).0) && StillBlocked(s, Rebuilt(s))
  {
  }

  lemma BlockedStep(s: State, op: Op, latency: Latency)
    requires Conserved(s) && Blocked(s)
    ensures StillBlocked(s, Step(s, op, latency).0)
  {
    match op
    case Insert(time, tid, addr, _) =>
      BlockedProcess(s, time, latency);
      CompleteBlocked(s, time);
      OutsideBlocked(Complete(s, time), time, tid, addr);
    case MeasureLatency(now) =>
      BlockedProcess(s, now, latency);
      CompleteBlocked(s, now);
      OutsideBlocked(Complete(s, now), 0, 0, 0);
    case UpdateAddressCache =>
    case FreeStats(_) =>
    case DeleteEntry(_, _) =>
  }

  /** A blocked queue only grows, whatever happens: none of its requests is ever issued. */
  lemma {:induction false} BlockedForever(s: State, run: seq<Op>, latency: Latency)
    requires Conserved(s) && Blocked(s)
    ensures var t := Exec(s, run, latency); s.queue <= t.queue && Blocked(t)
  {
    if run != [] {
      var before := Exec(s, run[..|run| - 1], latency);
      BlockedForever(s, run[..|run| - 1], latency);
      CreditsConserved(s, run[..|run| - 1], latency);
      BlockedStep(before, run[|run| - 1], latency);
    }
  }

  /** Once a blocked queue is full, every later request is refused. */
  lemma FullForever(s: State, run: seq<Op>, latency: Latency, time: nat, tid: nat, addr: nat)
    requires Conserved(s) && Blocked(s) && |s.queue| >= MAX_QUEUE_SIZE && addr != 0
    ensures Step(Exec(s, run, latency), Insert(time, tid, addr, true), latency).1 == 0
  {
    BlockedForever(s, run, latency);
    CreditsConserved(s, run, latency);
    BlockedProcess(Exec(s, run, latency), time, latency);
  }

  /**
   * A kind with a credit left is never blocked: once its requests in flight are
   * complete, the head of the queue is issued.
   */
  lemma HeadIssued(s: State, now: nat, latency: Latency)
    requires Conserved(s) && s.queue != [] && !Blocked(s)
    requires forall a :: a in s.inFlight ==> s.inFlight[a].completes <= now
    ensures |Process(s, now, latency).queue| < |s.queue|
  {
    var done := Complete(s, now);
    AllComplete(s, now, s.queue[0].isRead);
    assert CanIssue(done);
    IssueAllShortens(Issue(done, now, latency), now, latency);
  }

  /** So a state is blocked exactly if no waiting ever issues the head of its queue. */
  lemma BlockedIff(s: State, latency: Latency)
    requires Conserved(s) && s.queue != []
    ensures Blocked(s) <==> forall now :: s.queue <= Process(s, now, latency).queue
  {
    if Blocked(s) {
      forall now ensures s.queue <= Process(s, now, latency).queue {
        BlockedProcess(s, now, latency);
      }
    } else {
      var now := LatestExists(s.inFlight);
      HeadIssued(s, now, latency);
    }
  }

  lemma {:induction false} LatestExists(m: map<nat, Request>) returns (now: nat)
    ensures forall a :: a in m ==> m[a].completes <= now
    decreases |m.Keys|
  {
    now := 0;
    if m.Keys != {} {
      var a :| a in m.Keys;
      var rest := m - {a};
      assert rest.Keys == m.Keys - {a};
      var n := LatestExists(rest);
      now := n + m[a].completes;
      forall b | b in m ensures m[b].completes <= now {
        if b != a {
          assert b in rest && rest[b] == m[b];
        }
      }
    }
  }

  // ---------------------------------------------------------------------------
  // Writes can be blocked
  // ---------------------------------------------------------------------------

  predicate Slow(s: State, now: nat) {
    forall a :: a in s.inFlight ==> s.inFlight[a].completes > now
  }

  lemma CompleteNone(s: State)
    ensures CompleteSome(s, {}) == s
  {
    var r, w := OfKind(s.inFlight, true), OfKind(s.inFlight, false);
    assert {} * r == {} && {} * w == {};
    assert s.inFlight - {} == s.inFlight;
  }

  lemma NothingCompletes(s: State, now: nat)
    requires Slow(s, now)
    ensures Complete(s, now) == s
  {
    CompleteNone(s);
    assert Done(s.inFlight, now) == {};
  }

  lemma {:induction false} WithoutElements(occupation: seq<nat>, addr: nat)
    ensures forall b :: b in WithoutFirst(occupation, addr) + [addr] <==> b in occupation || b == addr
  {
    if occupation != [] {
      assert occupation == [occupation[0]] + occupation[1..];
      WithoutElements(occupation[1..], addr);
    }
  }

  lemma ExecNext(s: State, run: seq<Op>, op: Op, latency: Latency)
    ensures Exec(s, run + [op], latency) == Step(Exec(s, run, latency), op, latency).0
  {
    assert (run + [op])[..|run|] == run;
  }

  /** Nothing is complete; credits of both kinds, write requests lost, known addresses, requests in flight. */
  predicate Flight(s: State, now: nat, rc: nat, wc: nat, lost: nat, known: set<nat>, flying: nat) {
    && Slow(s, now) && |s.inFlight| <= flying
    && s.readCredits == rc && s.writeCredits == wc && s.lostWrites >= lost
    && s.addressCache == known
  }

  /** One request waits, and its address is known. */
  predicate Stage(s: State, now: nat, head: Request, rc: nat, wc: nat, lost: nat, known: set<nat>, flying: nat) {
    && s.queue == [head] && head.addr in s.occupation
    && Flight(s, now, rc, wc, lost, known, flying)
  }

  predicate WriteInFlight(s: State, addr: nat) {
    addr in s.inFlight && !s.inFlight[addr].isRead
  }

  lemma UpdateSize(m: map<nat, Request>, r: Request)
    ensures |m[r.addr := r]| == if r.addr in m then |m| else |m| + 1
  {
    var n := m[r.addr := r];
    assert n.Keys == m.Keys + {r.addr} && |n.Keys| == |n| && |m.Keys| == |m|;
  }

  lemma ProcessOne(s: State, now: nat, latency: Latency)
    requires |s.queue| == 1 && Slow(s, now) && CanIssue(s)
    ensures Process(s, now, latency) == Issue(s, now, latency)
  {
    NothingCompletes(s, now);
    var issued := Issue(s, now, latency);
    assert IssueAll(issued, now, latency) == issued;
  }

  lemma WriteIssues(s: State, now: nat, latency: Latency, head: Request,
                    rc: nat, wc: nat, lost: nat, known: set<nat>, flying: nat)
    requires Stage(s, now, head, rc, wc, lost, known, flying) && flying < 32
    requires !head.isRead && wc > 0
    requires forall q, n :: latency(q, n) > 0
    ensures var t := Process(s, now, latency);
            && t.queue == [] && t.occupation == s.occupation
            && Flight(t, now, rc, wc - 1, lost, known, flying + 1) && WriteInFlight(t, head.addr)
  {
    ProcessOne(s, now, latency);
    UpdateSize(s.inFlight, head.(completes := now + latency(head, 1)));
  }

  lemma ReadIssues(s: State, now: nat, latency: Latency, head: Request,
                   rc: nat, wc: nat, lost: nat, known: set<nat>, flying: nat)
    requires Stage(s, now, head, rc, wc, lost, known, flying) && flying < 32
    requires head.isRead && rc > 0 && WriteInFlight(s, head.addr)
    requires forall q, n :: latency(q, n) > 0
    ensures var t := Process(s, now, latency);
            && t.queue == [] && t.occupation == s.occupation
            && Flight(t, now, rc - 1, wc, lost + 1, known, flying)
  {
    ProcessOne(s, now, latency);
    UpdateSize(s.inFlight, head.(completes := now + latency(head, 1)));
  }

  /** A new address inserted again: its write is in flight, its read waits. */
  lemma AgainWrite(s: State, now: nat, tid: nat, addr: nat, latency: Latency,
                   rc: nat, wc: nat, lost: nat, known: set<nat>, flying: nat)
    requires Stage(s, now, Request(now, addr, tid, false, 0), rc, wc, lost, known, flying)
    requires addr in known && addr != 0 && wc > 0 && flying < 32
    requires forall q, n :: latency(q, n) > 0
    ensures var t := Step(s, Insert(now, tid, addr, true), latency).0;
            && Stage(t, now, Request(now, addr, tid, true, 0), rc, wc - 1, lost, known, flying + 1)
            && WriteInFlight(t, addr)
  {
    WriteIssues(s, now, latency, Request(now, addr, tid, false, 0), rc, wc, lost, known, flying);
  }

  /** Then a new address: the read replaces the write in flight. */
  lemma ReadReplaces(s: State, now: nat, tid: nat, addr: nat, next: nat, latency: Latency,
                     rc: nat, wc: nat, lost: nat, known: set<nat>, flying: nat)
    requires Stage(s, now, Request(now, addr, tid, true, 0), rc, wc, lost, known, flying)
    requires WriteInFlight(s, addr) && next != 0 && next !in known && rc > 0 && flying < 32
    requires forall q, n :: latency(q, n) > 0
    ensures var t := Step(s, Insert(now, tid, next, true), latency).0;
            Stage(t, now, Request(now, next, tid, false, 0), rc - 1, wc, lost + 1, known + {next}, flying)
  {
    ReadIssues(s, now, latency, Request(now, addr, tid, true, 0), rc, wc, lost, known, flying);
  }

  lemma FirstStage(now: nat, tid: nat, addr: nat, latency: Latency) returns (s: State)
    requires addr != 0
    ensures s == Exec(INITIAL, [Insert(now, tid, addr, true)], latency)
    ensures Stage(s, now, Request(now, addr, tid, false, 0), 2, 2, 0, {addr}, 0)
  {
    NothingCompletes(INITIAL, now);
    s := Step(INITIAL, Insert(now, tid, addr, true), latency).0;
    ExecNext(INITIAL, [], Insert(now, tid, addr, true), latency);
  }

  lemma TwoInserts(s: State, now: nat, tid: nat, addr: nat, next: nat, latency: Latency) returns (run: seq<Op>)
    ensures OnlyInserts(run, {addr, next})
    ensures Exec(s, run, latency)
            == Step(Step(s, Insert(now, tid, addr, true), latency).0, Insert(now, tid, next, true), latency).0
  {
    var first, second := Insert(now, tid, addr, true), Insert(now, tid, next, true);
    run := [first] + [second];
    ExecNext(s, [first], second, latency);
    ExecNext(s, [], first, latency);
    assert [] + [first] == [first];
  }

  /** Inserting a waiting new address again, and then another new one, loses a write credit. */
  lemma AgainLoses(s: State, now: nat, tid: nat, addr: nat, next: nat, latency: Latency,
                   credits: nat, lost: nat, known: set<nat>, flying: nat) returns (again: seq<Op>, t: State)
    requires Stage(s, now, Request(now, addr, tid, false, 0), credits, credits, lost, known, flying)
    requires addr in known && addr != 0 && next != 0 && next !in known && credits > 0 && flying < 31
    requires forall q, n :: latency(q, n) > 0
    ensures t == Exec(s, again, latency) && OnlyInserts(again, {addr, next})
    ensures Stage(t, now, Request(now, next, tid, false, 0),
                  credits - 1, credits - 1, lost + 1, known + {next}, flying + 1)
  {
    AgainWrite(s, now, tid, addr, latency, credits, credits, lost, known, flying);
    var u := Step(s, Insert(now, tid, addr, true), latency).0;
    ReadReplaces(u, now, tid, addr, next, latency, credits, credits - 1, lost, known, flying + 1);
    again := TwoInserts(s, now, tid, addr, next, latency);
    t := Step(u, Insert(now, tid, next, true), latency).0;
  }

  predicate Joins(all: seq<Op>, run: seq<Op>, more: seq<Op>) {
    && |all| == |run| + |more|
    && (forall i :: 0 <= i < |run| ==> all[i] == run[i])
    && (forall i :: 0 <= i < |more| ==> all[|run| + i] == more[i])
  }

  lemma JoinsNothing(all: seq<Op>, run: seq<Op>)
    requires Joins(all, run, [])
    ensures all == run
  {
  }

  lemma JoinsFront(all: seq<Op>, run: seq<Op>, more: seq<Op>)
    requires Joins(all, run, more) && more != []
    ensures all != [] && all[|all| - 1] == more[|more| - 1]
    ensures Joins(all[..|all| - 1], run, more[..|more| - 1])
  {
  }

  lemma {:induction false} ExecJoins(s: State, run: seq<Op>, more: seq<Op>, all: seq<Op>, latency: Latency)
    requires Joins(all, run, more)
    ensures Exec(s, all, latency) == Exec(Exec(s, run, latency), more, latency)
    decreases |more|
  {
    if more == [] {
      JoinsNothing(all, run);
    } else {
      JoinsFront(all, run, more);
      ExecJoins(s, run, more[..|more| - 1], all[..|all| - 1], latency);
    }
  }

  lemma ExecConcat(s: State, run: seq<Op>, more: seq<Op>, latency: Latency)
    ensures Exec(s, run + more, latency) == Exec(Exec(s, run, latency), more, latency)
  {
    ExecJoins(s, run, more, run + more, latency);
  }

  predicate OnlyInserts(run: seq<Op>, addrs: set<nat>) {
    forall i :: 0 <= i < |run| ==> run[i].Insert? && run[i].addr in addrs
  }

  lemma FirstLoss(run: seq<Op>, now: nat, tid: nat, x: nat, y: nat, latency: Latency, known: set<nat>)
    returns (more: seq<Op>)
    requires OnlyInserts(run, known)
    requires Stage(Exec(INITIAL, run, latency), now, Request(now, x, tid, false, 0), 2, 2, 0, known, 0)
    requires x in known && x != 0 && y != 0 && y !in known
    requires forall q, n :: latency(q, n) > 0
    ensures OnlyInserts(more, known + {y})
    ensures Stage(Exec(INITIAL, more, latency), now, Request(now, y, tid, false, 0), 1, 1, 1, known + {y}, 1)
  {
    var again, t := AgainLoses(Exec(INITIAL, run, latency), now, tid, x, y, latency, 2, 0, known, 0);
    ExecConcat(INITIAL, run, again, latency);
    more := run + again;
  }

  lemma SecondLoss(run: seq<Op>, now: nat, tid: nat, y: nat, z: nat, latency: Latency, known: set<nat>)
    returns (more: seq<Op>)
    requires OnlyInserts(run, known)
    requires Stage(Exec(INITIAL, run, latency), now, Request(now, y, tid, false, 0), 1, 1, 1, known, 1)
    requires y in known && y != 0 && z != 0 && z !in known
    requires forall q, n :: latency(q, n) > 0
    ensures OnlyInserts(more, known + {z})
    ensures var s := Exec(INITIAL, more, latency); Blocked(s) && s.queue == [Request(now, z, tid, false, 0)]
  {
    var again, t := AgainLoses(Exec(INITIAL, run, latency), now, tid, y, z, latency, 1, 1, known, 1);
    ExecConcat(INITIAL, run, again, latency);
    more := run + again;
  }

  /**
   * For any three addresses there is a run of insertions of them alone (two of them
   * twice each, before anything completes) that loses both write credits to the reads:
   * the write to the third waits for ever.
   */
  lemma WritesGetBlocked(now: nat, tid: nat, x: nat, y: nat, z: nat, latency: Latency)
    returns (run: seq<Op>)
    requires x != 0 && y != 0 && z != 0 && x != y && x != z && y != z
    requires forall q, n :: latency(q, n) > 0
    ensures OnlyInserts(run, {x, y, z})
    ensures var s := Exec(INITIAL, run, latency); Blocked(s) && s.queue == [Request(now, z, tid, false, 0)]
  {
    run := [Insert(now, tid, x, true)];
    var s := FirstStage(now, tid, x, latency);
    run := FirstLoss(run, now, tid, x, y, latency, {x});
    run := SecondLoss(run, now, tid, y, z, latency, {x} + {y});
  }

  // ---------------------------------------------------------------------------
  // What the expander holds
  // ---------------------------------------------------------------------------

  /** The addresses held after a run: each where it was last accepted, but for those freed since. */
  function Held(run: seq<Op>, latency: Latency): (r: seq<nat>) {
    if run == [] then []
    else
      var before, op := run[..|run| - 1], run[|run| - 1];
      var h := Held(before, latency);
      if op.Insert? && op.addr != 0 && Step(Exec(INITIAL, before, latency), op, latency).1 != 0 then
        WithoutFirst(h, op.addr) + [op.addr]
      else if op.FreeStats? && |op.keep| == |h| then Kept(h, op.keep)
      else h
  }

  lemma {:induction false} WithoutAbsent(occupation: seq<nat>, addr: nat)
    requires addr !in occupation
    ensures WithoutFirst(occupation, addr) == occupation
  {
    if occupation != [] {
      WithoutAbsent(occupation[1..], addr);
    }
  }

  lemma {:induction false} KeptElements(occupation: seq<nat>, keep: seq<bool>)
    requires |keep| == |occupation|
    ensures forall a :: a in Kept(occupation, keep) ==> a in occupation
  {
    if keep != [] {
      KeptElements(occupation[1..], keep[1..]);
    }
  }

  lemma ProcessKeepsAddresses(s: State, now: nat, latency: Latency)
    ensures Process(s, now, latency).addressCache == s.addressCache
    ensures Process(s, now, latency).occupation == s.occupation
  {
    IssueAllKeepsAddresses(Complete(s, now), now, latency);
  }

  lemma {:induction false} IssueAllKeepsAddresses(s: State, now: nat, latency: Latency)
    ensures IssueAll(s, now, latency).addressCache == s.addressCache
    ensures IssueAll(s, now, latency).occupation == s.occupation
    decreases |s.queue|
  {
    if CanIssue(s) {
      IssueAllKeepsAddresses(Issue(s, now, latency), now, latency);
    }
  }

  /** Every held address is in the address cache; the cache may know more. */
  predicate Cached(s: State) {
    forall i :: 0 <= i < |s.occupation| ==> s.occupation[i] in s.addressCache
  }

  /** With the held addresses cached, an insertion is a load exactly if the address is held. */
  lemma EnqueueHolds(s: State, time: nat, tid: nat, addr: nat)
    requires Cached(s)
    ensures var (t, code) := Enqueue(s, time, tid, addr);
            && Cached(t)
            && t.occupation == (if addr == 0 || code == 0 then s.occupation
                                else WithoutFirst(s.occupation, addr) + [addr])
            && (addr != 0 ==> code == if |s.queue| >= MAX_QUEUE_SIZE then 0 else if addr in s.occupation then 2 else 1)
  {
    WithoutElements(s.occupation, addr);
    if addr !in s.occupation {
      WithoutAbsent(s.occupation, addr);
    }
    var t := Enqueue(s, time, tid, addr).0;
    forall i | 0 <= i < |t.occupation| ensures t.occupation[i] in t.addressCache {
      assert t.occupation[i] in WithoutFirst(s.occupation, addr) + [addr] || t.occupation == s.occupation;
    }
  }

  lemma StepHolds(s: State, op: Op, latency: Latency)
    requires Cached(s)
    ensures var (t, code) := Step(s, op, latency);
            && Cached(t)
            && t.occupation == if op.Insert? && op.addr != 0 && code != 0
                               then WithoutFirst(s.occupation, op.addr) + [op.addr]
                               else if op.FreeStats? && |op.keep| == |s.occupation| then Kept(s.occupation, op.keep)
                               else s.occupation
  {
    match op
    case Insert(time, tid, addr, mine) =>
      ProcessKeepsAddresses(s, time, latency);
      EnqueueHolds(Process(s, time, latency), time, tid, addr);
    case MeasureLatency(now) => ProcessKeepsAddresses(s, now, latency);
    case UpdateAddressCache =>
    case FreeStats(keep) =>
      if |keep| == |s.occupation| {
        KeptCached(s, keep);
      }
    case DeleteEntry(_, _) =>
  }

  lemma KeptCached(s: State, keep: seq<bool>)
    requires Cached(s) && |keep| == |s.occupation|
    ensures forall i :: 0 <= i < |Kept(s.occupation, keep)| ==> Kept(s.occupation, keep)[i] in s.addressCache
  {
    KeptElements(s.occupation, keep);
    var kept := Kept(s.occupation, keep);
    forall i | 0 <= i < |kept| ensures kept[i] in s.addressCache {
      assert kept[i] in s.occupation;
    }
  }

  /** After every run the occupation is the history's. */
  lemma {:induction false} OccupationIsHistory(run: seq<Op>, latency: Latency)
    ensures Exec(INITIAL, run, latency).occupation == Held(run, latency)
    ensures Cached(Exec(INITIAL, run, latency))
  {
    if run != [] {
      var before := run[..|run| - 1];
      OccupationIsHistory(before, latency);
      StepHolds(Exec(INITIAL, before, latency), run[|run| - 1], latency);
    }
  }

  /**
   * The reply to an insertion after every run: 0 for another expander's and where the
   * queue is full, 2 for a load of a held address, 1 for any other, address 0 included.
   */
  lemma ReplyFollowsHistory(run: seq<Op>, latency: Latency, time: nat, tid: nat, addr: nat, mine: bool)
    ensures var s := Exec(INITIAL, run, latency);
            var full := |Process(s, time, latency).queue| >= 64;
            Step(s, Insert(time, tid, addr, mine), latency).1
            == if !mine then 0 else if addr == 0 then 1
               else if full then 0 else if addr in Held(run, latency) then 2 else 1
  {
    var s := Exec(INITIAL, run, latency);
    OccupationIsHistory(run, latency);
    ProcessKeepsAddresses(s, time, latency);
    EnqueueHolds(Process(s, time, latency), time, tid, addr);
  }

  // ---------------------------------------------------------------------------
  // Reads are blocked only where an address being read is freed
  // ---------------------------------------------------------------------------

  /** A read of the address is in flight, or queued before index `n`. */
  predicate ReadAhead(s: State, addr: nat, n: nat)
    requires n <= |s.queue|
  {
    || (addr in s.inFlight && s.inFlight[addr].isRead)
    || exists j :: 0 <= j < n && s.queue[j].isRead && s.queue[j].addr == addr
  }

  /** The kept addresses include every one with a read queued or in flight. */
  predicate Spares(s: State, kept: seq<nat>) {
    && (forall j :: 0 <= j < |s.queue| && s.queue[j].isRead ==> s.queue[j].addr in kept)
    && (forall a :: a in s.inFlight && s.inFlight[a].isRead ==> a in kept)
  }

  /** No step of the run frees an address with a read queued or in flight. */
  predicate SparesReads(run: seq<Op>, latency: Latency) {
    run == [] ||
    (var s, op := Exec(INITIAL, run[..|run| - 1], latency), run[|run| - 1];
     && SparesReads(run[..|run| - 1], latency)
     && (op.FreeStats? && |op.keep| == |s.occupation| ==> Spares(s, Kept(s.occupation, op.keep))))
  }

  predicate Tracked(s: State) {
    && Spares(s, s.occupation)
    && (forall i :: 0 <= i < |s.queue| && !s.queue[i].isRead ==> !ReadAhead(s, s.queue[i].addr, i))
    && s.lostReads <= 1
  }

  lemma CompleteTracked(s: State, now: nat)
    requires Tracked(s)
    ensures Tracked(Complete(s, now))
  {
    var t := Complete(s, now);
    forall i | 0 <= i < |t.queue| && !t.queue[i].isRead ensures !ReadAhead(t, t.queue[i].addr, i) {
      assert !ReadAhead(s, s.queue[i].addr, i);
    }
  }

  /** Issuing the head puts no read before a write of its address. */
  lemma IssueKeepsOrder(s: State, now: nat, latency: Latency, i: nat)
    requires CanIssue(s) && i + 1 < |s.queue| && !ReadAhead(s, s.queue[i + 1].addr, i + 1)
    ensures !ReadAhead(Issue(s, now, latency), s.queue[i + 1].addr, i)
  {
    var t, addr := Issue(s, now, latency), s.queue[i + 1].addr;
    forall j | 0 <= j < i ensures !(t.queue[j].isRead && t.queue[j].addr == addr) {
      assert t.queue[j] == s.queue[j + 1];
    }
    assert !(s.queue[0].isRead && s.queue[0].addr == addr);
  }

  /** At most one read is ever replaced: it takes a free credit beside the replaced read's. */
  lemma IssueLoses(s: State, now: nat, latency: Latency)
    requires CanIssue(s) && KindConserved(s, true) && s.lostReads <= 1
    requires !s.queue[0].isRead ==> !ReadAhead(s, s.queue[0].addr, 0)
    ensures Issue(s, now, latency).lostReads <= 1
  {
    var q := s.queue[0];
    if q.addr in s.inFlight && s.inFlight[q.addr].isRead {
      assert q.isRead;
      assert q.addr in OfKind(s.inFlight, true);
      SubsetSize({q.addr}, OfKind(s.inFlight, true));
    }
  }

  lemma IssueTracked(s: State, now: nat, latency: Latency)
    requires CanIssue(s) && KindConserved(s, true) && Tracked(s)
    ensures Tracked(Issue(s, now, latency))
  {
    var t := Issue(s, now, latency);
    forall i | 0 <= i < |t.queue| && !t.queue[i].isRead ensures !ReadAhead(t, t.queue[i].addr, i) {
      IssueKeepsOrder(s, now, latency, i);
    }
    IssueLoses(s, now, latency);
  }

  lemma {:induction false} IssueAllTracked(s: State, now: nat, latency: Latency)
    requires KindConserved(s, true) && Tracked(s)
    ensures Tracked(IssueAll(s, now, latency))
    decreases |s.queue|
  {
    if CanIssue(s) {
      IssueTracked(s, now, latency);
      IssueKind(s, now, latency, true);
      IssueAllTracked(Issue(s, now, latency), now, latency);
    }
  }

  lemma ProcessTracked(s: State, now: nat, latency: Latency)
    requires KindConserved(s, true) && Tracked(s)
    ensures Tracked(Process(s, now, latency))
  {
    CompleteTracked(s, now);
    CompleteKind(s, now, true);
    IssueAllTracked(Complete(s, now), now, latency);
  }

  /** One more request at the end: a read of a held address, or a write of one nobody reads. */
  lemma QueueTracked(s: State, t: State, q: Request)
    requires Tracked(s) && t.queue == s.queue + [q] && t.inFlight == s.inFlight && t.lostReads == s.lostReads
    requires q.addr in t.occupation && forall a :: a in s.occupation ==> a in t.occupation
    requires q.isRead || q.addr !in s.occupation
    ensures Tracked(t)
  {
    forall i | 0 <= i < |t.queue| && !t.queue[i].isRead ensures !ReadAhead(t, t.queue[i].addr, i) {
      if i < |s.queue| {
        assert !ReadAhead(s, s.queue[i].addr, i);
      }
    }
  }

  lemma EnqueueTracked(s: State, time: nat, tid: nat, addr: nat)
    requires Tracked(s) && Cached(s)
    ensures Tracked(Enqueue(s, time, tid, addr).0)
  {
    var t := Enqueue(s, time, tid, addr).0;
    WithoutElements(s.occupation, addr);
    if t.queue != s.queue {
      QueueTracked(s, t, t.queue[|s.queue|]);
    }
  }

  /** A state with the same requests, and every read's address still held. */
  lemma SameRequestsTracked(s: State, t: State)
    requires Tracked(s) && t.queue == s.queue && t.inFlight == s.inFlight && t.lostReads == s.lostReads
    requires Spares(s, t.occupation)
    ensures Tracked(t)
  {
    forall i | 0 <= i < |t.queue| && !t.queue[i].isRead ensures !ReadAhead(t, t.queue[i].addr, i) {
      assert !ReadAhead(s, s.queue[i].addr, i);
    }
  }

  lemma StepTracked(s: State, op: Op, latency: Latency)
    requires KindConserved(s, true) && Tracked(s) && Cached(s)
    requires op.FreeStats? && |op.keep| == |s.occupation| ==> Spares(s, Kept(s.occupation, op.keep))
    ensures Tracked(Step(s, op, latency).0)
  {
    match op
    case Insert(time, tid, addr, mine) =>
      if mine {
        ProcessTracked(s, time, latency);
        ProcessKeepsAddresses(s, time, latency);
        EnqueueTracked(Process(s, time, latency), time, tid, addr);
      }
    case MeasureLatency(now) =>
      ProcessTracked(s, now, latency);
      SameRequestsTracked(Process(s, now, latency), Rebuilt(Process(s, now, latency)));
    case _ => FreeTracked(s, op, latency);
  }

  lemma FreeTracked(s: State, op: Op, latency: Latency)
    requires Tracked(s) && (op.UpdateAddressCache? || op.FreeStats? || op.DeleteEntry?)
    requires op.FreeStats? && |op.keep| == |s.occupation| ==> Spares(s, Kept(s.occupation, op.keep))
    ensures Tracked(Step(s, op, latency).0)
  {
    SameRequestsTracked(s, Step(s, op, latency).0);
  }

  /** While no address with a read queued or in flight is freed, at most one read is ever replaced in flight. */
  lemma {:induction false} ReadsSurvive(run: seq<Op>, latency: Latency)
    requires SparesReads(run, latency)
    ensures Tracked(Exec(INITIAL, run, latency))
  {
    if run != [] {
      var before := run[..|run| - 1];
      ReadsSurvive(before, latency);
      ReachableBounds(before, latency);
      OccupationIsHistory(before, latency);
      StepTracked(Exec(INITIAL, before, latency), run[|run| - 1], latency);
    }
  }

  /** So a queue can be blocked on a read only if the run freed such an address. */
  lemma ReadsNeverBlocked(run: seq<Op>, latency: Latency)
    requires SparesReads(run, latency)
    ensures var s := Exec(INITIAL, run, latency); s.queue != [] && s.queue[0].isRead ==> !Blocked(s)
  {
    ReadsSurvive(run, latency);
  }

  // ---------------------------------------------------------------------------
  // Freeing an address being read does block reads
  // ---------------------------------------------------------------------------

  /** One request waits and one is in flight, both to the address; `held` says whether the address is held. */
  predicate Single(s: State, x: nat, head: bool, flying: bool, rc: nat, wc: nat, lost: nat, held: bool) {
    && |s.queue| == 1 && s.queue[0].addr == x && s.queue[0].isRead == head
    && s.inFlight.Keys == {x} && s.inFlight[x].isRead == flying
    && s.readCredits == rc && s.writeCredits == wc && s.lostReads == lost
    && s.occupation == (if held then [x] else []) && s.addressCache == {x}
  }

  lemma FreeOnly(s: State, x: nat, head: bool, flying: bool, rc: nat, wc: nat, lost: nat, latency: Latency)
    requires Single(s, x, head, flying, rc, wc, lost, true)
    ensures var t := Step(s, FreeStats([false]), latency).0;
            Single(t, x, head, flying, rc, wc, lost, false) && t.inFlight == s.inFlight
  {
    assert Kept([x], [false]) == [] by {
      assert [x][1..] == [] && [false][1..] == [];
    }
  }

  lemma OnlyCompletes(s: State, x: nat, now: nat)
    requires s.inFlight.Keys == {x} && !s.inFlight[x].isRead && s.inFlight[x].completes <= now && s.writeCredits == 1
    ensures Complete(s, now) == s.(inFlight := map[], writeCredits := 2)
  {
    var done := Done(s.inFlight, now);
    assert done == {x};
    assert OfKind(s.inFlight, true) == {} && OfKind(s.inFlight, false) == {x};
    assert done * {} == {} && done * {x} == {x};
    assert s.inFlight - done == map[];
  }

  /** The write in flight completes, the waiting read is issued, and the freed address makes a write. */
  lemma InsertFreed(s: State, x: nat, rc: nat, lost: nat, now: nat, tid: nat, latency: Latency)
    requires Single(s, x, true, false, rc, 1, lost, false) && s.inFlight[x].completes <= now && x != 0 && 0 < rc
    requires forall q, n :: latency(q, n) > 0
    ensures var t := Step(s, Insert(now, tid, x, true), latency).0;
            Single(t, x, false, true, rc - 1, 2, lost, true) && Slow(t, now)
  {
    OnlyCompletes(s, x, now);
    var done := Complete(s, now);
    var issued := Issue(done, now, latency);
    assert IssueAll(issued, now, latency) == issued;
    assert Process(s, now, latency) == issued;
    assert issued.inFlight.Keys == {x};
  }

  /** The write is issued over the read in flight, whose credit is lost. */
  lemma InsertOver(s: State, x: nat, rc: nat, lost: nat, now: nat, tid: nat, latency: Latency)
    requires Single(s, x, false, true, rc, 2, lost, true) && Slow(s, now) && x != 0
    requires forall q, n :: latency(q, n) > 0
    ensures Single(Step(s, Insert(now, tid, x, true), latency).0, x, true, false, rc, 1, lost + 1, true)
  {
    assert |s.inFlight.Keys| == |s.inFlight|;
    ProcessOne(s, now, latency);
    assert Issue(s, now, latency).inFlight.Keys == {x};
    assert WithoutFirst([x], x) == [];
  }

  /** Only insertions of the address and frees. */
  predicate OnlyFreesAnd(run: seq<Op>, x: nat) {
    forall i :: 0 <= i < |run| ==> run[i].FreeStats? || (run[i].Insert? && run[i].addr == x)
  }

  /** Inserting a new address twice leaves its write in flight and its read waiting. */
  lemma InsertedTwice(x: nat, now: nat, tid: nat, latency: Latency) returns (run: seq<Op>, t: State)
    requires x != 0
    requires forall q, n :: latency(q, n) > 0
    ensures OnlyFreesAnd(run, x) && t == Exec(INITIAL, run, latency)
    ensures Single(t, x, true, false, 2, 1, 0, true)
  {
    var insert := Insert(now, tid, x, true);
    var s := Step(INITIAL, insert, latency).0;
    NothingCompletes(INITIAL, now);
    assert s == INITIAL.(queue := [Request(now, x, tid, false, 0)], occupation := [x], addressCache := {x});
    ProcessOne(s, now, latency);
    assert Issue(s, now, latency).inFlight.Keys == {x};
    assert WithoutFirst([x], x) == [];
    run := TwoInserts(INITIAL, now, tid, x, x, latency);
    t := Step(s, insert, latency).0;
  }

  lemma RunFree(run: seq<Op>, x: nat, rc: nat, lost: nat, latency: Latency) returns (more: seq<Op>)
    requires OnlyFreesAnd(run, x) && Single(Exec(INITIAL, run, latency), x, true, false, rc, 1, lost, true)
    ensures OnlyFreesAnd(more, x) && Single(Exec(INITIAL, more, latency), x, true, false, rc, 1, lost, false)
  {
    FreeOnly(Exec(INITIAL, run, latency), x, true, false, rc, 1, lost, latency);
    ExecNext(INITIAL, run, FreeStats([false]), latency);
    more := run + [FreeStats([false])];
  }

  lemma RunInsertFreed(run: seq<Op>, x: nat, rc: nat, lost: nat, tid: nat, latency: Latency)
    returns (more: seq<Op>, now: nat)
    requires OnlyFreesAnd(run, x) && Single(Exec(INITIAL, run, latency), x, true, false, rc, 1, lost, false)
    requires x != 0 && 0 < rc && forall q, n :: latency(q, n) > 0
    ensures OnlyFreesAnd(more, x) && Single(Exec(INITIAL, more, latency), x, false, true, rc - 1, 2, lost, true)
    ensures Slow(Exec(INITIAL, more, latency), now)
  {
    now := Exec(INITIAL, run, latency).inFlight[x].completes;
    InsertFreed(Exec(INITIAL, run, latency), x, rc, lost, now, tid, latency);
    ExecNext(INITIAL, run, Insert(now, tid, x, true), latency);
    more := run + [Insert(now, tid, x, true)];
  }

  lemma RunInsertOver(run: seq<Op>, x: nat, rc: nat, lost: nat, now: nat, tid: nat, latency: Latency)
    returns (more: seq<Op>)
    requires OnlyFreesAnd(run, x) && Single(Exec(INITIAL, run, latency), x, false, true, rc, 2, lost, true)
    requires Slow(Exec(INITIAL, run, latency), now) && x != 0 && forall q, n :: latency(q, n) > 0
    ensures OnlyFreesAnd(more, x) && Single(Exec(INITIAL, more, latency), x, true, false, rc, 1, lost + 1, true)
  {
    InsertOver(Exec(INITIAL, run, latency), x, rc, lost, now, tid, latency);
    ExecNext(INITIAL, run, Insert(now, tid, x, true), latency);
    more := run + [Insert(now, tid, x, true)];
  }

  /** One round: the address is freed while its read waits, inserted, and inserted again; a read credit is lost. */
  lemma FreeRound(run: seq<Op>, x: nat, rc: nat, lost: nat, tid: nat, latency: Latency) returns (more: seq<Op>)
    requires OnlyFreesAnd(run, x) && Single(Exec(INITIAL, run, latency), x, true, false, rc, 1, lost, true)
    requires x != 0 && 0 < rc && forall q, n :: latency(q, n) > 0
    ensures OnlyFreesAnd(more, x) && Single(Exec(INITIAL, more, latency), x, true, false, rc - 1, 1, lost + 1, true)
  {
    var freed := RunFree(run, x, rc, lost, latency);
    var inserted, now := RunInsertFreed(freed, x, rc, lost, tid, latency);
    more := RunInsertOver(inserted, x, rc - 1, lost, now, tid, latency);
  }

  /**
   * One address is enough: freed twice while it is read, and inserted again each time,
   * it takes both read credits, and the queue is blocked on its next read for ever.
   */
  lemma ReadsGetBlocked(x: nat, now: nat, tid: nat, latency: Latency) returns (run: seq<Op>)
    requires x != 0 && forall q, n :: latency(q, n) > 0
    ensures OnlyFreesAnd(run, x)
    ensures var s := Exec(INITIAL, run, latency); Blocked(s) && s.queue[0].isRead && s.queue[0].addr == x
  {
    var t;
    run, t := InsertedTwice(x, now, tid, latency);
    run := FreeRound(run, x, 2, 0, tid, latency);
    run := FreeRound(run, x, 1, 1, tid, latency);
  }

  // ---------------------------------------------------------------------------
  // The expander, in place
  // ---------------------------------------------------------------------------

  /** One request leaves and gives its credit back. */
  function Finish(s: State, a: nat): (r: State)
    requires a in s.inFlight
  {
    s.(inFlight := s.inFlight - {a},
       readCredits := if s.inFlight[a].isRead then Capped(s.readCredits, 1) else s.readCredits,
       writeCredits := if s.inFlight[a].isRead then s.writeCredits else Capped(s.writeCredits, 1))
  }

  lemma CountNext(done: set<nat>, kind: set<nat>, a: nat)
    requires a !in done
    ensures |(done + {a}) * kind| == |done * kind| + (if a in kind then 1 else 0)
  {
    if a in kind {
      assert (done + {a}) * kind == done * kind + {a};
    } else {
      assert (done + {a}) * kind == done * kind;
    }
  }

  lemma FinishNext(s: State, done: set<nat>, a: nat)
    requires a in s.inFlight && a !in done
    ensures a in CompleteSome(s, done).inFlight
    ensures CompleteSome(s, done + {a}) == Finish(CompleteSome(s, done), a)
  {
    CountNext(done, OfKind(s.inFlight, true), a);
    CountNext(done, OfKind(s.inFlight, false), a);
    assert s.inFlight - (done + {a}) == (s.inFlight - done) - {a};
  }

  /** The state when the requests in `left` are still to be looked at. */
  function Looking(s: State, now: nat, left: set<nat>): (r: State) {
    CompleteSome(s, Done(s.inFlight, now) - left)
  }

  lemma LookingEnds(s: State, now: nat)
    ensures Looking(s, now, s.inFlight.Keys) == s
    ensures Looking(s, now, {}) == Complete(s, now)
  {
    CompleteNone(s);
    assert Done(s.inFlight, now) - s.inFlight.Keys == {};
    assert Done(s.inFlight, now) - {} == Done(s.inFlight, now);
  }

  lemma LookingNext(s: State, now: nat, left: set<nat>, a: nat)
    requires left <= s.inFlight.Keys && a in left
    ensures a in Looking(s, now, left).inFlight
    ensures Looking(s, now, left - {a})
            == if Looking(s, now, left).inFlight[a].completes <= now then Finish(Looking(s, now, left), a)
               else Looking(s, now, left)
  {
    var all := Done(s.inFlight, now);
    FinishNext(s, all - left, a);
    if s.inFlight[a].completes <= now {
      assert all - (left - {a}) == (all - left) + {a};
    } else {
      assert all - (left - {a}) == all - left;
    }
  }

  class MemExpander {
    const latency: Latency
    var queue: seq<Request>
    var inFlight: map<nat, Request>
    var readCredits: nat
    var writeCredits: nat
    var occupation: seq<nat>
    var addressCache: set<nat>
    var cacheValid: bool
    ghost var lostReads: nat
    ghost var lostWrites: nat

    constructor (latency: Latency)
      ensures this.latency == latency && View() == INITIAL
    {
      this.latency := latency;
      queue, inFlight, occupation, addressCache, cacheValid := [], map[], [], {}, false;
      readCredits, writeCredits := INITIAL_CREDITS, INITIAL_CREDITS;
      lostReads, lostWrites := 0, 0;
    }

    ghost function View(): (s: State)
      reads this
    {
      State(queue, inFlight, readCredits, writeCredits, occupation, addressCache, cacheValid, lostReads, lostWrites)
    }

    method ReleaseCredit(isRead: bool)
      modifies `readCredits, `writeCredits
      ensures readCredits == if isRead then Capped(old(readCredits), 1) else old(readCredits)
      ensures writeCredits == if isRead then old(writeCredits) else Capped(old(writeCredits), 1)
    {
      if isRead {
        if readCredits < INITIAL_CREDITS {
          readCredits := readCredits + 1;
        }
      } else if writeCredits < INITIAL_CREDITS {
        writeCredits := writeCredits + 1;
      }
    }

    method FinishRequest(a: nat)
      requires a in inFlight
      modifies `inFlight, `readCredits, `writeCredits
      ensures View() == Finish(old(View()), a)
    {
      ReleaseCredit(inFlight[a].isRead);
      inFlight := inFlight - {a};
    }

    method CompleteRequests(now: nat)
      modifies `inFlight, `readCredits, `writeCredits
      ensures View() == Complete(old(View()), now)
    {
      var left := inFlight.Keys;
      ghost var s := View();
      LookingEnds(s, now);
      while left != {}
        invariant left <= s.inFlight.Keys
        invariant View() == Looking(s, now, left)
        decreases |left|
      {
        var a :| a in left;
        LookingNext(s, now, left, a);
        left := left - {a};
        if inFlight[a].completes <= now {
          FinishRequest(a);
        }
      }
    }

    function HasCredits(isRead: bool): (r: bool)
      reads this
    {
      if isRead then readCredits > 0 else writeCredits > 0
    }

    method ConsumeCredit(isRead: bool)
      requires HasCredits(isRead)
      modifies `readCredits, `writeCredits
      ensures readCredits == if isRead then old(readCredits) - 1 else old(readCredits)
      ensures writeCredits == if isRead then old(writeCredits) else old(writeCredits) - 1
    {
      if isRead {
        readCredits := readCredits - 1;
      } else {
        writeCredits := writeCredits - 1;
      }
    }

    method IssueHead(now: nat)
      requires CanIssue(View())
      modifies `queue, `inFlight, `readCredits, `writeCredits, `lostReads, `lostWrites
      ensures View() == Issue(old(View()), now, latency)
    {
      var q := queue[0];
      ConsumeCredit(q.isRead);
      if q.addr in inFlight {
        if inFlight[q.addr].isRead {
          lostReads := lostReads + 1;
        } else {
          lostWrites := lostWrites + 1;
        }
      }
      inFlight := inFlight[q.addr := q.(completes := now + latency(q, |queue|))];
      queue := queue[1..];
    }

    method IssueRequests(now: nat)
      modifies `queue, `inFlight, `readCredits, `writeCredits, `lostReads, `lostWrites
      ensures View() == IssueAll(old(View()), now, latency)
    {
      while queue != [] && |inFlight| < MAX_QUEUE_SIZE / 2
        invariant IssueAll(View(), now, latency) == IssueAll(old(View()), now, latency)
        invariant unchanged(`occupation) && unchanged(`addressCache) && unchanged(`cacheValid)
        decreases |queue|
      {
        if !HasCredits(queue[0].isRead) {
          break;
        }
        IssueHead(now);
      }
    }

    method ProcessQueuedRequests(now: nat)
      modifies `queue, `inFlight, `readCredits, `writeCredits, `lostReads, `lostWrites
      ensures View() == Process(old(View()), now, latency)
      ensures old(Conserved(View())) ==> Conserved(View())
    {
      if Conserved(View()) {
        ProcessConserves(View(), now, latency);
      }
      CompleteRequests(now);
      IssueRequests(now);
    }

    /** Moves the first entry of the address to the end, if there is one. */
    method Refresh(addr: nat) returns (found: bool)
      modifies `occupation
      ensures found <==> addr in old(occupation)
      ensures occupation == if found then WithoutFirst(old(occupation), addr) + [addr] else old(occupation)
    {
      var i := 0;
      while i < |occupation|
        invariant 0 <= i <= |occupation| && occupation == old(occupation)
        invariant addr !in occupation[..i]
      {
        if occupation[i] == addr {
          WithoutAt(occupation, addr, i);
          occupation := occupation[..i] + occupation[i + 1..];
          occupation := occupation + [addr];
          return true;
        }
        i := i + 1;
      }
      return false;
    }

    method InsertRequest(time: nat, tid: nat, addr: nat, mine: bool) returns (code: nat)
      modifies this
      ensures (View(), code) == Step(old(View()), Insert(time, tid, addr, mine), latency)
      ensures old(Conserved(View())) ==> Conserved(View())
    {
      if !mine {
        return 0;
      }
      ProcessQueuedRequests(time);
      code := EnqueueRequest(time, tid, addr);
    }

    method EnqueueRequest(time: nat, tid: nat, addr: nat) returns (code: nat)
      modifies `queue, `occupation, `addressCache
      ensures (View(), code) == Enqueue(old(View()), time, tid, addr)
    {
      if addr == 0 {
        return 1;
      }
      if |queue| >= MAX_QUEUE_SIZE {
        return 0;
      }
      var request := Request(time, addr, tid, false, 0);
      queue := queue + [request];
      if addr in addressCache {
        var found := Refresh(addr);
        if found {
          var last := |queue| - 1;
          queue := queue[last := request.(isRead := true)];
          assert queue == old(queue) + [request.(isRead := true)];
          return 2;
        }
      }
      occupation := occupation + [addr];
      addressCache := addressCache + {addr};
      return 1;
    }
  }

  lemma {:induction false} WithoutAt(occupation: seq<nat>, addr: nat, i: nat)
    requires i < |occupation| && occupation[i] == addr && addr !in occupation[..i]
    ensures WithoutFirst(occupation, addr) == occupation[..i] + occupation[i + 1..]
  {
    if i > 0 {
      var first, rest := occupation[0], occupation[1..];
      assert occupation[..i] == [first] + rest[..i - 1];
      assert addr != first && addr !in rest[..i - 1];
      WithoutAt(rest, addr, i - 1);
      assert rest[i - 1 + 1..] == occupation[i + 1..];
    }
  }
}
