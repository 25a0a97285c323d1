/**
 * The inter-node message rings: a head/tail ring per (source, destination) pair
 * in shared memory, filled by `enqueue_message` and drained by
 * `dequeue_message` with no lock.
 *
 * Every atomic load, store and fetch-add of those two functions, and the copy of
 * the message, is one step.  Any number of producers and consumers may run; a
 * run is an arbitrary interleaving of their steps.  `log` is an observer: it
 * records each call's outcome at the step that decides it, and the main result
 * is that this log is a legal history of a sequential bounded FIFO, on every
 * run, exactly when the ring has at most one producer and one consumer.
 */
module RingQueue {
  import opened Wrappers

  /** A message is copied as a whole and never inspected: an identity stands for it. */
  type Message = nat

  /** `msg_count` is a 32-bit counter. */
  const COUNTER_MODULUS: nat := 0x1_0000_0000

  /** What a call reports, at the step that decides it. */
  datatype Event = Enqueued(msg: Message) | Rejected | Dequeued(msg: Message) | Empty

  /** The outcomes so far, the latest outermost. */
  datatype Log = Nothing | Then(before: Log, last: Event)

  /** Progress of one `enqueue_message` call. */
  datatype Producer =
    | PIdle
    | PLoadedHead(msg: Message, head: nat)
    | PFull
    | PHasRoom(msg: Message, head: nat)
    | PCopied(msg: Message, head: nat)
    | PPublished
    | PCounted

  /** Progress of one `dequeue_message` call; `sawEmpty` repeats what the log says of it. */
  datatype Consumer =
    | CIdle
    | CLoadedHead(head: nat, sawEmpty: bool)
    | CNonEmpty(tail: nat)
    | CCopied(tail: nat, msg: Message)
    | CReleased
    | CCounted

  datatype Ring = Ring(capacity: nat, head: nat, tail: nat, slots: seq<Message>)

  datatype Stats = Stats(msgCount: nat, sent: nat, received: nat, dropped: nat)

  datatype System = System(
    ring: Ring,
    stats: Stats,
    producers: seq<Producer>,
    consumers: seq<Consumer>,
    log: Log)

  datatype Action = Produce(p: nat, msg: Message) | Consume(c: nat)

  predicate RingOk(q: Ring) {
    1 <= q.capacity == |q.slots| && q.head < q.capacity && q.tail < q.capacity
  }

  predicate ProducerOk(q: Ring, p: Producer) {
    p.PLoadedHead? || p.PHasRoom? || p.PCopied? ==> p.head < q.capacity
  }

  predicate ConsumerOk(q: Ring, c: Consumer) {
    c.CNonEmpty? || c.CCopied? ==> c.tail < q.capacity
  }

  predicate WellFormed(s: System) {
    && RingOk(s.ring)
    && (forall i :: 0 <= i < |s.producers| ==> ProducerOk(s.ring, s.producers[i]))
    && (forall i :: 0 <= i < |s.consumers| ==> ConsumerOk(s.ring, s.consumers[i]))
  }

  function Next(i: nat, capacity: nat): (r: nat)
    requires i < capacity
    ensures r == if i + 1 == capacity then 0 else i + 1
  {
    (i + 1) % capacity
  }

  /** All queues start empty and zeroed. */
  function Init(capacity: nat, producers: nat, consumers: nat): (s: System)
    requires 1 <= capacity
    ensures WellFormed(s)
  {
    System(Ring(capacity, 0, 0, seq(capacity, _ => 0)), Stats(0, 0, 0, 0),
           seq(producers, _ => PIdle), seq(consumers, _ => CIdle), Nothing)
  }

  /** Adding one to the 32-bit counter, and taking one away. */
  function Raised(count: nat): (r: nat) {
    (count + 1) % COUNTER_MODULUS
  }

  function Lowered(count: nat): (r: nat) {
    (count + COUNTER_MODULUS - 1) % COUNTER_MODULUS
  }

  lemma RaisedLowered(count: nat)
    requires count < COUNTER_MODULUS
    ensures Raised(count) == if count + 1 == COUNTER_MODULUS then 0 else count + 1
    ensures Lowered(count) == if count == 0 then COUNTER_MODULUS - 1 else count - 1
  {
  }

  /** The next step of producer `p`; `msg` is used only when a new call starts. */
  function ProducerStep(s: System, p: nat, msg: Message): (r: System)
    requires WellFormed(s) && p < |s.producers|
    ensures WellFormed(r) && r.ring.capacity == s.ring.capacity
    ensures |r.producers| == |s.producers| && r.consumers == s.consumers
  {
    var q := s.ring;
    match s.producers[p]
    case PIdle =>
      s.(producers := s.producers[p := PLoadedHead(msg, q.head)])
    case PLoadedHead(m, h) =>
      if Next(h, q.capacity) == q.tail then
        s.(producers := s.producers[p := PFull], log := Then(s.log, Rejected))
      else
        s.(producers := s.producers[p := PHasRoom(m, h)])
    case PFull =>
      s.(producers := s.producers[p := PIdle], stats := s.stats.(dropped := s.stats.dropped + 1))
    case PHasRoom(m, h) =>
      s.(producers := s.producers[p := PCopied(m, h)], ring := q.(slots := q.slots[h := m]))
    case PCopied(m, h) =>
      s.(producers := s.producers[p := PPublished],
         ring := q.(head := Next(h, q.capacity)),
         log := Then(s.log, Enqueued(m)))
    case PPublished =>
      s.(producers := s.producers[p := PCounted], stats := s.stats.(msgCount := Raised(s.stats.msgCount)))
    case PCounted =>
      s.(producers := s.producers[p := PIdle], stats := s.stats.(sent := s.stats.sent + 1))
  }

  /** The next step of consumer `c`. */
  function ConsumerStep(s: System, c: nat): (r: System)
    requires WellFormed(s) && c < |s.consumers|
    ensures WellFormed(r) && r.ring.capacity == s.ring.capacity
    ensures r.producers == s.producers && |r.consumers| == |s.consumers|
  {
    var q := s.ring;
    match s.consumers[c]
    case CIdle =>
      s.(consumers := s.consumers[c := CLoadedHead(q.head, q.head == q.tail)],
         log := if q.head == q.tail then Then(s.log, Empty) else s.log)
    case CLoadedHead(h, _) =>
      s.(consumers := s.consumers[c := if h == q.tail then CIdle else CNonEmpty(q.tail)])
    case CNonEmpty(t) =>
      s.(consumers := s.consumers[c := CCopied(t, q.slots[t])])
    case CCopied(t, m) =>
      s.(consumers := s.consumers[c := CReleased],
         ring := q.(tail := Next(t, q.capacity)),
         log := Then(s.log, Dequeued(m)))
    case CReleased =>
      s.(consumers := s.consumers[c := CCounted], stats := s.stats.(msgCount := Lowered(s.stats.msgCount)))
    case CCounted =>
      s.(consumers := s.consumers[c := CIdle], stats := s.stats.(received := s.stats.received + 1))
  }

  function Step(s: System, a: Action): (r: System)
    requires WellFormed(s)
    ensures WellFormed(r) && r.ring.capacity == s.ring.capacity
    ensures |r.producers| == |s.producers| && |r.consumers| == |s.consumers|
  {
    match a
    case Produce(p, m) => if p < |s.producers| then ProducerStep(s, p, m) else s
    case Consume(c) => if c < |s.consumers| then ConsumerStep(s, c) else s
  }

  /** The state after an interleaving. */
  function Exec(s: System, run: seq<Action>): (r: System)
    requires WellFormed(s)
    ensures WellFormed(r) && r.ring.capacity == s.ring.capacity
    ensures |r.producers| == |s.producers| && |r.consumers| == |s.consumers|
  {
    if run == [] then s else Step(Exec(s, run[..|run| - 1]), run[|run| - 1])
  }

  // ---------------------------------------------------------------------------
  // The sequential specification
  // ---------------------------------------------------------------------------

  function Apply(bound: nat, items: seq<Message>, e: Event): (r: Option<seq<Message>>) {
    match e
    case Enqueued(m) => if |items| < bound then Some(items + [m]) else None
    case Rejected => if |items| == bound then Some(items) else None
    case Dequeued(m) => if items != [] && items[0] == m then Some(items[1..]) else None
    case Empty => if items == [] then Some(items) else None
  }

  /** The content of a FIFO holding at most `bound` messages after `log`, if `log` is one of its histories. */
  function Replay(bound: nat, log: Log): (r: Option<seq<Message>>) {
    match log
    case Nothing => Some([])
    case Then(before, e) =>
      var items := Replay(bound, before);
      if items.None? then None else Apply(bound, items.value, e)
  }

  function Accepted(log: Log): (r: seq<Message>) {
    match log
    case Nothing => []
    case Then(before, e) => if e.Enqueued? then Accepted(before) + [e.msg] else Accepted(before)
  }

  function Delivered(log: Log): (r: seq<Message>) {
    match log
    case Nothing => []
    case Then(before, e) => if e.Dequeued? then Delivered(before) + [e.msg] else Delivered(before)
  }

  function Rejections(log: Log): (r: nat) {
    match log
    case Nothing => 0
    case Then(before, e) => Rejections(before) + if e.Rejected? then 1 else 0
  }

  /** A FIFO history delivers, in order, a prefix of what it accepted; the rest is its content. */
  lemma {:induction false} FifoOrder(bound: nat, log: Log)
    requires Replay(bound, log).Some?
    ensures Accepted(log) == Delivered(log) + Replay(bound, log).value
    ensures |Replay(bound, log).value| <= bound
  {
    if log.Then? {
      FifoOrder(bound, log.before);
    }
  }

  // ---------------------------------------------------------------------------
  // What the shared slots hold
  // ---------------------------------------------------------------------------

  function Distance(from: nat, to: nat, capacity: nat): (r: nat)
    requires from < capacity && to < capacity
    ensures r < capacity
  {
    if from <= to then to - from else to + capacity - from
  }

  function Unread(q: Ring): (r: nat)
    requires RingOk(q)
    ensures r < q.capacity
  {
    Distance(q.tail, q.head, q.capacity)
  }

  function SlotAt(q: Ring, k: nat): (r: nat)
    requires RingOk(q) && k < q.capacity
    ensures r < q.capacity
  {
    if q.tail + k < q.capacity then q.tail + k else q.tail + k - q.capacity
  }

  /** The unread messages, oldest first. */
  function Contents(q: Ring): (r: seq<Message>)
    requires RingOk(q)
    ensures |r| == Unread(q)
  {
    seq(Unread(q), k requires 0 <= k < Unread(q) => q.slots[SlotAt(q, k)])
  }

  /** The log is a legal FIFO history and the unread slots hold exactly its content. */
  predicate Linearized(s: System)
    requires WellFormed(s)
  {
    Replay(s.ring.capacity - 1, s.log) == Some(Contents(s.ring))
  }

  /** A copy into a slot outside the unread region changes no unread message. */
  lemma CopyKeeps(q: Ring, m: Message)
    requires RingOk(q)
    ensures Contents(q.(slots := q.slots[q.head := m])) == Contents(q)
  {
  }

  lemma PublishExtends(q: Ring)
    requires RingOk(q) && Unread(q) < q.capacity - 1
    ensures Contents(q.(head := Next(q.head, q.capacity))) == Contents(q) + [q.slots[q.head]]
  {
  }

  lemma ReleaseShrinks(q: Ring)
    requires RingOk(q) && 0 < Unread(q)
    ensures Contents(q.(tail := Next(q.tail, q.capacity))) == Contents(q)[1..]
    ensures Contents(q)[0] == q.slots[q.tail]
  {
  }

  // ---------------------------------------------------------------------------
  // One producer, one consumer
  // ---------------------------------------------------------------------------

  function TheProducer(s: System): (r: Producer) {
    if |s.producers| == 1 then s.producers[0] else PIdle
  }

  function TheConsumer(s: System): (r: Consumer) {
    if |s.consumers| == 1 then s.consumers[0] else CIdle
  }

  ghost predicate ProducerInv(q: Ring, p: Producer)
    requires RingOk(q)
  {
    && (p.PLoadedHead? ==> p.head == q.head)
    && (p.PHasRoom? || p.PCopied? ==> p.head == q.head && Unread(q) < q.capacity - 1)
    && (p.PCopied? ==> q.slots[p.head] == p.msg)
  }

  ghost predicate ConsumerInv(q: Ring, c: Consumer)
    requires RingOk(q)
  {
    && (c.CLoadedHead? ==>
          && c.head < q.capacity
          && Distance(q.tail, c.head, q.capacity) <= Unread(q)
          && (c.sawEmpty <==> c.head == q.tail))
    && (c.CNonEmpty? || c.CCopied? ==> c.tail == q.tail && 0 < Unread(q))
    && (c.CCopied? ==> q.slots[c.tail] == c.msg)
  }

  /** How far each statistic lags behind the log while a call is under way. */
  ghost predicate StatsInv(s: System)
    requires WellFormed(s)
  {
    var p, c := TheProducer(s), TheConsumer(s);
    && s.stats.sent + (if p.PPublished? || p.PCounted? then 1 else 0) == |Accepted(s.log)|
    && s.stats.received + (if c.CReleased? || c.CCounted? then 1 else 0) == |Delivered(s.log)|
    && s.stats.dropped + (if p.PFull? then 1 else 0) == Rejections(s.log)
    && s.stats.msgCount
       == (Unread(s.ring) + (if c.CReleased? then 1 else 0) - (if p.PPublished? then 1 else 0)) % COUNTER_MODULUS
  }

  ghost predicate Inv(s: System) {
    && WellFormed(s)
    && |s.producers| <= 1
    && |s.consumers| <= 1
    && Linearized(s)
    && ProducerInv(s.ring, TheProducer(s))
    && ConsumerInv(s.ring, TheConsumer(s))
    && StatsInv(s)
  }

  lemma InitInv(capacity: nat, producers: nat, consumers: nat)
    requires 1 <= capacity && producers <= 1 && consumers <= 1
    ensures Inv(Init(capacity, producers, consumers))
  {
    assert Contents(Init(capacity, producers, consumers).ring) == [];
  }

  lemma PublishInv(s: System, msg: Message)
    requires Inv(s) && |s.producers| == 1 && s.producers[0].PCopied?
    ensures Inv(ProducerStep(s, 0, msg))
  {
    PublishExtends(s.ring);
    assert Unread(ProducerStep(s, 0, msg).ring) == Unread(s.ring) + 1;
  }

  lemma CopyInv(s: System, msg: Message)
    requires Inv(s) && |s.producers| == 1 && s.producers[0].PHasRoom?
    ensures Inv(ProducerStep(s, 0, msg))
  {
    CopyKeeps(s.ring, s.producers[0].msg);
  }

  lemma FullInv(s: System, msg: Message)
    requires Inv(s) && |s.producers| == 1 && s.producers[0].PLoadedHead?
    requires Next(s.producers[0].head, s.ring.capacity) == s.ring.tail
    ensures Inv(ProducerStep(s, 0, msg))
  {
    assert Unread(s.ring) == s.ring.capacity - 1;
  }

  lemma RoomInv(s: System, msg: Message)
    requires Inv(s) && |s.producers| == 1 && s.producers[0].PLoadedHead?
    requires Next(s.producers[0].head, s.ring.capacity) != s.ring.tail
    ensures Inv(ProducerStep(s, 0, msg))
  {
    assert Unread(s.ring) < s.ring.capacity - 1;
  }

  lemma StartInv(s: System, msg: Message)
    requires Inv(s) && |s.producers| == 1 && s.producers[0].PIdle?
    ensures Inv(ProducerStep(s, 0, msg))
  {
  }

  lemma SentInv(s: System, msg: Message)
    requires Inv(s) && |s.producers| == 1 && (s.producers[0].PFull? || s.producers[0].PCounted?)
    ensures Inv(ProducerStep(s, 0, msg))
  {
  }

  lemma CountUp(n: int)
    ensures Raised(n % COUNTER_MODULUS) == (n + 1) % COUNTER_MODULUS
    ensures Lowered(n % COUNTER_MODULUS) == (n - 1) % COUNTER_MODULUS
  {
  }

  lemma PublishedInv(s: System, msg: Message)
    requires Inv(s) && |s.producers| == 1 && s.producers[0].PPublished?
    ensures Inv(ProducerStep(s, 0, msg))
  {
    CountUp(Unread(s.ring) + (if TheConsumer(s).CReleased? then 1 else 0) - 1);
  }

  lemma ProducerStepInv(s: System, msg: Message)
    requires Inv(s) && |s.producers| == 1
    ensures Inv(ProducerStep(s, 0, msg))
  {
    match s.producers[0]
    case PIdle => StartInv(s, msg);
    case PLoadedHead(_, head) =>
      if Next(head, s.ring.capacity) == s.ring.tail {
        FullInv(s, msg);
      } else {
        RoomInv(s, msg);
      }
    case PHasRoom(_, _) => CopyInv(s, msg);
    case PCopied(_, _) => PublishInv(s, msg);
    case PPublished => PublishedInv(s, msg);
    case PFull => SentInv(s, msg);
    case PCounted => SentInv(s, msg);
  }

  lemma ReleaseInv(s: System)
    requires Inv(s) && |s.consumers| == 1 && s.consumers[0].CCopied?
    ensures Inv(ConsumerStep(s, 0))
  {
    ReleaseShrinks(s.ring);
    assert Unread(ConsumerStep(s, 0).ring) == Unread(s.ring) - 1;
  }

  lemma LoadHeadInv(s: System)
    requires Inv(s) && |s.consumers| == 1 && s.consumers[0].CIdle?
    ensures Inv(ConsumerStep(s, 0))
  {
  }

  lemma TakeInv(s: System)
    requires Inv(s) && |s.consumers| == 1 && (s.consumers[0].CLoadedHead? || s.consumers[0].CNonEmpty?)
    ensures Inv(ConsumerStep(s, 0))
  {
  }

  lemma ReleasedInv(s: System)
    requires Inv(s) && |s.consumers| == 1 && s.consumers[0].CReleased?
    ensures Inv(ConsumerStep(s, 0))
  {
    CountUp(Unread(s.ring) + 1 - (if TheProducer(s).PPublished? then 1 else 0));
  }

  lemma ReceivedInv(s: System)
    requires Inv(s) && |s.consumers| == 1 && s.consumers[0].CCounted?
    ensures Inv(ConsumerStep(s, 0))
  {
  }

  lemma ConsumerStepInv(s: System)
    requires Inv(s) && |s.consumers| == 1
    ensures Inv(ConsumerStep(s, 0))
  {
    match s.consumers[0]
    case CIdle => LoadHeadInv(s);
    case CLoadedHead(_, _) => TakeInv(s);
    case CNonEmpty(_) => TakeInv(s);
    case CCopied(_, _) => ReleaseInv(s);
    case CReleased => ReleasedInv(s);
    case CCounted => ReceivedInv(s);
  }

  lemma StepInv(s: System, a: Action)
    requires Inv(s)
    ensures Inv(Step(s, a))
  {
    match a
    case Produce(p, m) => if p < |s.producers| { ProducerStepInv(s, m); }
    case Consume(c) => if c < |s.consumers| { ConsumerStepInv(s); }
  }

  lemma {:induction false} ReachableInv(capacity: nat, producers: nat, consumers: nat, run: seq<Action>)
    requires 1 <= capacity && producers <= 1 && consumers <= 1
    ensures Inv(Exec(Init(capacity, producers, consumers), run))
  {
    if run == [] {
      InitInv(capacity, producers, consumers);
    } else {
      ReachableInv(capacity, producers, consumers, run[..|run| - 1]);
      StepInv(Exec(Init(capacity, producers, consumers), run[..|run| - 1]), run[|run| - 1]);
    }
  }

  lemma InOrder(s: System)
    requires Inv(s)
    ensures Accepted(s.log) == Delivered(s.log) + Contents(s.ring)
    ensures |Contents(s.ring)| <= s.ring.capacity - 1
  {
    FifoOrder(s.ring.capacity - 1, s.log);
  }

  lemma IdleStats(s: System)
    requires Inv(s) && TheProducer(s).PIdle? && TheConsumer(s).CIdle?
    ensures s.stats.sent - s.stats.received == Unread(s.ring)
    ensures s.stats.sent == |Accepted(s.log)| && s.stats.received == |Delivered(s.log)|
    ensures s.stats.dropped == Rejections(s.log)
    ensures s.stats.msgCount == Unread(s.ring) % COUNTER_MODULUS
  {
    InOrder(s);
  }

  /**
   * Under every interleaving of one producer and one consumer the outcomes form a
   * sequential FIFO history: delivered messages are a prefix, in order, of the
   * arguments of the calls that were not rejected, the unread slots hold the rest, and
   * at most capacity-1 wait.
   */
  lemma SingleProducerSingleConsumer(capacity: nat, run: seq<Action>)
    requires 1 <= capacity
    ensures var s := Exec(Init(capacity, 1, 1), run);
            var offers, decisions := Offered(capacity, 1, run), Decisions(s.log);
            && Linearized(s)
            && Accepted(s.log) == Delivered(s.log) + Contents(s.ring)
            && |decisions| <= |offers| <= |decisions| + 1
            && Delivered(s.log) + Contents(s.ring) == Kept(offers, decisions)
            && |Contents(s.ring)| <= capacity - 1
  {
    ReachableInv(capacity, 1, 1, run);
    InOrder(Exec(Init(capacity, 1, 1), run));
    AcceptedAreOffered(capacity, 1, run);
  }

  /** The slot the producer is about to fill is not unread, so not the one the consumer is copying. */
  lemma NoOverwrite(capacity: nat, run: seq<Action>)
    requires 1 <= capacity
    ensures var s := Exec(Init(capacity, 1, 1), run);
            s.producers[0].PHasRoom? ==>
              && (forall k :: 0 <= k < Unread(s.ring) ==> SlotAt(s.ring, k) != s.producers[0].head)
              && (s.consumers[0].CNonEmpty? ==> s.consumers[0].tail != s.producers[0].head)
  {
    ReachableInv(capacity, 1, 1, run);
  }

  /** The outcome each call returns is the one logged for it. */
  lemma ResponsesMatchLog(capacity: nat, run: seq<Action>)
    requires 1 <= capacity
    ensures var s := Exec(Init(capacity, 1, 1), run);
            && (s.consumers[0].CLoadedHead? ==>
                  (ConsumerStep(s, 0).consumers[0].CIdle? <==> s.consumers[0].sawEmpty))
            && (s.producers[0].PLoadedHead? ==>
                  (ProducerStep(s, 0, 0).producers[0].PFull? <==> Unread(s.ring) == capacity - 1))
  {
    ReachableInv(capacity, 1, 1, run);
  }

  /** When neither side is inside a call, every statistic agrees with the history. */
  lemma QuiescentStats(capacity: nat, run: seq<Action>)
    requires 1 <= capacity
    ensures var s := Exec(Init(capacity, 1, 1), run);
            s.producers[0].PIdle? && s.consumers[0].CIdle? ==>
              && s.stats.sent - s.stats.received == Unread(s.ring)
              && s.stats.sent == |Accepted(s.log)|
              && s.stats.received == |Delivered(s.log)|
              && s.stats.dropped == Rejections(s.log)
              && s.stats.msgCount == Unread(s.ring) % COUNTER_MODULUS
  {
    ReachableInv(capacity, 1, 1, run);
    var s := Exec(Init(capacity, 1, 1), run);
    if s.producers[0].PIdle? && s.consumers[0].CIdle? {
      IdleStats(s);
    }
  }

  // ---------------------------------------------------------------------------
  // What was offered
  // ---------------------------------------------------------------------------

  /** The arguments of the producer's calls, in order: the message of every step that starts one. */
  function Offered(capacity: nat, consumers: nat, run: seq<Action>): (r: seq<Message>)
    requires 1 <= capacity
  {
    if run == [] then []
    else
      var before, a := run[..|run| - 1], run[|run| - 1];
      if a.Produce? && a.p == 0 && Exec(Init(capacity, 1, consumers), before).producers[0].PIdle?
      then Offered(capacity, consumers, before) + [a.msg]
      else Offered(capacity, consumers, before)
  }

  /** How the calls were decided, in order: accepted or rejected. */
  function Decisions(log: Log): (r: seq<bool>) {
    match log
    case Nothing => []
    case Then(before, e) => if e.Enqueued? || e.Rejected? then Decisions(before) + [e.Enqueued?] else Decisions(before)
  }

  /** The offers decided and not rejected. */
  function Kept(offers: seq<Message>, decisions: seq<bool>): (r: seq<Message>)
    requires |decisions| <= |offers|
    decreases |decisions|
  {
    if decisions == [] then []
    else
      var n := |decisions| - 1;
      if decisions[n] then Kept(offers, decisions[..n]) + [offers[n]] else Kept(offers, decisions[..n])
  }

  predicate Undecided(p: Producer) {
    p.PLoadedHead? || p.PHasRoom? || p.PCopied?
  }

  /** The log tells the offers apart from those rejected and the one under way. */
  ghost predicate Told(p: Producer, log: Log, offers: seq<Message>) {
    && |offers| == |Decisions(log)| + (if Undecided(p) then 1 else 0)
    && (Undecided(p) ==> p.msg == offers[|offers| - 1])
    && Accepted(log) == Kept(offers, Decisions(log))
  }

  lemma {:induction false} KeptOfLonger(offers: seq<Message>, m: Message, decisions: seq<bool>)
    requires |decisions| <= |offers|
    ensures Kept(offers + [m], decisions) == Kept(offers, decisions)
    decreases |decisions|
  {
    if decisions != [] {
      KeptOfLonger(offers, m, decisions[..|decisions| - 1]);
    }
  }

  lemma KeptNext(offers: seq<Message>, decisions: seq<bool>, accepted: bool)
    requires |decisions| < |offers|
    ensures Kept(offers, decisions + [accepted])
            == if accepted then Kept(offers, decisions) + [offers[|decisions|]] else Kept(offers, decisions)
  {
    assert (decisions + [accepted])[..|decisions|] == decisions;
  }

  lemma StartsTold(p: Producer, log: Log, offers: seq<Message>, msg: Message, head: nat)
    requires Told(p, log, offers) && !Undecided(p)
    ensures Told(PLoadedHead(msg, head), log, offers + [msg])
  {
    KeptOfLonger(offers, msg, Decisions(log));
  }

  lemma RejectedTold(p: Producer, log: Log, offers: seq<Message>)
    requires Told(p, log, offers) && Undecided(p)
    ensures Told(PFull, Then(log, Rejected), offers)
  {
    KeptNext(offers, Decisions(log), false);
  }

  lemma AcceptedTold(p: Producer, log: Log, offers: seq<Message>)
    requires Told(p, log, offers) && Undecided(p)
    ensures Told(PPublished, Then(log, Enqueued(p.msg)), offers)
  {
    KeptNext(offers, Decisions(log), true);
  }

  /** A step that neither starts nor decides a call tells nothing. */
  lemma SameTold(p: Producer, q: Producer, log: Log, offers: seq<Message>)
    requires Told(p, log, offers) && Undecided(p) == Undecided(q) && (Undecided(p) ==> p.msg == q.msg)
    ensures Told(q, log, offers)
  {
  }

  lemma ProducerTold(s: System, msg: Message, offers: seq<Message>)
    requires WellFormed(s) && |s.producers| == 1 && Told(s.producers[0], s.log, offers)
    ensures var r := ProducerStep(s, 0, msg);
            Told(r.producers[0], r.log, if s.producers[0].PIdle? then offers + [msg] else offers)
  {
    var p, r := s.producers[0], ProducerStep(s, 0, msg);
    if p.PIdle? {
      StartsTold(p, s.log, offers, msg, s.ring.head);
    } else if r.log == s.log {
      SameTold(p, r.producers[0], s.log, offers);
    } else if p.PLoadedHead? {
      RejectedTold(p, s.log, offers);
    } else {
      AcceptedTold(p, s.log, offers);
    }
  }

  lemma ConsumerTold(s: System, c: nat, offers: seq<Message>)
    requires WellFormed(s) && |s.producers| == 1 && c < |s.consumers| && Told(s.producers[0], s.log, offers)
    ensures var r := ConsumerStep(s, c); Told(r.producers[0], r.log, offers)
  {
  }

  /** With one producer and any consumers: the accepted messages are the arguments of the calls not rejected. */
  lemma {:induction false} AcceptedAreOffered(capacity: nat, consumers: nat, run: seq<Action>)
    requires 1 <= capacity
    ensures var s := Exec(Init(capacity, 1, consumers), run);
            Told(s.producers[0], s.log, Offered(capacity, consumers, run))
  {
    if run != [] {
      var before, a := run[..|run| - 1], run[|run| - 1];
      AcceptedAreOffered(capacity, consumers, before);
      var s := Exec(Init(capacity, 1, consumers), before);
      if a.Produce? && a.p == 0 {
        ProducerTold(s, a.msg, Offered(capacity, consumers, before));
      } else if a.Consume? && a.c < consumers {
        ConsumerTold(s, a.c, Offered(capacity, consumers, before));
      }
    }
  }

  /** The argument of the call a producer started last; any number of producers and consumers. */
  function Argument(capacity: nat, producers: nat, consumers: nat, run: seq<Action>, p: nat): (r: Message)
    requires 1 <= capacity && p < producers
  {
    if run == [] then 0
    else
      var before, a := run[..|run| - 1], run[|run| - 1];
      if a.Produce? && a.p == p && Exec(Init(capacity, producers, consumers), before).producers[p].PIdle? then a.msg
      else Argument(capacity, producers, consumers, before, p)
  }

  /** The arguments of the calls that published, in the order in which they did. */
  function Arguments(capacity: nat, producers: nat, consumers: nat, run: seq<Action>): (r: seq<Message>)
    requires 1 <= capacity
  {
    if run == [] then []
    else
      var before, a := run[..|run| - 1], run[|run| - 1];
      var sofar := Arguments(capacity, producers, consumers, before);
      if a.Produce? && a.p < producers && Exec(Init(capacity, producers, consumers), before).producers[a.p].PCopied?
      then sofar + [Argument(capacity, producers, consumers, before, a.p)]
      else sofar
  }

  lemma {:induction false} ArgumentIsHeld(capacity: nat, producers: nat, consumers: nat, run: seq<Action>, p: nat)
    requires 1 <= capacity && p < producers
    ensures var caller := Exec(Init(capacity, producers, consumers), run).producers[p];
            Undecided(caller) ==> caller.msg == Argument(capacity, producers, consumers, run, p)
  {
    if run != [] {
      ArgumentIsHeld(capacity, producers, consumers, run[..|run| - 1], p);
    }
  }

  /** However many callers there are, what is accepted is what the accepted calls were given. */
  lemma {:induction false} AcceptedAreArguments(capacity: nat, producers: nat, consumers: nat, run: seq<Action>)
    requires 1 <= capacity
    ensures Accepted(Exec(Init(capacity, producers, consumers), run).log)
            == Arguments(capacity, producers, consumers, run)
  {
    if run != [] {
      var before, a := run[..|run| - 1], run[|run| - 1];
      AcceptedAreArguments(capacity, producers, consumers, before);
      if a.Produce? && a.p < producers {
        ArgumentIsHeld(capacity, producers, consumers, before, a.p);
      }
    }
  }

  // ---------------------------------------------------------------------------
  // A call from start to end
  // ---------------------------------------------------------------------------

  /** The place after `i`, with the wrap. */
  function Following(q: Ring, i: nat): (r: nat) {
    if i + 1 == q.capacity then 0 else i + 1
  }

  /** The ring with a message in the slot at its head, and the head moved on. */
  function Filled(q: Ring, m: Message): (r: Ring)
    requires q.head < |q.slots|
  {
    q.(slots := q.slots[q.head := m], head := Following(q, q.head))
  }

  /** Two steps of one caller. */
  function Pair(a: Action): (r: seq<Action>) {
    [a, a]
  }

  lemma ExecPair(s: System, a: Action, b: Action, t: System, u: System)
    requires WellFormed(s) && t == Step(s, a) && u == Step(t, b)
    ensures Exec(s, [a, b]) == u
  {
    ExecTwo(s, a, b);
  }

  lemma Overwritten<T>(s: seq<T>, i: nat, a: T, b: T)
    requires i < |s|
    ensures s[i := a][i := b] == s[i := b]
    ensures a == s[i] ==> s[i := b][i := a] == s
  {
  }

  lemma LoadsHead(s: System, p: nat, msg: Message) returns (t: System)
    requires WellFormed(s) && p < |s.producers| && s.producers[p].PIdle?
    ensures WellFormed(t) && t == Step(s, Produce(p, msg))
    ensures t == s.(producers := s.producers[p := PLoadedHead(msg, s.ring.head)])
  {
    t := ProducerStep(s, p, msg);
  }

  lemma SeesRoom(s: System, p: nat, msg: Message, other: Message) returns (t: System)
    requires WellFormed(s) && p < |s.producers| && s.producers[p] == PLoadedHead(msg, s.ring.head)
    requires Unread(s.ring) < s.ring.capacity - 1
    ensures WellFormed(t) && t == Step(s, Produce(p, other))
    ensures t == s.(producers := s.producers[p := PHasRoom(msg, s.ring.head)])
  {
    t := ProducerStep(s, p, other);
  }

  lemma FindsRoom(s: System, p: nat, msg: Message, other: Message) returns (t: System)
    requires WellFormed(s) && p < |s.producers| && s.producers[p].PIdle? && Unread(s.ring) < s.ring.capacity - 1
    ensures WellFormed(t) && t == Exec(s, [Produce(p, msg), Produce(p, other)])
    ensures t == s.(producers := s.producers[p := PHasRoom(msg, s.ring.head)])
  {
    var u := LoadsHead(s, p, msg);
    t := SeesRoom(u, p, msg, other);
    Overwritten(s.producers, p, PLoadedHead(msg, s.ring.head), PHasRoom(msg, s.ring.head));
    ExecPair(s, Produce(p, msg), Produce(p, other), u, t);
  }

  lemma CopiesMessage(s: System, p: nat, msg: Message, other: Message) returns (t: System)
    requires WellFormed(s) && p < |s.producers| && s.producers[p] == PHasRoom(msg, s.ring.head)
    ensures WellFormed(t) && t == Step(s, Produce(p, other))
    ensures t == s.(producers := s.producers[p := PCopied(msg, s.ring.head)],
                    ring := s.ring.(slots := s.ring.slots[s.ring.head := msg]))
  {
    t := ProducerStep(s, p, other);
  }

  lemma Publishes(s: System, p: nat, msg: Message, other: Message) returns (t: System)
    requires WellFormed(s) && p < |s.producers| && s.producers[p] == PCopied(msg, s.ring.head)
    ensures WellFormed(t) && t == Step(s, Produce(p, other))
    ensures t == s.(producers := s.producers[p := PPublished], ring := s.ring.(head := Following(s.ring, s.ring.head)),
                    log := Then(s.log, Enqueued(msg)))
  {
    t := ProducerStep(s, p, other);
  }

  lemma CopiesAndPublishes(s: System, p: nat, msg: Message, other: Message) returns (t: System)
    requires WellFormed(s) && p < |s.producers| && s.producers[p] == PHasRoom(msg, s.ring.head)
    ensures WellFormed(t) && t == Exec(s, Pair(Produce(p, other)))
    ensures t == s.(producers := s.producers[p := PPublished], ring := Filled(s.ring, msg),
                    log := Then(s.log, Enqueued(msg)))
  {
    var u := CopiesMessage(s, p, msg, other);
    t := Publishes(u, p, msg, other);
    Overwritten(s.producers, p, PCopied(msg, s.ring.head), PPublished);
    ExecPair(s, Produce(p, other), Produce(p, other), u, t);
  }

  lemma CountsUp(s: System, p: nat, other: Message) returns (t: System)
    requires WellFormed(s) && p < |s.producers| && s.producers[p].PPublished?
    ensures WellFormed(t) && t == Step(s, Produce(p, other))
    ensures t == s.(producers := s.producers[p := PCounted], stats := s.stats.(msgCount := Raised(s.stats.msgCount)))
  {
    t := ProducerStep(s, p, other);
  }

  lemma CountsOne(s: System, p: nat, other: Message) returns (t: System)
    requires WellFormed(s) && p < |s.producers| && s.producers[p].PCounted?
    ensures WellFormed(t) && t == Step(s, Produce(p, other))
    ensures t == s.(producers := s.producers[p := PIdle], stats := s.stats.(sent := s.stats.sent + 1))
  {
    t := ProducerStep(s, p, other);
  }

  lemma CountsSent(s: System, p: nat, other: Message) returns (t: System)
    requires WellFormed(s) && p < |s.producers| && s.producers[p].PPublished?
    ensures WellFormed(t) && t == Exec(s, Pair(Produce(p, other)))
    ensures t == s.(producers := s.producers[p := PIdle],
                    stats := s.stats.(sent := s.stats.sent + 1, msgCount := Raised(s.stats.msgCount)))
  {
    var u := CountsUp(s, p, other);
    t := CountsOne(u, p, other);
    Overwritten(s.producers, p, PCounted, PIdle);
    ExecPair(s, Produce(p, other), Produce(p, other), u, t);
  }

  lemma ExecThree(s: System, a: seq<Action>, b: seq<Action>, c: seq<Action>, t: System, u: System)
    requires WellFormed(s) && t == Exec(s, a) && u == Exec(t, b)
    ensures Exec(s, a + b + c) == Exec(u, c)
  {
    ExecAppend(s, a, b);
    ExecAppend(s, a + b, c);
  }

  /** A call that is not disturbed and finds room: its message is in the slot at the head, and everything is counted. */
  lemma AcceptedCall(s: System, p: nat, msg: Message, other: Message)
    requires WellFormed(s) && p < |s.producers| && s.producers[p].PIdle? && Unread(s.ring) < s.ring.capacity - 1
    ensures var more := Pair(Produce(p, other));
            Exec(s, [Produce(p, msg), Produce(p, other)] + more + more)
            == s.(ring := Filled(s.ring, msg), log := Then(s.log, Enqueued(msg)),
                  stats := s.stats.(sent := s.stats.sent + 1, msgCount := Raised(s.stats.msgCount)))
  {
    var t := FindsRoom(s, p, msg, other);
    var u := CopiesAndPublishes(t, p, msg, other);
    var v := CountsSent(u, p, other);
    ExecThree(s, [Produce(p, msg), Produce(p, other)], Pair(Produce(p, other)), Pair(Produce(p, other)), t, u);
    Overwritten(s.producers, p, PHasRoom(msg, s.ring.head), PPublished);
    Overwritten(s.producers, p, PIdle, PPublished);
  }

  /** A call that finds the ring full: only the drop is counted. */
  lemma RejectedCall(s: System, p: nat, msg: Message, other: Message)
    requires WellFormed(s) && p < |s.producers| && s.producers[p].PIdle? && Unread(s.ring) == s.ring.capacity - 1
    ensures Exec(s, [Produce(p, msg), Produce(p, other)] + [Produce(p, other)])
            == s.(stats := s.stats.(dropped := s.stats.dropped + 1), log := Then(s.log, Rejected))
  {
    ExecTwo(s, Produce(p, msg), Produce(p, other));
    ExecSnoc(s, [Produce(p, msg), Produce(p, other)], Produce(p, other));
    var t := Step(Step(s, Produce(p, msg)), Produce(p, other));
    assert t.producers[p := PIdle] == s.producers;
  }

  lemma ReleasesSlot(s: System, c: nat, m: Message) returns (t: System)
    requires WellFormed(s) && c < |s.consumers| && s.consumers[c] == CCopied(s.ring.tail, m)
    ensures WellFormed(t) && t == Step(s, Consume(c))
    ensures t == s.(consumers := s.consumers[c := CReleased], ring := s.ring.(tail := Following(s.ring, s.ring.tail)),
                    log := Then(s.log, Dequeued(m)))
  {
    t := ConsumerStep(s, c);
  }

  lemma Releases(s: System, c: nat, m: Message) returns (t: System)
    requires WellFormed(s) && c < |s.consumers| && s.consumers[c] == CCopied(s.ring.tail, m)
    ensures WellFormed(t) && t == Exec(s, [Consume(c)])
    ensures t == s.(consumers := s.consumers[c := CReleased], ring := s.ring.(tail := Following(s.ring, s.ring.tail)),
                    log := Then(s.log, Dequeued(m)))
  {
    t := ReleasesSlot(s, c, m);
    ExecOne(s, Consume(c));
  }

  lemma CountsReceived(s: System, c: nat)
    requires WellFormed(s) && c < |s.consumers| && s.consumers[c].CReleased?
    ensures Exec(s, Pair(Consume(c)))
            == s.(consumers := s.consumers[c := CIdle],
                  stats := s.stats.(received := s.stats.received + 1, msgCount := Lowered(s.stats.msgCount)))
  {
    var t := CountsDown(s, c);
    var u := CountsMessage(t, c);
    assert t.consumers[c := CIdle] == s.consumers[c := CIdle];
    ExecTwo(s, Consume(c), Consume(c));
  }

  lemma CountsDown(s: System, c: nat) returns (t: System)
    requires WellFormed(s) && c < |s.consumers| && s.consumers[c].CReleased?
    ensures WellFormed(t) && t == Step(s, Consume(c))
    ensures t == s.(consumers := s.consumers[c := CCounted], stats := s.stats.(msgCount := Lowered(s.stats.msgCount)))
  {
    t := ConsumerStep(s, c);
  }

  lemma CountsMessage(s: System, c: nat) returns (t: System)
    requires WellFormed(s) && c < |s.consumers| && s.consumers[c].CCounted?
    ensures WellFormed(t) && t == Step(s, Consume(c))
    ensures t == s.(consumers := s.consumers[c := CIdle], stats := s.stats.(received := s.stats.received + 1))
  {
    t := ConsumerStep(s, c);
  }

  /** A call that is not disturbed and finds a message: it delivers the oldest and gives its slot back. */
  lemma DeliveredCall(s: System, c: nat)
    requires WellFormed(s) && c < |s.consumers| && s.consumers[c].CIdle? && 0 < Unread(s.ring)
    ensures var q := s.ring;
            Exec(s, CopyRun(c) + [Consume(c)] + Pair(Consume(c)))
            == s.(ring := q.(tail := Following(q, q.tail)),
                  stats := s.stats.(received := s.stats.received + 1, msgCount := Lowered(s.stats.msgCount)),
                  log := Then(s.log, Dequeued(Contents(q)[0])))
  {
    var m := s.ring.slots[s.ring.tail];
    var t := s.(consumers := s.consumers[c := CCopied(s.ring.tail, m)]);
    var u := ReleasedAfter(s, t, c, m);
    ExecThree(s, CopyRun(c), [Consume(c)], Pair(Consume(c)), t, u);
    EndsIdle(s, u, c, m);
    ReleaseShrinks(s.ring);
  }

  lemma EndsIdle(s: System, u: System, c: nat, m: Message)
    requires WellFormed(s) && WellFormed(u) && c < |s.consumers| && s.consumers[c].CIdle?
    requires u.consumers == s.consumers[c := CReleased] && u.producers == s.producers && u.stats == s.stats
    ensures Exec(u, Pair(Consume(c)))
            == System(u.ring, s.stats.(received := s.stats.received + 1, msgCount := Lowered(s.stats.msgCount)),
                      s.producers, s.consumers, u.log)
  {
    CountsReceived(u, c);
    assert u.consumers[c := CIdle] == s.consumers;
  }

  lemma ReleasedAfter(s: System, t: System, c: nat, m: Message) returns (u: System)
    requires WellFormed(s) && c < |s.consumers| && s.consumers[c].CIdle? && s.ring.head != s.ring.tail
    requires m == s.ring.slots[s.ring.tail] && t == s.(consumers := s.consumers[c := CCopied(s.ring.tail, m)])
    ensures WellFormed(t) && t == Exec(s, CopyRun(c)) && u == Exec(t, [Consume(c)])
    ensures u == s.(consumers := s.consumers[c := CReleased],
                    ring := s.ring.(tail := Following(s.ring, s.ring.tail)),
                    log := Then(s.log, Dequeued(m)))
  {
    Copied(s, c);
    u := Releases(t, c, m);
    assert t.consumers[c := CReleased] == s.consumers[c := CReleased];
  }

  lemma ExecOne(s: System, a: Action)
    requires WellFormed(s)
    ensures Exec(s, [a]) == Step(s, a)
  {
    ExecSnoc(s, [], a);
    assert [] + [a] == [a];
  }

  /** A call that finds the ring empty changes nothing but the log. */
  lemma EmptyCall(s: System, c: nat)
    requires WellFormed(s) && c < |s.consumers| && s.consumers[c].CIdle? && Unread(s.ring) == 0
    ensures Exec(s, Pair(Consume(c))) == s.(log := Then(s.log, Empty))
  {
    ExecTwo(s, Consume(c), Consume(c));
    assert Step(Step(s, Consume(c)), Consume(c)).consumers == s.consumers;
  }

  // ---------------------------------------------------------------------------
  // More producers or consumers
  // ---------------------------------------------------------------------------

  /** A run whose intermediate states are listed ends in the last of them. */
  lemma {:induction false} ExecStates(s: System, run: seq<Action>, states: seq<System>)
    requires WellFormed(s)
    requires |states| == |run| + 1 && states[0] == s
    requires forall i :: 0 <= i < |run| ==> WellFormed(states[i]) && states[i + 1] == Step(states[i], run[i])
    ensures Exec(s, run) == states[|run|]
  {
    if run != [] {
      var n := |run| - 1;
      ExecStates(s, run[..n], states[..n + 1]);
    }
  }

  function LostUpdateRun(): (r: seq<Action>) {
    [Produce(0, 1), Produce(0, 0), Produce(1, 2), Produce(1, 0),
     Produce(0, 0), Produce(0, 0), Produce(1, 0), Produce(1, 0)]
  }

  /** Two producers that load the same head both publish it: one accepted message is gone. */
  lemma TwoProducersLoseMessage(capacity: nat, producers: nat, consumers: nat)
    requires 2 <= capacity && 2 <= producers
    ensures var s := Exec(Init(capacity, producers, consumers), LostUpdateRun());
            && !Linearized(s)
            && Accepted(s.log) == [1, 2] && Delivered(s.log) == [] && Contents(s.ring) == [2]
  {
    var s0 := Init(capacity, producers, consumers);
    var s1 := ProducerStep(s0, 0, 1);
    var s2 := ProducerStep(s1, 0, 0);
    var s3 := ProducerStep(s2, 1, 2);
    var s4 := ProducerStep(s3, 1, 0);
    assert s4.producers[0] == PHasRoom(1, 0) && s4.producers[1] == PHasRoom(2, 0);
    var s5 := ProducerStep(s4, 0, 0);
    var s6 := ProducerStep(s5, 0, 0);
    assert s6.producers[1] == PHasRoom(2, 0) && s6.log == Then(Nothing, Enqueued(1));
    var s7 := ProducerStep(s6, 1, 0);
    var s8 := ProducerStep(s7, 1, 0);
    ExecStates(s0, LostUpdateRun(), [s0, s1, s2, s3, s4, s5, s6, s7, s8]);
    assert s8.log == Then(Then(Nothing, Enqueued(1)), Enqueued(2)) && Unread(s8.ring) == 1 && s8.ring.slots[0] == 2;
    LostMessage(capacity, s8);
  }

  /** Two accepted, none delivered, and one slot to read: the first message is gone. */
  lemma LostMessage(capacity: nat, s: System)
    requires WellFormed(s) && 2 <= capacity == s.ring.capacity && s.log == Then(Then(Nothing, Enqueued(1)), Enqueued(2))
    requires s.ring.tail == 0 && s.ring.head == 1 && s.ring.slots[0] == 2
    ensures !Linearized(s) && Accepted(s.log) == [1, 2] && Delivered(s.log) == [] && Contents(s.ring) == [2]
  {
    OneMessage(capacity - 1, 1);
    assert [1] + [2] == [1, 2];
  }

  lemma OneMessage(bound: nat, m: Message)
    requires 1 <= bound
    ensures Replay(bound, Then(Nothing, Enqueued(m))) == Some([m])
    ensures Accepted(Then(Nothing, Enqueued(m))) == [m] && Delivered(Then(Nothing, Enqueued(m))) == []
  {
    assert [] + [m] == [m];
  }

  /** Producer 0 alone, up to and including the store that publishes message 1. */
  function PublishRun(): (r: seq<Action>) {
    [Produce(0, 1), Produce(0, 0), Produce(0, 0), Produce(0, 0)]
  }

  lemma Published(capacity: nat, producers: nat, consumers: nat)
    requires 2 <= capacity && 1 <= producers
    ensures var s := Exec(Init(capacity, producers, consumers), PublishRun());
            && s.ring.head == 1 && s.ring.tail == 0 && s.ring.slots[0] == 1
            && s.log == Then(Nothing, Enqueued(1)) && s.stats == Stats(0, 0, 0, 0)
            && s.consumers == seq(consumers, _ => CIdle)
  {
    var s0 := Init(capacity, producers, consumers);
    var s1 := ProducerStep(s0, 0, 1);
    var s2 := ProducerStep(s1, 0, 0);
    var s3 := ProducerStep(s2, 0, 0);
    var s4 := ProducerStep(s3, 0, 0);
    ExecStates(s0, PublishRun(), [s0, s1, s2, s3, s4]);
  }

  /** Consumer `c` alone, up to and including the copy of the oldest message. */
  function CopyRun(c: nat): (r: seq<Action>) {
    [Consume(c), Consume(c), Consume(c)]
  }

  lemma LoadsSeeMessage(s: System, c: nat)
    requires WellFormed(s) && c < |s.consumers| && s.consumers[c].CIdle? && s.ring.head != s.ring.tail
    ensures Exec(s, [Consume(c), Consume(c)]) == s.(consumers := s.consumers[c := CNonEmpty(s.ring.tail)])
  {
    var t := s.(consumers := s.consumers[c := CLoadedHead(s.ring.head, false)]);
    assert Step(s, Consume(c)) == t;
    assert t.consumers[c := CNonEmpty(s.ring.tail)] == s.consumers[c := CNonEmpty(s.ring.tail)];
    ExecTwo(s, Consume(c), Consume(c));
  }

  lemma CopiesSlot(s: System, t: System, c: nat)
    requires WellFormed(s) && c < |s.consumers|
    requires t == s.(consumers := s.consumers[c := CNonEmpty(s.ring.tail)])
    ensures Step(t, Consume(c)) == s.(consumers := s.consumers[c := CCopied(s.ring.tail, s.ring.slots[s.ring.tail])])
  {
    Overwritten(s.consumers, c, CNonEmpty(s.ring.tail), CCopied(s.ring.tail, s.ring.slots[s.ring.tail]));
  }

  lemma Copied(s: System, c: nat)
    requires WellFormed(s) && c < |s.consumers| && s.consumers[c].CIdle? && s.ring.head != s.ring.tail
    ensures Exec(s, CopyRun(c))
            == s.(consumers := s.consumers[c := CCopied(s.ring.tail, s.ring.slots[s.ring.tail])])
  {
    LoadsSeeMessage(s, c);
    CopiesSlot(s, Exec(s, [Consume(c), Consume(c)]), c);
    OneMore(s, c);
  }

  lemma OneMore(s: System, c: nat)
    requires WellFormed(s)
    ensures Exec(s, CopyRun(c)) == Step(Exec(s, [Consume(c), Consume(c)]), Consume(c))
  {
    ExecSnoc(s, [Consume(c), Consume(c)], Consume(c));
    assert [Consume(c), Consume(c)] + [Consume(c)] == CopyRun(c);
  }

  lemma ExecSnoc(s: System, run: seq<Action>, a: Action)
    requires WellFormed(s)
    ensures Exec(s, run + [a]) == Step(Exec(s, run), a)
  {
    assert (run + [a])[..|run + [a]| - 1] == run;
  }

  lemma ExecTwo(s: System, a: Action, b: Action)
    requires WellFormed(s)
    ensures Exec(s, [a, b]) == Step(Step(s, a), b)
  {
    ExecSnoc(s, [a], b);
    ExecSnoc(s, [], a);
    assert [a] + [b] == [a, b] && [] + [a] == [a];
  }

  function DoubleDeliveryRun(): (r: seq<Action>) {
    PublishRun() + CopyRun(0) + CopyRun(1) + [Consume(0), Consume(1)]
  }

  /** Both consumers have copied the one message and not yet moved the tail. */
  lemma BothCopied(capacity: nat, producers: nat, consumers: nat) returns (s: System)
    requires 2 <= capacity && 1 <= producers && 2 <= consumers
    ensures s == Exec(Init(capacity, producers, consumers), PublishRun() + CopyRun(0) + CopyRun(1))
    ensures |s.consumers| == consumers && s.consumers[0] == s.consumers[1] == CCopied(0, 1)
    ensures WellFormed(s) && s.ring.capacity == capacity && s.log == Then(Nothing, Enqueued(1))
  {
    var init := Init(capacity, producers, consumers);
    Published(capacity, producers, consumers);
    ExecAppend(init, PublishRun(), CopyRun(0));
    ExecAppend(init, PublishRun() + CopyRun(0), CopyRun(1));
    s := CopyTwice(Exec(init, PublishRun()));
  }

  lemma CopyTwice(s: System) returns (u: System)
    requires WellFormed(s) && 2 <= |s.consumers| && s.consumers[0] == s.consumers[1] == CIdle
    requires s.ring.head != s.ring.tail
    ensures u == Exec(Exec(s, CopyRun(0)), CopyRun(1)) && WellFormed(u)
    ensures |u.consumers| == |s.consumers| && u.ring == s.ring && u.log == s.log
    ensures u.consumers[0] == u.consumers[1] == CCopied(s.ring.tail, s.ring.slots[s.ring.tail])
  {
    Copied(s, 0);
    var t := s.(consumers := s.consumers[0 := CCopied(s.ring.tail, s.ring.slots[s.ring.tail])]);
    Copied(t, 1);
    u := t.(consumers := t.consumers[1 := CCopied(s.ring.tail, s.ring.slots[s.ring.tail])]);
  }

  lemma BothRelease(s: System) returns (u: System)
    requires WellFormed(s) && 2 <= |s.consumers| && s.consumers[0] == s.consumers[1] == CCopied(0, 1)
    ensures u == Exec(s, [Consume(0), Consume(1)]) && WellFormed(u) && u.ring.capacity == s.ring.capacity
    ensures u.log == Then(Then(s.log, Dequeued(1)), Dequeued(1))
  {
    ExecTwo(s, Consume(0), Consume(1));
    u := Step(Step(s, Consume(0)), Consume(1));
  }

  /** Two consumers that load the same tail both deliver the message in it. */
  lemma TwoConsumersDeliverTwice(capacity: nat, producers: nat, consumers: nat)
    requires 2 <= capacity && 1 <= producers && 2 <= consumers
    ensures var s := Exec(Init(capacity, producers, consumers), DoubleDeliveryRun());
            !Linearized(s) && Accepted(s.log) == [1] && Delivered(s.log) == [1, 1]
  {
    var s := BothCopied(capacity, producers, consumers);
    var u := BothRelease(s);
    ExecAppend(Init(capacity, producers, consumers), PublishRun() + CopyRun(0) + CopyRun(1), [Consume(0), Consume(1)]);
    DeliveredTwice(capacity - 1, u.log);
  }

  lemma DeliveredTwice(bound: nat, log: Log)
    requires 1 <= bound && log == Then(Then(Then(Nothing, Enqueued(1)), Dequeued(1)), Dequeued(1))
    ensures Replay(bound, log).None?
    ensures Accepted(log) == [1] && Delivered(log) == [1, 1]
  {
    OneMessage(bound, 1);
    assert [1][1..] == [] && [] + [1] == [1] && [1] + [1] == [1, 1];
  }

  lemma {:induction false} ExecAppend(s: System, left: seq<Action>, right: seq<Action>)
    requires WellFormed(s)
    ensures Exec(s, left + right) == Exec(Exec(s, left), right)
    decreases |right|
  {
    if right == [] {
      assert left + right == left;
    } else {
      var all := left + right;
      assert all[..|all| - 1] == left + right[..|right| - 1];
      ExecAppend(s, left, right[..|right| - 1]);
    }
  }

  /** With nobody to produce, the ring stays empty whatever the consumers do. */
  ghost predicate Drained(s: System) {
    && WellFormed(s)
    && s.producers == []
    && s.ring.head == s.ring.tail
    && Replay(s.ring.capacity - 1, s.log) == Some([])
    && forall i :: 0 <= i < |s.consumers| ==>
         s.consumers[i] == CIdle || s.consumers[i] == CLoadedHead(s.ring.head, true)
  }

  lemma {:induction false} ConsumersAlone(capacity: nat, consumers: nat, run: seq<Action>)
    requires 1 <= capacity
    ensures Drained(Exec(Init(capacity, 0, consumers), run))
    ensures Linearized(Exec(Init(capacity, 0, consumers), run))
  {
    if run != [] {
      ConsumersAlone(capacity, consumers, run[..|run| - 1]);
      DrainedStep(Exec(Init(capacity, 0, consumers), run[..|run| - 1]), run[|run| - 1]);
    }
    DrainedIsEmpty(Exec(Init(capacity, 0, consumers), run));
  }

  lemma DrainedStep(s: System, a: Action)
    requires Drained(s)
    ensures Drained(Step(s, a))
  {
    if a.Consume? && a.c < |s.consumers| {
      DrainedConsume(s, a.c);
    }
  }

  lemma DrainedConsume(s: System, c: nat)
    requires Drained(s) && c < |s.consumers|
    ensures Drained(ConsumerStep(s, c))
  {
    if s.consumers[c].CIdle? {
      DrainedLoad(s, c);
    } else {
      DrainedGiveUp(s, c);
    }
  }

  lemma DrainedLoad(s: System, c: nat)
    requires Drained(s) && c < |s.consumers| && s.consumers[c].CIdle?
    ensures Drained(ConsumerStep(s, c))
  {
    assert ConsumerStep(s, c).log == Then(s.log, Empty);
    assert ConsumerStep(s, c).consumers == s.consumers[c := CLoadedHead(s.ring.head, true)];
  }

  lemma DrainedGiveUp(s: System, c: nat)
    requires Drained(s) && c < |s.consumers| && !s.consumers[c].CIdle?
    ensures Drained(ConsumerStep(s, c))
  {
    assert s.consumers[c] == CLoadedHead(s.ring.head, true);
    assert ConsumerStep(s, c) == s.(consumers := s.consumers[c := CIdle]);
  }

  lemma DrainedIsEmpty(s: System)
    requires Drained(s)
    ensures Linearized(s)
  {
    assert Contents(s.ring) == [];
  }

  /**
   * Exactly how many callers the ring tolerates: every interleaving is a FIFO
   * history if and only if nobody produces, or one producer meets at most one
   * consumer.
   */
  lemma CallersTolerated(capacity: nat, producers: nat, consumers: nat)
    requires 2 <= capacity
    ensures (forall run :: Linearized(Exec(Init(capacity, producers, consumers), run)))
            <==> producers == 0 || (producers == 1 && consumers <= 1)
  {
    if producers == 0 {
      forall run ensures Linearized(Exec(Init(capacity, producers, consumers), run)) {
        ConsumersAlone(capacity, consumers, run);
      }
    } else if producers == 1 && consumers <= 1 {
      forall run ensures Linearized(Exec(Init(capacity, producers, consumers), run)) {
        ReachableInv(capacity, producers, consumers, run);
      }
    } else if producers == 1 {
      TwoConsumersDeliverTwice(capacity, producers, consumers);
    } else {
      TwoProducersLoseMessage(capacity, producers, consumers);
    }
  }

  /** `msg_count` can pass below zero: the consumer may decrement it before the producer's increment. */
  lemma CountWrapsInFlight(capacity: nat)
    requires 2 <= capacity
    ensures var run := PublishRun() + CopyRun(0) + [Consume(0), Consume(0)];
            Exec(Init(capacity, 1, 1), run).stats.msgCount == COUNTER_MODULUS - 1
  {
    var init, copied := Init(capacity, 1, 1), PublishRun() + CopyRun(0);
    MessageCopied(capacity);
    CountedDown(Exec(init, copied));
    ExecAppend(init, copied, [Consume(0), Consume(0)]);
  }

  lemma MessageCopied(capacity: nat)
    requires 2 <= capacity
    ensures var s := Exec(Init(capacity, 1, 1), PublishRun() + CopyRun(0));
            |s.consumers| == 1 && s.consumers[0].CCopied? && s.stats.msgCount == 0
  {
    Published(capacity, 1, 1);
    var s := Exec(Init(capacity, 1, 1), PublishRun());
    Copied(s, 0);
    ExecAppend(Init(capacity, 1, 1), PublishRun(), CopyRun(0));
  }

  lemma CountedDown(s: System)
    requires WellFormed(s) && |s.consumers| == 1 && s.consumers[0].CCopied? && s.stats.msgCount == 0
    ensures Exec(s, [Consume(0), Consume(0)]).stats.msgCount == COUNTER_MODULUS - 1
  {
    ExecTwo(s, Consume(0), Consume(0));
  }
}
