/**
 * What the memory server's state is as a function of the whole run: the MESI
 * record and the pending queue of each line, the condition under which no pending
 * entry is ever copied back, and the bytes every read then returns.
 */
module ServerHistory {
  import opened Wrappers
  import opened CacheLines
  import opened MemoryServer
  import opened Words

  // ---------------------------------------------------------------------------
  // The MESI record of a line
  // ---------------------------------------------------------------------------

  datatype LineEvent = ReadBy(tid: nat) | TakenBy(tid: nat)

  /** How a request touches its line: a compare-and-swap takes it only where it finds the expected value in memory. */
  function EventOf(s: Server, q: Request): (r: Option<LineEvent>)
    requires ServerOk(s) && Legal(s.config, q)
  {
    match q
    case Read(tid, addr, _, _) => if ValidAddress(s.config, addr) then Some(ReadBy(tid)) else None
    case Write(tid, addr, _, _, _) => if ValidAddress(s.config, addr) then Some(TakenBy(tid)) else None
    case Faa(tid, _, _, _) => Some(TakenBy(tid))
    case Cas(tid, addr, _, expected, _) => if WordAt(s.mem, addr) == expected then Some(TakenBy(tid)) else None
    case Fence(_) => None
  }

  function Events(c: Config, image: seq<Byte>, run: seq<Request>, line: nat): (r: seq<LineEvent>)
    requires Image(c, image) && AllLegal(c, run)
  {
    if run == [] then []
    else
      var before, q := run[..|run| - 1], run[|run| - 1];
      var e := EventOf(Exec(c, image, before), q);
      Events(c, image, before, line) + (if LineOf(q.addr) == line && e.Some? then [e.value] else [])
  }

  function LastTaken(ev: seq<LineEvent>): (r: int)
    ensures -1 <= r < |ev|
    ensures 0 <= r ==> ev[r].TakenBy?
    ensures forall i :: r < i < |ev| ==> ev[i].ReadBy?
  {
    if ev == [] then -1
    else if ev[|ev| - 1].TakenBy? then |ev| - 1
    else LastTaken(ev[..|ev| - 1])
  }

  /** Every thread with a copy: the last taker and all readers since (all readers, if never taken). */
  function Holders(ev: seq<LineEvent>): (r: set<int>) {
    var from := if LastTaken(ev) < 0 then 0 else LastTaken(ev);
    set i | from <= i < |ev| :: ev[i].tid
  }

  /** Modified by the last taker until any read; then shared by it and all readers since. */
  predicate Matches(l: Line, ev: seq<LineEvent>) {
    if ev == [] then l.state == Invalid && l.owner == NO_OWNER && l.sharers == {}
    else if ev[|ev| - 1].TakenBy? then l.state == Modified && l.owner == ev[|ev| - 1].tid && l.sharers == {}
    else l.state == Shared && l.owner == NO_OWNER && l.sharers == Holders(ev)
  }

  lemma HoldersSnoc(ev: seq<LineEvent>, e: LineEvent)
    ensures Holders(ev + [e]) == if e.TakenBy? then {e.tid} else Holders(ev) + {e.tid}
  {
    var fv := ev + [e];
    assert fv[..|fv| - 1] == ev;
    assert fv[|ev|] == e;
    forall n: int ensures n in Holders(fv) <==> if e.TakenBy? then n == e.tid else n in Holders(ev) || n == e.tid {
      if e.ReadBy? && n in Holders(ev) {
        var from := if LastTaken(ev) < 0 then 0 else LastTaken(ev);
        var i :| from <= i < |ev| && ev[i].tid == n;
        assert fv[i].tid == n;
      }
      if n in Holders(fv) {
        var from := if LastTaken(fv) < 0 then 0 else LastTaken(fv);
        var i :| from <= i < |fv| && fv[i].tid == n;
        assert i < |ev| ==> ev[i].tid == n;
      }
    }
  }

  lemma {:induction false} LastTakenHolds(ev: seq<LineEvent>)
    requires ev != [] && ev[|ev| - 1].TakenBy?
    ensures Holders(ev) == {ev[|ev| - 1].tid}
  {
    HoldersSnoc(ev[..|ev| - 1], ev[|ev| - 1]);
    assert ev[..|ev| - 1] + [ev[|ev| - 1]] == ev;
  }

  lemma MesiRead(l: Line, ev: seq<LineEvent>, tid: nat)
    requires Matches(l, ev)
    ensures Matches(ReadMesi(l, tid), ev + [ReadBy(tid)])
  {
    HoldersSnoc(ev, ReadBy(tid));
    if ev != [] && ev[|ev| - 1].TakenBy? {
      LastTakenHolds(ev);
    }
  }

  lemma MesiWrite(l: Line, ev: seq<LineEvent>, tid: nat)
    requires Matches(l, ev)
    ensures Matches(WriteMesi(l, tid), ev + [TakenBy(tid)])
    ensures Matches(TakeMesi(l, tid), ev + [TakenBy(tid)])
    ensures Targets(l, tid) == Holders(ev) - {tid}
    ensures InvalidationCount(l, tid) == |Holders(ev) - {tid}|
  {
    if ev != [] && ev[|ev| - 1].TakenBy? {
      LastTakenHolds(ev);
      assert Holders(ev) - {tid} == if l.owner == tid then {} else {l.owner};
    }
  }

  /** A request leaves every other line's record and queue alone. */
  lemma OtherLines(s: Server, q: Request, line: nat)
    requires ServerOk(s) && Legal(s.config, q) && LineOf(q.addr) != line
    ensures MetaAt(Step(s, q).0, line) == MetaAt(s, line)
    ensures PendingAt(Step(s, q).0, line) == PendingAt(s, line)
  {
  }

  lemma ReadStep(s: Server, q: Request, ev: seq<LineEvent>)
    requires ServerOk(s) && q.Read? && ValidAddress(s.config, q.addr) && Matches(MetaAt(s, LineOf(q.addr)), ev)
    ensures Matches(MetaAt(StepRead(s, q).0, LineOf(q.addr)), ev + [ReadBy(q.tid)])
  {
    MesiRead(MetaAt(s, LineOf(q.addr)), ev, q.tid);
  }

  lemma WriteStep(s: Server, q: Request, ev: seq<LineEvent>)
    requires ServerOk(s) && q.Write? && |q.data| == LINE_SIZE
    requires ValidAddress(s.config, q.addr) && Matches(MetaAt(s, LineOf(q.addr)), ev)
    ensures Matches(MetaAt(StepWrite(s, q).0, LineOf(q.addr)), ev + [TakenBy(q.tid)])
  {
    MesiWrite(MetaAt(s, LineOf(q.addr)), ev, q.tid);
  }

  lemma AtomicStep(s: Server, q: Request, ev: seq<LineEvent>)
    requires ServerOk(s) && (q.Faa? || q.Cas?) && Legal(s.config, q) && Matches(MetaAt(s, LineOf(q.addr)), ev)
    ensures var took := q.Faa? || WordAt(s.mem, q.addr) == q.expected;
            Matches(MetaAt(StepAtomic(s, q).0, LineOf(q.addr)), if took then ev + [TakenBy(q.tid)] else ev)
  {
    MesiWrite(MetaAt(s, LineOf(q.addr)).(lastAccess := q.time), ev, q.tid);
  }

  lemma MesiStep(s: Server, q: Request, ev: seq<LineEvent>)
    requires ServerOk(s) && Legal(s.config, q) && Matches(MetaAt(s, LineOf(q.addr)), ev)
    ensures var e := EventOf(s, q);
            Matches(MetaAt(Step(s, q).0, LineOf(q.addr)), if e.Some? then ev + [e.value] else ev)
  {
    match q
    case Read(_, addr, _, _) => if ValidAddress(s.config, addr) { ReadStep(s, q, ev); }
    case Write(_, addr, _, _, _) => if ValidAddress(s.config, addr) { WriteStep(s, q, ev); }
    case Fence(_) =>
    case _ => AtomicStep(s, q, ev);
  }

  /** After every run each line's record is fixed by the requests that touched it; -1 never becomes a sharer. */
  lemma {:induction false} MesiIsHistory(c: Config, image: seq<Byte>, run: seq<Request>, line: nat)
    requires Image(c, image) && AllLegal(c, run)
    ensures Matches(MetaAt(Exec(c, image, run), line), Events(c, image, run, line))
  {
    if run != [] {
      var before, q := run[..|run| - 1], run[|run| - 1];
      MesiIsHistory(c, image, before, line);
      var s, ev := Exec(c, image, before), Events(c, image, before, line);
      if LineOf(q.addr) == line {
        MesiStep(s, q, ev);
      } else {
        OtherLines(s, q, line);
      }
      assert ev + [] == ev;
    }
  }

  // ---------------------------------------------------------------------------
  // Bytes
  // ---------------------------------------------------------------------------

  /** The byte last put at `loc`, or the initial one. */
  function LastByte(image: seq<Byte>, puts: seq<Put>, loc: nat): (r: Byte)
    requires loc < |image|
  {
    if puts == [] then image[loc]
    else if puts[|puts| - 1].loc == loc then puts[|puts| - 1].byte
    else LastByte(image, puts[..|puts| - 1], loc)
  }

  lemma {:induction false} ApplyIsLastByte(image: seq<Byte>, puts: seq<Put>, loc: nat)
    requires loc < |image|
    ensures Apply(image, puts)[loc] == LastByte(image, puts, loc)
  {
    if puts != [] {
      ApplyIsLastByte(image, puts[..|puts| - 1], loc);
    }
  }

  lemma MemoryIsLastBytes(image: seq<Byte>, puts: seq<Put>)
    ensures forall loc :: 0 <= loc < |image| ==> Apply(image, puts)[loc] == LastByte(image, puts, loc)
  {
    forall loc | 0 <= loc < |image| ensures Apply(image, puts)[loc] == LastByte(image, puts, loc) {
      ApplyIsLastByte(image, puts, loc);
    }
  }

  lemma {:induction false} LastPutWins(image: seq<Byte>, puts: seq<Put>, i: nat)
    requires i < |puts| && puts[i].loc < |image|
    requires forall j :: i < j < |puts| ==> puts[j].loc != puts[i].loc
    ensures Apply(image, puts)[puts[i].loc] == puts[i].byte
  {
    if i < |puts| - 1 {
      LastPutWins(image, puts[..|puts| - 1], i);
    }
  }

  /** An accepted copy never puts two of its bytes in the same place. */
  lemma CopySpreads(c: Config, addr: nat, size: nat, i: nat, j: nat)
    requires 1 <= c.lines && Accepts(c, addr, size) && i < j < size
    ensures Loc(c, addr + i) != Loc(c, addr + j)
  {
    StaysInRegion(c, addr, size, i);
    StaysInRegion(c, addr, size, j);
    OffsetsDiffer(addr, i, j);
  }

  lemma StaysInRegion(c: Config, addr: nat, size: nat, i: nat)
    requires Accepts(c, addr, size) && i < size
    ensures InRegion(c, addr + i)
  {
    if c.base != 0 {
      SameLine(addr, i);
    }
  }

  lemma SameLine(addr: nat, i: nat)
    requires addr % LINE_SIZE + i < LINE_SIZE
    ensures LineOf(addr + i) == LineOf(addr) && (addr + i) % LINE_SIZE == addr % LINE_SIZE + i
  {
  }

  lemma OffsetsDiffer(addr: nat, i: nat, j: nat)
    requires i < j < i + LINE_SIZE
    ensures (addr + i) % LINE_SIZE != (addr + j) % LINE_SIZE
  {
  }

  /** What a write stores is what it reads back. */
  lemma ReadBack(c: Config, mem: seq<Byte>, addr: nat, data: seq<Byte>)
    requires Image(c, mem) && Accepts(c, addr, |data|)
    ensures Copy(c, Apply(mem, Puts(c, addr, data)), addr, |data|) == data
  {
    var back := Copy(c, Apply(mem, Puts(c, addr, data)), addr, |data|);
    forall i | 0 <= i < |data| ensures back[i] == data[i] {
      ByteBack(c, mem, addr, data, i);
    }
    assert |back| == |data|;
  }

  lemma ByteBack(c: Config, mem: seq<Byte>, addr: nat, data: seq<Byte>, i: nat)
    requires Image(c, mem) && Accepts(c, addr, |data|) && i < |data|
    ensures Apply(mem, Puts(c, addr, data))[Loc(c, addr + i)] == data[i]
  {
    var puts := Puts(c, addr, data);
    forall j | i < j < |data| ensures puts[j].loc != puts[i].loc {
      CopySpreads(c, addr, |data|, i, j);
    }
    assert puts[i].loc == Loc(c, addr + i);
    LastPutWins(mem, puts, i);
  }

  // ---------------------------------------------------------------------------
  // The pending queue and the last access time
  // ---------------------------------------------------------------------------

  /** The entries waiting for a line: those left by the writes since its last read, one per copy taken away. */
  function Waiting(c: Config, image: seq<Byte>, run: seq<Request>, line: nat): (r: seq<Pending>)
    requires Image(c, image) && AllLegal(c, run)
  {
    if run == [] then []
    else
      var before, q := run[..|run| - 1], run[|run| - 1];
      var w := Waiting(c, image, before, line);
      if LineOf(q.addr) != line || (!q.Read? && !q.Write?) || !ValidAddress(c, q.addr) then w
      else if q.Read? then []
      else if Accepts(c, q.addr, Clamp(q.size)) then
        w + seq(|Holders(Events(c, image, before, line)) - {q.tid}|,
                _ => Pending(q.tid, q.time, q.data[..Clamp(q.size)]))
      else w
  }

  /** The time of the last request that completed on a line. */
  function LastTime(c: Config, run: seq<Request>, line: nat): (r: nat) {
    if run == [] then 0
    else
      var q := run[|run| - 1];
      if LineOf(q.addr) == line && Completes(c, q) then q.time else LastTime(c, run[..|run| - 1], line)
  }

  predicate Completes(c: Config, q: Request) {
    match q
    case Fence(_) => false
    case Faa(_, _, _, _) => true
    case Cas(_, _, _, _, _) => true
    case _ => ValidAddress(c, q.addr) && Accepts(c, q.addr, Clamp(q.size))
  }

  lemma WaitingWrite(s: Server, q: Request, ev: seq<LineEvent>, w: seq<Pending>)
    requires ServerOk(s) && q.Write? && |q.data| == LINE_SIZE && ValidAddress(s.config, q.addr)
    requires Matches(MetaAt(s, LineOf(q.addr)), ev) && PendingAt(s, LineOf(q.addr)) == w
    ensures PendingAt(StepWrite(s, q).0, LineOf(q.addr))
            == if Accepts(s.config, q.addr, Clamp(q.size)) then
                 w + seq(|Holders(ev) - {q.tid}|, _ => Pending(q.tid, q.time, q.data[..Clamp(q.size)]))
               else w
  {
    MesiWrite(MetaAt(s, LineOf(q.addr)), ev, q.tid);
    if Accepts(s.config, q.addr, Clamp(q.size)) {
      ReadBack(s.config, s.mem, q.addr, q.data[..Clamp(q.size)]);
      var p := Pending(q.tid, q.time, q.data[..Clamp(q.size)]);
      assert |Holders(ev) - {q.tid}| == 0 ==> w + seq(|Holders(ev) - {q.tid}|, _ => p) == w;
    }
  }

  lemma TimeStep(s: Server, q: Request)
    requires ServerOk(s) && Legal(s.config, q)
    ensures MetaAt(Step(s, q).0, LineOf(q.addr)).lastAccess
            == if Completes(s.config, q) then q.time else MetaAt(s, LineOf(q.addr)).lastAccess
  {
  }

  /** The queue and the last access time of every line, after every run. */
  lemma {:induction false} QueueIsHistory(c: Config, image: seq<Byte>, run: seq<Request>, line: nat)
    requires Image(c, image) && AllLegal(c, run)
    ensures PendingAt(Exec(c, image, run), line) == Waiting(c, image, run, line)
    ensures MetaAt(Exec(c, image, run), line).lastAccess == LastTime(c, run, line)
  {
    if run != [] {
      var before, q := run[..|run| - 1], run[|run| - 1];
      QueueIsHistory(c, image, before, line);
      var s := Exec(c, image, before);
      if LineOf(q.addr) == line {
        TimeStep(s, q);
        MesiIsHistory(c, image, before, line);
        if q.Write? && ValidAddress(c, q.addr) {
          WaitingWrite(s, q, Events(c, image, before, line), Waiting(c, image, before, line));
        }
      } else {
        OtherLines(s, q, line);
      }
    }
  }

  // ---------------------------------------------------------------------------
  // When nothing is copied back
  // ---------------------------------------------------------------------------

  /** No entry waiting for the line that `q` reads is newer than the line's last completed request. */
  ghost predicate CalmRead(c: Config, image: seq<Byte>, before: seq<Request>, q: Request)
    requires Image(c, image) && AllLegal(c, before)
  {
    q.Read? && ValidAddress(c, q.addr) ==>
      var w := Waiting(c, image, before, LineOf(q.addr));
      forall j :: 0 <= j < |w| ==> w[j].time <= LastTime(c, before, LineOf(q.addr))
  }

  ghost predicate Calm(c: Config, image: seq<Byte>, run: seq<Request>)
    requires Image(c, image) && AllLegal(c, run)
  {
    forall k :: 0 <= k < |run| ==> CalmRead(c, image, run[..k], run[k])
  }

  lemma CalmSnoc(c: Config, image: seq<Byte>, run: seq<Request>)
    requires Image(c, image) && AllLegal(c, run) && run != []
    ensures var before := run[..|run| - 1];
            Calm(c, image, run) <==> Calm(c, image, before) && CalmRead(c, image, before, run[|run| - 1])
  {
    var before := run[..|run| - 1];
    forall k | 0 <= k < |before|
      ensures CalmRead(c, image, run[..k], run[k]) <==> CalmRead(c, image, before[..k], before[k])
    {
      assert before[..k] == run[..k];
    }
  }

  lemma {:induction false} WaitingFits(c: Config, image: seq<Byte>, run: seq<Request>, line: nat)
    requires Image(c, image) && AllLegal(c, run)
    ensures forall p :: p in Waiting(c, image, run, line) ==> Accepts(c, line, |p.data|)
  {
    if run != [] {
      WaitingFits(c, image, run[..|run| - 1], line);
    }
  }

  /** A drain copies nothing exactly when no entry is newer than the last access. */
  lemma {:induction false} DrainNothing(c: Config, line: nat, lastAccess: nat, q: seq<Pending>)
    requires 1 <= c.lines
    requires forall p :: p in q ==> Accepts(c, line, |p.data|)
    ensures DrainCount(c, line, lastAccess, q) == 0 <==> forall j :: 0 <= j < |q| ==> q[j].time <= lastAccess
    ensures DrainCount(c, line, lastAccess, q) == 0 ==> DrainPuts(c, line, lastAccess, q) == []
  {
    if q != [] {
      var rest, p := q[..|q| - 1], q[|q| - 1];
      DrainNothing(c, line, lastAccess, rest);
      assert forall j :: 0 <= j < |rest| ==> rest[j] == q[j];
      assert p in q;
    }
  }

  lemma ReadApplies(c: Config, image: seq<Byte>, before: seq<Request>, q: Request)
    requires Image(c, image) && AllLegal(c, before) && q.Read?
    ensures var s := Exec(c, image, before);
            && (CalmRead(c, image, before, q) <==> StepRead(s, q).0.applied == s.applied)
            && (CalmRead(c, image, before, q) ==> StepRead(s, q).0.mem == s.mem)
            && s.applied <= StepRead(s, q).0.applied
  {
    var line := LineOf(q.addr);
    QueueIsHistory(c, image, before, line);
    WaitingFits(c, image, before, line);
    DrainNothing(c, line, LastTime(c, before, line), Waiting(c, image, before, line));
  }

  lemma OnlyReadsApply(s: Server, q: Request)
    requires ServerOk(s) && Legal(s.config, q) && !q.Read?
    ensures Step(s, q).0.applied == s.applied
  {
  }

  /**
   * The exact condition: a run copies no back-invalidation over the memory if and
   * only if, at each of its reads, every entry waiting for the line is no newer than
   * the last request completed on it.
   */
  lemma {:induction false} NothingAppliedIffCalm(c: Config, image: seq<Byte>, run: seq<Request>)
    requires Image(c, image) && AllLegal(c, run)
    ensures Exec(c, image, run).applied == 0 <==> Calm(c, image, run)
  {
    if run != [] {
      var before, q := run[..|run| - 1], run[|run| - 1];
      NothingAppliedIffCalm(c, image, before);
      CalmSnoc(c, image, run);
      if q.Read? {
        ReadApplies(c, image, before, q);
      } else {
        OnlyReadsApply(Exec(c, image, before), q);
      }
    }
  }

  predicate SameLineTimes(run: seq<Request>, i: nat, j: nat)
    requires i < |run| && j < |run|
  {
    LineOf(run[i].addr) == LineOf(run[j].addr) && !run[i].Fence? && !run[j].Fence? ==> run[i].time <= run[j].time
  }

  /** On every line the times never decrease. */
  predicate Monotone(run: seq<Request>) {
    forall i, j :: 0 <= i < j < |run| ==> SameLineTimes(run, i, j)
  }

  lemma {:induction false} LastTimeAttained(c: Config, run: seq<Request>, line: nat)
    ensures LastTime(c, run, line) == 0 ||
            exists i :: 0 <= i < |run| && LineOf(run[i].addr) == line && !run[i].Fence?
                        && run[i].time == LastTime(c, run, line)
  {
    if run != [] {
      var before := run[..|run| - 1];
      LastTimeAttained(c, before, line);
      if LastTime(c, run, line) == LastTime(c, before, line) != 0 {
        var i :| 0 <= i < |before| && LineOf(before[i].addr) == line && !before[i].Fence?
                 && before[i].time == LastTime(c, before, line);
        assert run[i] == before[i];
      }
    }
  }

  /** With monotone times, every waiting entry is no newer than the line's last completed request. */
  lemma MonotonePrefix(run: seq<Request>, k: nat)
    requires Monotone(run) && k <= |run|
    ensures Monotone(run[..k])
  {
    forall i, j | 0 <= i < j < k ensures SameLineTimes(run[..k], i, j) {
      assert SameLineTimes(run, i, j);
    }
  }

  lemma LastTimeGrows(c: Config, run: seq<Request>, line: nat)
    requires Monotone(run) && run != []
    ensures LastTime(c, run[..|run| - 1], line) <= LastTime(c, run, line)
  {
    var before, q := run[..|run| - 1], run[|run| - 1];
    LastTimeAttained(c, before, line);
    if LineOf(q.addr) == line && Completes(c, q) && LastTime(c, before, line) != 0 {
      var i :| 0 <= i < |before| && LineOf(before[i].addr) == line && !before[i].Fence?
               && before[i].time == LastTime(c, before, line);
      assert SameLineTimes(run, i, |run| - 1);
    }
  }

  lemma {:induction false} MonotoneWaiting(c: Config, image: seq<Byte>, run: seq<Request>, line: nat)
    requires Image(c, image) && AllLegal(c, run) && Monotone(run)
    ensures forall p :: p in Waiting(c, image, run, line) ==> p.time <= LastTime(c, run, line)
  {
    if run != [] {
      MonotonePrefix(run, |run| - 1);
      MonotoneWaiting(c, image, run[..|run| - 1], line);
      LastTimeGrows(c, run, line);
    }
  }

  lemma MonotoneIsCalm(c: Config, image: seq<Byte>, run: seq<Request>)
    requires Image(c, image) && AllLegal(c, run) && Monotone(run)
    ensures Calm(c, image, run)
  {
    forall k | 0 <= k < |run| ensures CalmRead(c, image, run[..k], run[k]) {
      MonotonePrefix(run, k);
      MonotoneWaiting(c, image, run[..k], LineOf(run[k].addr));
    }
  }

  // ---------------------------------------------------------------------------
  // What reads return
  // ---------------------------------------------------------------------------

  function LastWord(image: seq<Byte>, puts: seq<Put>, addr: nat): (r: nat)
    requires addr + 8 <= |image|
  {
    Decode(seq<Byte>(8, i requires 0 <= i < 8 => LastByte(image, puts, addr + i)))
  }

  /** The bytes a request stores, given what was stored before it. */
  function Stores(c: Config, image: seq<Byte>, puts: seq<Put>, q: Request): (r: seq<Put>)
    requires Image(c, image) && Legal(c, q)
  {
    match q
    case Write(_, addr, size, _, data) =>
      if ValidAddress(c, addr) && Accepts(c, addr, Clamp(size)) then Puts(c, addr, data[..Clamp(size)]) else []
    case Faa(_, addr, value, _) => WordPuts(addr, WordSum(LastWord(image, puts, addr), value))
    case Cas(_, addr, value, expected, _) =>
      if LastWord(image, puts, addr) == expected then WordPuts(addr, value) else []
    case _ => []
  }

  /** Everything stored by a run, in order; no queue in sight. */
  function AllStores(c: Config, image: seq<Byte>, run: seq<Request>): (r: seq<Put>)
    requires Image(c, image) && AllLegal(c, run)
  {
    if run == [] then []
    else
      var puts := AllStores(c, image, run[..|run| - 1]);
      puts + Stores(c, image, puts, run[|run| - 1])
  }

  lemma WordIsLast(c: Config, image: seq<Byte>, puts: seq<Put>, addr: nat)
    requires addr + 8 <= |image|
    ensures WordAt(Apply(image, puts), addr) == LastWord(image, puts, addr)
  {
    MemoryIsLastBytes(image, puts);
    assert Apply(image, puts)[addr..addr + 8]
        == seq<Byte>(8, i requires 0 <= i < 8 => LastByte(image, puts, addr + i));
  }

  lemma WriteStores(c: Config, image: seq<Byte>, s: Server, puts: seq<Put>, q: Request)
    requires Image(c, image) && Legal(c, q) && (q.Write? || q.Fence?) && ServerOk(s) && s.config == c
    ensures Step(s, q).0.mem == Apply(s.mem, Stores(c, image, puts, q))
  {
  }

  lemma AtomicStores(c: Config, image: seq<Byte>, s: Server, puts: seq<Put>, q: Request)
    requires Image(c, image) && Legal(c, q) && (q.Faa? || q.Cas?) && ServerOk(s) && s.config == c
    requires WordAt(s.mem, q.addr) == LastWord(image, puts, q.addr)
    ensures Step(s, q).0.mem == Apply(s.mem, Stores(c, image, puts, q))
  {
  }

  lemma StepStores(c: Config, image: seq<Byte>, s: Server, puts: seq<Put>, q: Request)
    requires Image(c, image) && Legal(c, q) && !q.Read?
    requires ServerOk(s) && s.config == c && s.mem == Apply(image, puts)
    ensures Step(s, q).0.mem == Apply(image, puts + Stores(c, image, puts, q))
  {
    ApplyAppend(image, puts, Stores(c, image, puts, q));
    if q.Faa? || q.Cas? {
      WordIsLast(c, image, puts, q.addr);
      AtomicStores(c, image, s, puts, q);
    } else {
      WriteStores(c, image, s, puts, q);
    }
  }

  /** A calm run leaves in memory exactly what its writes and atomics stored, last store winning. */
  lemma {:induction false} CalmMemory(c: Config, image: seq<Byte>, run: seq<Request>)
    requires Image(c, image) && AllLegal(c, run) && Calm(c, image, run)
    ensures Exec(c, image, run).mem == Apply(image, AllStores(c, image, run))
  {
    if run != [] {
      var before, q := run[..|run| - 1], run[|run| - 1];
      CalmSnoc(c, image, run);
      CalmMemory(c, image, before);
      var puts := AllStores(c, image, before);
      if q.Read? {
        ReadApplies(c, image, before, q);
        assert puts + [] == puts;
      } else {
        StepStores(c, image, Exec(c, image, before), puts, q);
      }
    }
  }

  /** Every successful read of a calm run returns, byte by byte, what was last stored there. */
  lemma CalmReadReply(c: Config, image: seq<Byte>, run: seq<Request>, q: Request)
    requires Image(c, image) && AllLegal(c, run) && q.Read?
    requires Calm(c, image, run) && CalmRead(c, image, run, q)
    requires ValidAddress(c, q.addr) && Accepts(c, q.addr, Clamp(q.size))
    ensures var reply := StepRead(Exec(c, image, run), q).1;
            && reply.Bytes? && |reply.bytes| == Clamp(q.size)
            && forall i :: 0 <= i < Clamp(q.size) ==>
                 reply.bytes[i] == LastByte(image, AllStores(c, image, run), Loc(c, q.addr + i))
  {
    CalmMemory(c, image, run);
    ReadApplies(c, image, run, q);
    ReplyFromPuts(c, image, Exec(c, image, run), q, AllStores(c, image, run));
  }

  lemma CopyOfStores(c: Config, image: seq<Byte>, puts: seq<Put>, addr: nat, size: nat)
    requires Image(c, image)
    ensures var bytes := Copy(c, Apply(image, puts), addr, size);
            forall i :: 0 <= i < size ==> bytes[i] == LastByte(image, puts, Loc(c, addr + i))
  {
    var bytes := Copy(c, Apply(image, puts), addr, size);
    forall i | 0 <= i < size ensures bytes[i] == LastByte(image, puts, Loc(c, addr + i)) {
      ApplyIsLastByte(image, puts, Loc(c, addr + i));
    }
  }

  /**
   * In a run whose times never decrease on a line, every read that succeeds returns,
   * byte by byte, what the last write, fetch-and-add or successful compare-and-swap
   * put there.
   */
  lemma ReadsReturnLastStore(c: Config, image: seq<Byte>, run: seq<Request>, q: Request)
    requires Image(c, image) && AllLegal(c, run) && q.Read? && Monotone(run + [q])
    ensures var reply := Step(Exec(c, image, run), q).1;
            if ValidAddress(c, q.addr) && Accepts(c, q.addr, Clamp(q.size)) then
              && reply.Bytes? && |reply.bytes| == Clamp(q.size)
              && forall i :: 0 <= i < Clamp(q.size) ==>
                   reply.bytes[i] == LastByte(image, AllStores(c, image, run), Loc(c, q.addr + i))
            else reply == Failed
  {
    var all := run + [q];
    assert all[..|run|] == run && AllLegal(c, all);
    MonotoneIsCalm(c, image, all);
    CalmSnoc(c, image, all);
    if ValidAddress(c, q.addr) && Accepts(c, q.addr, Clamp(q.size)) {
      CalmReadReply(c, image, run, q);
    }
  }

  // ---------------------------------------------------------------------------
  // Every run, calm or not
  // ---------------------------------------------------------------------------

  /** The bytes a request changes: what it stores, or, for a read, the waiting entries newer than the last access. */
  function Changes(c: Config, image: seq<Byte>, before: seq<Request>, puts: seq<Put>, q: Request): (r: seq<Put>)
    requires Image(c, image) && AllLegal(c, before) && Legal(c, q)
  {
    if !q.Read? then Stores(c, image, puts, q)
    else if !ValidAddress(c, q.addr) then []
    else
      var line := LineOf(q.addr);
      DrainPuts(c, line, LastTime(c, before, line), Waiting(c, image, before, line))
  }

  /** All bytes changed by a run, in order. */
  function AllChanges(c: Config, image: seq<Byte>, run: seq<Request>): (r: seq<Put>)
    requires Image(c, image) && AllLegal(c, run)
  {
    if run == [] then []
    else
      var before, puts := run[..|run| - 1], AllChanges(c, image, run[..|run| - 1]);
      puts + Changes(c, image, before, puts, run[|run| - 1])
  }

  lemma ReadChanges(c: Config, image: seq<Byte>, run: seq<Request>, q: Request, puts: seq<Put>)
    requires Image(c, image) && AllLegal(c, run) && q.Read?
    requires Exec(c, image, run).mem == Apply(image, puts)
    ensures Step(Exec(c, image, run), q).0.mem == Apply(image, puts + Changes(c, image, run, puts, q))
  {
    QueueIsHistory(c, image, run, LineOf(q.addr));
    ApplyAppend(image, puts, Changes(c, image, run, puts, q));
    assert puts + [] == puts;
  }

  /** The memory after every run: the stores and the entries copied back, in order, last one winning. */
  lemma {:induction false} MemoryIsHistory(c: Config, image: seq<Byte>, run: seq<Request>)
    requires Image(c, image) && AllLegal(c, run)
    ensures Exec(c, image, run).mem == Apply(image, AllChanges(c, image, run))
  {
    if run != [] {
      var before, q := run[..|run| - 1], run[|run| - 1];
      MemoryIsHistory(c, image, before);
      var puts := AllChanges(c, image, before);
      if q.Read? {
        ReadChanges(c, image, before, q, puts);
      } else {
        StepStores(c, image, Exec(c, image, before), puts, q);
      }
    }
  }

  lemma ReplyFromMemory(s: Server, q: Request)
    requires ServerOk(s) && q.Read?
    ensures StepRead(s, q).1
            == if ValidAddress(s.config, q.addr) && Accepts(s.config, q.addr, Clamp(q.size)) then
                 Bytes(Copy(s.config, StepRead(s, q).0.mem, q.addr, Clamp(q.size)))
               else Failed
  {
  }

  lemma ReplyFromPuts(c: Config, image: seq<Byte>, s: Server, q: Request, puts: seq<Put>)
    requires Image(c, image) && ServerOk(s) && s.config == c && q.Read? && Step(s, q).0.mem == Apply(image, puts)
    ensures var reply := Step(s, q).1;
            if ValidAddress(c, q.addr) && Accepts(c, q.addr, Clamp(q.size)) then
              && reply.Bytes? && |reply.bytes| == Clamp(q.size)
              && forall i :: 0 <= i < Clamp(q.size) ==> reply.bytes[i] == LastByte(image, puts, Loc(c, q.addr + i))
            else reply == Failed
  {
    ReplyFromMemory(s, q);
    CopyOfStores(c, image, puts, q.addr, Clamp(q.size));
  }

  /** The reply to a read after every run: byte by byte the last change, those the read itself copies back included. */
  lemma RepliesAreHistory(c: Config, image: seq<Byte>, run: seq<Request>, q: Request)
    requires Image(c, image) && AllLegal(c, run) && q.Read?
    ensures var reply := Step(Exec(c, image, run), q).1;
            var puts := AllChanges(c, image, run) + Changes(c, image, run, AllChanges(c, image, run), q);
            if ValidAddress(c, q.addr) && Accepts(c, q.addr, Clamp(q.size)) then
              && reply.Bytes? && |reply.bytes| == Clamp(q.size)
              && forall i :: 0 <= i < Clamp(q.size) ==> reply.bytes[i] == LastByte(image, puts, Loc(c, q.addr + i))
            else reply == Failed
  {
    var before := AllChanges(c, image, run);
    MemoryIsHistory(c, image, run);
    ReadChanges(c, image, run, q, before);
    ReplyFromPuts(c, image, Exec(c, image, run), q, before + Changes(c, image, run, before, q));
  }

  /** The answer of an atomic after every run: the word it finds, whatever it does with it. */
  lemma AtomicReplies(c: Config, image: seq<Byte>, run: seq<Request>, q: Request)
    requires Image(c, image) && AllLegal(c, run) && Legal(c, q) && (q.Faa? || q.Cas?)
    ensures Step(Exec(c, image, run), q).1 == Old(LastWord(image, AllChanges(c, image, run), q.addr))
  {
    MemoryIsHistory(c, image, run);
    WordIsLast(c, image, AllChanges(c, image, run), q.addr);
    AnswersWord(Exec(c, image, run), q);
  }

  lemma AnswersWord(s: Server, q: Request)
    requires ServerOk(s) && Legal(s.config, q) && (q.Faa? || q.Cas?)
    ensures Step(s, q).1 == Old(WordAt(s.mem, q.addr))
  {
  }

  // ---------------------------------------------------------------------------
  // Counters, versions and known lines
  // ---------------------------------------------------------------------------

  /** How many entries of a queue are newer than a time. */
  function Newer(q: seq<Pending>, last: nat): (r: nat) {
    if q == [] then 0 else Newer(q[..|q| - 1], last) + if q[|q| - 1].time > last then 1 else 0
  }

  datatype Counts = Counts(invalidations: nat, downgrades: nat, applied: nat)

  /**
   * What a request counts, after the events and the waiting entries of its line: a write to
   * a valid address, the copies it takes from other threads; a read, the one writer it
   * downgrades and the entries it copies back.
   */
  function Counted(c: Config, n: Counts, q: Request, ev: seq<LineEvent>, w: seq<Pending>, last: nat): (r: Counts) {
    if !ValidAddress(c, q.addr) then n
    else if q.Write? then n.(invalidations := n.invalidations + |Holders(ev) - {q.tid}|)
    else if q.Read? then
      var downgraded := if ev != [] && ev[|ev| - 1].TakenBy? && ev[|ev| - 1].tid != q.tid then 1 else 0;
      n.(downgrades := n.downgrades + downgraded, applied := n.applied + Newer(w, last))
    else n
  }

  function CountsOf(c: Config, image: seq<Byte>, run: seq<Request>): (r: Counts)
    requires Image(c, image) && AllLegal(c, run)
  {
    if run == [] then Counts(0, 0, 0)
    else
      var before, q := run[..|run| - 1], run[|run| - 1];
      var line := LineOf(q.addr);
      Counted(c, CountsOf(c, image, before), q, Events(c, image, before, line), Waiting(c, image, before, line),
              LastTime(c, before, line))
  }

  lemma {:induction false} DrainCounts(c: Config, line: nat, last: nat, q: seq<Pending>)
    requires forall p :: p in q ==> Accepts(c, line, |p.data|)
    ensures DrainCount(c, line, last, q) == Newer(q, last)
  {
    if q != [] {
      assert q[|q| - 1] in q;
      DrainCounts(c, line, last, q[..|q| - 1]);
    }
  }

  function CountsIn(s: Server): (r: Counts) {
    Counts(s.invalidations, s.downgrades, s.applied)
  }

  lemma ReadCounts(s: Server, q: Request, ev: seq<LineEvent>, w: seq<Pending>)
    requires ServerOk(s) && q.Read? && ValidAddress(s.config, q.addr) && Matches(MetaAt(s, LineOf(q.addr)), ev)
    requires PendingAt(s, LineOf(q.addr)) == w && forall p :: p in w ==> Accepts(s.config, LineOf(q.addr), |p.data|)
    ensures CountsIn(StepRead(s, q).0)
            == Counted(s.config, CountsIn(s), q, ev, w, MetaAt(s, LineOf(q.addr)).lastAccess)
  {
    DrainCounts(s.config, LineOf(q.addr), MetaAt(s, LineOf(q.addr)).lastAccess, w);
  }

  lemma WriteCounts(s: Server, q: Request, ev: seq<LineEvent>)
    requires ServerOk(s) && q.Write? && |q.data| == LINE_SIZE && ValidAddress(s.config, q.addr)
    requires Matches(MetaAt(s, LineOf(q.addr)), ev)
    ensures CountsIn(StepWrite(s, q).0)
            == Counts(s.invalidations + |Holders(ev) - {q.tid}|, s.downgrades, s.applied)
  {
    MesiWrite(MetaAt(s, LineOf(q.addr)), ev, q.tid);
  }

  lemma StepCounts(s: Server, q: Request, ev: seq<LineEvent>, w: seq<Pending>, last: nat)
    requires ServerOk(s) && Legal(s.config, q) && Matches(MetaAt(s, LineOf(q.addr)), ev)
    requires PendingAt(s, LineOf(q.addr)) == w && forall p :: p in w ==> Accepts(s.config, LineOf(q.addr), |p.data|)
    requires last == MetaAt(s, LineOf(q.addr)).lastAccess
    ensures CountsIn(Step(s, q).0) == Counted(s.config, CountsIn(s), q, ev, w, last)
  {
    if q.Read? && ValidAddress(s.config, q.addr) {
      ReadCounts(s, q, ev, w);
    } else if q.Write? && ValidAddress(s.config, q.addr) {
      WriteCounts(s, q, ev);
    }
  }

  lemma CountsNext(c: Config, image: seq<Byte>, before: seq<Request>, q: Request) returns (s: Server)
    requires Image(c, image) && AllLegal(c, before) && Legal(c, q)
    ensures s == Exec(c, image, before)
    ensures var line := LineOf(q.addr);
            CountsIn(Step(s, q).0)
            == Counted(c, CountsIn(s), q, Events(c, image, before, line), Waiting(c, image, before, line),
                       LastTime(c, before, line))
  {
    var line := LineOf(q.addr);
    s := Exec(c, image, before);
    MesiIsHistory(c, image, before, line);
    QueueIsHistory(c, image, before, line);
    WaitingFits(c, image, before, line);
    StepCounts(s, q, Events(c, image, before, line), Waiting(c, image, before, line), LastTime(c, before, line));
  }

  /** The three counters after every run. */
  lemma {:induction false} CountersAreHistory(c: Config, image: seq<Byte>, run: seq<Request>)
    requires Image(c, image) && AllLegal(c, run)
    ensures CountsIn(Exec(c, image, run)) == CountsOf(c, image, run)
  {
    if run != [] {
      CountersAreHistory(c, image, run[..|run| - 1]);
      var s := CountsNext(c, image, run[..|run| - 1], run[|run| - 1]);
    }
  }

  /** How often atomics took a line. */
  function Takes(c: Config, image: seq<Byte>, run: seq<Request>, line: nat): (r: nat)
    requires Image(c, image) && AllLegal(c, run)
  {
    if run == [] then 0
    else
      var before, q := run[..|run| - 1], run[|run| - 1];
      var took := q.Faa? || (q.Cas? && WordAt(Exec(c, image, before).mem, q.addr) == q.expected);
      Takes(c, image, before, line) + if LineOf(q.addr) == line && took then 1 else 0
  }

  /** A request makes its line known, unless it is a read or a write of an address that is not valid. */
  predicate Known(c: Config, run: seq<Request>, line: nat) {
    exists i :: 0 <= i < |run| && LineOf(run[i].addr) == line
                && (run[i].Read? || run[i].Write? ==> ValidAddress(c, run[i].addr))
  }

  lemma VersionStep(s: Server, q: Request, takes: nat)
    requires ServerOk(s) && Legal(s.config, q) && MetaAt(s, LineOf(q.addr)).version == Low(takes)
    ensures var took := q.Faa? || (q.Cas? && WordAt(s.mem, q.addr) == q.expected);
            MetaAt(Step(s, q).0, LineOf(q.addr)).version == Low(if took then takes + 1 else takes)
  {
    LowNext(takes);
  }

  lemma LowNext(n: nat)
    ensures WordSum(Low(n), 1) == Low(n + 1)
  {
  }

  /** A line's version counts, modulo 2^64, the atomics that took it; a line is known if a request made it so. */
  lemma {:induction false} VersionIsHistory(c: Config, image: seq<Byte>, run: seq<Request>, line: nat)
    requires Image(c, image) && AllLegal(c, run)
    ensures MetaAt(Exec(c, image, run), line).version == Low(Takes(c, image, run, line))
    ensures line in Exec(c, image, run).meta <==> Known(c, run, line)
  {
    if run != [] {
      var before, q := run[..|run| - 1], run[|run| - 1];
      VersionIsHistory(c, image, before, line);
      KnownNext(c, run, line);
      var s := Exec(c, image, before);
      if LineOf(q.addr) == line {
        VersionStep(s, q, Takes(c, image, before, line));
      } else {
        OtherLines(s, q, line);
      }
    }
  }

  lemma KnownNext(c: Config, run: seq<Request>, line: nat)
    requires run != []
    ensures var q := run[|run| - 1];
            Known(c, run, line) <==>
              || Known(c, run[..|run| - 1], line)
              || (LineOf(q.addr) == line && (q.Read? || q.Write? ==> ValidAddress(c, q.addr)))
  {
    var before := run[..|run| - 1];
    if Known(c, before, line) {
      var i :| 0 <= i < |before| && LineOf(before[i].addr) == line
               && (before[i].Read? || before[i].Write? ==> ValidAddress(c, before[i].addr));
      assert run[i] == before[i];
    }
    if i :| 0 <= i < |run| && LineOf(run[i].addr) == line
            && (run[i].Read? || run[i].Write? ==> ValidAddress(c, run[i].addr)) {
      assert i < |before| ==> before[i] == run[i];
    }
  }

  // ---------------------------------------------------------------------------
  // Where times run backwards, and where the atomics look
  // ---------------------------------------------------------------------------

  /** The line's events and queue after a write that is carried out. */
  lemma AfterWrite(c: Config, image: seq<Byte>, run: seq<Request>, q: Request)
    requires Image(c, image) && AllLegal(c, run + [q]) && q.Write? && |q.data| == LINE_SIZE
    requires ValidAddress(c, q.addr) && Accepts(c, q.addr, Clamp(q.size))
    ensures AllLegal(c, run)
    ensures var line := LineOf(q.addr);
            && Events(c, image, run + [q], line) == Events(c, image, run, line) + [TakenBy(q.tid)]
            && Waiting(c, image, run + [q], line)
               == Waiting(c, image, run, line)
                  + seq(|Holders(Events(c, image, run, line)) - {q.tid}|,
                        _ => Pending(q.tid, q.time, q.data[..Clamp(q.size)]))
            && LastTime(c, run + [q], line) == q.time
  {
    var all := run + [q];
    assert all[..|all| - 1] == run && all[|all| - 1] == q;
    assert AllLegal(c, run) by {
      forall i | 0 <= i < |run| ensures Legal(c, run[i]) { assert run[i] == all[i]; }
    }
  }

  lemma AfterFirstRead(c: Config, image: seq<Byte>, q: Request)
    requires Image(c, image) && q.Read? && ValidAddress(c, q.addr)
    ensures Events(c, image, [q], LineOf(q.addr)) == [ReadBy(q.tid)]
    ensures Holders([ReadBy(q.tid)]) == {q.tid}
    ensures Waiting(c, image, [q], LineOf(q.addr)) == []
  {
    assert [q][..0] == [];
    var none: seq<LineEvent> := [];
    HoldersSnoc(none, ReadBy(q.tid));
    assert none + [ReadBy(q.tid)] == [ReadBy(q.tid)];
  }

  /**
   * A family of failures: thread `w` overwrites its own write under an earlier time,
   * and the next read returns the bytes that were overwritten.
   */
  lemma BackwardsTimesReadStale(c: Config, image: seq<Byte>, rd: Request, w1: Request, w2: Request, q: Request)
    requires Image(c, image) && rd.Read? && w1.Write? && w2.Write? && q.Read?
    requires rd.addr == w1.addr == w2.addr == q.addr == LineOf(q.addr)
    requires w1.size == w2.size == q.size && |w1.data| == |w2.data| == LINE_SIZE
    requires ValidAddress(c, q.addr) && Accepts(c, q.addr, Clamp(q.size))
    requires rd.tid != w1.tid == w2.tid && w2.time < w1.time
    ensures var run, n := [rd] + [w1] + [w2], Clamp(q.size);
            && AllLegal(c, run)
            && StepRead(Exec(c, image, run), q).1 == Bytes(w1.data[..n])
            && Copy(c, Apply(image, AllStores(c, image, run)), q.addr, n) == w2.data[..n]
  {
    var run, n := [rd] + [w1] + [w2], Clamp(q.size);
    AfterFirstRead(c, image, rd);
    AfterWrite(c, image, [rd], w1);
    AfterWrite(c, image, [rd] + [w1], w2);
    BackwardsQueue(c, image, rd, w1, w2);
    StaleAfter(c, image, run, q, Pending(w1.tid, w1.time, w1.data[..n]));
    LastWriteStored(c, image, [rd] + [w1], w2);
  }

  lemma {:induction false} LastByteUntouched(image: seq<Byte>, puts: seq<Put>, loc: nat)
    requires loc < |image| && forall i :: 0 <= i < |puts| ==> puts[i].loc != loc
    ensures LastByte(image, puts, loc) == image[loc]
  {
    if puts != [] {
      LastByteUntouched(image, puts[..|puts| - 1], loc);
    }
  }

  /** Places of one line differ where the offsets do. */
  lemma PlacesInLine(c: Config, line: nat, i: nat, k: nat)
    requires 1 <= c.lines && line % LINE_SIZE == 0 && InRegion(c, line) && i < k < LINE_SIZE
    ensures Loc(c, line + i) != Loc(c, line + k)
  {
    InLine(c, line, i);
    InLine(c, line, k);
    assert Loc(c, line + i) % LINE_SIZE == i && Loc(c, line + k) % LINE_SIZE == k;
  }

  lemma InLine(c: Config, line: nat, i: nat)
    requires 1 <= c.lines && line % LINE_SIZE == 0 && InRegion(c, line) && i < LINE_SIZE
    ensures InRegion(c, line + i) && (line + i) % LINE_SIZE == i
  {
    SameLine(line, i);
  }

  /** A copy inside one line puts nothing before its offset. */
  lemma PutsAtOffset(c: Config, addr: nat, data: seq<Byte>, i: nat)
    requires 1 <= c.lines && InRegion(c, addr) && addr % LINE_SIZE + |data| <= LINE_SIZE && i < addr % LINE_SIZE
    ensures forall j :: 0 <= j < |data| ==> Puts(c, addr, data)[j].loc != Loc(c, LineOf(addr) + i)
  {
    var line, off := LineOf(addr), addr % LINE_SIZE;
    assert LineOf(line) == line;
    forall j | 0 <= j < |data| ensures Puts(c, addr, data)[j].loc != Loc(c, line + i) {
      PlacesInLine(c, line, i, off + j);
      assert line + (off + j) == addr + j;
    }
  }

  lemma StoresOfTwo(c: Config, image: seq<Byte>, rd: Request, w1: Request, w2: Request)
    requires Image(c, image) && rd.Read? && w1.Write? && w2.Write? && |w1.data| == |w2.data| == LINE_SIZE
    requires ValidAddress(c, w1.addr) && Accepts(c, w1.addr, Clamp(w1.size))
    requires ValidAddress(c, w2.addr) && Accepts(c, w2.addr, Clamp(w2.size))
    ensures AllLegal(c, [rd] + [w1] + [w2])
    ensures AllStores(c, image, [rd] + [w1] + [w2])
            == Puts(c, w1.addr, w1.data[..Clamp(w1.size)]) + Puts(c, w2.addr, w2.data[..Clamp(w2.size)])
  {
    var run := [rd] + [w1] + [w2];
    assert run[0] == rd && run[1] == w1 && run[2] == w2;
    assert run[..2] == [rd] + [w1] && run[..2][..1] == [rd] && [rd][..0] == [];
    assert AllStores(c, image, [rd]) == [];
    assert AllStores(c, image, [rd] + [w1]) == Puts(c, w1.addr, w1.data[..Clamp(w1.size)]);
  }

  /** Nothing in the run stored the byte at the address. */
  predicate NeverStored(c: Config, image: seq<Byte>, puts: seq<Put>, addr: nat, i: nat)
    requires Image(c, image)
  {
    LastByte(image, puts, Loc(c, addr + i)) == image[Loc(c, addr + i)]
  }

  lemma OnlyHigherStored(c: Config, image: seq<Byte>, w1: Request, w2: Request, i: nat)
    requires Image(c, image) && w1.Write? && w2.Write? && |w1.data| == |w2.data| == LINE_SIZE
    requires w1.addr == w2.addr && w1.size == w2.size && InRegion(c, w1.addr)
    requires i < w1.addr % LINE_SIZE <= LINE_SIZE - Clamp(w1.size)
    ensures var n := Clamp(w1.size);
            NeverStored(c, image, Puts(c, w1.addr, w1.data[..n]) + Puts(c, w2.addr, w2.data[..n]), LineOf(w1.addr), i)
  {
    var n := Clamp(w1.size);
    PutsAtOffset(c, w1.addr, w1.data[..n], i);
    PutsAtOffset(c, w2.addr, w2.data[..n], i);
    var puts := Puts(c, w1.addr, w1.data[..n]) + Puts(c, w2.addr, w2.data[..n]);
    LastByteUntouched(image, puts, Loc(c, LineOf(w1.addr) + i));
  }

  /**
   * An entry is copied to the start of its line whatever its offset: after late writes
   * further up the line, a read of the start returns bytes that nobody stored there.
   */
  lemma LateEntryMoves(c: Config, image: seq<Byte>, rd: Request, w1: Request, w2: Request, q: Request)
    requires Image(c, image) && rd.Read? && w1.Write? && w2.Write? && q.Read?
    requires rd.addr == w1.addr == w2.addr && q.addr == LineOf(w1.addr)
    requires w1.size == w2.size && Clamp(q.size) == Clamp(w1.size) && |w1.data| == |w2.data| == LINE_SIZE
    requires Clamp(w1.size) <= w1.addr % LINE_SIZE <= LINE_SIZE - Clamp(w1.size)
    requires ValidAddress(c, w1.addr) && Accepts(c, w1.addr, Clamp(w1.size))
    requires ValidAddress(c, q.addr) && Accepts(c, q.addr, Clamp(q.size))
    requires rd.tid != w1.tid == w2.tid && w2.time < w1.time
    ensures var run, n := [rd] + [w1] + [w2], Clamp(q.size);
            && AllLegal(c, run)
            && StepRead(Exec(c, image, run), q).1 == Bytes(w1.data[..n])
            && forall i :: 0 <= i < n ==> NeverStored(c, image, AllStores(c, image, run), q.addr, i)
  {
    var run, n := [rd] + [w1] + [w2], Clamp(q.size);
    LateEntryRead(c, image, rd, w1, w2, q);
    StoresOfTwo(c, image, rd, w1, w2);
    forall i | 0 <= i < n ensures NeverStored(c, image, AllStores(c, image, run), q.addr, i) {
      OnlyHigherStored(c, image, w1, w2, i);
    }
  }

  /** The next read of the line's start answers with the overwritten entry, whatever offset it was written at. */
  lemma LateEntryRead(c: Config, image: seq<Byte>, rd: Request, w1: Request, w2: Request, q: Request)
    requires Image(c, image) && rd.Read? && w1.Write? && w2.Write? && q.Read?
    requires rd.addr == w1.addr == w2.addr && q.addr == LineOf(w1.addr)
    requires w1.size == w2.size && Clamp(q.size) == Clamp(w1.size) && |w1.data| == |w2.data| == LINE_SIZE
    requires ValidAddress(c, w1.addr) && Accepts(c, w1.addr, Clamp(w1.size))
    requires ValidAddress(c, q.addr) && Accepts(c, q.addr, Clamp(q.size))
    requires rd.tid != w1.tid == w2.tid && w2.time < w1.time
    ensures var run := [rd] + [w1] + [w2];
            AllLegal(c, run) && StepRead(Exec(c, image, run), q).1 == Bytes(w1.data[..Clamp(q.size)])
  {
    assert LineOf(q.addr) == q.addr;
    BackwardsQueue(c, image, rd, w1, w2);
    StaleAfter(c, image, [rd] + [w1] + [w2], q, Pending(w1.tid, w1.time, w1.data[..Clamp(q.size)]));
  }

  /** After a read and a write by another thread: one entry waits, and the writer alone holds the line. */
  lemma OneWaits(c: Config, image: seq<Byte>, rd: Request, w: Request)
    requires Image(c, image) && rd.Read? && w.Write? && rd.addr == w.addr && |w.data| == LINE_SIZE
    requires ValidAddress(c, w.addr) && Accepts(c, w.addr, Clamp(w.size)) && rd.tid != w.tid
    ensures AllLegal(c, [rd] + [w])
    ensures Waiting(c, image, [rd] + [w], LineOf(w.addr)) == [Pending(w.tid, w.time, w.data[..Clamp(w.size)])]
    ensures Holders(Events(c, image, [rd] + [w], LineOf(w.addr))) == {w.tid as int}
  {
    AfterFirstRead(c, image, rd);
    AfterWrite(c, image, [rd], w);
    LastTakenHolds([ReadBy(rd.tid)] + [TakenBy(w.tid)]);
    assert {rd.tid as int} - {w.tid as int} == {rd.tid as int};
    var p := Pending(w.tid, w.time, w.data[..Clamp(w.size)]);
    assert [] + seq(1, _ => p) == [p];
  }

  lemma BackwardsQueue(c: Config, image: seq<Byte>, rd: Request, w1: Request, w2: Request)
    requires Image(c, image) && rd.Read? && w1.Write? && w2.Write?
    requires rd.addr == w1.addr == w2.addr && w1.size == w2.size && |w1.data| == |w2.data| == LINE_SIZE
    requires ValidAddress(c, w1.addr) && Accepts(c, w1.addr, Clamp(w1.size))
    requires rd.tid != w1.tid == w2.tid
    ensures AllLegal(c, [rd] + [w1] + [w2])
    ensures Waiting(c, image, [rd] + [w1] + [w2], LineOf(w1.addr))
            == [Pending(w1.tid, w1.time, w1.data[..Clamp(w1.size)])]
    ensures LastTime(c, [rd] + [w1] + [w2], LineOf(w1.addr)) == w2.time
  {
    OneWaits(c, image, rd, w1);
    AfterWrite(c, image, [rd] + [w1], w2);
    var p := Pending(w1.tid, w1.time, w1.data[..Clamp(w1.size)]);
    assert {w1.tid as int} - {w2.tid as int} == {};
    assert [p] + seq(0, _ => Pending(w2.tid, w2.time, w2.data[..Clamp(w2.size)])) == [p];
  }

  lemma LastWriteStored(c: Config, image: seq<Byte>, run: seq<Request>, q: Request)
    requires Image(c, image) && AllLegal(c, run) && q.Write? && |q.data| == LINE_SIZE
    requires ValidAddress(c, q.addr) && Accepts(c, q.addr, Clamp(q.size)) && AllLegal(c, run + [q])
    ensures Copy(c, Apply(image, AllStores(c, image, run + [q])), q.addr, Clamp(q.size)) == q.data[..Clamp(q.size)]
  {
    assert (run + [q])[..|run + [q]| - 1] == run;
    var puts, data := AllStores(c, image, run), q.data[..Clamp(q.size)];
    ApplyAppend(image, puts, Puts(c, q.addr, data));
    ReadBack(c, Apply(image, puts), q.addr, data);
  }

  lemma StaleAfter(c: Config, image: seq<Byte>, run: seq<Request>, q: Request, p: Pending)
    requires Image(c, image) && AllLegal(c, run) && q.Read? && ValidAddress(c, q.addr) && LineOf(q.addr) == q.addr
    requires Waiting(c, image, run, q.addr) == [p] && LastTime(c, run, q.addr) < p.time
    requires |p.data| == Clamp(q.size) && Accepts(c, q.addr, |p.data|)
    ensures StepRead(Exec(c, image, run), q).1 == Bytes(p.data)
  {
    QueueIsHistory(c, image, run, q.addr);
    StaleReadReply(Exec(c, image, run), q, p);
  }

  lemma DrainOne(c: Config, line: nat, lastAccess: nat, p: Pending)
    requires 1 <= c.lines && Stale(c, line, lastAccess, p)
    ensures DrainPuts(c, line, lastAccess, [p]) == Puts(c, line, p.data)
  {
    var none: seq<Pending> := [];
    assert [p][..0] == none;
    assert DrainPuts(c, line, lastAccess, none) + Puts(c, line, p.data) == Puts(c, line, p.data);
  }

  /** A read that finds one newer entry covering it answers with that entry's bytes. */
  lemma StaleReadReply(s: Server, q: Request, p: Pending)
    requires ServerOk(s) && q.Read? && ValidAddress(s.config, q.addr) && LineOf(q.addr) == q.addr
    requires PendingAt(s, q.addr) == [p] && Stale(s.config, q.addr, MetaAt(s, q.addr).lastAccess, p)
    requires |p.data| == Clamp(q.size)
    ensures StepRead(s, q).1 == Bytes(p.data)
  {
    DrainOne(s.config, q.addr, MetaAt(s, q.addr).lastAccess, p);
    ReadBack(s.config, s.mem, q.addr, p.data);
  }

  lemma ModuloSmall(x: nat, n: nat)
    requires x < n
    ensures x % n == x
  {
  }

  /** In a region based at 0 an address below its size is its own place. */
  lemma PlaceAtZero(c: Config, addr: nat)
    requires 1 <= c.lines && c.lines * LINE_SIZE <= WORD && c.base == 0 && addr < c.lines * LINE_SIZE
    ensures Loc(c, addr) == addr
  {
    ModuloSmall(addr, WORD);
    ModuloSmall(addr / LINE_SIZE, c.lines);
    assert Loc(c, addr) == addr / LINE_SIZE * LINE_SIZE + addr % LINE_SIZE;
  }

  /** In a region based elsewhere no address of it is its own place. */
  lemma PlaceElsewhere(c: Config, addr: nat)
    requires 1 <= c.lines && c.base != 0 && InRegion(c, addr)
    ensures Loc(c, addr) != addr
  {
    var d := LineOf(addr) - c.base;
    assert d / LINE_SIZE * LINE_SIZE <= d;
    assert Loc(c, addr) == d / LINE_SIZE * LINE_SIZE + addr % LINE_SIZE;
  }

  /** The atomic's word lies inside the data, and reads find each of its bytes where the atomic does. */
  ghost predicate Meets(c: Config, addr: nat)
    requires 1 <= c.lines
  {
    addr + 8 <= c.lines * LINE_SIZE && forall i :: 0 <= i < 8 ==> SamePlace(c, addr, i)
  }

  predicate SamePlace(c: Config, addr: nat, i: nat)
    requires 1 <= c.lines
  {
    InRegion(c, addr + i) && Loc(c, addr + i) == addr + i
  }

  /** For every address: atomics and reads meet exactly if the region is based at 0 and the word lies below its size. */
  lemma AtomicsMeetReads(c: Config, addr: nat)
    requires 1 <= c.lines && c.lines * LINE_SIZE <= WORD
    ensures Meets(c, addr) <==> c.base == 0 && addr + 8 <= c.lines * LINE_SIZE
  {
    if c.base != 0 {
      if InRegion(c, addr + 0) {
        PlaceElsewhere(c, addr);
      }
      assert !SamePlace(c, addr, 0);
    } else if addr + 8 <= c.lines * LINE_SIZE {
      forall i | 0 <= i < 8 ensures SamePlace(c, addr, i) {
        PlaceAtZero(c, addr + i);
      }
    }
  }

  /** In a region based elsewhere a valid address never meets its atomic, whatever its size. */
  lemma BasedAtomicsMiss(c: Config, addr: nat)
    requires 1 <= c.lines && c.base != 0 && ValidAddress(c, addr)
    ensures !Meets(c, addr)
  {
    if InRegion(c, addr + 0) {
      PlaceElsewhere(c, addr);
    }
    assert !SamePlace(c, addr, 0);
  }

  /** Based at 0, reads past the region's size wrap round into it, where an atomic reaches past the end of the data. */
  lemma ReadsWrapAtomicsDoNot(c: Config, addr: nat, size: nat)
    requires 1 <= c.lines && c.lines * LINE_SIZE <= WORD && c.base == 0
    requires c.lines * LINE_SIZE <= addr && 1 <= size <= LINE_SIZE
    ensures ValidAddress(c, addr) && Accepts(c, addr, size) && Loc(c, addr) < c.lines * LINE_SIZE <= addr
    ensures addr == c.lines * LINE_SIZE < WORD ==> Loc(c, addr) == 0
  {
    if addr == c.lines * LINE_SIZE < WORD {
      ModuloSmall(addr, WORD);
      assert addr / LINE_SIZE == c.lines;
    }
  }

  // ---------------------------------------------------------------------------
  // Fetch-and-add loses no update
  // ---------------------------------------------------------------------------

  function Pow256(n: nat): (r: nat)
    ensures r > 0
  {
    if n == 0 then 1 else 256 * Pow256(n - 1)
  }

  lemma {:induction false} DecodeEncode(v: nat, n: nat)
    requires v < Pow256(n)
    ensures Decode(Encode(v, n)) == v
  {
    if n != 0 {
      DecodeEncode(v / 256, n - 1);
      assert Encode(v, n)[1..] == Encode(v / 256, n - 1);
    }
  }

  lemma ByteStored(mem: seq<Byte>, addr: nat, bytes: seq<Byte>, i: nat)
    requires addr + |bytes| <= |mem| && i < |bytes|
    ensures Apply(mem, RawPuts(addr, bytes))[addr + i] == bytes[i]
  {
    LastPutWins(mem, RawPuts(addr, bytes), i);
  }

  lemma BytesStored(mem: seq<Byte>, addr: nat, bytes: seq<Byte>)
    requires addr + |bytes| <= |mem|
    ensures Apply(mem, RawPuts(addr, bytes))[addr..addr + |bytes|] == bytes
  {
    var stored := Apply(mem, RawPuts(addr, bytes))[addr..addr + |bytes|];
    forall i | 0 <= i < |bytes| ensures stored[i] == bytes[i] {
      ByteStored(mem, addr, bytes, i);
      assert stored[i] == Apply(mem, RawPuts(addr, bytes))[addr + i];
    }
    assert |stored| == |bytes|;
  }

  lemma WordRoundTrip(mem: seq<Byte>, addr: nat, v: nat)
    requires addr + 8 <= |mem| && v < WORD
    ensures WordAt(Apply(mem, WordPuts(addr, v)), addr) == v
  {
    BytesStored(mem, addr, Encode(v, 8));
    assert Pow256(4) == 0x1_0000_0000 && Pow256(8) == WORD;
    DecodeEncode(v, 8);
  }

  predicate Congruent(a: nat, b: nat) {
    Low(a) == Low(b)
  }

  /** No byte of the word is changed. */
  predicate Avoids(puts: seq<Put>, addr: nat) {
    forall i :: 0 <= i < |puts| ==> puts[i].loc < addr || addr + 8 <= puts[i].loc
  }

  predicate AddsTo(q: Request, addr: nat) {
    q.Faa? && q.addr == addr
  }

  /** Everything else that happens, entries copied back included, leaves the word alone. */
  predicate OthersAvoid(c: Config, image: seq<Byte>, run: seq<Request>, addr: nat)
    requires Image(c, image) && AllLegal(c, run)
  {
    run == [] ||
    (var before, q := run[..|run| - 1], run[|run| - 1];
     && OthersAvoid(c, image, before, addr)
     && Harmless(c, image, before, q, addr))
  }

  /** The request adds to the word, or leaves it alone. */
  predicate Harmless(c: Config, image: seq<Byte>, before: seq<Request>, q: Request, addr: nat)
    requires Image(c, image) && AllLegal(c, before) && Legal(c, q)
  {
    AddsTo(q, addr) || Avoids(Changes(c, image, before, AllChanges(c, image, before), q), addr)
  }

  function AddedTo(run: seq<Request>, addr: nat): (r: nat) {
    if run == [] then 0
    else AddedTo(run[..|run| - 1], addr) + (if AddsTo(run[|run| - 1], addr) then run[|run| - 1].value else 0)
  }

  lemma {:induction false} ApplyAvoids(mem: seq<Byte>, puts: seq<Put>, addr: nat)
    requires addr + 8 <= |mem| && Avoids(puts, addr)
    ensures Apply(mem, puts)[addr..addr + 8] == mem[addr..addr + 8]
  {
    if puts != [] {
      ApplyAvoids(mem, puts[..|puts| - 1], addr);
    }
  }

  /** Any request changes memory by its changes, after every run. */
  lemma StepChanges(c: Config, image: seq<Byte>, before: seq<Request>, q: Request)
    requires Image(c, image) && AllLegal(c, before) && Legal(c, q)
    ensures var puts := AllChanges(c, image, before);
            Step(Exec(c, image, before), q).0.mem
            == Apply(Exec(c, image, before).mem, Changes(c, image, before, puts, q))
  {
    var puts := AllChanges(c, image, before);
    MemoryIsHistory(c, image, before);
    ApplyAppend(image, puts, Changes(c, image, before, puts, q));
    if q.Read? {
      ReadChanges(c, image, before, q, puts);
    } else {
      StepStores(c, image, Exec(c, image, before), puts, q);
    }
  }

  lemma OtherStep(c: Config, image: seq<Byte>, before: seq<Request>, q: Request, addr: nat)
    requires Image(c, image) && AllLegal(c, before) && Legal(c, q) && addr + 8 <= |image|
    requires Avoids(Changes(c, image, before, AllChanges(c, image, before), q), addr)
    ensures WordAt(Step(Exec(c, image, before), q).0.mem, addr) == WordAt(Exec(c, image, before).mem, addr)
  {
    StepChanges(c, image, before, q);
    ApplyAvoids(Exec(c, image, before).mem, Changes(c, image, before, AllChanges(c, image, before), q), addr);
  }

  lemma FaaStep(s: Server, q: Request)
    requires ServerOk(s) && q.Faa? && Legal(s.config, q)
    ensures WordAt(Step(s, q).0.mem, q.addr) == WordSum(WordAt(s.mem, q.addr), q.value)
  {
    WordRoundTrip(s.mem, q.addr, WordSum(WordAt(s.mem, q.addr), q.value));
  }

  /** The word before the last request of a run and after it. */
  lemma WordStep(c: Config, image: seq<Byte>, run: seq<Request>, addr: nat) returns (was: nat, now: nat)
    requires Image(c, image) && AllLegal(c, run) && addr + 8 <= |image| && run != []
    requires Harmless(c, image, run[..|run| - 1], run[|run| - 1], addr)
    ensures was == WordAt(Exec(c, image, run[..|run| - 1]).mem, addr) && now == WordAt(Exec(c, image, run).mem, addr)
    ensures now == if AddsTo(run[|run| - 1], addr) then WordSum(was, run[|run| - 1].value) else was
  {
    var before, q := run[..|run| - 1], run[|run| - 1];
    var s := Exec(c, image, before);
    was, now := WordAt(s.mem, addr), WordAt(Step(s, q).0.mem, addr);
    if AddsTo(q, addr) {
      FaaStep(s, q);
    } else {
      OtherStep(c, image, before, q, addr);
    }
  }

  /** A word that starts at `first` and changes only by the additions of a run. */
  function WordAfter(first: nat, run: seq<Request>, addr: nat): (r: nat) {
    if run == [] then first
    else
      var was, q := WordAfter(first, run[..|run| - 1], addr), run[|run| - 1];
      if AddsTo(q, addr) then WordSum(was, q.value) else was
  }

  lemma {:induction false} WordFollows(c: Config, image: seq<Byte>, run: seq<Request>, addr: nat)
    returns (now: nat)
    requires Image(c, image) && AllLegal(c, run) && addr + 8 <= |image| && OthersAvoid(c, image, run, addr)
    ensures now == WordAt(Exec(c, image, run).mem, addr) == WordAfter(WordAt(image, addr), run, addr)
  {
    now := WordAt(Exec(c, image, run).mem, addr);
    if run != [] {
      var before := WordFollows(c, image, run[..|run| - 1], addr);
      var was, after := WordStep(c, image, run, addr);
      WordAfterLast(WordAt(image, addr), run, addr, was, after);
    }
  }

  lemma WordAfterLast(first: nat, run: seq<Request>, addr: nat, was: nat, now: nat)
    requires run != [] && was == WordAfter(first, run[..|run| - 1], addr)
    requires now == if AddsTo(run[|run| - 1], addr) then WordSum(was, run[|run| - 1].value) else was
    ensures now == WordAfter(first, run, addr)
  {
  }

  lemma SumStep(was: nat, now: nat, sum: nat, v: nat)
    requires Congruent(was, sum) && now == WordSum(was, v)
    ensures Congruent(now, sum + v)
  {
  }

  lemma {:induction false} WordSums(first: nat, run: seq<Request>, addr: nat, now: nat)
    requires now == WordAfter(first, run, addr)
    ensures Congruent(now, first + AddedTo(run, addr))
  {
    if run != [] {
      var before, q := run[..|run| - 1], run[|run| - 1];
      var was := WordAfter(first, before, addr);
      WordSums(first, before, addr, was);
      if AddsTo(q, addr) {
        SumStep(was, now, first + AddedTo(before, addr), q.value);
      }
    }
  }

  /** Every run in which nothing else changes the word: it holds the sum of what was added, modulo 2^64. */
  lemma {:induction false} AdditionsSurvive(c: Config, image: seq<Byte>, run: seq<Request>, addr: nat)
    requires Image(c, image) && AllLegal(c, run) && addr + 8 <= |image| && OthersAvoid(c, image, run, addr)
    ensures Congruent(WordAt(Exec(c, image, run).mem, addr), WordAt(image, addr) + AddedTo(run, addr))
  {
    var now := WordFollows(c, image, run, addr);
    Summed(c, image, run, addr, now);
  }

  lemma Summed(c: Config, image: seq<Byte>, run: seq<Request>, addr: nat, now: nat)
    requires Image(c, image) && addr + 8 <= |image| && now == WordAfter(WordAt(image, addr), run, addr)
    ensures Congruent(now, WordAt(image, addr) + AddedTo(run, addr))
  {
    WordSums(WordAt(image, addr), run, addr, now);
  }

  /** Fetch-and-adds of one word, reads and fences. */
  predicate CountingRun(run: seq<Request>, addr: nat) {
    forall i :: 0 <= i < |run| ==> run[i].Read? || run[i].Fence? || (run[i].Faa? && run[i].addr == addr)
  }

  lemma {:induction false} NothingWaits(c: Config, image: seq<Byte>, run: seq<Request>, addr: nat, line: nat)
    requires Image(c, image) && AllLegal(c, run) && CountingRun(run, addr)
    ensures Waiting(c, image, run, line) == []
  {
    if run != [] {
      NothingWaits(c, image, run[..|run| - 1], addr, line);
    }
  }

  lemma {:induction false} CountingAvoids(c: Config, image: seq<Byte>, run: seq<Request>, addr: nat)
    requires Image(c, image) && AllLegal(c, run) && CountingRun(run, addr)
    ensures OthersAvoid(c, image, run, addr)
  {
    if run != [] {
      var before, q := run[..|run| - 1], run[|run| - 1];
      CountingAvoids(c, image, before, addr);
      NothingWaits(c, image, before, addr, LineOf(q.addr));
    }
  }

  /** In particular: whatever threads add to a word, in whatever order and however stamped, the word holds the sum. */
  lemma {:induction false} FetchAndAddSums(c: Config, image: seq<Byte>, run: seq<Request>, addr: nat)
    requires Image(c, image) && AllLegal(c, run) && CountingRun(run, addr) && addr + 8 <= |image|
    ensures Congruent(WordAt(Exec(c, image, run).mem, addr), WordAt(image, addr) + AddedTo(run, addr))
  {
    CountingAvoids(c, image, run, addr);
    AdditionsSurvive(c, image, run, addr);
  }
}
