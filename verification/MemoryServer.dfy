/**
 * The thread-per-connection memory server: a MESI record per 64-byte line, the
 * shared bytes, and, per line, a queue of pending back-invalidations.  Every
 * request runs under one lock, so a run is a sequence of whole requests.
 *
 * A pending back-invalidation that a read finds newer than the line's last access
 * is copied over the line, so that a read returns the latest write is not a
 * property of one request.  The results give the exact condition on a run under
 * which nothing is ever copied back, and show that every read then returns the
 * bytes last stored.
 */
module MemoryServer {
  import opened Wrappers
  import opened CacheLines
  import opened Words

  const NO_OWNER: int := -1

  type Byte = b: int | 0 <= b < 256

  /** The shared region: `lines` cache lines, placed at `base` (0: every address, modulo the region). */
  datatype Config = Config(base: nat, lines: nat)

  datatype LineState = Invalid | Shared | Exclusive | Modified

  datatype Line = Line(state: LineState, sharers: set<int>, owner: int, lastAccess: nat, version: nat)

  datatype Pending = Pending(source: nat, time: nat, data: seq<Byte>)

  datatype Server = Server(
    config: Config,
    mem: seq<Byte>,
    meta: map<nat, Line>,
    pending: map<nat, seq<Pending>>,
    invalidations: nat,
    downgrades: nat,
    applied: nat)

  datatype Request =
    | Read(tid: nat, addr: nat, size: nat, time: nat)
    | Write(tid: nat, addr: nat, size: nat, time: nat, data: seq<Byte>)
    | Faa(tid: nat, addr: nat, value: nat, time: nat)
    | Cas(tid: nat, addr: nat, value: nat, expected: nat, time: nat)
    | Fence(addr: nat)

  datatype Reply = Failed | Bytes(bytes: seq<Byte>) | Stored | Old(value: nat)

  /** One byte stored at one place of the region. */
  datatype Put = Put(loc: nat, byte: Byte)

  const UNTOUCHED: Line := Line(Invalid, {}, NO_OWNER, 0, 0)

  // ---------------------------------------------------------------------------
  // Places
  // ---------------------------------------------------------------------------

  /** The size of a request: sizes that no line has stand for a whole line. */
  function Clamp(size: nat): (r: nat)
    ensures 1 <= r <= LINE_SIZE
    ensures r == if 1 <= size <= LINE_SIZE then size else LINE_SIZE
  {
    if size == 0 || size > LINE_SIZE then LINE_SIZE else size
  }

  predicate ValidAddress(c: Config, addr: nat) {
    c.base == 0 || c.base <= addr < c.base + c.lines * LINE_SIZE
  }

  predicate InRegion(c: Config, addr: nat) {
    c.base == 0 || (c.base <= LineOf(addr) && (LineOf(addr) - c.base) / LINE_SIZE < c.lines)
  }

  /** Whether the shared-memory manager carries out a copy; only the modulo mapping crosses lines. */
  predicate Accepts(c: Config, addr: nat, size: nat) {
    && 1 <= size <= LINE_SIZE
    && InRegion(c, addr)
    && (c.base == 0 || addr % LINE_SIZE + size <= LINE_SIZE)
  }

  /** The place of an address in the region (0 for addresses outside it, which no accepted copy touches). */
  function Loc(c: Config, addr: nat): (r: nat)
    requires 1 <= c.lines
    ensures r < c.lines * LINE_SIZE
    ensures InRegion(c, addr) ==> r % LINE_SIZE == addr % LINE_SIZE
  {
    if c.base == 0 then
      (addr % WORD / LINE_SIZE % c.lines) * LINE_SIZE + addr % LINE_SIZE
    else if InRegion(c, addr) then
      (LineOf(addr) - c.base) / LINE_SIZE * LINE_SIZE + addr % LINE_SIZE
    else 0
  }

  function Puts(c: Config, addr: nat, data: seq<Byte>): (r: seq<Put>)
    requires 1 <= c.lines
    ensures |r| == |data|
  {
    seq(|data|, i requires 0 <= i < |data| => Put(Loc(c, addr + i), data[i]))
  }

  function Apply(mem: seq<Byte>, puts: seq<Put>): (r: seq<Byte>)
    ensures |r| == |mem|
  {
    if puts == [] then mem
    else
      var m, p := Apply(mem, puts[..|puts| - 1]), puts[|puts| - 1];
      if p.loc < |m| then m[p.loc := p.byte] else m
  }

  function Copy(c: Config, mem: seq<Byte>, addr: nat, size: nat): (r: seq<Byte>)
    requires 1 <= c.lines && |mem| == c.lines * LINE_SIZE
    ensures |r| == size
  {
    seq(size, i requires 0 <= i < size => mem[Loc(c, addr + i)])
  }

  /** Little-endian words. */
  function Encode(v: nat, n: nat): (r: seq<Byte>)
    ensures |r| == n
  {
    if n == 0 then [] else [v % 256] + Encode(v / 256, n - 1)
  }

  function Decode(bytes: seq<Byte>): (r: nat) {
    if bytes == [] then 0 else bytes[0] + 256 * Decode(bytes[1..])
  }

  /** The atomics address the region directly, without translation. */
  function RawPuts(addr: nat, bytes: seq<Byte>): (r: seq<Put>)
    ensures |r| == |bytes|
  {
    seq(|bytes|, i requires 0 <= i < |bytes| => Put(addr + i, bytes[i]))
  }

  function WordPuts(addr: nat, v: nat): (r: seq<Put>) {
    RawPuts(addr, Encode(v, 8))
  }

  function WordAt(mem: seq<Byte>, addr: nat): (r: nat)
    requires addr + 8 <= |mem|
  {
    Decode(mem[addr..addr + 8])
  }

  // ---------------------------------------------------------------------------
  // One request
  // ---------------------------------------------------------------------------

  function MetaAt(s: Server, line: nat): (r: Line) {
    if line in s.meta then s.meta[line] else UNTOUCHED
  }

  function PendingAt(s: Server, line: nat): (r: seq<Pending>) {
    if line in s.pending then s.pending[line] else []
  }

  function ReadMesi(l: Line, tid: nat): (r: Line) {
    match l.state
    case Invalid => l.(state := Shared, sharers := l.sharers + {tid})
    case Shared => l.(sharers := l.sharers + {tid})
    case _ => l.(state := Shared, sharers := l.sharers + {l.owner} + {tid}, owner := NO_OWNER)
  }

  function WriteMesi(l: Line, tid: nat): (r: Line) {
    match l.state
    case Invalid => l.(state := Modified, owner := tid)
    case Shared => l.(state := Modified, owner := tid, sharers := {})
    case _ => l.(state := Modified, owner := tid)
  }

  function TakeMesi(l: Line, tid: nat): (r: Line) {
    l.(state := Modified, owner := tid, sharers := {}, version := WordSum(l.version, 1))
  }

  /** The threads whose copy a write takes away. */
  function Targets(l: Line, tid: nat): (r: set<int>) {
    match l.state
    case Invalid => {}
    case Shared => l.sharers - {tid}
    case _ => {l.owner} - {tid}
  }

  function InvalidationCount(l: Line, tid: nat): (r: nat) {
    if l.state.Invalid? || (!l.state.Shared? && l.owner == tid) then 0
    else |l.sharers - {tid}| + (if l.owner != NO_OWNER && l.owner != tid then 1 else 0)
  }

  function DowngradeCount(l: Line, tid: nat): (r: nat) {
    if (l.state.Exclusive? || l.state.Modified?) && l.owner != NO_OWNER && l.owner != tid then 1 else 0
  }

  /** A pending entry is copied to the start of its line when it is newer than the last access. */
  predicate Stale(c: Config, line: nat, lastAccess: nat, p: Pending) {
    p.time > lastAccess && Accepts(c, line, |p.data|)
  }

  function DrainPuts(c: Config, line: nat, lastAccess: nat, q: seq<Pending>): (r: seq<Put>)
    requires 1 <= c.lines
  {
    if q == [] then []
    else DrainPuts(c, line, lastAccess, q[..|q| - 1])
         + (if Stale(c, line, lastAccess, q[|q| - 1]) then Puts(c, line, q[|q| - 1].data) else [])
  }

  function DrainCount(c: Config, line: nat, lastAccess: nat, q: seq<Pending>): (r: nat) {
    if q == [] then 0
    else DrainCount(c, line, lastAccess, q[..|q| - 1])
         + (if Stale(c, line, lastAccess, q[|q| - 1]) then 1 else 0)
  }

  predicate ServerOk(s: Server) {
    1 <= s.config.lines && |s.mem| == s.config.lines * LINE_SIZE
  }

  /** What the client must respect: 64 data bytes with a write, atomics inside the region. */
  predicate Legal(c: Config, q: Request) {
    && (q.Write? ==> |q.data| == LINE_SIZE)
    && (q.Faa? || q.Cas? ==> q.addr + 8 <= c.lines * LINE_SIZE)
  }

  function StepRead(s: Server, q: Request): (r: (Server, Reply))
    requires ServerOk(s) && q.Read?
    ensures ServerOk(r.0) && r.0.config == s.config
  {
    if !ValidAddress(s.config, q.addr) then (s, Failed)
    else
      var line, size := LineOf(q.addr), Clamp(q.size);
      var l, w := MetaAt(s, line), PendingAt(s, line);
      var m := Apply(s.mem, DrainPuts(s.config, line, l.lastAccess, w));
      var ok := Accepts(s.config, q.addr, size);
      var l' := if ok then ReadMesi(l, q.tid).(lastAccess := q.time) else ReadMesi(l, q.tid);
      var t := s.(mem := m, meta := s.meta[line := l'], pending := s.pending - {line},
                  downgrades := s.downgrades + DowngradeCount(l, q.tid),
                  applied := s.applied + DrainCount(s.config, line, l.lastAccess, w));
      (t, if ok then Bytes(Copy(s.config, m, q.addr, size)) else Failed)
  }

  function StepWrite(s: Server, q: Request): (r: (Server, Reply))
    requires ServerOk(s) && q.Write? && |q.data| == LINE_SIZE
    ensures ServerOk(r.0) && r.0.config == s.config
  {
    if !ValidAddress(s.config, q.addr) then (s, Failed)
    else
      var line, size := LineOf(q.addr), Clamp(q.size);
      var l := MetaAt(s, line);
      var t := s.(meta := s.meta[line := WriteMesi(l, q.tid)],
                  invalidations := s.invalidations + InvalidationCount(l, q.tid));
      if !Accepts(s.config, q.addr, size) then (t, Failed)
      else
        var m := Apply(s.mem, Puts(s.config, q.addr, q.data[..size]));
        var p := Pending(q.tid, q.time, Copy(s.config, m, q.addr, size));
        var copies := |Targets(l, q.tid)|;
        (t.(mem := m,
            meta := t.meta[line := WriteMesi(l, q.tid).(lastAccess := q.time)],
            pending := if copies == 0 then s.pending
                       else s.pending[line := PendingAt(s, line) + seq(copies, _ => p)]),
         Stored)
  }

  function StepAtomic(s: Server, q: Request): (r: (Server, Reply))
    requires ServerOk(s) && (q.Faa? || q.Cas?) && Legal(s.config, q)
    ensures ServerOk(r.0) && r.0.config == s.config
  {
    var line := LineOf(q.addr);
    var l := MetaAt(s, line).(lastAccess := q.time);
    var was := WordAt(s.mem, q.addr);
    if q.Faa? then
      (s.(mem := Apply(s.mem, WordPuts(q.addr, WordSum(was, q.value))),
          meta := s.meta[line := TakeMesi(l, q.tid)]), Old(was))
    else if was == q.expected then
      (s.(mem := Apply(s.mem, WordPuts(q.addr, q.value)), meta := s.meta[line := TakeMesi(l, q.tid)]), Old(was))
    else
      (s.(meta := s.meta[line := l]), Old(was))
  }

  function Step(s: Server, q: Request): (r: (Server, Reply))
    requires ServerOk(s) && Legal(s.config, q)
    ensures ServerOk(r.0) && r.0.config == s.config
  {
    match q
    case Read(_, _, _, _) => StepRead(s, q)
    case Write(_, _, _, _, _) => StepWrite(s, q)
    case Fence(addr) => (s.(meta := s.meta[LineOf(addr) := MetaAt(s, LineOf(addr))]), Old(0))
    case _ => StepAtomic(s, q)
  }

  predicate AllLegal(c: Config, run: seq<Request>) {
    forall i :: 0 <= i < |run| ==> Legal(c, run[i])
  }

  function Start(c: Config, image: seq<Byte>): (r: Server) {
    Server(c, image, map[], map[], 0, 0, 0)
  }

  predicate Image(c: Config, image: seq<Byte>) {
    1 <= c.lines && |image| == c.lines * LINE_SIZE
  }

  function Exec(c: Config, image: seq<Byte>, run: seq<Request>): (r: Server)
    requires Image(c, image) && AllLegal(c, run)
    ensures ServerOk(r) && r.config == c
  {
    if run == [] then Start(c, image)
    else Step(Exec(c, image, run[..|run| - 1]), run[|run| - 1]).0
  }

  // ---------------------------------------------------------------------------
  // The server as the source runs it
  // ---------------------------------------------------------------------------

  lemma {:induction false} ApplyAppend(mem: seq<Byte>, a: seq<Put>, b: seq<Put>)
    ensures Apply(mem, a + b) == Apply(Apply(mem, a), b)
    decreases |b|
  {
    if b == [] {
      assert a + b == a;
    } else {
      assert (a + b)[..|a + b| - 1] == a + b[..|b| - 1];
      ApplyAppend(mem, a, b[..|b| - 1]);
    }
  }

  lemma PutsSnoc(c: Config, addr: nat, data: seq<Byte>, b: Byte)
    requires 1 <= c.lines
    ensures Puts(c, addr, data + [b]) == Puts(c, addr, data) + [Put(Loc(c, addr + |data|), b)]
  {
  }

  /** The copy of one more byte. */
  lemma PutNext(c: Config, mem: seq<Byte>, addr: nat, bytes: seq<Byte>, i: nat)
    requires Image(c, mem) && i < |bytes|
    ensures Apply(mem, Puts(c, addr, bytes[..i + 1]))
            == Apply(mem, Puts(c, addr, bytes[..i]))[Loc(c, addr + i) := bytes[i]]
  {
    assert bytes[..i + 1] == bytes[..i] + [bytes[i]];
    PutsSnoc(c, addr, bytes[..i], bytes[i]);
    ApplySnoc(mem, Puts(c, addr, bytes[..i]), Put(Loc(c, addr + i), bytes[i]));
  }

  lemma ApplySnoc(mem: seq<Byte>, puts: seq<Put>, p: Put)
    requires p.loc < |mem|
    ensures Apply(mem, puts + [p]) == Apply(mem, puts)[p.loc := p.byte]
  {
    assert (puts + [p])[..|puts + [p]| - 1] == puts;
  }

  lemma NonEmpty(s: set<int>)
    ensures s == {} || exists x :: x in s
  {
    if forall x :: x !in s {
      assert s == {};
    }
  }

  class ThreadPerConnectionServer {
    const config: Config
    const data: array<Byte>
    var meta: map<nat, Line>
    var pending: map<nat, seq<Pending>>
    var invalidations: nat
    var downgrades: nat
    var applied: nat

    ghost predicate Valid() {
      1 <= config.lines && data.Length == config.lines * LINE_SIZE
    }

    ghost function State(): (r: Server)
      reads this, data
    {
      Server(config, data[..], meta, pending, invalidations, downgrades, applied)
    }

    constructor (c: Config, area: array<Byte>)
      requires 1 <= c.lines && area.Length == c.lines * LINE_SIZE
      ensures Valid() && data == area && State() == Start(c, area[..])
    {
      config, data := c, area;
      meta, pending := map[], map[];
      invalidations, downgrades, applied := 0, 0, 0;
    }

    method ReadCacheline(addr: nat, size: nat) returns (ok: bool, bytes: seq<Byte>)
      requires Valid()
      ensures ok == Accepts(config, addr, size)
      ensures ok ==> bytes == Copy(config, data[..], addr, size)
    {
      bytes := [];
      ok := Accepts(config, addr, size);
      if !ok {
        return;
      }
      var i := 0;
      while i < size
        invariant 0 <= i <= size
        invariant bytes == Copy(config, data[..], addr, i)
      {
        bytes := bytes + [data[Loc(config, addr + i)]];
        i := i + 1;
      }
    }

    method WriteCacheline(addr: nat, bytes: seq<Byte>) returns (ok: bool)
      requires Valid()
      modifies data
      ensures ok == Accepts(config, addr, |bytes|)
      ensures data[..] == if ok then Apply(old(data[..]), Puts(config, addr, bytes)) else old(data[..])
    {
      ok := Accepts(config, addr, |bytes|);
      if !ok {
        return;
      }
      var i := 0;
      while i < |bytes|
        invariant 0 <= i <= |bytes|
        invariant data[..] == Apply(old(data[..]), Puts(config, addr, bytes[..i]))
      {
        PutNext(config, old(data[..]), addr, bytes, i);
        data[Loc(config, addr + i)] := bytes[i];
        i := i + 1;
      }
      assert bytes[..|bytes|] == bytes;
    }

    /** Pops every pending back-invalidation of the line, copying back those newer than its last access. */
    method CheckAndApplyBackInvalidations(line: nat, lastAccess: nat) returns (had: bool)
      requires Valid()
      modifies this`pending, this`applied, data
      ensures var q := old(PendingAt(State(), line));
              && data[..] == Apply(old(data[..]), DrainPuts(config, line, lastAccess, q))
              && applied == old(applied) + DrainCount(config, line, lastAccess, q)
              && pending == old(pending) - {line}
              && had == (DrainCount(config, line, lastAccess, q) > 0)
    {
      had := false;
      if line !in pending {
        assert pending == pending - {line};
        return;
      }
      var queue := pending[line];
      ghost var all, done := queue, 0;
      while queue != []
        invariant 0 <= done <= |all| && queue == all[done..]
        invariant pending == old(pending)
        invariant data[..] == Apply(old(data[..]), DrainPuts(config, line, lastAccess, all[..done]))
        invariant applied == old(applied) + DrainCount(config, line, lastAccess, all[..done])
        invariant had == (DrainCount(config, line, lastAccess, all[..done]) > 0)
      {
        var entry := queue[0];
        assert all[..done + 1][..done] == all[..done] && all[..done + 1][done] == entry;
        ghost var before := DrainPuts(config, line, lastAccess, all[..done]);
        var copied := ApplyEntry(line, lastAccess, entry);
        ApplyAppend(old(data[..]), before, if copied then Puts(config, line, entry.data) else []);
        had := had || copied;
        queue := queue[1..];
        done := done + 1;
      }
      assert all[..|all|] == all;
      pending := pending - {line};
    }

    /** Copies one entry to the start of the line if it is newer than the last access. */
    method ApplyEntry(line: nat, lastAccess: nat, entry: Pending) returns (copied: bool)
      requires Valid()
      modifies this`applied, data
      ensures copied == Stale(config, line, lastAccess, entry)
      ensures data[..] == Apply(old(data[..]), if copied then Puts(config, line, entry.data) else [])
      ensures applied == old(applied) + (if copied then 1 else 0)
    {
      copied := false;
      if entry.time > lastAccess {
        copied := WriteCacheline(line, entry.data);
        if copied {
          applied := applied + 1;
        }
      }
    }

    method RegisterBackInvalidation(line: nat, entry: Pending)
      modifies this`pending
      ensures pending == old(pending)[line := old(PendingAt(State(), line)) + [entry]]
    {
      pending := pending[line := (if line in pending then pending[line] else []) + [entry]];
    }

    /** One entry per thread that lost its copy. */
    method RegisterAll(line: nat, threads: set<int>, entry: Pending)
      modifies this`pending
      ensures pending == if threads == {} then old(pending)
                         else old(pending)[line := old(PendingAt(State(), line)) + seq(|threads|, _ => entry)]
    {
      var left := threads;
      ghost var sent: nat := 0;
      while left != {}
        invariant sent + |left| == |threads|
        invariant pending == if sent == 0 then old(pending)
                             else old(pending)[line := old(PendingAt(State(), line)) + seq(sent, _ => entry)]
      {
        NonEmpty(left);
        var t: int :| t in left;
        left := left - {t};
        RegisterBackInvalidation(line, entry);
        assert old(PendingAt(State(), line)) + seq(sent + 1, _ => entry)
            == (old(PendingAt(State(), line)) + seq(sent, _ => entry)) + [entry];
        assert old(PendingAt(State(), line)) + seq(0, _ => entry) == old(PendingAt(State(), line));
        sent := sent + 1;
      }
    }

    method CountInvalidations(l: Line, tid: nat)
      modifies this`invalidations
      ensures invalidations == old(invalidations)
              + |l.sharers - {tid}| + (if l.owner != NO_OWNER && l.owner != tid then 1 else 0)
    {
      var left := l.sharers - {tid};
      while left != {}
        invariant left <= l.sharers - {tid}
        invariant invalidations + |left| == old(invalidations) + |l.sharers - {tid}|
      {
        NonEmpty(left);
        var t: int :| t in left;
        left := left - {t};
        invalidations := invalidations + 1;
      }
      if l.owner != NO_OWNER && l.owner != tid {
        invalidations := invalidations + 1;
      }
    }

    method HandleReadCoherency(l: Line, tid: nat) returns (r: Line)
      modifies this`downgrades
      ensures r == ReadMesi(l, tid) && downgrades == old(downgrades) + DowngradeCount(l, tid)
    {
      match l.state {
        case Invalid => r := l.(state := Shared, sharers := l.sharers + {tid});
        case Shared => r := l.(sharers := l.sharers + {tid});
        case _ =>
          if l.owner != NO_OWNER && l.owner != tid {
            downgrades := downgrades + 1;
          }
          r := l.(state := Shared, sharers := l.sharers + {l.owner} + {tid}, owner := NO_OWNER);
      }
    }

    method HandleWriteCoherency(l: Line, tid: nat) returns (r: Line)
      modifies this`invalidations
      ensures r == WriteMesi(l, tid) && invalidations == old(invalidations) + InvalidationCount(l, tid)
    {
      match l.state {
        case Invalid => r := l.(state := Modified, owner := tid);
        case Shared =>
          CountInvalidations(l, tid);
          r := l.(state := Modified, owner := tid, sharers := {});
        case _ =>
          if l.owner != tid {
            CountInvalidations(l, tid);
          }
          r := l.(state := Modified, owner := tid);
      }
    }

    method GetCachelineMetadata(line: nat) returns (l: Line)
      modifies this`meta
      ensures l == old(MetaAt(State(), line)) && meta == old(meta)[line := l]
    {
      if line !in meta {
        meta := meta[line := UNTOUCHED];
      }
      l := meta[line];
    }

    method HandleRead(q: Request) returns (reply: Reply)
      requires Valid() && q.Read?
      modifies this, data
      ensures (State(), reply) == StepRead(old(State()), q)
    {
      if !ValidAddress(config, q.addr) {
        return Failed;
      }
      var line, size := LineOf(q.addr), Clamp(q.size);
      var l := AcquireForRead(line, q.tid);
      var ok, bytes := ReadCacheline(q.addr, size);
      if !ok {
        return Failed;
      }
      Overwrite(old(meta), line, ReadMesi(l, q.tid), ReadMesi(l, q.tid).(lastAccess := q.time));
      TouchLine(line, q.time);
      reply := Bytes(bytes);
    }

    /** Drains the line's pending entries and shares it; `l` is its record before. */
    method AcquireForRead(line: nat, tid: nat) returns (l: Line)
      requires Valid()
      modifies this, data
      ensures l == old(MetaAt(State(), line))
      ensures var q := old(PendingAt(State(), line));
              State() == old(State()).(mem := Apply(old(data[..]), DrainPuts(config, line, l.lastAccess, q)),
                                       meta := old(meta)[line := ReadMesi(l, tid)],
                                       pending := old(pending) - {line},
                                       downgrades := old(downgrades) + DowngradeCount(l, tid),
                                       applied := old(applied) + DrainCount(config, line, l.lastAccess, q))
    {
      l := GetCachelineMetadata(line);
      var _ := CheckAndApplyBackInvalidations(line, l.lastAccess);
      var l' := HandleReadCoherency(l, tid);
      Overwrite(old(meta), line, l, l');
      meta := meta[line := l'];
    }

    method TouchLine(line: nat, time: nat)
      requires line in meta
      modifies this`meta
      ensures meta == old(meta)[line := old(meta)[line].(lastAccess := time)]
    {
      meta := meta[line := meta[line].(lastAccess := time)];
    }

    /** Takes the line for writing; `l` is its record before, `threads` those who may hold it. */
    method AcquireForWrite(line: nat, tid: nat) returns (l: Line, threads: set<int>)
      modifies this`meta, this`invalidations
      ensures l == old(MetaAt(State(), line)) && threads - {tid} == Targets(l, tid)
      ensures meta == old(meta)[line := WriteMesi(l, tid)]
      ensures invalidations == old(invalidations) + InvalidationCount(l, tid)
    {
      l := GetCachelineMetadata(line);
      threads := ThreadsToInvalidate(l, tid);
      var l' := HandleWriteCoherency(l, tid);
      Overwrite(old(meta), line, l, l');
      meta := meta[line := l'];
    }

    /** The threads that hold the line, as the write path collects them. */
    method ThreadsToInvalidate(l: Line, tid: nat) returns (r: set<int>)
      ensures r - {tid} == Targets(l, tid)
    {
      r := {};
      if l.state.Shared? {
        r := l.sharers;
      } else if (l.state.Exclusive? || l.state.Modified?) && l.owner != tid {
        r := {l.owner};
      }
    }

    /** Stores the bytes, then leaves one copy of them for every thread that lost the line. */
    method StoreAndRegister(q: Request, size: nat, threads: set<int>) returns (ok: bool)
      requires Valid() && q.Write? && size <= |q.data|
      modifies this`pending, data
      ensures ok == Accepts(config, q.addr, size)
      ensures !ok ==> pending == old(pending) && data[..] == old(data[..])
      ensures ok ==>
                var m := Apply(old(data[..]), Puts(config, q.addr, q.data[..size]));
                var p := Pending(q.tid, q.time, Copy(config, m, q.addr, size));
                && data[..] == m
                && pending == if threads == {} then old(pending)
                              else old(pending)[LineOf(q.addr) := old(PendingAt(State(), LineOf(q.addr)))
                                                                  + seq(|threads|, _ => p)]
    {
      ok := WriteCacheline(q.addr, q.data[..size]);
      if ok {
        var _, dirty := ReadCacheline(q.addr, size);
        RegisterAll(LineOf(q.addr), threads, Pending(q.tid, q.time, dirty));
      }
    }

    method HandleWrite(q: Request) returns (reply: Reply)
      requires Valid() && q.Write? && |q.data| == LINE_SIZE
      modifies this, data
      ensures (State(), reply) == StepWrite(old(State()), q)
    {
      if !ValidAddress(config, q.addr) {
        return Failed;
      }
      var line, size := LineOf(q.addr), Clamp(q.size);
      var l, threads := AcquireForWrite(line, q.tid);
      var ok := StoreAndRegister(q, size, threads - {q.tid});
      if !ok {
        return Failed;
      }
      TouchLine(line, q.time);
      reply := Stored;
    }

    method StoreWord(addr: nat, v: nat)
      requires Valid() && addr + 8 <= data.Length
      modifies data
      ensures data[..] == Apply(old(data[..]), WordPuts(addr, v))
    {
      var bytes := Encode(v, 8);
      ghost var puts := RawPuts(addr, bytes);
      var i := 0;
      while i < |bytes|
        invariant 0 <= i <= |bytes| == 8
        invariant data[..] == Apply(old(data[..]), puts[..i])
      {
        assert puts[..i + 1][..i] == puts[..i];
        data[addr + i] := bytes[i];
        i := i + 1;
      }
      assert puts[..|bytes|] == puts;
    }

    method HandleAtomicRequest(q: Request) returns (reply: Reply)
      requires Valid() && (q.Faa? || q.Cas?) && Legal(config, q)
      modifies this, data
      ensures (State(), reply) == StepAtomic(old(State()), q)
    {
      var line := LineOf(q.addr);
      var l := GetCachelineMetadata(line);
      ghost var before := l;
      var was := Decode(data[q.addr..q.addr + 8]);
      assert data[..][q.addr..q.addr + 8] == data[q.addr..q.addr + 8];
      reply := Old(was);
      l := l.(lastAccess := q.time);
      if q.Faa? || was == q.expected {
        StoreWord(q.addr, if q.Faa? then WordSum(was, q.value) else q.value);
        l := l.(state := Modified, owner := q.tid, sharers := {}, version := WordSum(l.version, 1));
      }
      Overwrite(old(meta), line, before, l);
      meta := meta[line := l];
    }

    method HandleRequest(q: Request) returns (reply: Reply)
      requires Valid() && Legal(config, q)
      modifies this, data
      ensures (State(), reply) == Step(old(State()), q)
    {
      match q {
        case Read(_, _, _, _) => reply := HandleRead(q);
        case Write(_, _, _, _, _) => reply := HandleWrite(q);
        case Fence(addr) =>
          var _ := GetCachelineMetadata(LineOf(addr));
          reply := Old(0);
        case _ => reply := HandleAtomicRequest(q);
      }
    }
  }
}
