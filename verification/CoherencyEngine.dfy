/**
 * The unified MOESI directory: one entry per 64-byte line, moved by reads, writes,
 * atomics and three kinds of message from other nodes.
 *
 * `ReadEntry`, `WriteEntry` and the `Remote...` functions give one entry's step;
 * `Step` lifts them to the directory; the class performs the steps in place, as the
 * source does.  The results speak of whole runs: what an entry is as a function of
 * the accesses made to its line, what no run can break, and how much traffic a run
 * can cost.  Latencies (floating point) are not modelled.
 */
module Coherency {
  import opened Wrappers
  import opened CacheLines
  import opened Moesi

  /** `UINT32_MAX`, the mark for "no owner"; no node carries this id. */
  const NO_OWNER: nat := 0xFFFF_FFFF
  const VERSION_MODULUS: nat := 0x1_0000_0000

  type Node = n: nat | n < NO_OWNER

  datatype Entry = Entry(
    state: CacheState,
    owner: nat,
    ownerHead: nat,
    sharers: set<nat>,
    version: nat,
    lastAccess: nat,
    dirty: bool)

  /** The engine's statistics; also used for what one operation adds to them. */
  datatype Traffic = Traffic(
    messages: nat,
    invalidations: nat,
    downgrades: nat,
    writebacks: nat,
    remoteOps: nat,
    ops: nat)

  datatype Outcome = Outcome(entry: Entry, newState: CacheState, source: nat, cost: Traffic)

  datatype Access = Access(isWrite: bool, node: Node, head: nat, time: nat)

  datatype Op =
    | Local(addr: nat, access: Access)
    | RemoteInvalidate(addr: nat)
    | RemoteDowngrade(addr: nat)
    | RemoteWriteback(addr: nat, from: Node)

  datatype Engine = Engine(localNode: Node, directory: map<nat, Entry>, total: Traffic)

  const FREE: Traffic := Traffic(0, 0, 0, 0, 0, 0)
  const FRESH: Entry := Entry(Invalid, NO_OWNER, NO_OWNER, {}, 0, 0, false)

  function Plus(a: Traffic, b: Traffic): (r: Traffic) {
    Traffic(a.messages + b.messages, a.invalidations + b.invalidations, a.downgrades + b.downgrades,
            a.writebacks + b.writebacks, a.remoteOps + b.remoteOps, a.ops + b.ops)
  }

  // ---------------------------------------------------------------------------
  // One entry
  // ---------------------------------------------------------------------------

  function ReadEntry(here: Node, e: Entry, a: Access): (r: Outcome) {
    var n := a.node;
    var t := e.(lastAccess := a.time);
    if e.owner == n && (e.state.Exclusive? || e.state.Modified? || e.state.Owned?) then
      Outcome(t, e.state, here, FREE)
    else if n in e.sharers then
      Outcome(t, Shared, here, FREE)
    else
      match e.state
      case Invalid =>
        Outcome(t.(state := Shared, owner := n, ownerHead := a.head, sharers := e.sharers + {n}), Shared, here, FREE)
      case Shared =>
        Outcome(t.(sharers := e.sharers + {n}), Shared, here, FREE)
      case Exclusive =>
        if e.owner == NO_OWNER then
          Outcome(t.(state := Shared, sharers := e.sharers + {n}), Shared, NO_OWNER, FREE)
        else
          Outcome(t.(state := Shared, owner := NO_OWNER, ownerHead := NO_OWNER, sharers := e.sharers + {e.owner} + {n}),
                  Shared, NO_OWNER, FREE.(messages := 1, downgrades := 1))
      case Modified =>
        Outcome(t.(state := Owned, sharers := e.sharers + {n}), Shared, e.owner,
                FREE.(messages := if e.owner == NO_OWNER then 0 else 1))
      case Owned =>
        Outcome(t.(sharers := e.sharers + {n}), Shared, e.owner, FREE.(messages := 1))
  }

  /** What invalidating every sharer but `n` costs. */
  function InvalidationCost(e: Entry, n: Node): (r: Traffic) {
    FREE.(messages := |e.sharers - {n}|, invalidations := |e.sharers - {n}|)
  }

  function WriteEntry(here: Node, e: Entry, a: Access): (r: Outcome) {
    var n := a.node;
    var t := e.(lastAccess := a.time, version := (e.version + 1) % VERSION_MODULUS, state := Modified, dirty := true);
    var taken := t.(owner := n, ownerHead := a.head, sharers := {});
    if e.owner == n && (e.state.Exclusive? || e.state.Modified?) then
      Outcome(t, Modified, here, FREE)
    else if e.owner == n && e.state.Owned? then
      Outcome(t.(sharers := {}), Modified, here, InvalidationCost(e, n))
    else
      match e.state
      case Invalid => Outcome(taken, Modified, here, FREE)
      case Shared => Outcome(taken, Modified, here, InvalidationCost(e, n))
      case Exclusive => Outcome(taken, Modified, here, FREE.(messages := 1, invalidations := 1))
      case Modified => Outcome(taken, Modified, e.owner, FREE.(messages := 1, writebacks := 1))
      case Owned => Outcome(taken, Modified, e.owner, InvalidationCost(e, n).(writebacks := 1))
  }

  /** A read, a write or an atomic (which the engine handles as a write), with the per-call statistics. */
  function AccessEntry(here: Node, e: Entry, a: Access): (r: Outcome) {
    var o := if a.isWrite then WriteEntry(here, e, a) else ReadEntry(here, e, a);
    o.(cost := o.cost.(ops := 1, remoteOps := if a.node != here then 1 else 0))
  }

  function InvalidateEntry(here: Node, e: Entry): (r: Entry) {
    var t := e.(sharers := e.sharers - {here});
    if e.owner == here then
      t.(owner := NO_OWNER, ownerHead := NO_OWNER, state := Invalid, dirty := e.dirty || e.state.Modified?)
    else t
  }

  function InvalidateCost(here: Node, e: Entry): (r: Traffic) {
    FREE.(invalidations := 1, writebacks := if e.owner == here && e.state.Modified? then 1 else 0)
  }

  function DowngradeEntry(here: Node, e: Entry): (r: Entry) {
    if e.owner == here && e.state.Modified? then e.(state := Owned)
    else if e.owner == here && e.state.Exclusive? then e.(state := Shared, sharers := e.sharers + {here})
    else e
  }

  function WritebackEntry(e: Entry, from: Node): (r: Entry) {
    if e.owner == from then
      e.(dirty := false, owner := NO_OWNER, ownerHead := NO_OWNER, state := Invalid, sharers := e.sharers - {from})
    else e
  }

  // ---------------------------------------------------------------------------
  // The directory
  // ---------------------------------------------------------------------------

  function EntryAt(d: map<nat, Entry>, line: nat): (r: Entry) {
    if line in d then d[line] else FRESH
  }

  /** The outcome of an access; only `Local` operations answer. */
  function Reply(g: Engine, op: Op): (r: Outcome)
    requires op.Local?
  {
    AccessEntry(g.localNode, EntryAt(g.directory, LineOf(op.addr)), op.access)
  }

  function Step(g: Engine, op: Op): (r: Engine) {
    var line := LineOf(op.addr);
    if op.Local? then
      var o := Reply(g, op);
      g.(directory := g.directory[line := o.entry], total := Plus(g.total, o.cost))
    else if line !in g.directory then g
    else
      var e := g.directory[line];
      match op
      case RemoteInvalidate(_) =>
        g.(directory := g.directory[line := InvalidateEntry(g.localNode, e)],
           total := Plus(g.total, InvalidateCost(g.localNode, e)))
      case RemoteDowngrade(_) =>
        g.(directory := g.directory[line := DowngradeEntry(g.localNode, e)],
           total := Plus(g.total, FREE.(downgrades := 1)))
      case RemoteWriteback(_, from) =>
        g.(directory := g.directory[line := WritebackEntry(e, from)],
           total := Plus(g.total, FREE.(writebacks := 1)))
  }

  function Start(here: Node): (r: Engine) {
    Engine(here, map[], FREE)
  }

  function Exec(here: Node, run: seq<Op>): (r: Engine)
    ensures r.localNode == here
  {
    if run == [] then Start(here) else Step(Exec(here, run[..|run| - 1]), run[|run| - 1])
  }

  // ---------------------------------------------------------------------------
  // The engine as the source runs it
  // ---------------------------------------------------------------------------

  class CoherencyEngine {
    const localNode: Node
    var directory: map<nat, Entry>
    var total: Traffic

    ghost function State(): (r: Engine)
      reads this
    {
      Engine(localNode, directory, total)
    }

    constructor (here: Node)
      ensures State() == Start(here)
    {
      localNode := here;
      directory := map[];
      total := FREE;
    }

    method GetOrCreateEntry(addr: nat) returns (e: Entry)
      modifies this`directory
      ensures e == EntryAt(old(directory), LineOf(addr))
      ensures directory == old(directory)[LineOf(addr) := e]
    {
      var line := LineOf(addr);
      if line !in directory {
        directory := directory[line := FRESH];
      }
      e := directory[line];
    }

    method SharersExcept(sharers: set<nat>, except: Node) returns (r: set<nat>)
      ensures r == sharers - {except}
    {
      r := {};
      var pending := sharers;
      while pending != {}
        invariant pending <= sharers
        invariant r == sharers - pending - {except}
      {
        var sharer :| sharer in pending;
        pending := pending - {sharer};
        if sharer != except {
          r := r + {sharer};
        }
      }
    }

    /** Counts one message for each sharer to invalidate, and clears them all. */
    method InvalidateSharers(e: Entry, except: Node) returns (r: Entry)
      modifies this`total
      ensures r == e.(sharers := {})
      ensures total == Plus(old(total), InvalidationCost(e, except))
    {
      var toInvalidate := SharersExcept(e.sharers, except);
      ghost var sent: nat := 0;
      while toInvalidate != {}
        invariant sent + |toInvalidate| == |e.sharers - {except}|
        invariant total == Plus(old(total), FREE.(messages := sent, invalidations := sent))
      {
        var sharer :| sharer in toInvalidate;
        toInvalidate := toInvalidate - {sharer};
        total := total.(messages := total.messages + 1, invalidations := total.invalidations + 1);
        sent := sent + 1;
      }
      r := e.(sharers := {});
    }

    /** Moves an exclusive owner to the sharers, or a modified one to Owned; called on Exclusive lines only. */
    method DowngradeOwner(e: Entry, requester: Node) returns (r: Entry)
      modifies this`total
      ensures e.owner == NO_OWNER || e.owner == requester ==> r == e && total == old(total)
      ensures e.owner != NO_OWNER && e.owner != requester ==>
                && total == Plus(old(total), FREE.(messages := 1, downgrades := 1))
                && (e.state.Modified? ==> r == e.(state := Owned, dirty := true))
                && (e.state.Exclusive? ==>
                      r == e.(sharers := e.sharers + {e.owner}, state := Shared,
                              owner := NO_OWNER, ownerHead := NO_OWNER))
                && (!e.state.Modified? && !e.state.Exclusive? ==> r == e)
    {
      r := e;
      if e.owner == NO_OWNER || e.owner == requester {
        return;
      }
      if e.state.Modified? {
        r := e.(state := Owned, dirty := true);
      } else if e.state.Exclusive? {
        r := e.(sharers := e.sharers + {e.owner}, state := Shared, owner := NO_OWNER, ownerHead := NO_OWNER);
      }
      total := total.(messages := total.messages + 1, downgrades := total.downgrades + 1);
    }

    /** The common tail of every access. */
    method CountOp(node: Node)
      modifies this`total
      ensures total == Plus(old(total), FREE.(ops := 1, remoteOps := if node != localNode then 1 else 0))
    {
      if node != localNode {
        total := total.(remoteOps := total.remoteOps + 1);
      }
      total := total.(ops := total.ops + 1);
    }

    /** Acquires shared access for a node that has none. */
    method AcquireShared(e: Entry, a: Access) returns (r: Entry, source: nat)
      requires a.node !in e.sharers
      requires e.owner == a.node ==> e.state.Invalid? || e.state.Shared?
      modifies this`total
      ensures var o := ReadEntry(localNode, e, a);
              && o.entry == r.(lastAccess := a.time)
              && r.lastAccess == e.lastAccess
              && o.newState == Shared
              && o.source == source
              && total == Plus(old(total), o.cost)
    {
      r, source := e, localNode;
      match e.state {
        case Invalid =>
          r := e.(sharers := e.sharers + {a.node}, state := Shared, owner := a.node, ownerHead := a.head);
        case Shared =>
          r := e.(sharers := e.sharers + {a.node});
        case Exclusive =>
          r := DowngradeOwner(e, a.node);
          source := r.owner;
          r := r.(sharers := r.sharers + {a.node}, state := Shared);
        case Modified =>
          if e.owner != NO_OWNER {
            total := total.(messages := total.messages + 1);
          }
          source := e.owner;
          r := e.(state := Owned, sharers := e.sharers + {a.node});
        case Owned =>
          source := e.owner;
          total := total.(messages := total.messages + 1);
          r := e.(sharers := e.sharers + {a.node});
      }
    }

    method ReadLine(e: Entry, a: Access) returns (r: Entry, newState: CacheState, source: nat)
      modifies this`total
      ensures var o := ReadEntry(localNode, e, a);
              && o.entry == r
              && o.newState == newState
              && o.source == source
              && total == Plus(old(total), o.cost)
    {
      r, newState, source := e, Shared, localNode;
      if e.owner == a.node && (e.state.Exclusive? || e.state.Modified? || e.state.Owned?) {
        newState := e.state;
      } else if a.node !in e.sharers {
        r, source := AcquireShared(e, a);
      }
      r := r.(lastAccess := a.time);
    }

    method ProcessRead(addr: nat, a: Access) returns (newState: CacheState, source: nat)
      requires !a.isWrite
      modifies this
      ensures State() == Step(old(State()), Local(addr, a))
      ensures var o := Reply(old(State()), Local(addr, a)); newState == o.newState && source == o.source
    {
      var e := GetOrCreateEntry(addr);
      e, newState, source := ReadLine(e, a);
      directory := directory[LineOf(addr) := e];
      CountOp(a.node);
    }

    /** Takes the line away from whoever holds it. */
    method AcquireExclusive(e: Entry, a: Access) returns (source: nat)
      requires e.owner == a.node ==> e.state.Invalid? || e.state.Shared?
      modifies this`total
      ensures var o := WriteEntry(localNode, e, a);
              && o.source == source
              && total == Plus(old(total), o.cost)
    {
      source := localNode;
      match e.state {
        case Invalid =>
        case Shared =>
          var _ := InvalidateSharers(e, a.node);
        case Exclusive =>
          total := total.(messages := total.messages + 1, invalidations := total.invalidations + 1);
        case Modified =>
          source := e.owner;
          total := total.(messages := total.messages + 1, writebacks := total.writebacks + 1);
        case Owned =>
          var _ := InvalidateSharers(e, a.node);
          source := e.owner;
          total := total.(writebacks := total.writebacks + 1);
      }
    }

    method WriteLine(e: Entry, a: Access) returns (r: Entry, source: nat)
      modifies this`total
      ensures var o := WriteEntry(localNode, e, a);
              && o.entry == r
              && o.source == source
              && total == Plus(old(total), o.cost)
    {
      source := localNode;
      r := e.(version := (e.version + 1) % VERSION_MODULUS, lastAccess := a.time);
      if e.owner == a.node && (e.state.Exclusive? || e.state.Modified?) {
        r := r.(state := Modified, dirty := true);
      } else if e.owner == a.node && e.state.Owned? {
        r := InvalidateSharers(r, a.node);
        r := r.(state := Modified, dirty := true);
      } else {
        source := AcquireExclusive(e, a);
        r := r.(owner := a.node, ownerHead := a.head, state := Modified, sharers := {}, dirty := true);
      }
    }

    method ProcessWrite(addr: nat, a: Access) returns (newState: CacheState, source: nat)
      requires a.isWrite
      modifies this
      ensures State() == Step(old(State()), Local(addr, a))
      ensures var o := Reply(old(State()), Local(addr, a)); newState == o.newState && source == o.source
    {
      var e := GetOrCreateEntry(addr);
      newState := Modified;
      e, source := WriteLine(e, a);
      directory := directory[LineOf(addr) := e];
      CountOp(a.node);
    }

    /** An atomic is a write; it only adds latency. */
    method ProcessAtomic(addr: nat, a: Access) returns (newState: CacheState, source: nat)
      requires a.isWrite
      modifies this
      ensures State() == Step(old(State()), Local(addr, a))
      ensures newState == Modified && source == Reply(old(State()), Local(addr, a)).source
    {
      newState, source := ProcessWrite(addr, a);
    }

    method HandleRemoteInvalidate(addr: nat)
      modifies this
      ensures State() == Step(old(State()), RemoteInvalidate(addr))
    {
      var line := LineOf(addr);
      if line !in directory {
        return;
      }
      var e := directory[line];
      e := e.(sharers := e.sharers - {localNode});
      if e.owner == localNode {
        if e.state.Modified? {
          e := e.(dirty := true);
          total := total.(writebacks := total.writebacks + 1);
        }
        e := e.(owner := NO_OWNER, ownerHead := NO_OWNER, state := Invalid);
      }
      directory := directory[line := e];
      total := total.(invalidations := total.invalidations + 1);
    }

    method HandleRemoteDowngrade(addr: nat)
      modifies this
      ensures State() == Step(old(State()), RemoteDowngrade(addr))
    {
      var line := LineOf(addr);
      if line !in directory {
        return;
      }
      var e := directory[line];
      if e.owner == localNode {
        if e.state.Modified? {
          e := e.(state := Owned);
        } else if e.state.Exclusive? {
          e := e.(state := Shared, sharers := e.sharers + {localNode});
        }
      }
      directory := directory[line := e];
      total := total.(downgrades := total.downgrades + 1);
    }

    method HandleRemoteWriteback(addr: nat, from: Node)
      modifies this
      ensures State() == Step(old(State()), RemoteWriteback(addr, from))
    {
      var line := LineOf(addr);
      if line !in directory {
        return;
      }
      var e := directory[line];
      if e.owner == from {
        e := e.(dirty := false, owner := NO_OWNER, ownerHead := NO_OWNER, state := Invalid,
                sharers := e.sharers - {from});
      }
      directory := directory[line := e];
      total := total.(writebacks := total.writebacks + 1);
    }
  }

  // ---------------------------------------------------------------------------
  // Exact history of a line
  // ---------------------------------------------------------------------------

  /** The index of the last write, or -1. */
  function LastWrite(h: seq<Access>): (r: int)
    ensures -1 <= r < |h|
    ensures 0 <= r ==> h[r].isWrite
    ensures forall i :: r < i < |h| ==> !h[i].isWrite
  {
    if h == [] then -1
    else if h[|h| - 1].isWrite then |h| - 1
    else LastWrite(h[..|h| - 1])
  }

  /** Every node that has read since the last write. */
  function ReadersSince(h: seq<Access>): (r: set<nat>) {
    set i | LastWrite(h) < i < |h| :: h[i].node
  }

  function Writes(h: seq<Access>): (r: nat) {
    if h == [] then 0 else Writes(h[..|h| - 1]) + (if h[|h| - 1].isWrite then 1 else 0)
  }

  /** Where the unbroken series of writes by the last writer begins. */
  function TenureStart(h: seq<Access>): (r: nat)
    requires 0 <= LastWrite(h)
    ensures r <= LastWrite(h) && h[r].isWrite && h[r].node == h[LastWrite(h)].node
  {
    var before := h[..|h| - 1];
    if !h[|h| - 1].isWrite then TenureStart(before)
    else if 0 <= LastWrite(before) && before[LastWrite(before)].node == h[|h| - 1].node then TenureStart(before)
    else |h| - 1
  }

  /** What the entry must be, said from the accesses alone. */
  function Expected(h: seq<Access>): (r: Entry)
    requires h != []
  {
    var now := h[|h| - 1].time;
    if LastWrite(h) < 0 then
      Entry(Shared, h[0].node, h[0].head, ReadersSince(h), 0, now, false)
    else
      var w := h[LastWrite(h)].node;
      var others := ReadersSince(h) - {w};
      Entry(if others == {} then Modified else Owned, w, h[TenureStart(h)].head, others,
            Writes(h) % VERSION_MODULUS, now, true)
  }

  /** Who supplies the data for the access `a` that follows the history `h`. */
  function ExpectedSource(here: Node, h: seq<Access>, a: Access): (r: nat) {
    if LastWrite(h) < 0 then here
    else
      var w := h[LastWrite(h)].node;
      if a.node == w || (!a.isWrite && a.node in ReadersSince(h)) then here else w
  }

  /** What the requester is told its copy is. */
  function ExpectedState(h: seq<Access>, a: Access): (r: CacheState) {
    if a.isWrite then Modified
    else if LastWrite(h) < 0 || a.node != h[LastWrite(h)].node then Shared
    else if ReadersSince(h) - {a.node} == {} then Modified
    else Owned
  }

  /** What the access `a` costs after the history `h`. */
  function ExpectedCost(here: Node, h: seq<Access>, a: Access): (r: Traffic) {
    var call := FREE.(ops := 1, remoteOps := if a.node != here then 1 else 0);
    var unwritten := LastWrite(h) < 0;
    var copies := if unwritten then ReadersSince(h) else ReadersSince(h) - {h[LastWrite(h)].node};
    var stolen := !unwritten && a.node != h[LastWrite(h)].node;
    if !a.isWrite then call.(messages := if stolen && a.node !in copies then 1 else 0)
    else if stolen && copies == {} then call.(messages := 1, writebacks := 1)
    else call.(messages := |copies - {a.node}|, invalidations := |copies - {a.node}|,
               writebacks := if stolen then 1 else 0)
  }

  lemma ReadersSnoc(h: seq<Access>, a: Access)
    ensures LastWrite(h + [a]) == if a.isWrite then |h| else LastWrite(h)
    ensures ReadersSince(h + [a]) == if a.isWrite then {} else ReadersSince(h) + {a.node}
    ensures Writes(h + [a]) == Writes(h) + if a.isWrite then 1 else 0
  {
    var g := h + [a];
    assert g[..|g| - 1] == h;
    if !a.isWrite {
      ReaderAdded(h, a);
    }
  }

  lemma ReaderAdded(h: seq<Access>, a: Access)
    requires !a.isWrite
    ensures ReadersSince(h + [a]) == ReadersSince(h) + {a.node}
  {
    var g := h + [a];
    assert g[..|g| - 1] == h && g[|h|] == a;
    assert LastWrite(g) == LastWrite(h);
    forall n ensures n in ReadersSince(g) <==> n in ReadersSince(h) + {a.node} {
      if n in ReadersSince(h) {
        var i :| LastWrite(h) < i < |h| && h[i].node == n;
        assert g[i].node == n;
      }
      if n in ReadersSince(g) {
        var i :| LastWrite(g) < i < |g| && g[i].node == n;
        assert i < |h| ==> h[i].node == n;
      }
    }
  }

  lemma TenureSnoc(h: seq<Access>, a: Access)
    requires 0 <= LastWrite(h + [a])
    ensures TenureStart(h + [a]) ==
            if a.isWrite && (LastWrite(h) < 0 || h[LastWrite(h)].node != a.node) then |h|
            else TenureStart(h)
  {
    assert (h + [a])[..|h + [a]| - 1] == h;
  }

  lemma {:induction false} WritesCounted(h: seq<Access>)
    ensures LastWrite(h) < 0 <==> Writes(h) == 0
  {
    if h != [] {
      WritesCounted(h[..|h| - 1]);
    }
  }

  /** The history of one access, outright. */
  lemma OneAccess(a: Access)
    ensures LastWrite([a]) == if a.isWrite then 0 else -1
    ensures ReadersSince([a]) == if a.isWrite then {} else {a.node}
    ensures Writes([a]) == if a.isWrite then 1 else 0
  {
    assert [a][..0] == [];
    assert !a.isWrite ==> [a][0].node in ReadersSince([a]);
  }

  lemma FirstRead(a: Access)
    requires !a.isWrite
    ensures Expected([a]) == Entry(Shared, a.node, a.head, {a.node}, 0, a.time, false)
  {
    OneAccess(a);
  }

  lemma FirstWrite(a: Access)
    requires a.isWrite
    ensures Expected([a]) == Entry(Modified, a.node, a.head, {}, 1, a.time, true)
  {
    OneAccess(a);
    assert TenureStart([a]) == 0;
  }

  lemma FirstEntry(here: Node, a: Access)
    ensures AccessEntry(here, FRESH, a).entry == Expected([a])
  {
    if a.isWrite {
      FirstWrite(a);
    } else {
      FirstRead(a);
      assert {} + {a.node} == {a.node};
    }
  }

  lemma FirstReply(here: Node, a: Access)
    ensures AccessEntry(here, FRESH, a).source == ExpectedSource(here, [], a)
    ensures AccessEntry(here, FRESH, a).newState == ExpectedState([], a)
    ensures AccessEntry(here, FRESH, a).cost == ExpectedCost(here, [], a)
  {
    assert ReadersSince([]) == {};
  }

  lemma NextRead(here: Node, h: seq<Access>, a: Access)
    requires h != [] && !a.isWrite
    ensures AccessEntry(here, Expected(h), a).entry == Expected(h + [a])
    ensures AccessEntry(here, Expected(h), a).source == ExpectedSource(here, h, a)
    ensures AccessEntry(here, Expected(h), a).newState == ExpectedState(h, a)
    ensures AccessEntry(here, Expected(h), a).cost == ExpectedCost(here, h, a)
  {
    ReadersSnoc(h, a);
    if 0 <= LastWrite(h) {
      TenureSnoc(h, a);
      var w := h[LastWrite(h)].node;
      assert ReadersSince(h + [a]) - {w} == (ReadersSince(h) - {w}) + ({a.node} - {w});
    }
  }

  lemma VersionIncrement(writes: nat)
    ensures (writes % VERSION_MODULUS + 1) % VERSION_MODULUS == (writes + 1) % VERSION_MODULUS
  {
  }

  /** The entry right after a write, from the history before it. */
  lemma ExpectedAfterWrite(h: seq<Access>, a: Access)
    requires a.isWrite
    ensures var kept := 0 <= LastWrite(h) && h[LastWrite(h)].node == a.node;
            Expected(h + [a])
            == Entry(Modified, a.node, if kept then h[TenureStart(h)].head else a.head, {},
                     (Writes(h) + 1) % VERSION_MODULUS, a.time, true)
  {
    ReadersSnoc(h, a);
    TenureSnoc(h, a);
    assert ReadersSince(h + [a]) - {a.node} == {};
  }

  /** Whatever held the line, a write leaves it modified by the writer alone, one version on. */
  lemma WriteTakes(here: Node, e: Entry, a: Access)
    requires e.state.Modified? && e.owner == a.node ==> e.sharers == {}
    requires !e.state.Exclusive? && !e.state.Invalid?
    ensures var kept := e.owner == a.node && !e.state.Shared?;
            WriteEntry(here, e, a).entry
            == Entry(Modified, a.node, if kept then e.ownerHead else a.head, {},
                     (e.version + 1) % VERSION_MODULUS, a.time, true)
  {
  }

  lemma ExpectedVersion(h: seq<Access>)
    requires h != []
    ensures Expected(h).version == Writes(h) % VERSION_MODULUS
  {
    WritesCounted(h);
  }

  lemma NextWriteEntry(here: Node, h: seq<Access>, a: Access)
    requires h != [] && a.isWrite
    ensures WriteEntry(here, Expected(h), a).entry == Expected(h + [a])
  {
    ExpectedAfterWrite(h, a);
    ExpectedVersion(h);
    VersionIncrement(Writes(h));
    WriteTakes(here, Expected(h), a);
  }

  lemma NextWrite(here: Node, h: seq<Access>, a: Access)
    requires h != [] && a.isWrite
    ensures AccessEntry(here, Expected(h), a).entry == Expected(h + [a])
    ensures AccessEntry(here, Expected(h), a).source == ExpectedSource(here, h, a)
    ensures AccessEntry(here, Expected(h), a).newState == ExpectedState(h, a)
    ensures AccessEntry(here, Expected(h), a).cost == ExpectedCost(here, h, a)
  {
    NextWriteEntry(here, h, a);
    if 0 <= LastWrite(h) {
      var w := h[LastWrite(h)].node;
      assert w !in ReadersSince(h) - {w};
    }
  }

  /** The accesses a run makes to one line, in order. */
  function LineHistory(run: seq<Op>, line: nat): (r: seq<Access>) {
    if run == [] then []
    else
      var op := run[|run| - 1];
      LineHistory(run[..|run| - 1], line) + (if op.Local? && LineOf(op.addr) == line then [op.access] else [])
  }

  predicate LocalOnly(run: seq<Op>) {
    forall i :: 0 <= i < |run| ==> run[i].Local?
  }

  /**
   * After any run of reads, writes and atomics the directory is, line by line, the
   * function `Expected` of the accesses made to that line, and holds no other line.
   */
  lemma {:induction false} DirectoryIsHistory(here: Node, run: seq<Op>, line: nat)
    requires LocalOnly(run)
    ensures line in Exec(here, run).directory <==> LineHistory(run, line) != []
    ensures LineHistory(run, line) != [] ==> Exec(here, run).directory[line] == Expected(LineHistory(run, line))
  {
    if run != [] {
      var before, op := run[..|run| - 1], run[|run| - 1];
      DirectoryIsHistory(here, before, line);
      if LineOf(op.addr) == line {
        var h := LineHistory(before, line);
        if h == [] {
          FirstEntry(here, op.access);
          assert h + [op.access] == [op.access];
        } else if op.access.isWrite {
          NextWrite(here, h, op.access);
        } else {
          NextRead(here, h, op.access);
        }
      } else {
        assert LineHistory(run, line) == LineHistory(before, line);
      }
    }
  }

  /**
   * What an access is answered after any such run: the data comes from the last
   * writer unless the requester is that writer or already holds a copy, and the
   * reported state and the traffic are fixed by the line's history.
   */
  lemma LocalRepliesFollowHistory(here: Node, run: seq<Op>, addr: nat, a: Access)
    requires LocalOnly(run)
    ensures var h := LineHistory(run, LineOf(addr));
            var o := Reply(Exec(here, run), Local(addr, a));
            && o.source == ExpectedSource(here, h, a)
            && o.newState == ExpectedState(h, a)
            && o.cost == ExpectedCost(here, h, a)
  {
    var h := LineHistory(run, LineOf(addr));
    DirectoryIsHistory(here, run, LineOf(addr));
    if h == [] {
      FirstReply(here, a);
    } else if a.isWrite {
      NextWrite(here, h, a);
    } else {
      NextRead(here, h, a);
    }
  }

  // ---------------------------------------------------------------------------
  // Single writer, over every run
  // ---------------------------------------------------------------------------

  /** Every node with a copy. */
  function Holders(e: Entry): (r: set<nat>) {
    e.sharers + (if e.state.Modified? || e.state.Owned? || e.state.Exclusive? then {e.owner} else {})
  }

  ghost predicate Coherent(e: Entry) {
    && !e.state.Exclusive?
    && NO_OWNER !in e.sharers
    && (e.state.Modified? ==> e.sharers == {} && e.owner != NO_OWNER)
    && (e.state.Owned? ==> e.owner !in e.sharers && e.owner != NO_OWNER)
    && (e.state.Modified? || e.state.Owned? ==> e.dirty)
    && (e.state.Invalid? ==> e.owner == NO_OWNER)
    && (e.state.Shared? ==> e.owner in e.sharers)
  }

  /** One access keeps an entry coherent; a read adds its node to the holders, a write leaves it alone. */
  lemma AccessKeeps(here: Node, e: Entry, a: Access)
    requires Coherent(e)
    ensures Coherent(AccessEntry(here, e, a).entry)
    ensures Holders(AccessEntry(here, e, a).entry) == if a.isWrite then {a.node} else Holders(e) + {a.node}
  {
  }

  lemma RemoteKeeps(here: Node, e: Entry, from: Node)
    requires Coherent(e)
    ensures Coherent(InvalidateEntry(here, e)) && Holders(InvalidateEntry(here, e)) == Holders(e) - {here}
    ensures Coherent(DowngradeEntry(here, e)) && Holders(DowngradeEntry(here, e)) == Holders(e)
    ensures Coherent(WritebackEntry(e, from))
    ensures Holders(WritebackEntry(e, from)) == if e.owner == from then Holders(e) - {from} else Holders(e)
  {
  }

  /**
   * Through every run, messages from other nodes included: a modified line has no
   * sharers, an owned line's owner is not a sharer, dirty states are marked dirty,
   * and no entry is ever Exclusive.
   */
  lemma {:induction false} SingleWriter(here: Node, run: seq<Op>, line: nat)
    requires line in Exec(here, run).directory
    ensures Coherent(Exec(here, run).directory[line])
  {
    if run != [] {
      var before, op := run[..|run| - 1], run[|run| - 1];
      var g := Exec(here, before);
      if line in g.directory {
        SingleWriter(here, before, line);
        RemoteKeeps(here, g.directory[line], if op.RemoteWriteback? then op.from else here);
      }
      if op.Local? && LineOf(op.addr) == line {
        AccessKeeps(here, EntryAt(g.directory, line), op.access);
      }
    }
  }

  // ---------------------------------------------------------------------------
  // History of a line with messages from other nodes
  // ---------------------------------------------------------------------------

  /**
   * What the operations on a line amount to: who owns it since when, who holds a copy,
   * how often it was written, whether its owner `wrote` it and, if so, whether the owner
   * has `parted` with the only copy since, and whether a write is not yet written back.
   */
  datatype Tenure = Tenure(
    known: bool,
    owner: nat,
    head: nat,
    holders: set<nat>,
    writes: nat,
    wrote: bool,
    parted: bool,
    dirty: bool,
    last: nat)

  const UNKNOWN: Tenure := Tenure(false, NO_OWNER, NO_OWNER, {}, 0, false, false, false, 0)

  function TenureOf(here: Node, run: seq<Op>, line: nat): (r: Tenure) {
    if run == [] then UNKNOWN
    else
      var t, op := TenureOf(here, run[..|run| - 1], line), run[|run| - 1];
      if LineOf(op.addr) == line && (op.Local? || t.known) then NextTenure(here, t, op) else t
  }

  /** The line without its owner. */
  function Orphaned(t: Tenure): (r: Tenure) {
    t.(owner := NO_OWNER, head := NO_OWNER, wrote := false, parted := false)
  }

  /** A write takes the line; a reader with no copy of an unowned line becomes its owner; messages take copies away. */
  function NextTenure(here: Node, t: Tenure, op: Op): (r: Tenure) {
    match op
    case Local(_, a) =>
      if a.isWrite then
        Tenure(true, a.node, if t.owner == a.node && t.wrote then t.head else a.head, {a.node}, t.writes + 1,
               true, false, true, a.time)
      else
        var u := t.(known := true, holders := t.holders + {a.node}, last := a.time);
        if t.owner == NO_OWNER && a.node !in t.holders then
          u.(owner := a.node, head := a.head, wrote := false, parted := false)
        else u.(parted := t.parted || a.node != t.owner)
    case RemoteInvalidate(_) =>
      (if t.owner == here then Orphaned(t) else t).(holders := t.holders - {here})
    case RemoteDowngrade(_) => t.(parted := t.parted || t.owner == here)
    case RemoteWriteback(_, from) =>
      if t.owner == from then Orphaned(t).(holders := t.holders - {from}, dirty := false) else t
  }

  /** The entry, all of it, said from the tenure. */
  function EntryOf(t: Tenure): (r: Entry) {
    Entry(if t.owner == NO_OWNER then Invalid else if !t.wrote then Shared else if t.parted then Owned else Modified,
          t.owner, t.head, if t.wrote then t.holders - {t.owner} else t.holders,
          t.writes % VERSION_MODULUS, t.last, t.dirty)
  }

  ghost predicate Sound(t: Tenure) {
    && NO_OWNER !in t.holders
    && (t.owner == NO_OWNER || t.owner in t.holders)
    && (t.wrote ==> t.owner != NO_OWNER && t.dirty)
    && (t.wrote && !t.parted ==> t.holders == {t.owner})
    && (!t.known ==> t == UNKNOWN)
  }

  lemma WriteTenure(here: Node, t: Tenure, addr: nat, a: Access)
    requires Sound(t) && a.isWrite
    ensures AccessEntry(here, EntryOf(t), a).entry == EntryOf(NextTenure(here, t, Local(addr, a)))
  {
    VersionIncrement(t.writes);
    assert {a.node} - {a.node} == {};
    assert t.wrote && !t.parted ==> t.holders - {t.owner} == {};
  }

  lemma ReadTenure(here: Node, t: Tenure, addr: nat, a: Access)
    requires Sound(t) && !a.isWrite
    ensures AccessEntry(here, EntryOf(t), a).entry == EntryOf(NextTenure(here, t, Local(addr, a)))
  {
    var all, n := t.holders, a.node;
    assert n in all ==> all + {n} == all;
    assert n != t.owner ==> (all + {n}) - {t.owner} == (all - {t.owner}) + {n};
  }

  lemma InvalidateTenure(here: Node, t: Tenure, addr: nat)
    requires Sound(t)
    ensures InvalidateEntry(here, EntryOf(t)) == EntryOf(NextTenure(here, t, RemoteInvalidate(addr)))
  {
    var all, o := t.holders, t.owner;
    assert (all - {o}) - {here} == (all - {here}) - {o};
    assert o == here ==> (all - {o}) - {here} == all - {here};
  }

  lemma DowngradeTenure(here: Node, t: Tenure, addr: nat)
    requires Sound(t)
    ensures DowngradeEntry(here, EntryOf(t)) == EntryOf(NextTenure(here, t, RemoteDowngrade(addr)))
  {
  }

  lemma WritebackTenure(here: Node, t: Tenure, addr: nat, from: Node)
    requires Sound(t)
    ensures WritebackEntry(EntryOf(t), from) == EntryOf(NextTenure(here, t, RemoteWriteback(addr, from)))
  {
    assert (t.holders - {from}) - {from} == t.holders - {from};
  }

  lemma NextSound(here: Node, t: Tenure, op: Op)
    requires Sound(t) && (op.Local? || t.known)
    ensures Sound(NextTenure(here, t, op)) && NextTenure(here, t, op).known
  {
  }

  lemma SoundIsCoherent(t: Tenure)
    requires Sound(t)
    ensures Coherent(EntryOf(t)) && Holders(EntryOf(t)) == t.holders
  {
    assert t.wrote ==> (t.holders - {t.owner}) + {t.owner} == t.holders;
  }

  lemma FreshTenure()
    ensures EntryOf(UNKNOWN) == FRESH && Sound(UNKNOWN)
  {
  }

  lemma StepTenure(here: Node, g: Engine, op: Op, t: Tenure)
    requires g.localNode == here && EntryAt(g.directory, LineOf(op.addr)) == EntryOf(t) && Sound(t)
    requires op.Local? || LineOf(op.addr) in g.directory
    ensures LineOf(op.addr) in Step(g, op).directory
    ensures Step(g, op).directory[LineOf(op.addr)] == EntryOf(NextTenure(here, t, op))
  {
    match op
    case Local(addr, a) =>
      if a.isWrite {
        WriteTenure(here, t, addr, a);
      } else {
        ReadTenure(here, t, addr, a);
      }
    case RemoteInvalidate(addr) => InvalidateTenure(here, t, addr);
    case RemoteDowngrade(addr) => DowngradeTenure(here, t, addr);
    case RemoteWriteback(addr, from) => WritebackTenure(here, t, addr, from);
  }

  /** An operation on another line, or a message about an unknown one, leaves the line alone. */
  lemma StepElsewhere(g: Engine, op: Op, line: nat)
    requires LineOf(op.addr) != line || (!op.Local? && line !in g.directory)
    ensures line in Step(g, op).directory <==> line in g.directory
    ensures EntryAt(Step(g, op).directory, line) == EntryAt(g.directory, line)
  {
  }

  /**
   * After every run, messages from other nodes included: a line has an entry exactly if
   * it was accessed, and the whole entry, its state and dirty mark included, follows
   * from the operations on it.
   */
  lemma {:induction false} TenureIsHistory(here: Node, run: seq<Op>, line: nat)
    ensures var t := TenureOf(here, run, line);
            && (line in Exec(here, run).directory <==> t.known)
            && EntryAt(Exec(here, run).directory, line) == EntryOf(t)
            && Coherent(EntryOf(t))
            && Holders(EntryOf(t)) == t.holders
  {
    SoundAfter(here, run, line);
    SoundIsCoherent(TenureOf(here, run, line));
    if run == [] {
      FreshTenure();
    } else {
      var before, op := run[..|run| - 1], run[|run| - 1];
      TenureIsHistory(here, before, line);
      SoundAfter(here, before, line);
      var g, t := Exec(here, before), TenureOf(here, before, line);
      if LineOf(op.addr) == line && (op.Local? || t.known) {
        StepTenure(here, g, op, t);
      } else {
        StepElsewhere(g, op, line);
      }
    }
  }

  lemma {:induction false} SoundAfter(here: Node, run: seq<Op>, line: nat)
    ensures Sound(TenureOf(here, run, line))
  {
    if run != [] {
      var before, op := run[..|run| - 1], run[|run| - 1];
      SoundAfter(here, before, line);
      var t := TenureOf(here, before, line);
      if LineOf(op.addr) == line && (op.Local? || t.known) {
        NextSound(here, t, op);
      }
    }
  }

  /** A write to the line at `i` that no owner has written back since. */
  ghost predicate Unsaved(here: Node, run: seq<Op>, line: nat, i: nat) {
    && i < |run| && LineOf(run[i].addr) == line && run[i].Local? && run[i].access.isWrite
    && forall j :: i < j < |run| && LineOf(run[j].addr) == line && run[j].RemoteWriteback? ==>
         run[j].from != TenureOf(here, run[..j], line).owner
  }

  /**
   * The dirty mark, said from positions: some write was never written back by the owner
   * of that time.  An invalidation alone does not clear it, so a line can be read again
   * as Shared and still be marked.
   */
  lemma {:induction false} DirtyIff(here: Node, run: seq<Op>, line: nat)
    ensures TenureOf(here, run, line).dirty <==> exists i: nat :: Unsaved(here, run, line, i)
  {
    if run != [] {
      var n := |run| - 1;
      var before, op := run[..n], run[n];
      DirtyIff(here, before, line);
      SoundAfter(here, before, line);
      var t := TenureOf(here, before, line);
      var saved := LineOf(op.addr) == line && op.RemoteWriteback? && op.from == t.owner;
      forall i: nat | i < n ensures Unsaved(here, run, line, i) <==> Unsaved(here, before, line, i) && !saved {
        UnsavedNext(here, run, line, i);
      }
      if LineOf(op.addr) == line && op.Local? && op.access.isWrite {
        assert Unsaved(here, run, line, n);
      }
    }
  }

  /** Such a run: the local node writes, is told to give the line up, and a reader finds it. */
  lemma SharedYetDirty(here: Node, reader: Node, addr: nat)
    ensures var run := [Local(addr, Access(true, here, 0, 0)), RemoteInvalidate(addr),
                        Local(addr, Access(false, reader, 0, 0))];
            var e := EntryAt(Exec(here, run).directory, LineOf(addr));
            e.state.Shared? && e.dirty && e.sharers == {reader}
  {
    var w, r := Local(addr, Access(true, here, 0, 0)), Local(addr, Access(false, reader, 0, 0));
    var m, line := RemoteInvalidate(addr), LineOf(addr);
    assert [w, m, r][..2] == [w, m] && [w, m][..1] == [w] && [w][..0] == [];
    assert TenureOf(here, [w], line) == NextTenure(here, UNKNOWN, w);
    assert TenureOf(here, [w, m], line) == NextTenure(here, TenureOf(here, [w], line), m);
    TenureIsHistory(here, [w, m, r], line);
    assert {here} - {here} + {reader} == {reader};
  }

  lemma UnsavedNext(here: Node, run: seq<Op>, line: nat, i: nat)
    requires i < |run| - 1
    ensures var n := |run| - 1;
            var saved := LineOf(run[n].addr) == line && run[n].RemoteWriteback?
                         && run[n].from == TenureOf(here, run[..n], line).owner;
            Unsaved(here, run, line, i) <==> Unsaved(here, run[..n], line, i) && !saved
  {
    var n := |run| - 1;
    assert forall j :: 0 <= j < n ==> run[..n][..j] == run[..j];
  }

  // ---------------------------------------------------------------------------
  // Replies and traffic, after every run
  // ---------------------------------------------------------------------------

  /** The nodes with a copy beside the one that wrote the line. */
  function Copies(t: Tenure): (r: set<nat>) {
    if t.wrote then t.holders - {t.owner} else t.holders
  }

  /** The last writer supplies the data while it owns the line, unless the reader has a copy or is that writer. */
  function SourceFrom(here: Node, t: Tenure, a: Access): (r: nat) {
    if t.wrote && (if a.isWrite then a.node != t.owner else a.node !in t.holders) then t.owner else here
  }

  function StateFrom(t: Tenure, a: Access): (r: CacheState) {
    if a.isWrite then Modified
    else if !t.wrote || a.node != t.owner then Shared
    else if t.parted then Owned
    else Modified
  }

  /**
   * What an access costs: a read asks the writer for the data; a write tells every copy
   * of an owned line, and takes a written line from its owner.  The copies of a line
   * without owner are told nothing.
   */
  function CostFrom(here: Node, t: Tenure, a: Access): (r: Traffic) {
    var call := FREE.(ops := 1, remoteOps := if a.node != here then 1 else 0);
    if !a.isWrite then call.(messages := if t.wrote && a.node !in t.holders then 1 else 0)
    else
      var told := if t.owner == NO_OWNER then 0 else |Copies(t) - {a.node}|;
      var stolen := t.wrote && a.node != t.owner;
      call.(messages := told + (if stolen && !t.parted then 1 else 0), invalidations := told,
            writebacks := if stolen then 1 else 0)
  }

  /** What any operation adds to the statistics; messages about an unknown line add nothing. */
  function OpCost(here: Node, t: Tenure, op: Op): (r: Traffic) {
    match op
    case Local(_, a) => CostFrom(here, t, a)
    case RemoteInvalidate(_) =>
      if !t.known then FREE
      else FREE.(invalidations := 1, writebacks := if t.owner == here && t.wrote && !t.parted then 1 else 0)
    case RemoteDowngrade(_) => if t.known then FREE.(downgrades := 1) else FREE
    case RemoteWriteback(_, _) => if t.known then FREE.(writebacks := 1) else FREE
  }

  /** The statistics of a run, said from its operations alone. */
  function TrafficOf(here: Node, run: seq<Op>): (r: Traffic) {
    if run == [] then FREE
    else
      var before, op := run[..|run| - 1], run[|run| - 1];
      Plus(TrafficOf(here, before), OpCost(here, TenureOf(here, before, LineOf(op.addr)), op))
  }

  lemma ReadReply(here: Node, t: Tenure, a: Access)
    requires Sound(t) && !a.isWrite
    ensures var o := AccessEntry(here, EntryOf(t), a);
            o.source == SourceFrom(here, t, a) && o.newState == StateFrom(t, a) && o.cost == CostFrom(here, t, a)
  {
  }

  lemma WriteReply(here: Node, t: Tenure, a: Access)
    requires Sound(t) && a.isWrite
    ensures var o := AccessEntry(here, EntryOf(t), a);
            o.source == SourceFrom(here, t, a) && o.newState == StateFrom(t, a) && o.cost == CostFrom(here, t, a)
  {
    assert t.wrote && !t.parted ==> Copies(t) - {a.node} == {};
  }

  /**
   * What an access is answered after every run, messages from other nodes included:
   * source, reported state and traffic follow from the operations on the line.
   */
  lemma RepliesFollowHistory(here: Node, run: seq<Op>, addr: nat, a: Access)
    ensures var t, o := TenureOf(here, run, LineOf(addr)), Reply(Exec(here, run), Local(addr, a));
            o.source == SourceFrom(here, t, a) && o.newState == StateFrom(t, a) && o.cost == CostFrom(here, t, a)
  {
    var t := TenureOf(here, run, LineOf(addr));
    TenureIsHistory(here, run, LineOf(addr));
    SoundAfter(here, run, LineOf(addr));
    if a.isWrite {
      WriteReply(here, t, a);
    } else {
      ReadReply(here, t, a);
    }
  }

  lemma StepTraffic(here: Node, g: Engine, op: Op, t: Tenure)
    requires g.localNode == here && EntryAt(g.directory, LineOf(op.addr)) == EntryOf(t) && Sound(t)
    requires LineOf(op.addr) in g.directory <==> t.known
    ensures Step(g, op).total == Plus(g.total, OpCost(here, t, op))
  {
    if op.Local? {
      if op.access.isWrite {
        WriteReply(here, t, op.access);
      } else {
        ReadReply(here, t, op.access);
      }
    }
  }

  /** After every run the statistics, all six, are the sums of what each operation costs by the history of its line. */
  lemma {:induction false} TotalsAreHistory(here: Node, run: seq<Op>)
    ensures Exec(here, run).total == TrafficOf(here, run)
  {
    if run != [] {
      var before, op := run[..|run| - 1], run[|run| - 1];
      var line := LineOf(op.addr);
      TotalsAreHistory(here, before);
      TenureIsHistory(here, before, line);
      SoundAfter(here, before, line);
      StepTraffic(here, Exec(here, before), op, TenureOf(here, before, line));
    }
  }

  /** Readers left behind by a writeback are told nothing when the line is written next. */
  lemma CopiesLeftBehind(here: Node, writer: Node, reader: Node, next: Node, addr: nat)
    requires reader != writer && reader != next
    ensures var run := [Local(addr, Access(true, writer, 0, 0)), Local(addr, Access(false, reader, 0, 0)),
                        RemoteWriteback(addr, writer)];
            var a := Access(true, next, 0, 0);
            && reader in EntryAt(Exec(here, run).directory, LineOf(addr)).sharers
            && Reply(Exec(here, run), Local(addr, a)).cost.invalidations == 0
            && Reply(Exec(here, run), Local(addr, a)).entry.sharers == {}
  {
    var w, r := Local(addr, Access(true, writer, 0, 0)), Local(addr, Access(false, reader, 0, 0));
    var b, line := RemoteWriteback(addr, writer), LineOf(addr);
    assert [w, r, b][..2] == [w, r] && [w, r][..1] == [w] && [w][..0] == [];
    assert TenureOf(here, [w], line) == NextTenure(here, UNKNOWN, w);
    assert TenureOf(here, [w, r], line) == NextTenure(here, TenureOf(here, [w], line), r);
    TenureIsHistory(here, [w, r, b], line);
    RepliesFollowHistory(here, [w, r, b], addr, Access(true, next, 0, 0));
  }

  // ---------------------------------------------------------------------------
  // Traffic, over every run and all lines
  // ---------------------------------------------------------------------------

  /** The sharer-set sizes of all entries, added up. */
  ghost function SharerTotal(d: map<nat, Entry>): (r: nat)
    decreases |d|
  {
    if d == map[] then 0
    else
      var k :| k in d;
      |d[k].sharers| + SharerTotal(d - {k})
  }

  lemma {:induction false} SharerTotalSplit(d: map<nat, Entry>, k: nat)
    requires k in d
    ensures SharerTotal(d) == |d[k].sharers| + SharerTotal(d - {k})
    decreases |d|
  {
    var j :| j in d && SharerTotal(d) == |d[j].sharers| + SharerTotal(d - {j});
    if j != k {
      SharerTotalSplit(d - {j}, k);
      SharerTotalSplit(d - {k}, j);
      assert d - {j} - {k} == d - {k} - {j};
    }
  }

  lemma SharerTotalUpdate(d: map<nat, Entry>, k: nat, e: Entry)
    ensures SharerTotal(d[k := e]) == SharerTotal(d) - |EntryAt(d, k).sharers| + |e.sharers|
  {
    SharerTotalSplit(d[k := e], k);
    if k in d {
      SharerTotalSplit(d, k);
      assert d[k := e] - {k} == d - {k};
    } else {
      assert d[k := e] - {k} == d;
    }
  }

  function Reads(run: seq<Op>): (r: nat) {
    if run == [] then 0
    else Reads(run[..|run| - 1]) + (if run[|run| - 1].Local? && !run[|run| - 1].access.isWrite then 1 else 0)
  }

  function WriteOps(run: seq<Op>): (r: nat) {
    if run == [] then 0
    else WriteOps(run[..|run| - 1]) + (if run[|run| - 1].Local? && run[|run| - 1].access.isWrite then 1 else 0)
  }

  function RemoteInvalidates(run: seq<Op>): (r: nat) {
    if run == [] then 0
    else RemoteInvalidates(run[..|run| - 1]) + (if run[|run| - 1].RemoteInvalidate? then 1 else 0)
  }

  /** What one access can add: a sharer, or the invalidations that the lost sharers pay for. */
  lemma AccessPays(here: Node, e: Entry, a: Access)
    requires Coherent(e)
    ensures var o := AccessEntry(here, e, a);
            && o.cost.invalidations + |o.entry.sharers| <= |e.sharers| + (if a.isWrite then 0 else 1)
            && o.cost.messages + |o.entry.sharers| <= |e.sharers| + (if a.isWrite then 1 else 2)
            && o.cost.ops == 1
  {
    SubsetSize(e.sharers - {a.node}, e.sharers);
  }

  /**
   * Amortised: an invalidation is paid for by the read that made the sharer (or by
   * the remote message that asked for it), and a message by a read or a write.
   */
  lemma {:induction false} TrafficBound(here: Node, run: seq<Op>)
    ensures var g := Exec(here, run);
            && g.total.invalidations + SharerTotal(g.directory) <= Reads(run) + RemoteInvalidates(run)
            && g.total.messages + SharerTotal(g.directory) <= 2 * Reads(run) + WriteOps(run)
            && g.total.ops == Reads(run) + WriteOps(run)
  {
    if run != [] {
      var before, op := run[..|run| - 1], run[|run| - 1];
      var g, line := Exec(here, before), LineOf(op.addr);
      TrafficBound(here, before);
      var e := EntryAt(g.directory, line);
      if line in g.directory {
        SingleWriter(here, before, line);
      }
      if op.Local? {
        AccessPays(here, e, op.access);
        SharerTotalUpdate(g.directory, line, Reply(g, op).entry);
      } else if line in g.directory {
        RemoteNeverAddsSharers(here, g, op);
      }
    }
  }

  lemma RemoteNeverAddsSharers(here: Node, g: Engine, op: Op)
    requires !op.Local? && LineOf(op.addr) in g.directory && Coherent(g.directory[LineOf(op.addr)])
    ensures SharerTotal(Step(g, op).directory) <= SharerTotal(g.directory)
  {
    var line := LineOf(op.addr);
    SharerTotalUpdate(g.directory, line, Step(g, op).directory[line]);
    SubsetSize(Step(g, op).directory[line].sharers, g.directory[line].sharers);
    assert Step(g, op).directory == g.directory[line := Step(g, op).directory[line]];
  }
}
