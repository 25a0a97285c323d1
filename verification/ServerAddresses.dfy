/**
 * The memory server by address: where an address lies, when a request is carried out,
 * what it answers, and which byte is found at an address after every run.
 *
 * `PlaceOf`, `Serves`, `ByteAt` and `FoundAt` say this from the addresses and the requests
 * alone, without the copies and queues that the server works with.
 */
module ServerAddresses {
  import opened Wrappers
  import opened Arithmetic
  import opened CacheLines
  import opened MemoryServer
  import opened ServerHistory
  import opened Words

  // ---------------------------------------------------------------------------
  // Places
  // ---------------------------------------------------------------------------

  function Size(c: Config): (r: nat) {
    c.lines * LINE_SIZE
  }

  /** The first line start at or after an address. */
  function AlignedUp(addr: nat): (r: nat)
    ensures addr <= r < addr + LINE_SIZE && r % LINE_SIZE == 0
  {
    LineOf(addr + LINE_SIZE - 1)
  }

  /** Where an address lies: modulo the region's size in a region based at 0, otherwise as far from the base's line. */
  function PlaceOf(c: Config, addr: nat): (r: int)
    requires 1 <= c.lines
  {
    if c.base == 0 then Low(addr) % Size(c) else addr - AlignedUp(c.base)
  }

  /** `x` modulo `n` lines is its line modulo `n`, and its offset. */
  lemma LinesModulo(x: nat, n: nat)
    requires 1 <= n
    ensures x % (n * LINE_SIZE) == (x / LINE_SIZE % n) * LINE_SIZE + x % LINE_SIZE
  {
    var q, r := x / LINE_SIZE / n, x / LINE_SIZE % n;
    assert x / LINE_SIZE == q * n + r;
    var rest := r * LINE_SIZE + x % LINE_SIZE;
    assert rest < n * LINE_SIZE;
    SplitLines(x, q, n, r);
    DivMod(q, n * LINE_SIZE, rest);
  }

  lemma SplitLines(x: nat, q: nat, n: nat, r: nat)
    requires x / LINE_SIZE == q * n + r
    ensures x == q * (n * LINE_SIZE) + (r * LINE_SIZE + x % LINE_SIZE)
  {
    var a := q * n;
    assert x == (a + r) * LINE_SIZE + x % LINE_SIZE;
    assert q * (n * LINE_SIZE) == a * LINE_SIZE;
  }

  lemma LowOffset(addr: nat)
    ensures Low(addr) % LINE_SIZE == addr % LINE_SIZE
  {
    var k := addr / WORD;
    assert addr == k * WORD + Low(addr);
    assert k * WORD == (k * (WORD / LINE_SIZE)) * LINE_SIZE;
  }

  /** The copies find an address where it lies. */
  lemma LocIsPlace(c: Config, addr: nat)
    requires 1 <= c.lines && InRegion(c, addr)
    ensures Loc(c, addr) == PlaceOf(c, addr)
  {
    if c.base == 0 {
      LinesModulo(Low(addr), c.lines);
      LowOffset(addr);
    } else {
      LineDistance(LineOf(addr), c.base);
    }
  }

  lemma LineDistance(line: nat, base: nat)
    requires line % LINE_SIZE == 0 && base <= line
    ensures (line - base) / LINE_SIZE * LINE_SIZE == line - AlignedUp(base)
  {
  }

  /** The addresses one place serves: in a based region one only, otherwise those equal modulo the region's size. */
  lemma OnePlaceIff(c: Config, a: nat, b: nat)
    requires 1 <= c.lines && InRegion(c, a) && InRegion(c, b)
    ensures c.base != 0 ==> (Loc(c, a) == Loc(c, b) <==> a == b)
    ensures c.base == 0 ==> (Loc(c, a) == Loc(c, b) <==> Low(a) % Size(c) == Low(b) % Size(c))
    ensures c.base != 0 && c.base % LINE_SIZE == 0 ==> Loc(c, a) == a - c.base
  {
    LocIsPlace(c, a);
    LocIsPlace(c, b);
  }

  // ---------------------------------------------------------------------------
  // When a request is carried out
  // ---------------------------------------------------------------------------

  /** A read or a write is carried out anywhere in a region based at 0; elsewhere only inside one line of the region. */
  predicate Serves(c: Config, addr: nat, size: nat) {
    var n := if 1 <= size <= LINE_SIZE then size else LINE_SIZE;
    c.base == 0 ||
    (&& c.base <= addr - addr % LINE_SIZE
     && addr < c.base + Size(c)
     && addr - addr % LINE_SIZE < AlignedUp(c.base) + Size(c)
     && addr % LINE_SIZE + n <= LINE_SIZE)
  }

  lemma ServesIff(c: Config, addr: nat, size: nat)
    requires 1 <= c.lines
    ensures Serves(c, addr, size) <==> ValidAddress(c, addr) && Accepts(c, addr, Clamp(size))
  {
    if c.base != 0 && c.base <= LineOf(addr) {
      LineDistance(LineOf(addr), c.base);
    }
  }

  // ---------------------------------------------------------------------------
  // Bytes of a word
  // ---------------------------------------------------------------------------

  /** Byte `k` of a number, the lowest first. */
  function ByteOf(v: nat, k: nat): (r: Byte) {
    v / Pow256(k) % 256
  }

  /** The number that eight bytes stand for, the lowest first. */
  function Word(bytes: seq<Byte>): (r: nat)
    requires |bytes| == 8
  {
    var b: seq<int> := bytes;
    b[0] + 0x100 * b[1] + 0x1_0000 * b[2] + 0x100_0000 * b[3]
    + 0x1_0000_0000 * (b[4] + 0x100 * b[5] + 0x1_0000 * b[6] + 0x100_0000 * b[7])
  }

  lemma DivideTwice(v: nat, p: nat)
    requires p > 0
    ensures v / 256 / p == v / (256 * p)
  {
    var q, r := v / 256 / p, v / 256 % p;
    assert v / 256 == q * p + r;
    var rest := 256 * r + v % 256;
    assert v == q * (256 * p) + rest;
    assert rest < 256 * p;
    DivMod(q, 256 * p, rest);
  }

  lemma {:induction false} EncodeByte(v: nat, n: nat, k: nat)
    requires k < n
    ensures Encode(v, n)[k] == ByteOf(v, k)
  {
    if k > 0 {
      EncodeByte(v / 256, n - 1, k - 1);
      DivideTwice(v, Pow256(k - 1));
    }
  }

  lemma DecodeStep(b: seq<Byte>)
    requires b != []
    ensures Decode(b) == b[0] + 256 * Decode(b[1..])
  {
  }

  lemma DecodeFour(b: seq<Byte>)
    requires |b| >= 4
    ensures Decode(b)
            == b[0] + 0x100 * b[1] + 0x1_0000 * b[2] + 0x100_0000 * b[3] + 0x1_0000_0000 * Decode(b[4..])
  {
    DecodeStep(b);
    DecodeStep(b[1..]);
    DecodeStep(b[2..]);
    DecodeStep(b[3..]);
    assert b[1..][1..] == b[2..] && b[2..][1..] == b[3..] && b[3..][1..] == b[4..];
  }

  lemma DecodeIsWord(b: seq<Byte>)
    requires |b| == 8
    ensures Decode(b) == Word(b)
  {
    DecodeFour(b);
    DecodeFour(b[4..]);
    assert b[4..][4..] == [];
  }

  // ---------------------------------------------------------------------------
  // The byte at a place, from the requests
  // ---------------------------------------------------------------------------

  predicate GoesTo(c: Config, addr: nat, i: nat, place: nat)
    requires 1 <= c.lines
  {
    PlaceOf(c, addr + i) == place
  }

  ghost predicate Copies(c: Config, addr: nat, n: nat, place: nat)
    requires 1 <= c.lines
  {
    exists i: nat :: i < n && GoesTo(c, addr, i, place)
  }

  /** Which byte of a copy goes to a place. */
  ghost function IndexOf(c: Config, addr: nat, n: nat, place: nat): (i: nat)
    requires 1 <= c.lines && Copies(c, addr, n, place)
    ensures i < n && PlaceOf(c, addr + i) == place
  {
    var i: nat :| i < n && GoesTo(c, addr, i, place);
    i
  }

  /** What a request stores at a place, if anything; `was` is the word an atomic finds. */
  ghost function StoredBy(c: Config, q: Request, was: int, place: nat): (r: Option<Byte>)
    requires 1 <= c.lines && Legal(c, q)
  {
    match q
    case Write(_, addr, size, _, data) =>
      var n := if 1 <= size <= LINE_SIZE then size else LINE_SIZE;
      if Serves(c, addr, size) && Copies(c, addr, n, place) then Some(data[IndexOf(c, addr, n, place)]) else None
    case Faa(_, addr, value, _) =>
      if addr <= place < addr + 8 then Some(ByteOf((was + value) % WORD, place - addr)) else None
    case Cas(_, addr, value, expected, _) =>
      if was == expected && addr <= place < addr + 8 then Some(ByteOf(value, place - addr)) else None
    case _ => None
  }

  /** The byte last stored at a place by a run: no copies, no queues. */
  ghost function ByteAt(c: Config, image: seq<Byte>, run: seq<Request>, place: nat): (r: Byte)
    requires Image(c, image) && AllLegal(c, run) && place < |image|
    decreases |run|, 0
  {
    if run == [] then image[place]
    else
      var before, q := run[..|run| - 1], run[|run| - 1];
      var was := if q.Faa? || q.Cas? then Word(EightStored(c, image, before, q.addr)) else 0;
      var b := StoredBy(c, q, was, place);
      if b.Some? then b.value else ByteAt(c, image, before, place)
  }

  /** The eight bytes last stored from a place on. */
  ghost function EightStored(c: Config, image: seq<Byte>, run: seq<Request>, place: nat): (r: seq<Byte>)
    requires Image(c, image) && AllLegal(c, run) && place + 8 <= |image|
    ensures |r| == 8
    decreases |run|, 1
  {
    seq<Byte>(8, k requires 0 <= k < 8 => ByteAt(c, image, run, place + k))
  }

  /** What the newest entries of a queue leave at a place: the last one that is newer than `last` and reaches it. */
  ghost function DrainedAt(c: Config, line: nat, last: nat, q: seq<Pending>, place: nat): (r: Option<Byte>)
    requires 1 <= c.lines
  {
    if q == [] then None
    else
      var p := q[|q| - 1];
      if p.time > last && Copies(c, line, |p.data|, place) then Some(p.data[IndexOf(c, line, |p.data|, place)])
      else DrainedAt(c, line, last, q[..|q| - 1], place)
  }

  /** The byte found at a place after a run, entries copied back by reads included. */
  ghost function FoundAt(c: Config, image: seq<Byte>, run: seq<Request>, place: nat): (r: Byte)
    requires Image(c, image) && AllLegal(c, run) && place < |image|
    decreases |run|, 0
  {
    if run == [] then image[place]
    else
      var before, q := run[..|run| - 1], run[|run| - 1];
      var was := if q.Faa? || q.Cas? then Word(EightFound(c, image, before, q.addr)) else 0;
      var line := LineOf(q.addr);
      var b := if q.Read? && (c.base == 0 || c.base <= q.addr < c.base + Size(c))
               then DrainedAt(c, line, LastTime(c, before, line), Waiting(c, image, before, line), place)
               else StoredBy(c, q, was, place);
      if b.Some? then b.value else FoundAt(c, image, before, place)
  }

  /** The eight bytes found from a place on. */
  ghost function EightFound(c: Config, image: seq<Byte>, run: seq<Request>, place: nat): (r: seq<Byte>)
    requires Image(c, image) && AllLegal(c, run) && place + 8 <= |image|
    ensures |r| == 8
    decreases |run|, 1
  {
    seq<Byte>(8, k requires 0 <= k < 8 => FoundAt(c, image, run, place + k))
  }

  // ---------------------------------------------------------------------------
  // One copy, one byte
  // ---------------------------------------------------------------------------

  lemma UntouchedByte(mem: seq<Byte>, puts: seq<Put>, place: nat)
    requires place < |mem| && forall i :: 0 <= i < |puts| ==> puts[i].loc != place
    ensures Apply(mem, puts)[place] == mem[place]
  {
    ApplyIsLastByte(mem, puts, place);
    LastByteUntouched(mem, puts, place);
  }

  lemma CopiedByte(c: Config, mem: seq<Byte>, addr: nat, data: seq<Byte>, i: nat, place: nat)
    requires Image(c, mem) && Accepts(c, addr, |data|) && i < |data| && GoesTo(c, addr, i, place) && place < |mem|
    ensures Apply(mem, Puts(c, addr, data))[place] == data[i]
  {
    CopyPlace(c, addr, |data|, i);
    ByteBack(c, mem, addr, data, i);
  }

  lemma UncopiedByte(c: Config, mem: seq<Byte>, addr: nat, data: seq<Byte>, place: nat)
    requires Image(c, mem) && Accepts(c, addr, |data|) && place < |mem| && !Copies(c, addr, |data|, place)
    ensures Apply(mem, Puts(c, addr, data))[place] == mem[place]
  {
    var puts := Puts(c, addr, data);
    forall i | 0 <= i < |puts| ensures puts[i].loc != place {
      NotThere(c, addr, |data|, i, place);
      assert puts[i].loc == Loc(c, addr + i);
    }
    UntouchedByte(mem, puts, place);
  }

  lemma NotThere(c: Config, addr: nat, n: nat, i: nat, place: nat)
    requires 1 <= c.lines && Accepts(c, addr, n) && i < n && !Copies(c, addr, n, place)
    ensures Loc(c, addr + i) != place
  {
    CopyPlace(c, addr, n, i);
    assert !GoesTo(c, addr, i, place);
  }

  /** What a copy that is accepted does to one byte. */
  lemma PutsByte(c: Config, mem: seq<Byte>, addr: nat, data: seq<Byte>, place: nat)
    requires Image(c, mem) && Accepts(c, addr, |data|) && place < |mem|
    ensures Apply(mem, Puts(c, addr, data))[place]
            == if Copies(c, addr, |data|, place) then data[IndexOf(c, addr, |data|, place)] else mem[place]
  {
    if Copies(c, addr, |data|, place) {
      CopiedByte(c, mem, addr, data, IndexOf(c, addr, |data|, place), place);
    } else {
      UncopiedByte(c, mem, addr, data, place);
    }
  }

  lemma CopyPlace(c: Config, addr: nat, n: nat, i: nat)
    requires 1 <= c.lines && Accepts(c, addr, n) && i < n
    ensures Loc(c, addr + i) == PlaceOf(c, addr + i)
  {
    StaysInRegion(c, addr, n, i);
    LocIsPlace(c, addr + i);
  }

  lemma WordByte(mem: seq<Byte>, addr: nat, v: nat, place: nat)
    requires addr + 8 <= |mem| && place < |mem|
    ensures Apply(mem, WordPuts(addr, v))[place]
            == if addr <= place < addr + 8 then ByteOf(v, place - addr) else mem[place]
  {
    if addr <= place < addr + 8 {
      WordByteStored(mem, addr, v, place - addr);
    } else {
      WordByteLeft(mem, addr, v, place);
    }
  }

  lemma WordByteStored(mem: seq<Byte>, addr: nat, v: nat, i: nat)
    requires addr + 8 <= |mem| && i < 8
    ensures Apply(mem, WordPuts(addr, v))[addr + i] == ByteOf(v, i)
  {
    EncodeByte(v, 8, i);
    ByteStored(mem, addr, Encode(v, 8), i);
  }

  lemma WordByteLeft(mem: seq<Byte>, addr: nat, v: nat, place: nat)
    requires addr + 8 <= |mem| && place < |mem| && !(addr <= place < addr + 8)
    ensures Apply(mem, WordPuts(addr, v))[place] == mem[place]
  {
    UntouchedByte(mem, WordPuts(addr, v), place);
  }

  lemma {:induction false} DrainByte(c: Config, mem: seq<Byte>, line: nat, last: nat, q: seq<Pending>, place: nat)
    requires Image(c, mem) && place < |mem| && forall p :: p in q ==> Accepts(c, line, |p.data|)
    ensures var b := DrainedAt(c, line, last, q, place);
            Apply(mem, DrainPuts(c, line, last, q))[place] == if b.Some? then b.value else mem[place]
  {
    if q != [] {
      var rest, p := q[..|q| - 1], q[|q| - 1];
      assert p in q;
      DrainByte(c, mem, line, last, rest, place);
      var before := Apply(mem, DrainPuts(c, line, last, rest));
      if p.time > last {
        ApplyAppend(mem, DrainPuts(c, line, last, rest), Puts(c, line, p.data));
        PutsByte(c, before, line, p.data, place);
      } else {
        assert DrainPuts(c, line, last, rest) + [] == DrainPuts(c, line, last, rest);
      }
    }
  }

  /** What the word of an atomic is, where every byte of memory is known. */
  lemma WordFromBytes(mem: seq<Byte>, addr: nat, bytes: seq<Byte>)
    requires addr + 8 <= |mem| && |bytes| == 8 && forall k :: 0 <= k < 8 ==> bytes[k] == mem[addr + k]
    ensures WordAt(mem, addr) == Word(bytes)
  {
    assert mem[addr..addr + 8] == bytes;
    DecodeIsWord(bytes);
  }

  /** What the stores of a request do to one byte. */
  lemma StoresByte(c: Config, image: seq<Byte>, puts: seq<Put>, q: Request, was: nat, place: nat)
    requires Image(c, image) && Legal(c, q) && !q.Read? && place < |image|
    requires q.Faa? || q.Cas? ==> was == WordAt(Apply(image, puts), q.addr)
    ensures var b, mem := StoredBy(c, q, was, place), Apply(image, puts);
            Apply(mem, Stores(c, image, puts, q))[place] == if b.Some? then b.value else mem[place]
  {
    var mem := Apply(image, puts);
    match q
    case Write(_, addr, size, _, data) =>
      ServesIff(c, addr, size);
      if Serves(c, addr, size) {
        PutsByte(c, mem, addr, data[..Clamp(size)], place);
      }
    case Faa(_, addr, value, _) =>
      WordIsLast(c, image, puts, addr);
      WordByte(mem, addr, WordSum(was, value), place);
    case Cas(_, addr, value, expected, _) =>
      WordIsLast(c, image, puts, addr);
      WordByte(mem, addr, value, place);
    case _ =>
  }

  // ---------------------------------------------------------------------------
  // Every run
  // ---------------------------------------------------------------------------

  lemma StoresNext(c: Config, image: seq<Byte>, puts: seq<Put>, q: Request, was: nat, place: nat, byte: Byte)
    requires Image(c, image) && Legal(c, q) && !q.Read? && place < |image|
    requires q.Faa? || q.Cas? ==> was == WordAt(Apply(image, puts), q.addr)
    requires Apply(image, puts)[place] == byte
    ensures var b := StoredBy(c, q, was, place);
            Apply(image, puts + Stores(c, image, puts, q))[place] == if b.Some? then b.value else byte
  {
    ApplyAppend(image, puts, Stores(c, image, puts, q));
    StoresByte(c, image, puts, q, was, place);
  }

  /** The stores of a run, one byte at a time. */
  lemma {:induction false} StoresAreBytes(c: Config, image: seq<Byte>, run: seq<Request>, place: nat)
    requires Image(c, image) && AllLegal(c, run) && place < |image|
    ensures Apply(image, AllStores(c, image, run))[place] == ByteAt(c, image, run, place)
    decreases |run|, 0
  {
    if run != [] {
      var before, q := run[..|run| - 1], run[|run| - 1];
      StoresAreBytes(c, image, before, place);
      if q.Faa? || q.Cas? {
        EightAreStored(c, image, before, q.addr);
        StoresNext(c, image, AllStores(c, image, before), q, Word(EightStored(c, image, before, q.addr)), place,
                   ByteAt(c, image, before, place));
      } else if !q.Read? {
        StoresNext(c, image, AllStores(c, image, before), q, 0, place, ByteAt(c, image, before, place));
      } else {
        assert AllStores(c, image, run) == AllStores(c, image, before);
      }
    }
  }

  lemma {:induction false} EightAreStored(c: Config, image: seq<Byte>, run: seq<Request>, place: nat)
    requires Image(c, image) && AllLegal(c, run) && place + 8 <= |image|
    ensures WordAt(Apply(image, AllStores(c, image, run)), place) == Word(EightStored(c, image, run, place))
    decreases |run|, 1
  {
    var mem, bytes := Apply(image, AllStores(c, image, run)), EightStored(c, image, run, place);
    forall k | 0 <= k < 8 ensures bytes[k] == mem[place + k] {
      StoresAreBytes(c, image, run, place + k);
    }
    WordFromBytes(mem, place, bytes);
  }

  lemma DrainNext(c: Config, image: seq<Byte>, before: seq<Request>, puts: seq<Put>, line: nat, place: nat, byte: Byte)
    requires Image(c, image) && AllLegal(c, before) && place < |image| && Apply(image, puts)[place] == byte
    ensures var last, w := LastTime(c, before, line), Waiting(c, image, before, line);
            var b := DrainedAt(c, line, last, w, place);
            Apply(image, puts + DrainPuts(c, line, last, w))[place] == if b.Some? then b.value else byte
  {
    var last, w := LastTime(c, before, line), Waiting(c, image, before, line);
    WaitingFits(c, image, before, line);
    ApplyAppend(image, puts, DrainPuts(c, line, last, w));
    DrainByte(c, Apply(image, puts), line, last, w, place);
  }

  /** The memory after every run, one byte at a time. */
  lemma {:induction false} ChangesAreBytes(c: Config, image: seq<Byte>, run: seq<Request>, place: nat)
    requires Image(c, image) && AllLegal(c, run) && place < |image|
    ensures Apply(image, AllChanges(c, image, run))[place] == FoundAt(c, image, run, place)
    decreases |run|, 0
  {
    if run != [] {
      var before, q := run[..|run| - 1], run[|run| - 1];
      ChangesAreBytes(c, image, before, place);
      var byte := FoundAt(c, image, before, place);
      if q.Faa? || q.Cas? {
        EightAreFound(c, image, before, q.addr);
        StoresNext(c, image, AllChanges(c, image, before), q, Word(EightFound(c, image, before, q.addr)), place, byte);
      } else if !q.Read? {
        StoresNext(c, image, AllChanges(c, image, before), q, 0, place, byte);
      } else if ValidAddress(c, q.addr) {
        DrainNext(c, image, before, AllChanges(c, image, before), LineOf(q.addr), place, byte);
      } else {
        assert AllChanges(c, image, run) == AllChanges(c, image, before);
      }
    }
  }

  lemma {:induction false} EightAreFound(c: Config, image: seq<Byte>, run: seq<Request>, place: nat)
    requires Image(c, image) && AllLegal(c, run) && place + 8 <= |image|
    ensures WordAt(Apply(image, AllChanges(c, image, run)), place) == Word(EightFound(c, image, run, place))
    decreases |run|, 1
  {
    var mem, bytes := Apply(image, AllChanges(c, image, run)), EightFound(c, image, run, place);
    forall k | 0 <= k < 8 ensures bytes[k] == mem[place + k] {
      ChangesAreBytes(c, image, run, place + k);
    }
    WordFromBytes(mem, place, bytes);
  }

  /** After every run each byte of the memory is the one the requests leave there. */
  lemma MemoryByBytes(c: Config, image: seq<Byte>, run: seq<Request>, place: nat)
    requires Image(c, image) && AllLegal(c, run) && place < |image|
    ensures Exec(c, image, run).mem[place] == FoundAt(c, image, run, place)
  {
    MemoryIsHistory(c, image, run);
    ChangesAreBytes(c, image, run, place);
  }

  /** The bytes a read or an atomic looks at. */
  ghost predicate Shows(c: Config, image: seq<Byte>, run: seq<Request>, bytes: seq<Byte>, addr: nat)
    requires Image(c, image) && AllLegal(c, run)
  {
    forall i :: 0 <= i < |bytes| ==> IsFound(c, image, run, addr + i, bytes[i])
  }

  /** The byte found at an address that lies inside the region. */
  ghost predicate IsFound(c: Config, image: seq<Byte>, run: seq<Request>, addr: nat, b: Byte)
    requires Image(c, image) && AllLegal(c, run)
  {
    var place := PlaceOf(c, addr);
    0 <= place < |image| && b == FoundAt(c, image, run, place)
  }

  /** The byte last stored at an address that lies inside the region. */
  ghost predicate IsStored(c: Config, image: seq<Byte>, run: seq<Request>, addr: nat, b: Byte)
    requires Image(c, image) && AllLegal(c, run)
  {
    var place := PlaceOf(c, addr);
    0 <= place < |image| && b == ByteAt(c, image, run, place)
  }

  /**
   * What every request is answered after every run.  A read is answered with the bytes
   * found at its addresses, those it copies back itself included, or fails; a write is
   * stored or fails; an atomic is answered with the word it finds; a fence with 0.
   */
  ghost predicate Answered(c: Config, image: seq<Byte>, run: seq<Request>, q: Request, reply: Reply)
    requires Image(c, image) && AllLegal(c, run) && Legal(c, q)
  {
    match q
    case Read(_, addr, size, _) =>
      assert AllLegal(c, run + [q]);
      if Serves(c, addr, size)
      then reply.Bytes? && |reply.bytes| == (if 1 <= size <= LINE_SIZE then size else LINE_SIZE)
           && Shows(c, image, run + [q], reply.bytes, addr)
      else reply == Failed
    case Write(_, addr, size, _, _) => reply == if Serves(c, addr, size) then Stored else Failed
    case Fence(_) => reply == Old(0)
    case _ =>
      reply == Old(Word(EightFound(c, image, run, q.addr)))
  }

  lemma ReadPlace(c: Config, addr: nat, n: nat, i: nat)
    requires 1 <= c.lines && Accepts(c, addr, n) && i < n
    ensures 0 <= PlaceOf(c, addr + i) < Size(c) && PlaceOf(c, addr + i) == Loc(c, addr + i)
  {
    CopyPlace(c, addr, n, i);
  }

  lemma ExecSnoc(c: Config, image: seq<Byte>, run: seq<Request>, q: Request)
    requires Image(c, image) && AllLegal(c, run) && Legal(c, q)
    ensures AllLegal(c, run + [q]) && Exec(c, image, run + [q]) == Step(Exec(c, image, run), q).0
  {
    assert (run + [q])[..|run + [q]| - 1] == run;
  }

  lemma ReadAnswered(c: Config, image: seq<Byte>, run: seq<Request>, q: Request)
    requires Image(c, image) && AllLegal(c, run) && q.Read?
    ensures Answered(c, image, run, q, Step(Exec(c, image, run), q).1)
  {
    var s := Exec(c, image, run);
    ServesIff(c, q.addr, q.size);
    ReplyFromMemory(s, q);
    if Serves(c, q.addr, q.size) {
      ExecSnoc(c, image, run, q);
      CopyShows(c, image, run + [q], q.addr, Clamp(q.size));
    }
  }

  ghost predicate AllFound(c: Config, image: seq<Byte>, run: seq<Request>, mem: seq<Byte>)
    requires Image(c, image) && AllLegal(c, run)
  {
    |mem| == |image| && forall place :: 0 <= place < |image| ==> mem[place] == FoundAt(c, image, run, place)
  }

  lemma CopyShows(c: Config, image: seq<Byte>, run: seq<Request>, addr: nat, n: nat)
    requires Image(c, image) && AllLegal(c, run) && Accepts(c, addr, n)
    ensures Shows(c, image, run, Copy(c, Exec(c, image, run).mem, addr, n), addr)
  {
    var mem := Exec(c, image, run).mem;
    forall place | 0 <= place < |image| ensures mem[place] == FoundAt(c, image, run, place) {
      MemoryByBytes(c, image, run, place);
    }
    FoundShows(c, image, run, mem, addr, n);
  }

  lemma FoundShows(c: Config, image: seq<Byte>, run: seq<Request>, mem: seq<Byte>, addr: nat, n: nat)
    requires Image(c, image) && AllLegal(c, run) && Accepts(c, addr, n) && AllFound(c, image, run, mem)
    ensures Shows(c, image, run, Copy(c, mem, addr, n), addr)
  {
    var bytes := Copy(c, mem, addr, n);
    forall i | 0 <= i < |bytes| ensures IsFound(c, image, run, addr + i, bytes[i]) {
      ReadPlace(c, addr, n, i);
    }
  }

  lemma AtomicAnswered(c: Config, image: seq<Byte>, run: seq<Request>, q: Request)
    requires Image(c, image) && AllLegal(c, run) && Legal(c, q) && (q.Faa? || q.Cas?)
    ensures Answered(c, image, run, q, Step(Exec(c, image, run), q).1)
  {
    MemoryIsHistory(c, image, run);
    EightAreFound(c, image, run, q.addr);
    AnswersWord(Exec(c, image, run), q);
  }

  lemma AnswersAreHistory(c: Config, image: seq<Byte>, run: seq<Request>, q: Request)
    requires Image(c, image) && AllLegal(c, run) && Legal(c, q)
    ensures Answered(c, image, run, q, Step(Exec(c, image, run), q).1)
  {
    match q
    case Read(_, _, _, _) => ReadAnswered(c, image, run, q);
    case Write(_, addr, size, _, _) => ServesIff(c, addr, size);
    case Fence(_) =>
    case _ => AtomicAnswered(c, image, run, q);
  }

  // ---------------------------------------------------------------------------
  // Times that never decrease: reads by address
  // ---------------------------------------------------------------------------

  /** A request that stores at a place, or would if it found what it expects. */
  ghost predicate MayStore(c: Config, q: Request, place: nat)
    requires 1 <= c.lines
  {
    match q
    case Write(_, addr, size, _, _) =>
      Serves(c, addr, size) && Copies(c, addr, if 1 <= size <= LINE_SIZE then size else LINE_SIZE, place)
    case Faa(_, addr, _, _) => addr <= place < addr + 8
    case Cas(_, addr, _, _, _) => addr <= place < addr + 8
    case _ => false
  }

  ghost predicate StoresOver(c: Config, q: Request, addr: nat)
    requires 1 <= c.lines
  {
    0 <= PlaceOf(c, addr) && MayStore(c, q, PlaceOf(c, addr))
  }

  /** The addresses a copy stores at: in a based region its own, otherwise all that lie where they do. */
  lemma CopiesIff(c: Config, addr: nat, n: nat, a: nat)
    requires 1 <= c.lines && 0 <= PlaceOf(c, a)
    ensures c.base != 0 ==> (Copies(c, addr, n, PlaceOf(c, a)) <==> addr <= a < addr + n)
    ensures c.base == 0 ==>
              (Copies(c, addr, n, PlaceOf(c, a)) <==>
               exists b :: addr <= b < addr + n && Low(b) % Size(c) == Low(a) % Size(c))
  {
    var place := PlaceOf(c, a);
    if i: nat :| i < n && GoesTo(c, addr, i, place) {
      assert addr <= addr + i < addr + n && (c.base == 0 ==> Low(addr + i) % Size(c) == Low(a) % Size(c));
    }
    if c.base != 0 && addr <= a < addr + n {
      assert GoesTo(c, addr, a - addr, place);
    }
    if c.base == 0 {
      if b :| addr <= b < addr + n && Low(b) % Size(c) == Low(a) % Size(c) {
        assert GoesTo(c, addr, b - addr, place);
      }
    }
  }

  /** Two bytes of one accepted copy never go to one place. */
  lemma OneIndex(c: Config, addr: nat, n: nat, i: nat, place: nat)
    requires 1 <= c.lines && Accepts(c, addr, n) && i < n && GoesTo(c, addr, i, place)
    ensures Copies(c, addr, n, place) && IndexOf(c, addr, n, place) == i
  {
    var j := IndexOf(c, addr, n, place);
    CopyPlace(c, addr, n, i);
    CopyPlace(c, addr, n, j);
    if i < j {
      CopySpreads(c, addr, n, i, j);
    } else if j < i {
      CopySpreads(c, addr, n, j, i);
    }
  }

  /** The byte at a place is the one of the last write that stored there. */
  lemma {:induction false} LastWriteStays(c: Config, image: seq<Byte>, run: seq<Request>, j: nat, i: nat, place: nat)
    requires Image(c, image) && AllLegal(c, run) && place < |image|
    requires j < |run| && run[j].Write? && Serves(c, run[j].addr, run[j].size) && i < Clamp(run[j].size)
    requires GoesTo(c, run[j].addr, i, place)
    requires forall k :: j < k < |run| ==> !MayStore(c, run[k], place)
    ensures ByteAt(c, image, run, place) == run[j].data[i]
  {
    var before, q := run[..|run| - 1], run[|run| - 1];
    if j == |run| - 1 {
      ServesIff(c, q.addr, q.size);
      OneIndex(c, q.addr, Clamp(q.size), i, place);
    } else {
      assert !MayStore(c, q, place);
      LastWriteStays(c, image, before, j, i, place);
    }
  }

  /** A byte that nothing stored is still the initial one. */
  lemma {:induction false} UnstoredStays(c: Config, image: seq<Byte>, run: seq<Request>, place: nat)
    requires Image(c, image) && AllLegal(c, run) && place < |image|
    requires forall k :: 0 <= k < |run| ==> !MayStore(c, run[k], place)
    ensures ByteAt(c, image, run, place) == image[place]
  {
    if run != [] {
      assert !MayStore(c, run[|run| - 1], place);
      UnstoredStays(c, image, run[..|run| - 1], place);
    }
  }

  /**
   * In a run whose times never decrease on a line, a read is answered, address by address,
   * with the byte last stored there, or fails exactly if it is not served.
   */
  lemma ReadsReturnStored(c: Config, image: seq<Byte>, run: seq<Request>, q: Request)
    requires Image(c, image) && AllLegal(c, run) && q.Read? && Monotone(run + [q])
    ensures var reply := Step(Exec(c, image, run), q).1;
            if Serves(c, q.addr, q.size) then
              && reply.Bytes? && |reply.bytes| == (if 1 <= q.size <= LINE_SIZE then q.size else LINE_SIZE)
              && forall i :: 0 <= i < |reply.bytes| ==> IsStored(c, image, run, q.addr + i, reply.bytes[i])
            else reply == Failed
  {
    ServesIff(c, q.addr, q.size);
    ReadsReturnLastStore(c, image, run, q);
    var reply := Step(Exec(c, image, run), q).1;
    if Serves(c, q.addr, q.size) {
      forall i | 0 <= i < |reply.bytes| ensures IsStored(c, image, run, q.addr + i, reply.bytes[i]) {
        LastByteStored(c, image, run, q.addr, Clamp(q.size), i, reply.bytes[i]);
      }
    }
  }

  lemma LastByteStored(c: Config, image: seq<Byte>, run: seq<Request>, addr: nat, n: nat, i: nat, b: Byte)
    requires Image(c, image) && AllLegal(c, run) && Accepts(c, addr, n) && i < n
    requires b == LastByte(image, AllStores(c, image, run), Loc(c, addr + i))
    ensures IsStored(c, image, run, addr + i, b)
  {
    ReadPlace(c, addr, n, i);
    ApplyIsLastByte(image, AllStores(c, image, run), Loc(c, addr + i));
    StoresAreBytes(c, image, run, PlaceOf(c, addr + i));
  }

  /** In particular a byte written and not stored over since is the byte read, at any address of any region. */
  lemma WrittenIsRead(c: Config, image: seq<Byte>, run: seq<Request>, q: Request, j: nat, i: nat, k: nat)
    requires Image(c, image) && AllLegal(c, run) && q.Read? && Monotone(run + [q]) && Serves(c, q.addr, q.size)
    requires j < |run| && run[j].Write? && Serves(c, run[j].addr, run[j].size) && i < Clamp(run[j].size)
    requires k < Clamp(q.size) && q.addr + k == run[j].addr + i
    requires forall m :: j < m < |run| ==> !StoresOver(c, run[m], q.addr + k)
    ensures var reply := Step(Exec(c, image, run), q).1;
            reply.Bytes? && k < |reply.bytes| && reply.bytes[k] == run[j].data[i]
  {
    WrittenStays(c, image, run, j, i, q.addr + k);
    StoredIsRead(c, image, run, q, k, run[j].data[i]);
  }

  lemma StoredIsRead(c: Config, image: seq<Byte>, run: seq<Request>, q: Request, k: nat, b: Byte)
    requires Image(c, image) && AllLegal(c, run) && q.Read? && Monotone(run + [q]) && Serves(c, q.addr, q.size)
    requires k < Clamp(q.size) && IsStored(c, image, run, q.addr + k, b)
    ensures var reply := Step(Exec(c, image, run), q).1; reply.Bytes? && k < |reply.bytes| && reply.bytes[k] == b
  {
    ReadsReturnStored(c, image, run, q);
    assert IsStored(c, image, run, q.addr + k, Step(Exec(c, image, run), q).1.bytes[k]);
  }

  lemma ServedPlace(c: Config, addr: nat, size: nat, i: nat)
    requires 1 <= c.lines && Serves(c, addr, size) && i < Clamp(size)
    ensures 0 <= PlaceOf(c, addr + i) < Size(c) && GoesTo(c, addr, i, PlaceOf(c, addr + i))
  {
    ServesIff(c, addr, size);
    ReadPlace(c, addr, Clamp(size), i);
  }

  lemma WrittenStays(c: Config, image: seq<Byte>, run: seq<Request>, j: nat, i: nat, a: nat)
    requires Image(c, image) && AllLegal(c, run)
    requires j < |run| && run[j].Write? && Serves(c, run[j].addr, run[j].size) && i < Clamp(run[j].size)
    requires a == run[j].addr + i && forall m :: j < m < |run| ==> !StoresOver(c, run[m], a)
    ensures IsStored(c, image, run, a, run[j].data[i])
  {
    var place := PlaceOf(c, a);
    ServedPlace(c, run[j].addr, run[j].size, i);
    forall m | j < m < |run| ensures !MayStore(c, run[m], place) {
      assert !StoresOver(c, run[m], a);
    }
    LastWriteStays(c, image, run, j, i, place);
  }
}
