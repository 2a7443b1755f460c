/**
 * The store buffers of one thread under Partial Store Order (section 8.4.4 of The SPARC Architecture
 * Manual, Version 9), as kept by src/PSOInterpreter.cpp and src/PSOTraceBuilder.cpp.
 *
 * A pending store is split into bytes, and there is one queue per byte address.  The specification is the
 * issue-ordered list of whole pending stores; each queue is a projection of it.
 */
module PSOBuffers {
  import opened Options

  type Byte = x: int | 0 <= x < 256

  datatype SymAddr = SymAddr(block: int, offset: nat) {
    function Plus(i: nat): SymAddr {
      SymAddr(block, offset + i)
    }
  }

  datatype SymAddrSize = SymAddrSize(addr: SymAddr, size: nat) {
    predicate Includes(b: SymAddr) {
      addr.block == b.block && addr.offset <= b.offset < addr.offset + size
    }

    predicate Overlaps(o: SymAddrSize) {
      && addr.block == o.addr.block
      && o.addr.offset < addr.offset + size && addr.offset < o.addr.offset + o.size
    }
  }

  /** A store that has been issued: its location and one value per byte. */
  datatype Store = Store(ml: SymAddrSize, data: seq<Byte>) {
    predicate WellFormed() {
      ml.size >= 1 && |data| == ml.size
    }

    function At(b: SymAddr): Byte
      requires WellFormed() && ml.Includes(b)
    {
      data[b.offset - ml.addr.offset]
    }
  }

  datatype PendingStoreByte = PendingStoreByte(ml: SymAddrSize, val: Byte)

  type Buffers = map<SymAddr, seq<PendingStoreByte>>

  ghost predicate AllWellFormed(pending: seq<Store>) {
    forall k :: 0 <= k < |pending| ==> pending[k].WellFormed()
  }

  /** Two locations overlap exactly when they share a byte. */
  lemma OverlapsIffShared(m: SymAddrSize, n: SymAddrSize)
    requires m.size >= 1 && n.size >= 1
    ensures m.Overlaps(n) <==> exists b :: m.Includes(b) && n.Includes(b)
  {
    if m.Overlaps(n) {
      var b := if m.addr.offset < n.addr.offset then n.addr else m.addr;
      assert m.Includes(b) && n.Includes(b);
    }
  }

  /** What the queue of byte `b` must hold: the pending stores that cover `b`, oldest first. */
  ghost function Projection(pending: seq<Store>, b: SymAddr): seq<PendingStoreByte>
    requires AllWellFormed(pending)
  {
    if pending == [] then []
    else
      var s := pending[0];
      (if s.ml.Includes(b) then [PendingStoreByte(s.ml, s.At(b))] else []) + Projection(pending[1..], b)
  }

  /** `store_buffers`: a queue for every byte with a pending store, and no empty queue. */
  ghost predicate Represents(buf: Buffers, pending: seq<Store>) {
    && AllWellFormed(pending)
    && forall b :: (b in buf <==> Projection(pending, b) != []) && (b in buf ==> buf[b] == Projection(pending, b))
  }

  lemma ProjectionConcat(p: seq<Store>, q: seq<Store>, b: SymAddr)
    requires AllWellFormed(p) && AllWellFormed(q)
    ensures AllWellFormed(p + q)
    ensures Projection(p + q, b) == Projection(p, b) + Projection(q, b)
  {
    assert AllWellFormed(p + q);
    if p == [] {
      assert p + q == q;
    } else {
      assert (p + q)[1..] == p[1..] + q;
      ProjectionConcat(p[1..], q, b);
    }
  }

  ghost predicate NoneCovers(p: seq<Store>, b: SymAddr) {
    forall k :: 0 <= k < |p| ==> !p[k].ml.Includes(b)
  }

  lemma ProjectionEmpty(p: seq<Store>, b: SymAddr)
    requires AllWellFormed(p)
    ensures Projection(p, b) == [] <==> NoneCovers(p, b)
  {
    if p != [] {
      ProjectionEmpty(p[1..], b);
      assert NoneCovers(p, b) <==> !p[0].ml.Includes(b) && NoneCovers(p[1..], b) by {
        assert forall k :: 1 <= k < |p| ==> p[k] == p[1..][k - 1];
        if !p[0].ml.Includes(b) && NoneCovers(p[1..], b) {
          forall k | 0 <= k < |p|
            ensures !p[k].ml.Includes(b)
          {
            if k > 0 { assert p[k] == p[1..][k - 1]; }
          }
        }
        if NoneCovers(p, b) {
          forall k | 0 <= k < |p[1..]|
            ensures !p[1..][k].ml.Includes(b)
          {
            assert p[1..][k] == p[k + 1];
          }
        }
      }
    }
  }

  /** Store `k` is the oldest pending store on byte `b`. */
  ghost predicate Oldest(p: seq<Store>, k: int, b: SymAddr) {
    0 <= k < |p| && p[k].ml.Includes(b) && NoneCovers(p[..k], b)
  }

  /** Store `k` is the newest pending store on byte `b`. */
  ghost predicate Newest(p: seq<Store>, k: int, b: SymAddr) {
    0 <= k < |p| && p[k].ml.Includes(b) && NoneCovers(p[k + 1..], b)
  }

  lemma SplitAt(p: seq<Store>, k: int, b: SymAddr)
    requires AllWellFormed(p) && 0 <= k < |p|
    ensures AllWellFormed(p[..k]) && AllWellFormed(p[k + 1..])
    ensures Projection(p, b) == Projection(p[..k], b)
      + (if p[k].ml.Includes(b) then [PendingStoreByte(p[k].ml, p[k].At(b))] else []) + Projection(p[k + 1..], b)
  {
    assert p == p[..k] + p[k..];
    assert AllWellFormed(p[..k]) && AllWellFormed(p[k..]);
    ProjectionConcat(p[..k], p[k..], b);
    assert p[k..][1..] == p[k + 1..];
  }

  /** The front of a queue is the oldest store on that byte. */
  lemma FrontIsOldest(p: seq<Store>, k: int, b: SymAddr)
    requires AllWellFormed(p) && Oldest(p, k, b)
    ensures Projection(p, b) != [] && Projection(p, b)[0] == PendingStoreByte(p[k].ml, p[k].At(b))
  {
    SplitAt(p, k, b);
    ProjectionEmpty(p[..k], b);
  }

  /** The back of a queue is the newest store on that byte. */
  lemma BackIsNewest(p: seq<Store>, k: int, b: SymAddr)
    requires AllWellFormed(p) && Newest(p, k, b)
    ensures Projection(p, b) != []
    ensures Projection(p, b)[|Projection(p, b)| - 1] == PendingStoreByte(p[k].ml, p[k].At(b))
  {
    SplitAt(p, k, b);
    ProjectionEmpty(p[k + 1..], b);
  }

  lemma OldestExists(p: seq<Store>, b: SymAddr) returns (k: int)
    requires AllWellFormed(p) && Projection(p, b) != []
    ensures Oldest(p, k, b)
  {
    ProjectionEmpty(p, b);
    k := 0;
    while !p[k].ml.Includes(b)
      invariant 0 <= k < |p| && NoneCovers(p[..k], b)
      decreases |p| - k
    {
      assert p[..k + 1] == p[..k] + [p[k]];
      k := k + 1;
    }
  }

  lemma NewestExists(p: seq<Store>, b: SymAddr) returns (k: int)
    requires AllWellFormed(p) && Projection(p, b) != []
    ensures Newest(p, k, b)
  {
    ProjectionEmpty(p, b);
    k := |p| - 1;
    while !p[k].ml.Includes(b)
      invariant 0 <= k < |p| && NoneCovers(p[k + 1..], b)
      decreases k
    {
      assert p[k..] == [p[k]] + p[k + 1..];
      k := k - 1;
    }
  }

  // ----- Flushing one store ------------------------------------------------------------------------------

  /** Store `k` overlaps no older pending store, so it is the oldest on every byte it covers. */
  ghost predicate Flushable(p: seq<Store>, k: int) {
    0 <= k < |p| && forall j :: 0 <= j < k ==> !p[j].ml.Overlaps(p[k].ml)
  }

  /** What `is_aux_at_head` documents: the auxiliary thread of byte `b0` may update memory. */
  ghost predicate AuxAtHead(p: seq<Store>, b0: SymAddr) {
    exists k :: Flushable(p, k) && p[k].ml.addr == b0
  }

  function Without(p: seq<Store>, k: int): seq<Store>
    requires 0 <= k < |p|
  {
    p[..k] + p[k + 1..]
  }

  lemma FlushableIsOldest(p: seq<Store>, k: int)
    requires AllWellFormed(p) && 0 <= k < |p|
    ensures Flushable(p, k) <==> forall b :: p[k].ml.Includes(b) ==> Oldest(p, k, b)
  {
    if Flushable(p, k) {
      forall b, j | p[k].ml.Includes(b) && 0 <= j < k
        ensures !p[..k][j].ml.Includes(b)
      {
        OverlapsIffShared(p[j].ml, p[k].ml);
      }
    }
    if forall b :: p[k].ml.Includes(b) ==> Oldest(p, k, b) {
      forall j | 0 <= j < k
        ensures !p[j].ml.Overlaps(p[k].ml)
      {
        OverlapsIffShared(p[j].ml, p[k].ml);
        assert forall b :: Oldest(p, k, b) ==> !p[..k][j].ml.Includes(b);
      }
    }
  }

  /** Popping the front of the queue of every covered byte removes exactly one whole store. */
  lemma PopIsWithout(p: seq<Store>, k: int, b: SymAddr)
    requires AllWellFormed(p) && Flushable(p, k)
    ensures AllWellFormed(Without(p, k))
    ensures p[k].ml.Includes(b) ==> Projection(p, b) != [] && Projection(Without(p, k), b) == Projection(p, b)[1..]
    ensures !p[k].ml.Includes(b) ==> Projection(Without(p, k), b) == Projection(p, b)
  {
    SplitAt(p, k, b);
    ProjectionConcat(p[..k], p[k + 1..], b);
    if p[k].ml.Includes(b) {
      FlushableIsOldest(p, k);
      ProjectionEmpty(p[..k], b);
    }
  }

  /** The oldest pending store can always be flushed. */
  lemma SomeAuxAtHead(p: seq<Store>)
    requires p != []
    ensures Flushable(p, 0) && AuxAtHead(p, p[0].ml.addr)
  {
  }

  /** At most one store can be flushed by the auxiliary thread of a byte. */
  lemma FlushableUnique(p: seq<Store>, j: int, k: int)
    requires AllWellFormed(p) && Flushable(p, j) && Flushable(p, k) && p[j].ml.addr == p[k].ml.addr
    ensures j == k
  {
    assert p[j].ml.Includes(p[j].ml.addr) && p[k].ml.Includes(p[j].ml.addr);
    OverlapsIffShared(p[j].ml, p[k].ml);
    OverlapsIffShared(p[k].ml, p[j].ml);
  }

  /**
   * `is_aux_at_head` looks at the front of the queues of the bytes of one store only, and compares only the
   * first address.  That is enough: the answer is right, and where the addresses agree the whole locations do.
   */
  method IsAuxAtHead(buf: Buffers, b0: SymAddr, ghost pending: seq<Store>) returns (r: bool)
    requires Represents(buf, pending)
    ensures r <==> AuxAtHead(pending, b0)
  {
    if b0 !in buf {
      NoQueueNoHead(pending, b0);
      return false;
    }
    ghost var k := OldestExists(pending, b0);
    FrontIsOldest(pending, k, b0);
    var ml := buf[b0][0].ml;
    var i := 0;
    while i < ml.size
      invariant 0 <= i <= ml.size && AgreesBelow(pending, k, i, b0)
    {
      var b := ml.addr.Plus(i);
      if b != b0 {
        ghost var h := CoveredHasOldest(pending, k, b);
        if buf[b][0].ml.addr != b0 {
          OtherFrontNoHead(pending, k, h, b, b0);
          return false;
        }
        SameFront(pending, k, h, b, b0);
        assert buf[b][0].ml == ml;
      }
      AgreesFurther(pending, k, i, b0);
      i := i + 1;
    }
    AllAgreeIsHead(pending, k, b0);
    return true;
  }

  /** Store `k` is the oldest one on byte `b`, and starts at `b0` unless that is the byte. */
  ghost predicate AgreesAt(p: seq<Store>, k: int, b: SymAddr, b0: SymAddr) {
    Oldest(p, k, b) && (b == b0 || p[k].ml.addr == b0)
  }

  ghost predicate AgreesBelow(p: seq<Store>, k: int, i: int, b0: SymAddr)
    requires 0 <= k < |p|
  {
    forall j :: 0 <= j < i ==> AgreesAt(p, k, p[k].ml.addr.Plus(j), b0)
  }

  lemma AgreesFurther(p: seq<Store>, k: int, i: int, b0: SymAddr)
    requires 0 <= k < |p| && 0 <= i && AgreesBelow(p, k, i, b0) && AgreesAt(p, k, p[k].ml.addr.Plus(i), b0)
    ensures AgreesBelow(p, k, i + 1, b0)
  {
  }

  lemma NoQueueNoHead(p: seq<Store>, b0: SymAddr)
    requires AllWellFormed(p) && Projection(p, b0) == []
    ensures !AuxAtHead(p, b0)
  {
    ProjectionEmpty(p, b0);
    forall k | 0 <= k < |p|
      ensures p[k].ml.addr != b0
    {
      assert !p[k].ml.Includes(b0);
    }
  }

  lemma OldestUnique(p: seq<Store>, h: int, k: int, b: SymAddr)
    requires Oldest(p, h, b) && Oldest(p, k, b)
    ensures h == k
  {
    if h < k { NotOldest(p, h, k, b); }
    if k < h { NotOldest(p, k, h, b); }
  }

  lemma NotOldest(p: seq<Store>, h: int, k: int, b: SymAddr)
    requires 0 <= h < k < |p| && p[h].ml.Includes(b)
    ensures !Oldest(p, k, b)
  {
    assert p[..k][h] == p[h];
  }

  lemma HeadIsFront(p: seq<Store>, f: int, k: int, b0: SymAddr)
    requires AllWellFormed(p) && Flushable(p, f) && p[f].ml.addr == b0 && Oldest(p, k, b0)
    ensures f == k && forall b :: p[k].ml.Includes(b) ==> Oldest(p, k, b)
  {
    FlushableIsOldest(p, f);
    assert p[f].ml.Includes(b0);
    OldestUnique(p, f, k, b0);
  }

  /** A store that starts at `b0` must be at the front on all its bytes. */
  lemma OtherFrontNoHead(p: seq<Store>, k: int, h: int, b: SymAddr, b0: SymAddr)
    requires AllWellFormed(p) && Oldest(p, k, b0) && p[k].ml.Includes(b) && Oldest(p, h, b) && p[h].ml.addr != b0
    ensures !AuxAtHead(p, b0)
  {
    forall f | Flushable(p, f)
      ensures p[f].ml.addr != b0
    {
      if p[f].ml.addr == b0 {
        HeadIsFront(p, f, k, b0);
        OldestUnique(p, h, k, b);
      }
    }
  }

  /** The store at the front of `b` starts at `b0`, so it is also the one at the front of `b0`. */
  lemma SameFront(p: seq<Store>, k: int, h: int, b: SymAddr, b0: SymAddr)
    requires AllWellFormed(p) && Oldest(p, k, b0) && Oldest(p, h, b) && h <= k && p[h].ml.addr == b0
    ensures h == k
  {
    assert p[h].ml.Includes(b0);
    if h < k { NotOldest(p, h, k, b0); }
  }

  lemma AllAgreeIsHead(p: seq<Store>, k: int, b0: SymAddr)
    requires AllWellFormed(p) && Oldest(p, k, b0) && AgreesBelow(p, k, p[k].ml.size, b0)
    ensures AuxAtHead(p, b0)
  {
    var ml := p[k].ml;
    forall b | ml.Includes(b)
      ensures Oldest(p, k, b)
    {
      assert b == ml.addr.Plus(b.offset - ml.addr.offset) && AgreesAt(p, k, ml.addr.Plus(b.offset - ml.addr.offset), b0);
    }
    FlushableIsOldest(p, k);
    assert AgreesAt(p, k, ml.addr.Plus(0), b0) && ml.addr.Plus(0) == ml.addr;
  }

  lemma CoveredHasOldest(p: seq<Store>, k: int, b: SymAddr) returns (h: int)
    requires AllWellFormed(p) && 0 <= k < |p| && p[k].ml.Includes(b)
    ensures Oldest(p, h, b) && h <= k
    ensures Projection(p, b) != [] && Projection(p, b)[0] == PendingStoreByte(p[h].ml, p[h].At(b))
  {
    ProjectionEmpty(p, b);
    h := OldestExists(p, b);
    FrontIsOldest(p, h, b);
  }

  // ----- Issuing a store ---------------------------------------------------------------------------------

  lemma PushProjection(p: seq<Store>, s: Store, b: SymAddr)
    requires AllWellFormed(p) && s.WellFormed()
    ensures AllWellFormed(p + [s])
    ensures Projection(p + [s], b) == Projection(p, b) + (if s.ml.Includes(b) then [PendingStoreByte(s.ml, s.At(b))] else [])
  {
    ProjectionConcat(p, [s], b);
  }

  /** The loop of `visitStoreInst` and `store`: one entry at the back of the queue of every byte. */
  method PushBack(buf: Buffers, s: Store, ghost pending: seq<Store>) returns (r: Buffers)
    requires Represents(buf, pending) && s.WellFormed()
    ensures Represents(r, pending + [s])
  {
    r := buf;
    for i := 0 to s.ml.size
      invariant Pushed(buf, r, s, i)
    {
      var b := s.ml.addr.Plus(i);
      ghost var was := r;
      r := r[b := (if b in r then r[b] else []) + [PendingStoreByte(s.ml, s.data[i])]];
      PushedOneMore(buf, was, r, s, i);
    }
    PushedRepresents(buf, r, s, pending);
  }

  /** The first `i` bytes of the store have been pushed. */
  ghost predicate Pushed(buf: Buffers, r: Buffers, s: Store, i: int)
    requires s.WellFormed()
  {
    forall b {:trigger b in r} :: if s.ml.Includes(b) && b.offset < s.ml.addr.offset + i
      then b in r && r[b] == (if b in buf then buf[b] else []) + [PendingStoreByte(s.ml, s.At(b))]
      else (b in r <==> b in buf) && (b in r ==> r[b] == buf[b])
  }

  lemma PushedOneMore(buf: Buffers, was: Buffers, r: Buffers, s: Store, i: int)
    requires s.WellFormed() && 0 <= i < s.ml.size && Pushed(buf, was, s, i)
    requires var b := s.ml.addr.Plus(i); r == was[b := (if b in was then was[b] else []) + [PendingStoreByte(s.ml, s.data[i])]]
    ensures Pushed(buf, r, s, i + 1)
  {
    var b := s.ml.addr.Plus(i);
    assert s.ml.Includes(b) && s.At(b) == s.data[i];
    forall c
      ensures if s.ml.Includes(c) && c.offset < s.ml.addr.offset + (i + 1)
        then c in r && r[c] == (if c in buf then buf[c] else []) + [PendingStoreByte(s.ml, s.At(c))]
        else (c in r <==> c in buf) && (c in r ==> r[c] == buf[c])
    {
      if c != b {
        assert c in r <==> c in was;
        assert s.ml.Includes(c) && c.offset == s.ml.addr.offset + i ==> c == b;
      }
    }
  }

  lemma PushedRepresents(buf: Buffers, r: Buffers, s: Store, pending: seq<Store>)
    requires Represents(buf, pending) && s.WellFormed() && Pushed(buf, r, s, s.ml.size)
    ensures Represents(r, pending + [s])
  {
    assert AllWellFormed(pending + [s]);
    forall b
      ensures (b in r <==> Projection(pending + [s], b) != []) && (b in r ==> r[b] == Projection(pending + [s], b))
    {
      PushProjection(pending, s, b);
    }
  }

  // ----- Reading, and draining the buffers ---------------------------------------------------------------

  type Memory = map<SymAddr, Byte>

  function Read(mem: Memory, b: SymAddr): Byte {
    if b in mem then mem[b] else 0
  }

  /** Memory after the bytes of `s` are written to it. */
  function Write(mem: Memory, s: Store): (m: Memory)
    requires s.WellFormed()
    ensures forall b :: Read(m, b) == if s.ml.Includes(b) then s.At(b) else Read(mem, b)
  {
    var bytes := BytesOf(s.ml);
    mem + map b | b in bytes :: s.At(b)
  }

  /** The bytes of a location. */
  function BytesOf(ml: SymAddrSize): (r: set<SymAddr>)
    ensures forall b :: b in r <==> ml.Includes(b)
  {
    var r := set i | 0 <= i < ml.size :: ml.addr.Plus(i);
    assert forall b :: ml.Includes(b) ==> b == ml.addr.Plus(b.offset - ml.addr.offset) && b in r;
    r
  }

  /** The value the issuing thread must see at `b`: its newest pending store there, and else memory. */
  ghost function View(mem: Memory, p: seq<Store>, b: SymAddr): Byte
    requires AllWellFormed(p)
  {
    var q := Projection(p, b);
    if q == [] then Read(mem, b) else q[|q| - 1].val
  }

  /** Flushing a store never changes what its thread sees. */
  lemma FlushKeepsView(mem: Memory, p: seq<Store>, k: int, b: SymAddr)
    requires AllWellFormed(p) && Flushable(p, k)
    ensures AllWellFormed(Without(p, k))
    ensures View(Write(mem, p[k]), Without(p, k), b) == View(mem, p, b)
  {
    PopIsWithout(p, k, b);
    if p[k].ml.Includes(b) {
      FlushableIsOldest(p, k);
      FrontIsOldest(p, k, b);
    }
  }

  /** A run of auxiliary threads, each picked while at head; `ks` are positions in the remaining stores. */
  ghost predicate IsFlushRun(p: seq<Store>, ks: seq<int>)
    decreases |ks|
  {
    ks == [] || (Flushable(p, ks[0]) && IsFlushRun(Without(p, ks[0]), ks[1..]))
  }

  ghost function RunFlushes(mem: Memory, p: seq<Store>, ks: seq<int>): (r: (Memory, seq<Store>))
    requires AllWellFormed(p) && IsFlushRun(p, ks)
    ensures AllWellFormed(r.1) && |r.1| == |p| - |ks|
    decreases |ks|
  {
    if ks == [] then (mem, p)
    else
      var rest := Without(p, ks[0]);
      assert AllWellFormed(rest);
      RunFlushes(Write(mem, p[ks[0]]), rest, ks[1..])
  }

  /**
   * In whatever order the auxiliary threads run, a run that empties the buffers leaves in memory, byte by
   * byte, what the thread saw before: per byte the newest pending store wins.
   */
  lemma {:induction false} DrainIsOrderIndependent(mem: Memory, p: seq<Store>, ks: seq<int>, b: SymAddr)
    requires AllWellFormed(p) && IsFlushRun(p, ks)
    ensures View(RunFlushes(mem, p, ks).0, RunFlushes(mem, p, ks).1, b) == View(mem, p, b)
    ensures |ks| == |p| ==> Read(RunFlushes(mem, p, ks).0, b) == View(mem, p, b)
    decreases |ks|
  {
    if ks != [] {
      FlushKeepsView(mem, p, ks[0], b);
      DrainIsOrderIndependent(Write(mem, p[ks[0]]), Without(p, ks[0]), ks[1..], b);
    }
  }

  /** Every run of flushes can be continued until nothing is pending. */
  lemma {:induction false} FlushingDrains(p: seq<Store>, ks: seq<int>) returns (more: seq<int>)
    requires AllWellFormed(p) && IsFlushRun(p, ks)
    ensures IsFlushRun(p, ks + more) && |ks + more| == |p|
    decreases |p|
  {
    if p == [] {
      more := [];
      assert ks + more == ks;
    } else if ks == [] {
      SomeAuxAtHead(p);
      var rest := FlushingDrains(Without(p, 0), []);
      more := [0] + rest;
      assert ks + more == more && more[1..] == [] + rest;
    } else {
      var rest := Without(p, ks[0]);
      more := FlushingDrains(rest, ks[1..]);
      assert (ks + more)[1..] == ks[1..] + more;
    }
  }

  /** A load of `ml` can be served: each queue it meets ends with a store to exactly `ml`. */
  ghost predicate ReadableSpec(p: seq<Store>, ml: SymAddrSize) {
    forall k, b :: Newest(p, k, b) && ml.Includes(b) ==> p[k].ml == ml
  }

  ghost predicate NoneOverlaps(p: seq<Store>, ml: SymAddrSize) {
    forall k :: 0 <= k < |p| ==> !p[k].ml.Overlaps(ml)
  }

  /** The newest pending store overlapping `ml` is to exactly `ml`, or nothing pending meets `ml`. */
  ghost predicate NewestOverlapIsExact(p: seq<Store>, ml: SymAddrSize) {
    NoneOverlaps(p, ml) || exists k :: ExactNewest(p, ml, k)
  }

  /** Readability byte by byte is a statement about one store. */
  lemma ReadableIsExact(p: seq<Store>, ml: SymAddrSize)
    requires AllWellFormed(p) && ml.size >= 1
    ensures ReadableSpec(p, ml) <==> NewestOverlapIsExact(p, ml)
  {
    if ReadableSpec(p, ml) && !NoneOverlaps(p, ml) {
      var k := NewestOverlap(p, ml);
      OverlapsIffShared(p[k].ml, ml);
      var b :| p[k].ml.Includes(b) && ml.Includes(b);
      NoOverlapNoneCovers(p[k + 1..], ml, b);
      assert Newest(p, k, b) && ExactNewest(p, ml, k);
    }
    if k :| ExactNewest(p, ml, k) {
      forall l | k < l < |p|
        ensures !p[l].ml.Overlaps(ml)
      {
        assert p[k + 1..][l - k - 1] == p[l];
      }
      forall j, b | Newest(p, j, b) && ml.Includes(b)
        ensures p[j].ml == ml
      {
        OverlapsIffShared(p[j].ml, ml);
      }
    } else if NoneOverlaps(p, ml) {
      forall j, b | 0 <= j < |p| && ml.Includes(b)
        ensures !Newest(p, j, b)
      {
        OverlapsIffShared(p[j].ml, ml);
      }
    }
  }

  lemma NewestOverlap(p: seq<Store>, ml: SymAddrSize) returns (k: int)
    requires !NoneOverlaps(p, ml)
    ensures 0 <= k < |p| && p[k].ml.Overlaps(ml) && NoneOverlaps(p[k + 1..], ml)
  {
    k := |p| - 1;
    while !p[k].ml.Overlaps(ml)
      invariant 0 <= k < |p| && NoneOverlaps(p[k + 1..], ml)
      decreases k
    {
      assert p[k..] == [p[k]] + p[k + 1..];
      k := k - 1;
    }
  }

  /** `PSOThread::readable`. */
  method Readable(buf: Buffers, ml: SymAddrSize, ghost pending: seq<Store>) returns (r: bool)
    requires Represents(buf, pending)
    ensures r <==> ReadableSpec(pending, ml)
  {
    for i := 0 to ml.size
      invariant forall k, b :: Newest(pending, k, b) && ml.Includes(b) && b.offset < ml.addr.offset + i ==>
        pending[k].ml == ml
    {
      var b := ml.addr.Plus(i);
      if b in buf {
        ghost var k := NewestExists(pending, b);
        BackIsNewest(pending, k, b);
        if buf[b][|buf[b]| - 1].ml != ml {
          return false;
        }
      }
      forall k, c | Newest(pending, k, c) && ml.Includes(c) && c.offset == ml.addr.offset + i
        ensures pending[k].ml == ml
      {
        assert c == b;
        BackIsNewest(pending, k, b);
      }
    }
    return true;
  }

  /** The data a load of `ml` must return, byte by byte. */
  ghost predicate LoadsView(mem: Memory, p: seq<Store>, ml: SymAddrSize, r: seq<Byte>)
    requires AllWellFormed(p)
  {
    |r| == ml.size && forall i :: 0 <= i < ml.size ==> r[i] == View(mem, p, ml.addr.Plus(i))
  }

  /** The newest pending store overlapping `ml` is store `k`, and it is to exactly `ml`. */
  ghost predicate ExactNewest(p: seq<Store>, ml: SymAddrSize, k: int) {
    0 <= k < |p| && p[k].ml == ml && NoneOverlaps(p[k + 1..], ml)
  }

  lemma BackOfExact(p: seq<Store>, ml: SymAddrSize, k: int, b: SymAddr)
    requires AllWellFormed(p) && ExactNewest(p, ml, k) && ml.Includes(b)
    ensures Projection(p, b) != []
    ensures Projection(p, b)[|Projection(p, b)| - 1] == PendingStoreByte(ml, p[k].At(b))
  {
    NoOverlapNoQueue(p[k + 1..], ml, b);
    ProjectionEmpty(p[k + 1..], b);
    BackIsNewest(p, k, b);
  }

  /**
   * The part of `visitLoadInst` that fetches the value.  Only the queue of the first byte decides between
   * the buffer and memory; since the load was not refused, the answer is right for every byte.
   */
  method Load(buf: Buffers, mem: Memory, ml: SymAddrSize, ghost pending: seq<Store>) returns (r: seq<Byte>)
    requires Represents(buf, pending) && ml.size >= 1 && ReadableSpec(pending, ml)
    ensures LoadsView(mem, pending, ml, r)
    ensures NoneOverlaps(pending, ml) || (exists k :: ExactNewest(pending, ml, k) && r == pending[k].data)
  {
    ReadableIsExact(pending, ml);
    assert ml.Includes(ml.addr);
    if ml.addr in buf {
      if NoneOverlaps(pending, ml) { NoOverlapNoQueue(pending, ml, ml.addr); }
      ghost var k :| ExactNewest(pending, ml, k);
      r := LoadFromBuffer(buf, ml, pending, k);
      ExactLoadsView(mem, pending, ml, k);
    } else {
      assert NoneOverlaps(pending, ml) by {
        if k :| ExactNewest(pending, ml, k) { BackOfExact(pending, ml, k, ml.addr); }
      }
      r := LoadFromMemory(mem, ml, pending);
    }
  }

  lemma ExactLoadsView(mem: Memory, p: seq<Store>, ml: SymAddrSize, k: int)
    requires AllWellFormed(p) && ExactNewest(p, ml, k)
    ensures LoadsView(mem, p, ml, p[k].data)
  {
    forall i | 0 <= i < ml.size
      ensures p[k].data[i] == View(mem, p, ml.addr.Plus(i))
    {
      BackOfExact(p, ml, k, ml.addr.Plus(i));
    }
  }

  method LoadFromBuffer(buf: Buffers, ml: SymAddrSize, ghost p: seq<Store>, ghost k: int) returns (r: seq<Byte>)
    requires Represents(buf, p) && ExactNewest(p, ml, k)
    ensures r == p[k].data
  {
    r := [];
    for i := 0 to ml.size
      invariant r == p[k].data[..i]
    {
      var b := ml.addr.Plus(i);
      BackOfExact(p, ml, k, b);
      OneMore(p[k].data, i);
      assert p[k].At(b) == p[k].data[i];
      r := r + [buf[b][|buf[b]| - 1].val];
    }
    OneMore(p[k].data, ml.size);
  }

  lemma OneMore<T>(s: seq<T>, i: nat)
    requires i <= |s|
    ensures if i < |s| then s[..i + 1] == s[..i] + [s[i]] else s[..i] == s
  {
  }

  method LoadFromMemory(mem: Memory, ml: SymAddrSize, ghost p: seq<Store>) returns (r: seq<Byte>)
    requires AllWellFormed(p) && NoneOverlaps(p, ml)
    ensures LoadsView(mem, p, ml, r)
  {
    r := [];
    for i := 0 to ml.size
      invariant |r| == i && forall j :: 0 <= j < i ==> r[j] == View(mem, p, ml.addr.Plus(j))
    {
      NoOverlapNoQueue(p, ml, ml.addr.Plus(i));
      r := r + [Read(mem, ml.addr.Plus(i))];
    }
  }

  lemma NoOverlapNoneCovers(p: seq<Store>, ml: SymAddrSize, b: SymAddr)
    requires AllWellFormed(p) && NoneOverlaps(p, ml) && ml.Includes(b)
    ensures NoneCovers(p, b)
  {
    forall k | 0 <= k < |p|
      ensures !p[k].ml.Includes(b)
    {
      OverlapsIffShared(p[k].ml, ml);
    }
  }

  lemma NoOverlapNoQueue(p: seq<Store>, ml: SymAddrSize, b: SymAddr)
    requires AllWellFormed(p) && NoneOverlaps(p, ml) && ml.Includes(b)
    ensures Projection(p, b) == []
  {
    NoOverlapNoneCovers(p, ml, b);
    ProjectionEmpty(p, b);
  }
}
