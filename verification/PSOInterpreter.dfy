/**
 * src/PSOInterpreter.cpp with the buffer handling of src/PSOTraceBuilder.cpp: threads that issue stores into
 * their buffers, auxiliary threads that flush them, and threads that block until a flush or a termination.
 */
module PSOInterpreters {
  import opened PSOBuffers
  import opened Options

  /** `awaiting_buffer_flush`: BFL_NO, BFL_FULL and BFL_PARTIAL. */
  datatype BufferFlush = NoFlush | FullFlush | PartialFlush

  datatype PSOThread = PSOThread(
    auxToByte: seq<SymAddr>, byteToAux: map<SymAddr, int>, storeBuffers: Buffers,
    awaiting: BufferFlush, bufferFlushMl: SymAddrSize)
  {
    /** Auxiliary threads are numbered by the order in which first bytes were stored to. */
    ghost predicate AuxMaps() {
      && (forall i :: 0 <= i < |auxToByte| ==> auxToByte[i] in byteToAux && byteToAux[auxToByte[i]] == i)
      && (forall b :: b in byteToAux ==> 0 <= byteToAux[b] < |auxToByte| && auxToByte[byteToAux[b]] == b)
    }

    ghost predicate Holds(pending: seq<Store>) {
      && Represents(storeBuffers, pending)
      && AuxMaps()
      && (forall k :: 0 <= k < |pending| ==> pending[k].ml.addr in byteToAux)
    }
  }

  /** What `checkRefuse` looks at: a join, fence semantics, and the location of a load. */
  datatype Instr = Instr(join: Option<int>, fence: bool, load: Option<SymAddrSize>)

  function Elements(s: seq<int>): set<int> {
    set x | x in s
  }

  // ----- Who waits for what ------------------------------------------------------------------------------

  /** The threads with what decides whether they may run; `pending` are the issued, unflushed stores. */
  datatype Waits = Waits(
    awaiting: seq<BufferFlush>, flushMl: seq<SymAddrSize>, hasFrames: seq<bool>, awaitingJoin: seq<seq<int>>,
    available: set<int>, pending: seq<seq<Store>>)
  {
    ghost predicate IsThread(p: int) {
      0 <= p < |awaiting|
    }

    ghost predicate Shape() {
      && |awaiting| == |flushMl| == |hasFrames| == |awaitingJoin| == |pending|
      && (forall p :: p in available ==> 0 <= p < |awaiting|)
      && (forall t, x :: 0 <= t < |awaitingJoin| && x in awaitingJoin[t] ==> 0 <= x < |awaiting|)
    }

    /** Thread `t` still executes or has stores to flush: a join with it must wait. */
    ghost predicate Active(t: int)
      requires Shape() && IsThread(t)
    {
      hasFrames[t] || pending[t] != []
    }

    ghost predicate WaitsInJoin(p: int, t: int)
      requires Shape()
    {
      IsThread(t) && Active(t) && p in awaitingJoin[t]
    }

    /** The reason why `p` was parked still holds. */
    ghost predicate HasCause(p: int)
      requires Shape() && IsThread(p)
    {
      match awaiting[p]
      case FullFlush => pending[p] != []
      case PartialFlush => !ReadableSpec(pending[p], flushMl[p])
      case NoFlush => exists t :: WaitsInJoin(p, t)
    }

    /** No wake-up is missed: whoever is parked has a reason, and whoever has a reason is parked. */
    ghost predicate Inv() {
      && Shape()
      && (forall p :: IsThread(p) && awaiting[p] != NoFlush ==> hasFrames[p] && p !in available)
      && (forall p :: IsThread(p) && hasFrames[p] && p !in available ==> HasCause(p))
      && JoinsValid()
    }

    /** Whoever waits in a join is parked for that alone. */
    ghost predicate JoinsValid()
      requires Shape()
    {
      && (forall p, t :: WaitsInJoin(p, t) ==>
            p != t && IsThread(p) && hasFrames[p] && p !in available && awaiting[p] == NoFlush)
      && (forall p, t, u :: WaitsInJoin(p, t) && WaitsInJoin(p, u) ==> t == u)
    }

    ghost predicate Runs(p: int)
      requires Shape()
    {
      IsThread(p) && hasFrames[p] && p in available
    }
  }

  function NewWaits(s: Waits): Waits {
    Waits(s.awaiting + [NoFlush], s.flushMl + [SymAddrSize(SymAddr(0, 0), 1)], s.hasFrames + [true],
          s.awaitingJoin + [[]], s.available + {|s.awaiting|}, s.pending + [[]])
  }

  lemma NewKeepsInv(s: Waits)
    requires s.Inv()
    ensures NewWaits(s).Inv()
  {
    var t := NewWaits(s);
    assert forall p, u :: t.WaitsInJoin(p, u) <==> s.WaitsInJoin(p, u);
  }

  lemma ParkInJoinKeepsInv(s: Waits, p: int, tid: int, t: Waits)
    requires s.Inv() && s.Runs(p) && s.IsThread(tid) && tid != p && s.Active(tid)
    requires t == s.(available := s.available - {p}, awaitingJoin := s.awaitingJoin[tid := s.awaitingJoin[tid] + [p]])
    ensures t.Inv()
  {
    assert forall q, u :: t.WaitsInJoin(q, u) <==> s.WaitsInJoin(q, u) || (q == p && u == tid);
    assert t.WaitsInJoin(p, tid);
    forall q | t.IsThread(q) && t.hasFrames[q] && q !in t.available
      ensures t.HasCause(q)
    {
      if q != p && s.awaiting[q] == NoFlush {
        var u :| s.WaitsInJoin(q, u);
        assert t.WaitsInJoin(q, u);
      }
    }
  }

  lemma ParkForFlushKeepsInv(s: Waits, p: int, kind: BufferFlush, ml: SymAddrSize, t: Waits)
    requires s.Inv() && s.Runs(p)
    requires t == s.(awaiting := s.awaiting[p := kind], flushMl := s.flushMl[p := ml], available := s.available - {p})
    requires kind == FullFlush ==> s.pending[p] != []
    requires kind == PartialFlush ==> !ReadableSpec(s.pending[p], ml)
    requires kind != NoFlush
    ensures t.Inv()
  {
    assert forall q, u :: t.WaitsInJoin(q, u) <==> s.WaitsInJoin(q, u);
  }

  /** A running thread issues stores, or has them go to memory at once. */
  lemma IssueKeepsInv(s: Waits, p: int, q: seq<Store>, t: Waits)
    requires s.Inv() && s.Runs(p) && t == s.(pending := s.pending[p := q])
    ensures t.Inv()
  {
    assert forall x, u :: t.WaitsInJoin(x, u) <==> s.WaitsInJoin(x, u);
  }

  /** Waiters in joins with `p` are woken once `p` is no longer active. */
  function WakeJoins(s: Waits, p: int): Waits
    requires s.Shape() && s.IsThread(p)
  {
    if !s.hasFrames[p] && s.pending[p] == [] then s.(available := s.available + Elements(s.awaitingJoin[p])) else s
  }

  /** `p` loses its last frame; the caller then marks it as unavailable. */
  lemma TerminateKeepsInv(s: Waits, p: int, t: Waits)
    requires s.Inv() && s.Runs(p)
    requires t == WakeJoins(s.(hasFrames := s.hasFrames[p := false], available := s.available - {p}), p)
    ensures t.Inv()
  {
    assert forall x :: x in s.awaitingJoin[p] ==> s.WaitsInJoin(x, p);
    assert forall x, u :: t.WaitsInJoin(x, u) <==> s.WaitsInJoin(x, u) && (u != p || s.pending[p] != []);
  }

  /** Should `p` be re-enabled after a flush of a store to `ml`? */
  ghost predicate FlushWakes(s: Waits, p: int, ml: SymAddrSize)
    requires s.Shape() && s.IsThread(p)
  {
    match s.awaiting[p]
    case NoFlush => false
    case FullFlush => s.pending[p] == []
    case PartialFlush => ml.Overlaps(s.flushMl[p]) && ReadableSpec(s.pending[p], s.flushMl[p])
  }

  ghost function FlushWaits(s: Waits, p: int, k: int): Waits
    requires s.Shape() && s.IsThread(p) && 0 <= k < |s.pending[p]|
  {
    var ml := s.pending[p][k].ml;
    var r := s.(pending := s.pending[p := Without(s.pending[p], k)]);
    WakeJoins(if FlushWakes(r, p, ml) then r.(awaiting := r.awaiting[p := NoFlush], available := r.available + {p}) else r, p)
  }

  /** Flushing a store that does not overlap `ml` cannot make `ml` readable. */
  lemma FlushElsewhereKeepsUnreadable(q: seq<Store>, k: int, ml: SymAddrSize)
    requires AllWellFormed(q) && Flushable(q, k) && !q[k].ml.Overlaps(ml) && !ReadableSpec(q, ml)
    ensures AllWellFormed(Without(q, k)) && !ReadableSpec(Without(q, k), ml)
  {
    var j, b :| Newest(q, j, b) && ml.Includes(b) && q[j].ml != ml;
    OverlapsIffShared(q[j].ml, ml);
    var r := Without(q, k);
    var i := if j < k then j else j - 1;
    assert r[i] == q[j];
    var newer := r[i + 1..];
    forall h | 0 <= h < |newer|
      ensures !newer[h].ml.Includes(b)
    {
      var g := if i + 1 + h < k then i + 1 + h else i + 2 + h;
      assert newer[h] == q[g] == q[j + 1..][g - j - 1];
    }
    assert Newest(r, i, b);
  }

  lemma FlushKeepsJoins(s: Waits, p: int, k: int)
    requires s.Inv() && s.IsThread(p) && 0 <= k < |s.pending[p]|
    ensures var t := FlushWaits(s, p, k);
      t.Shape() && t.JoinsValid() && forall x, u :: t.WaitsInJoin(x, u) <==> s.WaitsInJoin(x, u) && (u != p || t.Active(p))
  {
    var t := FlushWaits(s, p, k);
    assert forall x :: x in s.awaitingJoin[p] ==> s.WaitsInJoin(x, p);
    assert forall x, u :: t.WaitsInJoin(x, u) <==> s.WaitsInJoin(x, u) && (u != p || t.Active(p));
  }

  /** The thread whose store has been flushed still has its cause, if it stays parked. */
  lemma FlushKeepsOwnCause(s: Waits, p: int, k: int)
    requires s.Inv() && s.IsThread(p) && AllWellFormed(s.pending[p]) && Flushable(s.pending[p], k)
    requires s.awaiting[p] == PartialFlush ==> s.flushMl[p].size >= 1
    requires s.awaiting[p] != NoFlush
    ensures var t := FlushWaits(s, p, k); t.Shape() && t.hasFrames[p]
    ensures var t := FlushWaits(s, p, k); if p in t.available then t.awaiting[p] == NoFlush else t.awaiting[p] == s.awaiting[p] && t.HasCause(p)
  {
    assert s.HasCause(p);
    if s.awaiting[p] == PartialFlush && !s.pending[p][k].ml.Overlaps(s.flushMl[p]) {
      FlushElsewhereKeepsUnreadable(s.pending[p], k, s.flushMl[p]);
    }
  }

  lemma FlushKeepsInv(s: Waits, p: int, k: int)
    requires s.Inv() && s.IsThread(p) && AllWellFormed(s.pending[p]) && Flushable(s.pending[p], k)
    requires s.awaiting[p] == PartialFlush ==> s.flushMl[p].size >= 1
    ensures FlushWaits(s, p, k).Inv()
  {
    var t := FlushWaits(s, p, k);
    FlushKeepsJoins(s, p, k);
    if s.awaiting[p] != NoFlush {
      FlushKeepsOwnCause(s, p, k);
    }
    forall q | t.IsThread(q) && t.awaiting[q] != NoFlush
      ensures t.hasFrames[q] && q !in t.available
    {
      if q != p && q in s.awaitingJoin[p] && !t.Active(p) { assert s.WaitsInJoin(q, p); }
    }
    forall q | t.IsThread(q) && t.hasFrames[q] && q !in t.available
      ensures t.HasCause(q)
    {
      assert s.HasCause(q);
      if s.awaiting[q] == NoFlush {
        var u :| s.WaitsInJoin(q, u);
        assert t.WaitsInJoin(q, u);
      }
    }
  }

  /** Who runs again: exactly those for whom the store, or the last of the stores, was what they waited for. */
  lemma WokenExactly(s: Waits, p: int, k: int)
    requires s.Inv() && s.IsThread(p) && AllWellFormed(s.pending[p]) && Flushable(s.pending[p], k)
    requires s.awaiting[p] == PartialFlush ==> s.flushMl[p].size >= 1
    ensures var t, rest := FlushWaits(s, p, k), Without(s.pending[p], k);
      && s.available <= t.available
      && (forall q :: s.IsThread(q) && q !in s.available ==>
            (q in t.available <==>
               || (q == p && s.awaiting[p] == FullFlush && rest == [])
               || (q == p && s.awaiting[p] == PartialFlush && ReadableSpec(rest, s.flushMl[p]))
               || (q in s.awaitingJoin[p] && !s.hasFrames[p] && rest == [])))
      && (forall q :: s.IsThread(q) ==> t.awaiting[q] == if q == p && p in t.available then NoFlush else s.awaiting[q])
  {
    FlushKeepsInv(s, p, k);
    if s.awaiting[p] == PartialFlush && !s.pending[p][k].ml.Overlaps(s.flushMl[p]) {
      assert s.HasCause(p);
      FlushElsewhereKeepsUnreadable(s.pending[p], k, s.flushMl[p]);
    }
  }

  /**
   * When nobody can run and no store can be flushed, the only thing left is a cycle of joins: every thread
   * that is not finished waits for another one that is not finished.
   */
  lemma OnlyJoinsBlock(s: Waits)
    requires s.Inv()
    requires forall p :: IsIdle(s, p)
    ensures forall p :: s.IsThread(p) ==> s.pending[p] == []
    ensures forall p :: s.IsThread(p) && s.hasFrames[p] ==> exists t :: s.WaitsInJoin(p, t) && t != p && s.hasFrames[t]
  {
    forall p | s.IsThread(p)
      ensures s.pending[p] == []
      ensures s.hasFrames[p] ==> exists t :: s.WaitsInJoin(p, t) && t != p && s.hasFrames[t]
    {
      assert IsIdle(s, p);
      if s.pending[p] != [] {
        SomeAuxAtHead(s.pending[p]);
      }
      if s.hasFrames[p] {
        assert s.HasCause(p);
        if s.awaiting[p] == NoFlush {
          var t :| s.WaitsInJoin(p, t);
          assert IsIdle(s, t);
          if s.pending[t] != [] {
            SomeAuxAtHead(s.pending[t]);
          }
        }
      }
    }
  }

  /** Thread `p` is not runnable and none of its auxiliary threads is at head. */
  ghost predicate IsIdle(s: Waits, p: int)
    requires s.Shape()
  {
    s.IsThread(p) ==> !s.Runs(p) && forall b :: !AuxAtHead(s.pending[p], b)
  }

  // ----- Flushing ----------------------------------------------------------------------------------------

  /** Some byte of `ml` has no pending store. */
  ghost predicate SomeByteDrained(rest: seq<Store>, ml: SymAddrSize)
    requires AllWellFormed(rest)
  {
    exists b :: ml.Includes(b) && Projection(rest, b) == []
  }

  /** What the loop of `runAux` finds at the front of every covered queue. */
  ghost predicate AllFront(buf: Buffers, s: Store)
    requires s.WellFormed()
  {
    forall b :: s.ml.Includes(b) ==>
      b in buf && |buf[b]| > 0 && buf[b][0] == PendingStoreByte(s.ml, s.At(b))
  }

  /** What the queues are once the fronts are gone. */
  ghost predicate Popped(buf: Buffers, ml: SymAddrSize, rest: Buffers) {
    forall b ::
      if ml.Includes(b) && b in buf && |buf[b]| > 0
      then (b in rest <==> |buf[b]| > 1) && (b in rest ==> rest[b] == buf[b][1..])
      else (b in rest <==> b in buf) && (b in rest ==> rest[b] == buf[b])
  }

  lemma FlushableIsAllFront(buf: Buffers, p: seq<Store>, k: int)
    requires Represents(buf, p) && Flushable(p, k)
    ensures AllFront(buf, p[k])
  {
    FlushableIsOldest(p, k);
    forall b | p[k].ml.Includes(b)
      ensures b in buf && |buf[b]| > 0 && buf[b][0] == PendingStoreByte(p[k].ml, p[k].At(b))
    {
      FrontIsOldest(p, k, b);
    }
  }

  lemma PoppedRepresents(buf: Buffers, p: seq<Store>, k: int, rest: Buffers)
    requires Represents(buf, p) && Flushable(p, k) && Popped(buf, p[k].ml, rest)
    ensures Represents(rest, Without(p, k))
    ensures SomeByteDrained(Without(p, k), p[k].ml) <==> exists b :: p[k].ml.Includes(b) && b !in rest
  {
    assert AllWellFormed(Without(p, k));
    forall b
      ensures (b in rest <==> Projection(Without(p, k), b) != [])
        && (b in rest ==> rest[b] == Projection(Without(p, k), b))
    {
      PopIsWithout(p, k, b);
    }
  }

  /**
   * The loops of `runAux` and `atomic_store` over the bytes of the store at the front: collect the values,
   * pop every queue, drop empty queues, and notice whether one became empty.
   */
  method PopFront(buf: Buffers, ml: SymAddrSize, ghost s: Store)
    returns (blk: seq<Byte>, rest: Buffers, drained: bool)
    requires s.WellFormed() && s.ml == ml && AllFront(buf, s)
    ensures blk == s.data && Popped(buf, ml, rest)
    ensures drained <==> exists b :: ml.Includes(b) && b !in rest
  {
    blk, rest, drained := [], buf, false;
    for i := 0 to ml.size
      invariant |blk| == i && forall j :: 0 <= j < i ==> blk[j] == s.data[j]
      invariant Popped(buf, SymAddrSize(ml.addr, i), rest)
      invariant drained <==> exists b :: SymAddrSize(ml.addr, i).Includes(b) && b !in rest
    {
      var b := ml.addr.Plus(i);
      assert ml.Includes(b) && s.At(b) == s.data[i];
      assert forall c :: SymAddrSize(ml.addr, i + 1).Includes(c) <==> c == b || SymAddrSize(ml.addr, i).Includes(c);
      blk := blk + [rest[b][0].val];
      var tail := rest[b][1..];
      if tail == [] {
        rest := rest - {b};
        drained := true;
      } else {
        rest := rest[b := tail];
      }
    }
  }

  lemma FrontOfAux(buf: Buffers, p: seq<Store>, k: int, b0: SymAddr)
    requires Represents(buf, p) && Flushable(p, k) && p[k].ml.addr == b0
    ensures b0 in buf && |buf[b0]| > 0 && buf[b0][0].ml == p[k].ml && AllFront(buf, p[k])
  {
    FlushableIsAllFront(buf, p, k);
    assert p[k].ml.Includes(b0);
  }

  lemma PoppedHolds(thr: PSOThread, p: seq<Store>, k: int, rest: Buffers)
    requires thr.Holds(p) && 0 <= k < |p| && Represents(rest, Without(p, k))
    ensures thr.(storeBuffers := rest).Holds(Without(p, k))
  {
    forall i | 0 <= i < |Without(p, k)|
      ensures Without(p, k)[i].ml.addr in thr.byteToAux
    {
      assert Without(p, k)[i] == p[if i < k then i else i + 1];
    }
  }

  method PopThread(thr: PSOThread, aux: int, ghost p: seq<Store>, ghost k: int)
    returns (r: PSOThread, ml: SymAddrSize, blk: seq<Byte>, drained: bool)
    requires thr.Holds(p) && 0 <= aux < |thr.auxToByte|
    requires Flushable(p, k) && p[k].ml.addr == thr.auxToByte[aux]
    ensures r.Holds(Without(p, k)) && r == thr.(storeBuffers := r.storeBuffers)
    ensures Store(ml, blk) == p[k]
    ensures drained <==> SomeByteDrained(Without(p, k), ml)
  {
    var b0 := thr.auxToByte[aux];
    FrontOfAux(thr.storeBuffers, p, k, b0);
    ml := thr.storeBuffers[b0][0].ml;
    var rest;
    blk, rest, drained := PopFront(thr.storeBuffers, ml, p[k]);
    PoppedRepresents(thr.storeBuffers, p, k, rest);
    PoppedHolds(thr, p, k, rest);
    r := thr.(storeBuffers := rest);
  }

  /** The store goes to the back of the queues; its first byte gets an auxiliary thread if it has none. */
  method Issue(was: PSOThread, s: Store, ghost p: seq<Store>) returns (thr: PSOThread)
    requires was.Holds(p) && s.WellFormed()
    ensures thr.Holds(p + [s]) && s.ml.addr in thr.byteToAux
    ensures thr.awaiting == was.awaiting && thr.bufferFlushMl == was.bufferFlushMl
    ensures thr.auxToByte == if s.ml.addr in was.auxToByte then was.auxToByte else was.auxToByte + [s.ml.addr]
  {
    thr := was;
    if s.ml.addr !in thr.byteToAux {
      thr := thr.(byteToAux := thr.byteToAux[s.ml.addr := |thr.auxToByte|], auxToByte := thr.auxToByte + [s.ml.addr]);
    }
    var buf := PushBack(thr.storeBuffers, s, p);
    thr := thr.(storeBuffers := buf);
  }

  lemma IssuedView(mem: Memory, p: seq<Store>, s: Store)
    requires AllWellFormed(p) && s.WellFormed()
    ensures AllWellFormed(p + [s])
    ensures forall b :: View(mem, p + [s], b) == if s.ml.Includes(b) then s.At(b) else View(mem, p, b)
  {
    forall b
      ensures AllWellFormed(p + [s]) && View(mem, p + [s], b) == if s.ml.Includes(b) then s.At(b) else View(mem, p, b)
    {
      PushProjection(p, s, b);
    }
    assert AllWellFormed(p + [s]);
  }

  ghost predicate StartsAt(p: seq<Store>, b0: SymAddr) {
    exists k :: 0 <= k < |p| && p[k].ml.addr == b0
  }

  /**
   * `atomic_store` marks the auxiliary thread as unavailable as soon as one byte of the store drains.  A store
   * that starts at the same byte is then left behind exactly when, before the flush, there was such a store
   * and some queue held nothing but the flushed one.
   */
  lemma LeftBehindIff(p: seq<Store>, k: int)
    requires AllWellFormed(p) && Flushable(p, k)
    ensures AllWellFormed(Without(p, k))
    ensures (StartsAt(Without(p, k), p[k].ml.addr) && SomeByteDrained(Without(p, k), p[k].ml))
      <==> (&& (exists j :: 0 <= j < |p| && j != k && p[j].ml.addr == p[k].ml.addr)
            && (exists b :: p[k].ml.Includes(b) && |Projection(p, b)| == 1))
  {
    PopIsWithout(p, k, p[k].ml.addr);
    forall b | p[k].ml.Includes(b)
      ensures Projection(Without(p, k), b) == [] <==> |Projection(p, b)| == 1
    {
      PopIsWithout(p, k, b);
    }
    StartsAtRest(p, k, p[k].ml.addr);
  }

  lemma StartsAtRest(p: seq<Store>, k: int, b0: SymAddr)
    requires 0 <= k < |p|
    ensures StartsAt(Without(p, k), b0) <==> exists j :: 0 <= j < |p| && j != k && p[j].ml.addr == b0
  {
    var q := Without(p, k);
    if j :| 0 <= j < |p| && j != k && p[j].ml.addr == b0 {
      assert q[if j < k then j else j - 1] == p[j];
    }
    if i :| 0 <= i < |q| && q[i].ml.addr == b0 {
      assert q[i] == p[if i < k then i else i + 1];
    }
  }

  /** It does happen: a store of four bytes followed by one of a single byte at the same address. */
  lemma LeftBehindExample()
    ensures var x := SymAddr(0, 0);
      var p := [Store(SymAddrSize(x, 4), [1, 2, 3, 4]), Store(SymAddrSize(x, 1), [5])];
      AllWellFormed(p) && Flushable(p, 0) && AuxAtHead(Without(p, 0), x) && SomeByteDrained(Without(p, 0), p[0].ml)
  {
    var x := SymAddr(0, 0);
    var p := [Store(SymAddrSize(x, 4), [1, 2, 3, 4]), Store(SymAddrSize(x, 1), [5])];
    assert Without(p, 0) == [p[1]];
    assert Flushable([p[1]], 0);
    assert p[0].ml.Includes(x.Plus(3));
    ProjectionEmpty([p[1]], x.Plus(3));
  }

  function AwaitingOf(threads: seq<PSOThread>): (r: seq<BufferFlush>)
    ensures |r| == |threads|
  {
    seq(|threads|, i requires 0 <= i < |threads| => threads[i].awaiting)
  }

  function FlushMlOf(threads: seq<PSOThread>): (r: seq<SymAddrSize>)
    ensures |r| == |threads|
  {
    seq(|threads|, i requires 0 <= i < |threads| => threads[i].bufferFlushMl)
  }

  /** Thread `p` is the last of those that wait for thread `t`, and the others are as before. */
  ghost predicate WaitsLast(was: seq<seq<int>>, now: seq<seq<int>>, t: int, p: int) {
    && 0 <= t < |was| == |now| && now[t] == was[t] + [p]
    && forall u :: 0 <= u < |was| && u != t ==> now[u] == was[u]
  }

  /** Only what thread `p` waits for has changed. */
  ghost predicate OnlyParked(was: seq<PSOThread>, now: seq<PSOThread>, p: int) {
    && 0 <= p < |was| == |now| && (forall q :: 0 <= q < |was| && q != p ==> now[q] == was[q])
    && now[p].auxToByte == was[p].auxToByte && now[p].byteToAux == was[p].byteToAux && now[p].storeBuffers == was[p].storeBuffers
  }

  /** Thread `p` has other buffers, and an auxiliary thread for the byte, the next one if there was none. */
  ghost predicate OnlyIssued(was: seq<PSOThread>, now: seq<PSOThread>, p: int, b: SymAddr) {
    && 0 <= p < |was| == |now| && (forall q :: 0 <= q < |was| && q != p ==> now[q] == was[q])
    && now[p].auxToByte == (if b in was[p].auxToByte then was[p].auxToByte else was[p].auxToByte + [b])
    && now[p].awaiting == was[p].awaiting && now[p].bufferFlushMl == was[p].bufferFlushMl
  }

  /** Thread `p` has other buffers, and waits for no flush if it is woken. */
  ghost predicate OnlyFlushed(was: seq<PSOThread>, now: seq<PSOThread>, p: int, woken: bool) {
    && 0 <= p < |was| == |now| && (forall q :: 0 <= q < |was| && q != p ==> now[q] == was[q])
    && now[p].auxToByte == was[p].auxToByte && now[p].byteToAux == was[p].byteToAux && now[p].bufferFlushMl == was[p].bufferFlushMl
    && now[p].awaiting == if woken then NoFlush else was[p].awaiting
  }

  // ----- The interpreter ---------------------------------------------------------------------------------

  class PSOInterpreter {
    var psoThreads: seq<PSOThread>
    /** Does the thread have stack frames left (is its `ECStack` non-empty)? */
    var hasFrames: seq<bool>
    /** `Threads[t].AwaitingJoin`. */
    var awaitingJoin: seq<seq<int>>
    /** Real threads that may be scheduled. */
    var available: set<int>
    /** For every thread the auxiliary threads marked as available. */
    var auxAvailable: seq<set<int>>
    var mem: Memory
    /** The stores that have been issued and not yet flushed, oldest first. */
    ghost var pending: seq<seq<Store>>

    ghost function Now(): Waits
      reads this
    {
      Waits(AwaitingOf(psoThreads), FlushMlOf(psoThreads), hasFrames, awaitingJoin, available, pending)
    }

    ghost predicate IsThread(p: int)
      reads this
    {
      0 <= p < |psoThreads|
    }

    ghost predicate BuffersValid()
      reads this
    {
      && |psoThreads| == |pending| == |auxAvailable|
      && (forall p :: IsThread(p) ==>
            psoThreads[p].Holds(pending[p]) && psoThreads[p].bufferFlushMl.size >= 1)
    }

    ghost predicate Valid()
      reads this
    {
      BuffersValid() && Now().Inv()
    }

    /** The thread may execute an instruction. */
    ghost predicate Runs(p: int)
      requires Valid()
      reads this
    {
      Now().Runs(p)
    }

    constructor ()
      ensures Valid() && Runs(0) && pending == [[]]
    {
      psoThreads := [PSOThread([], map[], map[], NoFlush, SymAddrSize(SymAddr(0, 0), 1))];
      hasFrames, awaitingJoin, available, auxAvailable := [true], [[]], {0}, [{}];
      mem, pending := map[], [[]];
    }

    method NewThread() returns (p: int)
      requires Valid()
      modifies this
      ensures Valid() && p == old(|psoThreads|) && Runs(p)
      ensures pending == old(pending) + [[]] && mem == old(mem) && available == old(available) + {p}
      ensures hasFrames == old(hasFrames) + [true] && awaitingJoin == old(awaitingJoin) + [[]] && auxAvailable == old(auxAvailable) + [{}]
      ensures psoThreads[..p] == old(psoThreads) && psoThreads[p].awaiting == NoFlush && psoThreads[p].auxToByte == []
    {
      p := |psoThreads|;
      NewKeepsInv(Now());
      psoThreads := psoThreads + [PSOThread([], map[], map[], NoFlush, SymAddrSize(SymAddr(0, 0), 1))];
      hasFrames, awaitingJoin, auxAvailable := hasFrames + [true], awaitingJoin + [[]], auxAvailable + [{}];
      available := available + {p};
      pending := pending + [[]];
      assert Now() == NewWaits(old(Now()));
    }

    /** `all_buffers_empty`. */
    lemma EmptyBuffers(p: int)
      requires BuffersValid() && IsThread(p)
      ensures psoThreads[p].storeBuffers == map[] <==> pending[p] == []
    {
      if pending[p] != [] {
        var b := pending[p][0].ml.addr;
        assert pending[p][0].ml.Includes(b);
        ProjectionEmpty(pending[p], b);
        assert b in psoThreads[p].storeBuffers;
      } else {
        assert forall b :: b !in psoThreads[p].storeBuffers;
      }
    }

    /** A join with another thread that still has frames or pending stores. */
    ghost predicate JoinMustWait(p: int, instr: Instr)
      reads this
    {
      && instr.join.Some? && 0 <= instr.join.value < |psoThreads| && instr.join.value != p
      && instr.join.value < |hasFrames| && instr.join.value < |pending|
      && (hasFrames[instr.join.value] || pending[instr.join.value] != [])
    }

    /** `checkRefuse`: the instruction is refused exactly in the three documented cases. */
    method CheckRefuse(p: int, instr: Instr) returns (refused: bool)
      requires Valid() && Runs(p) && (instr.load.Some? ==> instr.load.value.size >= 1)
      modifies this`psoThreads, this`awaitingJoin, this`available
      ensures Valid()
      ensures refused <==>
        || JoinMustWait(p, instr)
        || (instr.fence && pending[p] != [])
        || (instr.load.Some? && !ReadableSpec(pending[p], instr.load.value))
      ensures available == if refused then old(available) - {p} else old(available)
      ensures !refused ==> psoThreads == old(psoThreads) && awaitingJoin == old(awaitingJoin)
      ensures refused && JoinMustWait(p, instr) ==>
        psoThreads == old(psoThreads) && WaitsLast(old(awaitingJoin), awaitingJoin, instr.join.value, p)
      ensures refused && !JoinMustWait(p, instr) ==> awaitingJoin == old(awaitingJoin) && OnlyParked(old(psoThreads), psoThreads, p)
      ensures refused && !JoinMustWait(p, instr) && instr.fence && pending[p] != [] ==>
        psoThreads[p].awaiting == FullFlush && psoThreads[p].bufferFlushMl == old(psoThreads[p].bufferFlushMl)
      ensures refused && !JoinMustWait(p, instr) && !(instr.fence && pending[p] != []) ==>
        psoThreads[p].awaiting == PartialFlush && psoThreads[p].bufferFlushMl == instr.load.value
    {
      refused := RefuseJoin(p, instr);
      if !refused {
        refused := RefuseForFlush(p, instr);
      }
    }

    /** The part of `checkRefuse` about joins. */
    method RefuseJoin(p: int, instr: Instr) returns (refused: bool)
      requires Valid() && Runs(p)
      modifies this`awaitingJoin, this`available
      ensures Valid() && (refused <==> JoinMustWait(p, instr))
      ensures available == if refused then old(available) - {p} else old(available)
      ensures if refused then WaitsLast(old(awaitingJoin), awaitingJoin, instr.join.value, p) else awaitingJoin == old(awaitingJoin)
    {
      refused := JoinWaits(p, instr);
      if refused {
        ParkInJoin(p, instr.join.value);
      }
    }

    /** Is the awaited thread still executing? */
    method JoinWaits(p: int, instr: Instr) returns (waits: bool)
      requires Valid()
      ensures waits <==> JoinMustWait(p, instr)
    {
      waits := false;
      if instr.join.Some? {
        var tid := instr.join.value;
        if 0 <= tid < |psoThreads| && tid != p {
          EmptyBuffers(tid);
          waits := hasFrames[tid] || psoThreads[tid].storeBuffers != map[];
        }
      }
    }

    /** The part of `checkRefuse` about fences and loads. */
    method RefuseForFlush(p: int, instr: Instr) returns (refused: bool)
      requires Valid() && Runs(p) && (instr.load.Some? ==> instr.load.value.size >= 1)
      modifies this`psoThreads, this`available
      ensures Valid() && (refused <==> (instr.fence && pending[p] != []) || (instr.load.Some? && !ReadableSpec(pending[p], instr.load.value)))
      ensures available == if refused then old(available) - {p} else old(available)
      ensures if refused then OnlyParked(old(psoThreads), psoThreads, p) else psoThreads == old(psoThreads)
      ensures refused && instr.fence && pending[p] != [] ==>
        psoThreads[p].awaiting == FullFlush && psoThreads[p].bufferFlushMl == old(psoThreads[p].bufferFlushMl)
      ensures refused && !(instr.fence && pending[p] != []) ==>
        psoThreads[p].awaiting == PartialFlush && psoThreads[p].bufferFlushMl == instr.load.value
    {
      EmptyBuffers(p);
      if instr.fence && psoThreads[p].storeBuffers != map[] {
        Park(p, FullFlush, psoThreads[p].bufferFlushMl);
        return true;
      }
      if instr.load.Some? {
        var ok := Readable(psoThreads[p].storeBuffers, instr.load.value, pending[p]);
        if !ok {
          Park(p, PartialFlush, instr.load.value);
          return true;
        }
      }
      return false;
    }

    method ParkInJoin(p: int, tid: int)
      requires Valid() && Runs(p) && IsThread(tid) && tid != p && Now().Active(tid)
      modifies this`awaitingJoin, this`available
      ensures Valid() && available == old(available) - {p} && WaitsLast(old(awaitingJoin), awaitingJoin, tid, p)
    {
      available := available - {p};
      awaitingJoin := awaitingJoin[tid := awaitingJoin[tid] + [p]];
      ParkInJoinKeepsInv(old(Now()), p, tid, Now());
    }

    method Park(p: int, kind: BufferFlush, ml: SymAddrSize)
      requires Valid() && Runs(p) && ml.size >= 1 && kind != NoFlush
      requires kind == FullFlush ==> pending[p] != []
      requires kind == PartialFlush ==> !ReadableSpec(pending[p], ml)
      modifies this`psoThreads, this`available
      ensures Valid() && available == old(available) - {p}
      ensures psoThreads == old(psoThreads)[p := old(psoThreads)[p].(awaiting := kind, bufferFlushMl := ml)]
    {
      psoThreads := psoThreads[p := psoThreads[p].(awaiting := kind, bufferFlushMl := ml)];
      available := available - {p};
      ParkForFlushKeepsInv(old(Now()), p, kind, ml, Now());
    }

    /** `visitLoadInst`, for a load that was not refused. */
    method VisitLoad(p: int, ml: SymAddrSize) returns (r: seq<Byte>)
      requires Valid() && Runs(p) && ml.size >= 1 && ReadableSpec(pending[p], ml)
      ensures LoadsView(mem, pending[p], ml, r)
      ensures NoneOverlaps(pending[p], ml) || (exists k :: ExactNewest(pending[p], ml, k) && r == pending[p][k].data)
    {
      r := Load(psoThreads[p].storeBuffers, mem, ml, pending[p]);
    }

    /** `visitStoreInst` for an ordinary store. */
    method VisitStore(p: int, s: Store)
      requires Valid() && Runs(p) && s.WellFormed()
      modifies this`psoThreads, this`auxAvailable, this`pending
      ensures Valid() && pending == old(pending)[p := old(pending)[p] + [s]]
      ensures |auxAvailable| == |old(auxAvailable)| && s.ml.addr in psoThreads[p].byteToAux
      ensures auxAvailable == old(auxAvailable)[p := old(auxAvailable)[p] + {psoThreads[p].byteToAux[s.ml.addr]}]
      ensures OnlyIssued(old(psoThreads), psoThreads, p, s.ml.addr)
      ensures forall b :: View(mem, pending[p], b) == if s.ml.Includes(b) then s.At(b) else old(View(mem, pending[p], b))
    {
      var thr := Issue(psoThreads[p], s, pending[p]);
      IssueKeepsInv(Now(), p, pending[p] + [s], Now().(pending := pending[p := pending[p] + [s]]));
      psoThreads := psoThreads[p := thr];
      auxAvailable := auxAvailable[p := auxAvailable[p] + {thr.byteToAux[s.ml.addr]}];
      pending := pending[p := pending[p] + [s]];
      assert Now() == old(Now()).(pending := pending);
      IssuedView(mem, old(pending[p]), s);
    }

    /** `visitStoreInst` for a sequentially consistent store, and stores in atomic functions. */
    method VisitAtomicStore(p: int, s: Store)
      requires Valid() && Runs(p) && s.WellFormed() && pending[p] == []
      modifies this`mem
      ensures Valid() && mem == Write(old(mem), s)
      ensures forall b :: View(mem, pending[p], b) == if s.ml.Includes(b) then s.At(b) else old(View(mem, pending[p], b))
      ensures forall q, b :: IsThread(q) ==>
        View(mem, pending[q], b) ==
          if s.ml.Includes(b) && Projection(pending[q], b) == [] then s.At(b) else old(View(mem, pending[q], b))
    {
      mem := Write(mem, s);
    }

    /** `terminate`, and the scheduler taking the thread out. */
    method Terminate(p: int)
      requires Valid() && Runs(p)
      modifies this`hasFrames, this`available
      ensures Valid() && hasFrames == old(hasFrames)[p := false]
      ensures available == old(available) - {p} + if pending[p] == [] then Elements(awaitingJoin[p]) else {}
    {
      var woken := JoinersIfEmpty(p);
      hasFrames := hasFrames[p := false];
      available := available - {p} + woken;
      TerminateKeepsInv(old(Now()), p, Now());
    }

    method JoinersIfEmpty(p: int) returns (woken: set<int>)
      requires BuffersValid() && IsThread(p) && p < |awaitingJoin|
      ensures woken == if pending[p] == [] then Elements(awaitingJoin[p]) else {}
    {
      EmptyBuffers(p);
      woken := {};
      if psoThreads[p].storeBuffers == map[] {
        woken := Elements(awaitingJoin[p]);
      }
    }

    /**
     * `runAux`: flush the store at the head of an auxiliary thread that the scheduler found at head.  Exactly
     * one issued store reaches memory as a whole, its thread sees no change, and whoever waited for this is woken.
     */
    method RunAux(p: int, aux: int) returns (ghost k: int)
      requires Valid() && IsThread(p) && 0 <= aux < |psoThreads[p].auxToByte|
      requires AuxAtHead(pending[p], psoThreads[p].auxToByte[aux])
      modifies this`mem, this`pending, this`psoThreads, this`auxAvailable, this`available
      ensures Valid()
      ensures Flushable(old(pending[p]), k) && old(pending[p])[k].ml.addr == old(psoThreads[p].auxToByte[aux])
      ensures pending == old(pending)[p := Without(old(pending[p]), k)]
      ensures mem == Write(old(mem), old(pending[p])[k])
      ensures forall b :: View(mem, pending[p], b) == old(View(mem, pending[p], b))
      ensures Now() == FlushWaits(old(Now()), p, k) && old(available) <= available
      ensures forall q :: IsThread(q) && q !in old(available) ==>
        (q in available <==>
           || (q == p && old(psoThreads[p].awaiting) == FullFlush && pending[p] == [])
           || (q == p && old(psoThreads[p].awaiting) == PartialFlush && ReadableSpec(pending[p], old(psoThreads[p].bufferFlushMl)))
           || (q in awaitingJoin[p] && !hasFrames[p] && pending[p] == []))
      ensures OnlyFlushed(old(psoThreads), psoThreads, p, p in available)
      ensures auxAvailable == old(auxAvailable)[p := old(auxAvailable)[p] -
        if SomeByteDrained(pending[p], old(pending[p])[k].ml) then {aux} else {}]
    {
      var b0 := psoThreads[p].auxToByte[aux];
      k :| Flushable(pending[p], k) && pending[p][k].ml.addr == b0;
      FlushKeepsInv(Now(), p, k);
      WokenExactly(Now(), p, k);
      FlushAndWake(p, aux, k);
      forall b
        ensures View(mem, pending[p], b) == old(View(mem, pending[p], b))
      {
        FlushKeepsView(old(mem), old(pending[p]), k, b);
      }
    }

    method FlushAndWake(p: int, aux: int, ghost k: int)
      requires BuffersValid() && Now().Shape() && IsThread(p) && 0 <= aux < |psoThreads[p].auxToByte|
      requires Flushable(pending[p], k) && pending[p][k].ml.addr == psoThreads[p].auxToByte[aux]
      modifies this`mem, this`pending, this`psoThreads, this`auxAvailable, this`available
      ensures BuffersValid() && Now() == FlushWaits(old(Now()), p, k)
      ensures pending == old(pending)[p := Without(old(pending[p]), k)] && mem == Write(old(mem), old(pending[p])[k])
      ensures OnlyFlushed(old(psoThreads), psoThreads, p, psoThreads[p].awaiting == NoFlush)
      ensures auxAvailable == old(auxAvailable)[p := old(auxAvailable)[p] -
        if SomeByteDrained(pending[p], old(pending[p])[k].ml) then {aux} else {}]
    {
      var ml := Flush(p, aux, k);
      WakeAfterFlush(p, ml);
    }

    /** The first part of `runAux`: the store leaves the queues and its bytes go to memory. */
    method Flush(p: int, aux: int, ghost k: int) returns (ml: SymAddrSize)
      requires BuffersValid() && Now().Shape() && IsThread(p) && 0 <= aux < |psoThreads[p].auxToByte|
      requires Flushable(pending[p], k) && pending[p][k].ml.addr == psoThreads[p].auxToByte[aux]
      modifies this`mem, this`pending, this`psoThreads, this`auxAvailable
      ensures BuffersValid() && ml == old(pending[p])[k].ml
      ensures pending == old(pending)[p := Without(old(pending[p]), k)]
      ensures mem == Write(old(mem), old(pending[p])[k])
      ensures AwaitingOf(psoThreads) == old(AwaitingOf(psoThreads)) && FlushMlOf(psoThreads) == old(FlushMlOf(psoThreads))
      ensures OnlyFlushed(old(psoThreads), psoThreads, p, psoThreads[p].awaiting == NoFlush)
      ensures auxAvailable == old(auxAvailable)[p := old(auxAvailable)[p] -
        if SomeByteDrained(pending[p], ml) then {aux} else {}]
    {
      var thr, blk, drained;
      thr, ml, blk, drained := PopThread(psoThreads[p], aux, pending[p], k);
      mem := Write(mem, Store(ml, blk));
      pending := pending[p := Without(pending[p], k)];
      psoThreads := psoThreads[p := thr];
      auxAvailable := auxAvailable[p := auxAvailable[p] - if drained then {aux} else {}];
    }

    /** The last part of `runAux`: has the flush removed what this thread, or a thread joining it, waits for? */
    method WakeAfterFlush(p: int, ml: SymAddrSize)
      requires BuffersValid() && Now().Shape() && IsThread(p)
      modifies this`psoThreads, this`available
      ensures BuffersValid()
      ensures Now() == WakeJoins(
        if FlushWakes(old(Now()), p, ml)
        then old(Now()).(awaiting := old(Now()).awaiting[p := NoFlush], available := old(available) + {p})
        else old(Now()), p)
      ensures OnlyFlushed(old(psoThreads), psoThreads, p, psoThreads[p].awaiting == NoFlush)
    {
      EmptyBuffers(p);
      var enable := EndsWait(p, ml);
      if enable {
        Enable(p);
      }
      if psoThreads[p].storeBuffers == map[] && !hasFrames[p] {
        available := available + Elements(awaitingJoin[p]);
      }
    }

    method Enable(p: int)
      requires BuffersValid() && Now().Shape() && IsThread(p)
      modifies this`psoThreads, this`available
      ensures BuffersValid() && psoThreads[p].storeBuffers == old(psoThreads[p].storeBuffers)
      ensures |psoThreads| == old(|psoThreads|) && available == old(available) + {p}
      ensures Now() == old(Now()).(awaiting := old(Now()).awaiting[p := NoFlush], available := available)
      ensures OnlyFlushed(old(psoThreads), psoThreads, p, true)
    {
      psoThreads := psoThreads[p := psoThreads[p].(awaiting := NoFlush)];
      available := available + {p};
      assert AwaitingOf(psoThreads) == old(AwaitingOf(psoThreads))[p := NoFlush];
      assert FlushMlOf(psoThreads) == old(FlushMlOf(psoThreads));
    }

    method EndsWait(p: int, ml: SymAddrSize) returns (enable: bool)
      requires BuffersValid() && Now().Shape() && IsThread(p)
      ensures enable <==> FlushWakes(Now(), p, ml)
    {
      EmptyBuffers(p);
      var thr := psoThreads[p];
      match thr.awaiting {
        case NoFlush =>
          enable := false;
        case FullFlush =>
          enable := thr.storeBuffers == map[];
        case PartialFlush =>
          enable := false;
          if ml.Overlaps(thr.bufferFlushMl) {
            enable := Readable(thr.storeBuffers, thr.bufferFlushMl, pending[p]);
          }
      }
    }
  }
}
