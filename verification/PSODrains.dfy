/**
 * When the store buffers of a thread drain, if only those auxiliary threads run that are marked as available:
 * `schedule` of src/PSOTraceBuilder.cpp asks for that, and `atomic_store` withdraws the mark.
 *
 * An auxiliary thread is known by its byte, the first one of the stores that it flushes.
 */
module PSODrains {
  import opened PSOBuffers
  import opened PSOInterpreters
  import opened Options

  /** The scheduler may pick the auxiliary thread of store `k`. */
  ghost predicate MayFlush(p: seq<Store>, avail: set<SymAddr>, k: int) {
    Flushable(p, k) && p[k].ml.addr in avail
  }

  /** The marks after store `k` has been flushed. */
  ghost function MarksAfter(p: seq<Store>, avail: set<SymAddr>, k: int): set<SymAddr>
    requires AllWellFormed(p) && Flushable(p, k)
  {
    avail - if SomeByteDrained(Without(p, k), p[k].ml) then {p[k].ml.addr} else {}
  }

  /** Auxiliary threads that are at head and available run, one after the other. */
  ghost predicate IsMarkedRun(p: seq<Store>, avail: set<SymAddr>, ks: seq<int>)
    requires AllWellFormed(p)
    decreases |ks|
  {
    ks == [] ||
    (MayFlush(p, avail, ks[0]) && AllWellFormed(Without(p, ks[0])) && IsMarkedRun(Without(p, ks[0]), MarksAfter(p, avail, ks[0]), ks[1..]))
  }

  /** What is left pending, and which marks. */
  ghost function After(p: seq<Store>, avail: set<SymAddr>, ks: seq<int>): (r: (seq<Store>, set<SymAddr>))
    requires AllWellFormed(p) && IsMarkedRun(p, avail, ks)
    ensures AllWellFormed(r.0)
    decreases |ks|
  {
    if ks == [] then (p, avail) else After(Without(p, ks[0]), MarksAfter(p, avail, ks[0]), ks[1..])
  }

  ghost predicate LaterCovers(p: seq<Store>, k: int, b: SymAddr) {
    exists l :: k < l < |p| && 0 <= l && p[l].ml.Includes(b)
  }

  /** Every byte of store `k` is covered by a later store as well. */
  ghost predicate Covered(p: seq<Store>, k: int)
    requires 0 <= k < |p|
  {
    forall b :: p[k].ml.Includes(b) ==> LaterCovers(p, k, b)
  }

  /**
   * All auxiliary threads that are needed are available, and a store before another one at the same address is
   * covered by later stores.
   */
  ghost predicate Drains(p: seq<Store>, avail: set<SymAddr>) {
    && (forall k :: 0 <= k < |p| ==> p[k].ml.addr in avail)
    && (forall j, k :: 0 <= j < k < |p| && p[j].ml.addr == p[k].ml.addr ==> Covered(p, j))
  }

  /** The place of store `i` of the rest before store `k` was removed. */
  function Was(i: int, k: int): int {
    if i < k then i else i + 1
  }

  function Now(i: int, k: int): int {
    if i < k then i else i - 1
  }

  lemma RestAt(p: seq<Store>, k: int, i: int)
    requires 0 <= k < |p| && 0 <= i < |p| - 1
    ensures 0 <= Was(i, k) < |p| && Was(i, k) != k && Without(p, k)[i] == p[Was(i, k)]
  {
  }

  lemma RestHas(p: seq<Store>, k: int, j: int)
    requires 0 <= k < |p| && 0 <= j < |p| && j != k
    ensures 0 <= Now(j, k) < |p| - 1 && Without(p, k)[Now(j, k)] == p[j] && Was(Now(j, k), k) == j
  {
  }

  lemma Meets(m: SymAddrSize, n: SymAddrSize, b: SymAddr)
    requires m.size >= 1 && n.size >= 1 && m.Includes(b) && n.Includes(b)
    ensures m.Overlaps(n)
  {
    OverlapsIffShared(m, n);
  }

  lemma CoverStays(p: seq<Store>, k: int, i: int, b: SymAddr)
    requires AllWellFormed(p) && Flushable(p, k) && 0 <= i < |p| - 1 && p[Was(i, k)].ml.Includes(b)
    ensures LaterCovers(Without(p, k), i, b) <==> LaterCovers(p, Was(i, k), b)
  {
    var q, j := Without(p, k), Was(i, k);
    if l :| i < l < |q| && 0 <= l && q[l].ml.Includes(b) {
      RestAt(p, k, l);
      assert j < Was(l, k);
    }
    if l :| j < l < |p| && 0 <= l && p[l].ml.Includes(b) {
      if l == k { Meets(p[j].ml, p[k].ml, b); }
      RestHas(p, k, l);
      assert i < Now(l, k);
    }
  }

  /** A flush leaves it to every other store whether it is covered. */
  lemma CoveredStays(p: seq<Store>, k: int, i: int)
    requires AllWellFormed(p) && Flushable(p, k) && 0 <= i < |p| - 1
    ensures 0 <= Was(i, k) < |p| && (Covered(Without(p, k), i) <==> Covered(p, Was(i, k)))
  {
    RestAt(p, k, i);
    forall b | p[Was(i, k)].ml.Includes(b)
      ensures LaterCovers(Without(p, k), i, b) <==> LaterCovers(p, Was(i, k), b)
    {
      CoverStays(p, k, i, b);
    }
  }

  lemma QueueStays(p: seq<Store>, k: int, b: SymAddr)
    requires AllWellFormed(p) && Flushable(p, k) && p[k].ml.Includes(b) && AllWellFormed(Without(p, k))
    ensures Projection(Without(p, k), b) == [] <==> !LaterCovers(p, k, b)
  {
    var q := Without(p, k);
    ProjectionEmpty(q, b);
    if l :| k < l < |p| && 0 <= l && p[l].ml.Includes(b) {
      RestHas(p, k, l);
    }
    if !NoneCovers(q, b) {
      var i :| 0 <= i < |q| && q[i].ml.Includes(b);
      RestAt(p, k, i);
      if Was(i, k) < k { Meets(p[Was(i, k)].ml, p[k].ml, b); }
      assert LaterCovers(p, k, b);
    }
  }

  lemma RestWellFormed(p: seq<Store>, k: int)
    requires AllWellFormed(p) && 0 <= k < |p|
    ensures AllWellFormed(Without(p, k))
  {
  }

  /** A flushed store drains some byte exactly if it was not covered. */
  lemma DrainedIffUncovered(p: seq<Store>, k: int)
    requires AllWellFormed(p) && Flushable(p, k)
    ensures AllWellFormed(Without(p, k)) && (SomeByteDrained(Without(p, k), p[k].ml) <==> !Covered(p, k))
  {
    RestWellFormed(p, k);
    forall b | p[k].ml.Includes(b)
      ensures Projection(Without(p, k), b) == [] <==> !LaterCovers(p, k, b)
    {
      QueueStays(p, k, b);
    }
  }

  /** Stores at the same address overlap. */
  lemma SameAddrOverlap(p: seq<Store>, j: int, k: int)
    requires AllWellFormed(p) && 0 <= j < |p| && 0 <= k < |p| && p[j].ml.addr == p[k].ml.addr
    ensures p[j].ml.Overlaps(p[k].ml)
  {
    assert p[j].ml.Includes(p[j].ml.addr);
  }

  lemma MarkStays(p: seq<Store>, avail: set<SymAddr>, k: int, i: int)
    requires AllWellFormed(p) && MayFlush(p, avail, k) && Drains(p, avail) && 0 <= i < |p| - 1
    ensures Without(p, k)[i].ml.addr in MarksAfter(p, avail, k)
  {
    DrainedIffUncovered(p, k);
    RestAt(p, k, i);
    var j := Was(i, k);
    if p[j].ml.addr == p[k].ml.addr {
      SameAddrOverlap(p, j, k);
      assert k < j && Covered(p, k);
    }
  }

  lemma PairStays(p: seq<Store>, avail: set<SymAddr>, k: int, i: int, l: int)
    requires AllWellFormed(p) && MayFlush(p, avail, k) && Drains(p, avail) && 0 <= i < l < |p| - 1
    requires Without(p, k)[i].ml.addr == Without(p, k)[l].ml.addr
    ensures Covered(Without(p, k), i)
  {
    RestAt(p, k, i);
    RestAt(p, k, l);
    CoveredStays(p, k, i);
    assert Was(i, k) < Was(l, k);
  }

  lemma DrainsGoesOn(p: seq<Store>, avail: set<SymAddr>, k: int)
    requires AllWellFormed(p) && MayFlush(p, avail, k) && Drains(p, avail)
    ensures AllWellFormed(Without(p, k)) && Drains(Without(p, k), MarksAfter(p, avail, k))
  {
    var q := Without(p, k);
    RestWellFormed(p, k);
    forall i | 0 <= i < |q|
      ensures q[i].ml.addr in MarksAfter(p, avail, k)
    {
      MarkStays(p, avail, k, i);
    }
    forall i, l | 0 <= i < l < |q| && q[i].ml.addr == q[l].ml.addr
      ensures Covered(q, i)
    {
      PairStays(p, avail, k, i, l);
    }
  }

  lemma PairBefore(p: seq<Store>, avail: set<SymAddr>, k: int, j: int, l: int)
    requires AllWellFormed(p) && MayFlush(p, avail, k) && AllWellFormed(Without(p, k)) && Drains(Without(p, k), MarksAfter(p, avail, k))
    requires 0 <= j < l < |p| && p[j].ml.addr == p[l].ml.addr
    ensures Covered(p, j)
  {
    DrainedIffUncovered(p, k);
    if l == k {
      SameAddrOverlap(p, j, k);
    } else {
      RestHas(p, k, l);
      if j != k {
        RestHas(p, k, j);
        CoveredStays(p, k, Now(j, k));
        assert Now(j, k) < Now(l, k);
      }
    }
  }

  lemma DrainedBefore(p: seq<Store>, avail: set<SymAddr>, k: int)
    requires AllWellFormed(p) && MayFlush(p, avail, k) && AllWellFormed(Without(p, k)) && Drains(Without(p, k), MarksAfter(p, avail, k))
    ensures Drains(p, avail)
  {
    forall j | 0 <= j < |p|
      ensures p[j].ml.addr in avail
    {
      if j != k { RestHas(p, k, j); }
    }
    forall j, l | 0 <= j < l < |p| && p[j].ml.addr == p[l].ml.addr
      ensures Covered(p, j)
    {
      PairBefore(p, avail, k, j, l);
    }
  }

  lemma {:induction false} DrainsAllAlong(p: seq<Store>, avail: set<SymAddr>, ks: seq<int>)
    requires AllWellFormed(p) && IsMarkedRun(p, avail, ks)
    ensures Drains(p, avail) <==> Drains(After(p, avail, ks).0, After(p, avail, ks).1)
    decreases |ks|
  {
    if ks != [] {
      DrainsAllAlong(Without(p, ks[0]), MarksAfter(p, avail, ks[0]), ks[1..]);
      if Drains(p, avail) {
        DrainsGoesOn(p, avail, ks[0]);
      }
      if Drains(Without(p, ks[0]), MarksAfter(p, avail, ks[0])) {
        DrainedBefore(p, avail, ks[0]);
      }
    }
  }

  /** No auxiliary thread may run any more. */
  ghost predicate AtRest(p: seq<Store>, avail: set<SymAddr>) {
    forall k :: !MayFlush(p, avail, k)
  }

  /** Until all is flushed, some auxiliary thread may run. */
  lemma DrainingGoesOn(p: seq<Store>, avail: set<SymAddr>)
    requires Drains(p, avail) && AtRest(p, avail)
    ensures p == []
  {
    if p != [] {
      assert MayFlush(p, avail, 0);
    }
  }

  /**
   * In whatever order the available auxiliary threads run until none may run any more, the buffers are empty
   * in the end exactly if `Drains` holds at the start.
   */
  lemma DrainsIff(p: seq<Store>, avail: set<SymAddr>, ks: seq<int>)
    requires AllWellFormed(p) && IsMarkedRun(p, avail, ks) && AtRest(After(p, avail, ks).0, After(p, avail, ks).1)
    ensures After(p, avail, ks).0 == [] <==> Drains(p, avail)
  {
    DrainsAllAlong(p, avail, ks);
    if Drains(p, avail) {
      DrainingGoesOn(After(p, avail, ks).0, After(p, avail, ks).1);
    }
  }

  /** A store of four bytes and then one of a single byte at the same address: the second one stays for ever. */
  lemma StaysForEver()
    ensures var x := SymAddr(0, 0);
      var p := [Store(SymAddrSize(x, 4), [1, 2, 3, 4]), Store(SymAddrSize(x, 1), [5])];
      && AllWellFormed(p) && IsMarkedRun(p, {x}, [0]) && After(p, {x}, [0]) == ([p[1]], {}) && AtRest([p[1]], {})
      && !Drains(p, {x})
  {
    var x := SymAddr(0, 0);
    var p := [Store(SymAddrSize(x, 4), [1, 2, 3, 4]), Store(SymAddrSize(x, 1), [5])];
    LeftBehindExample();
    assert Without(p, 0) == [p[1]] && MarksAfter(p, {x}, 0) == {};
    assert [0][1..] == [] && IsMarkedRun([p[1]], {}, []);
    assert IsMarkedRun(p, {x}, [0]);
    DrainsIff(p, {x}, [0]);
  }

  // ----- Threads -----------------------------------------------------------------------------------------

  /** The bytes of the auxiliary threads that are marked as available. */
  function Marked(thr: PSOThread, auxs: set<int>): set<SymAddr> {
    set i | i in auxs && 0 <= i < |thr.auxToByte| :: thr.auxToByte[i]
  }

  /** What `runAux` does to the marks is what `MarksAfter` says. */
  lemma MarkWithdrawn(thr: PSOThread, r: PSOThread, auxs: set<int>, aux: int, p: seq<Store>, k: int)
    requires thr.Holds(p) && 0 <= aux < |thr.auxToByte| && Flushable(p, k) && p[k].ml.addr == thr.auxToByte[aux]
    requires r.auxToByte == thr.auxToByte
    ensures AllWellFormed(Without(p, k))
    ensures Marked(r, auxs - if SomeByteDrained(Without(p, k), p[k].ml) then {aux} else {}) == MarksAfter(p, Marked(thr, auxs), k)
  {
    DrainedIffUncovered(p, k);
    var gone := if SomeByteDrained(Without(p, k), p[k].ml) then {aux} else {};
    forall b | b in Marked(thr, auxs) && b != thr.auxToByte[aux]
      ensures b in Marked(r, auxs - gone)
    {
      var i :| i in auxs && 0 <= i < |thr.auxToByte| && thr.auxToByte[i] == b;
      assert i in auxs - gone;
    }
    forall b | b in Marked(r, auxs - gone)
      ensures gone != {} ==> b != thr.auxToByte[aux]
    {
      var i :| i in auxs - gone && 0 <= i < |thr.auxToByte| && thr.auxToByte[i] == b;
      assert thr.byteToAux[thr.auxToByte[i]] == i && thr.byteToAux[thr.auxToByte[aux]] == aux;
    }
    if gone == {} { assert auxs - gone == auxs; }
  }

  /**
   * When no thread can run, and no available auxiliary thread is at head, then exactly the buffers that do not
   * drain are not empty; if all drain, only joins are waited for.
   */
  lemma OnlyJoinsBlockIff(s: Waits, marks: seq<set<SymAddr>>)
    requires s.Inv() && |marks| == |s.pending|
    requires forall p :: s.IsThread(p) ==> !s.Runs(p) && AtRest(s.pending[p], marks[p])
    ensures forall p :: s.IsThread(p) ==> (s.pending[p] == [] <==> Drains(s.pending[p], marks[p]))
    ensures (forall p :: s.IsThread(p) ==> Drains(s.pending[p], marks[p])) ==>
      forall p :: s.IsThread(p) && s.hasFrames[p] ==> exists t :: s.WaitsInJoin(p, t) && t != p && s.hasFrames[t]
  {
    forall p | s.IsThread(p) && Drains(s.pending[p], marks[p])
      ensures s.pending[p] == []
    {
      DrainingGoesOn(s.pending[p], marks[p]);
    }
    if forall p :: s.IsThread(p) ==> Drains(s.pending[p], marks[p]) {
      OnlyJoinsBlock(s);
    }
  }
}
