/**
 * When the store buffers of a thread drain, if stores are issued in between: `store` marks the auxiliary thread
 * as available again (src/PSOTraceBuilder.cpp:435), which `atomic_store` may have withdrawn.
 */
module PSOHistories {
  import opened PSOBuffers
  import opened PSOInterpreters
  import opened PSODrains

  /** The pending stores, and the bytes of the auxiliary threads that are available. */
  datatype State = State(p: seq<Store>, avail: set<SymAddr>)

  datatype Act = Issue(x: Store) | Flush(k: int)

  const START := State([], {})

  ghost predicate Can(s: State, act: Act) {
    match act
    case Issue(x) => x.WellFormed()
    case Flush(k) => MayFlush(s.p, s.avail, k)
  }

  ghost function Next(s: State, act: Act): (t: State)
    requires AllWellFormed(s.p) && Can(s, act)
    ensures AllWellFormed(t.p)
  {
    match act
    case Issue(x) => State(s.p + [x], s.avail + {x.ml.addr})
    case Flush(k) => State(Without(s.p, k), MarksAfter(s.p, s.avail, k))
  }

  /** From `s` the stores `h` are issued in this order, with flushes in between, and `t` is reached. */
  ghost predicate Runs(s: State, acts: seq<Act>, h: seq<Store>, t: State)
    requires AllWellFormed(s.p)
    decreases |acts|
  {
    if acts == [] then h == [] && t == s
    else
      && Can(s, acts[0])
      && (acts[0].Issue? ==> h != [] && acts[0].x == h[0])
      && Runs(Next(s, acts[0]), acts[1..], if acts[0].Issue? then h[1..] else h, t)
  }

  /** No later store starts at the same byte. */
  ghost predicate LastAt(h: seq<Store>, k: int) {
    0 <= k < |h| && forall l :: k < l < |h| ==> h[l].ml.addr != h[k].ml.addr
  }

  /** By store `k` at its address, some byte of store `j` has not been stored to again. */
  ghost predicate Uncovered(h: seq<Store>, j: int, k: int) {
    0 <= j < k < |h| && h[j].ml.addr == h[k].ml.addr && !Covered(h[..k + 1], j)
  }

  /** By the last store at an address, all bytes of earlier ones there have been stored to again. */
  ghost predicate CoveredInTime(h: seq<Store>) {
    forall j, k {:trigger Uncovered(h, j, k)} :: LastAt(h, k) ==> !Uncovered(h, j, k)
  }

  /** What `store` does to the marks is what `Next` says. */
  lemma IssueMarks(thr: PSOThread, r: PSOThread, auxs: set<int>, aux: int, s: State, x: Store)
    requires thr.Holds(s.p) && s.avail == Marked(thr, auxs) && thr.auxToByte <= r.auxToByte && (forall i :: i in auxs ==> i < |thr.auxToByte|)
    requires 0 <= aux < |r.auxToByte| && r.auxToByte[aux] == x.ml.addr && x.WellFormed()
    ensures Next(s, Issue(x)).p == s.p + [x] && Next(s, Issue(x)).avail == Marked(r, auxs + {aux})
  {
    forall b | b in Marked(thr, auxs)
      ensures b in Marked(r, auxs + {aux})
    {
      var i :| i in auxs && 0 <= i < |thr.auxToByte| && thr.auxToByte[i] == b;
      assert r.auxToByte[i] == b;
    }
    forall b | b in Marked(r, auxs + {aux}) && b != x.ml.addr
      ensures b in Marked(thr, auxs)
    {
      var i :| i in auxs + {aux} && 0 <= i < |r.auxToByte| && r.auxToByte[i] == b;
      assert i in auxs && thr.auxToByte[i] == r.auxToByte[i];
    }
  }

  // ----- Covered in time: all drains ---------------------------------------------------------------------

  /** The pending stores are those at the given places of the history. */
  ghost predicate Places(h: seq<Store>, n: int, p: seq<Store>, at: seq<int>) {
    && 0 <= n <= |h| && |at| == |p|
    && (forall i :: 0 <= i < |at| ==> 0 <= at[i] < n && h[at[i]] == p[i])
    && (forall i, j :: 0 <= i < j < |at| ==> at[i] < at[j])
  }

  /** A store that overlaps an earlier pending one is pending too. */
  ghost predicate Kept(h: seq<Store>, n: int, at: seq<int>)
    requires 0 <= n <= |h|
  {
    forall i, l :: 0 <= i < |at| && 0 <= at[i] < l < n && h[l].ml.Overlaps(h[at[i]].ml) ==> l in at
  }

  ghost predicate WillBeMarked(h: seq<Store>, n: int, a: SymAddr) {
    exists l :: 0 <= n <= l < |h| && h[l].ml.addr == a
  }

  ghost predicate Inv(h: seq<Store>, n: int, s: State, at: seq<int>) {
    && AllWellFormed(h) && AllWellFormed(s.p) && Places(h, n, s.p, at) && Kept(h, n, at)
    && forall i :: 0 <= i < |s.p| ==> s.p[i].ml.addr in s.avail || WillBeMarked(h, n, s.p[i].ml.addr)
  }

  lemma IssueKeepsInv(h: seq<Store>, n: int, s: State, at: seq<int>)
    requires Inv(h, n, s, at) && n < |h|
    ensures Inv(h, n + 1, Next(s, Issue(h[n])), at + [n])
  {
    var t := Next(s, Issue(h[n]));
    forall i | 0 <= i < |t.p|
      ensures t.p[i].ml.addr in t.avail || WillBeMarked(h, n + 1, t.p[i].ml.addr)
    {
      if i < |s.p| && s.p[i].ml.addr !in t.avail {
        var l :| 0 <= n <= l < |h| && h[l].ml.addr == s.p[i].ml.addr;
        assert l != n;
      }
    }
  }

  /** Whether a pending store is covered can be seen from the history. */
  lemma CoveredByPending(h: seq<Store>, n: int, s: State, at: seq<int>, i: int, k: int)
    requires Inv(h, n, s, at) && 0 <= i < |s.p| && at[i] <= k < n && Covered(h[..k + 1], at[i])
    ensures Covered(s.p, i)
  {
    forall b | s.p[i].ml.Includes(b)
      ensures LaterCovers(s.p, i, b)
    {
      var l :| at[i] < l < k + 1 && h[..k + 1][l].ml.Includes(b);
      Meets(h[l].ml, s.p[i].ml, b);
      assert l in at;
      var m :| 0 <= m < |at| && at[m] == l;
      assert i < m && s.p[m].ml.Includes(b);
    }
  }

  /** Flushing keeps the mark of whoever needs it and will not get it again. */
  lemma FlushKeepsMark(h: seq<Store>, n: int, s: State, at: seq<int>, k: int, i: int)
    requires CoveredInTime(h) && Inv(h, n, s, at) && MayFlush(s.p, s.avail, k)
    requires 0 <= i < |s.p| && i != k && !WillBeMarked(h, n, s.p[i].ml.addr)
    ensures s.p[i].ml.addr in Next(s, Flush(k)).avail
  {
    DrainedIffUncovered(s.p, k);
    if s.p[i].ml.addr == s.p[k].ml.addr {
      SameAddrOverlap(s.p, i, k);
      assert k < i;
      var last := LastBefore(h, n, at[i]);
      assert LastAt(h, last) by {
        forall l | last < l < |h|
          ensures h[l].ml.addr != h[last].ml.addr
        {
        }
      }
      assert at[k] < at[i] && !Uncovered(h, at[k], last);
      CoveredByPending(h, n, s, at, k, last);
    }
  }

  /** The last of the first `n` stores at the address of store `j`. */
  lemma LastBefore(h: seq<Store>, n: int, j: int) returns (k: int)
    requires 0 <= j < n <= |h|
    ensures j <= k < n && h[k].ml.addr == h[j].ml.addr && forall l :: k < l < n ==> h[l].ml.addr != h[j].ml.addr
  {
    k := n - 1;
    while h[k].ml.addr != h[j].ml.addr
      invariant j <= k < n && forall l :: k < l < n ==> h[l].ml.addr != h[j].ml.addr
      decreases k
    {
      k := k - 1;
    }
  }

  /** The flushed store is none that an earlier pending one overlaps. */
  lemma StillKept(h: seq<Store>, n: int, s: State, at: seq<int>, k: int, i: int, l: int)
    requires Inv(h, n, s, at) && MayFlush(s.p, s.avail, k) && 0 <= i < |at| && at[i] < l < n && h[l].ml.Overlaps(h[at[i]].ml)
    ensures l in at && l != at[k]
  {
    if i < k {
      assert !s.p[i].ml.Overlaps(s.p[k].ml);
    }
  }

  lemma Elsewhere(at: seq<int>, k: int, l: int)
    requires 0 <= k < |at| && l in at && l != at[k]
    ensures l in at[..k] + at[k + 1..]
  {
    var m :| 0 <= m < |at| && at[m] == l;
    assert (at[..k] + at[k + 1..])[Now(m, k)] == l;
  }

  lemma FlushKeepsKept(h: seq<Store>, n: int, s: State, at: seq<int>, k: int, to: seq<int>)
    requires Inv(h, n, s, at) && MayFlush(s.p, s.avail, k) && to == at[..k] + at[k + 1..]
    ensures Kept(h, n, to)
  {
    forall i, l | 0 <= i < |to| && 0 <= to[i] < l < n && h[l].ml.Overlaps(h[to[i]].ml)
      ensures l in to
    {
      assert to[i] == at[Was(i, k)];
      StillKept(h, n, s, at, k, Was(i, k), l);
      Elsewhere(at, k, l);
    }
  }

  lemma FlushKeepsPlaces(h: seq<Store>, n: int, s: State, at: seq<int>, k: int)
    requires Inv(h, n, s, at) && MayFlush(s.p, s.avail, k)
    ensures Places(h, n, Without(s.p, k), at[..k] + at[k + 1..]) && Kept(h, n, at[..k] + at[k + 1..])
  {
    FlushKeepsKept(h, n, s, at, k, at[..k] + at[k + 1..]);
  }

  lemma FlushKeepsInv(h: seq<Store>, n: int, s: State, at: seq<int>, k: int)
    requires CoveredInTime(h) && Inv(h, n, s, at) && MayFlush(s.p, s.avail, k)
    ensures Inv(h, n, Next(s, Flush(k)), at[..k] + at[k + 1..])
  {
    FlushKeepsPlaces(h, n, s, at, k);
    var t := Next(s, Flush(k));
    forall i | 0 <= i < |t.p|
      ensures t.p[i].ml.addr in t.avail || WillBeMarked(h, n, t.p[i].ml.addr)
    {
      RestAt(s.p, k, i);
      if !WillBeMarked(h, n, t.p[i].ml.addr) { FlushKeepsMark(h, n, s, at, k, Was(i, k)); }
    }
  }

  lemma {:induction false} RunKeepsInv(h: seq<Store>, n: int, s: State, at: seq<int>, acts: seq<Act>, t: State) returns (to: seq<int>)
    requires CoveredInTime(h) && Inv(h, n, s, at) && Runs(s, acts, h[n..], t)
    ensures Inv(h, |h|, t, to)
    decreases |acts|
  {
    if acts == [] {
      to := at;
    } else if acts[0].Issue? {
      assert h[n..][0] == h[n] && h[n..][1..] == h[n + 1..];
      IssueKeepsInv(h, n, s, at);
      to := RunKeepsInv(h, n + 1, Next(s, acts[0]), at + [n], acts[1..], t);
    } else {
      var k := acts[0].k;
      FlushKeepsInv(h, n, s, at, k);
      to := RunKeepsInv(h, n, Next(s, acts[0]), at[..k] + at[k + 1..], acts[1..], t);
    }
  }

  lemma CoveredDrains(h: seq<Store>, acts: seq<Act>, t: State)
    requires AllWellFormed(h) && CoveredInTime(h) && Runs(START, acts, h, t) && AtRest(t.p, t.avail)
    ensures t.p == []
  {
    assert h[0..] == h;
    var at := RunKeepsInv(h, 0, START, [], acts, t);
    RestIsEmpty(t.p, t.avail);
  }

  lemma RestIsEmpty(p: seq<Store>, avail: set<SymAddr>)
    requires AtRest(p, avail) && (p != [] ==> p[0].ml.addr in avail)
    ensures p == []
  {
    assert !MayFlush(p, avail, 0);
  }

  // ----- Not covered in time: some run keeps a store for ever --------------------------------------------

  lemma {:induction false} RunOn(s: State, a: seq<Act>, g: seq<Store>, t: State, b: seq<Act>, h: seq<Store>, u: State)
    requires AllWellFormed(s.p) && Runs(s, a, g, t) && AllWellFormed(t.p) && Runs(t, b, h, u)
    ensures Runs(s, a + b, g + h, u)
    decreases |a|
  {
    if a == [] {
      assert a + b == b && g + h == h;
    } else {
      var rest := if a[0].Issue? then g[1..] else g;
      RunOn(Next(s, a[0]), a[1..], rest, t, b, h, u);
      assert (a + b)[1..] == a[1..] + b;
      assert (if a[0].Issue? then (g + h)[1..] else g + h) == rest + h;
    }
  }

  /** One run after the other. */
  lemma Together(s: State, a: seq<Act>, g: seq<Store>, t: State, b: seq<Act>, h: seq<Store>, u: State, all: seq<Store>) returns (acts: seq<Act>)
    requires AllWellFormed(s.p) && Runs(s, a, g, t) && AllWellFormed(t.p) && Runs(t, b, h, u) && all == g + h
    ensures Runs(s, acts, all, u)
  {
    RunOn(s, a, g, t, b, h, u);
    acts := a + b;
  }

  lemma FlushFirst(s: State, k: int, acts: seq<Act>, h: seq<Store>, t: State)
    requires AllWellFormed(s.p) && MayFlush(s.p, s.avail, k) && Runs(Next(s, Flush(k)), acts, h, t)
    ensures Runs(s, [Flush(k)] + acts, h, t)
  {
    assert ([Flush(k)] + acts)[1..] == acts;
  }

  lemma IssueFirst(s: State, acts: seq<Act>, h: seq<Store>, t: State)
    requires AllWellFormed(s.p) && h != [] && h[0].WellFormed() && Runs(Next(s, Issue(h[0])), acts, h[1..], t)
    ensures Runs(s, [Issue(h[0])] + acts, h, t)
  {
    assert ([Issue(h[0])] + acts)[1..] == acts;
  }

  /** Every store is flushed before the next one is issued. */
  lemma {:induction false} AtOnce(s: State, h: seq<Store>) returns (acts: seq<Act>, t: State)
    requires AllWellFormed(h) && s.p == []
    ensures Runs(s, acts, h, t) && t.p == []
    decreases |h|
  {
    if h == [] {
      acts, t := [], s;
    } else {
      var u := Next(s, Issue(h[0]));
      assert u.p == [h[0]] && MayFlush(u.p, u.avail, 0);
      acts, t := AtOnce(Next(u, Flush(0)), h[1..]);
      FlushFirst(u, 0, acts, h[1..], t);
      acts := [Flush(0)] + acts;
      IssueFirst(s, acts, h, t);
      acts := [Issue(h[0])] + acts;
    }
  }

  /** Nothing is flushed. */
  lemma {:induction false} IssueAll(s: State, h: seq<Store>) returns (acts: seq<Act>, t: State)
    requires AllWellFormed(s.p) && AllWellFormed(h)
    ensures Runs(s, acts, h, t) && t.p == s.p + h && AllWellFormed(t.p) && s.avail <= t.avail
    ensures h != [] ==> h[0].ml.addr in t.avail
    decreases |h|
  {
    if h == [] {
      acts, t := [], s;
      assert s.p + h == s.p;
    } else {
      acts, t := IssueAll(Next(s, Issue(h[0])), h[1..]);
      assert s.p + [h[0]] + h[1..] == s.p + h;
      IssueFirst(s, acts, h, t);
      acts := [Issue(h[0])] + acts;
    }
  }

  /** Available auxiliary threads run until none may. */
  lemma {:induction false} ToRest(s: State) returns (acts: seq<Act>, t: State)
    requires AllWellFormed(s.p)
    ensures Runs(s, acts, [], t) && AtRest(t.p, t.avail)
    decreases |s.p|
  {
    if AtRest(s.p, s.avail) {
      acts, t := [], s;
    } else {
      var k :| MayFlush(s.p, s.avail, k);
      acts, t := ToRest(Next(s, Flush(k)));
      FlushFirst(s, k, acts, [], t);
      acts := [Flush(k)] + acts;
    }
  }

  /** Store `i` is pending, and its auxiliary thread is not available. */
  ghost predicate Stuck(s: State, i: int, a: SymAddr) {
    0 <= i < |s.p| && s.p[i].ml.addr == a && a !in s.avail
  }

  /** A store that is stuck stays so until another one is issued at its address. */
  lemma {:induction false} StuckStays(s: State, i: int, a: SymAddr, acts: seq<Act>, h: seq<Store>, t: State) returns (k: int)
    requires AllWellFormed(s.p) && Runs(s, acts, h, t) && Stuck(s, i, a)
    requires forall l :: 0 <= l < |h| ==> h[l].ml.addr != a
    ensures Stuck(t, k, a)
    decreases |acts|
  {
    if acts == [] {
      k := i;
    } else if acts[0].Issue? {
      k := StuckStays(Next(s, acts[0]), i, a, acts[1..], h[1..], t);
    } else {
      RestHas(s.p, acts[0].k, i);
      k := StuckStays(Next(s, acts[0]), Now(i, acts[0].k), a, acts[1..], h, t);
    }
  }

  /** Only the stores from `j` on matter. */
  lemma CoveredFrom(h: seq<Store>, j: int, k: int)
    requires 0 <= j < k < |h| && Covered(h[j..k + 1], 0)
    ensures Covered(h[..k + 1], j)
  {
    var p, q := h[j..k + 1], h[..k + 1];
    forall b | q[j].ml.Includes(b)
      ensures LaterCovers(q, j, b)
    {
      var l :| 0 < l < |p| && p[l].ml.Includes(b);
      assert q[j + l].ml.Includes(b);
    }
  }

  /** Store `j` is flushed right after store `k` was issued. */
  lemma FlushTooEarly(h: seq<Store>, s: State, j: int, k: int)
    requires AllWellFormed(h) && Uncovered(h, j, k)
    requires s.p == h[j..k + 1] && AllWellFormed(s.p) && h[j].ml.addr in s.avail
    ensures Can(s, Flush(0)) && Stuck(Next(s, Flush(0)), k - j - 1, h[k].ml.addr)
  {
    assert s.p[0] == h[j] && s.p[k - j] == h[k];
    assert MayFlush(s.p, s.avail, 0);
    DrainedIffUncovered(s.p, 0);
    if Covered(s.p, 0) { CoveredFrom(h, j, k); }
    RestHas(s.p, 0, k - j);
  }

  /** Some stores have gone to memory, and the rest are pending. */
  lemma FillUp(before: seq<Store>, rest: seq<Store>) returns (acts: seq<Act>, t: State)
    requires AllWellFormed(before) && AllWellFormed(rest) && rest != []
    ensures Runs(START, acts, before + rest, t) && t.p == rest && rest[0].ml.addr in t.avail
  {
    var a, s := AtOnce(START, before);
    var b, u := IssueAll(s, rest);
    assert [] + rest == rest;
    t := u;
    acts := Together(START, a, before, s, b, rest, u, before + rest);
  }

  /** Up to store `k`, and such that it is stuck. */
  lemma GetStuck(h: seq<Store>, j: int, k: int) returns (acts: seq<Act>, t: State)
    requires AllWellFormed(h) && Uncovered(h, j, k)
    ensures Runs(START, acts, h[..k + 1], t) && AllWellFormed(t.p) && Stuck(t, k - j - 1, h[k].ml.addr)
  {
    var a, u := FillUp(h[..j], h[j..k + 1]);
    assert h[..j] + h[j..k + 1] == h[..k + 1] && h[j..k + 1][0] == h[j];
    FlushTooEarly(h, u, j, k);
    t := Next(u, Flush(0));
    FlushFirst(u, 0, [], [], t);
    acts := Together(START, a, h[..k + 1], u, [Flush(0)] + [], [], t, h[..k + 1]);
  }

  /** A store that is stuck is still there in the end. */
  lemma StuckInTheEnd(s: State, i: int, h: seq<Store>, a: SymAddr) returns (acts: seq<Act>, t: State)
    requires AllWellFormed(s.p) && AllWellFormed(h) && Stuck(s, i, a) && forall l :: 0 <= l < |h| ==> h[l].ml.addr != a
    ensures Runs(s, acts, h, t) && AtRest(t.p, t.avail) && t.p != []
  {
    var b, u := IssueAll(s, h);
    var c, v := ToRest(u);
    t := v;
    acts := Together(s, b, h, u, c, [], v, h);
    var k := StuckStays(s, i, a, acts, h, t);
  }

  lemma UncoveredRun(h: seq<Store>, j: int, k: int) returns (acts: seq<Act>, t: State)
    requires AllWellFormed(h) && Uncovered(h, j, k) && LastAt(h, k)
    ensures Runs(START, acts, h, t) && AtRest(t.p, t.avail) && t.p != []
  {
    var a, s := GetStuck(h, j, k);
    var rest := h[k + 1..];
    var b, u := StuckInTheEnd(s, k - j - 1, rest, h[k].ml.addr);
    t := u;
    acts := Together(START, a, h[..k + 1], s, b, rest, u, h);
  }

  /** However the flushes fall between the stores, at rest the buffers are empty. */
  ghost predicate AlwaysDrains(h: seq<Store>) {
    forall acts, t {:trigger Runs(START, acts, h, t)} :: Runs(START, acts, h, t) && AtRest(t.p, t.avail) ==> t.p == []
  }

  /**
   * The stores of a thread always drain, whenever the available auxiliary threads run, exactly if they are
   * covered in time.
   */
  lemma AlwaysDrainsIff(h: seq<Store>)
    requires AllWellFormed(h)
    ensures AlwaysDrains(h) <==> CoveredInTime(h)
  {
    if CoveredInTime(h) {
      forall acts, t | Runs(START, acts, h, t) && AtRest(t.p, t.avail)
        ensures t.p == []
      {
        CoveredDrains(h, acts, t);
      }
    } else {
      var j, k :| Uncovered(h, j, k) && LastAt(h, k);
      var acts, t := UncoveredRun(h, j, k);
    }
  }
}
