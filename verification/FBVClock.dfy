/**
 * src/FBVClock.cpp: bit-vector clocks with lazily propagated inclusion.
 *
 * `Add(a, b)` (written `a += b`) makes clock `a` contain clock `b` from then on,
 * including everything that `b` comes to contain later.  Nothing is pushed along;
 * `Update` pulls missing bits when a clock is read, and two timestamp vectors
 * decide which clocks may be skipped.
 */
module FBVClocks {
  import opened Graph

  /** A handle; the clock itself lives in the clock system. */
  datatype FBVClock = FBVClock(id: int, idx: int)

  /**
   * The timestamp protocol with clocks as sets: `shown[a]` is the set of clocks whose bit is set in `a`.
   * `links` are the additions that took effect.
   */
  datatype Protocol = Protocol(
    time: int, changeTs: seq<int>, updateTs: seq<int>, shown: seq<set<int>>, links: Edges<int>)
  {
    ghost predicate IsId(a: int) {
      0 <= a < |shown|
    }

    ghost predicate Shape() {
      && |changeTs| == |updateTs| == |shown|
      && (forall a :: 0 <= a < |shown| ==> changeTs[a] <= time && updateTs[a] <= time)
      && (forall a, b :: 0 <= a < |shown| && b in shown[a] ==> 0 <= b < |shown|)
      && (forall a, b :: (a, b) in links ==> IsId(a) && IsId(b))
    }

    /** Clock `a` shows every clock that was added directly to `b`. */
    ghost predicate Covers(a: int, b: int)
      requires IsId(a)
    {
      forall c :: (b, c) in links ==> c in shown[a]
    }

    /** Clocks show only what they reach. */
    ghost predicate Sound() {
      forall a, b :: 0 <= a < |shown| && b in shown[a] ==> Reach(links, a, b)
    }

    /** What the timestamps mean: if `b` has not changed since `a` was last updated, then `a` covers `b`. */
    ghost predicate Current()
      requires Shape()
    {
      && (forall a :: 0 <= a < |shown| ==> a in shown[a] && Covers(a, a))
      && (forall a, b :: 0 <= a < |shown| && b in shown[a] && changeTs[b] <= updateTs[a] ==> Covers(a, b))
    }

    ghost predicate Inv() {
      Shape() && Sound() && Current() && Acyclic(links)
    }

    /** Clock `a` shows exactly what it reaches. */
    ghost predicate Complete(a: int)
      requires IsId(a)
    {
      forall b :: b in shown[a] <==> IsId(b) && Reach(links, a, b)
    }

    ghost function Below(a: int): set<int> {
      set b: int | 0 <= b < |shown| && Reach(links, a, b)
    }

    /** Everything `a` shows is covered, except for the clocks in `pending`. */
    ghost predicate Swept(a: int, pending: set<int>)
      requires IsId(a)
    {
      forall b :: b in shown[a] ==> Covers(a, b) || b in pending
    }
  }

  lemma SweepAdvances(s: Protocol, a: int, b: int, pending: set<int>, t: Protocol)
    requires s.IsId(a) && t.IsId(a) && s.links == t.links && s.Swept(a, pending)
    requires s.shown[a] <= t.shown[a] && t.Covers(a, b)
    requires forall x :: x in t.shown[a] && x !in s.shown[a] ==> t.Covers(a, x)
    ensures t.Swept(a, pending - {b})
  {
    assert forall x :: s.Covers(a, x) ==> t.Covers(a, x);
  }

  /** A clock closed under the links that shows itself is complete. */
  lemma CoveredIsComplete(s: Protocol, a: int)
    requires s.Shape() && s.Sound() && s.IsId(a) && a in s.shown[a]
    requires forall b :: b in s.shown[a] ==> s.Covers(a, b)
    ensures s.Complete(a)
  {
    var S := iset b: int | b in s.shown[a];
    assert Closed(s.links, S) by {
      forall b, c | (b, c) in s.links && b in S
        ensures c in S
      {
        assert s.Covers(a, b);
      }
    }
    forall b | s.IsId(b) && Reach(s.links, a, b)
      ensures b in s.shown[a]
    {
      ClosedContainsReach(s.links, S, a, b);
    }
  }

  /** A complete clock covers everything it shows. */
  lemma CompleteCovers(s: Protocol, a: int)
    requires s.Shape() && s.IsId(a) && s.Complete(a)
    ensures forall b :: b in s.shown[a] ==> s.Covers(a, b)
  {
    forall b, c | b in s.shown[a] && (b, c) in s.links
      ensures c in s.shown[a]
    {
      ReachEdge(s.links, b, c);
      ReachTrans(s.links, a, b, c);
    }
  }

  /** The early return of `update`: a clock updated now is complete. */
  lemma UpToDateIsComplete(s: Protocol, a: int)
    requires s.Inv() && s.IsId(a) && s.updateTs[a] == s.time
    ensures s.Complete(a)
  {
    CoveredIsComplete(s, a);
  }

  /** Recursion in `update` goes strictly down in the graph. */
  lemma BelowShrinks(s: Protocol, a: int, b: int)
    requires Acyclic(s.links) && s.IsId(a) && a != b && Reach(s.links, a, b)
    ensures !Reach(s.links, b, a) && s.Below(b) < s.Below(a)
  {
    if Reach(s.links, b, a) {
      var p: seq<int> :| IsPath(s.links, a, b, p);
      assert |p| > 1;
      assert (p[0], p[1]) in s.links;
      assert IsPath(s.links, p[1], b, p[1..]);
      ReachTrans(s.links, p[1], b, a);
    }
    forall x | x in s.Below(b)
      ensures x in s.Below(a)
    {
      ReachTrans(s.links, a, b, x);
    }
    ReachSelf(s.links, a);
    assert a in s.Below(a) && a !in s.Below(b);
  }

  /** Taking in a complete clock that is already shown keeps the invariant and covers all of it. */
  lemma PullKeepsInv(s: Protocol, a: int, b: int, t: Protocol)
    requires s.Inv() && s.IsId(a) && b in s.shown[a] && a != b && s.Complete(b)
    requires t == s.(shown := s.shown[a := s.shown[a] + s.shown[b]])
    ensures t.Inv()
    ensures forall x :: x in s.shown[b] ==> t.Covers(a, x)
  {
    CompleteCovers(s, b);
    forall x | x in s.shown[b]
      ensures Reach(s.links, a, x)
    {
      ReachTrans(s.links, a, b, x);
    }
    assert forall x, y :: s.IsId(x) && s.Covers(x, y) ==> t.Covers(x, y);
  }

  /** Marking a complete clock as updated now keeps the invariant. */
  lemma StampKeepsInv(s: Protocol, a: int, t: Protocol)
    requires s.Inv() && s.IsId(a) && s.Complete(a)
    requires t == s.(updateTs := s.updateTs[a := s.time])
    ensures t.Inv() && t.Complete(a)
  {
    CompleteCovers(s, a);
    assert forall x, y :: s.IsId(x) && s.Covers(x, y) ==> t.Covers(x, y);
  }

  /** The last part of `operator+=`, for a clock `c` that is complete and does not reach `a`. */
  lemma LinkKeepsInv(s: Protocol, a: int, c: int, t: Protocol)
    requires s.Inv() && s.IsId(a) && s.IsId(c) && s.Complete(c) && !Reach(s.links, c, a)
    requires t == Protocol(s.time + 1, s.changeTs[a := s.time + 1], s.updateTs[c := s.time + 1],
                           s.shown[a := s.shown[a] + s.shown[c]], s.links + {(a, c)})
    ensures t.Inv()
  {
    AcyclicAdd(s.links, a, c);
    CompleteCovers(s, c);
    ReachEdge(t.links, a, c);
    forall x, y | s.IsId(x) && y in t.shown[x]
      ensures Reach(t.links, x, y)
    {
      if y in s.shown[x] {
        ReachMono(s.links, t.links, x, y);
      } else {
        ReachMono(s.links, t.links, c, y);
        ReachTrans(t.links, a, c, y);
      }
    }
    assert t.Shape();
    assert forall x, y :: s.IsId(x) && y != a && s.Covers(x, y) ==> t.Covers(x, y);
    assert c in s.shown[c] && t.Covers(a, a);
    forall x, y | s.IsId(x) && y in t.shown[x] && t.changeTs[y] <= t.updateTs[x]
      ensures t.Covers(x, y)
    {
      assert y == a ==> x == a || x == c;
    }
  }

  /** A new clock shows itself and is shown by nobody. */
  lemma NewKeepsInv(s: Protocol, t: Protocol)
    requires s.Inv()
    requires t == Protocol(s.time, s.changeTs + [s.time], s.updateTs + [s.time], s.shown + [{|s.shown|}], s.links)
    ensures t.Inv()
  {
    ReachSelf(s.links, |s.shown|);
    assert forall x, y :: s.IsId(x) && s.Covers(x, y) ==> t.Covers(x, y);
  }

  /** The vectors of a clock system, with the index that every clock was created with. */
  datatype Vectors = Vectors(clocks: seq<seq<bool>>, idxToId: seq<int>, idxOf: seq<int>) {
    ghost predicate Inv() {
      && |clocks| == |idxOf|
      && (forall b :: 0 <= b < |idxOf| ==> 0 <= idxOf[b] < |idxToId| && idxToId[idxOf[b]] == b)
      && (forall i :: 0 <= i < |idxToId| ==> 0 <= idxToId[i] < |clocks|)
      && (forall a :: 0 <= a < |clocks| ==> |clocks[a]| <= |idxToId|)
      && (forall a, i :: 0 <= a < |clocks| && 0 <= i < |clocks[a]| && clocks[a][i] ==> idxOf[idxToId[i]] == i)
    }

    ghost function Shown(a: int): set<int>
      requires Inv() && 0 <= a < |clocks|
    {
      set b | 0 <= b < |idxOf| && idxOf[b] < |clocks[a]| && clocks[a][idxOf[b]]
    }

    ghost function AllShown(): seq<set<int>>
      requires Inv()
    {
      seq(|clocks|, a requires 0 <= a < |clocks| => Shown(a))
    }
  }

  function Or(dst: seq<bool>, src: seq<bool>): (r: seq<bool>)
    ensures |r| == if |dst| < |src| then |src| else |dst|
  {
    seq(if |dst| < |src| then |src| else |dst|,
        i requires 0 <= i => (i < |dst| && dst[i]) || (i < |src| && src[i]))
  }

  /** Disjunction of bit vectors is union of the shown sets. */
  lemma OrShown(v: Vectors, a: int, b: int, w: Vectors)
    requires v.Inv() && 0 <= a < |v.clocks| && 0 <= b < |v.clocks|
    requires w == v.(clocks := v.clocks[a := Or(v.clocks[a], v.clocks[b])])
    ensures w.Inv()
    ensures w.AllShown() == v.AllShown()[a := v.AllShown()[a] + v.AllShown()[b]]
  {
    assert w.Inv();
    assert w.Shown(a) == v.Shown(a) + v.Shown(b);
    forall x | 0 <= x < |v.clocks| && x != a
      ensures w.Shown(x) == v.Shown(x)
    {
      assert w.clocks[x] == v.clocks[x];
    }
  }

  /** The constructor, for an index not used before; unused indices in between map to clock 0. */
  lemma NewShown(v: Vectors, idx: int, w: Vectors)
    requires v.Inv() && 0 <= idx && idx !in v.idxOf
    requires w.idxOf == v.idxOf + [idx]
    requires |w.clocks| == |v.clocks| + 1 && forall a :: 0 <= a < |v.clocks| ==> w.clocks[a] == v.clocks[a]
    requires |w.clocks[|v.clocks|]| == idx + 1
    requires forall i :: 0 <= i <= idx ==> (w.clocks[|v.clocks|][i] <==> i == idx)
    requires |w.idxToId| == if |v.idxToId| <= idx then idx + 1 else |v.idxToId|
    requires forall i :: 0 <= i < |w.idxToId| ==>
      w.idxToId[i] == if i == idx then |v.clocks| else if i < |v.idxToId| then v.idxToId[i] else 0
    ensures w.Inv()
    ensures w.AllShown() == v.AllShown() + [{|v.clocks|}]
  {
    var id := |v.clocks|;
    assert forall b :: 0 <= b < id ==> v.idxOf[b] == w.idxOf[b] && v.idxOf[b] != idx;
    forall a, i | 0 <= a < id && 0 <= i < |v.clocks[a]| && v.clocks[a][i]
      ensures i != idx
    {
      assert v.idxOf[v.idxToId[i]] in v.idxOf;
    }
    assert w.Inv();
    assert w.Shown(id) == {id};
    forall x | 0 <= x < id
      ensures w.Shown(x) == v.Shown(x)
    {
      assert w.clocks[x] == v.clocks[x];
    }
  }

  /** `add_clock`: pointwise disjunction, the shorter vector being padded with `false`. */
  method AddClock(dst: seq<bool>, src: seq<bool>) returns (r: seq<bool>)
    ensures r == Or(dst, src)
  {
    r := dst;
    if |r| < |src| {
      r := r + seq(|src| - |r|, _ => false);
    }
    for i := 0 to |src|
      invariant |r| == |Or(dst, src)|
      invariant forall k :: 0 <= k < i ==> r[k] == Or(dst, src)[k]
      invariant forall k :: i <= k < |r| ==> (r[k] <==> k < |dst| && dst[k])
    {
      r := r[i := r[i] || src[i]];
    }
  }

  /** What `b` reaches, `a` reaches. */
  lemma ReachedThrough(E: Edges<int>, a: int, b: int)
    requires Reach(E, a, b)
    ensures Reach(E, a, a) && Reach(E, b, b) && forall x :: Reach(E, b, x) ==> Reach(E, a, x)
  {
    ReachSelf(E, a);
    ReachSelf(E, b);
    forall x | Reach(E, b, x)
      ensures Reach(E, a, x)
    {
      ReachTrans(E, a, b, x);
    }
  }

  class ClockSystem {
    var time: int
    var changeTs: seq<int>
    var updateTs: seq<int>
    var clocks: seq<seq<bool>>
    var idxToId: seq<int>
    /** The index every clock was created with. */
    ghost var idxOf: seq<int>
    /** Every `a += b` call so far, as a pair (a, b) of clock ids. */
    ghost var added: Edges<int>
    /** The calls that did not return early. */
    ghost var links: Edges<int>

    ghost function Vecs(): Vectors
      reads this
    {
      Vectors(clocks, idxToId, idxOf)
    }

    ghost function Abs(): Protocol
      requires Vecs().Inv()
      reads this
    {
      Protocol(time, changeTs, updateTs, Vecs().AllShown(), links)
    }

    ghost predicate Inv()
      reads this
    {
      Vecs().Inv() && Abs().Inv()
    }

    ghost predicate Valid()
      reads this
    {
      && Inv()
      && (forall a, b :: Reach(added, a, b) <==> Reach(links, a, b))
    }

    ghost predicate Owns(c: FBVClock)
      reads this
    {
      0 <= c.id < |idxOf| == |clocks| && idxOf[c.id] == c.idx
    }

    constructor ()
      ensures Valid() && idxOf == [] && added == {}
    {
      time, changeTs, updateTs, clocks, idxToId := 0, [], [], [], [];
      idxOf, added, links := [], {}, {};
    }

    /** `FBVClock::FBVClock`: an index is used for one clock only. */
    method NewClock(idx: int) returns (c: FBVClock)
      requires Valid() && 0 <= idx && idx !in idxOf
      modifies this
      ensures Valid() && Owns(c) && c.idx == idx
      ensures idxOf == old(idxOf) + [idx] && added == old(added)
    {
      var id := |clocks|;
      clocks := clocks + [seq(idx + 1, _ => false)[idx := true]];
      if |idxToId| <= idx {
        idxToId := idxToId + seq(idx + 1 - |idxToId|, _ => 0);
      }
      idxToId := idxToId[idx := id];
      changeTs := changeTs + [time];
      updateTs := updateTs + [time];
      idxOf := idxOf + [idx];
      c := FBVClock(id, idx);
      NewShown(old(Vecs()), idx, Vecs());
      NewKeepsInv(old(Abs()), Abs());
    }

    /** The clocks that the loop of `update` has still to look at. */
    ghost function Pending(i: int, updTs: int): set<int>
      requires |changeTs| == |idxOf|
      reads this
    {
      set b | 0 <= b < |idxOf| && i <= idxOf[b] && updTs < changeTs[b]
    }

    /** Only clocks below `id` may differ from the vectors given. */
    ghost predicate SameOutside(id: int, clocks0: seq<seq<bool>>, updateTs0: seq<int>)
      reads this
    {
      && |clocks| == |clocks0| && |updateTs| == |updateTs0| == |clocks|
      && forall x :: 0 <= x < |clocks| && !Reach(links, id, x) ==> clocks[x] == clocks0[x] && updateTs[x] == updateTs0[x]
    }

    /** `FBVClock::update`: afterwards the clock shows exactly what it reaches. */
    method Update(id: int)
      requires Inv() && 0 <= id < |clocks|
      modifies this`clocks, this`updateTs
      ensures Inv() && SameOutside(id, old(clocks), old(updateTs))
      ensures Abs().Complete(id) && updateTs[id] == time
      decreases Abs().Below(id), 2
    {
      var updTs := updateTs[id];
      if updTs == time {
        UpToDateIsComplete(Abs(), id);
        return;
      }
      ReachSelf(links, id);
      var i := 0;
      while i < |clocks[id]|
        invariant 0 <= i && Inv() && SameOutside(id, old(clocks), old(updateTs))
        invariant updateTs[id] == updTs && Abs().Swept(id, Pending(i, updTs))
        decreases |idxToId| - i
      {
        VisitNext(id, i, updTs, old(clocks), old(updateTs));
        i := i + 1;
      }
      Stamp(id);
    }

    /** The loop body of `update`. */
    /** One turn of several, which started with these vectors. */
    method VisitNext(id: int, i: int, updTs: int, ghost startClocks: seq<seq<bool>>, ghost startTs: seq<int>)
      requires Inv() && 0 <= id < |clocks| && 0 <= i < |clocks[id]| && SameOutside(id, startClocks, startTs)
      requires Abs().Swept(id, Pending(i, updTs))
      modifies this`clocks, this`updateTs
      ensures Inv() && SameOutside(id, startClocks, startTs) && updateTs[id] == old(updateTs[id])
      ensures Abs().Swept(id, Pending(i + 1, updTs))
      decreases Abs().Below(id), 1, 1
    {
      Visit(id, i, updTs);
    }

    method Visit(id: int, i: int, updTs: int)
      requires Inv() && 0 <= id < |clocks| && 0 <= i < |clocks[id]|
      requires Abs().Swept(id, Pending(i, updTs))
      modifies this`clocks, this`updateTs
      ensures Inv() && SameOutside(id, old(clocks), old(updateTs)) && updateTs[id] == old(updateTs[id])
      ensures Abs().Swept(id, Pending(i + 1, updTs))
      decreases Abs().Below(id), 1, 0
    {
      var iId := idxToId[i];
      if iId != id && clocks[id][i] && updTs < changeTs[iId] {
        assert iId in Vecs().Shown(id);
        ghost var before := Abs();
        Pull(id, iId);
        SweepAdvances(before, id, iId, Pending(i, updTs), Abs());
        assert Pending(i, updTs) - {iId} <= Pending(i + 1, updTs);
      } else {
        SkipIsSafe(id, i, updTs);
      }
    }

    /** A clock that the loop skips is covered already. */
    lemma SkipIsSafe(id: int, i: int, updTs: int)
      requires Inv() && 0 <= id < |clocks| && 0 <= i < |clocks[id]|
      requires idxToId[i] == id || !clocks[id][i] || changeTs[idxToId[i]] <= updTs
      requires Abs().Swept(id, Pending(i, updTs))
      ensures Abs().Swept(id, Pending(i + 1, updTs))
    {
      forall b | b in Abs().shown[id]
        ensures Abs().Covers(id, b) || b in Pending(i + 1, updTs)
      {
        if idxOf[b] == i {
          assert b == idxToId[i];
        }
      }
    }

    /** The two calls in the loop body of `update`. */
    method Pull(id: int, iId: int)
      requires Inv() && 0 <= id < |clocks| && iId in Abs().shown[id] && id != iId
      modifies this`clocks, this`updateTs
      ensures Inv() && SameOutside(id, old(clocks), old(updateTs)) && updateTs[id] == old(updateTs[id])
      ensures old(Abs()).shown[id] <= Abs().shown[id]
      ensures forall b :: b in Abs().shown[id] && b !in old(Abs()).shown[id] ==> Abs().Covers(id, b)
      ensures Abs().Covers(id, iId)
      decreases Abs().Below(id), 0
    {
      BelowShrinks(Abs(), id, iId);
      ReachedThrough(links, id, iId);
      Update(iId);
      assert Vecs().Shown(id) == old(Vecs()).Shown(id);
      Absorb(id, iId);
    }

    /** Copy the clock of `iId`, which is complete. */
    method Absorb(id: int, iId: int)
      requires Inv() && 0 <= id < |clocks| && iId in Abs().shown[id] && id != iId && Abs().Complete(iId) && updateTs[iId] == time
      modifies this`clocks
      ensures Inv() && |clocks| == |old(clocks)| && forall x :: 0 <= x < |clocks| && x != id ==> clocks[x] == old(clocks)[x]
      ensures old(Abs()).shown[id] <= Abs().shown[id]
      ensures forall b :: b in Abs().shown[id] && b !in old(Abs()).shown[id] ==> Abs().Covers(id, b)
      ensures Abs().Covers(id, iId)
    {
      var clk := AddClock(clocks[id], clocks[iId]);
      OrShown(Vecs(), id, iId, Vecs().(clocks := clocks[id := clk]));
      PullKeepsInv(Abs(), id, iId, Abs().(shown := Abs().shown[id := Abs().shown[id] + Abs().shown[iId]]));
      clocks := clocks[id := clk];
    }

    /** The last line of `update`, once the loop has covered everything shown. */
    method Stamp(id: int)
      requires Inv() && 0 <= id < |clocks|
      requires forall b :: b in Abs().shown[id] ==> Abs().Covers(id, b)
      modifies this`updateTs
      ensures Inv() && Abs().Complete(id) && updateTs == old(updateTs)[id := time]
    {
      CoveredIsComplete(Abs(), id);
      StampKeepsInv(Abs(), id, Abs().(updateTs := updateTs[id := time]));
      updateTs := updateTs[id := time];
    }

    /** `FBVClock::operator[]`: bit `i` is the clock of index `i` being reachable through all additions made. */
    method Get(c: FBVClock, i: int) returns (r: bool)
      requires Valid() && Owns(c) && 0 <= i
      modifies this`clocks, this`updateTs
      ensures Valid()
      ensures r <==> exists b :: 0 <= b < |idxOf| && idxOf[b] == i && Reach(added, c.id, b)
      ensures i >= |idxToId| ==> !r
    {
      Update(c.id);
      r := i < |clocks[c.id]| && clocks[c.id][i];
      if r {
        assert idxToId[i] in Vecs().Shown(c.id);
      } else {
        assert forall b :: 0 <= b < |idxOf| && idxOf[b] == i ==> b !in Vecs().Shown(c.id);
      }
    }

    /** `FBVClock::operator+=`.  No clock may come to contain itself through another one. */
    method Add(a: FBVClock, c: FBVClock)
      requires Valid() && Owns(a) && Owns(c)
      requires a == c || !Reach(added, c.id, a.id)
      modifies this
      ensures Valid() && idxOf == old(idxOf)
      ensures added == old(added) + {(a.id, c.id)}
    {
      var id := a.id;
      if c.idx < |clocks[id]| && clocks[id][c.idx] {
        assert c.id in Vecs().Shown(id);
        added := added + {(id, c.id)};
        forall x, y
          ensures Reach(added, x, y) <==> Reach(links, x, y)
        {
          RedundantEdge(old(added), id, c.id, x, y);
        }
        return;
      }
      assert id in Abs().shown[id];
      Link(id, c.id);
      added := added + {(id, c.id)};
      forall x, y
        ensures Reach(added, x, y) <==> Reach(links, x, y)
      {
        SameAfterEdge(old(added), old(links), id, c.id, x, y);
      }
    }

    /** `operator+=` after its early return. */
    method Link(id: int, c: int)
      requires Inv() && 0 <= id < |clocks| && 0 <= c < |clocks| && !Reach(links, c, id)
      modifies this`time, this`updateTs, this`clocks, this`changeTs, this`links
      ensures Inv() && |clocks| == old(|clocks|) && links == old(links) + {(id, c)}
    {
      Update(c);
      LinkTo(id, c);
    }

    /** The rest of it, with `c` up to date. */
    method LinkTo(id: int, c: int)
      requires Inv() && 0 <= id < |clocks| && 0 <= c < |clocks| && !Reach(links, c, id) && Abs().Complete(c)
      modifies this`time, this`updateTs, this`clocks, this`changeTs, this`links
      ensures Inv() && |clocks| == old(|clocks|) && links == old(links) + {(id, c)}
    {
      ghost var before := Abs();
      time := time + 1;
      updateTs := updateTs[c := time];
      var clk := AddClock(clocks[id], clocks[c]);
      OrShown(Vecs(), id, c, Vecs().(clocks := clocks[id := clk]));
      clocks := clocks[id := clk];
      changeTs := changeTs[id := time];
      links := links + {(id, c)};
      LinkKeepsInv(before, id, c, Abs());
    }
  }

  /** Graphs with the same reachability keep it when both get the same edge. */
  lemma SameAfterEdge(E: Edges<int>, F: Edges<int>, u: int, v: int, x: int, y: int)
    requires forall a, b :: Reach(E, a, b) <==> Reach(F, a, b)
    ensures Reach(E + {(u, v)}, x, y) <==> Reach(F + {(u, v)}, x, y)
  {
    if Reach(E + {(u, v)}, x, y) {
      ExtendedReach(E, F, u, v, x, y);
    }
    if Reach(F + {(u, v)}, x, y) {
      ExtendedReach(F, E, u, v, x, y);
    }
  }

  lemma ExtendedReach(E: Edges<int>, F: Edges<int>, u: int, v: int, x: int, y: int)
    requires forall a, b :: Reach(E, a, b) ==> Reach(F, a, b)
    requires Reach(E + {(u, v)}, x, y)
    ensures Reach(F + {(u, v)}, x, y)
  {
    ReachThroughNewEdge(E, u, v, x, y);
    var G := F + {(u, v)};
    if Reach(E, x, y) {
      ReachMono(F, G, x, y);
    } else {
      ReachMono(F, G, x, u);
      ReachMono(F, G, v, y);
      ReachEdge(G, u, v);
      ReachTrans(G, x, u, v);
      ReachTrans(G, x, v, y);
    }
  }
}
