/**
 * src/PrefixHeuristic.cpp: guess a coherence order of the stores to each address, and sort the events.
 *
 * The saturated graph (src/SaturatedGraph.h) is known by its edges.  Its saturation, and its vector clocks
 * when it is saturated, are functions of the edges.
 */
module PrefixHeuristic {
  import opened Graph
  import opened Options

  /** Events are numbered; `addr` gives the address of the stores, and `ins` the predecessors of an event. */
  datatype Context = Context(
    events: set<int>, addr: map<int, int>, ins: (Edges<int>, int) -> seq<int>,
    leq: (Edges<int>, int, int) -> bool, saturate: Edges<int> -> Option<Edges<int>>)
  {
    /** `event_in`. */
    function Ins(E: Edges<int>, id: int): seq<int> {
      ins(E, id)
    }

    /** `event_vc(a).leq(event_vc(b))`. */
    predicate Leq(E: Edges<int>, a: int, b: int) {
      leq(E, a, b)
    }

    ghost predicate IsGraph(E: Edges<int>) {
      forall a, b :: (a, b) in E ==> a in events && b in events
    }

    ghost predicate Sortable(E: Edges<int>) {
      && IsGraph(E) && Acyclic(E)
      && (forall a, b {:trigger a in Ins(E, b)} {:trigger (a, b) in E} :: b in events ==> (a in Ins(E, b) <==> (a, b) in E))
    }

    /** The graph is acyclic, and its vector clocks are up to date. */
    ghost predicate Saturated(E: Edges<int>) {
      Sortable(E) && forall a, b {:trigger Leq(E, a, b)} :: a in events && b in events ==> (Leq(E, a, b) <==> Reach(E, a, b))
    }

    /** Saturation only adds edges, and fails if that closes a cycle. */
    ghost predicate Valid() {
      forall E: Edges<int> {:trigger saturate(E)} :: IsGraph(E) && saturate(E).Some? ==>
        E <= saturate(E).value && Saturated(saturate(E).value)
    }
  }

  // ----- Inserting a store into the coherence order of its address ---------------------------------------

  /** Neighbours in the list are joined by edges. */
  ghost predicate Chained(E: Edges<int>, list: seq<int>) {
    forall k :: 0 <= k < |list| - 1 ==> (list[k], list[k + 1]) in E
  }

  ghost predicate Distinct(list: seq<int>) {
    forall a, b :: 0 <= a < b < |list| ==> list[a] != list[b]
  }

  /** The edges that go with inserting store `w` at place `p`. */
  function Guessed(list: seq<int>, p: nat, w: int): Edges<int>
    requires p <= |list|
  {
    (if p > 0 then {(list[p - 1], w)} else {}) + if p < |list| then {(w, list[p])} else {}
  }

  function Inserted(list: seq<int>, p: nat, w: int): (r: seq<int>)
    requires p <= |list|
    ensures |r| == |list| + 1 && r[p] == w
    ensures forall k :: 0 <= k < p ==> r[k] == list[k]
    ensures forall k :: p <= k < |list| ==> r[k + 1] == list[k]
  {
    list[..p] + [w] + list[p..]
  }

  lemma InsertKeepsChained(E: Edges<int>, list: seq<int>, p: nat, w: int)
    requires Chained(E, list) && p <= |list|
    ensures Chained(E + Guessed(list, p, w), Inserted(list, p, w))
  {
    var r := Inserted(list, p, w);
    forall k | 0 <= k < |r| - 1
      ensures (r[k], r[k + 1]) in E + Guessed(list, p, w)
    {
      if k < p - 1 {
        assert (list[k], list[k + 1]) in E;
      } else if k > p {
        assert (list[k - 1], list[k]) in E;
      }
    }
  }

  /** The guessed edges alone never close a cycle: the one to the successor is already implied. */
  lemma GuessIsAcyclic(E: Edges<int>, list: seq<int>, p: nat, w: int)
    requires Acyclic(E) && p <= |list|
    requires p > 0 ==> !Reach(E, w, list[p - 1])
    requires p < |list| ==> Reach(E, w, list[p]) && list[p] != w
    ensures Acyclic(E + Guessed(list, p, w))
  {
    var F := if p > 0 then E + {(list[p - 1], w)} else E;
    if p > 0 {
      AcyclicAdd(E, list[p - 1], w);
    }
    if p < |list| {
      ReachMono(E, F, w, list[p]);
      NoWayBack(F, w, list[p]);
      AcyclicAdd(F, w, list[p]);
    }
    assert E + Guessed(list, p, w) == if p < |list| then F + {(w, list[p])} else F;
  }

  lemma NoWayBack(E: Edges<int>, a: int, b: int)
    requires Acyclic(E) && Reach(E, a, b) && a != b
    ensures !Reach(E, b, a)
  {
    var p: seq<int> :| IsPath(E, a, b, p);
    assert (p[0], p[1]) in E;
    assert IsPath(E, p[1], b, p[1..]);
    if Reach(E, b, a) {
      ReachTrans(E, p[1], b, a);
    }
  }

  /** The place in the list: after the last store that `w` does not happen before. */
  method FindPlace(c: Context, E: Edges<int>, list: seq<int>, w: int) returns (p: nat)
    requires c.Saturated(E) && w in c.events && forall x :: x in list ==> x in c.events && x != w
    ensures p <= |list| && (p > 0 ==> !Reach(E, w, list[p - 1]))
    ensures forall k :: p <= k < |list| ==> Reach(E, w, list[k])
  {
    p := |list|;
    while p > 0 && c.Leq(E, w, list[p - 1])
      invariant p <= |list| && forall k :: p <= k < |list| ==> Reach(E, w, list[k])
    {
      assert list[p - 1] in list;
      p := p - 1;
    }
    if p > 0 {
      assert list[p - 1] in list;
    }
  }

  // ----- Topological sorting -----------------------------------------------------------------------------

  /** Every listed event comes after all its predecessors. */
  ghost predicate Sorted(E: Edges<int>, list: seq<int>) {
    forall k {:trigger SortedAt(E, list, k)} :: 0 <= k < |list| ==> SortedAt(E, list, k)
  }

  ghost predicate SortedAt(E: Edges<int>, list: seq<int>, k: int)
    requires 0 <= k < |list|
  {
    forall u :: (u, list[k]) in E ==> u in list[..k]
  }

  /** Events that are marked but not listed yet. */
  ghost function Open(mark: set<int>, list: seq<int>): set<int> {
    set x | x in mark && x !in list
  }

  ghost predicate SortState(c: Context, E: Edges<int>, mark: set<int>, list: seq<int>) {
    && c.Sortable(E) && mark <= c.events && Distinct(list) && Sorted(E, list)
    && (forall x :: x in list ==> x in mark)
  }

  lemma AppendSorted(E: Edges<int>, list: seq<int>, id: int)
    requires Sorted(E, list) && Distinct(list) && id !in list && forall u :: (u, id) in E ==> u in list
    ensures Sorted(E, list + [id]) && Distinct(list + [id])
  {
    var r := list + [id];
    forall k | 0 <= k < |r|
      ensures SortedAt(E, r, k)
    {
      if k < |list| {
        assert SortedAt(E, list, k) && r[..k] == list[..k];
      } else {
        assert r[..k] == list;
      }
    }
  }

  ghost function Elements(list: seq<int>): set<int> {
    set x | x in list
  }

  /** Before anything else, the list has what was there already, the first `k` of the given events, and what precedes them. */
  ghost predicate ListedFirst(E: Edges<int>, before: set<int>, ids: seq<int>, k: nat, list: seq<int>)
    requires k <= |ids|
  {
    exists n :: ListsJust(E, before, ids[..k], n, list)
  }

  ghost predicate ListsJust(E: Edges<int>, before: set<int>, ids: seq<int>, n: int, list: seq<int>) {
    0 <= n <= |list| && forall x :: x in list[..n] <==> x in before || Precedes(E, x, ids)
  }

  /** The given events are taken one after the other. */
  ghost predicate InTurn(E: Edges<int>, before: set<int>, ids: seq<int>, list: seq<int>) {
    forall k: nat {:trigger ListedFirst(E, before, ids, k, list)} :: k <= |ids| ==> ListedFirst(E, before, ids, k, list)
  }

  lemma ListedFirstStays(E: Edges<int>, before: set<int>, ids: seq<int>, k: nat, list: seq<int>, longer: seq<int>)
    requires k <= |ids| && ListedFirst(E, before, ids, k, list) && list <= longer
    ensures ListedFirst(E, before, ids, k, longer)
  {
    var n :| ListsJust(E, before, ids[..k], n, list);
    assert longer[..n] == list[..n];
    assert ListsJust(E, before, ids[..k], n, longer);
  }

  /** All of a sorted list is what was there, the first `k` events, and what precedes them. */
  lemma ListsAll(E: Edges<int>, before: set<int>, ids: seq<int>, k: nat, list: seq<int>)
    requires k <= |ids| && Sorted(E, list) && (forall l :: 0 <= l < k ==> ids[l] in list) && forall x :: x in before ==> x in list
    requires forall x :: x in list ==> x in before || Precedes(E, x, ids[..k])
    ensures ListedFirst(E, before, ids, k, list)
  {
    forall x | Precedes(E, x, ids[..k])
      ensures x in list
    {
      var id :| id in ids[..k] && Reach(E, x, id);
      PredecessorsListed(E, list, x, id);
    }
    assert list[..|list|] == list;
    assert ListsJust(E, before, ids[..k], |list|, list);
  }

  /** The first `k` of the given events have been taken, one after the other. */
  ghost predicate TakenInTurn(E: Edges<int>, before: set<int>, ids: seq<int>, k: nat, list: seq<int>)
    requires k <= |ids|
  {
    && (forall l :: 0 <= l < k ==> ids[l] in list) && (forall x :: x in before ==> x in list)
    && (forall x :: x in list ==> x in before || Precedes(E, x, ids[..k]))
    && (forall j: nat {:trigger ListedFirst(E, before, ids, j, list)} :: j <= k ==> ListedFirst(E, before, ids, j, list))
  }

  lemma StartTurns(E: Edges<int>, ids: seq<int>, list: seq<int>)
    requires Sorted(E, list)
    ensures TakenInTurn(E, Elements(list), ids, 0, list)
  {
    ListsAll(E, Elements(list), ids, 0, list);
  }

  lemma OneMoreInTurn(E: Edges<int>, before: set<int>, ids: seq<int>, k: nat, list: seq<int>, longer: seq<int>)
    requires k < |ids| && TakenInTurn(E, before, ids, k, list) && list <= longer && Sorted(E, longer) && ids[k] in longer
    requires forall x :: x in longer && x !in list ==> Reach(E, x, ids[k])
    ensures TakenInTurn(E, before, ids, k + 1, longer)
  {
    var first := ids[..k + 1];
    forall x | x in longer && x !in before
      ensures Precedes(E, x, first)
    {
      if x in list { MorePrecede(E, x, ids, k); } else { assert first[k] == ids[k]; }
    }
    ListsAll(E, before, ids, k + 1, longer);
    forall j: nat | j <= k
      ensures ListedFirst(E, before, ids, j, longer)
    {
      ListedFirstStays(E, before, ids, j, list, longer);
    }
  }

  lemma TurnsStay(E: Edges<int>, before: set<int>, ids: seq<int>, list: seq<int>, longer: seq<int>)
    requires TakenInTurn(E, before, ids, |ids|, list) && list <= longer
    ensures InTurn(E, before, ids, longer)
  {
    forall j: nat | j <= |ids|
      ensures ListedFirst(E, before, ids, j, longer)
    {
      ListedFirstStays(E, before, ids, j, list, longer);
    }
  }

  /** `toposort` from one event: all its predecessors are listed, then the event. */
  method Visit(c: Context, E: Edges<int>, id: int, mark: set<int>, list: seq<int>) returns (mark': set<int>, list': seq<int>)
    requires SortState(c, E, mark, list) && id in c.events
    requires forall x :: x in Open(mark, list) ==> Reach(E, id, x) && x != id
    ensures SortState(c, E, mark', list') && id in list' && mark <= mark' && list <= list'
    ensures Open(mark', list') == Open(mark, list)
    ensures forall x :: x in list' && x !in list ==> Reach(E, x, id)
    ensures if id in mark then list' == list else InTurn(E, Elements(list), c.Ins(E, id), list') && list'[|list'| - 1] == id
    decreases c.events - mark
  {
    mark', list' := mark, list;
    if id in mark {
      return;
    }
    mark' := mark' + {id};
    var ins := c.Ins(E, id);
    ReachSelf(E, id);
    ghost var before := Elements(list);
    StartTurns(E, ins, list');
    for k := 0 to |ins|
      invariant SortState(c, E, mark', list') && mark + {id} <= mark' && list <= list' && id !in list'
      invariant Open(mark', list') == Open(mark, list) + {id}
      invariant forall x :: x in list' && x !in list ==> Reach(E, x, id)
      invariant TakenInTurn(E, before, ins, k, list')
    {
      var u := ins[k];
      assert u in ins;
      PredecessorReaches(E, u, id, Open(mark, list));
      ghost var previous := list';
      mark', list' := Visit(c, E, u, mark', list');
      NewReach(E, id, u, list, previous, list');
      OneMoreInTurn(E, before, ins, k, previous, list');
      assert id in Open(mark', list');
    }
    AppendSorted(E, list', id);
    TurnsStay(E, before, ins, list', list' + [id]);
    list' := list' + [id];
  }

  lemma NewReach(E: Edges<int>, id: int, u: int, list: seq<int>, previous: seq<int>, now: seq<int>)
    requires Reach(E, u, id) && forall x :: x in now && x !in previous ==> Reach(E, x, u)
    requires forall x :: x in previous && x !in list ==> Reach(E, x, id)
    ensures forall x :: x in now && x !in list ==> Reach(E, x, id)
  {
    forall x | x in now && x !in previous
      ensures Reach(E, x, id)
    {
      ReachTrans(E, x, u, id);
    }
  }

  lemma PredecessorReaches(E: Edges<int>, u: int, id: int, open: set<int>)
    requires Acyclic(E) && (u, id) in E && forall x :: x in open ==> Reach(E, id, x)
    ensures Reach(E, u, id)
    ensures forall x :: x in open + {id} ==> Reach(E, u, x) && x != u
  {
    ReachEdge(E, u, id);
    forall x | x in open + {id}
      ensures Reach(E, u, x) && x != u
    {
      ReachSelf(E, id);
      assert Reach(E, id, x);
      ReachTrans(E, u, id, x);
    }
  }

  /** `toposort`: exactly the given events and what precedes them, once each, in an order that the edges allow. */
  method TopoSort(c: Context, E: Edges<int>, ids: seq<int>) returns (order: seq<int>)
    requires c.Sortable(E) && forall x :: x in ids ==> x in c.events
    ensures Distinct(order) && Sorted(E, order) && InTurn(E, {}, ids, order)
    ensures forall x :: x in order <==> Precedes(E, x, ids)
  {
    var mark: set<int> := {};
    order := [];
    assert Elements(order) == {};
    StartTurns(E, ids, order);
    for k := 0 to |ids|
      invariant SortState(c, E, mark, order) && Open(mark, order) == {}
      invariant TakenInTurn(E, {}, ids, k, order)
    {
      assert ids[k] in ids;
      ghost var before := order;
      mark, order := Visit(c, E, ids[k], mark, order);
      OneMoreInTurn(E, {}, ids, k, before, order);
    }
    AllTaken(E, ids, order);
  }

  lemma AllTaken(E: Edges<int>, ids: seq<int>, order: seq<int>)
    requires Sorted(E, order) && TakenInTurn(E, {}, ids, |ids|, order)
    ensures InTurn(E, {}, ids, order) && forall x :: x in order <==> Precedes(E, x, ids)
  {
    assert ids[..|ids|] == ids;
    TurnsStay(E, {}, ids, order, order);
    forall x | Precedes(E, x, ids)
      ensures x in order
    {
      var id :| id in ids && Reach(E, x, id);
      PredecessorsListed(E, order, x, id);
    }
  }

  /** Event `x` is one of the given events, or precedes one. */
  ghost predicate Precedes(E: Edges<int>, x: int, ids: seq<int>) {
    exists id :: id in ids && Reach(E, x, id)
  }

  lemma MorePrecede(E: Edges<int>, x: int, ids: seq<int>, k: nat)
    requires k < |ids| && Precedes(E, x, ids[..k])
    ensures Precedes(E, x, ids[..k + 1])
  {
    var id :| id in ids[..k] && Reach(E, x, id);
    assert id in ids[..k + 1];
  }

  /** Along a path, all come earlier. */
  lemma PredecessorsListed(E: Edges<int>, list: seq<int>, x: int, y: int)
    requires Sorted(E, list) && y in list && Reach(E, x, y)
    ensures x in list
  {
    var p: seq<int> :| IsPath(E, x, y, p);
    PathListed(E, list, p, |p| - 1);
  }

  lemma PredecessorListed(E: Edges<int>, list: seq<int>, x: int, y: int)
    requires Sorted(E, list) && y in list && (x, y) in E
    ensures x in list
  {
    var k :| 0 <= k < |list| && list[k] == y;
    assert SortedAt(E, list, k);
  }

  lemma {:induction false} PathListed(E: Edges<int>, list: seq<int>, p: seq<int>, i: nat)
    requires Sorted(E, list) && i < |p| && p[i] in list
    requires forall j :: 0 <= j < |p| - 1 ==> (p[j], p[j + 1]) in E
    ensures p[0] in list
  {
    if i > 0 {
      assert (p[i - 1], p[i - 1 + 1]) in E;
      PredecessorListed(E, list, p[i - 1], p[i]);
      PathListed(E, list, p, i - 1);
    }
  }

  lemma ListedBefore(E: Edges<int>, list: seq<int>, u: int, k: int)
    requires 0 <= k < |list| && SortedAt(E, list, k) && (u, list[k]) in E
    ensures u in list[..k]
  {
  }

  /** What reaches an event comes before it. */
  lemma ReachIsBefore(E: Edges<int>, list: seq<int>, x: int, k: int)
    requires Sorted(E, list) && 0 <= k < |list| && Reach(E, x, list[k]) && x != list[k]
    ensures x in list[..k]
  {
    var p: seq<int> :| IsPath(E, x, list[k], p);
    var n := |p| - 1;
    assert (p[n - 1], p[n - 1 + 1]) in E && SortedAt(E, list, k);
    ListedBefore(E, list, p[n - 1], k);
    PrefixSorted(E, list, k);
    PathListed(E, list[..k], p[..n], n - 1);
  }

  lemma PrefixSorted(E: Edges<int>, list: seq<int>, n: nat)
    requires Sorted(E, list) && n <= |list|
    ensures Sorted(E, list[..n])
  {
    var r := list[..n];
    forall k | 0 <= k < |r|
      ensures SortedAt(E, r, k)
    {
      assert SortedAt(E, list, k) && r[..k] == list[..k];
    }
  }

  lemma {:induction false} ChainReaches(E: Edges<int>, list: seq<int>, i: nat, j: nat)
    requires Chained(E, list) && i <= j < |list|
    ensures Reach(E, list[i], list[j])
    decreases j
  {
    if i == j {
      ReachSelf(E, list[i]);
    } else {
      ChainReaches(E, list, i, j - 1);
      assert (list[j - 1], list[j - 1 + 1]) in E;
      ReachEdge(E, list[j - 1], list[j]);
      ReachTrans(E, list[i], list[j - 1], list[j]);
    }
  }

  // ----- The heuristic -----------------------------------------------------------------------------------

  function ListOf(co: map<int, seq<int>>, a: int): seq<int> {
    if a in co then co[a] else []
  }

  /** The stores among the events, by address; the ones to the same address are chained by edges. */
  ghost predicate CoherenceOrder(c: Context, E: Edges<int>, co: map<int, seq<int>>, ids: seq<int>) {
    forall a {:trigger ListOf(co, a)} :: OrderOf(c, E, ListOf(co, a), a, ids)
  }

  ghost predicate OrderOf(c: Context, E: Edges<int>, list: seq<int>, a: int, ids: seq<int>) {
    && Distinct(list) && Chained(E, list)
    && forall w :: w in list <==> w in ids && w in c.addr && c.addr[w] == a
  }

  /** The sorted events list the stores to each address in their coherence order. */
  ghost predicate Agrees(order: seq<int>, co: map<int, seq<int>>) {
    forall a, i, j, k :: 0 <= i < j < |ListOf(co, a)| && 0 <= k < |order| && order[k] == ListOf(co, a)[j] ==>
      ListOf(co, a)[i] in order[..k]
  }

  /** Store `w` comes right after the last store in the list that it does not happen before. */
  ghost predicate PlacedAfterLast(E: Edges<int>, list: seq<int>, w: int, p: nat, list': seq<int>) {
    && p <= |list| && list' == list[..p] + [w] + list[p..]
    && (p > 0 ==> !Reach(E, w, list[p - 1])) && forall k :: p <= k < |list| ==> Reach(E, w, list[k])
  }

  /** Nothing but edges from the store before and to the store after it are added. */
  ghost predicate JoinedAt(E: Edges<int>, list: seq<int>, w: int, p: nat, F: Edges<int>) {
    p <= |list| && forall e :: e in F <==> e in E || (p > 0 && e == (list[p - 1], w)) || (p < |list| && e == (w, list[p]))
  }

  /** What the heuristic does about store `w`. */
  ghost predicate Placed(c: Context, E: Edges<int>, co: map<int, seq<int>>, w: int, F: Edges<int>, co': map<int, seq<int>>)
    requires w in c.addr
  {
    var list, a := ListOf(co, c.addr[w]), c.addr[w];
    && (exists p: nat :: PlacedAfterLast(E, list, w, p, ListOf(co', a)) && JoinedAt(E, list, w, p, F))
    && forall b :: b != a ==> ListOf(co', b) == ListOf(co, b)
  }

  /** One more store. */
  method InsertStore(c: Context, E: Edges<int>, co: map<int, seq<int>>, w: int, ghost ids: seq<int>)
    returns (F: Edges<int>, co': map<int, seq<int>>)
    requires c.Saturated(E) && CoherenceOrder(c, E, co, ids) && w in c.addr && w in c.events && w !in ids
    requires forall x :: x in ids ==> x in c.events
    ensures E <= F && c.IsGraph(F) && Acyclic(F) && CoherenceOrder(c, F, co', ids + [w]) && Placed(c, E, co, w, F, co')
  {
    var list := ListOf(co, c.addr[w]);
    assert OrderOf(c, E, list, c.addr[w], ids);
    var p := FindPlace(c, E, list, w);
    F := AddEdges(E, list, p, w);
    co' := co[c.addr[w] := Inserted(list, p, w)];
    GuessIsRight(c, E, list, p, w, F);
    InsertKeepsOrder(c, E, co, w, ids, p);
    assert PlacedAfterLast(E, list, w, p, ListOf(co', c.addr[w]));
  }

  /** The edges from the store before and to the store after. */
  method AddEdges(E: Edges<int>, list: seq<int>, p: nat, w: int) returns (F: Edges<int>)
    requires p <= |list|
    ensures F == E + Guessed(list, p, w) && JoinedAt(E, list, w, p, F)
  {
    F := E;
    if p > 0 {
      F := F + {(list[p - 1], w)};
    }
    if p < |list| {
      F := F + {(w, list[p])};
    }
  }

  lemma GuessIsRight(c: Context, E: Edges<int>, list: seq<int>, p: nat, w: int, F: Edges<int>)
    requires c.IsGraph(E) && Acyclic(E) && p <= |list| && F == E + Guessed(list, p, w) && w in c.events
    requires forall x :: x in list ==> x in c.events && x != w
    requires (p > 0 ==> !Reach(E, w, list[p - 1])) && forall k :: p <= k < |list| ==> Reach(E, w, list[k])
    ensures E <= F && c.IsGraph(F) && Acyclic(F)
  {
    if p > 0 { assert list[p - 1] in list; }
    if p < |list| { assert list[p] in list; }
    GuessIsAcyclic(E, list, p, w);
  }

  lemma InsertKeepsOrder(c: Context, E: Edges<int>, co: map<int, seq<int>>, w: int, ids: seq<int>, p: nat)
    requires CoherenceOrder(c, E, co, ids) && w in c.addr && w !in ids && p <= |ListOf(co, c.addr[w])|
    ensures var list := ListOf(co, c.addr[w]);
      CoherenceOrder(c, E + Guessed(list, p, w), co[c.addr[w] := Inserted(list, p, w)], ids + [w])
  {
    var a := c.addr[w];
    var list := ListOf(co, a);
    var F, co' := E + Guessed(list, p, w), co[a := Inserted(list, p, w)];
    forall b
      ensures OrderOf(c, F, ListOf(co', b), b, ids + [w])
    {
      assert OrderOf(c, E, ListOf(co, b), b, ids);
      if b == a {
        InsertKeepsChained(E, list, p, w);
        InsertedElements(list, p, w);
      }
    }
  }

  lemma InsertedElements(list: seq<int>, p: nat, w: int)
    requires Distinct(list) && p <= |list| && w !in list
    ensures Distinct(Inserted(list, p, w)) && forall x :: x in Inserted(list, p, w) <==> x in list || x == w
  {
    assert list == list[..p] + list[p..];
  }

  lemma MoreEdgesKeepOrder(c: Context, E: Edges<int>, F: Edges<int>, co: map<int, seq<int>>, ids: seq<int>)
    requires CoherenceOrder(c, E, co, ids) && E <= F
    ensures CoherenceOrder(c, F, co, ids)
  {
    forall a
      ensures OrderOf(c, F, ListOf(co, a), a, ids)
    {
      assert OrderOf(c, E, ListOf(co, a), a, ids);
    }
  }

  lemma SameStores(c: Context, E: Edges<int>, co: map<int, seq<int>>, ids: seq<int>, x: int)
    requires CoherenceOrder(c, E, co, ids) && x !in c.addr
    ensures CoherenceOrder(c, E, co, ids + [x])
  {
    forall a
      ensures OrderOf(c, E, ListOf(co, a), a, ids + [x])
    {
      assert OrderOf(c, E, ListOf(co, a), a, ids);
    }
  }

  lemma SortedAgrees(c: Context, E: Edges<int>, co: map<int, seq<int>>, ids: seq<int>, order: seq<int>)
    requires CoherenceOrder(c, E, co, ids) && Sorted(E, order)
    ensures Agrees(order, co)
  {
    forall a, i, j, k | 0 <= i < j < |ListOf(co, a)| && 0 <= k < |order| && order[k] == ListOf(co, a)[j]
      ensures ListOf(co, a)[i] in order[..k]
    {
      var list := ListOf(co, a);
      assert OrderOf(c, E, list, a, ids);
      ChainReaches(E, list, i, j);
      ReachIsBefore(E, order, list[i], k);
    }
  }

  /** The events of the execution that the graph has. */
  function Known(c: Context, execution: seq<int>): (ids: seq<int>)
    ensures forall x :: x in ids <==> x in execution && x in c.events
  {
    if execution == [] then []
    else Known(c, execution[..|execution| - 1]) + if execution[|execution| - 1] in c.events then [execution[|execution| - 1]] else []
  }

  /** The events of the execution that the graph has, in the order of the execution. */
  ghost predicate IsFiltered(c: Context, execution: seq<int>, ids: seq<int>) {
    && Distinct(ids) && (forall x :: x in ids <==> x in execution && x in c.events)
    && forall i, j, a, b :: 0 <= i < j < |ids| && 0 <= a < |execution| && 0 <= b < |execution| && execution[a] == ids[i] && execution[b] == ids[j] ==>
         a < b
  }

  lemma {:induction false} KnownIsFiltered(c: Context, execution: seq<int>)
    requires Distinct(execution)
    ensures IsFiltered(c, execution, Known(c, execution))
  {
    if execution != [] {
      var n := |execution| - 1;
      var before, last := execution[..n], execution[n];
      KnownIsFiltered(c, before);
      assert last !in before by {
        assert forall k :: 0 <= k < n ==> before[k] == execution[k] != last;
      }
      FilteredOneMore(c, before, last, Known(c, before));
      assert before + [last] == execution;
    }
  }

  lemma FilteredOneMore(c: Context, before: seq<int>, last: int, ids: seq<int>)
    requires IsFiltered(c, before, ids) && last !in before
    ensures IsFiltered(c, before + [last], ids + if last in c.events then [last] else [])
  {
    var all := ids + if last in c.events then [last] else [];
    var execution := before + [last];
    forall i, j, a, b | 0 <= i < j < |all| && 0 <= a < |execution| && 0 <= b < |execution| && execution[a] == all[i] && execution[b] == all[j]
      ensures a < b
    {
      assert ids[i] in ids;
      assert a < |before|;
    }
  }

  /** One event of the loop: a store is placed and the graph saturated; the others are passed over. */
  ghost predicate GuessStep(c: Context, g: Edges<int>, co: map<int, seq<int>>, w: int, g': Edges<int>, co': map<int, seq<int>>) {
    if w in c.addr then exists h :: Placed(c, g, co, w, h, co') && c.saturate(h) == Some(g') else g' == g && co' == co
  }

  /** The graphs and coherence orders that the loop goes through for the events `ids`. */
  ghost predicate Guesses(c: Context, E: Edges<int>, ids: seq<int>, gs: seq<Edges<int>>, cos: seq<map<int, seq<int>>>) {
    && |gs| == |cos| == |ids| + 1 && gs[0] == E && cos[0] == map[]
    && forall k {:trigger GuessStep(c, gs[k], cos[k], ids[k], gs[k + 1], cos[k + 1])} ::
         0 <= k < |ids| ==> GuessStep(c, gs[k], cos[k], ids[k], gs[k + 1], cos[k + 1])
  }

  lemma OneMoreGuess(c: Context, E: Edges<int>, ids: seq<int>, gs: seq<Edges<int>>, cos: seq<map<int, seq<int>>>,
                     w: int, g: Edges<int>, co: map<int, seq<int>>)
    requires Guesses(c, E, ids, gs, cos) && GuessStep(c, gs[|ids|], cos[|ids|], w, g, co)
    ensures Guesses(c, E, ids + [w], gs + [g], cos + [co])
  {
    var ids', gs', cos' := ids + [w], gs + [g], cos + [co];
    forall k | 0 <= k < |ids'|
      ensures GuessStep(c, gs'[k], cos'[k], ids'[k], gs'[k + 1], cos'[k + 1])
    {
      if k < |ids| { assert GuessStep(c, gs[k], cos[k], ids[k], gs[k + 1], cos[k + 1]); }
    }
  }

  /** `F` adds to `E` one coherence order of the stores among `ids`, and what follows from it; it has no cycle. */
  ghost predicate IsGuess(c: Context, E: Edges<int>, F: Edges<int>, co: map<int, seq<int>>, ids: seq<int>) {
    E <= F && Acyclic(F) && CoherenceOrder(c, F, co, ids)
  }

  /** The events `ids` and all that precede them, once each, in the order of the edges and of the coherence order. */
  ghost predicate IsPrefix(F: Edges<int>, co: map<int, seq<int>>, ids: seq<int>, order: seq<int>) {
    && Distinct(order) && Sorted(F, order) && Agrees(order, co) && InTurn(F, {}, ids, order)
    && forall x :: x in order <==> Precedes(F, x, ids)
  }

  /** What the heuristic returns for the events `ids` of the execution. */
  ghost predicate Generated(c: Context, E: Edges<int>, ids: seq<int>, order: seq<int>, gs: seq<Edges<int>>, cos: seq<map<int, seq<int>>>) {
    Guesses(c, E, ids, gs, cos) && IsGuess(c, E, gs[|ids|], cos[|ids|], ids) && IsPrefix(gs[|ids|], cos[|ids|], ids, order)
  }

  /** Why it fails: once store `k` has been placed, the graph cannot be saturated. */
  ghost predicate FailsAt(c: Context, E: Edges<int>, ids: seq<int>, k: int, gs: seq<Edges<int>>, cos: seq<map<int, seq<int>>>) {
    && 0 <= k < |ids| && ids[k] in c.addr && Guesses(c, E, ids[..k], gs, cos)
    && exists h, co :: Placed(c, gs[k], cos[k], ids[k], h, co) && IsGuess(c, E, h, co, ids[..k + 1]) && c.saturate(h).None?
  }

  ghost predicate Answers(c: Context, E: Edges<int>, ids: seq<int>, order: Option<seq<int>>) {
    match order
    case Some(list) => exists gs, cos :: Generated(c, E, ids, list, gs, cos)
    case None => exists k, gs, cos :: FailsAt(c, E, ids, k, gs, cos)
  }

  /**
   * `try_generate_prefix`: an order of the events that contains the given edges and, for each address, one
   * total order of its stores.  The stores are placed in the order of the execution, each after the last one that
   * it does not happen before.  It fails only if the guess for the first of the events cannot be saturated.
   */
  method TryGeneratePrefix(c: Context, E: Edges<int>, execution: seq<int>) returns (order: Option<seq<int>>)
    requires c.Valid() && c.Saturated(E) && Distinct(execution)
    ensures exists ids :: IsFiltered(c, execution, ids) && Answers(c, E, ids, order)
  {
    var ids := FilterKnown(c, execution);
    KnownIsFiltered(c, execution);
    var g := E;
    var totalCo: map<int, seq<int>> := map[];
    ghost var gs, cos := [g], [totalCo];
    for k := 0 to |ids|
      invariant c.Saturated(g) && E <= g && CoherenceOrder(c, g, totalCo, ids[..k])
      invariant Guesses(c, E, ids[..k], gs, cos) && gs[k] == g && cos[k] == totalCo
    {
      assert ids[..k + 1] == ids[..k] + [ids[k]];
      var h, co' := GuessNext(c, g, totalCo, ids, k);
      if h.None? {
        GuessFails(c, E, ids, k, gs, cos);
        return None;
      }
      OneMoreGuess(c, E, ids[..k], gs, cos, ids[k], h.value, co');
      g, totalCo := h.value, co';
      gs, cos := gs + [g], cos + [totalCo];
    }
    assert ids[..|ids|] == ids;
    var sorted := TopoSort(c, g, ids);
    SortedAgrees(c, g, totalCo, ids, sorted);
    assert Generated(c, E, ids, sorted, gs, cos) && Answers(c, E, ids, Some(sorted));
    return Some(sorted);
  }

  lemma GuessFails(c: Context, E: Edges<int>, ids: seq<int>, k: nat, gs: seq<Edges<int>>, cos: seq<map<int, seq<int>>>)
    requires k < |ids| && ids[k] in c.addr && Guesses(c, E, ids[..k], gs, cos) && E <= gs[k]
    requires CannotSaturate(c, gs[k], cos[k], ids, k)
    ensures Answers(c, E, ids, None)
  {
    assert FailsAt(c, E, ids, k, gs, cos);
  }

  /** Store `k` has been placed, and the graph cannot be saturated. */
  ghost predicate CannotSaturate(c: Context, g: Edges<int>, co: map<int, seq<int>>, ids: seq<int>, k: nat)
    requires k < |ids| && ids[k] in c.addr
  {
    exists h, co' :: Placed(c, g, co, ids[k], h, co') && IsGuess(c, g, h, co', ids[..k + 1]) && c.saturate(h).None?
  }

  /** The loop body of `try_generate_prefix`; there is no graph if it cannot be saturated. */
  method GuessNext(c: Context, g: Edges<int>, totalCo: map<int, seq<int>>, ids: seq<int>, k: nat)
    returns (h: Option<Edges<int>>, co: map<int, seq<int>>)
    requires c.Valid() && k < |ids| && Distinct(ids) && (forall x :: x in ids ==> x in c.events)
    requires c.Saturated(g) && CoherenceOrder(c, g, totalCo, ids[..k])
    ensures h.Some? ==> c.Saturated(h.value) && g <= h.value && CoherenceOrder(c, h.value, co, ids[..k + 1])
    ensures h.Some? ==> GuessStep(c, g, totalCo, ids[k], h.value, co)
    ensures h.None? ==> ids[k] in c.addr && CannotSaturate(c, g, totalCo, ids, k)
  {
    var w := ids[k];
    assert ids[..k + 1] == ids[..k] + [w] && w in ids && w !in ids[..k];
    if w in c.addr {
      var placed;
      placed, co := InsertStore(c, g, totalCo, w, ids[..k]);
      h := c.saturate(placed);
      if h.Some? {
        MoreEdgesKeepOrder(c, placed, h.value, co, ids[..k + 1]);
      } else {
        assert IsGuess(c, g, placed, co, ids[..k + 1]);
      }
    } else {
      SameStores(c, g, totalCo, ids[..k], w);
      h, co := Some(g), totalCo;
    }
  }

  method FilterKnown(c: Context, execution: seq<int>) returns (ids: seq<int>)
    ensures ids == Known(c, execution)
  {
    ids := [];
    for k := 0 to |execution|
      invariant ids == Known(c, execution[..k])
    {
      assert execution[..k + 1][..k] == execution[..k];
      if execution[k] in c.events {
        ids := ids + [execution[k]];
      }
    }
    assert execution[..|execution|] == execution;
  }
}
