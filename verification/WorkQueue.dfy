/** src/RFSCDecisionTree.{h,cpp}: the queue of one worker, a map from depth to a deque of nodes of that depth. */
module WorkQueues {

  /** A node of the decision tree, as far as scheduling is concerned. */
  datatype Node = Node(id: int, depth: int)

  type Queue = map<int, seq<Node>>

  /** No empty deque stays in the map, every node is filed under its depth, and no node occurs twice. */
  ghost predicate ValidQueue(q: Queue) {
    && (forall d :: d in q ==> q[d] != [])
    && (forall d, i :: d in q && 0 <= i < |q[d]| ==> q[d][i].depth == d)
    && (forall d, i, j :: d in q && 0 <= i < j < |q[d]| ==> q[d][i] != q[d][j])
  }

  ghost function Nodes(q: Queue): set<Node> {
    set d, i | d in q && 0 <= i < |q[d]| :: q[d][i]
  }

  ghost predicate Deepest(q: Queue, d: int) {
    d in q && forall e :: e in q ==> e <= d
  }

  ghost predicate Shallowest(q: Queue, d: int) {
    d in q && forall e :: e in q ==> d <= e
  }

  function PushTo(q: Queue, n: Node): Queue {
    q[n.depth := (if n.depth in q then q[n.depth] else []) + [n]]
  }

  /** The queue without the first node of depth `d`. */
  function PopFrom(q: Queue, d: int): Queue
    requires d in q && q[d] != []
  {
    if |q[d]| == 1 then q - {d} else q[d := q[d][1..]]
  }

  /** How many of the nodes at the shallowest depth stay with their owner when somebody steals. */
  function Kept(n: nat): nat {
    n - (n + 1) / 2
  }

  function Loot(q: Queue, d: int): Queue
    requires d in q
  {
    map[d := q[d][Kept(|q[d]|)..]]
  }

  function AfterTheft(q: Queue, d: int): Queue
    requires d in q
  {
    if Kept(|q[d]|) == 0 then q - {d} else q[d := q[d][..Kept(|q[d]|)]]
  }

  ghost predicate Stolen(q: Queue, d: int, mine: Queue, theirs: Queue) {
    Shallowest(q, d) && mine == Loot(q, d) && theirs == AfterTheft(q, d)
  }

  /** The nodes of depth `d`, the oldest first. */
  function DequeAt(q: Queue, d: int): seq<Node> {
    if d in q then q[d] else []
  }

  /** Only the deque of depth `d` has changed. */
  ghost predicate OnlyDepth(q: Queue, r: Queue, d: int) {
    forall e :: e != d ==> (e in r <==> e in q) && (e in r ==> r[e] == q[e])
  }

  /** What a theft from depth `d` leaves and takes: the thief gets the younger half, and the odd node as well. */
  ghost predicate HalfTaken(q: Queue, d: int, mine: Queue, theirs: Queue) {
    && d in q && mine.Keys == {d} && OnlyDepth(q, theirs, d) && (d in theirs ==> theirs[d] != [])
    && DequeAt(theirs, d) + DequeAt(mine, d) == DequeAt(q, d) && |DequeAt(mine, d)| == (|DequeAt(q, d)| + 1) / 2
  }

  lemma TheftTakesHalf(q: Queue, d: int)
    requires ValidQueue(q) && d in q
    ensures HalfTaken(q, d, Loot(q, d), AfterTheft(q, d))
  {
    var k := Kept(|q[d]|);
    assert q[d] == q[d][..k] + q[d][k..] && [] + q[d] == q[d];
    if k == 0 { assert q[d][..k] == [] && q[d][k..] == q[d]; }
  }

  /** First in, first out, within a depth. */
  lemma PushedLast(q: Queue, n: Node)
    ensures DequeAt(PushTo(q, n), n.depth) == DequeAt(q, n.depth) + [n] && OnlyDepth(q, PushTo(q, n), n.depth)
  {
  }

  lemma PoppedFirst(q: Queue, d: int)
    requires d in q && q[d] != []
    ensures [q[d][0]] + DequeAt(PopFrom(q, d), d) == q[d] && OnlyDepth(q, PopFrom(q, d), d)
    ensures d in PopFrom(q, d) ==> PopFrom(q, d)[d] != []
  {
  }

  lemma NodesByDepth(q: Queue)
    requires ValidQueue(q)
    ensures forall m: Node :: m in Nodes(q) <==> m.depth in q && m in q[m.depth]
  {
    forall m: Node | m.depth in q && m in q[m.depth]
      ensures m in Nodes(q)
    {
      var i :| 0 <= i < |q[m.depth]| && q[m.depth][i] == m;
    }
  }

  lemma PushNodes(q: Queue, n: Node)
    requires ValidQueue(q) && n !in Nodes(q)
    ensures ValidQueue(PushTo(q, n)) && Nodes(PushTo(q, n)) == Nodes(q) + {n}
  {
    NodesByDepth(q);
    NodesByDepth(PushTo(q, n));
  }

  lemma PopNodes(q: Queue, d: int)
    requires ValidQueue(q) && d in q
    ensures q[d][0] in Nodes(q) && q[d][0].depth == d
    ensures ValidQueue(PopFrom(q, d)) && Nodes(PopFrom(q, d)) == Nodes(q) - {q[d][0]}
  {
    var r := PopFrom(q, d);
    assert ValidQueue(r);
    NodesByDepth(q);
    NodesByDepth(r);
    assert d in r ==> q[d] == [q[d][0]] + r[d];
  }

  lemma StealNodes(q: Queue, d: int)
    requires ValidQueue(q) && d in q
    ensures ValidQueue(Loot(q, d)) && ValidQueue(AfterTheft(q, d)) && Loot(q, d) != map[]
    ensures Nodes(Loot(q, d)) !! Nodes(AfterTheft(q, d))
    ensures Nodes(Loot(q, d)) + Nodes(AfterTheft(q, d)) == Nodes(q)
  {
    var mine, rest, k := Loot(q, d), AfterTheft(q, d), Kept(|q[d]|);
    assert d in mine && ValidQueue(mine) && ValidQueue(rest);
    NodesByDepth(q);
    NodesByDepth(mine);
    NodesByDepth(rest);
    SplitElements(q[d], k);
    forall m: Node
      ensures m in Nodes(q) <==> m in Nodes(mine) || m in Nodes(rest)
      ensures !(m in Nodes(mine) && m in Nodes(rest))
    {
    }
  }

  lemma SplitElements(s: seq<Node>, k: nat)
    requires k <= |s| && forall i, j :: 0 <= i < j < |s| ==> s[i] != s[j]
    ensures forall m :: m in s <==> m in s[..k] || m in s[k..]
    ensures forall m :: !(m in s[..k] && m in s[k..])
  {
    assert s == s[..k] + s[k..];
  }

  lemma {:induction false} HasExtremes(keys: set<int>, x: int) returns (lo: int, hi: int)
    requires x in keys
    ensures lo in keys && hi in keys && forall e :: e in keys ==> lo <= e <= hi
    decreases keys
  {
    lo, hi := x, x;
    if y :| y in keys - {x} {
      lo, hi := HasExtremes(keys - {x}, y);
      if x < lo { lo := x; }
      if x > hi { hi := x; }
    }
    forall e | e in keys && e != x
      ensures lo <= e <= hi
    {
      assert e in keys - {x};
    }
  }

  lemma NonemptyHasKey(q: Queue) returns (d: int)
    requires q != map[]
    ensures d in q
  {
    if e :| e in q {
      d := e;
    } else {
      assert forall e :: e !in q;
    }
  }

  /** The loop of `steal`: one node at a time goes from the back of one deque to the front of the other. */
  method TakeHalf(deque: seq<Node>) returns (mine: seq<Node>, theirs: seq<Node>)
    ensures |mine| == (|deque| + 1) / 2 && theirs + mine == deque
  {
    var count := (|deque| + 1) / 2;
    mine, theirs := [], deque;
    while count > 0
      invariant 0 <= count <= |theirs|
      invariant |mine| + count == (|deque| + 1) / 2
      invariant theirs + mine == deque
    {
      assert theirs == theirs[..|theirs| - 1] + [theirs[|theirs| - 1]];
      mine := [theirs[|theirs| - 1]] + mine;
      theirs := theirs[..|theirs| - 1];
      count := count - 1;
    }
  }

  class ThreadWorkQueue {
    var queue: Queue

    constructor ()
      ensures queue == map[]
    {
      queue := map[];
    }

    method Push(n: Node)
      requires ValidQueue(queue) && n !in Nodes(queue)
      modifies this
      ensures ValidQueue(queue) && queue == PushTo(old(queue), n) && Nodes(queue) == old(Nodes(queue)) + {n}
      ensures DequeAt(queue, n.depth) == DequeAt(old(queue), n.depth) + [n] && OnlyDepth(old(queue), queue, n.depth)
    {
      PushNodes(queue, n);
      queue := queue[n.depth := (if n.depth in queue then queue[n.depth] else []) + [n]];
    }

    /** The oldest node of the greatest depth. */
    method Pop() returns (n: Node)
      requires ValidQueue(queue) && queue != map[]
      modifies this
      ensures ValidQueue(queue)
      ensures n.depth in old(queue) && (forall e :: e in old(queue) ==> e <= n.depth) && queue == PopFrom(old(queue), n.depth)
      ensures [n] + DequeAt(queue, n.depth) == old(queue)[n.depth] && OnlyDepth(old(queue), queue, n.depth)
      ensures n in old(Nodes(queue)) && Nodes(queue) == old(Nodes(queue)) - {n}
    {
      ghost var e := NonemptyHasKey(queue);
      ghost var lo, hi := HasExtremes(queue.Keys, e);
      var d :| d in queue && forall e :: e in queue ==> e <= d;
      PopNodes(queue, d);
      n := queue[d][0];
      queue := queue[d := queue[d][1..]];
      if queue[d] == [] {
        queue := queue - {d};
      }
    }

    /** The last half, rounded up, of the nodes of the least depth of `other`, in their order. */
    method Steal(other: ThreadWorkQueue) returns (ok: bool)
      requires this != other && ValidQueue(other.queue) && queue == map[]
      modifies this, other
      ensures ok <==> old(other.queue) != map[]
      ensures !ok ==> queue == old(queue) && other.queue == old(other.queue)
      ensures ok ==> exists d :: (forall e :: e in old(other.queue) ==> d <= e) && HalfTaken(old(other.queue), d, queue, other.queue)
      ensures ok ==> exists d :: Stolen(old(other.queue), d, queue, other.queue)
      ensures ValidQueue(queue) && ValidQueue(other.queue)
      ensures Nodes(queue) !! Nodes(other.queue) && Nodes(queue) + Nodes(other.queue) == old(Nodes(other.queue))
    {
      if other.queue == map[] {
        return false;
      }
      ghost var e := NonemptyHasKey(other.queue);
      ghost var lo, hi := HasExtremes(other.queue.Keys, e);
      var d :| d in other.queue && forall e :: e in other.queue ==> d <= e;
      StealNodes(other.queue, d);
      TheftTakesHalf(other.queue, d);
      var mine, theirs := TakeHalf(other.queue[d]);
      assert mine == other.queue[d][Kept(|other.queue[d]|)..] && theirs == other.queue[d][..Kept(|other.queue[d]|)];
      queue := map[d := mine];
      other.queue := other.queue[d := theirs];
      if other.queue[d] == [] {
        other.queue := other.queue - {d};
      }
      assert Stolen(old(other.queue), d, queue, other.queue);
      return true;
    }
  }

  /** The array of all the other workers, before it is shuffled. */
  method Others(workers: nat, threadId: nat) returns (others: seq<int>)
    requires threadId < workers
    ensures |others| == workers - 1
    ensures forall v :: v in others <==> 0 <= v < workers && v != threadId
    ensures forall i, j :: 0 <= i < j < |others| ==> others[i] != others[j]
  {
    others := seq(workers - 1, i => i);
    if threadId != workers - 1 {
      others := others[threadId := workers - 1];
    }
    forall v | 0 <= v < workers && v != threadId
      ensures v in others
    {
      assert others[if v == workers - 1 then threadId else v] == v;
    }
  }
}
