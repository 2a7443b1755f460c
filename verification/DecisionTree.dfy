/**
 * `DecisionNode` of src/RFSCDecisionTree.h and src/RFSCDecisionTree.cpp: the walks towards the root, and the
 * events that siblings have claimed.  The nodes are numbered in the order of their creation; node 0 is the
 * root, at depth -1.
 */
module DecisionTrees {

  datatype DecisionNode = DecisionNode(depth: int, parent: int, pruned: bool, childrenUnf: set<int>)

  ghost predicate IsTree(nodes: seq<DecisionNode>) {
    && nodes != [] && nodes[0].depth == -1
    && forall i {:trigger BelowParent(nodes, i)} :: 0 < i < |nodes| ==> BelowParent(nodes, i)
  }

  predicate BelowParent(nodes: seq<DecisionNode>, i: int)
    requires 0 < i < |nodes|
  {
    0 <= nodes[i].parent < i && nodes[i].depth == nodes[nodes[i].parent].depth + 1
  }

  function Parent(nodes: seq<DecisionNode>, n: int): (p: int)
    requires IsTree(nodes) && 0 < n < |nodes|
    ensures 0 <= p < n && p == nodes[n].parent && nodes[n].depth == nodes[p].depth + 1
  {
    assert BelowParent(nodes, n);
    nodes[n].parent
  }

  /** Node `a` is `n`, or above it. */
  ghost predicate IsAncestor(nodes: seq<DecisionNode>, a: int, n: int)
    requires IsTree(nodes) && 0 <= n < |nodes|
    decreases n
  {
    a == n || (n > 0 && IsAncestor(nodes, a, Parent(nodes, n)))
  }

  lemma {:induction false} DepthOfAncestor(nodes: seq<DecisionNode>, a: int, n: int)
    requires IsTree(nodes) && 0 <= n < |nodes|
    ensures nodes[n].depth >= -1 && (nodes[n].depth == -1 <==> n == 0)
    ensures IsAncestor(nodes, a, n) ==> 0 <= a <= n && nodes[a].depth <= nodes[n].depth && (nodes[a].depth == nodes[n].depth ==> a == n)
    decreases n
  {
    if n > 0 {
      DepthOfAncestor(nodes, a, Parent(nodes, n));
    }
  }

  /** There is one ancestor at each depth. */
  lemma {:induction false} AncestorIsUnique(nodes: seq<DecisionNode>, a: int, b: int, n: int)
    requires IsTree(nodes) && 0 <= n < |nodes| && IsAncestor(nodes, a, n) && IsAncestor(nodes, b, n)
    requires 0 <= a < |nodes| && 0 <= b < |nodes| && nodes[a].depth == nodes[b].depth
    ensures a == b
    decreases n
  {
    DepthOfAncestor(nodes, a, n);
    DepthOfAncestor(nodes, b, n);
    if a != n && b != n {
      AncestorIsUnique(nodes, a, b, Parent(nodes, n));
    }
  }

  lemma {:induction false} AncestorTrans(nodes: seq<DecisionNode>, a: int, b: int, n: int)
    requires IsTree(nodes) && 0 <= n < |nodes| && 0 <= b < |nodes| && IsAncestor(nodes, a, b) && IsAncestor(nodes, b, n)
    ensures IsAncestor(nodes, a, n)
    decreases n
  {
    if b != n {
      AncestorTrans(nodes, a, b, Parent(nodes, n));
    }
  }

  /** The root is never pruned: the walk of `is_pruned` stops before it. */
  ghost predicate InPrunedSubtree(nodes: seq<DecisionNode>, n: int)
    requires IsTree(nodes) && 0 <= n < |nodes|
  {
    exists a :: 0 < a < |nodes| && nodes[a].pruned && IsAncestor(nodes, a, n)
  }

  /** The trees differ in what is pruned or claimed only. */
  ghost predicate SameShape(nodes: seq<DecisionNode>, after: seq<DecisionNode>) {
    |nodes| == |after| && forall i :: 0 <= i < |nodes| ==> after[i].depth == nodes[i].depth && after[i].parent == nodes[i].parent
  }

  lemma SameShapeIsTree(nodes: seq<DecisionNode>, after: seq<DecisionNode>)
    requires IsTree(nodes) && SameShape(nodes, after)
    ensures IsTree(after)
  {
    forall i | 0 < i < |after|
      ensures BelowParent(after, i)
    {
      assert BelowParent(nodes, i);
    }
  }

  /** A new node below one of the tree is below all that are above that one, and nobody else moves. */
  lemma {:induction false} NewNode(nodes: seq<DecisionNode>, x: DecisionNode, a: int, n: int)
    requires IsTree(nodes) && 0 <= x.parent < |nodes| && x.depth == nodes[x.parent].depth + 1 && 0 <= n < |nodes|
    ensures IsTree(nodes + [x]) && (IsAncestor(nodes + [x], a, n) <==> IsAncestor(nodes, a, n))
    decreases n
  {
    forall i | 0 < i < |nodes + [x]|
      ensures BelowParent(nodes + [x], i)
    {
      assert i < |nodes| ==> BelowParent(nodes, i);
    }
    if n > 0 {
      NewNode(nodes, x, a, Parent(nodes, n));
    }
  }

  /** Which of several attempts by siblings to claim an event succeed, one after the other. */
  function Attempts(claimed: set<int>, unfs: seq<int>): (r: seq<bool>)
    ensures |r| == |unfs|
    decreases |unfs|
  {
    if unfs == [] then []
    else [unfs[0] !in claimed] + Attempts(claimed + {unfs[0]}, unfs[1..])
  }

  /** Of all attempts for one event, exactly the first succeeds, and none if the event was claimed before. */
  lemma {:induction false} FirstAttemptSucceeds(claimed: set<int>, unfs: seq<int>, k: int)
    requires 0 <= k < |unfs|
    ensures Attempts(claimed, unfs)[k] <==> unfs[k] !in claimed && forall j :: 0 <= j < k ==> unfs[j] != unfs[k]
    decreases k
  {
    if k > 0 {
      FirstAttemptSucceeds(claimed + {unfs[0]}, unfs[1..], k - 1);
    }
  }

  lemma {:induction false} SameAncestors(nodes: seq<DecisionNode>, after: seq<DecisionNode>, a: int, n: int)
    requires IsTree(nodes) && SameShape(nodes, after) && 0 <= n < |nodes|
    ensures IsTree(after) && (IsAncestor(after, a, n) <==> IsAncestor(nodes, a, n))
    decreases n
  {
    SameShapeIsTree(nodes, after);
    if n > 0 {
      SameAncestors(nodes, after, a, Parent(nodes, n));
    }
  }

  class DecisionTree {
    var nodes: seq<DecisionNode>

    ghost predicate Valid()
      reads this
    {
      IsTree(nodes)
    }

    constructor ()
      ensures Valid() && nodes == [DecisionNode(-1, 0, false, {})]
    {
      nodes := [DecisionNode(-1, 0, false, {})];
    }

    /** `new_decision_node`: the event has not been claimed by a sibling before. */
    method NewDecisionNode(parent: int, unf: int) returns (n: int)
      requires Valid() && 0 <= parent < |nodes| && unf !in nodes[parent].childrenUnf
      modifies this
      ensures Valid() && n == |old(nodes)| && |nodes| == n + 1 && SameShape(old(nodes), nodes[..n])
      ensures nodes[n] == DecisionNode(old(nodes)[parent].depth + 1, parent, false, {})
      ensures forall i :: 0 <= i < n ==> nodes[i].pruned == old(nodes)[i].pruned
      ensures forall i :: 0 <= i < n ==> nodes[i].childrenUnf == old(nodes)[i].childrenUnf + if i == parent then {unf} else {}
    {
      n := |nodes|;
      NewNode(nodes, DecisionNode(nodes[parent].depth + 1, parent, false, {}), parent, parent);
      nodes := nodes + [DecisionNode(nodes[parent].depth + 1, parent, false, {})];
      var claimed := TryAllocUnf(n, unf);
      assert claimed;
    }

    /** `try_alloc_unf`: of all attempts for one event by siblings, one succeeds. */
    method TryAllocUnf(n: int, unf: int) returns (claimed: bool)
      requires Valid() && 0 < n < |nodes|
      modifies this
      ensures Valid() && SameShape(old(nodes), nodes) && forall i :: 0 <= i < |nodes| ==> nodes[i].pruned == old(nodes)[i].pruned
      ensures claimed <==> unf !in old(nodes[Parent(nodes, n)].childrenUnf)
      ensures forall i :: 0 <= i < |nodes| ==>
        nodes[i].childrenUnf == old(nodes)[i].childrenUnf + if i == old(Parent(nodes, n)) then {unf} else {}
    {
      var p := Parent(nodes, n);
      claimed := unf !in nodes[p].childrenUnf;
      ghost var was := nodes;
      nodes := nodes[p := nodes[p].(childrenUnf := nodes[p].childrenUnf + {unf})];
      SameShapeIsTree(was, nodes);
    }

    /** `find_ancestor`: the ancestor at the wanted depth. */
    method FindAncestor(n: int, wanted: int) returns (a: int)
      requires Valid() && 0 <= n < |nodes| && -1 <= wanted <= nodes[n].depth
      ensures 0 <= a < |nodes| && IsAncestor(nodes, a, n) && nodes[a].depth == wanted
    {
      if nodes[n].depth == wanted {
        return n;
      }
      var node := n;
      DepthOfAncestor(nodes, n, n);
      while nodes[Parent(nodes, node)].depth != wanted
        invariant 0 < node < |nodes| && IsAncestor(nodes, node, n) && wanted < nodes[node].depth
        decreases node
      {
        DepthOfAncestor(nodes, node, Parent(nodes, node));
        AncestorTrans(nodes, Parent(nodes, node), node, n);
        node := Parent(nodes, node);
      }
      a := Parent(nodes, node);
      AncestorTrans(nodes, a, node, n);
    }

    /** `is_pruned`. */
    method IsPruned(n: int) returns (pruned: bool)
      requires Valid() && 0 <= n < |nodes|
      ensures pruned <==> InPrunedSubtree(nodes, n)
    {
      var node := n;
      DepthOfAncestor(nodes, n, n);
      while nodes[node].depth != -1
        invariant 0 <= node < |nodes| && IsAncestor(nodes, node, n)
        invariant InPrunedSubtree(nodes, n) <==> InPrunedSubtree(nodes, node)
        decreases node
      {
        DepthOfAncestor(nodes, node, node);
        if nodes[node].pruned {
          return true;
        }
        var parent := Parent(nodes, node);
        AncestorTrans(nodes, parent, node, n);
        assert forall a :: IsAncestor(nodes, a, node) <==> a == node || IsAncestor(nodes, a, parent);
        node := parent;
      }
      DepthOfAncestor(nodes, node, node);
      return false;
    }

    /** `prune_decisions`: the subtree of the node is pruned, and nothing else. */
    method PruneDecisions(n: int)
      requires Valid() && 0 <= n < |nodes|
      modifies this
      ensures Valid() && nodes == old(nodes)[n := old(nodes)[n].(pruned := true)]
      ensures forall m :: 0 <= m < |nodes| ==>
        (InPrunedSubtree(nodes, m) <==> old(InPrunedSubtree(nodes, m)) || (n > 0 && old(IsAncestor(nodes, n, m))))
    {
      ghost var was := nodes;
      nodes := nodes[n := nodes[n].(pruned := true)];
      SameShapeIsTree(was, nodes);
      forall m, a | 0 <= m < |nodes|
        ensures IsAncestor(nodes, a, m) <==> IsAncestor(was, a, m)
      {
        SameAncestors(was, nodes, a, m);
      }
    }
  }
}
