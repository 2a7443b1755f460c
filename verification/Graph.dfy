/** Reachability in a finite directed graph given by its set of edges. */
module Graph {

  type Edges<V(==)> = set<(V, V)>

  ghost predicate IsPath<V(!new)>(E: Edges<V>, a: V, b: V, p: seq<V>)
  {
    && |p| > 0 && p[0] == a && p[|p| - 1] == b
    && forall i :: 0 <= i < |p| - 1 ==> (p[i], p[i + 1]) in E
  }

  /** Reflexive and transitive closure of `E`. */
  ghost predicate Reach<V(!new)>(E: Edges<V>, a: V, b: V)
  {
    exists p: seq<V> :: IsPath(E, a, b, p)
  }

  /** No edge lies on a cycle; in particular there is no self-loop. */
  ghost predicate Acyclic<V(!new)>(E: Edges<V>)
  {
    forall a, b :: (a, b) in E ==> !Reach(E, b, a)
  }

  ghost predicate Closed<V(!new)>(E: Edges<V>, S: iset<V>)
  {
    forall a, b :: (a, b) in E && a in S ==> b in S
  }

  lemma ReachSelf<V(!new)>(E: Edges<V>, a: V)
    ensures Reach(E, a, a)
  {
    assert IsPath(E, a, a, [a]);
  }

  lemma ReachEdge<V(!new)>(E: Edges<V>, a: V, b: V)
    requires (a, b) in E
    ensures Reach(E, a, b)
  {
    assert IsPath(E, a, b, [a, b]);
  }

  lemma ReachTrans<V(!new)>(E: Edges<V>, a: V, b: V, c: V)
    requires Reach(E, a, b) && Reach(E, b, c)
    ensures Reach(E, a, c)
  {
    var p: seq<V> :| IsPath(E, a, b, p);
    var q: seq<V> :| IsPath(E, b, c, q);
    var r := p + q[1..];
    forall i | 0 <= i < |r| - 1
      ensures (r[i], r[i + 1]) in E
    {
      if i >= |p| - 1 {
        assert r[i] == q[i - |p| + 1] && r[i + 1] == q[i - |p| + 2];
      }
    }
    assert IsPath(E, a, c, r);
  }

  lemma ReachMono<V(!new)>(E: Edges<V>, F: Edges<V>, a: V, b: V)
    requires E <= F && Reach(E, a, b)
    ensures Reach(F, a, b)
  {
    var p: seq<V> :| IsPath(E, a, b, p);
    assert IsPath(F, a, b, p);
  }

  /** A set closed under the edges contains everything its members reach. */
  lemma ClosedContainsReach<V(!new)>(E: Edges<V>, S: iset<V>, a: V, b: V)
    requires Closed(E, S) && a in S && Reach(E, a, b)
    ensures b in S
  {
    var p: seq<V> :| IsPath(E, a, b, p);
    for i := 0 to |p| - 1
      invariant p[i] in S
    {
      assert (p[i], p[i + 1]) in E;
    }
  }

  /** What one more edge adds to reachability. */
  lemma ReachThroughNewEdge<V(!new)>(E: Edges<V>, u: V, v: V, a: V, b: V)
    requires Reach(E + {(u, v)}, a, b)
    ensures Reach(E, a, b) || (Reach(E, a, u) && Reach(E, v, b))
  {
    var S := iset x | Reach(E, a, x) || (Reach(E, a, u) && Reach(E, v, x));
    ReachSelf(E, a);
    ReachSelf(E, v);
    forall x, y | (x, y) in E + {(u, v)} && x in S
      ensures y in S
    {
      if (x, y) in E {
        ReachEdge(E, x, y);
        if Reach(E, a, x) { ReachTrans(E, a, x, y); } else { ReachTrans(E, v, x, y); }
      }
    }
    ClosedContainsReach(E + {(u, v)}, S, a, b);
  }

  /** An edge whose target does not reach its source keeps the graph acyclic. */
  lemma AcyclicAdd<V(!new)>(E: Edges<V>, u: V, v: V)
    requires Acyclic(E) && !Reach(E, v, u)
    ensures Acyclic(E + {(u, v)})
  {
    var F := E + {(u, v)};
    forall a, b | (a, b) in F
      ensures !Reach(F, b, a)
    {
      if Reach(F, b, a) {
        ReachThroughNewEdge(E, u, v, b, a);
        if (a, b) in E {
          ReachEdge(E, a, b);
          assert Reach(E, b, u) && Reach(E, v, a);
          ReachTrans(E, v, a, b);
          ReachTrans(E, v, b, u);
        }
      }
    }
  }

  /** An edge between already connected vertices changes nothing. */
  lemma RedundantEdge<V(!new)>(E: Edges<V>, u: V, v: V, a: V, b: V)
    requires Reach(E, u, v)
    ensures Reach(E + {(u, v)}, a, b) <==> Reach(E, a, b)
  {
    if Reach(E, a, b) {
      ReachMono(E, E + {(u, v)}, a, b);
    }
    if Reach(E + {(u, v)}, a, b) {
      ReachThroughNewEdge(E, u, v, a, b);
      if Reach(E, a, u) && Reach(E, v, b) {
        ReachTrans(E, a, u, v);
        ReachTrans(E, a, v, b);
      }
    }
  }
}
