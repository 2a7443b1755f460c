/**
 * Allocated cells, and the discipline of src/GenMap.h and src/GenVector.h for sharing them: a container
 * only writes cells that it has allocated itself.
 */
module Heaps {
  /** A pointer; 0 is the null pointer. */
  type Ptr = nat

  class Heap<C> {
    var cells: map<Ptr, C>

    constructor ()
      ensures cells == map[]
    {
      cells := map[];
    }

    method Malloc(c: C) returns (p: Ptr)
      modifies this
      ensures p != 0 && p !in old(cells) && cells == old(cells)[p := c]
    {
      UnusedExists(cells.Keys);
      p :| p != 0 && p !in cells;
      cells := cells[p := c];
    }

    method Free(p: Ptr)
      requires p in cells
      modifies this
      ensures cells == old(cells) - {p}
    {
      cells := cells - {p};
    }
  }

  lemma {:induction false} AllBelow(s: set<nat>) returns (n: nat)
    ensures n != 0 && forall x :: x in s ==> x < n
    decreases s
  {
    n := 1;
    if x :| x in s {
      n := AllBelow(s - {x});
      n := if n <= x then x + 1 else n;
      assert forall y :: y in s ==> y == x || y in s - {x};
    }
  }

  lemma UnusedExists(s: set<Ptr>)
    ensures exists p: Ptr :: p != 0 && p !in s
  {
    var n := AllBelow(s);
    assert n !in s;
  }

  /**
   * Cells that are not one's own have not been changed, cells have only become one's own by allocation, and
   * there are no others: what has been allocated is one's own, and what no longer is has been freed.
   */
  ghost predicate Evolves<C>(c: map<Ptr, C>, m: set<Ptr>, d: map<Ptr, C>, n: set<Ptr>) {
    && (forall x {:trigger x in d} :: x in c && x !in m ==> x in d && d[x] == c[x])
    && (forall x {:trigger x in d} :: x in d && x !in n ==> x in c && x !in m)
    && (forall x {:trigger x in n} :: x in n ==> x in m || x !in c)
  }

  lemma EvolvesTrans<C>(c: map<Ptr, C>, m: set<Ptr>, d: map<Ptr, C>, n: set<Ptr>, e: map<Ptr, C>, o: set<Ptr>)
    requires Evolves(c, m, d, n) && Evolves(d, n, e, o)
    ensures Evolves(c, m, e, o)
  {
    forall x | x in c && x !in m
      ensures x in e && e[x] == c[x]
    {
      assert x in d && x !in n;
    }
    forall x | x in e && x !in o
      ensures x in c && x !in m
    {
      assert x in d && x !in n;
    }
    forall x | x in o
      ensures x in m || x !in c
    {
      assert x in n || x !in d;
      assert x in c && x !in m ==> x in d;
    }
  }

  /** What another container needs stays as it was. */
  lemma OthersKept<C>(c: map<Ptr, C>, m: set<Ptr>, d: map<Ptr, C>, n: set<Ptr>, others: set<Ptr>)
    requires Evolves(c, m, d, n) && others <= c.Keys && others !! m
    ensures others !! n && forall x :: x in others ==> x in d && d[x] == c[x]
  {
    forall x | x in others
      ensures x !in n && x in d && d[x] == c[x]
    {
      assert x in d;
    }
  }

  /** Once everything one has allocated has been freed, all cells are as before. */
  lemma NothingIsLeft<C>(c: map<Ptr, C>, d: map<Ptr, C>, n: set<Ptr>)
    requires Evolves(c, {}, d, n)
    ensures d - n == c
  {
    forall x
      ensures x in d - n <==> x in c
      ensures x in c ==> d[x] == c[x]
    {
      assert x in d ==> (x in n || x in c);
      assert x in c ==> x in d;
    }
  }
}
