/** Walks over the trees of src/GenMap.h: chains, `free_child` and `for_each`. */
module GenWalks {
  import opened Bitmaps
  import opened GenTrees
  import opened GenEdits
  import opened Heaps
  import opened Options

  function Lookup<K(==), V>(m: map<K, V>, k: K): Option<V> {
    if k in m then Some(m[k]) else None
  }

  /** Look-up in the tree finds what is in the map. */
  ghost predicate Denotes<K(!new), V>(hash: K -> nat, t: Tree<K, V>, m: map<K, V>) {
    forall k {:trigger Lookup(m, k)} {:trigger Get(t, hash(k), k)} :: Get(t, hash(k), k) == Lookup(m, k)
  }

  lemma StillDenotes<K(!new), V>(hash: K -> nat, t: Tree<K, V>, r: Tree<K, V>, k: K, m: map<K, V>)
    requires Denotes(hash, t, m) && SameBut(hash, t, r, k, Get(t, hash(k), k))
    ensures Denotes(hash, r, m)
  {
  }

  lemma DenotesUpdate<K(!new), V>(hash: K -> nat, t: Tree<K, V>, r: Tree<K, V>, k: K, m: map<K, V>, v: V)
    requires Denotes(hash, t, m) && SameBut(hash, t, r, k, Some(v))
    ensures Denotes(hash, r, m[k := v])
  {
    forall x
      ensures Get(r, hash(x), x) == Lookup(m[k := v], x)
    {
      assert Get(t, hash(x), x) == Lookup(m, x);
    }
  }

  /** Shifting a hash and dividing it by the arity once for each node are the same. */
  lemma {:induction false} RestIsShift(h: nat, d: nat)
    ensures Rest(h, d) == Shr(h, 5 * d)
  {
    if d > 0 {
      RestIsShift(h, d - 1);
      var e := 5 * (d - 1);
      var x := Shr(h, e);
      assert Shr(h, e + 1) == x / 2;
      assert Shr(h, e + 2) == x / 2 / 2;
      assert Shr(h, e + 3) == x / 2 / 2 / 2;
      assert Shr(h, e + 4) == x / 2 / 2 / 2 / 2;
      assert Shr(h, e + 5) == x / 2 / 2 / 2 / 2 / 2 == x / ARITY;
    }
  }

  // ----- Chains ------------------------------------------------------------------------------------------

  /** The leaf of `k` in a chain. */
  function LeafOf<K(==), V>(t: Tree<K, V>, k: K): (r: Tree<K, V>)
    ensures !r.Node?
  {
    match t
    case Leaf(_, _, key, _, next) => if key == k then t else LeafOf(next, k)
    case _ => Null
  }

  lemma LeafIsFound<K(!new), V>(hash: K -> nat, t: Tree<K, V>, k: K)
    requires LeafOf(t, k).Leaf?
    ensures t.Leaf? && k in Keys(t) && LeafOf(t, k).key == k
    ensures t.key != k ==> LeafOf(t.next, k) == LeafOf(t, k)
  {
  }

  lemma {:induction false} LeafIsFirst<K(!new), V>(t: Tree<K, V>, k: K)
    requires Tidy(t) && LeafOf(t, k).Leaf? && LeafOf(t, k).p == t.p
    ensures t.Leaf? && t.key == k
  {
    assert Kid(t, 0) == t.next;
    if LeafOf(t.next, k).Leaf? {
      LeafPtr(t.next, k);
    }
  }

  lemma {:induction false} LeafPtr<K(!new), V>(t: Tree<K, V>, k: K)
    requires LeafOf(t, k).Leaf?
    ensures LeafOf(t, k).p in Ptrs(t) && LeafOf(t, k).key == k
  {
    if t.key != k {
      LeafPtr(t.next, k);
    }
  }

  lemma {:induction false} LeafKey<K(!new), V>(t: Tree<K, V>, k: K)
    requires LeafOf(t, k).Leaf?
    ensures k in Keys(t)
  {
    if t.key != k {
      LeafKey(t.next, k);
    }
  }

  /** A chain with `k` in it is the chain of its hash. */
  lemma SameRest<K(!new), V>(hash: K -> nat, cells: Cells<K, V>, mine: set<Ptr>, g: nat, t: Tree<K, V>, path: seq<nat>, slot: Slot, k: K)
    requires Working(hash, cells, mine, g, t, path, slot, k) && SubAt(t, path).Leaf? && LeafOf(SubAt(t, path), k).Leaf?
    ensures Rest(hash(SubAt(t, path).key), DepthAt(t, path)) == Rest(hash(k), DepthAt(t, path))
  {
    SubIsGood(hash, t, path, 0, g, k);
    LeafKey(SubAt(t, path), k);
  }

  /** Before a leaf of generation `g` there are only leaves of generation `g`. */
  lemma {:induction false} OwnComesFirst<K(!new), V>(hash: K -> nat, t: Tree<K, V>, d: nat, g: nat, k: K)
    requires Good(hash, t, d, g) && LeafOf(t, k).Leaf? && LeafOf(t, k).gen == g
    ensures t.gen == g
  {
    if t.key != k {
      assert t.gen <= g;
      LeafGen(hash, t.next, d, t.gen, k);
    }
  }

  lemma {:induction false} LeafGen<K(!new), V>(hash: K -> nat, t: Tree<K, V>, d: nat, g: nat, k: K)
    requires Good(hash, t, d, g) && LeafOf(t, k).Leaf?
    ensures LeafOf(t, k).gen <= g
  {
    if t.key != k {
      LeafGen(hash, t.next, d, t.gen, k);
    }
  }

  // ----- New nodes ---------------------------------------------------------------------------------------

  lemma GrownCell<K, V>(t: Tree<K, V>, q: Ptr, g: nat, index: nat)
    requires t.Node? && Above(t.bitmap, index) <= |t.kids|
    ensures var p := Above(t.bitmap, index); var slots := CellOf(t).slots;
      CellOf(Grown(t, q, g, index)) == NodeCell(g, SetBit(t.bitmap, index), slots[..p] + [0] + slots[p..])
  {
  }

  lemma SplitCell<K, V>(t: Tree<K, V>, g: nat, e: nat, n: nat, slots: seq<Ptr>)
    requires slots == if e == n then [PtrOf(t)] else if e < n then [0, PtrOf(t)] else [PtrOf(t), 0]
    ensures forall q :: CellOf(Split(t, q, g, e, n)) == NodeCell(g, PairBitmap(e, n), slots)
  {
    forall q
      ensures CellOf(Split(t, q, g, e, n)) == NodeCell(g, PairBitmap(e, n), slots)
    {
      assert CellOf(Split(t, q, g, e, n)).slots == slots;
    }
  }

  lemma StepIntoSplit<K, V>(t: Tree<K, V>, q: Ptr, g: nat, e: nat, n: nat, h: nat)
    requires t.Leaf? && h % ARITY == n
    ensures var s := Split(t, q, g, e, n);
      && HasWay(s, h) && Way(s, h) == (if n < e then 1 else 0) && Kid(s, Way(s, h)) == (if e == n then t else Null)
      && FullSiblings(s, Way(s, h))
  {
    PairPositions(e, n);
    SplitKids(t, q, g, e, n);
  }

  lemma {:induction false} GensAreBelow<K(!new), V>(hash: K -> nat, cells: Cells<K, V>, t: Tree<K, V>, d: nat, g: nat)
    requires Stored(cells, t) && Good(hash, t, d, g)
    ensures forall x :: x in Ptrs(t) ==> x in cells && cells[x].gen <= g
  {
    if !t.Null? {
      forall i | HasKid(t, i)
        ensures forall x :: x in Ptrs(Kid(t, i)) ==> x in cells && cells[x].gen <= g
      {
        GensAreBelow(hash, cells, Kid(t, i), d + DepthBelow(t), t.gen);
      }
      forall x | x in Ptrs(t)
        ensures x in cells && cells[x].gen <= g
      {
        if x != t.p { PtrsAreKids(t, x); }
      }
    }
  }

  // ----- What is freed -----------------------------------------------------------------------------------

  lemma ForeignOwnsNothing<K(!new), V>(hash: K -> nat, cells: Cells<K, V>, t: Tree<K, V>, d: nat, h: nat, g: nat)
    requires Stored(cells, t) && Good(hash, t, d, h) && h <= g && (t.Null? || t.gen != g)
    ensures Own(cells, t, g) == {}
  {
    if !t.Null? {
      GoodBelow(hash, t, d, t.gen, t.gen);
      GensAreBelow(hash, cells, t, d, t.gen);
    }
  }

  lemma OwnOfLeaf<K(!new), V>(cells: Cells<K, V>, t: Tree<K, V>, g: nat)
    requires t.Leaf? && Stored(cells, t) && Tidy(t) && t.gen == g
    ensures Own(cells, t, g) == {t.p} + Own(cells - {t.p}, t.next, g)
    ensures Stored(cells - {t.p}, t.next) && Tidy(t.next)
    ensures cells - {t.p} - Own(cells - {t.p}, t.next, g) == cells - Own(cells, t, g)
  {
    assert Kid(t, 0) == t.next;
    PtrsAreStored(cells, t.next);
    StoredFrame(cells, cells - {t.p}, t.next);
  }

  /** What one owns below the children from place `i` on. */
  ghost function KidsOwn<K, V>(cells: Cells<K, V>, t: Tree<K, V>, g: nat, i: nat): set<Ptr>
    requires t.Node?
  {
    set j, x | i <= j < |t.kids| && x in Own(cells, t.kids[j], g) :: x
  }

  lemma OwnOfNode<K(!new), V>(cells: Cells<K, V>, t: Tree<K, V>, g: nat)
    requires t.Node? && Stored(cells, t) && Tidy(t) && t.gen == g
    ensures Own(cells, t, g) == {t.p} + KidsOwn(cells, t, g, 0) && t.p !in KidsOwn(cells, t, g, 0)
    ensures cells - KidsOwn(cells, t, g, 0) - {t.p} == cells - Own(cells, t, g)
  {
    forall j | 0 <= j < |t.kids|
      ensures t.p !in Own(cells, t.kids[j], g)
    {
      assert Kid(t, j) == t.kids[j];
    }
    forall x | x in Own(cells, t, g) && x != t.p
      ensures x in KidsOwn(cells, t, g, 0)
    {
      var i :| 0 <= i < |t.kids| && x in Ptrs(t.kids[i]);
      assert x in Own(cells, t.kids[i], g);
    }
  }

  /** Freeing later children does not touch child `i`. */
  lemma KidUntouched<K(!new), V>(cells: Cells<K, V>, now: Cells<K, V>, t: Tree<K, V>, g: nat, i: nat)
    requires t.Node? && Stored(cells, t) && Tidy(t) && i < |t.kids| && now == cells - KidsOwn(cells, t, g, i + 1)
    ensures Stored(now, t.kids[i]) && Tidy(t.kids[i]) && Own(now, t.kids[i], g) == Own(cells, t.kids[i], g)
    ensures t.p in now
  {
    assert Kid(t, i) == t.kids[i];
    PtrsAreStored(cells, t.kids[i]);
    forall j | i < j < |t.kids|
      ensures Ptrs(t.kids[i]) !! Ptrs(t.kids[j]) && t.p !in Ptrs(t.kids[j])
    {
      assert Kid(t, j) == t.kids[j];
    }
    StoredFrame(cells, now, t.kids[i]);
  }

  // ----- What is visited ---------------------------------------------------------------------------------

  function Bindings<K, V>(t: Tree<K, V>): seq<(K, V)> {
    match t
    case Null => []
    case Leaf(_, _, key, val, next) => [(key, val)] + Bindings(next)
    case Node(_, _, _, kids) => BindingsOf(kids)
  }

  function BindingsOf<K, V>(kids: seq<Tree<K, V>>): seq<(K, V)> {
    if kids == [] then [] else BindingsOf(kids[..|kids| - 1]) + Bindings(kids[|kids| - 1])
  }

  lemma {:induction false} InBindingsOf<K(!new), V>(kids: seq<Tree<K, V>>, x: (K, V))
    ensures x in BindingsOf(kids) <==> exists i :: 0 <= i < |kids| && x in Bindings(kids[i])
  {
    if kids != [] {
      var n := |kids| - 1;
      InBindingsOf(kids[..n], x);
      if i :| 0 <= i < |kids| && x in Bindings(kids[i]) {
        assert i < n ==> kids[..n][i] == kids[i];
      }
    }
  }

  /** What is visited is what look-up finds. */
  lemma {:induction false} BindingsAreFound<K(!new), V>(hash: K -> nat, t: Tree<K, V>, d: nat, g: nat, k: K, v: V)
    requires Good(hash, t, d, g)
    ensures (k, v) in Bindings(t) <==> Get(t, Rest(hash(k), d), k) == Some(v)
  {
    match t
    case Null =>
    case Leaf(_, gen, key, val, next) =>
      BindingsAreFound(hash, next, d, gen, k, v);
      GetIsHas(hash, next, d, gen, k);
    case Node(_, gen, bitmap, kids) =>
      var h := Rest(hash(k), d);
      InBindingsOf(kids, (k, v));
      forall i | 0 <= i < |kids|
        ensures (k, v) in Bindings(kids[i]) <==> Get(kids[i], h / ARITY, k) == Some(v)
        ensures (k, v) in Bindings(kids[i]) ==> HasWay(t, h) && Way(t, h) == i
      {
        BindingsAreFound(hash, kids[i], d + 1, gen, k, v);
        KidWay(hash, t, d, g, i, k);
      }
  }

  lemma KidWay<K(!new), V>(hash: K -> nat, t: Tree<K, V>, d: nat, g: nat, i: int, k: K)
    requires t.Node? && Good(hash, t, d, g) && 0 <= i < |t.kids|
    ensures var h := Rest(hash(k), d); Get(t.kids[i], h / ARITY, k).Some? ==> HasWay(t, h) && Way(t, h) == i
  {
    GetIsHas(hash, t.kids[i], d + 1, t.gen, k);
    IndexOfPosition(t.bitmap, IndexOf(t.bitmap, i));
  }

  ghost predicate DistinctKeys<K(!new), V>(s: seq<(K, V)>) {
    forall i, j :: 0 <= i < j < |s| ==> s[i].0 != s[j].0
  }

  lemma BindingKey<K(!new), V>(hash: K -> nat, t: Tree<K, V>, d: nat, g: nat, x: (K, V))
    requires Good(hash, t, d, g) && x in Bindings(t)
    ensures x.0 in Keys(t)
  {
    BindingsAreFound(hash, t, d, g, x.0, x.1);
    GetIsHas(hash, t, d, g, x.0);
  }

  lemma {:induction false} BindingsDistinct<K(!new), V>(hash: K -> nat, t: Tree<K, V>, d: nat, g: nat)
    requires Good(hash, t, d, g)
    ensures DistinctKeys(Bindings(t))
    decreases t, 1
  {
    match t
    case Null =>
    case Leaf(_, gen, key, val, next) =>
      BindingsDistinct(hash, next, d, gen);
      forall x | x in Bindings(next)
        ensures x.0 != key
      {
        BindingKey(hash, next, d, gen, x);
      }
    case Node(_, gen, bitmap, kids) =>
      KidBindingsDistinct(hash, t, d, g, |kids|);
      assert kids[..|kids|] == kids;
  }

  lemma {:induction false} KidBindingsDistinct<K(!new), V>(hash: K -> nat, t: Tree<K, V>, d: nat, g: nat, n: nat)
    requires t.Node? && Good(hash, t, d, g) && n <= |t.kids|
    ensures DistinctKeys(BindingsOf(t.kids[..n]))
    decreases t, 0, n
  {
    if n > 0 {
      var before := t.kids[..n - 1];
      assert t.kids[..n][..n - 1] == before;
      KidBindingsDistinct(hash, t, d, g, n - 1);
      BindingsDistinct(hash, t.kids[n - 1], d + 1, t.gen);
      forall x, y | x in BindingsOf(before) && y in Bindings(t.kids[n - 1])
        ensures x.0 != y.0
      {
        InBindingsOf(before, x);
        var i :| 0 <= i < n - 1 && x in Bindings(before[i]);
        KidsDiffer(hash, t, d, g, i, n - 1, x, y);
      }
      DistinctConcat(BindingsOf(before), Bindings(t.kids[n - 1]));
    }
  }

  lemma KidsDiffer<K(!new), V>(hash: K -> nat, t: Tree<K, V>, d: nat, g: nat, i: int, j: int, x: (K, V), y: (K, V))
    requires t.Node? && Good(hash, t, d, g) && 0 <= i < j < |t.kids| && x in Bindings(t.kids[i]) && y in Bindings(t.kids[j])
    ensures x.0 != y.0
  {
    KidDigit(hash, t, d, g, i, x);
    KidDigit(hash, t, d, g, j, y);
    assert Position(t.bitmap, IndexOf(t.bitmap, i)) == i != j == Position(t.bitmap, IndexOf(t.bitmap, j));
  }

  lemma KidDigit<K(!new), V>(hash: K -> nat, t: Tree<K, V>, d: nat, g: nat, i: int, x: (K, V))
    requires t.Node? && Good(hash, t, d, g) && 0 <= i < |t.kids| && x in Bindings(t.kids[i])
    ensures Rest(hash(x.0), d) % ARITY == IndexOf(t.bitmap, i)
  {
    BindingKey(hash, t.kids[i], d + 1, t.gen, x);
  }

  lemma DistinctConcat<K(!new), V>(s: seq<(K, V)>, r: seq<(K, V)>)
    requires DistinctKeys(s) && DistinctKeys(r) && forall x, y :: x in s && y in r ==> x.0 != y.0
    ensures DistinctKeys(s + r)
  {
  }

  ghost function KeySet<K, V>(s: seq<(K, V)>): set<K> {
    if s == [] then {} else KeySet(s[..|s| - 1]) + {s[|s| - 1].0}
  }

  lemma {:induction false} KeySetIs<K(!new), V>(s: seq<(K, V)>, k: K)
    ensures k in KeySet(s) <==> exists i :: 0 <= i < |s| && s[i].0 == k
  {
    if s != [] {
      KeySetIs(s[..|s| - 1], k);
    }
  }

  lemma {:induction false} KeySetSize<K(!new), V>(s: seq<(K, V)>)
    requires DistinctKeys(s)
    ensures |KeySet(s)| == |s|
  {
    if s != [] {
      KeySetSize(s[..|s| - 1]);
      KeySetIs(s[..|s| - 1], s[|s| - 1].0);
    }
  }

  /** A list of all bindings of a map, without repetition, is as long as the map is big. */
  lemma CountBindings<K(!new), V>(s: seq<(K, V)>, m: map<K, V>)
    requires DistinctKeys(s) && forall k, v :: (k, v) in s <==> k in m && m[k] == v
    ensures |s| == |m|
  {
    KeySetSize(s);
    forall k
      ensures k in KeySet(s) <==> k in m
    {
      KeySetIs(s, k);
      if k in m {
        assert (k, m[k]) in s;
      }
      if i :| 0 <= i < |s| && s[i].0 == k {
        assert (s[i].0, s[i].1) in s;
      }
    }
    assert KeySet(s) == m.Keys;
  }
}
