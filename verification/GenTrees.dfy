/**
 * The cells of src/GenMap.h and the tree they form.
 *
 * A map is a pointer into a set of cells that it shares with the maps it was copied from.  `Tree` is the
 * structure seen from there: branching nodes, and chains of leaves whose keys have the same hash.
 */
module GenTrees {
  import opened Bitmaps
  import opened Heaps
  import opened Options

  datatype Cell<K, V> =
    | LeafCell(gen: nat, key: K, val: V, next: Ptr)
    | NodeCell(gen: nat, bitmap: nat, slots: seq<Ptr>)

  type Cells<K, V> = map<Ptr, Cell<K, V>>

  datatype Tree<K, V> =
    | Null
    | Leaf(p: Ptr, gen: nat, key: K, val: V, next: Tree<K, V>)
    | Node(p: Ptr, gen: nat, bitmap: nat, kids: seq<Tree<K, V>>)

  function PtrOf<K, V>(t: Tree<K, V>): Ptr {
    if t.Null? then 0 else t.p
  }

  function CellOf<K, V>(t: Tree<K, V>): Cell<K, V>
    requires !t.Null?
  {
    match t
    case Leaf(_, gen, key, val, next) => LeafCell(gen, key, val, PtrOf(next))
    case Node(_, gen, bitmap, kids) => NodeCell(gen, bitmap, seq(|kids|, i requires 0 <= i < |kids| => PtrOf(kids[i])))
  }

  // ----- Children and paths ------------------------------------------------------------------------------

  predicate HasKid<K, V>(t: Tree<K, V>, i: int) {
    match t
    case Null => false
    case Leaf(_, _, _, _, _) => i == 0
    case Node(_, _, _, kids) => 0 <= i < |kids|
  }

  function Kid<K, V>(t: Tree<K, V>, i: int): (r: Tree<K, V>)
    requires HasKid(t, i)
    ensures r < t
  {
    if t.Leaf? then t.next else t.kids[i]
  }

  function WithKid<K, V>(t: Tree<K, V>, i: int, s: Tree<K, V>): Tree<K, V>
    requires HasKid(t, i)
  {
    if t.Leaf? then t.(next := s) else t.(kids := t.kids[i := s])
  }

  /** The same change made to the cell. */
  function CellWithKid<K, V>(c: Cell<K, V>, i: int, q: Ptr): Cell<K, V>
    requires c.NodeCell? ==> 0 <= i < |c.slots|
  {
    if c.LeafCell? then c.(next := q) else c.(slots := c.slots[i := q])
  }

  predicate IsPath<K, V>(t: Tree<K, V>, path: seq<nat>)
    decreases |path|
  {
    path == [] || (HasKid(t, path[0]) && IsPath(Kid(t, path[0]), path[1..]))
  }

  function SubAt<K, V>(t: Tree<K, V>, path: seq<nat>): Tree<K, V>
    requires IsPath(t, path)
    decreases |path|
  {
    if path == [] then t else SubAt(Kid(t, path[0]), path[1..])
  }

  function Replace<K, V>(t: Tree<K, V>, path: seq<nat>, s: Tree<K, V>): Tree<K, V>
    requires IsPath(t, path)
    decreases |path|
  {
    if path == [] then s else WithKid(t, path[0], Replace(Kid(t, path[0]), path[1..], s))
  }

  // ----- Storage -----------------------------------------------------------------------------------------

  ghost function Ptrs<K, V>(t: Tree<K, V>): set<Ptr> {
    match t
    case Null => {}
    case Leaf(p, _, _, _, next) => {p} + Ptrs(next)
    case Node(p, _, _, kids) => {p} + set i, x | 0 <= i < |kids| && x in Ptrs(kids[i]) :: x
  }

  /** The cells hold the tree. */
  ghost predicate Stored<K, V>(cells: Cells<K, V>, t: Tree<K, V>) {
    !t.Null? ==>
      && t.p != 0 && t.p in cells && cells[t.p] == CellOf(t)
      && forall i {:trigger Kid(t, i)} :: HasKid(t, i) ==> Stored(cells, Kid(t, i))
  }

  /** No cell occurs twice. */
  ghost predicate Tidy<K, V>(t: Tree<K, V>) {
    !t.Null? ==>
      && (forall i {:trigger Kid(t, i)} :: HasKid(t, i) ==> Tidy(Kid(t, i)) && t.p !in Ptrs(Kid(t, i)))
      && (forall i, j {:trigger Kid(t, i), Kid(t, j)} ::
            HasKid(t, i) && HasKid(t, j) && i != j ==> Ptrs(Kid(t, i)) !! Ptrs(Kid(t, j)))
  }

  lemma KidPtrs<K, V>(t: Tree<K, V>, i: int)
    requires HasKid(t, i)
    ensures Ptrs(Kid(t, i)) <= Ptrs(t)
  {
  }

  lemma PtrsAreKids<K, V>(t: Tree<K, V>, x: Ptr)
    requires !t.Null? && x in Ptrs(t) && x != t.p
    ensures exists i :: HasKid(t, i) && x in Ptrs(Kid(t, i))
  {
    if t.Leaf? {
      assert HasKid(t, 0) && Kid(t, 0) == t.next;
    } else {
      var i :| 0 <= i < |t.kids| && x in Ptrs(t.kids[i]);
      assert HasKid(t, i) && Kid(t, i) == t.kids[i];
    }
  }

  lemma {:induction false} StoredFrame<K, V>(cells: Cells<K, V>, after: Cells<K, V>, t: Tree<K, V>)
    requires Stored(cells, t)
    requires forall x :: x in Ptrs(t) ==> x in after && x in cells && after[x] == cells[x]
    ensures Stored(after, t)
  {
    if !t.Null? {
      forall i | HasKid(t, i)
        ensures Stored(after, Kid(t, i))
      {
        KidPtrs(t, i);
        StoredFrame(cells, after, Kid(t, i));
      }
    }
  }

  lemma {:induction false} PtrsAreStored<K, V>(cells: Cells<K, V>, t: Tree<K, V>)
    requires Stored(cells, t)
    ensures Ptrs(t) <= cells.Keys && 0 !in Ptrs(t)
  {
    if !t.Null? {
      forall x | x in Ptrs(t)
        ensures x in cells && x != 0
      {
        if x != t.p {
          PtrsAreKids(t, x);
          var i :| HasKid(t, i) && x in Ptrs(Kid(t, i));
          PtrsAreStored(cells, Kid(t, i));
        }
      }
    }
  }

  // ----- Replacing a subtree -----------------------------------------------------------------------------

  /** The cell that holds the pointer at the end of the path. */
  function Parent<K, V>(t: Tree<K, V>, path: seq<nat>): Ptr
    requires IsPath(t, path) && path != []
    decreases |path|
  {
    if |path| == 1 then t.p else Parent(Kid(t, path[0]), path[1..])
  }

  lemma {:induction false} ParentIsAbove<K, V>(t: Tree<K, V>, path: seq<nat>)
    requires IsPath(t, path) && path != [] && Tidy(t)
    ensures Parent(t, path) in Ptrs(t) && Parent(t, path) !in Ptrs(SubAt(t, path)) && Ptrs(SubAt(t, path)) <= Ptrs(t)
    decreases |path|
  {
    KidPtrs(t, path[0]);
    if |path| > 1 {
      ParentIsAbove(Kid(t, path[0]), path[1..]);
    }
  }

  lemma {:induction false} SubPtrs<K, V>(t: Tree<K, V>, path: seq<nat>)
    requires IsPath(t, path)
    ensures Ptrs(SubAt(t, path)) <= Ptrs(t)
    decreases |path|
  {
    if path != [] {
      KidPtrs(t, path[0]);
      SubPtrs(Kid(t, path[0]), path[1..]);
    }
  }

  lemma {:induction false} Extend<K, V>(t: Tree<K, V>, path: seq<nat>, i: nat)
    requires IsPath(t, path) && HasKid(SubAt(t, path), i)
    ensures IsPath(t, path + [i]) && SubAt(t, path + [i]) == Kid(SubAt(t, path), i)
    ensures Parent(t, path + [i]) == SubAt(t, path).p
    decreases |path|
  {
    if path != [] {
      Extend(Kid(t, path[0]), path[1..], i);
      assert (path + [i])[1..] == path[1..] + [i];
    }
  }

  lemma {:induction false} SubIsStored<K, V>(cells: Cells<K, V>, t: Tree<K, V>, path: seq<nat>)
    requires IsPath(t, path) && Stored(cells, t) && Tidy(t)
    ensures Stored(cells, SubAt(t, path)) && Tidy(SubAt(t, path))
    ensures path != [] ==> Parent(t, path) in cells && HasSlot(cells[Parent(t, path)], path[|path| - 1])
    ensures path != [] ==> SlotOf(cells[Parent(t, path)], path[|path| - 1]) == PtrOf(SubAt(t, path))
    decreases |path|
  {
    if path != [] {
      SubIsStored(cells, Kid(t, path[0]), path[1..]);
    }
  }

  predicate HasSlot<K, V>(c: Cell<K, V>, i: int) {
    if c.LeafCell? then i == 0 else 0 <= i < |c.slots|
  }

  function SlotOf<K, V>(c: Cell<K, V>, i: int): Ptr
    requires HasSlot(c, i)
  {
    if c.LeafCell? then c.next else c.slots[i]
  }

  lemma {:induction false} ReplacedIsThere<K, V>(t: Tree<K, V>, path: seq<nat>, s: Tree<K, V>)
    requires IsPath(t, path)
    ensures IsPath(Replace(t, path, s), path) && SubAt(Replace(t, path, s), path) == s
    ensures path != [] ==> Parent(Replace(t, path, s), path) == Parent(t, path)
    decreases |path|
  {
    if path != [] {
      ReplacedIsThere(Kid(t, path[0]), path[1..], s);
    }
  }

  lemma WithKidPtrs<K, V>(t: Tree<K, V>, i: int, s: Tree<K, V>)
    requires HasKid(t, i) && Tidy(t) && Tidy(s) && Ptrs(s) !! (Ptrs(t) - Ptrs(Kid(t, i)))
    ensures Tidy(WithKid(t, i, s)) && Ptrs(WithKid(t, i, s)) == (Ptrs(t) - Ptrs(Kid(t, i))) + Ptrs(s)
  {
    var r := WithKid(t, i, s);
    forall j | HasKid(t, j)
      ensures HasKid(r, j) && Kid(r, j) == if j == i then s else Kid(t, j)
      ensures Ptrs(Kid(t, j)) <= Ptrs(t) && (j != i ==> Ptrs(Kid(t, i)) !! Ptrs(Kid(t, j)))
    {
      KidPtrs(t, j);
    }
    forall x
      ensures x in Ptrs(r) <==> x in (Ptrs(t) - Ptrs(Kid(t, i))) + Ptrs(s)
    {
      if x in Ptrs(r) && x != r.p { PtrsAreKids(r, x); }
      if x in Ptrs(t) && x != t.p {
        PtrsAreKids(t, x);
        var j :| HasKid(t, j) && x in Ptrs(Kid(t, j));
        if j != i { KidPtrs(r, j); }
      }
      KidPtrs(r, i);
    }
  }

  lemma {:induction false} ReplacePtrs<K, V>(t: Tree<K, V>, path: seq<nat>, s: Tree<K, V>)
    requires IsPath(t, path) && Tidy(t) && Tidy(s) && Ptrs(s) !! (Ptrs(t) - Ptrs(SubAt(t, path)))
    ensures Tidy(Replace(t, path, s))
    ensures Ptrs(Replace(t, path, s)) == (Ptrs(t) - Ptrs(SubAt(t, path))) + Ptrs(s)
    decreases |path|
  {
    if path != [] {
      var kid := Kid(t, path[0]);
      SubPtrs(kid, path[1..]);
      KidPtrs(t, path[0]);
      ReplacePtrs(kid, path[1..], s);
      WithKidPtrs(t, path[0], Replace(kid, path[1..], s));
    }
  }

  ghost predicate SlotWritten<K, V>(cells: Cells<K, V>, after: Cells<K, V>, p: Ptr, i: int, q: Ptr) {
    p in cells && p in after && HasSlot(cells[p], i) && after[p] == CellWithKid(cells[p], i, q)
  }

  /** Writing the pointer at the end of the path, once the new subtree is stored, stores the new tree. */
  /** What a path leads to is not below another child, and neither is the cell above it. */
  lemma OtherKidApart<K, V>(t: Tree<K, V>, path: seq<nat>, j: int)
    requires path != [] && IsPath(t, path) && HasKid(t, j) && j != path[0] && Tidy(t)
    ensures Ptrs(Kid(t, j)) <= Ptrs(t) - Ptrs(SubAt(t, path)) && Parent(t, path) !in Ptrs(Kid(t, j))
  {
    var i := path[0];
    KidPtrs(t, j);
    SubPtrs(Kid(t, i), path[1..]);
    assert Ptrs(Kid(t, i)) !! Ptrs(Kid(t, j)) && t.p !in Ptrs(Kid(t, j));
    if |path| > 1 {
      ParentIsAbove(Kid(t, i), path[1..]);
    }
  }

  lemma {:induction false} ReplaceStored<K, V>(cells: Cells<K, V>, after: Cells<K, V>, t: Tree<K, V>, path: seq<nat>, s: Tree<K, V>)
    requires IsPath(t, path) && Stored(cells, t) && Tidy(t) && Stored(after, s)
    requires forall x :: x in Ptrs(t) - Ptrs(SubAt(t, path)) ==> x in after && x in cells
    requires forall x :: x in Ptrs(t) - Ptrs(SubAt(t, path)) && (path == [] || x != Parent(t, path)) ==> after[x] == cells[x]
    requires path != [] ==> SlotWritten(cells, after, Parent(t, path), path[|path| - 1], PtrOf(s))
    ensures Stored(after, Replace(t, path, s))
    decreases |path|
  {
    if path != [] {
      var i := path[0];
      var r := Replace(t, path, s);
      KidPtrs(t, i);
      ParentIsAbove(t, path);
      if |path| > 1 { ParentIsAbove(Kid(t, i), path[1..]); }
      ReplaceStored(cells, after, Kid(t, i), path[1..], s);
      forall j | HasKid(r, j)
        ensures Stored(after, Kid(r, j))
      {
        if j != i {
          OtherKidApart(t, path, j);
          StoredFrame(cells, after, Kid(t, j));
        }
      }
    }
  }

  // ----- Hashes and look-up ------------------------------------------------------------------------------

  const ARITY: nat := 32

  /** What is left of a hash below `d` nodes. */
  function Rest(h: nat, d: nat): nat {
    if d == 0 then h else Rest(h, d - 1) / ARITY
  }

  ghost function Keys<K, V>(t: Tree<K, V>): set<K> {
    match t
    case Null => {}
    case Leaf(_, _, key, _, next) => {key} + Keys(next)
    case Node(_, _, _, kids) => set i, x | 0 <= i < |kids| && x in Keys(kids[i]) :: x
  }

  /** The child that a key with remaining hash `h` goes to. */
  predicate HasWay<K, V>(t: Tree<K, V>, h: nat) {
    t.Node? && Bit(t.bitmap, h % ARITY) && Position(t.bitmap, h % ARITY) < |t.kids|
  }

  function Way<K, V>(t: Tree<K, V>, h: nat): (i: nat)
    requires HasWay(t, h)
    ensures HasKid(t, i)
  {
    Position(t.bitmap, h % ARITY)
  }

  /** `find`: look up key `k`, whose hash is `h` from here on. */
  function Get<K(==), V>(t: Tree<K, V>, h: nat, k: K): Option<V> {
    match t
    case Null => None
    case Leaf(_, _, key, val, next) => if k == key then Some(val) else Get(next, h, k)
    case Node(_, _, bitmap, kids) => if HasWay(t, h) then Get(kids[Way(t, h)], h / ARITY, k) else None
  }

  /**
   * A well-formed tree below `d` nodes: no generation is above `g`, nor above that of the cell above; the
   * children of a node are those of its set bits, and hold keys that are sent there; the keys of a chain are
   * distinct and have the same hash.
   */
  ghost predicate Good<K(!new), V>(hash: K -> nat, t: Tree<K, V>, d: nat, g: nat) {
    match t
    case Null => true
    case Leaf(_, gen, key, _, next) =>
      && gen <= g && !next.Node? && key !in Keys(next) && Good(hash, next, d, gen)
      && forall x :: x in Keys(next) ==> Rest(hash(x), d) == Rest(hash(key), d)
    case Node(_, gen, bitmap, kids) =>
      && gen <= g && |kids| == Popcount(bitmap) && (forall i: nat :: Bit(bitmap, i) ==> i < ARITY)
      && (forall i :: 0 <= i < |kids| ==> Good(hash, kids[i], d + 1, gen))
      && forall i, x :: 0 <= i < |kids| && x in Keys(kids[i]) ==> Rest(hash(x), d) % ARITY == IndexOf(bitmap, i)
  }

  function DepthBelow<K, V>(t: Tree<K, V>): nat {
    if t.Node? then 1 else 0
  }

  /** The number of nodes above the end of the path. */
  function DepthAt<K, V>(t: Tree<K, V>, path: seq<nat>): nat
    requires IsPath(t, path)
    decreases |path|
  {
    if path == [] then 0 else DepthBelow(t) + DepthAt(Kid(t, path[0]), path[1..])
  }

  predicate ThroughLeaf<K, V>(t: Tree<K, V>, path: seq<nat>)
    requires IsPath(t, path)
    decreases |path|
  {
    path != [] && (t.Leaf? || ThroughLeaf(Kid(t, path[0]), path[1..]))
  }

  /** All cells above the end of the path are of generation `g`, and searching for `k` leads there. */
  ghost predicate OnPath<K, V>(hash: K -> nat, t: Tree<K, V>, path: seq<nat>, d: nat, g: nat, k: K)
    requires IsPath(t, path)
    decreases |path|
  {
    path != [] ==>
      && t.gen == g
      && (t.Leaf? ==> t.key != k && Rest(hash(t.key), d) == Rest(hash(k), d))
      && (t.Node? ==> HasWay(t, Rest(hash(k), d)) && path[0] == Way(t, Rest(hash(k), d)))
      && OnPath(hash, Kid(t, path[0]), path[1..], d + DepthBelow(t), g, k)
  }

  /** Looking up a key is the same as having it. */
  lemma {:induction false} GetIsHas<K(!new), V>(hash: K -> nat, t: Tree<K, V>, d: nat, g: nat, k: K)
    requires Good(hash, t, d, g)
    ensures Get(t, Rest(hash(k), d), k).Some? <==> k in Keys(t)
  {
    match t
    case Null =>
    case Leaf(_, gen, key, _, next) => GetIsHas(hash, next, d, gen, k);
    case Node(_, gen, bitmap, kids) =>
      var h := Rest(hash(k), d);
      if HasWay(t, h) {
        GetIsHas(hash, kids[Way(t, h)], d + 1, gen, k);
      }
      if i :| 0 <= i < |kids| && k in Keys(kids[i]) {
        IndexOfPosition(bitmap, IndexOf(bitmap, i));
        assert HasWay(t, h) && Way(t, h) == i;
      }
  }

  lemma {:induction false} GoodBelow<K(!new), V>(hash: K -> nat, t: Tree<K, V>, d: nat, g: nat, h: nat)
    requires Good(hash, t, d, g) && g <= h
    ensures Good(hash, t, d, h)
  {
  }

  lemma {:induction false} SubIsGood<K(!new), V>(hash: K -> nat, t: Tree<K, V>, path: seq<nat>, d: nat, g: nat, k: K)
    requires IsPath(t, path) && Good(hash, t, d, g) && OnPath(hash, t, path, d, g, k)
    ensures Good(hash, SubAt(t, path), d + DepthAt(t, path), g)
    ensures ThroughLeaf(t, path) ==> !SubAt(t, path).Node?
    ensures ThroughLeaf(t, path) ==>
      forall x :: x in Keys(SubAt(t, path)) ==> Rest(hash(x), d + DepthAt(t, path)) == Rest(hash(k), d + DepthAt(t, path))
    decreases |path|
  {
    if path != [] {
      SubIsGood(hash, Kid(t, path[0]), path[1..], d + DepthBelow(t), g, k);
      if t.Leaf? {
        LeafPath(hash, t, path, d, g);
      }
    }
  }

  /** In a chain a path stays in the chain. */
  lemma {:induction false} LeafPath<K(!new), V>(hash: K -> nat, t: Tree<K, V>, path: seq<nat>, d: nat, g: nat)
    requires IsPath(t, path) && !t.Node? && Good(hash, t, d, g)
    ensures !SubAt(t, path).Node? && DepthAt(t, path) == 0 && Keys(SubAt(t, path)) <= Keys(t)
    decreases |path|
  {
    if path != [] {
      LeafPath(hash, Kid(t, path[0]), path[1..], d, t.gen);
    }
  }

  lemma WithKidKeys<K, V>(t: Tree<K, V>, i: int, s: Tree<K, V>, k: K)
    requires HasKid(t, i) && Keys(s) <= Keys(Kid(t, i)) + {k}
    ensures Keys(WithKid(t, i, s)) <= Keys(t) + {k}
  {
  }

  lemma {:induction false} WithKidGood<K(!new), V>(hash: K -> nat, t: Tree<K, V>, i: int, r: Tree<K, V>, d: nat, g: nat, k: K)
    requires HasKid(t, i) && Good(hash, t, d, g) && t.gen == g
    requires Good(hash, r, d + DepthBelow(t), g) && Keys(r) <= Keys(Kid(t, i)) + {k}
    requires t.Leaf? ==> !r.Node? && t.key != k && Rest(hash(t.key), d) == Rest(hash(k), d)
    requires t.Node? ==> HasWay(t, Rest(hash(k), d)) && i == Way(t, Rest(hash(k), d))
    ensures Good(hash, WithKid(t, i, r), d, g) && Keys(WithKid(t, i, r)) <= Keys(t) + {k}
  {
    WithKidKeys(t, i, r, k);
    if t.Node? {
      IndexOfPosition(t.bitmap, Rest(hash(k), d) % ARITY);
    }
  }

  lemma {:induction false} ReplaceGood<K(!new), V>(hash: K -> nat, t: Tree<K, V>, path: seq<nat>, s: Tree<K, V>, d: nat, g: nat, k: K)
    requires IsPath(t, path) && Good(hash, t, d, g) && OnPath(hash, t, path, d, g, k)
    requires Good(hash, s, d + DepthAt(t, path), g) && Keys(s) <= Keys(SubAt(t, path)) + {k}
    requires ThroughLeaf(t, path) ==> !s.Node?
    ensures Good(hash, Replace(t, path, s), d, g) && Keys(Replace(t, path, s)) <= Keys(t) + {k}
    ensures !t.Node? && !s.Node? ==> !Replace(t, path, s).Node?
    decreases |path|
  {
    if path != [] {
      var i := path[0];
      var kid := Kid(t, i);
      var r := Replace(kid, path[1..], s);
      GoodBelow(hash, kid, d + DepthBelow(t), t.gen, g);
      ReplaceGood(hash, kid, path[1..], s, d + DepthBelow(t), g, k);
      WithKidGood(hash, t, i, r, d, g, k);
    }
  }

  lemma {:induction false} ReplaceKeepsPath<K(!new), V>(hash: K -> nat, t: Tree<K, V>, path: seq<nat>, s: Tree<K, V>, d: nat, g: nat, k: K)
    requires IsPath(t, path) && OnPath(hash, t, path, d, g, k)
    ensures IsPath(Replace(t, path, s), path) && OnPath(hash, Replace(t, path, s), path, d, g, k)
    ensures DepthAt(Replace(t, path, s), path) == DepthAt(t, path)
    ensures ThroughLeaf(Replace(t, path, s), path) == ThroughLeaf(t, path)
    decreases |path|
  {
    ReplacedIsThere(t, path, s);
    if path != [] {
      ReplaceKeepsPath(hash, Kid(t, path[0]), path[1..], s, d + DepthBelow(t), g, k);
    }
  }

  lemma WithKidGet<K(!new), V>(hash: K -> nat, t: Tree<K, V>, i: int, r: Tree<K, V>, d: nat, k: K, x: K, v: Option<V>)
    requires HasKid(t, i) && (t.Leaf? ==> t.key != k)
    requires t.Node? ==> HasWay(t, Rest(hash(k), d)) && i == Way(t, Rest(hash(k), d))
    requires var h := Rest(hash(x), d + DepthBelow(t)); Get(r, h, x) == if x == k then v else Get(Kid(t, i), h, x)
    ensures var h := Rest(hash(x), d); Get(WithKid(t, i, r), h, x) == if x == k then v else Get(t, h, x)
  {
  }

  /** What look-up finds below the end of the path decides what it finds in the whole tree. */
  lemma {:induction false} ReplaceGet<K(!new), V>(hash: K -> nat, t: Tree<K, V>, path: seq<nat>, s: Tree<K, V>, d: nat, g: nat, k: K, x: K, v: Option<V>)
    requires IsPath(t, path) && OnPath(hash, t, path, d, g, k)
    requires var h := Rest(hash(x), d + DepthAt(t, path)); Get(s, h, x) == if x == k then v else Get(SubAt(t, path), h, x)
    ensures var h := Rest(hash(x), d); Get(Replace(t, path, s), h, x) == if x == k then v else Get(t, h, x)
    decreases |path|
  {
    if path != [] {
      var kid := Kid(t, path[0]);
      ReplaceGet(hash, kid, path[1..], s, d + DepthBelow(t), g, k, x, v);
      WithKidGet(hash, t, path[0], Replace(kid, path[1..], s), d, k, x, v);
    }
  }

  lemma {:induction false} ExtendPath<K(!new), V>(hash: K -> nat, t: Tree<K, V>, path: seq<nat>, i: nat, d: nat, g: nat, k: K)
    requires IsPath(t, path) && OnPath(hash, t, path, d, g, k) && HasKid(SubAt(t, path), i)
    requires OnPath(hash, SubAt(t, path), [i], d + DepthAt(t, path), g, k)
    ensures IsPath(t, path + [i]) && OnPath(hash, t, path + [i], d, g, k)
    ensures DepthAt(t, path + [i]) == DepthAt(t, path) + DepthBelow(SubAt(t, path))
    ensures ThroughLeaf(t, path + [i]) == (ThroughLeaf(t, path) || SubAt(t, path).Leaf?)
    decreases |path|
  {
    Extend(t, path, i);
    if path != [] {
      ExtendPath(hash, Kid(t, path[0]), path[1..], i, d + DepthBelow(t), g, k);
      assert (path + [i])[1..] == path[1..] + [i];
    }
  }

  // ----- Empty slots -------------------------------------------------------------------------------------

  /** No node has an empty slot. */
  ghost predicate Full<K, V>(t: Tree<K, V>) {
    t.Node? ==> forall i :: 0 <= i < |t.kids| ==> !t.kids[i].Null? && Full(t.kids[i])
  }

  /** No node has an empty slot, but perhaps at place `i` or below. */
  ghost predicate FullSiblings<K, V>(t: Tree<K, V>, i: int) {
    t.Node? ==> forall j :: 0 <= j < |t.kids| && j != i ==> !t.kids[j].Null? && Full(t.kids[j])
  }

  /** All empty slots are at the end of the path or below. */
  ghost predicate FullBut<K, V>(t: Tree<K, V>, path: seq<nat>)
    requires IsPath(t, path)
    decreases |path|
  {
    path != [] ==> FullSiblings(t, path[0]) && FullBut(Kid(t, path[0]), path[1..])
  }

  lemma {:induction false} ReplaceKeepsFull<K, V>(t: Tree<K, V>, path: seq<nat>, s: Tree<K, V>)
    requires IsPath(t, path) && FullBut(t, path)
    ensures IsPath(Replace(t, path, s), path) && FullBut(Replace(t, path, s), path)
    decreases |path|
  {
    ReplacedIsThere(t, path, s);
    if path != [] {
      ReplaceKeepsFull(Kid(t, path[0]), path[1..], s);
    }
  }

  lemma {:induction false} ExtendFull<K, V>(t: Tree<K, V>, path: seq<nat>, i: nat)
    requires IsPath(t, path) && FullBut(t, path) && HasKid(SubAt(t, path), i) && FullSiblings(SubAt(t, path), i)
    ensures IsPath(t, path + [i]) && FullBut(t, path + [i])
    decreases |path|
  {
    Extend(t, path, i);
    if path != [] {
      ExtendFull(Kid(t, path[0]), path[1..], i);
      assert (path + [i])[1..] == path[1..] + [i];
    }
  }

  lemma {:induction false} Filled<K, V>(t: Tree<K, V>, path: seq<nat>)
    requires IsPath(t, path) && FullBut(t, path) && SubAt(t, path).Leaf?
    ensures Full(t) && !t.Null?
    decreases |path|
  {
    if path != [] {
      Filled(Kid(t, path[0]), path[1..]);
    }
  }

  // ----- No needless nodes -------------------------------------------------------------------------------

  ghost predicate TwoHashes<K(!new)>(hash: K -> nat, keys: set<K>) {
    exists x, y :: x in keys && y in keys && hash(x) != hash(y)
  }

  /** Every node is there to tell two hashes apart. */
  ghost predicate Sharp<K(!new), V>(hash: K -> nat, t: Tree<K, V>) {
    t.Node? ==> TwoHashes(hash, Keys(t)) && forall i :: 0 <= i < |t.kids| ==> Sharp(hash, t.kids[i])
  }

  /** So is this one, if `k` counts as one of its keys, and so are those below. */
  ghost predicate SharpTop<K(!new), V>(hash: K -> nat, t: Tree<K, V>, k: K) {
    t.Node? ==> TwoHashes(hash, Keys(t) + {k}) && forall i :: 0 <= i < |t.kids| ==> Sharp(hash, t.kids[i])
  }

  ghost predicate SharpSiblings<K(!new), V>(hash: K -> nat, t: Tree<K, V>, i: int, k: K) {
    t.Node? ==> TwoHashes(hash, Keys(t) + {k}) && forall j :: 0 <= j < |t.kids| && j != i ==> Sharp(hash, t.kids[j])
  }

  /** All nodes are, if `k` counts as a key of those on the path. */
  ghost predicate SharpBut<K(!new), V>(hash: K -> nat, t: Tree<K, V>, path: seq<nat>, k: K)
    requires IsPath(t, path)
    decreases |path|
  {
    if path == [] then SharpTop(hash, t, k)
    else SharpSiblings(hash, t, path[0], k) && SharpBut(hash, Kid(t, path[0]), path[1..], k)
  }

  lemma MoreHashes<K(!new)>(hash: K -> nat, keys: set<K>, more: set<K>)
    requires TwoHashes(hash, keys) && keys <= more
    ensures TwoHashes(hash, more)
  {
  }

  lemma SharpIsTop<K(!new), V>(hash: K -> nat, t: Tree<K, V>, k: K)
    requires Sharp(hash, t)
    ensures SharpTop(hash, t, k)
  {
    if t.Node? { MoreHashes(hash, Keys(t), Keys(t) + {k}); }
  }

  lemma {:induction false} SharpAtEnd<K(!new), V>(hash: K -> nat, t: Tree<K, V>, path: seq<nat>, k: K)
    requires IsPath(t, path) && SharpBut(hash, t, path, k)
    ensures SharpTop(hash, SubAt(t, path), k)
    decreases |path|
  {
    if path != [] {
      SharpAtEnd(hash, Kid(t, path[0]), path[1..], k);
    }
  }

  lemma KidKeys<K, V>(t: Tree<K, V>, i: int, s: Tree<K, V>, k: K)
    requires HasKid(t, i) && Keys(Kid(t, i)) <= Keys(s) + {k}
    ensures Keys(t) <= Keys(WithKid(t, i, s)) + {k}
  {
    var r := WithKid(t, i, s);
    if t.Node? {
      forall j, x | 0 <= j < |t.kids| && x in Keys(t.kids[j])
        ensures x in Keys(r) + {k}
      {
        assert r.kids[j] == if j == i then s else t.kids[j];
      }
    }
  }

  lemma {:induction false} ReplaceKeepsSharp<K(!new), V>(hash: K -> nat, t: Tree<K, V>, path: seq<nat>, s: Tree<K, V>, k: K)
    requires IsPath(t, path) && SharpBut(hash, t, path, k) && SharpTop(hash, s, k) && Keys(SubAt(t, path)) <= Keys(s) + {k}
    ensures IsPath(Replace(t, path, s), path) && SharpBut(hash, Replace(t, path, s), path, k)
    ensures Keys(t) <= Keys(Replace(t, path, s)) + {k}
    decreases |path|
  {
    ReplacedIsThere(t, path, s);
    if path != [] {
      var r := Replace(Kid(t, path[0]), path[1..], s);
      ReplaceKeepsSharp(hash, Kid(t, path[0]), path[1..], s, k);
      KidKeys(t, path[0], r, k);
      if t.Node? {
        MoreHashes(hash, Keys(t) + {k}, Keys(WithKid(t, path[0], r)) + {k});
      }
    }
  }

  lemma {:induction false} ExtendSharp<K(!new), V>(hash: K -> nat, t: Tree<K, V>, path: seq<nat>, i: nat, k: K)
    requires IsPath(t, path) && SharpBut(hash, t, path, k) && HasKid(SubAt(t, path), i)
    requires SubAt(t, path).Leaf? ==> !SubAt(t, path).next.Node?
    ensures IsPath(t, path + [i]) && SharpBut(hash, t, path + [i], k)
    decreases |path|
  {
    Extend(t, path, i);
    if path != [] {
      ExtendSharp(hash, Kid(t, path[0]), path[1..], i, k);
      assert (path + [i])[1..] == path[1..] + [i];
    } else if t.Node? {
      SharpIsTop(hash, t.kids[i], k);
      assert SharpBut(hash, Kid(t, i), [i][1..], k);
    }
  }

  /** Once `k` is there, every node has its two hashes. */
  lemma {:induction false} SharpFilled<K(!new), V>(hash: K -> nat, t: Tree<K, V>, path: seq<nat>, k: K)
    requires IsPath(t, path) && SharpBut(hash, t, path, k) && k in Keys(SubAt(t, path))
    ensures Sharp(hash, t) && k in Keys(t)
    decreases |path|
  {
    if path != [] {
      SharpFilled(hash, Kid(t, path[0]), path[1..], k);
      if t.Leaf? {
        assert Kid(t, path[0]) == t.next;
      } else {
        assert Kid(t, path[0]) == t.kids[path[0]];
      }
    }
    assert t.Node? ==> Keys(t) + {k} == Keys(t);
  }

  // ----- The state of a search -----------------------------------------------------------------------------

  ghost predicate Sound<K(!new), V>(hash: K -> nat, cells: Cells<K, V>, t: Tree<K, V>, g: nat) {
    Stored(cells, t) && Tidy(t) && Good(hash, t, 0, g)
  }

  ghost predicate Reached<K(!new), V>(hash: K -> nat, t: Tree<K, V>, path: seq<nat>, g: nat, k: K) {
    IsPath(t, path) && OnPath(hash, t, path, 0, g, k)
  }

  /** Look-up finds the same in both trees, except that it finds `v` for `k`. */
  ghost predicate SameBut<K(!new), V>(hash: K -> nat, t: Tree<K, V>, r: Tree<K, V>, k: K, v: Option<V>) {
    forall x :: Get(r, hash(x), x) == if x == k then v else Get(t, hash(x), x)
  }

  ghost predicate SameButBelow<K(!new), V>(hash: K -> nat, h: Tree<K, V>, s: Tree<K, V>, d: nat, k: K, v: Option<V>) {
    forall x :: Get(s, Rest(hash(x), d), x) == if x == k then v else Get(h, Rest(hash(x), d), x)
  }

  lemma PutGet<K(!new), V>(hash: K -> nat, t: Tree<K, V>, path: seq<nat>, s: Tree<K, V>, g: nat, k: K, v: Option<V>)
    requires Reached(hash, t, path, g, k) && SameButBelow(hash, SubAt(t, path), s, DepthAt(t, path), k, v)
    ensures SameBut(hash, t, Replace(t, path, s), k, v)
  {
    var d := DepthAt(t, path);
    forall x
      ensures Get(Replace(t, path, s), hash(x), x) == if x == k then v else Get(t, hash(x), x)
    {
      assert Get(s, Rest(hash(x), d), x) == if x == k then v else Get(SubAt(t, path), Rest(hash(x), d), x);
      ReplaceGet(hash, t, path, s, 0, g, k, x, v);
    }
  }

  /** The cells above the end of the path are as they were, but for the pointer at the end of the path. */
  ghost predicate SlotUpdated<K, V>(cells: Cells<K, V>, after: Cells<K, V>, t: Tree<K, V>, path: seq<nat>, q: Ptr)
    requires IsPath(t, path)
  {
    && (forall x :: x in Ptrs(t) - Ptrs(SubAt(t, path)) ==>
          x in cells && x in after && (path == [] || x != Parent(t, path) ==> after[x] == cells[x]))
    && (path != [] ==> SlotWritten(cells, after, Parent(t, path), path[|path| - 1], q))
  }

  lemma PutSound<K(!new), V>(hash: K -> nat, cells: Cells<K, V>, after: Cells<K, V>, t: Tree<K, V>, path: seq<nat>, s: Tree<K, V>,
                             g: nat, k: K)
    requires Sound(hash, cells, t, g) && Reached(hash, t, path, g, k) && SoundAt(hash, after, s, DepthAt(t, path), g)
    requires Keys(s) <= Keys(SubAt(t, path)) + {k} && (ThroughLeaf(t, path) ==> !s.Node?)
    requires Ptrs(s) !! (Ptrs(t) - Ptrs(SubAt(t, path))) && SlotUpdated(cells, after, t, path, PtrOf(s))
    ensures Sound(hash, after, Replace(t, path, s), g)
    ensures Ptrs(Replace(t, path, s)) == (Ptrs(t) - Ptrs(SubAt(t, path))) + Ptrs(s)
  {
    ReplaceStored(cells, after, t, path, s);
    ReplacePtrs(t, path, s);
    ReplaceGood(hash, t, path, s, 0, g, k);
  }

  ghost predicate SoundAt<K(!new), V>(hash: K -> nat, cells: Cells<K, V>, s: Tree<K, V>, d: nat, g: nat) {
    Stored(cells, s) && Tidy(s) && Good(hash, s, d, g)
  }

  /** Everything about putting `s` at the end of the path. */
  lemma Put<K(!new), V>(hash: K -> nat, cells: Cells<K, V>, after: Cells<K, V>, t: Tree<K, V>, path: seq<nat>, s: Tree<K, V>,
                        g: nat, k: K, v: Option<V>) returns (r: Tree<K, V>)
    requires Sound(hash, cells, t, g) && Reached(hash, t, path, g, k) && SoundAt(hash, after, s, DepthAt(t, path), g)
    requires Keys(s) <= Keys(SubAt(t, path)) + {k} && (ThroughLeaf(t, path) ==> !s.Node?)
    requires Ptrs(s) !! (Ptrs(t) - Ptrs(SubAt(t, path))) && SlotUpdated(cells, after, t, path, PtrOf(s))
    requires SameButBelow(hash, SubAt(t, path), s, DepthAt(t, path), k, v)
    ensures Sound(hash, after, r, g) && Reached(hash, r, path, g, k) && SubAt(r, path) == s
    ensures DepthAt(r, path) == DepthAt(t, path) && ThroughLeaf(r, path) == ThroughLeaf(t, path)
    ensures SameBut(hash, t, r, k, v) && Ptrs(r) == (Ptrs(t) - Ptrs(SubAt(t, path))) + Ptrs(s)
    ensures r == Replace(t, path, s)
    ensures if path == [] then r == s else Parent(r, path) == Parent(t, path) && PtrOf(r) == PtrOf(t)
  {
    r := Replace(t, path, s);
    PutSound(hash, cells, after, t, path, s, g, k);
    PutGet(hash, t, path, s, g, k, v);
    ReplaceKeepsPath(hash, t, path, s, 0, g, k);
    ReplacedIsThere(t, path, s);
  }
}
