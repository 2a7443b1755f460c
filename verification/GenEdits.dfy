/** The subtrees that `mut` of src/GenMap.h builds, and why each may take the place of the old one. */
module GenEdits {
  import opened Bitmaps
  import opened GenTrees
  import opened Heaps
  import opened Options

  /** `s` may be put in place of `h`, when only the value of `k` may change, to `v`. */
  ghost predicate Fits<K(!new), V>(hash: K -> nat, cells: Cells<K, V>, h: Tree<K, V>, s: Tree<K, V>, d: nat, g: nat, k: K, v: Option<V>) {
    && SoundAt(hash, cells, s, d, g) && Keys(s) <= Keys(h) + {k} && Keys(h) <= Keys(s) && (SharpTop(hash, h, k) ==> SharpTop(hash, s, k))
    && SameButBelow(hash, h, s, d, k, v)
  }

  function Found<K(==), V>(hash: K -> nat, t: Tree<K, V>, d: nat, k: K): Option<V> {
    Get(t, Rest(hash(k), d), k)
  }

  lemma {:induction false} ChainGet<K, V>(t: Tree<K, V>, h: nat, i: nat, k: K)
    requires !t.Node? && (t.Leaf? ==> IsChain(t))
    ensures Get(t, h, k) == Get(t, i, k)
  {
    if t.Leaf? {
      ChainGet(t.next, h, i, k);
    }
  }

  predicate IsChain<K, V>(t: Tree<K, V>) {
    !t.Node? && (t.Leaf? ==> IsChain(t.next))
  }

  lemma {:induction false} GoodChain<K(!new), V>(hash: K -> nat, t: Tree<K, V>, d: nat, g: nat)
    requires Good(hash, t, d, g) && !t.Node?
    ensures IsChain(t) && Good(hash, t, d + 1, g)
  {
    if t.Leaf? {
      GoodChain(hash, t.next, d, t.gen);
    }
  }

  // ----- Making a cell one's own -------------------------------------------------------------------------

  /** `uncow_node` and `uncow_leaf`. */
  function Copied<K, V>(t: Tree<K, V>, q: Ptr, g: nat): Tree<K, V>
    requires !t.Null?
  {
    t.(p := q, gen := g)
  }

  lemma CopiedKids<K, V>(t: Tree<K, V>, q: Ptr, g: nat)
    requires !t.Null?
    ensures forall i :: HasKid(Copied(t, q, g), i) <==> HasKid(t, i)
    ensures forall i :: HasKid(t, i) ==> Kid(Copied(t, q, g), i) == Kid(t, i)
    ensures Ptrs(t) == {t.p} + (Ptrs(t) - {t.p}) && Ptrs(Copied(t, q, g)) <= Ptrs(t) + {q}
    ensures Keys(Copied(t, q, g)) == Keys(t)
  {
  }

  lemma CopiedStored<K, V>(cells: Cells<K, V>, t: Tree<K, V>, q: Ptr, g: nat)
    requires !t.Null? && Stored(cells, t) && Tidy(t) && q != 0 && q !in cells
    ensures var s := Copied(t, q, g); Stored(cells[q := CellOf(s)], s) && Tidy(s) && Ptrs(s) == Ptrs(t) - {t.p} + {q}
  {
    var s := Copied(t, q, g);
    CopiedKids(t, q, g);
    PtrsAreStored(cells, t);
    forall i | HasKid(s, i)
      ensures Stored(cells[q := CellOf(s)], Kid(s, i)) && q !in Ptrs(Kid(s, i)) && t.p !in Ptrs(Kid(s, i))
    {
      KidPtrs(t, i);
      StoredFrame(cells, cells[q := CellOf(s)], Kid(t, i));
    }
    forall x | x in Ptrs(s)
      ensures x in Ptrs(t) - {t.p} + {q}
    {
      if x != q {
        PtrsAreKids(s, x);
      }
    }
    forall x | x in Ptrs(t) && x != t.p
      ensures x in Ptrs(s)
    {
      PtrsAreKids(t, x);
      var i :| HasKid(t, i) && x in Ptrs(Kid(t, i));
      KidPtrs(s, i);
    }
  }

  lemma CopiedGood<K(!new), V>(hash: K -> nat, t: Tree<K, V>, q: Ptr, d: nat, g: nat)
    requires !t.Null? && Good(hash, t, d, g)
    ensures Good(hash, Copied(t, q, g), d, g)
  {
    forall i | HasKid(t, i)
      ensures Good(hash, Kid(t, i), d + DepthBelow(t), g)
    {
      assert Good(hash, Kid(t, i), d + DepthBelow(t), t.gen);
      GoodBelow(hash, Kid(t, i), d + DepthBelow(t), t.gen, g);
    }
    if t.Leaf? {
      assert Kid(t, 0) == t.next;
    } else {
      forall i | 0 <= i < |t.kids|
        ensures Good(hash, t.kids[i], d + 1, g)
      {
        assert Kid(t, i) == t.kids[i];
      }
    }
  }

  lemma CopiedFits<K(!new), V>(hash: K -> nat, cells: Cells<K, V>, t: Tree<K, V>, q: Ptr, d: nat, g: nat, k: K)
    requires !t.Null? && SoundAt(hash, cells, t, d, g) && q != 0 && q !in cells
    ensures var s := Copied(t, q, g); Fits(hash, cells[q := CellOf(s)], t, s, d, g, k, Found(hash, t, d, k))
  {
    CopiedStored(cells, t, q, g);
    CopiedKids(t, q, g);
    CopiedGood(hash, t, q, d, g);
  }

  // ----- Growing a node ----------------------------------------------------------------------------------

  /** A node with one more, still empty, slot. */
  function Grown<K, V>(t: Tree<K, V>, q: Ptr, g: nat, index: nat): Tree<K, V>
    requires t.Node? && Above(t.bitmap, index) <= |t.kids|
  {
    var p := Above(t.bitmap, index);
    Node(q, g, SetBit(t.bitmap, index), t.kids[..p] + [Null] + t.kids[p..])
  }

  /** Where the children of a node are after it has grown. */
  lemma GrownPositions(b: nat, index: nat)
    requires !Bit(b, index)
    ensures Popcount(SetBit(b, index)) == Popcount(b) + 1 && Above(b, index) <= Popcount(b)
    ensures Position(SetBit(b, index), index) == Above(b, index)
    ensures forall i: nat :: Bit(b, i) ==>
      Position(SetBit(b, index), i) == Position(b, i) + if Position(b, i) < Above(b, index) then 0 else 1
    ensures forall i :: 0 <= i < Popcount(b) ==>
      IndexOf(SetBit(b, index), if i < Above(b, index) then i else i + 1) == IndexOf(b, i)
    ensures IndexOf(SetBit(b, index), Above(b, index)) == index
  {
    var c := SetBit(b, index);
    AboveShrinks(b, 0, index);
    assert Above(c, 0) == Above(b, 0) + 1;
    assert Bit(c, index);
    forall i: nat | Bit(b, i)
      ensures Bit(c, i) && Position(c, i) == Position(b, i) + if Position(b, i) < Above(b, index) then 0 else 1
    {
      AboveStep(b, i);
      if i < index { AboveShrinks(b, i + 1, index); } else { AboveShrinks(b, index, i); }
    }
    forall i | 0 <= i < Popcount(b)
      ensures var j := if i < Above(b, index) then i else i + 1; j < Popcount(c) && IndexOf(c, j) == IndexOf(b, i)
    {
      IndexOfPosition(c, IndexOf(b, i));
    }
    IndexOfPosition(c, index);
  }

  function Moved(i: int, p: int): int {
    if i < p then i else i + 1
  }

  function Before(i: int, p: int): int {
    if i < p then i else i - 1
  }

  lemma GrownKids<K, V>(t: Tree<K, V>, q: Ptr, g: nat, index: nat)
    requires t.Node? && Above(t.bitmap, index) <= |t.kids|
    ensures var s, p := Grown(t, q, g, index), Above(t.bitmap, index);
      && HasKid(s, p) && Kid(s, p) == Null
      && (forall i {:trigger Kid(t, i)} :: HasKid(t, i) ==> HasKid(s, Moved(i, p)) && Kid(s, Moved(i, p)) == Kid(t, i))
      && (forall i {:trigger Kid(s, i)} :: HasKid(s, i) && i != p ==> HasKid(t, Before(i, p)) && Kid(s, i) == Kid(t, Before(i, p)))
  {
    var s, p := Grown(t, q, g, index), Above(t.bitmap, index);
    forall i | HasKid(t, i)
      ensures HasKid(s, Moved(i, p)) && Kid(s, Moved(i, p)) == Kid(t, i)
    {
      assert s.kids[Moved(i, p)] == t.kids[i];
    }
    forall i | HasKid(s, i) && i != p
      ensures HasKid(t, Before(i, p)) && Kid(s, i) == Kid(t, Before(i, p))
    {
      assert s.kids[i] == t.kids[Before(i, p)];
    }
  }

  lemma GrownPtrs<K, V>(t: Tree<K, V>, q: Ptr, g: nat, index: nat)
    requires t.Node? && Above(t.bitmap, index) <= |t.kids| && Tidy(t)
    ensures Ptrs(Grown(t, q, g, index)) == Ptrs(t) - {t.p} + {q}
  {
    var s, p := Grown(t, q, g, index), Above(t.bitmap, index);
    GrownKids(t, q, g, index);
    forall x
      ensures x in Ptrs(s) <==> x in Ptrs(t) - {t.p} + {q}
    {
      if x in Ptrs(s) && x != q {
        PtrsAreKids(s, x);
        var i :| HasKid(s, i) && x in Ptrs(Kid(s, i));
        KidPtrs(t, Before(i, p));
      }
      if x in Ptrs(t) && x != t.p {
        PtrsAreKids(t, x);
        var i :| HasKid(t, i) && x in Ptrs(Kid(t, i));
        KidPtrs(s, Moved(i, p));
      }
    }
  }

  lemma GrownTidy<K, V>(t: Tree<K, V>, q: Ptr, g: nat, index: nat)
    requires t.Node? && Above(t.bitmap, index) <= |t.kids| && Tidy(t) && (q == t.p || q !in Ptrs(t))
    ensures Tidy(Grown(t, q, g, index))
  {
    var s, p := Grown(t, q, g, index), Above(t.bitmap, index);
    GrownKids(t, q, g, index);
    forall i | HasKid(s, i)
      ensures Tidy(Kid(s, i)) && q !in Ptrs(Kid(s, i))
    {
      if i != p { KidPtrs(t, Before(i, p)); }
    }
    forall i, j | HasKid(s, i) && HasKid(s, j) && i != j
      ensures Ptrs(Kid(s, i)) !! Ptrs(Kid(s, j))
    {
      assert i != p ==> Kid(s, i) == Kid(t, Before(i, p));
      assert j != p ==> Kid(s, j) == Kid(t, Before(j, p));
    }
  }

  /** The cell of the grown node has been written, and nothing else below it. */
  ghost predicate GrownWritten<K, V>(cells: Cells<K, V>, after: Cells<K, V>, t: Tree<K, V>, q: Ptr, g: nat, index: nat)
    requires t.Node? && Above(t.bitmap, index) <= |t.kids|
  {
    && q != 0 && (q == t.p || q !in cells) && q in after && after[q] == CellOf(Grown(t, q, g, index))
    && forall x :: x in Ptrs(t) && x != t.p ==> x in after && x in cells && after[x] == cells[x]
  }

  lemma GrownStored<K, V>(cells: Cells<K, V>, after: Cells<K, V>, t: Tree<K, V>, q: Ptr, g: nat, index: nat)
    requires t.Node? && Stored(cells, t) && Tidy(t) && Above(t.bitmap, index) <= |t.kids|
    requires GrownWritten(cells, after, t, q, g, index)
    ensures Stored(after, Grown(t, q, g, index))
  {
    var s, p := Grown(t, q, g, index), Above(t.bitmap, index);
    GrownKids(t, q, g, index);
    forall i | HasKid(s, i)
      ensures Stored(after, Kid(s, i))
    {
      if i != p {
        var kid := Kid(t, Before(i, p));
        KidPtrs(t, Before(i, p));
        StoredFrame(cells, after, kid);
      }
    }
  }

  ghost predicate KidGood<K(!new), V>(hash: K -> nat, kid: Tree<K, V>, d: nat, g: nat, index: nat, keys: set<K>) {
    && Good(hash, kid, d + 1, g) && Keys(kid) <= keys
    && forall x :: x in Keys(kid) ==> Rest(hash(x), d) % ARITY == index
  }

  lemma GrownKidGood<K(!new), V>(hash: K -> nat, t: Tree<K, V>, q: Ptr, d: nat, g: nat, index: nat, i: int)
    requires t.Node? && Good(hash, t, d, g) && !Bit(t.bitmap, index)
    requires Above(t.bitmap, index) <= |t.kids| && 0 <= i <= |t.kids|
    ensures var s := Grown(t, q, g, index);
      |s.kids| == Popcount(s.bitmap) && KidGood(hash, s.kids[i], d, g, IndexOf(s.bitmap, i), Keys(t))
  {
    GrownPositions(t.bitmap, index);
    var s, p := Grown(t, q, g, index), Above(t.bitmap, index);
    if i != p {
      var j := Before(i, p);
      assert IndexOf(s.bitmap, i) == IndexOf(t.bitmap, j);
      assert s.kids[i] == t.kids[j];
      GoodBelow(hash, t.kids[j], d + 1, t.gen, g);
    } else {
      assert s.kids[i] == Null;
    }
  }

  lemma GrownGood<K(!new), V>(hash: K -> nat, t: Tree<K, V>, q: Ptr, d: nat, g: nat, index: nat)
    requires t.Node? && Good(hash, t, d, g) && !Bit(t.bitmap, index) && index < ARITY
    requires Above(t.bitmap, index) <= |t.kids|
    ensures Good(hash, Grown(t, q, g, index), d, g) && Keys(Grown(t, q, g, index)) == Keys(t)
    ensures forall k :: SharpTop(hash, t, k) ==> SharpTop(hash, Grown(t, q, g, index), k)
  {
    GrownPositions(t.bitmap, index);
    var s := Grown(t, q, g, index);
    forall i | 0 <= i < |s.kids|
      ensures KidGood(hash, s.kids[i], d, g, IndexOf(s.bitmap, i), Keys(t))
    {
      GrownKidGood(hash, t, q, d, g, index, i);
    }
    GrownIsSharp(hash, t, q, g, index);
  }

  lemma GrownIsSharp<K(!new), V>(hash: K -> nat, t: Tree<K, V>, q: Ptr, g: nat, index: nat)
    requires t.Node? && Above(t.bitmap, index) <= |t.kids|
    ensures Keys(Grown(t, q, g, index)) == Keys(t)
    ensures forall k :: SharpTop(hash, t, k) ==> SharpTop(hash, Grown(t, q, g, index), k)
  {
    var s, p := Grown(t, q, g, index), Above(t.bitmap, index);
    forall i | 0 <= i < |s.kids|
      ensures if i == p then s.kids[i] == Null else 0 <= Before(i, p) < |t.kids| && s.kids[i] == t.kids[Before(i, p)]
    {
    }
    forall x | x in Keys(t)
      ensures x in Keys(s)
    {
      var i :| 0 <= i < |t.kids| && x in Keys(t.kids[i]);
      assert s.kids[Moved(i, p)] == t.kids[i];
    }
  }

  lemma GrownWay<K, V>(t: Tree<K, V>, q: Ptr, g: nat, index: nat, h: nat)
    requires t.Node? && !Bit(t.bitmap, index) && |t.kids| == Popcount(t.bitmap)
    ensures Above(t.bitmap, index) <= |t.kids|
    ensures var s := Grown(t, q, g, index);
      && (HasWay(s, h) <==> HasWay(t, h) || h % ARITY == index)
      && (HasWay(s, h) ==> Kid(s, Way(s, h)) == if h % ARITY == index then Null else Kid(t, Way(t, h)))
  {
    GrownPositions(t.bitmap, index);
    var s, i := Grown(t, q, g, index), h % ARITY;
    assert Bit(s.bitmap, i) <==> Bit(t.bitmap, i) || i == index;
    if Bit(t.bitmap, i) {
      assert Position(s.bitmap, i) == Moved(Position(t.bitmap, i), Above(t.bitmap, index));
    }
  }

  lemma GrownGet<K(!new), V>(t: Tree<K, V>, q: Ptr, g: nat, index: nat, h: nat, x: K)
    requires t.Node? && !Bit(t.bitmap, index) && |t.kids| == Popcount(t.bitmap)
    ensures Above(t.bitmap, index) <= |t.kids|
    ensures Get(Grown(t, q, g, index), h, x) == Get(t, h, x)
  {
    GrownWay(t, q, g, index, h);
  }

  lemma GrownFits<K(!new), V>(hash: K -> nat, cells: Cells<K, V>, after: Cells<K, V>, t: Tree<K, V>, q: Ptr, d: nat, g: nat, index: nat, k: K)
    requires t.Node? && SoundAt(hash, cells, t, d, g) && !Bit(t.bitmap, index) && index < ARITY
    requires Above(t.bitmap, index) <= |t.kids| && GrownWritten(cells, after, t, q, g, index)
    ensures var s := Grown(t, q, g, index);
      Fits(hash, after, t, s, d, g, k, Found(hash, t, d, k)) && Ptrs(s) == Ptrs(t) - {t.p} + {q}
  {
    PtrsAreStored(cells, t);
    GrownStored(cells, after, t, q, g, index);
    GrownTidy(t, q, g, index);
    GrownPtrs(t, q, g, index);
    GrownGood(hash, t, q, d, g, index);
    forall x
      ensures Get(Grown(t, q, g, index), Rest(hash(x), d), x) == Get(t, Rest(hash(x), d), x)
    {
      GrownGet(t, q, g, index, Rest(hash(x), d), x);
    }
  }

  // ----- Splitting a chain -------------------------------------------------------------------------------

  lemma EmptyBitmap(i: nat)
    ensures Shr(0, i) == 0 && !Bit(0, i) && Above(0, i) == 0
  {
    if i > 0 { EmptyBitmap(i - 1); }
  }

  /** `(1 << i) | (1 << j)`. */
  function PairBitmap(i: nat, j: nat): (b: nat)
    ensures forall k: nat :: Bit(b, k) <==> k == i || k == j
  {
    EmptyBitmaps();
    SetBit(SetBit(0, i), j)
  }

  lemma EmptyBitmaps()
    ensures forall i: nat :: !Bit(0, i) && Above(0, i) == 0
  {
    forall i: nat
      ensures !Bit(0, i) && Above(0, i) == 0
    {
      EmptyBitmap(i);
    }
  }

  lemma PairPositions(i: nat, j: nat)
    ensures var b := PairBitmap(i, j);
      && Popcount(b) == (if i == j then 1 else 2)
      && Position(b, i) == (if i < j then 1 else 0) && Position(b, j) == (if j < i then 1 else 0)
      && IndexOf(b, Position(b, i)) == i && IndexOf(b, Position(b, j)) == j
  {
    EmptyBitmaps();
    var a, b := SetBit(0, i), PairBitmap(i, j);
    assert Above(0, 0) == 0 && Above(0, i) == 0 && Above(0, j) == 0;
    assert Above(a, 0) == 1 && Above(a, i) == 1 && Above(a, j) == if j <= i then 1 else 0;
    if i != j {
      assert !Bit(a, j);
      assert Above(b, 0) == 2 && Above(b, i) == (if i <= j then 2 else 1) && Above(b, j) == if j <= i then 2 else 1;
    } else {
      assert Bit(a, j);
    }
    IndexOfPosition(b, i);
    IndexOfPosition(b, j);
  }

  /** A new node above chain `h`, whose keys go to slot `e`, with an empty slot `n` unless that is the same. */
  function Split<K, V>(h: Tree<K, V>, q: Ptr, g: nat, e: nat, n: nat): Tree<K, V> {
    Node(q, g, PairBitmap(e, n), if e == n then [h] else if e < n then [Null, h] else [h, Null])
  }

  lemma SplitKids<K, V>(h: Tree<K, V>, q: Ptr, g: nat, e: nat, n: nat)
    ensures var s := Split(h, q, g, e, n); var b := PairBitmap(e, n);
      && (forall i :: HasKid(s, i) ==> Kid(s, i) == if i == Position(b, e) then h else Null)
      && HasKid(s, Position(b, e)) && HasKid(s, Position(b, n))
      && Ptrs(s) == Ptrs(h) + {q} && Keys(s) == Keys(h)
  {
    var s, p := Split(h, q, g, e, n), Position(PairBitmap(e, n), e);
    PairPositions(e, n);
    forall i | HasKid(s, i)
      ensures Kid(s, i) == if i == p then h else Null
    {
    }
    assert s.kids[p] == h;
  }

  lemma SplitStored<K, V>(cells: Cells<K, V>, h: Tree<K, V>, q: Ptr, g: nat, e: nat, n: nat)
    requires Stored(cells, h) && Tidy(h) && q != 0 && q !in cells
    ensures var s := Split(h, q, g, e, n); Stored(cells[q := CellOf(s)], s) && Tidy(s)
  {
    var s := Split(h, q, g, e, n);
    SplitKids(h, q, g, e, n);
    PtrsAreStored(cells, h);
    StoredFrame(cells, cells[q := CellOf(s)], h);
  }

  lemma SplitGood<K(!new), V>(hash: K -> nat, h: Tree<K, V>, q: Ptr, d: nat, g: nat, r: nat, n: nat)
    requires h.Leaf? && Good(hash, h, d, g) && Rest(hash(h.key), d) == r && n < ARITY
    ensures Good(hash, Split(h, q, g, r % ARITY, n), d, g)
  {
    var e := r % ARITY;
    var s := Split(h, q, g, e, n);
    GoodChain(hash, h, d, g);
    PairPositions(e, n);
    SplitKids(h, q, g, e, n);
    forall i | 0 <= i < |s.kids|
      ensures Good(hash, s.kids[i], d + 1, g)
      ensures forall x :: x in Keys(s.kids[i]) ==> Rest(hash(x), d) % ARITY == IndexOf(s.bitmap, i)
    {
      assert Kid(s, i) == s.kids[i];
    }
  }

  lemma SplitGet<K(!new), V>(hash: K -> nat, h: Tree<K, V>, q: Ptr, d: nat, g: nat, n: nat, x: K)
    requires h.Leaf? && Good(hash, h, d, g)
    ensures var r := Rest(hash(x), d); Get(Split(h, q, g, Rest(hash(h.key), d) % ARITY, n), r, x) == Get(h, r, x)
  {
    var e, r := Rest(hash(h.key), d) % ARITY, Rest(hash(x), d);
    var s := Split(h, q, g, e, n);
    GoodChain(hash, h, d, g);
    GetIsHas(hash, h, d, g, x);
    PairPositions(e, n);
    SplitKids(h, q, g, e, n);
    ChainGet(h, r, r / ARITY, x);
    if HasWay(s, r) {
      assert Kid(s, Way(s, r)) == s.kids[Way(s, r)];
    }
  }

  lemma SplitIsSharp<K(!new), V>(hash: K -> nat, h: Tree<K, V>, q: Ptr, g: nat, e: nat, n: nat, k: K)
    requires h.Leaf? && hash(h.key) != hash(k)
    ensures SharpTop(hash, Split(h, q, g, e, n), k)
  {
    SplitKids(h, q, g, e, n);
    var s := Split(h, q, g, e, n);
    assert h.key in Keys(s) + {k} && k in Keys(s) + {k};
    forall i | 0 <= i < |s.kids|
      ensures Sharp(hash, s.kids[i])
    {
      assert HasKid(s, i) && Kid(s, i) == s.kids[i];
    }
  }

  lemma SplitFits<K(!new), V>(hash: K -> nat, cells: Cells<K, V>, h: Tree<K, V>, q: Ptr, d: nat, g: nat, n: nat, k: K)
    requires h.Leaf? && SoundAt(hash, cells, h, d, g) && n < ARITY && q != 0 && q !in cells && hash(h.key) != hash(k)
    ensures var s := Split(h, q, g, Rest(hash(h.key), d) % ARITY, n);
      Fits(hash, cells[q := CellOf(s)], h, s, d, g, k, Found(hash, h, d, k)) && Ptrs(s) == Ptrs(h) + {q}
  {
    var e := Rest(hash(h.key), d) % ARITY;
    SplitStored(cells, h, q, g, e, n);
    SplitKids(h, q, g, e, n);
    SplitGood(hash, h, q, d, g, Rest(hash(h.key), d), n);
    SplitIsSharp(hash, h, q, g, e, n, k);
    forall x
      ensures Get(Split(h, q, g, e, n), Rest(hash(x), d), x) == Get(h, Rest(hash(x), d), x)
    {
      SplitGet(hash, h, q, d, g, n, x);
    }
  }

  // ----- A new leaf --------------------------------------------------------------------------------------

  lemma NewLeafFits<K(!new), V>(hash: K -> nat, cells: Cells<K, V>, h: Tree<K, V>, q: Ptr, d: nat, g: nat, k: K, v: V)
    requires !h.Node? && SoundAt(hash, cells, h, d, g) && k !in Keys(h) && q != 0 && q !in cells
    requires h.Leaf? ==> Rest(hash(h.key), d) == Rest(hash(k), d)
    ensures var s := Leaf(q, g, k, v, h);
      Fits(hash, cells[q := CellOf(s)], h, s, d, g, k, Some(v)) && Ptrs(s) == Ptrs(h) + {q}
  {
    var s := Leaf(q, g, k, v, h);
    PtrsAreStored(cells, h);
    StoredFrame(cells, cells[q := CellOf(s)], h);
    forall i | HasKid(s, i)
      ensures Kid(s, i) == h
    {
    }
  }

  /** The search for `k` in the whole tree goes on at the end of the path. */
  lemma {:induction false} FoundBelow<K(!new), V>(hash: K -> nat, t: Tree<K, V>, path: seq<nat>, d: nat, g: nat, k: K)
    requires IsPath(t, path) && OnPath(hash, t, path, d, g, k)
    ensures Found(hash, t, d, k) == Found(hash, SubAt(t, path), d + DepthAt(t, path), k)
    decreases |path|
  {
    if path != [] {
      FoundBelow(hash, Kid(t, path[0]), path[1..], d + DepthBelow(t), g, k);
    }
  }

  // ----- Ownership ---------------------------------------------------------------------------------------

  /** The cells of a tree that are of generation `g`. */
  ghost function Own<K, V>(cells: Cells<K, V>, t: Tree<K, V>, g: nat): set<Ptr> {
    set x | x in Ptrs(t) && x in cells && cells[x].gen == g
  }

  /** The cell that holds the pointer at the end of a path that may be written is one's own. */
  lemma {:induction false} ParentIsOwn<K(!new), V>(hash: K -> nat, cells: Cells<K, V>, t: Tree<K, V>, path: seq<nat>, d: nat, g: nat, k: K)
    requires IsPath(t, path) && path != [] && OnPath(hash, t, path, d, g, k) && Stored(cells, t) && Tidy(t)
    ensures Parent(t, path) in Own(cells, t, g)
    decreases |path|
  {
    if |path| > 1 {
      var kid := Kid(t, path[0]);
      ParentIsOwn(hash, cells, kid, path[1..], d + DepthBelow(t), g, k);
      KidPtrs(t, path[0]);
    }
  }

  /** A subtree with new cell `q` in place of the dropped cells changes what one owns accordingly. */
  lemma OwnAfter<K, V>(cells: Cells<K, V>, after: Cells<K, V>, t: Tree<K, V>, r: Tree<K, V>, g: nat, dropped: set<Ptr>, q: Ptr)
    requires Ptrs(t) <= cells.Keys && Ptrs(r) == Ptrs(t) - dropped + {q} && q in after && after[q].gen == g
    requires forall x :: x in Ptrs(t) - dropped ==> x in after && (x == q || after[x].gen == cells[x].gen)
    ensures Own(after, r, g) == Own(cells, t, g) - dropped + {q}
  {
  }

  // ----- Writing a slot ----------------------------------------------------------------------------------

  /** Where a child pointer is kept: `child **`. */
  datatype Slot = AtRoot | Field(cell: Ptr, i: nat)

  function SlotAt<K, V>(t: Tree<K, V>, path: seq<nat>): Slot
    requires IsPath(t, path)
  {
    if path == [] then AtRoot else Field(Parent(t, path), path[|path| - 1])
  }

  /** `*child = q`, unless the slot is the root. */
  function Written<K, V>(cells: Cells<K, V>, slot: Slot, q: Ptr): Cells<K, V> {
    if slot.Field? && slot.cell in cells && HasSlot(cells[slot.cell], slot.i)
    then cells[slot.cell := CellWithKid(cells[slot.cell], slot.i, q)] else cells
  }

  /** What is known while the map is searched for `k` and made writable on the way. */
  ghost predicate Working<K(!new), V>(hash: K -> nat, cells: Cells<K, V>, mine: set<Ptr>, g: nat,
                                      t: Tree<K, V>, path: seq<nat>, slot: Slot, k: K)
  {
    && Sound(hash, cells, t, g) && Reached(hash, t, path, g, k) && FullBut(t, path) && SharpBut(hash, t, path, k)
    && slot == SlotAt(t, path)
    && mine == Own(cells, t, g)
  }

  /** Cell `q` has been written, as the first one of `s`; the cells in `dropped` are no longer needed. */
  ghost predicate Prepared<K(!new), V>(cells: Cells<K, V>, mid: Cells<K, V>, mine: set<Ptr>, g: nat,
                                       t: Tree<K, V>, h: Tree<K, V>, s: Tree<K, V>, q: Ptr, dropped: set<Ptr>)
  {
    && q == PtrOf(s) && q != 0 && q in mid && mid[q].gen == g && (q !in cells || (q in mine && q == PtrOf(h)))
    && dropped <= Ptrs(h) && Ptrs(s) == Ptrs(h) - dropped + {q}
    && (forall x {:trigger x in mid} :: x in cells && x != q && (x !in dropped || x !in mine) ==> x in mid && mid[x] == cells[x])
    && (forall x {:trigger x in mid} :: x in mid && x != q ==> x in cells && (x !in dropped || x !in mine))
  }

  lemma PreparedSlot<K(!new), V>(hash: K -> nat, cells: Cells<K, V>, mid: Cells<K, V>, mine: set<Ptr>, g: nat,
                                 t: Tree<K, V>, path: seq<nat>, slot: Slot, s: Tree<K, V>, q: Ptr, k: K, dropped: set<Ptr>)
    requires Working(hash, cells, mine, g, t, path, slot, k) && Prepared(cells, mid, mine, g, t, SubAt(t, path), s, q, dropped)
    requires Stored(mid, s)
    ensures Ptrs(s) !! (Ptrs(t) - Ptrs(SubAt(t, path)))
    ensures SlotUpdated(cells, Written(mid, slot, q), t, path, q) && Stored(Written(mid, slot, q), s)
    ensures slot.Field? ==> slot.cell in mine && slot.cell in mid && slot.cell != q && HasSlot(mid[slot.cell], slot.i)
  {
    PtrsAreStored(cells, t);
    SubPtrs(t, path);
    OnlyNewPtrs(cells, mid, mine, g, t, SubAt(t, path), s, q, dropped);
    SlotIsOwn(hash, cells, mid, mine, g, t, path, slot, s, q, k, dropped);
    StoredFrame(mid, Written(mid, slot, q), s);
  }

  lemma OnlyNewPtrs<K(!new), V>(cells: Cells<K, V>, mid: Cells<K, V>, mine: set<Ptr>, g: nat, t: Tree<K, V>, h: Tree<K, V>, s: Tree<K, V>,
                                q: Ptr, dropped: set<Ptr>)
    requires Prepared(cells, mid, mine, g, t, h, s, q, dropped) && Ptrs(h) <= Ptrs(t) <= cells.Keys
    ensures Ptrs(s) !! (Ptrs(t) - Ptrs(h))
  {
    if !h.Null? { assert PtrOf(h) in Ptrs(h); }
  }

  /** The slot is in a cell of one's own, outside of what is replaced. */
  lemma SlotIsOwn<K(!new), V>(hash: K -> nat, cells: Cells<K, V>, mid: Cells<K, V>, mine: set<Ptr>, g: nat,
                              t: Tree<K, V>, path: seq<nat>, slot: Slot, s: Tree<K, V>, q: Ptr, k: K, dropped: set<Ptr>)
    requires Working(hash, cells, mine, g, t, path, slot, k) && Prepared(cells, mid, mine, g, t, SubAt(t, path), s, q, dropped)
    ensures slot.Field? ==> slot.cell in mine && slot.cell in Ptrs(t) - Ptrs(SubAt(t, path)) && slot.cell in cells && slot.cell in mid
    ensures slot.Field? ==> slot.cell != q && mid[slot.cell] == cells[slot.cell] && HasSlot(mid[slot.cell], slot.i) && slot.cell !in Ptrs(s)
  {
    if path != [] {
      SubIsStored(cells, t, path);
      ParentIsAbove(t, path);
      ParentIsOwn(hash, cells, t, path, 0, g, k);
      if !SubAt(t, path).Null? { assert PtrOf(SubAt(t, path)) in Ptrs(SubAt(t, path)); }
    }
  }

  lemma EditPut<K(!new), V>(hash: K -> nat, cells: Cells<K, V>, mid: Cells<K, V>, mine: set<Ptr>, g: nat,
                            t: Tree<K, V>, path: seq<nat>, slot: Slot, s: Tree<K, V>, q: Ptr, k: K, v: Option<V>, dropped: set<Ptr>)
    returns (r: Tree<K, V>)
    requires Working(hash, cells, mine, g, t, path, slot, k) && Prepared(cells, mid, mine, g, t, SubAt(t, path), s, q, dropped)
    requires Fits(hash, mid, SubAt(t, path), s, DepthAt(t, path), g, k, v) && (ThroughLeaf(t, path) ==> !s.Node?)
    ensures Sound(hash, Written(mid, slot, q), r, g) && Reached(hash, r, path, g, k) && slot == SlotAt(r, path)
    ensures FullBut(r, path) && SharpBut(hash, r, path, k)
    ensures SubAt(r, path) == s && DepthAt(r, path) == DepthAt(t, path) && ThroughLeaf(r, path) == ThroughLeaf(t, path)
    ensures SameBut(hash, t, r, k, v) && PtrOf(r) == if slot.AtRoot? then q else PtrOf(t)
    ensures Ptrs(r) == (Ptrs(t) - Ptrs(SubAt(t, path))) + Ptrs(s)
    ensures slot.Field? ==> slot.cell in mine && slot.cell in mid && slot.cell != q && HasSlot(mid[slot.cell], slot.i)
  {
    PreparedSlot(hash, cells, mid, mine, g, t, path, slot, s, q, k, dropped);
    r := Put(hash, cells, Written(mid, slot, q), t, path, s, g, k, v);
    ReplaceKeepsFull(t, path, s);
    SharpAtEnd(hash, t, path, k);
    ReplaceKeepsSharp(hash, t, path, s, k);
  }

  /** Everything about one change. */
  lemma Edit<K(!new), V>(hash: K -> nat, cells: Cells<K, V>, mid: Cells<K, V>, mine: set<Ptr>, g: nat,
                         t: Tree<K, V>, path: seq<nat>, slot: Slot, s: Tree<K, V>, q: Ptr, k: K, v: Option<V>, dropped: set<Ptr>)
    returns (r: Tree<K, V>)
    requires Working(hash, cells, mine, g, t, path, slot, k) && Prepared(cells, mid, mine, g, t, SubAt(t, path), s, q, dropped)
    requires Fits(hash, mid, SubAt(t, path), s, DepthAt(t, path), g, k, v) && (ThroughLeaf(t, path) ==> !s.Node?)
    ensures Working(hash, Written(mid, slot, q), mine - dropped + {q}, g, r, path, slot, k)
    ensures Evolves(cells, mine, Written(mid, slot, q), mine - dropped + {q}) && Foreign(r, mine - dropped + {q}) <= Foreign(t, mine)
    ensures SubAt(r, path) == s && DepthAt(r, path) == DepthAt(t, path) && ThroughLeaf(r, path) == ThroughLeaf(t, path)
    ensures SameBut(hash, t, r, k, v) && PtrOf(r) == if slot.AtRoot? then q else PtrOf(t)
    ensures slot.Field? ==> slot.cell in mid && HasSlot(mid[slot.cell], slot.i)
  {
    r := EditPut(hash, cells, mid, mine, g, t, path, slot, s, q, k, v, dropped);
    PtrsAreStored(cells, t);
    SubPtrs(t, path);
    EditOwns(cells, mid, mine, g, t, r, SubAt(t, path), slot, s, q, dropped);
  }

  lemma EditOwns<K(!new), V>(cells: Cells<K, V>, mid: Cells<K, V>, mine: set<Ptr>, g: nat, t: Tree<K, V>, r: Tree<K, V>,
                             h: Tree<K, V>, slot: Slot, s: Tree<K, V>, q: Ptr, dropped: set<Ptr>)
    requires Prepared(cells, mid, mine, g, t, h, s, q, dropped) && mine == Own(cells, t, g)
    requires Ptrs(h) <= Ptrs(t) <= cells.Keys && Ptrs(r) == (Ptrs(t) - Ptrs(h)) + Ptrs(s)
    requires slot.Field? ==> slot.cell in mine && slot.cell in mid && slot.cell != q && HasSlot(mid[slot.cell], slot.i)
    ensures Own(Written(mid, slot, q), r, g) == mine - dropped + {q} && Foreign(r, mine - dropped + {q}) <= Foreign(t, mine)
    ensures Evolves(cells, mine, Written(mid, slot, q), mine - dropped + {q})
  {
    var after := Written(mid, slot, q);
    forall x | x in Ptrs(t) - dropped
      ensures x in after && (x == q || after[x].gen == cells[x].gen)
    {
      assert x != q ==> x in mid && mid[x] == cells[x];
    }
    assert Ptrs(r) == Ptrs(t) - dropped + {q};
    OwnAfter(cells, after, t, r, g, dropped, q);
    EditEvolves(cells, mid, mine, g, t, h, slot, s, q, dropped);
  }

  lemma EditEvolves<K(!new), V>(cells: Cells<K, V>, mid: Cells<K, V>, mine: set<Ptr>, g: nat, t: Tree<K, V>,
                                h: Tree<K, V>, slot: Slot, s: Tree<K, V>, q: Ptr, dropped: set<Ptr>)
    requires Prepared(cells, mid, mine, g, t, h, s, q, dropped)
    requires slot.Field? ==> slot.cell in mine && slot.cell in mid && slot.cell != q
    ensures Evolves(cells, mine, Written(mid, slot, q), mine - dropped + {q})
  {
    var after, now := Written(mid, slot, q), mine - dropped + {q};
    assert after.Keys == mid.Keys;
    forall x | x in cells && x !in mine
      ensures x in after && after[x] == cells[x]
    {
      assert x in mid;
    }
    forall x | x in after && x !in now
      ensures x in cells && x !in mine
    {
      assert x in mid;
    }
  }

  /** Cells of the tree that belong to other maps. */
  ghost function Foreign<K, V>(t: Tree<K, V>, mine: set<Ptr>): set<Ptr> {
    Ptrs(t) - mine
  }

  // ----- The changes that `mut` makes --------------------------------------------------------------------

  /** The outcome of a change: `s` is where the search has got to, and look-up finds `v` for `k`. */
  ghost predicate Edited<K(!new), V>(hash: K -> nat, cells: Cells<K, V>, mine: set<Ptr>, after: Cells<K, V>, now: set<Ptr>, g: nat,
                                     t: Tree<K, V>, r: Tree<K, V>, path: seq<nat>, slot: Slot, s: Tree<K, V>, k: K, v: Option<V>)
    requires IsPath(t, path)
  {
    && Working(hash, after, now, g, r, path, slot, k) && Evolves(cells, mine, after, now) && Foreign(r, now) <= Foreign(t, mine)
    && SubAt(r, path) == s && DepthAt(r, path) == DepthAt(t, path) && ThroughLeaf(r, path) == ThroughLeaf(t, path)
    && SameBut(hash, t, r, k, v) && PtrOf(r) == (if slot.AtRoot? then PtrOf(s) else PtrOf(t))
  }

  /** Where the search has got to. */
  lemma Locate<K(!new), V>(hash: K -> nat, cells: Cells<K, V>, mine: set<Ptr>, g: nat, t: Tree<K, V>, path: seq<nat>, slot: Slot, k: K)
    requires Working(hash, cells, mine, g, t, path, slot, k)
    ensures SoundAt(hash, cells, SubAt(t, path), DepthAt(t, path), g) && Ptrs(SubAt(t, path)) <= Ptrs(t) * cells.Keys
    ensures Get(t, hash(k), k) == Found(hash, SubAt(t, path), DepthAt(t, path), k)
    ensures ThroughLeaf(t, path) ==> !SubAt(t, path).Node?
    ensures !SubAt(t, path).Null? ==> SubAt(t, path).p != 0 && (SubAt(t, path).gen == g <==> SubAt(t, path).p in mine)
  {
    SubIsGood(hash, t, path, 0, g, k);
    SubIsStored(cells, t, path);
    SubPtrs(t, path);
    PtrsAreStored(cells, SubAt(t, path));
    FoundBelow(hash, t, path, 0, g, k);
    OwnByGen(cells, mine, g, t, SubAt(t, path));
  }

  lemma OwnByGen<K(!new), V>(cells: Cells<K, V>, mine: set<Ptr>, g: nat, t: Tree<K, V>, s: Tree<K, V>)
    requires mine == Own(cells, t, g) && Ptrs(s) <= Ptrs(t) * cells.Keys && Stored(cells, s)
    ensures !s.Null? ==> s.p != 0 && (s.gen == g <==> s.p in mine)
  {
    if !s.Null? { assert s.p in Ptrs(s); }
  }

  lemma Uncow<K(!new), V>(hash: K -> nat, cells: Cells<K, V>, mine: set<Ptr>, g: nat, t: Tree<K, V>, path: seq<nat>, slot: Slot, k: K, q: Ptr)
    returns (r: Tree<K, V>)
    requires Working(hash, cells, mine, g, t, path, slot, k) && !SubAt(t, path).Null? && SubAt(t, path).gen != g
    requires q != 0 && q !in cells
    ensures var s := Copied(SubAt(t, path), q, g); var mid := cells[q := CellOf(s)];
      && Edited(hash, cells, mine, Written(mid, slot, q), mine + {q}, g, t, r, path, slot, s, k, Get(t, hash(k), k))
      && (slot.Field? ==> slot.cell in mid && HasSlot(mid[slot.cell], slot.i))
  {
    var h := SubAt(t, path);
    var s := Copied(h, q, g);
    Locate(hash, cells, mine, g, t, path, slot, k);
    CopiedFits(hash, cells, h, q, DepthAt(t, path), g, k);
    CopiedStored(cells, h, q, g);
    r := Edit(hash, cells, cells[q := CellOf(s)], mine, g, t, path, slot, s, q, k, Get(t, hash(k), k), {h.p});
    assert mine - {h.p} == mine;
  }

  /** The ways to get a bigger cell for a node: a new one, the old one, or a new one with the old one freed. */
  ghost predicate Enlarged<K(!new), V>(cells: Cells<K, V>, mid: Cells<K, V>, g: nat, h: Tree<K, V>, q: Ptr, c: Cell<K, V>)
    requires h.Node?
  {
    if h.gen == g && q == h.p then mid == cells[q := c]
    else q != 0 && q !in cells && mid == if h.gen == g then cells[q := c] - {h.p} else cells[q := c]
  }

  lemma GrowPrepared<K(!new), V>(hash: K -> nat, cells: Cells<K, V>, mid: Cells<K, V>, mine: set<Ptr>, g: nat, t: Tree<K, V>, path: seq<nat>,
                                 d: nat, k: K, q: Ptr, index: nat)
    requires IsPath(t, path) && SubAt(t, path).Node? && mine == Own(cells, t, g) && SoundAt(hash, cells, SubAt(t, path), d, g)
    requires index < ARITY && !Bit(SubAt(t, path).bitmap, index) && Above(SubAt(t, path).bitmap, index) <= |SubAt(t, path).kids|
    requires Enlarged(cells, mid, g, SubAt(t, path), q, CellOf(Grown(SubAt(t, path), q, g, index)))
    ensures var h := SubAt(t, path); var s := Grown(h, q, g, index);
      Fits(hash, mid, h, s, d, g, k, Found(hash, h, d, k)) && Prepared(cells, mid, mine, g, t, h, s, q, {h.p})
  {
    var h := SubAt(t, path);
    PtrsAreStored(cells, h);
    SubPtrs(t, path);
    assert h.p in Ptrs(h) && (h.gen == g <==> h.p in mine);
    GrownFits(hash, cells, mid, h, q, d, g, index, k);
  }

  lemma Grow<K(!new), V>(hash: K -> nat, cells: Cells<K, V>, mid: Cells<K, V>, mine: set<Ptr>, g: nat, t: Tree<K, V>, path: seq<nat>, slot: Slot,
                         k: K, q: Ptr, index: nat)
    returns (r: Tree<K, V>)
    requires Working(hash, cells, mine, g, t, path, slot, k) && SubAt(t, path).Node?
    requires index < ARITY && !Bit(SubAt(t, path).bitmap, index) && Above(SubAt(t, path).bitmap, index) <= |SubAt(t, path).kids|
    requires Enlarged(cells, mid, g, SubAt(t, path), q, CellOf(Grown(SubAt(t, path), q, g, index)))
    ensures var h := SubAt(t, path);
      && Edited(hash, cells, mine, Written(mid, slot, q), mine - {h.p} + {q}, g, t, r, path, slot, Grown(h, q, g, index), k, Get(t, hash(k), k))
      && (slot.Field? ==> slot.cell in mid && HasSlot(mid[slot.cell], slot.i))
  {
    var h := SubAt(t, path);
    Locate(hash, cells, mine, g, t, path, slot, k);
    GrowPrepared(hash, cells, mid, mine, g, t, path, DepthAt(t, path), k, q, index);
    r := Edit(hash, cells, mid, mine, g, t, path, slot, Grown(h, q, g, index), q, k, Get(t, hash(k), k), {h.p});
  }

  lemma SplitPrepared<K(!new), V>(hash: K -> nat, cells: Cells<K, V>, mine: set<Ptr>, g: nat, t: Tree<K, V>, path: seq<nat>, slot: Slot,
                                  k: K, q: Ptr, n: nat)
    requires Working(hash, cells, mine, g, t, path, slot, k) && SubAt(t, path).Leaf?
    requires n < ARITY && q != 0 && q !in cells && hash(SubAt(t, path).key) != hash(k)
    ensures var h, d := SubAt(t, path), DepthAt(t, path); var s := Split(h, q, g, Rest(hash(h.key), d) % ARITY, n); var mid := cells[q := CellOf(s)];
      Fits(hash, mid, h, s, d, g, k, Get(t, hash(k), k)) && Prepared(cells, mid, mine, g, t, h, s, q, {})
  {
    var h, d := SubAt(t, path), DepthAt(t, path);
    Locate(hash, cells, mine, g, t, path, slot, k);
    SplitFits(hash, cells, h, q, d, g, n, k);
    NewCellPrepared(cells, mine, g, t, h, Split(h, q, g, Rest(hash(h.key), d) % ARITY, n), q);
  }

  lemma NewCellPrepared<K(!new), V>(cells: Cells<K, V>, mine: set<Ptr>, g: nat, t: Tree<K, V>, h: Tree<K, V>, s: Tree<K, V>, q: Ptr)
    requires !s.Null? && s.p == q && s.gen == g && q != 0 && q !in cells && Ptrs(s) == Ptrs(h) + {q}
    ensures Prepared(cells, cells[q := CellOf(s)], mine, g, t, h, s, q, {})
  {
  }

  lemma Disambiguate<K(!new), V>(hash: K -> nat, cells: Cells<K, V>, mine: set<Ptr>, g: nat, t: Tree<K, V>, path: seq<nat>, slot: Slot,
                                 k: K, q: Ptr, n: nat)
    returns (r: Tree<K, V>)
    requires Working(hash, cells, mine, g, t, path, slot, k) && SubAt(t, path).Leaf? && !ThroughLeaf(t, path)
    requires n < ARITY && q != 0 && q !in cells && hash(SubAt(t, path).key) != hash(k)
    ensures var h := SubAt(t, path); var s := Split(h, q, g, Rest(hash(h.key), DepthAt(t, path)) % ARITY, n); var mid := cells[q := CellOf(s)];
      && Edited(hash, cells, mine, Written(mid, slot, q), mine + {q}, g, t, r, path, slot, s, k, Get(t, hash(k), k))
      && (slot.Field? ==> slot.cell in mid && HasSlot(mid[slot.cell], slot.i))
  {
    var h := SubAt(t, path);
    var s := Split(h, q, g, Rest(hash(h.key), DepthAt(t, path)) % ARITY, n);
    SplitPrepared(hash, cells, mine, g, t, path, slot, k, q, n);
    r := Edit(hash, cells, cells[q := CellOf(s)], mine, g, t, path, slot, s, q, k, Get(t, hash(k), k), {});
    assert mine - {} == mine;
  }

  lemma AddLeaf<K(!new), V>(hash: K -> nat, cells: Cells<K, V>, mine: set<Ptr>, g: nat, t: Tree<K, V>, path: seq<nat>, slot: Slot,
                            k: K, q: Ptr, v: V)
    returns (r: Tree<K, V>)
    requires Working(hash, cells, mine, g, t, path, slot, k) && !SubAt(t, path).Node?
    requires Get(t, hash(k), k).None? && q != 0 && q !in cells
    requires SubAt(t, path).Leaf? ==> Rest(hash(SubAt(t, path).key), DepthAt(t, path)) == Rest(hash(k), DepthAt(t, path))
    ensures var h := SubAt(t, path); var s := Leaf(q, g, k, v, h); var mid := cells[q := CellOf(s)];
      && Edited(hash, cells, mine, Written(mid, slot, q), mine + {q}, g, t, r, path, slot, s, k, Some(v))
      && (slot.Field? ==> slot.cell in mid && HasSlot(mid[slot.cell], slot.i))
  {
    var h := SubAt(t, path);
    var s := Leaf(q, g, k, v, h);
    Locate(hash, cells, mine, g, t, path, slot, k);
    GetIsHas(hash, h, DepthAt(t, path), g, k);
    NewLeafFits(hash, cells, h, q, DepthAt(t, path), g, k, v);
    r := Edit(hash, cells, cells[q := CellOf(s)], mine, g, t, path, slot, s, q, k, Some(v), {});
    assert mine - {} == mine;
  }

  // ----- Assigning to a leaf that is one's own --------------------------------------------------------------

  lemma AssignFits<K(!new), V>(hash: K -> nat, cells: Cells<K, V>, h: Tree<K, V>, d: nat, g: nat, k: K, v: V)
    requires h.Leaf? && h.key == k && SoundAt(hash, cells, h, d, g)
    ensures var s := h.(val := v); Fits(hash, cells[h.p := CellOf(s)], h, s, d, g, k, Some(v)) && Ptrs(s) == Ptrs(h)
  {
    var s := h.(val := v);
    var mid := cells[h.p := CellOf(s)];
    assert Kid(h, 0) == h.next && Kid(s, 0) == h.next;
    PtrsAreStored(cells, h);
    StoredFrame(cells, mid, h.next);
    assert forall i :: HasKid(s, i) ==> i == 0;
  }

  /** Writing the pointer that a slot already holds changes nothing. */
  lemma RewriteIsNothing<K(!new), V>(cells: Cells<K, V>, t: Tree<K, V>, path: seq<nat>, c: Cell<K, V>)
    requires IsPath(t, path) && Stored(cells, t) && Tidy(t) && !SubAt(t, path).Null?
    ensures var q := SubAt(t, path).p; Written(cells[q := c], SlotAt(t, path), q) == cells[q := c]
  {
    SubIsStored(cells, t, path);
    assert SubAt(t, path).p in Ptrs(SubAt(t, path));
    if path != [] {
      ParentIsAbove(t, path);
      var p := cells[Parent(t, path)];
      assert CellWithKid(p, path[|path| - 1], SlotOf(p, path[|path| - 1])) == p;
    }
  }

  lemma AssignTo<K(!new), V>(hash: K -> nat, cells: Cells<K, V>, mine: set<Ptr>, g: nat, t: Tree<K, V>, path: seq<nat>, slot: Slot, k: K, v: V)
    returns (r: Tree<K, V>)
    requires Working(hash, cells, mine, g, t, path, slot, k) && SubAt(t, path).Leaf? && SubAt(t, path).key == k && SubAt(t, path).gen == g
    ensures SubAt(t, path).p in mine && SubAt(t, path).p in cells && cells[SubAt(t, path).p] == CellOf(SubAt(t, path))
    ensures var s := SubAt(t, path).(val := v);
      Edited(hash, cells, mine, cells[s.p := CellOf(s)], mine, g, t, r, path, slot, s, k, Some(v))
  {
    var h := SubAt(t, path);
    var s := h.(val := v);
    var mid := cells[h.p := CellOf(s)];
    Locate(hash, cells, mine, g, t, path, slot, k);
    AssignFits(hash, cells, h, DepthAt(t, path), g, k, v);
    RewriteIsNothing(cells, t, path, CellOf(s));
    r := Edit(hash, cells, mid, mine, g, t, path, slot, s, h.p, k, Some(v), {h.p});
    assert mine - {h.p} + {h.p} == mine;
  }

  // ----- Going on ----------------------------------------------------------------------------------------

  /** `child = &node->array[position]`. */
  lemma StepInto<K(!new), V>(hash: K -> nat, cells: Cells<K, V>, mine: set<Ptr>, g: nat, t: Tree<K, V>, path: seq<nat>, slot: Slot, k: K)
    requires Working(hash, cells, mine, g, t, path, slot, k) && SubAt(t, path).Node? && SubAt(t, path).gen == g
    requires HasWay(SubAt(t, path), Rest(hash(k), DepthAt(t, path)))
    requires FullSiblings(SubAt(t, path), Way(SubAt(t, path), Rest(hash(k), DepthAt(t, path))))
    ensures var h := SubAt(t, path); var i := Way(h, Rest(hash(k), DepthAt(t, path)));
      && IsPath(t, path + [i]) && Working(hash, cells, mine, g, t, path + [i], Field(h.p, i), k)
      && SubAt(t, path + [i]) == Kid(h, i) && DepthAt(t, path + [i]) == DepthAt(t, path) + 1
      && ThroughLeaf(t, path + [i]) == ThroughLeaf(t, path)
  {
    StepOn(hash, t, path, Way(SubAt(t, path), Rest(hash(k), DepthAt(t, path))), g, k);
  }

  /** The path goes on to child `i`. */
  lemma StepOn<K(!new), V>(hash: K -> nat, t: Tree<K, V>, path: seq<nat>, i: nat, g: nat, k: K)
    requires Reached(hash, t, path, g, k) && FullBut(t, path) && SharpBut(hash, t, path, k) && HasKid(SubAt(t, path), i)
    requires OnPath(hash, SubAt(t, path), [i], DepthAt(t, path), g, k)
    requires FullSiblings(SubAt(t, path), i) && (SubAt(t, path).Leaf? ==> !SubAt(t, path).next.Node?)
    ensures Reached(hash, t, path + [i], g, k) && FullBut(t, path + [i]) && SharpBut(hash, t, path + [i], k)
    ensures SubAt(t, path + [i]) == Kid(SubAt(t, path), i) && SlotAt(t, path + [i]) == Field(SubAt(t, path).p, i)
    ensures DepthAt(t, path + [i]) == DepthAt(t, path) + DepthBelow(SubAt(t, path))
    ensures ThroughLeaf(t, path + [i]) == (ThroughLeaf(t, path) || SubAt(t, path).Leaf?)
  {
    Extend(t, path, i);
    ExtendPath(hash, t, path, i, 0, g, k);
    ExtendFull(t, path, i);
    ExtendSharp(hash, t, path, i, k);
  }

  /** `child = &leaf->next`. */
  lemma StepOver<K(!new), V>(hash: K -> nat, cells: Cells<K, V>, mine: set<Ptr>, g: nat, t: Tree<K, V>, path: seq<nat>, slot: Slot, k: K)
    requires Working(hash, cells, mine, g, t, path, slot, k) && SubAt(t, path).Leaf? && SubAt(t, path).gen == g
    requires SubAt(t, path).key != k && Rest(hash(SubAt(t, path).key), DepthAt(t, path)) == Rest(hash(k), DepthAt(t, path))
    ensures var h := SubAt(t, path);
      && IsPath(t, path + [0]) && Working(hash, cells, mine, g, t, path + [0], Field(h.p, 0), k)
      && SubAt(t, path + [0]) == h.next && DepthAt(t, path + [0]) == DepthAt(t, path) && ThroughLeaf(t, path + [0])
  {
    LeafKidIsLeaf(hash, t, path, g, k);
    StepOn(hash, t, path, 0, g, k);
  }

  lemma LeafKidIsLeaf<K(!new), V>(hash: K -> nat, t: Tree<K, V>, path: seq<nat>, g: nat, k: K)
    requires Good(hash, t, 0, g) && Reached(hash, t, path, g, k) && SubAt(t, path).Leaf?
    ensures !SubAt(t, path).next.Node?
  {
    SubIsGood(hash, t, path, 0, g, k);
  }

  lemma StepIntoGrown<K, V>(t: Tree<K, V>, q: Ptr, g: nat, index: nat, h: nat)
    requires t.Node? && !Bit(t.bitmap, index) && |t.kids| == Popcount(t.bitmap) && h % ARITY == index
    ensures Above(t.bitmap, index) <= |t.kids|
    ensures var s := Grown(t, q, g, index); HasWay(s, h) && Way(s, h) == Above(t.bitmap, index) && Kid(s, Way(s, h)) == Null
    ensures Full(t) ==> FullSiblings(Grown(t, q, g, index), Above(t.bitmap, index))
  {
    GrownPositions(t.bitmap, index);
    GrownWay(t, q, g, index, h);
  }

  /** The search follows the hash, of which `h` is left, and has not come to a leaf. */
  ghost predicate Following<K(!new), V>(hash: K -> nat, cells: Cells<K, V>, mine: set<Ptr>, g: nat, t: Tree<K, V>, path: seq<nat>, slot: Slot,
                                        h: nat, k: K)
  {
    && Working(hash, cells, mine, g, t, path, slot, k) && !ThroughLeaf(t, path) && Full(SubAt(t, path))
    && h == Rest(hash(k), DepthAt(t, path))
  }

  /** `child = &node->array[position]` of a node that has a child for `k`. */
  lemma FollowInto<K(!new), V>(hash: K -> nat, cells: Cells<K, V>, mine: set<Ptr>, g: nat, t: Tree<K, V>, path: seq<nat>, slot: Slot,
                               h: nat, k: K)
    requires Following(hash, cells, mine, g, t, path, slot, h, k) && SubAt(t, path).Node? && SubAt(t, path).gen == g && HasWay(SubAt(t, path), h)
    ensures var s := SubAt(t, path); var i := Way(s, h);
      && Following(hash, cells, mine, g, t, path + [i], Field(s.p, i), h / ARITY, k) && SubAt(t, path + [i]) == Kid(s, i)
      && DepthAt(t, path + [i]) == DepthAt(t, path) + 1
  {
    StepInto(hash, cells, mine, g, t, path, slot, k);
  }

  /** `child = &node->array[position]` of a node that has grown for `k`. */
  lemma StepIntoNew<K(!new), V>(hash: K -> nat, cells: Cells<K, V>, mine: set<Ptr>, g: nat, t: Tree<K, V>, path: seq<nat>, slot: Slot,
                                h: nat, k: K, was: Tree<K, V>, q: Ptr)
    requires Working(hash, cells, mine, g, t, path, slot, k) && h == Rest(hash(k), DepthAt(t, path)) && !ThroughLeaf(t, path)
    requires was.Node? && Full(was) && |was.kids| == Popcount(was.bitmap) && !Bit(was.bitmap, h % ARITY)
    requires Above(was.bitmap, h % ARITY) <= |was.kids| && SubAt(t, path) == Grown(was, q, g, h % ARITY)
    ensures var i := Above(was.bitmap, h % ARITY);
      && Following(hash, cells, mine, g, t, path + [i], Field(q, i), h / ARITY, k) && SubAt(t, path + [i]) == Null
      && DepthAt(t, path + [i]) == DepthAt(t, path) + 1
  {
    StepIntoGrown(was, q, g, h % ARITY, h);
    StepInto(hash, cells, mine, g, t, path, slot, k);
  }
}
