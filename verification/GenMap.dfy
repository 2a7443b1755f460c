/**
 * src/GenMap.h: a hash map that is copied in constant time.
 *
 * A copy shares all cells with its source.  A cell belongs to the map that allocated it, which its generation
 * number tells: a map has a greater generation than the map it was copied from.
 */
module GenMaps {
  import opened Bitmaps
  import opened GenTrees
  import opened GenEdits
  import opened GenWalks
  import opened GenDepths
  import opened Heaps
  import opened Options

  class GenMap<K(==, !new), V> {
    const heap: Heap<Cell<K, V>>
    const hash: K -> nat
    const zero: V
    var generation: nat
    var size: nat
    var root: Ptr
    ghost var tree: Tree<K, V>
    ghost var mine: set<Ptr>
    /** Cells of other maps: no more of them are used. */
    ghost var shared: set<Ptr>
    ghost var contents: map<K, V>

    /** What holds even in the middle of an operation, when a node may have an empty slot. */
    ghost predicate Intact()
      reads this, heap
    {
      && root == PtrOf(tree) && Sound(hash, heap.cells, tree, generation) && mine == Own(heap.cells, tree, generation)
      && Foreign(tree, mine) <= shared && size == |contents| && Denotes(hash, tree, contents)
    }

    ghost predicate Valid()
      reads this, heap
    {
      Intact() && Full(tree) && Sharp(hash, tree)
    }

    /** The search for `k` has come to `slot`. */
    ghost predicate Searching(path: seq<nat>, slot: Slot, k: K)
      reads this, heap
    {
      Working(hash, heap.cells, mine, generation, tree, path, slot, k)
    }

    constructor (heap: Heap<Cell<K, V>>, hash: K -> nat, zero: V)
      ensures Valid() && contents == map[] && mine == {}
      ensures this.heap == heap && this.hash == hash && this.zero == zero
    {
      this.heap, this.hash, this.zero := heap, hash, zero;
      generation, size, root := 0, 0, 0;
      tree, mine, shared, contents := Null, {}, {}, map[];
    }

    /** A copy shares all cells with its source, and owns none of them. */
    constructor Copy(other: GenMap<K, V>)
      requires other.Valid()
      ensures Valid() && contents == other.contents && mine == {} && tree == other.tree
      ensures heap == other.heap && hash == other.hash && zero == other.zero
      ensures root == other.root && size == other.size && generation == if other.root != 0 then other.generation + 1 else 0
    {
      heap, hash, zero := other.heap, other.hash, other.zero;
      size, root := other.size, other.root;
      generation := if other.root != 0 then other.generation + 1 else 0;
      tree, mine, shared, contents := other.tree, {}, Ptrs(other.tree), other.contents;
      new;
      GensAreBelow(hash, heap.cells, tree, 0, other.generation);
      PtrsAreStored(heap.cells, tree);
      if root != 0 {
        GoodBelow(hash, tree, 0, other.generation, generation);
      }
    }

    /** `find`. */
    method Find(k: K) returns (v: Option<V>)
      requires Valid()
      ensures v == Lookup(contents, k)
    {
      var h := hash(k);
      var child := root;
      ghost var t, d, g := tree, 0, generation;
      while child != 0 && heap.cells[child].NodeCell?
        invariant Stored(heap.cells, t) && Good(hash, t, d, g) && child == PtrOf(t) && h == Rest(hash(k), d)
        invariant Get(t, h, k) == Lookup(contents, k)
        decreases t
      {
        var node := heap.cells[child];
        var index := h % ARITY;
        if !Bit(node.bitmap, index) {
          return None;
        }
        var position := Position(node.bitmap, index);
        t, d, g := Kid(t, position), d + 1, t.gen;
        h := h / ARITY;
        child := node.slots[position];
      }
      while child != 0
        invariant !t.Node? && Stored(heap.cells, t) && Good(hash, t, d, g) && child == PtrOf(t)
        invariant Get(t, h, k) == Lookup(contents, k)
        decreases t
      {
        var leaf := heap.cells[child];
        assert Kid(t, 0) == t.next;
        if k == leaf.key {
          return Some(leaf.val);
        }
        g := t.gen;
        t := t.next;
        child := leaf.next;
      }
      return None;
    }

    method ReadSlot(slot: Slot, ghost path: seq<nat>, k: K) returns (p: Ptr)
      requires Intact() && Searching(path, slot, k)
      ensures p == PtrOf(SubAt(tree, path))
      ensures p != 0 ==> p in heap.cells && heap.cells[p] == CellOf(SubAt(tree, path))
      ensures Good(hash, SubAt(tree, path), DepthAt(tree, path), generation) && Stored(heap.cells, SubAt(tree, path))
    {
      SubIsGood(hash, tree, path, 0, generation, k);
      SubIsStored(heap.cells, tree, path);
      match slot
      case AtRoot => p := root;
      case Field(cell, i) => p := SlotOf(heap.cells[cell], i);
    }

    method WriteSlot(slot: Slot, q: Ptr)
      requires slot.Field? ==> slot.cell in heap.cells && HasSlot(heap.cells[slot.cell], slot.i)
      modifies this`root, heap
      ensures heap.cells == Written(old(heap.cells), slot, q) && root == if slot.AtRoot? then q else old(root)
    {
      match slot
      case AtRoot => root := q;
      case Field(cell, i) => heap.cells := heap.cells[cell := CellWithKid(heap.cells[cell], i, q)];
    }

    /** Point the slot to the cell that has been prepared; the tree is then `r`, which holds the bindings `m`. */
    method Install(slot: Slot, q: Ptr, ghost path: seq<nat>, k: K, ghost r: Tree<K, V>, ghost now: set<Ptr>, ghost m: map<K, V>)
      requires slot.Field? ==> slot.cell in heap.cells && HasSlot(heap.cells[slot.cell], slot.i)
      requires Working(hash, Written(heap.cells, slot, q), now, generation, r, path, slot, k)
      requires PtrOf(r) == (if slot.AtRoot? then q else root) && Foreign(r, now) <= shared && Denotes(hash, r, m) && size == |m|
      modifies this`root, this`tree, this`mine, this`contents, heap
      ensures Intact() && Searching(path, slot, k) && tree == r && mine == now && contents == m
      ensures heap.cells == Written(old(heap.cells), slot, q)
    {
      WriteSlot(slot, q);
      tree, mine, contents := r, now, m;
    }

    /** The state after a change that keeps the contents. */
    twostate predicate Changed(path: seq<nat>, slot: Slot, k: K)
      reads this, heap
    {
      && Intact() && Searching(path, slot, k) && Evolves(old(heap.cells), old(mine), heap.cells, mine)
      && contents == old(contents) && size == old(size) && generation == old(generation)
    }

    method UncowNode(slot: Slot, ghost path: seq<nat>, k: K) returns (q: Ptr)
      requires Intact() && Searching(path, slot, k) && SubAt(tree, path).Node? && SubAt(tree, path).gen != generation
      modifies this`root, this`tree, this`mine, this`contents, heap
      ensures Changed(path, slot, k) && SubAt(tree, path) == Copied(old(SubAt(tree, path)), q, generation)
      ensures DepthAt(tree, path) == old(DepthAt(tree, path)) && ThroughLeaf(tree, path) == old(ThroughLeaf(tree, path))
    {
      var p := ReadSlot(slot, path, k);
      var node := heap.cells[p];
      var slots: seq<Ptr> := [];
      for i := 0 to |node.slots|
        invariant slots == node.slots[..i]
      {
        slots := slots + [node.slots[i]];
      }
      q := heap.Malloc(NodeCell(generation, node.bitmap, slots));
      assert slots == node.slots;
      ghost var r := Uncow(hash, old(heap.cells), mine, generation, tree, path, slot, k, q);
      StillDenotes(hash, tree, r, k, contents);
      Install(slot, q, path, k, r, mine + {q}, contents);
    }
  
    method UncowLeaf(slot: Slot, ghost path: seq<nat>, k: K) returns (q: Ptr)
      requires Intact() && Searching(path, slot, k) && SubAt(tree, path).Leaf? && SubAt(tree, path).gen != generation
      modifies this`root, this`tree, this`mine, this`contents, heap
      ensures Changed(path, slot, k) && SubAt(tree, path) == Copied(old(SubAt(tree, path)), q, generation)
      ensures DepthAt(tree, path) == old(DepthAt(tree, path)) && ThroughLeaf(tree, path) == old(ThroughLeaf(tree, path))
    {
      var p := ReadSlot(slot, path, k);
      var leaf := heap.cells[p];
      q := heap.Malloc(LeafCell(generation, leaf.key, leaf.val, leaf.next));
      ghost var r := Uncow(hash, old(heap.cells), mine, generation, tree, path, slot, k, q);
      StillDenotes(hash, tree, r, k, contents);
      Install(slot, q, path, k, r, mine + {q}, contents);
    }

    /** The slots of a bigger node: those up to `position`, an empty one, and the others. */
    static method Shifted(slots: seq<Ptr>, position: nat) returns (r: seq<Ptr>)
      requires position <= |slots|
      ensures r == slots[..position] + [0] + slots[position..]
    {
      // Both arrays are the same one when the node has been enlarged in place: hence the reverse order.
      r := slots + [0];
      var i := |slots|;
      while i > position
        invariant position <= i <= |slots| && |r| == |slots| + 1
        invariant r[..i] == slots[..i] && r[i + 1..] == slots[i..]
      {
        r := r[i := r[i - 1]];
        i := i - 1;
      }
      r := r[position := 0];
    }

    /** `realloc_node` of a node of one's own, which may find room at the same place, or else `alloc_node`. */
    method Enlarge(p: Ptr, c: Cell<K, V>, inPlace: bool) returns (q: Ptr)
      requires p in heap.cells
      modifies heap
      ensures old(heap.cells)[p].gen == generation && inPlace ==> q == p && heap.cells == old(heap.cells)[q := c]
      ensures !(old(heap.cells)[p].gen == generation && inPlace) ==> q != 0 && q !in old(heap.cells)
      ensures old(heap.cells)[p].gen == generation && !inPlace ==> heap.cells == old(heap.cells)[q := c] - {p}
      ensures old(heap.cells)[p].gen != generation ==> heap.cells == old(heap.cells)[q := c]
    {
      var own := heap.cells[p].gen == generation;
      if own && inPlace {
        q := p;
        heap.cells := heap.cells[q := c];
      } else {
        q := heap.Malloc(c);
        if own {
          heap.Free(p);
        }
      }
    }

    /** Give the node a slot for one more child. */
    method GrowNode(slot: Slot, index: nat, inPlace: bool, ghost path: seq<nat>, k: K) returns (q: Ptr, position: nat)
      requires Intact() && Searching(path, slot, k) && SubAt(tree, path).Node?
      requires index < ARITY && !Bit(SubAt(tree, path).bitmap, index)
      modifies this`root, this`tree, this`mine, this`contents, heap
      ensures Changed(path, slot, k) && position == Above(old(SubAt(tree, path)).bitmap, index) <= |old(SubAt(tree, path)).kids|
      ensures SubAt(tree, path) == Grown(old(SubAt(tree, path)), q, generation, index)
      ensures DepthAt(tree, path) == old(DepthAt(tree, path)) && ThroughLeaf(tree, path) == old(ThroughLeaf(tree, path))
    {
      var p := ReadSlot(slot, path, k);
      var node := heap.cells[p];
      ghost var h := SubAt(tree, path);
      GrownPositions(node.bitmap, index);
      position := Above(node.bitmap, index);
      var slots := Shifted(node.slots, position);
      q := Enlarge(p, NodeCell(generation, SetBit(node.bitmap, index), slots), inPlace);
      GrownCell(h, q, generation, index);
      ghost var mid := heap.cells;
      assert Enlarged(old(heap.cells), mid, generation, h, q, CellOf(Grown(h, q, generation, index)));
      ghost var r := Grow(hash, old(heap.cells), mid, mine, generation, tree, path, slot, k, q, index);
      StillDenotes(hash, tree, r, k, contents);
      Install(slot, q, path, k, r, mine - {h.p} + {q}, contents);
    }
  
    /** Go to the child that the node has for the hash, and make the node writable. */
    method StepDown(slot: Slot, h: nat, ghost path: seq<nat>, k: K) returns (next: Slot, ghost longer: seq<nat>)
      requires Heading(path, slot, h, k) && SubAt(tree, path).Node? && Bit(SubAt(tree, path).bitmap, h % ARITY)
      modifies this`root, this`tree, this`mine, this`contents, heap
      ensures Changed(longer, next, k) && Heading(longer, next, h / ARITY, k) && SubAt(tree, longer) < old(SubAt(tree, path))
      ensures DepthAt(tree, longer) == old(DepthAt(tree, path)) + 1
    {
      var child := ReadSlot(slot, path, k);
      var node := heap.cells[child];
      var position := Position(node.bitmap, h % ARITY);
      if node.gen != generation {
        child := UncowNode(slot, path, k);
      }
      FollowInto(hash, heap.cells, mine, generation, tree, path, slot, h, k);
      next, longer := Field(child, position), path + [position];
    }

    /** Give the node an empty slot for the hash and go there. */
    method GrowDown(slot: Slot, h: nat, ghost path: seq<nat>, k: K) returns (next: Slot, ghost longer: seq<nat>)
      requires Heading(path, slot, h, k) && SubAt(tree, path).Node? && !Bit(SubAt(tree, path).bitmap, h % ARITY)
      modifies this`root, this`tree, this`mine, this`contents, heap
      ensures Changed(longer, next, k) && Heading(longer, next, h / ARITY, k) && SubAt(tree, longer) == Null
      ensures DepthAt(tree, longer) == old(DepthAt(tree, path)) + 1
    {
      SubIsGood(hash, tree, path, 0, generation, k);
      ghost var was := SubAt(tree, path);
      var inPlace: bool := *;
      var q, position := GrowNode(slot, h % ARITY, inPlace, path, k);
      StepIntoNew(hash, heap.cells, mine, generation, tree, path, slot, h, k, was, q);
      next, longer := Field(q, position), path + [position];
    }

    /** Where the descent has got to. */
    ghost predicate Descending(path: seq<nat>, slot: Slot, h: nat, depth: nat, child: Ptr, k: K)
      reads this, heap
    {
      Heading(path, slot, h, k) && depth == 5 * DepthAt(tree, path) && IsAt(child, SubAt(tree, path))
    }

    /** The search follows the hash, of which `h` is left. */
    ghost predicate Heading(path: seq<nat>, slot: Slot, h: nat, k: K)
      reads this, heap
    {
      Intact() && Following(hash, heap.cells, mine, generation, tree, path, slot, h, k)
    }

    ghost predicate IsAt(child: Ptr, t: Tree<K, V>)
      reads heap
    {
      && child == PtrOf(t) && (child == 0 <==> t.Null?)
      && (child != 0 ==> child in heap.cells && heap.cells[child] == CellOf(t))
    }

    /** One step of the descent; it is the last one if the node had no child for the hash. */
    method Step(slot: Slot, h: nat, depth: nat, child: Ptr, ghost path: seq<nat>, k: K) returns (next: Slot, below: Ptr, ghost longer: seq<nat>)
      requires Descending(path, slot, h, depth, child, k) && SubAt(tree, path).Node?
      modifies this`root, this`tree, this`mine, this`contents, heap
      ensures Changed(longer, next, k) && Descending(longer, next, h / ARITY, depth + 5, below, k)
      ensures SubAt(tree, longer).Null? || SubAt(tree, longer) < old(SubAt(tree, path))
    {
      if Bit(heap.cells[child].bitmap, h % ARITY) {
        next, longer := StepDown(slot, h, path, k);
      } else {
        next, longer := GrowDown(slot, h, path, k);
      }
      below := ReadSlot(next, longer, k);
    }

    /** One step of several, which started with these cells. */
    method StepFrom(slot: Slot, h: nat, depth: nat, child: Ptr, ghost path: seq<nat>, k: K, ghost cells: Cells<K, V>, ghost was: set<Ptr>)
      returns (next: Slot, below: Ptr, ghost longer: seq<nat>)
      requires Descending(path, slot, h, depth, child, k) && SubAt(tree, path).Node? && Evolves(cells, was, heap.cells, mine)
      modifies this`root, this`tree, this`mine, this`contents, heap
      ensures Descending(longer, next, h / ARITY, depth + 5, below, k) && Evolves(cells, was, heap.cells, mine)
      ensures contents == old(contents) && size == old(size) && generation == old(generation)
      ensures SubAt(tree, longer).Null? || SubAt(tree, longer) < old(SubAt(tree, path))
    {
      next, below, longer := Step(slot, h, depth, child, path, k);
      EvolvesTrans(cells, was, old(heap.cells), old(mine), heap.cells, mine);
    }

    /** Follow the hash of `k`, making the nodes on the way writable, to the slot of its chain. */
    method Descend(k: K) returns (slot: Slot, h: nat, depth: nat, ghost path: seq<nat>)
      requires Valid()
      modifies this`root, this`tree, this`mine, this`contents, heap
      ensures Changed(path, slot, k) && !ThroughLeaf(tree, path) && !SubAt(tree, path).Node?
      ensures h == Rest(hash(k), DepthAt(tree, path)) && depth == 5 * DepthAt(tree, path)
    {
      slot, h, depth, path := AtRoot, hash(k), 0, [];
      SharpIsTop(hash, tree, k);
      var child := ReadSlot(slot, path, k);
      while child != 0 && heap.cells[child].NodeCell?
        invariant Descending(path, slot, h, depth, child, k) && Evolves(old(heap.cells), old(mine), heap.cells, mine)
        invariant contents == old(contents) && size == old(size) && generation == old(generation)
        decreases !SubAt(tree, path).Null?, SubAt(tree, path)
      {
        slot, child, path := StepFrom(slot, h, depth, child, path, k, old(heap.cells), old(mine));
        h, depth := h / ARITY, depth + 5;
      }
    }

    /** Look for `k` in the chain. */
    method SearchChain(slot: Slot, ghost path: seq<nat>, k: K) returns (leaf: Ptr)
      requires Intact() && Searching(path, slot, k) && !SubAt(tree, path).Node?
      ensures leaf == PtrOf(LeafOf(SubAt(tree, path), k)) && (leaf == 0 <==> k !in contents)
      ensures leaf != 0 ==> leaf in heap.cells && heap.cells[leaf] == CellOf(LeafOf(SubAt(tree, path), k))
    {
      leaf := ReadSlot(slot, path, k);
      ghost var t := SubAt(tree, path);
      ghost var h := Rest(hash(k), DepthAt(tree, path));
      GoodChain(hash, t, DepthAt(tree, path), generation);
      FoundBelow(hash, tree, path, 0, generation, k);
      assert Get(t, h, k) == Lookup(contents, k);
      while leaf != 0 && heap.cells[leaf].key != k
        invariant IsChain(t) && Stored(heap.cells, t) && leaf == PtrOf(t)
        invariant LeafOf(t, k) == LeafOf(SubAt(tree, path), k) && Get(t, h, k) == Lookup(contents, k)
        decreases t
      {
        assert Kid(t, 0) == t.next;
        t := t.next;
        leaf := heap.cells[leaf].next;
      }
    }

    /** Go over the leaves of one's own, which all come before the others. */
    method SkipOwn(slot: Slot, ghost path: seq<nat>, k: K) returns (next: Slot, ghost longer: seq<nat>)
      requires Intact() && Searching(path, slot, k) && SubAt(tree, path).Leaf?
      requires LeafOf(SubAt(tree, path), k).Leaf? && LeafOf(SubAt(tree, path), k).gen != generation
      ensures Searching(longer, next, k) && LeafOf(SubAt(tree, longer), k) == LeafOf(SubAt(tree, path), k)
      ensures SubAt(tree, longer).Leaf? && SubAt(tree, longer).gen != generation
    {
      next, longer := slot, path;
      LeafIsFound(hash, SubAt(tree, path), k);
      var child := ReadSlot(slot, path, k);
      while heap.cells[child].gen == generation
        invariant Searching(longer, next, k) && LeafOf(SubAt(tree, longer), k) == LeafOf(SubAt(tree, path), k)
        invariant SubAt(tree, longer).Leaf? && child == PtrOf(SubAt(tree, longer))
        invariant Stored(heap.cells, SubAt(tree, longer))
        decreases SubAt(tree, longer)
      {
        ghost var t := SubAt(tree, longer);
        SameRest(hash, heap.cells, mine, generation, tree, longer, next, k);
        StepOver(hash, heap.cells, mine, generation, tree, longer, next, k);
        next, longer := Field(child, 0), longer + [0];
        child := ReadSlot(next, longer, k);
      }
    }

    /** Copy the leaves up to the one that is wanted. */
    method UncowUpTo(slot: Slot, leaf: Ptr, ghost path: seq<nat>, k: K) returns (q: Ptr, next: Slot, ghost longer: seq<nat>)
      requires Intact() && Searching(path, slot, k) && SubAt(tree, path).Leaf? && SubAt(tree, path).gen != generation
      requires LeafOf(SubAt(tree, path), k).Leaf? && leaf == LeafOf(SubAt(tree, path), k).p
      modifies this`root, this`tree, this`mine, this`contents, heap
      ensures Changed(longer, next, k) && SubAt(tree, longer).Leaf? && SubAt(tree, longer).key == k
      ensures SubAt(tree, longer).gen == generation && q == SubAt(tree, longer).p
    {
      next, longer := slot, path;
      var child := ReadSlot(slot, path, k);
      while child != leaf
        invariant Changed(longer, next, k) && SubAt(tree, longer).Leaf? && SubAt(tree, longer).gen != generation
        invariant LeafOf(SubAt(tree, longer), k).Leaf? && leaf == LeafOf(SubAt(tree, longer), k).p
        invariant child == SubAt(tree, longer).p
        decreases SubAt(tree, longer)
      {
        ghost var c, m, was := heap.cells, mine, longer;
        next, longer := UncowAndStep(next, longer, k);
        EvolvesTrans(old(heap.cells), old(mine), c, m, heap.cells, mine);
        child := ReadSlot(next, longer, k);
      }
      SubIsStored(heap.cells, tree, longer);
      LeafIsFirst(SubAt(tree, longer), k);
      ghost var c, m := heap.cells, mine;
      q := UncowLeaf(next, longer, k);
      EvolvesTrans(old(heap.cells), old(mine), c, m, heap.cells, mine);
    }

    method UncowAndStep(slot: Slot, ghost path: seq<nat>, k: K) returns (next: Slot, ghost longer: seq<nat>)
      requires Intact() && Searching(path, slot, k) && SubAt(tree, path).Leaf? && SubAt(tree, path).gen != generation
      requires LeafOf(SubAt(tree, path), k).Leaf? && SubAt(tree, path) != LeafOf(SubAt(tree, path), k)
      modifies this`root, this`tree, this`mine, this`contents, heap
      ensures Changed(longer, next, k) && SubAt(tree, longer) == old(SubAt(tree, path)).next
      ensures SubAt(tree, longer).Leaf? && SubAt(tree, longer).gen != generation
      ensures LeafOf(SubAt(tree, longer), k) == old(LeafOf(SubAt(tree, path), k))
    {
      ghost var h := SubAt(tree, path);
      SubIsGood(hash, tree, path, 0, generation, k);
      var child := UncowLeaf(slot, path, k);
      LeafIsFound(hash, SubAt(tree, path), k);
      SameRest(hash, heap.cells, mine, generation, tree, path, slot, k);
      StepOver(hash, heap.cells, mine, generation, tree, path, slot, k);
      next, longer := Field(child, 0), path + [0];
    }
  
    /** Put a node above the chain, to tell its hash from the one of `k` by one more digit. */
    method SplitOnce(slot: Slot, first: nat, h: nat, ghost path: seq<nat>, k: K) returns (next: Slot, ghost longer: seq<nat>)
      requires Intact() && Searching(path, slot, k) && SubAt(tree, path).Leaf? && !ThroughLeaf(tree, path)
      requires h == Rest(hash(k), DepthAt(tree, path)) && first == Rest(hash(SubAt(tree, path).key), DepthAt(tree, path)) != h
      modifies this`root, this`tree, this`mine, this`contents, heap
      ensures Changed(longer, next, k) && !ThroughLeaf(tree, longer) && DepthAt(tree, longer) == old(DepthAt(tree, path)) + 1
      ensures SubAt(tree, longer) == if first % ARITY == h % ARITY then old(SubAt(tree, path)) else Null
    {
      ghost var chain := SubAt(tree, path);
      var e, n := first % ARITY, h % ARITY;
      var forNew := if n < e then 1 else 0;
      var q := PutAbove(slot, e, n, path, k);
      StepIntoSplit(chain, q, generation, e, n, h);
      StepInto(hash, heap.cells, mine, generation, tree, path, slot, k);
      next, longer := Field(q, forNew), path + [forNew];
    }

    /** The new node, above a chain that goes to slot `e`. */
    method PutAbove(slot: Slot, e: nat, n: nat, ghost path: seq<nat>, k: K) returns (q: Ptr)
      requires Intact() && Searching(path, slot, k) && SubAt(tree, path).Leaf? && !ThroughLeaf(tree, path) && n < ARITY
      requires e == Rest(hash(SubAt(tree, path).key), DepthAt(tree, path)) % ARITY && hash(SubAt(tree, path).key) != hash(k)
      modifies this`root, this`tree, this`mine, this`contents, heap
      ensures Changed(path, slot, k) && SubAt(tree, path) == Split(old(SubAt(tree, path)), q, generation, e, n)
      ensures DepthAt(tree, path) == old(DepthAt(tree, path)) && ThroughLeaf(tree, path) == old(ThroughLeaf(tree, path))
    {
      var child := ReadSlot(slot, path, k);
      ghost var chain := SubAt(tree, path);
      var forExisting := if e < n then 1 else 0;
      var forNew := if n < e then 1 else 0;
      var slots: seq<Ptr> := if e == n then [0] else [0, 0];
      slots := slots[forNew := 0];
      slots := slots[forExisting := child];
      SplitCell(chain, generation, e, n, slots);
      q := heap.Malloc(NodeCell(generation, PairBitmap(e, n), slots));
      ghost var r := Disambiguate(hash, old(heap.cells), mine, generation, tree, path, slot, k, q, n);
      StillDenotes(hash, tree, r, k, contents);
      Install(slot, q, path, k, r, mine + {q}, contents);
    }

    /**
     * As long as the chain has another hash than `k`, put nodes above it.  The result `shiftedOut` says whether
     * the hash of the chain is shifted by its width or more.
     */
    method SplitChain(slot: Slot, h: nat, depth: nat, ghost path: seq<nat>, k: K)
      returns (next: Slot, shiftedOut: bool, ghost longer: seq<nat>)
      requires Intact() && Searching(path, slot, k) && !SubAt(tree, path).Node? && !ThroughLeaf(tree, path)
      requires h == Rest(hash(k), DepthAt(tree, path)) && depth == 5 * DepthAt(tree, path)
      modifies this`root, this`tree, this`mine, this`contents, heap
      ensures Changed(longer, next, k) && !SubAt(tree, longer).Node?
      ensures SubAt(tree, longer).Leaf? ==>
        Rest(hash(SubAt(tree, longer).key), DepthAt(tree, longer)) == Rest(hash(k), DepthAt(tree, longer))
      ensures shiftedOut <==> old(SubAt(tree, path).Leaf? && 5 * DepthAt(tree, path) >= WIDTH)
    {
      next, longer, shiftedOut := slot, path, false;
      var child := ReadSlot(slot, path, k);
      if child == 0 {
        return;
      }
      shiftedOut := depth >= WIDTH;
      var first := Shr(hash(heap.cells[child].key), depth);
      RestIsShift(hash(heap.cells[child].key), DepthAt(tree, path));
      if first != h {
        next, longer := SplitApart(slot, first, h, path, k);
      }
    }

    /** Put nodes above the chain, one for each digit that is the same. */
    method SplitApart(slot: Slot, from: nat, h: nat, ghost path: seq<nat>, k: K) returns (next: Slot, ghost longer: seq<nat>)
      requires Intact() && Searching(path, slot, k) && SubAt(tree, path).Leaf? && !ThroughLeaf(tree, path)
      requires h == Rest(hash(k), DepthAt(tree, path)) && from == Rest(hash(SubAt(tree, path).key), DepthAt(tree, path)) != h
      modifies this`root, this`tree, this`mine, this`contents, heap
      ensures Changed(longer, next, k) && SubAt(tree, longer) == Null
    {
      next, longer := slot, path;
      var first, rest := from, h;
      while true
        invariant Changed(longer, next, k) && SubAt(tree, longer).Leaf? && !ThroughLeaf(tree, longer) && first != rest
        invariant rest == Rest(hash(k), DepthAt(tree, longer))
        invariant first == Rest(hash(SubAt(tree, longer).key), DepthAt(tree, longer))
        decreases first + rest
      {
        ghost var c, m := heap.cells, mine;
        next, longer := SplitOnce(next, first, rest, longer, k);
        EvolvesTrans(old(heap.cells), old(mine), c, m, heap.cells, mine);
        if first % ARITY != rest % ARITY {
          return;
        }
        first, rest := first / ARITY, rest / ARITY;
      }
    }

    /** Put a new leaf at the head of the chain. */
    method InsertLeaf(slot: Slot, ghost path: seq<nat>, k: K) returns (q: Ptr)
      requires Intact() && Searching(path, slot, k) && !SubAt(tree, path).Node? && k !in contents
      requires SubAt(tree, path).Leaf? ==> Rest(hash(SubAt(tree, path).key), DepthAt(tree, path)) == Rest(hash(k), DepthAt(tree, path))
      modifies this`root, this`tree, this`mine, this`contents, this`size, heap
      ensures Intact() && Searching(path, slot, k) && Evolves(old(heap.cells), old(mine), heap.cells, mine)
      ensures contents == old(contents)[k := zero] && SubAt(tree, path) == Leaf(q, generation, k, zero, old(SubAt(tree, path)))
    {
      var child := ReadSlot(slot, path, k);
      q := heap.Malloc(LeafCell(generation, k, zero, child));
      ghost var s := Leaf(q, generation, k, zero, SubAt(tree, path));
      assert heap.cells == old(heap.cells)[q := CellOf(s)];
      ghost var r := AddBinding(hash, old(heap.cells), mine, generation, tree, path, slot, k, q, zero, contents);
      size := size + 1;
      Install(slot, q, path, k, r, mine + {q}, contents[k := zero]);
    }

    /** `mut`: a leaf of one's own for `k`, which is a new one with the default value if there was none. */
    method Mut(k: K) returns (leaf: Ptr, shiftedOut: bool, ghost path: seq<nat>, ghost slot: Slot)
      requires Valid()
      modifies this`root, this`tree, this`mine, this`contents, this`size, heap
      ensures Valid() && Evolves(old(heap.cells), old(mine), heap.cells, mine)
      ensures contents == if k in old(contents) then old(contents) else old(contents)[k := zero]
      ensures Searching(path, slot, k) && SubAt(tree, path).Leaf? && SubAt(tree, path).key == k && k in contents
      ensures SubAt(tree, path).gen == generation && leaf == SubAt(tree, path).p
      ensures ShortHashes(hash, old(contents).Keys + {k}) ==>
        (shiftedOut <==> k !in old(contents) && Crowded(hash, old(contents).Keys, k))
    {
      var child, h, depth;
      child, h, depth, path := Descend(k);
      leaf := SearchChain(child, path, k);
      if leaf != 0 {
        ghost var c, m := heap.cells, mine;
        leaf, path, slot := MakeOwn(child, leaf, path, k);
        shiftedOut := false;
        EvolvesTrans(old(heap.cells), old(mine), c, m, heap.cells, mine);
      } else {
        ghost var c, m := heap.cells, mine;
        leaf, shiftedOut, path, slot := Insert(child, h, depth, path, k);
        EvolvesTrans(old(heap.cells), old(mine), c, m, heap.cells, mine);
      }
      Filled(tree, path);
      SharpFilled(hash, tree, path, k);
    }

    method Insert(child: Slot, h: nat, depth: nat, ghost path: seq<nat>, k: K)
      returns (leaf: Ptr, shiftedOut: bool, ghost longer: seq<nat>, ghost slot: Slot)
      requires Intact() && Searching(path, child, k) && !SubAt(tree, path).Node? && !ThroughLeaf(tree, path)
      requires h == Rest(hash(k), DepthAt(tree, path)) && depth == 5 * DepthAt(tree, path) && k !in contents
      modifies this`root, this`tree, this`mine, this`contents, this`size, heap
      ensures Intact() && Evolves(old(heap.cells), old(mine), heap.cells, mine) && contents == old(contents)[k := zero]
      ensures Searching(longer, slot, k) && SubAt(tree, longer).Leaf? && SubAt(tree, longer).key == k
      ensures SubAt(tree, longer).gen == generation && leaf == SubAt(tree, longer).p
      ensures ShortHashes(hash, old(contents).Keys + {k}) ==> (shiftedOut <==> Crowded(hash, old(contents).Keys, k))
    {
      KeysAreContents(hash, tree, generation, contents);
      if ShortHashes(hash, contents.Keys + {k}) {
        DeepIffCrowded(hash, tree, path, generation, k);
      }
      var at;
      at, shiftedOut, longer := SplitChain(child, h, depth, path, k);
      ghost var c, m := heap.cells, mine;
      leaf := InsertLeaf(at, longer, k);
      EvolvesTrans(old(heap.cells), old(mine), c, m, heap.cells, mine);
      slot := at;
    }

    /** The leaf that was found, or a copy if it is not one's own. */
    method MakeOwn(child: Slot, found: Ptr, ghost path: seq<nat>, k: K) returns (leaf: Ptr, ghost longer: seq<nat>, ghost slot: Slot)
      requires Intact() && Searching(path, child, k) && !SubAt(tree, path).Node?
      requires LeafOf(SubAt(tree, path), k).Leaf? && found == LeafOf(SubAt(tree, path), k).p
      requires found in heap.cells && heap.cells[found] == CellOf(LeafOf(SubAt(tree, path), k))
      modifies this`root, this`tree, this`mine, this`contents, heap
      ensures Changed(longer, slot, k)
      ensures SubAt(tree, longer).Leaf? && SubAt(tree, longer).key == k
      ensures SubAt(tree, longer).gen == generation && leaf == SubAt(tree, longer).p
    {
      LeafIsFound(hash, SubAt(tree, path), k);
      if heap.cells[found].gen != generation {
        var at;
        at, longer := SkipOwn(child, path, k);
        leaf, at, longer := UncowUpTo(at, found, longer, k);
        slot := at;
      } else {
        leaf := found;
        slot, longer := WalkTo(child, path, k);
      }
    }

    /** A leaf of one's own is reached over leaves of one's own. */
    ghost method WalkTo(child: Slot, path: seq<nat>, k: K) returns (slot: Slot, longer: seq<nat>)
      requires Intact() && Searching(path, child, k) && !SubAt(tree, path).Node?
      requires LeafOf(SubAt(tree, path), k).Leaf? && LeafOf(SubAt(tree, path), k).gen == generation
      ensures Searching(longer, slot, k) && SubAt(tree, longer) == LeafOf(SubAt(tree, path), k) && SubAt(tree, longer).key == k
    {
      slot, longer := child, path;
      LeafIsFound(hash, SubAt(tree, path), k);
      while SubAt(tree, longer).key != k
        invariant Searching(longer, slot, k) && SubAt(tree, longer).Leaf?
        invariant LeafOf(SubAt(tree, longer), k) == LeafOf(SubAt(tree, path), k)
        decreases SubAt(tree, longer)
      {
        SubIsGood(hash, tree, longer, 0, generation, k);
        OwnComesFirst(hash, SubAt(tree, longer), DepthAt(tree, longer), generation, k);
        SameRest(hash, heap.cells, mine, generation, tree, longer, slot, k);
        LeafIsFound(hash, SubAt(tree, longer), k);
        StepOver(hash, heap.cells, mine, generation, tree, longer, slot, k);
        slot, longer := Field(SubAt(tree, longer).p, 0), longer + [0];
      }
    }

    /** `mut(k) = v`. */
    method Put(k: K, v: V)
      requires Valid()
      modifies this`root, this`tree, this`mine, this`contents, this`size, heap
      ensures Valid() && contents == old(contents)[k := v] && Evolves(old(heap.cells), old(mine), heap.cells, mine)
    {
      ghost var path, slot;
      var leaf;
      var shiftedOut;
      leaf, shiftedOut, path, slot := Mut(k);
      ghost var c, m := heap.cells, mine;
      assert Get(tree, hash(k), k) == Lookup(contents, k);
      Assign(leaf, v, path, slot, k);
      EvolvesTrans(old(heap.cells), old(mine), c, m, heap.cells, mine);
    }

    /** What a caller does with the reference that `mut` returns. */
    method Assign(leaf: Ptr, v: V, ghost path: seq<nat>, ghost slot: Slot, k: K)
      requires Valid() && Searching(path, slot, k) && SubAt(tree, path).Leaf? && SubAt(tree, path).key == k
      requires SubAt(tree, path).gen == generation && leaf == SubAt(tree, path).p && k in contents
      modifies this`tree, this`contents, heap
      ensures Valid() && contents == old(contents)[k := v] && Evolves(old(heap.cells), mine, heap.cells, mine)
    {
      ghost var r := AssignBinding(hash, heap.cells, mine, generation, tree, path, slot, k, v, contents);
      var cell := heap.cells[leaf];
      heap.cells := heap.cells[leaf := LeafCell(cell.gen, cell.key, v, cell.next)];
      tree, contents := r, contents[k := v];
    }

    /** `free_child`: free the cells of one's own below a pointer. */
    method FreeChild(child: Ptr, ghost t: Tree<K, V>, ghost d: nat, ghost g: nat)
      requires child == PtrOf(t) && Stored(heap.cells, t) && Tidy(t) && Good(hash, t, d, g) && g <= generation
      modifies heap
      ensures heap.cells == old(heap.cells) - Own(old(heap.cells), t, generation)
      decreases t
    {
      if child == 0 || heap.cells[child].gen != generation {
        ForeignOwnsNothing(hash, heap.cells, t, d, g, generation);
        return;
      }
      PtrsAreStored(heap.cells, t);
      match heap.cells[child]
      case LeafCell(_, _, _, _) =>
        FreeLeaves(child, t, d, g);
      case NodeCell(_, bitmap, slots) =>
        var size := Popcount(bitmap);
        assert size == |t.kids|;
        FreeKids(size, slots, t, d, g);
        OwnOfNode(old(heap.cells), t, generation);
        heap.Free(child);
    }

    method FreeLeaves(child: Ptr, ghost t: Tree<K, V>, ghost d: nat, ghost g: nat)
      requires t.Leaf? && child == t.p && Stored(heap.cells, t) && Tidy(t) && Good(hash, t, d, g) && g <= generation
      requires t.gen == generation
      modifies heap
      ensures heap.cells == old(heap.cells) - Own(old(heap.cells), t, generation)
    {
      var leaf := child;
      ghost var rest: Tree<K, V>, h: nat := t, g;
      while leaf != 0 && heap.cells[leaf].gen == generation
        invariant !rest.Node? && leaf == PtrOf(rest) && Stored(heap.cells, rest) && Tidy(rest)
        invariant Good(hash, rest, d, h) && h <= generation
        invariant heap.cells - Own(heap.cells, rest, generation) == old(heap.cells) - Own(old(heap.cells), t, generation)
        decreases rest
      {
        var next := heap.cells[leaf].next;
        ghost var cells := heap.cells;
        assert Kid(rest, 0) == rest.next;
        heap.Free(leaf);
        OwnOfLeaf(cells, rest, generation);
        h := rest.gen;
        rest := rest.next;
        leaf := next;
      }
      ForeignOwnsNothing(hash, heap.cells, rest, d, h, generation);
      assert heap.cells - {} == heap.cells;
    }

    method FreeKids(size: nat, slots: seq<Ptr>, ghost t: Tree<K, V>, ghost d: nat, ghost g: nat)
      requires t.Node? && Stored(heap.cells, t) && Tidy(t) && Good(hash, t, d, g) && t.gen == g == generation
      requires size == |t.kids| && slots == CellOf(t).slots
      modifies heap
      ensures heap.cells == old(heap.cells) - KidsOwn(old(heap.cells), t, generation, 0)
      decreases t, 0
    {
      var i := size;
      while i > 0
        invariant 0 <= i <= size && heap.cells == old(heap.cells) - KidsOwn(old(heap.cells), t, generation, i)
      {
        i := i - 1;
        ghost var kid := Kid(t, i);
        assert kid == t.kids[i];
        KidUntouched(old(heap.cells), heap.cells, t, generation, i);
        FreeChild(slots[i], kid, d + 1, generation);
        assert KidsOwn(old(heap.cells), t, generation, i) ==
          KidsOwn(old(heap.cells), t, generation, i + 1) + Own(old(heap.cells), kid, generation);
      }
    }

    /** The destructor frees the cells that the map has allocated, and no others. */
    method Destroy()
      requires Valid()
      modifies heap
      ensures heap.cells == old(heap.cells) - mine
    {
      FreeChild(root, tree, 0, generation);
    }

    /** `for_each`. */
    method ForEach() returns (visited: seq<(K, V)>)
      requires Valid()
      ensures |visited| == size == |contents|
      ensures DistinctKeys(visited)
      ensures forall k, v :: (k, v) in visited <==> k in contents && contents[k] == v
    {
      if root == 0 {
        visited := [];
      } else {
        visited := Visit(root, tree, 0, generation);
      }
      BindingsDistinct(hash, tree, 0, generation);
      forall k, v
        ensures (k, v) in visited <==> k in contents && contents[k] == v
      {
        BindingsAreFound(hash, tree, 0, generation, k, v);
        assert Get(tree, hash(k), k) == Lookup(contents, k);
      }
      CountBindings(visited, contents);
    }

    method Visit(child: Ptr, ghost t: Tree<K, V>, ghost d: nat, ghost g: nat) returns (visited: seq<(K, V)>)
      requires child == PtrOf(t) && !t.Null? && Stored(heap.cells, t) && Full(t) && Good(hash, t, d, g)
      ensures visited == Bindings(t)
      decreases t
    {
      visited := [];
      match heap.cells[child]
      case LeafCell(_, _, _, _) =>
        var leaf := child;
        ghost var rest: Tree<K, V>, h: nat := t, g;
        while leaf != 0
          invariant !rest.Node? && leaf == PtrOf(rest) && Stored(heap.cells, rest) && Good(hash, rest, d, h)
          invariant visited + Bindings(rest) == Bindings(t)
          decreases rest
        {
          visited := visited + [(heap.cells[leaf].key, heap.cells[leaf].val)];
          assert Kid(rest, 0) == rest.next;
          leaf := heap.cells[leaf].next;
          h := rest.gen;
          rest := rest.next;
        }
      case NodeCell(_, bitmap, slots) =>
        var size := Popcount(bitmap);
        for i := 0 to size
          invariant size == |t.kids| && visited == BindingsOf(t.kids[..i])
        {
          assert Kid(t, i) == t.kids[i] && t.kids[..i + 1][..i] == t.kids[..i];
          var more := Visit(slots[i], t.kids[i], d + 1, t.gen);
          visited := visited + more;
        }
        assert t.kids[..size] == t.kids;
    }
  }

  /** A new leaf, and what the map contains then. */
  lemma AddBinding<K(!new), V>(hash: K -> nat, cells: Cells<K, V>, mine: set<Ptr>, g: nat, t: Tree<K, V>, path: seq<nat>, slot: Slot,
                               k: K, q: Ptr, v: V, m: map<K, V>)
    returns (r: Tree<K, V>)
    requires Working(hash, cells, mine, g, t, path, slot, k) && !SubAt(t, path).Node? && q != 0 && q !in cells
    requires Denotes(hash, t, m) && k !in m
    requires SubAt(t, path).Leaf? ==> Rest(hash(SubAt(t, path).key), DepthAt(t, path)) == Rest(hash(k), DepthAt(t, path))
    ensures var h := SubAt(t, path); var s := Leaf(q, g, k, v, h); var mid := cells[q := CellOf(s)];
      && Edited(hash, cells, mine, Written(mid, slot, q), mine + {q}, g, t, r, path, slot, s, k, Some(v))
      && (slot.Field? ==> slot.cell in mid && HasSlot(mid[slot.cell], slot.i))
    ensures Denotes(hash, r, m[k := v]) && |m[k := v]| == |m| + 1
  {
    assert Get(t, hash(k), k) == Lookup(m, k);
    r := AddLeaf(hash, cells, mine, g, t, path, slot, k, q, v);
    DenotesUpdate(hash, t, r, k, m, v);
    OneMore(m, k, v);
  }

  /** A leaf with another value, and what the map contains then. */
  lemma AssignBinding<K(!new), V>(hash: K -> nat, cells: Cells<K, V>, mine: set<Ptr>, g: nat, t: Tree<K, V>, path: seq<nat>, slot: Slot,
                                  k: K, v: V, m: map<K, V>)
    returns (r: Tree<K, V>)
    requires Working(hash, cells, mine, g, t, path, slot, k) && SubAt(t, path).Leaf? && SubAt(t, path).key == k && SubAt(t, path).gen == g
    requires Denotes(hash, t, m) && k in m
    ensures SubAt(t, path).p in mine && SubAt(t, path).p in cells && cells[SubAt(t, path).p] == CellOf(SubAt(t, path))
    ensures var s := SubAt(t, path).(val := v); var after := cells[s.p := CellOf(s)];
      && Sound(hash, after, r, g) && mine == Own(after, r, g) && Full(r) && Sharp(hash, r) && Evolves(cells, mine, after, mine)
      && Foreign(r, mine) <= Foreign(t, mine)
    ensures Denotes(hash, r, m[k := v]) && |m[k := v]| == |m| && PtrOf(r) == PtrOf(t)
  {
    r := AssignTo(hash, cells, mine, g, t, path, slot, k, v);
    DenotesUpdate(hash, t, r, k, m, v);
    Filled(r, path);
    SharpFilled(hash, r, path, k);
    if slot.AtRoot? { assert PtrOf(t) == PtrOf(SubAt(t, path)); }
    assert m[k := v].Keys == m.Keys;
  }

  lemma OneMore<K, V>(m: map<K, V>, k: K, v: V)
    requires k !in m
    ensures |m[k := v]| == |m| + 1
  {
    assert m[k := v].Keys == m.Keys + {k};
  }

  // ----- Shifts by the width of a hash ---------------------------------------------------------------------

  /** The first and the third key have the same hash, from which that of the second differs in bit 62 only. */
  function ThreeHashes(k: int): nat {
    if k == 1 then 0x4000_0000_0000_0005 else 5
  }

  lemma ThreeAreCrowded()
    ensures ShortHashes(ThreeHashes, {0, 1, 2}) && Crowded(ThreeHashes, {0, 1}, 2)
    ensures Shr(ThreeHashes(0), 65) == 0 == Rest(ThreeHashes(2), 13) && Shr(ThreeHashes(0), 65 % WIDTH) == 2
  {
    var a, b: nat := 0x4000_0000_0000_0005, 5;
    assert a % ARITY == 5 && a / ARITY == 0x0200_0000_0000_0000 && b / ARITY == 0;
    assert Power(4) == 0x10_0000;
    assert Power(8) == 0x100_0000_0000;
    assert Power(11) == 0x80_0000_0000_0000;
    ZeroDigits(4, 11);
    assert SameLow(a, b, 12) && Crowded(ThreeHashes, {0, 1}, 2) by {
      assert ThreeHashes(0) == 5 && ThreeHashes(1) == a && ThreeHashes(2) == 5;
    }
    ShiftedOut(5, 13);
    RestIsShift(5, 13);
    assert Shr(5, 1) == 2;
  }

  lemma TwoKeys(m: map<int, int>)
    requires m == map[][0 := 0][1 := 0]
    ensures m.Keys == {0, 1} && m.Keys + {2} == {0, 1, 2} && 2 !in m
  {
  }

  /** On the third of them, a hash is shifted by more than its width. */
  method ShiftOutExample(m: GenMap<int, int>) returns (shiftedOut: bool)
    requires m.Valid() && m.contents == map[] && m.hash == ThreeHashes && m.zero == 0
    modifies m, m.heap
    ensures shiftedOut
  {
    m.Put(0, 0);
    m.Put(1, 0);
    ThreeAreCrowded();
    TwoKeys(m.contents);
    ghost var path, slot;
    var leaf;
    leaf, shiftedOut, path, slot := m.Mut(2);
  }

  // ----- Copies ------------------------------------------------------------------------------------------

  function Applied<K, V>(m: map<K, V>, changes: seq<(K, V)>): map<K, V> {
    if changes == [] then m
    else var n := |changes| - 1; Applied(m, changes[..n])[changes[n].0 := changes[n].1]
  }

  /** A tree is not disturbed by another map, if it has none of its cells. */
  lemma Undisturbed<K(!new), V>(hash: K -> nat, c: Cells<K, V>, m: set<Ptr>, d: Cells<K, V>, n: set<Ptr>, t: Tree<K, V>, g: nat)
    requires Sound(hash, c, t, g) && Evolves(c, m, d, n) && m !! Ptrs(t)
    ensures Sound(hash, d, t, g) && Own(d, t, g) == Own(c, t, g) && Ptrs(t) !! n
  {
    PtrsAreStored(c, t);
    OthersKept(c, m, d, n, Ptrs(t));
    StoredFrame(c, d, t);
  }

  /** However a copy is changed, its source stays the same. */
  method CopyAndChange<K(==, !new), V>(source: GenMap<K, V>, changes: seq<(K, V)>) returns (copy: GenMap<K, V>)
    requires source.Valid()
    modifies source.heap
    ensures source.Valid() && fresh(copy) && copy.Valid() && copy.heap == source.heap
    ensures copy.contents == Applied(source.contents, changes)
    ensures Evolves(old(source.heap.cells), {}, source.heap.cells, copy.mine)
  {
    copy := new GenMap<K, V>.Copy(source);
    ghost var cells := source.heap.cells;
    for i := 0 to |changes|
      invariant copy.Valid() && copy.heap == source.heap && copy.contents == Applied(source.contents, changes[..i])
      invariant Evolves(cells, {}, source.heap.cells, copy.mine)
      modifies copy, source.heap
    {
      ghost var c, m := source.heap.cells, copy.mine;
      copy.Put(changes[i].0, changes[i].1);
      EvolvesTrans(cells, {}, c, m, source.heap.cells, copy.mine);
      assert changes[..i + 1][..i] == changes[..i];
    }
    assert changes[..|changes|] == changes;
    Undisturbed(source.hash, cells, {}, source.heap.cells, copy.mine, source.tree, source.generation);
  }

  /** After a copy has been changed and destroyed, all cells are as they were. */
  method UseCopy<K(==, !new), V>(source: GenMap<K, V>, changes: seq<(K, V)>)
    requires source.Valid()
    modifies source.heap
    ensures source.heap.cells == old(source.heap.cells)
  {
    ghost var cells := source.heap.cells;
    var copy := CopyAndChange(source, changes);
    NothingIsLeft(cells, source.heap.cells, copy.mine);
    copy.Destroy();
  }

  // ----- Several maps ------------------------------------------------------------------------------------

  /** No cell that `m` has allocated is used by `d`. */
  ghost predicate Apart<K(!new), V>(m: GenMap<K, V>, d: GenMap<K, V>)
    reads m, d
  {
    m.mine !! Ptrs(d.tree)
  }

  /**
   * Maps that share a heap.  The active ones may be changed: no other map uses a cell that one of them has
   * allocated.  The others, which have been copied, may not.
   */
  ghost predicate Family<K(!new), V>(active: set<GenMap<K, V>>, all: set<GenMap<K, V>>, heap: Heap<Cell<K, V>>)
    reads active, all, heap
  {
    && active <= all && (forall d :: d in all ==> d.heap == heap && d.Valid())
    && (forall m, d {:trigger Apart(m, d)} :: m in active && d in all && m != d ==> Apart(m, d))
  }

  /** A map that no other one looks into keeps its cells to itself when another one changes. */
  lemma StaysApart<K(!new), V>(cells: Cells<K, V>, m: set<Ptr>, now: set<Ptr>, after: Cells<K, V>,
                               t: Tree<K, V>, r: Tree<K, V>, d: Tree<K, V>, own: set<Ptr>)
    requires Evolves(cells, m, after, now) && m <= Ptrs(t) && Foreign(r, now) <= Foreign(t, m)
    requires Stored(cells, d) && own <= Ptrs(d) && own !! Ptrs(t)
    ensures own !! Ptrs(r)
  {
    PtrsAreStored(cells, d);
    forall x | x in own
      ensures x !in Ptrs(r)
    {
      assert x in cells && x !in m && x !in Foreign(t, m);
      assert x !in now;
    }
  }

  /** A change of a map leaves another one as it is, and each may be changed as before. */
  lemma OtherKept<K(!new), V>(hash: K -> nat, cells: Cells<K, V>, m: set<Ptr>, after: Cells<K, V>, now: set<Ptr>, t: Tree<K, V>, r: Tree<K, V>,
                              d: Tree<K, V>, own: set<Ptr>, g: nat)
    requires Evolves(cells, m, after, now) && m <= Ptrs(t) && Foreign(r, now) <= Foreign(t, m)
    requires Sound(hash, cells, d, g) && own == Own(cells, d, g) && m !! Ptrs(d)
    ensures Sound(hash, after, d, g) && own == Own(after, d, g) && now !! Ptrs(d)
    ensures own !! Ptrs(t) ==> own !! Ptrs(r)
  {
    Undisturbed(hash, cells, m, after, now, d, g);
    if own !! Ptrs(t) {
      StaysApart(cells, m, now, after, t, r, d, own);
    }
  }

  /** Changing an active map changes no other, and all may be changed as before. */
  method PutAmong<K(==, !new), V>(m: GenMap<K, V>, ghost active: set<GenMap<K, V>>, ghost all: set<GenMap<K, V>>, k: K, v: V)
    requires Family(active, all, m.heap) && m in active
    modifies m, m.heap
    ensures Family(active, all, m.heap) && m.contents == old(m.contents)[k := v]
    ensures forall d :: d in all && d != m ==> d.contents == old(d.contents)
  {
    ghost var cells, mine, tree := m.heap.cells, m.mine, m.tree;
    m.shared := Foreign(m.tree, m.mine);
    m.Put(k, v);
    forall d | d in all && d != m
      ensures d.Valid() && Apart(m, d) && (old(Apart(d, m)) ==> Apart(d, m))
    {
      assert old(d.Valid() && Apart(m, d));
      OtherKept(d.hash, cells, mine, m.heap.cells, m.mine, tree, m.tree, d.tree, d.mine, d.generation);
    }
    forall x, d | x in active && d in all && x != d
      ensures Apart(x, d)
    {
      assert old(Apart(x, d));
    }
  }

  /** Nor does destroying one. */
  method DestroyAmong<K(==, !new), V>(m: GenMap<K, V>, ghost active: set<GenMap<K, V>>, ghost all: set<GenMap<K, V>>)
    requires Family(active, all, m.heap) && m in active
    modifies m.heap
    ensures Family(active - {m}, all - {m}, m.heap)
    ensures forall d :: d in all ==> d.contents == old(d.contents)
  {
    ghost var cells := m.heap.cells;
    m.Destroy();
    forall d | d in all && d != m
      ensures d.Valid()
    {
      PtrsAreStored(cells, d.tree);
      assert old(Apart(m, d));
      Undisturbed(d.hash, cells, m.mine, m.heap.cells, {}, d.tree, d.generation);
    }
  }

  lemma CopyJoins<K(!new), V>(source: GenMap<K, V>, copy: GenMap<K, V>, active: set<GenMap<K, V>>, all: set<GenMap<K, V>>)
    requires Family(active, all, source.heap) && source in all && copy !in all
    requires copy.Valid() && copy.heap == source.heap && copy.mine == {} && copy.tree == source.tree
    ensures Family(active - {source} + {copy}, all + {copy}, source.heap)
  {
    forall m | m in active && m != source
      ensures Apart(m, copy)
    {
      assert Apart(m, source);
    }
  }

  /** A new copy is active, and its source may not be changed from then on. */
  method CopyAmong<K(==, !new), V>(source: GenMap<K, V>, ghost active: set<GenMap<K, V>>, ghost all: set<GenMap<K, V>>) returns (copy: GenMap<K, V>)
    requires Family(active, all, source.heap) && source in all
    ensures fresh(copy) && copy.contents == source.contents && copy.heap == source.heap
    ensures Family(active - {source} + {copy}, all + {copy}, source.heap)
  {
    copy := new GenMap<K, V>.Copy(source);
    CopyJoins(source, copy, active, all);
  }

  /** The changes that are for one of two maps. */
  function ChangesOf<K, V>(changes: seq<(bool, K, V)>, first: bool): seq<(K, V)> {
    if changes == [] then []
    else
      var n := |changes| - 1;
      ChangesOf(changes[..n], first) + if changes[n].0 == first then [(changes[n].1, changes[n].2)] else []
  }

  lemma AppliedOneMore<K, V>(m: map<K, V>, changes: seq<(bool, K, V)>, i: nat, first: bool)
    requires i < |changes|
    ensures Applied(m, ChangesOf(changes[..i + 1], first)) ==
      if changes[i].0 == first then Applied(m, ChangesOf(changes[..i], first))[changes[i].1 := changes[i].2]
      else Applied(m, ChangesOf(changes[..i], first))
  {
    assert changes[..i + 1][..i] == changes[..i];
    var before := ChangesOf(changes[..i], first);
    var c := (changes[i].1, changes[i].2);
    assert (before + [c])[..|before|] == before && before + [] == before;
  }

  /** One of two copies is changed. */
  method ChangeOne<K(==, !new), V>(a: GenMap<K, V>, b: GenMap<K, V>, source: GenMap<K, V>, first: bool, k: K, v: V)
    requires a != b && source !in {a, b} && Family({a, b}, {a, b, source}, source.heap)
    modifies a, b, source.heap
    ensures Family({a, b}, {a, b, source}, source.heap)
    ensures a.contents == if first then old(a.contents)[k := v] else old(a.contents)
    ensures b.contents == if first then old(b.contents) else old(b.contents)[k := v]
  {
    if first {
      PutAmong(a, {a, b}, {a, b, source}, k, v);
    } else {
      PutAmong(b, {a, b}, {a, b, source}, k, v);
    }
  }

  /** Two copies of one map, changed in turns: each sees its own changes only, and the source none. */
  method ChangeInTurns<K(==, !new), V>(source: GenMap<K, V>, changes: seq<(bool, K, V)>) returns (a: GenMap<K, V>, b: GenMap<K, V>)
    requires source.Valid()
    modifies source.heap
    ensures fresh(a) && fresh(b) && a != b && Family({a, b}, {a, b, source}, source.heap)
    ensures a.contents == Applied(source.contents, ChangesOf(changes, true))
    ensures b.contents == Applied(source.contents, ChangesOf(changes, false))
  {
    assert changes[..|changes|] == changes;
    a := CopyAmong(source, {}, {source});
    assert {} - {source} + {a} == {a} && {source} + {a} == {a, source};
    b := CopyAmong(source, {a}, {a, source});
    assert {a} - {source} + {b} == {a, b} && {a, source} + {b} == {a, b, source};
    for i := 0 to |changes|
      invariant Family({a, b}, {a, b, source}, source.heap)
      invariant a.contents == Applied(source.contents, ChangesOf(changes[..i], true))
      invariant b.contents == Applied(source.contents, ChangesOf(changes[..i], false))
      modifies a, b, source.heap
    {
      AppliedOneMore(source.contents, changes, i, true);
      AppliedOneMore(source.contents, changes, i, false);
      ChangeOne(a, b, source, changes[i].0, changes[i].1, changes[i].2);
    }
  }
}
