/**
 * src/GenVector.h: a vector that is copied in constant time.
 *
 * The elements are kept in limbs of a fixed size.  The root holds the pointers to the limbs and, behind them,
 * a bitmap that tells which limbs are shared with the vector that this one is a copy of.  A copy shares even
 * the root, until it is written.
 */
module GenVectors {
  import opened Bitmaps
  import opened Heaps
  import opened Options

  /** An allocated block: a limb, whose elements may be uninitialised, or a root. */
  datatype Block<T> =
    | Limb(elems: seq<Option<T>>)
    | Root(limbs: seq<Ptr>, bits: seq<nat>)

  const BITS_PER_UINT: nat := 8

  function NextCapacity(capacity: nat): nat {
    if capacity + 2 < capacity + (capacity + 1) / 2 then capacity + (capacity + 1) / 2 else capacity + 2
  }

  /** The capacity grows by half, rounded up, and by two at least. */
  ghost predicate GrowsTo(was: nat, capacity: nat) {
    && capacity >= was + 2 && capacity >= was + (was + 1) / 2
    && (capacity == was + 2 || capacity == was + (was + 1) / 2)
  }

  /** As many words as there must be for a bit for each limb, and no more. */
  function BitmapSize(capacity: nat): (words: nat)
    ensures capacity <= words * BITS_PER_UINT < capacity + BITS_PER_UINT
  {
    (capacity + BITS_PER_UINT - 1) / BITS_PER_UINT
  }

  predicate IsCow(bits: seq<nat>, i: nat) {
    i / BITS_PER_UINT < |bits| && Bit(bits[i / BITS_PER_UINT], i % BITS_PER_UINT)
  }

  // ----- Places ------------------------------------------------------------------------------------------

  /** The limb of element `k`. */
  function LimbOf(k: nat, limbSize: nat): nat
    requires limbSize > 0
  {
    if k < limbSize then 0 else LimbOf(k - limbSize, limbSize) + 1
  }

  /** The place of element `k` in its limb. */
  function OffsetOf(k: nat, limbSize: nat): (j: nat)
    requires limbSize > 0
    ensures j < limbSize
  {
    if k < limbSize then k else OffsetOf(k - limbSize, limbSize)
  }

  /** The first element of limb `i`. */
  function StartOf(i: nat, limbSize: nat): nat {
    if i == 0 then 0 else StartOf(i - 1, limbSize) + limbSize
  }

  /** The number of limbs that `size` elements need. */
  function LimbCount(size: nat, limbSize: nat): nat
    requires limbSize > 0
  {
    if size == 0 then 0 else LimbOf(size - 1, limbSize) + 1
  }

  lemma {:induction false} PlaceIs(k: nat, limbSize: nat)
    requires limbSize > 0
    ensures LimbOf(k, limbSize) == k / limbSize && OffsetOf(k, limbSize) == k % limbSize
  {
    if k >= limbSize {
      PlaceIs(k - limbSize, limbSize);
      DivStep(k - limbSize, limbSize);
    } else {
      DivIs(k, limbSize, 0);
    }
  }

  lemma DivStep(k: nat, d: nat)
    requires d > 0
    ensures (k + d) / d == k / d + 1 && (k + d) % d == k % d
  {
    var q := k / d;
    assert k == q * d + k % d && (q + 1) * d == q * d + d;
    DivIs(k + d, d, q + 1);
  }

  lemma {:induction false} StartIs(i: nat, limbSize: nat)
    ensures StartOf(i, limbSize) == i * limbSize
  {
    if i > 0 {
      StartIs(i - 1, limbSize);
      assert i * limbSize == (i - 1) * limbSize + limbSize;
    }
  }

  /** `limb_count`: the size divided by that of a limb, rounded up. */
  lemma LimbCountIs(size: nat, limbSize: nat)
    requires limbSize > 0
    ensures LimbCount(size, limbSize) == (size + limbSize - 1) / limbSize
  {
    if size > 0 {
      PlaceIs(size - 1, limbSize);
      DivStep(size - 1, limbSize);
      assert size - 1 + limbSize == size + limbSize - 1;
    } else {
      DivIs(limbSize - 1, limbSize, 0);
    }
  }

  lemma MulMono(a: int, b: int, d: nat)
    requires a <= b
    ensures a * d <= b * d
  {
  }

  lemma DivIs(x: nat, d: nat, q: nat)
    requires d > 0 && q * d <= x < q * d + d
    ensures x / d == q && x % d == x - q * d
  {
    var p := x / d;
    assert x == p * d + x % d;
    if p < q { MulMono(p + 1, q, d); }
    if p > q { MulMono(q + 1, p, d); }
  }

  /** Where an element is. */
  method FindPlace(k: nat, limbSize: nat) returns (i: nat, j: nat)
    requires limbSize > 0
    ensures i == LimbOf(k, limbSize) && j == OffsetOf(k, limbSize) < limbSize
  {
    i, j := k / limbSize, k % limbSize;
    PlaceIs(k, limbSize);
  }

  /** How many elements there are in limb `i`. */
  method ElementsIn(size: nat, limbSize: nat, i: nat) returns (n: nat)
    requires limbSize > 0 && i < LimbCount(size, limbSize)
    ensures 0 < n <= limbSize && n == if size - StartOf(i, limbSize) < limbSize then size - StartOf(i, limbSize) else limbSize
  {
    InitialisedPart(size, limbSize, i, 0);
    StartIs(i, limbSize);
    n := if size - i * limbSize < limbSize then size - i * limbSize else limbSize;
  }

  lemma {:induction false} PlaceAgain(k: nat, limbSize: nat)
    requires limbSize > 0
    ensures k == StartOf(LimbOf(k, limbSize), limbSize) + OffsetOf(k, limbSize) && OffsetOf(k, limbSize) < limbSize
  {
    if k >= limbSize { PlaceAgain(k - limbSize, limbSize); }
  }

  lemma {:induction false} PlaceFrom(i: nat, j: nat, limbSize: nat)
    requires j < limbSize
    ensures LimbOf(StartOf(i, limbSize) + j, limbSize) == i && OffsetOf(StartOf(i, limbSize) + j, limbSize) == j
  {
    if i > 0 { PlaceFrom(i - 1, j, limbSize); }
  }

  lemma {:induction false} LimbsAscend(j: nat, k: nat, limbSize: nat)
    requires limbSize > 0 && j <= k
    ensures LimbOf(j, limbSize) <= LimbOf(k, limbSize)
    decreases k
  {
    if j >= limbSize { LimbsAscend(j - limbSize, k - limbSize, limbSize); }
  }

  lemma {:induction false} StartsAscend(i: nat, j: nat, limbSize: nat)
    requires i <= j
    ensures StartOf(i, limbSize) <= StartOf(j, limbSize)
    decreases j
  {
    if i < j { StartsAscend(i, j - 1, limbSize); }
  }

  /** Every element is in a limb. */
  lemma InLimb(size: nat, limbSize: nat, k: nat)
    requires limbSize > 0 && k < size
    ensures LimbOf(k, limbSize) < LimbCount(size, limbSize)
  {
    LimbsAscend(k, size - 1, limbSize);
  }

  /** The next limb has no elements. */
  lemma NoElementYet(size: nat, limbSize: nat)
    requires limbSize > 0
    ensures forall k :: 0 <= k < size ==> LimbOf(k, limbSize) != LimbCount(size, limbSize)
  {
    forall k | 0 <= k < size
      ensures LimbOf(k, limbSize) != LimbCount(size, limbSize)
    {
      InLimb(size, limbSize, k);
    }
  }

  /** A vector needs another limb exactly when the last one is full. */
  lemma {:induction false} NextLimb(size: nat, limbSize: nat)
    requires limbSize > 0
    ensures LimbCount(size + 1, limbSize) == LimbOf(size, limbSize) + 1
    ensures LimbCount(size, limbSize) == if OffsetOf(size, limbSize) == 0 then LimbOf(size, limbSize) else LimbOf(size, limbSize) + 1
  {
    if size > limbSize {
      NextLimb(size - limbSize, limbSize);
    } else if size == limbSize {
      assert LimbOf(size - 1, limbSize) == 0;
    }
  }

  lemma PlacesDiffer(limbSize: nat, j: nat, k: nat)
    requires limbSize > 0 && j != k
    ensures LimbOf(j, limbSize) != LimbOf(k, limbSize) || OffsetOf(j, limbSize) != OffsetOf(k, limbSize)
  {
    PlaceAgain(j, limbSize);
    PlaceAgain(k, limbSize);
  }

  type Cells<T> = map<Ptr, Block<T>>

  // ----- Representation ----------------------------------------------------------------------------------

  /** The root has room for `n` limbs; a root of one's own has clear bits for the limbs there are not yet. */
  ghost predicate RootValid<T>(cells: Cells<T>, start: Ptr, capacity: Option<nat>, n: nat) {
    if start == 0 then n == 0 && capacity.None? else
      && start in cells && cells[start].Root? && n <= |cells[start].limbs|
      && |cells[start].bits| == BitmapSize(|cells[start].limbs|)
      && (capacity.Some? ==> capacity.value == |cells[start].limbs| && forall i: nat :: IsCow(cells[start].bits, i) ==> i < n)
  }

  /** The first `n` limbs are different blocks. */
  ghost predicate LimbsValid<T>(cells: Cells<T>, limbSize: nat, start: Ptr, n: nat)
    requires start != 0 ==> start in cells && cells[start].Root? && n <= |cells[start].limbs|
  {
    start != 0 ==>
      && (forall i {:trigger cells[start].limbs[i]} :: 0 <= i < n ==> IsLimb(cells, limbSize, cells[start].limbs[i]))
      && (forall i, j :: 0 <= i < j < n ==> cells[start].limbs[i] != cells[start].limbs[j])
  }

  ghost predicate IsLimb<T>(cells: Cells<T>, limbSize: nat, p: Ptr) {
    p in cells && cells[p].Limb? && |cells[p].elems| == limbSize
  }

  /** Element `j` of limb `i`, found through the root. */
  function ElementOf<T>(cells: Cells<T>, start: Ptr, i: nat, j: nat): Option<T> {
    if start in cells && cells[start].Root? && i < |cells[start].limbs| then
      var p := cells[start].limbs[i];
      if p in cells && cells[p].Limb? && j < |cells[p].elems| then cells[p].elems[j] else None
    else None
  }

  function Element<T>(cells: Cells<T>, limbSize: nat, start: Ptr, k: nat): Option<T>
    requires limbSize > 0
  {
    ElementOf(cells, start, LimbOf(k, limbSize), OffsetOf(k, limbSize))
  }

  ghost predicate Holds<T>(cells: Cells<T>, limbSize: nat, start: Ptr, contents: seq<T>)
    requires limbSize > 0
  {
    forall k :: 0 <= k < |contents| ==> Element(cells, limbSize, start, k) == Some(contents[k])
  }

  /** The representation of a vector with `n` limbs, whose first elements are the given ones. */
  ghost predicate Represents<T>(cells: Cells<T>, limbSize: nat, start: Ptr, capacity: Option<nat>, n: nat, contents: seq<T>) {
    && limbSize > 0 && RootValid(cells, start, capacity, n) && LimbsValid(cells, limbSize, start, n)
    && Holds(cells, limbSize, start, contents) && LimbCount(|contents|, limbSize) <= n
  }

  /** The blocks that the vector has allocated: its root, and the limbs that are not shared. */
  ghost function Own<T>(cells: Cells<T>, start: Ptr, capacity: Option<nat>, n: nat): set<Ptr> {
    if capacity.None? || start == 0 || start !in cells || !cells[start].Root? then {}
    else {start} + OwnLimbs(cells[start].limbs, cells[start].bits, n)
  }

  ghost function OwnLimbs(limbs: seq<Ptr>, bits: seq<nat>, n: nat): set<Ptr> {
    set i | 0 <= i < n && i < |limbs| && !IsCow(bits, i) :: limbs[i]
  }

  /** All blocks of the vector. */
  ghost function Blocks<T>(cells: Cells<T>, start: Ptr, n: nat): set<Ptr> {
    if start == 0 || start !in cells || !cells[start].Root? then {} else {start} + set i | 0 <= i < n && i < |cells[start].limbs| :: cells[start].limbs[i]
  }

  /** Blocks of the vector that belong to other vectors. */
  ghost function Foreign<T>(cells: Cells<T>, start: Ptr, capacity: Option<nat>, n: nat): set<Ptr> {
    Blocks(cells, start, n) - Own(cells, start, capacity, n)
  }

  lemma BlocksAreStored<T>(cells: Cells<T>, limbSize: nat, start: Ptr, capacity: Option<nat>, n: nat, contents: seq<T>)
    requires Represents(cells, limbSize, start, capacity, n, contents)
    ensures Blocks(cells, start, n) <= cells.Keys && Own(cells, start, capacity, n) <= Blocks(cells, start, n)
  {
  }

  /** Two roots with the same limbs. */
  ghost predicate SameLimbs<T>(cells: Cells<T>, start: Ptr, after: Cells<T>, q: Ptr, n: nat) {
    && start in cells && cells[start].Root? && q in after && after[q].Root?
    && n <= |cells[start].limbs| && n <= |after[q].limbs|
    && forall i {:trigger after[q].limbs[i]} :: 0 <= i < n ==>
         && after[q].limbs[i] == cells[start].limbs[i]
         && cells[start].limbs[i] in cells && cells[start].limbs[i] in after
         && after[cells[start].limbs[i]] == cells[cells[start].limbs[i]]
  }

  lemma LimbsFrame<T>(cells: Cells<T>, after: Cells<T>, limbSize: nat, start: Ptr, q: Ptr, n: nat)
    requires start != 0 && SameLimbs(cells, start, after, q, n) && LimbsValid(cells, limbSize, start, n)
    ensures LimbsValid(after, limbSize, q, n)
  {
    forall i | 0 <= i < n
      ensures IsLimb(after, limbSize, after[q].limbs[i])
    {
      assert IsLimb(cells, limbSize, cells[start].limbs[i]);
    }
  }

  lemma HoldsFrame<T>(cells: Cells<T>, after: Cells<T>, limbSize: nat, start: Ptr, q: Ptr, n: nat, contents: seq<T>)
    requires limbSize > 0 && SameLimbs(cells, start, after, q, n) && Holds(cells, limbSize, start, contents)
    requires LimbCount(|contents|, limbSize) <= n
    ensures Holds(after, limbSize, q, contents)
  {
    forall k | 0 <= k < |contents|
      ensures Element(after, limbSize, q, k) == Some(contents[k])
    {
      InLimb(|contents|, limbSize, k);
      ElementFrame(cells, after, start, q, n, LimbOf(k, limbSize), OffsetOf(k, limbSize));
      assert Element(cells, limbSize, start, k) == Some(contents[k]);
    }
  }

  lemma ElementFrame<T>(cells: Cells<T>, after: Cells<T>, start: Ptr, q: Ptr, n: nat, i: nat, j: nat)
    requires SameLimbs(cells, start, after, q, n) && i < n
    ensures ElementOf(after, q, i, j) == ElementOf(cells, start, i, j)
  {
    assert after[q].limbs[i] == cells[start].limbs[i];
  }

  /** A vector whose blocks are not touched stays the same. */
  lemma RepresentsFrame<T>(cells: Cells<T>, after: Cells<T>, limbSize: nat, start: Ptr, capacity: Option<nat>, n: nat, contents: seq<T>)
    requires Represents(cells, limbSize, start, capacity, n, contents)
    requires forall x :: x in Blocks(cells, start, n) ==> x in after && after[x] == cells[x]
    ensures Represents(after, limbSize, start, capacity, n, contents)
    ensures Own(after, start, capacity, n) == Own(cells, start, capacity, n) && Blocks(after, start, n) == Blocks(cells, start, n)
  {
    if start == 0 {
    } else {
      assert start in Blocks(cells, start, n);
      forall i | 0 <= i < n
        ensures cells[start].limbs[i] in Blocks(cells, start, n) && IsLimb(cells, limbSize, cells[start].limbs[i])
      {
      }
      LimbsFrame(cells, after, limbSize, start, start, n);
      HoldsFrame(cells, after, limbSize, start, start, n, contents);
    }
  }

  // ----- A root of one's own -----------------------------------------------------------------------------

  /** A copy of the root marks all limbs as shared. */
  lemma RootCopied<T>(cells: Cells<T>, limbSize: nat, start: Ptr, n: nat, contents: seq<T>, q: Ptr, root: Block<T>)
    requires Represents(cells, limbSize, start, None, n, contents) && start != 0 && q !in cells && q != 0
    requires root.Root? && |root.bits| == BitmapSize(|root.limbs|) && n <= |root.limbs| && root.limbs[..n] == cells[start].limbs[..n]
    requires forall i: nat :: IsCow(root.bits, i) <==> i < n
    ensures Represents(cells[q := root], limbSize, q, Some(|root.limbs|), n, contents)
    ensures Own(cells[q := root], q, Some(|root.limbs|), n) == {q} && Evolves(cells, {}, cells[q := root], {q})
    ensures Foreign(cells[q := root], q, Some(|root.limbs|), n) <= Foreign(cells, start, None, n)
  {
    var after := cells[q := root];
    SameRoot(cells, after, limbSize, start, q, n, root);
    LimbsFrame(cells, after, limbSize, start, q, n);
    HoldsFrame(cells, after, limbSize, start, q, n, contents);
    RootIsNoForeigner(cells, after, limbSize, start, None, n, q, |root.limbs|, {});
  }

  lemma SameRoot<T>(cells: Cells<T>, after: Cells<T>, limbSize: nat, start: Ptr, q: Ptr, n: nat, root: Block<T>)
    requires start != 0 && start in cells && cells[start].Root? && n <= |cells[start].limbs| && LimbsValid(cells, limbSize, start, n)
    requires q !in cells && q in after && after[q] == root && root.Root? && n <= |root.limbs|
    requires root.limbs[..n] == cells[start].limbs[..n] && forall x :: x in cells && x != start ==> x in after && after[x] == cells[x]
    ensures SameLimbs(cells, start, after, q, n)
  {
    forall i | 0 <= i < n
      ensures root.limbs[i] == cells[start].limbs[i] && root.limbs[i] in cells && root.limbs[i] != start
    {
      assert root.limbs[i] == root.limbs[..n][i];
      assert IsLimb(cells, limbSize, cells[start].limbs[i]);
    }
  }

  /** The root of one's own is exchanged for a bigger one. */
  lemma RootGrown<T>(cells: Cells<T>, limbSize: nat, start: Ptr, capacity: nat, n: nat, contents: seq<T>, q: Ptr, root: Block<T>)
    requires Represents(cells, limbSize, start, Some(capacity), n, contents) && q !in cells && q != 0
    requires root.Root? && |root.bits| == BitmapSize(|root.limbs|) && n <= |root.limbs| && root.limbs[..n] == cells[start].limbs[..n]
    requires forall i: nat :: IsCow(root.bits, i) <==> IsCow(cells[start].bits, i)
    ensures Represents(cells[q := root] - {start}, limbSize, q, Some(|root.limbs|), n, contents)
    ensures Own(cells[q := root] - {start}, q, Some(|root.limbs|), n) == Own(cells, start, Some(capacity), n) - {start} + {q}
    ensures Evolves(cells, Own(cells, start, Some(capacity), n),
                    cells[q := root] - {start}, Own(cells, start, Some(capacity), n) - {start} + {q})
    ensures Foreign(cells[q := root] - {start}, q, Some(|root.limbs|), n) <= Foreign(cells, start, Some(capacity), n)
  {
    var after := cells[q := root] - {start};
    SameRoot(cells, after, limbSize, start, q, n, root);
    LimbsFrame(cells, after, limbSize, start, q, n);
    HoldsFrame(cells, after, limbSize, start, q, n, contents);
    var a := cells[start];
    forall x
      ensures x in OwnLimbs(root.limbs, root.bits, n) <==> x in OwnLimbs(a.limbs, a.bits, n)
      ensures x in OwnLimbs(a.limbs, a.bits, n) ==> x in cells && x != start
    {
      assert forall i :: 0 <= i < n ==> root.limbs[i] == a.limbs[i] && IsLimb(cells, limbSize, a.limbs[i]);
    }
    RootIsNoForeigner(cells, after, limbSize, start, Some(capacity), n, q, |root.limbs|, {start});
  }

  /** A new root refers to the same limbs. */
  lemma RootIsNoForeigner<T>(cells: Cells<T>, after: Cells<T>, limbSize: nat, start: Ptr, capacity: Option<nat>, n: nat, q: Ptr, room: nat, dropped: set<Ptr>)
    requires SameLimbs(cells, start, after, q, n) && start != 0 && LimbsValid(cells, limbSize, start, n)
    requires Own(after, q, Some(room), n) == Own(cells, start, capacity, n) - dropped + {q} && dropped <= {start}
    ensures Foreign(after, q, Some(room), n) <= Foreign(cells, start, capacity, n) - dropped
  {
    forall x | x in Foreign(after, q, Some(room), n)
      ensures x in Foreign(cells, start, capacity, n) - dropped
    {
      var i :| 0 <= i < n && i < |after[q].limbs| && after[q].limbs[i] == x;
      assert cells[start].limbs[i] == x && IsLimb(cells, limbSize, x);
    }
  }

  /** The first root. */
  lemma RootCreated<T>(cells: Cells<T>, limbSize: nat, contents: seq<T>, q: Ptr, root: Block<T>)
    requires Represents(cells, limbSize, 0, None, 0, contents) && q !in cells && q != 0
    requires root.Root? && |root.bits| == BitmapSize(|root.limbs|) && forall i: nat :: !IsCow(root.bits, i)
    ensures contents == [] && Represents(cells[q := root], limbSize, q, Some(|root.limbs|), 0, contents)
    ensures Own(cells[q := root], q, Some(|root.limbs|), 0) == {q} && Evolves(cells, {}, cells[q := root], {q})
    ensures Foreign(cells[q := root], q, Some(|root.limbs|), 0) == {}
  {
  }

  // ----- Limbs of one's own ------------------------------------------------------------------------------

  /** `bitmap[i / bits] &= ~(1 << (i % bits))`. */
  function ClearCow(bits: seq<nat>, i: nat): (r: seq<nat>)
    requires i / BITS_PER_UINT < |bits|
    ensures |r| == |bits| && forall j: nat :: IsCow(r, j) <==> IsCow(bits, j) && j != i
  {
    ClearCowIs(bits, i);
    bits[i / BITS_PER_UINT := ClearBit(bits[i / BITS_PER_UINT], i % BITS_PER_UINT)]
  }

  lemma ClearCowIs(bits: seq<nat>, i: nat)
    requires i / BITS_PER_UINT < |bits|
    ensures var r := bits[i / BITS_PER_UINT := ClearBit(bits[i / BITS_PER_UINT], i % BITS_PER_UINT)];
      forall j: nat :: IsCow(r, j) <==> IsCow(bits, j) && j != i
  {
    var r := bits[i / BITS_PER_UINT := ClearBit(bits[i / BITS_PER_UINT], i % BITS_PER_UINT)];
    forall j: nat
      ensures IsCow(r, j) <==> IsCow(bits, j) && j != i
    {
      assert i != j ==> i / BITS_PER_UINT != j / BITS_PER_UINT || i % BITS_PER_UINT != j % BITS_PER_UINT;
    }
  }

  /** The blocks after limb `i` has been exchanged for block `q`. */
  function LimbExchanged<T>(cells: Cells<T>, start: Ptr, i: nat, q: Ptr, limb: Block<T>): Cells<T>
    requires start in cells && cells[start].Root? && i < |cells[start].limbs| && i / BITS_PER_UINT < |cells[start].bits|
  {
    cells[q := limb][start := Root(cells[start].limbs[i := q], ClearCow(cells[start].bits, i))]
  }

  /** A copy of limb `i` replaces the shared one, or a new limb is added as limb `i`. */
  lemma LimbReplaced<T>(cells: Cells<T>, limbSize: nat, start: Ptr, capacity: nat, n: nat, contents: seq<T>, i: nat, q: Ptr, limb: Block<T>)
    requires Represents(cells, limbSize, start, Some(capacity), n, contents) && q !in cells && q != 0
    requires i <= n && i < |cells[start].limbs| && i / BITS_PER_UINT < |cells[start].bits|
    requires limb.Limb? && |limb.elems| == limbSize && (i < n ==> IsCow(cells[start].bits, i))
    requires forall k :: 0 <= k < |contents| && LimbOf(k, limbSize) == i ==> limb.elems[OffsetOf(k, limbSize)] == Some(contents[k])
    ensures Represents(LimbExchanged(cells, start, i, q, limb), limbSize, start, Some(capacity), if i < n then n else n + 1, contents)
  {
    var after := LimbExchanged(cells, start, i, q, limb);
    OtherLimbs(cells, limbSize, start, n, i, q, limb);
    forall k | 0 <= k < |contents|
      ensures Element(after, limbSize, start, k) == Some(contents[k])
    {
      InLimb(|contents|, limbSize, k);
      assert Element(cells, limbSize, start, k) == Some(contents[k]);
      if LimbOf(k, limbSize) != i {
        assert after[start].limbs[LimbOf(k, limbSize)] == cells[start].limbs[LimbOf(k, limbSize)];
      }
    }
  }

  lemma OtherLimbs<T>(cells: Cells<T>, limbSize: nat, start: Ptr, n: nat, i: nat, q: Ptr, limb: Block<T>)
    requires start != 0 && start in cells && cells[start].Root? && n <= |cells[start].limbs| && LimbsValid(cells, limbSize, start, n)
    requires i <= n && i < |cells[start].limbs| && i / BITS_PER_UINT < |cells[start].bits| && q !in cells
    requires limb.Limb? && |limb.elems| == limbSize
    ensures var after := LimbExchanged(cells, start, i, q, limb);
      && LimbsValid(after, limbSize, start, if i < n then n else n + 1)
      && forall j {:trigger after[start].limbs[j]} :: 0 <= j < n && j != i ==>
           && after[start].limbs[j] == cells[start].limbs[j] && cells[start].limbs[j] in cells
           && after[cells[start].limbs[j]] == cells[cells[start].limbs[j]]
  {
    var after, m := LimbExchanged(cells, start, i, q, limb), if i < n then n else n + 1;
    forall j | 0 <= j < m
      ensures IsLimb(after, limbSize, after[start].limbs[j])
      ensures j != i ==> after[start].limbs[j] == cells[start].limbs[j] && after[start].limbs[j] != q
    {
      assert j != i ==> IsLimb(cells, limbSize, cells[start].limbs[j]);
    }
  }

  lemma LimbReplacedOwns<T>(cells: Cells<T>, limbSize: nat, start: Ptr, capacity: nat, n: nat, contents: seq<T>, i: nat, q: Ptr, limb: Block<T>)
    requires Represents(cells, limbSize, start, Some(capacity), n, contents) && q !in cells && q != 0
    requires i <= n && i < |cells[start].limbs| && i / BITS_PER_UINT < |cells[start].bits|
    requires i < n ==> IsCow(cells[start].bits, i)
    ensures var after, m := LimbExchanged(cells, start, i, q, limb), if i < n then n else n + 1;
      && Own(after, start, Some(capacity), m) == Own(cells, start, Some(capacity), n) + {q}
      && Evolves(cells, Own(cells, start, Some(capacity), n), after, Own(cells, start, Some(capacity), n) + {q})
  {
    var after, m := LimbExchanged(cells, start, i, q, limb), if i < n then n else n + 1;
    var a, b := cells[start], after[start];
    assert b.limbs[i] == q && !IsCow(b.bits, i);
    forall x
      ensures x in OwnLimbs(b.limbs, b.bits, m) <==> x in OwnLimbs(a.limbs, a.bits, n) + {q}
    {
      if x in OwnLimbs(a.limbs, a.bits, n) {
        var j :| 0 <= j < n && j < |a.limbs| && !IsCow(a.bits, j) && a.limbs[j] == x;
        assert b.limbs[j] == x && !IsCow(b.bits, j);
      }
      if x in OwnLimbs(b.limbs, b.bits, m) {
        var j :| 0 <= j < m && j < |b.limbs| && !IsCow(b.bits, j) && b.limbs[j] == x;
        assert j != i ==> a.limbs[j] == x && !IsCow(a.bits, j);
      }
    }
  }

  lemma LimbReplacedForeign<T>(cells: Cells<T>, limbSize: nat, start: Ptr, capacity: nat, n: nat, contents: seq<T>, i: nat, q: Ptr, limb: Block<T>)
    requires Represents(cells, limbSize, start, Some(capacity), n, contents) && q !in cells && q != 0
    requires i <= n && i < |cells[start].limbs| && i / BITS_PER_UINT < |cells[start].bits|
    requires var after, m := LimbExchanged(cells, start, i, q, limb), if i < n then n else n + 1;
      Own(after, start, Some(capacity), m) == Own(cells, start, Some(capacity), n) + {q}
    ensures var after, m := LimbExchanged(cells, start, i, q, limb), if i < n then n else n + 1;
      Foreign(after, start, Some(capacity), m) <= Foreign(cells, start, Some(capacity), n)
  {
    var after, m := LimbExchanged(cells, start, i, q, limb), if i < n then n else n + 1;
    var a, b := cells[start], after[start];
    forall x | x in Foreign(after, start, Some(capacity), m)
      ensures x in Foreign(cells, start, Some(capacity), n)
    {
      assert x != start;
      var j :| 0 <= j < m && j < |b.limbs| && b.limbs[j] == x;
      assert j != i && a.limbs[j] == x;
    }
  }

  function WithElement<T>(contents: seq<T>, k: nat, v: T): seq<T>
    requires k <= |contents|
  {
    if k < |contents| then contents[k := v] else contents + [v]
  }

  function ElementWrite<T>(cells: Cells<T>, p: Ptr, j: nat, v: T): Cells<T>
    requires p in cells && cells[p].Limb? && j < |cells[p].elems|
  {
    cells[p := Limb(cells[p].elems[j := Some(v)])]
  }

  /** An element of a limb is written; `contents` may grow by it. */
  lemma ElementWritten<T>(cells: Cells<T>, limbSize: nat, start: Ptr, capacity: nat, n: nat, contents: seq<T>, k: nat, v: T)
    requires Represents(cells, limbSize, start, Some(capacity), n, contents) && k <= |contents| && LimbOf(k, limbSize) < n
    ensures IsLimb(cells, limbSize, cells[start].limbs[LimbOf(k, limbSize)])
    ensures Represents(ElementWrite(cells, cells[start].limbs[LimbOf(k, limbSize)], OffsetOf(k, limbSize), v), limbSize, start, Some(capacity), n,
                       WithElement(contents, k, v))
  {
    var i, j := LimbOf(k, limbSize), OffsetOf(k, limbSize);
    LimbsStay(cells, limbSize, start, n, i, j, v);
    HeldThen(cells, limbSize, start, n, contents, k, v);
    WithElementFits(contents, limbSize, n, k, v);
  }

  lemma WithElementFits<T>(contents: seq<T>, limbSize: nat, n: nat, k: nat, v: T)
    requires limbSize > 0 && LimbCount(|contents|, limbSize) <= n && k <= |contents| && LimbOf(k, limbSize) < n
    ensures LimbCount(|WithElement(contents, k, v)|, limbSize) <= n
  {
    NextLimb(|contents|, limbSize);
  }

  lemma LimbsStay<T>(cells: Cells<T>, limbSize: nat, start: Ptr, n: nat, i: nat, j: nat, v: T)
    requires start != 0 && start in cells && cells[start].Root? && n <= |cells[start].limbs| && LimbsValid(cells, limbSize, start, n)
    requires i < n && j < limbSize
    ensures IsLimb(cells, limbSize, cells[start].limbs[i])
    ensures var after := ElementWrite(cells, cells[start].limbs[i], j, v);
      start in after && after[start] == cells[start] && LimbsValid(after, limbSize, start, n)
  {
    assert IsLimb(cells, limbSize, cells[start].limbs[i]);
    var after := ElementWrite(cells, cells[start].limbs[i], j, v);
    forall l | 0 <= l < n
      ensures IsLimb(after, limbSize, cells[start].limbs[l])
    {
      assert IsLimb(cells, limbSize, cells[start].limbs[l]);
    }
  }

  lemma HeldThen<T>(cells: Cells<T>, limbSize: nat, start: Ptr, n: nat, contents: seq<T>, k: nat, v: T)
    requires limbSize > 0 && start != 0 && start in cells && cells[start].Root? && n <= |cells[start].limbs|
    requires LimbsValid(cells, limbSize, start, n) && Holds(cells, limbSize, start, contents)
    requires LimbCount(|contents|, limbSize) <= n && k <= |contents| && LimbOf(k, limbSize) < n
    ensures IsLimb(cells, limbSize, cells[start].limbs[LimbOf(k, limbSize)])
    ensures Holds(ElementWrite(cells, cells[start].limbs[LimbOf(k, limbSize)], OffsetOf(k, limbSize), v), limbSize, start, WithElement(contents, k, v))
  {
    assert IsLimb(cells, limbSize, cells[start].limbs[LimbOf(k, limbSize)]);
    forall j | 0 <= j < |WithElement(contents, k, v)|
      ensures Element(ElementWrite(cells, cells[start].limbs[LimbOf(k, limbSize)], OffsetOf(k, limbSize), v), limbSize, start, j)
        == Some(WithElement(contents, k, v)[j])
    {
      WrittenElement(cells, limbSize, start, n, contents, k, v, j);
    }
  }

  lemma WrittenElement<T>(cells: Cells<T>, limbSize: nat, start: Ptr, n: nat, contents: seq<T>, k: nat, v: T, j: nat)
    requires limbSize > 0 && start != 0 && start in cells && cells[start].Root? && n <= |cells[start].limbs|
    requires LimbsValid(cells, limbSize, start, n) && Holds(cells, limbSize, start, contents)
    requires LimbCount(|contents|, limbSize) <= n && k <= |contents| && LimbOf(k, limbSize) < n && j < |WithElement(contents, k, v)|
    ensures IsLimb(cells, limbSize, cells[start].limbs[LimbOf(k, limbSize)])
    ensures Element(ElementWrite(cells, cells[start].limbs[LimbOf(k, limbSize)], OffsetOf(k, limbSize), v), limbSize, start, j)
      == Some(WithElement(contents, k, v)[j])
  {
    var i, b := LimbOf(k, limbSize), OffsetOf(k, limbSize);
    assert IsLimb(cells, limbSize, cells[start].limbs[i]);
    if j == k {
      SameElement(cells, limbSize, start, n, i, b, v);
    } else {
      assert Element(cells, limbSize, start, j) == Some(contents[j]);
      var c, d := Elsewhere(|contents|, limbSize, n, j, k);
      OtherElement(cells, limbSize, start, n, i, b, v, c, d);
    }
  }

  lemma SameElement<T>(cells: Cells<T>, limbSize: nat, start: Ptr, n: nat, i: nat, j: nat, v: T)
    requires start != 0 && start in cells && cells[start].Root? && n <= |cells[start].limbs| && LimbsValid(cells, limbSize, start, n)
    requires i < n && j < limbSize
    ensures IsLimb(cells, limbSize, cells[start].limbs[i])
    ensures ElementOf(ElementWrite(cells, cells[start].limbs[i], j, v), start, i, j) == Some(v)
  {
    assert IsLimb(cells, limbSize, cells[start].limbs[i]);
  }

  lemma Elsewhere(size: nat, limbSize: nat, n: nat, j: nat, k: nat) returns (c: nat, d: nat)
    requires limbSize > 0 && LimbCount(size, limbSize) <= n && j < size && j != k
    ensures c == LimbOf(j, limbSize) < n && d == OffsetOf(j, limbSize) < limbSize && (c != LimbOf(k, limbSize) || d != OffsetOf(k, limbSize))
  {
    c, d := LimbOf(j, limbSize), OffsetOf(j, limbSize);
    InLimb(size, limbSize, j);
    PlacesDiffer(limbSize, j, k);
  }

  lemma OtherElement<T>(cells: Cells<T>, limbSize: nat, start: Ptr, n: nat, i: nat, j: nat, v: T, a: nat, b: nat)
    requires start != 0 && start in cells && cells[start].Root? && n <= |cells[start].limbs| && LimbsValid(cells, limbSize, start, n)
    requires i < n && a < n && j < limbSize && b < limbSize && (i != a || j != b)
    ensures IsLimb(cells, limbSize, cells[start].limbs[i])
    ensures ElementOf(ElementWrite(cells, cells[start].limbs[i], j, v), start, a, b) == ElementOf(cells, start, a, b)
  {
    assert IsLimb(cells, limbSize, cells[start].limbs[i]) && IsLimb(cells, limbSize, cells[start].limbs[a]);
  }

  /** Writing an element of a limb of one's own changes no other block. */
  lemma ElementWriteOwns<T>(cells: Cells<T>, limbSize: nat, start: Ptr, capacity: nat, n: nat, contents: seq<T>, i: nat, j: nat, v: T)
    requires Represents(cells, limbSize, start, Some(capacity), n, contents) && i < n && !IsCow(cells[start].bits, i) && j < limbSize
    ensures IsLimb(cells, limbSize, cells[start].limbs[i])
    ensures var after, own := ElementWrite(cells, cells[start].limbs[i], j, v), Own(cells, start, Some(capacity), n);
      Own(after, start, Some(capacity), n) == own && Evolves(cells, own, after, own)
      && Foreign(after, start, Some(capacity), n) == Foreign(cells, start, Some(capacity), n)
  {
    assert IsLimb(cells, limbSize, cells[start].limbs[i]);
    assert cells[start].limbs[i] in OwnLimbs(cells[start].limbs, cells[start].bits, n);
    BlocksAreStored(cells, limbSize, start, Some(capacity), n, contents);
  }

  /** The elements of limb `i` that there are. */
  lemma InitialisedPart(size: nat, limbSize: nat, i: nat, k: nat)
    requires limbSize > 0 && i < LimbCount(size, limbSize)
    ensures StartOf(i, limbSize) < size
    ensures k < size && LimbOf(k, limbSize) == i ==> OffsetOf(k, limbSize) < size - StartOf(i, limbSize)
  {
    PlaceAgain(size - 1, limbSize);
    StartsAscend(i, LimbOf(size - 1, limbSize), limbSize);
    PlaceAgain(k, limbSize);
  }

  /** A bitmap with the first `n` bits set. */
  method SharedBits(n: nat, uints: nat) returns (bits: seq<nat>)
    requires n / BITS_PER_UINT < uints
    ensures |bits| == uints && forall i: nat :: IsCow(bits, i) <==> i < n
  {
    bits := seq(uints, _ => 0);
    for i := 0 to n / BITS_PER_UINT
      invariant |bits| == uints && forall j :: 0 <= j < i ==> bits[j] == Ones(BITS_PER_UINT)
    {
      bits := bits[i := Ones(BITS_PER_UINT)];
    }
    var last := n / BITS_PER_UINT;
    bits := bits[last := Ones(n % BITS_PER_UINT)];
    for i := last + 1 to uints
      invariant |bits| == uints && bits[last] == Ones(n % BITS_PER_UINT)
      invariant forall j :: 0 <= j < last ==> bits[j] == Ones(BITS_PER_UINT)
      invariant forall j :: last < j < i ==> bits[j] == 0
    {
      bits := bits[i := 0];
    }
    forall i: nat
      ensures IsCow(bits, i) <==> i < n
    {
      EmptyBit(i % BITS_PER_UINT);
    }
  }

  lemma EmptyBit(i: nat)
    ensures !Bit(0, i) && Shr(0, i) == 0
  {
    if i > 0 {
      EmptyBit(i - 1);
    }
  }

  /** The bitmap of a bigger root. */
  method ExtendedBits(bits: seq<nat>, uints: nat) returns (r: seq<nat>)
    requires |bits| <= uints
    ensures |r| == uints && forall i: nat :: IsCow(r, i) <==> IsCow(bits, i)
  {
    r := bits;
    for i := |bits| to uints
      invariant |r| == i && r[..|bits|] == bits && forall j :: |bits| <= j < i ==> r[j] == 0
    {
      r := r + [0];
    }
    forall i: nat
      ensures IsCow(r, i) <==> IsCow(bits, i)
    {
      EmptyBit(i % BITS_PER_UINT);
      if i / BITS_PER_UINT < |bits| { assert r[i / BITS_PER_UINT] == r[..|bits|][i / BITS_PER_UINT]; }
    }
  }

  // ----- The vector --------------------------------------------------------------------------------------

  class GenVector<T> {
    const heap: Heap<Block<T>>
    const limbSize: nat
    var size: nat
    var start: Ptr
    /** `last - start`; there is no `last` if the root is shared, or if there is none. */
    var capacity: Option<nat>
    ghost var contents: seq<T>
    ghost var mine: set<Ptr>
    /** Blocks of other vectors: no more of them are used. */
    ghost var shared: set<Ptr>

    /** The representation has `n` limbs. */
    ghost predicate HasLimbs(n: nat)
      reads this, heap
    {
      && Represents(heap.cells, limbSize, start, capacity, n, contents) && mine == Own(heap.cells, start, capacity, n)
      && Foreign(heap.cells, start, capacity, n) <= shared
    }

    ghost predicate Valid()
      reads this, heap
    {
      limbSize > 0 && HasLimbs(LimbCount(size, limbSize)) && size == |contents|
    }

    constructor (heap: Heap<Block<T>>, limbSize: nat)
      requires limbSize > 0
      ensures Valid() && contents == [] && mine == {} && this.heap == heap && this.limbSize == limbSize
    {
      this.heap, this.limbSize := heap, limbSize;
      size, start, capacity, contents, mine, shared := 0, 0, None, [], {}, {};
      new;
    }

    /** A copy shares everything with its source, even the root. */
    constructor Copy(other: GenVector<T>)
      requires other.Valid()
      ensures Valid() && contents == other.contents && mine == {} && start == other.start
      ensures heap == other.heap && limbSize == other.limbSize
    {
      heap, limbSize := other.heap, other.limbSize;
      size, start, capacity, contents, mine := other.size, other.start, None, other.contents, {};
      shared := Blocks(other.heap.cells, other.start, other.Limbs());
    }

    function Limbs(): nat
      reads this
      requires limbSize > 0
    {
      LimbCount(size, limbSize)
    }

    /** `at`: no element if the index is out of range. */
    method At(ix: nat) returns (v: Option<T>)
      requires Valid()
      ensures v == if ix < |contents| then Some(contents[ix]) else None
    {
      if ix >= size {
        return None;
      }
      assert Element(heap.cells, limbSize, start, ix) == Some(contents[ix]);
      InLimb(size, limbSize, ix);
      var i, j := FindPlace(ix, limbSize);
      var limb := heap.cells[start].limbs[i];
      return heap.cells[limb].elems[j];
    }

    method UncowRoot()
      requires Valid() && capacity.None? && start != 0
      modifies this`start, this`capacity, this`mine, heap
      ensures Valid() && capacity.Some? && start != 0 && Evolves(old(heap.cells), old(mine), heap.cells, mine)
      ensures GrowsTo(Limbs(), capacity.value)
    {
      var oldCapacity := Limbs();
      var newCapacity := NextCapacity(oldCapacity);
      var uints := BitmapSize(newCapacity);
      var limbs := CopyPointers(heap.cells[start].limbs, oldCapacity, newCapacity);
      var bits := SharedBits(oldCapacity, uints);
      var q := heap.Malloc(Root(limbs, bits));
      RootCopied(old(heap.cells), limbSize, start, oldCapacity, contents, q, Root(limbs, bits));
      start, capacity, mine := q, Some(newCapacity), {q};
    }

    /** `alloc_root_copy_from`: a bigger array with the same first pointers. */
    static method CopyPointers(limbs: seq<Ptr>, oldCapacity: nat, newCapacity: nat) returns (r: seq<Ptr>)
      requires oldCapacity <= |limbs| && oldCapacity <= newCapacity
      ensures |r| == newCapacity && r[..oldCapacity] == limbs[..oldCapacity]
    {
      r := seq(newCapacity, _ => 0);
      for i := 0 to oldCapacity
        invariant |r| == newCapacity && r[..i] == limbs[..i]
      {
        r := r[i := limbs[i]];
      }
    }

    method UncowRootIfNeeded()
      requires Valid()
      modifies this`start, this`capacity, this`mine, heap
      ensures Valid() && (start != 0 ==> capacity.Some?) && (start == 0 <==> old(start) == 0)
      ensures Evolves(old(heap.cells), old(mine), heap.cells, mine)
    {
      if capacity.None? && start != 0 {
        UncowRoot();
      }
    }

    method Uncow(limb: nat)
      requires Valid() && capacity.Some? && limb < Limbs() && IsCow(heap.cells[start].bits, limb)
      modifies this`mine, heap
      ensures Valid() && !IsCow(heap.cells[start].bits, limb)
      ensures Evolves(old(heap.cells), old(mine), heap.cells, mine)
    {
      var valid := ElementsIn(size, limbSize, limb);
      var root := heap.cells[start];
      assert IsLimb(heap.cells, limbSize, root.limbs[limb]);
      var source := heap.cells[root.limbs[limb]].elems;
      var elems: seq<Option<T>> := seq(limbSize, _ => None);
      for i := 0 to valid
        invariant |elems| == limbSize && elems[..i] == source[..i]
      {
        elems := elems[i := source[i]];
      }
      assert forall j :: 0 <= j < valid ==> elems[j] == elems[..valid][j] == source[j];
      forall k | 0 <= k < |contents| && LimbOf(k, limbSize) == limb
        ensures elems[OffsetOf(k, limbSize)] == Some(contents[k])
      {
        InitialisedPart(size, limbSize, limb, k);
        assert Element(heap.cells, limbSize, start, k) == Some(contents[k]);
      }
      Exchange(limb, Limb(elems), Limbs());
    }

    method UncowIfNeeded(limb: nat)
      requires Valid() && capacity.Some? && limb < Limbs()
      modifies this`mine, heap
      ensures Valid() && !IsCow(heap.cells[start].bits, limb) && Evolves(old(heap.cells), old(mine), heap.cells, mine)
    {
      if IsCow(heap.cells[start].bits, limb) {
        Uncow(limb);
      }
    }

    /** Put a new block in the place of limb `i`, or at the end. */
    method Exchange(i: nat, limb: Block<T>, ghost n: nat)
      requires HasLimbs(n) && capacity.Some? && i <= n && i < |heap.cells[start].limbs|
      requires limb.Limb? && |limb.elems| == limbSize && (i < n ==> IsCow(heap.cells[start].bits, i))
      requires forall k :: 0 <= k < |contents| && LimbOf(k, limbSize) == i ==> limb.elems[OffsetOf(k, limbSize)] == Some(contents[k])
      modifies this`mine, heap
      ensures HasLimbs(if i < n then n else n + 1) && !IsCow(heap.cells[start].bits, i)
      ensures Evolves(old(heap.cells), old(mine), heap.cells, mine)
    {
      var root := heap.cells[start];
      assert i / BITS_PER_UINT < |root.bits|;
      var q := heap.Malloc(limb);
      heap.cells := heap.cells[start := Root(root.limbs[i := q], ClearCow(root.bits, i))];
      LimbReplaced(old(heap.cells), limbSize, start, capacity.value, n, contents, i, q, limb);
      LimbReplacedOwns(old(heap.cells), limbSize, start, capacity.value, n, contents, i, q, limb);
      LimbReplacedForeign(old(heap.cells), limbSize, start, capacity.value, n, contents, i, q, limb);
      mine := mine + {q};
    }

    /** Make room for one more limb and allocate it. */
    method Grow()
      requires Valid() && (capacity.Some? || start == 0) && OffsetOf(size, limbSize) == 0
      modifies this`start, this`capacity, this`mine, heap
      ensures HasLimbs(Limbs() + 1) && capacity.Some? && !IsCow(heap.cells[start].bits, Limbs())
      ensures Evolves(old(heap.cells), old(mine), heap.cells, mine)
    {
      if Limbs() == (if capacity.Some? then capacity.value else 0) {
        GrowRoot();
      }
      ghost var c, m := heap.cells, mine;
      assert Limbs() < capacity.value;
      NoElementYet(size, limbSize);
      Exchange(Limbs(), Limb(seq(limbSize, _ => None)), Limbs());
      EvolvesTrans(old(heap.cells), old(mine), c, m, heap.cells, mine);
    }

    method GrowRoot()
      requires Valid() && (capacity.Some? || start == 0) && Limbs() == if capacity.Some? then capacity.value else 0
      modifies this`start, this`capacity, this`mine, heap
      ensures Valid() && capacity.Some? && Limbs() < capacity.value && GrowsTo(Limbs(), capacity.value)
      ensures Evolves(old(heap.cells), old(mine), heap.cells, mine)
    {
      var oldCapacity := if capacity.Some? then capacity.value else 0;
      var newCapacity := NextCapacity(oldCapacity);
      var oldBits: seq<nat> := [];
      var oldLimbs: seq<Ptr> := [];
      if start != 0 {
        oldLimbs, oldBits := heap.cells[start].limbs, heap.cells[start].bits;
      }
      var limbs := CopyPointers(oldLimbs, oldCapacity, newCapacity);
      var bits := ExtendedBits(oldBits, BitmapSize(newCapacity));
      var q := heap.Malloc(Root(limbs, bits));
      if start != 0 {
        RootGrown(old(heap.cells), limbSize, start, capacity.value, Limbs(), contents, q, Root(limbs, bits));
        mine := mine - {start} + {q};
        heap.Free(start);
      } else {
        RootCreated(old(heap.cells), limbSize, contents, q, Root(limbs, bits));
        mine := {q};
      }
      start, capacity := q, Some(newCapacity);
    }

    /** Room for one more element at the end, not yet initialised. */
    method PushBackInternal() returns (limb: Ptr, ix: nat)
      requires Valid()
      modifies this`size, this`start, this`capacity, this`mine, heap
      ensures size == old(size) + 1 && HasLimbs(Limbs()) && capacity.Some?
      ensures ix == OffsetOf(old(size), limbSize) && LimbOf(old(size), limbSize) < Limbs()
      ensures limb == heap.cells[start].limbs[LimbOf(old(size), limbSize)] && !IsCow(heap.cells[start].bits, LimbOf(old(size), limbSize))
      ensures Evolves(old(heap.cells), old(mine), heap.cells, mine)
    {
      var n;
      n, ix := FindPlace(size, limbSize);
      UncowRootIfNeeded();
      ghost var c, m := heap.cells, mine;
      MakeRoom(n, ix);
      EvolvesTrans(old(heap.cells), old(mine), c, m, heap.cells, mine);
      size := size + 1;
      limb := heap.cells[start].limbs[n];
    }

    /** The last limb is one's own, or there is a new one. */
    method MakeRoom(n: nat, ix: nat)
      requires Valid() && (capacity.Some? || start == 0) && n == LimbOf(size, limbSize) && ix == OffsetOf(size, limbSize)
      modifies this`start, this`capacity, this`mine, heap
      ensures HasLimbs(LimbCount(size + 1, limbSize)) && capacity.Some? && n < LimbCount(size + 1, limbSize)
      ensures !IsCow(heap.cells[start].bits, n) && Evolves(old(heap.cells), old(mine), heap.cells, mine)
    {
      NextLimb(size, limbSize);
      if ix != 0 {
        UncowIfNeeded(n);
      } else {
        Grow();
      }
    }

    /** `push_back`. */
    method PushBack(v: T)
      requires Valid()
      modifies this`size, this`start, this`capacity, this`mine, this`contents, heap
      ensures Valid() && contents == old(contents) + [v] && Evolves(old(heap.cells), old(mine), heap.cells, mine)
    {
      var limb, ix := PushBackInternal();
      ghost var c, m := heap.cells, mine;
      WriteElement(limb, ix, v, size - 1, Limbs());
      EvolvesTrans(old(heap.cells), old(mine), c, m, heap.cells, mine);
    }

    method WriteElement(limb: Ptr, ix: nat, v: T, ghost k: nat, ghost n: nat)
      requires HasLimbs(n) && capacity.Some? && k <= |contents| && LimbOf(k, limbSize) < n && ix == OffsetOf(k, limbSize)
      requires limb == heap.cells[start].limbs[LimbOf(k, limbSize)] && !IsCow(heap.cells[start].bits, LimbOf(k, limbSize))
      modifies this`contents, heap
      ensures HasLimbs(n) && contents == WithElement(old(contents), k, v) && Evolves(old(heap.cells), mine, heap.cells, mine)
    {
      ElementWritten(heap.cells, limbSize, start, capacity.value, n, contents, k, v);
      ElementWriteOwns(heap.cells, limbSize, start, capacity.value, n, contents, LimbOf(k, limbSize), ix, v);
      heap.cells := heap.cells[limb := Limb(heap.cells[limb].elems[ix := Some(v)])];
      contents := WithElement(contents, k, v);
    }

    /** `mut`: where the element is, in a limb of one's own. */
    method Mut(ix: nat) returns (limb: Ptr, j: nat)
      requires Valid() && ix < size
      modifies this`start, this`capacity, this`mine, heap
      ensures Valid() && capacity.Some? && j == OffsetOf(ix, limbSize) && LimbOf(ix, limbSize) < Limbs()
      ensures limb == heap.cells[start].limbs[LimbOf(ix, limbSize)] && !IsCow(heap.cells[start].bits, LimbOf(ix, limbSize))
      ensures Evolves(old(heap.cells), old(mine), heap.cells, mine)
    {
      InLimb(size, limbSize, ix);
      UncowRootIfNeeded();
      ghost var c, m := heap.cells, mine;
      UncowIfNeeded(LimbOf(ix, limbSize));
      EvolvesTrans(old(heap.cells), old(mine), c, m, heap.cells, mine);
      limb, j := heap.cells[start].limbs[LimbOf(ix, limbSize)], OffsetOf(ix, limbSize);
    }

    /** `mut(ix) = v`. */
    method Set(ix: nat, v: T)
      requires Valid() && ix < size
      modifies this`start, this`capacity, this`mine, this`contents, heap
      ensures Valid() && contents == old(contents)[ix := v] && Evolves(old(heap.cells), old(mine), heap.cells, mine)
    {
      var limb, j := Mut(ix);
      ghost var c, m := heap.cells, mine;
      WriteElement(limb, j, v, ix, Limbs());
      EvolvesTrans(old(heap.cells), old(mine), c, m, heap.cells, mine);
    }

    /** The destructor frees the blocks that the vector has allocated, and no others. */
    method Destroy()
      requires Valid()
      modifies heap
      ensures heap.cells == old(heap.cells) - mine
    {
      if capacity.Some? {
        var root := heap.cells[start];
        var full, rest := FindPlace(size, limbSize);
        NextLimb(size, limbSize);
        OwnLimbsAreBlocks(heap.cells, limbSize, start, Limbs());
        for i := 0 to full
          invariant heap.cells == old(heap.cells) - OwnLimbs(root.limbs, root.bits, i)
        {
          OwnLimbsStep(root.limbs, root.bits, i);
          FreeLimb(root.limbs[i], IsCow(root.bits, i), old(heap.cells), OwnLimbs(root.limbs, root.bits, i));
        }
        if rest != 0 {
          OwnLimbsStep(root.limbs, root.bits, full);
          FreeLimb(root.limbs[full], IsCow(root.bits, full), old(heap.cells), OwnLimbs(root.limbs, root.bits, full));
        }
        heap.Free(start);
      }
    }

    method FreeLimb(limb: Ptr, cow: bool, ghost cells: Cells<T>, ghost freed: set<Ptr>)
      requires heap.cells == cells - freed && limb in cells && limb !in freed
      modifies heap
      ensures heap.cells == cells - if cow then freed else freed + {limb}
    {
      if !cow {
        heap.Free(limb);
      }
    }

    /** `for_each`. */
    method ForEach() returns (visited: seq<T>)
      requires Valid()
      ensures visited == contents
    {
      visited := [];
      var full, rest := FindPlace(size, limbSize);
      for i := 0 to full
        invariant Visited(visited, i)
      {
        WholeLimb(size, limbSize, i);
        visited := VisitLimb(visited, i, limbSize);
      }
      PlaceAgain(size, limbSize);
      if rest != 0 {
        visited := VisitLimb(visited, full, rest);
      }
    }

    /** The first `i` limbs have been visited. */
    ghost predicate Visited(visited: seq<T>, i: nat)
      reads this
    {
      |visited| == StartOf(i, limbSize) && visited <= contents
    }

    method VisitLimb(before: seq<T>, i: nat, count: nat) returns (visited: seq<T>)
      requires Valid() && count <= limbSize && Visited(before, i) && |before| + count <= size
      ensures |visited| == |before| + count && visited <= contents
      ensures count == limbSize ==> Visited(visited, i + 1)
    {
      visited := before;
      for j := 0 to count
        invariant |visited| == |before| + j && visited <= contents
      {
        var v := ReadLimb(i, j, |visited|);
        visited := visited + [v];
      }
    }

    method ReadLimb(i: nat, j: nat, ghost k: nat) returns (v: T)
      requires Valid() && j < limbSize && k == StartOf(i, limbSize) + j < size
      ensures v == contents[k]
    {
      PlaceFrom(i, j, limbSize);
      assert Element(heap.cells, limbSize, start, k) == Some(contents[k]);
      InLimb(size, limbSize, k);
      v := heap.cells[heap.cells[start].limbs[i]].elems[j].value;
    }

    /** `all_of`. */
    method AllOf(p: T -> bool) returns (all: bool)
      requires Valid()
      ensures all <==> forall k :: 0 <= k < |contents| ==> p(contents[k])
    {
      var k := 0;
      var full, rest := FindPlace(size, limbSize);
      for i := 0 to full
        invariant k == StartOf(i, limbSize) && k <= size && forall l :: 0 <= l < k ==> p(contents[l])
      {
        WholeLimb(size, limbSize, i);
        var ok := AllOfLimb(p, i, limbSize, k);
        if !ok {
          return false;
        }
        k := k + limbSize;
      }
      PlaceAgain(size, limbSize);
      if rest != 0 {
        all := AllOfLimb(p, full, rest, k);
      } else {
        all := true;
      }
    }

    method AllOfLimb(p: T -> bool, i: nat, count: nat, ghost k: nat) returns (all: bool)
      requires Valid() && count <= limbSize && k == StartOf(i, limbSize) && k + count <= size
      ensures all <==> forall l :: k <= l < k + count ==> p(contents[l])
    {
      for j := 0 to count
        invariant forall l :: k <= l < k + j ==> p(contents[l])
      {
        var v := ReadLimb(i, j, k + j);
        if !p(v) {
          return false;
        }
      }
      return true;
    }
  }

  lemma WholeLimb(size: nat, limbSize: nat, i: nat)
    requires limbSize > 0 && i < LimbOf(size, limbSize)
    ensures StartOf(i, limbSize) + limbSize == StartOf(i + 1, limbSize) <= size
  {
    StartsAscend(i + 1, LimbOf(size, limbSize), limbSize);
    PlaceAgain(size, limbSize);
  }

  lemma OwnLimbsStep(limbs: seq<Ptr>, bits: seq<nat>, i: nat)
    requires i < |limbs|
    ensures OwnLimbs(limbs, bits, i + 1) == OwnLimbs(limbs, bits, i) + if IsCow(bits, i) then {} else {limbs[i]}
  {
  }

  lemma OwnLimbsAreBlocks<T>(cells: Cells<T>, limbSize: nat, start: Ptr, n: nat)
    requires start != 0 && start in cells && cells[start].Root? && n <= |cells[start].limbs| && LimbsValid(cells, limbSize, start, n)
    ensures forall i :: 0 <= i < n ==> cells[start].limbs[i] in cells && cells[start].limbs[i] != start
    ensures forall i :: 0 <= i < n ==> cells[start].limbs[i] !in OwnLimbs(cells[start].limbs, cells[start].bits, i)
    ensures forall i :: 0 <= i <= n ==> start !in OwnLimbs(cells[start].limbs, cells[start].bits, i)
  {
    forall i | 0 <= i < n
      ensures cells[start].limbs[i] in cells && cells[start].limbs[i] != start
    {
      assert IsLimb(cells, limbSize, cells[start].limbs[i]);
    }
  }

  // ----- Copies ------------------------------------------------------------------------------------------

  datatype Change<T> = Push(v: T) | Update(ix: nat, v: T)

  function Apply<T>(contents: seq<T>, c: Change<T>): seq<T> {
    match c
    case Push(v) => contents + [v]
    case Update(ix, v) => if ix < |contents| then contents[ix := v] else contents
  }

  function Applied<T>(contents: seq<T>, changes: seq<Change<T>>): seq<T> {
    if changes == [] then contents
    else Apply(Applied(contents, changes[..|changes| - 1]), changes[|changes| - 1])
  }

  method Make<T>(vector: GenVector<T>, change: Change<T>)
    requires vector.Valid()
    modifies vector, vector.heap
    ensures vector.Valid() && vector.contents == Apply(old(vector.contents), change) && vector.shared == old(vector.shared)
    ensures Evolves(old(vector.heap.cells), old(vector.mine), vector.heap.cells, vector.mine)
  {
    match change
    case Push(v) => vector.PushBack(v);
    case Update(ix, v) => if ix < vector.size { vector.Set(ix, v); }
  }

  /** However a copy is changed, its source stays the same. */
  method CopyAndChange<T>(source: GenVector<T>, changes: seq<Change<T>>) returns (copy: GenVector<T>)
    requires source.Valid()
    modifies source.heap
    ensures source.Valid() && fresh(copy) && copy.Valid() && copy.heap == source.heap
    ensures copy.contents == Applied(source.contents, changes)
    ensures Evolves(old(source.heap.cells), {}, source.heap.cells, copy.mine)
  {
    copy := new GenVector<T>.Copy(source);
    ghost var cells := source.heap.cells;
    for i := 0 to |changes|
      invariant copy.Valid() && copy.heap == source.heap && copy.contents == Applied(source.contents, changes[..i])
      invariant Evolves(cells, {}, source.heap.cells, copy.mine)
      modifies copy, source.heap
    {
      ghost var c, m := source.heap.cells, copy.mine;
      Make(copy, changes[i]);
      EvolvesTrans(cells, {}, c, m, source.heap.cells, copy.mine);
      assert changes[..i + 1][..i] == changes[..i];
    }
    assert changes[..|changes|] == changes;
    Undisturbed(cells, source.heap.cells, source.limbSize, source.start, source.capacity, source.Limbs(), source.contents, {}, copy.mine);
  }

  /** A vector none of whose blocks has been touched. */
  lemma Undisturbed<T>(cells: Cells<T>, after: Cells<T>, limbSize: nat, start: Ptr, capacity: Option<nat>, n: nat, contents: seq<T>,
                       was: set<Ptr>, m: set<Ptr>)
    requires Represents(cells, limbSize, start, capacity, n, contents) && Evolves(cells, was, after, m)
    requires was !! Blocks(cells, start, n)
    ensures Represents(after, limbSize, start, capacity, n, contents)
    ensures Own(after, start, capacity, n) == Own(cells, start, capacity, n)
    ensures Blocks(after, start, n) == Blocks(cells, start, n) && m !! Blocks(cells, start, n)
  {
    BlocksAreStored(cells, limbSize, start, capacity, n, contents);
    OthersKept(cells, was, after, m, Blocks(cells, start, n));
    RepresentsFrame(cells, after, limbSize, start, capacity, n, contents);
  }

  /** After a copy has been changed and destroyed, all blocks are as they were. */
  method UseCopy<T>(source: GenVector<T>, changes: seq<Change<T>>)
    requires source.Valid()
    modifies source.heap
    ensures source.heap.cells == old(source.heap.cells)
  {
    ghost var cells := source.heap.cells;
    var copy := CopyAndChange(source, changes);
    NothingIsLeft(cells, source.heap.cells, copy.mine);
    copy.Destroy();
  }

  // ----- Several vectors ---------------------------------------------------------------------------------

  ghost function BlocksOf<T(!new)>(v: GenVector<T>): set<Ptr>
    requires v.limbSize > 0
    reads v, v.heap
  {
    Blocks(v.heap.cells, v.start, v.Limbs())
  }

  /** No block that `v` has allocated is used by `d`. */
  ghost predicate Apart<T(!new)>(v: GenVector<T>, d: GenVector<T>)
    reads v, d, d.heap
  {
    d.limbSize > 0 && v.mine !! BlocksOf(d)
  }

  /**
   * Vectors that share a heap.  The active ones may be changed: no other vector uses a block that one of them has
   * allocated.  The others, which have been copied, may not.
   */
  ghost predicate Family<T(!new)>(active: set<GenVector<T>>, all: set<GenVector<T>>, heap: Heap<Block<T>>)
    reads active, all, heap, set v | v in all :: v.heap
  {
    && active <= all && (forall d :: d in all ==> d.heap == heap && d.Valid())
    && (forall v, d {:trigger Apart(v, d)} :: v in active && d in all && v != d ==> Apart(v, d))
  }

  /** A change of a vector leaves another one as it is, and each may be changed as before. */
  lemma OtherKept<T>(cells: Cells<T>, was: set<Ptr>, after: Cells<T>, now: set<Ptr>, blocks: set<Ptr>, blocksNow: set<Ptr>,
                     limbSize: nat, start: Ptr, capacity: Option<nat>, n: nat, contents: seq<T>)
    requires Evolves(cells, was, after, now) && was <= blocks && blocksNow - now <= blocks - was
    requires Represents(cells, limbSize, start, capacity, n, contents) && was !! Blocks(cells, start, n)
    ensures Represents(after, limbSize, start, capacity, n, contents)
    ensures Own(after, start, capacity, n) == Own(cells, start, capacity, n)
    ensures Blocks(after, start, n) == Blocks(cells, start, n) && now !! Blocks(cells, start, n)
    ensures Own(cells, start, capacity, n) !! blocks ==> Own(cells, start, capacity, n) !! blocksNow
  {
    Undisturbed(cells, after, limbSize, start, capacity, n, contents, was, now);
    BlocksAreStored(cells, limbSize, start, capacity, n, contents);
    forall x | x in Own(cells, start, capacity, n) && x !in blocks
      ensures x !in blocksNow
    {
      assert x in cells && x !in was && x !in blocks - was;
      assert x !in now;
    }
  }

  /** A change, and that it makes the vector use no more blocks of others. */
  method MakeAlone<T(!new)>(v: GenVector<T>, change: Change<T>)
    requires v.Valid()
    modifies v, v.heap
    ensures v.Valid() && v.contents == Apply(old(v.contents), change)
    ensures Evolves(old(v.heap.cells), old(v.mine), v.heap.cells, v.mine)
    ensures old(v.mine <= BlocksOf(v)) && BlocksOf(v) - v.mine <= old(BlocksOf(v) - v.mine)
  {
    BlocksAreStored(v.heap.cells, v.limbSize, v.start, v.capacity, v.Limbs(), v.contents);
    v.shared := Foreign(v.heap.cells, v.start, v.capacity, v.Limbs());
    Make(v, change);
  }

  /** Changing an active vector changes no other, and all may be changed as before. */
  method MakeAmong<T(!new)>(v: GenVector<T>, ghost active: set<GenVector<T>>, ghost all: set<GenVector<T>>, change: Change<T>)
    requires Family(active, all, v.heap) && v in active
    modifies v, v.heap
    ensures Family(active, all, v.heap) && v.contents == Apply(old(v.contents), change)
    ensures forall d :: d in all && d != v ==> d.contents == old(d.contents)
  {
    ghost var cells, mine, blocks := v.heap.cells, v.mine, BlocksOf(v);
    MakeAlone(v, change);
    forall d | d in all && d != v
      ensures d.Valid() && BlocksOf(d) == old(BlocksOf(d)) && Apart(v, d) && (old(Apart(d, v)) ==> Apart(d, v))
    {
      assert old(d.Valid() && Apart(v, d));
      OtherKept(cells, mine, v.heap.cells, v.mine, blocks, BlocksOf(v), d.limbSize, d.start, d.capacity, d.Limbs(), d.contents);
    }
    forall x, d | x in active && d in all && x != d
      ensures Apart(x, d)
    {
      assert old(Apart(x, d));
    }
  }

  /** Nor does destroying one. */
  method DestroyAmong<T(!new)>(v: GenVector<T>, ghost active: set<GenVector<T>>, ghost all: set<GenVector<T>>)
    requires Family(active, all, v.heap) && v in active
    modifies v.heap
    ensures Family(active - {v}, all - {v}, v.heap)
    ensures forall d :: d in all ==> d.contents == old(d.contents)
  {
    ghost var cells := v.heap.cells;
    v.Destroy();
    forall d | d in all && d != v
      ensures d.Valid() && BlocksOf(d) == old(BlocksOf(d))
    {
      assert old(d.Valid() && Apart(v, d));
      BlocksAreStored(cells, d.limbSize, d.start, d.capacity, d.Limbs(), d.contents);
      Undisturbed(cells, v.heap.cells, d.limbSize, d.start, d.capacity, d.Limbs(), d.contents, v.mine, {});
    }
    forall x, d | x in active && d in all && x != d && x != v && d != v
      ensures Apart(x, d)
    {
      assert old(Apart(x, d));
    }
  }

  lemma CopyJoins<T(!new)>(source: GenVector<T>, copy: GenVector<T>, active: set<GenVector<T>>, all: set<GenVector<T>>)
    requires Family(active, all, source.heap) && source in all && copy !in all
    requires copy.Valid() && copy.heap == source.heap && copy.mine == {} && BlocksOf(copy) == BlocksOf(source)
    ensures Family(active - {source} + {copy}, all + {copy}, source.heap)
  {
    forall v | v in active && v != source
      ensures Apart(v, copy)
    {
      assert Apart(v, source);
    }
  }

  /** A new copy is active, and its source may not be changed from then on. */
  method CopyAmong<T(!new)>(source: GenVector<T>, ghost active: set<GenVector<T>>, ghost all: set<GenVector<T>>) returns (copy: GenVector<T>)
    requires Family(active, all, source.heap) && source in all
    ensures fresh(copy) && copy.contents == source.contents && copy.heap == source.heap
    ensures Family(active - {source} + {copy}, all + {copy}, source.heap)
  {
    copy := new GenVector<T>.Copy(source);
    CopyJoins(source, copy, active, all);
  }

  /** The changes that are for one of two vectors. */
  function ChangesOf<T>(changes: seq<(bool, Change<T>)>, first: bool): seq<Change<T>> {
    if changes == [] then []
    else
      var n := |changes| - 1;
      ChangesOf(changes[..n], first) + if changes[n].0 == first then [changes[n].1] else []
  }

  lemma AppliedOneMore<T>(contents: seq<T>, changes: seq<(bool, Change<T>)>, i: nat, first: bool)
    requires i < |changes|
    ensures Applied(contents, ChangesOf(changes[..i + 1], first)) ==
      if changes[i].0 == first then Apply(Applied(contents, ChangesOf(changes[..i], first)), changes[i].1)
      else Applied(contents, ChangesOf(changes[..i], first))
  {
    assert changes[..i + 1][..i] == changes[..i];
    var before := ChangesOf(changes[..i], first);
    assert (before + [changes[i].1])[..|before|] == before && before + [] == before;
  }

  /** One of two copies is changed. */
  method ChangeOne<T(!new)>(a: GenVector<T>, b: GenVector<T>, source: GenVector<T>, first: bool, change: Change<T>)
    requires a != b && source !in {a, b} && Family({a, b}, {a, b, source}, source.heap)
    modifies a, b, source.heap
    ensures Family({a, b}, {a, b, source}, source.heap)
    ensures a.contents == if first then Apply(old(a.contents), change) else old(a.contents)
    ensures b.contents == if first then old(b.contents) else Apply(old(b.contents), change)
  {
    if first {
      MakeAmong(a, {a, b}, {a, b, source}, change);
    } else {
      MakeAmong(b, {a, b}, {a, b, source}, change);
    }
  }

  /** Two copies of one vector, changed in turns: each sees its own changes only, and the source none. */
  method ChangeInTurns<T(!new)>(source: GenVector<T>, changes: seq<(bool, Change<T>)>) returns (a: GenVector<T>, b: GenVector<T>)
    requires source.Valid()
    modifies source.heap
    ensures fresh(a) && fresh(b) && a != b && Family({a, b}, {a, b, source}, source.heap)
    ensures a.contents == Applied(source.contents, ChangesOf(changes, true))
    ensures b.contents == Applied(source.contents, ChangesOf(changes, false))
  {
    assert changes[..|changes|] == changes;
    a := CopyAmong(source, {}, {source});
    assert {} - {source} + {a} == {a} && {source} + {a} == {a, source};
    b := CopyAmong(source, {a}, {a, source});
    assert {a} - {source} + {b} == {a, b} && {a, source} + {b} == {a, b, source};
    for i := 0 to |changes|
      invariant Family({a, b}, {a, b, source}, source.heap)
      invariant a.contents == Applied(source.contents, ChangesOf(changes[..i], true))
      invariant b.contents == Applied(source.contents, ChangesOf(changes[..i], false))
      modifies a, b, source.heap
    {
      AppliedOneMore(source.contents, changes, i, true);
      AppliedOneMore(source.contents, changes, i, false);
      ChangeOne(a, b, source, changes[i].0, changes[i].1);
    }
  }
}
