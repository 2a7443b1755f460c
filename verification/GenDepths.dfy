/**
 * How deep the trees of src/GenMap.h get: `mut` shifts the hash of a chain by its depth, which must be less
 * than the width of a hash.
 */
module GenDepths {
  import opened Bitmaps
  import opened GenTrees
  import opened GenEdits
  import opened GenWalks
  import opened Heaps
  import opened Options

  /** The number of values of `size_t`, the type of hashes. */
  const HASHES: nat := 0x1_0000_0000_0000_0000

  const WIDTH: nat := 64

  /** The two hashes agree in their lowest `d` digits, of five bits each. */
  predicate SameLow(a: nat, b: nat, d: nat) {
    d == 0 || (a % ARITY == b % ARITY && SameLow(a / ARITY, b / ARITY, d - 1))
  }

  /** What is left of a hash, one digit at a time from the other end. */
  lemma {:induction false} RestOfRest(h: nat, d: nat)
    ensures Rest(h, d + 1) == Rest(h / ARITY, d)
  {
    if d > 0 {
      RestOfRest(h, d - 1);
    }
  }

  lemma {:induction false} LowAndRest(a: nat, b: nat, d: nat)
    requires SameLow(a, b, d) && Rest(a, d) == Rest(b, d)
    ensures a == b
  {
    if d > 0 {
      RestOfRest(a, d - 1);
      RestOfRest(b, d - 1);
      LowAndRest(a / ARITY, b / ARITY, d - 1);
    }
  }

  lemma {:induction false} SameLowSelf(a: nat, d: nat)
    ensures SameLow(a, a, d)
  {
    if d > 0 {
      SameLowSelf(a / ARITY, d - 1);
    }
  }

  lemma {:induction false} SameLowLess(a: nat, b: nat, c: nat, d: nat)
    requires SameLow(a, b, d) && c <= d
    ensures SameLow(a, b, c)
  {
    if c > 0 {
      SameLowLess(a / ARITY, b / ARITY, c - 1, d - 1);
    }
  }

  function Power(d: nat): (r: nat)
    ensures r > 0
  {
    if d == 0 then 1 else ARITY * Power(d - 1)
  }

  lemma {:induction false} ZeroDigits(c: nat, d: nat)
    ensures SameLow(c * Power(d), 0, d)
  {
    if d > 0 {
      assert c * Power(d) == ARITY * (c * Power(d - 1));
      ZeroDigits(c, d - 1);
    }
  }

  lemma {:induction false} RestIsZero(h: nat, d: nat)
    requires h < Power(d)
    ensures Rest(h, d) == 0
  {
    if d > 0 {
      RestOfRest(h, d - 1);
      RestIsZero(h / ARITY, d - 1);
    }
  }

  /** A hash has thirteen digits. */
  lemma HashIsShort(h: nat, d: nat)
    requires h < HASHES && d >= 13
    ensures Rest(h, d) == 0
  {
    assert Power(4) == 0x10_0000;
    assert Power(8) == 0x100_0000_0000;
    assert Power(12) == 0x1000_0000_0000_0000;
    assert Power(13) == 0x2_0000_0000_0000_0000;
    RestIsZero(h, 13);
    ZeroStays(h, 13, d);
  }

  lemma {:induction false} ZeroStays(h: nat, c: nat, d: nat)
    requires Rest(h, c) == 0 && c <= d
    ensures Rest(h, d) == 0
  {
    if c < d {
      ZeroStays(h, c, d - 1);
    }
  }

  /** The keys below the end of the path are those that agree with `k` so far. */
  lemma {:induction false} KeysBelow<K(!new), V>(hash: K -> nat, t: Tree<K, V>, path: seq<nat>, d: nat, g: nat, k: K, x: K)
    requires IsPath(t, path) && Good(hash, t, d, g) && OnPath(hash, t, path, d, g, k) && !ThroughLeaf(t, path)
    ensures x in Keys(SubAt(t, path)) <==> x in Keys(t) && SameLow(Rest(hash(x), d), Rest(hash(k), d), DepthAt(t, path))
    decreases |path|
  {
    if path != [] {
      var h := Rest(hash(k), d);
      var kid := Kid(t, path[0]);
      IndexOfPosition(t.bitmap, h % ARITY);
      KeysBelow(hash, kid, path[1..], d + 1, t.gen, k, x);
      if x in Keys(t) && Rest(hash(x), d) % ARITY == h % ARITY {
        OnlyKid(hash, t, d, g, path[0], x);
      }
    }
  }

  /** A key is in the child that its digit belongs to. */
  lemma OnlyKid<K(!new), V>(hash: K -> nat, t: Tree<K, V>, d: nat, g: nat, i: int, x: K)
    requires t.Node? && Good(hash, t, d, g) && x in Keys(t) && 0 <= i < |t.kids| && IndexOf(t.bitmap, i) == Rest(hash(x), d) % ARITY
    ensures x in Keys(t.kids[i])
  {
    var j :| 0 <= j < |t.kids| && x in Keys(t.kids[j]);
    assert Position(t.bitmap, IndexOf(t.bitmap, i)) == i && Position(t.bitmap, IndexOf(t.bitmap, j)) == j;
  }

  lemma OtherHashHere<K(!new), V>(hash: K -> nat, t: Tree<K, V>, i: int, k: K) returns (b: K)
    requires t.Node? && SharpSiblings(hash, t, i, k)
    ensures b in Keys(t) && hash(b) != hash(k)
  {
    var x, y :| x in Keys(t) + {k} && y in Keys(t) + {k} && hash(x) != hash(y);
    b := if hash(x) != hash(k) then x else y;
  }

  lemma {:induction false} DepthIsLength<K, V>(t: Tree<K, V>, path: seq<nat>)
    requires IsPath(t, path) && !ThroughLeaf(t, path)
    ensures DepthAt(t, path) == |path|
    decreases |path|
  {
    if path != [] {
      DepthIsLength(Kid(t, path[0]), path[1..]);
    }
  }

  /** The path passes a node below `n` others. */
  lemma {:induction false} Passes<K(!new), V>(hash: K -> nat, t: Tree<K, V>, path: seq<nat>, d: nat, g: nat, k: K, n: nat)
    requires IsPath(t, path) && OnPath(hash, t, path, d, g, k) && !ThroughLeaf(t, path) && SharpBut(hash, t, path, k) && n < |path|
    ensures IsPath(t, path[..n]) && OnPath(hash, t, path[..n], d, g, k) && !ThroughLeaf(t, path[..n]) && DepthAt(t, path[..n]) == n
    ensures SubAt(t, path[..n]).Node? && SharpSiblings(hash, SubAt(t, path[..n]), path[n], k)
    decreases n
  {
    if n > 0 {
      Passes(hash, Kid(t, path[0]), path[1..], d + DepthBelow(t), g, k, n - 1);
      assert path[..n][1..] == path[1..][..n - 1];
    }
  }

  /** Below `n` nodes there is another hash than that of `k`, if there is a node there. */
  lemma OtherHash<K(!new), V>(hash: K -> nat, t: Tree<K, V>, path: seq<nat>, g: nat, k: K, n: nat) returns (b: K)
    requires Good(hash, t, 0, g) && Reached(hash, t, path, g, k) && !ThroughLeaf(t, path) && SharpBut(hash, t, path, k)
    requires n < DepthAt(t, path)
    ensures b in Keys(t) && hash(b) != hash(k) && SameLow(hash(b), hash(k), n)
  {
    DepthIsLength(t, path);
    Passes(hash, t, path, 0, g, k, n);
    b := OtherHashHere(hash, SubAt(t, path[..n]), path[n], k);
    KeysBelow(hash, t, path[..n], 0, g, k, b);
  }

  /** Some key has the hash of `k`, and another one agrees with it in the lowest sixty bits only. */
  ghost predicate Crowded<K(!new)>(hash: K -> nat, keys: set<K>, k: K) {
    exists a, b :: a in keys && b in keys && hash(a) == hash(k) && hash(b) != hash(k) && SameLow(hash(b), hash(k), 12)
  }

  ghost predicate ShortHashes<K(!new)>(hash: K -> nat, keys: set<K>) {
    forall x :: x in keys ==> hash(x) < HASHES
  }

  lemma DeepMeansCrowded<K(!new), V>(hash: K -> nat, t: Tree<K, V>, path: seq<nat>, g: nat, k: K)
    requires Good(hash, t, 0, g) && Reached(hash, t, path, g, k) && !ThroughLeaf(t, path) && SharpBut(hash, t, path, k)
    requires SubAt(t, path).Leaf? && 5 * DepthAt(t, path) >= WIDTH && ShortHashes(hash, Keys(t) + {k})
    ensures Crowded(hash, Keys(t), k)
  {
    var a, d := SubAt(t, path).key, DepthAt(t, path);
    KeysBelow(hash, t, path, 0, g, k, a);
    HashIsShort(hash(a), d);
    HashIsShort(hash(k), d);
    LowAndRest(hash(a), hash(k), d);
    var b := OtherHash(hash, t, path, g, k, 12);
  }

  lemma CrowdedMeansDeep<K(!new), V>(hash: K -> nat, t: Tree<K, V>, path: seq<nat>, g: nat, k: K, a: K, b: K)
    requires Good(hash, t, 0, g) && Reached(hash, t, path, g, k) && !ThroughLeaf(t, path) && !SubAt(t, path).Node?
    requires a in Keys(t) && b in Keys(t) && hash(a) == hash(k) && hash(b) != hash(k) && SameLow(hash(b), hash(k), 12)
    ensures SubAt(t, path).Leaf? && 5 * DepthAt(t, path) >= WIDTH
  {
    var s, d := SubAt(t, path), DepthAt(t, path);
    SameLowSelf(hash(k), d);
    KeysBelow(hash, t, path, 0, g, k, a);
    KeysBelow(hash, t, path, 0, g, k, b);
    SubIsGood(hash, t, path, 0, g, k);
    if d <= 12 {
      SameLowLess(hash(b), hash(k), d, 12);
      assert a in Keys(s) && b in Keys(s) && Rest(hash(a), d) == Rest(hash(b), d);
      LowAndRest(hash(b), hash(k), d);
    }
  }

  /** A chain that does not hold `k` is met below 13 nodes exactly if the keys are crowded around `k`. */
  lemma DeepIffCrowded<K(!new), V>(hash: K -> nat, t: Tree<K, V>, path: seq<nat>, g: nat, k: K)
    requires Good(hash, t, 0, g) && Reached(hash, t, path, g, k) && !ThroughLeaf(t, path) && !SubAt(t, path).Node?
    requires SharpBut(hash, t, path, k) && ShortHashes(hash, Keys(t) + {k})
    ensures SubAt(t, path).Leaf? && 5 * DepthAt(t, path) >= WIDTH <==> Crowded(hash, Keys(t), k)
  {
    if SubAt(t, path).Leaf? && 5 * DepthAt(t, path) >= WIDTH {
      DeepMeansCrowded(hash, t, path, g, k);
    }
    if Crowded(hash, Keys(t), k) {
      var a, b :| a in Keys(t) && b in Keys(t) && hash(a) == hash(k) && hash(b) != hash(k) && SameLow(hash(b), hash(k), 12);
      CrowdedMeansDeep(hash, t, path, g, k, a, b);
    }
  }

  /** Look-up finds the keys of the tree. */
  lemma KeysAreContents<K(!new), V>(hash: K -> nat, t: Tree<K, V>, g: nat, m: map<K, V>)
    requires Good(hash, t, 0, g) && Denotes(hash, t, m)
    ensures Keys(t) == m.Keys
  {
    forall x
      ensures x in Keys(t) <==> x in m
    {
      GetIsHas(hash, t, 0, g, x);
      assert Get(t, hash(x), x) == Lookup(m, x);
    }
  }

  /**
   * Then the hashes are equal, and nothing is left of either.  Where a shift takes its amount modulo the width,
   * they are taken for different ones, unless the hash is 0 or 1.
   */
  lemma ShiftedOut(h: nat, d: nat)
    requires h < HASHES && 5 * d >= WIDTH
    ensures Shr(h, 5 * d) == 0
    ensures d == 13 ==> (Shr(h, 5 * d % WIDTH) == 0 <==> h <= 1)
  {
    HashIsShort(h, d);
    RestIsShift(h, d);
    assert Shr(h, 1) == h / 2;
  }
}
