/**
 * The bitmaps of src/GenMap.h and src/GenVector.h: which slots of a compressed array exist, and where they
 * are.  Slots are stored by descending index, so the place of a slot is the number of set bits above it.
 */
module Bitmaps {

  function Pow2(i: nat): (r: nat)
    ensures r > 0
  {
    if i == 0 then 1 else 2 * Pow2(i - 1)
  }

  /** `b >> i`. */
  function Shr(b: nat, i: nat): nat {
    if i == 0 then b else Shr(b, i - 1) / 2
  }

  predicate Bit(b: nat, i: nat) {
    Shr(b, i) % 2 == 1
  }

  function Popcount(b: nat): nat {
    if b == 0 then 0 else b % 2 + Popcount(b / 2)
  }

  /** The number of set bits at or above `i`. */
  function Above(b: nat, i: nat): nat {
    Popcount(Shr(b, i))
  }

  /** The place of slot `i` in the array. */
  function Position(b: nat, i: nat): (p: nat)
    requires Bit(b, i)
    ensures p < Popcount(b)
  {
    AboveStep(b, i);
    AboveShrinks(b, 0, i);
    Above(b, i) - 1
  }

  lemma AboveStep(b: nat, i: nat)
    ensures Above(b, i) == Above(b, i + 1) + if Bit(b, i) then 1 else 0
  {
  }

  lemma {:induction false} AboveShrinks(b: nat, i: nat, j: nat)
    requires i <= j
    ensures Above(b, j) <= Above(b, i)
    decreases j - i
  {
    if i < j {
      AboveStep(b, i);
      AboveShrinks(b, i + 1, j);
    }
  }

  /** Different slots have different places, in descending order. */
  lemma PositionsDescend(b: nat, i: nat, j: nat)
    requires Bit(b, i) && Bit(b, j)
    ensures i < j <==> Position(b, i) > Position(b, j)
    ensures i == j <==> Position(b, i) == Position(b, j)
  {
    AboveStep(b, i);
    AboveStep(b, j);
    if i < j { AboveShrinks(b, i + 1, j); }
    if j < i { AboveShrinks(b, j + 1, i); }
  }

  function IndexFrom(b: nat, p: nat, i: nat): (r: nat)
    requires Above(b, i) > p
    ensures Bit(b, r) && Position(b, r) == p
    decreases Shr(b, i)
  {
    AboveStep(b, i);
    if Bit(b, i) && Above(b, i) == p + 1 then i else IndexFrom(b, p, i + 1)
  }

  /** The slot whose place is `p`: the inverse of `Position`. */
  function IndexOf(b: nat, p: nat): (i: nat)
    requires p < Popcount(b)
    ensures Bit(b, i) && Position(b, i) == p
  {
    IndexFrom(b, p, 0)
  }

  lemma {:induction false} IndexOfPosition(b: nat, i: nat)
    requires Bit(b, i)
    ensures IndexOf(b, Position(b, i)) == i
  {
    PositionsDescend(b, i, IndexOf(b, Position(b, i)));
  }

  lemma {:induction false} ShrOfSum(b: nat, i: nat, j: nat)
    requires !Bit(b, i)
    ensures Shr(b + Pow2(i), j) == Shr(b, j) + if j <= i then Pow2(i - j) else 0
  {
    if j > 0 {
      ShrOfSum(b, i, j - 1);
      if j <= i {
        assert Pow2(i - (j - 1)) == 2 * Pow2(i - j);
      } else if j == i + 1 {
        assert Pow2(i - i) == 1;
      }
    }
  }

  /** `b | (1 << i)`. */
  function SetBit(b: nat, i: nat): (r: nat)
    ensures forall j: nat :: Bit(r, j) <==> Bit(b, j) || j == i
    ensures !Bit(b, i) ==> forall j: nat :: Above(r, j) == Above(b, j) + if j <= i then 1 else 0
  {
    SetBitIs(b, i);
    if Bit(b, i) then b else b + Pow2(i)
  }

  lemma SetBitIs(b: nat, i: nat)
    ensures !Bit(b, i) ==> forall j: nat :: Bit(b + Pow2(i), j) <==> Bit(b, j) || j == i
    ensures !Bit(b, i) ==> forall j: nat :: Above(b + Pow2(i), j) == Above(b, j) + if j <= i then 1 else 0
  {
    if !Bit(b, i) {
      forall j: nat
        ensures Bit(b + Pow2(i), j) <==> Bit(b, j) || j == i
      {
        ShrOfSum(b, i, j);
        if j < i { assert Pow2(i - j) == 2 * Pow2(i - j - 1); }
      }
      forall j: nat
        ensures Above(b + Pow2(i), j) == Above(b, j) + if j <= i then 1 else 0
      {
        if j <= i {
          SetBitCounts(b, i, j);
        } else {
          ShrOfSum(b, i, j);
        }
      }
    }
  }

  lemma {:induction false} SetBitCounts(b: nat, i: nat, j: nat)
    requires !Bit(b, i) && j <= i
    ensures Above(b + Pow2(i), j) == Above(b, j) + 1
    decreases i - j
  {
    ShrOfSum(b, i, j);
    AboveStep(b, j);
    AboveStep(b + Pow2(i), j);
    if j < i {
      assert Pow2(i - j) == 2 * Pow2(i - j - 1);
      SetBitCounts(b, i, j + 1);
    } else {
      ShrOfSum(b, i, j + 1);
    }
  }

  lemma {:induction false} BitIsBelow(b: nat, i: nat, j: nat)
    requires Bit(b, i) && j <= i
    ensures Shr(b, j) >= Pow2(i - j)
    decreases i - j
  {
    if j < i {
      BitIsBelow(b, i, j + 1);
    }
  }

  lemma {:induction false} ShrOfDifference(b: nat, i: nat, j: nat)
    requires Bit(b, i)
    ensures b >= Pow2(i) && Shr(b, j) == Shr(b - Pow2(i), j) + if j <= i then Pow2(i - j) else 0
    ensures !Bit(b - Pow2(i), i)
  {
    BitIsBelow(b, i, 0);
    ShrDifference(b, i, j);
    ShrDifference(b, i, i);
  }

  lemma {:induction false} ShrDifference(b: nat, i: nat, j: nat)
    requires Bit(b, i) && b >= Pow2(i)
    ensures Shr(b, j) == Shr(b - Pow2(i), j) + if j <= i then Pow2(i - j) else 0
  {
    if j > 0 {
      ShrDifference(b, i, j - 1);
      if j <= i {
        assert Pow2(i - (j - 1)) == 2 * Pow2(i - j);
      } else if j == i + 1 {
        assert Pow2(i - i) == 1;
      }
    }
  }

  /** `b & ~(1 << i)`. */
  function ClearBit(b: nat, i: nat): (r: nat)
    ensures forall j: nat :: Bit(r, j) <==> Bit(b, j) && j != i
  {
    ClearBitIs(b, i);
    if Bit(b, i) then b - Pow2(i) else b
  }

  lemma ClearBitIs(b: nat, i: nat)
    ensures Bit(b, i) ==> b >= Pow2(i) && forall j: nat :: Bit(b - Pow2(i), j) <==> Bit(b, j) && j != i
  {
    if Bit(b, i) {
      ShrOfDifference(b, i, i);
      forall j: nat
        ensures Bit(b - Pow2(i), j) <==> Bit(b, j) && j != i
      {
        ShrOfDifference(b, i, j);
        if j < i { assert Pow2(i - j) == 2 * Pow2(i - j - 1); }
      }
    }
  }

  lemma {:induction false} ShrOfOnes(n: nat, j: nat)
    ensures Shr(Pow2(n) - 1, j) == if j <= n then Pow2(n - j) - 1 else 0
  {
    if j > 0 {
      ShrOfOnes(n, j - 1);
      if j <= n { assert Pow2(n - (j - 1)) == 2 * Pow2(n - j); }
    }
  }

  /** `(1 << n) - 1`: the lowest `n` bits. */
  function Ones(n: nat): (r: nat)
    ensures forall j: nat :: Bit(r, j) <==> j < n
  {
    OnesAre(Pow2(n) - 1, n);
    Pow2(n) - 1
  }

  lemma OnesAre(b: nat, n: nat)
    requires b == Pow2(n) - 1
    ensures forall j: nat :: Bit(b, j) <==> j < n
  {
    forall j: nat
      ensures Bit(b, j) <==> j < n
    {
      BitOfOnes(n, j);
    }
  }

  lemma BitOfOnes(n: nat, j: nat)
    ensures Bit(Pow2(n) - 1, j) <==> j < n
  {
    ShrOfOnes(n, j);
    if j < n {
      var y := Pow2(n - j - 1);
      assert Pow2(n - j) == 2 * y;
      assert (2 * y - 1) % 2 == 1;
    }
  }
}
