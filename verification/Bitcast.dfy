/**
 * `executeBitCastInst` of src/Execution.cpp, for vectors of integers: the elements of one vector are packed
 * into, or unpacked from, those of the other, in the byte order of the machine.
 *
 * The numbers are those of an `APInt` of a given width; shifts and truncation are as there.
 */
module Bitcast {
  import opened Bitmaps

  // ----- Integers of a given width -----------------------------------------------------------------------

  /** `x.shl(k)`, in `width` bits. */
  function Shl(x: nat, k: nat, width: nat): nat {
    (x * Pow2(k)) % Pow2(width)
  }

  /** `x.trunc(width)`. */
  function Trunc(x: nat, width: nat): nat {
    x % Pow2(width)
  }

  /** `x | y`. */
  function Or(x: nat, y: nat): nat {
    if x == 0 && y == 0 then 0 else (if x % 2 == 1 || y % 2 == 1 then 1 else 0) + 2 * Or(x / 2, y / 2)
  }

  lemma {:induction false} OrZero(x: nat)
    ensures Or(x, 0) == x && Or(0, x) == x
  {
    if x > 0 { OrZero(x / 2); }
  }

  /** Numbers with no common bits. */
  lemma {:induction false} OrOfDisjoint(x: nat, y: nat, k: nat)
    requires x < Pow2(k)
    ensures Or(x, y * Pow2(k)) == x + y * Pow2(k) && Or(y * Pow2(k), x) == x + y * Pow2(k)
  {
    if k == 0 {
      OrZero(y);
    } else {
      var z := y * Pow2(k - 1);
      assert y * Pow2(k) == 2 * z;
      OrOfDisjoint(x / 2, y, k - 1);
      assert (2 * z) / 2 == z && (2 * z) % 2 == 0;
      if x == 0 { OrZero(2 * z); }
    }
  }

  lemma {:induction false} Pow2Sum(a: nat, b: nat)
    ensures Pow2(a + b) == Pow2(a) * Pow2(b)
  {
    if b > 0 {
      Pow2Sum(a, b - 1);
      TwoOut(Pow2(a), Pow2(b - 1));
    }
  }

  lemma {:induction false} ShrSum(x: nat, a: nat, b: nat)
    ensures Shr(x, a + b) == Shr(Shr(x, a), b)
  {
    if b > 0 {
      ShrSum(x, a, b - 1);
    }
  }

  lemma {:induction false} ShrParts(x: nat, k: nat)
    ensures x == Shr(x, k) * Pow2(k) + x % Pow2(k)
  {
    if k > 0 {
      ShrParts(x, k - 1);
      HalfParts(x, Shr(x, k - 1), Pow2(k - 1));
    }
  }

  lemma HalfParts(x: nat, y: nat, p: nat)
    requires p > 0 && x == y * p + x % p
    ensures x == (y / 2) * (2 * p) + x % (2 * p)
  {
    var h, l, r := y / 2, y % 2, x % p;
    assert y * p == (2 * h + l) * p == h * (2 * p) + l * p;
    assert l == 0 || l == 1;
    assert 0 <= l * p + r < 2 * p;
    RemainderIs(x, 2 * p, h, l * p + r);
  }

  lemma RemainderIs(x: nat, d: nat, q: nat, r: nat)
    requires d > 0 && x == q * d + r && r < d
    ensures x % d == r && x / d == q
  {
    var p, s := x / d, x % d;
    assert x == p * d + s;
    if p < q { MulMono(p + 1, q, d); }
    if p > q { MulMono(q + 1, p, d); }
  }

  lemma MulMono(a: int, b: int, d: nat)
    requires a <= b
    ensures a * d <= b * d
  {
  }

  // ----- What a vector of digits stands for --------------------------------------------------------------

  function Pow(b: nat, n: nat): nat {
    if n == 0 then 1 else b * Pow(b, n - 1)
  }

  lemma {:induction false} PowSum(b: nat, m: nat, n: nat)
    ensures Pow(b, m + n) == Pow(b, m) * Pow(b, n)
  {
    if m > 0 {
      PowSum(b, m - 1, n);
      MulAssoc(b, Pow(b, m - 1), Pow(b, n));
    }
  }

  lemma {:induction false} PowProduct(b: nat, m: nat, n: nat)
    ensures Pow(Pow(b, m), n) == Pow(b, m * n)
  {
    if n > 0 {
      PowProduct(b, m, n - 1);
      PowSum(b, m, m * (n - 1));
      assert m * n == m + m * (n - 1);
    }
  }

  lemma {:induction false} Pow2Product(w: nat, n: nat)
    ensures Pow2(w * n) == Pow(Pow2(w), n)
  {
    if n > 0 {
      Pow2Product(w, n - 1);
      Pow2Sum(w, w * (n - 1));
      assert w * n == w + w * (n - 1);
    }
  }

  lemma MulAssoc(a: nat, b: nat, c: nat)
    ensures a * b * c == a * (b * c)
  {
  }

  lemma Distribute(a: nat, b: nat, c: nat, d: nat)
    ensures a * (b + c * d) == a * b + a * c * d
  {
    MulAssoc(a, c, d);
  }

  /** The number with the given digits, the lowest one first, in base `b`. */
  function Number(digits: seq<nat>, b: nat): nat {
    if digits == [] then 0 else digits[0] + b * Number(digits[1..], b)
  }

  function Reverse(s: seq<nat>): (r: seq<nat>)
    ensures |r| == |s|
  {
    if s == [] then [] else Reverse(s[1..]) + [s[0]]
  }

  /** The bits of a vector, as one number: its first element is the lowest or the highest. */
  function Image(s: seq<nat>, b: nat, little: bool): nat {
    Number(if little then s else Reverse(s), b)
  }

  predicate InRange(s: seq<nat>, b: nat) {
    forall i :: 0 <= i < |s| ==> s[i] < b
  }

  lemma {:induction false} NumberConcat(a: seq<nat>, c: seq<nat>, b: nat)
    ensures Number(a + c, b) == Number(a, b) + Pow(b, |a|) * Number(c, b)
  {
    if a == [] {
      assert a + c == c;
    } else {
      assert (a + c)[1..] == a[1..] + c;
      NumberConcat(a[1..], c, b);
      Distribute(b, Number(a[1..], b), Pow(b, |a| - 1), Number(c, b));
    }
  }

  lemma {:induction false} NumberRange(s: seq<nat>, b: nat)
    requires InRange(s, b)
    ensures Number(s, b) < Pow(b, |s|)
  {
    if s != [] {
      NumberRange(s[1..], b);
      var n, q := Number(s[1..], b), Pow(b, |s| - 1);
      MulMono(n + 1, q, b);
      assert (n + 1) * b == b * n + b && q * b == b * q;
    }
  }

  /** Digits are unique. */
  lemma {:induction false} NumberInjective(s: seq<nat>, t: seq<nat>, b: nat)
    requires InRange(s, b) && InRange(t, b) && |s| == |t| && Number(s, b) == Number(t, b)
    ensures s == t
  {
    if s != [] {
      FirstDigit(s, b);
      FirstDigit(t, b);
      NumberInjective(s[1..], t[1..], b);
      assert s == [s[0]] + s[1..] && t == [t[0]] + t[1..];
    }
  }

  lemma FirstDigit(s: seq<nat>, b: nat)
    requires InRange(s, b) && s != []
    ensures b > 0 && s[0] == Number(s, b) % b && Number(s[1..], b) == Number(s, b) / b
  {
    var n := Number(s[1..], b);
    assert b * n == n * b;
    RemainderIs(Number(s, b), b, n, s[0]);
  }

  lemma {:induction false} ReverseConcat(a: seq<nat>, b: seq<nat>)
    ensures Reverse(a + b) == Reverse(b) + Reverse(a)
  {
    if a == [] {
      assert a + b == b;
    } else {
      assert (a + b)[1..] == a[1..] + b;
      ReverseConcat(a[1..], b);
    }
  }

  lemma {:induction false} ReverseAt(s: seq<nat>, i: nat)
    requires i < |s|
    ensures Reverse(s)[i] == s[|s| - 1 - i]
  {
    if i < |s| - 1 {
      ReverseAt(s[1..], i);
    }
  }

  lemma ReverseRange(s: seq<nat>, b: nat)
    requires InRange(s, b)
    ensures InRange(Reverse(s), b)
  {
    forall i | 0 <= i < |s|
      ensures Reverse(s)[i] < b
    {
      ReverseAt(s, i);
    }
  }

  lemma ReverseInjective(s: seq<nat>, t: seq<nat>)
    requires |s| == |t| && Reverse(s) == Reverse(t)
    ensures s == t
  {
    forall i | 0 <= i < |s|
      ensures s[i] == t[i]
    {
      ReverseAt(s, |s| - 1 - i);
      ReverseAt(t, |s| - 1 - i);
    }
  }

  /** A vector is determined by its bits, its length and the width of its elements. */
  lemma ImageInjective(s: seq<nat>, t: seq<nat>, b: nat, little: bool)
    requires InRange(s, b) && InRange(t, b) && |s| == |t| && Image(s, b, little) == Image(t, b, little)
    ensures s == t
  {
    if little {
      NumberInjective(s, t, b);
    } else {
      ReverseRange(s, b);
      ReverseRange(t, b);
      NumberInjective(Reverse(s), Reverse(t), b);
      ReverseInjective(s, t);
    }
  }

  lemma ImageConcat(a: seq<nat>, c: seq<nat>, b: nat, little: bool)
    ensures Image(a + c, b, little) ==
      if little then Image(a, b, little) + Pow(b, |a|) * Image(c, b, little)
      else Image(c, b, little) + Pow(b, |c|) * Image(a, b, little)
  {
    if little {
      NumberConcat(a, c, b);
    } else {
      ReverseConcat(a, c);
      NumberConcat(Reverse(c), Reverse(a), b);
    }
  }

  lemma ImageOfOne(x: nat, b: nat, little: bool)
    ensures Image([x], b, little) == x
  {
    assert [x][1..] == [];
    assert Reverse([x]) == [x];
    assert Number([x], b) == x + b * Number([], b);
  }

  /** Each element of `wide` has the bits of `r` elements of `narrow`. */
  ghost predicate Grouped(wide: seq<nat>, narrow: seq<nat>, r: nat, b: nat, little: bool)
    decreases |wide|
  {
    if wide == [] then narrow == []
    else r <= |narrow| && wide[0] == Image(narrow[..r], b, little) && Grouped(wide[1..], narrow[r..], r, b, little)
  }

  /** One more group. */
  lemma {:induction false} GroupedAppend(wide: seq<nat>, narrow: seq<nat>, x: nat, group: seq<nat>, r: nat, b: nat, little: bool)
    requires Grouped(wide, narrow, r, b, little) && |group| == r && x == Image(group, b, little)
    ensures Grouped(wide + [x], narrow + group, r, b, little)
    decreases |wide|
  {
    var w, n := wide + [x], narrow + group;
    if wide == [] {
      assert w[1..] == [] && n[..r] == group && n[r..] == [];
    } else {
      GroupedAppend(wide[1..], narrow[r..], x, group, r, b, little);
      assert w[1..] == wide[1..] + [x] && n[r..] == narrow[r..] + group && n[..r] == narrow[..r];
    }
  }

  lemma {:induction false} GroupedLength(wide: seq<nat>, narrow: seq<nat>, r: nat, b: nat, little: bool)
    requires Grouped(wide, narrow, r, b, little)
    ensures |narrow| == r * |wide|
    decreases |wide|
  {
    if wide != [] {
      GroupedLength(wide[1..], narrow[r..], r, b, little);
      assert r * |wide| == r + r * (|wide| - 1);
    }
  }

  lemma PowOne(b: nat)
    ensures Pow(b, 1) == b
  {
    assert Pow(b, 1) == b * Pow(b, 0) == b;
  }

  lemma ImageCons(x: nat, tail: seq<nat>, b: nat, little: bool)
    ensures Image([x] + tail, b, little) ==
      if little then x + b * Image(tail, b, little) else Image(tail, b, little) + Pow(b, |tail|) * x
  {
    ImageConcat([x], tail, b, little);
    ImageOfOne(x, b, little);
    PowOne(b);
  }

  /** Then both vectors have the same bits. */
  lemma {:induction false} GroupedImage(wide: seq<nat>, narrow: seq<nat>, r: nat, b: nat, little: bool)
    requires Grouped(wide, narrow, r, b, little)
    ensures Image(wide, Pow(b, r), little) == Image(narrow, b, little)
    decreases |wide|
  {
    if wide != [] {
      var first, rest, tail := narrow[..r], narrow[r..], wide[1..];
      GroupedImage(tail, rest, r, b, little);
      GroupedLength(tail, rest, r, b, little);
      assert narrow == first + rest && wide == [wide[0]] + tail;
      ImageConcat(first, rest, b, little);
      ImageCons(wide[0], tail, Pow(b, r), little);
      PowProduct(b, r, |tail|);
    }
  }

  // ----- Packing -----------------------------------------------------------------------------------------

  lemma TwoOut(a: nat, p: nat)
    ensures a * (2 * p) == 2 * (a * p)
  {
  }

  lemma MulComm(a: nat, b: nat)
    ensures a * b == b * a
  {
  }

  lemma {:induction false} OrShifted(x: nat, y: nat, k: nat)
    ensures Or(x * Pow2(k), y * Pow2(k)) == Or(x, y) * Pow2(k)
  {
    if k > 0 {
      var p := Pow2(k - 1);
      OrShifted(x, y, k - 1);
      assert x * Pow2(k) == 2 * (x * p) by { TwoOut(x, p); }
      assert y * Pow2(k) == 2 * (y * p) by { TwoOut(y, p); }
      OrDoubled(x * p, y * p);
      TwoOut(Or(x, y), p);
    }
  }

  lemma OrDoubled(x: nat, y: nat)
    ensures Or(2 * x, 2 * y) == 2 * Or(x, y)
  {
  }

  lemma {:induction false} Pow2Mono(a: nat, b: nat)
    requires a <= b
    ensures Pow2(a) <= Pow2(b)
    decreases b
  {
    if a < b {
      Pow2Mono(a, b - 1);
    }
  }

  lemma StepBelow(x: nat, q: nat, p: nat)
    requires x < q && p > 0
    ensures x * p < q * p
  {
    MulMono(x + 1, q, p);
    assert (x + 1) * p == x * p + p;
  }

  lemma SmallEnough(x: nat, w: nat, k: nat, width: nat)
    requires x < Pow2(w) && w + k <= width
    ensures Shl(x, k, width) == x * Pow2(k)
  {
    StepBelow(x, Pow2(w), Pow2(k));
    Pow2Sum(w, k);
    Pow2Mono(w + k, width);
    ModSmall(x * Pow2(k), Pow2(width));
  }

  lemma ModSmall(x: nat, d: nat)
    requires x < d
    ensures x % d == x
  {
  }

  /** The next higher element. */
  lemma PackHigher(s: seq<nat>, x: nat, w: nat, k: nat, width: nat)
    requires InRange(s, Pow2(w)) && x < Pow2(w) && k == w * |s| && w + k <= width
    ensures Or(Image(s, Pow2(w), true), Shl(x, k, width)) == Image(s + [x], Pow2(w), true)
  {
    var b := Pow2(w);
    SmallEnough(x, w, k, width);
    assert Number(s, b) < Pow2(k) && Pow2(k) == Pow(b, |s|) by {
      NumberRange(s, b);
      Pow2Product(w, |s|);
    }
    OrOfDisjoint(Number(s, b), x, k);
    ImageConcat(s, [x], b, true);
    ImageOfOne(x, b, true);
    MulComm(x, Pow(b, |s|));
  }

  lemma ImageNext(s: seq<nat>, x: nat, b: nat)
    ensures Image(s + [x], b, false) == Image(s, b, false) * b + x
  {
    ImageConcat(s, [x], b, false);
    ImageOfOne(x, b, false);
    PowOne(b);
    MulComm(b, Image(s, b, false));
  }

  /** The next lower element; there is room for `k` more bits. */
  lemma PackLower(s: seq<nat>, x: nat, w: nat, k: nat, width: nat)
    requires InRange(s, Pow2(w)) && x < Pow2(w) && w + k <= width
    ensures Or(Image(s, Pow2(w), false) * Pow2(w + k), Shl(x, k, width)) == Image(s + [x], Pow2(w), false) * Pow2(k)
  {
    var b, p := Pow2(w), Pow2(k);
    var n := Image(s, b, false);
    SmallEnough(x, w, k, width);
    Pow2Sum(w, k);
    MulAssoc(n, b, p);
    OrShifted(n * b, x, k);
    OrOfDisjoint(x, n, w);
    ImageNext(s, x, b);
  }

  /** What has been packed after some elements, with `shift` for the next one. */
  ghost predicate Packed(elt: nat, s: seq<nat>, w: nat, ratio: nat, shift: int, little: bool) {
    && |s| <= ratio && shift == Shift(w, ratio, |s|, little)
    && (if little then elt == Image(s, Pow2(w), true)
        else w + shift >= 0 && elt == Image(s, Pow2(w), false) * Pow2(w + shift))
  }

  /** The shift for element `j` of a group. */
  function Shift(w: nat, ratio: nat, j: nat, little: bool): int {
    if little then w * j else w * (ratio - 1 - j)
  }

  function NextShift(shift: int, w: int, little: bool): int {
    if little then shift + w else shift - w
  }

  lemma PackStep(elt: nat, s: seq<nat>, x: nat, w: nat, ratio: nat, shift: int, width: nat, little: bool)
    requires Packed(elt, s, w, ratio, shift, little) && |s| < ratio && w * ratio == width && InRange(s, Pow2(w)) && x < Pow2(w)
    ensures 0 <= shift && Packed(Or(elt, Shl(x, shift, width)), s + [x], w, ratio, NextShift(shift, w, little), little)
  {
    ShiftBounds(w, ratio, |s|);
    if little {
      PackHigher(s, x, w, shift, width);
    } else {
      PackLower(s, x, w, shift, width);
    }
  }

  /** One element of the result, from `ratio` elements of the source. */
  method Pack(src: seq<nat>, first: nat, ratio: nat, srcBits: nat, dstBits: nat, little: bool) returns (elt: nat)
    requires srcBits * ratio == dstBits && first + ratio <= |src| && InRange(src, Pow2(srcBits)) && ratio > 0
    ensures elt == Image(src[first..first + ratio], Pow2(srcBits), little)
  {
    elt := 0;
    var shift: int := if little then 0 else srcBits * (ratio - 1);
    PackStart(srcBits, ratio, little);
    assert src[first..first + 0] == [];
    for j := 0 to ratio
      invariant Packed(elt, src[first..first + j], srcBits, ratio, shift, little)
    {
      ghost var before := src[first..first + j];
      assert src[first..first + (j + 1)] == before + [src[first + j]];
      PackStep(elt, before, src[first + j], srcBits, ratio, shift, dstBits, little);
      elt := Or(elt, Shl(src[first + j], shift, dstBits));
      // In the source the shift amount is unsigned and wraps around after the last step; it is not used then.
      shift := NextShift(shift, srcBits, little);
    }
    PackEnd(elt, src[first..first + ratio], srcBits, ratio, shift, little);
  }

  lemma PackStart(w: nat, ratio: nat, little: bool)
    requires ratio > 0
    ensures Packed(0, [], w, ratio, if little then 0 else w * (ratio - 1), little)
  {
    assert Image([], Pow2(w), little) == 0;
    assert ratio - 1 - 0 == ratio - 1;
  }

  lemma PackEnd(elt: nat, s: seq<nat>, w: nat, ratio: nat, shift: int, little: bool)
    requires Packed(elt, s, w, ratio, shift, little) && |s| == ratio
    ensures elt == Image(s, Pow2(w), little)
  {
    assert ratio - 1 - |s| == -1;
    assert w * (-1) == 0 - w;
    assert Pow2(0) == 1;
  }

  lemma ShiftBounds(w: nat, ratio: nat, j: nat)
    requires j < ratio
    ensures w + w * j == w * (j + 1) <= w * ratio
    ensures 0 <= w * (ratio - 1 - j) && w + w * (ratio - 1 - j) == w * (ratio - j) <= w * ratio
    ensures w * (ratio - 1 - (j + 1)) == w * (ratio - 1 - j) - w
  {
    MulMono(j + 1, ratio, w);
    MulMono(ratio - j, ratio, w);
  }

  // ----- Unpacking ---------------------------------------------------------------------------------------

  /** What has been unpacked: the digits so far, and what is left of the number, or has been reached of it. */
  ghost predicate Unpacked(x: nat, s: seq<nat>, w: nat, ratio: nat, shift: int, little: bool) {
    && |s| <= ratio && shift == Shift(w, ratio, |s|, little) && InRange(s, Pow2(w))
    && (if little then shift >= 0 && Image(s, Pow2(w), true) + Pow(Pow2(w), |s|) * Shr(x, shift) == x
        else w + shift >= 0 && Image(s, Pow2(w), false) == Shr(x, w + shift))
  }

  lemma DigitAndRest(x: nat, w: nat, k: nat)
    ensures Shr(x, k) == Shr(x, w + k) * Pow2(w) + Trunc(Shr(x, k), w) && Trunc(Shr(x, k), w) < Pow2(w)
  {
    ShrParts(Shr(x, k), w);
    ShrSum(x, k, w);
    assert k + w == w + k;
  }

  lemma UnpackHigher(x: nat, s: seq<nat>, w: nat, k: nat)
    requires Image(s, Pow2(w), true) + Pow(Pow2(w), |s|) * Shr(x, k) == x
    ensures var t := s + [Trunc(Shr(x, k), w)];
      Image(t, Pow2(w), true) + Pow(Pow2(w), |t|) * Shr(x, w + k) == x
  {
    var b, n, y := Pow2(w), |s|, Shr(x, w + k);
    var d := Trunc(Shr(x, k), w);
    DigitAndRest(x, w, k);
    ImageConcat(s, [d], b, true);
    ImageOfOne(d, b, true);
    MulComm(y, b);
    Distribute(Pow(b, n), d, b, y);
    assert Pow(b, n + 1) == b * Pow(b, n);
    MulComm(b, Pow(b, n));
  }

  lemma UnpackLower(x: nat, s: seq<nat>, w: nat, k: nat)
    requires Image(s, Pow2(w), false) == Shr(x, w + k)
    ensures Image(s + [Trunc(Shr(x, k), w)], Pow2(w), false) == Shr(x, k)
  {
    DigitAndRest(x, w, k);
    ImageNext(s, Trunc(Shr(x, k), w), Pow2(w));
  }

  lemma UnpackStep(x: nat, s: seq<nat>, w: nat, ratio: nat, shift: int, little: bool)
    requires Unpacked(x, s, w, ratio, shift, little) && |s| < ratio
    ensures 0 <= shift
    ensures Unpacked(x, s + [Trunc(Shr(x, shift), w)], w, ratio, NextShift(shift, w, little), little)
  {
    ShiftBounds(w, ratio, |s|);
    DigitAndRest(x, w, shift);
    if little {
      UnpackHigher(x, s, w, shift);
    } else {
      UnpackLower(x, s, w, shift);
    }
  }

  lemma {:induction false} ShrAll(x: nat, k: nat)
    requires x < Pow2(k)
    ensures Shr(x, k) == 0
  {
    ShrParts(x, k);
    if Shr(x, k) > 0 { MulMono(1, Shr(x, k), Pow2(k)); }
  }

  lemma UnpackStart(x: nat, w: nat, ratio: nat, little: bool)
    requires ratio > 0 && x < Pow2(w * ratio)
    ensures Unpacked(x, [], w, ratio, if little then 0 else w * (ratio - 1), little)
  {
    ShrAll(x, w * ratio);
    ShiftBounds(w, ratio, 0);
    assert Image([], Pow2(w), little) == 0;
    assert ratio - 1 - 0 == ratio - 1;
    assert Pow(Pow2(w), 0) * Shr(x, 0) == x;
  }

  lemma UnpackEnd(x: nat, s: seq<nat>, w: nat, ratio: nat, shift: int, little: bool)
    requires Unpacked(x, s, w, ratio, shift, little) && |s| == ratio && x < Pow2(w * ratio)
    ensures Image(s, Pow2(w), little) == x
  {
    if little {
      ShrAll(x, w * ratio);
    } else {
      assert ratio - 1 - |s| == -1;
      assert w * (-1) == 0 - w;
    }
  }

  /** `ratio` elements of the result, from one element of the source. */
  method Unpack(x: nat, ratio: nat, srcBits: nat, dstBits: nat, little: bool) returns (elts: seq<nat>)
    requires dstBits * ratio == srcBits && ratio > 0 && x < Pow2(srcBits)
    ensures |elts| == ratio && InRange(elts, Pow2(dstBits)) && Image(elts, Pow2(dstBits), little) == x
  {
    elts := [];
    var shift: int := if little then 0 else dstBits * (ratio - 1);
    UnpackStart(x, dstBits, ratio, little);
    for j := 0 to ratio
      invariant |elts| == j && Unpacked(x, elts, dstBits, ratio, shift, little)
    {
      UnpackStep(x, elts, dstBits, ratio, shift, little);
      var elt := Shr(x, shift);
      if dstBits < srcBits {
        elt := Trunc(elt, dstBits);
      } else {
        OnlyElement(x, dstBits, ratio, j, shift, srcBits);
      }
      elts := elts + [elt];
      shift := NextShift(shift, dstBits, little);
    }
    UnpackEnd(x, elts, dstBits, ratio, shift, little);
  }

  /** If the widths are the same there is nothing to truncate. */
  lemma OnlyElement(x: nat, w: nat, ratio: nat, j: nat, shift: int, width: nat)
    requires w * ratio == width <= w && x < Pow2(width) && j < ratio && shift >= 0
    ensures Trunc(Shr(x, shift), w) == Shr(x, shift)
  {
    MulMono(1, ratio, w);
    ShrShrinks(x, shift);
    ModSmall(Shr(x, shift), Pow2(w));
  }

  lemma {:induction false} ShrShrinks(x: nat, k: nat)
    ensures Shr(x, k) <= x
  {
    if k > 0 {
      ShrShrinks(x, k - 1);
    }
  }

  // ----- The cast ----------------------------------------------------------------------------------------

  lemma RatioOfNumbers(n: nat, m: nat, q: nat)
    requires m > 0 && n == m * q
    ensures n / m == q
  {
    MulComm(m, q);
    RemainderIs(n, m, q, 0);
  }

  /** The ratio of the numbers of elements is that of the widths, the other way round. */
  lemma Widths(srcNum: nat, srcBits: nat, dstNum: nat, dstBits: nat)
    requires srcNum > 0 && srcBits > 0 && dstBits > 0 && srcNum * srcBits == dstNum * dstBits
    requires dstBits % srcBits == 0 || srcBits % dstBits == 0
    ensures dstNum > 0
    ensures dstNum < srcNum ==> srcBits * (srcNum / dstNum) == dstBits && srcNum == (srcNum / dstNum) * dstNum
    ensures dstNum >= srcNum ==> dstBits * (dstNum / srcNum) == srcBits && dstNum == (dstNum / srcNum) * srcNum
  {
    MulMono(1, srcNum, srcBits);
    if dstBits % srcBits == 0 {
      Multiple(srcNum, srcBits, dstNum, dstBits);
    } else {
      Multiple(dstNum, dstBits, srcNum, srcBits);
    }
  }

  lemma Multiple(n: nat, w: nat, m: nat, v: nat)
    requires n > 0 && m > 0 && w > 0 && v > 0 && n * w == m * v && v % w == 0
    ensures m <= n && w * (n / m) == v && n == (n / m) * m
    ensures m == n ==> v * (m / n) == w && m == (m / n) * n
  {
    var q := v / w;
    assert v == q * w;
    MulAssoc(m, q, w);
    assert n * w == (m * q) * w;
    SameFactor(n, m * q, w);
    RatioOfNumbers(n, m, q);
    MulComm(m, q);
    MulComm(q, w);
    MulMono(1, q, m);
    if m == n {
      SameFactor(q, 1, m);
      RatioOfNumbers(m, n, 1);
    }
  }

  lemma SameFactor(a: nat, b: nat, c: nat)
    requires c > 0 && a * c == b * c
    ensures a == b
  {
    if a < b { StepBelow(a, b, c); }
    if b < a { StepBelow(b, a, c); }
  }

  /** `executeBitCastInst`: the result has the same bits, and elements of the other width. */
  method Cast(src: seq<nat>, srcBits: nat, dstNum: nat, dstBits: nat, little: bool) returns (dst: seq<nat>)
    requires src != [] && srcBits > 0 && dstBits > 0 && |src| * srcBits == dstNum * dstBits && InRange(src, Pow2(srcBits))
    requires dstBits % srcBits == 0 || srcBits % dstBits == 0
    ensures |dst| == dstNum && InRange(dst, Pow2(dstBits))
    ensures Image(dst, Pow2(dstBits), little) == Image(src, Pow2(srcBits), little)
  {
    Widths(|src|, srcBits, dstNum, dstBits);
    if dstNum < |src| {
      dst := PackAll(src, srcBits, dstNum, dstBits, |src| / dstNum, little);
      PackedImage(src, srcBits, dst, dstBits, |src| / dstNum, little);
    } else {
      dst := UnpackAll(src, srcBits, dstBits, dstNum / |src|, little);
      GroupedLength(src, dst, dstNum / |src|, Pow2(dstBits), little);
      GroupedImage(src, dst, dstNum / |src|, Pow2(dstBits), little);
      Pow2Product(dstBits, dstNum / |src|);
    }
  }

  method PackAll(src: seq<nat>, srcBits: nat, dstNum: nat, dstBits: nat, ratio: nat, little: bool) returns (dst: seq<nat>)
    requires srcBits * ratio == dstBits && |src| == ratio * dstNum && ratio > 0 && InRange(src, Pow2(srcBits))
    ensures |dst| == dstNum && Grouped(dst, src, ratio, Pow2(srcBits), little)
  {
    dst := [];
    var srcElt := 0;
    for i := 0 to dstNum
      invariant |dst| == i && srcElt == ratio * i <= |src| && Grouped(dst, src[..srcElt], ratio, Pow2(srcBits), little)
    {
      MulMono(i + 1, dstNum, ratio);
      assert ratio * (i + 1) == srcElt + ratio && (i + 1) * ratio == ratio * (i + 1) && dstNum * ratio == ratio * dstNum;
      var elt := Pack(src, srcElt, ratio, srcBits, dstBits, little);
      GroupedAppend(dst, src[..srcElt], elt, src[srcElt..srcElt + ratio], ratio, Pow2(srcBits), little);
      assert src[..srcElt + ratio] == src[..srcElt] + src[srcElt..srcElt + ratio];
      dst := dst + [elt];
      srcElt := srcElt + ratio;
    }
    assert src[..srcElt] == src;
  }

  lemma PackedImage(src: seq<nat>, srcBits: nat, dst: seq<nat>, dstBits: nat, ratio: nat, little: bool)
    requires srcBits * ratio == dstBits && InRange(src, Pow2(srcBits)) && Grouped(dst, src, ratio, Pow2(srcBits), little)
    ensures Image(dst, Pow2(dstBits), little) == Image(src, Pow2(srcBits), little) && InRange(dst, Pow2(dstBits))
  {
    Pow2Product(srcBits, ratio);
    GroupedImage(dst, src, ratio, Pow2(srcBits), little);
    GroupedRange(dst, src, ratio, Pow2(srcBits), little);
  }

  lemma {:induction false} GroupedRange(wide: seq<nat>, narrow: seq<nat>, r: nat, b: nat, little: bool)
    requires Grouped(wide, narrow, r, b, little) && InRange(narrow, b)
    ensures InRange(wide, Pow(b, r))
    decreases |wide|
  {
    if wide != [] {
      GroupedRange(wide[1..], narrow[r..], r, b, little);
      var first := narrow[..r];
      ReverseRange(first, b);
      NumberRange(if little then first else Reverse(first), b);
      assert wide == [wide[0]] + wide[1..];
    }
  }

  method UnpackAll(src: seq<nat>, srcBits: nat, dstBits: nat, ratio: nat, little: bool) returns (dst: seq<nat>)
    requires dstBits * ratio == srcBits && ratio > 0 && InRange(src, Pow2(srcBits))
    ensures Grouped(src, dst, ratio, Pow2(dstBits), little) && InRange(dst, Pow2(dstBits))
  {
    dst := [];
    for i := 0 to |src|
      invariant Grouped(src[..i], dst, ratio, Pow2(dstBits), little) && InRange(dst, Pow2(dstBits))
    {
      var elts := Unpack(src[i], ratio, srcBits, dstBits, little);
      GroupedAppend(src[..i], dst, src[i], elts, ratio, Pow2(dstBits), little);
      assert src[..i + 1] == src[..i] + [src[i]];
      dst := dst + elts;
    }
    assert src[..|src|] == src;
  }

  /** Casting back gives the vector that was cast, in both byte orders. */
  method RoundTrip(src: seq<nat>, srcBits: nat, dstNum: nat, dstBits: nat, little: bool) returns (back: seq<nat>)
    requires src != [] && srcBits > 0 && dstBits > 0 && |src| * srcBits == dstNum * dstBits && InRange(src, Pow2(srcBits))
    requires dstBits % srcBits == 0 || srcBits % dstBits == 0
    ensures back == src
  {
    Widths(|src|, srcBits, dstNum, dstBits);
    var dst := Cast(src, srcBits, dstNum, dstBits, little);
    back := Cast(dst, dstBits, |src|, srcBits, little);
    ImageInjective(back, src, Pow2(srcBits), little);
  }
}
