/** src/vecset.h and src/vecset.tcc: a set kept as a sorted vector. */
module VecSets {

  predicate Sorted(s: seq<int>) {
    |s| < 2 || (s[0] < s[1] && Sorted(s[1..]))
  }

  lemma {:induction false} InOrder(s: seq<int>)
    requires Sorted(s)
    ensures forall i, j :: 0 <= i < j < |s| ==> s[i] < s[j]
  {
    if |s| >= 2 {
      var rest := s[1..];
      InOrder(rest);
      assert forall k :: 0 < k < |s| ==> s[k] == rest[k - 1];
    }
  }

  /** The vector with `t` at its place, unless it is there already. */
  function Inserted(s: seq<int>, t: int): (r: seq<int>)
    ensures forall x :: x in r <==> x in s || x == t
    ensures Sorted(s) ==> Sorted(r)
    ensures r != [] && r[0] == if s == [] || t < s[0] then t else s[0]
  {
    if s == [] then [t]
    else if t < s[0] then
      assert ([t] + s)[1..] == s;
      [t] + s
    else if t == s[0] then s
    else
      var r := Inserted(s[1..], t);
      assert forall x :: x in [s[0]] + r <==> x == s[0] || x in r;
      assert ([s[0]] + r)[1..] == r;
      [s[0]] + r
  }

  /** Where `t` belongs: all before are less, all from there on are not. */
  ghost predicate Splits(s: seq<int>, t: int, i: int) {
    0 <= i <= |s| && (forall j :: 0 <= j < i ==> s[j] < t) && (forall j :: i <= j < |s| ==> t <= s[j])
  }

  lemma {:induction false} InsertedAt(s: seq<int>, t: int, i: int)
    requires Sorted(s) && Splits(s, t, i)
    ensures Inserted(s, t) == PutAt(s, t, i)
  {
    InOrder(s);
    if i > 0 {
      TailSplits(s, t, i);
      InsertedAt(s[1..], t, i - 1);
      PutInTail(s, t, i);
    } else {
      assert s[..0] == [] && s[0..] == s;
    }
  }

  function PutAt(s: seq<int>, t: int, i: int): seq<int>
    requires 0 <= i <= |s|
  {
    if i < |s| && s[i] == t then s else s[..i] + [t] + s[i..]
  }

  lemma TailSplits(s: seq<int>, t: int, i: int)
    requires Sorted(s) && Splits(s, t, i) && i > 0
    ensures s[0] < t && Sorted(s[1..]) && Splits(s[1..], t, i - 1)
  {
    InOrder(s);
    assert forall k :: 0 <= k < |s| - 1 ==> s[1..][k] == s[k + 1];
  }

  lemma PutInTail(s: seq<int>, t: int, i: int)
    requires 0 < i <= |s|
    ensures PutAt(s, t, i) == [s[0]] + PutAt(s[1..], t, i - 1)
  {
    assert s == [s[0]] + s[1..] && s[..i] == [s[0]] + s[1..][..i - 1] && s[i..] == s[1..][i - 1..];
  }

  /** `find_geq`: binary search. */
  method FindGeq(s: seq<int>, t: int) returns (i: int)
    requires Sorted(s)
    ensures Splits(s, t, i)
  {
    InOrder(s);
    var a, b := 0, |s|;
    while a < b
      invariant 0 <= a <= b <= |s|
      invariant forall j :: 0 <= j < a ==> s[j] < t
      invariant forall j :: b <= j < |s| ==> t <= s[j]
    {
      var c := (a + b) / 2;
      if s[c] < t {
        a := c + 1;
      } else if s[c] == t {
        return c;
      } else {
        b := c;
      }
    }
    return a;
  }

  lemma ThereIff(s: seq<int>, t: int, i: int)
    requires Sorted(s) && Splits(s, t, i)
    ensures t in s <==> i < |s| && s[i] == t
  {
    InOrder(s);
  }

  /** `insert`: room is made at the back, and the greater elements are shifted. */
  method Insert(s: seq<int>, t: int) returns (r: seq<int>, isNew: bool)
    requires Sorted(s)
    ensures r == Inserted(s, t) && (isNew <==> t !in s)
  {
    var i := FindGeq(s, t);
    InsertedAt(s, t, i);
    ThereIff(s, t, i);
    if i < |s| && s[i] == t {
      return s, false;
    }
    if |s| == 0 {
      r := [t];
    } else {
      r := Shift(s, i, t);
    }
    isNew := true;
  }

  /** The loop of `insert`: the last element is doubled, and the ones from `i` on move up. */
  method Shift(s: seq<int>, i: int, t: int) returns (r: seq<int>)
    requires |s| > 0 && 0 <= i <= |s|
    ensures r == s[..i] + [t] + s[i..]
  {
    r := s + [s[|s| - 1]];
    var j := |s| - 1;
    while j > i
      invariant 0 <= j < |s| && (i <= j || j + 1 == i == |s|)
      invariant r == s[..j + 1] + s[j..]
    {
      r := r[j := r[j - 1]];
      assert r == s[..j] + s[j - 1..];
      j := j - 1;
    }
    r := r[i := t];
  }
}
