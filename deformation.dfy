/**
  The falloff of the anchored deformation (HapticCube/TangibleVirtualObject.cpp,
  getYVal and the scalar of anchoredSpringForceCallback): ring n of the
  numSlices displaced rings moves by 1 / (1 + yVal^(n - numSlices / 2)).
  The source's pow is a parameter of the model; the only property required of it
  is that it is positive for a positive base.
*/
module Deformation {

  /**
    The base of the falloff for the current number of slices: a fixed table
    for 2..9 slices and 3 for every other count.
  */
  function GetYVal(numSlices: int): (k: real)
    ensures k >= 3.0
    ensures (2 <= numSlices <= 9) <==> k > 3.0
  {
    match numSlices
    case 9 => 3.5
    case 8 => 4.0
    case 7 => 5.0
    case 6 => 7.0
    case 5 => 9.0
    case 4 => 12.0
    case 3 => 20.0
    case 2 => 40.0
    case _ => 3.0
  }

  /** Fewer slices give a steeper base: the table strictly decreases from 2 to 10 slices. */
  lemma {:induction false} GetYValDecreasing(a: int, b: int)
    requires 2 <= a < b <= 10
    ensures GetYVal(a) > GetYVal(b)
    decreases b - a
  {
    if a + 1 < b {
      GetYValDecreasing(a + 1, b);
      GetYValDecreasing(a, a + 1);
    }
  }

  /** pow(b, e) is positive for every positive base b, as the C library's pow is. */
  ghost predicate PowPositive(pow: (real, real) -> real)
  {
    forall b, e :: b > 0.0 ==> pow(b, e) > 0.0
  }

  /** pow(b, e) grows strictly with e for every base b above 1. */
  ghost predicate PowIncreasing(pow: (real, real) -> real)
  {
    forall b, e1, e2 :: b > 1.0 && e1 < e2 ==> pow(b, e1) < pow(b, e2)
  }

  /** The scalar applied to ring n - 1 on a tick with numSlices slices. */
  function Falloff(pow: (real, real) -> real, numSlices: int, n: int): (r: real)
    requires PowPositive(pow)
    ensures 0.0 < r < 1.0
  {
    var p := pow(GetYVal(numSlices), n as real - numSlices as real / 2.0);
    Reciprocal(1.0, 1.0 + p);
    1.0 / (1.0 + p)
  }

  /** For 0 < a < b, 1 / a > 1 / b, and 1 / b lies in (0, 1) when b > 1. */
  lemma Reciprocal(a: real, b: real)
    requires 0.0 < a < b
    ensures 1.0 / a > 1.0 / b > 0.0
    ensures a == 1.0 ==> 1.0 / b < 1.0
  {
  }

  /** The farther ring moves less: the scalar strictly decreases with the ring number. */
  lemma FalloffDecreasing(pow: (real, real) -> real, numSlices: int, n: int, m: int)
    requires PowPositive(pow) && PowIncreasing(pow)
    requires n < m
    ensures Falloff(pow, numSlices, n) > Falloff(pow, numSlices, m)
  {
    var y := GetYVal(numSlices);
    var pn := pow(y, n as real - numSlices as real / 2.0);
    var pm := pow(y, m as real - numSlices as real / 2.0);
    assert 0.0 < pn < pm;
    Reciprocal(1.0 + pn, 1.0 + pm);
  }

  /** Vertex v lies in one of the rings 0..k - 1. */
  ghost predicate InRings(rs: seq<set<int>>, v: int, k: int)
  {
    exists j :: 0 <= j < k && j < |rs| && v in rs[j]
  }

  /**
    The total displacement factor of vertex v after the passes n = 1..k:
    each pass adds Falloff(n) to every member of ring n - 1.
  */
  ghost function Gain(pow: (real, real) -> real, numSlices: int, rs: seq<set<int>>, v: int, k: nat): (g: real)
    requires PowPositive(pow) && k <= |rs|
    ensures g >= 0.0
    ensures g > 0.0 <==> InRings(rs, v, k)
  {
    if k == 0 then 0.0
    else Gain(pow, numSlices, rs, v, k - 1) + (if v in rs[k - 1] then Falloff(pow, numSlices, k) else 0.0)
  }

  /**
    On pairwise disjoint rings, a member of ring n - 1 is moved by exactly
    Falloff(n), once, whatever number of later passes follow.
  */
  lemma {:induction false} GainInRing(pow: (real, real) -> real, numSlices: int, rs: seq<set<int>>, v: int, n: int, k: nat)
    requires PowPositive(pow) && k <= |rs|
    requires forall i, j :: 0 <= i < j < |rs| ==> rs[i] !! rs[j]
    requires 1 <= n <= k && v in rs[n - 1]
    ensures Gain(pow, numSlices, rs, v, k) == Falloff(pow, numSlices, n)
    decreases k
  {
    if k > n {
      assert rs[n - 1] !! rs[k - 1];
      GainInRing(pow, numSlices, rs, v, n, k - 1);
    } else {
      forall j | 0 <= j < n - 1
        ensures v !in rs[j]
      {
        assert rs[j] !! rs[n - 1];
      }
      assert !InRings(rs, v, n - 1);
    }
  }
}
