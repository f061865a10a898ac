/**
  findNearestPoint (HapticCube/TangibleVirtualObject.cpp): the index of the
  vertex closest to a point, the first one on ties. The source compares
  Euclidean distances taken with sqrt; the model compares squared
  distances and proves that any strictly increasing, non-negative root of
  them picks the same index.
*/
module Nearest {
  import opened Vectors

  /** The squared distance from p to every vertex, in vertex order. */
  function Distances(p: Vec3, vs: seq<Vec3>): (ds: seq<real>)
    ensures |ds| == |vs|
    ensures forall i :: 0 <= i < |vs| ==> ds[i] >= 0.0
  {
    seq(|vs|, i requires 0 <= i < |vs| => SqDist(vs[i], p))
  }

  /** k is the first index holding the least value of ds. */
  ghost predicate IsFirstMin(ds: seq<real>, k: int)
  {
    && 0 <= k < |ds|
    && (forall j :: 0 <= j < |ds| ==> ds[k] <= ds[j])
    && (forall j :: 0 <= j < k ==> ds[j] > ds[k])
  }

  /**
    The scan keeps the running minimum in minDist, starting from the
    sentinel -1, and moves closestIndex only on a strictly smaller distance.
  */
  method FindNearestPoint(pointPos: Vec3, vertices: seq<Vec3>) returns (closestIndex: int)
    requires |vertices| > 0
    ensures 0 <= closestIndex < |vertices|
    ensures IsFirstMin(Distances(pointPos, vertices), closestIndex)
  {
    ghost var ds := Distances(pointPos, vertices);
    var minDist := -1.0;
    closestIndex := 0;
    for i := 0 to |vertices|
      invariant i == 0 ==> minDist == -1.0
      invariant i > 0 ==> IsFirstMin(ds[..i], closestIndex) && minDist == ds[closestIndex]
    {
      var distance := SqDist(vertices[i], pointPos);
      assert distance == ds[i];
      if minDist == -1.0 || minDist > distance {
        minDist := distance;
        closestIndex := i;
      }
      assert ds[..i + 1][..i] == ds[..i];
    }
    assert ds[..|vertices|] == ds;
  }

  /** The first minimum is unique. */
  lemma FirstMinUnique(ds: seq<real>, k1: int, k2: int)
    requires IsFirstMin(ds, k1) && IsFirstMin(ds, k2)
    ensures k1 == k2
  {
    assert ds[k1] <= ds[k2] && ds[k2] <= ds[k1];
  }

  /** f applied to every element of ds. */
  function Apply(f: real -> real, ds: seq<real>): (es: seq<real>)
    ensures |es| == |ds|
    ensures forall i :: 0 <= i < |ds| ==> es[i] == f(ds[i])
  {
    seq(|ds|, i requires 0 <= i < |ds| => f(ds[i]))
  }

  /** f is strictly increasing on the non-negative reals, as sqrt is. */
  ghost predicate StrictlyIncreasing(f: real -> real)
  {
    forall a, b :: 0.0 <= a < b ==> f(a) < f(b)
  }

  /**
    Comparing square roots of the squared distances selects the same vertex
    as comparing the squared distances themselves.
  */
  lemma FirstMinUnderRoot(ds: seq<real>, f: real -> real, k: int)
    requires StrictlyIncreasing(f)
    requires forall i :: 0 <= i < |ds| ==> ds[i] >= 0.0
    ensures IsFirstMin(ds, k) <==> IsFirstMin(Apply(f, ds), k)
  {
    var es := Apply(f, ds);
    if 0 <= k < |ds| {
      forall j | 0 <= j < |ds|
        ensures ds[k] <= ds[j] <==> es[k] <= es[j]
        ensures ds[j] > ds[k] <==> es[j] > es[k]
      {
        assert es[j] == f(ds[j]) && es[k] == f(ds[k]);
      }
    }
  }

  /**
    A point lying exactly on a vertex is located at that vertex: the chosen
    vertex equals the point, and no earlier vertex does, so the lowest index
    wins among duplicates.
  */
  lemma ExactMatch(p: Vec3, vs: seq<Vec3>, i: int, k: int)
    requires 0 <= i < |vs| && vs[i] == p
    requires IsFirstMin(Distances(p, vs), k)
    ensures vs[k] == p && k <= i
    ensures forall j :: 0 <= j < k ==> vs[j] != p
  {
    var ds := Distances(p, vs);
    assert ds[i] == 0.0;
    assert ds[k] <= ds[i];
    assert ds[k] == SqDist(vs[k], p);
    forall j | 0 <= j < k
      ensures vs[j] != p
    {
      assert ds[j] > ds[k];
    }
  }
}
