/**
  The ring partition built when anchored editing starts
  (HapticCube/TangibleVirtualObject.cpp, keyboard case 'a'): a breadth-first
  layering of the mesh's vertices over the directed adjacency map `net`,
  starting at a root vertex, into a fixed array of twelve sets. A vertex
  keeps the first ring that reaches it.
*/
module Rings {
  import opened Mesh

  /** maxNumSlices: the number of rings always rebuilt. */
  const MaxNumSlices: int := 12

  /** Every vertex that some member of s links to. */
  ghost function Neighbors(net: map<int, set<int>>, s: set<int>): set<int>
  {
    set p, c | p in s && c in NetAt(net, p) :: c
  }

  /** Ring n: ring 0 is the root; ring n holds the successors of ring n - 1 that no earlier ring holds. */
  ghost function Ring(net: map<int, set<int>>, root: int, n: nat): set<int>
    decreases n, 0
  {
    if n == 0 then {root}
    else Neighbors(net, Ring(net, root, n - 1)) - Visited(net, root, n - 1)
  }

  /** The traversed set after ring n: rings 0 to n together. */
  ghost function Visited(net: map<int, set<int>>, root: int, n: nat): set<int>
    decreases n, 1
  {
    if n == 0 then {root} else Visited(net, root, n - 1) + Ring(net, root, n)
  }

  /** Reference definition: the vertices reachable from root in at most n steps along net. */
  ghost function Reach(net: map<int, set<int>>, root: int, n: nat): set<int>
  {
    if n == 0 then {root}
    else Reach(net, root, n - 1) + Neighbors(net, Reach(net, root, n - 1))
  }

  ghost predicate PairwiseDisjoint(rs: seq<set<int>>)
  {
    forall i, j :: 0 <= i < j < |rs| ==> rs[i] !! rs[j]
  }

  lemma NeighborsAddOne(net: map<int, set<int>>, s: set<int>, p: int)
    ensures Neighbors(net, s + {p}) == Neighbors(net, s) + NetAt(net, p)
  {
    forall c | c in NetAt(net, p)
      ensures c in Neighbors(net, s + {p})
    {
      assert p in s + {p};
    }
  }

  lemma NeighborsUnion(net: map<int, set<int>>, s: set<int>, u: set<int>)
    ensures Neighbors(net, s + u) == Neighbors(net, s) + Neighbors(net, u)
  {
  }

  lemma NeighborsMonotone(net: map<int, set<int>>, s: set<int>, u: set<int>)
    requires s <= u
    ensures Neighbors(net, s) <= Neighbors(net, u)
  {
  }

  lemma {:induction false} RingWithinVisited(net: map<int, set<int>>, root: int, i: nat, m: nat)
    requires i <= m
    ensures Ring(net, root, i) <= Visited(net, root, m)
    decreases m
  {
    if i < m {
      RingWithinVisited(net, root, i, m - 1);
    }
  }

  /** The rings are pairwise disjoint: first touch wins. */
  lemma RingsDisjoint(net: map<int, set<int>>, root: int, i: nat, j: nat)
    requires i < j
    ensures Ring(net, root, i) !! Ring(net, root, j)
  {
    RingWithinVisited(net, root, i, j - 1);
  }

  /**
    Every vertex of ring n >= 1 is a successor of some vertex of ring n - 1
    and lies in no earlier ring.
  */
  lemma RingParent(net: map<int, set<int>>, root: int, n: nat, v: int)
    requires n >= 1 && v in Ring(net, root, n)
    ensures exists p :: p in Ring(net, root, n - 1) && v in NetAt(net, p)
    ensures forall k :: 0 <= k < n ==> v !in Ring(net, root, k)
  {
    forall k | 0 <= k < n
      ensures v !in Ring(net, root, k)
    {
      RingsDisjoint(net, root, k, n);
    }
  }

  /** A vertex is traversed after ring m exactly when one of rings 0..m holds it. */
  lemma {:induction false} VisitedIsUnion(net: map<int, set<int>>, root: int, m: nat, v: int)
    ensures v in Visited(net, root, m) <==> exists k :: 0 <= k <= m && v in Ring(net, root, k)
  {
    if m == 0 {
      assert Visited(net, root, 0) == {root} == Ring(net, root, 0);
      if v == root {
        assert 0 <= 0 <= m && v in Ring(net, root, 0);
      }
      if exists k :: 0 <= k <= m && v in Ring(net, root, k) {
        var k :| 0 <= k <= m && v in Ring(net, root, k);
        assert k == 0;
      }
    } else {
      VisitedIsUnion(net, root, m - 1, v);
      assert Visited(net, root, m) == Visited(net, root, m - 1) + Ring(net, root, m);
      if v in Ring(net, root, m) {
        assert 0 <= m <= m && v in Ring(net, root, m);
      }
      if exists k :: 0 <= k <= m && v in Ring(net, root, k) {
        var k :| 0 <= k <= m && v in Ring(net, root, k);
        RingWithinVisited(net, root, k, m);
      }
    }
  }

  /** Closure: every successor of a vertex of ring n - 1 lies in one of rings 0..n. */
  lemma RingClosure(net: map<int, set<int>>, root: int, n: nat, p: int, c: int)
    requires n >= 1 && p in Ring(net, root, n - 1) && c in NetAt(net, p)
    ensures exists k :: 0 <= k <= n && c in Ring(net, root, k)
  {
    assert c in Neighbors(net, Ring(net, root, n - 1));
    assert c in Visited(net, root, n);
    VisitedIsUnion(net, root, n, c);
  }

  lemma {:induction false} NeighborsOfVisited(net: map<int, set<int>>, root: int, m: nat)
    ensures Neighbors(net, Visited(net, root, m)) <= Visited(net, root, m + 1)
  {
    assert Visited(net, root, m + 1) == Visited(net, root, m) + Ring(net, root, m + 1);
    assert Ring(net, root, m + 1) == Neighbors(net, Ring(net, root, m)) - Visited(net, root, m);
    if m > 0 {
      NeighborsOfVisited(net, root, m - 1);
      assert Visited(net, root, m) == Visited(net, root, m - 1) + Ring(net, root, m);
      NeighborsUnion(net, Visited(net, root, m - 1), Ring(net, root, m));
    }
  }

  /** One step of the traversed set: the previous set plus every successor of the last ring. */
  lemma VisitedStep(net: map<int, set<int>>, root: int, m: nat)
    requires m >= 1
    ensures Visited(net, root, m) == Visited(net, root, m - 1) + Neighbors(net, Ring(net, root, m - 1))
  {
    assert Visited(net, root, m) == Visited(net, root, m - 1) + Ring(net, root, m);
  }

  lemma AbsorbNeighbors(net: map<int, set<int>>, prev: set<int>, ring: set<int>)
    requires ring <= prev
    requires Neighbors(net, prev) <= prev + Neighbors(net, ring)
    ensures prev + Neighbors(net, ring) == prev + Neighbors(net, prev)
  {
    NeighborsMonotone(net, ring, prev);
  }

  /** The traversed set after ring m is exactly the set reachable from the root in at most m steps. */
  lemma {:induction false} VisitedIsReach(net: map<int, set<int>>, root: int, m: nat)
    ensures Visited(net, root, m) == Reach(net, root, m)
  {
    if m > 0 {
      var prev := Visited(net, root, m - 1);
      calc {
        Visited(net, root, m);
        == { VisitedStep(net, root, m); }
        prev + Neighbors(net, Ring(net, root, m - 1));
        == { RingWithinVisited(net, root, m - 1, m - 1);
             NeighborsOfVisited(net, root, m - 1);
             VisitedStep(net, root, m);
             AbsorbNeighbors(net, prev, Ring(net, root, m - 1)); }
        prev + Neighbors(net, prev);
        == { VisitedIsReach(net, root, m - 1); }
        Reach(net, root, m - 1) + Neighbors(net, Reach(net, root, m - 1));
      }
    }
  }

  /**
    The rings are the breadth-first layers: ring n >= 1 holds exactly the
    vertices reachable in n steps and not in fewer.
  */
  lemma RingsAreLayers(net: map<int, set<int>>, root: int, n: nat)
    requires n >= 1
    ensures Ring(net, root, n) == Reach(net, root, n) - Reach(net, root, n - 1)
  {
    VisitedIsReach(net, root, n);
    VisitedIsReach(net, root, n - 1);
  }

  /** When the root and all recorded successors are vertex indices below size, so are all ring members. */
  lemma RingMembersBelow(net: map<int, set<int>>, root: int, size: int, n: nat)
    requires TargetsBelow(net, size) && 0 <= root < size
    ensures forall v :: v in Ring(net, root, n) ==> 0 <= v < size
  {
  }

  /** Some member of a non-empty set, as iterating a std::set visits each member once. */
  method Pick<T>(s: set<T>) returns (x: T)
    requires s != {}
    ensures x in s
  {
    x :| x in s;
  }

  /**
    The innermost loop of the ring-building block: every successor of p not
    yet traversed joins ring n and the traversed set.
  */
  method AddSuccessors(net: map<int, set<int>>, p: int, rings: array<set<int>>, n: int, traversed: set<int>)
    returns (traversed': set<int>)
    requires 0 <= n < rings.Length
    modifies rings
    ensures rings[n] == old(rings[n]) + (NetAt(net, p) - traversed)
    ensures traversed' == traversed + NetAt(net, p)
    ensures forall k :: 0 <= k < rings.Length && k != n ==> rings[k] == old(rings[k])
  {
    traversed' := traversed;
    var children := NetAt(net, p);
    ghost var seen: set<int> := {};
    while children != {}
      invariant seen + children == NetAt(net, p) && seen !! children
      invariant rings[n] == old(rings[n]) + (seen - traversed)
      invariant traversed' == traversed + seen
      invariant forall k :: 0 <= k < rings.Length && k != n ==> rings[k] == old(rings[k])
      decreases children
    {
      var c := Pick(children);
      if c !in traversed' {
        rings[n] := rings[n] + {c};
        traversed' := traversed' + {c};
      }
      children := children - {c};
      seen := seen + {c};
    }
  }

  /**
    One pass of the ring-building block: every parent of ring n - 1 in turn
    adds its untraversed successors to ring n.
  */
  method FillRing(net: map<int, set<int>>, rings: array<set<int>>, n: int, traversed: set<int>)
    returns (traversed': set<int>)
    requires 1 <= n < rings.Length
    requires rings[n] == {}
    modifies rings
    ensures rings[n] == Neighbors(net, rings[n - 1]) - traversed
    ensures traversed' == traversed + rings[n]
    ensures forall k :: 0 <= k < rings.Length && k != n ==> rings[k] == old(rings[k])
  {
    traversed' := traversed;
    var parents := rings[n - 1];
    ghost var done: set<int> := {};
    while parents != {}
      invariant done + parents == old(rings[n - 1]) && done !! parents
      invariant rings[n] == Neighbors(net, done) - traversed
      invariant traversed' == traversed + rings[n]
      invariant forall k :: 0 <= k < rings.Length && k != n ==> rings[k] == old(rings[k])
      decreases parents
    {
      var p := Pick(parents);
      traversed' := AddSuccessors(net, p, rings, n, traversed');
      NeighborsAddOne(net, done, p);
      parents := parents - {p};
      done := done + {p};
    }
  }

  /**
    The ring-building block of keyboard case 'a': clear all twelve rings,
    put the root in ring 0, then fill rings 1..11 one parent at a time,
    adding each not yet traversed successor.
  */
  method BuildRings(net: map<int, set<int>>, root: int, rings: array<set<int>>)
    requires rings.Length == MaxNumSlices
    modifies rings
    ensures forall n :: 0 <= n < MaxNumSlices ==> rings[n] == Ring(net, root, n)
    ensures PairwiseDisjoint(rings[..])
  {
    var traversed: set<int> := {};
    for i := 0 to MaxNumSlices
      invariant forall k :: 0 <= k < i ==> rings[k] == {}
    {
      rings[i] := {};
    }

    rings[0] := rings[0] + {root};
    traversed := traversed + {root};

    for n := 1 to MaxNumSlices
      invariant forall k :: 0 <= k < n ==> rings[k] == Ring(net, root, k)
      invariant forall k :: n <= k < MaxNumSlices ==> rings[k] == {}
      invariant traversed == Visited(net, root, n - 1)
    {
      ghost var before := traversed;
      traversed := FillRing(net, rings, n, traversed);
      assert rings[n] == Neighbors(net, Ring(net, root, n - 1)) - Visited(net, root, n - 1) == Ring(net, root, n);
      assert traversed == before + rings[n] == Visited(net, root, n);
    }

    forall i, j | 0 <= i < j < MaxNumSlices
      ensures rings[..][i] !! rings[..][j]
    {
      RingsDisjoint(net, root, i, j);
    }
  }
}
