/**
  The OBJ mesh loader of HapticCube/objloader.cpp: the vertex store with its
  parallel colour and friction arrays, the face index lists, and the
  directed adjacency map `net` that generate() builds from the triangles.
*/
module Mesh {
  import opened Vectors

  /** A face: three vertex indices (the normal, centre and id of the C++ struct are never set). */
  datatype Triangle = Triangle(v0: int, v1: int, v2: int)

  /**
    A positive real. A vertex record carries 1 / |p|, the factor by which
    glm::normalize scales its position p; the square root itself is not
    modelled.
  */
  type PosReal = r: real | r > 0.0 witness 1.0

  /**
    invLength is the normalisation factor of p: for a non-zero p,
    invLength^2 * |p|^2 == 1, so p scaled by invLength is normalise(p).
    A zero p, which normalise turns into NaN, constrains nothing.
  */
  ghost predicate NormalFactor(p: Vec3, invLength: real)
  {
    p != Vec3(0.0, 0.0, 0.0) ==> Square(invLength) * SqDist(p, Vec3(0.0, 0.0, 0.0)) == 1.0
  }

  /** One record of an OBJ file once the text has been tokenised. */
  datatype Record =
    | VertexLine(position: Vec3, invLength: PosReal)  // the position and 1 / |position|
    | FaceLine(a: int, b: int, c: int)         // the three 1-based indices as parsed
    | OtherLine                                // comments, normals, texture coordinates, ...

  /** net[a] as std::map::operator[] reads it: the empty set for a missing key. */
  function NetAt(net: map<int, set<int>>, a: int): set<int>
  {
    if a in net then net[a] else {}
  }

  /** The adjacency map after link(a, b). */
  function Linked(net: map<int, set<int>>, a: int, b: int): (r: map<int, set<int>>)
    ensures r.Keys == net.Keys + {a}
    ensures NetAt(r, a) == NetAt(net, a) + {b}
    ensures forall k :: k != a ==> NetAt(r, k) == NetAt(net, k)
    ensures b in NetAt(net, a) ==> r == net
  {
    var r := net[a := NetAt(net, a) + {b}];
    assert b in NetAt(net, a) ==> r == net by {
      if b in NetAt(net, a) {
        assert NetAt(net, a) + {b} == net[a];
      }
    }
    r
  }

  /** The three directed edges a triangle contributes: v0->v1, v1->v2, v2->v0. */
  predicate Consecutive(t: Triangle, a: int, b: int)
  {
    (a == t.v0 && b == t.v1) || (a == t.v1 && b == t.v2) || (a == t.v2 && b == t.v0)
  }

  function LinkTriangle(net: map<int, set<int>>, t: Triangle): map<int, set<int>>
  {
    Linked(Linked(Linked(net, t.v0, t.v1), t.v1, t.v2), t.v2, t.v0)
  }

  lemma LinkTriangleAt(net: map<int, set<int>>, t: Triangle, a: int, b: int)
    ensures b in NetAt(LinkTriangle(net, t), a) <==> b in NetAt(net, a) || Consecutive(t, a, b)
  {
    var m1 := Linked(net, t.v0, t.v1);
    var m2 := Linked(m1, t.v1, t.v2);
    var m3 := Linked(m2, t.v2, t.v0);
    assert NetAt(m1, a) == NetAt(net, a) + (if a == t.v0 then {t.v1} else {});
    assert NetAt(m2, a) == NetAt(m1, a) + (if a == t.v1 then {t.v2} else {});
    assert NetAt(m3, a) == NetAt(m2, a) + (if a == t.v2 then {t.v0} else {});
  }

  /** The adjacency map after linking every triangle of ts, in order, into net. */
  function LinkAll(net: map<int, set<int>>, ts: seq<Triangle>): map<int, set<int>>
  {
    if ts == [] then net else LinkTriangle(LinkAll(net, ts[..|ts| - 1]), ts[|ts| - 1])
  }

  /** b is a successor of a after generate() exactly when it was one before or some triangle has a->b as an edge. */
  lemma {:induction false} LinkAllEdges(net: map<int, set<int>>, ts: seq<Triangle>, a: int, b: int)
    ensures b in NetAt(LinkAll(net, ts), a) <==> b in NetAt(net, a) || exists t :: t in ts && Consecutive(t, a, b)
  {
    if ts != [] {
      var init, last := ts[..|ts| - 1], ts[|ts| - 1];
      assert ts == init + [last];
      LinkAllEdges(net, init, a, b);
      LinkTriangleAt(LinkAll(net, init), last, a, b);
      if exists t :: t in ts && Consecutive(t, a, b) {
        var t :| t in ts && Consecutive(t, a, b);
        if t != last {
          assert t in init;
        }
      }
    }
  }

  /** generate() adds a key for every vertex that a triangle mentions, and no other key. */
  lemma {:induction false} LinkAllKeys(net: map<int, set<int>>, ts: seq<Triangle>, a: int)
    ensures a in LinkAll(net, ts) <==> a in net || exists t :: t in ts && (a == t.v0 || a == t.v1 || a == t.v2)
  {
    if ts != [] {
      var init, last := ts[..|ts| - 1], ts[|ts| - 1];
      assert ts == init + [last];
      LinkAllKeys(net, init, a);
      if exists t :: t in ts && (a == t.v0 || a == t.v1 || a == t.v2) {
        var t :| t in ts && (a == t.v0 || a == t.v1 || a == t.v2);
        if t != last {
          assert t in init;
        }
      }
    }
  }

  /** Every index of every triangle lies in [0, n). */
  ghost predicate IndicesBelow(ts: seq<Triangle>, n: int)
  {
    forall t :: t in ts ==> 0 <= t.v0 < n && 0 <= t.v1 < n && 0 <= t.v2 < n
  }

  /** Every successor recorded in net lies in [0, n). */
  ghost predicate TargetsBelow(net: map<int, set<int>>, n: int)
  {
    forall a, b :: a in net && b in net[a] ==> 0 <= b < n
  }

  /** After generate(), every triangle (a, b, c) has b in net[a], c in net[b] and a in net[c]. */
  lemma GenerateCovers(net: map<int, set<int>>, ts: seq<Triangle>, t: Triangle)
    requires t in ts
    ensures t.v1 in NetAt(LinkAll(net, ts), t.v0)
    ensures t.v2 in NetAt(LinkAll(net, ts), t.v1)
    ensures t.v0 in NetAt(LinkAll(net, ts), t.v2)
  {
    LinkAllEdges(net, ts, t.v0, t.v1);
    LinkAllEdges(net, ts, t.v1, t.v2);
    LinkAllEdges(net, ts, t.v2, t.v0);
  }

  /**
    From the empty map the constructor leaves, every edge generate() records
    comes from a triangle in which it is a consecutive pair, and when the face
    indices are valid vertex indices, so is every recorded successor.
  */
  lemma GenerateFromEmpty(ts: seq<Triangle>, n: int, a: int, b: int)
    requires b in NetAt(LinkAll(map[], ts), a)
    ensures exists t :: t in ts && Consecutive(t, a, b)
    ensures IndicesBelow(ts, n) ==> 0 <= b < n
  {
    LinkAllEdges(map[], ts, a, b);
  }

  /** With valid face indices, generate() from the empty map records only valid vertex indices. */
  lemma GenerateTargetsBelow(ts: seq<Triangle>, n: int)
    requires IndicesBelow(ts, n)
    ensures TargetsBelow(LinkAll(map[], ts), n)
  {
    var net := LinkAll(map[], ts);
    forall a, b | a in net && b in net[a]
      ensures 0 <= b < n
    {
      GenerateFromEmpty(ts, n, a, b);
    }
  }

  /**
    Friction of a vertex from its colour: 0.9 when red is strictly the
    largest component, 0.4 when green is, 0.1 otherwise (ties included).
  */
  function Friction(c: Vec3): (f: real)
    ensures f == 0.9 <==> c.x > c.y && c.x > c.z
    ensures f == 0.4 <==> c.y > c.x && c.y > c.z
    ensures f == 0.1 <==> !(c.x > c.y && c.x > c.z) && !(c.y > c.x && c.y > c.z)
  {
    var fric := 0.1;
    var red := if c.x > c.y && c.x > c.z then 0.9 else fric;
    if c.y > c.x && c.y > c.z then 0.4 else red
  }

  /**
    Scaling a point by any positive factor before taking componentwise
    absolute values leaves Friction unchanged.
  */
  lemma FrictionScaleInvariant(p: Vec3, s: real)
    requires s > 0.0
    ensures Friction(p.Scale(s).Abs()) == Friction(p.Abs())
  {
    var c := p.Abs();
    AbsScale(p.x, s);
    AbsScale(p.y, s);
    AbsScale(p.z, s);
    assert p.Scale(s).Abs() == Vec3(c.x * s, c.y * s, c.z * s) == c.Scale(s);
    FrictionOfScaled(c, s);
  }

  lemma FrictionOfScaled(c: Vec3, s: real)
    requires s > 0.0
    ensures Friction(c.Scale(s)) == Friction(c)
  {
    ScaleOrder(c.x, c.y, s);
    ScaleOrder(c.y, c.x, s);
    ScaleOrder(c.x, c.z, s);
    ScaleOrder(c.y, c.z, s);
  }

  lemma AbsScale(r: real, s: real)
    requires s > 0.0
    ensures AbsReal(r * s) == AbsReal(r) * s
  {
    if r < 0.0 {
      assert r * s < 0.0;
      assert -(r * s) == (-r) * s;
    } else {
      assert r * s >= 0.0;
    }
  }

  lemma ScaleOrder(u: real, w: real, s: real)
    requires s > 0.0
    ensures u * s > w * s <==> u > w
  {
    assert u * s - w * s == (u - w) * s;
    if u > w {
      assert (u - w) * s > 0.0;
    } else {
      assert (w - u) * s >= 0.0;
    }
  }

  /**
    The colour of a vertex at p: the componentwise absolute value of p
    normalised, red for x, green for y and blue for z. Its friction is that
    of |p| itself, so the normalisation does not decide the friction.
  */
  function VertexColor(p: Vec3, invLength: PosReal): (c: Vec3)
    ensures c.x >= 0.0 && c.y >= 0.0 && c.z >= 0.0
    ensures Friction(c) == Friction(p.Abs())
  {
    FrictionScaleInvariant(p, invLength);
    p.Scale(invLength).Abs()
  }

  /** The vertex (3, 0, 4) has length 5: its factor is 1/5 and its colour (0.6, 0, 0.8), mostly blue, so friction 0.1. */
  lemma VertexColorExample()
    ensures NormalFactor(Vec3(3.0, 0.0, 4.0), 0.2)
    ensures VertexColor(Vec3(3.0, 0.0, 4.0), 0.2) == Vec3(0.6, 0.0, 0.8)
    ensures Friction(VertexColor(Vec3(3.0, 0.0, 4.0), 0.2)) == 0.1
  {
  }

  /** Face index layout: vIndices holds the three indices of tris[k] at 3k, 3k+1 and 3k+2. */
  ghost predicate FaceIndices(vIndices: seq<int>, tris: seq<Triangle>)
  {
    && |vIndices| == 3 * |tris|
    && forall k :: 0 <= k < |tris| ==>
         vIndices[3 * k] == tris[k].v0 && vIndices[3 * k + 1] == tris[k].v1 && vIndices[3 * k + 2] == tris[k].v2
  }

  /** The positions of the vertex records of rs, in order. */
  function Positions(rs: seq<Record>): seq<Vec3>
  {
    if rs == [] then []
    else Positions(rs[..|rs| - 1]) + (if rs[|rs| - 1].VertexLine? then [rs[|rs| - 1].position] else [])
  }

  /** The colours of the vertex records of rs, in order. */
  function Colors(rs: seq<Record>): seq<Vec3>
  {
    if rs == [] then []
    else
      var last := rs[|rs| - 1];
      Colors(rs[..|rs| - 1]) + (if last.VertexLine? then [VertexColor(last.position, last.invLength)] else [])
  }

  /** The triangles of the face records of rs, with each parsed index decremented. */
  function Faces(rs: seq<Record>): seq<Triangle>
  {
    if rs == [] then []
    else
      var last := match rs[|rs| - 1]
        case FaceLine(a, b, c) => [Triangle(a - 1, b - 1, c - 1)]
        case _ => [];
      Faces(rs[..|rs| - 1]) + last
  }

  class ObjLoader {
    var vertices: seq<Vec3>   // mVertices
    var colors: seq<Vec3>     // mColors
    var friction: seq<real>   // mFriction
    var vIndices: seq<int>
    var nIndices: seq<int>
    var tris: seq<Triangle>
    var net: map<int, set<int>>

    /** The parallel arrays stay parallel and the face lists stay in step. */
    ghost predicate Valid()
      reads this
    {
      && |colors| == |vertices|
      && |friction| == |vertices|
      && (forall i :: 0 <= i < |vertices| ==> friction[i] == Friction(colors[i]))
      && FaceIndices(vIndices, tris)
      && nIndices == vIndices
    }

    constructor ()
      ensures Valid()
      ensures vertices == [] && colors == [] && friction == []
      ensures vIndices == [] && nIndices == [] && tris == [] && net == map[]
    {
      vertices, colors, friction := [], [], [];
      vIndices, nIndices, tris := [], [], [];
      net := map[];
    }

    /**
      A vertex record: the position, its colour and the friction that colour
      selects are appended to the three parallel arrays.
    */
    method AddVertex(position: Vec3, invLength: PosReal)
      requires Valid() && NormalFactor(position, invLength)
      modifies this`vertices, this`colors, this`friction
      ensures Valid()
      ensures vertices == old(vertices) + [position]
      ensures colors == old(colors) + [VertexColor(position, invLength)]
      ensures friction == old(friction) + [Friction(position.Abs())]
    {
      vertices := vertices + [position];
      var color := position.Scale(invLength).Abs();
      colors := colors + [color];
      var fric := 0.1;
      if color.x > color.y && color.x > color.z {
        fric := 0.9;
      }
      if color.y > color.x && color.y > color.z {
        fric := 0.4;
      }
      friction := friction + [fric];
    }

    /** A face record: three indices, each one less than parsed, and one triangle. */
    method AddFace(a: int, b: int, c: int)
      requires Valid()
      modifies this`vIndices, this`nIndices, this`tris
      ensures Valid()
      ensures vIndices == old(vIndices) + [a - 1, b - 1, c - 1]
      ensures nIndices == old(nIndices) + [a - 1, b - 1, c - 1]
      ensures tris == old(tris) + [Triangle(a - 1, b - 1, c - 1)]
    {
      var parsed := [a, b, c];
      var tIndices := [0, 0, 0];
      for n := 0 to 3
        invariant |tIndices| == 3
        invariant vIndices == old(vIndices) + seq(n, j requires 0 <= j < n => parsed[j] - 1)
        invariant nIndices == old(nIndices) + seq(n, j requires 0 <= j < n => parsed[j] - 1)
        invariant forall j :: 0 <= j < n ==> tIndices[j] == parsed[j] - 1
        invariant tris == old(tris)
      {
        vIndices := vIndices + [parsed[n] - 1];
        nIndices := nIndices + [parsed[n] - 1];
        tIndices := tIndices[n := parsed[n] - 1];
      }
      tris := tris + [Triangle(tIndices[0], tIndices[1], tIndices[2])];
      assert vIndices == old(vIndices) + [a - 1, b - 1, c - 1];
      assert FaceIndices(vIndices, tris) by {
        var k0 := |old(tris)|;
        assert forall k :: 0 <= k < k0 ==> tris[k] == old(tris)[k];
        assert forall i :: 0 <= i < |old(vIndices)| ==> vIndices[i] == old(vIndices)[i];
        assert vIndices[3 * k0] == a - 1 && vIndices[3 * k0 + 1] == b - 1 && vIndices[3 * k0 + 2] == c - 1;
      }
    }

    /** deformPoint: vertex i becomes p; nothing else changes. */
    method DeformPoint(i: int, p: Vec3)
      requires 0 <= i < |vertices|
      modifies this`vertices
      ensures vertices == old(vertices)[i := p]
      ensures old(Valid()) ==> Valid()
    {
      vertices := vertices[i := p];
    }

    /** link(a, b): b joins net[a]. */
    method Link(a: int, b: int)
      modifies this`net
      ensures net == Linked(old(net), a, b)
    {
      var succ := if a in net then net[a] else {};
      net := net[a := succ + {b}];
    }

    /** generate(): link every triangle's three edges, in order. */
    method Generate()
      modifies this`net
      ensures net == LinkAll(old(net), tris)
    {
      for i := 0 to |tris|
        invariant net == LinkAll(old(net), tris[..i])
      {
        var tri := tris[i];
        Link(tri.v0, tri.v1);
        Link(tri.v1, tri.v2);
        Link(tri.v2, tri.v0);
        assert tris[..i + 1][..i] == tris[..i];
      }
      assert tris[..|tris|] == tris;
    }

    /**
      load(): false when the file cannot be opened; otherwise every record is
      appended in order and generate() runs over all triangles.
    */
    method Load(isOpen: bool, records: seq<Record>) returns (ok: bool)
      requires Valid()
      requires forall i :: 0 <= i < |records| && records[i].VertexLine? ==>
        NormalFactor(records[i].position, records[i].invLength)
      modifies this
      ensures Valid()
      ensures ok == isOpen
      ensures !ok ==> (vertices == old(vertices) && colors == old(colors) && friction == old(friction)
                       && vIndices == old(vIndices) && tris == old(tris) && net == old(net))
      ensures ok ==> vertices == old(vertices) + Positions(records)
      ensures ok ==> colors == old(colors) + Colors(records)
      ensures ok ==> tris == old(tris) + Faces(records)
      ensures ok ==> net == LinkAll(old(net), tris)
    {
      if !isOpen {
        return false;
      }
      for i := 0 to |records|
        invariant Valid()
        invariant vertices == old(vertices) + Positions(records[..i])
        invariant colors == old(colors) + Colors(records[..i])
        invariant tris == old(tris) + Faces(records[..i])
        invariant net == old(net)
      {
        assert records[..i + 1][..i] == records[..i];
        match records[i]
        case VertexLine(position, invLength) =>
          AddVertex(position, invLength);
        case FaceLine(a, b, c) =>
          AddFace(a, b, c);
        case OtherLine =>
      }
      assert records[..|records|] == records;
      Generate();
      return true;
    }
  }
}
