/**
  Three-component vectors, standing in for glm::vec3 and hduVector3Dd.
  The source works in single and double precision floating point; the
  model works over the reals.
*/
module Vectors {

  datatype Vec3 = Vec3(x: real, y: real, z: real)
  {
    function Add(o: Vec3): Vec3
    {
      Vec3(x + o.x, y + o.y, z + o.z)
    }

    function Sub(o: Vec3): Vec3
    {
      Vec3(x - o.x, y - o.y, z - o.z)
    }

    function Scale(s: real): Vec3
    {
      Vec3(x * s, y * s, z * s)
    }

    /** Componentwise absolute value, as the colour rule applies it. */
    function Abs(): Vec3
    {
      Vec3(AbsReal(x), AbsReal(y), AbsReal(z))
    }
  }

  function AbsReal(r: real): real
  {
    if r < 0.0 then -r else r
  }

  /** Squared Euclidean distance between two points: zero exactly between equal points. */
  function SqDist(a: Vec3, b: Vec3): (d: real)
    ensures d >= 0.0
    ensures a == b ==> d == 0.0
    ensures a != b ==> d > 0.0
  {
    Square(a.x - b.x) + Square(a.y - b.y) + Square(a.z - b.z)
  }

  /**
    The identity on reals. It exists only for the solver, as the second
    factor of Square, and stands for nothing in the modelled program.
  */
  function Id(r: real): real
  {
    r
  }

  /**
    r squared: never negative, and zero only at zero. It is written
    r * Id(r) so that the solver treats the two factors as separate terms
    and can reason about their signs; SquareIsProduct shows it is r * r.
  */
  function Square(r: real): (q: real)
    ensures q >= 0.0
    ensures r == 0.0 <==> q == 0.0
  {
    r * Id(r)
  }

  lemma SquareIsProduct(r: real)
    ensures Square(r) == r * r
  {
  }

  /** Adding d scaled by s and then by t is adding d scaled by s + t. */
  lemma AddScaleTwice(b: Vec3, d: Vec3, s: real, t: real)
    ensures b.Add(d.Scale(s)).Add(d.Scale(t)) == b.Add(d.Scale(s + t))
  {
    assert d.x * s + d.x * t == d.x * (s + t);
    assert d.y * s + d.y * t == d.y * (s + t);
    assert d.z * s + d.z * t == d.z * (s + t);
  }
}
