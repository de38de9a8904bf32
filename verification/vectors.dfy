/** The 2D vector type the library calls `Vector2d`, `Point` and `Coords`
    (all the same pair of doubles), with the operators the core uses. Its
    length (`Vector2d::length`, a square root) cannot be computed over
    `real`, so every member that needs it takes the length as a function
    parameter, and the lemmas that rely on its meaning require
    `LengthSound`. */
module Vectors {
  import opened ZMath

  datatype Vec = Vec(x: real, y: real)

  /** `Vector2d()`, `Point()` and `Coords()`: the origin. */
  const Zero := Vec(0.0, 0.0)

  function Plus(a: Vec, b: Vec): Vec { Vec(a.x + b.x, a.y + b.y) }

  function Minus(a: Vec, b: Vec): Vec { Vec(a.x - b.x, a.y - b.y) }

  function Times(a: Vec, f: real): Vec { Vec(a.x * f, a.y * f) }

  /** `Vector2d::scalarProduct`. */
  function Dot(a: Vec, b: Vec): real { a.x * b.x + a.y * b.y }

  /** The point at position k of a list, or (0, 0) past its end. The
      lists of vertices and the positions into them that the callers use
      keep the positions in range in a valid geom, so the fallback keeps
      their scans free of a range precondition without being taken. */
  function PointAt(vs: seq<Vec>, k: nat): (p: Vec)
    ensures k < |vs| ==> p == vs[k]
    ensures k >= |vs| ==> p == Zero
  {
    if k < |vs| then vs[k] else Zero
  }

  /** The length oracle standing for `Vector2d::length`. */
  type LengthOracle = Vec -> real

  /** What `Vector2d::length` is taken to satisfy: a non-negative square
      root of the scalar product of a vector with itself. */
  ghost predicate LengthSound(len: LengthOracle)
  {
    forall v :: len(v) >= 0.0 && Square(len(v)) == Dot(v, v)
  }

  /** The sign oracle standing for `Vector2d::angle`; the core uses only
      its sign. */
  type AngleOracle = (Vec, Vec) -> real

  /** The scalar square of a vector is a sum of two squares: never
      negative, and zero only for the zero vector. */
  lemma DotSelf(v: Vec)
    ensures Dot(v, v) == Square(v.x) + Square(v.y)
    ensures Dot(v, v) >= 0.0
    ensures Dot(v, v) == 0.0 <==> v == Zero
  {
    SquareSign(v.x);
    SquareSign(v.y);
  }

  /** A sound length is never negative. */
  lemma LengthNonNegative(len: LengthOracle, v: Vec)
    requires LengthSound(len)
    ensures len(v) >= 0.0
  {
  }

  /** A sound length is zero exactly on the zero vector. */
  lemma LengthZeroIffZero(len: LengthOracle, v: Vec)
    requires LengthSound(len)
    ensures len(v) >= 0.0
    ensures len(v) == 0.0 <==> v == Zero
  {
    DotSelf(v);
    SquareSign(len(v));
  }

  /** Scaling by a non-negative factor scales a sound length by it. */
  lemma LengthScaled(len: LengthOracle, v: Vec, k: real)
    requires LengthSound(len)
    requires k >= 0.0
    ensures len(Times(v, k)) == k * len(v)
  {
    var l := len(v);
    DotTimesSelf(v, k, Square(l));
    SquareOfProduct(k, l);
    MulNonNegative(k, l);
    SquareInjective(len(Times(v, k)), k * l);
  }

  lemma DotTimesSelf(v: Vec, k: real, d: real)
    requires d == Dot(v, v)
    ensures Dot(Times(v, k), Times(v, k)) == Square(k) * d
  {
    assert Square(k) * d == Square(k) * Dot(v, v);
  }

  lemma SquareOfProduct(k: real, l: real)
    ensures Square(k * l) == Square(k) * Square(l)
  {
  }

  /** The scalar product with a scaled vector scales by the same factor. */
  lemma DotScaled(v: Vec, k: real)
    ensures Dot(v, Times(v, k)) == k * Dot(v, v)
    ensures Dot(v, Times(v, k)) == Product(k, Dot(v, v))
  {
  }
}
