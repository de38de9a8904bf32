/** `Triangle::contains` (src/Triangle.cpp): a point is accepted when, for
    each of three edges, it lies on the same side as the opposite vertex,
    the side being the sign of the edge's line equation. Two edges accept
    a point on them; the edge from p1 to p3 does not. */
module Triangles {
  import opened ZMath
  import opened Vectors

  datatype Triangle = Triangle(p1: Vec, p2: Vec, p3: Vec)

  /** The line equation through a and b, at p, with the coefficients the
      source computes: (b.y - a.y) p.x + (a.x - b.x) p.y + (a.y b.x - a.x b.y). */
  function Side(a: Vec, b: Vec, p: Vec): real
  {
    (b.y - a.y) * p.x + (a.x - b.x) * p.y + (a.y * b.x - a.x * b.y)
  }

  /** Twice the signed area of the triangle a, b, c: zero exactly when the
      three points are collinear. */
  function Cross(a: Vec, b: Vec, c: Vec): real
  {
    (b.x - a.x) * (c.y - a.y) - (b.y - a.y) * (c.x - a.x)
  }

  /** The line equation is the opposite of the signed area. */
  lemma SideIsCross(a: Vec, b: Vec, p: Vec)
    ensures Side(a, b, p) == -Cross(a, b, p)
  {
  }

  /** `contains(point)`: the three sign products, the last one strict. */
  predicate Contains(t: Triangle, p: Vec)
  {
    Product(Side(t.p1, t.p2, t.p3), Side(t.p1, t.p2, p)) >= 0.0 &&
    Product(Side(t.p3, t.p2, t.p1), Side(t.p3, t.p2, p)) >= 0.0 &&
    Product(Side(t.p1, t.p3, t.p2), Side(t.p1, t.p3, p)) > 0.0
  }

  /** The static `contains(point1, point2, point3, point)`. */
  predicate ContainsPoints(p1: Vec, p2: Vec, p3: Vec, p: Vec)
  {
    Contains(Triangle(p1, p2, p3), p)
  }

  /** The three vertices are not collinear. */
  predicate NonDegenerate(t: Triangle)
  {
    Cross(t.p1, t.p2, t.p3) != 0.0
  }

  /** A point on the line through p1 and p3 is never contained: its
      third product is zero. */
  lemma OnThirdEdgeNotContained(t: Triangle, p: Vec)
    requires Side(t.p1, t.p3, p) == 0.0
    ensures !Contains(t, p)
  {
  }

  /** In particular neither p1 nor p3 is contained. */
  lemma EndsOfThirdEdgeNotContained(t: Triangle)
    ensures !Contains(t, t.p1) && !Contains(t, t.p3)
  {
    SideAtEnds(t.p1, t.p3);
    OnThirdEdgeNotContained(t, t.p1);
    OnThirdEdgeNotContained(t, t.p3);
  }

  /** The line equation through a and b vanishes at a and at b. */
  lemma SideAtEnds(a: Vec, b: Vec)
    ensures Side(a, b, a) == 0.0 && Side(a, b, b) == 0.0
  {
    assert (b.y - a.y) * a.x + (a.x - b.x) * a.y == b.y * a.x - a.x * a.y + a.x * a.y - b.x * a.y;
    assert (b.y - a.y) * b.x + (a.x - b.x) * b.y == b.y * b.x - a.y * b.x + a.x * b.y - b.x * b.y;
  }

  /** A degenerate triangle (three collinear points) contains no point. */
  lemma DegenerateContainsNothing(t: Triangle, p: Vec)
    requires !NonDegenerate(t)
    ensures !Contains(t, p)
  {
    SideIsCross(t.p1, t.p3, t.p2);
    CrossSwap(t.p1, t.p2, t.p3);
    assert Side(t.p1, t.p3, t.p2) == 0.0;
    assert Product(0.0, Side(t.p1, t.p3, p)) == 0.0;
  }

  /** Exchanging the last two points negates the signed area. */
  lemma CrossSwap(a: Vec, b: Vec, c: Vec)
    ensures Cross(a, c, b) == -Cross(a, b, c)
  {
  }

  /** The middle vertex p2 is contained exactly when the triangle is not
      degenerate. */
  lemma MiddleVertexContained(t: Triangle)
    ensures Contains(t, t.p2) <==> NonDegenerate(t)
  {
    SideAtEnds(t.p1, t.p2);
    SideAtEnds(t.p3, t.p2);
    SideIsCross(t.p1, t.p3, t.p2);
    CrossSwap(t.p1, t.p2, t.p3);
    var s := Side(t.p1, t.p3, t.p2);
    assert Product(Side(t.p1, t.p2, t.p3), 0.0) == 0.0;
    assert Product(Side(t.p3, t.p2, t.p1), 0.0) == 0.0;
    SquareSign(s);
    assert Product(s, s) == Square(s);
  }

  /** Reversing the order of the three points accepts the same points;
      and the static overload is the instance test. */
  lemma ContainsReversed(t: Triangle, p: Vec)
    ensures Contains(Triangle(t.p3, t.p2, t.p1), p) == Contains(t, p)
    ensures ContainsPoints(t.p1, t.p2, t.p3, p) == Contains(t, p)
  {
    SideReversed(t.p1, t.p3, t.p2);
    SideReversed(t.p1, t.p3, p);
    ProductNegated(Side(t.p1, t.p3, t.p2), Side(t.p1, t.p3, p));
  }

  /** The line equation through b and a is the opposite of the one through
      a and b. */
  lemma SideReversed(a: Vec, b: Vec, p: Vec)
    ensures Side(b, a, p) == -Side(a, b, p)
  {
  }

  /** The point with barycentric weights (1 - u - v, u, v) on p1, p2, p3. */
  function Barycentric(t: Triangle, u: real, v: real): Vec
  {
    Plus(t.p1, Plus(Times(Minus(t.p2, t.p1), u), Times(Minus(t.p3, t.p1), v)))
  }

  /** The test in barycentric terms: for a non-degenerate triangle, the
      point of weights (1 - u - v, u, v) is contained exactly when the
      weights of p1 and p3 are non-negative and the weight of p2 is
      positive. So the closed edges p1p2 and p2p3 are inside, the edge
      p1p3 is outside. */
  lemma ContainsBarycentric(t: Triangle, u: real, v: real)
    requires NonDegenerate(t)
    ensures Contains(t, Barycentric(t, u, v)) <==> 1.0 - u - v >= 0.0 && u > 0.0 && v >= 0.0
  {
    var p := Barycentric(t, u, v);
    var c := Cross(t.p1, t.p2, t.p3);
    CrossOfBarycentric(t.p1, t.p2, t.p3, u, v);
    CrossRotations(t.p1, t.p2, t.p3);
    EdgeTest(t.p1, t.p2, t.p3, p, v, c);
    EdgeTest(t.p3, t.p2, t.p1, p, 1.0 - u - v, -c);
    EdgeTest(t.p1, t.p3, t.p2, p, u, -c);
  }

  /** One edge test at a point whose signed area against the edge is k
      times the vertex's: it passes (non-strictly or strictly) exactly
      when k is non-negative (or positive). */
  lemma EdgeTest(a: Vec, b: Vec, vertex: Vec, p: Vec, k: real, c: real)
    requires c != 0.0 && Cross(a, b, vertex) == c && Cross(a, b, p) == k * c
    ensures Product(Side(a, b, vertex), Side(a, b, p)) >= 0.0 <==> k >= 0.0
    ensures Product(Side(a, b, vertex), Side(a, b, p)) > 0.0 <==> k > 0.0
  {
    SideIsCross(a, b, vertex);
    SideIsCross(a, b, p);
    SignOfScaledSquare(-c, k);
    assert Side(a, b, p) == k * -c;
  }

  /** The signed area against each edge, at a point in barycentric form:
      the weight of the opposite vertex times the full area. */
  lemma CrossOfBarycentric(a: Vec, b: Vec, c: Vec, u: real, v: real)
    ensures Cross(a, b, Plus(a, Plus(Times(Minus(b, a), u), Times(Minus(c, a), v)))) == v * Cross(a, b, c)
    ensures Cross(c, b, Plus(a, Plus(Times(Minus(b, a), u), Times(Minus(c, a), v)))) == (1.0 - u - v) * Cross(c, b, a)
    ensures Cross(a, c, Plus(a, Plus(Times(Minus(b, a), u), Times(Minus(c, a), v)))) == u * Cross(a, c, b)
  {
    var dbx := b.x - a.x;
    var dby := b.y - a.y;
    var dcx := c.x - a.x;
    var dcy := c.y - a.y;
    var qx := dbx * u + dcx * v;
    var qy := dby * u + dcy * v;
    assert dbx * qy - dby * qx == v * (dbx * dcy - dby * dcx);
    assert dcx * qy - dcy * qx == u * (dcx * dby - dcy * dbx);
    CrossFromC(a, b, c, u, v, qx, qy);
  }

  lemma CrossFromC(a: Vec, b: Vec, c: Vec, u: real, v: real, qx: real, qy: real)
    requires qx == (b.x - a.x) * u + (c.x - a.x) * v
    requires qy == (b.y - a.y) * u + (c.y - a.y) * v
    ensures (b.x - c.x) * (a.y + qy - c.y) - (b.y - c.y) * (a.x + qx - c.x) == (1.0 - u - v) * Cross(c, b, a)
  {
    var w := 1.0 - u - v;
    assert a.x + qx - c.x == (b.x - c.x) * u + (a.x - c.x) * w;
    assert a.y + qy - c.y == (b.y - c.y) * u + (a.y - c.y) * w;
    var ex := b.x - c.x;
    var ey := b.y - c.y;
    var fx := a.x - c.x;
    var fy := a.y - c.y;
    assert ex * (ey * u + fy * w) - ey * (ex * u + fx * w) == w * (ex * fy - ey * fx);
  }

  /** The signed areas against the other two edges are the opposite of
      the area: both orders are odd permutations. */
  lemma CrossRotations(a: Vec, b: Vec, c: Vec)
    ensures Cross(c, b, a) == -Cross(a, b, c)
    ensures Cross(a, c, b) == -Cross(a, b, c)
  {
  }

  /** For s != 0, the product s (k s) has the sign of k. */
  lemma SignOfScaledSquare(s: real, k: real)
    requires s != 0.0
    ensures Product(s, k * s) >= 0.0 <==> k >= 0.0
    ensures Product(s, k * s) > 0.0 <==> k > 0.0
  {
    SquareSign(s);
    assert Product(s, k * s) == Product(k, Square(s));
    ProductSigns(k, Square(s));
    if k > 0.0 {
      ProductPositive(k, Square(s));
    }
  }
}
