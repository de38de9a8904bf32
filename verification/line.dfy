/** `Line` (src/Line.cpp): the infinite line through two points, its
    "intersects" predicate and the intersection point formulas. */
module Lines {
  import opened ZMath
  import opened Vectors

  datatype Line = Line(p1: Vec, p2: Vec)

  /** The direction p2 - p1. */
  function Direction(l: Line): Vec { Minus(l.p2, l.p1) }

  /** `Math::abs` instantiated at `bool`: the comparison is promoted to 0
      or 1, which is never below 0, so the value comes back unchanged. */
  function AbsOfBool(b: bool): (r: bool)
    ensures r == b
  {
    var v := if b then 1 else 0;
    (if v < 0 then -v else v) != 0
  }

  /** `Line::intersects(line)`: the absolute value is taken of the
      comparison, not of the scalar product, so the test is
      dot(d1, d2) < |d1| |d2|. */
  function Intersects(l: Line, m: Line, len: LengthOracle): bool
  {
    AbsOfBool(Dot(Direction(l), Direction(m)) < len(Direction(l)) * len(Direction(m)))
  }

  /** Lines pointing in opposite directions pass the test: the scalar
      product is negative while the product of the lengths is not. */
  lemma AntiParallelIntersects(l: Line, m: Line, len: LengthOracle, k: real)
    requires LengthSound(len)
    requires Direction(l) != Zero
    requires k < 0.0 && Direction(m) == Times(Direction(l), k)
    ensures Intersects(l, m, len)
  {
    var d := Direction(l);
    assert Dot(d, Direction(m)) < 0.0 by {
      DotScaled(d, k);
      DotSelf(d);
      ProductSigns(k, Dot(d, d));
    }
    LengthNonNegative(len, d);
    LengthNonNegative(len, Direction(m));
    MulNonNegative(len(d), len(Direction(m)));
  }

  /** Lines pointing the same way (or with a zero direction) fail the
      test: by the equality case of Cauchy-Schwarz the scalar product
      equals the product of the lengths. */
  lemma SameDirectionDoesNotIntersect(l: Line, m: Line, len: LengthOracle, k: real)
    requires LengthSound(len)
    requires k >= 0.0 && Direction(m) == Times(Direction(l), k)
    ensures !Intersects(l, m, len)
  {
    var d := Direction(l);
    var n := len(d);
    DotScaled(d, k);
    LengthScaled(len, d, k);
    ScaledSquare(n, len(Direction(m)), k, Dot(d, d));
  }

  lemma ScaledSquare(n: real, nk: real, k: real, dd: real)
    requires nk == k * n
    requires Square(n) == dd
    ensures n * nk == k * dd
  {
    assert n * nk == n * (k * n);
    assert k * dd == k * (n * n);
  }

  /** The zero test Line(p1, p2) applies to decide p1.x == p2.x. */
  predicate Vertical(l: Line) { l.p1.x == l.p2.x }

  /** The slope (p1.y - p2.y) / (p1.x - p2.x) of a non-vertical line. */
  function Slope(l: Line): real
    requires !Vertical(l)
  {
    (l.p1.y - l.p2.y) / (l.p1.x - l.p2.x)
  }

  /** The inputs on which `intersects(line, result)` divides by zero: the
      test passes and either both lines are vertical or neither is and
      their slopes are equal. */
  predicate DividesByZero(l: Line, m: Line, len: LengthOracle)
  {
    Intersects(l, m, len) &&
    ((Vertical(l) && Vertical(m)) || (!Vertical(l) && !Vertical(m) && Slope(l) == Slope(m)))
  }

  /** `Line::intersects(line, result)`: the new value of `result` and the
      returned flag. When the test fails, `result` is left as it was. */
  function IntersectionPoint(l: Line, m: Line, len: LengthOracle, result: Vec): (r: (bool, Vec))
    requires !DividesByZero(l, m, len)
    ensures r.0 == Intersects(l, m, len)
    ensures !r.0 ==> r.1 == result
  {
    if !Intersects(l, m, len) then (false, result)
    else if Vertical(l) then
      (true, Vec(l.p1.x, SlopeY(Slope(m), m.p1, l.p1.x)))
    else if Vertical(m) then
      (true, Vec(m.p1.x, SlopeY(Slope(l), l.p1, m.p1.x)))
    else
      var x := MeetingX(Slope(l), Slope(m), l.p1, m.p1);
      (true, Vec(x, SlopeY(Slope(l), l.p1, x)))
  }

  /** The ordinate s (x - p.x) + p.y of the line of slope s through p. */
  function SlopeY(s: real, p: Vec, x: real): real { s * (x - p.x) + p.y }

  /** The abscissa where the lines of slopes a1 and a2 through p and q
      meet, as the general case computes it. */
  function MeetingX(a1: real, a2: real, p: Vec, q: Vec): real
    requires a1 != a2
  {
    (a1 * p.x - p.y - a2 * q.x + q.y) / (a1 - a2)
  }

  /** p lies on the line through a and b: (p - a) x (b - a) = 0. */
  predicate OnLine(p: Vec, l: Line)
  {
    (p.x - l.p1.x) * (l.p2.y - l.p1.y) - (p.y - l.p1.y) * (l.p2.x - l.p1.x) == 0.0
  }

  /** A point computed by the slope formula y = s (x - p1.x) + p1.y lies on
      the line. */
  lemma SlopeFormulaOnLine(l: Line, x: real)
    requires !Vertical(l)
    ensures OnLine(Vec(x, SlopeY(Slope(l), l.p1, x)), l)
  {
    var s := Slope(l);
    var dx := l.p1.x - l.p2.x;
    var dy := l.p1.y - l.p2.y;
    SlopeTimesRun(dy, dx);
    SlopeCross(s, x - l.p1.x, dx, dy);
  }

  lemma SlopeTimesRun(dy: real, dx: real)
    requires dx != 0.0
    ensures (dy / dx) * dx == dy
  {
  }

  lemma SlopeCross(s: real, u: real, dx: real, dy: real)
    requires s * dx == dy
    ensures u * (-dy) - (s * u) * (-dx) == 0.0
  {
    assert (s * u) * dx == u * (s * dx);
  }

  /** Where the intersection point lies when the first line is vertical:
      on that line's abscissa, and on the second line. */
  lemma FirstVerticalIntersection(l: Line, m: Line, len: LengthOracle, result: Vec)
    requires !DividesByZero(l, m, len)
    requires Intersects(l, m, len) && Vertical(l)
    ensures IntersectionPoint(l, m, len, result).1.x == l.p1.x
    ensures OnLine(IntersectionPoint(l, m, len, result).1, m)
  {
    SlopeFormulaOnLine(m, l.p1.x);
  }

  /** When only the second line is vertical: on its abscissa, and on the
      first line. */
  lemma SecondVerticalIntersection(l: Line, m: Line, len: LengthOracle, result: Vec)
    requires !DividesByZero(l, m, len)
    requires Intersects(l, m, len) && !Vertical(l) && Vertical(m)
    ensures IntersectionPoint(l, m, len, result).1.x == m.p1.x
    ensures OnLine(IntersectionPoint(l, m, len, result).1, l)
  {
    SlopeFormulaOnLine(l, m.p1.x);
  }

  /** In the general case the point lies on both lines. */
  lemma GeneralIntersection(l: Line, m: Line, len: LengthOracle, result: Vec)
    requires !DividesByZero(l, m, len)
    requires Intersects(l, m, len) && !Vertical(l) && !Vertical(m)
    ensures OnLine(IntersectionPoint(l, m, len, result).1, l)
    ensures OnLine(IntersectionPoint(l, m, len, result).1, m)
  {
    var x := MeetingX(Slope(l), Slope(m), l.p1, m.p1);
    SlopeFormulaOnLine(l, x);
    MeetingAbscissa(Slope(l), Slope(m), l.p1, m.p1);
    SlopeFormulaOnLine(m, x);
  }

  /** At the abscissa the general case computes, both slope formulas give
      the same ordinate. */
  lemma MeetingAbscissa(a1: real, a2: real, p: Vec, q: Vec)
    requires a1 != a2
    ensures SlopeY(a1, p, MeetingX(a1, a2, p, q)) == SlopeY(a2, q, MeetingX(a1, a2, p, q))
  {
    var x := MeetingX(a1, a2, p, q);
    SlopeTimesRun(a1 * p.x - p.y - a2 * q.x + q.y, a1 - a2);
    assert (a1 - a2) * x == a1 * p.x - p.y - a2 * q.x + q.y;
  }

  /** The free `intersects(p1, p2, p3, p4)`: Line(p1, p2) against
      Line(p3, p4). */
  function IntersectsPoints(p1: Vec, p2: Vec, p3: Vec, p4: Vec, len: LengthOracle): bool
  {
    Intersects(Line(p1, p2), Line(p3, p4), len)
  }

  /** The free `intersects(p1, p2, p3, p4, result)`. */
  function IntersectionPointOfPoints(p1: Vec, p2: Vec, p3: Vec, p4: Vec, len: LengthOracle, result: Vec): (r: (bool, Vec))
    requires !DividesByZero(Line(p1, p2), Line(p3, p4), len)
    ensures r.0 == IntersectsPoints(p1, p2, p3, p4, len)
    ensures !r.0 ==> r.1 == result
  {
    IntersectionPoint(Line(p1, p2), Line(p3, p4), len, result)
  }
}
