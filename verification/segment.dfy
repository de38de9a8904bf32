/** `Segment` (src/Segment.cpp): a pair of points, its length, the point
    at a factor along it, and the intersection test, which runs the `Line`
    test and then checks that the computed point is close to both
    segments by a sum-of-distances criterion. */
module Segments {
  import opened ZMath
  import opened Vectors
  import opened Lines

  datatype Segment = Segment(p1: Vec, p2: Vec)

  /** The tolerance `.1f` of `Segment::intersects`: the single-precision
      literal, whose exact value is slightly above one tenth. */
  const Tolerance: real := 0.100000001490116119384765625

  /** `Segment::length`: the length of p2 - p1. */
  function Length(s: Segment, len: LengthOracle): real
  {
    len(Minus(s.p2, s.p1))
  }

  /** A sound length of a segment is never negative, and is zero exactly
      when the two ends coincide. */
  lemma LengthOfSegment(s: Segment, len: LengthOracle)
    requires LengthSound(len)
    ensures Length(s, len) >= 0.0
    ensures Length(s, len) == 0.0 <==> s.p1 == s.p2
  {
    LengthZeroIffZero(len, Minus(s.p2, s.p1));
    MinusZero(s.p2, s.p1);
  }

  lemma MinusZero(a: Vec, b: Vec)
    ensures Minus(a, b) == Zero <==> a == b
  {
  }

  /** `Segment::operator[]`: both coordinates interpolated with the same
      factor. */
  function At(s: Segment, factor: real): (r: Vec)
    ensures Min(s.p1.x, s.p2.x) <= r.x <= Max(s.p1.x, s.p2.x)
    ensures Min(s.p1.y, s.p2.y) <= r.y <= Max(s.p1.y, s.p2.y)
    ensures factor <= 0.0 ==> r == s.p1
    ensures factor >= 1.0 ==> r == s.p2
  {
    Vec(Interpolate(s.p1.x, s.p2.x, factor), Interpolate(s.p1.y, s.p2.y, factor))
  }

  /** The factor is clamped into [0, 1] first, and the clamped factor
      places the point at that fraction of the way from p1 to p2. */
  lemma AtClampsFactor(s: Segment, factor: real)
    ensures At(s, factor) == At(s, Clamp01(factor))
    ensures At(s, factor) == Plus(s.p1, Times(Minus(s.p2, s.p1), Clamp01(factor)))
  {
    InterpolateUsesClampedFactor(s.p1.x, s.p2.x, factor);
    InterpolateUsesClampedFactor(s.p1.y, s.p2.y, factor);
  }

  /** Every point `operator[]` returns lies on the line through the ends. */
  lemma AtOnLine(s: Segment, factor: real)
    ensures OnLine(At(s, factor), Line(s.p1, s.p2))
  {
    AtClampsFactor(s, factor);
    var c := Clamp01(factor);
    CrossOfScaled(s.p2.x - s.p1.x, s.p2.y - s.p1.y, c);
  }

  lemma CrossOfScaled(dx: real, dy: real, c: real)
    ensures (dx * c) * dy - (dy * c) * dx == 0.0
  {
    assert (dy * c) * dx == (dx * c) * dy;
  }

  /** The test applied to a candidate point: its distances to the two ends
      add up to the segment's length, up to the tolerance. */
  predicate WithinTolerance(s: Segment, p: Vec, len: LengthOracle)
  {
    var d := len(Minus(p, s.p1)) + len(Minus(p, s.p2));
    d >= Length(s, len) - Tolerance && d <= Length(s, len) + Tolerance
  }

  /** The inputs on which the underlying line test divides by zero. */
  predicate SegmentsDivideByZero(s: Segment, t: Segment, len: LengthOracle)
  {
    DividesByZero(Line(s.p1, s.p2), Line(t.p1, t.p2), len)
  }

  /** `Segment::intersects(segment, result)`: the returned flag and the new
      value of `result`. The line test writes `result` whenever it passes,
      so the point is updated even when the tolerance check then fails. */
  function IntersectionPoint(s: Segment, t: Segment, len: LengthOracle, result: Vec): (r: (bool, Vec))
    requires !SegmentsDivideByZero(s, t, len)
  {
    var (hit, point) := Lines.IntersectionPoint(Line(s.p1, s.p2), Line(t.p1, t.p2), len, result);
    if !hit then (false, point)
    else (WithinTolerance(s, point, len) && WithinTolerance(t, point, len), point)
  }

  /** `Segment::intersects(segment)`: the same test with a local point. */
  function Intersects(s: Segment, t: Segment, len: LengthOracle): bool
    requires !SegmentsDivideByZero(s, t, len)
  {
    IntersectionPoint(s, t, len, Zero).0
  }

  /** When the line test fails the answer is false and `result` is left
      alone; when it passes the answer is the tolerance check on both
      segments at the point the line test computed. */
  lemma IntersectionPointCases(s: Segment, t: Segment, len: LengthOracle, result: Vec)
    requires !SegmentsDivideByZero(s, t, len)
    ensures var r := IntersectionPoint(s, t, len, result);
      !Lines.Intersects(Line(s.p1, s.p2), Line(t.p1, t.p2), len) ==> !r.0 && r.1 == result
    ensures var r := IntersectionPoint(s, t, len, result);
      Lines.Intersects(Line(s.p1, s.p2), Line(t.p1, t.p2), len) ==>
        r.1 == Lines.IntersectionPoint(Line(s.p1, s.p2), Line(t.p1, t.p2), len, result).1 &&
        (r.0 <==> WithinTolerance(s, r.1, len) && WithinTolerance(t, r.1, len))
  {
  }

  /** The initial value of `result` matters to neither the flag nor, once
      the line test passes, the point; so `intersects(segment)` is
      `intersects(segment, result)` for every `result`. */
  lemma ResultIrrelevant(s: Segment, t: Segment, len: LengthOracle, result: Vec)
    requires !SegmentsDivideByZero(s, t, len)
    ensures Intersects(s, t, len) == IntersectionPoint(s, t, len, result).0
    ensures Lines.Intersects(Line(s.p1, s.p2), Line(t.p1, t.p2), len) ==>
      IntersectionPoint(s, t, len, result).1 == IntersectionPoint(s, t, len, Zero).1
  {
  }

  /** Every point of a segment passes its tolerance test exactly: the
      distances to the ends add up to the length. */
  lemma PointOfSegmentWithinTolerance(s: Segment, factor: real, len: LengthOracle)
    requires LengthSound(len)
    ensures WithinTolerance(s, At(s, factor), len)
    ensures len(Minus(At(s, factor), s.p1)) + len(Minus(At(s, factor), s.p2)) == Length(s, len)
  {
    var c := Clamp01(factor);
    var d := Minus(s.p2, s.p1);
    EndOffsets(s, factor);
    SplitDistances(len, d, c);
  }

  /** The offsets of a point of the segment from its two ends. */
  lemma EndOffsets(s: Segment, factor: real)
    ensures Minus(At(s, factor), s.p1) == Times(Minus(s.p2, s.p1), Clamp01(factor))
    ensures Minus(At(s, factor), s.p2) == Times(Times(Minus(s.p2, s.p1), -1.0), 1.0 - Clamp01(factor))
  {
    AtClampsFactor(s, factor);
    var c := Clamp01(factor);
    var d := Minus(s.p2, s.p1);
    SubtractEnd(s.p1.x, d.x, c);
    SubtractEnd(s.p1.y, d.y, c);
  }

  /** The two pieces d c and -d (1 - c) of a vector d have lengths adding
      up to its length. */
  lemma SplitDistances(len: LengthOracle, d: Vec, c: real)
    requires LengthSound(len)
    requires 0.0 <= c <= 1.0
    ensures len(Times(d, c)) + len(Times(Times(d, -1.0), 1.0 - c)) == len(d)
  {
    LengthScaled(len, d, c);
    LengthScaled(len, Times(d, -1.0), 1.0 - c);
    LengthOfNegation(len, d);
    SplitLength(c, len(d));
  }

  lemma SubtractEnd(a: real, d: real, c: real)
    ensures a + d * c - (a + d) == (d * -1.0) * (1.0 - c)
  {
  }

  lemma SplitLength(c: real, l: real)
    ensures c * l + (1.0 - c) * l == l
  {
  }

  /** A sound length is the same for a vector and its opposite. */
  lemma LengthOfNegation(len: LengthOracle, v: Vec)
    requires LengthSound(len)
    ensures len(Times(v, -1.0)) == len(v)
  {
    var w := Times(v, -1.0);
    assert Dot(w, w) == Dot(v, v) by {
      SquareSign(v.x);
      SquareSign(v.y);
      DotSelf(v);
      DotSelf(w);
    }
    SquareInjective(len(w), len(v));
  }

  /** The static `Segment::intersects(p1, p2, p3, p4)`: the second segment
      is built from (p2, p3), so p4 is never read. */
  function IntersectsPoints(p1: Vec, p2: Vec, p3: Vec, p4: Vec, len: LengthOracle): bool
    requires !SegmentsDivideByZero(Segment(p1, p2), Segment(p2, p3), len)
  {
    Intersects(Segment(p1, p2), Segment(p2, p3), len)
  }

  /** The static `Segment::intersects(p1, p2, p3, p4, result)`. */
  function IntersectionPointOfPoints(p1: Vec, p2: Vec, p3: Vec, p4: Vec, len: LengthOracle, result: Vec): (r: (bool, Vec))
    requires !SegmentsDivideByZero(Segment(p1, p2), Segment(p2, p3), len)
  {
    IntersectionPoint(Segment(p1, p2), Segment(p2, p3), len, result)
  }

  /** Neither static overload depends on its fourth point, and the one
      without a result agrees with the one with a result. */
  lemma FourthPointIgnored(p1: Vec, p2: Vec, p3: Vec, p4: Vec, q4: Vec, len: LengthOracle, result: Vec)
    requires !SegmentsDivideByZero(Segment(p1, p2), Segment(p2, p3), len)
    ensures IntersectsPoints(p1, p2, p3, p4, len) == IntersectsPoints(p1, p2, p3, q4, len)
    ensures IntersectionPointOfPoints(p1, p2, p3, p4, len, result) == IntersectionPointOfPoints(p1, p2, p3, q4, len, result)
    ensures IntersectsPoints(p1, p2, p3, p4, len) == IntersectionPointOfPoints(p1, p2, p3, p4, len, result).0
  {
    ResultIrrelevant(Segment(p1, p2), Segment(p2, p3), len, result);
  }
}
