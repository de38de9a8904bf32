/** `Rect` (src/Rect.cpp): an axis-aligned box given by its top-left
    corner and its size, which the constructor forces to be positive. */
module Rects {
  import opened ZMath
  import opened Vectors

  datatype Rect = Rect(pos: Vec, size: Vec)

  /** The constructor `Rect(pos, size)`: a size component that is zero or
      negative is replaced by 1. */
  function MakeRect(pos: Vec, size: Vec): (r: Rect)
    ensures r.pos == pos
    ensures r.size.x > 0.0 && r.size.y > 0.0
    ensures size.x > 0.0 ==> r.size.x == size.x
    ensures size.y > 0.0 ==> r.size.y == size.y
    ensures size.x <= 0.0 ==> r.size.x == 1.0
    ensures size.y <= 0.0 ==> r.size.y == 1.0
  {
    var sx := if size.x <= 0.0 then 1.0 else size.x;
    var sy := if size.y <= 0.0 then 1.0 else size.y;
    Rect(pos, Vec(sx, sy))
  }

  /** `Rect()`: the default arguments are (0, 0) and (0, 0), so the
      default rectangle is the unit square at the origin, not an empty
      box. */
  function DefaultRect(): (r: Rect)
    ensures r == Rect(Zero, Vec(1.0, 1.0))
  {
    MakeRect(Zero, Zero)
  }

  /** `contains`: closed on the top-left sides, open on the bottom-right
      ones. */
  predicate Contains(r: Rect, p: Vec)
  {
    p.x >= r.pos.x && p.x < r.pos.x + r.size.x && p.y >= r.pos.y && p.y < r.pos.y + r.size.y
  }

  /** A rectangle of positive size contains its corner `pos` and none of
      the three other corners. */
  lemma CornersOfRect(r: Rect)
    requires r.size.x > 0.0 && r.size.y > 0.0
    ensures Contains(r, r.pos)
    ensures !Contains(r, Vec(r.pos.x + r.size.x, r.pos.y))
    ensures !Contains(r, Vec(r.pos.x, r.pos.y + r.size.y))
    ensures !Contains(r, Plus(r.pos, r.size))
  {
  }

  /** `intersects(rectangle, intersection)`: the returned flag and the new
      value of `intersection`. */
  function Intersection(r: Rect, s: Rect): (res: (bool, Rect))
    ensures !res.0 ==> res.1 == DefaultRect()
  {
    var left := Max(r.pos.x, s.pos.x);
    var top := Max(r.pos.y, s.pos.y);
    var right := Min(r.pos.x + r.size.x, s.pos.x + s.size.x);
    var bottom := Min(r.pos.y + r.size.y, s.pos.y + s.size.y);
    if left < right && top < bottom then
      (true, MakeRect(Vec(left, top), Vec(right - left, bottom - top)))
    else
      (false, DefaultRect())
  }

  /** `intersects(rectangle)`: the same test through a local rectangle. */
  function Intersects(r: Rect, s: Rect): (b: bool)
    ensures b == Intersection(r, s).0
  {
    var res := Intersection(r, s);
    res.0
  }

  /** When the test passes the reported box is exactly the overlap: a
      point lies in it if and only if it lies in both rectangles. */
  lemma IntersectionIsOverlap(r: Rect, s: Rect, p: Vec)
    requires Intersection(r, s).0
    ensures Contains(Intersection(r, s).1, p) <==> Contains(r, p) && Contains(s, p)
  {
  }

  /** The test passes exactly when some point lies in both rectangles; a
      failing test reports the unit square, which may well meet both. */
  lemma IntersectsIffCommonPoint(r: Rect, s: Rect)
    ensures Intersects(r, s) ==> Contains(r, Intersection(r, s).1.pos) && Contains(s, Intersection(r, s).1.pos)
    ensures !Intersects(r, s) ==> forall p :: !(Contains(r, p) && Contains(s, p))
  {
    if Intersects(r, s) {
      IntersectionIsOverlap(r, s, Intersection(r, s).1.pos);
    }
  }

  /** The test and the reported box do not depend on the order of the two
      rectangles. */
  lemma IntersectionSymmetric(r: Rect, s: Rect)
    ensures Intersection(r, s) == Intersection(s, r)
  {
  }

  /** A rectangle of positive size meets itself, and the overlap is the
      rectangle itself. */
  lemma IntersectionWithSelf(r: Rect)
    requires r.size.x > 0.0 && r.size.y > 0.0
    ensures Intersection(r, r) == (true, r)
  {
    assert r.pos.x + r.size.x - r.pos.x == r.size.x;
    assert r.pos.y + r.size.y - r.pos.y == r.size.y;
  }
}
