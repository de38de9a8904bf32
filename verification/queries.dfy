/** The queries of a `Geom` (src/Geom.cpp `intersects`, `contains`;
    src/Face.cpp `getTriangle`). Each one reads the bounds through the
    caching getters, so each returns the geom's next state with its
    answer. */
module GeomQueries {
  import opened Vectors
  import Tf = Transforms
  import Tb = Transformables
  import Rects
  import Tri = Triangles
  import Seg = Segments
  import opened Geoms
  import opened GeomBounds

  /** `Liaison::getSegment`, which is not part of this model: the segment
      a liaison stands for. */
  type SegmentOracle = Liaison -> Seg.Segment

  /** A hit found by the collecting `intersects`: the intersection point
      in global coordinates and the two liaisons. */
  datatype Intersection = Intersection(point: Vec, liaison1: Liaison, liaison2: Liaison)

  /** Every pair of segments the loops may test is one the line test can
      compute without dividing by zero. */
  predicate PairsSafe(ls1: seq<Liaison>, ls2: seq<Liaison>, segA: SegmentOracle, segB: SegmentOracle,
                      len: LengthOracle)
  {
    forall i, j :: 0 <= i < |ls1| && 0 <= j < |ls2| ==>
      !Seg.SegmentsDivideByZero(segA(ls1[i]), segB(ls2[j]), len)
  }

  /** Two liaisons whose segments intersect. */
  predicate Hit(l1: Liaison, l2: Liaison, segA: SegmentOracle, segB: SegmentOracle, len: LengthOracle)
    requires !Seg.SegmentsDivideByZero(segA(l1), segB(l2), len)
  {
    Seg.Intersects(segA(l1), segB(l2), len)
  }

  /** The inner loop of the boolean `intersects`: one segment against the
      other geom's liaisons, stopping at the first hit. */
  function HitsAny(l1: Liaison, ls2: seq<Liaison>, segA: SegmentOracle, segB: SegmentOracle, len: LengthOracle): (b: bool)
    requires forall j :: 0 <= j < |ls2| ==> !Seg.SegmentsDivideByZero(segA(l1), segB(ls2[j]), len)
    ensures b <==> exists j :: 0 <= j < |ls2| && Hit(l1, ls2[j], segA, segB, len)
    decreases |ls2|
  {
    if |ls2| == 0 then false
    else if Hit(l1, ls2[0], segA, segB, len) then true
    else
      var rest := HitsAny(l1, ls2[1..], segA, segB, len);
      assert forall j :: 1 <= j < |ls2| ==> ls2[j] == ls2[1..][j - 1];
      rest
  }

  /** Some liaison of the first sequence crosses some liaison of the
      second. */
  predicate SomePairHits(ls1: seq<Liaison>, ls2: seq<Liaison>, segA: SegmentOracle, segB: SegmentOracle,
                         len: LengthOracle)
    requires PairsSafe(ls1, ls2, segA, segB, len)
  {
    exists i, j :: 0 <= i < |ls1| && 0 <= j < |ls2| && Hit(ls1[i], ls2[j], segA, segB, len)
  }

  /** Both loops of the boolean `intersects`. */
  function AnyPairHits(ls1: seq<Liaison>, ls2: seq<Liaison>, segA: SegmentOracle, segB: SegmentOracle,
                       len: LengthOracle): (b: bool)
    requires PairsSafe(ls1, ls2, segA, segB, len)
    ensures b <==> SomePairHits(ls1, ls2, segA, segB, len)
    decreases |ls1|
  {
    if |ls1| == 0 then false
    else if HitsAny(ls1[0], ls2, segA, segB, len) then true
    else
      assert PairsSafe(ls1[1..], ls2, segA, segB, len);
      var rest := AnyPairHits(ls1[1..], ls2, segA, segB, len);
      assert forall i :: 1 <= i < |ls1| ==> ls1[i] == ls1[1..][i - 1];
      rest
  }

  /** `intersects(geom)`: the global boxes must overlap, and then some
      liaison of this geom must cross some liaison of the other. Only this
      geom's next state is returned. */
  function Intersects(g: Geom, other: Geom, trig: Tf.TrigOracle, len: LengthOracle,
                      segA: SegmentOracle, segB: SegmentOracle): (r: (Geom, bool))
    requires PairsSafe(g.liaisons, other.liaisons, segA, segB, len)
    ensures r.0 == GetGlobalBounds(g, trig).0
    ensures r.1 <==>
      Rects.Intersects(GetGlobalBounds(g, trig).1, GetGlobalBounds(other, trig).1) &&
      SomePairHits(g.liaisons, other.liaisons, segA, segB, len)
  {
    var mine := GetGlobalBounds(g, trig);
    var boxesMeet := Rects.Intersects(mine.1, GetGlobalBounds(other, trig).1);
    (mine.0, boxesMeet && AnyPairHits(g.liaisons, other.liaisons, segA, segB, len))
  }

  /** The point the line test wrote for a hit, in global coordinates. The
      local `result` starts at (0, 0), but on a hit it has been
      overwritten. */
  function HitPoint(l1: Liaison, l2: Liaison, m: Tf.Transform, segA: SegmentOracle, segB: SegmentOracle,
                    len: LengthOracle): Vec
    requires !Seg.SegmentsDivideByZero(segA(l1), segB(l2), len)
  {
    Tf.Apply(m, Seg.IntersectionPoint(segA(l1), segB(l2), len, Zero).1)
  }

  /** The inner loop of the collecting `intersects`, which does not stop
      at the first hit. */
  function HitsWith(l1: Liaison, ls2: seq<Liaison>, m: Tf.Transform, segA: SegmentOracle, segB: SegmentOracle,
                    len: LengthOracle): (r: seq<Intersection>)
    requires forall j :: 0 <= j < |ls2| ==> !Seg.SegmentsDivideByZero(segA(l1), segB(ls2[j]), len)
    ensures |r| == 0 <==> !HitsAny(l1, ls2, segA, segB, len)
    ensures forall k :: 0 <= k < |r| ==>
      r[k].liaison1 == l1 && r[k].liaison2 in ls2 && Hit(l1, r[k].liaison2, segA, segB, len) &&
      r[k].point == HitPoint(l1, r[k].liaison2, m, segA, segB, len)
    decreases |ls2|
  {
    if |ls2| == 0 then []
    else
      var here := if Hit(l1, ls2[0], segA, segB, len)
        then [Intersection(HitPoint(l1, ls2[0], m, segA, segB, len), l1, ls2[0])] else [];
      here + HitsWith(l1, ls2[1..], m, segA, segB, len)
  }

  /** Both loops of the collecting `intersects`. */
  function AllHits(ls1: seq<Liaison>, ls2: seq<Liaison>, m: Tf.Transform, segA: SegmentOracle, segB: SegmentOracle,
                   len: LengthOracle): (r: seq<Intersection>)
    requires PairsSafe(ls1, ls2, segA, segB, len)
    ensures |r| == 0 <==> !AnyPairHits(ls1, ls2, segA, segB, len)
    ensures forall k :: 0 <= k < |r| ==>
      r[k].liaison1 in ls1 && r[k].liaison2 in ls2 &&
      !Seg.SegmentsDivideByZero(segA(r[k].liaison1), segB(r[k].liaison2), len) &&
      Hit(r[k].liaison1, r[k].liaison2, segA, segB, len) &&
      r[k].point == HitPoint(r[k].liaison1, r[k].liaison2, m, segA, segB, len)
    decreases |ls1|
  {
    if |ls1| == 0 then []
    else
      assert PairsSafe(ls1[1..], ls2, segA, segB, len);
      var first := HitsWith(ls1[0], ls2, m, segA, segB, len);
      var rest := AllHits(ls1[1..], ls2, m, segA, segB, len);
      assert forall k :: 0 <= k < |first| ==> first[k].liaison2 in ls2;
      first + rest
  }

  /** The hits the collecting `intersects` appends: none unless the
      global boxes meet, each point through the forward matrix. */
  function NewHits(g: Geom, other: Geom, trig: Tf.TrigOracle, len: LengthOracle,
                   segA: SegmentOracle, segB: SegmentOracle): (r: seq<Intersection>)
    requires PairsSafe(g.liaisons, other.liaisons, segA, segB, len)
    ensures |r| == 0 <==> !Intersects(g, other, trig, len, segA, segB).1
  {
    var m := Tb.CurrentTransform(g.tf, trig);
    if Rects.Intersects(GetGlobalBounds(g, trig).1, GetGlobalBounds(other, trig).1)
    then AllHits(g.liaisons, other.liaisons, m, segA, segB, len) else []
  }

  /** `intersects(geom, intersections)`: every hit is appended, and the
      answer is whether the list is non-empty, including entries it had
      before the call. */
  function IntersectionsOf(g: Geom, other: Geom, found: seq<Intersection>, trig: Tf.TrigOracle,
                           len: LengthOracle, segA: SegmentOracle, segB: SegmentOracle)
    : (r: (Geom, seq<Intersection>, bool))
    requires PairsSafe(g.liaisons, other.liaisons, segA, segB, len)
    ensures |r.1| >= |found| && r.1[..|found|] == found
    ensures r.2 <==> |r.1| > 0
    ensures r.2 <==> |found| > 0 || Intersects(g, other, trig, len, segA, segB).1
  {
    var mine := GetGlobalBounds(g, trig);
    var hits := NewHits(g, other, trig, len, segA, segB);
    var g2 := if |hits| == 0 then mine.0 else mine.0.(tf := Tb.GetTransform(mine.0.tf, trig).0);
    assert (found + hits)[..|found|] == found;
    (g2, found + hits, |found + hits| > 0)
  }

  /** Both `intersects` agree when the list starts empty; and every
      recorded hit is a crossing pair, its point the global image of the
      point the segment test computed. */
  lemma IntersectionsAgree(g: Geom, other: Geom, trig: Tf.TrigOracle, len: LengthOracle,
                           segA: SegmentOracle, segB: SegmentOracle)
    requires PairsSafe(g.liaisons, other.liaisons, segA, segB, len)
    ensures IntersectionsOf(g, other, [], trig, len, segA, segB).2 == Intersects(g, other, trig, len, segA, segB).1
    ensures forall x :: x in IntersectionsOf(g, other, [], trig, len, segA, segB).1 ==>
      x.liaison1 in g.liaisons && x.liaison2 in other.liaisons &&
      !Seg.SegmentsDivideByZero(segA(x.liaison1), segB(x.liaison2), len) &&
      Hit(x.liaison1, x.liaison2, segA, segB, len) &&
      x.point == HitPoint(x.liaison1, x.liaison2, Tb.CurrentTransform(g.tf, trig), segA, segB, len)
    ensures Tb.CurrentTransform(IntersectionsOf(g, other, [], trig, len, segA, segB).0.tf, trig) ==
      Tb.CurrentTransform(g.tf, trig)
  {
    var r := IntersectionsOf(g, other, [], trig, len, segA, segB);
    assert r.1 == NewHits(g, other, trig, len, segA, segB);
  }

  /** What the collecting `intersects` appends does not depend on what
      the list held before: it is the list a call on an empty list
      returns, and the geom ends in the same state. With
      `IntersectionsAgree`, every appended entry is a crossing pair. */
  lemma IntersectionsAppend(g: Geom, other: Geom, found: seq<Intersection>, trig: Tf.TrigOracle,
                            len: LengthOracle, segA: SegmentOracle, segB: SegmentOracle)
    requires PairsSafe(g.liaisons, other.liaisons, segA, segB, len)
    ensures var r := IntersectionsOf(g, other, found, trig, len, segA, segB);
      var empty := IntersectionsOf(g, other, [], trig, len, segA, segB);
      r.1 == found + empty.1 && r.0 == empty.0
  {
    var empty := IntersectionsOf(g, other, [], trig, len, segA, segB);
    assert empty.1 == [] + NewHits(g, other, trig, len, segA, segB);
  }

  /** A geom without liaisons intersects nothing, whatever the boxes. */
  lemma NoLiaisonsNoIntersection(g: Geom, other: Geom, trig: Tf.TrigOracle, len: LengthOracle,
                                 segA: SegmentOracle, segB: SegmentOracle)
    requires g.liaisons == [] || other.liaisons == []
    ensures !Intersects(g, other, trig, len, segA, segB).1
  {
  }

  /** The vertex coordinates of a face. */
  function Corners(g: Geom, f: Face): Tri.Triangle
    requires f.v1 < |g.vertices| && f.v2 < |g.vertices| && f.v3 < |g.vertices|
  {
    Tri.Triangle(g.vertices[f.v1], g.vertices[f.v2], g.vertices[f.v3])
  }

  /** The face loop of the boolean `contains`. */
  function InSomeFace(g: Geom, fs: seq<Face>, q: Vec): (b: bool)
    requires forall i :: 0 <= i < |fs| ==> fs[i].v1 < |g.vertices| && fs[i].v2 < |g.vertices| && fs[i].v3 < |g.vertices|
    ensures b <==> exists i :: 0 <= i < |fs| && Tri.Contains(Corners(g, fs[i]), q)
    decreases |fs|
  {
    if |fs| == 0 then false
    else if Tri.ContainsPoints(g.vertices[fs[0].v1], g.vertices[fs[0].v2], g.vertices[fs[0].v3], q) then true
    else
      var rest := InSomeFace(g, fs[1..], q);
      assert forall i :: 1 <= i < |fs| ==> fs[i] == fs[1..][i - 1];
      rest
  }

  /** The face loop of the collecting `contains`: the faces containing q,
      in order. */
  function FacesContaining(g: Geom, fs: seq<Face>, q: Vec): (r: seq<Face>)
    requires forall i :: 0 <= i < |fs| ==> fs[i].v1 < |g.vertices| && fs[i].v2 < |g.vertices| && fs[i].v3 < |g.vertices|
    ensures |r| == 0 <==> !InSomeFace(g, fs, q)
    ensures forall f :: f in r <==> f in fs && Tri.Contains(Corners(g, f), q)
    decreases |fs|
  {
    if |fs| == 0 then []
    else
      var here := if Tri.ContainsPoints(g.vertices[fs[0].v1], g.vertices[fs[0].v2], g.vertices[fs[0].v3], q)
        then [fs[0]] else [];
      var rest := FacesContaining(g, fs[1..], q);
      assert forall f :: f in fs <==> f == fs[0] || f in fs[1..];
      here + rest
  }

  /** `contains(point)`: the point is taken to local coordinates, must lie
      in the (half-open) local box, and then in some face. */
  function Contains(g: Geom, p: Vec, trig: Tf.TrigOracle): (r: (Geom, bool))
    requires Valid(g) && CanLocalize(g.tf, trig)
    ensures var q := Tf.Apply(LocalMatrix(g.tf, trig), p);
      r.1 <==> (Rects.Contains(GetLocalBounds(g).1, q) &&
                exists i :: 0 <= i < |g.faces| && Tri.Contains(Corners(g, g.faces[i]), q))
  {
    var (tf, q) := Tb.ToLocal(g.tf, trig, p);
    var (g1, box) := GetLocalBounds(g.(tf := tf));
    if Rects.Contains(box, q) then (g1, InSomeFace(g, g.faces, q)) else (g1, false)
  }

  /** `contains(point, faces)`: every face containing the point is
      appended, and the answer is whether the list is non-empty. */
  function ContainsFaces(g: Geom, p: Vec, found: seq<Face>, trig: Tf.TrigOracle): (r: (Geom, seq<Face>, bool))
    requires Valid(g) && CanLocalize(g.tf, trig)
    ensures |r.1| >= |found| && r.1[..|found|] == found
    ensures r.2 <==> |r.1| > 0
    ensures r.2 <==> |found| > 0 || Contains(g, p, trig).1
  {
    var (tf, q) := Tb.ToLocal(g.tf, trig, p);
    var (g1, box) := GetLocalBounds(g.(tf := tf));
    var more := if Rects.Contains(box, q) then FacesContaining(g, g.faces, q) else [];
    assert (found + more)[..|found|] == found;
    (g1, found + more, |found + more| > 0)
  }

  /** The two `contains` agree when the list starts empty, and the list
      then holds exactly the faces whose triangle contains the point. */
  lemma ContainsAgree(g: Geom, p: Vec, trig: Tf.TrigOracle)
    requires Valid(g) && CanLocalize(g.tf, trig)
    ensures ContainsFaces(g, p, [], trig).2 == Contains(g, p, trig).1
    ensures Contains(g, p, trig).1 ==> forall f :: f in ContainsFaces(g, p, [], trig).1 <==>
      f in g.faces && Tri.Contains(Corners(g, f), Tf.Apply(LocalMatrix(g.tf, trig), p))
  {
    var r := ContainsFaces(g, p, [], trig);
    assert [] + r.1[0..] == r.1;
  }

  /** What the collecting `contains` appends does not depend on what the
      list held before: it is the list a call on an empty list returns,
      and the geom ends in the same state. With `ContainsAgree`, the
      appended faces are exactly those containing the point. */
  lemma ContainsAppend(g: Geom, p: Vec, found: seq<Face>, trig: Tf.TrigOracle)
    requires Valid(g) && CanLocalize(g.tf, trig)
    ensures var r := ContainsFaces(g, p, found, trig);
      var empty := ContainsFaces(g, p, [], trig);
      r.1 == found + empty.1 && r.0 == empty.0
  {
  }

  /** When the local box is right (see `LocalBoundsCoherent`), a contained
      point lies in the half-open box of the vertices: in particular,
      never on its right or bottom edge. */
  lemma ContainedPointInBox(g: Geom, p: Vec, trig: Tf.TrigOracle)
    requires Valid(g) && CanLocalize(g.tf, trig) && LocalBoundsCoherent(g)
    requires Contains(g, p, trig).1
    ensures Rects.Contains(BoundsOf(g.vertices), Tf.Apply(LocalMatrix(g.tf, trig), p))
  {
  }

  /** `Face::getTriangle`: the three vertices, in order, each through the
      owner's `convertToGlobal`. */
  function FaceTriangle(g: Geom, f: Face, trig: Tf.TrigOracle): (r: (Geom, Tri.Triangle))
    requires f.v1 < |g.vertices| && f.v2 < |g.vertices| && f.v3 < |g.vertices|
    ensures r.0 == g.(tf := Tb.GetTransform(g.tf, trig).0)
  {
    var (t1, a) := Tb.ToGlobal(g.tf, trig, g.vertices[f.v1]);
    var (t2, b) := Tb.ToGlobal(t1, trig, g.vertices[f.v2]);
    var (t3, c) := Tb.ToGlobal(t2, trig, g.vertices[f.v3]);
    (g.(tf := t3), Tri.Triangle(a, b, c))
  }

  /** The triangle of a face is the global image of its corners, in
      order; with an owner that was just constructed (so reporting the
      identity) it is the corners themselves. */
  lemma FaceTriangleCorners(g: Geom, f: Face, trig: Tf.TrigOracle, position: Vec, rotation: real, scale: Vec)
    requires f.v1 < |g.vertices| && f.v2 < |g.vertices| && f.v3 < |g.vertices|
    ensures var m := Tb.CurrentTransform(g.tf, trig);
      FaceTriangle(g, f, trig).1 ==
        Tri.Triangle(Tf.Apply(m, g.vertices[f.v1]), Tf.Apply(m, g.vertices[f.v2]), Tf.Apply(m, g.vertices[f.v3]))
    ensures FaceTriangle(g.(tf := Tb.New(position, rotation, scale)), f, trig).1 == Corners(g, f)
  {
    Tb.NewIsIdentity(position, rotation, scale, trig, g.vertices[f.v1]);
    Tb.NewIsIdentity(position, rotation, scale, trig, g.vertices[f.v2]);
    Tb.NewIsIdentity(position, rotation, scale, trig, g.vertices[f.v3]);
  }

  /** A face holds only vertex positions: after `setCoords` on one of its
      vertices, its triangle has the new coordinates at that corner. */
  lemma FaceTriangleSeesMovedVertex(g: Geom, f: Face, c: Vec, trig: Tf.TrigOracle)
    requires f.v1 < |g.vertices| && f.v2 < |g.vertices| && f.v3 < |g.vertices|
    ensures FaceTriangle(SetCoords(g, f.v1, c), f, trig).1.p1 == Tf.Apply(Tb.CurrentTransform(g.tf, trig), c)
  {
  }

  /** The triangle is computed from the owner's transform at call time:
      moving the owner from position a to position b moves each corner of
      the triangle by b - a, the face itself unchanged. */
  lemma FaceTriangleFollowsOwner(g: Geom, f: Face, trig: Tf.TrigOracle, a: Vec, b: Vec)
    requires f.v1 < |g.vertices| && f.v2 < |g.vertices| && f.v3 < |g.vertices|
    ensures var ta := FaceTriangle(g.(tf := Tb.SetPosition(g.tf, a)), f, trig).1;
      var tb := FaceTriangle(g.(tf := Tb.SetPosition(g.tf, b)), f, trig).1;
      tb.p1 == Plus(ta.p1, Minus(b, a)) && tb.p2 == Plus(ta.p2, Minus(b, a)) && tb.p3 == Plus(ta.p3, Minus(b, a))
  {
    MovedCorner(g.tf, trig, a, b, g.vertices[f.v1]);
    MovedCorner(g.tf, trig, a, b, g.vertices[f.v2]);
    MovedCorner(g.tf, trig, a, b, g.vertices[f.v3]);
  }

  lemma MovedCorner(t: Tb.Transformable, trig: Tf.TrigOracle, a: Vec, b: Vec, p: Vec)
    ensures Tf.Apply(Tb.CurrentTransform(Tb.SetPosition(t, b), trig), p) ==
      Plus(Tf.Apply(Tb.CurrentTransform(Tb.SetPosition(t, a), trig), p), Minus(b, a))
  {
    Tb.BuiltApplies(Tb.SetPosition(t, a), trig, p);
    Tb.BuiltApplies(Tb.SetPosition(t, b), trig, p);
  }
}
