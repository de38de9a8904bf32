/** `Curve` (src/Curve.cpp): a geom whose vertices are chained into a
    polyline as they are added, with the running length of its liaisons,
    the point at a fraction of that length, and the Bézier factory. */
module Curves {
  import opened ZMath
  import opened Vectors
  import Tf = Transforms
  import Tb = Transformables
  import Seg = Segments
  import opened Geoms
  import opened GeomQueries
  import Sh = Shapes

  /** A curve: the geom it extends and `m_length`. */
  datatype Curve = Curve(geom: Geom, length: real)

  /** What `operator[]` yields: a point; a NaN point, when a zero-length
      segment is reached exactly at the target distance (the factor is
      0/0, which passes both clamping guards); or nothing, when the walk
      runs past the last liaison and the function falls off its end. */
  datatype Sample = Found(p: Vec) | NotANumber | FellThrough

  /** A new curve: an empty geom and length 0. */
  function NewCurve(): (c: Curve)
    ensures c.geom == EmptyGeom() && c.length == 0.0
  {
    Curve(EmptyGeom(), 0.0)
  }

  /** The polyline over n vertices: vertex k joined to vertex k + 1. */
  function Links(n: nat): (r: seq<(nat, nat)>)
    ensures |r| == if n == 0 then 0 else n - 1
    ensures forall k :: 0 <= k < |r| ==> r[k] == (k, k + 1)
  {
    seq(if n == 0 then 0 else n - 1, k requires 0 <= k < (if n == 0 then 0 else n - 1) => (k, k + 1))
  }

  /** The liaisons form the polyline through the vertices in order. */
  predicate Chained(c: Curve)
  {
    LiaisonRefs(c.geom.liaisons) == Links(|c.geom.vertices|)
  }

  /** The lengths of the liaisons' segments, added in list order. */
  function SumLengths(ls: seq<Liaison>, segOf: SegmentOracle, len: LengthOracle): real
    decreases |ls|
  {
    if |ls| == 0 then 0.0
    else SumLengths(ls[..|ls| - 1], segOf, len) + Seg.Length(segOf(ls[|ls| - 1]), len)
  }

  /** `m_length` is the sum of the lengths of the liaisons' segments. */
  predicate Coherent(c: Curve, segOf: SegmentOracle, len: LengthOracle)
  {
    c.length == SumLengths(c.geom.liaisons, segOf, len)
  }

  lemma SumLengthsAppend(ls: seq<Liaison>, l: Liaison, segOf: SegmentOracle, len: LengthOracle)
    ensures SumLengths(ls + [l], segOf, len) == SumLengths(ls, segOf, len) + Seg.Length(segOf(l), len)
  {
    assert (ls + [l])[..|ls|] == ls;
  }

  /** With a sound length every segment adds a non-negative amount. */
  lemma {:induction false} SumLengthsNonNegative(ls: seq<Liaison>, segOf: SegmentOracle, len: LengthOracle)
    requires LengthSound(len)
    ensures SumLengths(ls, segOf, len) >= 0.0
    decreases |ls|
  {
    if |ls| > 0 {
      SumLengthsNonNegative(ls[..|ls| - 1], segOf, len);
      Seg.LengthOfSegment(segOf(ls[|ls| - 1]), len);
    }
  }

  /** `addVertex`: the geom's `addVertex`, then, from the second vertex
      on, a liaison from the previous last vertex to the new one, whose
      segment's length is added to `m_length`. */
  function AddVertex(c: Curve, p: Vec, segOf: SegmentOracle, len: LengthOracle): (r: Curve)
    ensures r.geom.vertices == c.geom.vertices + [p]
    ensures r.geom.faces == c.geom.faces && r.geom.tf == c.geom.tf
    ensures |c.geom.vertices| == 0 ==> r.geom.liaisons == c.geom.liaisons && r.length == c.length
    ensures |c.geom.vertices| > 0 ==>
      (var n := |c.geom.vertices|;
       var l := Liaison(c.geom.nextId, n - 1, n);
       r.geom.liaisons == c.geom.liaisons + [l] && r.length == c.length + Seg.Length(segOf(l), len))
    ensures Chained(c) ==> Chained(r)
    ensures Coherent(c, segOf, len) ==> Coherent(r, segOf, len)
    ensures Valid(c.geom) ==> Valid(r.geom)
  {
    var n := |c.geom.vertices|;
    var g := Sh.Put(c.geom, p);
    if n > 0 then
      var l := Liaison(g.nextId, n - 1, n);
      var g2 := Sh.Link(g, n - 1, n);
      assert g2 == AddLiaison(g, n - 1, n).0;
      SumLengthsAppend(c.geom.liaisons, l, segOf, len);
      assert Links(n + 1) == Links(n) + [(n - 1, n)];
      Curve(g2, c.length + Seg.Length(segOf(l), len))
    else
      assert Links(1) == [];
      Curve(g, c.length)
  }

  /** The point loop of the constructor: one `addVertex` per point. */
  function AddVertices(c: Curve, ps: seq<Vec>, segOf: SegmentOracle, len: LengthOracle): (r: Curve)
    ensures r.geom.vertices == c.geom.vertices + ps
    ensures r.geom.faces == c.geom.faces && r.geom.tf == c.geom.tf
    ensures Chained(c) ==> Chained(r)
    ensures Coherent(c, segOf, len) ==> Coherent(r, segOf, len)
    ensures Valid(c.geom) ==> Valid(r.geom)
    decreases |ps|
  {
    if |ps| == 0 then c
    else
      var next := AddVertex(c, ps[0], segOf, len);
      var r := AddVertices(next, ps[1..], segOf, len);
      Regroup(c.geom.vertices, ps[0], ps[1..]);
      assert [ps[0]] + ps[1..] == ps;
      r
  }

  lemma Regroup<T>(a: seq<T>, x: T, b: seq<T>)
    ensures (a + [x]) + b == a + ([x] + b)
  {
  }

  /** The constructor from a list of points: the points in order as
      vertices, each joined to the next, and the length of those
      liaisons. */
  function FromPoints(points: seq<Vec>, segOf: SegmentOracle, len: LengthOracle): (r: Curve)
    ensures r.geom.vertices == points && r.geom.faces == []
    ensures LiaisonRefs(r.geom.liaisons) == Links(|points|)
    ensures |r.geom.liaisons| == if |points| == 0 then 0 else |points| - 1
    ensures Coherent(r, segOf, len) && Valid(r.geom)
  {
    EmptyGeomValid();
    assert LiaisonRefs([]) == Links(0);
    var r := AddVertices(NewCurve(), points, segOf, len);
    assert |LiaisonRefs(r.geom.liaisons)| == |r.geom.liaisons|;
    r
  }

  /** `getLength` on a coherent curve is never negative when the length
      of a vector is sound. */
  lemma CoherentLengthNonNegative(c: Curve, segOf: SegmentOracle, len: LengthOracle)
    requires Coherent(c, segOf, len) && LengthSound(len)
    ensures c.length >= 0.0
  {
    SumLengthsNonNegative(c.geom.liaisons, segOf, len);
  }

  /** The vertex loop of `add(curve)`: each vertex of the other curve goes
      to global coordinates through the other curve's transform and back
      to local ones through this curve's, and is then added with
      `addVertex`. The first conversion caches this curve's inverse
      matrix, and the later ones reuse it. */
  function AddConverted(c: Curve, cs: seq<Vec>, fwd: Tf.Transform, trig: Tf.TrigOracle,
                        segOf: SegmentOracle, len: LengthOracle): (r: Curve)
    requires |cs| == 0 || CanLocalize(c.geom.tf, trig)
    ensures CanLocalize(c.geom.tf, trig) ==> r.geom.vertices == c.geom.vertices + Converted(cs, fwd, LocalMatrix(c.geom.tf, trig))
    ensures r.geom.faces == c.geom.faces
    ensures |cs| == 0 ==> r == c
    ensures |cs| > 0 ==> r.geom.tf == Tb.GetInvTransform(c.geom.tf, trig).0
    ensures Chained(c) ==> Chained(r)
    ensures Coherent(c, segOf, len) ==> Coherent(r, segOf, len)
    ensures Valid(c.geom) ==> Valid(r.geom)
    decreases |cs|
  {
    if |cs| == 0 then c
    else
      var (tf, q) := Tb.ToLocal(c.geom.tf, trig, Tf.Apply(fwd, cs[0]));
      var next := AddVertex(c.(geom := c.geom.(tf := tf)), q, segOf, len);
      assert CanLocalize(next.geom.tf, trig);
      var r := AddConverted(next, cs[1..], fwd, trig, segOf, len);
      assert LocalMatrix(next.geom.tf, trig) == LocalMatrix(c.geom.tf, trig);
      ConvertedFirst(cs, fwd, LocalMatrix(c.geom.tf, trig));
      Regroup(c.geom.vertices, q, Converted(cs[1..], fwd, LocalMatrix(c.geom.tf, trig)));
      r
  }

  /** `add(curve)` and `operator+=`: only the vertices are copied, each
      chained to the one before, so the liaisons of the other curve are
      not copied and a new liaison joins the old last vertex to the first
      copied one. */
  function Add(c: Curve, other: Curve, trig: Tf.TrigOracle, segOf: SegmentOracle, len: LengthOracle): (r: Curve)
    requires |other.geom.vertices| == 0 || CanLocalize(c.geom.tf, trig)
    ensures |other.geom.vertices| == 0 ==> r == c
    ensures CanLocalize(c.geom.tf, trig) ==>
      r.geom.vertices == c.geom.vertices + Converted(other.geom.vertices, Tb.CurrentTransform(other.geom.tf, trig), LocalMatrix(c.geom.tf, trig))
    ensures r.geom.faces == c.geom.faces
    ensures Chained(c) ==> Chained(r)
    ensures Coherent(c, segOf, len) ==> Coherent(r, segOf, len)
    ensures Valid(c.geom) ==> Valid(r.geom)
    ensures Tb.CurrentTransform(r.geom.tf, trig) == Tb.CurrentTransform(c.geom.tf, trig)
    ensures CanLocalize(c.geom.tf, trig) ==> CanLocalize(r.geom.tf, trig)
  {
    AddConverted(c, other.geom.vertices, Tb.CurrentTransform(other.geom.tf, trig), trig, segOf, len)
  }

  /** On a chained curve with n >= 1 vertices, adding a curve of m
      vertices gives n + m vertices and n + m - 1 liaisons: the m copied
      vertices bring m new liaisons, whatever the other curve's own
      liaisons. */
  lemma AddCounts(c: Curve, other: Curve, trig: Tf.TrigOracle, segOf: SegmentOracle, len: LengthOracle)
    requires (|other.geom.vertices| == 0 || CanLocalize(c.geom.tf, trig)) && Chained(c) && |c.geom.vertices| > 0
    ensures var r := Add(c, other, trig, segOf, len);
      |r.geom.vertices| == |c.geom.vertices| + |other.geom.vertices| &&
      |r.geom.liaisons| == |c.geom.vertices| + |other.geom.vertices| - 1 &&
      |r.geom.liaisons| == |c.geom.liaisons| + |other.geom.vertices|
  {
    var r := Add(c, other, trig, segOf, len);
    assert |LiaisonRefs(r.geom.liaisons)| == |r.geom.liaisons|;
    assert |LiaisonRefs(c.geom.liaisons)| == |c.geom.liaisons|;
  }

  /** The copy constructor: a new curve, hence a default transformable,
      to which the other curve is added. The copy's vertices are the
      other curve's vertices in global coordinates, its transform is the
      identity, and its length is recomputed from the new liaisons. */
  function CopyOf(other: Curve, trig: Tf.TrigOracle, segOf: SegmentOracle, len: LengthOracle): (r: Curve)
    ensures |r.geom.vertices| == |other.geom.vertices|
    ensures forall i :: 0 <= i < |r.geom.vertices| ==>
      r.geom.vertices[i] == Tf.Apply(Tb.CurrentTransform(other.geom.tf, trig), other.geom.vertices[i])
    ensures r.geom.tf == EmptyGeom().tf && r.geom.faces == []
    ensures Chained(r) && Coherent(r, segOf, len) && Valid(r.geom)
  {
    var start := NewCurve();
    EmptyGeomValid();
    assert LiaisonRefs([]) == Links(0);
    var r := Add(start, other, trig, segOf, len);
    forall i | 0 <= i < |r.geom.vertices|
      ensures r.geom.vertices[i] == Tf.Apply(Tb.CurrentTransform(other.geom.tf, trig), other.geom.vertices[i])
    {
      Tf.ApplyIdentity(Tf.Apply(Tb.CurrentTransform(other.geom.tf, trig), other.geom.vertices[i]));
    }
    r
  }

  /** `operator+`: a copy of this curve with the other one added, copied
      once more on return. Both operands' vertices come out in global
      coordinates, chained into one polyline. */
  function Sum(c: Curve, other: Curve, trig: Tf.TrigOracle, segOf: SegmentOracle, len: LengthOracle): (r: Curve)
    ensures |r.geom.vertices| == |c.geom.vertices| + |other.geom.vertices|
    ensures Chained(r) && Coherent(r, segOf, len) && Valid(r.geom)
    ensures r.geom.tf == EmptyGeom().tf
  {
    var copy := CopyOf(c, trig, segOf, len);
    var added := Add(copy, other, trig, segOf, len);
    CopyOf(added, trig, segOf, len)
  }

  /** `operator=`: the length is reset to 0 and the geom part is assigned
      as a geom, liaisons included; the length is not recomputed, so a
      curve assigned from one with segments reports length 0. */
  function Assign(c: Curve, other: Curve, trig: Tf.TrigOracle): (r: Curve)
    requires Valid(other.geom) && (|other.geom.vertices| == 0 || CanLocalize(other.geom.tf, trig))
    ensures r.length == 0.0
    ensures |r.geom.vertices| == |other.geom.vertices| && |r.geom.liaisons| == |other.geom.liaisons|
  {
    Curve(Geoms.Assign(c.geom, other.geom, trig), 0.0)
  }

  /** `c = c`: the length is reset, and the geom part assigned to itself
      ends empty, so the curve is the empty curve, whatever its length
      and vertices before. */
  function SelfAssign(c: Curve, trig: Tf.TrigOracle): (r: Curve)
    ensures r.length == 0.0 && r.geom.vertices == [] && r.geom.liaisons == []
    ensures Chained(r) && Valid(r.geom)
  {
    var r := Curve(Geoms.SelfAssign(c.geom, trig), 0.0);
    assert LiaisonRefs([]) == Links(0);
    r
  }

  /** The segment between the two vertices of a liaison, in local
      coordinates, as `operator[]` builds it. */
  function LocalSegment(vs: seq<Vec>, l: Liaison): Seg.Segment
  {
    Seg.Segment(PointAt(vs, l.v1), PointAt(vs, l.v2))
  }

  /** The loop of `operator[]` from `dist` on: the first liaison whose
      end lies at or beyond the target distance yields the point that far
      along its segment. */
  function Walk(vs: seq<Vec>, ls: seq<Liaison>, dist: real, target: real, len: LengthOracle): Sample
    decreases |ls|
  {
    if |ls| == 0 then FellThrough
    else
      var s := LocalSegment(vs, ls[0]);
      var l := Seg.Length(s, len);
      var d := dist + l;
      if d >= target then
        if l != 0.0 then Found(Seg.At(s, 1.0 - (d - target) / l))
        else if d > target then Found(Seg.At(s, 0.0))
        else NotANumber
      else Walk(vs, ls[1..], d, target, len)
  }

  /** A point the walk finds lies on the segment of one of the
      liaisons. */
  lemma {:induction false} WalkFoundOnSegment(vs: seq<Vec>, ls: seq<Liaison>, dist: real, target: real, len: LengthOracle)
    ensures var r := Walk(vs, ls, dist, target, len);
      r.Found? ==> exists k, t :: 0 <= k < |ls| && r.p == Seg.At(LocalSegment(vs, ls[k]), t)
    decreases |ls|
  {
    if |ls| > 0 {
      var l := Seg.Length(LocalSegment(vs, ls[0]), len);
      var r := Walk(vs, ls, dist, target, len);
      if dist + l >= target {
        if r.Found? {
          var t := if l != 0.0 then 1.0 - (dist + l - target) / l else 0.0;
          assert r.p == Seg.At(LocalSegment(vs, ls[0]), t);
        }
      } else {
        WalkFoundOnSegment(vs, ls[1..], dist + l, target, len);
        if r.Found? {
          var k, t :| 0 <= k < |ls[1..]| && r.p == Seg.At(LocalSegment(vs, ls[1..][k]), t);
          assert ls[1..][k] == ls[k + 1];
        }
      }
    }
  }

  /** `operator[](factor)`: with at least two vertices, the factor is
      clamped into [0, 1] and the walk looks for the point at that
      fraction of the recorded length; otherwise (0, 0). A zero-length
      segment reached strictly beyond the target divides a positive
      distance by zero, which the clamp turns into the segment's first
      end. */
  function Lookup(c: Curve, factor: real, len: LengthOracle): (r: Sample)
    ensures |c.geom.vertices| <= 1 ==> r == Found(Zero)
    ensures r.Found? && |c.geom.vertices| > 1 ==>
      exists k, t :: 0 <= k < |c.geom.liaisons| && r.p == Seg.At(LocalSegment(c.geom.vertices, c.geom.liaisons[k]), t)
  {
    if |c.geom.vertices| > 1 then
      var target := Product(c.length, Clamp01(factor));
      WalkFoundOnSegment(c.geom.vertices, c.geom.liaisons, 0.0, target, len);
      Walk(c.geom.vertices, c.geom.liaisons, 0.0, target, len)
    else Found(Zero)
  }

  /** The length of the local segments, added from the front as the walk
      does. */
  function Travel(vs: seq<Vec>, ls: seq<Liaison>, len: LengthOracle): real
    decreases |ls|
  {
    if |ls| == 0 then 0.0 else Seg.Length(LocalSegment(vs, ls[0]), len) + Travel(vs, ls[1..], len)
  }

  /** Every local segment of the liaisons has a positive length. */
  predicate NoZeroSegment(vs: seq<Vec>, ls: seq<Liaison>, len: LengthOracle)
  {
    forall k :: 0 <= k < |ls| ==> Seg.Length(LocalSegment(vs, ls[k]), len) > 0.0
  }

  lemma {:induction false} TravelPositive(vs: seq<Vec>, ls: seq<Liaison>, len: LengthOracle)
    requires |ls| > 0 && NoZeroSegment(vs, ls, len)
    ensures Travel(vs, ls, len) > 0.0
    decreases |ls|
  {
    if |ls| > 1 {
      assert NoZeroSegment(vs, ls[1..], len) by {
        forall k | 0 <= k < |ls[1..]| ensures Seg.Length(LocalSegment(vs, ls[1..][k]), len) > 0.0 {
          assert ls[1..][k] == ls[k + 1];
        }
      }
      TravelPositive(vs, ls[1..], len);
    }
  }

  /** A walk whose target is exactly the length still ahead, over
      segments of positive length, stops at the last liaison with factor
      1, hence at its second end. */
  lemma {:induction false} WalkReachesEnd(vs: seq<Vec>, ls: seq<Liaison>, dist: real, len: LengthOracle)
    requires |ls| > 0 && NoZeroSegment(vs, ls, len)
    ensures Walk(vs, ls, dist, dist + Travel(vs, ls, len), len) == Found(PointAt(vs, ls[|ls| - 1].v2))
    decreases |ls|
  {
    var l := Seg.Length(LocalSegment(vs, ls[0]), len);
    if |ls| == 1 {
      assert Travel(vs, ls, len) == l;
      WalkLast(vs, ls, dist, len);
    } else {
      NoZeroSegmentTail(vs, ls, len);
      WalkReachesEnd(vs, ls[1..], dist + l, len);
      assert ls[1..][|ls[1..]| - 1] == ls[|ls| - 1];
      WalkPassesFirst(vs, ls, dist, len);
    }
  }

  /** Over two or more segments of positive length, the walk to the
      length still ahead passes the first segment and continues as the
      walk over the rest. */
  lemma WalkPassesFirst(vs: seq<Vec>, ls: seq<Liaison>, dist: real, len: LengthOracle)
    requires |ls| > 1 && NoZeroSegment(vs, ls[1..], len)
    requires var l := Seg.Length(LocalSegment(vs, ls[0]), len);
      Walk(vs, ls[1..], dist + l, dist + l + Travel(vs, ls[1..], len), len) == Found(PointAt(vs, ls[|ls| - 1].v2))
    ensures Walk(vs, ls, dist, dist + Travel(vs, ls, len), len) == Found(PointAt(vs, ls[|ls| - 1].v2))
  {
    var l := Seg.Length(LocalSegment(vs, ls[0]), len);
    var rest := Travel(vs, ls[1..], len);
    TravelPositive(vs, ls[1..], len);
    assert dist + Travel(vs, ls, len) == dist + l + rest;
    WalkStep(vs, ls, dist, dist + l + rest, len);
  }

  /** A segment of positive length walked exactly to its end yields its
      second end. */
  lemma WalkLast(vs: seq<Vec>, ls: seq<Liaison>, dist: real, len: LengthOracle)
    requires |ls| == 1 && Seg.Length(LocalSegment(vs, ls[0]), len) > 0.0
    ensures Walk(vs, ls, dist, dist + Seg.Length(LocalSegment(vs, ls[0]), len), len) == Found(PointAt(vs, ls[0].v2))
  {
    var l := Seg.Length(LocalSegment(vs, ls[0]), len);
    assert 1.0 - (dist + l - (dist + l)) / l == 1.0;
  }

  /** A segment that ends short of the target is passed over. */
  lemma WalkStep(vs: seq<Vec>, ls: seq<Liaison>, dist: real, target: real, len: LengthOracle)
    requires |ls| > 0 && dist + Seg.Length(LocalSegment(vs, ls[0]), len) < target
    ensures Walk(vs, ls, dist, target, len) == Walk(vs, ls[1..], dist + Seg.Length(LocalSegment(vs, ls[0]), len), target, len)
  {
  }

  /** The factor is clamped before it is used: any factor gives the
      point of the factor clamped into [0, 1], so every factor above 1
      gives the point of 1 and every factor below 0 the point of 0. */
  lemma LookupClampsFactor(c: Curve, factor: real, len: LengthOracle)
    ensures Lookup(c, factor, len) == Lookup(c, Clamp01(factor), len)
    ensures factor > 1.0 ==> Lookup(c, factor, len) == Lookup(c, 1.0, len)
    ensures factor < 0.0 ==> Lookup(c, factor, len) == Lookup(c, 0.0, len)
  {
    var t := Clamp01(factor);
    assert Clamp01(t) == t;
  }

  /** Over segments of positive length, the length travelled is not
      negative. */
  lemma {:induction false} TravelNonNegative(vs: seq<Vec>, ls: seq<Liaison>, len: LengthOracle)
    requires NoZeroSegment(vs, ls, len)
    ensures Travel(vs, ls, len) >= 0.0
    decreases |ls|
  {
    if |ls| > 0 {
      NoZeroSegmentTail(vs, ls, len);
      TravelNonNegative(vs, ls[1..], len);
    }
  }

  /** The walk stops at the first liaison whose end reaches the target.
      Over segments of positive length, a target beyond the end of the
      first k segments and within the end of segment k yields the point
      of segment k at the fraction of it left before the target, as the
      loop computes it: 1 - (end - target) / length. */
  lemma {:induction false} WalkFindsSegment(vs: seq<Vec>, ls: seq<Liaison>, dist: real, target: real,
                                            len: LengthOracle, k: nat)
    requires k < |ls| && NoZeroSegment(vs, ls, len)
    requires k == 0 || dist + Travel(vs, ls[..k], len) < target
    requires target <= dist + Travel(vs, ls[..k + 1], len)
    ensures var s := LocalSegment(vs, ls[k]);
      Walk(vs, ls, dist, target, len) ==
        Found(Seg.At(s, 1.0 - (dist + Travel(vs, ls[..k + 1], len) - target) / Seg.Length(s, len)))
    decreases k
  {
    var l := Seg.Length(LocalSegment(vs, ls[0]), len);
    assert ls[..k + 1][1..] == ls[1..][..k];
    if k == 0 {
      assert Travel(vs, ls[..1], len) == l;
    } else {
      assert ls[..k][1..] == ls[1..][..k - 1];
      var passed := ls[1..][..k - 1];
      assert NoZeroSegment(vs, passed, len) by {
        forall j | 0 <= j < |passed| ensures Seg.Length(LocalSegment(vs, passed[j]), len) > 0.0 {
          assert passed[j] == ls[j + 1];
        }
      }
      TravelNonNegative(vs, passed, len);
      assert dist + l < target;
      NoZeroSegmentTail(vs, ls, len);
      assert ls[1..][k - 1] == ls[k];
      WalkFindsSegment(vs, ls[1..], dist + l, target, len, k - 1);
    }
  }

  /** The arc-length meaning of `operator[]`: on a chained curve with at
      least two vertices and segments of positive length, a factor whose
      distance (the recorded length times the clamped factor) lies past
      the first k segments and within the end of segment k gives the
      point of liaison k's segment at the fraction
      of it left before that distance; liaison k is the segment from
      vertex k to vertex k + 1. */
  lemma LookupInterior(c: Curve, factor: real, len: LengthOracle, k: nat)
    requires Chained(c) && |c.geom.vertices| > 1 && k < |c.geom.liaisons|
    requires NoZeroSegment(c.geom.vertices, c.geom.liaisons, len)
    requires var target := Product(c.length, Clamp01(factor));
      (k == 0 || Travel(c.geom.vertices, c.geom.liaisons[..k], len) < target) &&
      target <= Travel(c.geom.vertices, c.geom.liaisons[..k + 1], len)
    ensures LocalSegment(c.geom.vertices, c.geom.liaisons[k]) == Seg.Segment(c.geom.vertices[k], c.geom.vertices[k + 1])
    ensures var vs := c.geom.vertices;
      var s := LocalSegment(vs, c.geom.liaisons[k]);
      var target := Product(c.length, Clamp01(factor));
      Lookup(c, factor, len) ==
        Found(Seg.At(s, 1.0 - (Travel(vs, c.geom.liaisons[..k + 1], len) - target) / Seg.Length(s, len)))
  {
    var vs := c.geom.vertices;
    var ls := c.geom.liaisons;
    var target := Product(c.length, Clamp01(factor));
    assert |LiaisonRefs(ls)| == |ls|;
    assert LiaisonRefs(ls)[k] == Links(|vs|)[k];
    WalkFindsSegment(vs, ls, 0.0, target, len, k);
  }

  lemma NoZeroSegmentTail(vs: seq<Vec>, ls: seq<Liaison>, len: LengthOracle)
    requires |ls| > 0 && NoZeroSegment(vs, ls, len)
    ensures NoZeroSegment(vs, ls[1..], len)
  {
    forall k | 0 <= k < |ls[1..]| ensures Seg.Length(LocalSegment(vs, ls[1..][k]), len) > 0.0 {
      assert ls[1..][k] == ls[k + 1];
    }
  }

  /** On a chained curve with at least two vertices, no zero-length
      segment, and a recorded length equal to the length of its local
      segments, factor 1 (or more) yields the last vertex. */
  lemma LookupEnd(c: Curve, factor: real, len: LengthOracle)
    requires Chained(c) && |c.geom.vertices| > 1 && factor >= 1.0
    requires NoZeroSegment(c.geom.vertices, c.geom.liaisons, len)
    requires c.length == Travel(c.geom.vertices, c.geom.liaisons, len)
    ensures Lookup(c, factor, len) == Found(c.geom.vertices[|c.geom.vertices| - 1])
  {
    var vs := c.geom.vertices;
    var ls := c.geom.liaisons;
    assert |LiaisonRefs(ls)| == |ls|;
    assert LiaisonRefs(ls)[|ls| - 1] == Links(|vs|)[|ls| - 1];
    assert Product(c.length, Clamp01(factor)) == 0.0 + Travel(vs, ls, len);
    WalkReachesEnd(vs, ls, 0.0, len);
  }

  /** On a chained curve with at least two vertices whose first segment
      has a positive length and whose recorded length is not negative,
      factor 0 (or less) yields the first vertex. */
  lemma LookupStart(c: Curve, factor: real, len: LengthOracle)
    requires Chained(c) && |c.geom.vertices| > 1 && factor <= 0.0 && c.length >= 0.0
    requires Seg.Length(LocalSegment(c.geom.vertices, c.geom.liaisons[0]), len) > 0.0
    ensures Lookup(c, factor, len) == Found(c.geom.vertices[0])
  {
    var vs := c.geom.vertices;
    var ls := c.geom.liaisons;
    assert |LiaisonRefs(ls)| == |ls|;
    assert LiaisonRefs(ls)[0] == Links(|vs|)[0];
    var l := Seg.Length(LocalSegment(vs, ls[0]), len);
    assert Product(c.length, Clamp01(factor)) == 0.0;
    assert l / l == 1.0;
    assert 1.0 - (0.0 + l - 0.0) / l == 0.0;
  }

  /** `bezier(keys, complexity)`: the complexity raised to at least 2,
      and one vertex per step k while k < complexity + 1 in 32-bit
      arithmetic. `sample(k)` is the Bernstein sum of the keys at
      k / complexity, which is not part of this model. */
  function Bezier(complexity: Uint32, sample: nat -> Vec, segOf: SegmentOracle, len: LengthOracle): (r: Curve)
    ensures var c := if complexity < 2 then 2 else complexity;
      |r.geom.vertices| == (c + 1) % 0x1_0000_0000
    ensures forall k :: 0 <= k < |r.geom.vertices| ==> r.geom.vertices[k] == sample(k)
    ensures |r.geom.liaisons| == if |r.geom.vertices| == 0 then 0 else |r.geom.vertices| - 1
    ensures Chained(r) && Coherent(r, segOf, len) && Valid(r.geom)
  {
    var c := if complexity < 2 then 2 else complexity;
    var steps := (c + 1) % 0x1_0000_0000;
    var r := FromPoints(Samples(sample, steps), segOf, len);
    assert |r.geom.vertices| == steps;
    r
  }

  /** The first n samples, in order. */
  function Samples(sample: nat -> Vec, n: nat): (ps: seq<Vec>)
    ensures |ps| == n && forall k :: 0 <= k < n ==> ps[k] == sample(k)
  {
    seq(n, k requires 0 <= k < n => sample(k))
  }

  /** The counts the factory promises: complexity max(c, 2) gives
      max(c, 2) + 1 vertices and max(c, 2) liaisons, except at the
      largest 32-bit complexity, where the bound wraps to 0 and the curve
      is empty. */
  lemma BezierCounts(complexity: Uint32, sample: nat -> Vec, segOf: SegmentOracle, len: LengthOracle)
    ensures var r := Bezier(complexity, sample, segOf, len);
      var c := if complexity < 2 then 2 else complexity;
      (c < 0xFFFF_FFFF ==> |r.geom.vertices| == c + 1 && |r.geom.liaisons| == c) &&
      (c == 0xFFFF_FFFF ==> |r.geom.vertices| == 0 && |r.geom.liaisons| == 0)
  {
    var c := if complexity < 2 then 2 else complexity;
    if c < 0xFFFF_FFFF {
      ModOfSmall(c + 1);
    }
  }
}
