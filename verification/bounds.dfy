/** The bounding boxes of a `Geom` (src/Geom.cpp, `computeLocalBounds`,
    `computeGlobalBounds`, `getLocalBounds`, `getGlobalBounds`): the box
    of the vertices in local coordinates and of their images in global
    coordinates, each cached under its own flag. */
module GeomBounds {
  import opened ZMath
  import opened Vectors
  import Tf = Transforms
  import Tb = Transformables
  import opened Rects
  import opened Geoms

  /** The running minimum and maximum of the compute loop, which starts
      from the first point and folds in the others in order. */
  function MinMax(ps: seq<Vec>): (r: (Vec, Vec))
    requires |ps| > 0
    ensures forall i :: 0 <= i < |ps| ==> r.0.x <= ps[i].x <= r.1.x && r.0.y <= ps[i].y <= r.1.y
    ensures exists i :: 0 <= i < |ps| && ps[i].x == r.0.x
    ensures exists i :: 0 <= i < |ps| && ps[i].y == r.0.y
    ensures exists i :: 0 <= i < |ps| && ps[i].x == r.1.x
    ensures exists i :: 0 <= i < |ps| && ps[i].y == r.1.y
    decreases |ps|
  {
    if |ps| == 1 then (ps[0], ps[0])
    else
      var front := ps[..|ps| - 1];
      var m := MinMax(front);
      var c := ps[|ps| - 1];
      assert forall i :: 0 <= i < |front| ==> ps[i] == front[i];
      (Vec(Min(c.x, m.0.x), Min(c.y, m.0.y)), Vec(Max(c.x, m.1.x), Max(c.y, m.1.y)))
  }

  /** One size component: max - min, with 0 replaced by 1. */
  function Extent(low: real, high: real): real
  {
    if high - low == 0.0 then 1.0 else high - low
  }

  /** `computeLocalBounds` / `computeGlobalBounds` on a list of points: the
      box from the smallest to the largest coordinates, a zero size
      component replaced by 1. With no points the loop never runs and
      both corners keep their default value (0, 0). The size is written
      directly, not through the `Rect` constructor. */
  function BoundsOf(ps: seq<Vec>): (r: Rect)
    ensures r.size.x > 0.0 && r.size.y > 0.0
    ensures |ps| == 0 ==> r == Rect(Zero, Vec(1.0, 1.0))
    ensures forall i :: 0 <= i < |ps| ==>
      r.pos.x <= ps[i].x <= r.pos.x + r.size.x && r.pos.y <= ps[i].y <= r.pos.y + r.size.y
    ensures |ps| > 0 ==> (exists i :: 0 <= i < |ps| && ps[i].x == r.pos.x) && (exists i :: 0 <= i < |ps| && ps[i].y == r.pos.y)
  {
    var m := if |ps| == 0 then (Zero, Zero) else MinMax(ps);
    Rect(m.0, Vec(Extent(m.0.x, m.1.x), Extent(m.0.y, m.1.y)))
  }

  /** The box is tight: unless all points share their x (or y), some point
      lies on the far side of the box. */
  lemma BoundsTight(ps: seq<Vec>, i: nat, j: nat)
    requires i < |ps| && j < |ps|
    ensures ps[i].x != ps[j].x ==> exists k :: 0 <= k < |ps| && ps[k].x == BoundsOf(ps).pos.x + BoundsOf(ps).size.x
    ensures ps[i].y != ps[j].y ==> exists k :: 0 <= k < |ps| && ps[k].y == BoundsOf(ps).pos.y + BoundsOf(ps).size.y
    ensures (forall k :: 0 <= k < |ps| ==> ps[k].x == ps[i].x) ==> BoundsOf(ps).size.x == 1.0
  {
    var m := MinMax(ps);
    if ps[i].x != ps[j].x {
      assert m.1.x - m.0.x != 0.0;
      assert BoundsOf(ps).pos.x + BoundsOf(ps).size.x == m.1.x;
    }
    if ps[i].y != ps[j].y {
      assert m.1.y - m.0.y != 0.0;
      assert BoundsOf(ps).pos.y + BoundsOf(ps).size.y == m.1.y;
    }
    if forall k :: 0 <= k < |ps| ==> ps[k].x == ps[i].x {
      var a :| 0 <= a < |ps| && ps[a].x == m.0.x;
      var b :| 0 <= b < |ps| && ps[b].x == m.1.x;
      assert m.1.x - m.0.x == 0.0;
    }
  }

  /** Every point lies in its closed box, but the half-open
      `Rect::contains` rejects the points on the far side: as soon as two
      points differ in x, one of them is outside the box by that test. */
  lemma FarVertexNotContained(ps: seq<Vec>, i: nat, j: nat)
    requires i < |ps| && j < |ps| && ps[i].x != ps[j].x
    ensures exists k :: 0 <= k < |ps| && !Rects.Contains(BoundsOf(ps), ps[k])
  {
    BoundsTight(ps, i, j);
  }

  /** `getLocalBounds()`: recomputed only when stale, then cached. */
  function GetLocalBounds(g: Geom): (r: (Geom, Rect))
    ensures r.0.localFresh && r.0.localBounds == r.1
    ensures g.localFresh ==> r == (g, g.localBounds)
    ensures !g.localFresh ==> r.1 == BoundsOf(g.vertices)
    ensures r.0 == g.(localBounds := r.1, localFresh := true)
  {
    if g.localFresh then (g, g.localBounds)
    else
      var b := BoundsOf(g.vertices);
      (g.(localBounds := b, localFresh := true), b)
  }

  /** The vertices in global coordinates, through the matrix
      `convertToGlobal` uses. */
  function GlobalPoints(g: Geom, trig: Tf.TrigOracle): (r: seq<Vec>)
    ensures |r| == |g.vertices|
    ensures forall i :: 0 <= i < |r| ==> r[i] == Tf.Apply(Tb.CurrentTransform(g.tf, trig), g.vertices[i])
  {
    seq(|g.vertices|, i requires 0 <= i < |g.vertices| => Tf.Apply(Tb.CurrentTransform(g.tf, trig), g.vertices[i]))
  }

  /** `getGlobalBounds()`: recomputed only when stale, each vertex going
      through `convertToGlobal`, which refreshes the forward matrix. */
  function GetGlobalBounds(g: Geom, trig: Tf.TrigOracle): (r: (Geom, Rect))
    ensures r.0.globalFresh && r.0.globalBounds == r.1
    ensures g.globalFresh ==> r == (g, g.globalBounds)
    ensures !g.globalFresh ==> r.1 == BoundsOf(GlobalPoints(g, trig))
    ensures r.0.vertices == g.vertices && r.0.liaisons == g.liaisons && r.0.faces == g.faces
    ensures r.0.localFresh == g.localFresh && r.0.localBounds == g.localBounds
    ensures Tb.CurrentTransform(r.0.tf, trig) == Tb.CurrentTransform(g.tf, trig)
  {
    if g.globalFresh then (g, g.globalBounds)
    else
      var tf := if |g.vertices| == 0 then g.tf else Tb.GetTransform(g.tf, trig).0;
      var b := BoundsOf(GlobalPoints(g, trig));
      (g.(tf := tf, globalBounds := b, globalFresh := true), b)
  }

  /** A second call returns the same box and changes nothing. */
  lemma BoundsGettersIdempotent(g: Geom, trig: Tf.TrigOracle)
    ensures GetLocalBounds(GetLocalBounds(g).0) == (GetLocalBounds(g).0, GetLocalBounds(g).1)
    ensures GetGlobalBounds(GetGlobalBounds(g, trig).0, trig) ==
      (GetGlobalBounds(g, trig).0, GetGlobalBounds(g, trig).1)
  {
  }

  /** The local cache is right whenever its flag says so. */
  predicate LocalBoundsCoherent(g: Geom)
  {
    g.localFresh ==> g.localBounds == BoundsOf(g.vertices)
  }

  /** In a coherent geom `getLocalBounds` is the box of the vertices,
      whatever the flag. */
  lemma LocalBoundsCorrect(g: Geom)
    requires LocalBoundsCoherent(g)
    ensures GetLocalBounds(g).1 == BoundsOf(g.vertices)
    ensures LocalBoundsCoherent(GetLocalBounds(g).0)
  {
  }

  /** Every operation keeps the local cache coherent: the ones that change
      the vertex list or a vertex clear the flag, the others leave the
      vertices alone. */
  lemma OperationsKeepLocalBounds(g: Geom, c: Vec, v: nat, a: nat, b: nat, d: nat, l: Liaison, f: Face,
                                  trig: Tf.TrigOracle)
    requires LocalBoundsCoherent(g)
    ensures LocalBoundsCoherent(EmptyGeom())
    ensures LocalBoundsCoherent(AddVertex(g, c).0)
    ensures LocalBoundsCoherent(AddLiaison(g, a, b).0) && LocalBoundsCoherent(AddFace(g, a, b, d).0)
    ensures LocalBoundsCoherent(RemoveVertex(g, v))
    ensures LocalBoundsCoherent(RemoveLiaison(g, l)) && LocalBoundsCoherent(RemoveFace(g, f))
    ensures LocalBoundsCoherent(Clear(g))
    ensures v < |g.vertices| ==> LocalBoundsCoherent(SetCoords(g, v, c))
    ensures LocalBoundsCoherent(OnTransformUpdated(g))
    ensures LocalBoundsCoherent(GetGlobalBounds(g, trig).0)
  {
  }

  /** `add` leaves the local cache stale, hence coherent. */
  lemma AddKeepsLocalBounds(g: Geom, other: Geom, trig: Tf.TrigOracle)
    requires Valid(other) && (|other.vertices| == 0 || CanLocalize(g.tf, trig))
    ensures LocalBoundsCoherent(Add(g, other, trig))
  {
  }

  /** The global cache is not kept in step. `clear` leaves its flag alone,
      so a geom with no vertex can keep reporting the box of the vertices
      it had, and the transformable's setters never call
      `onTransformUpdated`, so moving a geom leaves its cached global box
      where it was. */
  lemma GlobalBoundsGoStale(g: Geom, trig: Tf.TrigOracle, p: Vec)
    requires g.globalFresh
    ensures GetGlobalBounds(Clear(g), trig).1 == g.globalBounds
    ensures Clear(g).vertices == []
    ensures GetGlobalBounds(g.(tf := Tb.SetPosition(g.tf, p)), trig).1 == g.globalBounds
  {
  }

  /** After `clear` on a geom with a cached global box of a point not at
      the origin, the reported box is not the box of the (now empty)
      vertex list. */
  lemma ClearKeepsStaleGlobalBounds(g: Geom, trig: Tf.TrigOracle)
    requires g.globalFresh && g.globalBounds.pos != Zero
    ensures GetGlobalBounds(Clear(g), trig).1 != BoundsOf(GlobalPoints(Clear(g), trig))
  {
  }

  /** `onTransformUpdated` is what keeps the global cache right: after it,
      the next `getGlobalBounds` is the box of the current global images. */
  lemma TransformUpdateRefreshes(g: Geom, trig: Tf.TrigOracle)
    ensures GetGlobalBounds(OnTransformUpdated(g), trig).1 == BoundsOf(GlobalPoints(g, trig))
  {
  }
}
