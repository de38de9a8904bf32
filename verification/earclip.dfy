/** `Geom::polygon(points)` (src/Geom.cpp): with more than three points,
    the closed outline is built and then triangulated by ear clipping
    over a list of active vertex positions. The clipping loop is not
    guaranteed to end, so it is modelled with fuel and an outcome. */
module EarClipping {
  import opened ZMath
  import opened Vectors
  import Tf = Transforms
  import Tri = Triangles
  import opened Geoms
  import opened Shapes

  /** How a run of the clipping loop ended: the loop condition failed,
      or a whole scan found no ear (the source then repeats the same scan
      forever), or the fuel ran out first. */
  datatype Status = Finished | Stalled | OutOfFuel

  /** A run of the clipping loop: how it ended, the faces it added as
      triples of vertex positions, in order, and the active list left. */
  datatype ClipRun = ClipRun(status: Status, ears: seq<(nat, nat, nat)>, index: seq<nat>)

  /** What `polygon(points)` builds, with the outcome of its loop. */
  datatype Built = Built(status: Status, geom: Geom)

  /** `sum / abs(sum)`: the sign of a non-zero sum, or the NaN of 0 / 0,
      with which every comparison is false. */
  datatype Turning = Turning(sign: real) | NotANumber

  /** The active list: strictly increasing vertex positions below n. */
  predicate IncreasingBelow(idx: seq<nat>, n: nat)
  {
    (forall j :: 0 <= j < |idx| ==> idx[j] < n) &&
    (forall j, k :: 0 <= j < k < |idx| ==> idx[j] < idx[k])
  }

  /** The term of the orientation sum for the edge from p1 to p2. */
  function Cross2(p1: Vec, p2: Vec): real
  {
    p1.x * p2.y - p2.x * p1.y
  }

  /** The orientation loop from position k: the terms for the edges from
      vertex k on, the last edge closing back to vertex 0. */
  function Shoelace(vs: seq<Vec>, k: nat): real
    requires k <= |vs|
    decreases |vs| - k
  {
    if k == |vs| then 0.0 else Cross2(vs[k], vs[(k + 1) % |vs|]) + Shoelace(vs, k + 1)
  }

  /** `sum / abs(sum)`: plus or minus one with the sign of the sum, and
      NaN when the sum is zero. */
  function Orientation(sum: real): (o: Turning)
    ensures sum == 0.0 <==> o == NotANumber
    ensures o.Turning? ==> (o.sign == 1.0 || o.sign == -1.0) && (o.sign > 0.0 <==> sum > 0.0)
  {
    if sum == 0.0 then NotANumber
    else
      assert sum / sum == 1.0 && sum / -sum == -1.0;
      Turning(sum / Abs(sum))
  }

  /** `angle * orientation >= 0`: the turn goes the way of the outline.
      Any comparison with NaN is false. */
  predicate Agrees(turn: real, o: Turning)
  {
    o.Turning? && Product(turn, o.sign) >= 0.0
  }

  /** The positions in the active list of the three vertices of the
      candidate ear at i: the previous one (cyclically), i, and the next
      one (cyclically, `(i + 1) % size`, written without the modulo). */
  function Prev(size: nat, i: nat): nat
    requires i < size
  {
    if i == 0 then size - 1 else i - 1
  }

  function Next(size: nat, i: nat): nat
    requires i < size
  {
    if i + 1 == size then 0 else i + 1
  }

  /** A point other than the three corners that the triangle test
      accepts. */
  predicate Inside(a: Vec, b: Vec, c: Vec, p: Vec)
  {
    a != p && b != p && c != p && Tri.ContainsPoints(a, b, c, p)
  }

  /** The inner loop from k: whether some active vertex from position k
      on lies inside, stopping at the first one. */
  function Blocked(vs: seq<Vec>, idx: seq<nat>, a: Vec, b: Vec, c: Vec, k: nat): (r: bool)
    requires k <= |idx|
    ensures r <==> exists j :: k <= j < |idx| && Inside(a, b, c, PointAt(vs, idx[j]))
    decreases |idx| - k
  {
    if k == |idx| then false
    else if Inside(a, b, c, PointAt(vs, idx[k])) then true
    else Blocked(vs, idx, a, b, c, k + 1)
  }

  /** The face of the candidate ear at position i: the previous, the
      middle and the next active vertex. */
  function Ear(idx: seq<nat>, i: nat): (nat, nat, nat)
    requires i < |idx|
  {
    (idx[Prev(|idx|, i)], idx[i], idx[Next(|idx|, i)])
  }

  /** The ear test at position i: the turn at the middle vertex agrees
      with the orientation (through the angle oracle), and no other
      active vertex lies inside the triangle. */
  predicate IsEar(vs: seq<Vec>, idx: seq<nat>, i: nat, o: Turning, angle: AngleOracle)
    requires i < |idx|
  {
    var e := Ear(idx, i);
    var a := PointAt(vs, e.0);
    var b := PointAt(vs, e.1);
    var c := PointAt(vs, e.2);
    Agrees(angle(Minus(b, a), Minus(c, b)), o) && !Blocked(vs, idx, a, b, c, 0)
  }

  /** The scan `for (i = 0; i < size; i++)` from i: the first ear, or
      the size when there is none. */
  function FindEar(vs: seq<Vec>, idx: seq<nat>, i: nat, o: Turning, angle: AngleOracle): (r: nat)
    requires i <= |idx|
    ensures i <= r <= |idx|
    ensures r < |idx| ==> IsEar(vs, idx, r, o, angle)
    decreases |idx| - i
  {
    if i == |idx| then i
    else if IsEar(vs, idx, i, o, angle) then i
    else FindEar(vs, idx, i + 1, o, angle)
  }

  /** The scan returns the first ear: no position it passed is one. */
  lemma {:induction false} FindEarFirst(vs: seq<Vec>, idx: seq<nat>, i: nat, o: Turning, angle: AngleOracle)
    requires i <= |idx|
    ensures forall j :: i <= j < FindEar(vs, idx, i, o, angle) ==> !IsEar(vs, idx, j, o, angle)
    decreases |idx| - i
  {
    if i < |idx| && !IsEar(vs, idx, i, o, angle) {
      FindEarFirst(vs, idx, i + 1, o, angle);
    }
  }

  /** `index.erase(index.begin() + i)`. */
  function Erase(idx: seq<nat>, i: nat): (r: seq<nat>)
    requires i < |idx|
    ensures |r| == |idx| - 1
    ensures forall j :: 0 <= j < |r| ==> r[j] == if j < i then idx[j] else idx[j + 1]
  {
    idx[..i] + idx[i + 1..]
  }

  /** Erasing keeps the list increasing and below n, and removes exactly
      the entry at i. */
  lemma EraseKeepsIncreasing(idx: seq<nat>, i: nat, n: nat)
    requires i < |idx|
    ensures IncreasingBelow(idx, n) ==> IncreasingBelow(Erase(idx, i), n)
    ensures IncreasingBelow(idx, n) ==> forall x :: x in Erase(idx, i) <==> x in idx && x != idx[i]
  {
    var r := Erase(idx, i);
    if !IncreasingBelow(idx, n) {
      return;
    }
    forall x | x in idx && x != idx[i]
      ensures x in r
    {
      var j :| 0 <= j < |idx| && idx[j] == x;
      if j < i {
        assert r[j] == x;
      } else {
        assert j > i;
        assert r[j - 1] == x;
      }
    }
  }

  /** The clipping loop `while (size > 1)`, each round one scan. A round
      that finds an ear at i adds its face and erases the middle vertex
      from the active list. The scans read only the vertices and the
      active list, never the faces, so the faces are collected here and
      added to the geom afterwards, in the same order.

      Each round turns one active entry into one face; the list stays
      increasing and below the vertex count and only loses entries; every
      face is over entries of the list; a stalled run stops where no
      position is an ear; fuel for |idx| - 1 rounds is enough; and since
      the loop runs while more than one entry is active, its last round
      works on two, whose previous and next vertex are the same, so the
      last face repeats a vertex. */
  function Clip(vs: seq<Vec>, idx: seq<nat>, o: Turning, angle: AngleOracle, fuel: nat): (r: ClipRun)
    ensures |r.ears| + |r.index| == |idx|
    ensures |idx| <= 1 ==> r.ears == []
    ensures |idx| > 0 ==> |r.index| > 0
    ensures r.status == Finished <==> |r.index| <= 1
    ensures IncreasingBelow(idx, |vs|) ==> IncreasingBelow(r.index, |vs|)
    ensures forall x :: x in r.index ==> x in idx
    ensures EarsOver(r.ears, idx)
    ensures r.status == Stalled ==>
      |r.index| > 1 && forall i :: 0 <= i < |r.index| ==> !IsEar(vs, r.index, i, o, angle)
    ensures fuel + 1 >= |idx| ==> r.status != OutOfFuel
    ensures |idx| >= 2 && r.status == Finished ==> LastFaceRepeats(r.ears)
    decreases fuel
  {
    if |idx| <= 1 then ClipRun(Finished, [], idx)
    else if fuel == 0 then ClipRun(OutOfFuel, [], idx)
    else
      var i := FindEar(vs, idx, 0, o, angle);
      if i == |idx| then
        FindEarFirst(vs, idx, 0, o, angle);
        ClipRun(Stalled, [], idx)
      else
        var rest := Erase(idx, i);
        EraseKeepsIncreasing(idx, i, |vs|);
        assert forall x :: x in rest ==> x in idx;
        var r := Clip(vs, rest, o, angle, fuel - 1);
        var ears := [Ear(idx, i)] + r.ears;
        EarsActiveStep(idx, i, r.ears);
        if |idx| == 2 then
          assert Prev(2, i) == Next(2, i);
          assert ears == [Ear(idx, i)];
          ClipRun(r.status, ears, r.index)
        else if r.status == Finished then
          LastFaceRepeatsCons(Ear(idx, i), r.ears);
          ClipRun(r.status, ears, r.index)
        else
          ClipRun(r.status, ears, r.index)
  }

  /** The last face repeats a vertex: its first and last entries are the
      same. */
  predicate LastFaceRepeats(ears: seq<(nat, nat, nat)>)
  {
    |ears| > 0 && ears[|ears| - 1].0 == ears[|ears| - 1].2
  }

  lemma LastFaceRepeatsCons(x: (nat, nat, nat), ears: seq<(nat, nat, nat)>)
    requires LastFaceRepeats(ears)
    ensures LastFaceRepeats([x] + ears)
  {
    assert ([x] + ears)[|ears|] == ears[|ears| - 1];
  }

  /** One round on a list of more than one entry: the first face is the
      ear found at i, and the run goes on from the list without its
      middle vertex. */
  lemma ClipRound(vs: seq<Vec>, idx: seq<nat>, o: Turning, angle: AngleOracle, fuel: nat)
    requires |idx| > 1 && fuel > 0
    ensures var i := FindEar(vs, idx, 0, o, angle);
      var r := Clip(vs, idx, o, angle, fuel);
      i < |idx| ==>
        (var rest := Clip(vs, Erase(idx, i), o, angle, fuel - 1);
         IsEar(vs, idx, i, o, angle) && r.ears == [Ear(idx, i)] + rest.ears &&
         r.status == rest.status && r.index == rest.index)
  {
  }

  /** Every face is over entries of the active list. */
  predicate EarsOver(ears: seq<(nat, nat, nat)>, idx: seq<nat>)
  {
    forall k :: 0 <= k < |ears| ==> ears[k].0 in idx && ears[k].1 in idx && ears[k].2 in idx
  }

  /** The step of the face property: the ear is over active vertices,
      and the entries of the shorter list are entries of the longer
      one. */
  lemma EarsActiveStep(idx: seq<nat>, i: nat, ears: seq<(nat, nat, nat)>)
    requires i < |idx|
    requires EarsOver(ears, Erase(idx, i))
    ensures EarsOver([Ear(idx, i)] + ears, idx)
  {
    var rest := Erase(idx, i);
    assert forall x :: x in rest ==> x in idx;
    var all := [Ear(idx, i)] + ears;
    forall k | 0 <= k < |all|
      ensures all[k].0 in idx && all[k].1 in idx && all[k].2 in idx
    {
      if k > 0 {
        assert all[k] == ears[k - 1];
      }
    }
  }

  /** With a zero orientation sum no turn test passes, so the first scan
      finds no ear and the source loops forever. */
  lemma ZeroSumStalls(vs: seq<Vec>, idx: seq<nat>, angle: AngleOracle, fuel: nat)
    requires |idx| > 1 && fuel > 0
    ensures Clip(vs, idx, NotANumber, angle, fuel).status == Stalled
  {
    NoEarWithoutOrientation(vs, idx, 0, angle);
  }

  /** With NaN for the orientation the scan passes every position. */
  lemma {:induction false} NoEarWithoutOrientation(vs: seq<Vec>, idx: seq<nat>, i: nat, angle: AngleOracle)
    requires i <= |idx|
    ensures FindEar(vs, idx, i, NotANumber, angle) == |idx|
    decreases |idx| - i
  {
    if i < |idx| {
      assert !IsEar(vs, idx, i, NotANumber, angle);
      NoEarWithoutOrientation(vs, idx, i + 1, angle);
    }
  }

  /** The face loop: one `addFace` per triple, in order. */
  function FillAll(g: Geom, ears: seq<(nat, nat, nat)>): (r: Geom)
    ensures r.vertices == g.vertices && r.liaisons == g.liaisons && r.tf == g.tf
    ensures FaceRefs(r.faces) == FaceRefs(g.faces) + ears
    ensures (Valid(g) && forall k :: 0 <= k < |ears| ==>
               ears[k].0 < |g.vertices| && ears[k].1 < |g.vertices| && ears[k].2 < |g.vertices|) ==> Valid(r)
    decreases |ears|
  {
    if |ears| == 0 then g
    else
      var r := FillAll(Fill(g, ears[0].0, ears[0].1, ears[0].2), ears[1..]);
      assert FaceRefs(g.faces) + [ears[0]] + ears[1..] == FaceRefs(g.faces) + ears;
      r
  }

  /** The vertex loop of `polygon(points)`: one `addVertex` per point. */
  function PutAll(g: Geom, ps: seq<Vec>): (r: Geom)
    ensures r.vertices == g.vertices + ps && r.liaisons == g.liaisons && r.faces == g.faces && r.tf == g.tf
    ensures Valid(g) ==> Valid(r)
    decreases |ps|
  {
    if |ps| == 0 then g
    else
      var r := PutAll(Put(g, ps[0]), ps[1..]);
      assert g.vertices + [ps[0]] + ps[1..] == g.vertices + ps;
      r
  }

  /** The closed outline over n vertices: vertex k to vertex k + 1, and
      the last one back to vertex 0. */
  function Ring(n: nat): (r: seq<(nat, nat)>)
    ensures |r| == n
    ensures forall k :: 0 <= k < n ==> r[k] == (k, if k + 1 == n then 0 else k + 1)
  {
    seq(n, k requires 0 <= k < n => (k, if k + 1 == n then 0 else k + 1))
  }

  /** The liaison loop of `polygon(points)` from k on. */
  function LinkRing(g: Geom, k: nat, n: nat): (r: Geom)
    requires k <= n && n <= |g.vertices|
    requires LiaisonRefs(g.liaisons) == Ring(n)[..k]
    ensures r.vertices == g.vertices && r.faces == g.faces && r.tf == g.tf
    ensures LiaisonRefs(r.liaisons) == Ring(n)
    ensures Valid(g) ==> Valid(r)
    decreases n - k
  {
    if k == n then
      assert Ring(n)[..k] == Ring(n);
      g
    else
      var next := Link(g, k, if k < n - 1 then k + 1 else 0);
      RingPrefix(n, k);
      LinkRing(next, k + 1, n)
  }

  lemma RingPrefix(n: nat, k: nat)
    requires k < n
    ensures Ring(n)[..k + 1] == Ring(n)[..k] + [(k, if k < n - 1 then k + 1 else 0)]
  {
    assert Ring(n)[..k + 1][k] == Ring(n)[k];
  }

  /** The identity list 0, 1, …, n - 1 the source pushes in the same
      loop. */
  function Identity(n: nat): (r: seq<nat>)
    ensures |r| == n && IncreasingBelow(r, n)
  {
    seq(n, k requires 0 <= k < n => k)
  }

  /** The branch of `polygon(points)` for more than three points: the
      points as vertices, the closed outline, and the faces of the
      clipping run, with the orientation from the sum over the
      outline. */
  function ClipPolygon(points: seq<Vec>, angle: AngleOracle, fuel: nat): (r: Built)
    requires |points| > 3
    ensures r.geom.vertices == points && LiaisonRefs(r.geom.liaisons) == Ring(|points|)
    ensures var run := Clip(points, Identity(|points|), Orientation(Shoelace(points, 0)), angle, fuel);
      r.status == run.status && FaceRefs(r.geom.faces) == run.ears
    ensures r.status == Finished ==> |r.geom.faces| == |points| - 1
    ensures fuel + 1 >= |points| ==> r.status != OutOfFuel
    ensures Valid(r.geom)
  {
    var n := |points|;
    var outline := Outline(points);
    var run := Clip(points, Identity(n), Orientation(Shoelace(points, 0)), angle, fuel);
    EarsInRange(run.ears, Identity(n), n);
    var built := FillAll(outline, run.ears);
    assert |built.faces| == |FaceRefs(built.faces)| == |run.ears|;
    Built(run.status, built)
  }

  /** The vertex and liaison loops of `polygon(points)`: the points in
      order, each joined to the next and the last to the first. */
  function Outline(points: seq<Vec>): (g: Geom)
    ensures g.vertices == points && LiaisonRefs(g.liaisons) == Ring(|points|) && g.faces == []
    ensures Valid(g)
  {
    EmptyGeomValid();
    var withVertices := PutAll(EmptyGeom(), points);
    assert Ring(|points|)[..0] == [];
    LinkRing(withVertices, 0, |points|)
  }

  /** Faces over entries of the identity list stay below n. */
  lemma EarsInRange(ears: seq<(nat, nat, nat)>, idx: seq<nat>, n: nat)
    requires idx == Identity(n)
    requires EarsOver(ears, idx)
    ensures forall k :: 0 <= k < |ears| ==> ears[k].0 < n && ears[k].1 < n && ears[k].2 < n
  {
  }

  /** Assigning a shape built on a fresh transformable to a new geom
      copies it: both matrices are the identity, so every vertex comes
      back unchanged, and with no vertex before it the references are
      not shifted. */
  lemma AssignOntoEmpty(shape: Geom, trig: Tf.TrigOracle)
    requires Valid(shape) && shape.tf == EmptyGeom().tf
    ensures Valid(Assign(EmptyGeom(), shape, trig))
    ensures Assign(EmptyGeom(), shape, trig).vertices == shape.vertices
    ensures LiaisonRefs(Assign(EmptyGeom(), shape, trig).liaisons) == LiaisonRefs(shape.liaisons)
    ensures FaceRefs(Assign(EmptyGeom(), shape, trig).faces) == FaceRefs(shape.faces)
  {
    AssignOntoEmptyVertices(shape, trig);
    AssignOntoEmptyRefs(shape, trig);
  }

  lemma AssignOntoEmptyVertices(shape: Geom, trig: Tf.TrigOracle)
    requires Valid(shape) && shape.tf == EmptyGeom().tf
    ensures Valid(Assign(EmptyGeom(), shape, trig))
    ensures Assign(EmptyGeom(), shape, trig).vertices == shape.vertices
  {
    EmptyGeomValid();
    var start := Clear(EmptyGeom().(tf := shape.tf));
    AddKeepsValid(start, shape, trig);
    var r := Add(start, shape, trig);
    forall i | 0 <= i < |shape.vertices|
      ensures r.vertices[i] == shape.vertices[i]
    {
      Tf.ApplyIdentity(shape.vertices[i]);
    }
  }

  lemma AssignOntoEmptyRefs(shape: Geom, trig: Tf.TrigOracle)
    requires Valid(shape) && shape.tf == EmptyGeom().tf
    ensures LiaisonRefs(Assign(EmptyGeom(), shape, trig).liaisons) == LiaisonRefs(shape.liaisons)
    ensures FaceRefs(Assign(EmptyGeom(), shape, trig).faces) == FaceRefs(shape.faces)
  {
  }

  /** A triangle assigned to a new geom: `*this = triangle(...)`. */
  function AssignedTriangle(a: Vec, b: Vec, c: Vec, trig: Tf.TrigOracle): (g: Geom)
    ensures g.vertices == [a, b, c] && Valid(g)
    ensures FaceRefs(g.faces) == [(0, 1, 2)] && LiaisonRefs(g.liaisons) == [(0, 1), (1, 2), (2, 0)]
  {
    var shape := Triangle(a, b, c);
    AssignOntoEmpty(shape, trig);
    Assign(EmptyGeom(), shape, trig)
  }

  /** A segment assigned to a new geom: `*this = segment(...)`. */
  function AssignedSegment(a: Vec, b: Vec, trig: Tf.TrigOracle): (g: Geom)
    ensures g.vertices == [a, b] && Valid(g)
    ensures LiaisonRefs(g.liaisons) == [(0, 1)] && g.faces == []
  {
    var shape := Segment(a, b);
    AssignOntoEmpty(shape, trig);
    Assign(EmptyGeom(), shape, trig)
  }

  /** `polygon(points)`. With more than three points, the clipped
      outline; with three or two points a triangle or a segment is
      assigned to the new geom; with fewer, the empty geom. The source
      returns nothing on the first branch; the model returns the geom it
      built. */
  function PolygonOf(points: seq<Vec>, angle: AngleOracle, fuel: nat, trig: Tf.TrigOracle): (r: Built)
    ensures |points| > 3 ==> r == ClipPolygon(points, angle, fuel)
    ensures |points| <= 3 ==> r.status == Finished
    ensures |points| == 3 ==> (r.geom.vertices == points && FaceRefs(r.geom.faces) == [(0, 1, 2)] &&
                               LiaisonRefs(r.geom.liaisons) == [(0, 1), (1, 2), (2, 0)])
    ensures |points| == 2 ==> r.geom.vertices == points && LiaisonRefs(r.geom.liaisons) == [(0, 1)] && r.geom.faces == []
    ensures |points| < 2 ==> r.geom == EmptyGeom()
    ensures Valid(r.geom)
  {
    if |points| > 3 then ClipPolygon(points, angle, fuel)
    else if |points| == 3 then
      assert points == [points[0], points[1], points[2]];
      Built(Finished, AssignedTriangle(points[0], points[1], points[2], trig))
    else if |points| == 2 then
      assert points == [points[0], points[1]];
      Built(Finished, AssignedSegment(points[0], points[1], trig))
    else
      EmptyGeomValid();
      Built(Finished, EmptyGeom())
  }
}
