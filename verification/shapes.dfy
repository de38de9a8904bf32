/** The shape factories of `Geom` (src/Geom.cpp `segment` to
    `polygon(width, complexity)`): each one builds a new geom through
    `addVertex`, `addLiaison` and `addFace`, so the counts, the vertex
    positions each liaison and face refers to, and the validity of the
    result all follow from the order of those calls. */
module Shapes {
  import opened ZMath
  import opened Vectors
  import Tf = Transforms
  import Tb = Transformables
  import opened Rects
  import opened Geoms
  import opened GeomBounds

  /** One `addLiaison`, seen through the vertex positions: one pair more
      at the end, and validity kept when both ends exist. */
  function Link(g: Geom, a: nat, b: nat): (r: Geom)
    ensures r.vertices == g.vertices && r.faces == g.faces && r.tf == g.tf
    ensures LiaisonRefs(r.liaisons) == LiaisonRefs(g.liaisons) + [(a, b)]
    ensures Valid(g) && a < |g.vertices| && b < |g.vertices| ==> Valid(r)
  {
    var r := AddLiaison(g, a, b).0;
    LiaisonRefsAppend(g.liaisons, Liaison(g.nextId, a, b));
    if Valid(g) && a < |g.vertices| && b < |g.vertices| then
      AddLiaisonKeepsValid(g, a, b);
      r
    else r
  }

  /** One `addFace`, seen through the vertex positions. */
  function Fill(g: Geom, a: nat, b: nat, c: nat): (r: Geom)
    ensures r.vertices == g.vertices && r.liaisons == g.liaisons && r.tf == g.tf
    ensures r.faces == g.faces + [Face(g.nextId, a, b, c)]
    ensures FaceRefs(r.faces) == FaceRefs(g.faces) + [(a, b, c)]
    ensures Valid(g) && a < |g.vertices| && b < |g.vertices| && c < |g.vertices| ==> Valid(r)
  {
    var r := AddFace(g, a, b, c).0;
    FaceRefsAppend(g.faces, Face(g.nextId, a, b, c));
    if Valid(g) && a < |g.vertices| && b < |g.vertices| && c < |g.vertices| then
      AddFaceKeepsValid(g, a, b, c);
      r
    else r
  }

  /** One `addVertex`: the point goes at the end, validity is kept. */
  function Put(g: Geom, p: Vec): (r: Geom)
    ensures r.vertices == g.vertices + [p] && r.liaisons == g.liaisons && r.faces == g.faces && r.tf == g.tf
    ensures Valid(g) ==> Valid(r)
  {
    AddVertex(g, p).0
  }

  /** `segment(coords1, coords2)`: two vertices and the liaison between
      them. */
  function Segment(c1: Vec, c2: Vec): (g: Geom)
    ensures g.vertices == [c1, c2]
    ensures LiaisonRefs(g.liaisons) == [(0, 1)] && g.faces == []
    ensures Valid(g) && g.tf == EmptyGeom().tf
  {
    EmptyGeomValid();
    var g2 := Put(Put(EmptyGeom(), c1), c2);
    Link(g2, 0, 1)
  }

  /** `triangle(coords1, coords2, coords3)`: three vertices, the closed
      outline, and one face in the order given. */
  function Triangle(c1: Vec, c2: Vec, c3: Vec): (g: Geom)
    ensures g.vertices == [c1, c2, c3]
    ensures LiaisonRefs(g.liaisons) == [(0, 1), (1, 2), (2, 0)]
    ensures FaceRefs(g.faces) == [(0, 1, 2)]
    ensures Valid(g) && g.tf == EmptyGeom().tf
  {
    EmptyGeomValid();
    var g3 := Put(Put(Put(EmptyGeom(), c1), c2), c3);
    Fill(Link(Link(Link(g3, 0, 1), 1, 2), 2, 0), 0, 1, 2)
  }

  /** `quad(coords1, …, coords4)`: four vertices, the closed outline, and
      two faces splitting along the diagonal from the third vertex to the
      first. */
  function Quad(c1: Vec, c2: Vec, c3: Vec, c4: Vec): (g: Geom)
    ensures g.vertices == [c1, c2, c3, c4]
    ensures LiaisonRefs(g.liaisons) == [(0, 1), (1, 2), (2, 3), (3, 0)]
    ensures FaceRefs(g.faces) == [(0, 1, 2), (2, 3, 0)]
    ensures Valid(g)
    ensures g.tf == EmptyGeom().tf
  {
    EmptyGeomValid();
    var g4 := Put(Put(Put(Put(EmptyGeom(), c1), c2), c3), c4);
    var outline := Link(Link(Link(Link(g4, 0, 1), 1, 2), 2, 3), 3, 0);
    Fill(Fill(outline, 0, 1, 2), 2, 3, 0)
  }

  /** `rectangle(size)`: the quad (0, 0), (w, 0), (w, h), (0, h). */
  function Rectangle(size: Vec): (g: Geom)
    ensures g.vertices == [Zero, Vec(size.x, 0.0), size, Vec(0.0, size.y)]
    ensures |g.liaisons| == 4 && |g.faces| == 2 && Valid(g)
    ensures g.tf == EmptyGeom().tf
  {
    Quad(Zero, Vec(size.x, 0.0), Vec(size.x, size.y), Vec(0.0, size.y))
  }

  /** The local box of a rectangle of positive size is the rectangle
      itself. */
  lemma RectangleBounds(size: Vec)
    requires size.x > 0.0 && size.y > 0.0
    ensures BoundsOf(Rectangle(size).vertices) == Rect(Zero, size)
  {
    var vs := Rectangle(size).vertices;
    assert vs[..1] == [Zero];
    assert vs[..2][..1] == vs[..1];
    assert vs[..3][..2] == vs[..2];
    assert vs[..4][..3] == vs[..3];
    assert vs[..4] == vs;
    assert MinMax(vs[..1]) == (Zero, Zero);
    assert MinMax(vs[..2]) == (Zero, Vec(size.x, 0.0));
    assert MinMax(vs[..3]) == (Zero, size);
    assert MinMax(vs) == (Zero, size);
  }

  /** `rectangle(rect)`: the rectangle of that size, with the geom's
      position set to the rectangle's corner. */
  function RectangleAt(rect: Rect): (g: Geom)
    ensures g.vertices == Rectangle(rect.size).vertices
    ensures |g.liaisons| == 4 && |g.faces| == 2 && Valid(g)
    ensures g.tf.position == rect.pos && !g.tf.transformFresh
  {
    var g := Rectangle(rect.size);
    g.(tf := Tb.SetPosition(g.tf, rect.pos))
  }

  /** When the angle oracle maps 0 to cosine 1 and sine 0, the corners of
      `rectangle(rect)` are those of the rectangle in global coordinates. */
  lemma RectangleAtPlaced(rect: Rect, trig: Tf.TrigOracle, i: nat)
    requires trig(0.0) == Tf.CosSin(1.0, 0.0)
    requires i < 4
    ensures Tf.Apply(Tb.CurrentTransform(RectangleAt(rect).tf, trig), RectangleAt(rect).vertices[i])
         == Plus(rect.pos, Rectangle(rect.size).vertices[i])
  {
    var g := RectangleAt(rect);
    assert g.tf == Tb.SetPosition(EmptyGeom().tf, rect.pos);
    PlacedShift(rect.pos, trig, g.vertices[i]);
  }

  /** A default transformable moved to pos shifts every point by pos. */
  lemma PlacedShift(pos: Vec, trig: Tf.TrigOracle, p: Vec)
    requires trig(0.0) == Tf.CosSin(1.0, 0.0)
    ensures Tf.Apply(Tb.CurrentTransform(Tb.SetPosition(EmptyGeom().tf, pos), trig), p) == Plus(pos, p)
  {
    var t := Tb.SetPosition(EmptyGeom().tf, pos);
    assert t.rotation == 0.0 && t.scale == Vec(1.0, 1.0) && t.origin == Zero && !t.transformFresh;
    Tb.BuiltApplies(t, trig, p);
    assert Tf.Rotation(trig(t.rotation), t.origin) == Tf.Identity;
    assert Tf.Scaling(t.scale.x, t.scale.y, t.origin) == Tf.Identity;
    Tf.ApplyIdentity(p);
  }

  /** `rectangle(point1, point2, width)`: a quad around the segment from
      point1 to point2, each end pushed `width` to either side along the
      angle `atan` gives plus 90 and 270 degrees. The arc tangent of the
      slope and `toRads` are oracles (`atan` takes the rise and the run,
      so a vertical segment is the oracle's business); the width is an
      unsigned integer. */
  function RectangleAlong(point1: Vec, point2: Vec, width: Uint32, atan: (real, real) -> real,
                          rads: real -> real, trig: Tf.TrigOracle): (g: Geom)
    ensures var angle := atan(point2.y - point1.y, point2.x - point1.x);
      var up := trig(angle + rads(90.0));
      var down := trig(angle + rads(270.0));
      g.vertices == [Pushed(point1, width, up), Pushed(point1, width, down),
                     Pushed(point2, width, down), Pushed(point2, width, up)]
    ensures |g.liaisons| == 4 && |g.faces| == 2 && Valid(g)
  {
    var angle := atan(point2.y - point1.y, point2.x - point1.x);
    var up := trig(angle + rads(90.0));
    var down := trig(angle + rads(270.0));
    Quad(Pushed(point1, width, up), Pushed(point1, width, down), Pushed(point2, width, down), Pushed(point2, width, up))
  }

  /** p moved `width` along the direction of the given cosine and sine. */
  function Pushed(p: Vec, width: Uint32, cs: Tf.CosSin): Vec
  {
    Vec(p.x + width as real * cs.cos, p.y + width as real * cs.sin)
  }

  /** When the oracle gives opposite directions for the two angles, the
      segment's ends are the midpoints of the quad's short sides. */
  lemma RectangleAlongCentred(point1: Vec, point2: Vec, width: Uint32, atan: (real, real) -> real,
                              rads: real -> real, trig: Tf.TrigOracle)
    requires var angle := atan(point2.y - point1.y, point2.x - point1.x);
      trig(angle + rads(270.0)) == Tf.CosSin(-trig(angle + rads(90.0)).cos, -trig(angle + rads(90.0)).sin)
    ensures var vs := RectangleAlong(point1, point2, width, atan, rads, trig).vertices;
      Times(Plus(vs[0], vs[1]), 0.5) == point1 && Times(Plus(vs[2], vs[3]), 0.5) == point2
  {
    var angle := atan(point2.y - point1.y, point2.x - point1.x);
    var w := width as real;
    var up := trig(angle + rads(90.0));
    var down := trig(angle + rads(270.0));
    assert w * down.cos == -(w * up.cos) && w * down.sin == -(w * up.sin);
    assert Plus(Pushed(point1, width, up), Pushed(point1, width, down)) == Vec(2.0 * point1.x, 2.0 * point1.y);
    assert Plus(Pushed(point2, width, down), Pushed(point2, width, up)) == Vec(2.0 * point2.x, 2.0 * point2.y);
  }

  /** `scare(length)`: the square rectangle. */
  function Scare(length: real): (g: Geom)
    ensures g.vertices == [Zero, Vec(length, 0.0), Vec(length, length), Vec(0.0, length)]
    ensures |g.liaisons| == 4 && |g.faces| == 2 && Valid(g)
  {
    Rectangle(Vec(length, length))
  }

  /** The angle after j steps of delta from start. */
  function Angle(start: real, j: nat, delta: real): real
  {
    start + (j as real) * delta
  }

  lemma AngleNext(start: real, j: nat, delta: real)
    ensures Angle(start, j, delta) + delta == Angle(start, j + 1, delta)
  {
  }

  /** The point at `angle` on the circle of radius `width`, as the
      factories compute it: (cos angle * width, sin angle * width). */
  function Spoke(trig: Tf.TrigOracle, angle: real, width: real): Vec
  {
    Vec(trig(angle).cos * width, trig(angle).sin * width)
  }

  /** The constants of `star`'s angle loop, the double literals
      -1.57079633 and 6.28318531: the first angle and a full turn. */
  const StarStartAngle: real := -1.57079633
  const StarFullTurn: real := 6.28318531

  /** The constants of `polygon`'s angle loop. The source writes them as
      the float literals -1.57079633f and 6.28318531f, whose exact values
      are the nearest single-precision numbers: -13176795 / 2^23 and
      13176795 / 2^21 (four times the first, negated). */
  const PolygonStartAngle: real := -13176795.0 / 8388608.0
  const PolygonFullTurn: real := 13176795.0 / 2097152.0

  /** One pass of the `polygon(width, complexity)` loop: two rim vertices,
      the liaison between them, and the face from the centre. */
  function Blade(g: Geom, p1: Vec, p2: Vec): (r: Geom)
    requires |g.vertices| > 0
    ensures r.vertices == g.vertices + [p1, p2] && r.tf == g.tf
    ensures LiaisonRefs(r.liaisons) == LiaisonRefs(g.liaisons) + [(|g.vertices|, |g.vertices| + 1)]
    ensures FaceRefs(r.faces) == FaceRefs(g.faces) + [(0, |g.vertices|, |g.vertices| + 1)]
    ensures Valid(g) ==> Valid(r)
  {
    var n := |g.vertices|;
    var g2 := Put(Put(g, p1), p2);
    Fill(Link(g2, n, n + 1), 0, n, n + 1)
  }

  /** The rim vertices after m passes of the `polygon` loop: pass j adds
      the points at angles j and j + 1 steps from the start, so every
      inner rim point is there twice. */
  function Rim(start: real, delta: real, width: real, m: nat, trig: Tf.TrigOracle): (r: seq<Vec>)
    ensures |r| == 2 * m
  {
    seq(2 * m, i requires 0 <= i < 2 * m => Spoke(trig, Angle(start, (i + 1) / 2, delta), width))
  }

  /** The liaisons after m passes: each pass joins its own two vertices. */
  function RimLinks(m: nat): (r: seq<(nat, nat)>)
    ensures |r| == m
  {
    seq(m, i requires 0 <= i < m => (2 * i + 1, 2 * i + 2))
  }

  /** The faces after m passes: a fan from the centre, vertex 0. */
  function RimFan(m: nat): (r: seq<(nat, nat, nat)>)
    ensures |r| == m
  {
    seq(m, i requires 0 <= i < m => (0, 2 * i + 1, 2 * i + 2))
  }

  lemma RimNext(start: real, delta: real, width: real, m: nat, trig: Tf.TrigOracle)
    ensures Rim(start, delta, width, m + 1, trig) ==
      Rim(start, delta, width, m, trig) +
      [Spoke(trig, Angle(start, m, delta), width), Spoke(trig, Angle(start, m, delta) + delta, width)]
    ensures RimLinks(m + 1) == RimLinks(m) + [(2 * m + 1, 2 * m + 2)]
    ensures RimFan(m + 1) == RimFan(m) + [(0, 2 * m + 1, 2 * m + 2)]
  {
    AngleNext(start, m, delta);
  }

  /** The number of passes of a loop `for (k = start; k < count; k +=
      2)`. */
  function EvenSteps(k: nat, count: nat): (n: nat)
    ensures k <= count + 1 ==> n == (count + 1 - k) / 2
    decreases count - k
  {
    if k >= count then 0 else 1 + EvenSteps(k + 2, count)
  }

  /** The facts the `polygon(width, complexity)` loop keeps after m
      passes. */
  predicate PolygonSoFar(g: Geom, m: nat, delta: real, width: real, trig: Tf.TrigOracle)
  {
    Valid(g) && g.vertices == [Zero] + Rim(PolygonStartAngle, delta, width, m, trig) &&
    LiaisonRefs(g.liaisons) == RimLinks(m) && FaceRefs(g.faces) == RimFan(m)
  }

  /** One pass keeps them, one pass further on. */
  lemma PolygonStep(g: Geom, m: nat, delta: real, width: real, trig: Tf.TrigOracle)
    requires PolygonSoFar(g, m, delta, width, trig)
    ensures PolygonSoFar(Blade(g, Spoke(trig, Angle(PolygonStartAngle, m, delta), width),
                               Spoke(trig, Angle(PolygonStartAngle, m, delta) + delta, width)),
                         m + 1, delta, width, trig)
  {
    RimNext(PolygonStartAngle, delta, width, m, trig);
  }

  /** The loop of `polygon(width, complexity)` from its pass m on, the
      angle having advanced m steps. */
  function PolygonLoop(g: Geom, m: nat, passes: nat, angus: real, delta: real, width: real,
                       trig: Tf.TrigOracle): (r: Geom)
    requires m <= passes && PolygonSoFar(g, m, delta, width, trig)
    requires angus == Angle(PolygonStartAngle, m, delta)
    ensures PolygonSoFar(r, passes, delta, width, trig)
    decreases passes - m
  {
    if m == passes then g
    else
      var next := Blade(g, Spoke(trig, angus, width), Spoke(trig, angus + delta, width));
      PolygonStep(g, m, delta, width, trig);
      AngleNext(PolygonStartAngle, m, delta);
      PolygonLoop(next, m + 1, passes, angus + delta, delta, width, trig)
  }

  /** The complexity `polygon` uses: at least 5. */
  function PolygonSides(complexity: Uint32): (c: nat)
    ensures c >= 5 && (complexity >= 5 ==> c == complexity)
  {
    if complexity < 5 then 5 else complexity
  }

  /** `polygon(width, complexity)`: the centre, then ⌈c / 2⌉ passes of
      the loop, c the complexity raised to 5; each pass adds two rim
      points one angle step apart, and the angle advances by one step. */
  function Polygon(width: real, complexity: Uint32, trig: Tf.TrigOracle): (g: Geom)
    ensures var m := (PolygonSides(complexity) + 1) / 2;
      g.vertices == [Zero] + Rim(PolygonStartAngle, PolygonFullTurn / PolygonSides(complexity) as real, width, m, trig) &&
      LiaisonRefs(g.liaisons) == RimLinks(m) && FaceRefs(g.faces) == RimFan(m)
    ensures Valid(g)
  {
    var c := PolygonSides(complexity);
    var delta := PolygonFullTurn / c as real;
    EmptyGeomValid();
    var center := Put(EmptyGeom(), Zero);
    assert PolygonSoFar(center, 0, delta, width, trig);
    PolygonLoop(center, 0, EvenSteps(0, c), PolygonStartAngle, delta, width, trig)
  }

  /** The counts of `polygon(width, complexity)`: with c the complexity
      raised to 5, 1 + 2⌈c / 2⌉ vertices, ⌈c / 2⌉ liaisons and ⌈c / 2⌉
      faces. */
  lemma PolygonCounts(width: real, complexity: Uint32, trig: Tf.TrigOracle)
    ensures var c := PolygonSides(complexity);
      var g := Polygon(width, complexity, trig);
      |g.vertices| == 1 + 2 * ((c + 1) / 2) && |g.liaisons| == (c + 1) / 2 && |g.faces| == (c + 1) / 2
  {
    var g := Polygon(width, complexity, trig);
    assert |LiaisonRefs(g.liaisons)| == |g.liaisons|;
  }

  /** `circle(radius)`: the polygon of complexity 40, so 41 vertices, 20
      liaisons and 20 faces. */
  function Circle(radius: real, trig: Tf.TrigOracle): (g: Geom)
    ensures |g.vertices| == 41 && |g.liaisons| == 20 && |g.faces| == 20 && Valid(g)
    ensures g.vertices == [Zero] + Rim(PolygonStartAngle, PolygonFullTurn / 40 as real, radius, 20, trig)
  {
    PolygonCounts(radius, 40, trig);
    assert PolygonSides(40) == 40;
    Polygon(radius, 40, trig)
  }

  /** Each pass advances the angle by one step but the counter by two, so
      the rim of a circle covers half a turn: its last point is at angle
      13176795 / 2^23, the start angle negated, and every inner rim point
      appears twice. */
  lemma CircleIsHalfTurn(radius: real, trig: Tf.TrigOracle, j: nat)
    requires 1 <= j < 20
    ensures Circle(radius, trig).vertices[1] == Spoke(trig, PolygonStartAngle, radius)
    ensures Circle(radius, trig).vertices[40] == Spoke(trig, 13176795.0 / 8388608.0, radius)
    ensures Circle(radius, trig).vertices[2 * j] == Circle(radius, trig).vertices[2 * j + 1]
  {
    CircleRim(radius, trig, j);
  }

  /** The vertices of a circle, read off its rim. */
  lemma CircleRim(radius: real, trig: Tf.TrigOracle, j: nat)
    requires 1 <= j < 20
    ensures var v := [Zero] + Rim(PolygonStartAngle, PolygonFullTurn / 40 as real, radius, 20, trig);
      v[1] == Spoke(trig, PolygonStartAngle, radius) && v[40] == Spoke(trig, 13176795.0 / 8388608.0, radius) && v[2 * j] == v[2 * j + 1]
  {
    var delta := PolygonFullTurn / 40 as real;
    var rim := Rim(PolygonStartAngle, delta, radius, 20, trig);
    PrependIndex(Zero, rim, 0);
    PrependIndex(Zero, rim, 39);
    PrependIndex(Zero, rim, 2 * j - 1);
    PrependIndex(Zero, rim, 2 * j);
    RimEnds(PolygonStartAngle, delta, radius, 20, trig, j);
    CircleLastAngle();
  }

  lemma PrependIndex<T>(x: T, s: seq<T>, k: nat)
    requires k < |s|
    ensures ([x] + s)[k + 1] == s[k]
  {
  }

  /** Twenty steps of a fortieth of a turn from the start angle. */
  lemma CircleLastAngle()
    ensures Angle(PolygonStartAngle, 20, PolygonFullTurn / 40 as real) == 13176795.0 / 8388608.0
  {
    assert (20 as real) * (PolygonFullTurn / 40.0) == 13176795.0 / 4194304.0;
  }

  /** The first and last rim points, and the repeated inner ones. */
  lemma RimEnds(start: real, delta: real, width: real, m: nat, trig: Tf.TrigOracle, j: nat)
    requires 1 <= j < m
    ensures Rim(start, delta, width, m, trig)[0] == Spoke(trig, start, width)
    ensures Rim(start, delta, width, m, trig)[2 * m - 1] == Spoke(trig, Angle(start, m, delta), width)
    ensures Rim(start, delta, width, m, trig)[2 * j - 1] == Rim(start, delta, width, m, trig)[2 * j]
  {
    assert (2 * j - 1 + 1) / 2 == j && (2 * j + 1) / 2 == j && (2 * m - 1 + 1) / 2 == m;
  }

  /** The complexity `star` uses: at least 3. */
  function StarPoints(complexity: Uint32): (c: nat)
    ensures c >= 3 && (complexity >= 3 ==> c == complexity)
  {
    if complexity < 3 then 3 else complexity
  }

  /** The number of passes of the `star` loop, `k <= 2 * complexity + 1`:
      the bound is computed in 32-bit unsigned arithmetic, so it wraps. */
  function StarPasses(complexity: Uint32): (n: nat)
    ensures n % 2 == 1 && n < Modulus
    ensures StarPoints(complexity) < 0x8000_0000 ==> n == 2 * StarPoints(complexity) + 1
    ensures StarPoints(complexity) >= 0x8000_0000 ==> n == 2 * StarPoints(complexity) + 1 - Modulus
  {
    (2 * StarPoints(complexity) + 1) % Modulus
  }

  /** The rim of a star after m passes: pass j adds the point at j steps
      on the first circle and the point half a step further on the
      second. */
  function StarRim(delta: real, width1: real, width2: real, m: nat, trig: Tf.TrigOracle): (r: seq<Vec>)
    ensures |r| == 2 * m
  {
    seq(2 * m, i requires 0 <= i < 2 * m =>
      if i % 2 == 0 then Spoke(trig, Angle(StarStartAngle, i / 2, delta), width1)
      else Spoke(trig, Angle(StarStartAngle, i / 2, delta) + delta / 2.0, width2))
  }

  /** The liaisons of a star after m passes: pass m joins its two
      vertices 2m - 1 and 2m, and from the third pass on first the
      previous pass's second vertex 2m - 2 to its first. */
  function StarLinks(m: nat): (r: seq<(nat, nat)>)
    ensures |r| == if m < 2 then m else 2 * m - 2
  {
    if m == 0 then []
    else StarLinks(m - 1) + (if m >= 3 then [(2 * m - 2, 2 * m - 1)] else []) + [(2 * m - 1, 2 * m)]
  }

  /** The faces of a star after m passes: the fan from the centre over
      the same pairs. */
  function StarFan(m: nat): (r: seq<(nat, nat, nat)>)
    ensures |r| == if m < 2 then m else 2 * m - 2
  {
    if m == 0 then []
    else StarFan(m - 1) + (if m >= 3 then [(0, 2 * m - 2, 2 * m - 1)] else []) + [(0, 2 * m - 1, 2 * m)]
  }

  /** The liaisons in closed form: (1, 2), then (k + 2, k + 3) at every
      later position k. The rim is chained from vertex 3 on, and vertices
      2 and 3 are never joined. */
  lemma {:induction false} StarLinksAt(m: nat, k: nat)
    requires k < |StarLinks(m)|
    ensures StarLinks(m)[k] == if k == 0 then (1, 2) else (k + 2, k + 3)
  {
    var prev := StarLinks(m - 1);
    if k < |prev| {
      StarLinksAt(m - 1, k);
    }
  }

  /** The faces in closed form: (0, 1, 2), then (0, k + 2, k + 3) at every
      later position k. */
  lemma {:induction false} StarFanAt(m: nat, k: nat)
    requires k < |StarFan(m)|
    ensures StarFan(m)[k] == if k == 0 then (0, 1, 2) else (0, k + 2, k + 3)
  {
    var prev := StarFan(m - 1);
    if k < |prev| {
      StarFanAt(m - 1, k);
    }
  }

  /** The rim grows by the two points of pass m. */
  lemma StarRimNext(delta: real, width1: real, width2: real, m: nat, trig: Tf.TrigOracle)
    ensures StarRim(delta, width1, width2, m + 1, trig) ==
      StarRim(delta, width1, width2, m, trig) +
      [Spoke(trig, Angle(StarStartAngle, m, delta), width1),
       Spoke(trig, Angle(StarStartAngle, m, delta) + delta / 2.0, width2)]
  {
    var rim := StarRim(delta, width1, width2, m + 1, trig);
    assert rim[2 * m] == Spoke(trig, Angle(StarStartAngle, m, delta), width1);
    assert rim[2 * m + 1] == Spoke(trig, Angle(StarStartAngle, m, delta) + delta / 2.0, width2);
  }

  /** Appending after a prepended element regroups. */
  lemma PrependAppend<T>(x: T, a: seq<T>, b: seq<T>)
    ensures ([x] + a) + b == [x] + (a + b)
  {
  }

  /** One pass k of the `star` loop, with its two rim points: both
      vertices, then (from k = 3) the liaison and face from the vertex
      three from the end, then the liaison and face of the pass. */
  method StarPass(g: Geom, k: nat, p1: Vec, p2: Vec) returns (r: Geom)
    requires |g.vertices| > 0
    ensures r.vertices == g.vertices + [p1, p2] && r.tf == g.tf
    ensures var n := |g.vertices|;
      LiaisonRefs(r.liaisons) == LiaisonRefs(g.liaisons) + (if k >= 3 then [(n - 1, n)] else []) + [(n, n + 1)]
    ensures var n := |g.vertices|;
      FaceRefs(r.faces) == FaceRefs(g.faces) + (if k >= 3 then [(0, n - 1, n)] else []) + [(0, n, n + 1)]
    ensures Valid(g) ==> Valid(r)
  {
    var n := |g.vertices|;
    r := Put(Put(g, p1), p2);
    if k >= 3 {
      r := Fill(Link(r, n - 1, n), 0, n - 1, n);
    }
    r := Fill(Link(r, n, n + 1), 0, n, n + 1);
  }

  /** One pass takes the rim after k - 1 passes to the rim after k. */
  lemma StarStepVertices(delta: real, width1: real, width2: real, k: nat, trig: Tf.TrigOracle,
                         before: seq<Vec>, after: seq<Vec>)
    requires 1 <= k && before == [Zero] + StarRim(delta, width1, width2, k - 1, trig)
    requires after == before +
      [Spoke(trig, Angle(StarStartAngle, k - 1, delta), width1),
       Spoke(trig, Angle(StarStartAngle, k - 1, delta) + delta / 2.0, width2)]
    ensures after == [Zero] + StarRim(delta, width1, width2, k, trig)
  {
    StarRimNext(delta, width1, width2, k - 1, trig);
    PrependAppend(Zero, StarRim(delta, width1, width2, k - 1, trig),
      [Spoke(trig, Angle(StarStartAngle, k - 1, delta), width1),
       Spoke(trig, Angle(StarStartAngle, k - 1, delta) + delta / 2.0, width2)]);
  }

  /** One pass takes the liaisons after k - 1 passes to those after k. */
  lemma StarStepLinks(k: nat, before: seq<(nat, nat)>, after: seq<(nat, nat)>)
    requires 1 <= k && before == StarLinks(k - 1)
    requires var n := 2 * k - 1;
      after == before + (if k >= 3 then [(n - 1, n)] else []) + [(n, n + 1)]
    ensures after == StarLinks(k)
  {
  }

  /** One pass takes the faces after k - 1 passes to those after k. */
  lemma StarStepFaces(k: nat, before: seq<(nat, nat, nat)>, after: seq<(nat, nat, nat)>)
    requires 1 <= k && before == StarFan(k - 1)
    requires var n := 2 * k - 1;
      after == before + (if k >= 3 then [(0, n - 1, n)] else []) + [(0, n, n + 1)]
    ensures after == StarFan(k)
  {
  }

  /** The state of `star` after m passes: centre and rim, liaisons and
      faces as the passes leave them, and a valid geom. */
  predicate StarSoFar(g: Geom, m: nat, delta: real, width1: real, width2: real, trig: Tf.TrigOracle)
  {
    Valid(g) && g.vertices == [Zero] + StarRim(delta, width1, width2, m, trig) &&
    LiaisonRefs(g.liaisons) == StarLinks(m) && FaceRefs(g.faces) == StarFan(m)
  }

  /** One pass keeps that state, one pass further on: the effect of
      `StarPass` as its contract states it. */
  lemma StarStep(g: Geom, next: Geom, m: nat, delta: real, width1: real, width2: real, trig: Tf.TrigOracle)
    requires StarSoFar(g, m, delta, width1, width2, trig) && Valid(next)
    requires next.vertices == g.vertices +
      [Spoke(trig, Angle(StarStartAngle, m, delta), width1), Spoke(trig, Angle(StarStartAngle, m, delta) + delta / 2.0, width2)]
    requires var n := |g.vertices|;
      LiaisonRefs(next.liaisons) == LiaisonRefs(g.liaisons) + (if m + 1 >= 3 then [(n - 1, n)] else []) + [(n, n + 1)]
    requires var n := |g.vertices|;
      FaceRefs(next.faces) == FaceRefs(g.faces) + (if m + 1 >= 3 then [(0, n - 1, n)] else []) + [(0, n, n + 1)]
    ensures StarSoFar(next, m + 1, delta, width1, width2, trig)
  {
    StarStepVertices(delta, width1, width2, m + 1, trig, g.vertices, next.vertices);
    StarStepLinks(m + 1, LiaisonRefs(g.liaisons), LiaisonRefs(next.liaisons));
    StarStepFaces(m + 1, FaceRefs(g.faces), FaceRefs(next.faces));
  }

  /** The centre alone is a star after no passes. */
  lemma StarCenter(delta: real, width1: real, width2: real, trig: Tf.TrigOracle)
    ensures StarSoFar(Put(EmptyGeom(), Zero), 0, delta, width1, width2, trig)
  {
    EmptyGeomValid();
    var g := Put(EmptyGeom(), Zero);
    assert g.vertices == [Zero] + StarRim(delta, width1, width2, 0, trig);
    assert LiaisonRefs(g.liaisons) == [] && FaceRefs(g.faces) == [];
  }

  /** The counts after all passes: with c the complexity raised to 3 and
      below 2^31, 4c + 3 vertices, 4c liaisons and 4c faces; at c = 2^31
      the loop bound wraps to 1, leaving 3 vertices, one liaison and one
      face. */
  lemma StarCounts(g: Geom, complexity: Uint32, delta: real, width1: real, width2: real, trig: Tf.TrigOracle)
    requires StarSoFar(g, StarPasses(complexity), delta, width1, width2, trig)
    ensures var c := StarPoints(complexity);
      c < 0x8000_0000 ==> |g.vertices| == 4 * c + 3 && |g.liaisons| == 4 * c && |g.faces| == 4 * c
    ensures complexity == 0x8000_0000 ==> |g.vertices| == 3 && |g.liaisons| == 1 && |g.faces| == 1
  {
    assert |LiaisonRefs(g.liaisons)| == |g.liaisons| && |FaceRefs(g.faces)| == |g.faces|;
  }

  /** `star(width1, width2, complexity)`: the centre, then one pass per
      value of the wrapped loop bound, the angle advancing one step per
      pass. */
  method Star(width1: real, width2: real, complexity: Uint32, trig: Tf.TrigOracle) returns (g: Geom)
    ensures var n := StarPasses(complexity);
      g.vertices == [Zero] + StarRim(StarFullTurn / StarPoints(complexity) as real, width1, width2, n, trig) &&
      LiaisonRefs(g.liaisons) == StarLinks(n) && FaceRefs(g.faces) == StarFan(n)
    ensures Valid(g)
    ensures var c := StarPoints(complexity);
      c < 0x8000_0000 ==> |g.vertices| == 4 * c + 3 && |g.liaisons| == 4 * c && |g.faces| == 4 * c
    ensures complexity == 0x8000_0000 ==> |g.vertices| == 3 && |g.liaisons| == 1 && |g.faces| == 1
  {
    var delta := StarFullTurn / StarPoints(complexity) as real;
    g := Put(EmptyGeom(), Zero);
    StarCenter(delta, width1, width2, trig);
    var passes := StarPasses(complexity);
    var m, angus := 0, StarStartAngle;
    while m < passes
      invariant m <= passes && StarSoFar(g, m, delta, width1, width2, trig)
      invariant angus == Angle(StarStartAngle, m, delta)
      decreases passes - m
    {
      var next := StarPass(g, m + 1, Spoke(trig, angus, width1), Spoke(trig, angus + delta / 2.0, width2));
      StarStep(g, next, m, delta, width1, width2, trig);
      AngleNext(StarStartAngle, m, delta);
      g, m, angus := next, m + 1, angus + delta;
    }
    StarCounts(g, complexity, delta, width1, width2, trig);
  }
}
