/** `Transformable` (src/Transformable.cpp): a position, a rotation, a
    pair of scale factors and an origin, together with two cached
    matrices, the forward transform and its inverse, each guarded by a
    freshness flag. The setters store their value and clear both flags;
    the getters rebuild a matrix only when its flag is clear.

    The C++ getters are `const` and write `mutable` members, so every
    operation that reads a matrix here takes the state and returns the
    next state along with its value. The cosine and sine of the rotation
    come from a `TrigOracle`. */
module Transformables {
  import opened Vectors
  import opened Transforms
  import opened Segments

  datatype Transformable = Transformable(
    position: Vec,
    rotation: real,
    scale: Vec,
    origin: Vec,
    transform: Transform,
    invTransform: Transform,
    transformFresh: bool,
    invFresh: bool)

  /** The constructor `Transformable(position, rotation, scale)`: both
      cached matrices are default-constructed (the identity) and both
      flags are set, so the stored position, rotation and scale are not
      reflected in the matrix until a setter clears the flags. */
  function New(position: Vec, rotation: real, scale: Vec): (t: Transformable)
    ensures t.position == position && t.rotation == rotation && t.scale == scale
    ensures t.origin == Zero
    ensures t.transformFresh && t.invFresh
    ensures t.transform == Identity && t.invTransform == Identity
  {
    Transformable(position, rotation, scale, Zero, Identity, Identity, true, true)
  }

  /** `init()`: back to the default state, position (0, 0), rotation 0,
      scale (1, 1), origin (0, 0), identity matrices, fresh caches. */
  function Init(t: Transformable): (r: Transformable)
    ensures r == New(Zero, 0.0, Vec(1.0, 1.0))
  {
    Transformable(Zero, 0.0, Vec(1.0, 1.0), Zero, Identity, Identity, true, true)
  }

  /** Clears both freshness flags. */
  function Invalidate(t: Transformable): Transformable
  {
    t.(transformFresh := false, invFresh := false)
  }

  function SetPositionX(t: Transformable, x: real): (r: Transformable)
    ensures r.position == Vec(x, t.position.y)
    ensures r == Invalidate(t.(position := r.position))
  {
    Invalidate(t.(position := t.position.(x := x)))
  }

  function SetPositionY(t: Transformable, y: real): (r: Transformable)
    ensures r.position == Vec(t.position.x, y)
    ensures r == Invalidate(t.(position := r.position))
  {
    Invalidate(t.(position := t.position.(y := y)))
  }

  /** `setPosition(x, y)` and `setPosition(point)`: the two single-axis
      setters in turn. */
  function SetPosition(t: Transformable, p: Vec): (r: Transformable)
    ensures r.position == p
    ensures r == Invalidate(t.(position := p))
  {
    SetPositionY(SetPositionX(t, p.x), p.y)
  }

  function MoveX(t: Transformable, dx: real): Transformable
  {
    SetPositionX(t, t.position.x + dx)
  }

  function MoveY(t: Transformable, dy: real): Transformable
  {
    SetPositionY(t, t.position.y + dy)
  }

  /** `move(dx, dy)` and `move(shift)`. */
  function Move(t: Transformable, shift: Vec): (r: Transformable)
    ensures r == SetPosition(t, Plus(t.position, shift))
  {
    MoveY(MoveX(t, shift.x), shift.y)
  }

  function SetRotation(t: Transformable, angle: real): (r: Transformable)
    ensures r.rotation == angle
    ensures r == Invalidate(t.(rotation := angle))
  {
    Invalidate(t.(rotation := angle))
  }

  function Rotate(t: Transformable, angle: real): (r: Transformable)
    ensures r == SetRotation(t, t.rotation + angle)
  {
    SetRotation(t, t.rotation + angle)
  }

  /** `setScaleX`: only a positive factor is stored; any other factor
      leaves the whole state as it was, flags included. */
  function SetScaleX(t: Transformable, f: real): (r: Transformable)
    ensures f > 0.0 ==> r == Invalidate(t.(scale := Vec(f, t.scale.y)))
    ensures f <= 0.0 ==> r == t
  {
    if f > 0.0 then Invalidate(t.(scale := t.scale.(x := f))) else t
  }

  function SetScaleY(t: Transformable, f: real): (r: Transformable)
    ensures f > 0.0 ==> r == Invalidate(t.(scale := Vec(t.scale.x, f)))
    ensures f <= 0.0 ==> r == t
  {
    if f > 0.0 then Invalidate(t.(scale := t.scale.(y := f))) else t
  }

  /** `setScale(fx, fy)` and `setScale(factors)`: each axis guarded on its
      own. */
  function SetScale(t: Transformable, factors: Vec): (r: Transformable)
    ensures r.scale.x == (if factors.x > 0.0 then factors.x else t.scale.x)
    ensures r.scale.y == (if factors.y > 0.0 then factors.y else t.scale.y)
    ensures factors.x <= 0.0 && factors.y <= 0.0 ==> r == t
    ensures factors.x > 0.0 || factors.y > 0.0 ==> r == Invalidate(t.(scale := r.scale))
  {
    SetScaleY(SetScaleX(t, factors.x), factors.y)
  }

  /** `scaleX(f)`: the factor is ADDED to the current scale, and the sum
      passes the same positivity guard. */
  function ScaleX(t: Transformable, f: real): (r: Transformable)
    ensures t.scale.x + f > 0.0 ==> r.scale.x == t.scale.x + f
    ensures t.scale.x + f <= 0.0 ==> r == t
    ensures r.scale.y == t.scale.y
    ensures t.scale.x + f > 0.0 ==> r == Invalidate(t.(scale := Vec(t.scale.x + f, t.scale.y)))
  {
    SetScaleX(t, t.scale.x + f)
  }

  function ScaleY(t: Transformable, f: real): (r: Transformable)
    ensures t.scale.y + f > 0.0 ==> r.scale.y == t.scale.y + f
    ensures t.scale.y + f <= 0.0 ==> r == t
    ensures r.scale.x == t.scale.x
    ensures t.scale.y + f > 0.0 ==> r == Invalidate(t.(scale := Vec(t.scale.x, t.scale.y + f)))
  {
    SetScaleY(t, t.scale.y + f)
  }

  /** `scale(fx, fy)` and `scale(factors)`. */
  function Scale(t: Transformable, factors: Vec): (r: Transformable)
    ensures r == SetScale(t, Plus(t.scale, factors))
  {
    ScaleY(ScaleX(t, factors.x), factors.y)
  }

  /** `setOrigin(x, y)` and `setOrigin(origin)`. */
  function SetOrigin(t: Transformable, origin: Vec): (r: Transformable)
    ensures r.origin == origin
    ensures r == Invalidate(t.(origin := origin))
  {
    Invalidate(t.(origin := origin))
  }

  /** Both scale factors positive. */
  predicate ScalePositive(t: Transformable)
  {
    t.scale.x > 0.0 && t.scale.y > 0.0
  }

  /** Scale factors stay positive under every operation that touches
      them: the guard rejects every non-positive value. */
  lemma ScaleStaysPositive(t: Transformable, f: real, factors: Vec)
    requires ScalePositive(t)
    ensures ScalePositive(SetScaleX(t, f)) && ScalePositive(SetScaleY(t, f))
    ensures ScalePositive(SetScale(t, factors))
    ensures ScalePositive(ScaleX(t, f)) && ScalePositive(ScaleY(t, f))
    ensures ScalePositive(Scale(t, factors))
  {
  }

  /** Moves and rotations add up: two moves are one move by the sum, two
      rotations one rotation by the sum. */
  lemma MovesAndRotationsAdd(t: Transformable, a: Vec, b: Vec, x: real, y: real)
    ensures Move(Move(t, a), b) == Move(t, Plus(a, b))
    ensures Rotate(Rotate(t, x), y) == Rotate(t, x + y)
    ensures MoveX(t, a.x).position == Plus(t.position, Vec(a.x, 0.0))
    ensures MoveY(t, a.y).position == Plus(t.position, Vec(0.0, a.y))
  {
  }

  /** Two additive scalings compose when the intermediate factor stays
      positive; the first scaling is lost when it is rejected. */
  lemma ScalingsAdd(t: Transformable, a: real, b: real)
    requires t.scale.x + a > 0.0 && t.scale.x + a + b > 0.0
    ensures ScaleX(ScaleX(t, a), b).scale == ScaleX(t, a + b).scale
  {
  }

  /** The matrix the getter builds: translation(position) times
      rotation(rotation, origin) times scaling(scale, origin). */
  function Built(t: Transformable, trig: TrigOracle): Transform
  {
    Multiply(Multiply(Translation(t.position), Rotation(trig(t.rotation), t.origin)),
             Scaling(t.scale.x, t.scale.y, t.origin))
  }

  /** The matrix `getTransform` returns in state t. */
  function CurrentTransform(t: Transformable, trig: TrigOracle): Transform
  {
    if t.transformFresh then t.transform else Built(t, trig)
  }

  /** `getTransform()`: the next state and the returned matrix. Only the
      forward flag and matrix can change. */
  function GetTransform(t: Transformable, trig: TrigOracle): (r: (Transformable, Transform))
    ensures r.0.transformFresh && r.0.transform == r.1
    ensures t.transformFresh ==> r.0 == t && r.1 == t.transform
    ensures !t.transformFresh ==> r.1 == Built(t, trig)
    ensures r.0 == t.(transform := r.1, transformFresh := true)
  {
    if !t.transformFresh then
      var m := Built(t, trig);
      (t.(transform := m, transformFresh := true), m)
    else (t, t.transform)
  }

  /** A second `getTransform` returns the same matrix and changes
      nothing. */
  lemma GetTransformIdempotent(t: Transformable, trig: TrigOracle)
    ensures GetTransform(GetTransform(t, trig).0, trig) == (GetTransform(t, trig).0, GetTransform(t, trig).1)
  {
  }

  /** `getInvTransform()`: when stale, the inverse of `getTransform()`'s
      matrix is computed, and both flags end up set. A zero
      `getDeterminant` would divide by zero. */
  function GetInvTransform(t: Transformable, trig: TrigOracle): (r: (Transformable, Transform))
    requires t.invFresh || GetDeterminant(CurrentTransform(t, trig)) != 0.0
    ensures r.0.invFresh && r.0.invTransform == r.1
    ensures t.invFresh ==> r.0 == t && r.1 == t.invTransform
    ensures !t.invFresh ==> r.1 == GetInverse(CurrentTransform(t, trig)) && r.0.transformFresh
    ensures !t.invFresh ==> r.0 == t.(transform := CurrentTransform(t, trig), transformFresh := true,
                                       invTransform := r.1, invFresh := true)
  {
    if !t.invFresh then
      var (s, m) := GetTransform(t, trig);
      var inv := GetInverse(m);
      (s.(invTransform := inv, invFresh := true), inv)
    else (t, t.invTransform)
  }

  /** `convertToGlobal(point)` and `convertToGlobal(x, y)`. */
  function ToGlobal(t: Transformable, trig: TrigOracle, p: Vec): (r: (Transformable, Vec))
    ensures r.1 == Apply(CurrentTransform(t, trig), p)
    ensures r.0 == GetTransform(t, trig).0
  {
    var (s, m) := GetTransform(t, trig);
    (s, Apply(m, p))
  }

  /** `convertToLocal(point)` and `convertToLocal(x, y)`. */
  function ToLocal(t: Transformable, trig: TrigOracle, p: Vec): (r: (Transformable, Vec))
    requires t.invFresh || GetDeterminant(CurrentTransform(t, trig)) != 0.0
    ensures r.1 == Apply(GetInvTransform(t, trig).1, p)
    ensures r.0 == GetInvTransform(t, trig).0
  {
    var (s, m) := GetInvTransform(t, trig);
    (s, Apply(m, p))
  }

  /** `convertToGlobal(segment)`: both ends, the second conversion running
      in the state the first left, which uses the same matrix. */
  function SegmentToGlobal(t: Transformable, trig: TrigOracle, seg: Segment): (r: (Transformable, Segment))
    ensures r.1 == Segment(Apply(CurrentTransform(t, trig), seg.p1), Apply(CurrentTransform(t, trig), seg.p2))
    ensures r.0 == GetTransform(t, trig).0
  {
    var (s1, q1) := ToGlobal(t, trig, seg.p1);
    var (s2, q2) := ToGlobal(s1, trig, seg.p2);
    (s2, Segment(q1, q2))
  }

  /** `convertToLocal(segment)`. */
  function SegmentToLocal(t: Transformable, trig: TrigOracle, seg: Segment): (r: (Transformable, Segment))
    requires t.invFresh || GetDeterminant(CurrentTransform(t, trig)) != 0.0
    ensures r.1 == Segment(Apply(GetInvTransform(t, trig).1, seg.p1), Apply(GetInvTransform(t, trig).1, seg.p2))
    ensures r.0 == GetInvTransform(t, trig).0
  {
    var (s1, q1) := ToLocal(t, trig, seg.p1);
    var (s2, q2) := ToLocal(s1, trig, seg.p2);
    (s2, Segment(q1, q2))
  }

  /** A freshly constructed object converts every point to itself, and
      reports the identity, whatever position, rotation and scale it was
      given. */
  lemma NewIsIdentity(position: Vec, rotation: real, scale: Vec, trig: TrigOracle, p: Vec)
    ensures GetTransform(New(position, rotation, scale), trig).1 == Identity
    ensures ToGlobal(New(position, rotation, scale), trig, p).1 == p
    ensures ToLocal(New(position, rotation, scale), trig, p).1 == p
  {
    ApplyIdentity(p);
  }

  /** After any setter the getter rebuilds the matrix from the stored
      fields. */
  lemma SettersRebuild(t: Transformable, trig: TrigOracle, v: Vec, a: real, f: real)
    ensures GetTransform(SetPosition(t, v), trig).1 == Built(SetPosition(t, v), trig)
    ensures GetTransform(SetRotation(t, a), trig).1 == Built(SetRotation(t, a), trig)
    ensures GetTransform(SetOrigin(t, v), trig).1 == Built(SetOrigin(t, v), trig)
    ensures f > 0.0 ==> GetTransform(SetScaleX(t, f), trig).1 == Built(SetScaleX(t, f), trig)
    ensures f > 0.0 ==> GetTransform(SetScaleY(t, f), trig).1 == Built(SetScaleY(t, f), trig)
  {
  }

  /** The built matrix scales about the origin, then rotates about it,
      then shifts by the position. In particular the origin is carried to
      origin + position. */
  lemma BuiltApplies(t: Transformable, trig: TrigOracle, p: Vec)
    ensures IsAffine(Built(t, trig))
    ensures Apply(Built(t, trig), p)
         == Plus(Apply(Rotation(trig(t.rotation), t.origin), Apply(Scaling(t.scale.x, t.scale.y, t.origin), p)), t.position)
    ensures Apply(Built(t, trig), t.origin) == Plus(t.origin, t.position)
  {
    var tr := Translation(t.position);
    var ro := Rotation(trig(t.rotation), t.origin);
    var sc := Scaling(t.scale.x, t.scale.y, t.origin);
    RotationAboutOrigin(trig(t.rotation), t.origin, t.origin);
    ScalingAboutOrigin(t.scale.x, t.scale.y, t.origin, t.origin);
    MultiplyAffine(tr, ro);
    MultiplyAffine(Multiply(tr, ro), sc);
    ApplyMultiply(Multiply(tr, ro), sc, p);
    ApplyMultiply(tr, ro, Apply(sc, p));
    TranslationShifts(t.position, Apply(ro, Apply(sc, p)));
    ApplyMultiply(Multiply(tr, ro), sc, t.origin);
    ApplyMultiply(tr, ro, t.origin);
    TranslationShifts(t.position, t.origin);
  }

  /** What every reachable state satisfies: a fresh forward matrix is
      affine, and a fresh inverse sits next to a fresh forward matrix of
      non-zero `getDeterminant` whose `getInverse` it is. */
  predicate Coherent(t: Transformable)
  {
    (t.transformFresh ==> IsAffine(t.transform)) &&
    (t.invFresh ==>
      t.transformFresh && GetDeterminant(t.transform) != 0.0 &&
      t.invTransform == GetInverse(t.transform))
  }

  /** The built matrix has bottom row (0, 0, 1). */
  lemma BuiltAffine(t: Transformable, trig: TrigOracle)
    ensures IsAffine(Built(t, trig))
  {
    var tr := Translation(t.position);
    var ro := Rotation(trig(t.rotation), t.origin);
    var sc := Scaling(t.scale.x, t.scale.y, t.origin);
    RotationAboutOrigin(trig(t.rotation), t.origin, t.origin);
    ScalingAboutOrigin(t.scale.x, t.scale.y, t.origin, t.origin);
    MultiplyAffine(tr, ro);
    MultiplyAffine(Multiply(tr, ro), sc);
  }

  /** Construction and `init()` give a coherent state. */
  lemma NewCoherent(t: Transformable, position: Vec, rotation: real, scale: Vec)
    ensures Coherent(New(position, rotation, scale)) && Coherent(Init(t))
  {
    FreshIdentityCoherent(New(position, rotation, scale));
    FreshIdentityCoherent(Init(t));
  }

  lemma FreshIdentityCoherent(t: Transformable)
    requires t.transform == Identity && t.invTransform == Identity && t.transformFresh
    ensures Coherent(t)
  {
    IdentityInverseOf(t.transform, t.invTransform);
  }

  lemma IdentityInverseOf(m: Transform, inv: Transform)
    requires m == Identity && inv == Identity
    ensures GetDeterminant(m) != 0.0 && inv == GetInverse(m)
  {
    IdentityInverse();
  }

  /** Every setter keeps the state coherent: it clears both flags. */
  lemma SettersCoherent(t: Transformable, v: Vec, a: real, f: real)
    requires Coherent(t)
    ensures Coherent(SetPositionX(t, a)) && Coherent(SetPositionY(t, a)) && Coherent(SetPosition(t, v))
    ensures Coherent(Move(t, v)) && Coherent(SetRotation(t, a)) && Coherent(Rotate(t, a))
    ensures Coherent(SetScaleX(t, f)) && Coherent(SetScaleY(t, f)) && Coherent(SetScale(t, v))
    ensures Coherent(Scale(t, v)) && Coherent(SetOrigin(t, v))
  {
  }

  /** Both getters keep the state coherent. */
  lemma GettersCoherent(t: Transformable, trig: TrigOracle)
    requires Coherent(t)
    ensures Coherent(GetTransform(t, trig).0)
    ensures t.invFresh || GetDeterminant(CurrentTransform(t, trig)) != 0.0 ==>
      Coherent(GetInvTransform(t, trig).0)
  {
    BuiltAffine(t, trig);
  }

  /** The matrix a coherent state uses for `convertToLocal` is the
      `getInverse` of the one it uses for `convertToGlobal`. */
  lemma LocalUsesInverse(t: Transformable, trig: TrigOracle)
    requires Coherent(t)
    requires t.invFresh || GetDeterminant(CurrentTransform(t, trig)) != 0.0
    ensures GetDeterminant(CurrentTransform(t, trig)) != 0.0
    ensures GetInvTransform(t, trig).1 == GetInverse(CurrentTransform(t, trig))
    ensures CurrentTransform(GetInvTransform(t, trig).0, trig) == CurrentTransform(t, trig)
    ensures IsAffine(CurrentTransform(t, trig))
  {
    BuiltAffine(t, trig);
  }

  /** Converting a point to local coordinates and back gives the point
      again, provided `getDeterminant` of the current matrix is its true
      determinant (non-zero). */
  lemma GlobalOfLocal(t: Transformable, trig: TrigOracle, q: Vec)
    requires Coherent(t)
    requires GetDeterminant(CurrentTransform(t, trig)) != 0.0
    requires GetDeterminant(CurrentTransform(t, trig)) == Determinant(CurrentTransform(t, trig))
    ensures ToGlobal(ToLocal(t, trig, q).0, trig, ToLocal(t, trig, q).1).1 == q
  {
    var m := CurrentTransform(t, trig);
    LocalUsesInverse(t, trig);
    InverseAffine(m);
    GetInverseIsInverse(m);
    ApplyMultiply(m, GetInverse(m), q);
    ApplyIdentity(q);
  }

  /** Converting a point to global coordinates and back gives the point
      again, under the same condition. */
  lemma LocalOfGlobal(t: Transformable, trig: TrigOracle, p: Vec)
    requires Coherent(t)
    requires GetDeterminant(CurrentTransform(t, trig)) != 0.0
    requires GetDeterminant(CurrentTransform(t, trig)) == Determinant(CurrentTransform(t, trig))
    ensures ToLocal(ToGlobal(t, trig, p).0, trig, ToGlobal(t, trig, p).1).1 == p
  {
    var m := CurrentTransform(t, trig);
    var (s, q) := ToGlobal(t, trig, p);
    GettersCoherent(t, trig);
    assert CurrentTransform(s, trig) == m;
    GlobalOfLocal(s, trig, q);
    var back := ToLocal(s, trig, q).1;
    assert ToGlobal(ToLocal(s, trig, q).0, trig, back).1 == q;
    LocalUsesInverse(s, trig);
    assert Apply(m, back) == Apply(m, p);
    LocalUsesInverse(t, trig);
    AffineInjective(m, back, p);
  }
}
