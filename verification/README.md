# Zoost geometry core in Dafny

Zoost is a small C++ library of 2D geometry. This project models its core in Dafny:

- the scalar helpers (`abs`, `square`, `interpolate`, `fact`, `binCoef`);
- the 3×3 `Transform` matrix and its builders;
- the `Transformable` state (position, rotation, scale, origin), with its cached forward and inverse matrices;
- the primitive shapes `Line`, `Segment`, `Rect` and `Triangle`;
- the `Geom` mesh of vertices, liaisons (edges) and faces, with observers, cached bounds, intersection and containment queries, the shape factories and the ear-clipping `polygon(points)`;
- `Curve`, the polyline with a running length;
- the `Converter` helpers.

Every operation is a pure function or a method over immutable datatypes. A C++ member that mutates `*this` becomes a function from the old state to the new one. A `const` getter that fills a cache returns the pair (new state, result).

## Modules

| file | module | models |
|---|---|---|
| math.dfy | `ZMath` | include/Zoost/Math.hpp, src/Math.cpp |
| vectors.dfy | `Vectors` | the `Vector2d` operations the rest uses, with the length oracle |
| transform.dfy | `Transforms` | src/Transform.cpp |
| line.dfy | `Lines` | src/Line.cpp |
| segment.dfy | `Segments` | src/Segment.cpp |
| transformable.dfy | `Transformables` | src/Transformable.cpp |
| rect.dfy | `Rects` | src/Rect.cpp |
| triangle.dfy | `Triangles` | src/Triangle.cpp |
| geom.dfy | `Geoms` | src/Geom.cpp (mesh editing, `add`, copies), src/Vertex.cpp |
| bounds.dfy | `GeomBounds` | the local and global bounds of src/Geom.cpp |
| queries.dfy | `GeomQueries` | `intersects` and `contains` of src/Geom.cpp, src/Face.cpp |
| shapes.dfy | `Shapes` | the factories `segment` … `star` of src/Geom.cpp |
| earclip.dfy | `EarClipping` | `polygon(points)` of src/Geom.cpp |
| curve.dfy | `Curves` | src/Curve.cpp |
| converter.dfy | `Converters` | src/Converter.cpp |

## How the C++ is represented

- **Numbers.** `double` and `float` are Dafny `real`s, so there is no rounding, overflow or NaN arithmetic.
  - Where a NaN decides a branch, the model names the NaN case explicitly. This happens for `sum / abs(sum)` in ear clipping and for `0/0` in `Curve::operator[]`.
  - `unsigned int` and `Uint32` arithmetic is done modulo 2^32 wherever it can wrap. The places are `fact`, the bound of the `star` loop and the bound of the `bezier` loop.
- **Library functions.** `std::sqrt`-based lengths, `std::cos`/`std::sin`, `std::atan` and `Vector2d::angle` are parameters of the operations that use them: oracles such as `LengthOracle`, `TrigOracle` and `AngleOracle`.
  - A few lemmas state what they assume of an oracle. For example, `LengthSound` says the length is non-negative, is zero exactly at the zero vector, and scales with its argument.
- **Addresses.** The mesh is an arena.
  - A vertex is its position in the vertex list.
  - A liaison or face carries an `id` that stands for its address; ids are drawn from a counter.
  - Observers are numbers in a set. The callbacks they receive are appended, in order, to an event `log`.
- **Floating-point literals.** The float literals the source uses are written out exactly, as their nearest single-precision values; double literals are kept as written:
  - `3.141592654f` is 3.1415927410125732421875;
  - the `.1f` tolerance of `Segment::intersects` is likewise its single-precision value;
  - `polygon(width, complexity)` writes its angles as floats: `-1.57079633f` is −13176795 / 2^23 and `6.28318531f` is 13176795 / 2^21 (`Shapes.PolygonStartAngle`, `Shapes.PolygonFullTurn`);
  - `star` writes the same two numbers as doubles, so its constants `Shapes.StarStartAngle` and `Shapes.StarFullTurn` are −1.57079633 and 6.28318531.

## Behaviour modelled as the code has it

Where the library's documentation and its code disagree, the model follows the code:

- **`Transform::getDeterminant`** computes `m0·m4 − m1·m3 + m2·m3`. That is not the determinant of the matrix unless `m2·m3 = 0`.
  - `getInverse` divides the adjugate by this value. Its product with the matrix is therefore the identity only when the two values agree.
  - A quarter turn shifted by one is the counterexample: its determinant is 1 and `getDeterminant` gives 2.
- **`Line::intersects(line)`** applies `Math::abs` to a `bool`: the comparison of the scalar product with the product of the lengths.
  - The result is the comparison itself. So lines pointing in opposite directions "intersect", while parallel lines pointing the same way do not.
- **The static `Segment::intersects(p1, p2, p3, p4)`** overloads build their second segment from `p2` and `p3`. The fourth point is never used.
- **`Rect()`** defaults to size (0, 0), and the constructor replaces a zero component by 1. So the default rectangle is 1×1.
- **`Rect::contains`** is half-open: closed on the top-left sides, open on the bottom-right.
  - The bounds of a geom therefore contain their own bottom-right vertices only when the box was widened to size 1.
- **`Triangle::contains`** uses a strict test on its third edge. Points on the line through `p1` and `p3` are never contained, and that includes `p1` and `p3` themselves.
- **A freshly constructed `Transformable`** has both cache flags set and both matrices at the identity. So it converts every point to itself whatever position, rotation and scale it was given, until a setter clears the flags.
- **`Geom::removeFace`** reports `onLiaisonRemoved(k)`, not `onFaceRemoved`.
- **`Geom::removeVertex`:**
  - Its face loop increments `k` both after an erase and at the end of the loop. After an erase the face that moved into slot `k` is skipped; the loop only inspects the faces that sit at even positions when they are reached.
  - Neither loop removes the vertex itself; the vertex list is unchanged.
  - The last event reports the vertex's current index.
- **`Geom::clear`** leaves the global-bounds flag as it was. A cached global box survives `clear`, and also survives a setter of the transformable when `onTransformUpdated` is not called.
- **`Geom::operator+`** copies `*this`, adds the argument to the copy, and returns a copy of that. The copy constructor runs `clear()` followed by `add`.
- **`Geom::add`** takes each vertex through the other geom's `convertToGlobal` and this geom's `convertToLocal`, so the caches of both transformables fill. It then re-creates the liaisons and faces at the shifted positions, and merges the observer sets.
- **`Geom::star`:**
  - The loop runs for `k` from 1 to `2·complexity + 1`, with that bound computed in `unsigned int`. For a complexity of 2^31 or more the bound wraps. At exactly 2^31 the loop runs once, leaving 3 vertices, 1 liaison and 1 face.
  - The passes join vertex `n − 3` to the new `vertex1` only from the third pass on, so vertices 2 and 3 are never joined.
- **`Geom::polygon(width, complexity)`** steps its counter by 2 but its angle by one `delta`. So `circle(radius)`, which is `polygon(radius, 40)`:
  - covers half a turn, from −13176795 / 2^23 to +13176795 / 2^23 (about ±π/2);
  - has 41 vertices, 20 liaisons and 20 faces;
  - repeats each inner rim point twice.
- **`Geom::polygon(points)`, for more than three points:**
  - It computes the orientation as `sum / abs(sum)`. For a zero sum this is NaN, no turn test then passes, and the scan finds no ear and repeats forever.
  - The clipping loop runs while more than one index is active. When it ends it has added `n − 1` faces, the last of which repeats a vertex.
  - The function has no `return` on this branch; the model returns the geom the branch built.
  - The clipping reads only the vertex list, so the model computes the run first and then adds its faces in the same order.
- **`Curve::add`** copies only the vertices, not the liaisons. Each new vertex goes through `addVertex`, which chains it to the previous one and adds the new segment's length.
- **`Curve`'s copy constructor** starts from a default `Geom`, so the copied coordinates carry the other curve's transform baked in. The copy's own transform is the identity.
- **`Curve::operator=`** sets `m_length` to 0 and then assigns the `Geom` part. The liaisons are copied but their lengths are not counted again.
- **Self-assignment.** `Geom::operator=` runs `clear()` and then `add(geom)`. For `g = g`, `add` walks the lists `clear` has just emptied, so `g` ends empty (`Geoms.SelfAssign`). A curve assigned to itself ends empty with length 0 (`Curves.SelfAssign`).
- **`add` of a geom without vertices.** `convertToLocal` runs only inside the vertex loop of `add`. Adding a geom without vertices therefore never inverts this geom's transform, whatever its `getDeterminant`; `Geoms.Add` and `Curves.Add` demand an invertible transform only when there is a vertex to convert.
- **`Curve::operator[]`** walks the liaisons until the accumulated length reaches `m_length · factor`.
  - A zero-length segment reached exactly there gives `0/0`: a NaN point.
  - A walk that passes the last liaison falls off the end of the function.
  - With fewer than two vertices the result is (0, 0).
- **`Curve::bezier`** loops while `k < complexity + 1` in `Uint32`. For complexity 0xFFFFFFFF the bound wraps to 0 and the curve is empty.
- **`toDigitTime`** prints the hours modulo 99, so 99 hours print as `00:00:00`.

Four headers are not part of this model: include/Zoost/Geom.hpp, Curve.hpp, Transformable.hpp and Vector2.hpp. Their defaults are taken from the constructors and the calls in the `.cpp` files:

- the default transformable is position (0, 0), rotation 0, scale (1, 1), origin (0, 0);
- a new geom has both bounds flags cleared;
- a new curve has length 0;
- `Geom::addVertex` is not virtual. `Curve.cpp` defines its own `addVertex`, and `Geom::add`, called from `Geom::operator=`, is taken to call `Geom::addVertex`. Were it virtual, `Curve::operator=` would add each copied vertex through `Curve::addVertex`, creating chaining liaisons and counting their lengths.

## Model

| member | source | states |
|---|---|---|
| ZMath.Abs | include/Zoost/Math.hpp:68-72 | the result is non-negative and is x or −x, and x itself when x ≥ 0 |
| ZMath.Square | include/Zoost/Math.hpp:59-63 | the result is non-negative and equals abs(x)·abs(x) |
| ZMath.SquareSign | include/Zoost/Math.hpp:59-63 | square(x) is zero exactly at x = 0, and square(−x) = square(x) |
| ZMath.Clamp01 | include/Zoost/Math.hpp:80-81 | the clamped factor lies in [0, 1]: unchanged inside, 1 above, 0 below |
| ZMath.Interpolate | include/Zoost/Math.hpp:77-84 | the result lies between the two values; a factor ≤ 0 gives the first, a factor ≥ 1 gives the second |
| ZMath.InterpolateUsesClampedFactor | include/Zoost/Math.hpp:80-83 | only the clamped factor matters; the factors 0 and 1 give the two ends |
| ZMath.Fact | src/Math.cpp:34-37 | for n ≤ 12 the 32-bit `fact` equals the true factorial |
| ZMath.FactRecurrence | src/Math.cpp:36 | fact(0) = fact(1) = 1 and fact(n) = n·fact(n − 1) modulo 2^32 |
| ZMath.FactWrapsAtThirteen | src/Math.cpp:34-37 | fact(13) = 1932053504, which is not 13! |
| ZMath.BinCoef | src/Math.cpp:40-43 | binCoef is 0 when k > n, and 1 when k = 0 or k = n |
| ZMath.BinCoefSymmetric | src/Math.cpp:42 | binCoef(n, k) = binCoef(n, n − k), and one is defined exactly when the other is |
| ZMath.BinCoefExactUpToTwelve | src/Math.cpp:34-43 | for n ≤ 12, binCoef is defined and is the true quotient n!/(k!(n − k)!) |
| Transforms.MultiplyEntry | src/Transform.cpp:95-110 | entry (i, j) of the product is row i of the left matrix times column j of the right one |
| Transforms.IdentityUnit | src/Transform.cpp:48-59 | the matrix of the default constructor is a unit on both sides of the product |
| Transforms.MultiplyAssociative | src/Transform.cpp:95-110 | the product is associative |
| Transforms.ApplyIdentity | src/Transform.cpp:68-71 | the identity leaves every point where it is |
| Transforms.ApplyMultiply | src/Transform.cpp:68-71 | applying a product applies its right factor first, when that factor is affine |
| Transforms.MultiplyAffine | src/Transform.cpp:99-107 | a product of matrices with bottom row (0, 0, 1) keeps that bottom row |
| Transforms.GetDeterminantOfAffine | src/Transform.cpp:165-170 | getDeterminant is m0·m4 − m1·m3 + m2·m3, while the true determinant of an affine matrix is m0·m4 − m1·m3; the two agree exactly when m2·m3 = 0 |
| Transforms.GetDeterminantWrongExample | src/Transform.cpp:165-170 | a quarter turn shifted by one has determinant 1 but getDeterminant 2 |
| Transforms.MultiplyAdjugate | src/Transform.cpp:144-152 | the matrix times the adjugate getInverse divides is det·I |
| Transforms.GetInverseIsInverse | src/Transform.cpp:138-155 | the matrix times getInverse is (det / getDeterminant)·I, and it is the identity exactly when the two values agree |
| Transforms.InverseAffine | src/Transform.cpp:138-155 | the inverse of an affine matrix is affine when getDeterminant equals the determinant |
| Transforms.AffineInjective | src/Transform.cpp:68-71 | an affine matrix with a non-zero determinant maps distinct points to distinct points |
| Transforms.IdentityInverse | src/Transform.cpp:138-170 | getDeterminant of the identity is 1 and getInverse of the identity is the identity |
| Transforms.TranslationShifts | src/Transform.cpp:173-181 | the translation matrix shifts every point by (dx, dy) |
| Transforms.TranslationsCompose | src/Transform.cpp:173-181 | the product of two translations is the translation by the sum |
| Transforms.ApplyAboutOrigin | src/Transform.cpp:199-200 | conjugating by translations to the origin o maps p to o + m(p − o), and fixes o |
| Transforms.RotationAboutOrigin | src/Transform.cpp:190-203 | the rotation turns p about the origin by the given cosine and sine, and fixes the origin |
| Transforms.ScalingAboutOrigin | src/Transform.cpp:206-217 | the scaling stretches p away from the origin by (fx, fy), and fixes the origin |
| Transforms.ReflectionProperties | src/Transform.cpp:226-234 | the reflection negates the selected coordinates and is its own inverse |
| Transforms.ShearingShears | src/Transform.cpp:237-245 | the shear adds fx·y to x and fy·x to y |
| Transforms.TranslateAppliesShiftFirst | src/Transform.cpp:255-260 | `translate` multiplies on the right, so the shift acts before the existing matrix |
| Transforms.RotateAppliesRotationFirst | src/Transform.cpp:269-272 | `rotate` multiplies on the right, so the rotation acts before the existing matrix |
| Transforms.ScaleAppliesScalingFirst | src/Transform.cpp:275-278 | `scale` multiplies on the right, so the scaling acts before the existing matrix |
| Transforms.ReflectAndShearApplyBuilderFirst | src/Transform.cpp:287-296 | `reflect` and `shear` multiply on the right, so they act before the existing matrix |
| Lines.AbsOfBool | src/Line.cpp:38 | abs of a bool, promoted to 0 or 1 and converted back, is the bool itself |
| Lines.AntiParallelIntersects | src/Line.cpp:36-39 | lines whose directions point opposite ways pass `intersects(line)` |
| Lines.SameDirectionDoesNotIntersect | src/Line.cpp:36-39 | lines whose directions point the same way fail `intersects(line)` |
| Lines.IntersectionPoint | src/Line.cpp:42-71 | the flag is that of `intersects(line)`, and on failure `result` is left as it was |
| Lines.FirstVerticalIntersection | src/Line.cpp:46-50 | when the first line is vertical, the point has its abscissa and lies on the second line |
| Lines.SecondVerticalIntersection | src/Line.cpp:52-56 | when only the second line is vertical, the point has its abscissa and lies on the first line |
| Lines.GeneralIntersection | src/Line.cpp:58-65 | when neither line is vertical, the point lies on both lines |
| Lines.MeetingAbscissa | src/Line.cpp:60-64 | at the computed abscissa the two slope formulas give the same ordinate |
| Lines.SlopeFormulaOnLine | src/Line.cpp:55 | a point given by the slope formula lies on the line |
| Lines.IntersectionPointOfPoints | src/Line.cpp:81-85 | the free function agrees with `intersects(p1, p2, p3, p4)` and leaves `result` alone on failure |
| Segments.LengthOfSegment | src/Segment.cpp:36-39 | with a sound length the segment's length is non-negative, and zero exactly when its ends coincide |
| Segments.At | src/Segment.cpp:42-45 | `operator[]` lies in the box of the two ends; a factor ≤ 0 gives p1, a factor ≥ 1 gives p2 |
| Segments.AtClampsFactor | src/Segment.cpp:42-45 | only the clamped factor matters, and the point is p1 + (p2 − p1)·factor |
| Segments.AtOnLine | src/Segment.cpp:42-45 | every point `operator[]` returns lies on the line through the ends |
| Segments.IntersectionPointCases | src/Segment.cpp:55-64 | when the line test fails the answer is false and `result` is unchanged; when it passes, the answer is the tolerance test on the line point |
| Segments.ResultIrrelevant | src/Segment.cpp:48-52 | the initial `result` affects neither the flag nor the point written |
| Segments.PointOfSegmentWithinTolerance | src/Segment.cpp:60-63 | every point of the segment passes the tolerance test: its distances to the ends add up to the length |
| Segments.FourthPointIgnored | src/Segment.cpp:67-78 | neither static overload depends on its fourth point, and they agree on the flag |
| Transformables.New | src/Transformable.cpp:31-36 | the constructor stores its arguments with origin (0, 0), and marks both identity matrices fresh |
| Transformables.Init | src/Transformable.cpp:52-63 | `init` gives the state of a new object at (0, 0), rotation 0, scale (1, 1) |
| Transformables.SetPositionX | src/Transformable.cpp:66-72 | only the x of the position changes, and both matrices go stale |
| Transformables.SetPositionY | src/Transformable.cpp:75-81 | only the y of the position changes, and both matrices go stale |
| Transformables.SetPosition | src/Transformable.cpp:84-94 | only the position changes, and both matrices go stale |
| Transformables.Move | src/Transformable.cpp:109-120 | `move` is `setPosition` to the shifted position |
| Transformables.SetRotation | src/Transformable.cpp:141-147 | only the rotation changes, and both matrices go stale |
| Transformables.SetScaleX | src/Transformable.cpp:162-171 | a positive factor is stored and invalidates; any other factor leaves the state untouched |
| Transformables.SetScaleY | src/Transformable.cpp:174-183 | a positive factor is stored and invalidates; any other factor leaves the state untouched |
| Transformables.SetScale | src/Transformable.cpp:186-196 | each axis takes its factor only when that factor is positive; if either is taken both caches go stale and position, rotation and origin are unchanged, otherwise nothing changes |
| Transformables.ScaleX | src/Transformable.cpp:199-202 | the factor is added to the scale and kept only when the sum is positive; then both caches go stale and nothing else changes, otherwise nothing changes |
| Transformables.ScaleY | src/Transformable.cpp:205-208 | the factor is added to the scale and kept only when the sum is positive; then both caches go stale and nothing else changes, otherwise nothing changes |
| Transformables.Scale | src/Transformable.cpp:211-221 | `scale` is `setScale` of the sum of the scale and the factors |
| Transformables.SetOrigin | src/Transformable.cpp:230-244 | only the origin changes, and both matrices go stale |
| Transformables.ScaleStaysPositive | src/Transformable.cpp:162-221 | no scaling operation can make a positive scale factor non-positive |
| Transformables.MovesAndRotationsAdd | src/Transformable.cpp:97-153 | two moves are one move by the sum, and two rotations one rotation by the sum |
| Transformables.ScalingsAdd | src/Transformable.cpp:199-202 | two additive scalings that stay positive compose into one by the sum |
| Transformables.GetTransform | src/Transformable.cpp:289-298 | a fresh matrix is returned as cached; a stale one is rebuilt, cached and marked fresh |
| Transformables.GetTransformIdempotent | src/Transformable.cpp:289-298 | a second `getTransform` returns the same matrix and changes nothing |
| Transformables.GetInvTransform | src/Transformable.cpp:301-310 | a stale inverse is recomputed as getInverse of the current matrix, which is then fresh too; only the two caches and their flags change |
| Transformables.ToGlobal | src/Transformable.cpp:253-262 | `convertToGlobal` applies the current matrix, filling its cache |
| Transformables.ToLocal | src/Transformable.cpp:271-280 | `convertToLocal` applies the inverse matrix, filling its cache |
| Transformables.SegmentToGlobal | src/Transformable.cpp:265-268 | both ends of the segment go through the current matrix |
| Transformables.SegmentToLocal | src/Transformable.cpp:283-286 | both ends of the segment go through the inverse matrix |
| Transformables.NewIsIdentity | src/Transformable.cpp:31-36 | a new object converts every point to itself, whatever its position, rotation and scale |
| Transformables.SettersRebuild | src/Transformable.cpp:289-298 | after a setter, `getTransform` returns the matrix built from the stored fields |
| Transformables.BuiltApplies | src/Transformable.cpp:293 | the built matrix scales, then rotates about the origin, then shifts by the position |
| Transformables.BuiltAffine | src/Transformable.cpp:293 | the built matrix has bottom row (0, 0, 1) |
| Transformables.NewCoherent | src/Transformable.cpp:31-63 | construction and `init` give a state whose caches agree with its fields |
| Transformables.SettersCoherent | src/Transformable.cpp:66-244 | every setter keeps the caches coherent |
| Transformables.GettersCoherent | src/Transformable.cpp:289-310 | both getters keep the caches coherent |
| Transformables.LocalUsesInverse | src/Transformable.cpp:301-310 | in a coherent state `convertToLocal` uses getInverse of the current matrix |
| Transformables.GlobalOfLocal | src/Transformable.cpp:253-286 | converting to local and back to global gives the point back, when getDeterminant is the determinant |
| Transformables.LocalOfGlobal | src/Transformable.cpp:253-286 | converting to global and back to local gives the point back, when getDeterminant is the determinant |
| Rects.MakeRect | src/Rect.cpp:31-40 | the size is positive on both axes, and a non-positive component becomes 1 |
| Rects.DefaultRect | include/Zoost/Rect.hpp:45 | `Rect()` is the box at (0, 0) of size 1×1 |
| Rects.CornersOfRect | src/Rect.cpp:43-46 | a box contains its corner `pos` but none of its three other corners |
| Rects.Intersection | src/Rect.cpp:57-75 | on failure the reported box is `Rect()` |
| Rects.Intersects | src/Rect.cpp:49-53 | the one-argument test agrees with the two-argument one |
| Rects.IntersectionIsOverlap | src/Rect.cpp:57-68 | when the test passes, the reported box contains exactly the points of both boxes |
| Rects.IntersectsIffCommonPoint | src/Rect.cpp:57-75 | the test passes exactly when some point lies in both boxes |
| Rects.IntersectionSymmetric | src/Rect.cpp:59-62 | the flag and the box do not depend on the order of the boxes |
| Rects.IntersectionWithSelf | src/Rect.cpp:57-68 | a box meets itself, and the overlap is the box |
| Triangles.OnThirdEdgeNotContained | src/Triangle.cpp:45 | a point on the line through p1 and p3 is never contained |
| Triangles.EndsOfThirdEdgeNotContained | src/Triangle.cpp:41-45 | neither p1 nor p3 is contained |
| Triangles.DegenerateContainsNothing | src/Triangle.cpp:37-46 | three collinear points contain no point |
| Triangles.MiddleVertexContained | src/Triangle.cpp:43-45 | p2 is contained exactly when the triangle is not degenerate |
| Triangles.ContainsReversed | src/Triangle.cpp:37-53 | reversing the three points accepts the same points, and the static overload agrees |
| Triangles.ContainsBarycentric | src/Triangle.cpp:37-46 | a point with barycentric weights (w1, u, v) is contained exactly when w1 ≥ 0, u > 0 and v ≥ 0 |
| Geoms.EmptyGeom | src/Geom.cpp:32 | a new geom has no vertices, liaisons, faces or events, and both bounds are stale |
| Geoms.EmptyGeomValid | src/Geom.cpp:32 | a new geom is valid |
| Geoms.AddObserver | src/Geom.cpp:60-63 | the observer joins the set |
| Geoms.RemoveObserver | src/Geom.cpp:66-69 | the observer leaves the set |
| Geoms.AddVertex | src/Geom.cpp:132-144 | the vertex is appended at the returned position, both bounds go stale, and one `onVertexAdded` is reported |
| Geoms.AddLiaison | src/Geom.cpp:147-156 | one liaison with a fresh id is appended, and one `onLiaisonAdded` is reported |
| Geoms.AddFace | src/Geom.cpp:159-168 | one face with a fresh id is appended, and one `onFaceAdded` is reported |
| Geoms.AddVertexKeepsValid | src/Geom.cpp:132-144 | adding a vertex keeps a geom valid |
| Geoms.AddLiaisonKeepsValid | src/Geom.cpp:147-156 | adding a liaison between existing vertices keeps a geom valid |
| Geoms.AddFaceKeepsValid | src/Geom.cpp:159-168 | adding a face over existing vertices keeps a geom valid |
| Geoms.GetIndice | src/Vertex.cpp:51-60 | the search returns the vertex's own position, or the count when the vertex is not in the geom |
| Geoms.IndexOf | src/Vertex.cpp:51-60 | the index is at most the vertex count |
| Geoms.GetIndiceIsIndexOf | src/Vertex.cpp:51-60 | the loop computes the index function |
| Geoms.SetCoords | src/Vertex.cpp:38-42 | only this vertex changes, and `onVertexMoved` follows |
| Geoms.CoordsReadBack | src/Vertex.cpp:38-48 | a vertex reads back the coordinates it was created or last set with, and setting another vertex leaves it alone |
| Geoms.OnVertexMoved | src/Geom.cpp:462-469 | both bounds go stale, and observers hear `onVertexMoved` |
| Geoms.OnTransformUpdated | src/Geom.cpp:453-459 | only the global bounds go stale, and observers hear `onTransformUpdated` |
| Geoms.Clear | src/Geom.cpp:72-93 | the three lists are emptied and `onErasing` is reported; the local bounds go stale, but the global flag and box stay as they were |
| Geoms.FirstIndex | src/Geom.cpp:208-224 | the search stops at the first equal entry, or at the end |
| Geoms.RemoveLiaison | src/Geom.cpp:206-225 | a liaison that is not in the list changes nothing; one that is, is erased at its first position, which `onLiaisonRemoved` reports |
| Geoms.RemoveFace | src/Geom.cpp:228-247 | a face that is not in the list changes nothing; one that is, is erased at its first position, which is reported through `onLiaisonRemoved` |
| Geoms.RemovalsRemoveOne | src/Geom.cpp:206-247 | a removal takes away exactly one occurrence, leaves the vertices alone, and `removeFace` reports `onLiaisonRemoved` |
| Geoms.KeepLiaisons | src/Geom.cpp:173-185 | no remaining liaison touches the removed vertex |
| Geoms.LiaisonPassRemovesTouching | src/Geom.cpp:173-185 | the liaison loop keeps exactly the non-touching liaisons in order, and reports each erased one at its index at the time |
| Geoms.KeepLiaisonsMembers | src/Geom.cpp:173-185 | a liaison remains exactly when it was there and does not touch the vertex |
| Geoms.KeepLiaisonsValid | src/Geom.cpp:173-185 | filtering keeps the liaisons in range with distinct ids |
| Geoms.KeepFaces | src/Geom.cpp:187-199 | the face loop never adds faces |
| Geoms.FacePassKeepsOddPositions | src/Geom.cpp:187-199 | the face loop inspects every second face and keeps the others unseen, with the reports at the shifted indices |
| Geoms.KeepFacesMembers | src/Geom.cpp:187-199 | every face kept was in the list, and every face not touching the vertex is kept |
| Geoms.KeepFacesValid | src/Geom.cpp:187-199 | the face loop keeps the faces in range with distinct ids |
| Geoms.RemoveVertex | src/Geom.cpp:171-203 | the vertices stay; the liaison loop, then the face loop, then `onVertexRemoved` with the vertex's index |
| Geoms.RemoveVertexSkipsAdjacentFace | src/Geom.cpp:187-199 | of two consecutive faces on the removed vertex, the second survives |
| Geoms.RemoveVertexKeepsValid | src/Geom.cpp:171-203 | removing a vertex keeps a geom valid |
| Geoms.Converted | src/Geom.cpp:100-101 | one converted point per vertex |
| Geoms.ConvertedFirst | src/Geom.cpp:100-101 | each vertex goes through the other geom's forward matrix, then this geom's inverse |
| Geoms.AddVertices | src/Geom.cpp:100-101 | the vertex loop appends the converted points and one `onVertexAdded` each, filling this geom's inverse cache |
| Geoms.ShiftedLiaisons | src/Geom.cpp:103-104 | one new liaison per liaison |
| Geoms.ShiftedFaces | src/Geom.cpp:106-107 | one new face per face |
| Geoms.AddLiaisons | src/Geom.cpp:103-104 | the liaison loop appends the shifted liaisons with fresh ids, one `onLiaisonAdded` each |
| Geoms.AddFaces | src/Geom.cpp:106-107 | the face loop appends the shifted faces with fresh ids, one `onFaceAdded` each |
| Geoms.Add | src/Geom.cpp:96-116 | `add`: converted vertices, shifted liaisons and faces, both bounds stale, the observer sets merged, and the events in loop order; with no vertex to add, the vertices and transform are untouched and no invertible transform is needed |
| Geoms.AddKeepsValid | src/Geom.cpp:96-116 | `add` keeps a geom valid |
| Geoms.AddShape | src/Geom.cpp:96-101 | the vertex count is the sum of the two counts |
| Geoms.ValidAfterAdd | src/Geom.cpp:96-116 | lists built the way `add` builds them from two valid geoms are valid |
| Geoms.ShiftedLiaisonRefs | src/Geom.cpp:103-104 | the re-created liaisons join the same vertices, moved up by the offset |
| Geoms.AddLiaisonRefs | src/Geom.cpp:103-104 | after `add`, the old liaisons are followed by the other geom's, moved up by the old vertex count |
| Geoms.Copy | src/Geom.cpp:35-40 | the copy constructor gives a valid geom with the same counts and the same liaison ends |
| Geoms.Sum | src/Geom.cpp:119-123 | `operator+` gives a valid geom with the summed counts, and the other's liaisons moved past this geom's vertices |
| Geoms.Joined | src/Geom.cpp:119-123 | the local copy with the other geom added has the summed counts and the moved liaisons |
| Geoms.Assign | src/Geom.cpp:43-51 | `operator=` from another geom copies the counts, converts each vertex through the copied transform and back, and merges the observers |
| Geoms.SelfAssign | src/Geom.cpp:43-51 | `g = g` leaves the geom empty: no vertices, liaisons or faces, the same transform and observers, both bounds stale, `onErasing` logged |
| Geoms.AssignCopies | src/Geom.cpp:43-51 | when getDeterminant is the true non-zero determinant, each assigned vertex equals the original, and each liaison joins the same vertices |
| Geoms.ConvertBack | src/Geom.cpp:101 | global and then local through one coherent transformable gives the point back, when getDeterminant is the determinant |
| Geoms.IndicesStable | src/Vertex.cpp:51-60 | adding or removing liaisons and faces does not change any vertex's index |
| GeomBounds.MinMax | src/Geom.cpp:361-381 | the running minimum and maximum bound every point, and each of the four is attained by some point |
| GeomBounds.BoundsOf | src/Geom.cpp:359-391 | the box has positive size, is (0, 0) 1×1 with no vertices, covers every point in the closed sense, and its corner is attained |
| GeomBounds.BoundsTight | src/Geom.cpp:359-391 | unless all points share x (or y), the far side is attained; when they do share it, the size on that axis is 1 |
| GeomBounds.FarVertexNotContained | src/Geom.cpp:383-391 | when the x coordinates differ, some vertex is not contained in its own half-open box |
| GeomBounds.GetLocalBounds | src/Geom.cpp:429-438 | a fresh box is returned as cached; a stale one is the box of the vertices, now cached |
| GeomBounds.GlobalPoints | src/Geom.cpp:399-401 | each vertex goes through the current forward matrix |
| GeomBounds.GetGlobalBounds | src/Geom.cpp:441-450 | a fresh box is returned as cached; a stale one is the box of the global points; nothing else changes |
| GeomBounds.BoundsGettersIdempotent | src/Geom.cpp:429-450 | a second call returns the same box and changes nothing |
| GeomBounds.LocalBoundsCorrect | src/Geom.cpp:429-438 | when the cache is coherent, `getLocalBounds` is the box of the vertices |
| GeomBounds.OperationsKeepLocalBounds | src/Geom.cpp:72-247 | every mesh operation keeps the local cache coherent |
| GeomBounds.AddKeepsLocalBounds | src/Geom.cpp:109 | `add` leaves the local cache stale, hence coherent |
| GeomBounds.GlobalBoundsGoStale | src/Geom.cpp:72-93 | a cached global box survives `clear` and a move of the transformable |
| GeomBounds.ClearKeepsStaleGlobalBounds | src/Geom.cpp:72-93 | after `clear`, a cached global box away from (0, 0) differs from the box of the now empty vertex list |
| GeomBounds.TransformUpdateRefreshes | src/Geom.cpp:453-459 | after `onTransformUpdated`, `getGlobalBounds` is the box of the global points |
| GeomQueries.HitsAny | src/Geom.cpp:293-299 | the inner loop answers true exactly when some liaison of the other geom hits |
| GeomQueries.AnyPairHits | src/Geom.cpp:289-300 | both loops answer true exactly when some pair of liaisons hits |
| GeomQueries.Intersects | src/Geom.cpp:285-303 | `intersects(geom)` holds exactly when the global boxes meet and some pair of liaisons hits |
| GeomQueries.HitsWith | src/Geom.cpp:314-322 | the collecting inner loop finds a hit exactly when the boolean one does, and records each hit point in global coordinates with its two liaisons |
| GeomQueries.AllHits | src/Geom.cpp:310-323 | the collecting loops record a hit exactly when some pair hits |
| GeomQueries.NewHits | src/Geom.cpp:306-325 | hits are appended exactly when `intersects(geom)` holds |
| GeomQueries.IntersectionsOf | src/Geom.cpp:306-326 | earlier entries of the list stay; the answer is whether the list is non-empty, so it is true iff the list held entries before or the geoms intersect |
| GeomQueries.IntersectionsAgree | src/Geom.cpp:285-326 | on an empty list both `intersects` agree, and every recorded entry is a real hit |
| GeomQueries.IntersectionsAppend | src/Geom.cpp:306-326 | whatever the list held, the call appends exactly what it returns on an empty list and leaves the geom in the same state |
| GeomQueries.NoLiaisonsNoIntersection | src/Geom.cpp:285-303 | a geom without liaisons intersects nothing |
| GeomQueries.InSomeFace | src/Geom.cpp:335-337 | the loop answers true exactly when some face's triangle contains the point |
| GeomQueries.FacesContaining | src/Geom.cpp:350-353 | the collected faces are exactly the faces containing the point |
| GeomQueries.Contains | src/Geom.cpp:329-341 | `contains(point)` holds exactly when the local point is in the local box and in some face |
| GeomQueries.ContainsFaces | src/Geom.cpp:344-356 | earlier entries stay; the answer is whether the list is non-empty, so it is true iff the list held entries before or the boolean `contains` holds |
| GeomQueries.ContainsAgree | src/Geom.cpp:329-356 | on an empty list both `contains` agree, and the list holds exactly the faces containing the point |
| GeomQueries.ContainsAppend | src/Geom.cpp:344-356 | whatever the list held, the call appends exactly what it returns on an empty list and leaves the geom in the same state |
| GeomQueries.ContainedPointInBox | src/Geom.cpp:329-341 | a contained point lies in the box of the vertices when the cache is coherent |
| GeomQueries.FaceTriangle | src/Face.cpp:39-42 | `getTriangle` fills the transform cache of its geom |
| GeomQueries.FaceTriangleCorners | src/Face.cpp:39-42 | the triangle is the global image of the three corners in order, and the corners themselves for a new transformable |
| GeomQueries.FaceTriangleSeesMovedVertex | src/Face.cpp:39-42 | after `setCoords` on a face's vertex, the triangle has the new coordinates |
| GeomQueries.FaceTriangleFollowsOwner | src/Face.cpp:39-42 | the triangle follows the owner's transform at call time |
| Shapes.Put | src/Geom.cpp:132-144 | one vertex at the end, validity kept |
| Shapes.Link | src/Geom.cpp:147-156 | one liaison more, between the two given positions, validity kept for positions in range |
| Shapes.Fill | src/Geom.cpp:159-168 | one face more, over the three given positions, validity kept for positions in range |
| Shapes.Segment | src/Geom.cpp:472-482 | two vertices joined by one liaison, no face, valid |
| Shapes.Triangle | src/Geom.cpp:485-500 | three vertices, the closed outline, one face, valid |
| Shapes.Quad | src/Geom.cpp:503-521 | four vertices, the closed outline, the faces (0, 1, 2) and (2, 3, 0), valid |
| Shapes.Rectangle | src/Geom.cpp:524-527 | the quad (0, 0), (w, 0), (w, h), (0, h) |
| Shapes.RectangleBounds | src/Geom.cpp:524-527 | a rectangle of positive size has itself as local box |
| Shapes.RectangleAt | src/Geom.cpp:530-536 | the rectangle of the box's size, placed at the box's position |
| Shapes.RectangleAtPlaced | src/Geom.cpp:530-536 | in global coordinates the corners are those of the box |
| Shapes.RectangleAlong | src/Geom.cpp:539-549 | four corners pushed by `width` at the angle plus 90 and 270 degrees from the two points |
| Shapes.RectangleAlongCentred | src/Geom.cpp:539-549 | when the two directions are opposite, each pair of corners is centred on its point |
| Shapes.Scare | src/Geom.cpp:552-555 | the square of side `length` |
| Shapes.Blade | src/Geom.cpp:607-616 | one pass of the polygon loop: two rim vertices, their liaison and the face from the centre |
| Shapes.EvenSteps | src/Geom.cpp:607 | a loop stepping by 2 from k runs ⌈(count − k) / 2⌉ times |
| Shapes.PolygonStep | src/Geom.cpp:607-616 | one pass keeps the loop's facts, one pass further on |
| Shapes.PolygonLoop | src/Geom.cpp:607-616 | the loop reaches the state after all passes |
| Shapes.PolygonSides | src/Geom.cpp:600-601 | the complexity is raised to at least 5 |
| Shapes.Polygon | src/Geom.cpp:596-619 | the centre, then the rim of ⌈c / 2⌉ passes, at angles stepping by the float full turn over c from the float start angle, with their liaisons and fan, valid |
| Shapes.PolygonCounts | src/Geom.cpp:596-619 | with c the raised complexity: 2⌈c / 2⌉ + 1 vertices, ⌈c / 2⌉ liaisons and ⌈c / 2⌉ faces |
| Shapes.Circle | src/Geom.cpp:558-561 | 41 vertices, 20 liaisons, 20 faces, valid |
| Shapes.CircleIsHalfTurn | src/Geom.cpp:558-561 | the rim runs from the float start angle −13176795 / 2^23 to its negation, and each inner point is repeated |
| Shapes.RimEnds | src/Geom.cpp:607-616 | the first and last rim points, and the repeated inner ones |
| Shapes.StarPoints | src/Geom.cpp:568-569 | the complexity is raised to at least 3 |
| Shapes.StarPasses | src/Geom.cpp:575 | the pass count is 2c + 1 modulo 2^32 |
| Shapes.StarLinksAt | src/Geom.cpp:580-587 | the liaisons are (1, 2), then (k + 2, k + 3) |
| Shapes.StarFanAt | src/Geom.cpp:580-587 | the faces are (0, 1, 2), then (0, k + 2, k + 3) |
| Shapes.StarPass | src/Geom.cpp:577-589 | one pass appends its two rim points, the back liaison and face from the third pass on, and the blade's liaison and face |
| Shapes.StarStep | src/Geom.cpp:575-590 | one pass keeps the star's facts, one pass further on |
| Shapes.StarCenter | src/Geom.cpp:566-573 | the centre alone is a star after no passes |
| Shapes.StarCounts | src/Geom.cpp:575-590 | the counts 4c + 3, 4c and 4c, or 3, 1 and 1 when the bound wraps at 2^31 |
| Shapes.Star | src/Geom.cpp:564-593 | the centre, the rim, the liaisons and the fan of every pass, valid, with the counts |
| EarClipping.Orientation | src/Geom.cpp:653 | ±1 with the sign of the sum, or NaN exactly when the sum is zero |
| EarClipping.Blocked | src/Geom.cpp:669-680 | the inner loop finds a blocking vertex exactly when some active vertex other than the corners lies in the triangle |
| EarClipping.FindEar | src/Geom.cpp:657-691 | the scan stops at an ear, or at the end |
| EarClipping.FindEarFirst | src/Geom.cpp:657-691 | the scan stops at the first ear |
| EarClipping.Erase | src/Geom.cpp:685 | the entry at i is removed and the others keep their order |
| EarClipping.EraseKeepsIncreasing | src/Geom.cpp:685-686 | erasing keeps the active list increasing, and removes exactly the erased vertex |
| EarClipping.Clip | src/Geom.cpp:655-691 | each face removes one active vertex; the run finishes exactly when at most one is left; faces are over active vertices; a finished run's last face repeats a vertex |
| EarClipping.ClipRound | src/Geom.cpp:655-691 | one round adds the first ear's face and erases its middle vertex |
| EarClipping.ZeroSumStalls | src/Geom.cpp:653-665 | with a zero orientation sum, clipping stalls at once |
| EarClipping.NoEarWithoutOrientation | src/Geom.cpp:665 | with NaN for the orientation, the scan passes every position |
| EarClipping.FillAll | src/Geom.cpp:684 | one face per triple, in order, validity kept for triples in range |
| EarClipping.PutAll | src/Geom.cpp:628-629 | one vertex per point, in order, validity kept |
| EarClipping.Ring | src/Geom.cpp:635-643 | vertex k to k + 1, and the last one back to 0 |
| EarClipping.LinkRing | src/Geom.cpp:635-643 | the liaison loop builds the closed outline, validity kept |
| EarClipping.Identity | src/Geom.cpp:635-637 | the active list starts as 0, 1, …, n − 1 |
| EarClipping.ClipPolygon | src/Geom.cpp:626-692 | the points, the closed outline, and the faces of the clipping run: n − 1 of them when it finishes; valid |
| EarClipping.Outline | src/Geom.cpp:628-643 | the points as vertices and the closed outline, no face |
| EarClipping.AssignOntoEmpty | src/Geom.cpp:43-51 | assigning a shape built on a new transformable to a new geom keeps its vertices, liaisons and faces |
| EarClipping.AssignedTriangle | src/Geom.cpp:698-699 | three points give the triangle geom |
| EarClipping.AssignedSegment | src/Geom.cpp:701-702 | two points give the segment geom |
| EarClipping.PolygonOf | src/Geom.cpp:622-706 | more than three points are clipped; three give a triangle, two a segment, fewer an empty geom; always valid |
| Curves.NewCurve | src/Curve.cpp:33-35 | a new curve is an empty geom with length 0 |
| Curves.SumLengthsNonNegative | src/Curve.cpp:86 | with a sound length the summed liaison lengths are non-negative |
| Curves.AddVertex | src/Curve.cpp:81-89 | from the second vertex on, the new vertex is joined to the previous one and the length grows by that segment; the curve stays chained, coherent and valid |
| Curves.AddVertices | src/Curve.cpp:36-37 | the point loop keeps the curve chained, coherent and valid |
| Curves.FromPoints | src/Curve.cpp:33-38 | the points in order, joined into a polyline, with the summed length |
| Curves.CoherentLengthNonNegative | src/Curve.cpp:122-125 | `getLength` of a coherent curve is non-negative |
| Curves.AddConverted | src/Curve.cpp:61-62 | each vertex of the other curve is converted and chained on |
| Curves.Add | src/Curve.cpp:57-65 | only the converted vertices are copied, chained on one after the other; a curve without vertices changes nothing and needs no invertible transform |
| Curves.AddCounts | src/Curve.cpp:57-65 | a curve of n ≥ 1 vertices gains m vertices and m liaisons |
| Curves.CopyOf | src/Curve.cpp:41-45 | each copied vertex is the global image of the original; the copy's transform is the identity |
| Curves.Sum | src/Curve.cpp:68-72 | `operator+` gives a chained, coherent curve with the summed vertex count |
| Curves.Assign | src/Curve.cpp:48-54 | `operator=` from another curve resets the length to 0 and copies the counts |
| Curves.SelfAssign | src/Curve.cpp:48-54 | `c = c` gives the empty curve with length 0 |
| Curves.WalkFoundOnSegment | src/Curve.cpp:106-115 | a point the walk finds lies on one of the liaisons' segments |
| Curves.Lookup | src/Curve.cpp:92-119 | with fewer than two vertices the result is (0, 0); a found point lies on a segment of the curve |
| Curves.WalkReachesEnd | src/Curve.cpp:104-115 | walking exactly the length ahead over segments of positive length gives the last end |
| Curves.WalkLast | src/Curve.cpp:113-114 | a segment walked exactly to its end yields its second end |
| Curves.WalkStep | src/Curve.cpp:111-113 | a segment ending short of the target is passed over |
| Curves.LookupEnd | src/Curve.cpp:92-119 | on a chained curve with no zero-length segment, factor ≥ 1 gives the last vertex |
| Curves.LookupStart | src/Curve.cpp:92-119 | with a first segment of positive length, factor ≤ 0 gives the first vertex |
| Curves.LookupClampsFactor | src/Curve.cpp:98-102 | every factor gives the point of the factor clamped into [0, 1]; above 1 it is the point of 1, below 0 the point of 0 |
| Curves.WalkFindsSegment | src/Curve.cpp:106-115 | over segments of positive length, a target past the first k segments and within the end of segment k yields segment k's point at 1 − (end − target) / length |
| Curves.LookupInterior | src/Curve.cpp:92-119 | on a chained curve with segments of positive length, the distance length × clamped factor picks the segment whose prefix-length interval holds it; that segment runs from vertex k to vertex k + 1, and the result is its point at the fraction left before the distance |
| Curves.Bezier | src/Curve.cpp:128-148 | max(c, 2) + 1 samples modulo 2^32, chained, coherent and valid |
| Curves.BezierCounts | src/Curve.cpp:132-145 | complexity c gives max(c, 2) + 1 vertices, except that 0xFFFFFFFF gives none |
| Converters.Decimal | include/Zoost/Converter.hpp:41-47 | at least one digit, all decimal, one digit exactly below 10 |
| Converters.DecimalRoundTrip | include/Zoost/Converter.hpp:41-47 | reading the digits back gives the number |
| Converters.Field | src/Converter.cpp:38 | below 100 the field is the two digits of the value |
| Converters.DigitTime | src/Converter.cpp:32-39 | "hh:mm:ss" whose fields read back as the hours modulo 99, the minutes modulo 60 and the seconds modulo 60 |
| Converters.DigitTimeAlike | src/Converter.cpp:32-39 | two durations render alike exactly when those three fields agree |
| Converters.DigitTimeDropsMillis | src/Converter.cpp:34 | the milliseconds below a second are discarded |
| Converters.DigitTimeZero | src/Converter.cpp:32-39 | zero renders as "00:00:00" |
| Converters.DigitTimeWrapsAt99Hours | src/Converter.cpp:36-38 | 99 hours render as "00:00:00" and 98 hours as "98:00:00" |
| Converters.ToRads | src/Converter.cpp:42-45 | 180 degrees is the float π, and 0 is 0 |
| Converters.ToDegrees | src/Converter.cpp:48-51 | the float π is 180 degrees |
| Converters.RadsRoundTrip | src/Converter.cpp:42-51 | over the reals the two conversions undo each other |

## Left out

- Floating-point rounding, overflow of `double` and NaN arithmetic: all arithmetic is over the reals. NaN is modelled only where it decides a branch.
- `std::sqrt`, `std::cos`, `std::sin`, `std::atan` and `Vector2d::angle` are oracles passed in as parameters: include/Zoost/Vector2.hpp is not part of this model.
- `Liaison::getSegment` is not part of this model. The segment of a liaison is given by a `SegmentOracle` parameter; `Curve::operator[]` builds its segments from the vertex coordinates directly, as the source does.
- `Math::bernstein` is not modelled. `Curve::bezier` takes the sample point of step k as a parameter; only the count and order of the samples, and the chaining, are stated.
- `Converters.Decimal`: `toString` is modelled only for the unsigned integers `toDigitTime` prints. Other stream formatting is left out.
- Division by zero is excluded by a precondition rather than modelled as a result:
  - `ZMath.BinCoef` requires `BinCoefDefined` (the 32-bit divisor is non-zero). `binCoef` divides `unsigned int`s, and `fact(n)` modulo 2^32 is 0 for n ≥ 34, so `binCoef(34, 0)` divides an integer by zero. That is undefined behaviour in C++, which has no value to model.
  - In the remaining cases the source divides `double`s, and its result there is an IEEE infinity or NaN, which the real-valued model does not represent:
    - `Transforms.GetInverse` requires a non-zero `getDeterminant`, and so does every operation that converts a point to local coordinates (`CanLocalize`);
    - `Lines.IntersectionPoint` and `Segments.IntersectionPoint` exclude `DividesByZero` and `SegmentsDivideByZero`;
    - the `GeomQueries` functions require `PairsSafe`, the same exclusion over all pairs.
- Memory management, destructors and identity by address: vertices are positions, liaisons and faces carry ids.
- Observer identity and order: the set of observers is a set of numbers, and each callback is recorded once per broadcast rather than once per observer.
- The factories' own observer events: their geoms start without observers, so the events go unheard. Their `log` is not stated.
- `Geoms.Add`: adding a geom to itself (`g.add(g)`, where the source iterates lists it is growing) is not modelled; the argument is a separate value.
- `EarClipping.Clip` is given fuel, because the clipping loop of `polygon(points)` repeats forever when a scan finds no ear. The outcome says whether the loop finished, stalled or ran out of fuel; with fuel at least n − 1 it never runs out.
- The missing `return` of `polygon(points)` on its main branch, and the missing return when `Curve::operator[]` walks past its last liaison, are undefined behaviour in C++. The first returns the built geom; the second is the `FellThrough` outcome.
- `Geoms.Copy`, `Geoms.Sum` and `Geoms.Joined` state the counts, the liaison ends and validity, and not the converted vertex coordinates; `Geoms.Add` and `Geoms.Assign` state those.
- `Curves.Assign` states the length reset and the counts, not the copied lists; `Geoms.Assign` states those for the geom part. It takes its argument as a separate curve: `c = c`, which the source empties, is `Curves.SelfAssign`.
- `Geoms.Assign` takes its argument as a separate geom. For `g = g` the source empties the geom rather than copying it; that case is `Geoms.SelfAssign`.
- The getters `getVertex`, `getLiaison`, `getFace` and the three counts are sequence indexing and lengths, and are not members of their own.
