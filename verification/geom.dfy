/** `Geom` (src/Geom.cpp, src/Vertex.cpp): a mesh of vertices, liaisons
    (edges) and faces (triangles), owned by a `Transformable`.

    The C++ object owns heap-allocated vertices, liaisons and faces and
    refers to them by address. Here the mesh is an arena: a vertex is
    referred to by its position in `vertices` (the list is only ever
    appended to, or emptied by `clear`, so a position names one vertex for
    as long as it exists), and every liaison and face carries an `id`
    drawn from `nextId`, which stands for its address. The observer
    callbacks are recorded, in order, in `log`. */
module Geoms {
  import opened ZMath
  import opened Vectors
  import Tf = Transforms
  import Tb = Transformables
  import opened Rects

  /** A liaison between the vertices at positions v1 and v2. */
  datatype Liaison = Liaison(id: nat, v1: nat, v2: nat)

  /** A face over the vertices at positions v1, v2 and v3. */
  datatype Face = Face(id: nat, v1: nat, v2: nat, v3: nat)

  /** The observer callbacks, in the order they are broadcast. */
  datatype Event =
    | VertexAdded
    | LiaisonAdded
    | FaceAdded
    | VertexMoved
    | TransformUpdated
    | Erasing
    | VertexRemoved(index: nat)
    | LiaisonRemoved(index: nat)
    | FaceRemoved(index: nat)

  datatype Geom = Geom(
    tf: Tb.Transformable,
    vertices: seq<Vec>,
    liaisons: seq<Liaison>,
    faces: seq<Face>,
    localBounds: Rect,
    localFresh: bool,
    globalBounds: Rect,
    globalFresh: bool,
    observers: set<nat>,
    log: seq<Event>,
    nextId: nat)

  /** `Geom()`: no vertices, default transformable, both bounds stale. */
  function EmptyGeom(): (g: Geom)
    ensures g.vertices == [] && g.liaisons == [] && g.faces == [] && g.log == []
    ensures !g.localFresh && !g.globalFresh
    ensures g.tf.transformFresh && g.tf.invFresh
  {
    Geom(Tb.New(Zero, 0.0, Vec(1.0, 1.0)), [], [], [], DefaultRect(), false, DefaultRect(), false, {}, [], 0)
  }

  /** Every liaison and face refers to existing vertices, and the ids are
      distinct and below `nextId`. */
  predicate Valid(g: Geom)
  {
    LiaisonsValid(g.liaisons, |g.vertices|, g.nextId) && FacesValid(g.faces, |g.vertices|, g.nextId)
  }

  /** The liaisons of a valid geom: in range, with distinct ids. */
  predicate LiaisonsValid(ls: seq<Liaison>, vertexCount: nat, nextId: nat)
  {
    (forall i :: 0 <= i < |ls| ==> ls[i].v1 < vertexCount && ls[i].v2 < vertexCount && ls[i].id < nextId) &&
    (forall i, j :: 0 <= i < j < |ls| ==> ls[i].id != ls[j].id)
  }

  /** The faces of a valid geom: in range, with distinct ids. */
  predicate FacesValid(fs: seq<Face>, vertexCount: nat, nextId: nat)
  {
    (forall i :: 0 <= i < |fs| ==>
       fs[i].v1 < vertexCount && fs[i].v2 < vertexCount && fs[i].v3 < vertexCount && fs[i].id < nextId) &&
    (forall i, j :: 0 <= i < j < |fs| ==> fs[i].id != fs[j].id)
  }

  lemma EmptyGeomValid()
    ensures Valid(EmptyGeom())
  {
  }

  /** `addObserver` / `removeObserver`: the observer set, keyed by an
      identity. */
  function AddObserver(g: Geom, o: nat): (r: Geom)
    ensures r.observers == g.observers + {o}
  {
    g.(observers := g.observers + {o})
  }

  function RemoveObserver(g: Geom, o: nat): (r: Geom)
    ensures r.observers == g.observers - {o}
  {
    g.(observers := g.observers - {o})
  }

  /** `addVertex(coords)`: the new vertex and its position. Both bounds go
      stale. */
  function AddVertex(g: Geom, coords: Vec): (r: (Geom, nat))
    ensures r.1 == |g.vertices| && r.0.vertices == g.vertices + [coords]
    ensures r.0.liaisons == g.liaisons && r.0.faces == g.faces
    ensures !r.0.localFresh && !r.0.globalFresh
    ensures r.0.log == g.log + [VertexAdded]
    ensures r.0 == g.(vertices := r.0.vertices, localFresh := false, globalFresh := false, log := r.0.log)
  {
    (g.(vertices := g.vertices + [coords], localFresh := false, globalFresh := false,
        log := g.log + [VertexAdded]), |g.vertices|)
  }

  /** `addLiaison(vertex1, vertex2)`: appended at the end with a fresh id;
      the bounds flags are left alone. */
  function AddLiaison(g: Geom, v1: nat, v2: nat): (r: (Geom, Liaison))
    ensures r.1 == Liaison(g.nextId, v1, v2)
    ensures r.0.liaisons == g.liaisons + [r.1]
    ensures r.0.log == g.log + [LiaisonAdded]
    ensures r.0 == g.(liaisons := r.0.liaisons, log := r.0.log, nextId := g.nextId + 1)
  {
    var l := Liaison(g.nextId, v1, v2);
    (g.(liaisons := g.liaisons + [l], log := g.log + [LiaisonAdded], nextId := g.nextId + 1), l)
  }

  /** `addFace(vertex1, vertex2, vertex3)`. */
  function AddFace(g: Geom, v1: nat, v2: nat, v3: nat): (r: (Geom, Face))
    ensures r.1 == Face(g.nextId, v1, v2, v3)
    ensures r.0.faces == g.faces + [r.1]
    ensures r.0.log == g.log + [FaceAdded]
    ensures r.0 == g.(faces := r.0.faces, log := r.0.log, nextId := g.nextId + 1)
  {
    var f := Face(g.nextId, v1, v2, v3);
    (g.(faces := g.faces + [f], log := g.log + [FaceAdded], nextId := g.nextId + 1), f)
  }

  /** The three additions keep a geom valid when the new entry refers to
      existing vertices. */
  lemma AddVertexKeepsValid(g: Geom, coords: Vec)
    requires Valid(g)
    ensures Valid(AddVertex(g, coords).0)
  {
  }

  lemma AddLiaisonKeepsValid(g: Geom, v1: nat, v2: nat)
    requires Valid(g) && v1 < |g.vertices| && v2 < |g.vertices|
    ensures Valid(AddLiaison(g, v1, v2).0)
  {
    var r := AddLiaison(g, v1, v2).0;
    assert LiaisonsValid(g.liaisons, |g.vertices|, g.nextId + 1);
  }

  lemma AddFaceKeepsValid(g: Geom, v1: nat, v2: nat, v3: nat)
    requires Valid(g) && v1 < |g.vertices| && v2 < |g.vertices| && v3 < |g.vertices|
    ensures Valid(AddFace(g, v1, v2, v3).0)
  {
    var r := AddFace(g, v1, v2, v3).0;
    assert FacesValid(g.faces, |g.vertices|, g.nextId + 1);
  }

  /** `Vertex::getIndice`: the linear search for the first position
      holding this vertex; when the vertex is not in its owner's list, the
      search runs off the end and returns the vertex count. */
  method GetIndice(g: Geom, v: nat) returns (k: nat)
    ensures k <= |g.vertices|
    ensures k < |g.vertices| <==> v < |g.vertices|
    ensures k < |g.vertices| ==> k == v
  {
    k := 0;
    while k < |g.vertices|
      invariant k <= |g.vertices|
      invariant k <= v
      decreases |g.vertices| - k
    {
      if k == v {
        break;
      }
      k := k + 1;
    }
  }

  /** The value `getIndice` computes, for use in expressions. */
  function IndexOf(g: Geom, v: nat): (k: nat)
    ensures k <= |g.vertices|
  {
    if v < |g.vertices| then v else |g.vertices|
  }

  /** The method and the function agree. */
  method GetIndiceIsIndexOf(g: Geom, v: nat) returns (k: nat)
    ensures k == IndexOf(g, v)
  {
    k := GetIndice(g, v);
  }

  /** `Vertex::setCoords`: only this vertex changes, and `onVertexMoved`
      marks both bounds stale and broadcasts. */
  function SetCoords(g: Geom, v: nat, coords: Vec): (r: Geom)
    requires v < |g.vertices|
    ensures |r.vertices| == |g.vertices| && r.vertices[v] == coords
    ensures forall i :: 0 <= i < |g.vertices| && i != v ==> r.vertices[i] == g.vertices[i]
    ensures r == OnVertexMoved(g.(vertices := r.vertices))
  {
    OnVertexMoved(g.(vertices := g.vertices[v := coords]))
  }

  /** `Vertex::getCoords`. */
  function GetCoords(g: Geom, v: nat): Vec
    requires v < |g.vertices|
  {
    g.vertices[v]
  }

  /** A vertex reads back the coordinates it was created with, and then
      those of the last `setCoords` on it, whatever happens to the other
      vertices. */
  lemma CoordsReadBack(g: Geom, coords: Vec, v: nat, w: nat, c: Vec)
    requires v < |g.vertices| && w < |g.vertices| && w != v
    ensures GetCoords(AddVertex(g, coords).0, AddVertex(g, coords).1) == coords
    ensures GetCoords(SetCoords(g, v, c), v) == c
    ensures GetCoords(SetCoords(g, w, c), v) == GetCoords(g, v)
  {
  }

  /** `onVertexMoved`. */
  function OnVertexMoved(g: Geom): (r: Geom)
    ensures !r.localFresh && !r.globalFresh && r.log == g.log + [VertexMoved]
  {
    g.(localFresh := false, globalFresh := false, log := g.log + [VertexMoved])
  }

  /** `onTransformUpdated`: only the global bounds go stale. */
  function OnTransformUpdated(g: Geom): (r: Geom)
    ensures !r.globalFresh && r.localFresh == g.localFresh && r.log == g.log + [TransformUpdated]
  {
    g.(globalFresh := false, log := g.log + [TransformUpdated])
  }

  /** `clear()`: the three lists are emptied, `onErasing` is broadcast,
      and only the local bounds flag is reset. */
  function Clear(g: Geom): (r: Geom)
    ensures r.vertices == [] && r.liaisons == [] && r.faces == []
    ensures r.log == g.log + [Erasing]
    ensures !r.localFresh && r.globalFresh == g.globalFresh && r.globalBounds == g.globalBounds
    ensures r.observers == g.observers && r.tf == g.tf
  {
    g.(vertices := [], liaisons := [], faces := [], localFresh := false, log := g.log + [Erasing])
  }

  /** The position of the first entry equal to x, or |s| when there is
      none. */
  function FirstIndex<T(==)>(s: seq<T>, x: T): (k: nat)
    ensures k <= |s|
    ensures k < |s| ==> s[k] == x
    ensures forall i :: 0 <= i < k ==> s[i] != x
  {
    if |s| == 0 then 0
    else if s[0] == x then 0
    else 1 + FirstIndex(s[1..], x)
  }

  /** `removeLiaison(liaison)`: the liaison is erased from the position
      where it is found, and `onLiaisonRemoved` reports that position. A
      liaison that is not in the list changes nothing. */
  function RemoveLiaison(g: Geom, l: Liaison): (r: Geom)
    ensures l !in g.liaisons ==> r == g
    ensures l in g.liaisons ==>
      var k := FirstIndex(g.liaisons, l);
      r == g.(liaisons := g.liaisons[..k] + g.liaisons[k + 1..], log := g.log + [LiaisonRemoved(k)])
  {
    var k := FirstIndex(g.liaisons, l);
    if k < |g.liaisons| then
      g.(liaisons := g.liaisons[..k] + g.liaisons[k + 1..], log := g.log + [LiaisonRemoved(k)])
    else g
  }

  /** `removeFace(face)`: the same search and erase over the faces; the
      broadcast is `onLiaisonRemoved`, not `onFaceRemoved`. */
  function RemoveFace(g: Geom, f: Face): (r: Geom)
    ensures f !in g.faces ==> r == g
    ensures f in g.faces ==>
      var k := FirstIndex(g.faces, f);
      r == g.(faces := g.faces[..k] + g.faces[k + 1..], log := g.log + [LiaisonRemoved(k)])
  {
    var k := FirstIndex(g.faces, f);
    if k < |g.faces| then
      g.(faces := g.faces[..k] + g.faces[k + 1..], log := g.log + [LiaisonRemoved(k)])
    else g
  }

  /** In a valid geom a removal takes away exactly one occurrence (the
      ids make entries unique), keeps the others in order and leaves the
      vertex list, and so every vertex position, alone. */
  lemma RemovalsRemoveOne(g: Geom, l: Liaison, f: Face)
    requires l in g.liaisons && f in g.faces
    ensures multiset(RemoveLiaison(g, l).liaisons) + multiset{l} == multiset(g.liaisons)
    ensures multiset(RemoveFace(g, f).faces) + multiset{f} == multiset(g.faces)
    ensures RemoveLiaison(g, l).vertices == g.vertices && RemoveFace(g, f).vertices == g.vertices
    ensures RemoveFace(g, f).log[|g.log|] == LiaisonRemoved(FirstIndex(g.faces, f))
  {
    var k := FirstIndex(g.liaisons, l);
    assert g.liaisons == g.liaisons[..k] + [l] + g.liaisons[k + 1..];
    var j := FirstIndex(g.faces, f);
    assert g.faces == g.faces[..j] + [f] + g.faces[j + 1..];
  }

  predicate LiaisonTouches(l: Liaison, v: nat)
  {
    l.v1 == v || l.v2 == v
  }

  predicate FaceTouches(f: Face, v: nat)
  {
    f.v1 == v || f.v2 == v || f.v3 == v
  }

  /** The liaison loop of `removeVertex`, from position k of the current
      list: a matching liaison is erased and reported at k, and the scan
      stays at k; otherwise it moves on. */
  function LiaisonPass(ls: seq<Liaison>, v: nat, k: nat): (seq<Liaison>, seq<Event>)
    decreases |ls| - k, |ls|
  {
    if k >= |ls| then (ls, [])
    else if LiaisonTouches(ls[k], v) then
      var after := LiaisonPass(ls[..k] + ls[k + 1..], v, k);
      (after.0, [LiaisonRemoved(k)] + after.1)
    else LiaisonPass(ls, v, k + 1)
  }

  /** The liaisons that do not touch v, in order. */
  function KeepLiaisons(ls: seq<Liaison>, v: nat): (r: seq<Liaison>)
    ensures forall i :: 0 <= i < |r| ==> !LiaisonTouches(r[i], v)
    ensures |r| <= |ls|
  {
    if |ls| == 0 then []
    else (if LiaisonTouches(ls[0], v) then [] else [ls[0]]) + KeepLiaisons(ls[1..], v)
  }

  /** The reports the liaison loop makes: each touching liaison at the
      number of liaisons kept before it, counted from `base`. */
  function LiaisonReports(ls: seq<Liaison>, v: nat, base: nat): seq<Event>
  {
    if |ls| == 0 then []
    else if LiaisonTouches(ls[0], v) then [LiaisonRemoved(base)] + LiaisonReports(ls[1..], v, base)
    else LiaisonReports(ls[1..], v, base + 1)
  }

  /** The liaison loop removes exactly the liaisons touching v, keeps the
      others in order, and reports each removal at its position in the
      list at that moment. */
  lemma {:induction false} LiaisonPassRemovesTouching(kept: seq<Liaison>, rest: seq<Liaison>, v: nat)
    requires forall i :: 0 <= i < |kept| ==> !LiaisonTouches(kept[i], v)
    ensures LiaisonPass(kept + rest, v, |kept|) == (kept + KeepLiaisons(rest, v), LiaisonReports(rest, v, |kept|))
    decreases |rest|
  {
    var ls := kept + rest;
    if |rest| == 0 {
      assert ls == kept;
    } else if LiaisonTouches(rest[0], v) {
      assert ls[|kept|] == rest[0];
      assert ls[..|kept|] + ls[|kept| + 1..] == kept + rest[1..];
      LiaisonPassRemovesTouching(kept, rest[1..], v);
      assert KeepLiaisons(rest, v) == KeepLiaisons(rest[1..], v);
    } else {
      assert ls[|kept|] == rest[0];
      assert ls == (kept + [rest[0]]) + rest[1..];
      LiaisonPassRemovesTouching(kept + [rest[0]], rest[1..], v);
      assert KeepLiaisons(rest, v) == [rest[0]] + KeepLiaisons(rest[1..], v);
      assert (kept + [rest[0]]) + KeepLiaisons(rest[1..], v) == kept + KeepLiaisons(rest, v);
    }
  }

  /** The face loop of `removeVertex`: after an erase the index is still
      incremented, and after a miss it is incremented twice, so the entry
      following each inspected one is never inspected. */
  function FacePass(fs: seq<Face>, v: nat, k: nat): (seq<Face>, seq<Event>)
    decreases |fs| - k, |fs|
  {
    if k >= |fs| then (fs, [])
    else if FaceTouches(fs[k], v) then
      var after := FacePass(fs[..k] + fs[k + 1..], v, k + 1);
      (after.0, [FaceRemoved(k)] + after.1)
    else FacePass(fs, v, k + 2)
  }

  /** The faces the loop keeps: it inspects only the faces at even
      positions of the original list (each step, erase or not, advances
      two original positions), so a touching face at an odd position
      survives. */
  function KeepFaces(fs: seq<Face>, v: nat): (r: seq<Face>)
    ensures |r| <= |fs|
  {
    if |fs| == 0 then []
    else
      (if FaceTouches(fs[0], v) then [] else [fs[0]]) +
      (if |fs| == 1 then [] else [fs[1]] + KeepFaces(fs[2..], v))
  }

  /** The reports of the face loop: each erased face at its position at
      that moment, counted from `base`. */
  function FaceReports(fs: seq<Face>, v: nat, base: nat): seq<Event>
  {
    if |fs| == 0 then []
    else
      var head := if FaceTouches(fs[0], v) then [FaceRemoved(base)] else [];
      var next := if FaceTouches(fs[0], v) then base + 1 else base + 2;
      if |fs| == 1 then head else head + FaceReports(fs[2..], v, next)
  }

  /** The face loop, characterised by the original positions: the faces
      at even positions that touch v are erased, everything else stays in
      order. */
  lemma {:induction false} FacePassKeepsOddPositions(done: seq<Face>, rest: seq<Face>, v: nat)
    ensures FacePass(done + rest, v, |done|) == (done + KeepFaces(rest, v), FaceReports(rest, v, |done|))
    decreases |rest|
  {
    if |rest| == 0 {
      FacePassEnd(done + rest, v, |done|);
      assert done + rest == done;
    } else if |rest| == 1 {
      FacePassLast(done, rest[0], v);
      assert done + rest == done + [rest[0]];
    } else if FaceTouches(rest[0], v) {
      FacePassKeepsOddPositions(done + [rest[1]], rest[2..], v);
      FacePassErases(done, rest, v);
      KeepFacesErased(done, rest, v);
    } else {
      FacePassKeepsOddPositions(done + [rest[0], rest[1]], rest[2..], v);
      FacePassSkips(done, rest, v);
      KeepFacesSkipped(done, rest, v);
    }
  }

  /** The face loop on the last face of the list. */
  lemma FacePassLast(done: seq<Face>, f: Face, v: nat)
    ensures FacePass(done + [f], v, |done|) == (done + KeepFaces([f], v), FaceReports([f], v, |done|))
  {
    assert KeepFaces([f], v) == if FaceTouches(f, v) then [] else [f];
    assert FaceReports([f], v, |done|) == if FaceTouches(f, v) then [FaceRemoved(|done|)] else [];
    FacePassEnd(done, v, |done| + 1);
    if FaceTouches(f, v) {
      FacePassErasesLast(done, f, v);
      assert done + [] == done && [FaceRemoved(|done|)] + [] == [FaceRemoved(|done|)];
    } else {
      FacePassSkipStep(done + [f], v, |done|);
      FacePassEnd(done + [f], v, |done| + 2);
    }
  }

  lemma FacePassErasesLast(done: seq<Face>, f: Face, v: nat)
    requires FaceTouches(f, v)
    ensures FacePass(done + [f], v, |done|) ==
      (FacePass(done, v, |done| + 1).0, [FaceRemoved(|done|)] + FacePass(done, v, |done| + 1).1)
  {
    var fs := done + [f];
    assert fs[|done|] == f;
    assert fs[..|done|] + fs[|done| + 1..] == done;
  }

  /** An erasing step of the face loop at the first face of `rest`: the
      next face moves into its place and is passed over. */
  lemma FacePassErases(done: seq<Face>, rest: seq<Face>, v: nat)
    requires |rest| >= 2 && FaceTouches(rest[0], v)
    ensures FacePass(done + rest, v, |done|) ==
      (FacePass(done + [rest[1]] + rest[2..], v, |done| + 1).0,
       [FaceRemoved(|done|)] + FacePass(done + [rest[1]] + rest[2..], v, |done| + 1).1)
  {
    var fs := done + rest;
    assert fs[|done|] == rest[0];
    FacePassEraseStep(fs, v, |done|);
    ErasedList(done, rest);
  }

  lemma ErasedList(done: seq<Face>, rest: seq<Face>)
    requires |rest| >= 2
    ensures (done + rest)[..|done|] + (done + rest)[|done| + 1..] == done + [rest[1]] + rest[2..]
  {
  }

  /** A skipping step: the loop moves two places on. */
  lemma FacePassSkips(done: seq<Face>, rest: seq<Face>, v: nat)
    requires |rest| >= 2 && !FaceTouches(rest[0], v)
    ensures FacePass(done + rest, v, |done|) == FacePass(done + [rest[0], rest[1]] + rest[2..], v, |done| + 2)
  {
    SkippedList(done, rest);
    FacePassSkipStep(done + rest, v, |done|);
  }

  lemma SkippedList(done: seq<Face>, rest: seq<Face>)
    requires |rest| >= 2
    ensures (done + rest)[|done|] == rest[0]
    ensures done + rest == done + [rest[0], rest[1]] + rest[2..]
  {
  }

  /** The reference side of the two steps. */
  lemma KeepFacesErased(done: seq<Face>, rest: seq<Face>, v: nat)
    requires |rest| >= 2 && FaceTouches(rest[0], v)
    ensures done + KeepFaces(rest, v) == done + [rest[1]] + KeepFaces(rest[2..], v)
    ensures FaceReports(rest, v, |done|) == [FaceRemoved(|done|)] + FaceReports(rest[2..], v, |done| + 1)
    ensures |done + [rest[1]]| == |done| + 1
  {
    KeepFacesStep(rest, v);
    AppendAssociative(done, [rest[1]], KeepFaces(rest[2..], v));
  }

  lemma KeepFacesSkipped(done: seq<Face>, rest: seq<Face>, v: nat)
    requires |rest| >= 2 && !FaceTouches(rest[0], v)
    ensures done + KeepFaces(rest, v) == done + [rest[0], rest[1]] + KeepFaces(rest[2..], v)
    ensures FaceReports(rest, v, |done|) == FaceReports(rest[2..], v, |done| + 2)
    ensures |done + [rest[0], rest[1]]| == |done| + 2
  {
    KeepFacesStep(rest, v);
    assert [rest[0]] + ([rest[1]] + KeepFaces(rest[2..], v)) == [rest[0], rest[1]] + KeepFaces(rest[2..], v);
    AppendAssociative(done, [rest[0], rest[1]], KeepFaces(rest[2..], v));
  }

  lemma KeepFacesStep(fs: seq<Face>, v: nat)
    requires |fs| >= 2
    ensures KeepFaces(fs, v) == (if FaceTouches(fs[0], v) then [] else [fs[0]]) + ([fs[1]] + KeepFaces(fs[2..], v))
  {
  }

  lemma AppendAssociative<T>(a: seq<T>, b: seq<T>, c: seq<T>)
    ensures a + b + c == a + (b + c)
  {
  }

  /** The three cases of the face loop, one step at a time. */
  lemma FacePassEnd(fs: seq<Face>, v: nat, k: nat)
    requires k >= |fs|
    ensures FacePass(fs, v, k) == (fs, [])
  {
  }

  lemma FacePassEraseStep(fs: seq<Face>, v: nat, k: nat)
    requires k < |fs| && FaceTouches(fs[k], v)
    ensures FacePass(fs, v, k) ==
      (FacePass(fs[..k] + fs[k + 1..], v, k + 1).0, [FaceRemoved(k)] + FacePass(fs[..k] + fs[k + 1..], v, k + 1).1)
  {
  }

  lemma FacePassSkipStep(fs: seq<Face>, v: nat, k: nat)
    requires k < |fs| && !FaceTouches(fs[k], v)
    ensures FacePass(fs, v, k) == FacePass(fs, v, k + 2)
  {
  }

  /** `removeVertex(vertex)`: the liaison loop, the face loop, then
      `onVertexRemoved(vertex.getIndice())`. The vertex itself stays in
      the vertex list, and the bounds flags are left alone. */
  function RemoveVertex(g: Geom, v: nat): (r: Geom)
    ensures r.vertices == g.vertices
    ensures r.liaisons == KeepLiaisons(g.liaisons, v)
    ensures r.faces == KeepFaces(g.faces, v)
    ensures r.log == g.log + LiaisonReports(g.liaisons, v, 0) + FaceReports(g.faces, v, 0) + [VertexRemoved(IndexOf(g, v))]
    ensures r.localFresh == g.localFresh && r.globalFresh == g.globalFresh
  {
    var (ls, le) := LiaisonPass(g.liaisons, v, 0);
    var (fs, fe) := FacePass(g.faces, v, 0);
    LiaisonPassRemovesTouching([], g.liaisons, v);
    FacePassKeepsOddPositions([], g.faces, v);
    assert [] + g.liaisons == g.liaisons && [] + g.faces == g.faces;
    g.(liaisons := ls, faces := fs, log := g.log + le + fe + [VertexRemoved(IndexOf(g, v))])
  }

  /** Two faces on the removed vertex, one after the other: the second is
      skipped by the face loop and survives. */
  lemma RemoveVertexSkipsAdjacentFace(g: Geom, f1: Face, f2: Face, v: nat)
    requires g.faces == [f1, f2] && FaceTouches(f1, v) && FaceTouches(f2, v)
    ensures RemoveVertex(g, v).faces == [f2]
  {
    assert g.faces[2..] == [];
  }

  /** The liaison filter keeps exactly the liaisons not touching v. */
  lemma {:induction false} KeepLiaisonsMembers(ls: seq<Liaison>, v: nat)
    ensures forall l :: l in KeepLiaisons(ls, v) <==> l in ls && !LiaisonTouches(l, v)
    decreases |ls|
  {
    if |ls| > 0 {
      KeepLiaisonsMembers(ls[1..], v);
      assert forall l :: l in ls <==> l == ls[0] || l in ls[1..];
    }
  }

  lemma {:induction false} KeepLiaisonsValid(ls: seq<Liaison>, v: nat, vertexCount: nat, nextId: nat)
    requires LiaisonsValid(ls, vertexCount, nextId)
    ensures LiaisonsValid(KeepLiaisons(ls, v), vertexCount, nextId)
    decreases |ls|
  {
    if |ls| > 0 {
      var t := KeepLiaisons(ls[1..], v);
      assert LiaisonsValid(ls[1..], vertexCount, nextId);
      KeepLiaisonsValid(ls[1..], v, vertexCount, nextId);
      KeepLiaisonsMembers(ls[1..], v);
      LaterIdsDiffer(ls, t);
      if !LiaisonTouches(ls[0], v) {
        ConsLiaisonsValid(ls[0], t, vertexCount, nextId);
      }
    }
  }

  /** Liaisons drawn from the tail of a list with distinct ids all differ
      in id from its head. */
  lemma LaterIdsDiffer(ls: seq<Liaison>, t: seq<Liaison>)
    requires |ls| > 0 && forall i, j :: 0 <= i < j < |ls| ==> ls[i].id != ls[j].id
    requires forall l :: l in t ==> l in ls[1..]
    ensures forall i :: 0 <= i < |t| ==> t[i].id != ls[0].id
  {
    forall i | 0 <= i < |t| ensures t[i].id != ls[0].id {
      assert t[i] in ls[1..];
      var k :| 0 <= k < |ls[1..]| && ls[1..][k] == t[i];
      assert ls[k + 1] == t[i];
    }
  }

  /** A liaison in range, whose id no liaison of a valid list has, can
      head that list. */
  lemma ConsLiaisonsValid(x: Liaison, t: seq<Liaison>, vertexCount: nat, nextId: nat)
    requires LiaisonsValid(t, vertexCount, nextId)
    requires x.v1 < vertexCount && x.v2 < vertexCount && x.id < nextId
    requires forall i :: 0 <= i < |t| ==> t[i].id != x.id
    ensures LiaisonsValid([x] + t, vertexCount, nextId)
  {
    var r := [x] + t;
    assert forall i :: 1 <= i < |r| ==> r[i] == t[i - 1];
  }

  /** The face filter keeps only faces of the list, and every face not
      touching v. */
  lemma {:induction false} KeepFacesMembers(fs: seq<Face>, v: nat)
    ensures forall f :: f in KeepFaces(fs, v) ==> f in fs
    ensures forall f :: f in fs && !FaceTouches(f, v) ==> f in KeepFaces(fs, v)
    decreases |fs|
  {
    if |fs| >= 2 {
      KeepFacesMembers(fs[2..], v);
      assert forall f :: f in fs <==> f == fs[0] || f == fs[1] || f in fs[2..];
    }
  }

  lemma {:induction false} KeepFacesValid(fs: seq<Face>, v: nat, vertexCount: nat, nextId: nat)
    requires FacesValid(fs, vertexCount, nextId)
    ensures FacesValid(KeepFaces(fs, v), vertexCount, nextId)
    decreases |fs|
  {
    if |fs| >= 2 {
      var t := KeepFaces(fs[2..], v);
      assert FacesValid(fs[2..], vertexCount, nextId);
      KeepFacesValid(fs[2..], v, vertexCount, nextId);
      KeepFacesMembers(fs[2..], v);
      forall i | 0 <= i < |t| ensures t[i].id != fs[0].id && t[i].id != fs[1].id {
        assert t[i] in fs[2..];
        var k :| 0 <= k < |fs[2..]| && fs[2..][k] == t[i];
        assert fs[k + 2] == t[i];
      }
      var r := KeepFaces(fs, v);
      var tail := [fs[1]] + t;
      assert FacesValid(tail, vertexCount, nextId);
      assert r == tail || r == [fs[0]] + tail;
    }
  }

  /** Removing a vertex keeps the geom valid: the vertex list is unchanged
      and the surviving entries are entries of the original lists. */
  lemma RemoveVertexKeepsValid(g: Geom, v: nat)
    requires Valid(g)
    ensures Valid(RemoveVertex(g, v))
  {
    KeepLiaisonsValid(g.liaisons, v, |g.vertices|, g.nextId);
    KeepFacesValid(g.faces, v, |g.vertices|, g.nextId);
  }

  /** The transformable's inverse is available: cached, or computable
      because `getDeterminant` of the current matrix is non-zero. */
  predicate CanLocalize(t: Tb.Transformable, trig: Tf.TrigOracle)
  {
    t.invFresh || Tf.GetDeterminant(Tb.CurrentTransform(t, trig)) != 0.0
  }

  /** The matrix `convertToLocal` uses in state t. */
  function LocalMatrix(t: Tb.Transformable, trig: Tf.TrigOracle): Tf.Transform
    requires CanLocalize(t, trig)
  {
    Tb.GetInvTransform(t, trig).1
  }

  /** n copies of one event. */
  function Repeat(e: Event, n: nat): (r: seq<Event>)
    ensures |r| == n && forall i :: 0 <= i < n ==> r[i] == e
  {
    if n == 0 then [] else [e] + Repeat(e, n - 1)
  }

  /** The coordinates `add` gives the copied vertices: each one taken to
      global coordinates by the other geom's matrix, then to this geom's
      local coordinates. */
  function Converted(cs: seq<Vec>, fwd: Tf.Transform, inv: Tf.Transform): (r: seq<Vec>)
    ensures |r| == |cs|
  {
    seq(|cs|, i requires 0 <= i < |cs| => Tf.Apply(inv, Tf.Apply(fwd, cs[i])))
  }

  lemma ConvertedFirst(cs: seq<Vec>, fwd: Tf.Transform, inv: Tf.Transform)
    requires |cs| > 0
    ensures Converted(cs, fwd, inv) == [Tf.Apply(inv, Tf.Apply(fwd, cs[0]))] + Converted(cs[1..], fwd, inv)
  {
  }

  /** The vertex loop of `add`: one `convertToLocal` and one `addVertex`
      per vertex. The first conversion caches the inverse, and the later
      ones reuse it, so every vertex goes through the same matrix. */
  function AddVertices(g: Geom, cs: seq<Vec>, fwd: Tf.Transform, trig: Tf.TrigOracle): (r: Geom)
    requires CanLocalize(g.tf, trig)
    ensures r.vertices == g.vertices + Converted(cs, fwd, LocalMatrix(g.tf, trig))
    ensures r.liaisons == g.liaisons && r.faces == g.faces && r.nextId == g.nextId
    ensures r.observers == g.observers
    ensures r.log == g.log + Repeat(VertexAdded, |cs|)
    ensures |cs| == 0 ==> r == g
    ensures |cs| > 0 ==> r.tf == Tb.GetInvTransform(g.tf, trig).0 && !r.localFresh && !r.globalFresh
    decreases |cs|
  {
    if |cs| == 0 then g
    else
      var (tf, q) := Tb.ToLocal(g.tf, trig, Tf.Apply(fwd, cs[0]));
      var next := AddVertex(g.(tf := tf), q).0;
      assert CanLocalize(next.tf, trig);
      var r := AddVertices(next, cs[1..], fwd, trig);
      assert LocalMatrix(next.tf, trig) == LocalMatrix(g.tf, trig);
      assert Converted(cs, fwd, LocalMatrix(g.tf, trig)) == [q] + Converted(cs[1..], fwd, LocalMatrix(g.tf, trig));
      assert g.log + [VertexAdded] + Repeat(VertexAdded, |cs| - 1) == g.log + Repeat(VertexAdded, |cs|);
      r
  }

  /** The liaisons of another geom, as `add` recreates them: the vertex
      positions moved up by `offset`, the ids fresh from `firstId`. */
  function ShiftedLiaisons(ls: seq<Liaison>, offset: nat, firstId: nat): (r: seq<Liaison>)
    ensures |r| == |ls|
  {
    seq(|ls|, i requires 0 <= i < |ls| => Liaison(firstId + i, ls[i].v1 + offset, ls[i].v2 + offset))
  }

  function ShiftedFaces(fs: seq<Face>, offset: nat, firstId: nat): (r: seq<Face>)
    ensures |r| == |fs|
  {
    seq(|fs|, i requires 0 <= i < |fs| => Face(firstId + i, fs[i].v1 + offset, fs[i].v2 + offset, fs[i].v3 + offset))
  }

  /** The liaison loop of `add`: one `addLiaison` per liaison. */
  function AddLiaisons(g: Geom, ls: seq<Liaison>, offset: nat): (r: Geom)
    ensures r.liaisons == g.liaisons + ShiftedLiaisons(ls, offset, g.nextId)
    ensures r.nextId == g.nextId + |ls|
    ensures r.log == g.log + Repeat(LiaisonAdded, |ls|)
    ensures r == g.(liaisons := r.liaisons, nextId := r.nextId, log := r.log)
    decreases |ls|
  {
    if |ls| == 0 then g
    else
      var next := AddLiaison(g, ls[0].v1 + offset, ls[0].v2 + offset).0;
      var r := AddLiaisons(next, ls[1..], offset);
      assert ShiftedLiaisons(ls, offset, g.nextId) ==
        [Liaison(g.nextId, ls[0].v1 + offset, ls[0].v2 + offset)] + ShiftedLiaisons(ls[1..], offset, g.nextId + 1);
      assert g.log + [LiaisonAdded] + Repeat(LiaisonAdded, |ls| - 1) == g.log + Repeat(LiaisonAdded, |ls|);
      r
  }

  /** The face loop of `add`: one `addFace` per face. */
  function AddFaces(g: Geom, fs: seq<Face>, offset: nat): (r: Geom)
    ensures r.faces == g.faces + ShiftedFaces(fs, offset, g.nextId)
    ensures r.nextId == g.nextId + |fs|
    ensures r.log == g.log + Repeat(FaceAdded, |fs|)
    ensures r == g.(faces := r.faces, nextId := r.nextId, log := r.log)
    decreases |fs|
  {
    if |fs| == 0 then g
    else
      var next := AddFace(g, fs[0].v1 + offset, fs[0].v2 + offset, fs[0].v3 + offset).0;
      var r := AddFaces(next, fs[1..], offset);
      assert ShiftedFaces(fs, offset, g.nextId) ==
        [Face(g.nextId, fs[0].v1 + offset, fs[0].v2 + offset, fs[0].v3 + offset)] + ShiftedFaces(fs[1..], offset, g.nextId + 1);
      assert g.log + [FaceAdded] + Repeat(FaceAdded, |fs| - 1) == g.log + Repeat(FaceAdded, |fs|);
      r
  }

  /** `add(geom)`: the other geom's vertices, converted, then its liaisons
      and faces with their vertex positions (its `getIndice`, which in a
      valid geom is the position itself) moved up by the old vertex count.
      Both bounds go stale and the observer sets are united. Only the
      vertex loop calls `convertToLocal`, so a geom without vertices is
      added whatever this geom's transform. */
  function Add(g: Geom, other: Geom, trig: Tf.TrigOracle): (r: Geom)
    requires Valid(other) && (|other.vertices| == 0 || CanLocalize(g.tf, trig))
    ensures |other.vertices| == 0 ==> r.vertices == g.vertices
    ensures CanLocalize(g.tf, trig) ==>
      r.vertices == g.vertices + Converted(other.vertices, Tb.CurrentTransform(other.tf, trig), LocalMatrix(g.tf, trig))
    ensures r.liaisons == g.liaisons + ShiftedLiaisons(other.liaisons, |g.vertices|, g.nextId)
    ensures r.faces == g.faces + ShiftedFaces(other.faces, |g.vertices|, g.nextId + |other.liaisons|)
    ensures !r.localFresh && !r.globalFresh
    ensures r.observers == g.observers + other.observers
    ensures r.log == g.log + Repeat(VertexAdded, |other.vertices|) + Repeat(LiaisonAdded, |other.liaisons|) +
      Repeat(FaceAdded, |other.faces|)
    ensures r.nextId == g.nextId + |other.liaisons| + |other.faces|
    ensures r.tf == if |other.vertices| == 0 then g.tf else Tb.GetInvTransform(g.tf, trig).0
  {
    var offset := |g.vertices|;
    var g1 := if |other.vertices| == 0 then g else AddVertices(g, other.vertices, Tb.CurrentTransform(other.tf, trig), trig);
    var g2 := AddLiaisons(g1, other.liaisons, offset);
    var g3 := AddFaces(g2, other.faces, offset);
    g3.(localFresh := false, globalFresh := false, observers := g3.observers + other.observers)
  }

  /** `add` keeps a geom valid: the copied entries point past the old
      vertices into the copied ones, and their ids are above every id in
      use. */
  lemma AddKeepsValid(g: Geom, other: Geom, trig: Tf.TrigOracle)
    requires Valid(g) && Valid(other) && (|other.vertices| == 0 || CanLocalize(g.tf, trig))
    ensures Valid(Add(g, other, trig))
  {
    AddShape(g, other, trig);
    ValidAfterAdd(Add(g, other, trig), g, other);
  }

  lemma AddShape(g: Geom, other: Geom, trig: Tf.TrigOracle)
    requires Valid(other) && (|other.vertices| == 0 || CanLocalize(g.tf, trig))
    ensures |Add(g, other, trig).vertices| == |g.vertices| + |other.vertices|
  {
  }

  /** A geom whose lists are those `add` builds from two valid geoms is
      valid. */
  lemma ValidAfterAdd(r: Geom, g: Geom, other: Geom)
    requires Valid(g) && Valid(other)
    requires |r.vertices| == |g.vertices| + |other.vertices|
    requires r.liaisons == g.liaisons + ShiftedLiaisons(other.liaisons, |g.vertices|, g.nextId)
    requires r.faces == g.faces + ShiftedFaces(other.faces, |g.vertices|, g.nextId + |other.liaisons|)
    requires r.nextId == g.nextId + |other.liaisons| + |other.faces|
    ensures Valid(r)
  {
    AddedEntriesValid(g, other);
  }

  lemma AddedEntriesValid(g: Geom, other: Geom)
    requires Valid(g) && Valid(other)
    ensures LiaisonsValid(g.liaisons + ShiftedLiaisons(other.liaisons, |g.vertices|, g.nextId),
      |g.vertices| + |other.vertices|, g.nextId + |other.liaisons| + |other.faces|)
    ensures FacesValid(g.faces + ShiftedFaces(other.faces, |g.vertices|, g.nextId + |other.liaisons|),
      |g.vertices| + |other.vertices|, g.nextId + |other.liaisons| + |other.faces|)
  {
    var n := |g.vertices|;
    var count := n + |other.vertices|;
    var firstFace := g.nextId + |other.liaisons|;
    var last := firstFace + |other.faces|;
    ShiftedLiaisonsValid(other.liaisons, |other.vertices|, n, g.nextId);
    ShiftedFacesValid(other.faces, |other.vertices|, n, firstFace);
    LiaisonsValidWeaken(ShiftedLiaisons(other.liaisons, n, g.nextId), count, firstFace, last);
    LiaisonsValidWeaken(g.liaisons, n, g.nextId, g.nextId);
    FacesValidWeaken(g.faces, n, g.nextId, g.nextId);
    AppendValidLiaisons(g.liaisons, ShiftedLiaisons(other.liaisons, n, g.nextId), count, g.nextId, last);
    AppendValidFaces(g.faces, ShiftedFaces(other.faces, n, firstFace), count, firstFace, last);
  }

  lemma LiaisonsValidWeaken(ls: seq<Liaison>, count: nat, nextId: nat, newId: nat)
    requires LiaisonsValid(ls, count, nextId)
    ensures forall c: nat, id: nat :: c >= count && id >= nextId ==> LiaisonsValid(ls, c, id)
  {
  }

  lemma FacesValidWeaken(fs: seq<Face>, count: nat, nextId: nat, newId: nat)
    requires FacesValid(fs, count, nextId)
    ensures forall c: nat, id: nat :: c >= count && id >= nextId ==> FacesValid(fs, c, id)
  {
  }

  lemma ShiftedLiaisonsValid(ls: seq<Liaison>, count: nat, offset: nat, firstId: nat)
    requires forall i :: 0 <= i < |ls| ==> ls[i].v1 < count && ls[i].v2 < count
    ensures LiaisonsValid(ShiftedLiaisons(ls, offset, firstId), offset + count, firstId + |ls|)
    ensures forall i :: 0 <= i < |ls| ==> ShiftedLiaisons(ls, offset, firstId)[i].id >= firstId
  {
  }

  lemma ShiftedFacesValid(fs: seq<Face>, count: nat, offset: nat, firstId: nat)
    requires forall i :: 0 <= i < |fs| ==> fs[i].v1 < count && fs[i].v2 < count && fs[i].v3 < count
    ensures FacesValid(ShiftedFaces(fs, offset, firstId), offset + count, firstId + |fs|)
    ensures forall i :: 0 <= i < |fs| ==> ShiftedFaces(fs, offset, firstId)[i].id >= firstId
  {
  }

  lemma AppendValidLiaisons(front: seq<Liaison>, back: seq<Liaison>, vertexCount: nat, firstId: nat, nextId: nat)
    requires LiaisonsValid(front, vertexCount, firstId)
    requires LiaisonsValid(back, vertexCount, nextId)
    requires forall i :: 0 <= i < |back| ==> back[i].id >= firstId
    requires firstId <= nextId
    ensures LiaisonsValid(front + back, vertexCount, nextId)
  {
    var s := front + back;
    forall i, j | 0 <= i < j < |s| ensures s[i].id != s[j].id {
      if j >= |front| && i < |front| {
        assert s[i] == front[i] && s[j] == back[j - |front|];
      }
    }
  }

  lemma AppendValidFaces(front: seq<Face>, back: seq<Face>, vertexCount: nat, firstId: nat, nextId: nat)
    requires FacesValid(front, vertexCount, firstId)
    requires FacesValid(back, vertexCount, nextId)
    requires forall i :: 0 <= i < |back| ==> back[i].id >= firstId
    requires firstId <= nextId
    ensures FacesValid(front + back, vertexCount, nextId)
  {
    var s := front + back;
    forall i, j | 0 <= i < j < |s| ensures s[i].id != s[j].id {
      if j >= |front| && i < |front| {
        assert s[i] == front[i] && s[j] == back[j - |front|];
      }
    }
  }

  /** The vertex positions of each liaison, ids left out. */
  function LiaisonRefs(ls: seq<Liaison>): (r: seq<(nat, nat)>)
    ensures |r| == |ls|
  {
    seq(|ls|, i requires 0 <= i < |ls| => (ls[i].v1, ls[i].v2))
  }

  /** The vertex positions of each face, ids left out. */
  function FaceRefs(fs: seq<Face>): (r: seq<(nat, nat, nat)>)
    ensures |r| == |fs|
  {
    seq(|fs|, i requires 0 <= i < |fs| => (fs[i].v1, fs[i].v2, fs[i].v3))
  }

  lemma LiaisonRefsAppend(ls: seq<Liaison>, l: Liaison)
    ensures LiaisonRefs(ls + [l]) == LiaisonRefs(ls) + [(l.v1, l.v2)]
  {
    assert forall i :: 0 <= i < |ls| ==> (ls + [l])[i] == ls[i];
  }

  lemma FaceRefsAppend(fs: seq<Face>, f: Face)
    ensures FaceRefs(fs + [f]) == FaceRefs(fs) + [(f.v1, f.v2, f.v3)]
  {
    assert forall i :: 0 <= i < |fs| ==> (fs + [f])[i] == fs[i];
  }

  /** Vertex-position pairs moved up by offset. */
  function Moved(refs: seq<(nat, nat)>, offset: nat): (r: seq<(nat, nat)>)
    ensures |r| == |refs|
  {
    seq(|refs|, i requires 0 <= i < |refs| => (refs[i].0 + offset, refs[i].1 + offset))
  }

  lemma LiaisonRefsConcat(a: seq<Liaison>, b: seq<Liaison>)
    ensures LiaisonRefs(a + b) == LiaisonRefs(a) + LiaisonRefs(b)
  {
    assert forall i :: 0 <= i < |a| ==> (a + b)[i] == a[i];
    assert forall i :: |a| <= i < |a| + |b| ==> (a + b)[i] == b[i - |a|];
  }

  /** The re-created liaisons keep their ends, moved up by the offset;
      only the ids change. */
  lemma ShiftedLiaisonRefs(ls: seq<Liaison>, offset: nat, firstId: nat)
    ensures LiaisonRefs(ShiftedLiaisons(ls, offset, firstId)) == Moved(LiaisonRefs(ls), offset)
  {
  }

  /** What `add` does to the liaisons, seen through their ends: those of
      the other geom are appended, moved up by the old vertex count. */
  lemma AddLiaisonRefs(g: Geom, other: Geom, trig: Tf.TrigOracle)
    requires Valid(other) && (|other.vertices| == 0 || CanLocalize(g.tf, trig))
    ensures LiaisonRefs(Add(g, other, trig).liaisons) ==
      LiaisonRefs(g.liaisons) + Moved(LiaisonRefs(other.liaisons), |g.vertices|)
  {
    var shifted := ShiftedLiaisons(other.liaisons, |g.vertices|, g.nextId);
    LiaisonRefsConcat(g.liaisons, shifted);
    ShiftedLiaisonRefs(other.liaisons, |g.vertices|, g.nextId);
  }

  /** The copy constructor: the transformable is copied, and then `clear`
      and `add` run on the new geom. Every liaison keeps its ends. */
  function Copy(other: Geom, trig: Tf.TrigOracle): (r: Geom)
    requires Valid(other) && (|other.vertices| == 0 || CanLocalize(other.tf, trig))
    ensures |r.vertices| == |other.vertices| && |r.liaisons| == |other.liaisons| && |r.faces| == |other.faces|
    ensures LiaisonRefs(r.liaisons) == LiaisonRefs(other.liaisons)
    ensures Valid(r) && (CanLocalize(other.tf, trig) ==> CanLocalize(r.tf, trig))
    ensures |other.vertices| == 0 ==> r.tf == other.tf
  {
    var empty := Clear(EmptyGeom().(tf := other.tf));
    AddKeepsValid(empty, other, trig);
    AddLiaisonRefs(empty, other, trig);
    assert Moved(LiaisonRefs(other.liaisons), 0) == LiaisonRefs(other.liaisons);
    Add(empty, other, trig)
  }

  /** `operator+`: a copy of this geom with the other one added, returned
      by value, which copies it once more. The liaisons of the second
      operand come after those of the first, their vertex positions moved
      up by its vertex count. */
  function Sum(g: Geom, other: Geom, trig: Tf.TrigOracle): (r: Geom)
    requires Valid(g) && Valid(other) && (|g.vertices| + |other.vertices| == 0 || CanLocalize(g.tf, trig))
    ensures |r.vertices| == |g.vertices| + |other.vertices|
    ensures |r.liaisons| == |g.liaisons| + |other.liaisons| && |r.faces| == |g.faces| + |other.faces|
    ensures LiaisonRefs(r.liaisons) == LiaisonRefs(g.liaisons) + Moved(LiaisonRefs(other.liaisons), |g.vertices|)
    ensures Valid(r)
  {
    Copy(Joined(g, other, trig), trig)
  }

  /** The local result of `operator+` before it is returned: the copy of
      this geom with the other one added. */
  function Joined(g: Geom, other: Geom, trig: Tf.TrigOracle): (r: Geom)
    requires Valid(g) && Valid(other) && (|g.vertices| + |other.vertices| == 0 || CanLocalize(g.tf, trig))
    ensures |r.vertices| == |g.vertices| + |other.vertices|
    ensures |r.liaisons| == |g.liaisons| + |other.liaisons| && |r.faces| == |g.faces| + |other.faces|
    ensures LiaisonRefs(r.liaisons) == LiaisonRefs(g.liaisons) + Moved(LiaisonRefs(other.liaisons), |g.vertices|)
    ensures Valid(r) && (CanLocalize(g.tf, trig) ==> CanLocalize(r.tf, trig))
  {
    var copy := Copy(g, trig);
    AddKeepsValid(copy, other, trig);
    AddShape(copy, other, trig);
    AddLiaisonRefs(copy, other, trig);
    Add(copy, other, trig)
  }


  /** `operator=` from another geom: the transformable is copied over,
      then `clear` and `add`. Assigning a geom to itself is `SelfAssign`. */
  function Assign(g: Geom, other: Geom, trig: Tf.TrigOracle): (r: Geom)
    requires Valid(other) && (|other.vertices| == 0 || CanLocalize(other.tf, trig))
    ensures |r.vertices| == |other.vertices| && |r.liaisons| == |other.liaisons| && |r.faces| == |other.faces|
    ensures CanLocalize(other.tf, trig) ==>
      r.vertices == Converted(other.vertices, Tb.CurrentTransform(other.tf, trig), LocalMatrix(other.tf, trig))
    ensures r.liaisons == ShiftedLiaisons(other.liaisons, 0, g.nextId)
    ensures r.observers == g.observers + other.observers
  {
    Add(Clear(g.(tf := other.tf)), other, trig)
  }

  /** `g = g`: copying the transformable onto itself changes nothing,
      `clear` empties the lists, and `add` then walks the lists it has
      just emptied. The geom ends EMPTY, with both bounds stale and
      `onErasing` the only event, whatever its transform. */
  function SelfAssign(g: Geom, trig: Tf.TrigOracle): (r: Geom)
    ensures r.vertices == [] && r.liaisons == [] && r.faces == []
    ensures r.tf == g.tf && r.observers == g.observers && r.nextId == g.nextId
    ensures r.log == g.log + [Erasing]
    ensures !r.localFresh && !r.globalFresh
    ensures Valid(r)
  {
    var cleared := Clear(g);
    Add(cleared, cleared, trig)
  }

  /** A copy has the same vertex coordinates, and the same liaisons and
      faces up to their ids, provided the transform's `getDeterminant` is
      its true determinant: each vertex goes to global coordinates and
      back through the same transformable. */
  lemma AssignCopies(g: Geom, other: Geom, trig: Tf.TrigOracle, i: nat)
    requires Valid(other) && Tb.Coherent(other.tf)
    requires Tf.GetDeterminant(Tb.CurrentTransform(other.tf, trig)) != 0.0
    requires Tf.GetDeterminant(Tb.CurrentTransform(other.tf, trig)) == Tf.Determinant(Tb.CurrentTransform(other.tf, trig))
    requires i < |other.vertices|
    ensures Assign(g, other, trig).vertices[i] == other.vertices[i]
    ensures i < |other.liaisons| ==>
      var l := Assign(g, other, trig).liaisons[i];
      l.v1 == other.liaisons[i].v1 && l.v2 == other.liaisons[i].v2
  {
    var t := other.tf;
    var m := Tb.CurrentTransform(t, trig);
    var p := other.vertices[i];
    ConvertBack(t, trig, p);
  }

  /** Global and then local coordinates through one coherent
      transformable give the point back. */
  lemma ConvertBack(t: Tb.Transformable, trig: Tf.TrigOracle, p: Vec)
    requires Tb.Coherent(t)
    requires Tf.GetDeterminant(Tb.CurrentTransform(t, trig)) != 0.0
    requires Tf.GetDeterminant(Tb.CurrentTransform(t, trig)) == Tf.Determinant(Tb.CurrentTransform(t, trig))
    ensures Tf.Apply(LocalMatrix(t, trig), Tf.Apply(Tb.CurrentTransform(t, trig), p)) == p
  {
    var m := Tb.CurrentTransform(t, trig);
    var q := Tf.Apply(m, p);
    var back := Tf.Apply(LocalMatrix(t, trig), q);
    Tb.GlobalOfLocal(t, trig, q);
    Tb.LocalUsesInverse(t, trig);
    assert Tf.Apply(m, back) == Tf.Apply(m, p);
    Tf.AffineInjective(m, back, p);
  }

  /** None of `addLiaison`, `addFace`, `removeLiaison` and `removeFace`
      touches the vertex list, so every vertex keeps its `getIndice`. */
  lemma IndicesStable(g: Geom, v: nat, a: nat, b: nat, c: nat, l: Liaison, f: Face)
    ensures IndexOf(AddLiaison(g, a, b).0, v) == IndexOf(g, v)
    ensures IndexOf(AddFace(g, a, b, c).0, v) == IndexOf(g, v)
    ensures IndexOf(RemoveLiaison(g, l), v) == IndexOf(g, v)
    ensures IndexOf(RemoveFace(g, f), v) == IndexOf(g, v)
  {
  }
}
