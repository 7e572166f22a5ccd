/** Two places where the code as written departs from what it evidently
    intends, each modelled as written next to the corrected definition that the
    rest of the model uses. */
module Findings {
  import opened Geometry
  import opened Mesh
  import opened TriSplit
  import opened Clip
  import opened Scenarios

  // ---------------------------------------------------------------------------
  // The plane offset is taken with the normal before normalisation.

  /** The plane as the constructor builds it: the stored normal is `n` scaled by
      `k`, the reciprocal of its length (taken as a parameter, since square roots
      are not modelled), while the offset is taken with `n` itself. */
  function PlaneAsWritten(n: Vec3, k: real, p: Vec3): Plane
    requires k > 0.0 && k * k * Dot(n, n) == 1.0
  {
    Plane(Scale(k, n), Dot(n, p))
  }

  /** The defining point is at distance `(k - 1) n.p` from the plane built as
      written, so it is off the plane unless the normal already has unit length
      or is orthogonal to the point. */
  lemma PlaneAsWrittenMissesPoint(n: Vec3, k: real, p: Vec3)
    requires k > 0.0 && k * k * Dot(n, n) == 1.0
    ensures SignedDistance(PlaneAsWritten(n, k, p), p) == (k - 1.0) * Dot(n, p)
  {
    calc {
      SignedDistance(PlaneAsWritten(n, k, p), p);
      (k * n.x) * p.x + (k * n.y) * p.y + (k * n.z) * p.z - Dot(n, p);
      k * Dot(n, p) - Dot(n, p);
      (k - 1.0) * Dot(n, p);
    }
  }

  /** For the normal (2,0,0), whose length is 2, and the point (1,0,0), the point
      is at distance -1 from the plane built as written. */
  lemma PlaneAsWrittenExample()
    ensures SignedDistance(PlaneAsWritten(Vec3(2.0, 0.0, 0.0), 0.5, Vec3(1.0, 0.0, 0.0)), Vec3(1.0, 0.0, 0.0)) == -1.0
  {
    var n, q := Vec3(2.0, 0.0, 0.0), Vec3(1.0, 0.0, 0.0);
    assert Dot(n, n) == 4.0;
    PlaneAsWrittenMissesPoint(n, 0.5, q);
    assert Dot(n, q) == 2.0;
  }

  /** For a normal of unit length the constructor as written and the corrected
      one build the same plane. */
  lemma PlaneAsWrittenUnitNormal(n: Vec3, k: real, p: Vec3)
    requires k > 0.0 && k * k * Dot(n, n) == 1.0
    requires Dot(n, n) == 1.0
    ensures PlaneAsWritten(n, k, p) == MakePlane(n, p)
  {
    assert (k - 1.0) * (k + 1.0) == k * k - 1.0 == 0.0;
    assert k + 1.0 > 0.0;
    assert k == 1.0;
    calc {
      Scale(k, n);
      Vec3(1.0 * n.x, 1.0 * n.y, 1.0 * n.z);
      n;
    }
  }

  /** The plane the constructor evidently intends, with the unit normal `k n`
      and the offset taken with that same normal, clips every mesh exactly as
      the model's plane through `p` with the normal `n` left as given. */
  lemma NormalisedPlaneClipsAlike(tris: seq<Triangle>, n: Vec3, k: real, p: Vec3)
    requires k > 0.0
    ensures ClipAll(tris, MakePlane(Scale(k, n), p)) == ClipAll(tris, MakePlane(n, p))
  {
    MakePlaneScaled(n, k, p);
    ClipAllScaleInvariant(tris, n, Dot(n, p), k);
  }

  // ---------------------------------------------------------------------------
  // The one-point split uses a name that is not bound.

  /** The outcome of clipping one triangle: completed, or stopped by an
      exception after appending `emitted`. */
  datatype Run = Completed(emitted: Fragment) | Raised(emitted: Fragment)

  /** Clipping one triangle as written: in the one-point case A, B and C are
      appended and then the face builder looks up `X1`, which that function
      never binds, and the exception ends the run. */
  function SplitFaceAsWritten(t: Triangle, pl: Plane): Run {
    var d := Distances(t, pl);
    var cl := Labels(d);
    match CaseOf(cl)
    case OnePoint =>
      var i := OnPlaneOf(cl);
      Raised(Fragment([t[i], t[(i + 1) % 3], t[(i + 2) % 3]], []))
    case _ => Completed(SplitResult(t, pl))
  }

  /** The triangle is a one-point case: one corner on the plane, the other two
      strictly on opposite sides. */
  predicate OnePointCase(t: Triangle, pl: Plane) {
    CaseOf(Labels(Distances(t, pl))) == OnePoint
  }

  /** Clipping a triangle list as written: the triangles are clipped in order
      into one mesh until one of them raises, which ends the run with what had
      been appended by then. */
  function ClipAllAsWritten(tris: seq<Triangle>, pl: Plane): Run {
    if tris == [] then Completed(Empty)
    else
      match ClipAllAsWritten(tris[..|tris| - 1], pl)
      case Raised(m) => Raised(m)
      case Completed(m) =>
        match SplitFaceAsWritten(tris[|tris| - 1], pl)
        case Completed(f) => Completed(Append(m, f))
        case Raised(f) => Raised(Append(m, f))
  }

  /** Where the run as written stops: the index of the first one-point
      triangle, or the length of the list when there is none. */
  function FirstOnePoint(tris: seq<Triangle>, pl: Plane): (j: nat)
    ensures j <= |tris|
    ensures forall k :: 0 <= k < j ==> !OnePointCase(tris[k], pl)
    ensures j < |tris| ==> OnePointCase(tris[j], pl)
  {
    if tris == [] then 0
    else if OnePointCase(tris[0], pl) then 0
    else 1 + FirstOnePoint(tris[1..], pl)
  }

  /** What the one-point case appends as written before it raises: the corners
      A, B, C, with A the corner on the plane, and no face. */
  function RaisedFragment(t: Triangle, pl: Plane): (f: Fragment)
    requires OnePointCase(t, pl)
    ensures f.faces == [] && |f.verts| == 3 && multiset(f.verts) == multiset(t)
    ensures SignedDistance(pl, f.verts[0]) == 0.0
  {
    var i := OnPlaneOf(Labels(Distances(t, pl)));
    RotatePermutes(t, i);
    Fragment([t[i], t[(i + 1) % 3], t[(i + 2) % 3]], [])
  }

  /** Turning three corners once keeps the same corners. */
  lemma RotateOnce(a: Vec3, b: Vec3, c: Vec3)
    ensures multiset([b, c, a]) == multiset([a, b, c])
  {
    assert [b, c, a] == [b, c] + [a] && [a, b, c] == [a] + [b, c];
    assert multiset([b, c] + [a]) == multiset([b, c]) + multiset([a]);
    assert multiset([a] + [b, c]) == multiset([a]) + multiset([b, c]);
  }

  /** Turning the corners cyclically keeps the same corners. */
  lemma RotatePermutes(t: Triangle, i: nat)
    requires i < 3
    ensures multiset([t[i], t[(i + 1) % 3], t[(i + 2) % 3]]) == multiset(t)
  {
    var a, b, c := t[0], t[1], t[2];
    assert t == [a, b, c];
    if i == 0 {
      assert [t[i], t[(i + 1) % 3], t[(i + 2) % 3]] == t;
    } else if i == 1 {
      assert [t[i], t[(i + 1) % 3], t[(i + 2) % 3]] == [b, c, a];
      RotateOnce(a, b, c);
    } else {
      assert [t[i], t[(i + 1) % 3], t[(i + 2) % 3]] == [c, a, b];
      RotateOnce(c, a, b);
    }
  }

  /** As written, a list without a one-point triangle is clipped to completion,
      with the same output as the corrected clip. */
  lemma {:induction false} ClipAllAsWrittenCompletes(tris: seq<Triangle>, pl: Plane)
    requires forall k :: 0 <= k < |tris| ==> !OnePointCase(tris[k], pl)
    ensures ClipAllAsWritten(tris, pl) == Completed(ClipAll(tris, pl))
  {
    if tris != [] {
      var init, t := tris[..|tris| - 1], tris[|tris| - 1];
      assert forall k :: 0 <= k < |init| ==> init[k] == tris[k];
      ClipAllAsWrittenCompletes(init, pl);
      assert SplitFaceAsWritten(t, pl) == Completed(SplitResult(t, pl));
    }
  }

  /** As written, when triangle `j` is the first one-point triangle the run
      raises there, with the clip of the triangles before it followed by that
      triangle's corners as output. */
  lemma {:induction false} ClipAllAsWrittenStops(tris: seq<Triangle>, pl: Plane, j: nat)
    requires j < |tris| && OnePointCase(tris[j], pl)
    requires forall k :: 0 <= k < j ==> !OnePointCase(tris[k], pl)
    ensures ClipAllAsWritten(tris, pl) == Raised(Append(ClipAll(tris[..j], pl), RaisedFragment(tris[j], pl)))
  {
    var init, t := tris[..|tris| - 1], tris[|tris| - 1];
    if j == |tris| - 1 {
      assert forall k :: 0 <= k < |init| ==> init[k] == tris[k];
      ClipAllAsWrittenCompletes(init, pl);
      assert SplitFaceAsWritten(t, pl) == Raised(RaisedFragment(t, pl));
    } else {
      assert init[j] == tris[j] && init[..j] == tris[..j];
      assert forall k :: 0 <= k < j ==> init[k] == tris[k];
      ClipAllAsWrittenStops(init, pl, j);
    }
  }

  /** As written, clipping a triangle list raises exactly when some triangle is
      a one-point case. When none is, the output is the corrected clip of the
      whole list; otherwise the run stops at the first one and the output is the
      clip of the triangles before it followed by that triangle's corners and no
      face for it. */
  lemma ClipAllAsWrittenRaises(tris: seq<Triangle>, pl: Plane)
    ensures ClipAllAsWritten(tris, pl).Raised? <==> exists k :: 0 <= k < |tris| && OnePointCase(tris[k], pl)
    ensures var j := FirstOnePoint(tris, pl);
      ClipAllAsWritten(tris, pl)
        == if j == |tris| then Completed(ClipAll(tris, pl))
           else Raised(Append(ClipAll(tris[..j], pl), RaisedFragment(tris[j], pl)))
  {
    var j := FirstOnePoint(tris, pl);
    if j == |tris| {
      ClipAllAsWrittenCompletes(tris, pl);
    } else {
      ClipAllAsWrittenStops(tris, pl, j);
    }
  }

  /** The triangle (0,0,0), (1,0,0), (-1,0,0) against x = 0 (any triangle with
      those x coordinates) raises as written, after appending its three corners
      and no face, where the corrected split emits two triangles. */
  lemma OnePointAsWrittenExample(a: Vec3, b: Vec3, c: Vec3)
    requires a.x == 0.0 && b.x == 1.0 && c.x == -1.0
    ensures SplitFaceAsWritten([a, b, c], PlaneX0) == Raised(Fragment([a, b, c], []))
    ensures |SplitResult([a, b, c], PlaneX0).faces| == 2
  {
    var t: Triangle := [a, b, c];
    PlaneX0Distance(a);
    PlaneX0Distance(b);
    PlaneX0Distance(c);
    assert Distances(t, PlaneX0) == [0.0, 1.0, -1.0];
    assert Labels(Distances(t, PlaneX0)) == [0, 1, -1];
    assert OnPlaneOf([0, 1, -1]) == 0;
  }
}
