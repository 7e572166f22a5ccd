/** Clipping of one triangle against a plane: the three vertices are classified,
    the classification counts choose one of three cases, and the case appends
    one, two or three triangles, with new vertices where edges cross the plane,
    to the output mesh. */
module TriSplit {
  import opened Geometry
  import opened Classify
  import opened Mesh

  /** A triangle of the input mesh as the positions of its three corners. */
  type Triangle = s: seq<Vec3> | |s| == 3 witness [Origin, Origin, Origin]

  // ---------------------------------------------------------------------------
  // Counting the labels

  /** How many entries of `s` equal `c` (a list's count). */
  function Count(s: seq<Cls>, c: int): (n: nat)
    ensures n <= |s|
    ensures n == 0 <==> c !in s
  {
    if s == [] then 0
    else (if s[0] == c then 1 else 0) + Count(s[1..], c)
  }

  /** Every label is one of -1, 0 and +1, so the three counts add up to the length. */
  lemma {:induction false} CountsSum(s: seq<Cls>)
    ensures Count(s, -1) + Count(s, 0) + Count(s, 1) == |s|
  {
    if s != [] {
      CountsSum(s[1..]);
    }
  }

  lemma Count3(s: seq<Cls>, c: int)
    requires |s| == 3
    ensures Count(s, c) == (if s[0] == c then 1 else 0) + (if s[1] == c then 1 else 0) + (if s[2] == c then 1 else 0)
  {
    assert s[1..][0] == s[1];
    assert s[1..][1..][0] == s[2];
    assert s[1..][1..][1..] == [];
  }

  // ---------------------------------------------------------------------------
  // The case table

  datatype SplitCase = TwoPoints | OnePoint | Unchanged

  /** The dispatch of the clipper, on the counts of the three labels. For three
      labels it is a two-point split when both sides occur and no vertex is on
      the plane, a one-point split when all three labels occur, and a copy
      exactly when the two sides do not both occur; the one-point test on two
      counts also fixes the third. */
  function CaseOf(cl: seq<Cls>): (c: SplitCase)
    ensures |cl| == 3 ==> (c == TwoPoints <==> 0 !in cl && 1 in cl && -1 in cl)
    ensures |cl| == 3 ==> (c == OnePoint <==> 0 in cl && 1 in cl && -1 in cl)
    ensures |cl| == 3 ==> (c == Unchanged <==> !(1 in cl && -1 in cl))
    ensures |cl| == 3 && Count(cl, 0) == 1 && Count(cl, 1) == 1 ==> Count(cl, -1) == 1
  {
    var countNeg, countPos, countOnPlane := Count(cl, -1), Count(cl, 1), Count(cl, 0);
    CountLabels3(cl);
    if (countNeg == 1 && countPos == 2) || (countNeg == 2 && countPos == 1) then TwoPoints
    else if countOnPlane == 1 && countPos == 1 then OnePoint
    else Unchanged
  }

  lemma CountLabels3(cl: seq<Cls>)
    ensures |cl| == 3 ==>
      cl == [cl[0], cl[1], cl[2]] &&
      Count(cl, -1) == (if cl[0] == -1 then 1 else 0) + (if cl[1] == -1 then 1 else 0) + (if cl[2] == -1 then 1 else 0) &&
      Count(cl, 0) == (if cl[0] == 0 then 1 else 0) + (if cl[1] == 0 then 1 else 0) + (if cl[2] == 0 then 1 else 0) &&
      Count(cl, 1) == (if cl[0] == 1 then 1 else 0) + (if cl[1] == 1 then 1 else 0) + (if cl[2] == 1 then 1 else 0)
  {
    if |cl| == 3 {
      Count3(cl, -1);
      Count3(cl, 0);
      Count3(cl, 1);
    }
  }

  /** Vertex `i` is the lone vertex: its label differs from both others. */
  predicate Lone(cl: seq<Cls>, i: nat)
    requires |cl| == 3 && i < 3
  {
    cl[i] != cl[(i + 1) % 3] && cl[i] != cl[(i + 2) % 3]
  }

  /** The first lone vertex. In a two-point split there is exactly one, it is
      strictly on one side and the other two are strictly on the other. */
  function LoneOf(cl: seq<Cls>): (i: nat)
    requires |cl| == 3 && CaseOf(cl) == TwoPoints
    ensures i < 3 && Lone(cl, i)
    ensures forall j :: 0 <= j < 3 && Lone(cl, j) ==> j == i
    ensures cl[i] != 0 && cl[(i + 1) % 3] == cl[(i + 2) % 3] == -cl[i]
  {
    if Lone(cl, 0) then 0 else if Lone(cl, 1) then 1 else 2
  }

  /** The last vertex on the plane (the search does not stop at the first). In a
      one-point split it is the only one, and the vertices after it in cyclic
      order are strictly on opposite sides. */
  function OnPlaneOf(cl: seq<Cls>): (i: nat)
    requires |cl| == 3 && 0 in cl
    ensures i < 3 && cl[i] == 0
    ensures forall j :: i < j < 3 ==> cl[j] != 0
    ensures CaseOf(cl) == OnePoint ==>
      (forall j :: 0 <= j < 3 && cl[j] == 0 ==> j == i) &&
      cl[(i + 1) % 3] == -cl[(i + 2) % 3] != 0
  {
    if cl[2] == 0 then 2 else if cl[1] == 0 then 1 else 0
  }

  // ---------------------------------------------------------------------------
  // Distances, labels and what each case emits

  /** The signed distances of the corners. */
  function Distances(t: Triangle, pl: Plane): (d: seq<real>)
    ensures |d| == 3 && forall j :: 0 <= j < 3 ==> d[j] == SignedDistance(pl, t[j])
  {
    [SignedDistance(pl, t[0]), SignedDistance(pl, t[1]), SignedDistance(pl, t[2])]
  }

  /** The labels of three distances, at the default tolerance. */
  function Labels(d: seq<real>): (cl: seq<Cls>)
    requires |d| == 3
    ensures |cl| == 3 && forall j :: 0 <= j < 3 ==> cl[j] == ClassifyDV(d[j], DefaultEps)
  {
    [ClassifyDV(d[0], DefaultEps), ClassifyDV(d[1], DefaultEps), ClassifyDV(d[2], DefaultEps)]
  }

  /** The labels were computed from the distances. */
  predicate Consistent(dverts: seq<real>, clVerts: seq<Cls>) {
    |dverts| == 3 && |clVerts| == 3 &&
    forall j :: 0 <= j < 3 ==> clVerts[j] == ClassifyDV(dverts[j], DefaultEps)
  }

  /** A run of `n` consecutive indices from `lo`. */
  function Range(lo: nat, n: nat): (r: seq<nat>)
    ensures |r| == n && forall j :: 0 <= j < n ==> r[j] == lo + j
  {
    seq(n, j requires 0 <= j < n => lo + j)
  }

  /** The unchanged copy: every position as a new vertex and one face over them,
      in the given order. */
  function CopyFragment(vs: seq<Vec3>): Fragment
    requires |vs| >= 3
  {
    Fragment(vs, [Range(0, |vs|)])
  }

  /** The 1-vs-2 split around the lone vertex A, with B and C the next vertices
      in cyclic order: new vertices A, B, C, X1 on A-B, X2 on A-C, and the faces
      (A, X1, X2), (X1, B, C), (X1, C, X2). */
  function TwoPointsFragment(verts: Triangle, dverts: seq<real>, clVerts: seq<Cls>): Fragment
    requires Consistent(dverts, clVerts) && CaseOf(clVerts) == TwoPoints
  {
    var i := LoneOf(clVerts);
    var i1, i2 := (i + 1) % 3, (i + 2) % 3;
    var x1 := CalcSplitPoint(verts[i], verts[i1], dverts[i], dverts[i1]);
    var x2 := CalcSplitPoint(verts[i], verts[i2], dverts[i], dverts[i2]);
    Fragment([verts[i], verts[i1], verts[i2], x1, x2], [[0, 3, 4], [3, 1, 2], [3, 2, 4]])
  }

  /** The split through the on-plane vertex A, with B and C the next vertices in
      cyclic order: new vertices A, B, C, X on B-C, and the faces (A, B, X),
      (A, X, C). */
  function OnePointFragment(verts: Triangle, dverts: seq<real>, clVerts: seq<Cls>): Fragment
    requires Consistent(dverts, clVerts) && CaseOf(clVerts) == OnePoint
  {
    var i := OnPlaneOf(clVerts);
    var i1, i2 := (i + 1) % 3, (i + 2) % 3;
    var x := CalcSplitPoint(verts[i1], verts[i2], dverts[i1], dverts[i2]);
    Fragment([verts[i], verts[i1], verts[i2], x], [[0, 1, 3], [0, 3, 2]])
  }

  /** What clipping one triangle appends to the output mesh. */
  function SplitResult(t: Triangle, pl: Plane): Fragment {
    var d := Distances(t, pl);
    var cl := Labels(d);
    match CaseOf(cl)
    case TwoPoints => TwoPointsFragment(t, d, cl)
    case OnePoint => OnePointFragment(t, d, cl)
    case Unchanged => CopyFragment(t)
  }

  // ---------------------------------------------------------------------------
  // Properties of the split

  /** Some corner is strictly above the plane and some corner strictly below. */
  predicate Straddles(pl: Plane, poly: seq<Vec3>) {
    (exists a :: 0 <= a < |poly| && SignedDistance(pl, poly[a]) > 0.0) &&
    (exists b :: 0 <= b < |poly| && SignedDistance(pl, poly[b]) < 0.0)
  }

  /** No polygon of the list straddles the plane. */
  predicate NoneStraddle(pl: Plane, ps: seq<seq<Vec3>>) {
    forall k :: 0 <= k < |ps| ==> !Straddles(pl, ps[k])
  }

  /** A triangle is copied unchanged exactly when it does not straddle the plane. */
  lemma UnchangedIffNoStraddle(t: Triangle, pl: Plane)
    ensures CaseOf(Labels(Distances(t, pl))) == Unchanged <==> !Straddles(pl, t)
    ensures !Straddles(pl, t) ==> SplitResult(t, pl) == CopyFragment(t)
  {
    var cl := Labels(Distances(t, pl));
    assert cl == [cl[0], cl[1], cl[2]];
    if Straddles(pl, t) {
      var a :| 0 <= a < 3 && SignedDistance(pl, t[a]) > 0.0;
      var b :| 0 <= b < 3 && SignedDistance(pl, t[b]) < 0.0;
      assert cl[a] == 1 && cl[b] == -1;
    }
    if 1 in cl && -1 in cl {
      var a :| 0 <= a < 3 && cl[a] == 1;
      var b :| 0 <= b < 3 && cl[b] == -1;
      assert SignedDistance(pl, t[a]) > 0.0 && SignedDistance(pl, t[b]) < 0.0;
    }
  }

  lemma CopyPolygons(vs: seq<Vec3>)
    requires |vs| >= 3
    ensures WellFormed(CopyFragment(vs))
    ensures Polygons(CopyFragment(vs)) == [vs]
  {
    var m := CopyFragment(vs);
    assert ValidFace(m.faces[0], |m.verts|);
    assert Polygon(m, 0) == vs;
  }

  lemma Polygon3(m: Fragment, k: nat)
    requires WellFormed(m) && k < |m.faces| && |m.faces[k]| == 3
    ensures Polygon(m, k) == [m.verts[m.faces[k][0]], m.verts[m.faces[k][1]], m.verts[m.faces[k][2]]]
  {
  }

  /** A triangle whose corners are never strictly on opposite sides. */
  lemma NoStraddle3(pl: Plane, p: Vec3, q: Vec3, r: Vec3)
    requires var dp, dq, dr := SignedDistance(pl, p), SignedDistance(pl, q), SignedDistance(pl, r);
      (dp >= 0.0 && dq >= 0.0 && dr >= 0.0) || (dp <= 0.0 && dq <= 0.0 && dr <= 0.0)
    ensures !Straddles(pl, [p, q, r])
  {
  }

  /** The 1-vs-2 split: A is the only vertex whose label differs from both others,
      B and C follow it in the original cyclic order, X1 lies strictly inside
      edge A-B and X2 strictly inside edge A-C, both on the plane, and none of
      the three emitted triangles straddles the plane. */
  lemma TwoPointsProperties(t: Triangle, pl: Plane)
    requires CaseOf(Labels(Distances(t, pl))) == TwoPoints
    ensures var d := Distances(t, pl); var cl := Labels(d); var i := LoneOf(cl);
      var m := TwoPointsFragment(t, d, cl);
      (forall j :: 0 <= j < 3 && Lone(cl, j) ==> j == i) &&
      m.verts[..3] == [t[i], t[(i + 1) % 3], t[(i + 2) % 3]] &&
      OnOpenSegment(m.verts[3], t[i], t[(i + 1) % 3]) &&
      OnOpenSegment(m.verts[4], t[i], t[(i + 2) % 3]) &&
      SignedDistance(pl, m.verts[3]) == 0.0 && SignedDistance(pl, m.verts[4]) == 0.0 &&
      WellFormed(m) && |m.verts| == 5 && |m.faces| == 3 &&
      NoneStraddle(pl, Polygons(m))
  {
    var d := Distances(t, pl);
    var cl := Labels(d);
    var i := LoneOf(cl);
    var i1, i2 := (i + 1) % 3, (i + 2) % 3;
    var m := TwoPointsFragment(t, d, cl);
    assert Opposite(d[i], d[i1]) && Opposite(d[i], d[i2]);
    SplitPointOnPlane(pl, t[i], t[i1], d[i], d[i1]);
    SplitPointOnPlane(pl, t[i], t[i2], d[i], d[i2]);
    assert WellFormed(m) by {
      assert ValidFace(m.faces[0], 5) && ValidFace(m.faces[1], 5) && ValidFace(m.faces[2], 5);
    }
    forall k | 0 <= k < |m.faces| ensures !Straddles(pl, Polygons(m)[k]) {
      Polygon3(m, k);
      var v := m.verts;
      if k == 0 {
        NoStraddle3(pl, v[0], v[3], v[4]);
      } else if k == 1 {
        NoStraddle3(pl, v[3], v[1], v[2]);
      } else {
        NoStraddle3(pl, v[3], v[2], v[4]);
      }
    }
  }

  /** The one-point split: A is the vertex on the plane, B and C follow it in
      cyclic order and are strictly on opposite sides, X lies strictly inside
      edge B-C and on the plane, and neither emitted triangle straddles. */
  lemma OnePointProperties(t: Triangle, pl: Plane)
    requires CaseOf(Labels(Distances(t, pl))) == OnePoint
    ensures var d := Distances(t, pl); var cl := Labels(d);
      var i := OnPlaneOf(cl);
      var m := OnePointFragment(t, d, cl);
      (forall j :: 0 <= j < 3 && cl[j] == 0 ==> j == i) &&
      d[i] == 0.0 && Opposite(d[(i + 1) % 3], d[(i + 2) % 3]) &&
      m.verts[..3] == [t[i], t[(i + 1) % 3], t[(i + 2) % 3]] &&
      OnOpenSegment(m.verts[3], t[(i + 1) % 3], t[(i + 2) % 3]) &&
      SignedDistance(pl, m.verts[3]) == 0.0 &&
      WellFormed(m) && |m.verts| == 4 && |m.faces| == 2 &&
      NoneStraddle(pl, Polygons(m))
  {
    var d := Distances(t, pl);
    var cl := Labels(d);
    var i := OnPlaneOf(cl);
    var i1, i2 := (i + 1) % 3, (i + 2) % 3;
    var m := OnePointFragment(t, d, cl);
    assert Opposite(d[i1], d[i2]);
    SplitPointOnPlane(pl, t[i1], t[i2], d[i1], d[i2]);
    assert WellFormed(m) by {
      assert ValidFace(m.faces[0], 4) && ValidFace(m.faces[1], 4);
    }
    forall k | 0 <= k < |m.faces| ensures !Straddles(pl, Polygons(m)[k]) {
      Polygon3(m, k);
      var v := m.verts;
      if k == 0 {
        NoStraddle3(pl, v[0], v[1], v[3]);
      } else {
        NoStraddle3(pl, v[0], v[3], v[2]);
      }
    }
  }

  /** The normal of a triangle does not depend on which corner its cyclic order
      starts from. */
  lemma RotatedNormal(t: Triangle, i: nat)
    requires i < 3
    ensures Normal(t[i], t[(i + 1) % 3], t[(i + 2) % 3]) == Normal(t[0], t[1], t[2])
  {
    if i == 1 {
      NormalRotate(t[0], t[1], t[2]);
    } else if i == 2 {
      NormalRotate(t[2], t[0], t[1]);
    }
  }

  /** The 1-vs-2 split keeps the winding of the input triangle. With `s` and `u`
      the parameters of X1 on A-B and of X2 on A-C, and N the input's normal,
      the faces (A, X1, X2), (X1, B, C) and (X1, C, X2) have the normals s u N,
      (1 - s) N and s (1 - u) N, and all three factors are positive. */
  lemma TwoPointsWinding(t: Triangle, pl: Plane)
    requires CaseOf(Labels(Distances(t, pl))) == TwoPoints
    ensures var d := Distances(t, pl); var cl := Labels(d); var i := LoneOf(cl);
      var s, u := SplitParam(d[i], d[(i + 1) % 3]), SplitParam(d[i], d[(i + 2) % 3]);
      var m := TwoPointsFragment(t, d, cl); var n := Normal(t[0], t[1], t[2]);
      0.0 < s < 1.0 && 0.0 < u < 1.0 && WellFormed(m) &&
      FaceNormal(m, 0) == Scale(s, Scale(u, n)) &&
      FaceNormal(m, 1) == Scale(1.0 - s, n) &&
      FaceNormal(m, 2) == Scale(s, Scale(1.0 - u, n))
  {
    var d := Distances(t, pl);
    var cl := Labels(d);
    var i := LoneOf(cl);
    var i1, i2 := (i + 1) % 3, (i + 2) % 3;
    assert Opposite(d[i], d[i1]) && Opposite(d[i], d[i2]);
    SplitParamBetween(d[i], d[i1]);
    SplitParamBetween(d[i], d[i2]);
    var s, u := SplitParam(d[i], d[i1]), SplitParam(d[i], d[i2]);
    var a, b, c := t[i], t[i1], t[i2];
    var x1, x2 := Lerp(a, b, s), Lerp(a, c, u);
    var m := TwoPointsFragment(t, d, cl);
    assert m == Fragment([a, b, c, x1, x2], [[0, 3, 4], [3, 1, 2], [3, 2, 4]]);
    assert WellFormed(m) by {
      assert ValidFace(m.faces[0], 5) && ValidFace(m.faces[1], 5) && ValidFace(m.faces[2], 5);
    }
    assert FaceNormal(m, 0) == Normal(a, x1, x2);
    assert FaceNormal(m, 1) == Normal(x1, b, c);
    assert FaceNormal(m, 2) == Normal(x1, c, x2);
    RotatedNormal(t, i);
    TwoCutNormals(a, b, c, s, u);
  }

  /** The one-point split keeps the winding of the input triangle. With `w` the
      parameter of X on B-C and N the input's normal, the faces (A, B, X) and
      (A, X, C) have the normals w N and (1 - w) N, and both factors are
      positive. */
  lemma OnePointWinding(t: Triangle, pl: Plane)
    requires CaseOf(Labels(Distances(t, pl))) == OnePoint
    ensures var d := Distances(t, pl); var cl := Labels(d); var i := OnPlaneOf(cl);
      var w := SplitParam(d[(i + 1) % 3], d[(i + 2) % 3]);
      var m := OnePointFragment(t, d, cl); var n := Normal(t[0], t[1], t[2]);
      0.0 < w < 1.0 && WellFormed(m) &&
      FaceNormal(m, 0) == Scale(w, n) &&
      FaceNormal(m, 1) == Scale(1.0 - w, n)
  {
    var d := Distances(t, pl);
    var cl := Labels(d);
    var i := OnPlaneOf(cl);
    var i1, i2 := (i + 1) % 3, (i + 2) % 3;
    assert Opposite(d[i1], d[i2]);
    SplitParamBetween(d[i1], d[i2]);
    var w := SplitParam(d[i1], d[i2]);
    var a, b, c := t[i], t[i1], t[i2];
    var x := Lerp(b, c, w);
    var m := OnePointFragment(t, d, cl);
    assert m == Fragment([a, b, c, x], [[0, 1, 3], [0, 3, 2]]);
    assert WellFormed(m) by {
      assert ValidFace(m.faces[0], 4) && ValidFace(m.faces[1], 4);
    }
    assert FaceNormal(m, 0) == Normal(a, b, x);
    assert FaceNormal(m, 1) == Normal(a, x, c);
    RotatedNormal(t, i);
    OneCutNormals(a, b, c, w);
  }

  /** Every face that clipping one triangle emits faces the same way as the
      input triangle: its normal is a positive multiple of the input's. */
  lemma SplitResultWinding(t: Triangle, pl: Plane)
    ensures var m := SplitResult(t, pl);
      WellFormed(m) &&
      forall k :: 0 <= k < |m.faces| ==>
        |m.faces[k]| == 3 && SameDirection(FaceNormal(m, k), Normal(t[0], t[1], t[2]))
  {
    var m := SplitResult(t, pl);
    var n := Normal(t[0], t[1], t[2]);
    SplitResultProperties(t, pl);
    var d := Distances(t, pl);
    var cl := Labels(d);
    match CaseOf(cl)
    case TwoPoints =>
      TwoPointsWinding(t, pl);
      var i := LoneOf(cl);
      var s, u := SplitParam(d[i], d[(i + 1) % 3]), SplitParam(d[i], d[(i + 2) % 3]);
      ScaledSameDirection(s, u, n);
      ScaledSameDirection(1.0 - s, 1.0, n);
      ScaledSameDirection(s, 1.0 - u, n);
    case OnePoint =>
      OnePointWinding(t, pl);
      var i := OnPlaneOf(cl);
      var w := SplitParam(d[(i + 1) % 3], d[(i + 2) % 3]);
      ScaledSameDirection(w, 1.0, n);
      ScaledSameDirection(1.0 - w, 1.0, n);
    case Unchanged =>
      assert FaceNormal(m, 0) == Scale(1.0, n);
      ScaledSameDirection(1.0, 1.0, n);
  }

  /** Clipping one triangle: the output is well formed, every emitted face is a
      triangle that does not straddle the plane, there are one to three of them
      (three faces over five new vertices for a two-point split, two over four for
      a one-point split, one over the three original positions otherwise). */
  lemma SplitResultProperties(t: Triangle, pl: Plane)
    ensures var m := SplitResult(t, pl); var c := CaseOf(Labels(Distances(t, pl)));
      WellFormed(m) &&
      1 <= |m.faces| <= 3 &&
      (c == TwoPoints ==> |m.verts| == 5 && |m.faces| == 3) &&
      (c == OnePoint ==> |m.verts| == 4 && |m.faces| == 2) &&
      (c == Unchanged ==> m.verts == t && |m.faces| == 1) &&
      (forall k :: 0 <= k < |m.faces| ==> |m.faces[k]| == 3) &&
      NoneStraddle(pl, Polygons(m))
  {
    var m := SplitResult(t, pl);
    match CaseOf(Labels(Distances(t, pl)))
    case TwoPoints =>
      TwoPointsProperties(t, pl);
    case OnePoint =>
      OnePointProperties(t, pl);
    case Unchanged =>
      UnchangedIffNoStraddle(t, pl);
      CopyPolygons(t);
  }

  /** Scaling a plane's normal and offset by a factor scales the corners'
      distances by it. */
  lemma DistancesScaled(t: Triangle, n: Vec3, dist: real, k: real)
    ensures var d1, d2 := Distances(t, Plane(n, dist)), Distances(t, Plane(Scale(k, n), k * dist));
      forall j :: 0 <= j < 3 ==> d2[j] == k * d1[j]
  {
    var p1, p2 := Plane(n, dist), Plane(Scale(k, n), k * dist);
    var d1, d2 := Distances(t, p1), Distances(t, p2);
    forall j | 0 <= j < 3 ensures d2[j] == k * d1[j] {
      var v := t[j];
      assert d1[j] == SignedDistance(p1, v) && d2[j] == SignedDistance(p2, v);
      DistanceScaled(n, dist, k, v);
    }
  }

  /** Three distances scaled by a positive factor have the same labels. */
  lemma LabelsScaled(d1: seq<real>, d2: seq<real>, k: real)
    requires |d1| == 3 && |d2| == 3 && k > 0.0
    requires forall j :: 0 <= j < 3 ==> d2[j] == k * d1[j]
    ensures Labels(d2) == Labels(d1)
  {
    forall j | 0 <= j < 3 ensures ClassifyDV(d2[j], DefaultEps) == ClassifyDV(d1[j], DefaultEps) {
      ClassifyScaled(d1[j], k);
    }
  }

  /** Three distances scaled by a non-zero factor have the same crossing
      parameter on every edge whose end distances differ. */
  lemma ParamsScaled(d1: seq<real>, d2: seq<real>, k: real)
    requires |d1| == 3 && |d2| == 3 && k != 0.0
    requires forall j :: 0 <= j < 3 ==> d2[j] == k * d1[j]
    ensures forall p, q :: 0 <= p < 3 && 0 <= q < 3 && d1[q] - d1[p] != 0.0 ==>
      d2[q] - d2[p] != 0.0 && SplitParam(d2[p], d2[q]) == SplitParam(d1[p], d1[q])
  {
    forall p, q | 0 <= p < 3 && 0 <= q < 3 && d1[q] - d1[p] != 0.0
      ensures d2[q] - d2[p] != 0.0 && SplitParam(d2[p], d2[q]) == SplitParam(d1[p], d1[q])
    {
      SplitParamScaled(d1[p], d1[q], k);
    }
  }

  /** The 1-vs-2 split depends on the distances only through its two crossing
      parameters. */
  lemma TwoPointsSameParams(t: Triangle, d1: seq<real>, d2: seq<real>, cl: seq<Cls>)
    requires Consistent(d1, cl) && Consistent(d2, cl) && CaseOf(cl) == TwoPoints
    requires var i := LoneOf(cl);
      SplitParam(d2[i], d2[(i + 1) % 3]) == SplitParam(d1[i], d1[(i + 1) % 3]) &&
      SplitParam(d2[i], d2[(i + 2) % 3]) == SplitParam(d1[i], d1[(i + 2) % 3])
    ensures TwoPointsFragment(t, d2, cl) == TwoPointsFragment(t, d1, cl)
  {
  }

  /** The one-point split depends on the distances only through its crossing
      parameter. */
  lemma OnePointSameParams(t: Triangle, d1: seq<real>, d2: seq<real>, cl: seq<Cls>)
    requires Consistent(d1, cl) && Consistent(d2, cl) && CaseOf(cl) == OnePoint
    requires var i := OnPlaneOf(cl);
      SplitParam(d2[(i + 1) % 3], d2[(i + 2) % 3]) == SplitParam(d1[(i + 1) % 3], d1[(i + 2) % 3])
    ensures OnePointFragment(t, d2, cl) == OnePointFragment(t, d1, cl)
  {
  }

  /** Scaling a plane's normal and offset by a positive factor keeps the
      corners' labels and the crossing parameter of every edge whose end
      distances differ. */
  lemma ScaledPlaneAgrees(t: Triangle, n: Vec3, dist: real, k: real)
    requires k > 0.0
    ensures var d1, d2 := Distances(t, Plane(n, dist)), Distances(t, Plane(Scale(k, n), k * dist));
      Labels(d2) == Labels(d1) &&
      forall p, q :: 0 <= p < 3 && 0 <= q < 3 && d1[q] - d1[p] != 0.0 ==>
        d2[q] - d2[p] != 0.0 && SplitParam(d2[p], d2[q]) == SplitParam(d1[p], d1[q])
  {
    var d1, d2 := Distances(t, Plane(n, dist)), Distances(t, Plane(Scale(k, n), k * dist));
    DistancesScaled(t, n, dist, k);
    LabelsScaled(d1, d2, k);
    ParamsScaled(d1, d2, k);
  }

  /** Scale invariance of the 1-vs-2 split. */
  lemma TwoPointsScaleInvariant(t: Triangle, n: Vec3, dist: real, k: real)
    requires k > 0.0 && CaseOf(Labels(Distances(t, Plane(n, dist)))) == TwoPoints
    ensures SplitResult(t, Plane(Scale(k, n), k * dist)) == SplitResult(t, Plane(n, dist))
  {
    var d1, d2 := Distances(t, Plane(n, dist)), Distances(t, Plane(Scale(k, n), k * dist));
    var cl := Labels(d1);
    ScaledPlaneAgrees(t, n, dist, k);
    var i := LoneOf(cl);
    assert Opposite(d1[i], d1[(i + 1) % 3]) && Opposite(d1[i], d1[(i + 2) % 3]);
    TwoPointsSameParams(t, d1, d2, cl);
  }

  /** Scale invariance of the one-point split. */
  lemma OnePointScaleInvariant(t: Triangle, n: Vec3, dist: real, k: real)
    requires k > 0.0 && CaseOf(Labels(Distances(t, Plane(n, dist)))) == OnePoint
    ensures SplitResult(t, Plane(Scale(k, n), k * dist)) == SplitResult(t, Plane(n, dist))
  {
    var d1, d2 := Distances(t, Plane(n, dist)), Distances(t, Plane(Scale(k, n), k * dist));
    var cl := Labels(d1);
    ScaledPlaneAgrees(t, n, dist, k);
    var i := OnPlaneOf(cl);
    assert Opposite(d1[(i + 1) % 3], d1[(i + 2) % 3]);
    OnePointSameParams(t, d1, d2, cl);
  }

  /** Scaling a plane's normal and offset by the same positive factor, which is
      what normalising the normal does, changes no label and no split point:
      the split result is the same. */
  lemma SplitResultScaleInvariant(t: Triangle, n: Vec3, dist: real, k: real)
    requires k > 0.0
    ensures SplitResult(t, Plane(Scale(k, n), k * dist)) == SplitResult(t, Plane(n, dist))
  {
    match CaseOf(Labels(Distances(t, Plane(n, dist))))
    case TwoPoints =>
      TwoPointsScaleInvariant(t, n, dist, k);
    case OnePoint =>
      OnePointScaleInvariant(t, n, dist, k);
    case Unchanged =>
      ScaledPlaneAgrees(t, n, dist, k);
  }

  // ---------------------------------------------------------------------------
  // The operations, appending into the output mesh

  /** Appends every position as a new vertex and one face over the new vertices,
      in order, and returns that face. */
  method BuildFace(bm: BMesh, verts: seq<Vec3>) returns (face: seq<nat>)
    requires bm.Valid() && |verts| >= 3
    modifies bm
    ensures bm.Valid()
    ensures bm.Contents() == Append(old(bm.Contents()), CopyFragment(verts))
    ensures bm.faces == old(bm.faces) + [face]
  {
    ghost var n := |bm.verts|;
    var bverts: seq<nat> := [];
    for k := 0 to |verts|
      invariant bm.Valid()
      invariant bm.verts == old(bm.verts) + verts[..k] && bm.faces == old(bm.faces)
      invariant bverts == Range(n, k)
    {
      var bv := bm.NewVert(verts[k]);
      bverts := bverts + [bv];
      assert verts[..k + 1] == verts[..k] + [verts[k]];
    }
    assert verts[..|verts|] == verts;
    bm.NewFace(bverts);
    face := bverts;
    assert ShiftFace(Range(0, |verts|), n) == face;
    assert ShiftFaces(CopyFragment(verts).faces, n) == [face];
  }

  /** The 1-vs-2 split: searches for the lone vertex, then appends A, B, C and
      the two split points and the three faces of `TwoPointsFragment`. */
  method SplitFaceTwoPoints(verts: Triangle, dverts: seq<real>, clVerts: seq<Cls>, outBm: BMesh)
    requires outBm.Valid()
    requires Consistent(dverts, clVerts) && CaseOf(clVerts) == TwoPoints
    modifies outBm
    ensures outBm.Valid()
    ensures outBm.Contents() == Append(old(outBm.Contents()), TwoPointsFragment(verts, dverts, clVerts))
  {
    var li := LoneOf(clVerts);
    var a, b, c := verts[0], verts[1], verts[2];
    var dA, dB, dC := dverts[0], dverts[1], dverts[2];
    for i := 0 to 3
      invariant forall j :: 0 <= j < i ==> !Lone(clVerts, j)
      invariant i <= li
    {
      var i1 := (i + 1) % 3;
      var i2 := (i + 2) % 3;
      if clVerts[i] != clVerts[i1] && clVerts[i] != clVerts[i2] {
        a, dA := verts[i], dverts[i];
        b, dB := verts[i1], dverts[i1];
        c, dC := verts[i2], dverts[i2];
        break;
      }
    }
    assert a == verts[li] && b == verts[(li + 1) % 3] && c == verts[(li + 2) % 3];
    assert dA == dverts[li] && dB == dverts[(li + 1) % 3] && dC == dverts[(li + 2) % 3];

    var x1 := CalcSplitPoint(a, b, dA, dB);
    var x2 := CalcSplitPoint(a, c, dA, dC);
    EmitTwoPoints(a, b, c, x1, x2, outBm);
  }

  /** The appending half of the 1-vs-2 split: the five new vertices A, B, C, X1,
      X2 and the faces (A, X1, X2), (X1, B, C), (X1, C, X2) over them. */
  method EmitTwoPoints(a: Vec3, b: Vec3, c: Vec3, x1: Vec3, x2: Vec3, outBm: BMesh)
    requires outBm.Valid()
    modifies outBm
    ensures outBm.Valid()
    ensures outBm.Contents()
         == Append(old(outBm.Contents()), Fragment([a, b, c, x1, x2], [[0, 3, 4], [3, 1, 2], [3, 2, 4]]))
  {
    ghost var n := |outBm.verts|;
    var vA := outBm.NewVert(a);
    var vB := outBm.NewVert(b);
    var vC := outBm.NewVert(c);
    var vX1 := outBm.NewVert(x1);
    var vX2 := outBm.NewVert(x2);

    outBm.NewFace([vA, vX1, vX2]);
    outBm.NewFace([vX1, vB, vC]);
    outBm.NewFace([vX1, vC, vX2]);
    assert ShiftFace([0, 3, 4], n) == [vA, vX1, vX2];
    assert ShiftFace([3, 1, 2], n) == [vX1, vB, vC];
    assert ShiftFace([3, 2, 4], n) == [vX1, vC, vX2];
    assert ShiftFaces([[0, 3, 4], [3, 1, 2], [3, 2, 4]], n)
        == [[vA, vX1, vX2], [vX1, vB, vC], [vX1, vC, vX2]];
  }

  /** The one-point split: searches for the vertex on the plane, then appends
      A, B, C and the split point on B-C and the two faces of `OnePointFragment`. */
  method SplitFaceOnePoint(verts: Triangle, dverts: seq<real>, clVerts: seq<Cls>, outBm: BMesh)
    requires outBm.Valid()
    requires Consistent(dverts, clVerts) && CaseOf(clVerts) == OnePoint
    modifies outBm
    ensures outBm.Valid()
    ensures outBm.Contents() == Append(old(outBm.Contents()), OnePointFragment(verts, dverts, clVerts))
  {
    var oi := OnPlaneOf(clVerts);
    var a, b, c := verts[0], verts[1], verts[2];
    var dA, dB, dC := dverts[0], dverts[1], dverts[2];
    ghost var found := false;
    for i := 0 to 3
      invariant found <==> exists j :: 0 <= j < i && clVerts[j] == 0
      invariant found ==>
        exists j :: 0 <= j < i && clVerts[j] == 0 &&
          (forall k :: j < k < i ==> clVerts[k] != 0) &&
          a == verts[j] && b == verts[(j + 1) % 3] && c == verts[(j + 2) % 3] &&
          dA == dverts[j] && dB == dverts[(j + 1) % 3] && dC == dverts[(j + 2) % 3]
    {
      if clVerts[i] == 0 {
        var i1 := (i + 1) % 3;
        var i2 := (i + 2) % 3;
        a, dA := verts[i], dverts[i];
        b, dB := verts[i1], dverts[i1];
        c, dC := verts[i2], dverts[i2];
        found := true;
      }
    }
    assert a == verts[oi] && b == verts[(oi + 1) % 3] && c == verts[(oi + 2) % 3];
    assert dB == dverts[(oi + 1) % 3] && dC == dverts[(oi + 2) % 3];

    var x := CalcSplitPoint(b, c, dB, dC);
    EmitOnePoint(a, b, c, x, outBm);
  }

  /** The appending half of the one-point split: the four new vertices A, B, C,
      X and the faces (A, B, X), (A, X, C) over them. */
  method EmitOnePoint(a: Vec3, b: Vec3, c: Vec3, x: Vec3, outBm: BMesh)
    requires outBm.Valid()
    modifies outBm
    ensures outBm.Valid()
    ensures outBm.Contents() == Append(old(outBm.Contents()), Fragment([a, b, c, x], [[0, 1, 3], [0, 3, 2]]))
  {
    ghost var n := |outBm.verts|;
    var vA := outBm.NewVert(a);
    var vB := outBm.NewVert(b);
    var vC := outBm.NewVert(c);
    var vX := outBm.NewVert(x);

    outBm.NewFace([vA, vB, vX]);
    outBm.NewFace([vA, vX, vC]);
    assert ShiftFace([0, 1, 3], n) == [vA, vB, vX];
    assert ShiftFace([0, 3, 2], n) == [vA, vX, vC];
    assert ShiftFaces([[0, 1, 3], [0, 3, 2]], n) == [[vA, vB, vX], [vA, vX, vC]];
  }

  /** Clips one triangle: computes the distances and labels of its corners,
      counts the labels and appends what the case calls for. */
  method SplitFace(face: Triangle, pl: Plane, outBm: BMesh)
    requires outBm.Valid()
    modifies outBm
    ensures outBm.Valid()
    ensures outBm.Contents() == Append(old(outBm.Contents()), SplitResult(face, pl))
  {
    var verts := face;
    var dverts: seq<real> := [0.0, 0.0, 0.0];
    var clVerts: seq<Cls> := [0, 0, 0];
    for i := 0 to 3
      invariant |dverts| == 3 && |clVerts| == 3
      invariant forall j :: 0 <= j < i ==> dverts[j] == SignedDistance(pl, verts[j])
      invariant forall j :: 0 <= j < i ==> clVerts[j] == ClassifyDV(dverts[j], DefaultEps)
    {
      var v := verts[i];
      var dV := Dot(pl.n, v) - pl.d;
      dverts := dverts[i := dV];
      var clV := ClassifyDV(dV, DefaultEps);
      clVerts := clVerts[i := clV];
    }
    assert dverts == Distances(face, pl);
    assert clVerts == Labels(dverts);

    var countNeg := Count(clVerts, -1);
    var countPos := Count(clVerts, 1);
    var countOnPlane := Count(clVerts, 0);
    CountsSum(clVerts);
    assert countNeg + countPos + countOnPlane == 3;

    if (countNeg == 1 && countPos == 2) || (countNeg == 2 && countPos == 1) {
      SplitFaceTwoPoints(verts, dverts, clVerts, outBm);
    } else if countOnPlane == 1 && countPos == 1 {
      SplitFaceOnePoint(verts, dverts, clVerts, outBm);
    } else {
      var _ := BuildFace(outBm, verts);
    }
  }
}
