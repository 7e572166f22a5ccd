/** The two worked examples of the clipper against the plane x = 0: each is
    first stated for any plane and any triangle whose corners have the given
    distances, then for triangles with the example's x coordinates. */
module Scenarios {
  import opened Geometry
  import opened Mesh
  import opened TriSplit
  import opened Clip

  /** The plane x = 0. */
  const PlaneX0: Plane := Plane(Vec3(1.0, 0.0, 0.0), 0.0)

  /** The distance of a point from x = 0 is its x coordinate. */
  lemma PlaneX0Distance(v: Vec3)
    ensures SignedDistance(PlaneX0, v) == v.x
  {
  }

  /** x = 0 is the plane through the origin with normal (1,0,0). */
  lemma PlaneX0Made()
    ensures PlaneX0 == MakePlane(Vec3(1.0, 0.0, 0.0), Vec3(0.0, 0.0, 0.0))
  {
  }

  /** Corner distances -1, 1, 1: a two-point split around the first corner,
      cutting both of its edges at their midpoints. */
  lemma TwoPointsByDistances(t: Triangle, pl: Plane)
    requires SignedDistance(pl, t[0]) == -1.0
    requires SignedDistance(pl, t[1]) == 1.0 && SignedDistance(pl, t[2]) == 1.0
    ensures SplitResult(t, pl)
         == Fragment([t[0], t[1], t[2], Lerp(t[0], t[1], 0.5), Lerp(t[0], t[2], 0.5)],
                     [[0, 3, 4], [3, 1, 2], [3, 2, 4]])
  {
    var d := Distances(t, pl);
    assert d == [-1.0, 1.0, 1.0];
    var cl := Labels(d);
    assert cl == [-1, 1, 1];
    assert CaseOf(cl) == TwoPoints;
    assert LoneOf(cl) == 0;
    SplitPointAt(t[0], t[1], -1.0, 1.0, 0.5);
    SplitPointAt(t[0], t[2], -1.0, 1.0, 0.5);
  }

  /** Corner distances 0, s, -s: a one-point split through the first corner,
      cutting the opposite edge at its midpoint. */
  lemma OnePointByDistances(t: Triangle, pl: Plane, s: real)
    requires s > 0.0
    requires SignedDistance(pl, t[0]) == 0.0
    requires SignedDistance(pl, t[1]) == s && SignedDistance(pl, t[2]) == -s
    ensures SplitResult(t, pl)
         == Fragment([t[0], t[1], t[2], Lerp(t[1], t[2], 0.5)], [[0, 1, 3], [0, 3, 2]])
  {
    var d := Distances(t, pl);
    assert d == [0.0, s, -s];
    var cl := Labels(d);
    assert cl == [0, 1, -1];
    assert CaseOf(cl) == OnePoint;
    assert OnPlaneOf(cl) == 0;
    SplitPointAt(t[1], t[2], s, -s, 0.5);
  }

  /** The point at parameter 1/2 is the coordinate-wise average of the ends:
      for the examples' corners this is (0,0,0) on (-1,0,0)-(1,0,0), (0,0.5,0)
      on (-1,0,0)-(1,1,0) and (0,0,0) on (1,0,0)-(-1,0,0). */
  lemma Midpoint(p: Vec3, q: Vec3)
    ensures Lerp(p, q, 0.5) == Vec3((p.x + q.x) / 2.0, (p.y + q.y) / 2.0, (p.z + q.z) / 2.0)
  {
  }

  /** A triangle whose corners have x coordinates -1, 1 and 1 is split around
      its first corner, with the new points at the midpoints of A-B and A-C;
      the triangle (-1,0,0), (1,0,0), (1,1,0) is one such triangle. */
  lemma TwoPointsExample(a: Vec3, b: Vec3, c: Vec3)
    requires a.x == -1.0 && b.x == 1.0 && c.x == 1.0
    ensures ClipAll([[a, b, c]], PlaneX0)
         == Fragment([a, b, c, Lerp(a, b, 0.5), Lerp(a, c, 0.5)], [[0, 3, 4], [3, 1, 2], [3, 2, 4]])
  {
    var t: Triangle := [a, b, c];
    assert SplitResult(t, PlaneX0)
        == Fragment([a, b, c, Lerp(a, b, 0.5), Lerp(a, c, 0.5)], [[0, 3, 4], [3, 1, 2], [3, 2, 4]]) by {
      PlaneX0Distance(a);
      PlaneX0Distance(b);
      PlaneX0Distance(c);
      TwoPointsByDistances(t, PlaneX0);
    }
    ClipAllSingle(t, PlaneX0);
  }

  /** A triangle whose corners have x coordinates 0, 1 and -1 is split through
      its first corner and the midpoint of B-C; the triangle (0,0,0), (1,0,0),
      (-1,0,0) is one such triangle. */
  lemma OnePointExample(a: Vec3, b: Vec3, c: Vec3)
    requires a.x == 0.0 && b.x == 1.0 && c.x == -1.0
    ensures ClipAll([[a, b, c]], PlaneX0) == Fragment([a, b, c, Lerp(b, c, 0.5)], [[0, 1, 3], [0, 3, 2]])
  {
    var t: Triangle := [a, b, c];
    assert SplitResult(t, PlaneX0) == Fragment([a, b, c, Lerp(b, c, 0.5)], [[0, 1, 3], [0, 3, 2]]) by {
      PlaneX0Distance(a);
      PlaneX0Distance(b);
      PlaneX0Distance(c);
      OnePointByDistances(t, PlaneX0, 1.0);
    }
    ClipAllSingle(t, PlaneX0);
  }
}
