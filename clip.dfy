/** Clipping a whole mesh: every triangle, in order, is clipped into one fresh
    output mesh. */
module Clip {
  import opened Geometry
  import opened Mesh
  import opened TriSplit

  /** The output mesh after clipping `tris` in order into an empty mesh. It is
      well formed, holds only triangles, and each input triangle contributes
      one to three faces over three to five new vertices. */
  function ClipAll(tris: seq<Triangle>, pl: Plane): (m: Fragment)
    ensures WellFormed(m)
    ensures forall k :: 0 <= k < |m.faces| ==> |m.faces[k]| == 3
    ensures |tris| <= |m.faces| <= 3 * |tris|
    ensures 3 * |tris| <= |m.verts| <= 5 * |tris|
  {
    if tris == [] then Empty
    else
      var prev := ClipAll(tris[..|tris| - 1], pl);
      var last := SplitResult(tris[|tris| - 1], pl);
      SplitResultProperties(tris[|tris| - 1], pl);
      AppendPolygons(prev, last);
      Append(prev, last)
  }

  /** Clipping a single triangle into an empty mesh gives exactly what the split
      emits. */
  lemma ClipAllSingle(t: Triangle, pl: Plane)
    ensures ClipAll([t], pl) == SplitResult(t, pl)
  {
    assert [t][..0] == [];
    AppendEmpty(SplitResult(t, pl));
  }

  /** The output geometry as triangles. */
  function Triangles(m: Fragment): (ts: seq<Triangle>)
    requires WellFormed(m) && forall k :: 0 <= k < |m.faces| ==> |m.faces[k]| == 3
    ensures ts == Polygons(m)
  {
    Polygons(m)
  }

  /** No output triangle has a corner strictly above the plane and another
      strictly below it. */
  lemma {:induction false} ClipAllNoStraddle(tris: seq<Triangle>, pl: Plane)
    ensures NoneStraddle(pl, Polygons(ClipAll(tris, pl)))
  {
    if tris != [] {
      var prev := ClipAll(tris[..|tris| - 1], pl);
      var last := SplitResult(tris[|tris| - 1], pl);
      ClipAllNoStraddle(tris[..|tris| - 1], pl);
      SplitResultProperties(tris[|tris| - 1], pl);
      AppendPolygons(prev, last);
      var ps, pp, pq := Polygons(ClipAll(tris, pl)), Polygons(prev), Polygons(last);
      assert ps == pp + pq;
      forall k | 0 <= k < |ps| ensures !Straddles(pl, ps[k]) {
        if k < |pp| {
          assert ps[k] == pp[k];
        } else {
          assert ps[k] == pq[k - |pp|];
        }
      }
    }
  }

  /** The positions of all corners, triangle after triangle. */
  function Flatten(tris: seq<Triangle>): seq<Vec3> {
    if tris == [] then [] else Flatten(tris[..|tris| - 1]) + tris[|tris| - 1]
  }

  /** Appending the copy of a triangle adds its corners and one face through
      them. */
  lemma AppendCopy(m: Fragment, t: Triangle)
    requires WellFormed(m)
    ensures Append(m, CopyFragment(t)).verts == m.verts + t
    ensures Polygons(Append(m, CopyFragment(t))) == Polygons(m) + [t]
    ensures |Append(m, CopyFragment(t)).faces| == |m.faces| + 1
  {
    CopyPolygons(t);
    AppendPolygons(m, CopyFragment(t));
  }

  /** A mesh in which no triangle straddles the plane is copied: the same
      positions in the same order, and the same triangles, one face each. */
  lemma {:induction false} ClipAllUnchanged(tris: seq<Triangle>, pl: Plane)
    requires NoneStraddle(pl, tris)
    ensures ClipAll(tris, pl).verts == Flatten(tris)
    ensures Polygons(ClipAll(tris, pl)) == tris
    ensures |ClipAll(tris, pl).faces| == |tris|
  {
    if tris != [] {
      var init, t := tris[..|tris| - 1], tris[|tris| - 1];
      assert tris == init + [t];
      var prev := ClipAll(init, pl);
      assert NoneStraddle(pl, init) by {
        assert forall k :: 0 <= k < |init| ==> init[k] == tris[k];
      }
      ClipAllUnchanged(init, pl);
      assert SplitResult(t, pl) == CopyFragment(t) by {
        assert !Straddles(pl, tris[|tris| - 1]);
        UnchangedIffNoStraddle(t, pl);
      }
      AppendCopy(prev, t);
    }
  }

  /** Clipping is idempotent: clipping the output triangles again gives back the
      same triangles. */
  lemma ClipIdempotent(tris: seq<Triangle>, pl: Plane)
    ensures var once := Triangles(ClipAll(tris, pl));
      Triangles(ClipAll(once, pl)) == once
  {
    var m := ClipAll(tris, pl);
    var once := Triangles(m);
    ClipAllNoStraddle(tris, pl);
    ClipAllUnchanged(once, pl);
    assert Polygons(ClipAll(once, pl)) == once;
  }

  /** Clipping two triangle lists one after the other into the same mesh is
      merging the clip of the second into the clip of the first. */
  lemma {:induction false} ClipAllConcat(a: seq<Triangle>, b: seq<Triangle>, pl: Plane)
    ensures ClipAll(a + b, pl) == Append(ClipAll(a, pl), ClipAll(b, pl))
  {
    if b == [] {
      assert a + b == a;
      AppendEmpty(ClipAll(a, pl));
    } else {
      var init, t := b[..|b| - 1], b[|b| - 1];
      assert (a + b)[..|a + b| - 1] == a + init;
      ClipAllConcat(a, init, pl);
      AppendAssociative(ClipAll(a, pl), ClipAll(init, pl), SplitResult(t, pl));
    }
  }

  /** Scaling the plane's normal and offset by the same positive factor, which
      is what normalising the normal does, gives the same output mesh. */
  lemma {:induction false} ClipAllScaleInvariant(tris: seq<Triangle>, n: Vec3, dist: real, k: real)
    requires k > 0.0
    ensures ClipAll(tris, Plane(Scale(k, n), k * dist)) == ClipAll(tris, Plane(n, dist))
  {
    if tris != [] {
      ClipAllScaleInvariant(tris[..|tris| - 1], n, dist, k);
      SplitResultScaleInvariant(tris[|tris| - 1], n, dist, k);
    }
  }

  /** The clipping loop: every triangle of the (already triangulated, world
      space) input is split into a fresh output mesh, in order. */
  method SplitObjectMesh(tris: seq<Triangle>, pl: Plane) returns (outBm: BMesh)
    ensures fresh(outBm) && outBm.Valid()
    ensures outBm.Contents() == ClipAll(tris, pl)
  {
    outBm := new BMesh();
    for k := 0 to |tris|
      invariant outBm.Valid()
      invariant outBm.Contents() == ClipAll(tris[..k], pl)
    {
      SplitFace(tris[k], pl, outBm);
      assert tris[..k + 1][..k] == tris[..k];
    }
    assert tris[..|tris|] == tris;
  }
}
