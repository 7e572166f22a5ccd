/** The output mesh: an append-only store of vertex positions and of faces,
    each face an ordered list of indices into the vertex store. */
module Mesh {
  import opened Geometry

  /** A mesh as a value: its vertices and its faces. */
  datatype Fragment = Fragment(verts: seq<Vec3>, faces: seq<seq<nat>>)

  const Empty: Fragment := Fragment([], [])

  /** A face the mesh library accepts: at least three distinct vertices, all of
      them already in the store. */
  predicate ValidFace(f: seq<nat>, nVerts: nat) {
    |f| >= 3 &&
    (forall j :: 0 <= j < |f| ==> f[j] < nVerts) &&
    (forall i, j :: 0 <= i < j < |f| ==> f[i] != f[j])
  }

  predicate WellFormed(m: Fragment) {
    forall k :: 0 <= k < |m.faces| ==> ValidFace(m.faces[k], |m.verts|)
  }

  function ShiftFace(f: seq<nat>, off: nat): (g: seq<nat>)
    ensures |g| == |f|
    ensures forall j :: 0 <= j < |f| ==> g[j] == f[j] + off
  {
    seq(|f|, j requires 0 <= j < |f| => f[j] + off)
  }

  function ShiftFaces(fs: seq<seq<nat>>, off: nat): (gs: seq<seq<nat>>)
    ensures |gs| == |fs|
    ensures forall k :: 0 <= k < |fs| ==> gs[k] == ShiftFace(fs[k], off)
  {
    seq(|fs|, k requires 0 <= k < |fs| => ShiftFace(fs[k], off))
  }

  /** `frag` appended to `m`: its vertices as new entries after those of `m`,
      its faces remapped to refer to those new entries. */
  function Append(m: Fragment, frag: Fragment): Fragment {
    Fragment(m.verts + frag.verts, m.faces + ShiftFaces(frag.faces, |m.verts|))
  }

  /** The positions of the corners of face `k`, in face order. */
  function Polygon(m: Fragment, k: nat): (p: seq<Vec3>)
    requires WellFormed(m) && k < |m.faces|
    ensures |p| == |m.faces[k]|
    ensures forall j :: 0 <= j < |p| ==> p[j] == m.verts[m.faces[k][j]]
  {
    var f := m.faces[k];
    seq(|f|, j requires 0 <= j < |f| => m.verts[f[j]])
  }

  /** The geometry of the mesh: every face as the list of its corner positions. */
  function Polygons(m: Fragment): (ps: seq<seq<Vec3>>)
    requires WellFormed(m)
    ensures |ps| == |m.faces|
    ensures forall k :: 0 <= k < |ps| ==> ps[k] == Polygon(m, k)
  {
    seq(|m.faces|, k requires 0 <= k < |m.faces| => Polygon(m, k))
  }

  /** The normal of triangle `k`, from its corners in face order. */
  function FaceNormal(m: Fragment, k: nat): Vec3
    requires WellFormed(m) && k < |m.faces| && |m.faces[k]| == 3
  {
    Normal(m.verts[m.faces[k][0]], m.verts[m.faces[k][1]], m.verts[m.faces[k][2]])
  }

  lemma ShiftFaceValid(f: seq<nat>, off: nat, n: nat)
    requires ValidFace(f, n)
    ensures ValidFace(ShiftFace(f, off), off + n)
  {
  }

  /** Merging keeps the mesh well formed and its geometry is the geometry of
      `m` followed by that of `frag`: appending never changes what was there. */
  lemma AppendPolygons(m: Fragment, frag: Fragment)
    requires WellFormed(m) && WellFormed(frag)
    ensures WellFormed(Append(m, frag))
    ensures Polygons(Append(m, frag)) == Polygons(m) + Polygons(frag)
  {
    var r := Append(m, frag);
    var n := |m.verts|;
    forall k | 0 <= k < |r.faces| ensures ValidFace(r.faces[k], |r.verts|) {
      if k >= |m.faces| {
        ShiftFaceValid(frag.faces[k - |m.faces|], n, |frag.verts|);
      }
    }
    assert WellFormed(r);
    var lhs, rhs := Polygons(r), Polygons(m) + Polygons(frag);
    assert |lhs| == |rhs|;
    forall k | 0 <= k < |lhs| ensures lhs[k] == rhs[k] {
      if k < |m.faces| {
        assert r.faces[k] == m.faces[k];
        assert Polygon(r, k) == Polygon(m, k);
      } else {
        var k' := k - |m.faces|;
        assert r.faces[k] == ShiftFace(frag.faces[k'], n);
        assert forall j :: 0 <= j < |frag.faces[k']| ==> r.verts[n + frag.faces[k'][j]] == frag.verts[frag.faces[k'][j]];
        assert Polygon(r, k) == Polygon(frag, k');
      }
    }
  }

  /** Merging only appends: what `m` held is kept, at the same indices, and the
      mesh grows by exactly the fragment's vertices and faces. */
  lemma AppendExtends(m: Fragment, frag: Fragment)
    ensures |Append(m, frag).verts| == |m.verts| + |frag.verts|
    ensures |Append(m, frag).faces| == |m.faces| + |frag.faces|
    ensures Append(m, frag).verts[..|m.verts|] == m.verts
    ensures Append(m, frag).faces[..|m.faces|] == m.faces
    ensures Append(m, frag).verts[|m.verts|..] == frag.verts
  {
  }

  /** Merging an empty fragment changes nothing, and merging into an empty mesh
      gives the fragment itself. */
  lemma AppendEmpty(m: Fragment)
    ensures Append(m, Empty) == m
    ensures Append(Empty, m) == m
  {
    assert m.verts + [] == m.verts;
    assert m.faces + [] == m.faces;
    assert ShiftFaces(m.faces, 0) == m.faces by {
      forall k | 0 <= k < |m.faces| ensures ShiftFace(m.faces[k], 0) == m.faces[k] {
      }
    }
  }

  lemma ShiftShift(f: seq<nat>, p: nat, q: nat)
    ensures ShiftFace(ShiftFace(f, p), q) == ShiftFace(f, p + q)
  {
  }

  /** Merging fragments is associative: merging `a`, then `b`, then `c` gives the
      same mesh as merging `a` with `b` and `c` already merged. */
  lemma AppendAssociative(a: Fragment, b: Fragment, c: Fragment)
    ensures Append(Append(a, b), c) == Append(a, Append(b, c))
  {
    var na, nb := |a.verts|, |b.verts|;
    var lhs := a.faces + ShiftFaces(b.faces, na) + ShiftFaces(c.faces, na + nb);
    var rhs := a.faces + ShiftFaces(b.faces + ShiftFaces(c.faces, nb), na);
    assert |lhs| == |rhs|;
    forall k | 0 <= k < |lhs| ensures lhs[k] == rhs[k] {
      if k >= |a.faces| + |b.faces| {
        ShiftShift(c.faces[k - |a.faces| - |b.faces|], nb, na);
      }
    }
    assert a.verts + b.verts + c.verts == a.verts + (b.verts + c.verts);
  }

  /** The mesh being built, updated in place by appending vertices and faces. */
  class BMesh {
    var verts: seq<Vec3>
    var faces: seq<seq<nat>>

    ghost predicate Valid()
      reads this
    {
      WellFormed(Contents())
    }

    function Contents(): Fragment
      reads this
    {
      Fragment(verts, faces)
    }

    /** A fresh, empty mesh. */
    constructor ()
      ensures Valid() && Contents() == Empty
    {
      verts := [];
      faces := [];
    }

    /** Adds a vertex at `v` and returns its index. */
    method NewVert(v: Vec3) returns (i: nat)
      requires Valid()
      modifies this
      ensures Valid()
      ensures i == |old(verts)|
      ensures verts == old(verts) + [v] && faces == old(faces)
    {
      i := |verts|;
      verts := verts + [v];
    }

    /** Adds a face over existing vertices; the library refuses fewer than three
        vertices, a repeated vertex and a vertex not in this mesh. */
    method NewFace(f: seq<nat>)
      requires Valid() && ValidFace(f, |verts|)
      modifies this
      ensures Valid()
      ensures verts == old(verts) && faces == old(faces) + [f]
    {
      faces := faces + [f];
    }

    /** Merges `other` into this mesh (the mesh library's round trip through a
        temporary mesh, taken as a plain append). */
    method Join(other: BMesh)
      requires Valid() && other.Valid()
      modifies this
      ensures Valid()
      ensures Contents() == Append(old(Contents()), old(other.Contents()))
    {
      AppendPolygons(Contents(), other.Contents());
      verts, faces := verts + other.verts, faces + ShiftFaces(other.faces, |verts|);
    }
  }
}
