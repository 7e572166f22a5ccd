# Plane clipping of triangle meshes

This project is a Dafny model of the triangle splitter in `tri_split.py`, a
Blender script that cuts every triangle of a mesh against a plane. Each vertex
gets a signed distance `n.V - d` and a label of -1, 0 or +1. The counts of the
three labels then pick one of three cases:

- the 1-vs-2 split: the lone vertex A, and two new points on its edges, give
  three triangles;
- the one-point split: A lies on the plane, and one new point on the opposite
  edge gives two triangles;
- the unchanged copy: the triangle is emitted as it is.

Every emitted vertex is a new entry of an append-only output mesh. The mesh
loop clips every triangle, in order, into a fresh output mesh.

Layout:

- `geometry.dfy`: exact real vectors, the plane, the signed distance, the
  edge split point, and the cross product that fixes a triangle's winding.
- `classify.dfy`: the three-way classifier with its tolerance.
- `mesh.dfy`: two forms of the output mesh. `Fragment` is the mesh as a value.
  `BMesh` is the class that the operations update in place. `Append` is
  merging one mesh into another.
- `trisplit.dfy`: the case table and what each case emits, as specification
  functions with their lemmas, plus the imperative operations (`BuildFace`,
  `SplitFaceTwoPoints`, `SplitFaceOnePoint`, `SplitFace`). Each operation is
  proved to append exactly what its specification function describes.
- `clip.dfy`: the mesh loop `SplitObjectMesh` and the fold `ClipAll` that
  specifies it, with whole-mesh properties.
- `scenarios.dfy`: the two worked examples against the plane x = 0.
- `findings.dfy`: two places where the code as written departs from what it
  intends, each modelled as written.

The model follows the code where it does something other than what is
intended:

- The clipper is meant to reject invalid geometry (a zero-length normal, a
  degenerate split) with an error, but the code never raises one. The only
  check is the assertion that the counts sum to three, and `TriSplit.CountsSum`
  proves it always holds.
- `splitFace` always classifies with the default tolerance 0. The model
  therefore fixes the tolerance at 0 there and keeps it a parameter only of
  `ClassifyDV`.
- With a negative tolerance, the classifier's positive test comes first. So
  -1 means "not above `eps` and below `-eps`", not just "below `-eps`".
  `Classify.ClassifyDV` states it that way.
- The one-point search does not stop at the first vertex on the plane; it
  keeps the last one. `TriSplit.OnPlaneOf` is that last index. In the
  one-point case only one vertex is on the plane, so the choice makes no
  difference there.

## Model

| member | source | states |
|---|---|---|
| Geometry.SignedDistance | tri_split.py:169 | definition `n.V - d`; contract in `Geometry.MakePlane`, `Geometry.DistanceAffine` and `Geometry.DistanceScaled` |
| Geometry.CalcSplitPoint | tri_split.py:104-105 | definition `A + (-dA / (dB - dA)) (B - A)`; contract in `Geometry.SplitPointAt` and `Geometry.SplitPointOnPlane` |
| Geometry.MakePlane | tri_split.py:18-22 | the plane keeps the given normal, and its defining point is at signed distance 0 (the offset is taken with the same normal the distance uses) |
| Geometry.DistanceAffine | tri_split.py:169 | along any line the signed distance is affine in the line parameter |
| Geometry.SplitParamBetween | tri_split.py:104-105 | for distances strictly on opposite sides the denominator is non-zero, the interpolation parameter is strictly between 0 and 1, and the interpolated distance is exactly 0 |
| Geometry.SplitPointAt | tri_split.py:104-105 | the split point is the point of the edge at the parameter solving `dA + t (dB - dA) = 0` |
| Geometry.SplitPointOnPlane | tri_split.py:104-105 | with dA, dB the signed distances of A, B on opposite sides: the split point lies strictly inside A-B, has signed distance 0, and is the only point of the line A-B on the plane |
| Geometry.MakePlaneScaled | tri_split.py:18-22 | the plane through p with the normal scaled by k has the offset scaled by k |
| Geometry.DistanceScaled | tri_split.py:169 | scaling a plane's normal and offset by k scales every signed distance by k |
| Geometry.SplitParamScaled | tri_split.py:104-105 | scaling both distances by the same non-zero factor keeps the denominator non-zero and the interpolation parameter unchanged |
| Geometry.SplitPointScaled | tri_split.py:104-105 | distances scaled by the same non-zero factor give the same split point |
| Geometry.NormalInFrame | tri_split.py:131-133 | the normal of a triangle whose corners have frame coordinates (a1,b1), (a2,b2), (a3,b3) is the normal of the frame's axes times the determinant (a2-a1)(b3-b1) - (b2-b1)(a3-a1) |
| Geometry.NormalRotate | tri_split.py:131-133 | turning a triangle's corners cyclically keeps its normal |
| Geometry.TwoCutNormals | tri_split.py:122-133 | with X1 = A + s(B-A) and X2 = A + u(C-A), the faces (A,X1,X2), (X1,B,C), (X1,C,X2) have the normals s u N, (1-s) N and s (1-u) N, N the normal of A, B, C |
| Geometry.OneCutNormals | tri_split.py:149-157 | with X = B + w(C-B), the faces (A,B,X) and (A,X,C) have the normals w N and (1-w) N |
| Geometry.ScaledSameDirection | tri_split.py:131-133 | a positive multiple of a vector, or a positive multiple of a positive multiple, points the same way |
| Classify.ClassifyDV | tri_split.py:90-93 | +1 exactly when x > eps; -1 exactly when x <= eps and x < -eps; 0 exactly when -eps <= x <= eps |
| Classify.ClassifyTolerance | tri_split.py:90-93 | for eps >= 0, the label is 0 exactly when the absolute value is at most eps, and negating the distance negates the label |
| Classify.ClassifyMonotone | tri_split.py:90-93 | a larger distance never gets a smaller label |
| Classify.ClassifyExact | tri_split.py:90-93 | at the default tolerance the label is the sign of the distance, and distance 0 is labelled 0 |
| Classify.ClassifyScaled | tri_split.py:90-93 | at the default tolerance, scaling the distance by a positive factor keeps the label |
| Mesh.Append | tri_split.py:25-31 | definition of merging one mesh into another; contract in `Mesh.AppendPolygons`, `Mesh.AppendExtends`, `Mesh.AppendEmpty` and `Mesh.AppendAssociative` |
| Mesh.AppendPolygons | tri_split.py:25-31 | merging keeps the mesh well formed, and the merged geometry is the old geometry followed by the fragment's |
| Mesh.AppendExtends | tri_split.py:25-31 | merging only appends: old vertices and faces keep their indices, and the counts grow by the fragment's counts |
| Mesh.AppendEmpty | tri_split.py:25-31 | merging an empty fragment, or merging into an empty mesh, changes nothing |
| Mesh.AppendAssociative | tri_split.py:25-31 | merging a, then b, then c gives the same mesh as merging a with the merge of b and c |
| Mesh.BMesh.constructor | tri_split.py:201 | a fresh output mesh is empty and valid |
| Mesh.BMesh.NewVert | tri_split.py:99 | appends one vertex and returns its index, the old vertex count; faces are unchanged |
| Mesh.BMesh.NewFace | tri_split.py:102 | appends one face over at least three distinct existing vertices; vertices are unchanged |
| Mesh.BMesh.Join | tri_split.py:25-31 | the mesh becomes the merge of its old contents with the other mesh's contents, and stays valid |
| TriSplit.Count | tri_split.py:175-177 | a count is at most the length, and is 0 exactly when the label is absent |
| TriSplit.CountsSum | tri_split.py:175-181 | the counts of -1, 0 and +1 add up to the number of labels, so the assertion always holds |
| TriSplit.CaseOf | tri_split.py:183-188 | for three labels: two-point split exactly when both signs occur and no vertex is on the plane; one-point split exactly when all three labels occur; copy exactly when the two signs do not both occur; one on the plane and one positive forces one negative |
| TriSplit.LoneOf | tri_split.py:110-120 | in the 1-vs-2 pattern, the index found differs from both others, is the only such index, is strictly on one side, and the other two are on the other side |
| TriSplit.OnPlaneOf | tri_split.py:138-147 | the index found is on the plane with none after it; in the one-point case it is the only one, and the next two in cyclic order are strictly on opposite sides |
| TriSplit.CopyFragment | tri_split.py:95-102 | definition of the copy of a triangle; contract in `TriSplit.CopyPolygons` and `TriSplit.UnchangedIffNoStraddle` |
| TriSplit.TwoPointsFragment | tri_split.py:108-134 | definition of the 1-vs-2 split's output; contract in `TriSplit.TwoPointsProperties` and `TriSplit.TwoPointsWinding` |
| TriSplit.OnePointFragment | tri_split.py:136-158 | definition of the one-point split's output; contract in `TriSplit.OnePointProperties` and `TriSplit.OnePointWinding` |
| TriSplit.SplitResult | tri_split.py:161-189 | definition of what clipping one triangle emits; contract in `TriSplit.SplitResultProperties`, `TriSplit.SplitResultWinding` and `TriSplit.SplitResultScaleInvariant` |
| TriSplit.UnchangedIffNoStraddle | tri_split.py:183-188 | a triangle is copied exactly when it has no corner strictly above and another strictly below, and then the copy is its three positions with one face over them |
| TriSplit.CopyPolygons | tri_split.py:95-102 | the copy is well formed, and its geometry is the one polygon over the given positions in order |
| TriSplit.TwoPointsProperties | tri_split.py:108-134 | lone vertex unique; A, B, C in cyclic order; X1 strictly inside A-B and X2 strictly inside A-C, both on the plane; 5 vertices, 3 faces, well formed; no emitted triangle straddles |
| TriSplit.OnePointProperties | tri_split.py:136-158 | on-plane vertex unique with distance 0; B and C on opposite sides in cyclic order; X strictly inside B-C on the plane; 4 vertices, 2 faces, well formed; no emitted triangle straddles |
| TriSplit.SplitResultProperties | tri_split.py:161-189 | whatever the case: well formed, 1 to 3 triangular faces, per-case vertex and face counts, the copy keeps the positions, and no emitted face straddles |
| TriSplit.RotatedNormal | tri_split.py:110-120 | the corners taken from index i on in cyclic order have the same normal as the triangle |
| TriSplit.TwoPointsWinding | tri_split.py:122-133 | in the 1-vs-2 split, with s and u the parameters of X1 on A-B and X2 on A-C: 0 < s, u < 1, and the emitted faces have the normals s u N, (1-s) N and s (1-u) N, N the input triangle's normal |
| TriSplit.OnePointWinding | tri_split.py:149-157 | in the one-point split, with w the parameter of X on B-C: 0 < w < 1, and the emitted faces have the normals w N and (1-w) N |
| TriSplit.SplitResultWinding | tri_split.py:161-189 | whatever the case, every emitted face is a triangle whose normal is a positive multiple of the input triangle's normal, so the winding is kept |
| TriSplit.DistancesScaled | tri_split.py:167-170 | scaling the plane by k scales each corner distance by k |
| TriSplit.LabelsScaled | tri_split.py:172-173 | distances scaled by a positive factor get the same labels |
| TriSplit.ParamsScaled | tri_split.py:104-105 | distances scaled by a non-zero factor give the same interpolation parameter on every edge whose denominator is non-zero |
| TriSplit.ScaledPlaneAgrees | tri_split.py:167-173 | a plane scaled by k > 0 gives the same labels and the same edge parameters |
| TriSplit.TwoPointsSameParams | tri_split.py:108-134 | two distance vectors with the same labels and the same parameters on A-B and A-C give the same 1-vs-2 output |
| TriSplit.OnePointSameParams | tri_split.py:136-158 | two distance vectors with the same labels and the same parameter on B-C give the same one-point output |
| TriSplit.TwoPointsScaleInvariant | tri_split.py:108-134 | in the 1-vs-2 case, the plane (k n, k d) with k > 0 gives the same output as (n, d) |
| TriSplit.OnePointScaleInvariant | tri_split.py:136-158 | in the one-point case, the plane (k n, k d) with k > 0 gives the same output as (n, d) |
| TriSplit.SplitResultScaleInvariant | tri_split.py:161-189 | clipping one triangle against the plane (k n, k d) with k > 0 gives the same output as against (n, d) |
| TriSplit.BuildFace | tri_split.py:95-102 | appends every position as a new vertex and one face over them in order, and returns that face; nothing already in the mesh changes |
| TriSplit.SplitFaceTwoPoints | tri_split.py:108-134 | the search loop finds the lone vertex, and the mesh becomes the old mesh merged with the two-point fragment |
| TriSplit.EmitTwoPoints | tri_split.py:125-133 | appends A, B, C, X1, X2 and the faces (A,X1,X2), (X1,B,C), (X1,C,X2) over the new indices |
| TriSplit.SplitFaceOnePoint | tri_split.py:136-158 | the search loop finds the on-plane vertex, and the mesh becomes the old mesh merged with the one-point fragment, whose new point is the X computed from B and C |
| TriSplit.EmitOnePoint | tri_split.py:151-157 | appends A, B, C, X and the faces (A,B,X), (A,X,C) over the new indices |
| TriSplit.SplitFace | tri_split.py:161-189 | the distance and label loop and the dispatch together append exactly the split result of the triangle |
| Clip.ClipAll | tri_split.py:205-206 | the output of clipping a triangle list is well formed and all triangles; faces number between the input count and three times it, vertices between three and five times it |
| Clip.ClipAllSingle | tri_split.py:201-206 | clipping one triangle into a fresh mesh gives exactly its split result |
| Clip.ClipAllNoStraddle | tri_split.py:205-206 | no output triangle straddles the plane |
| Clip.ClipAllUnchanged | tri_split.py:205-206 | a mesh in which no triangle straddles is copied: same positions in order, same triangles, same face count |
| Clip.ClipIdempotent | tri_split.py:205-206 | clipping the output triangles again gives back the same triangles |
| Clip.ClipAllConcat | tri_split.py:205-206 | clipping two lists one after the other is merging the clip of the second into the clip of the first |
| Clip.ClipAllScaleInvariant | tri_split.py:205-206 | clipping a triangle list against the plane (k n, k d) with k > 0 gives the same output mesh as against (n, d) |
| Clip.SplitObjectMesh | tri_split.py:194-212 | the loop over the triangles builds a fresh, valid mesh equal to the clip of the whole list |
| Scenarios.PlaneX0Distance | tri_split.py:169 | the distance from x = 0 is the x coordinate |
| Scenarios.PlaneX0Made | tri_split.py:18-22 | x = 0 is the plane through the origin with normal (1,0,0) |
| Scenarios.TwoPointsByDistances | tri_split.py:108-134 | corner distances -1, 1, 1 give a split around the first corner, with new points at the midpoints of its two edges |
| Scenarios.OnePointByDistances | tri_split.py:136-158 | corner distances 0, s, -s give a split through the first corner and the midpoint of the opposite edge |
| Scenarios.TwoPointsExample | tri_split.py:161-189 | a triangle with x coordinates -1, 1, 1, such as (-1,0,0), (1,0,0), (1,1,0), is clipped against x = 0 into the triangles (A,X1,X2), (X1,B,C), (X1,C,X2) |
| Scenarios.OnePointExample | tri_split.py:161-189 | a triangle with x coordinates 0, 1, -1, such as (0,0,0), (1,0,0), (-1,0,0), is clipped against x = 0 into (A,B,X) and (A,X,C) |
| Scenarios.Midpoint | tri_split.py:104-105 | the point at parameter 1/2 of an edge is the coordinate-wise average of its ends, which for the example corners gives X1 = (0,0,0), X2 = (0,0.5,0) and X = (0,0,0) |
| Findings.PlaneAsWritten | tri_split.py:18-22 | definition of the plane as built, with the normal normalised and the offset taken with the unnormalised normal; contract in `Findings.PlaneAsWrittenMissesPoint` and `Findings.PlaneAsWrittenUnitNormal` |
| Findings.PlaneAsWrittenMissesPoint | tri_split.py:18-22 | as written, with k the reciprocal of the normal's length, the defining point is at distance (k - 1) n.p from its own plane |
| Findings.PlaneAsWrittenExample | tri_split.py:18-22 | as written, for normal (2,0,0) and point (1,0,0) the point is at distance -1 from its own plane |
| Findings.PlaneAsWrittenUnitNormal | tri_split.py:18-22 | for a unit normal, the constructor as written and the corrected one build the same plane |
| Findings.NormalisedPlaneClipsAlike | tri_split.py:18-22 | the corrected plane through p with the normalised normal k n, k > 0, clips every triangle list exactly as the model's plane through p with the normal n |
| Findings.SplitFaceAsWritten | tri_split.py:136-158 | definition of clipping one triangle as written: the one-point case appends A, B, C and raises; contract in `Findings.ClipAllAsWrittenRaises` and `Findings.OnePointAsWrittenExample` |
| Findings.ClipAllAsWritten | tri_split.py:194-212 | definition of the mesh loop as written, stopping at the first triangle that raises; contract in `Findings.ClipAllAsWrittenRaises` |
| Findings.FirstOnePoint | tri_split.py:205-206 | the index at which the loop as written stops: no triangle before it is a one-point case, and it is one unless it is the length of the list |
| Findings.RaisedFragment | tri_split.py:151-154 | what the one-point case appends before it raises: three vertices that are the triangle's corners turned cyclically, the first on the plane, and no face |
| Findings.ClipAllAsWrittenCompletes | tri_split.py:194-212 | as written, a list with no one-point triangle is clipped to completion, with the same output as the corrected clip |
| Findings.ClipAllAsWrittenStops | tri_split.py:194-212 | as written, when triangle j is the first one-point triangle the run raises, with the corrected clip of the triangles before j followed by triangle j's A, B, C as output |
| Findings.ClipAllAsWrittenRaises | tri_split.py:154 | as written, clipping a triangle list raises exactly when some triangle is a one-point case; the output is then the clip of the triangles before the first such triangle followed by its A, B, C and no face for it, and otherwise the corrected clip of the whole list |
| Findings.OnePointAsWrittenExample | tri_split.py:154 | as written, the triangle (0,0,0), (1,0,0), (-1,0,0) against x = 0 raises after appending its three corners and no face, where the corrected split emits two faces |

## Left out

- Blender scene and object management (`deleteObject`, `deleteUnusedMeshes`, `main`): host application state and foreign calls.
- Reading the input mesh, the world transform and triangulation (tri_split.py:197-199) are library calls. The input is taken as a list of world-space triangles.
- Geometry.MakePlane: does not normalise the normal, since that needs a square root. The normal is taken as given, and the offset is computed with that same normal. `Findings.NormalisedPlaneClipsAlike` proves that normalising (scaling by any k > 0) would not change any output.
- A zero-length normal, which the normaliser would turn into a zero vector, is not modelled.
- Floating point: coordinates and distances are exact reals, so rounding, and a denominator rounding to zero, are not modelled.
- `testSplitLine` (tri_split.py:40-87) is a debug variant for segments whose only call is commented out.
- All `print` diagnostics.
- Mesh.BMesh.Join: `joinBmeshes` round-trips through a temporary library mesh. It is modelled as an append of vertices and of faces with indices shifted by the old vertex count.
- The library's own checks in `faces.new` (a face that already exists, for example) are not modelled beyond what `NewFace` requires.
- The emitted triangles are meant to cover exactly the input triangle; that covering is not modelled. The model proves where the new points lie, that no emitted triangle straddles the plane, and that every emitted triangle winds the same way as the input.
- Scenarios.TwoPointsExample and Scenarios.OnePointExample: stated for any triangle with the example's x coordinates, with the new points as edge midpoints. The concrete coordinates of those points follow from Scenarios.Midpoint and are not stated as separate facts.

## Findings

| source | as written | input that shows it | evidently intended | confidence | as-written member | corrected member |
|---|---|---|---|---|---|---|
| tri_split.py:20-22 | the offset `d` is taken with the normal before normalisation, while distances use the normalised normal | normal (2,0,0) and point (1,0,0): the point is at distance -1 from its own plane | the offset taken with the normalised normal, so the defining point is on the plane | not executed; latent, since the default plane in the file has a unit normal | Findings.PlaneAsWrittenExample | Geometry.MakePlane |
| tri_split.py:154 | the new vertex is built from `X1`, a name that `splitFaceOnePoint` never binds, so the call raises | triangle (0,0,0), (1,0,0), (-1,0,0) against the plane x = 0 | the vertex built from `X`, computed on B-C at line 149 | not executed | Findings.OnePointAsWrittenExample | TriSplit.SplitFaceOnePoint |
