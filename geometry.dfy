/** Points, vectors and planes over the reals.
    A plane is kept as a normal `n` and an offset `d`; the signed distance of a
    point `V` is `n.V - d`, and the plane itself is the set of points at distance 0. */
module Geometry {

  datatype Vec3 = Vec3(x: real, y: real, z: real)

  const Origin: Vec3 := Vec3(0.0, 0.0, 0.0)

  function Add(a: Vec3, b: Vec3): Vec3 {
    Vec3(a.x + b.x, a.y + b.y, a.z + b.z)
  }

  function Sub(a: Vec3, b: Vec3): Vec3 {
    Vec3(a.x - b.x, a.y - b.y, a.z - b.z)
  }

  function Scale(k: real, a: Vec3): Vec3 {
    Vec3(k * a.x, k * a.y, k * a.z)
  }

  function Dot(a: Vec3, b: Vec3): real {
    a.x * b.x + a.y * b.y + a.z * b.z
  }

  /** The cross product. */
  function Cross(a: Vec3, b: Vec3): Vec3 {
    Vec3(a.y * b.z - a.z * b.y, a.z * b.x - a.x * b.z, a.x * b.y - a.y * b.x)
  }

  /** The point at parameter `t` on the line through `a` and `b` (`a` at 0, `b` at 1). */
  function Lerp(a: Vec3, b: Vec3, t: real): Vec3 {
    Add(a, Scale(t, Sub(b, a)))
  }

  /** `x` lies strictly between the end points of the segment `a`-`b`. */
  ghost predicate OnOpenSegment(x: Vec3, a: Vec3, b: Vec3) {
    exists t :: 0.0 < t < 1.0 && x == Lerp(a, b, t)
  }

  // ---------------------------------------------------------------------------
  // Winding

  /** The (unnormalised) normal of the triangle `p`, `q`, `r`: by the right-hand
      rule its direction tells which way the corner order winds. */
  function Normal(p: Vec3, q: Vec3, r: Vec3): Vec3 {
    Cross(Sub(q, p), Sub(r, p))
  }

  /** `v` points the way `n` does: it is a positive multiple of `n`. */
  ghost predicate SameDirection(v: Vec3, n: Vec3) {
    exists k :: k > 0.0 && v == Scale(k, n)
  }

  /** Equal factors give equal products. The solver does not always see this
      when the factors are written differently, so the proofs below call it. */
  lemma ProductOfEquals(a: real, b: real, c: real, d: real)
    requires a == c && b == d
    ensures a * b == c * d
  {
  }

  /** Scaling twice is scaling by the product. */
  lemma ScaleTwice(k1: real, k2: real, n: Vec3)
    ensures Scale(k1, Scale(k2, n)) == Scale(k1 * k2, n)
  {
    var m := Scale(k2, n);
    ProductOfEquals(k1, m.x, k1, k2 * n.x);
    ProductOfEquals(k1, m.y, k1, k2 * n.y);
    ProductOfEquals(k1, m.z, k1, k2 * n.z);
  }

  /** Scaling by a positive factor, once or twice, keeps the direction. */
  lemma ScaledSameDirection(k1: real, k2: real, n: Vec3)
    requires k1 > 0.0 && k2 > 0.0
    ensures SameDirection(Scale(k1, n), n)
    ensures SameDirection(Scale(k1, Scale(k2, n)), n)
  {
    ScaleTwice(k1, k2, n);
    assert k1 * k2 > 0.0;
  }

  /** The point with coordinates (`a`, `b`) in the frame with origin `o` and
      axes `e`, `f`: that is, `o + a e + b f`. */
  function InFrame(o: Vec3, e: Vec3, f: Vec3, a: real, b: real): Vec3 {
    Vec3(o.x + a * e.x + b * f.x, o.y + a * e.y + b * f.y, o.z + a * e.z + b * f.z)
  }

  /** The combination `u e + v f` of two vectors. */
  function Comb(u: real, e: Vec3, v: real, f: Vec3): Vec3 {
    Vec3(u * e.x + v * f.x, u * e.y + v * f.y, u * e.z + v * f.z)
  }

  /** The determinant of the coefficients of two combinations `u1 e + v1 f`
      and `u2 e + v2 f`. */
  function Det(u1: real, v1: real, u2: real, v2: real): real {
    u1 * v2 - v1 * u2
  }

  /** One component of the cross product of two combinations `g = u1 e + v1 f`
      and `h = u2 e + v2 f`, written with two coordinates `p`, `q` of each
      vector: it is the determinant of the coefficients times the same
      component of the cross product of `e` and `f`. */
  lemma CrossComponent(u1: real, v1: real, u2: real, v2: real, ep: real, fp: real, eq: real, fq: real,
                       gp: real, gq: real, hp: real, hq: real, det: real, c: real)
    requires gp == u1 * ep + v1 * fp && gq == u1 * eq + v1 * fq
    requires hp == u2 * ep + v2 * fp && hq == u2 * eq + v2 * fq
    requires det == u1 * v2 - v1 * u2 && c == ep * fq - eq * fp
    ensures gp * hq - gq * hp == det * c
  {
    ProductOfEquals(gp, hq, u1 * ep + v1 * fp, u2 * eq + v2 * fq);
    ProductOfEquals(gq, hp, u1 * eq + v1 * fq, u2 * ep + v2 * fp);
    ProductOfEquals(det, c, u1 * v2 - v1 * u2, ep * fq - eq * fp);
  }

  /** The x, y and z components of the cross product of two combinations of
      `e` and `f`. */
  lemma CrossOfCombinationsX(u1: real, v1: real, u2: real, v2: real, e: Vec3, f: Vec3)
    ensures Cross(Comb(u1, e, v1, f), Comb(u2, e, v2, f)).x == Det(u1, v1, u2, v2) * Cross(e, f).x
  {
    var g, h := Comb(u1, e, v1, f), Comb(u2, e, v2, f);
    CrossComponent(u1, v1, u2, v2, e.y, f.y, e.z, f.z, g.y, g.z, h.y, h.z, Det(u1, v1, u2, v2), Cross(e, f).x);
  }

  lemma CrossOfCombinationsY(u1: real, v1: real, u2: real, v2: real, e: Vec3, f: Vec3)
    ensures Cross(Comb(u1, e, v1, f), Comb(u2, e, v2, f)).y == Det(u1, v1, u2, v2) * Cross(e, f).y
  {
    var g, h := Comb(u1, e, v1, f), Comb(u2, e, v2, f);
    CrossComponent(u1, v1, u2, v2, e.z, f.z, e.x, f.x, g.z, g.x, h.z, h.x, Det(u1, v1, u2, v2), Cross(e, f).y);
  }

  lemma CrossOfCombinationsZ(u1: real, v1: real, u2: real, v2: real, e: Vec3, f: Vec3)
    ensures Cross(Comb(u1, e, v1, f), Comb(u2, e, v2, f)).z == Det(u1, v1, u2, v2) * Cross(e, f).z
  {
    var g, h := Comb(u1, e, v1, f), Comb(u2, e, v2, f);
    CrossComponent(u1, v1, u2, v2, e.x, f.x, e.y, f.y, g.x, g.y, h.x, h.y, Det(u1, v1, u2, v2), Cross(e, f).z);
  }

  /** The cross product of two combinations of `e` and `f` is the cross product
      of `e` and `f` scaled by the determinant of the coefficients. */
  lemma CrossOfCombinations(u1: real, v1: real, u2: real, v2: real, e: Vec3, f: Vec3)
    ensures Cross(Comb(u1, e, v1, f), Comb(u2, e, v2, f)) == Scale(Det(u1, v1, u2, v2), Cross(e, f))
  {
    CrossOfCombinationsX(u1, v1, u2, v2, e, f);
    CrossOfCombinationsY(u1, v1, u2, v2, e, f);
    CrossOfCombinationsZ(u1, v1, u2, v2, e, f);
  }

  /** The difference of two points of a frame has the differences of their
      coordinates as coefficients. */
  lemma SubInFrame(o: Vec3, e: Vec3, f: Vec3, a1: real, b1: real, a2: real, b2: real)
    ensures Sub(InFrame(o, e, f, a2, b2), InFrame(o, e, f, a1, b1)) == Comb(a2 - a1, e, b2 - b1, f)
  {
  }

  /** The normal of a triangle whose corners lie in a frame is the cross
      product of the two edge vectors from the first corner, written in the
      frame's axes. */
  lemma NormalAsCombinations(o: Vec3, e: Vec3, f: Vec3, a1: real, b1: real, a2: real, b2: real, a3: real, b3: real)
    ensures Normal(InFrame(o, e, f, a1, b1), InFrame(o, e, f, a2, b2), InFrame(o, e, f, a3, b3))
         == Cross(Comb(a2 - a1, e, b2 - b1, f), Comb(a3 - a1, e, b3 - b1, f))
  {
    SubInFrame(o, e, f, a1, b1, a2, b2);
    SubInFrame(o, e, f, a1, b1, a3, b3);
  }

  /** The normal of a triangle whose corners lie in a frame is the normal of the
      frame's axes scaled by the signed area factor of the corners' frame
      coordinates. */
  lemma NormalInFrame(o: Vec3, e: Vec3, f: Vec3, a1: real, b1: real, a2: real, b2: real, a3: real, b3: real)
    ensures Normal(InFrame(o, e, f, a1, b1), InFrame(o, e, f, a2, b2), InFrame(o, e, f, a3, b3))
         == Scale(Det(a2 - a1, b2 - b1, a3 - a1, b3 - b1), Cross(e, f))
  {
    NormalAsCombinations(o, e, f, a1, b1, a2, b2, a3, b3);
    CrossOfCombinations(a2 - a1, b2 - b1, a3 - a1, b3 - b1, e, f);
  }

  /** Interpolating between two points of a frame interpolates their
      coordinates. */
  lemma LerpInFrame(o: Vec3, e: Vec3, f: Vec3, a1: real, b1: real, a2: real, b2: real, t: real)
    ensures Lerp(InFrame(o, e, f, a1, b1), InFrame(o, e, f, a2, b2), t)
         == InFrame(o, e, f, a1 + t * (a2 - a1), b1 + t * (b2 - b1))
  {
  }

  /** The corners of a triangle in its own frame at `p` with axes `q - p` and
      `r - p`: `p` is (0,0), `q` is (1,0) and `r` is (0,1). */
  lemma CornersInFrame(p: Vec3, q: Vec3, r: Vec3)
    ensures var e, f := Sub(q, p), Sub(r, p);
      p == InFrame(p, e, f, 0.0, 0.0) && q == InFrame(p, e, f, 1.0, 0.0) && r == InFrame(p, e, f, 0.0, 1.0)
  {
  }

  /** Turning the corners of a triangle cyclically does not change its normal. */
  lemma NormalRotate(p: Vec3, q: Vec3, r: Vec3)
    ensures Normal(q, r, p) == Normal(p, q, r)
  {
    var e, f := Sub(q, p), Sub(r, p);
    CornersInFrame(p, q, r);
    NormalInFrame(p, e, f, 1.0, 0.0, 0.0, 1.0, 0.0, 0.0);
    assert Det(0.0 - 1.0, 1.0 - 0.0, 0.0 - 1.0, 0.0 - 0.0) == 1.0;
    assert Scale(1.0, Cross(e, f)) == Cross(e, f);
  }

  /** Cutting the triangle `a`, `b`, `c` at X1 = Lerp(a, b, s) and
      X2 = Lerp(a, c, u) into (a, X1, X2), (X1, b, c) and (X1, c, X2): the three
      normals are s u, 1 - s and s (1 - u) times the triangle's normal (the
      products written as two scalings). */
  lemma TwoCutNormals(a: Vec3, b: Vec3, c: Vec3, s: real, u: real)
    ensures var x1, x2, n := Lerp(a, b, s), Lerp(a, c, u), Normal(a, b, c);
      Normal(a, x1, x2) == Scale(s, Scale(u, n)) &&
      Normal(x1, b, c) == Scale(1.0 - s, n) &&
      Normal(x1, c, x2) == Scale(s, Scale(1.0 - u, n))
  {
    var e, f := Sub(b, a), Sub(c, a);
    CornersInFrame(a, b, c);
    assert Lerp(a, b, s) == InFrame(a, e, f, s, 0.0);
    assert Lerp(a, c, u) == InFrame(a, e, f, 0.0, u);
    NormalInFrame(a, e, f, 0.0, 0.0, s, 0.0, 0.0, u);
    assert Det(s - 0.0, 0.0 - 0.0, 0.0 - 0.0, u - 0.0) == s * u;
    NormalInFrame(a, e, f, s, 0.0, 1.0, 0.0, 0.0, 1.0);
    assert Det(1.0 - s, 0.0 - 0.0, 0.0 - s, 1.0 - 0.0) == 1.0 - s;
    NormalInFrame(a, e, f, s, 0.0, 0.0, 1.0, 0.0, u);
    assert Det(0.0 - s, 1.0 - 0.0, 0.0 - s, u - 0.0) == s * (1.0 - u);
    ScaleTwice(s, u, Cross(e, f));
    ScaleTwice(s, 1.0 - u, Cross(e, f));
  }

  /** Cutting the triangle `a`, `b`, `c` at X = Lerp(b, c, w) into (a, b, X) and
      (a, X, c): the two normals are w and 1 - w times the triangle's normal. */
  lemma OneCutNormals(a: Vec3, b: Vec3, c: Vec3, w: real)
    ensures var x, n := Lerp(b, c, w), Normal(a, b, c);
      Normal(a, b, x) == Scale(w, n) && Normal(a, x, c) == Scale(1.0 - w, n)
  {
    var e, f := Sub(b, a), Sub(c, a);
    CornersInFrame(a, b, c);
    LerpInFrame(a, e, f, 1.0, 0.0, 0.0, 1.0, w);
    NormalInFrame(a, e, f, 0.0, 0.0, 1.0, 0.0, 1.0 - w, w);
    assert Det(1.0 - 0.0, 0.0 - 0.0, 1.0 - w - 0.0, w - 0.0) == w;
    NormalInFrame(a, e, f, 0.0, 0.0, 1.0 - w, w, 0.0, 1.0);
    assert Det(1.0 - w - 0.0, w - 0.0, 0.0 - 0.0, 1.0 - 0.0) == 1.0 - w;
  }

  datatype Plane = Plane(n: Vec3, d: real)

  /** The plane through `p` with normal `n`: the offset is taken with the same
      normal that the distance function uses, so `p` is at distance 0. */
  function MakePlane(n: Vec3, p: Vec3): (pl: Plane)
    ensures pl.n == n
    ensures SignedDistance(pl, p) == 0.0
  {
    Plane(n, Dot(n, p))
  }

  function SignedDistance(pl: Plane, v: Vec3): real {
    Dot(pl.n, v) - pl.d
  }

  /** The plane through `p` with a scaled normal has the scaled offset. */
  lemma MakePlaneScaled(n: Vec3, k: real, p: Vec3)
    ensures MakePlane(Scale(k, n), p) == Plane(Scale(k, n), k * Dot(n, p))
  {
  }

  /** Scaling a plane's normal and offset by the same factor scales every
      distance by that factor. */
  lemma DistanceScaled(n: Vec3, d: real, k: real, v: Vec3)
    ensures SignedDistance(Plane(Scale(k, n), k * d), v) == k * SignedDistance(Plane(n, d), v)
  {
  }

  /** The signed distance is affine along every line. */
  lemma DistanceAffine(pl: Plane, a: Vec3, b: Vec3, t: real)
    ensures SignedDistance(pl, Lerp(a, b, t))
         == SignedDistance(pl, a) + t * (SignedDistance(pl, b) - SignedDistance(pl, a))
  {
    var n := pl.n;
    calc {
      SignedDistance(pl, Lerp(a, b, t));
      n.x * (a.x + t * (b.x - a.x)) + n.y * (a.y + t * (b.y - a.y)) + n.z * (a.z + t * (b.z - a.z)) - pl.d;
      (Dot(n, a) - pl.d) + t * ((Dot(n, b) - pl.d) - (Dot(n, a) - pl.d));
    }
  }

  /** Two signed distances lie strictly on opposite sides of zero. */
  predicate Opposite(dA: real, dB: real) {
    (dA < 0.0 && 0.0 < dB) || (dB < 0.0 && 0.0 < dA)
  }

  /** The interpolation parameter at which the distance crosses zero. */
  function SplitParam(dA: real, dB: real): real
    requires dB - dA != 0.0
  {
    -dA / (dB - dA)
  }

  /** Linear interpolation from `a` towards `b`, at the zero crossing of the
      distances `dA` (at `a`) and `dB` (at `b`). */
  function CalcSplitPoint(a: Vec3, b: Vec3, dA: real, dB: real): Vec3
    requires dB - dA != 0.0
  {
    Add(a, Scale(SplitParam(dA, dB), Sub(b, a)))
  }

  /** The split point is the point of the line at the parameter `t` solving
      `dA + t (dB - dA) = 0`. */
  lemma SplitPointAt(a: Vec3, b: Vec3, dA: real, dB: real, t: real)
    requires dB - dA != 0.0 && t * (dB - dA) == -dA
    ensures CalcSplitPoint(a, b, dA, dB) == Lerp(a, b, t)
  {
    assert SplitParam(dA, dB) == t;
  }

  /** Scaling both distances by the same non-zero factor keeps the parameter. */
  lemma SplitParamScaled(dA: real, dB: real, k: real)
    requires dB - dA != 0.0 && k != 0.0
    ensures k * dB - k * dA != 0.0
    ensures SplitParam(k * dA, k * dB) == SplitParam(dA, dB)
  {
    var t := SplitParam(dA, dB);
    assert t * (dB - dA) == -dA;
    assert k * dB - k * dA == k * (dB - dA);
    assert t * (k * dB - k * dA) == -(k * dA);
  }

  /** Distances scaled by the same non-zero factor give the same split point. */
  lemma SplitPointScaled(a: Vec3, b: Vec3, dA: real, dB: real, k: real, kA: real, kB: real)
    requires dB - dA != 0.0 && k != 0.0 && kA == k * dA && kB == k * dB
    ensures kB - kA != 0.0
    ensures CalcSplitPoint(a, b, kA, kB) == CalcSplitPoint(a, b, dA, dB)
  {
    SplitParamScaled(dA, dB, k);
  }

  lemma SplitParamBetween(dA: real, dB: real)
    requires Opposite(dA, dB)
    ensures dB - dA != 0.0
    ensures 0.0 < SplitParam(dA, dB) < 1.0
    ensures dA + SplitParam(dA, dB) * (dB - dA) == 0.0
  {
    var t := SplitParam(dA, dB);
    assert t * (dB - dA) == -dA;
    if dA < 0.0 {
      assert 0.0 < -dA < dB - dA;
    } else {
      assert 0.0 < dA < dA - dB;
      assert t == dA / (dA - dB);
    }
  }

  /** When `a` and `b` are strictly on opposite sides of the plane and `dA`, `dB`
      are their signed distances, the split point lies strictly inside the edge
      `a`-`b`, lies on the plane, and is the only point of the line through
      `a` and `b` that does. */
  lemma SplitPointOnPlane(pl: Plane, a: Vec3, b: Vec3, dA: real, dB: real)
    requires dA == SignedDistance(pl, a) && dB == SignedDistance(pl, b)
    requires Opposite(dA, dB)
    ensures dB - dA != 0.0
    ensures OnOpenSegment(CalcSplitPoint(a, b, dA, dB), a, b)
    ensures SignedDistance(pl, CalcSplitPoint(a, b, dA, dB)) == 0.0
    ensures forall s :: SignedDistance(pl, Lerp(a, b, s)) == 0.0 ==> Lerp(a, b, s) == CalcSplitPoint(a, b, dA, dB)
  {
    SplitParamBetween(dA, dB);
    var t := SplitParam(dA, dB);
    assert CalcSplitPoint(a, b, dA, dB) == Lerp(a, b, t);
    DistanceAffine(pl, a, b, t);
    forall s | SignedDistance(pl, Lerp(a, b, s)) == 0.0
      ensures Lerp(a, b, s) == CalcSplitPoint(a, b, dA, dB)
    {
      DistanceAffine(pl, a, b, s);
      assert dA + s * (dB - dA) == dA + t * (dB - dA);
      assert (s - t) * (dB - dA) == 0.0;
      assert s == t;
    }
  }
}
