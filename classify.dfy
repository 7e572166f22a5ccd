/** Classification of a signed distance into -1 (below the plane), 0 (on it,
    within the tolerance) or +1 (above it). */
module Classify {

  /** The three classification labels, as the integers the source uses. */
  type Cls = c: int | -1 <= c <= 1

  /** The tolerance the clipper uses: the default of the classifier. */
  const DefaultEps: real := 0.0

  /** The positive test comes first, so with a negative tolerance a value above
      `eps` is +1 even though it is also below `-eps`. */
  function ClassifyDV(x: real, eps: real): (c: Cls)
    ensures c == 1 <==> x > eps
    ensures c == -1 <==> x <= eps && x < -eps
    ensures c == 0 <==> -eps <= x <= eps
  {
    if x > eps then 1
    else if x < -eps then -1
    else 0
  }

  /** For a tolerance that is not negative the labels are symmetric, and 0 means
      "within `eps` of the plane". */
  lemma ClassifyTolerance(x: real, eps: real)
    requires eps >= 0.0
    ensures ClassifyDV(x, eps) == 0 <==> (if x < 0.0 then -x else x) <= eps
    ensures ClassifyDV(-x, eps) == -ClassifyDV(x, eps)
  {
  }

  /** Moving a point further up never lowers its label. */
  lemma ClassifyMonotone(x: real, y: real, eps: real)
    requires x <= y
    ensures ClassifyDV(x, eps) <= ClassifyDV(y, eps)
  {
  }

  /** With the default tolerance the label is the sign of the distance; in
      particular a distance of exactly 0 is on the plane. */
  lemma ClassifyExact(x: real)
    ensures ClassifyDV(x, DefaultEps) == (if x > 0.0 then 1 else if x < 0.0 then -1 else 0)
    ensures ClassifyDV(0.0, DefaultEps) == 0
  {
  }

  /** With the default tolerance, scaling a distance by a positive factor (as
      normalising the plane's normal does) keeps its label. */
  lemma ClassifyScaled(x: real, k: real)
    requires k > 0.0
    ensures ClassifyDV(k * x, DefaultEps) == ClassifyDV(x, DefaultEps)
  {
    if x > 0.0 {
      assert k * x > 0.0;
    } else if x < 0.0 {
      assert k * x < 0.0;
    } else {
      assert k * x == 0.0;
    }
  }
}
