/** Intersection-over-Union of axis-aligned boxes.

    `PairIou` is the scalar definition of the overlap ratio of two boxes;
    `CalculateIou` follows the vectorised evaluation of one reference box
    against a sequence of candidates (intermediate coordinate arrays, clamped
    intersection, union, and a division guarded against a zero union) and is
    proved to agree with `PairIou` element by element. Coordinates are exact
    reals in place of 64-bit floats. */
module Iou {

  /** A box `[x_min, y_min, x_max, y_max]`. Nothing forces min <= max;
      `WellFormed` names that assumption where a lemma needs it. */
  datatype Box = Box(xMin: real, yMin: real, xMax: real, yMax: real)

  predicate WellFormed(b: Box) {
    b.xMin <= b.xMax && b.yMin <= b.yMax
  }

  /** A well-formed box with positive width and height. */
  predicate NonDegenerate(b: Box) {
    b.xMin < b.xMax && b.yMin < b.yMax
  }

  function Max(a: real, b: real): (m: real)
    ensures a <= m && b <= m && (m == a || m == b)
  {
    if a >= b then a else b
  }

  function Min(a: real, b: real): (m: real)
    ensures m <= a && m <= b && (m == a || m == b)
  {
    if a <= b then a else b
  }

  function Area(b: Box): (a: real) {
    (b.xMax - b.xMin) * (b.yMax - b.yMin)
  }

  /** Width and height of the overlap of two boxes, each clamped at zero. */
  function OverlapWidth(a: Box, b: Box): (w: real)
    ensures w >= 0.0
  {
    Max(Min(a.xMax, b.xMax) - Max(a.xMin, b.xMin), 0.0)
  }

  function OverlapHeight(a: Box, b: Box): (h: real)
    ensures h >= 0.0
  {
    Max(Min(a.yMax, b.yMax) - Max(a.yMin, b.yMin), 0.0)
  }

  /** The clamped intersection area is never negative, whatever the boxes. */
  function IntersectionArea(a: Box, b: Box): (r: real)
    ensures r >= 0.0
  {
    OverlapWidth(a, b) * OverlapHeight(a, b)
  }

  function UnionArea(a: Box, b: Box): (u: real) {
    Area(a) + Area(b) - IntersectionArea(a, b)
  }

  /** Overlap ratio of `a` (the reference) and `b`: intersection divided by
      union, and 0 instead of a division when the union is 0. */
  function PairIou(a: Box, b: Box): (r: real)
    ensures UnionArea(a, b) == 0.0 ==> r == 0.0
    ensures UnionArea(a, b) != 0.0 ==> r * UnionArea(a, b) == IntersectionArea(a, b)
  {
    var u := UnionArea(a, b);
    if u != 0.0 then IntersectionArea(a, b) / u else 0.0
  }

  /** The vectorised evaluation: element-wise max/min of the coordinates,
      clamped intersection, the two areas, the union, and a division that
      leaves 0 wherever the union is 0. The result has one value per
      candidate, in candidate order, and each is the pair-wise ratio. */
  function CalculateIou(reference: Box, candidates: seq<Box>): (ious: seq<real>)
    ensures |ious| == |candidates|
    ensures forall k :: 0 <= k < |candidates| ==> ious[k] == PairIou(reference, candidates[k])
  {
    var n := |candidates|;
    var xLeft := seq(n, k requires 0 <= k < n => Max(reference.xMin, candidates[k].xMin));
    var yTop := seq(n, k requires 0 <= k < n => Max(reference.yMin, candidates[k].yMin));
    var xRight := seq(n, k requires 0 <= k < n => Min(reference.xMax, candidates[k].xMax));
    var yBottom := seq(n, k requires 0 <= k < n => Min(reference.yMax, candidates[k].yMax));
    var intersection := seq(n, k requires 0 <= k < n =>
      Max(xRight[k] - xLeft[k], 0.0) * Max(yBottom[k] - yTop[k], 0.0));
    var referenceArea := Area(reference);
    var candidateArea := seq(n, k requires 0 <= k < n => Area(candidates[k]));
    var union := seq(n, k requires 0 <= k < n => referenceArea + candidateArea[k] - intersection[k]);
    var ious := seq(n, k requires 0 <= k < n => if union[k] != 0.0 then intersection[k] / union[k] else 0.0);
    assert forall k :: 0 <= k < n ==> ious[k] == PairIou(reference, candidates[k]) by {
      forall k | 0 <= k < n {
        ElementAgrees(reference, candidates[k], xLeft[k], yTop[k], xRight[k], yBottom[k],
                      intersection[k], referenceArea, candidateArea[k], union[k]);
      }
    }
    ious
  }

  /** One element of the vectorised evaluation, written with the same
      intermediate quantities, equals the pair-wise ratio. */
  lemma ElementAgrees(reference: Box, candidate: Box, xLeft: real, yTop: real, xRight: real,
                      yBottom: real, intersection: real, referenceArea: real,
                      candidateArea: real, union: real)
    requires xLeft == Max(reference.xMin, candidate.xMin) && yTop == Max(reference.yMin, candidate.yMin)
    requires xRight == Min(reference.xMax, candidate.xMax) && yBottom == Min(reference.yMax, candidate.yMax)
    requires intersection == Max(xRight - xLeft, 0.0) * Max(yBottom - yTop, 0.0)
    requires referenceArea == Area(reference) && candidateArea == Area(candidate)
    requires union == referenceArea + candidateArea - intersection
    ensures (if union != 0.0 then intersection / union else 0.0) == PairIou(reference, candidate)
  {
    assert intersection == IntersectionArea(reference, candidate);
    assert union == UnionArea(reference, candidate);
  }

  /** Two boxes are apart when they are separated along the x axis or along
      the y axis (touching edges count as apart). */
  predicate Apart(a: Box, b: Box) {
    a.xMax <= b.xMin || b.xMax <= a.xMin || a.yMax <= b.yMin || b.yMax <= a.yMin
  }

  /** The intersection rectangle has positive width and positive height. */
  predicate InteriorsOverlap(a: Box, b: Box) {
    Max(a.xMin, b.xMin) < Min(a.xMax, b.xMax) && Max(a.yMin, b.yMin) < Min(a.yMax, b.yMax)
  }

  // ---------------------------------------------------------------------
  // Properties of the overlap ratio
  // ---------------------------------------------------------------------

  /** Boxes that are apart have no intersection and so a ratio of 0. */
  lemma ApartIouZero(a: Box, b: Box)
    requires Apart(a, b)
    ensures IntersectionArea(a, b) == 0.0
    ensures PairIou(a, b) == 0.0
  {
    if a.xMax <= b.xMin || b.xMax <= a.xMin {
      assert OverlapWidth(a, b) == 0.0;
    } else {
      assert OverlapHeight(a, b) == 0.0;
    }
  }

  /** For well-formed boxes the ratio is positive exactly when the
      intersection rectangle has positive width and height. */
  lemma IouPositiveIffOverlap(a: Box, b: Box)
    requires WellFormed(a) && WellFormed(b)
    ensures PairIou(a, b) > 0.0 <==> InteriorsOverlap(a, b)
  {
    if !InteriorsOverlap(a, b) {
      assert OverlapWidth(a, b) == 0.0 || OverlapHeight(a, b) == 0.0;
    } else {
      var w, h := OverlapWidth(a, b), OverlapHeight(a, b);
      assert w > 0.0 && h > 0.0;
      PositiveProduct(w, h);
      IntersectionWithinUnion(a, b);
      var u := UnionArea(a, b);
      assert u > 0.0;
      PositiveQuotient(IntersectionArea(a, b), u);
    }
  }

  /** The overlap of well-formed boxes is no wider and no taller than either box. */
  lemma OverlapWithinSides(a: Box, b: Box)
    requires WellFormed(a) && WellFormed(b)
    ensures OverlapWidth(a, b) <= a.xMax - a.xMin && OverlapWidth(a, b) <= b.xMax - b.xMin
    ensures OverlapHeight(a, b) <= a.yMax - a.yMin && OverlapHeight(a, b) <= b.yMax - b.yMin
  {
  }

  /** For well-formed boxes the intersection is at most either area, and the
      union is at least the intersection. */
  lemma IntersectionWithinUnion(a: Box, b: Box)
    requires WellFormed(a) && WellFormed(b)
    ensures IntersectionArea(a, b) <= Area(a)
    ensures IntersectionArea(a, b) <= Area(b)
    ensures IntersectionArea(a, b) <= UnionArea(a, b)
  {
    OverlapWithinSides(a, b);
    var w, h := OverlapWidth(a, b), OverlapHeight(a, b);
    ProductMonotone(w, h, a.xMax - a.xMin, a.yMax - a.yMin);
    ProductMonotone(w, h, b.xMax - b.xMin, b.yMax - b.yMin);
  }

  /** For well-formed boxes the ratio lies in [0, 1]. */
  lemma IouRange(a: Box, b: Box)
    requires WellFormed(a) && WellFormed(b)
    ensures 0.0 <= PairIou(a, b) <= 1.0
  {
    IntersectionWithinUnion(a, b);
    var u := UnionArea(a, b);
    if u != 0.0 {
      QuotientAtMostOne(IntersectionArea(a, b), u);
    }
  }

  /** A box with positive width and height overlaps itself completely. */
  lemma IouSelf(a: Box)
    requires NonDegenerate(a)
    ensures PairIou(a, a) == 1.0
  {
    assert OverlapWidth(a, a) == a.xMax - a.xMin;
    assert OverlapHeight(a, a) == a.yMax - a.yMin;
    PositiveProduct(a.xMax - a.xMin, a.yMax - a.yMin);
    assert IntersectionArea(a, a) == Area(a);
    assert UnionArea(a, a) == Area(a) > 0.0;
    assert PairIou(a, a) == Area(a) / Area(a);
  }

  /** The ratio does not depend on which box is the reference. */
  lemma IouSymmetric(a: Box, b: Box)
    ensures PairIou(a, b) == PairIou(b, a)
  {
    assert OverlapWidth(a, b) == OverlapWidth(b, a);
    assert OverlapHeight(a, b) == OverlapHeight(b, a);
  }

  /** A well-formed box of zero area has ratio 0 with every well-formed box,
      as reference and as candidate: the guard returns 0 where the union is 0,
      and otherwise the intersection is 0. */
  lemma DegenerateIouZero(a: Box, b: Box)
    requires WellFormed(a) && WellFormed(b)
    requires Area(a) == 0.0
    ensures PairIou(a, b) == 0.0 && PairIou(b, a) == 0.0
  {
    IntersectionWithinUnion(a, b);
    assert IntersectionArea(a, b) == 0.0;
    IouSymmetric(a, b);
  }

  // ---------------------------------------------------------------------
  // Arithmetic helpers on reals
  // ---------------------------------------------------------------------

  lemma ProductMonotone(w: real, h: real, W: real, H: real)
    requires 0.0 <= w <= W && 0.0 <= h <= H
    ensures w * h <= W * H
  {
    assert w * h <= W * h;
    assert W * h <= W * H;
  }

  lemma PositiveProduct(w: real, h: real)
    requires w > 0.0 && h > 0.0
    ensures w * h > 0.0
  {
  }

  lemma PositiveQuotient(i: real, u: real)
    requires i > 0.0 && u > 0.0
    ensures i / u > 0.0
  {
  }

  lemma QuotientAtMostOne(i: real, u: real)
    requires 0.0 <= i <= u && u != 0.0
    ensures 0.0 <= i / u <= 1.0
  {
    assert u > 0.0;
    var q := i / u;
    assert q * u == i;
  }
}
