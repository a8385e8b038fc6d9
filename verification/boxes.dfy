/** Detections produced by the YOLOv8 post-processing and the
    intersection-over-union measure used to compare them.

    Floating-point values of the source are modelled as `real`. */
module Boxes {

  /** Minimum objectness a record must strictly exceed to become a detection. */
  const ConfidenceThreshold: real := 0.25

  /** A candidate is suppressed when its IoU with a kept detection strictly
      exceeds this value. */
  const NmsThreshold: real := 0.45

  /** The label table of the application: 32 names, while the decoder only
      ever scans 31 class scores. */
  const RamenLabels: seq<string> := [
    "jinHot", "jinMild", "wang", "king", "kimchi", "ojingeo", "sesame", "kaguri", "shin", "buldak",
    "buldakCarbo", "buldak4Cheese", "kingSoup", "kingSoup2", "jinMildSoup", "sesameSoup1",
    "sesameSoup2", "sesameSoup3", "buldakSoup", "buldakSoup2", "jinHotSoup", "shinSoup",
    "kimchiSoup", "kimchiSoup2", "carboSoup", "carboSoup2", "kaguriSoup", "ojingeoSoup",
    "cheeseSoup", "cheeseSoup2", "wangSoup", "wangSoup2"
  ]

  /** One detection: box geometry, class index and confidence. The decoder
      stores the box centre in `x` and `y`; IoU reads them as the top-left
      corner. */
  datatype Detection = Detection(x: real, y: real, width: real, height: real, classId: int, confidence: real)

  /** The value of a float division: a finite quotient, or NaN for 0/0.
      (Over the reals a non-zero numerator never meets a zero denominator
      here, see ZeroUnionHasNoIntersection, so no infinity is needed.) */
  datatype Quotient = Finite(value: real) | NaN

  /** Java's `q > t` on a float: false whenever `q` is NaN. */
  predicate Exceeds(q: Quotient, t: real) {
    match q
    case Finite(v) => v > t
    case NaN => false
  }

  function Max(a: real, b: real): real { if a >= b then a else b }
  function Min(a: real, b: real): real { if a <= b then a else b }

  /** Horizontal overlap of the two boxes, clamped at zero. */
  function OverlapX(a: Detection, b: Detection): (r: real)
    ensures r >= 0.0
    ensures r <= a.width || r == 0.0
    ensures r <= b.width || r == 0.0
  {
    Max(0.0, Min(a.x + a.width, b.x + b.width) - Max(a.x, b.x))
  }

  /** Vertical overlap of the two boxes, clamped at zero. */
  function OverlapY(a: Detection, b: Detection): (r: real)
    ensures r >= 0.0
    ensures r <= a.height || r == 0.0
    ensures r <= b.height || r == 0.0
  {
    Max(0.0, Min(a.y + a.height, b.y + b.height) - Max(a.y, b.y))
  }

  function IntersectionArea(a: Detection, b: Detection): (r: real)
    ensures r >= 0.0
  {
    OverlapX(a, b) * OverlapY(a, b)
  }

  function UnionArea(a: Detection, b: Detection): real {
    a.width * a.height + b.width * b.height - IntersectionArea(a, b)
  }

  /** Intersection over union, with `(x, y)` read as the top-left corner. */
  function Iou(a: Detection, b: Detection): Quotient {
    var union := UnionArea(a, b);
    if union == 0.0 then NaN else Finite(IntersectionArea(a, b) / union)
  }

  /** The suppression test of NMS: `iou(candidate, kept) > NMS_THRESHOLD`. */
  predicate Overlaps(candidate: Detection, kept: Detection) {
    Exceeds(Iou(candidate, kept), NmsThreshold)
  }

  lemma MulMonotone(p: real, q: real, bp: real, bq: real)
    requires 0.0 <= p <= bp && 0.0 <= q <= bq
    ensures p * q <= bp * bq
  {
    assert p * q <= bp * q;
    assert bp * q <= bp * bq;
  }

  /** Two boxes whose overlap is positive both have positive width and
      height, and the overlap area is at most either box's area. */
  lemma PositiveOverlapBounded(a: Detection, b: Detection)
    requires IntersectionArea(a, b) > 0.0
    ensures a.width > 0.0 && a.height > 0.0 && b.width > 0.0 && b.height > 0.0
    ensures IntersectionArea(a, b) <= a.width * a.height
    ensures IntersectionArea(a, b) <= b.width * b.height
  {
    var ox, oy := OverlapX(a, b), OverlapY(a, b);
    assert ox > 0.0 && oy > 0.0;
    MulMonotone(ox, oy, a.width, a.height);
    MulMonotone(ox, oy, b.width, b.height);
  }

  /** A zero union area forces a zero intersection: the unguarded division
      in the source can only produce 0/0 (NaN), never an infinity. */
  lemma ZeroUnionHasNoIntersection(a: Detection, b: Detection)
    requires UnionArea(a, b) == 0.0
    ensures IntersectionArea(a, b) == 0.0
    ensures Iou(a, b) == NaN && !Overlaps(a, b)
  {
    if IntersectionArea(a, b) > 0.0 {
      PositiveOverlapBounded(a, b);
      assert false;
    }
  }

  /** IoU does not depend on the order of its arguments. */
  lemma IouSymmetric(a: Detection, b: Detection)
    ensures IntersectionArea(a, b) == IntersectionArea(b, a)
    ensures UnionArea(a, b) == UnionArea(b, a)
    ensures Iou(a, b) == Iou(b, a)
    ensures Overlaps(a, b) <==> Overlaps(b, a)
  {
    assert OverlapX(a, b) == OverlapX(b, a);
    assert OverlapY(a, b) == OverlapY(b, a);
  }

  /** For boxes of positive width and height the union is positive and the
      IoU lies in [0, 1]. */
  lemma IouInUnitRange(a: Detection, b: Detection)
    requires a.width > 0.0 && a.height > 0.0 && b.width > 0.0 && b.height > 0.0
    ensures UnionArea(a, b) > 0.0
    ensures Iou(a, b).Finite? && 0.0 <= Iou(a, b).value <= 1.0
  {
    var i := IntersectionArea(a, b);
    var aa, ab := a.width * a.height, b.width * b.height;
    assert aa > 0.0 && ab > 0.0;
    if i > 0.0 {
      PositiveOverlapBounded(a, b);
    }
    assert i <= aa && i <= ab;
    var u := UnionArea(a, b);
    assert u == aa + ab - i && u >= aa && u > 0.0 && i <= u;
    assert i / u <= 1.0 by {
      assert i / u * u == i;
    }
  }

  /** A box of positive area has IoU exactly 1 with itself, so an exact
      duplicate of a kept detection is always suppressed. */
  lemma DuplicateOverlaps(a: Detection)
    requires a.width > 0.0 && a.height > 0.0
    ensures Iou(a, a) == Finite(1.0)
    ensures Overlaps(a, a)
  {
    assert OverlapX(a, a) == a.width;
    assert OverlapY(a, a) == a.height;
    var area := a.width * a.height;
    assert area > 0.0;
    assert IntersectionArea(a, a) == area && UnionArea(a, a) == area;
    assert area / area == 1.0;
  }

  /** IoU reads only geometry: the class index never influences it. */
  lemma IouIgnoresClass(a: Detection, b: Detection, ca: int, cb: int)
    ensures Iou(a.(classId := ca), b.(classId := cb)) == Iou(a, b)
    ensures Overlaps(a.(classId := ca), b.(classId := cb)) <==> Overlaps(a, b)
  {
    var a', b' := a.(classId := ca), b.(classId := cb);
    assert OverlapX(a', b') == OverlapX(a, b) && OverlapY(a', b') == OverlapY(a, b);
    assert IntersectionArea(a', b') == IntersectionArea(a, b);
    assert UnionArea(a', b') == UnionArea(a, b);
  }

  // -----------------------------------------------------------------------
  // Centre versus corner

  /** The box a decoded detection describes, moved so that `(x, y)` is its
      top-left corner instead of its centre. */
  function CentreToCorner(d: Detection): (c: Detection)
    ensures c.width == d.width && c.height == d.height
    ensures c.x + c.width / 2.0 == d.x && c.y + c.height / 2.0 == d.y
  {
    d.(x := d.x - d.width / 2.0, y := d.y - d.height / 2.0)
  }

  /** Moving both boxes by the same offset leaves their IoU unchanged. */
  lemma IouTranslationInvariant(a: Detection, b: Detection, dx: real, dy: real)
    ensures Iou(a.(x := a.x + dx, y := a.y + dy), b.(x := b.x + dx, y := b.y + dy)) == Iou(a, b)
  {
    var a', b' := a.(x := a.x + dx, y := a.y + dy), b.(x := b.x + dx, y := b.y + dy);
    assert OverlapX(a', b') == OverlapX(a, b);
    assert OverlapY(a', b') == OverlapY(a, b);
    assert IntersectionArea(a', b') == IntersectionArea(a, b);
    assert UnionArea(a', b') == UnionArea(a, b);
  }

  /** Reading centres as corners is harmless for two boxes of the same
      size: both are shifted by the same half-size. */
  lemma CentreMisreadHarmlessForEqualSizes(a: Detection, b: Detection)
    requires a.width == b.width && a.height == b.height
    ensures Iou(CentreToCorner(a), CentreToCorner(b)) == Iou(a, b)
  {
    IouTranslationInvariant(a, b, -a.width / 2.0, -a.height / 2.0);
  }

  /** For boxes of different sizes the misreading changes the suppression
      decision: these two are suppressed as written (IoU 1/2) although the
      boxes they describe have IoU 1/5. */
  lemma CentreMisreadChangesDecision()
    ensures var a, b := Detection(1.0, 0.0, 1.0, 1.0, 0, 0.5), Detection(0.0, 0.0, 2.0, 1.0, 0, 0.5);
      Iou(a, b) == Finite(0.5) && Overlaps(a, b) &&
      Iou(CentreToCorner(a), CentreToCorner(b)) == Finite(0.2) && !Overlaps(CentreToCorner(a), CentreToCorner(b))
  {
    var a, b := Detection(1.0, 0.0, 1.0, 1.0, 0, 0.5), Detection(0.0, 0.0, 2.0, 1.0, 0, 0.5);
    assert OverlapX(a, b) == 1.0 && OverlapY(a, b) == 1.0;
    var a', b' := CentreToCorner(a), CentreToCorner(b);
    assert a' == Detection(0.5, -0.5, 1.0, 1.0, 0, 0.5);
    assert b' == Detection(-1.0, -0.5, 2.0, 1.0, 0, 0.5);
    assert OverlapX(a', b') == 0.5 && OverlapY(a', b') == 1.0;
  }
}
