/** Axis-parallel boxes and the two overlap tests with inclusive pixel coordinates. */
module Boxes {
  import opened Arithmetic
  import opened Pixels

  datatype Box = Box(x0: real, y0: real, x1: real, y1: real)

  predicate WellFormed(b: Box) {
    b.x0 <= b.x1 && b.y0 <= b.y1
  }

  function Max(a: real, b: real): real {
    if a < b then b else a
  }

  function Min(a: real, b: real): real {
    if b < a then b else a
  }

  /** `num / den > t` as the hardware compares it: a positive number over zero is infinite, 0/0 is unordered. */
  predicate QuotientAbove(num: real, den: real, t: real) {
    if den == 0.0 then num > 0.0 else num / den > t
  }

  predicate Touches(a: Box, b: Box) {
    a.x0 <= b.x1 && a.y0 <= b.y1 && b.x0 <= a.x1 && b.y0 <= a.y1
  }

  function InclusiveArea(b: Box): real {
    (b.x1 - b.x0 + 1.0) * (b.y1 - b.y0 + 1.0)
  }

  function Intersect(a: Box, b: Box): Box {
    Box(Max(a.x0, b.x0), Max(a.y0, b.y0), Min(a.x1, b.x1), Min(a.y1, b.y1))
  }

  /** `area()` of the simpler layer: sides clipped at zero. */
  function ClippedArea(b: Box): real {
    Max(0.0, b.y1 - b.y0 + 1.0) * Max(0.0, b.x1 - b.x0 + 1.0)
  }

  /** The test of `nms_cpu`: intersection over union above the threshold, zero when the boxes do not touch. */
  predicate ProposalOverlap(a: Box, b: Box, t: real) {
    if Touches(a, b) then
      var area := ClippedArea(Intersect(a, b));
      QuotientAbove(area, InclusiveArea(a) + InclusiveArea(b) - area, t)
    else
      t < 0.0
  }

  /** The test of `simpler_nms_perform_nms` for a new box against a box already kept. */
  predicate SimplerOverlap(bbox: Box, kept: Box, t: real) {
    var inter := ClippedArea(Intersect(bbox, kept));
    Exceeds(inter, ClippedArea(kept) + ClippedArea(bbox), t)
  }

  /** A common area above a share of the joint area. */
  predicate Exceeds(inter: real, areas: real, t: real) {
    inter > t * (areas - inter)
  }

  lemma IntersectSymmetric(a: Box, b: Box)
    ensures ClippedArea(Intersect(a, b)) == ClippedArea(Intersect(b, a))
  {}

  /** Both tests are symmetric, so it does not matter which box came first. */
  lemma OverlapSymmetric(a: Box, b: Box, t: real)
    ensures ProposalOverlap(a, b, t) == ProposalOverlap(b, a, t)
    ensures SimplerOverlap(a, b, t) == SimplerOverlap(b, a, t)
  {
    IntersectSymmetric(a, b);
  }

  lemma MulMono(a: real, b: real, c: real, d: real)
    requires 0.0 <= a <= c && 0.0 <= b <= d
    ensures 0.0 <= a * b <= c * d
  {
    assert a * b <= c * b;
  }

  lemma AreaOfWellFormed(a: Box)
    requires WellFormed(a)
    ensures InclusiveArea(a) == ClippedArea(a) >= 1.0
  {
    MulMono(1.0, 1.0, a.y1 - a.y0 + 1.0, a.x1 - a.x0 + 1.0);
  }

  lemma IntersectionSmaller(a: Box, b: Box)
    requires WellFormed(a) && WellFormed(b)
    ensures 0.0 <= ClippedArea(Intersect(a, b)) <= ClippedArea(a)
  {
    var i := Intersect(a, b);
    MulMono(Max(0.0, i.y1 - i.y0 + 1.0), Max(0.0, i.x1 - i.x0 + 1.0), a.y1 - a.y0 + 1.0, a.x1 - a.x0 + 1.0);
  }

  /** A well-formed box is at least one pixel, and no smaller than its intersection with anything. */
  lemma AreaBounds(a: Box, b: Box)
    requires WellFormed(a) && WellFormed(b)
    ensures InclusiveArea(a) == ClippedArea(a) >= 1.0
    ensures 0.0 <= ClippedArea(Intersect(a, b)) <= ClippedArea(a)
    ensures ClippedArea(Intersect(a, b)) <= ClippedArea(b)
  {
    AreaOfWellFormed(a);
    IntersectionSmaller(a, b);
    IntersectionSmaller(b, a);
    IntersectSymmetric(a, b);
  }

  lemma QuotientIsProduct(num: real, den: real, t: real)
    requires den > 0.0
    ensures num / den > t <==> num > t * den
  {
    assert (num / den) * den == num;
    if num / den > t {
      assert (num / den - t) * den > 0.0;
    } else {
      assert (t - num / den) * den >= 0.0;
    }
  }

  /** Sides of the intersection, negative by the size of the gap. */
  function CommonWidth(a: Box, b: Box): real {
    Min(a.x1, b.x1) - Max(a.x0, b.x0) + 1.0
  }

  function CommonHeight(a: Box, b: Box): real {
    Min(a.y1, b.y1) - Max(a.y0, b.y0) + 1.0
  }

  function CommonArea(a: Box, b: Box): real {
    CommonWidth(a, b) * CommonHeight(a, b)
  }

  /** A gap below one pixel leaves an intersection of inclusive areas above the threshold. */
  predicate GapCounts(a: Box, b: Box, t: real) {
    && CommonWidth(a, b) > 0.0 && CommonHeight(a, b) > 0.0
    && Exceeds(CommonArea(a, b), InclusiveArea(a) + InclusiveArea(b), t)
  }

  /** The test of the simpler layer, in inclusive areas. */
  lemma SimplerIsGap(a: Box, b: Box, t: real)
    requires WellFormed(a) && WellFormed(b) && t >= 0.0
    ensures SimplerOverlap(b, a, t) <==> GapCounts(a, b, t)
  {
    var inter, clipped := ClippedArea(Intersect(b, a)), ClippedArea(a) + ClippedArea(b);
    AreasAgree(a, b);
    InterIsCommon(a, b);
    GapStep(inter, CommonWidth(a, b) > 0.0 && CommonHeight(a, b) > 0.0, CommonArea(a, b), clipped, t);
    assert SimplerOverlap(b, a, t) == Exceeds(inter, clipped, t);
  }

  lemma GapStep(inter: real, meet: bool, common: real, areas: real, t: real)
    requires inter == (if meet then common else 0.0) && areas >= 0.0 && t >= 0.0
    ensures Exceeds(inter, areas, t) <==> meet && Exceeds(common, areas, t)
  {
    RealSign(t, areas);
  }

  lemma AreasAgree(a: Box, b: Box)
    requires WellFormed(a) && WellFormed(b)
    ensures ClippedArea(a) + ClippedArea(b) == InclusiveArea(a) + InclusiveArea(b) >= 0.0
  {
    AreaOfWellFormed(a);
    AreaOfWellFormed(b);
  }

  lemma InterIsCommon(a: Box, b: Box)
    ensures ClippedArea(Intersect(b, a))
         == if CommonWidth(a, b) > 0.0 && CommonHeight(a, b) > 0.0 then CommonArea(a, b) else 0.0
  {
    var w, h := CommonWidth(a, b), CommonHeight(a, b);
    assert h * w == w * h;
  }

  /** Two well-formed boxes get the same verdict exactly when they touch or their gap does not count. */
  lemma TestsAgree(a: Box, b: Box, t: real)
    requires WellFormed(a) && WellFormed(b) && t >= 0.0
    ensures ProposalOverlap(a, b, t) == SimplerOverlap(b, a, t) <==> Touches(a, b) || !GapCounts(a, b, t)
  {
    SimplerIsGap(a, b, t);
    if Touches(a, b) {
      TouchingAgree(a, b, t);
    }
  }

  lemma TouchingAgree(a: Box, b: Box, t: real)
    requires WellFormed(a) && WellFormed(b) && Touches(a, b)
    ensures ProposalOverlap(a, b, t) == SimplerOverlap(b, a, t)
  {
    AreaBounds(a, b);
    AreaBounds(b, a);
    IntersectSymmetric(a, b);
    var inter := ClippedArea(Intersect(a, b));
    QuotientIsProduct(inter, ClippedArea(a) + ClippedArea(b) - inter, t);
  }

  /** The boxes either touch or are a whole pixel apart in some direction, as integer boxes always are. */
  predicate TouchOrApart(a: Box, b: Box) {
    || Touches(a, b)
    || a.x0 >= b.x1 + 1.0 || b.x0 >= a.x1 + 1.0
    || a.y0 >= b.y1 + 1.0 || b.y0 >= a.y1 + 1.0
  }

  /** For such boxes the two layers always agree. */
  lemma TestsAgreeApart(a: Box, b: Box, t: real)
    requires WellFormed(a) && WellFormed(b) && t >= 0.0 && TouchOrApart(a, b)
    ensures ProposalOverlap(a, b, t) == SimplerOverlap(b, a, t)
  {
    TestsAgree(a, b, t);
  }

  /** At threshold zero the condition is also necessary: a gap below one pixel makes them disagree. */
  lemma TestsDisagreeInGap(a: Box, b: Box)
    requires WellFormed(a) && WellFormed(b)
    ensures ProposalOverlap(a, b, 0.0) == SimplerOverlap(b, a, 0.0) <==> TouchOrApart(a, b)
  {
    if TouchOrApart(a, b) {
      TestsAgreeApart(a, b, 0.0);
    } else {
      TestsAgree(a, b, 0.0);
      assert CommonWidth(a, b) > 0.0 && CommonHeight(a, b) > 0.0;
      assert CommonArea(a, b) > 0.0;
    }
  }

  // ---------------------------------------------------------------- what both tests measure

  /** The pixels of an integer box: both its corners belong to it. */
  function PixelsOf(r: Rect): Rect {
    Rect(r.x0, r.y0, r.x1 + 1, r.y1 + 1)
  }

  function ToBox(r: Rect): Box {
    Box(r.x0 as real, r.y0 as real, r.x1 as real, r.y1 as real)
  }

  /** Common pixels are more than the share `t` of all pixels of two boxes. */
  ghost predicate ShareAbove(r: Rect, s: Rect, t: real) {
    var a, b := PixelsOf(r).Cells(), PixelsOf(s).Cells();
    MoreThan(|a * b| as real, |a + b| as real, t)
  }

  /** A part above a share of the whole. */
  predicate MoreThan(part: real, whole: real, t: real) {
    part > t * whole
  }

  lemma PixelArea(r: Rect)
    requires r.Ordered()
    ensures WellFormed(ToBox(r)) && InclusiveArea(ToBox(r)) == |PixelsOf(r).Cells()| as real
  {
    CellCount(PixelsOf(r));
    RealProduct(r.x1 + 1 - r.x0, r.y1 + 1 - r.y0);
  }

  lemma RealProduct(a: int, b: int)
    ensures (a * b) as real == a as real * b as real
  {}

  lemma CommonSides(r: Rect, s: Rect)
    ensures var m := Meet(PixelsOf(r), PixelsOf(s));
      && CommonWidth(ToBox(s), ToBox(r)) == (m.x1 - m.x0) as real
      && CommonHeight(ToBox(s), ToBox(r)) == (m.y1 - m.y0) as real
  {}

  /** Without a common column or row nothing is common. */
  lemma ClippedSides(a: Box, b: Box, w: int, h: int)
    requires CommonWidth(b, a) == w as real && CommonHeight(b, a) == h as real
    ensures ClippedArea(Intersect(a, b)) == if w > 0 && h > 0 then (w * h) as real else 0.0
  {
    InterIsCommon(b, a);
    RealProduct(w, h);
  }

  lemma CommonPixels(r: Rect, s: Rect)
    requires r.Ordered() && s.Ordered()
    ensures ClippedArea(Intersect(ToBox(r), ToBox(s))) == |PixelsOf(r).Cells() * PixelsOf(s).Cells()| as real
  {
    var m := Meet(PixelsOf(r), PixelsOf(s));
    CommonCount(PixelsOf(r), PixelsOf(s));
    CommonSides(r, s);
    ClippedSides(ToBox(r), ToBox(s), m.x1 - m.x0, m.y1 - m.y0);
  }

  lemma IntApart(p: int, q: int)
    ensures p as real <= q as real || p as real >= q as real + 1.0
  {
    if p > q {
      assert p as real == (p - q) as real + q as real;
    }
  }

  lemma GridApart(r: Rect, s: Rect)
    ensures TouchOrApart(ToBox(r), ToBox(s))
  {
    IntApart(r.x0, s.x1);
    IntApart(s.x0, r.x1);
    IntApart(r.y0, s.y1);
    IntApart(s.y0, r.y1);
  }

  lemma SimplerVerdict(bbox: Box, kept: Box, inter: real, all: real, t: real)
    requires ClippedArea(Intersect(bbox, kept)) == inter && ClippedArea(kept) + ClippedArea(bbox) - inter == all
    ensures SimplerOverlap(bbox, kept, t) <==> MoreThan(inter, all, t)
  {
    ExceedsAll(inter, ClippedArea(kept) + ClippedArea(bbox), all, t);
  }

  lemma ExceedsAll(inter: real, areas: real, all: real, t: real)
    requires areas - inter == all
    ensures Exceeds(inter, areas, t) <==> MoreThan(inter, all, t)
  {}

  lemma AllPixels(r: Rect, s: Rect)
    requires r.Ordered() && s.Ordered()
    ensures ClippedArea(ToBox(r)) + ClippedArea(ToBox(s)) - ClippedArea(Intersect(ToBox(s), ToBox(r)))
         == |PixelsOf(r).Cells() + PixelsOf(s).Cells()| as real
  {
    PixelArea(r);
    PixelArea(s);
    AreaOfWellFormed(ToBox(r));
    AreaOfWellFormed(ToBox(s));
    CommonPixels(r, s);
    CommonCount(PixelsOf(r), PixelsOf(s));
    IntersectSymmetric(ToBox(r), ToBox(s));
  }

  /** On integer boxes both layers compare the common pixels of two boxes with all their pixels. */
  lemma PixelTest(r: Rect, s: Rect, t: real)
    requires r.Ordered() && s.Ordered() && t >= 0.0
    ensures ProposalOverlap(ToBox(r), ToBox(s), t) <==> ShareAbove(r, s, t)
    ensures SimplerOverlap(ToBox(s), ToBox(r), t) <==> ShareAbove(r, s, t)
  {
    PixelArea(r);
    PixelArea(s);
    GridApart(r, s);
    TestsAgreeApart(ToBox(r), ToBox(s), t);
    SimplerPixels(r, s, t);
  }

  lemma SimplerPixels(r: Rect, s: Rect, t: real)
    requires r.Ordered() && s.Ordered()
    ensures SimplerOverlap(ToBox(s), ToBox(r), t) <==> ShareAbove(r, s, t)
  {
    AllPixels(r, s);
    CommonPixels(r, s);
    IntersectSymmetric(ToBox(r), ToBox(s));
    var common, all := PixelsOf(r).Cells() * PixelsOf(s).Cells(), PixelsOf(r).Cells() + PixelsOf(s).Cells();
    SimplerVerdict(ToBox(s), ToBox(r), |common| as real, |all| as real, t);
  }

  /** A box overlaps itself completely: above every threshold below 1, and no other. */
  lemma OverlapsItself(a: Box, t: real)
    requires WellFormed(a)
    ensures ProposalOverlap(a, a, t) <==> t < 1.0
    ensures SimplerOverlap(a, a, t) <==> t < 1.0
  {
    AreaOfWellFormed(a);
    var area := InclusiveArea(a);
    assert Intersect(a, a) == a;
    QuotientIsProduct(area, area, t);
    Share(area, area, t);
  }

  lemma Share(part: real, whole: real, t: real)
    requires part == whole >= 1.0
    ensures part > t * whole <==> t < 1.0
  {
    if t < 1.0 {
      assert (1.0 - t) * whole > 0.0;
    } else {
      RealMonotone(1.0, t, whole);
    }
  }

  /** A box inside another one overlaps it by the ratio of their areas. */
  lemma NestedOverlap(a: Box, b: Box, t: real)
    requires WellFormed(a) && b.x0 <= a.x0 && b.y0 <= a.y0 && a.x1 <= b.x1 && a.y1 <= b.y1
    ensures ProposalOverlap(a, b, t) <==> InclusiveArea(a) > t * InclusiveArea(b)
    ensures SimplerOverlap(a, b, t) <==> InclusiveArea(a) > t * InclusiveArea(b)
  {
    AreaOfWellFormed(a);
    AreaOfWellFormed(b);
    assert Intersect(a, b) == a;
    QuotientIsProduct(InclusiveArea(a), InclusiveArea(b), t);
  }

  /** Boxes of `w` by `h` pixels that are `d` columns apart overlap by `(w - d) / (w + d)`. */
  lemma ShiftedOverlap(a: Box, w: real, h: real, d: real, t: real)
    requires 1.0 <= w && 1.0 <= h && 0.0 <= d <= w - 1.0
    requires a.x1 == a.x0 + w - 1.0 && a.y1 == a.y0 + h - 1.0
    ensures var b := Box(a.x0 + d, a.y0, a.x1 + d, a.y1);
      && (ProposalOverlap(a, b, t) <==> w - d > t * (w + d))
      && (SimplerOverlap(a, b, t) <==> w - d > t * (w + d))
  {
    var b := Box(a.x0 + d, a.y0, a.x1 + d, a.y1);
    assert Intersect(a, b) == Box(a.x0 + d, a.y0, a.x1, a.y1);
    var inter, all := (w - d) * h, (w + d) * h;
    assert ClippedArea(Intersect(a, b)) == inter;
    AreaOfWellFormed(a);
    AreaOfWellFormed(b);
    assert InclusiveArea(a) == InclusiveArea(b) == w * h;
    assert w * h + w * h - inter == all >= 1.0 by { MulMono(1.0, 1.0, w + d, h); }
    QuotientIsProduct(inter, all, t);
    CommonFactor(w - d, w + d, h, t);
  }

  lemma CommonFactor(x: real, y: real, h: real, t: real)
    requires h >= 1.0
    ensures x * h > t * (y * h) <==> x > t * y
  {
    assert x * h - t * (y * h) == (x - t * y) * h;
    if x > t * y {
      assert (x - t * y) * h > 0.0;
    } else {
      RealSign(t * y - x, h);
    }
  }
}
