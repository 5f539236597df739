/** The detection-output layer: per-class suppression in place, then the global keep-top-k cut. */
module DetectionOutput {
  import opened GreedyNms
  import opened Boxes
  import opened Sorting
  import opened Pixels
  import opened Arithmetic

  // ---------------------------------------------------------------- overlap

  function IntersectWidth(a: Box, b: Box): real {
    Min(a.x1, b.x1) - Max(a.x0, b.x0)
  }

  function IntersectHeight(a: Box, b: Box): real {
    Min(a.y1, b.y1) - Max(a.y0, b.y0)
  }

  /** The early exits of `JaccardOverlap`: nothing in common, or only an edge. */
  predicate Disjoint(a: Box, b: Box) {
    || b.x0 > a.x1 || b.x1 < a.x0 || b.y0 > a.y1 || b.y1 < a.y0
    || IntersectWidth(a, b) <= 0.0 || IntersectHeight(a, b) <= 0.0
  }

  function Inter(a: Box, b: Box): real {
    IntersectWidth(a, b) * IntersectHeight(a, b)
  }

  /** `JaccardOverlap(...) > t`, given the stored box sizes. */
  predicate JaccardAbove(a: Box, sizeA: real, b: Box, sizeB: real, t: real) {
    if Disjoint(a, b) then 0.0 > t else QuotientAbove(Inter(a, b), sizeA + sizeB - Inter(a, b), t)
  }

  /** The stored size is the box's area, and positive. */
  predicate Matching(b: Box, size: real) {
    b.x0 < b.x1 && b.y0 < b.y1 && size == (b.x1 - b.x0) * (b.y1 - b.y0)
  }

  function Jaccard(a: Box, sizeA: real, b: Box, sizeB: real): real
    requires Matching(a, sizeA) && Matching(b, sizeB)
  {
    if Disjoint(a, b) then 0.0
    else
      InterBounds(a, sizeA, b, sizeB);
      Inter(a, b) / (sizeA + sizeB - Inter(a, b))
  }

  lemma InterBounds(a: Box, sizeA: real, b: Box, sizeB: real)
    requires Matching(a, sizeA) && Matching(b, sizeB) && !Disjoint(a, b)
    ensures 0.0 < Inter(a, b) <= sizeA && Inter(a, b) <= sizeB
  {
    var w, h := IntersectWidth(a, b), IntersectHeight(a, b);
    assert w * h > 0.0;
    MulMono(w, h, a.x1 - a.x0, a.y1 - a.y0);
    MulMono(w, h, b.x1 - b.x0, b.y1 - b.y0);
  }

  lemma FractionInUnit(num: real, den: real)
    requires 0.0 < num <= den
    ensures 0.0 < num / den <= 1.0
  {
    QuotientIsProduct(num, den, 0.0);
    QuotientIsProduct(num, den, 1.0);
  }

  lemma InterSymmetric(a: Box, b: Box)
    ensures Disjoint(a, b) == Disjoint(b, a)
    ensures Inter(a, b) == Inter(b, a)
  {
    assert IntersectWidth(a, b) == IntersectWidth(b, a) && IntersectHeight(a, b) == IntersectHeight(b, a);
  }

  /** The overlap is a proper measure: symmetric and between 0 and 1. */
  lemma JaccardMeasure(a: Box, sizeA: real, b: Box, sizeB: real)
    requires Matching(a, sizeA) && Matching(b, sizeB)
    ensures 0.0 <= Jaccard(a, sizeA, b, sizeB) <= 1.0
    ensures Jaccard(a, sizeA, b, sizeB) == Jaccard(b, sizeB, a, sizeA)
  {
    InterSymmetric(a, b);
    if !Disjoint(a, b) {
      var inter := Inter(a, b);
      InterBounds(a, sizeA, b, sizeB);
      FractionInUnit(inter, sizeA + sizeB - inter);
      SameQuotient(inter, sizeA, sizeB);
    }
  }

  lemma SameQuotient(inter: real, a: real, b: real)
    requires 0.0 < inter <= a && inter <= b
    ensures inter / (a + b - inter) == inter / (b + a - inter)
  {
    assert a + b - inter == b + a - inter;
  }

  /** The layer's threshold test compares this measure. */
  lemma JaccardTest(a: Box, sizeA: real, b: Box, sizeB: real, t: real)
    requires Matching(a, sizeA) && Matching(b, sizeB)
    ensures JaccardAbove(a, sizeA, b, sizeB, t) <==> Jaccard(a, sizeA, b, sizeB) > t
  {
    if !Disjoint(a, b) {
      InterBounds(a, sizeA, b, sizeB);
    }
  }

  // ---------------------------------------------------------------- what the measure is

  predicate Contains(b: Box, x: real, y: real) {
    b.x0 <= x <= b.x1 && b.y0 <= y <= b.y1
  }

  /** The intersection holds exactly the points of both boxes, and `Inter` is its area. */
  lemma InterIsCommonPart(a: Box, b: Box, x: real, y: real)
    ensures Contains(Intersect(a, b), x, y) <==> Contains(a, x, y) && Contains(b, x, y)
    ensures var i := Intersect(a, b); Inter(a, b) == (i.x1 - i.x0) * (i.y1 - i.y0)
  {}

  lemma QuotientIs(num: real, den: real, q: real)
    requires den > 0.0
    ensures num / den == q <==> num == q * den
  {
    assert (num / den) * den == num;
    if num == q * den {
      assert (num / den - q) * den == 0.0;
    }
  }

  /** A box inside another one overlaps it by the ratio of their sizes. */
  lemma JaccardNested(a: Box, sizeA: real, b: Box, sizeB: real)
    requires Matching(a, sizeA) && Matching(b, sizeB)
    requires b.x0 <= a.x0 && b.y0 <= a.y0 && a.x1 <= b.x1 && a.y1 <= b.y1
    ensures Jaccard(a, sizeA, b, sizeB) == sizeA / sizeB
  {
    assert Inter(a, b) == sizeA;
    assert sizeA + sizeB - Inter(a, b) == sizeB;
  }

  /** Only equal boxes overlap completely. */
  lemma JaccardOne(a: Box, sizeA: real, b: Box, sizeB: real)
    requires Matching(a, sizeA) && Matching(b, sizeB)
    ensures Jaccard(a, sizeA, b, sizeB) == 1.0 <==> a == b
  {
    if a == b {
      JaccardNested(a, sizeA, b, sizeB);
      QuotientIs(sizeA, sizeB, 1.0);
    } else if !Disjoint(a, b) {
      var inter := Inter(a, b);
      InterBounds(a, sizeA, b, sizeB);
      QuotientIs(inter, sizeA + sizeB - inter, 1.0);
      if inter == sizeA && inter == sizeB {
        FullSides(IntersectWidth(a, b), IntersectHeight(a, b), a.x1 - a.x0, a.y1 - a.y0);
        FullSides(IntersectWidth(a, b), IntersectHeight(a, b), b.x1 - b.x0, b.y1 - b.y0);
        assert false;
      }
    }
  }

  lemma FullSides(w: real, h: real, width: real, height: real)
    requires 0.0 < w <= width && 0.0 < h <= height && w * h == width * height
    ensures w == width && h == height
  {
    if w < width || h < height {
      SmallerProduct(w, h, width, height);
    }
  }

  lemma SmallerProduct(w: real, h: real, width: real, height: real)
    requires 0.0 < w <= width && 0.0 < h <= height && (w < width || h < height)
    ensures w * h < width * height
  {
    var x, y := width - w, height - h;
    assert width * height == w * h + x * h + width * y;
    RealSign(x, h);
    RealSign(width, y);
    if x > 0.0 {
      assert x * h > 0.0;
    } else {
      assert width * y > 0.0;
    }
  }

  /** Two boxes of `w` by `h`, `d` apart along one axis, overlap by `(w - d) / (w + d)`. */
  lemma JaccardShifted(a: Box, w: real, h: real, d: real)
    requires w > 0.0 && h > 0.0 && 0.0 <= d < w && a.x1 == a.x0 + w && a.y1 == a.y0 + h
    ensures Matching(a, w * h) && Matching(Box(a.x0 + d, a.y0, a.x1 + d, a.y1), w * h)
    ensures Jaccard(a, w * h, Box(a.x0 + d, a.y0, a.x1 + d, a.y1), w * h) == (w - d) / (w + d)
  {
    var b := Box(a.x0 + d, a.y0, a.x1 + d, a.y1);
    assert IntersectWidth(a, b) == w - d && IntersectHeight(a, b) == h;
    var inter, all := (w - d) * h, (w + d) * h;
    InterBounds(a, w * h, b, w * h);
    assert w * h + w * h - inter == all;
    Cancel(w - d, w + d, h);
  }

  lemma Cancel(x: real, y: real, h: real)
    requires y > 0.0 && h > 0.0
    ensures y * h > 0.0 && (x * h) / (y * h) == x / y
  {
    var q := x / y;
    QuotientIs(x, y, q);
    assert x * h == q * (y * h);
    QuotientIs(x * h, y * h, q);
  }

  /** The same with the axes exchanged. */
  lemma JaccardShiftedDown(a: Box, w: real, h: real, d: real)
    requires w > 0.0 && h > 0.0 && 0.0 <= d < h && a.x1 == a.x0 + w && a.y1 == a.y0 + h
    ensures Matching(a, w * h) && Matching(Box(a.x0, a.y0 + d, a.x1, a.y1 + d), w * h)
    ensures Jaccard(a, w * h, Box(a.x0, a.y0 + d, a.x1, a.y1 + d), w * h) == (h - d) / (h + d)
  {
    var b := Box(a.x0, a.y0 + d, a.x1, a.y1 + d);
    assert IntersectWidth(a, b) == w && IntersectHeight(a, b) == h - d;
    var inter, all := w * (h - d), w * (h + d);
    InterBounds(a, w * h, b, w * h);
    assert w * h + w * h - inter == all;
    assert inter == (h - d) * w && all == (h + d) * w;
    Cancel(h - d, h + d, w);
  }

  /** On boxes between grid lines it is the common cells over all cells. */
  lemma JaccardCells(r: Rect, s: Rect)
    requires r.x0 < r.x1 && r.y0 < r.y1 && s.x0 < s.x1 && s.y0 < s.y1
    ensures var a, b := r.Cells(), s.Cells();
      && |a + b| > 0 && Matching(ToBox(r), |a| as real) && Matching(ToBox(s), |b| as real)
      && Jaccard(ToBox(r), |a| as real, ToBox(s), |b| as real) == |a * b| as real / |a + b| as real
  {
    var a, b := r.Cells(), s.Cells();
    CellArea(r);
    CellArea(s);
    CommonCount(r, s);
    assert (r.x0, r.y0) in a + b;
    InterCells(r, s);
    JaccardOf(ToBox(r), |a| as real, ToBox(s), |b| as real, |a * b| as real, |a + b| as real);
  }

  lemma JaccardOf(a: Box, sizeA: real, b: Box, sizeB: real, common: real, all: real)
    requires Matching(a, sizeA) && Matching(b, sizeB) && all == sizeA + sizeB - common && all > 0.0
    requires common == if Disjoint(a, b) then 0.0 else Inter(a, b)
    ensures Jaccard(a, sizeA, b, sizeB) == common / all
  {}

  lemma CellArea(r: Rect)
    requires r.x0 < r.x1 && r.y0 < r.y1
    ensures Matching(ToBox(r), |r.Cells()| as real)
  {
    CellCount(r);
    RealProduct(r.x1 - r.x0, r.y1 - r.y0);
  }

  lemma CellSides(r: Rect, s: Rect)
    ensures var m := Meet(r, s);
      && IntersectWidth(ToBox(r), ToBox(s)) == (m.x1 - m.x0) as real
      && IntersectHeight(ToBox(r), ToBox(s)) == (m.y1 - m.y0) as real
  {}

  lemma CommonCells(r: Rect, s: Rect)
    requires r.Ordered() && s.Ordered()
    ensures var w, h := Meet(r, s).x1 - Meet(r, s).x0, Meet(r, s).y1 - Meet(r, s).y0;
      |r.Cells() * s.Cells()| == if w > 0 && h > 0 then w * h else 0
  {
    CommonCount(r, s);
  }

  lemma InterOf(a: Box, b: Box, w: int, h: int)
    requires IntersectWidth(a, b) == w as real && IntersectHeight(a, b) == h as real
    requires a.x0 < a.x1 && a.y0 < a.y1 && b.x0 < b.x1 && b.y0 < b.y1
    ensures (if Disjoint(a, b) then 0.0 else Inter(a, b)) == if w > 0 && h > 0 then (w * h) as real else 0.0
  {
    DisjointSides(a, b);
    RealProduct(w, h);
  }

  lemma InterCells(r: Rect, s: Rect)
    requires r.x0 < r.x1 && r.y0 < r.y1 && s.x0 < s.x1 && s.y0 < s.y1
    ensures |r.Cells() * s.Cells()| as real
         == if Disjoint(ToBox(r), ToBox(s)) then 0.0 else Inter(ToBox(r), ToBox(s))
  {
    var m := Meet(r, s);
    CellSides(r, s);
    CommonCells(r, s);
    InterOf(ToBox(r), ToBox(s), m.x1 - m.x0, m.y1 - m.y0);
  }

  /** The first four exits are covered by the last two. */
  lemma DisjointSides(a: Box, b: Box)
    requires a.x0 < a.x1 && a.y0 < a.y1 && b.x0 < b.x1 && b.y0 < b.y1
    ensures Disjoint(a, b) <==> IntersectWidth(a, b) <= 0.0 || IntersectHeight(a, b) <= 0.0
  {}

  /** Priors `i` and `j` of the decoded boxes, `j` being `d` to the right of `i`. */
  lemma PriorsShifted(bboxes: seq<real>, sizes: seq<real>, i: nat, j: nat, w: real, h: real, d: real, t: real)
    requires 4 * i + 4 <= |bboxes| && 4 * j + 4 <= |bboxes| && i < |sizes| && j < |sizes|
    requires w > 0.0 && h > 0.0 && 0.0 <= d < w && sizes[i] == sizes[j] == w * h
    requires bboxes[4 * i + 2] == bboxes[4 * i] + w && bboxes[4 * i + 3] == bboxes[4 * i + 1] + h
    requires bboxes[4 * j] == bboxes[4 * i] + d && bboxes[4 * j + 2] == bboxes[4 * i + 2] + d
    requires bboxes[4 * j + 1] == bboxes[4 * i + 1] && bboxes[4 * j + 3] == bboxes[4 * i + 3]
    ensures IndexAbove(bboxes, sizes, i, j, t) <==> (w - d) / (w + d) > t
  {
    var a, b := BoxOf(bboxes, i), BoxOf(bboxes, j);
    JaccardShifted(a, w, h, d);
    assert b == Box(a.x0 + d, a.y0, a.x1 + d, a.y1);
    JaccardTest(a, w * h, b, w * h, t);
  }

  // ---------------------------------------------------------------- per-class suppression

  function BoxOf(bboxes: seq<real>, i: nat): Box
    requires 4 * i + 4 <= |bboxes|
  {
    Box(bboxes[4 * i], bboxes[4 * i + 1], bboxes[4 * i + 2], bboxes[4 * i + 3])
  }

  /** `ConfidenceComparator`: higher confidence first, ties by index. */
  function Before(conf: seq<real>): (nat, nat) -> bool {
    (i: nat, j: nat) => i < |conf| && j < |conf| && (conf[i] > conf[j] || (conf[i] == conf[j] && i < j))
  }

  /** The priors above the confidence threshold, in index order. */
  function Candidates(conf: seq<real>, n: nat, threshold: real): (r: seq<nat>)
    requires n <= |conf|
    ensures |r| <= n
    ensures Increasing(r, n)
    ensures forall i: nat :: i in r <==> i < n && conf[i] > threshold
  {
    if n == 0 then [] else
      var r := Candidates(conf, n - 1, threshold);
      if conf[n - 1] > threshold then r + [n - 1] else r
  }

  /** What `partial_sort_copy` leaves in the buffer. */
  function Ranked(conf: seq<real>, n: nat, threshold: real, topK: int): seq<nat>
    requires n <= |conf| && topK >= -1
  {
    Top(Sort(Before(conf), Candidates(conf, n, threshold)), topK)
  }

  function Top(all: seq<nat>, topK: int): seq<nat>
    requires topK >= -1
  {
    if topK == -1 || topK >= |all| then all else all[..topK]
  }

  lemma AllRanked(conf: seq<real>, n: nat, threshold: real)
    requires n <= |conf|
    ensures var all := Sort(Before(conf), Candidates(conf, n, threshold));
      && Ordered(Before(conf), all)
      && (forall i: nat :: i in all <==> i < n && conf[i] > threshold)
  {
    var cands := Candidates(conf, n, threshold);
    CandidatesSortable(conf, cands, n);
    SortOrdered(Before(conf), cands);
    SortPermutes(Before(conf), cands);
    SameMembers(Sort(Before(conf), cands), cands);
  }

  lemma RankedFacts(conf: seq<real>, n: nat, threshold: real, topK: int)
    requires n <= |conf| && topK >= -1
    ensures var r := Ranked(conf, n, threshold, topK);
      && (topK >= 0 ==> |r| <= topK)
      && Ordered(Before(conf), r)
      && (forall k :: 0 <= k < |r| ==> r[k] < n && conf[r[k]] > threshold)
  {
    AllRanked(conf, n, threshold);
    TopFacts(conf, Sort(Before(conf), Candidates(conf, n, threshold)), n, threshold, topK);
  }

  lemma TopFacts(conf: seq<real>, all: seq<nat>, n: nat, threshold: real, topK: int)
    requires n <= |conf| && topK >= -1 && Ordered(Before(conf), all)
    requires forall i: nat :: i in all ==> i < n && conf[i] > threshold
    ensures topK >= 0 ==> |Top(all, topK)| <= topK
    ensures Ordered(Before(conf), Top(all, topK))
    ensures forall k :: 0 <= k < |Top(all, topK)| ==> Top(all, topK)[k] < n && conf[Top(all, topK)[k]] > threshold
  {
    forall k | 0 <= k < |Top(all, topK)|
      ensures Top(all, topK)[k] < n && conf[Top(all, topK)[k]] > threshold
    {
      assert Top(all, topK)[k] == all[k] && all[k] in all;
    }
  }

  lemma CandidatesSortable(conf: seq<real>, cands: seq<nat>, n: nat)
    requires n <= |conf| && Increasing(cands, n)
    ensures StrictTotal(Before(conf), cands) && Distinct(cands)
  {}

  /** Nothing the cut left out ranks before anything it kept. */
  lemma RankedIsTop(conf: seq<real>, n: nat, threshold: real, topK: int, i: nat, k: nat)
    requires n <= |conf| && topK >= -1 && k < |Ranked(conf, n, threshold, topK)|
    requires i < n && conf[i] > threshold && i !in Ranked(conf, n, threshold, topK)
    ensures Before(conf)(Ranked(conf, n, threshold, topK)[k], i)
  {
    AllRanked(conf, n, threshold);
    var all, r := Sort(Before(conf), Candidates(conf, n, threshold)), Ranked(conf, n, threshold, topK);
    var m :| 0 <= m < |all| && all[m] == i;
    assert forall x :: 0 <= x < |r| ==> r[x] == all[x] && r[x] != i;
    assert Before(conf)(all[k], all[m]);
  }

  /** The ranked priors descend in confidence, equal ones ascend in index, and one is left out only for a full list. */
  lemma RankedMeaning(conf: seq<real>, n: nat, threshold: real, topK: int)
    requires n <= |conf| && topK >= -1
    ensures var r := Ranked(conf, n, threshold, topK);
      && (forall a, b :: 0 <= a < b < |r| ==> InRank(conf, r[a], r[b]))
      && (forall i: nat :: i < n && conf[i] > threshold && i !in r ==> |r| == topK)
  {
    var all, r := Sort(Before(conf), Candidates(conf, n, threshold)), Ranked(conf, n, threshold, topK);
    AllRanked(conf, n, threshold);
    RankedFacts(conf, n, threshold, topK);
    forall a, b | 0 <= a < b < |r|
      ensures InRank(conf, r[a], r[b])
    {
      assert Before(conf)(r[a], r[b]);
    }
    forall i: nat | i < n && conf[i] > threshold && i !in r
      ensures |r| == topK
    {
      assert i in all;
    }
  }

  predicate InRank(conf: seq<real>, i: nat, j: nat) {
    i < |conf| && j < |conf| && (conf[i] > conf[j] || (conf[i] == conf[j] && i < j))
  }

  /** The suppression relation on positions of the ranked list. */
  function Relation(ranked: seq<nat>, bboxes: seq<real>, sizes: seq<real>, t: real): (nat, nat) -> bool {
    (p: nat, q: nat) => p < |ranked| && q < |ranked| && IndexAbove(bboxes, sizes, ranked[q], ranked[p], t)
  }

  predicate IndexAbove(bboxes: seq<real>, sizes: seq<real>, i: nat, j: nat, t: real) {
    && 4 * i + 4 <= |bboxes| && 4 * j + 4 <= |bboxes| && i < |sizes| && j < |sizes|
    && JaccardAbove(BoxOf(bboxes, i), sizes[i], BoxOf(bboxes, j), sizes[j], t)
  }

  function Pick(ranked: seq<nat>, kept: seq<nat>): (r: seq<nat>)
    requires forall k :: 0 <= k < |kept| ==> kept[k] < |ranked|
    ensures |r| == |kept| && forall k :: 0 <= k < |kept| ==> r[k] == ranked[kept[k]]
  {
    seq(|kept|, k requires 0 <= k < |kept| && kept[k] < |ranked| => ranked[kept[k]])
  }

  /** The suppression result for one class. */
  function Survivors(conf: seq<real>, bboxes: seq<real>, sizes: seq<real>, n: nat, confT: real, topK: int,
                     nmsT: real): seq<nat>
    requires n <= |conf| && topK >= -1
  {
    var ranked := Ranked(conf, n, confT, topK);
    Pick(ranked, Greedy(|ranked|, Relation(ranked, bboxes, sizes, nmsT)))
  }

  lemma CandidatesNext(conf: seq<real>, i: nat, threshold: real)
    requires i < |conf|
    ensures Candidates(conf, i + 1, threshold)
         == Candidates(conf, i, threshold) + if conf[i] > threshold then [i] else []
  {}

  method Collect(conf: seq<real>, indices: array<int>, n: nat, confT: real) returns (count: nat)
    requires n <= |conf| && n <= indices.Length
    modifies indices
    ensures count == |Candidates(conf, n, confT)|
    ensures indices[..count] == Candidates(conf, n, confT)
  {
    count := 0;
    for i := 0 to n
      invariant count == |Candidates(conf, i, confT)| <= i
      invariant indices[..count] == Candidates(conf, i, confT)
    {
      CandidatesNext(conf, i, confT);
      if conf[i] > confT {
        ghost var was := indices[..count];
        indices[count] := i;
        count := count + 1;
        assert indices[..count] == was + [i];
      }
    }
  }

  /** The library's `partial_sort_copy`, by its result. */
  method PartialSortCopy(conf: seq<real>, indices: array<int>, count: nat, buffer: array<int>, num: nat,
                         ghost cands: seq<nat>)
    requires count <= indices.Length && num <= count && num <= buffer.Length && buffer != indices
    requires indices[..count] == cands
    modifies buffer
    ensures buffer[..num] == Sort(Before(conf), cands)[..num]
  {
    var source: seq<nat> := [];
    for k := 0 to count
      invariant source == cands[..k]
    {
      assert indices[..count][k] == indices[k];
      source := source + [indices[k]];
    }
    assert source == cands;
    var sorted := Sort(Before(conf), source);
    for k := 0 to num
      invariant forall m :: 0 <= m < k ==> buffer[m] == sorted[m]
    {
      buffer[k] := sorted[k];
    }
    assert buffer[..num] == sorted[..num];
  }

  method Keeps(bboxes: seq<real>, sizes: seq<real>, indices: array<int>, detections: nat, idx: nat, t: real,
               ghost ranked: seq<nat>, ghost kept: seq<nat>, ghost q: nat)
    returns (keep: bool)
    requires q < |ranked| && idx == ranked[q] && detections == |kept| <= indices.Length
    requires forall k :: 0 <= k < |kept| ==> kept[k] < |ranked| && indices[k] == ranked[kept[k]]
    ensures keep == !Suppressed(kept, q, Relation(ranked, bboxes, sizes, t))
  {
    keep := true;
    var k := 0;
    while k < detections
      invariant k <= detections
      invariant forall m :: 0 <= m < k ==> !Relation(ranked, bboxes, sizes, t)(kept[m], q)
    {
      if IndexAbove(bboxes, sizes, idx, indices[k], t) {
        assert Relation(ranked, bboxes, sizes, t)(kept[k], q);
        return false;
      }
      k := k + 1;
    }
  }

  /**
   `nms`: the survivors overwrite the front of the very array the ranking was copied from.  The
   caller has zeroed the detection count.
   */
  method Nms(conf: seq<real>, bboxes: seq<real>, sizes: seq<real>, buffer: array<int>, indices: array<int>,
             n: nat, confT: real, topK: int, nmsT: real)
    returns (detections: nat)
    requires n <= |conf| && topK >= -1 && buffer != indices
    requires n <= buffer.Length && n <= indices.Length
    modifies buffer, indices
    ensures detections <= n
    ensures indices[..detections] == Survivors(conf, bboxes, sizes, n, confT, topK, nmsT)
  {
    var count := Collect(conf, indices, n, confT);
    var num := if topK == -1 then count else if topK < count then topK else count;
    ghost var ranked := Ranked(conf, n, confT, topK);
    PartialSortCopy(conf, indices, count, buffer, num, Candidates(conf, n, confT));
    assert buffer[..num] == ranked;
    detections := KeepLoop(bboxes, sizes, buffer, indices, num, nmsT, ranked);
    assert indices[..detections] == Survivors(conf, bboxes, sizes, n, confT, topK, nmsT);
  }

  /** The suppression loop over the ranked buffer. */
  method KeepLoop(bboxes: seq<real>, sizes: seq<real>, buffer: array<int>, indices: array<int>, num: nat, nmsT: real,
                  ghost ranked: seq<nat>)
    returns (detections: nat)
    requires buffer != indices && num <= buffer.Length && num <= indices.Length && |ranked| == num
    requires forall k :: 0 <= k < num ==> buffer[k] == ranked[k]
    modifies indices
    ensures detections == |Greedy(num, Relation(ranked, bboxes, sizes, nmsT))|
    ensures forall k :: 0 <= k < detections ==>
      indices[k] == ranked[Greedy(num, Relation(ranked, bboxes, sizes, nmsT))[k]]
  {
    ghost var rel := Relation(ranked, bboxes, sizes, nmsT);
    detections := 0;
    ghost var kept: seq<nat> := [];
    for i := 0 to num
      invariant kept == Greedy(i, rel) && detections == |kept|
      invariant forall k :: 0 <= k < detections ==> indices[k] == ranked[kept[k]]
    {
      var keep := Keeps(bboxes, sizes, indices, detections, buffer[i], nmsT, ranked, kept, i);
      if keep {
        indices[detections] := buffer[i];
        detections := detections + 1;
        kept := kept + [i];
      }
    }
  }

  /**
   What makes `s` the survivors of the ranked list `r`: ordered like it, pairwise within the threshold, taken from it,
   and every rejected entry overlaps an earlier survivor above the threshold.
   */
  ghost predicate AreSurvivors(conf: seq<real>, bboxes: seq<real>, sizes: seq<real>, nmsT: real, r: seq<nat>,
                               s: seq<nat>) {
    && Ordered(Before(conf), s)
    && (forall a, b :: 0 <= a < b < |s| ==> !IndexAbove(bboxes, sizes, s[b], s[a], nmsT))
    && (forall k :: 0 <= k < |s| ==> s[k] in r)
    && (forall k :: 0 <= k < |r| && r[k] !in s ==> Outranked(conf, bboxes, sizes, nmsT, s, r[k]))
  }

  ghost predicate Outranked(conf: seq<real>, bboxes: seq<real>, sizes: seq<real>, nmsT: real, s: seq<nat>, x: nat) {
    exists m :: 0 <= m < |s| && Before(conf)(s[m], x) && IndexAbove(bboxes, sizes, x, s[m], nmsT)
  }

  /** What the survivors are, in the layer's own terms. */
  lemma SurvivorsMeaning(conf: seq<real>, bboxes: seq<real>, sizes: seq<real>, n: nat, confT: real, topK: int,
                         nmsT: real)
    requires n <= |conf| && topK >= -1
    ensures AreSurvivors(conf, bboxes, sizes, nmsT, Ranked(conf, n, confT, topK),
                         Survivors(conf, bboxes, sizes, n, confT, topK, nmsT))
  {
    RankedFacts(conf, n, confT, topK);
    var r := Ranked(conf, n, confT, topK);
    var rel := Relation(r, bboxes, sizes, nmsT);
    var kept := Greedy(|r|, rel);
    var s := Pick(r, kept);
    GreedyIsSelection(|r|, rel);
    forall a, b | 0 <= a < b < |s|
      ensures !IndexAbove(bboxes, sizes, s[b], s[a], nmsT)
    {
      assert !rel(kept[a], kept[b]);
    }
    forall k: nat | k < |r| && r[k] !in s
      ensures Outranked(conf, bboxes, sizes, nmsT, s, r[k])
    {
      RejectedOutranked(conf, bboxes, sizes, nmsT, r, kept, k);
    }
  }

  lemma RejectedOutranked(conf: seq<real>, bboxes: seq<real>, sizes: seq<real>, nmsT: real, r: seq<nat>, kept: seq<nat>,
                          k: nat)
    requires IsSelection(kept, |r|, Relation(r, bboxes, sizes, nmsT)) && Ordered(Before(conf), r)
    requires k < |r| && r[k] !in Pick(r, kept)
    ensures Outranked(conf, bboxes, sizes, nmsT, Pick(r, kept), r[k])
  {
    var rel, s := Relation(r, bboxes, sizes, nmsT), Pick(r, kept);
    assert forall x :: 0 <= x < |kept| ==> s[x] == r[kept[x]] && s[x] in s;
    assert SuppressedEarlier(kept, k, rel);
    var m :| 0 <= m < |kept| && kept[m] < k && rel(kept[m], k);
    assert s[m] == r[kept[m]];
  }

  /** Only one list is. */
  lemma SurvivorsUnique(conf: seq<real>, bboxes: seq<real>, sizes: seq<real>, n: nat, confT: real, topK: int,
                        nmsT: real, s: seq<nat>)
    requires n <= |conf| && topK >= -1
    requires AreSurvivors(conf, bboxes, sizes, nmsT, Ranked(conf, n, confT, topK), s)
    ensures s == Survivors(conf, bboxes, sizes, n, confT, topK, nmsT)
  {
    RankedFacts(conf, n, confT, topK);
    SurvivorsMeaning(conf, bboxes, sizes, n, confT, topK, nmsT);
    var r, u := Ranked(conf, n, confT, topK), Survivors(conf, bboxes, sizes, n, confT, topK, nmsT);
    forall x
      ensures x in s <==> x in u
    {
      if x in r {
        var k :| 0 <= k < |r| && r[k] == x;
        SameSurvivor(conf, bboxes, sizes, nmsT, r, s, u, k);
      }
    }
    OrderedUnique(Before(conf), s, u);
  }

  /** An entry survives in both lists or in neither. */
  lemma {:induction false} SameSurvivor(conf: seq<real>, bboxes: seq<real>, sizes: seq<real>, nmsT: real,
                                        r: seq<nat>, s: seq<nat>, u: seq<nat>, k: nat)
    requires k < |r| && Ordered(Before(conf), r)
    requires AreSurvivors(conf, bboxes, sizes, nmsT, r, s) && AreSurvivors(conf, bboxes, sizes, nmsT, r, u)
    ensures r[k] in s <==> r[k] in u
    decreases k, 1
  {
    if r[k] !in s {
      StaysRejected(conf, bboxes, sizes, nmsT, r, s, u, k);
    }
    if r[k] !in u {
      StaysRejected(conf, bboxes, sizes, nmsT, r, u, s, k);
    }
  }

  /** What one list rejects because of an earlier survivor, the other rejects too. */
  lemma {:induction false} StaysRejected(conf: seq<real>, bboxes: seq<real>, sizes: seq<real>, nmsT: real,
                                         r: seq<nat>, s: seq<nat>, u: seq<nat>, k: nat)
    requires k < |r| && Ordered(Before(conf), r) && r[k] !in s
    requires AreSurvivors(conf, bboxes, sizes, nmsT, r, s) && AreSurvivors(conf, bboxes, sizes, nmsT, r, u)
    ensures r[k] !in u
    decreases k, 0
  {
    assert Outranked(conf, bboxes, sizes, nmsT, s, r[k]);
    var m :| 0 <= m < |s| && Before(conf)(s[m], r[k]) && IndexAbove(bboxes, sizes, r[k], s[m], nmsT);
    var j :| 0 <= j < |r| && r[j] == s[m];
    EarlierRank(conf, r, j, k);
    SameSurvivor(conf, bboxes, sizes, nmsT, r, s, u, j);
    NotBoth(conf, bboxes, sizes, nmsT, r, u, r[j], r[k]);
  }

  lemma EarlierRank(conf: seq<real>, r: seq<nat>, j: nat, k: nat)
    requires Ordered(Before(conf), r) && j < |r| && k < |r| && Before(conf)(r[j], r[k])
    ensures j < k
  {}

  /** Survivors do not suppress each other. */
  lemma NotBoth(conf: seq<real>, bboxes: seq<real>, sizes: seq<real>, nmsT: real, r: seq<nat>, u: seq<nat>, x: nat,
                y: nat)
    requires AreSurvivors(conf, bboxes, sizes, nmsT, r, u) && Before(conf)(x, y)
    ensures x in u && y in u ==> !IndexAbove(bboxes, sizes, y, x, nmsT)
  {
    if x in u && y in u {
      var a: nat :| a < |u| && u[a] == x;
      var b: nat :| b < |u| && u[b] == y;
      EarlierRank(conf, u, a, b);
      assert !IndexAbove(bboxes, sizes, u[b], u[a], nmsT);
    }
  }
}
