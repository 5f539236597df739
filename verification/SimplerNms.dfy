/** The simpler layer: pruning by confidence, then backward any-overlap suppression. */
module SimplerNms {
  import opened GreedyNms
  import opened Boxes
  import opened Sorting

  datatype Proposal = Proposal(roi: Box, confidence: real, ord: nat)

  /** Higher confidence first; among equals the later proposal first. */
  predicate Before(a: Proposal, b: Proposal) {
    a.confidence > b.confidence || (a.confidence == b.confidence && a.ord > b.ord)
  }

  /** The layer numbers its proposals, so no two share an `ord`. */
  predicate Numbered(ps: seq<Proposal>) {
    forall i, j :: 0 <= i < j < |ps| ==> ps[i].ord != ps[j].ord
  }

  lemma BeforeIsStrictTotal(ps: seq<Proposal>)
    requires Numbered(ps)
    ensures StrictTotal(Before, ps) && Distinct(ps)
  {
    forall a, b | a in ps && b in ps && a != b
      ensures Before(a, b) != Before(b, a)
    {
      var i :| 0 <= i < |ps| && ps[i] == a;
      var j :| 0 <= j < |ps| && ps[j] == b;
      assert a.ord != b.ord;
    }
  }

  /** `sort_and_keep_at_most_top_n`. */
  method SortAndKeep(proposals: seq<Proposal>, topN: nat) returns (r: seq<Proposal>, ghost dropped: seq<Proposal>)
    requires Numbered(proposals)
    ensures |r| == if |proposals| > topN then topN else |proposals|
    ensures Ordered(Before, r)
    ensures multiset(r) + multiset(dropped) == multiset(proposals)
    ensures forall a, b :: a in r && b in dropped ==> Before(a, b)
  {
    BeforeIsStrictTotal(proposals);
    SortOrdered(Before, proposals);
    SortPermutes(Before, proposals);
    r := Sort(Before, proposals);
    dropped := [];
    if |proposals| > topN {
      var all := r;
      dropped := all[topN..];
      r := all[..topN];
      CutOrdered(all, topN);
    }
  }

  /** Cutting an ordered list leaves the better part. */
  lemma CutOrdered(all: seq<Proposal>, n: nat)
    requires n <= |all| && Ordered(Before, all)
    ensures all == all[..n] + all[n..] && Ordered(Before, all[..n])
    ensures forall a, b :: a in all[..n] && b in all[n..] ==> Before(a, b)
  {
    forall a, b | a in all[..n] && b in all[n..]
      ensures Before(a, b)
    {
      var i :| 0 <= i < n && all[..n][i] == a;
      var j :| 0 <= j < |all| - n && all[n..][j] == b;
      assert all[i] == a && all[n + j] == b;
    }
  }

  /** The indices of the proposals with positive confidence. */
  function Positives(ps: seq<Proposal>): (r: seq<nat>)
    ensures forall k :: 0 <= k < |r| ==> r[k] < |ps|
  {
    if ps == [] then [] else
      var front := Positives(ps[..|ps| - 1]);
      if ps[|ps| - 1].confidence > 0.0 then front + [|ps| - 1] else front
  }

  /** Exactly the proposals with positive confidence, in their order. */
  lemma {:induction false} PositivesAre(ps: seq<Proposal>, i: nat)
    ensures i in Positives(ps) <==> i < |ps| && ps[i].confidence > 0.0
    ensures forall a, b :: 0 <= a < b < |Positives(ps)| ==> Positives(ps)[a] < Positives(ps)[b]
  {
    if ps != [] {
      PositivesAre(ps[..|ps| - 1], i);
    }
  }

  /** An ordered list descends in confidence, and among equals in the proposals' numbers. */
  lemma OrderedMeans(r: seq<Proposal>, i: nat, j: nat)
    requires Ordered(Before, r) && i < j < |r|
    ensures r[i].confidence >= r[j].confidence && (r[i].confidence == r[j].confidence ==> r[i].ord > r[j].ord)
  {
    assert Before(r[i], r[j]);
  }

  lemma {:induction false} PositivesPrefix(ps: seq<Proposal>, n: nat)
    requires n <= |ps|
    ensures Positives(ps[..n]) <= Positives(ps)
    decreases |ps| - n
  {
    if n < |ps| {
      assert ps[..n + 1][..n] == ps[..n];
      PositivesPrefix(ps, n + 1);
    } else {
      assert ps[..n] == ps;
    }
  }

  lemma PositivesStep(ps: seq<Proposal>, i: nat)
    requires i < |ps|
    ensures Positives(ps[..i + 1]) == Positives(ps[..i]) + if ps[i].confidence > 0.0 then [i] else []
    ensures |Positives(ps[..i + 1])| <= |Positives(ps)|
    ensures ps[i].confidence > 0.0 ==>
      |Positives(ps[..i])| < |Positives(ps)| && Positives(ps)[|Positives(ps[..i])|] == i
  {
    assert ps[..i + 1][..i] == ps[..i];
    PositivesPrefix(ps, i + 1);
  }

  /** The suppression relation on the positions of the positive proposals. */
  function Relation(ps: seq<Proposal>, t: real): (nat, nat) -> bool {
    var pos := Positives(ps);
    (p: nat, q: nat) => p < |pos| && q < |pos| && SimplerOverlap(ps[pos[q]].roi, ps[pos[p]].roi, t)
  }

  function Rois(ps: seq<Proposal>, kept: seq<nat>): (r: seq<Box>)
    ensures |r| == |kept|
  {
    var pos := Positives(ps);
    seq(|kept|, k requires 0 <= k < |kept| => if kept[k] < |pos| then ps[pos[kept[k]]].roi else Box(0.0, 0.0, 0.0, 0.0))
  }

  /** `simpler_nms_perform_nms`: the greedy selection among the positive proposals, stopped at `topN`. */
  method PerformNms(proposals: seq<Proposal>, t: real, topN: nat) returns (res: seq<Box>)
    ensures res == Rois(proposals, Limited(|Positives(proposals)|, Relation(proposals, t), topN))
  {
    ghost var pos, rel := Positives(proposals), Relation(proposals, t);
    ghost var seen := 0;
    res := [];
    for i := 0 to |proposals|
      invariant seen == |Positives(proposals[..i])| <= |pos|
      invariant res == Rois(proposals, Greedy(seen, rel))
      invariant topN < 1 || |res| < topN
    {
      var prop := proposals[i];
      PositivesStep(proposals, i);
      if prop.confidence > 0.0 {
        ghost var kept := Greedy(seen, rel);
        var overlaps := AnyOverlap(prop.roi, res, t, proposals, kept, seen, i);
        seen := seen + 1;
        RoisAppend(proposals, kept, seen - 1);
        if !overlaps {
          res := res + [prop.roi];
          if |res| == topN {
            StoppedRun(seen, |pos|, rel, topN);
            return;
          }
        }
      }
    }
    assert proposals[..|proposals|] == proposals;
  }

  lemma RoisAppend(ps: seq<Proposal>, kept: seq<nat>, q: nat)
    requires q < |Positives(ps)|
    ensures Rois(ps, kept + [q]) == Rois(ps, kept) + [ps[Positives(ps)[q]].roi]
  {}

  /** The `any_of` over the boxes kept so far. */
  method AnyOverlap(bbox: Box, res: seq<Box>, t: real, ghost ps: seq<Proposal>, ghost kept: seq<nat>, ghost q: nat,
                    ghost i: nat)
    returns (overlaps: bool)
    requires q < |Positives(ps)| && i < |ps| && Positives(ps)[q] == i && bbox == ps[i].roi
    requires res == Rois(ps, kept) && forall k :: 0 <= k < |kept| ==> kept[k] < q
    ensures overlaps == Suppressed(kept, q, Relation(ps, t))
  {
    OverlapsMeansSuppressed(ps, kept, q, i, t);
    overlaps := exists k :: 0 <= k < |res| && SimplerOverlap(bbox, res[k], t);
  }

  lemma OverlapsMeansSuppressed(ps: seq<Proposal>, kept: seq<nat>, q: nat, i: nat, t: real)
    requires q < |Positives(ps)| && i < |ps| && Positives(ps)[q] == i
    requires forall k :: 0 <= k < |kept| ==> kept[k] < q
    ensures Suppressed(kept, q, Relation(ps, t))
       <==> exists k :: 0 <= k < |kept| && SimplerOverlap(ps[i].roi, Rois(ps, kept)[k], t)
  {
    var rel, pos := Relation(ps, t), Positives(ps);
    forall k | 0 <= k < |kept|
      ensures rel(kept[k], q) == SimplerOverlap(ps[i].roi, Rois(ps, kept)[k], t)
    {
      assert Rois(ps, kept)[k] == ps[pos[kept[k]]].roi;
    }
  }

  // ---------------------------------------------------------------- one answer for both layers

  /** In a list sorted by confidence the positive proposals come first. */
  lemma {:induction false} PositivesOfSorted(ps: seq<Proposal>)
    requires forall i, j :: 0 <= i < j < |ps| ==> ps[i].confidence >= ps[j].confidence
    ensures forall k :: 0 <= k < |Positives(ps)| ==> Positives(ps)[k] == k
    ensures forall k :: 0 <= k < |ps| ==> (ps[k].confidence > 0.0 <==> k < |Positives(ps)|)
    ensures |Positives(ps)| <= |ps|
  {
    if ps != [] {
      PositivesOfSorted(ps[..|ps| - 1]);
    }
  }

  /** The relation the other layer would use on the same boxes. */
  function ForwardRelation(ps: seq<Proposal>, t: real): (nat, nat) -> bool {
    (p: nat, q: nat) => p < |ps| && q < |ps| && ProposalOverlap(ps[p].roi, ps[q].roi, t)
  }

  /** The two layers give boxes `i` and `j` the same verdict. */
  predicate SameVerdict(ps: seq<Proposal>, t: real, i: nat, j: nat)
    requires i < |ps| && j < |ps|
  {
    SimplerOverlap(ps[j].roi, ps[i].roi, t) == ProposalOverlap(ps[i].roi, ps[j].roi, t)
  }

  ghost predicate SortedByConfidence(ps: seq<Proposal>) {
    forall i, j :: 0 <= i < j < |ps| ==> ps[i].confidence >= ps[j].confidence
  }

  /**
   Backward any-overlap on a sorted list keeps the same boxes in the same order as forward
   dead-marking on its positive prefix, whatever the cutoff, if the tests agree on its pairs.
   */
  lemma BackwardIsForward(ps: seq<Proposal>, t: real, topN: nat)
    requires SortedByConfidence(ps)
    requires forall i: nat, j: nat :: i < j < |ps| && ps[j].confidence > 0.0 ==> SameVerdict(ps, t, i, j)
    ensures var m := |Positives(ps)|;
      var kept := Limited(m, ForwardRelation(ps, t), topN);
      && Limited(m, Relation(ps, t), topN) == kept
      && (forall k :: 0 <= k < |kept| ==> kept[k] < |ps| && Rois(ps, kept)[k] == ps[kept[k]].roi)
  {
    PositivesOfSorted(ps);
    var m := |Positives(ps)|;
    forall p: nat, q: nat | p < q < m
      ensures Relation(ps, t)(p, q) == ForwardRelation(ps, t)(p, q)
    {
      assert SameVerdict(ps, t, p, q);
    }
    GreedySameTests(m, Relation(ps, t), ForwardRelation(ps, t));
  }

  /** They do on well-formed boxes that touch or are a pixel apart. */
  lemma BackwardIsForwardApart(ps: seq<Proposal>, t: real, topN: nat)
    requires SortedByConfidence(ps)
    requires t >= 0.0 && forall i :: 0 <= i < |ps| ==> WellFormed(ps[i].roi)
    requires forall i, j :: 0 <= i < j < |ps| ==> TouchOrApart(ps[i].roi, ps[j].roi)
    ensures var m := |Positives(ps)|; Limited(m, Relation(ps, t), topN) == Limited(m, ForwardRelation(ps, t), topN)
  {
    forall i: nat, j: nat | i < j < |ps|
      ensures SameVerdict(ps, t, i, j)
    {
      TestsAgreeApart(ps[i].roi, ps[j].roi, t);
    }
    BackwardIsForward(ps, t, topN);
  }

  /** On two boxes the layers differ exactly when the tests do. */
  lemma TwoBoxes(ps: seq<Proposal>, t: real, topN: nat)
    requires |ps| == 2 && SortedByConfidence(ps) && ps[1].confidence > 0.0 && topN != 1
    ensures Limited(2, Relation(ps, t), topN) == Limited(2, ForwardRelation(ps, t), topN) <==> SameVerdict(ps, t, 0, 1)
  {
    PositivesOfSorted(ps);
    TwoKept(Relation(ps, t), topN);
    TwoKept(ForwardRelation(ps, t), topN);
  }

  ghost predicate DrawnFrom(ps: seq<Proposal>, boxes: iset<Box>) {
    forall i :: 0 <= i < |ps| ==> ps[i].roi in boxes
  }

  /** Both layers keep the same positions of the list. */
  ghost predicate SameKept(ps: seq<Proposal>, t: real, topN: nat) {
    var m := |Positives(ps)|;
    Limited(m, Relation(ps, t), topN) == Limited(m, ForwardRelation(ps, t), topN)
  }

  ghost predicate SameTest(a: Box, b: Box, t: real) {
    SimplerOverlap(b, a, t) == ProposalOverlap(a, b, t)
  }

  /** The tests agree on all pairs of some boxes. */
  ghost predicate SameTests(boxes: iset<Box>, t: real) {
    forall a, b :: a in boxes && b in boxes ==> SameTest(a, b, t)
  }

  /** The layers agree on all sorted lists of them. */
  ghost predicate SameLayers(boxes: iset<Box>, t: real, topN: nat) {
    forall ps: seq<Proposal> :: SortedByConfidence(ps) && DrawnFrom(ps, boxes) ==> SameKept(ps, t, topN)
  }

  lemma ListAgrees(ps: seq<Proposal>, boxes: iset<Box>, t: real, topN: nat)
    requires SameTests(boxes, t) && SortedByConfidence(ps) && DrawnFrom(ps, boxes)
    ensures SameKept(ps, t, topN)
  {
    forall i: nat, j: nat | i < j < |ps|
      ensures SameVerdict(ps, t, i, j)
    {
      assert SameTest(ps[i].roi, ps[j].roi, t);
    }
    BackwardIsForward(ps, t, topN);
  }

  lemma PairDiffers(a: Box, b: Box, t: real, topN: nat) returns (ps: seq<Proposal>)
    requires !SameTest(a, b, t) && topN != 1
    ensures |ps| == 2 && ps[0].roi == a && ps[1].roi == b && SortedByConfidence(ps) && !SameKept(ps, t, topN)
  {
    ps := [Proposal(a, 2.0, 0), Proposal(b, 1.0, 1)];
    PositivesOfSorted(ps);
    TwoBoxes(ps, t, topN);
  }

  /** Stopping at one box keeps the first, whatever the test. */
  lemma OneKept(m: nat, rel: (nat, nat) -> bool)
    ensures Limited(m, rel, 1) == if m == 0 then [] else [0]
  {
    if m > 0 {
      assert Greedy(0, rel) == [];
      GreedyNext(0, rel, []);
      GreedyExtends(1, m, rel);
    }
  }

  /** One is equivalent to the other, but for a cutoff at one box, which any tests agree on. */
  lemma LayersAgree(boxes: iset<Box>, t: real, topN: nat)
    ensures SameLayers(boxes, t, topN) <==> topN == 1 || SameTests(boxes, t)
  {
    if topN == 1 || SameTests(boxes, t) {
      forall ps: seq<Proposal> | SortedByConfidence(ps) && DrawnFrom(ps, boxes)
        ensures SameKept(ps, t, topN)
      {
        if topN == 1 {
          OneKept(|Positives(ps)|, Relation(ps, t));
          OneKept(|Positives(ps)|, ForwardRelation(ps, t));
        } else {
          ListAgrees(ps, boxes, t, topN);
        }
      }
    } else {
      var a, b :| a in boxes && b in boxes && !SameTest(a, b, t);
      var ps := PairDiffers(a, b, t, topN);
      assert DrawnFrom(ps, boxes);
    }
  }

  lemma TwoKept(rel: (nat, nat) -> bool, topN: nat)
    requires topN != 1
    ensures Limited(2, rel, topN) == if rel(0, 1) then [0] else [0, 1]
  {
    assert Greedy(0, rel) == [];
    GreedyNext(0, rel, []);
    GreedyNext(1, rel, [0]);
    assert Suppressed([0], 1, rel) <==> rel([0][0], 1);
  }
}
