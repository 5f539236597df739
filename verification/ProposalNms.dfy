/** The proposal layer: unpacking, forward dead-marking suppression, and writing the regions out. */
module ProposalNms {
  import opened GreedyNms
  import opened Boxes

  /** Box `i` of a planar buffer holding all x0, then all y0, x1, y1. */
  function BoxAt(boxes: seq<real>, num: nat, i: nat): Box
    requires i < num && 4 * num <= |boxes|
  {
    Box(boxes[i], boxes[num + i], boxes[2 * num + i], boxes[3 * num + i])
  }

  /** Box `i` of the interleaved proposal records (x0, y0, x1, y1, score). */
  function RecordBox(proposals: seq<real>, i: nat): Box
    requires 5 * i + 5 <= |proposals|
  {
    Box(proposals[5 * i], proposals[5 * i + 1], proposals[5 * i + 2], proposals[5 * i + 3])
  }

  ghost function ArrayBox(boxes: array<real>, num: nat, i: nat): Box
    requires i < num && 4 * num <= boxes.Length
    reads boxes
  {
    Box(boxes[i], boxes[num + i], boxes[2 * num + i], boxes[3 * num + i])
  }

  method UnpackBoxes(proposals: seq<real>, unpacked: array<real>, topn: nat)
    requires 5 * topn <= |proposals| && 4 * topn <= unpacked.Length
    modifies unpacked
    ensures forall i: nat :: i < topn ==> BoxAt(unpacked[..], topn, i) == RecordBox(proposals, i)
  {
    for i := 0 to topn
      invariant forall k: nat :: k < i ==> ArrayBox(unpacked, topn, k) == RecordBox(proposals, k)
    {
      unpacked[0 * topn + i] := proposals[5 * i + 0];
      unpacked[1 * topn + i] := proposals[5 * i + 1];
      unpacked[2 * topn + i] := proposals[5 * i + 2];
      unpacked[3 * topn + i] := proposals[5 * i + 3];
    }
    assert forall k: nat :: k < topn ==> BoxAt(unpacked[..], topn, k) == ArrayBox(unpacked, topn, k);
  }

  /** The suppression relation of this layer on the positions of a planar buffer. */
  function Relation(boxes: seq<real>, num: nat, t: real): (nat, nat) -> bool
    requires 4 * num <= |boxes|
  {
    (p: nat, q: nat) => p < num && q < num && ProposalOverlap(BoxAt(boxes, num, p), BoxAt(boxes, num, q), t)
  }

  lemma SuppressedAppend(kept: seq<nat>, x: nat, q: nat, rel: (nat, nat) -> bool)
    ensures Suppressed(kept + [x], q, rel) <==> Suppressed(kept, q, rel) || rel(x, q)
  {
    if Suppressed(kept, q, rel) {
      var k :| 0 <= k < |kept| && rel(kept[k], q);
      assert (kept + [x])[k] == kept[k];
    }
    if rel(x, q) {
      assert (kept + [x])[|kept|] == x;
    }
  }

  /** Position `j` is marked exactly when something kept so far suppresses it. */
  ghost predicate Marked(isDead: array<int>, lo: nat, hi: nat, kept: seq<nat>, rel: (nat, nat) -> bool)
    requires hi <= isDead.Length
    reads isDead
  {
    forall j: nat :: lo <= j < hi ==> (isDead[j] != 0 <==> Suppressed(kept, j, rel))
  }

  method TestOverlap(num: nat, boxes: array<real>, p: nat, q: nat, t: real, ghost rel: (nat, nat) -> bool)
    returns (overlap: bool)
    requires p < num && q < num && 4 * num <= boxes.Length
    requires rel == Relation(boxes[..], num, t)
    ensures overlap == rel(p, q)
  {
    overlap := ProposalOverlap(
      Box(boxes[p], boxes[num + p], boxes[2 * num + p], boxes[3 * num + p]),
      Box(boxes[q], boxes[num + q], boxes[2 * num + q], boxes[3 * num + q]), t);
  }

  /** The tail loop: everything after `box` that overlaps it dies. */
  method MarkTail(num: nat, isDead: array<int>, boxes: array<real>, box: nat, t: real, ghost kept: seq<nat>)
    requires box < num <= isDead.Length && 4 * num <= boxes.Length
    requires Marked(isDead, box + 1, num, kept, Relation(boxes[..], num, t))
    modifies isDead
    ensures Marked(isDead, box + 1, num, kept + [box], Relation(boxes[..], num, t))
  {
    ghost var rel := Relation(boxes[..], num, t);
    for tail := box + 1 to num
      invariant forall j: nat :: box < j < tail ==> (isDead[j] != 0 <==> old(isDead[j]) != 0 || rel(box, j))
      invariant forall j: nat :: tail <= j < num ==> isDead[j] == old(isDead[j])
    {
      var overlap := TestOverlap(num, boxes, box, tail, t, rel);
      if overlap {
        isDead[tail] := 1;
      }
    }
    forall j: nat | box < j < num
      ensures isDead[j] != 0 <==> Suppressed(kept + [box], j, rel)
    {
      SuppressedAppend(kept, box, j, rel);
    }
  }

  /** `nms_cpu`: the greedy selection, offset by `baseIndex`, stopped at `maxOut`. */
  method NmsCpu(num: nat, isDead: array<int>, boxes: array<real>, indexOut: array<int>, baseIndex: int, t: real,
                maxOut: int)
    returns (count: nat)
    requires num <= isDead.Length && 4 * num <= boxes.Length && isDead != indexOut
    requires num <= indexOut.Length || 1 <= maxOut <= indexOut.Length
    modifies isDead, indexOut
    ensures count == |Limited(num, Relation(boxes[..], num, t), maxOut)|
    ensures count <= indexOut.Length
    ensures forall k :: 0 <= k < count ==>
      indexOut[k] == baseIndex + Limited(num, Relation(boxes[..], num, t), maxOut)[k]
  {
    ghost var rel := Relation(boxes[..], num, t);
    ghost var kept: seq<nat> := [];
    count := 0;
    for i := 0 to num
      invariant forall j :: 0 <= j < i ==> isDead[j] == 0
    {
      isDead[i] := 0;
    }
    var box := 0;
    while box < num
      invariant box <= num && kept == Greedy(box, rel)
      invariant count == |kept| && (maxOut < 1 || count < maxOut)
      invariant Listed(indexOut[..], baseIndex, kept)
      invariant Marked(isDead, box, num, kept, rel)
    {
      count, kept := Visit(num, isDead, boxes, indexOut, baseIndex, t, maxOut, box, count, kept, rel);
      if count == maxOut && count > 0 {
        StoppedRun(box + 1, num, rel, maxOut);
        return;
      }
      box := box + 1;
    }
  }

  /** The output starts with the kept positions, offset. */
  ghost predicate Listed(out: seq<int>, baseIndex: int, kept: seq<nat>) {
    |kept| <= |out| && forall k :: 0 <= k < |kept| ==> out[k] == baseIndex + kept[k]
  }

  /** One position: a live one is kept, and unless that was the last, everything after it that overlaps it dies. */
  method Visit(num: nat, isDead: array<int>, boxes: array<real>, indexOut: array<int>, baseIndex: int, t: real,
               maxOut: int, box: nat, count0: nat, ghost kept0: seq<nat>,
                 ghost rel: (nat, nat) -> bool) returns (count: nat, ghost kept: seq<nat>)
    requires box < num <= isDead.Length && 4 * num <= boxes.Length && isDead != indexOut
    requires rel == Relation(boxes[..], num, t)
    requires kept0 == Greedy(box, rel) && count0 == |kept0| < indexOut.Length && (maxOut < 1 || count0 < maxOut)
    requires Listed(indexOut[..], baseIndex, kept0) && Marked(isDead, box, num, kept0, rel)
    modifies isDead, indexOut
    ensures kept == Greedy(box + 1, rel) && count == |kept| && (maxOut < 1 || count <= maxOut)
    ensures Listed(indexOut[..], baseIndex, kept)
    ensures maxOut < 1 || count < maxOut ==> Marked(isDead, box + 1, num, kept, rel)
  {
    GreedyNext(box, rel, kept0);
    count, kept := count0, kept0;
    if isDead[box] == 0 {
      indexOut[count] := baseIndex + box;
      count := count + 1;
      if count != maxOut {
        MarkTail(num, isDead, boxes, box, t, kept);
      }
      kept := kept + [box];
    }
  }

  /** Row `k` of the output: the image index and the box, a zero row after the last, and the end marker. */
  ghost predicate RoiRows(rois: seq<real>, boxes: seq<real>, num: nat, indices: seq<int>, item: int, post: nat)
    requires 4 * num <= |boxes| && 5 * post <= |rois| && |indices| <= post
    requires forall k :: 0 <= k < |indices| ==> 0 <= indices[k] < num
  {
    && (forall k: nat :: k < |indices| ==>
          rois[5 * k] == item as real && RoiBox(rois, k) == BoxAt(boxes, num, indices[k]))
    && (|indices| < post ==>
          rois[5 * |indices|] == -1.0 && forall i :: 5 * |indices| < i < 5 * post ==> rois[i] == 0.0)
  }

  function RoiBox(rois: seq<real>, k: nat): Box
    requires 5 * k + 5 <= |rois|
  {
    Box(rois[5 * k + 1], rois[5 * k + 2], rois[5 * k + 3], rois[5 * k + 4])
  }

  method CopyRois(numRois: nat, item: int, num: nat, boxes: array<real>, indices: array<int>, rois: array<real>)
    requires numRois <= indices.Length && 4 * num <= boxes.Length && 5 * numRois <= rois.Length
    requires forall k :: 0 <= k < numRois ==> 0 <= indices[k] < num
    requires rois != boxes
    modifies rois
    ensures forall k: nat :: k < numRois ==> rois[5 * k] == item as real
    ensures forall k: nat :: k < numRois ==> RoiBox(rois[..], k) == BoxAt(boxes[..], num, indices[k])
    ensures forall i :: 5 * numRois <= i < rois.Length ==> rois[i] == old(rois[i])
  {
    var roi := 0;
    while roi < numRois
      invariant roi <= numRois
      invariant forall k: nat :: k < roi ==> rois[5 * k] == item as real
      invariant forall k: nat :: k < roi ==> RoiBox(rois[..], k) == BoxAt(boxes[..], num, indices[k])
      invariant forall i :: 5 * numRois <= i < rois.Length ==> rois[i] == old(rois[i])
    {
      var index := indices[roi];
      rois[roi * 5 + 0] := item as real;
      rois[roi * 5 + 1] := boxes[0 * num + index];
      rois[roi * 5 + 2] := boxes[1 * num + index];
      rois[roi * 5 + 3] := boxes[2 * num + index];
      rois[roi * 5 + 4] := boxes[3 * num + index];
      roi := roi + 1;
    }
  }

  method ClearRois(rois: array<real>, from: nat, to: nat)
    requires from <= to <= rois.Length
    modifies rois
    ensures forall x :: 0 <= x < rois.Length ==> rois[x] == if from <= x < to then 0.0 else old(rois[x])
  {
    var i := from;
    while i < to
      invariant from <= i <= to
      invariant forall x :: 0 <= x < rois.Length ==> rois[x] == if from <= x < i then 0.0 else old(rois[x])
    {
      rois[i] := 0.0;
      i := i + 1;
    }
  }

  method RetrieveRois(numRois: nat, item: int, num: nat, boxes: array<real>, indices: array<int>, rois: array<real>,
                      post: nat)
    requires numRois <= post && numRois <= indices.Length && 4 * num <= boxes.Length && 5 * post <= rois.Length
    requires forall k :: 0 <= k < numRois ==> 0 <= indices[k] < num
    requires rois != boxes
    modifies rois
    ensures RoiRows(rois[..], boxes[..], num, indices[..numRois], item, post)
    ensures forall i :: 5 * post <= i < rois.Length ==> rois[i] == old(rois[i])
  {
    CopyRois(numRois, item, num, boxes, indices, rois);
    if numRois < post {
      ghost var done := rois[..];
      ClearRois(rois, 5 * numRois, 5 * post);
      rois[numRois * 5 + 0] := -1.0;
      assert forall x :: 0 <= x < 5 * numRois ==> rois[x] == done[x];
      assert forall k: nat :: k < numRois ==> RoiBox(rois[..], k) == RoiBox(done, k);
    }
  }

  /** The suppression relation on the records themselves. */
  function RecordRelation(proposals: seq<real>, topn: nat, t: real): (nat, nat) -> bool
    requires 5 * topn <= |proposals|
  {
    (p: nat, q: nat) => p < topn && q < topn && ProposalOverlap(RecordBox(proposals, p), RecordBox(proposals, q), t)
  }

  lemma UnpackedRelation(proposals: seq<real>, boxes: seq<real>, topn: nat, t: real)
    requires 5 * topn <= |proposals| && 4 * topn <= |boxes|
    requires forall i: nat :: i < topn ==> BoxAt(boxes, topn, i) == RecordBox(proposals, i)
    ensures Greedy(topn, Relation(boxes, topn, t)) == Greedy(topn, RecordRelation(proposals, topn, t))
  {
    GreedySameTests(topn, RecordRelation(proposals, topn, t), Relation(boxes, topn, t));
  }

  /** Region rows hold the kept records, then the end marker and zeros. */
  ghost predicate ItemRows(rois: seq<real>, proposals: seq<real>, kept: seq<nat>, topn: nat, item: int, post: nat)
    requires 5 * topn <= |proposals| && 5 * post <= |rois| && |kept| <= post
    requires forall k :: 0 <= k < |kept| ==> kept[k] < topn
  {
    && (forall k: nat :: k < |kept| ==> rois[5 * k] == item as real && RoiBox(rois, k) == RecordBox(proposals, kept[k]))
    && (|kept| < post ==> rois[5 * |kept|] == -1.0 && forall i :: 5 * |kept| < i < 5 * post ==> rois[i] == 0.0)
  }

  lemma RowsAreItems(rois: seq<real>, proposals: seq<real>, boxes: seq<real>, kept: seq<nat>, indices: seq<int>,
                     topn: nat, item: int, post: nat)
    requires 5 * topn <= |proposals| && 4 * topn <= |boxes| && 5 * post <= |rois| && |kept| == |indices| <= post
    requires forall i: nat :: i < topn ==> BoxAt(boxes, topn, i) == RecordBox(proposals, i)
    requires forall k :: 0 <= k < |kept| ==> indices[k] == kept[k] < topn
    requires RoiRows(rois, boxes, topn, indices, item, post)
    ensures ItemRows(rois, proposals, kept, topn, item, post)
  {}

  /** One batch item from sorted proposal records to regions. */
  method ExecuteItem(proposals: seq<real>, topn: nat, t: real, post: nat, item: int, rois: array<real>)
    returns (numRois: nat)
    requires 5 * topn <= |proposals| && 5 * post <= rois.Length && 1 <= post
    modifies rois
    ensures var kept := Limited(topn, RecordRelation(proposals, topn, t), post);
      numRois == |kept| <= post && ItemRows(rois[..], proposals, kept, topn, item, post)
  {
    var unpacked := new real[4 * topn];
    UnpackBoxes(proposals, unpacked, topn);
    var isDead, roiIndices := new int[topn], new int[post];
    ghost var boxes := unpacked[..];
    UnpackedRelation(proposals, boxes, topn, t);
    numRois := NmsCpu(topn, isDead, unpacked, roiIndices, 0, t, post);
    RetrieveRois(numRois, item, topn, unpacked, roiIndices, rois, post);
    RowsAreItems(rois[..], proposals, boxes, Limited(topn, RecordRelation(proposals, topn, t), post),
      roiIndices[..numRois], topn, item, post);
  }

  /** Row `k` of the regions, number by number: the image, and the four coordinates of the `k`-th kept record. */
  lemma ItemNumbers(rois: seq<real>, proposals: seq<real>, kept: seq<nat>, topn: nat, item: int, post: nat, k: nat,
                    e: nat)
    requires 5 * topn <= |proposals| && 5 * post <= |rois| && |kept| <= post && k < |kept| && e < 4
    requires forall j :: 0 <= j < |kept| ==> kept[j] < topn
    requires ItemRows(rois, proposals, kept, topn, item, post)
    ensures rois[5 * k] == item as real && rois[5 * k + 1 + e] == proposals[5 * kept[k] + e]
  {
    assert RoiBox(rois, k) == RecordBox(proposals, kept[k]);
  }

  /** Records of `w` by `h` pixels, the second `d` columns to the right of the first. */
  lemma RecordsShifted(proposals: seq<real>, topn: nat, p: nat, q: nat, w: real, h: real, d: real, t: real)
    requires 5 * topn <= |proposals| && p < topn && q < topn && 1.0 <= w && 1.0 <= h && 0.0 <= d <= w - 1.0
    requires proposals[5 * p + 2] == proposals[5 * p] + w - 1.0
    requires proposals[5 * p + 3] == proposals[5 * p + 1] + h - 1.0
    requires proposals[5 * q] == proposals[5 * p] + d && proposals[5 * q + 2] == proposals[5 * p + 2] + d
    requires proposals[5 * q + 1] == proposals[5 * p + 1] && proposals[5 * q + 3] == proposals[5 * p + 3]
    ensures RecordRelation(proposals, topn, t)(p, q) <==> w - d > t * (w + d)
  {
    var a := RecordBox(proposals, p);
    assert RecordBox(proposals, q) == Box(a.x0 + d, a.y0, a.x1 + d, a.y1);
    ShiftedOverlap(a, w, h, d, t);
  }
}
