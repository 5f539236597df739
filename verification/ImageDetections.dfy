/** The detections of one image: suppression in every class but the background, then the cut over all classes. */
module ImageDetections {
  import opened Sorting
  import opened DetectionOutput
  import K = KeepTopK

  /** Scores, boxes and box sizes by class, and the layer's parameters; `n` priors of the image are in use. */
  datatype Image = Image(conf: seq<seq<real>>, bboxes: seq<seq<real>>, sizes: seq<seq<real>>, n: nat,
                         background: int, confT: real, topK: int, nmsT: real) {
    predicate Valid() {
      && |conf| == |bboxes| == |sizes| && topK >= -1
      && forall c :: 0 <= c < |conf| ==> n <= |conf[c]|
    }

    /** What `nms` leaves of class `c`; it is not called for the background. */
    function OfClass(c: nat): seq<nat>
      requires Valid() && c < |conf|
    {
      if c == background then [] else Survivors(conf[c], bboxes[c], sizes[c], n, confT, topK, nmsT)
    }

    function Lists(): (r: seq<seq<int>>)
      requires Valid()
    {
      seq(|conf|, c requires 0 <= c < |conf| && Valid() => OfClass(c))
    }

    /** Every stored index names a prior. */
    ghost predicate InRange() {
      Valid() && forall c, k :: 0 <= c < |Lists()| && 0 <= k < |Lists()[c]| ==> 0 <= Lists()[c][k] < |conf[c]|
    }
  }

  /** Survivors of a class are distinct candidates. */
  lemma OfClassFacts(img: Image, c: nat)
    requires img.Valid() && c < |img.conf|
    ensures Distinct<int>(img.Lists()[c])
    ensures forall k :: 0 <= k < |img.OfClass(c)| ==>
      img.OfClass(c)[k] < img.n && img.conf[c][img.OfClass(c)[k]] > img.confT
  {
    if c != img.background {
      SurvivorsMeaning(img.conf[c], img.bboxes[c], img.sizes[c], img.n, img.confT, img.topK, img.nmsT);
      RankedFacts(img.conf[c], img.n, img.confT, img.topK);
      OrderedDescends(img.conf[c], img.OfClass(c));
    }
    assert img.Lists()[c] == img.OfClass(c);
  }

  lemma OrderedDescends(conf: seq<real>, s: seq<nat>)
    requires Ordered(Before(conf), s)
    ensures Distinct(s)
    ensures forall i, j :: 0 <= i < j < |s| ==> Descends(conf, s[i], s[j])
  {
    forall i, j | 0 <= i < j < |s|
      ensures s[i] != s[j] && Descends(conf, s[i], s[j])
    {
      assert Before(conf)(s[i], s[j]);
    }
  }

  predicate Descends(conf: seq<real>, x: int, y: int) {
    0 <= x < |conf| && 0 <= y < |conf| && conf[x] >= conf[y]
  }

  lemma AllInRange(img: Image)
    requires img.Valid()
    ensures img.InRange()
  {
    forall c, k | 0 <= c < |img.Lists()| && 0 <= k < |img.Lists()[c]|
      ensures 0 <= img.Lists()[c][k] < |img.conf[c]|
    {
      OfClassFacts(img, c);
    }
  }

  /** The result of the image for the tie order `order`: the survivors, or the part of them the cut leaves. */
  ghost predicate IsResult(img: Image, keepTopK: int, order: seq<K.Entry>, result: seq<seq<int>>) {
    && img.InRange() && |result| == |img.conf|
    && multiset(order) == multiset(K.Gathered(img.Lists(), img.conf)) && K.Descending(order)
    && forall c: nat :: c < |result| ==>
      result[c] == if -1 < keepTopK < |order| then K.Pick(order[..keepTopK], c) else img.OfClass(c)
  }

  /** How many detections there are. */
  function Size(lists: seq<seq<int>>): nat {
    if lists == [] then 0 else Size(lists[..|lists| - 1]) + |lists[|lists| - 1]|
  }

  lemma {:induction false} GatheredSize(lists: seq<seq<int>>, conf: seq<seq<real>>)
    requires |lists| <= |conf|
    requires forall c, k :: 0 <= c < |lists| && 0 <= k < |lists[c]| ==> 0 <= lists[c][k] < |conf[c]|
    ensures |K.Gathered(lists, conf)| == Size(lists)
  {
    if lists != [] {
      GatheredSize(lists[..|lists| - 1], conf);
    }
  }

  lemma {:induction false} PickedSize(s: seq<K.Entry>, result: seq<seq<int>>)
    requires forall c: nat :: c < |result| ==> result[c] == K.Pick(s, c)
    ensures Size(result) == K.Total(s, |result|)
  {
    if result != [] {
      PickedSize(s, result[..|result| - 1]);
    }
  }

  /** Nothing is lost but by the cut, which leaves exactly its number. */
  lemma ResultSize(img: Image, keepTopK: int, order: seq<K.Entry>, result: seq<seq<int>>)
    requires IsResult(img, keepTopK, order, result)
    ensures Size(result) == if -1 < keepTopK < Size(img.Lists()) then keepTopK else Size(img.Lists())
  {
    GatheredSize(img.Lists(), img.conf);
    assert |multiset(order)| == |order|;
    assert |order| == Size(img.Lists());
    if -1 < keepTopK < |order| {
      PickedSize(order[..keepTopK], result);
      K.LabelsOfSorted(order, img.Lists(), img.conf);
      K.TotalIsLength(order[..keepTopK], |result|);
    } else {
      assert result == img.Lists();
    }
  }

  /**
   The detections of a class are distinct survivors in order of confidence; the background has none.
   */
  lemma ResultOfClass(img: Image, keepTopK: int, order: seq<K.Entry>, result: seq<seq<int>>, c: nat)
    requires IsResult(img, keepTopK, order, result) && c < |result|
    ensures Distinct(result[c])
    ensures forall k :: 0 <= k < |result[c]| ==> result[c][k] in img.OfClass(c)
    ensures forall k :: 0 <= k < |result[c]| ==> 0 <= result[c][k] < img.n && img.conf[c][result[c][k]] > img.confT
    ensures forall i, j :: 0 <= i < j < |result[c]| ==> Descends(img.conf[c], result[c][i], result[c][j])
    ensures c == img.background ==> result[c] == []
  {
    ResultOrdered(img, keepTopK, order, result, c);
    ResultMembers(img, keepTopK, order, result, c);
    MembersAreCandidates(img, c, result[c]);
    assert result[c] == [] || result[c][0] in img.OfClass(c);
  }

  lemma ResultOrdered(img: Image, keepTopK: int, order: seq<K.Entry>, result: seq<seq<int>>, c: nat)
    requires IsResult(img, keepTopK, order, result) && c < |result|
    ensures Distinct(result[c])
    ensures forall i, j :: 0 <= i < j < |result[c]| ==> Descends(img.conf[c], result[c][i], result[c][j])
  {
    OfClassFacts(img, c);
    if -1 < keepTopK < |order| {
      K.CutMeaning(order, keepTopK, img.Lists(), img.conf, c);
    } else {
      ClassDescends(img, c);
    }
  }

  lemma ResultMembers(img: Image, keepTopK: int, order: seq<K.Entry>, result: seq<seq<int>>, c: nat)
    requires IsResult(img, keepTopK, order, result) && c < |result|
    ensures forall k :: 0 <= k < |result[c]| ==> result[c][k] in img.Lists()[c]
  {
    if -1 < keepTopK < |order| {
      K.ClassFits(order, keepTopK, img.Lists(), img.conf, c);
      Submultiset(result[c], img.Lists()[c]);
    }
  }

  lemma MembersAreCandidates(img: Image, c: nat, res: seq<int>)
    requires img.Valid() && c < |img.conf| && forall k :: 0 <= k < |res| ==> res[k] in img.Lists()[c]
    ensures forall k :: 0 <= k < |res| ==> res[k] in img.OfClass(c)
    ensures forall k :: 0 <= k < |res| ==> 0 <= res[k] < img.n && img.conf[c][res[k]] > img.confT
  {
    OfClassFacts(img, c);
    var list := img.OfClass(c);
    assert img.Lists()[c] == list;
    forall k | 0 <= k < |res|
      ensures res[k] in list
      ensures 0 <= res[k] < img.n && img.conf[c][res[k]] > img.confT
    {
      var m :| 0 <= m < |list| && list[m] == res[k];
    }
  }

  lemma Submultiset(a: seq<int>, b: seq<int>)
    requires multiset(a) <= multiset(b)
    ensures forall k :: 0 <= k < |a| ==> a[k] in b
  {
    forall k | 0 <= k < |a|
      ensures a[k] in b
    {
      assert a[k] in multiset(a);
      assert a[k] in multiset(b);
    }
  }

  lemma ClassDescends(img: Image, c: nat)
    requires img.Valid() && c < |img.conf|
    ensures var s := img.OfClass(c);
      forall i, j :: 0 <= i < j < |s| ==> Descends(img.conf[c], s[i], s[j])
  {
    if c != img.background {
      SurvivorsMeaning(img.conf[c], img.bboxes[c], img.sizes[c], img.n, img.confT, img.topK, img.nmsT);
      OrderedDescends(img.conf[c], img.OfClass(c));
    }
  }

  lemma PairApart(conf: seq<real>, bboxes: seq<real>, sizes: seq<real>, nmsT: real, r: seq<nat>, s: seq<nat>,
                  x: nat, y: nat)
    requires AreSurvivors(conf, bboxes, sizes, nmsT, r, s) && x in s && y in s && Before(conf)(x, y)
    ensures !IndexAbove(bboxes, sizes, y, x, nmsT)
  {
    var a :| 0 <= a < |s| && s[a] == x;
    var b :| 0 <= b < |s| && s[b] == y;
    assert a < b;
  }

  /** Among the detections of a class, none overlaps one that ranks before it above the threshold. */
  lemma ResultIndependent(img: Image, keepTopK: int, order: seq<K.Entry>, result: seq<seq<int>>, c: nat,
                          x: nat, y: nat)
    requires IsResult(img, keepTopK, order, result) && c < |result|
    requires x in result[c] && y in result[c] && Before(img.conf[c])(x, y)
    ensures !IndexAbove(img.bboxes[c], img.sizes[c], y, x, img.nmsT)
  {
    ResultOfClass(img, keepTopK, order, result, c);
    assert x in img.OfClass(c) && y in img.OfClass(c);
    var r := Ranked(img.conf[c], img.n, img.confT, img.topK);
    SurvivorsMeaning(img.conf[c], img.bboxes[c], img.sizes[c], img.n, img.confT, img.topK, img.nmsT);
    PairApart(img.conf[c], img.bboxes[c], img.sizes[c], img.nmsT, r, img.OfClass(c), x, y);
  }

  /** A survivor of any class that the cut leaves out is no better than any detection of any class it keeps. */
  lemma DroppedIsWorse(img: Image, keepTopK: int, order: seq<K.Entry>, result: seq<seq<int>>,
                       c: nat, x: nat, d: nat, y: int)
    requires IsResult(img, keepTopK, order, result) && c < |result| && d < |result|
    requires x in img.OfClass(c) && x !in result[c] && y in result[d]
    ensures NoBetter(img, c, x, d, y)
  {
    var lists := img.Lists();
    OfClassFacts(img, c);
    var k :| 0 <= k < |img.OfClass(c)| && img.OfClass(c)[k] == x;
    assert lists[c][k] == x;
    K.LabelsOfSorted(order, lists, img.conf);
    var m := EntryOf(lists, img.conf, order, c, k);
    if m < keepTopK {
      EntryPicked(order[..keepTopK], m);
    }
    var q := KeptEntry(order, keepTopK, d, y);
    assert order[q].conf >= order[m].conf;
  }

  lemma KeptEntry(order: seq<K.Entry>, keep: nat, d: nat, y: int) returns (q: nat)
    requires keep <= |order| && y in K.Pick(order[..keep], d)
    ensures q < keep && order[q].cls == d && order[q].idx == y
  {
    var picked := K.Pick(order[..keep], d);
    var i :| 0 <= i < |picked| && picked[i] == y;
    K.PickComes(order[..keep], d, i);
    q :| 0 <= q < keep && order[q].cls == d && order[q].idx == y;
  }

  /** Where the sort puts the `k`-th survivor of class `c`. */
  lemma EntryOf(lists: seq<seq<int>>, conf: seq<seq<real>>, order: seq<K.Entry>, c: nat, k: nat) returns (m: nat)
    requires |lists| <= |conf| && c < |lists| && k < |lists[c]|
    requires forall c, k :: 0 <= c < |lists| && 0 <= k < |lists[c]| ==> 0 <= lists[c][k] < |conf[c]|
    requires multiset(order) == multiset(K.Gathered(lists, conf))
    ensures m < |order| && order[m].cls == c && order[m].idx == lists[c][k]
  {
    K.PickPermutes(order, K.Gathered(lists, conf), c);
    K.PickGathered(lists, conf, c);
    SameMembers(K.Pick(order, c), lists[c]);
    assert lists[c][k] in lists[c];
    var i :| 0 <= i < |K.Pick(order, c)| && K.Pick(order, c)[i] == lists[c][k];
    K.PickComes(order, c, i);
    m :| 0 <= m < |order| && order[m].cls == c && order[m].idx == lists[c][k];
  }

  lemma {:induction false} EntryPicked(s: seq<K.Entry>, m: nat)
    requires m < |s|
    ensures s[m].idx in K.Pick(s, s[m].cls)
  {
    if m < |s| - 1 {
      EntryPicked(s[..|s| - 1], m);
    }
  }

  /**
   Every candidate of a class that ranking lets through is accounted for: it is detected, or overlaps a preferred
   survivor of its class above the threshold, or is no better than anything detected.
   */
  lemma Accounted(img: Image, keepTopK: int, order: seq<K.Entry>, result: seq<seq<int>>, c: nat, x: nat)
    requires IsResult(img, keepTopK, order, result) && c < |result| && c != img.background
    requires x in Ranked(img.conf[c], img.n, img.confT, img.topK)
    ensures x in result[c]
         || Outranked(img.conf[c], img.bboxes[c], img.sizes[c], img.nmsT, img.OfClass(c), x)
         || forall d: nat, y: int :: d < |result| && y in result[d] ==> NoBetter(img, c, x, d, y)
  {
    var r := Ranked(img.conf[c], img.n, img.confT, img.topK);
    SurvivorsMeaning(img.conf[c], img.bboxes[c], img.sizes[c], img.n, img.confT, img.topK, img.nmsT);
    var k :| 0 <= k < |r| && r[k] == x;
    if x in img.OfClass(c) && x !in result[c] {
      forall d: nat, y: int | d < |result| && y in result[d]
        ensures NoBetter(img, c, x, d, y)
      {
        DroppedIsWorse(img, keepTopK, order, result, c, x, d, y);
      }
    }
  }

  ghost predicate NoBetter(img: Image, c: nat, x: nat, d: nat, y: int) {
    && c < |img.conf| && d < |img.conf| && x < |img.conf[c]| && 0 <= y < |img.conf[d]|
    && img.conf[d][y] >= img.conf[c][x]
  }
}
