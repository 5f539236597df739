/** The keep-top-k cut of the detection-output layer: the best detections over all classes of one image. */
module KeepTopK {
  import opened Sorting

  datatype Entry = Entry(conf: real, cls: nat, idx: int)

  /** `SortScorePairDescend`: only the scores are compared, so ties may come out in any order. */
  predicate Descending(s: seq<Entry>) {
    forall i, j :: 0 <= i < j < |s| ==> s[i].conf >= s[j].conf
  }

  /** The indices of one class, in list order. */
  function Pick(s: seq<Entry>, c: nat): (r: seq<int>)
    ensures |r| <= |s|
  {
    if s == [] then [] else
      var front := Pick(s[..|s| - 1], c);
      if s[|s| - 1].cls == c then front + [s[|s| - 1].idx] else front
  }

  lemma {:induction false} PickConcat(a: seq<Entry>, b: seq<Entry>, c: nat)
    ensures Pick(a + b, c) == Pick(a, c) + Pick(b, c)
  {
    if b == [] {
      assert a + b == a;
    } else {
      assert (a + b)[..|a + b| - 1] == a + b[..|b| - 1];
      PickConcat(a, b[..|b| - 1], c);
    }
  }

  lemma PickSingle(e: Entry, c: nat)
    ensures Pick([e], c) == if e.cls == c then [e.idx] else []
  {
    assert [e][..0] == [];
  }

  /** Rearranging a list rearranges each class's indices. */
  lemma {:induction false} PickPermutes(a: seq<Entry>, b: seq<Entry>, c: nat)
    requires multiset(a) == multiset(b)
    ensures multiset(Pick(a, c)) == multiset(Pick(b, c))
  {
    SameMembers(a, b);
    if a != [] {
      var e := a[0];
      assert e in b;
      var i :| 0 <= i < |b| && b[i] == e;
      var rest := b[..i] + b[i + 1..];
      assert b == b[..i] + ([e] + b[i + 1..]);
      TailMultiset(a);
      assert multiset(rest) == multiset(b) - multiset{e};
      PickPermutes(a[1..], rest, c);
      PickConcat([e], a[1..], c);
      PickConcat(b[..i], [e] + b[i + 1..], c);
      PickConcat([e], b[i + 1..], c);
      PickConcat(b[..i], b[i + 1..], c);
    }
  }

  function Total(s: seq<Entry>, classes: nat): nat {
    if classes == 0 then 0 else Total(s, classes - 1) + |Pick(s, classes - 1)|
  }

  lemma {:induction false} TotalStep(s: seq<Entry>, e: Entry, classes: nat)
    ensures Total(s + [e], classes) == Total(s, classes) + if e.cls < classes then 1 else 0
  {
    if classes > 0 {
      TotalStep(s, e, classes - 1);
      PickConcat(s, [e], classes - 1);
      PickSingle(e, classes - 1);
    }
  }

  /** Summing the per-class counts counts every entry once. */
  lemma {:induction false} TotalIsLength(s: seq<Entry>, classes: nat)
    requires forall k :: 0 <= k < |s| ==> s[k].cls < classes
    ensures Total(s, classes) == |s|
  {
    if s == [] {
      TotalOfEmpty(classes);
    } else {
      TotalIsLength(s[..|s| - 1], classes);
      TotalStep(s[..|s| - 1], s[|s| - 1], classes);
      assert s[..|s| - 1] + [s[|s| - 1]] == s;
    }
  }

  lemma {:induction false} TotalOfEmpty(classes: nat)
    ensures Total([], classes) == 0
  {
    if classes > 0 {
      TotalOfEmpty(classes - 1);
    }
  }

  // ---------------------------------------------------------------- the layer's buffers

  /** Per class: how many detections, and where they are; every stored index names a prior. */
  ghost predicate Lists(indices: array2<int>, detections: array<int>)
    reads indices, detections
  {
    && detections.Length == indices.Length0
    && (forall c :: 0 <= c < detections.Length ==> 0 <= detections[c] <= indices.Length1)
    && (forall c, k :: 0 <= c < detections.Length && 0 <= k < detections[c] ==> 0 <= indices[c, k] < indices.Length1)
  }

  ghost function ClassList(indices: array2<int>, detections: array<int>, c: nat): (r: seq<int>)
    requires c < detections.Length && Lists(indices, detections)
    reads indices, detections
    ensures |r| == detections[c]
    ensures forall k :: 0 <= k < |r| ==> r[k] == indices[c, k]
  {
    var n := detections[c];
    seq(n, k requires 0 <= k < n && c < indices.Length0 && n <= indices.Length1 reads indices => indices[c, k])
  }

  /** The entry list built from the per-class lists. */
  ghost function ClassEntries(list: seq<int>, c: nat, conf: seq<seq<real>>): (r: seq<Entry>)
    requires c < |conf| && forall k :: 0 <= k < |list| ==> 0 <= list[k] < |conf[c]|
    ensures |r| == |list|
    ensures forall k :: 0 <= k < |r| ==> r[k] == Entry(conf[c][list[k]], c, list[k])
  {
    seq(|list|, k requires 0 <= k < |list| => Entry(conf[c][list[k]], c, list[k]))
  }

  ghost function Gathered(lists: seq<seq<int>>, conf: seq<seq<real>>): seq<Entry>
    requires |lists| <= |conf|
    requires forall c, k :: 0 <= c < |lists| && 0 <= k < |lists[c]| ==> 0 <= lists[c][k] < |conf[c]|
  {
    if lists == [] then [] else
      var c := |lists| - 1;
      Gathered(lists[..c], conf) + ClassEntries(lists[c], c, conf)
  }

  lemma {:induction false} PickOfClass(s: seq<Entry>, list: seq<int>, c: nat)
    requires |s| == |list| && forall k :: 0 <= k < |s| ==> s[k].cls == c && s[k].idx == list[k]
    ensures Pick(s, c) == list
    ensures forall d: nat :: d != c ==> Pick(s, d) == []
  {
    if s != [] {
      PickOfClass(s[..|s| - 1], list[..|s| - 1], c);
    }
  }

  /** Picking a class out of the gathered list gives back that class's list. */
  lemma {:induction false} PickGathered(lists: seq<seq<int>>, conf: seq<seq<real>>, c: nat)
    requires |lists| <= |conf|
    requires forall c, k :: 0 <= c < |lists| && 0 <= k < |lists[c]| ==> 0 <= lists[c][k] < |conf[c]|
    ensures Pick(Gathered(lists, conf), c) == if c < |lists| then lists[c] else []
  {
    if lists != [] {
      var d := |lists| - 1;
      var last := ClassEntries(lists[d], d, conf);
      PickGathered(lists[..d], conf, c);
      PickConcat(Gathered(lists[..d], conf), last, c);
      PickOfClass(last, lists[d], d);
      if c < d {
        assert lists[..d][c] == lists[c];
      }
    }
  }

  lemma {:induction false} GatheredLabels(lists: seq<seq<int>>, conf: seq<seq<real>>, k: nat)
    requires |lists| <= |conf|
    requires forall c, k :: 0 <= c < |lists| && 0 <= k < |lists[c]| ==> 0 <= lists[c][k] < |conf[c]|
    requires k < |Gathered(lists, conf)|
    ensures var e := Gathered(lists, conf)[k];
      e.cls < |lists| && 0 <= e.idx < |conf[e.cls]| && e.conf == conf[e.cls][e.idx]
  {
    var d := |lists| - 1;
    var front := Gathered(lists[..d], conf);
    if k < |front| {
      GatheredLabels(lists[..d], conf, k);
    }
  }

  /** The entries that survive the cut, and the ones that do not. */
  ghost predicate IsCut(order: seq<Entry>, keep: nat, all: seq<Entry>) {
    multiset(order) == multiset(all) && Descending(order) && keep <= |order|
  }

  lemma LabelsOfSorted(order: seq<Entry>, lists: seq<seq<int>>, conf: seq<seq<real>>)
    requires |lists| <= |conf|
    requires forall c, k :: 0 <= c < |lists| && 0 <= k < |lists[c]| ==> 0 <= lists[c][k] < |conf[c]|
    requires multiset(order) == multiset(Gathered(lists, conf))
    ensures forall k :: 0 <= k < |order| ==> order[k].cls < |lists| && 0 <= order[k].idx < |conf[order[k].cls]|
    ensures forall k :: 0 <= k < |order| ==> order[k].conf == conf[order[k].cls][order[k].idx]
  {
    var all := Gathered(lists, conf);
    SameMembers(order, all);
    forall k | 0 <= k < |order|
      ensures order[k].cls < |lists| && 0 <= order[k].idx < |conf[order[k].cls]|
      ensures order[k].conf == conf[order[k].cls][order[k].idx]
    {
      assert order[k] in all;
      var m :| 0 <= m < |all| && all[m] == order[k];
      GatheredLabels(lists, conf, m);
    }
  }

  /** A class never gets more entries back than it had. */
  lemma ClassFits(order: seq<Entry>, j: nat, lists: seq<seq<int>>, conf: seq<seq<real>>, c: nat)
    requires |lists| <= |conf| && c < |lists| && j <= |order|
    requires forall c, k :: 0 <= c < |lists| && 0 <= k < |lists[c]| ==> 0 <= lists[c][k] < |conf[c]|
    requires multiset(order) == multiset(Gathered(lists, conf))
    ensures |Pick(order[..j], c)| <= |lists[c]|
    ensures multiset(Pick(order[..j], c)) <= multiset(lists[c])
  {
    PickPermutes(order, Gathered(lists, conf), c);
    PickGathered(lists, conf, c);
    assert order == order[..j] + order[j..];
    PickConcat(order[..j], order[j..], c);
    assert |multiset(Pick(order, c))| == |multiset(lists[c])|;
  }

  // ---------------------------------------------------------------- what the cut promises

  predicate Comes(s: seq<Entry>, c: nat, x: int) {
    exists m :: 0 <= m < |s| && s[m].cls == c && s[m].idx == x
  }

  lemma {:induction false} PickComes(s: seq<Entry>, c: nat, k: nat)
    requires k < |Pick(s, c)|
    ensures Comes(s, c, Pick(s, c)[k])
  {
    var front := s[..|s| - 1];
    if k < |Pick(front, c)| {
      PickComes(front, c, k);
      var m :| 0 <= m < |front| && front[m].cls == c && front[m].idx == Pick(front, c)[k];
      assert s[m] == front[m];
    } else {
      assert s[|s| - 1].idx == Pick(s, c)[k];
    }
  }

  lemma {:induction false} PickDescends(s: seq<Entry>, c: nat, score: int -> real)
    requires Descending(s) && forall k :: 0 <= k < |s| && s[k].cls == c ==> score(s[k].idx) == s[k].conf
    ensures forall a, b :: 0 <= a < b < |Pick(s, c)| ==> score(Pick(s, c)[a]) >= score(Pick(s, c)[b])
  {
    if s != [] {
      var front := s[..|s| - 1];
      PickDescends(front, c, score);
      forall k | 0 <= k < |Pick(s, c)|
        ensures score(Pick(s, c)[k]) >= s[|s| - 1].conf || s[|s| - 1].cls != c
      {
        PickComes(s, c, k);
        var m :| 0 <= m < |s| && s[m].cls == c && s[m].idx == Pick(s, c)[k];
      }
    }
  }

  lemma SubDistinct(a: seq<int>, b: seq<int>)
    requires multiset(a) <= multiset(b) && Distinct(b)
    ensures Distinct(a)
  {
    forall i, j | 0 <= i < j < |a|
      ensures a[i] != a[j]
    {
      if a[i] == a[j] {
        TwiceInMultiset(a, i, j);
        DistinctOnce(b, a[i]);
      }
    }
  }

  lemma TwiceInMultiset(a: seq<int>, i: nat, j: nat)
    requires i < j < |a| && a[i] == a[j]
    ensures multiset(a)[a[i]] >= 2
  {
    assert a == a[..i] + [a[i]] + a[i + 1..j] + [a[j]] + a[j + 1..];
  }

  lemma {:induction false} DistinctOnce(b: seq<int>, x: int)
    requires Distinct(b)
    ensures multiset(b)[x] <= 1
  {
    if b != [] {
      TailMultiset(b);
      DistinctOnce(b[1..], x);
      assert b[0] !in b[1..];
      assert multiset(b) == multiset{b[0]} + multiset(b[1..]);
    }
  }

  /**
   The cut: exactly `keep` detections remain, each class keeps part of its former list in order of
   confidence and without duplicates, and nothing dropped beats anything kept - for every tie order.
   */
  lemma CutMeaning(order: seq<Entry>, keep: nat, lists: seq<seq<int>>, conf: seq<seq<real>>, c: nat)
    requires |lists| <= |conf| && c < |lists|
    requires forall c, k :: 0 <= c < |lists| && 0 <= k < |lists[c]| ==> 0 <= lists[c][k] < |conf[c]|
    requires IsCut(order, keep, Gathered(lists, conf))
    ensures Total(order[..keep], |lists|) == keep
    ensures multiset(Pick(order[..keep], c)) <= multiset(lists[c])
    ensures Distinct(lists[c]) ==> Distinct(Pick(order[..keep], c))
    ensures forall k :: 0 <= k < |Pick(order[..keep], c)| ==> 0 <= Pick(order[..keep], c)[k] < |conf[c]|
    ensures forall a, b :: 0 <= a < b < |Pick(order[..keep], c)| ==>
      conf[c][Pick(order[..keep], c)[a]] >= conf[c][Pick(order[..keep], c)[b]]
    ensures forall a, b :: a in order[..keep] && b in order[keep..] ==> a.conf >= b.conf
  {
    LabelsOfSorted(order, lists, conf);
    TotalIsLength(order[..keep], |lists|);
    ClassFits(order, keep, lists, conf, c);
    if Distinct(lists[c]) {
      SubDistinct(Pick(order[..keep], c), lists[c]);
    }
    forall k | 0 <= k < |Pick(order[..keep], c)|
      ensures 0 <= Pick(order[..keep], c)[k] < |conf[c]|
    {
      PickComes(order[..keep], c, k);
    }
    PickDescends(order[..keep], c, (i: int) => if 0 <= i < |conf[c]| then conf[c][i] else 0.0);
  }

  // ---------------------------------------------------------------- the method

  method StoreBack(indices: array2<int>, detections: array<int>, order: seq<Entry>, keep: nat,
                   ghost lists: seq<seq<int>>, ghost conf: seq<seq<real>>)
    requires keep <= |order| && |lists| == |conf| == detections.Length == indices.Length0
    requires forall c, k :: 0 <= c < |lists| && 0 <= k < |lists[c]| ==> 0 <= lists[c][k] < |conf[c]|
    requires forall c :: 0 <= c < |lists| ==> |lists[c]| <= indices.Length1 && |conf[c]| == indices.Length1
    requires multiset(order) == multiset(Gathered(lists, conf))
    modifies indices, detections
    ensures Lists(indices, detections)
    ensures forall c: nat :: c < detections.Length ==> ClassList(indices, detections, c) == Pick(order[..keep], c)
  {
    LabelsOfSorted(order, lists, conf);
    for c := 0 to detections.Length
      invariant forall d :: 0 <= d < c ==> detections[d] == 0
    {
      detections[c] := 0;
    }
    for j := 0 to keep
      invariant forall c: nat :: c < detections.Length ==> detections[c] == |Pick(order[..j], c)|
      invariant forall c: nat, k :: c < detections.Length && 0 <= k < |Pick(order[..j], c)| && k < indices.Length1 ==>
        indices[c, k] == Pick(order[..j], c)[k]
    {
      var e := order[j];
      assert order[..j + 1] == order[..j] + [e];
      ghost var before := order[..j];
      forall c: nat | c < detections.Length
        ensures Pick(order[..j + 1], c) == Pick(before, c) + if e.cls == c then [e.idx] else []
      {
        PickConcat(before, [e], c);
        PickSingle(e, c);
      }
      ClassFits(order, j + 1, lists, conf, e.cls);
      indices[e.cls, detections[e.cls]] := e.idx;
      detections[e.cls] := detections[e.cls] + 1;
    }
    forall c: nat | c < detections.Length
      ensures |Pick(order[..keep], c)| <= indices.Length1
      ensures forall k :: 0 <= k < |Pick(order[..keep], c)| ==> 0 <= Pick(order[..keep], c)[k] < indices.Length1
    {
      ClassFits(order, keep, lists, conf, c);
      MembersBelow(Pick(order[..keep], c), lists[c], indices.Length1);
    }
  }

  lemma MembersBelow(a: seq<int>, b: seq<int>, n: int)
    requires multiset(a) <= multiset(b) && forall k :: 0 <= k < |b| ==> 0 <= b[k] < n
    ensures forall k :: 0 <= k < |a| ==> 0 <= a[k] < n
  {
    forall k | 0 <= k < |a|
      ensures 0 <= a[k] < n
    {
      assert a[k] in multiset(a);
      assert a[k] in multiset(b);
      assert a[k] in b;
    }
  }

  function SumTo(detections: seq<int>, n: nat): int
    requires n <= |detections|
  {
    if n == 0 then 0 else SumTo(detections, n - 1) + detections[n - 1]
  }

  /**
   The `keep_top_k` block for one image.  `order` is whatever the library sort made of the gathered
   entries; nothing is assumed about ties.
   */
  method Cut(indices: array2<int>, detections: array<int>, conf: seq<seq<real>>, keepTopK: int,
             order: seq<Entry>, ghost lists: seq<seq<int>>)
    returns (fired: bool)
    requires Lists(indices, detections) && |lists| == |conf| == detections.Length
    requires forall c: nat :: c < |lists| ==>
      lists[c] == ClassList(indices, detections, c) && |conf[c]| == indices.Length1
    requires forall c, k :: 0 <= c < |lists| && 0 <= k < |lists[c]| ==> 0 <= lists[c][k] < |conf[c]|
    requires multiset(order) == multiset(Gathered(lists, conf)) && Descending(order)
    modifies indices, detections
    ensures Lists(indices, detections)
    ensures fired == (-1 < keepTopK < |order|)
    ensures forall c: nat :: c < |lists| ==>
      ClassList(indices, detections, c) == if fired then Pick(order[..keepTopK], c) else lists[c]
  {
    var total := 0;
    for c := 0 to detections.Length
      invariant total == SumTo(detections[..], c)
    {
      total := total + detections[c];
    }
    GatheredLength(lists, conf, detections[..], detections.Length);
    SameMembers(order, Gathered(lists, conf));
    assert lists[..detections.Length] == lists;
    fired := -1 < keepTopK && total > keepTopK;
    if fired {
      StoreBack(indices, detections, order, keepTopK, lists, conf);
    }
  }

  lemma {:induction false} GatheredLength(lists: seq<seq<int>>, conf: seq<seq<real>>, detections: seq<int>, n: nat)
    requires |lists| <= |conf| && n <= |lists| == |detections|
    requires forall c, k :: 0 <= c < |lists| && 0 <= k < |lists[c]| ==> 0 <= lists[c][k] < |conf[c]|
    requires forall c :: 0 <= c < |lists| ==> detections[c] == |lists[c]|
    ensures |Gathered(lists[..n], conf)| == SumTo(detections, n)
  {
    if n > 0 {
      assert lists[..n][..n - 1] == lists[..n - 1];
      GatheredLength(lists, conf, detections, n - 1);
    }
  }
}
