/** Greedy CTC decoding: the best class of every step, repeats collapsed, blanks removed. */
module CtcGreedy {
  import opened Arithmetic

  // ---------------------------------------------------------------- what decoding means

  /** Runs of equal classes become one. */
  function Collapse(path: seq<int>): seq<int> {
    var n := |path|;
    if n == 0 then [] else
      Collapse(path[..n - 1]) + if n > 1 && path[n - 1] == path[n - 2] then [] else [path[n - 1]]
  }

  function WithoutBlank(s: seq<int>, blank: int): seq<int> {
    var n := |s|;
    if n == 0 then [] else WithoutBlank(s[..n - 1], blank) + if s[n - 1] == blank then [] else [s[n - 1]]
  }

  function Decode(path: seq<int>, blank: int): seq<int> {
    WithoutBlank(Collapse(path), blank)
  }

  lemma {:induction false} WithoutBlankConcat(s: seq<int>, t: seq<int>, blank: int)
    ensures WithoutBlank(s + t, blank) == WithoutBlank(s, blank) + WithoutBlank(t, blank)
  {
    if |t| == 0 {
      assert s + t == s;
    } else {
      WithoutBlankConcat(s, t[..|t| - 1], blank);
      assert (s + t)[..|s + t| - 1] == s + t[..|t| - 1];
    }
  }

  /** One more step appends its class, unless it is blank or repeats the step before. */
  lemma DecodeStep(path: seq<int>, c: int, blank: int)
    ensures Decode(path + [c], blank)
         == Decode(path, blank) + if c == blank || (|path| > 0 && path[|path| - 1] == c) then [] else [c]
  {
    assert (path + [c])[..|path|] == path;
    var last := if |path| > 0 && path[|path| - 1] == c then [] else [c];
    WithoutBlankConcat(Collapse(path), last, blank);
    assert [c][..0] == [];
  }

  lemma {:induction false} DecodeShorter(path: seq<int>, blank: int)
    ensures |Decode(path, blank)| <= |path| && blank !in Decode(path, blank)
  {
    if |path| > 0 {
      var n := |path| - 1;
      DecodeShorter(path[..n], blank);
      assert path[..n] + [path[n]] == path;
      DecodeStep(path[..n], path[n], blank);
    }
  }

  /** Every class sequence with a blank behind each class. */
  function Spell(labels: seq<int>, blank: int): seq<int> {
    var n := |labels|;
    if n == 0 then [] else Spell(labels[..n - 1], blank) + [labels[n - 1], blank]
  }

  lemma {:induction false} SpellEnds(labels: seq<int>, blank: int)
    ensures |labels| > 0 ==> |Spell(labels, blank)| > 0 && Spell(labels, blank)[|Spell(labels, blank)| - 1] == blank
  {}

  /** A class between blanks is decoded once. */
  lemma BetweenBlanks(path: seq<int>, c: int, blank: int)
    requires c != blank && (|path| > 0 ==> path[|path| - 1] == blank)
    ensures Decode(path + [c, blank], blank) == Decode(path, blank) + [c]
  {
    DecodeStep(path, c, blank);
    DecodeStep(path + [c], blank, blank);
    assert path + [c] + [blank] == path + [c, blank];
  }

  /** Any label sequence, repeats included, is what its spelling with blanks decodes to. */
  lemma {:induction false} SpelledBack(labels: seq<int>, blank: int)
    requires blank !in labels
    ensures Decode(Spell(labels, blank), blank) == labels
  {
    var n := |labels|;
    if n > 0 {
      var init, c := labels[..n - 1], labels[n - 1];
      SpelledBack(init, blank);
      SpellEnds(init, blank);
      BetweenBlanks(Spell(init, blank), c, blank);
      assert init + [c] == labels;
    }
  }

  lemma SameNext(a: seq<int>, b: seq<int>, c: int, blank: int)
    requires |a| > 0 && |b| > 0 && a[|a| - 1] == b[|b| - 1] && Decode(a, blank) == Decode(b, blank)
    ensures Decode(a + [c], blank) == Decode(b + [c], blank)
  {
    DecodeStep(a, c, blank);
    DecodeStep(b, c, blank);
  }

  /** Holding a class for another step does not change what is decoded. */
  lemma {:induction false} HeldStep(path: seq<int>, c: int, rest: seq<int>, blank: int)
    ensures Decode(path + [c, c] + rest, blank) == Decode(path + [c] + rest, blank)
  {
    if |rest| == 0 {
      DecodeStep(path + [c], c, blank);
      assert path + [c, c] + rest == path + [c] + [c] && path + [c] + rest == path + [c];
    } else {
      var n := |rest| - 1;
      HeldStep(path, c, rest[..n], blank);
      var a, b := path + [c, c] + rest[..n], path + [c] + rest[..n];
      SameNext(a, b, rest[n], blank);
      assert path + [c, c] + rest == a + [rest[n]];
      assert path + [c] + rest == b + [rest[n]];
    }
  }

  // ---------------------------------------------------------------- the best class of a step

  /** Index of the first maximum among the `n` values at `base`. */
  function FirstMax(p: seq<real>, base: nat, n: nat): (m: nat)
    requires n > 0 && base + n <= |p|
    ensures m < n
  {
    if n == 1 then 0 else
      var m := FirstMax(p, base, n - 1);
      if p[base + (n - 1)] > p[base + m] then n - 1 else m
  }

  lemma {:induction false} FirstMaxMeaning(p: seq<real>, base: nat, n: nat, c: nat)
    requires n > 0 && base + n <= |p| && c < n
    ensures var m := FirstMax(p, base, n); p[base + c] < p[base + m] || (p[base + c] == p[base + m] && m <= c)
  {
    if n > 1 {
      if c < n - 1 {
        FirstMaxMeaning(p, base, n - 1, c);
      }
    }
  }

  // ---------------------------------------------------------------- the layer

  /** Steps, batch items and classes; the last class is the blank. */
  datatype Dims = Dims(T: nat, N: nat, C: nat) {
    predicate Valid() {
      T > 0 && C > 0
    }

    predicate Fits(probs: seq<real>, indicators: seq<real>) {
      |probs| == T * N * C && |indicators| == T * N
    }

    lemma StepFits(t: nat, n: nat)
      requires t < T && n < N
      ensures 0 <= t * N && t * N + n < T * N && 0 <= (t * N + n) * C && (t * N + n) * C + C <= T * N * C
      ensures t * C * N + n * C == (t * N + n) * C
    {
      MulStrict(t, T, N);
      MulMonotone(0, t, N);
      MulStrict(t * N + n, T * N, if C == 0 then 1 else C);
      MulMonotone(0, t * N + n, C);
      Distribute(t * N, n, C);
      MulAssoc(t, C, N);
      MulAssoc(t, N, C);
    }

    /** The best class of item `n` at step `t`. */
    function Best(probs: seq<real>, n: nat, t: nat): nat
      requires Valid() && |probs| == T * N * C && n < N && t < T
    {
      StepFits(t, n);
      FirstMax(probs, (t * N + n) * C, C)
    }

    /** Steps `t` and later of item `n` that are decoded: up to the first zero indicator, or the end. */
    function Length(indicators: seq<real>, n: nat, t: nat): (l: nat)
      requires Valid() && |indicators| == T * N && n < N && t < T
      ensures t < l <= T
      decreases T - t
    {
      if t + 1 == T then t + 1 else
        StepFits(t + 1, n);
        if indicators[(t + 1) * N + n] == 0.0 then t + 1 else Length(indicators, n, t + 1)
    }

    function Path(probs: seq<real>, n: nat, l: nat): seq<int>
      requires Valid() && |probs| == T * N * C && n < N && l <= T
    {
      seq(l, t requires 0 <= t < l => Best(probs, n, t))
    }

    lemma PathMore(probs: seq<real>, n: nat, l: nat)
      requires Valid() && |probs| == T * N * C && n < N && l < T
      ensures Path(probs, n, l + 1) == Path(probs, n, l) + [Best(probs, n, l)]
    {}

    /** What item `n` decodes to. */
    function Decoded(probs: seq<real>, indicators: seq<real>, n: nat): seq<int>
      requires Valid() && Fits(probs, indicators) && n < N
    {
      Decode(Path(probs, n, Length(indicators, n, 0)), C - 1)
    }
  }

  /** The decoded steps are the longest prefix without a zero indicator behind its first step. */
  lemma {:induction false} LengthMeaning(d: Dims, indicators: seq<real>, n: nat, t: nat, u: nat)
    requires d.Valid() && |indicators| == d.T * d.N && n < d.N && t < d.T
    ensures var l := d.Length(indicators, n, t);
      && (t < u < l ==> u * d.N + n < |indicators| && u * d.N + n >= 0 && indicators[u * d.N + n] != 0.0)
      && (l < d.T ==> l * d.N + n < |indicators| && l * d.N + n >= 0 && indicators[l * d.N + n] == 0.0)
    decreases d.T - t
  {
    if t + 1 < d.T {
      d.StepFits(t + 1, n);
      if indicators[(t + 1) * d.N + n] != 0.0 {
        LengthMeaning(d, indicators, n, t + 1, u);
      }
    }
  }

  /** Entry `t` of an item's path is the first of its most probable classes at that step. */
  lemma PathMeaning(d: Dims, probs: seq<real>, n: nat, l: nat, t: nat, c: nat)
    requires d.Valid() && |probs| == d.T * d.N * d.C && n < d.N && t < l <= d.T && c < d.C
    ensures 0 <= d.Path(probs, n, l)[t] < d.C
    ensures 0 <= t * d.N * d.C + n * d.C && t * d.N * d.C + n * d.C + d.C <= |probs|
    ensures var base, m := t * d.N * d.C + n * d.C, d.Path(probs, n, l)[t];
      probs[base + c] < probs[base + m] || (probs[base + c] == probs[base + m] && m <= c)
  {
    d.StepFits(t, n);
    Distribute(t * d.N, n, d.C);
    FirstMaxMeaning(probs, (t * d.N + n) * d.C, d.C, c);
  }

  /** At every step the probabilities of item `n` have their only maximum at the class of this path. */
  ghost predicate Peaked(d: Dims, probs: seq<real>, n: nat, path: seq<int>) {
    forall t: nat, c: nat :: t < |path| && c < d.C && c != path[t] ==> Peak(d, probs, t, n, path[t], c)
  }

  ghost predicate Peak(d: Dims, probs: seq<real>, t: nat, n: nat, m: int, c: nat) {
    var base := t * d.N * d.C + n * d.C;
    && 0 <= m < d.C && c < d.C && 0 <= base && base + d.C <= |probs|
    && probs[base + c] < probs[base + m]
  }

  /** Then that is the path. */
  lemma PeakedPath(d: Dims, probs: seq<real>, n: nat, path: seq<int>)
    requires d.Valid() && |probs| == d.T * d.N * d.C && n < d.N && |path| <= d.T && Peaked(d, probs, n, path)
    requires forall t :: 0 <= t < |path| ==> 0 <= path[t] < d.C
    ensures d.Path(probs, n, |path|) == path
  {
    forall t: nat | t < |path|
      ensures d.Path(probs, n, |path|)[t] == path[t]
    {
      PathMeaning(d, probs, n, |path|, t, path[t]);
      var m := d.Path(probs, n, |path|)[t];
      assert m != path[t] ==> Peak(d, probs, t, n, path[t], m);
    }
  }

  /** The first `l` steps are decoded if only the indicator behind them is zero. */
  lemma {:induction false} LengthIs(d: Dims, indicators: seq<real>, n: nat, t: nat, l: nat)
    requires d.Valid() && |indicators| == d.T * d.N && n < d.N && t < l <= d.T
    requires forall u: nat :: t < u < l ==> Indicator(d, indicators, n, u) != 0.0
    requires l < d.T ==> Indicator(d, indicators, n, l) == 0.0
    ensures d.Length(indicators, n, t) == l
    decreases d.T - t
  {
    if t + 1 < d.T {
      d.StepFits(t + 1, n);
      assert Indicator(d, indicators, n, t + 1) == indicators[(t + 1) * d.N + n];
      if t + 1 < l {
        LengthIs(d, indicators, n, t + 1, l);
      }
    }
  }

  function Indicator(d: Dims, indicators: seq<real>, n: nat, t: nat): real {
    if 0 <= t * d.N + n < |indicators| then indicators[t * d.N + n] else 0.0
  }

  /** Probabilities that spell labels without blanks are read back as these labels, step after step. */
  lemma SpellingRead(d: Dims, probs: seq<real>, indicators: seq<real>, n: nat, labels: seq<int>)
    requires d.Valid() && d.Fits(probs, indicators) && n < d.N
    requires forall k :: 0 <= k < |labels| ==> 0 <= labels[k] < d.C - 1
    requires var path := Spell(labels, d.C - 1);
      && 0 < |path| <= d.T && Peaked(d, probs, n, path) && (forall t :: 0 <= t < |path| ==> 0 <= path[t] < d.C)
      && (forall u: nat :: 0 < u < |path| ==> Indicator(d, indicators, n, u) != 0.0)
      && (|path| < d.T ==> Indicator(d, indicators, n, |path|) == 0.0)
    ensures d.Decoded(probs, indicators, n) == labels
  {
    var path := Spell(labels, d.C - 1);
    LengthIs(d, indicators, n, 0, |path|);
    PeakedPath(d, probs, n, path);
    SpelledBack(labels, d.C - 1);
  }

  /** The slots of one item: the decoded classes from the left, then `-1`. */
  ghost predicate Slots(out: seq<int>, start: int, size: nat, decoded: seq<int>) {
    && 0 <= start && start + size <= |out| && |decoded| <= size
    && out[start..start + |decoded|] == decoded
    && forall k :: start + |decoded| <= k < start + size ==> out[k] == -1
  }

  method ArgMax(probs: array<real>, base: nat, C: nat) returns (m: nat)
    requires C > 0 && base + C <= probs.Length
    ensures m == FirstMax(probs[..], base, C)
  {
    m := 0;
    var max_prob := probs[base];
    for c := 1 to C
      invariant m == FirstMax(probs[..], base, c) && max_prob == probs[base + m]
    {
      if probs[base + c] > max_prob {
        m := c;
        max_prob := probs[base + c];
      }
    }
  }

  /** A decoded class goes into the next free slot. */
  lemma SlotStored(a: seq<int>, start: int, size: nat, decoded: seq<int>, c: int)
    requires Slots(a, start, size, decoded) && |decoded| < size
    ensures Slots(a[start + |decoded| := c], start, size, decoded + [c])
  {
    var b := a[start + |decoded| := c];
    assert b[start..start + |decoded| + 1] == a[start..start + |decoded|] + [c];
  }

  method BestClass(d: Dims, probs: array<real>, n: nat, t: nat) returns (m: nat)
    requires d.Valid() && probs.Length == d.T * d.N * d.C && n < d.N && t < d.T
    ensures m == d.Best(probs[..], n, t)
  {
    d.StepFits(t, n);
    m := ArgMax(probs, t * d.C * d.N + n * d.C, d.C);
  }

  /** Whether step `t` is the last one of item `n` to be decoded. */
  method IsLast(d: Dims, indicators: array<real>, n: nat, t: nat) returns (last: bool)
    requires d.Valid() && indicators.Length == d.T * d.N && n < d.N && t < d.T
    ensures if last then d.Length(indicators[..], n, t) == t + 1
            else t + 1 < d.T && d.Length(indicators[..], n, t) == d.Length(indicators[..], n, t + 1)
  {
    if t + 1 == d.T {
      return true;
    }
    d.StepFits(t + 1, n);
    last := indicators[(t + 1) * d.N + n] == 0.0;
  }

  /** One step: the best class is written unless it is blank or held. */
  method Step(d: Dims, probs: array<real>, out: array<int>, n: nat, t: nat, start: nat, prev_class_idx: int,
              output_index: nat, ghost path: seq<int>)
    returns (max_class_idx: nat, next_index: nat)
    requires d.Valid() && probs.Length == d.T * d.N * d.C && n < d.N && t < d.T && start + d.T <= out.Length
    requires |path| == t && prev_class_idx == (if t == 0 then -1 else path[t - 1])
    requires output_index == start + |Decode(path, d.C - 1)| && Slots(out[..], start, d.T, Decode(path, d.C - 1))
    modifies out
    ensures max_class_idx == d.Best(probs[..], n, t)
    ensures next_index == start + |Decode(path + [max_class_idx], d.C - 1)|
    ensures Slots(out[..], start, d.T, Decode(path + [max_class_idx], d.C - 1))
    ensures forall k :: 0 <= k < out.Length && !(start <= k < start + d.T) ==> out[k] == old(out[k])
  {
    max_class_idx := BestClass(d, probs, n, t);
    next_index := output_index;
    ghost var decoded := Decode(path, d.C - 1);
    DecodeStep(path, max_class_idx, d.C - 1);
    DecodeShorter(path, d.C - 1);
    if max_class_idx < d.C - 1 && max_class_idx != prev_class_idx {
      StoreClass(out, start, d.T, next_index, max_class_idx, decoded);
      next_index := next_index + 1;
    } else {
      assert decoded + [] == decoded;
    }
  }

  /** A decoded class goes to the next free slot. */
  method StoreClass(out: array<int>, start: nat, size: nat, index: nat, c: int, ghost decoded: seq<int>)
    requires Slots(out[..], start, size, decoded) && index == start + |decoded| < start + size
    modifies out
    ensures Slots(out[..], start, size, decoded + [c])
    ensures forall k :: 0 <= k < out.Length && k != index ==> out[k] == old(out[k])
  {
    SlotStored(out[..], start, size, decoded, c);
    out[index] := c;
  }

  /** One batch item, into its own `T` slots. */
  method DecodeItem(d: Dims, probs: array<real>, indicators: array<real>, out: array<int>, n: nat, start: nat)
    requires d.Valid() && d.Fits(probs[..], indicators[..]) && n < d.N && start + d.T <= out.Length
    requires forall k :: start <= k < start + d.T ==> out[k] == -1
    modifies out
    ensures Slots(out[..], start, d.T, d.Decoded(probs[..], indicators[..], n))
    ensures forall k :: 0 <= k < out.Length && !(start <= k < start + d.T) ==> out[k] == old(out[k])
  {
    var prev_class_idx: int := -1;
    var output_index := start;
    var t := 0;
    ghost var path: seq<int> := [];
    ghost var p, ind := probs[..], indicators[..];
    ghost var l := d.Length(ind, n, 0);
    while true
      invariant 0 <= t < l <= d.T && p == probs[..] && ind == indicators[..]
      invariant |path| == t && path == d.Path(p, n, t) && d.Length(ind, n, t) == l
      invariant prev_class_idx == if t == 0 then -1 else path[t - 1]
      invariant output_index == start + |Decode(path, d.C - 1)| && Slots(out[..], start, d.T, Decode(path, d.C - 1))
      invariant forall k :: 0 <= k < out.Length && !(start <= k < start + d.T) ==> out[k] == old(out[k])
      decreases d.T - t
    {
      prev_class_idx, output_index := Step(d, probs, out, n, t, start, prev_class_idx, output_index, path);
      d.PathMore(p, n, t);
      path := path + [prev_class_idx];
      var last := IsLast(d, indicators, n, t);
      if last {
        break;
      }
      t := t + 1;
    }
  }

  /** `execute`: every item holds its own decoding. */
  method Execute(d: Dims, probs: array<real>, indicators: array<real>, out: array<int>)
    requires d.Valid() && d.Fits(probs[..], indicators[..]) && out.Length == d.T * d.N
    modifies out
    ensures forall n: nat :: n < d.N ==> Slots(out[..], n * d.T, d.T, d.Decoded(probs[..], indicators[..], n))
  {
    for ii := 0 to out.Length
      invariant forall k :: 0 <= k < ii ==> out[k] == -1
    {
      out[ii] := -1;
    }
    ghost var p, ind := probs[..], indicators[..];
    for n := 0 to d.N
      invariant p == probs[..] && ind == indicators[..] && n * d.T >= 0
      invariant forall i: nat :: i < n ==> Slots(out[..], i * d.T, d.T, d.Decoded(p, ind, i))
      invariant forall k :: n * d.T <= k < out.Length ==> out[k] == -1
    {
      MulStrict(n, d.N, d.T);
      Distribute(n, 1, d.T);
      ghost var before := out[..];
      DecodeItem(d, probs, indicators, out, n, n * d.T);
      forall i: nat | i < n
        ensures Slots(out[..], i * d.T, d.T, d.Decoded(p, ind, i))
      {
        MulStrict(i, n, d.T);
        SlotsKept(before, out[..], i * d.T, d.T, d.Decoded(p, ind, i));
      }
    }
  }

  lemma SlotsKept(a: seq<int>, b: seq<int>, start: int, size: nat, decoded: seq<int>)
    requires Slots(a, start, size, decoded) && |a| == |b| && forall k :: start <= k < start + size ==> a[k] == b[k]
    ensures Slots(b, start, size, decoded)
  {
    assert b[start..start + |decoded|] == a[start..start + |decoded|];
  }
}
