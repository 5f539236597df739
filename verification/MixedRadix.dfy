/**
 Mixed-radix positional arithmetic: the mathematics behind the DFT reordering table.

 A list of radices `fs` gives every number below `Product(fs)` a list of digits, least
 significant first.  `DigitReverse(fs, i)` reads the digits of `i` in the opposite order.
 */
module MixedRadix {
  import opened Arithmetic

  type Radices = fs: seq<nat> | forall k :: 0 <= k < |fs| ==> fs[k] > 0

  function Product(fs: seq<nat>): nat {
    if fs == [] then 1 else fs[0] * Product(fs[1..])
  }

  /** The number whose digits, least significant first, are `ds`. */
  function Value(fs: seq<nat>, ds: seq<int>): int
    requires |fs| == |ds|
  {
    if fs == [] then 0 else ds[0] + fs[0] * Value(fs[1..], ds[1..])
  }

  /** The number obtained when the same digits are read with the most significant first. */
  function MirrorValue(fs: seq<nat>, ds: seq<int>): int
    requires |fs| == |ds|
  {
    if fs == [] then 0 else ds[0] * Product(fs[1..]) + MirrorValue(fs[1..], ds[1..])
  }

  predicate IsDigits(fs: seq<nat>, ds: seq<int>) {
    |fs| == |ds| && forall k :: 0 <= k < |fs| ==> 0 <= ds[k] < fs[k]
  }

  function DigitReverse(fs: Radices, i: nat): nat {
    if fs == [] then 0 else (i % fs[0]) * Product(fs[1..]) + DigitReverse(fs[1..], i / fs[0])
  }

  function Reverse<T>(s: seq<T>): (r: seq<T>)
    ensures |r| == |s|
    ensures forall k :: 0 <= k < |s| ==> r[k] == s[|s| - 1 - k]
  {
    if s == [] then [] else Reverse(s[1..]) + [s[0]]
  }

  // ---------------------------------------------------------------- products

  lemma {:induction false} ProductPositive(fs: Radices)
    ensures Product(fs) > 0
  {
    if fs != [] {
      ProductPositive(fs[1..]);
    }
  }

  lemma {:induction false} ProductConcat(fs: seq<nat>, gs: seq<nat>)
    ensures Product(fs + gs) == Product(fs) * Product(gs)
  {
    if fs == [] {
      assert fs + gs == gs;
    } else {
      assert (fs + gs)[1..] == fs[1..] + gs;
      ProductConcat(fs[1..], gs);
      assert fs[0] * (Product(fs[1..]) * Product(gs)) == (fs[0] * Product(fs[1..])) * Product(gs);
    }
  }

  lemma ProductSnoc(fs: seq<nat>, f: nat)
    ensures Product(fs + [f]) == Product(fs) * f
  {
    ProductConcat(fs, [f]);
    assert Product([f]) == f * Product([]);
  }

  lemma {:induction false} ProductReverse(fs: seq<nat>)
    ensures Product(Reverse(fs)) == Product(fs)
  {
    if fs != [] {
      ProductReverse(fs[1..]);
      ProductSnoc(Reverse(fs[1..]), fs[0]);
    }
  }

  // ---------------------------------------------------------------- digit lists

  /** Changing one digit shifts the value by the digit's change times its weight. */
  lemma {:induction false} ValueUpdate(fs: seq<nat>, ds: seq<int>, k: nat, v: int)
    requires |fs| == |ds| && k < |fs|
    ensures Value(fs, ds[k := v]) == Value(fs, ds) + (v - ds[k]) * Product(fs[..k])
  {
    if k == 0 {
      assert ds[0 := v][1..] == ds[1..];
      assert fs[..0] == [];
    } else {
      assert ds[k := v][1..] == ds[1..][k - 1 := v];
      ValueUpdate(fs[1..], ds[1..], k - 1, v);
      assert fs[..k][1..] == fs[1..][..k - 1];
      var w := (v - ds[k]) * Product(fs[1..][..k - 1]);
      Distribute(Value(fs[1..], ds[1..]), w, fs[0]);
      MulAssoc(fs[0], v - ds[k], Product(fs[1..][..k - 1]));
    }
  }

  lemma {:induction false} MirrorValueUpdate(fs: seq<nat>, ds: seq<int>, k: nat, v: int)
    requires |fs| == |ds| && k < |fs|
    ensures MirrorValue(fs, ds[k := v]) == MirrorValue(fs, ds) + (v - ds[k]) * Product(fs[k + 1..])
  {
    if k == 0 {
      assert ds[0 := v][1..] == ds[1..];
      assert v * Product(fs[1..]) == ds[0] * Product(fs[1..]) + (v - ds[0]) * Product(fs[1..]);
    } else {
      assert ds[k := v][1..] == ds[1..][k - 1 := v];
      MirrorValueUpdate(fs[1..], ds[1..], k - 1, v);
      assert fs[1..][k..] == fs[k + 1..];
    }
  }

  /** A digit that has reached its radix alone contributes the weight of the next position. */
  lemma {:induction false} ValueAtLeast(fs: seq<nat>, ds: seq<int>, k: nat)
    requires |fs| == |ds| && k < |fs|
    requires forall m :: 0 <= m < |ds| ==> ds[m] >= 0
    ensures Value(fs, ds) >= ds[k] * Product(fs[..k])
    ensures Value(fs, ds) >= 0
  {
    if k == 0 {
      assert fs[..0] == [];
      if |fs| > 1 {
        ValueAtLeast(fs[1..], ds[1..], 0);
      }
      assert fs[0] * Value(fs[1..], ds[1..]) >= 0;
    } else {
      ValueAtLeast(fs[1..], ds[1..], k - 1);
      assert fs[..k][1..] == fs[1..][..k - 1];
      var p := Product(fs[1..][..k - 1]);
      MulMonotone(ds[k] * p, Value(fs[1..], ds[1..]), fs[0]);
      MulMonotone(0, Value(fs[1..], ds[1..]), fs[0]);
      MulAssoc(fs[0], ds[k], p);
    }
  }

  lemma {:induction false} ZeroDigits(fs: seq<nat>, ds: seq<int>)
    requires |fs| == |ds| && forall k :: 0 <= k < |ds| ==> ds[k] == 0
    ensures Value(fs, ds) == 0 && MirrorValue(fs, ds) == 0
  {
    if fs != [] {
      ZeroDigits(fs[1..], ds[1..]);
    }
  }

  /** Digit reversal of a number is the mirrored reading of its digits. */
  lemma {:induction false} ReverseOfDigits(fs: Radices, ds: seq<int>)
    requires IsDigits(fs, ds)
    ensures 0 <= Value(fs, ds) < Product(fs)
    ensures DigitReverse(fs, Value(fs, ds)) == MirrorValue(fs, ds)
  {
    if fs != [] {
      ReverseOfDigits(fs[1..], ds[1..]);
      var q := Value(fs[1..], ds[1..]);
      DivModUnique(q, ds[0], fs[0]);
      assert fs[0] * q == q * fs[0];
      assert q * fs[0] + fs[0] <= Product(fs[1..]) * fs[0] by { MulStrict(q, Product(fs[1..]), fs[0]); }
    }
  }

  // ---------------------------------------------------------------- digit reversal

  lemma {:induction false} ReverseBound(fs: Radices, i: nat)
    ensures DigitReverse(fs, i) < Product(fs)
  {
    if fs != [] {
      ReverseBound(fs[1..], i / fs[0]);
      MulStrict(i % fs[0], fs[0], Product(fs[1..]));
    }
  }

  lemma {:induction false} ReverseZero(fs: Radices)
    ensures DigitReverse(fs, 0) == 0
  {
    if fs != [] {
      ReverseZero(fs[1..]);
    }
  }

  /** Reversal over a concatenated radix list: the low block moves up, the high block down. */
  lemma {:induction false} ReverseConcat(fs: Radices, gs: Radices, x: nat, lo: nat, hi: nat)
    requires lo < Product(fs) && x == lo + Product(fs) * hi
    ensures DigitReverse(fs + gs, x) == DigitReverse(fs, lo) * Product(gs) + DigitReverse(gs, hi)
  {
    if fs == [] {
      assert fs + gs == gs;
    } else {
      var f, rest := fs[0], fs[1..];
      assert (fs + gs)[1..] == rest + gs;
      SplitIndex(f, Product(rest), lo, hi);
      ReverseConcat(rest, gs, x / f, lo / f, hi);
      ProductConcat(rest, gs);
      Regroup(lo % f, Product(rest), Product(gs), DigitReverse(rest, lo / f));
    }
  }

  lemma Regroup(a: int, p: int, q: int, t: int)
    ensures a * (p * q) + t * q == (a * p + t) * q
  {
    MulAssoc(a, p, q);
  }

  lemma SplitIndex(f: nat, p: nat, lo: nat, hi: nat)
    requires f > 0 && lo < f * p
    ensures lo / f < p
    ensures 0 <= lo + (f * p) * hi
    ensures (lo + (f * p) * hi) % f == lo % f
    ensures (lo + (f * p) * hi) / f == lo / f + p * hi
  {
    DivLess(lo, f, p);
    var next := lo / f + p * hi;
    MulAssoc(f, p, hi);
    Distribute(lo / f, p * hi, f);
    Recompose(lo, f);
    DivModUnique(next, lo % f, f);
  }

  /** Reversing with the radices listed backwards undoes the reversal. */
  lemma {:induction false} ReverseInverse(fs: Radices, i: nat)
    requires i < Product(fs)
    ensures DigitReverse(Reverse(fs), DigitReverse(fs, i)) == i
  {
    if fs != [] {
      var f, rest := fs[0], fs[1..];
      var hi, lo := i % f, DigitReverse(rest, i / f);
      DivLess(i, f, Product(rest));
      ReverseInverse(rest, i / f);
      ReverseBound(rest, i / f);
      ProductReverse(rest);
      ReverseSnoc(Reverse(rest), f, DigitReverse(fs, i), lo, hi);
      Recompose(i, f);
    }
  }

  lemma ReverseSnoc(gs: Radices, f: nat, y: nat, lo: nat, hi: nat)
    requires lo < Product(gs) && hi < f
    requires y == hi * Product(gs) + lo
    ensures DigitReverse(gs + [f], y) == DigitReverse(gs, lo) * f + hi
  {
    ReverseConcat(gs, [f], y, lo, hi);
    SingleRadix(f, hi);
  }

  lemma SingleRadix(f: nat, i: nat)
    requires f > 0 && i < f
    ensures Product([f]) == f && DigitReverse([f], i) == i
  {
    assert Product([f]) == f * Product([]);
    assert DigitReverse([f], i) == (i % f) * Product([]) + DigitReverse([], i / f);
  }

  /** Hence reversal is a permutation of 0 .. Product(fs) - 1. */
  lemma ReverseInjective(fs: Radices, i: nat, j: nat)
    requires i < Product(fs) && j < Product(fs)
    requires DigitReverse(fs, i) == DigitReverse(fs, j)
    ensures i == j
  {
    ReverseInverse(fs, i);
    ReverseInverse(fs, j);
  }

  lemma {:induction false} ReverseReverse<T>(s: seq<T>)
    ensures Reverse(Reverse(s)) == s
  {
    assert forall k :: 0 <= k < |s| ==> Reverse(Reverse(s))[k] == s[k];
  }

  /** Every number below the product is hit, by the reversal over the backward list. */
  lemma ReverseSurjective(fs: Radices, j: nat)
    requires j < Product(fs)
    ensures DigitReverse(Reverse(fs), j) < Product(fs)
    ensures DigitReverse(fs, DigitReverse(Reverse(fs), j)) == j
  {
    ProductReverse(fs);
    ReverseBound(Reverse(fs), j);
    ReverseReverse(fs);
    ReverseInverse(Reverse(fs), j);
  }

  // ---------------------------------------------------------------- powers of two

  function Twos(m: nat): (fs: Radices)
    ensures |fs| == m && forall k :: 0 <= k < m ==> fs[k] == 2
  {
    seq(m, _ => 2)
  }

  function Pow2(m: nat): (p: nat)
    ensures p > 0
  {
    if m == 0 then 1 else 2 * Pow2(m - 1)
  }

  lemma {:induction false} ProductTwos(m: nat)
    ensures Product(Twos(m)) == Pow2(m)
  {
    if m > 0 {
      assert Twos(m)[1..] == Twos(m - 1);
      ProductTwos(m - 1);
    }
  }

  lemma TwosConcat(a: nat, b: nat)
    ensures Twos(a) + Twos(b) == Twos(a + b)
    ensures Pow2(a) * Pow2(b) == Pow2(a + b)
  {
    assert Twos(a) + Twos(b) == Twos(a + b);
    ProductConcat(Twos(a), Twos(b));
    ProductTwos(a);
    ProductTwos(b);
    ProductTwos(a + b);
  }

  /** Bit reversal of an `m`-bit number. */
  function BitReverse(m: nat, x: nat): nat {
    DigitReverse(Twos(m), x)
  }

  lemma BitReverseStep(m: nat, x: nat)
    requires m > 0
    ensures BitReverse(m, x) == (x % 2) * Pow2(m - 1) + BitReverse(m - 1, x / 2)
  {
    assert Twos(m)[1..] == Twos(m - 1);
    ProductTwos(m - 1);
  }

  /** Splitting an `a + b`-bit number: the low `a` bits end up on top. */
  lemma BitReverseSplit(a: nat, b: nat, x: nat, lo: nat, hi: nat)
    requires lo < Pow2(a) && x == lo + Pow2(a) * hi
    ensures BitReverse(a + b, x) == BitReverse(a, lo) * Pow2(b) + BitReverse(b, hi)
  {
    ProductTwos(a);
    ProductTwos(b);
    TwosConcat(a, b);
    ReverseConcat(Twos(a), Twos(b), x, lo, hi);
  }

  /** Shifting a longer reversal right drops the zero bits that came from above. */
  lemma BitReverseShift(a: nat, b: nat, x: nat)
    requires x < Pow2(a)
    ensures Pow2(b) > 0
    ensures BitReverse(a + b, x) / Pow2(b) == BitReverse(a, x)
  {
    BitReverseSplit(a, b, x, x, 0);
    ReverseZero(Twos(b));
    ProductTwos(b);
    ProductPositive(Twos(b));
    DivModUnique(BitReverse(a, x), 0, Pow2(b));
  }

  /** A list that reads the same backwards makes reversal its own inverse. */
  lemma PalindromeInvolution(fs: Radices, i: nat)
    requires i < Product(fs) && Reverse(fs) == fs
    ensures DigitReverse(fs, DigitReverse(fs, i)) == i
  {
    ReverseInverse(fs, i);
  }

  /** Reading the digits of a number with the most significant first, written out for three radices. */
  lemma ThreeRadices(a: nat, b: nat, c: nat, d: nat, e: nat, f: nat, q: nat)
    requires d < a && e < b && f < c && q == e + b * f
    ensures DigitReverse([a, b, c], d + a * q) == d * (b * c) + (e * c + f)
  {
    TwoRadices(b, c, e, f);
    BeforeTwo(a, b, c, d, q, e * c + f);
  }

  lemma BeforeTwo(a: nat, b: nat, c: nat, d: nat, q: nat, rest: nat)
    requires d < a && b > 0 && c > 0 && rest == DigitReverse([b, c], q)
    ensures DigitReverse([a, b, c], d + a * q) == d * (b * c) + rest
  {
    assert [a, b, c][1..] == [b, c];
    TwoFactors(b, c);
    FirstDigit([a, b, c], d, q, b * c, rest);
  }

  /** The lowest digit moves to the front. */
  lemma FirstDigit(fs: Radices, d: nat, q: nat, weight: nat, rest: nat)
    requires |fs| > 0 && d < fs[0] && weight == Product(fs[1..]) && rest == DigitReverse(fs[1..], q)
    ensures DigitReverse(fs, d + fs[0] * q) == d * weight + rest
  {
    DivModUnique(q, d, fs[0]);
  }

  lemma TwoFactors(b: nat, c: nat)
    ensures Product([b, c]) == b * c
  {
    assert [b, c][1..] == [c] && [c][1..] == [];
    assert Product([c]) == c * Product([]);
  }

  lemma TwoRadices(a: nat, b: nat, d: nat, e: nat)
    requires d < a && e < b
    ensures DigitReverse([a, b], d + a * e) == d * b + e
  {
    assert [a, b][1..] == [b] && [b][1..] == [];
    DivModUnique(e, d, a);
    DivModUnique(0, e, b);
    assert Product([b]) == b * Product([]);
    assert DigitReverse([b], e) == e;
  }
}
