/**
 `DFTFactorize` of the KCF tracker: the transform length is split into its largest power of
 two, followed by its odd prime factors in non-increasing order.
 */
module DftFactorize {
  import opened Arithmetic
  import opened MixedRadix

  const INT_LIMIT := 0x8000_0000
  const MAX_FACTORS := 34

  predicate Divides(d: nat, n: nat)
    requires d > 0
  {
    n % d == 0
  }

  ghost predicate IsPrime(p: nat) {
    p >= 2 && forall d: nat :: 2 <= d < p ==> !Divides(d, p)
  }

  ghost predicate IsOddPrime(p: nat) {
    IsPrime(p) && p % 2 == 1
  }

  predicate NonIncreasing(s: seq<nat>) {
    forall i, j :: 0 <= i < j < |s| ==> s[i] >= s[j]
  }

  ghost predicate OddPrimesDescending(s: seq<nat>) {
    NonIncreasing(s) && forall k :: 0 <= k < |s| ==> IsOddPrime(s[k])
  }

  /** The largest power of two that divides `n`. */
  function TwoPart(n: nat): (t: nat)
    requires n >= 1
    ensures 1 <= t <= n
  {
    if n % 2 == 1 then 1 else 2 * TwoPart(n / 2)
  }

  /** Bitwise exclusive or of two non-negative integers. */
  function Xor(a: nat, b: nat): nat {
    if a == 0 && b == 0 then 0 else (a % 2 + b % 2) % 2 + 2 * Xor(a / 2, b / 2)
  }

  /** What a factor list for a transform of length `n` looks like. */
  ghost predicate IsPlan(n: nat, fs: seq<nat>) {
    && |fs| >= 1
    && Product(fs) == n
    && (n <= 5 ==> fs == [n])
    && (n > 5 ==> if n % 2 == 0 then fs[0] == TwoPart(n) && OddPrimesDescending(fs[1..])
                  else OddPrimesDescending(fs))
  }

  lemma {:induction false} TwoPartDivides(n: nat)
    requires n >= 1
    ensures n % TwoPart(n) == 0 && (n / TwoPart(n)) % 2 == 1
  {
    if n % 2 == 0 {
      TwoPartDivides(n / 2);
      var t := TwoPart(n / 2);
      var q := n / 2 / t;
      DivModExact(n / 2, t);
      assert n == q * (2 * t) by { MulAssoc(2, q, t); }
      DivModUnique(q, 0, 2 * t);
    } else {
      DivModUnique(n, 0, 1);
    }
  }

  lemma DivModExact(n: nat, d: nat)
    requires d > 0 && n % d == 0
    ensures n == (n / d) * d
  {}

  /** The bit trick of the source isolates the lowest set bit. */
  lemma {:induction false} LowestBit(n: nat)
    requires n >= 1
    ensures (Xor(n - 1, n) + 1) / 2 == TwoPart(n)
    ensures Xor(n - 1, n) % 2 == 1
  {
    if n % 2 == 1 {
      assert (n - 1) / 2 == n / 2;
      XorSelf(n / 2);
    } else {
      assert (n - 1) / 2 == n / 2 - 1;
      LowestBit(n / 2);
    }
  }

  /** In 32 bits the trick works for every length but one: the sum overflows exactly at the thirtieth power of two. */
  lemma LowestBitFits(n: nat)
    requires 1 <= n < INT_LIMIT
    ensures Xor(n - 1, n) + 1 < INT_LIMIT <==> n != Pow2(30)
  {
    Pow2Of31();
    LowestBit(n);
    TwoPartBelow(n, 30);
  }

  lemma {:induction false} TwoPartBelow(n: nat, k: nat)
    requires 1 <= n < Pow2(k + 1)
    ensures TwoPart(n) < Pow2(k) <==> n != Pow2(k)
  {
    if k > 0 && n % 2 == 0 {
      TwoPartBelow(n / 2, k - 1);
    }
  }

  lemma {:induction false} XorSelf(a: nat)
    ensures Xor(a, a) == 0
  {
    if a > 0 {
      XorSelf(a / 2);
    }
  }

  // ---------------------------------------------------------------- divisors

  /** No odd number from 3 up to `f` (exclusive) divides `n`, and `n` is odd. */
  ghost predicate NoDivisorBelow(n: nat, f: nat) {
    n % 2 == 1 && forall d: nat :: 3 <= d < f && d % 2 == 1 ==> !Divides(d, n)
  }

  lemma DividesTrans(d: nat, m: nat, q: nat)
    requires d > 0 && Divides(d, m)
    ensures Divides(d, q * m)
  {
    var k := m / d;
    assert m == k * d;
    MulAssoc(q, k, d);
    DivModUnique(q * k, 0, d);
  }

  lemma OddFactor(n: nat, f: nat, d: nat)
    requires n == d * f && n % 2 == 1
    ensures d % 2 == 1 && f % 2 == 1
  {
    if d % 2 == 0 {
      DividesTrans(2, d, f);
    }
    if f % 2 == 0 {
      DividesTrans(2, f, d);
    }
  }

  lemma DivisorsOfFactor(n: nat, f: nat, d: nat, e: nat)
    requires n == d * f && e > 0 && Divides(e, f)
    ensures Divides(e, n)
  {
    DividesTrans(e, f, d);
  }

  /** The smallest admissible divisor is prime. */
  lemma SmallestIsPrime(n: nat, f: nat, d: nat)
    requires n == d * f && f >= 3 && NoDivisorBelow(n, f)
    ensures IsOddPrime(f)
  {
    OddFactor(n, f, d);
    forall e | 2 <= e < f
      ensures !Divides(e, f)
    {
      if Divides(e, f) {
        DivisorsOfFactor(n, f, d, e);
        DivModExact(f, e);
        OddFactor(f, e, f / e);
      }
    }
  }

  /** Dividing a factor out creates no new divisor. */
  lemma QuotientKeepsBound(n: nat, f: nat, d: nat)
    requires n == d * f && NoDivisorBelow(n, f)
    ensures NoDivisorBelow(d, f)
  {
    OddFactor(n, f, d);
    forall e | 3 <= e < f && e % 2 == 1
      ensures !Divides(e, d)
    {
      if Divides(e, d) {
        DivisorsOfFactor(n, d, f, e);
      }
    }
  }

  /** Trial division may stop at the square root. */
  lemma NoSmallDivisorPrime(n: nat, f: nat)
    requires n > 1 && f >= 3 && NoDivisorBelow(n, f) && f * f > n
    ensures IsOddPrime(n)
  {
    forall d | 2 <= d < n
      ensures !Divides(d, n)
    {
      if Divides(d, n) {
        DivModExact(n, d);
        var g := SmallerFactor(n, f, d, n / d);
      }
    }
  }

  /** Of two factors one is below the bound. */
  lemma SmallerFactor(n: nat, f: nat, d: nat, e: nat) returns (g: nat)
    requires f * f > n && n % 2 == 1 && n == e * d && 2 <= d < n
    ensures 3 <= g < f && g % 2 == 1 && Divides(g, n)
  {
    OddFactor(n, d, e);
    NotOne(n, d, e);
    if d < f {
      g := d;
      IsDivisor(n, d, e);
    } else {
      g := e;
      OneIsSmall(n, f, d, e);
      IsDivisor(n, e, d);
    }
  }

  lemma IsDivisor(n: nat, d: nat, e: nat)
    requires d > 0 && n == e * d
    ensures Divides(d, n)
  {
    DivModUnique(e, 0, d);
  }

  lemma OneIsSmall(n: nat, f: nat, d: nat, e: nat)
    requires f * f > n == e * d && d >= f
    ensures e < f
  {
    if e >= f {
      MulMonotone(f, e, f);
      MulMonotone(f, d, e);
    }
  }

  lemma NotOne(n: nat, d: nat, e: nat)
    requires n == e * d && d < n
    ensures e >= 2
  {
    if e <= 1 {
      MulMonotone(e, 1, d);
    }
  }

  lemma AtLeastBound(n: nat, f: nat)
    requires n > 1 && NoDivisorBelow(n, f)
    ensures n >= f
  {
    DivModUnique(1, 0, n);
    assert Divides(n, n);
  }

  /** Thirty-four slots are enough: every factor is at least two. */
  lemma {:induction false} FewFactors(fs: seq<nat>)
    requires forall k :: 0 <= k < |fs| ==> fs[k] >= 2
    ensures Product(fs) >= Pow2(|fs|)
  {
    if fs != [] {
      FewFactors(fs[1..]);
      MulMonotone(Pow2(|fs| - 1), Product(fs[1..]), fs[0]);
      MulMonotone(2, fs[0], Pow2(|fs| - 1));
    }
  }

  lemma {:induction false} Pow2Monotone(a: nat, b: nat)
    requires a <= b
    ensures Pow2(a) <= Pow2(b)
    decreases b
  {
    if a < b {
      Pow2Monotone(a, b - 1);
    }
  }

  lemma CountBound(fs: seq<nat>)
    requires forall k :: 0 <= k < |fs| ==> fs[k] >= 2
    requires Product(fs) < INT_LIMIT
    ensures |fs| <= 30
  {
    FewFactors(fs);
    if |fs| >= 31 {
      Pow2Monotone(31, |fs|);
      Pow2Of31();
    }
  }

  lemma Pow2Of31()
    ensures Pow2(31) == INT_LIMIT
  {
    assert Pow2(8) == 256;
    TwosConcat(8, 8);
    TwosConcat(16, 8);
    assert Pow2(7) == 128;
    TwosConcat(24, 7);
  }

  // ---------------------------------------------------------------- squares in 32 bits

  /** The largest odd number whose square, and that of no larger odd number, is below 2^31. */
  const ROOT := 46339

  /** The square of `f` is a 32-bit integer. */
  predicate Narrow(f: nat) {
    f * f < INT_LIMIT
  }

  /** How far the candidates can be at rest `n`: their squares were at most the rest they were tried on. */
  ghost predicate Paced(n0: nat, split: bool, n: nat, f: nat) {
    && (!split ==> n == n0 && (f == 3 || f * f <= n))
    && (split ==> 2 * n <= n0 && !IsOddPrime(n0) && (f == 3 || f * f <= n || f * n <= n0))
  }

  lemma PacedSplit(n0: nat, split: bool, n: nat, f: nat, d: nat)
    requires Paced(n0, split, n, f) && n0 > 5 && f >= 3 && n == d * f && n <= n0
    ensures Paced(n0, true, d, f)
  {
    MulMonotone(2, f, d);
    if !split {
      DivModUnique(d, 0, f);
      if f >= n {
        MulStrict(1, f, f);
      }
      assert Divides(f, n0) && f < n0;
    }
  }

  lemma SquareStep(f: nat, n: nat)
    requires f * f <= n && f % 2 == 1
    ensures n < INT_LIMIT ==> f <= ROOT
    ensures f < ROOT ==> (f + 2) * (f + 2) <= ROOT * ROOT < INT_LIMIT
  {
    if f >= ROOT + 2 {
      MulMonotone(ROOT + 2, f, f);
      MulMonotone(ROOT + 2, f, ROOT + 2);
    }
    if f < ROOT {
      MulMonotone(f + 2, ROOT, f + 2);
      MulMonotone(f + 2, ROOT, ROOT);
    }
  }

  /** What comes after `ROOT` is divisible by three. */
  lemma TimesRoot(n: nat)
    requires n > ROOT && NoDivisorBelow(n, ROOT + 2)
    ensures ROOT * n >= INT_LIMIT
  {
    assert n != ROOT + 2 by {
      assert Divides(3, ROOT + 2);
    }
    MulMonotone(ROOT + 4, n, ROOT);
  }

  /** After a factor has gone, no square overflows any more. */
  lemma NarrowAfterSplit(n0: nat, n: nat, f: nat)
    requires n0 < INT_LIMIT && Paced(n0, true, n, f) && f % 2 == 1 && NoDivisorBelow(n, f + 2) && f < n
    ensures Narrow(f + 2)
  {
    if f > 3 && f * f <= n {
      SquareStep(f, n);
    } else if f > 3 {
      assert n >= f + 2;
      MulMonotone(f, n, f);
      SquareStep(f, n0);
      if n > ROOT && NoDivisorBelow(n, ROOT + 2) {
        TimesRoot(n);
      }
    }
  }

  /** The square that stops the loop leaves 32 bits exactly for the primes above the square of `ROOT`. */
  lemma LastSquare(n0: nat, split: bool, n: nat, f: nat)
    requires 5 < n0 < INT_LIMIT && Paced(n0, split, n, f) && f >= 3 && f % 2 == 1
    requires NoDivisorBelow(n, f + 2) && f < n < (f + 2) * (f + 2)
    ensures !Narrow(f + 2) <==> IsOddPrime(n0) && n0 > ROOT * ROOT
  {
    if split {
      NarrowAfterSplit(n0, n, f);
    } else if f > 3 {
      SquareStep(f, n);
      NoSmallDivisorPrime(n, f + 2);
      if f == ROOT {
        DivModUnique(ROOT, 0, ROOT);
        assert !Divides(ROOT, n);
      }
    }
  }

  lemma NextPaced(n0: nat, split: bool, n: nat, f: nat)
    requires 5 < n0 < INT_LIMIT && Paced(n0, split, n, f) && 3 <= f < n <= n0 && f % 2 == 1 && NoDivisorBelow(n, f + 2)
    ensures if (f + 2) * (f + 2) <= n then Paced(n0, split, n, f + 2) && Narrow(f + 2)
            else !Narrow(f + 2) <==> IsOddPrime(n0) && n0 > ROOT * ROOT
  {
    if (f + 2) * (f + 2) > n {
      LastSquare(n0, split, n, f);
    }
  }

  // ---------------------------------------------------------------- the method

  ghost predicate OddPrimesAscending(s: seq<nat>, bound: nat) {
    && (forall i, j :: 0 <= i < j < |s| ==> s[i] <= s[j])
    && (forall k :: 0 <= k < |s| ==> IsOddPrime(s[k]) && s[k] <= bound)
  }

  /** The state of trial division: `factors[s..nf]` found so far, `n` still to be split. */
  ghost predicate Splitting(n0: nat, fs: seq<nat>, s: nat, n: nat, f: nat) {
    && s <= 1 && s <= |fs| && n >= 1 && f >= 3 && f % 2 == 1
    && Product(fs) * n == n0 && n0 >= 1
    && (s == 1 <==> n0 % 2 == 0)
    && (s == 1 ==> fs[0] == TwoPart(n0))
    && OddPrimesAscending(fs[s..], f)
    && NoDivisorBelow(n, f)
  }

  /** Trial division is over: the list multiplies up to `n0`, odd primes ascending from `s` on. */
  ghost predicate Split(n0: nat, fs: seq<nat>, s: nat) {
    && n0 >= 1 && s <= 1 && s <= |fs| && |fs| >= 1
    && Product(fs) == n0
    && (s == 1 <==> n0 % 2 == 0)
    && (s == 1 ==> fs[0] == TwoPart(n0))
    && exists bound :: OddPrimesAscending(fs[s..], bound)
  }

  lemma RestBelow(n0: nat, fs: seq<nat>, s: nat, n: nat, f: nat)
    requires Splitting(n0, fs, s, n, f)
    ensures n <= n0
  {
    if Product(fs) >= 1 {
      MulMonotone(1, Product(fs), n);
    }
  }

  lemma SplitOff(n0: nat, fs: seq<nat>, s: nat, n: nat, f: nat, d: nat)
    requires n0 > 5 && Splitting(n0, fs, s, n, f) && Paced(n0, |fs| > 0, n, f) && d * f == n
    ensures Splitting(n0, fs + [f], s, d, f) && Paced(n0, true, d, f)
    ensures d < n
  {
    RestBelow(n0, fs, s, n, f);
    PacedSplit(n0, |fs| > 0, n, f, d);
    MulMonotone(3, f, d);
    SmallestIsPrime(n, f, d);
    QuotientKeepsBound(n, f, d);
    ProductSnoc(fs, f);
    MulAssoc(Product(fs), f, d);
    assert (fs + [f])[s..] == fs[s..] + [f];
  }

  lemma SplitStart(n0: nat, f: nat, fs: seq<nat>, n: nat)
    requires n0 > 5 && f == TwoPart(n0)
    requires fs == if f > 1 then [f] else []
    requires n == if f > 1 then (if f == n0 then 1 else n0 / f) else n0
    ensures Splitting(n0, fs, |fs|, n, 3)
  {
    TwoPartDivides(n0);
    DivModExact(n0, f);
    assert Product([f]) == f * Product([]);
    if f == n0 {
      DivModUnique(1, 0, f);
    }
  }

  lemma NextCandidate(n0: nat, fs: seq<nat>, s: nat, n: nat, f: nat)
    requires 5 < n0 < INT_LIMIT && Splitting(n0, fs, s, n, f) && Paced(n0, |fs| > 0, n, f)
    requires n > 1 && (n / f) * f != n
    ensures Splitting(n0, fs, s, n, f + 2)
    ensures n > f
    ensures if (f + 2) * (f + 2) <= n then Paced(n0, |fs| > 0, n, f + 2) && Narrow(f + 2)
            else !Narrow(f + 2) <==> IsOddPrime(n0) && n0 > ROOT * ROOT
  {
    NotAFactor(n0, fs, s, n, f);
    RestBelow(n0, fs, s, n, f);
    NextPaced(n0, |fs| > 0, n, f);
  }

  lemma NotAFactor(n0: nat, fs: seq<nat>, s: nat, n: nat, f: nat)
    requires Splitting(n0, fs, s, n, f) && n > 1 && (n / f) * f != n
    ensures Splitting(n0, fs, s, n, f + 2)
    ensures n > f
  {
    AtLeastBound(n, f);
    if Divides(f, n) {
      DivModExact(n, f);
    }
    if n == f {
      DivModUnique(1, 0, n);
    }
    forall d | 3 <= d < f + 2 && d % 2 == 1
      ensures !Divides(d, n)
    {
      assert d < f || d == f;
    }
  }

  lemma SplitRest(n0: nat, fs: seq<nat>, s: nat, n: nat, f: nat)
    requires Splitting(n0, fs, s, n, f) && n > 1 && f * f > n
    ensures Split(n0, fs + [n], s)
  {
    NoSmallDivisorPrime(n, f);
    AtLeastBound(n, f);
    ProductSnoc(fs, n);
    assert (fs + [n])[s..] == fs[s..] + [n];
    assert OddPrimesAscending((fs + [n])[s..], n);
  }

  lemma SplitDone(n0: nat, fs: seq<nat>, s: nat, f: nat)
    requires Splitting(n0, fs, s, 1, f) && n0 > 1
    ensures Split(n0, fs, s)
  {
    assert fs != [];
  }

  /** The parity test on the first factor finds out where the odd factors begin. */
  lemma FirstIsPowerOfTwo(n0: nat, fs: seq<nat>, s: nat)
    requires Split(n0, fs, s)
    ensures s == if fs[0] % 2 == 0 then 1 else 0
  {
    if s == 0 {
      assert fs[0] == fs[s..][0];
    } else {
      EvenTwoPart(n0);
    }
  }

  lemma TooFewToOverflow(n0: nat, fs: seq<nat>, s: nat, n: nat, f: nat)
    requires Splitting(n0, fs, s, n, f) && 1 < n && n0 < INT_LIMIT
    requires n0 > 5
    ensures |fs| <= 30
  {
    assert forall k :: s <= k < |fs| ==> fs[k] == fs[s..][k - s];
    if s == 1 {
      TwoPartDivides(n0);
    }
    MulMonotone(1, n, Product(fs));
    assert Product(fs) < INT_LIMIT;
    CountBound(fs);
  }

  lemma ReversedIsPlan(n0: nat, fs: seq<nat>, s: nat)
    requires n0 > 5 && Split(n0, fs, s)
    ensures IsPlan(n0, fs[..s] + Reverse(fs[s..]))
  {
    var gs := fs[..s] + Reverse(fs[s..]);
    assert Product(gs) == n0 by {
      ProductConcat(fs[..s], Reverse(fs[s..]));
      ProductReverse(fs[s..]);
      ProductConcat(fs[..s], fs[s..]);
      assert fs[..s] + fs[s..] == fs;
    }
    var bound :| OddPrimesAscending(fs[s..], bound);
    DescendingReverse(fs[s..], bound);
    assert gs[s..] == Reverse(fs[s..]);
    if s == 1 {
      assert gs[0] == fs[..s][0];
    } else {
      assert gs == gs[s..];
    }
  }

  lemma DescendingReverse(s: seq<nat>, bound: nat)
    requires OddPrimesAscending(s, bound)
    ensures OddPrimesDescending(Reverse(s))
  {}

  /** Trial division; the factors land in `factors[..nf]`. */
  method Factorize(n0: nat, factors: array<nat>) returns (nf: nat)
    requires n0 < INT_LIMIT
    requires factors.Length >= MAX_FACTORS
    modifies factors
    ensures 1 <= nf < MAX_FACTORS
    ensures IsPlan(n0, factors[..nf])
  {
    if n0 <= 5 {
      factors[0] := n0;
      assert factors[..1] == [n0];
      assert Product([n0]) == n0 * Product([]);
      return 1;
    }
    var n, s := SplitTwos(n0, factors);
    ghost var top;
    nf, top := TrialDivision(n0, factors, s, n);
    Arrange(n0, factors, nf, s);
  }

  /** The bit trick. */
  method LowBit(n: nat) returns (f: nat)
    requires n >= 1
    ensures f == TwoPart(n)
  {
    LowestBit(n);
    f := (Xor(n - 1, n) + 1) / 2;
  }

  /** The power of two in `n0` becomes the first factor, if there is one. */
  method SplitTwos(n0: nat, factors: array<nat>) returns (n: nat, nf: nat)
    requires 5 < n0 < INT_LIMIT && factors.Length >= MAX_FACTORS
    modifies factors
    ensures nf <= 1 && Splitting(n0, factors[..nf], nf, n, 3)
  {
    n := n0;
    nf := 0;
    var f := LowBit(n);
    ghost var found: seq<nat> := [];
    if f > 1 {
      factors[nf] := f;
      nf := nf + 1;
      n := if f == n then 1 else n / f;
      found := [f];
    }
    assert factors[..nf] == found;
    SplitStart(n0, f, found, n);
  }

  /** The odd primes are turned round, largest first. */
  method Arrange(n0: nat, factors: array<nat>, nf: nat, ghost s: nat)
    requires 5 < n0 < INT_LIMIT && nf < MAX_FACTORS <= factors.Length && s <= 1 && Split(n0, factors[..nf], s)
    modifies factors
    ensures 1 <= nf && IsPlan(n0, factors[..nf])
  {
    ghost var found := factors[..nf];
    FirstIsPowerOfTwo(n0, found, s);
    assert found[0] == factors[0];
    ReversedIsPlan(n0, found, s);
    var g := if factors[0] % 2 == 0 then 1 else 0;
    assert factors[..g] == found[..s] && factors[g..nf] == found[s..];
    ReverseInPlace(factors, g, nf);
  }

  lemma StartsPaced(n0: nat, fs: seq<nat>, s: nat, n: nat)
    requires n0 > 5 && |fs| == s && Splitting(n0, fs, s, n, 3)
    ensures Paced(n0, s > 0, n, 3)
  {
    if s == 1 {
      assert fs == [TwoPart(n0)];
      assert Product(fs) == TwoPart(n0) * Product([]);
      MulMonotone(2, TwoPart(n0), n);
    }
  }

  /**
   The division loop: tries 3, 5, 7, ... and appends what divides to `factors[..start]`. Of the candidates it
   squares, `top` is the last and largest.
   */
  method TrialDivision(n0: nat, factors: array<nat>, start: nat, rest: nat)
    returns (nf: nat, ghost top: nat)
    requires 5 < n0 < INT_LIMIT && factors.Length >= MAX_FACTORS
    requires start <= 1 && Splitting(n0, factors[..start], start, rest, 3)
    modifies factors
    ensures nf < MAX_FACTORS && Split(n0, factors[..nf], start)
    ensures !Narrow(top) <==> IsOddPrime(n0) && n0 > ROOT * ROOT
  {
    var n, f := rest, 3;
    nf, top := start, 0;
    StartsPaced(n0, factors[..nf], start, n);
    ghost var found := factors[..nf];
    while n > 1
      invariant nf <= 31 && found == factors[..nf]
      invariant Splitting(n0, found, start, n, f)
      invariant Narrow(top) && Paced(n0, nf > 0, n, f)
      decreases n, if n > f then n - f else 0
    {
      TooFewToOverflow(n0, found, start, n, f);
      Recompose(n, f);
      var d := n / f;
      if d * f == n {
        SplitOff(n0, found, start, n, f, d);
        nf := Store(factors, nf, f);
        found := found + [f];
        n := d;
      } else {
        NextCandidate(n0, found, start, n, f);
        f := f + 2;
        top := f;
        if f * f > n {
          break;
        }
      }
    }
    if n > 1 {
      TooFewToOverflow(n0, found, start, n, f);
      SplitRest(n0, found, start, n, f);
      nf := Store(factors, nf, n);
    } else {
      SplitDone(n0, found, start, f);
    }
  }

  /** One more factor. */
  method Store(factors: array<nat>, nf: nat, f: nat) returns (next: nat)
    requires nf < factors.Length
    modifies factors
    ensures next == nf + 1 && factors[..next] == old(factors[..nf]) + [f]
  {
    factors[nf] := f;
    next := nf + 1;
  }

  /** The closing swap loop. */
  method ReverseInPlace(factors: array<nat>, g: nat, nf: nat)
    requires g <= nf <= factors.Length
    modifies factors
    ensures factors[..nf] == old(factors[..g]) + Reverse(old(factors[g..nf]))
  {
    ghost var was := factors[..nf];
    assert old(factors[..g]) == was[..g] && old(factors[g..nf]) == was[g..];
    var i := g;
    while i < (nf + g) / 2
      invariant g <= i <= (nf + g) / 2
      invariant forall k :: 0 <= k < g ==> factors[k] == was[k]
      invariant forall k :: g <= k < i ==> factors[k] == was[nf - 1 - k + g]
      invariant forall k :: i <= k < nf - i + g ==> factors[k] == was[k]
      invariant forall k :: nf - i + g <= k < nf ==> factors[k] == was[nf - 1 - k + g]
    {
      var j := factors[i];
      factors[i] := factors[nf - i - 1 + g];
      factors[nf - i - 1 + g] := j;
      i := i + 1;
    }
    ReversedTail(was, factors[..nf], g);
  }

  lemma ReversedTail(was: seq<nat>, now: seq<nat>, g: nat)
    requires g <= |was| == |now|
    requires forall k :: 0 <= k < g ==> now[k] == was[k]
    requires forall k :: g <= k < |now| ==> now[k] == was[|was| - 1 - k + g]
    ensures now == was[..g] + Reverse(was[g..])
  {
    assert now[..g] == was[..g];
    assert now[g..] == Reverse(was[g..]);
  }

  lemma EvenTwoPart(n: nat)
    requires n >= 1 && n % 2 == 0
    ensures TwoPart(n) % 2 == 0
  {}
}
