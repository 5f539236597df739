/**
 The reordering table of `DFTInit` in the KCF tracker: a mixed-radix odometer with a
 table-driven bit reversal for the leading power of two, and an optional inversion.
 */
module DftInit {
  import opened Arithmetic
  import opened MixedRadix
  import opened DftFactorize
  import opened BitrevTable

  function TwoLog(n: nat): nat
    requires n >= 1
  {
    if n % 2 == 1 then 0 else 1 + TwoLog(n / 2)
  }

  lemma {:induction false} TwoPartIsPower(n: nat)
    requires n >= 1
    ensures TwoPart(n) == Pow2(TwoLog(n))
  {
    if n % 2 == 0 {
      TwoPartIsPower(n / 2);
    }
  }

  lemma {:induction false} TwoLogOfPower(m: nat)
    ensures TwoLog(Pow2(m)) == m
  {
    if m > 0 {
      assert Pow2(m) / 2 == Pow2(m - 1);
      TwoLogOfPower(m - 1);
    }
  }

  /** The radices the table works in: a leading power of two counts as that many twos. */
  function BinaryRadices(fs: seq<nat>): seq<nat>
    requires |fs| >= 1 && fs[0] >= 1
  {
    if fs[0] % 2 == 0 then Twos(TwoLog(fs[0])) + fs[1..] else fs
  }

  lemma PlanRadices(n: nat, fs: seq<nat>)
    requires n >= 1 && IsPlan(n, fs)
    ensures forall k :: 0 <= k < |fs| ==> fs[k] >= 1
    ensures fs[0] % 2 == 0 ==> fs[0] == Pow2(TwoLog(fs[0])) && TwoLog(fs[0]) >= 1
    ensures Product(BinaryRadices(fs)) == n
    ensures forall k :: 0 <= k < |BinaryRadices(fs)| ==> BinaryRadices(fs)[k] >= 1
    ensures n % 2 == 0 <==> fs[0] % 2 == 0
  {
    if n > 5 && n % 2 == 0 {
      TwoPartIsPower(n);
      TwoLogOfPower(TwoLog(n));
      assert forall k :: 1 <= k < |fs| ==> fs[k] == fs[1..][k - 1];
    } else if n <= 5 && n % 2 == 0 {
      assert TwoLog(1) == 0 && TwoLog(2) == 1 && TwoLog(4) == 2;
    }
    if fs[0] % 2 == 0 {
      ProductTwos(TwoLog(fs[0]));
      ProductConcat(Twos(TwoLog(fs[0])), fs[1..]);
    }
  }

  /** Where sample `i` goes. */
  ghost function Reordering(n: nat, fs: seq<nat>, i: nat): nat
    requires n >= 1 && IsPlan(n, fs)
  {
    PlanRadices(n, fs);
    DigitReverse(BinaryRadices(fs), i)
  }

  /** Where sample `i` came from. */
  ghost function InverseReordering(n: nat, fs: seq<nat>, j: nat): nat
    requires n >= 1 && IsPlan(n, fs)
  {
    PlanRadices(n, fs);
    DigitReverse(Reverse(BinaryRadices(fs)), j)
  }

  /** The reordering is a permutation of `0 .. n - 1` with the stated two-sided inverse. */
  lemma ReorderingIsPermutation(n: nat, fs: seq<nat>, i: nat)
    requires n >= 1 && IsPlan(n, fs) && i < n
    ensures Reordering(n, fs, i) < n && InverseReordering(n, fs, i) < n
    ensures InverseReordering(n, fs, Reordering(n, fs, i)) == i
    ensures Reordering(n, fs, InverseReordering(n, fs, i)) == i
  {
    PlanRadices(n, fs);
    ReverseBound(BinaryRadices(fs), i);
    ReverseInverse(BinaryRadices(fs), i);
    ReverseSurjective(BinaryRadices(fs), i);
  }

  /** Twelve samples: entry `d + 2 e + 4 f` of the table is `6 d + 3 e + f`. */
  lemma TwelveSamples(d: nat, e: nat, f: nat)
    requires d < 2 && e < 2 && f < 3
    ensures IsPlan(12, [4, 3]) && Reordering(12, [4, 3], d + 2 * e + 4 * f) == 6 * d + 3 * e + f
  {
    TwoFactors(4, 3);
    assert TwoPart(12) == 4 && IsOddPrime(3);
    assert TwoLog(4) == 2 && Twos(2) == [2, 2];
    assert BinaryRadices([4, 3]) == [2, 2, 3];
    ThreeRadices(2, 2, 3, d, e, f, e + 2 * f);
  }

  /** Fifteen: entry `d + 5 e` is `3 d + e`. */
  lemma FifteenSamples(d: nat, e: nat)
    requires d < 5 && e < 3
    ensures IsPlan(15, [5, 3]) && Reordering(15, [5, 3], d + 5 * e) == 3 * d + e
  {
    TwoFactors(5, 3);
    assert IsOddPrime(5) && IsOddPrime(3);
    TwoRadices(5, 3, d, e);
  }

  /** Equal first and last factors force one repeated radix, so inverting changes nothing. */
  lemma EqualEndsPalindrome(n: nat, fs: seq<nat>)
    requires n >= 1 && IsPlan(n, fs) && fs[0] == fs[|fs| - 1]
    ensures Reverse(BinaryRadices(fs)) == BinaryRadices(fs)
  {
    if n > 5 && n % 2 == 0 && |fs| > 1 {
      assert fs[1..][|fs| - 2] % 2 == 1;
      EvenTwoPart(n);
    }
    if |fs| == 1 {
      assert fs[1..] == [];
    }
    PlanRadices(n, fs);
    var rs := BinaryRadices(fs);
    assert forall k :: 0 <= k < |rs| ==> rs[k] == rs[0];
  }

  lemma InversionCanBeSkipped(n: nat, fs: seq<nat>, i: nat)
    requires n >= 1 && IsPlan(n, fs) && fs[0] == fs[|fs| - 1]
    ensures InverseReordering(n, fs, i) == Reordering(n, fs, i)
  {
    EqualEndsPalindrome(n, fs);
  }

  // ---------------------------------------------------------------- the odometer

  lemma Bump(fs: seq<nat>, ds: seq<int>, k: nat)
    requires |fs| == |ds| && k < |fs|
    ensures Value(fs, ds[k := ds[k] + 1]) == Value(fs, ds) + Product(fs[..k])
    ensures MirrorValue(fs, ds[k := ds[k] + 1]) == MirrorValue(fs, ds) + Product(fs[k + 1..])
  {
    ValueUpdate(fs, ds, k, ds[k] + 1);
    MirrorValueUpdate(fs, ds, k, ds[k] + 1);
    OneMore(ds[k], Product(fs[..k]));
    OneMore(ds[k], Product(fs[k + 1..]));
  }

  lemma OneMore(d: int, p: int)
    ensures (d + 1 - d) * p == p
  {}

  lemma Clear(fs: seq<nat>, ds: seq<int>, k: nat)
    requires |fs| == |ds| && k < |fs| && ds[k] == fs[k]
    ensures Value(fs, ds[k := 0]) == Value(fs, ds) - Product(fs[..k + 1])
    ensures MirrorValue(fs, ds[k := 0]) == MirrorValue(fs, ds) - Product(fs[k..])
  {
    ValueUpdate(fs, ds, k, 0);
    MirrorValueUpdate(fs, ds, k, 0);
    assert fs[..k + 1] == fs[..k] + [fs[k]];
    ProductSnoc(fs[..k], fs[k]);
    assert fs[k..][1..] == fs[k + 1..];
    Negate(fs[k], Product(fs[..k]));
    Negate(fs[k], Product(fs[k + 1..]));
  }

  lemma Negate(f: int, p: int)
    ensures (0 - f) * p == -(f * p) && f * p == p * f
  {}

  /** Moving an overflowing digit's unit to the next position keeps the number. */
  lemma CarryStep(fs: seq<nat>, ds: seq<int>, p: nat)
    requires |fs| == |ds| && p + 1 < |fs| && ds[p] == fs[p]
    ensures var ds' := ds[p := 0][p + 1 := ds[p + 1] + 1];
      && Value(fs, ds') == Value(fs, ds)
      && MirrorValue(fs, ds') == MirrorValue(fs, ds) - Product(fs[p..]) + Product(fs[p + 2..])
  {
    Clear(fs, ds, p);
    Bump(fs, ds[p := 0], p + 1);
  }

  /** Short of the last number the carry stops before the end of the digits. */
  lemma CarryStaysInside(fs: Radices, ds: seq<int>, p: nat)
    requires |fs| == |ds| && p < |fs| && ds[p] == fs[p]
    requires forall m :: 0 <= m < |ds| ==> ds[m] >= 0
    requires Value(fs, ds) < Product(fs)
    ensures p + 1 < |fs|
  {
    ValueAtLeast(fs, ds, p);
    if p + 1 == |fs| {
      assert fs == fs[..p] + [fs[p]];
      ProductSnoc(fs[..p], fs[p]);
    }
  }

  ghost predicate RadixTable(fs: seq<nat>, radix: array<nat>)
    reads radix
  {
    |fs| < radix.Length && forall k :: 0 <= k <= |fs| ==> radix[k] == Product(fs[k..])
  }

  /** The odometer over the radices `fs` shows `v`; `j` is its mirrored reading. */
  ghost predicate Odometer(fs: seq<nat>, ds: seq<int>, v: int, j: int) {
    IsDigits(fs, ds) && Value(fs, ds) == v && MirrorValue(fs, ds) == j
  }

  /** As above, except that digit `p` may have reached its radix. */
  ghost predicate Carrying(fs: seq<nat>, ds: seq<int>, p: nat, v: int, j: int) {
    && p < |fs| == |ds|
    && (forall m :: 0 <= m < |ds| ==> 0 <= ds[m] <= fs[m] && (m != p ==> ds[m] < fs[m]))
    && Value(fs, ds) == v && MirrorValue(fs, ds) == j
  }

  lemma CarryStart(fs: seq<nat>, ds: seq<int>, v: int, j: int)
    requires Odometer(fs, ds, v, j) && fs != []
    ensures Carrying(fs, ds[0 := ds[0] + 1], 0, v + 1, j + Product(fs[1..]))
  {
    Bump(fs, ds, 0);
    assert Product(fs[..0]) == 1;
  }

  lemma CarryOn(fs: Radices, ds: seq<int>, p: nat, v: int, j: int, rolled: seq<int>, j2: int)
    requires Carrying(fs, ds, p, v, j) && ds[p] == fs[p] && v < Product(fs) && p + 1 < |fs|
    requires rolled == ds[p := 0][p + 1 := ds[p + 1] + 1] && j2 == j - Product(fs[p..]) + Product(fs[p + 2..])
    ensures Carrying(fs, rolled, p + 1, v, j2)
  {
    CarryStep(fs, ds, p);
  }

  lemma CarryDone(fs: seq<nat>, ds: seq<int>, p: nat, v: int, j: int)
    requires Carrying(fs, ds, p, v, j) && ds[p] < fs[p]
    ensures Odometer(fs, ds, v, j)
  {}

  /** One digit rolls over into the next. */
  method Roll(digits: array<int>, start: nat, ghost nf: nat, k: nat, ghost p: nat, ghost ds: seq<int>)
    returns (ghost rolled: seq<int>)
    requires k == start + p && k + 1 < nf <= digits.Length && digits[start..nf] == ds
    modifies digits
    ensures digits[start..nf] == rolled == ds[p := 0][p + 1 := ds[p + 1] + 1]
  {
    digits[k] := 0;
    digits[k + 1] := digits[k + 1] + 1;
    rolled := digits[start..nf];
  }

  /** What a full digit `k`, position `p` of the tail, knows of its surroundings when it is to be carried. */
  lemma CarryReady(fs: Radices, radix: array<nat>, tail: Radices, start: nat, k: nat, p: nat, ds: seq<int>, v: int,
                   j: int)
    requires k == start + p < |fs| && tail == fs[start..] && RadixTable(fs, radix)
    requires Carrying(tail, ds, p, v, j) && ds[p] >= fs[k] && v < Product(tail)
    ensures k + 1 < |fs| && ds[p] == tail[p] && radix[k] == Product(tail[p..]) && radix[k + 2] == Product(tail[p + 2..])
  {
    FullDigit(fs, tail, start, k, p, ds, v, j);
    assert tail[p..] == fs[k..] && tail[p + 2..] == fs[k + 2..];
  }

  lemma FullDigit(fs: Radices, tail: Radices, start: nat, k: nat, p: nat, ds: seq<int>, v: int, j: int)
    requires k == start + p < |fs| && tail == fs[start..]
    requires Carrying(tail, ds, p, v, j) && ds[p] >= fs[k] && v < Product(tail)
    ensures k + 1 < |fs| && ds[p] == tail[p]
  {
    CarryStaysInside(tail, ds, p);
  }

  /** One round of the carry: the full digit `k` rolls over, and the mirrored reading follows. */
  method CarryOver(digits: array<int>, ghost fs: Radices, ghost tail: Radices, radix: array<nat>, start: nat, k: nat,
                   ghost p: nat, ghost ds: seq<int>, ghost v: int, j0: int)
    returns (j: int, ghost rolled: seq<int>)
    requires k == start + p < |fs| < digits.Length && tail == fs[start..] && RadixTable(fs, radix)
    requires digits[start..|fs|] == ds && Carrying(tail, ds, p, v, j0) && ds[p] >= fs[k] && v < Product(tail)
    modifies digits
    ensures k + 1 < |fs| && digits[start..|fs|] == rolled && Carrying(tail, rolled, p + 1, v, j)
  {
    CarryReady(fs, radix, tail, start, k, p, ds, v, j0);
    j := j0 + radix[k + 2] - radix[k];
    rolled := Roll(digits, start, |fs|, k, p, ds);
    CarryOn(tail, ds, p, v, j0, rolled, j);
  }

  /** The lowest digit counts up, perhaps as far as its radix. */
  method CountUp(digits: array<int>, ghost tail: seq<nat>, start: nat, ghost nf: nat, ghost ds0: seq<int>, ghost v: int,
                 ghost j0: int, ghost j: int)
    returns (ghost ds: seq<int>)
    requires start < nf <= digits.Length && digits[start..nf] == ds0 && |tail| == nf - start
    requires Odometer(tail, ds0, v, j0) && j == j0 + Product(tail[1..])
    modifies digits
    ensures digits[start..nf] == ds && Carrying(tail, ds, 0, v + 1, j)
  {
    CarryStart(tail, ds0, v, j0);
    digits[start] := digits[start] + 1;
    ds := digits[start..nf];
    assert ds == ds0[0 := ds0[0] + 1];
  }

  /** Counts the odometer up from digit `start` on and keeps its mirrored reading, which starts one unit ahead. */
  method Carry(digits: array<int>, ghost fs: Radices, factors: array<nat>, radix: array<nat>, start: nat,
               ghost v: int, j0: int)
    returns (j: int)
    requires start < |fs| <= factors.Length && |fs| < digits.Length
    requires fs == factors[..|fs|] && RadixTable(fs, radix)
    requires Odometer(fs[start..], digits[start..|fs|], v, j0 - radix[start + 1])
    requires v + 1 < Product(fs[start..])
    modifies digits
    ensures Odometer(fs[start..], digits[start..|fs|], v + 1, j)
  {
    ghost var tail: Radices, ds := fs[start..], digits[start..|fs|];
    assert tail[1..] == fs[start + 1..];
    ds := CountUp(digits, tail, start, |fs|, ds, v, j0 - radix[start + 1], j0);
    j := CarryLoop(digits, fs, tail, factors, radix, start, ds, v + 1, j0);
  }

  /** Carries as long as a digit has reached its radix. */
  method CarryLoop(digits: array<int>, ghost fs: Radices, ghost tail: Radices, factors: array<nat>, radix: array<nat>,
                   start: nat, ghost ds0: seq<int>, ghost v: int, j0: int)
    returns (j: int)
    requires start < |fs| <= factors.Length && |fs| < digits.Length && tail == fs[start..]
    requires fs == factors[..|fs|] && RadixTable(fs, radix)
    requires digits[start..|fs|] == ds0 && Carrying(tail, ds0, 0, v, j0) && v < Product(tail)
    modifies digits
    ensures Odometer(tail, digits[start..|fs|], v, j)
  {
    j := j0;
    var k := start;
    ghost var ds, p := ds0, 0;
    while digits[k] >= factors[k]
      invariant k == start + p < |fs| && digits[start..|fs|] == ds
      invariant Carrying(tail, ds, p, v, j)
      decreases |fs| - k
    {
      j, ds := CarryOver(digits, fs, tail, radix, start, k, p, ds, v, j);
      p := p + 1;
      k := k + 1;
    }
    CarryDone(tail, ds, p, v, j);
  }

  /** The table for an odd length. */
  method OddTable(dst: array<int>, n0: nat, ghost fs: Radices, factors: array<nat>, radix: array<nat>,
                  digits: array<int>)
    requires |fs| >= 1 && |fs| <= factors.Length && |fs| < digits.Length
    requires fs == factors[..|fs|] && RadixTable(fs, radix)
    requires dst != digits && 1 <= n0 == Product(fs) && n0 <= dst.Length
    requires forall k :: 0 <= k < |fs| ==> digits[k] == 0
    modifies dst, digits
    ensures forall x: nat :: x < n0 ==> dst[x] == DigitReverse(fs, x)
  {
    var i, j := 0, 0;
    ZeroDigits(fs, digits[0..|fs|]);
    assert fs[0..] == fs;
    while true
      invariant 0 <= i < n0
      invariant Odometer(fs, digits[0..|fs|], i, j)
      invariant forall x: nat :: x < i ==> dst[x] == DigitReverse(fs, x)
      decreases n0 - i
    {
      ReverseOfDigits(fs, digits[0..|fs|]);
      dst[i] := j;
      i := i + 1;
      if i >= n0 {
        break;
      }
      j := j + radix[1];
      j := Carry(digits, fs, factors, radix, 0, i - 1, j);
    }
  }

  // ---------------------------------------------------------------- the leading power of two

  /** Four consecutive entries differ in their two lowest bits, which end up on top. */
  lemma Quad(m: nat, x: nat, r: nat)
    requires m >= 2 && r < 4
    ensures BitReverse(m, 4 * x + r)
         == BitReverse(m - 2, x) + (r % 2) * Pow2(m - 1) + (r / 2) * Pow2(m - 2)
  {
    assert Pow2(2) == 4;
    PairReverses(r);
    BitReverseSplit(2, m - 2, 4 * x + r, r, x);
    assert (2 * (r % 2) + r / 2) * Pow2(m - 2) == (r % 2) * (2 * Pow2(m - 2)) + (r / 2) * Pow2(m - 2);
  }

  /** Both shortcuts of the source - one table byte, or the 32-bit macro - give the short reversal. */
  lemma ShiftedLookup(rows: seq<seq<nat>>, m: nat, x: nat)
    requires IsReversalTable(rows) && 2 <= m && x < Pow2(m - 2)
    ensures m <= 10 ==> x < 256 && Lookup(rows, x) / Pow2(10 - m) == BitReverse(m - 2, x)
    ensures m <= 31 ==> x < 0x1_0000_0000 && BitRev(rows, x, 34 - m) == BitReverse(m - 2, x)
  {
    if m <= 10 {
      ShiftedByte(rows, m, x);
    }
    if m <= 31 {
      ShiftedWord(rows, m, x);
    }
  }

  lemma ShiftedByte(rows: seq<seq<nat>>, m: nat, x: nat)
    requires IsReversalTable(rows) && 2 <= m <= 10 && x < Pow2(m - 2)
    ensures x < 256 && Lookup(rows, x) / Pow2(10 - m) == BitReverse(m - 2, x)
  {
    Powers();
    Pow2Monotone(m - 2, 8);
    BitReverseShift(m - 2, 10 - m, x);
  }

  lemma ShiftedWord(rows: seq<seq<nat>>, m: nat, x: nat)
    requires IsReversalTable(rows) && 2 <= m <= 31 && x < Pow2(m - 2)
    ensures x < 0x1_0000_0000 && BitRev(rows, x, 34 - m) == BitReverse(m - 2, x)
  {
    Pow2Of31();
    Pow2Monotone(m - 2, 31);
    BitReverseShift(m - 2, 34 - m, x);
    BitRevReverses(rows, x, 34 - m);
  }

  /** The first block as the source means it: bit reversal, scaled by `a`. */
  ghost function ScaledReversal(m: nat, a: nat): (s: seq<int>)
    ensures |s| == Pow2(m) && forall x: nat :: x < |s| ==> s[x] == BitReverse(m, x) * a
  {
    seq(Pow2(m), x requires 0 <= x => BitReverse(m, x) * a)
  }

  lemma QuadScaled(m: nat, x: nat, a: nat, na2: nat, na4: nat, want: seq<int>, j: int, i: nat)
    requires m >= 2 && na2 == Pow2(m) * a / 2 && na4 == na2 / 2 && i == 4 * x && i + 4 <= Pow2(m)
    requires want == ScaledReversal(m, a) && j == BitReverse(m - 2, x) * a
    ensures QuadOf(want, i, j, na2, na4)
  {
    assert i + 4 <= |want|;
    forall k: nat | k < 4
      ensures QuadAt(want, i, j, na2, na4, k)
    {
      QuadEntry(m, x, a, na2, na4, want, j, i, k);
    }
  }

  /** Entry `k` of a quad. */
  lemma QuadEntry(m: nat, x: nat, a: nat, na2: nat, na4: nat, want: seq<int>, j: int,
                  i: nat, k: nat)
    requires m >= 2 && na2 == Pow2(m) * a / 2 && na4 == na2 / 2 && i == 4 * x && i + 4 <= Pow2(m) && k < 4
    requires want == ScaledReversal(m, a) && j == BitReverse(m - 2, x) * a
    ensures QuadAt(want, i, j, na2, na4, k)
  {
    Quad(m, x, k);
    Halves(m, a, na2, na4);
    QuadProduct(BitReverse(m - 2, x), Pow2(m - 1), Pow2(m - 2), a, k, BitReverse(m, 4 * x + k));
    ScaledAt(m, a, 4 * x + k);
  }

  lemma ScaledAt(m: nat, a: nat, x: nat)
    requires x < Pow2(m)
    ensures ScaledReversal(m, a)[x] == BitReverse(m, x) * a
  {}

  lemma Halves(m: nat, a: nat, na2: nat, na4: nat)
    requires m >= 2 && na2 == Pow2(m) * a / 2 && na4 == na2 / 2
    ensures na2 == Pow2(m - 1) * a && na4 == Pow2(m - 2) * a
  {
    assert Pow2(m) == 2 * Pow2(m - 1) && Pow2(m - 1) == 2 * Pow2(m - 2);
    MulAssoc(2, Pow2(m - 1), a);
    MulAssoc(2, Pow2(m - 2), a);
  }

  lemma QuadProduct(r: int, p: int, q: int, a: int, k: nat, x: int)
    requires k < 4 && x == r + (k % 2) * p + (k / 2) * q
    ensures x * a == r * a + (if k % 2 == 1 then p * a else 0) + (if k >= 2 then q * a else 0)
  {
    var u, w := if k % 2 == 1 then p else 0, if k >= 2 then q else 0;
    assert x == r + u + w;
    Distribute(r + u, w, a);
    Distribute(r, u, a);
  }

  ghost predicate Prefix(dst: array<int>, want: seq<int>, i: nat)
    requires i <= |want| <= dst.Length
    reads dst
  {
    forall x :: 0 <= x < i ==> dst[x] == want[x]
  }

  /** Entry `k` of the quad at `i`: odd entries lie half a block further, the upper two a quarter. */
  ghost predicate QuadAt(want: seq<int>, i: nat, j: int, na2: int, na4: int, k: nat) {
    i + k < |want| && want[i + k] == j + (if k % 2 == 1 then na2 else 0) + (if k >= 2 then na4 else 0)
  }

  ghost predicate QuadOf(want: seq<int>, i: nat, j: int, na2: int, na4: int) {
    i + 4 <= |want| && forall k: nat :: k < 4 ==> QuadAt(want, i, j, na2, na4, k)
  }

  method StoreQuad(dst: array<int>, ghost want: seq<int>, i: nat, j: int, na2: int, na4: int)
    requires i <= |want| <= dst.Length && QuadOf(want, i, j, na2, na4) && Prefix(dst, want, i)
    modifies dst
    ensures Prefix(dst, want, i + 4)
  {
    assert QuadAt(want, i, j, na2, na4, 0) && QuadAt(want, i, j, na2, na4, 1);
    assert QuadAt(want, i, j, na2, na4, 2) && QuadAt(want, i, j, na2, na4, 3);
    dst[i] := j;
    dst[i + 1] := j + na2;
    dst[i + 2] := j + na4;
    dst[i + 3] := j + na2 + na4;
  }

  lemma QuadStep(rows: seq<seq<nat>>, want: seq<int>, m: nat, n: nat, q: nat, a: nat, na2: nat, na4: nat)
    returns (j: int)
    requires IsReversalTable(rows) && m <= 31 && n == Pow2(m) && n > 2 && 4 * q < n
    requires na2 == n * a / 2 && na4 == na2 / 2 && want == ScaledReversal(m, a)
    ensures 4 * q + 4 <= n && m >= 2
    ensures n <= 256 ==> m <= 8 && q < 256 && Lookup(rows, q) / Pow2(10 - m) * a == j
    ensures q < 0x1_0000_0000 && BitRev(rows, q, 34 - m) * a == j
    ensures QuadOf(want, 4 * q, j, na2, na4)
  {
    BlockIndex(m, n, q);
    ShiftedLookup(rows, m, q);
    j := BitReverse(m - 2, q) * a;
    QuadScaled(m, q, a, na2, na4, want, j, 4 * q);
  }

  /** The first block when one byte look-up is enough. */
  method ByteBlock(rows: seq<seq<nat>>, dst: array<int>, n: nat, m: nat, a: nat, na2: nat, na4: nat)
    requires IsReversalTable(rows)
    requires m <= 31 && n == Pow2(m) && 2 < n <= 256 && n <= dst.Length
    requires na2 == n * a / 2 && na4 == na2 / 2
    modifies dst
    ensures forall x: nat :: x < n ==> dst[x] == ScaledReversal(m, a)[x]
  {
    ghost var want, q := ScaledReversal(m, a), 0;
    var i := 0;
    BlockIndex(m, n, 0);
    ghost var quads := n / 4;
    while i <= n - 4
      invariant i == 4 * q && q <= quads && i <= n
      invariant Prefix(dst, want, i)
    {
      ghost var bits := QuadStep(rows, want, m, n, q, a, na2, na4);
      assert i / 4 == q;
      var j := Lookup(rows, i / 4) / Pow2(10 - m) * a;
      assert j == bits;
      StoreQuad(dst, want, i, j, na2, na4);
      i, q := i + 4, q + 1;
    }
  }

  /** The first block when the 32-bit macro is needed. */
  method WordBlock(rows: seq<seq<nat>>, dst: array<int>, n: nat, m: nat, a: nat, na2: nat, na4: nat)
    requires IsReversalTable(rows)
    requires m <= 31 && n == Pow2(m) && 256 < n && n <= dst.Length
    requires na2 == n * a / 2 && na4 == na2 / 2
    modifies dst
    ensures forall x: nat :: x < n ==> dst[x] == ScaledReversal(m, a)[x]
  {
    ghost var want, q := ScaledReversal(m, a), 0;
    var i := 0;
    while i < n
      invariant i == 4 * q && i <= n
      invariant Prefix(dst, want, i)
    {
      ghost var bits := QuadStep(rows, want, m, n, q, a, na2, na4);
      assert i / 4 == q;
      var j := BitRev(rows, i / 4, 34 - m) * a;
      assert j == bits;
      StoreQuad(dst, want, i, j, na2, na4);
      i, q := i + 4, q + 1;
    }
  }

  /** The first `n` entries of the table. */
  method FirstBlock(rows: seq<seq<nat>>, dst: array<int>, n: nat, m: nat, a: nat)
    requires IsReversalTable(rows)
    requires 1 <= m <= 31 && n == Pow2(m) && n <= dst.Length
    modifies dst
    ensures forall x: nat :: x < n ==> dst[x] == ScaledReversal(m, a)[x]
  {
    var na2 := n * a / 2;
    var na4 := na2 / 2;
    if n <= 2 {
      SmallBlock(m, n, a);
      dst[0] := 0;
      dst[1] := na2;
    } else if n <= 256 {
      ByteBlock(rows, dst, n, m, a, na2, na4);
    } else {
      WordBlock(rows, dst, n, m, a, na2, na4);
    }
  }

  lemma SmallBlock(m: nat, n: nat, a: nat)
    requires 1 <= m && n == Pow2(m) && n <= 2
    ensures n == 2 && ScaledReversal(m, a)[0] == 0 && ScaledReversal(m, a)[1] == n * a / 2
  {
    assert Pow2(2) == 4;
    Pow2Monotone(if m < 2 then m else 2, m);
    BitReverseStep(1, 0);
    BitReverseStep(1, 1);
  }

  lemma Quarters(m: nat, n: nat)
    requires n == Pow2(m) && n > 2
    ensures m >= 2 && n == 4 * Pow2(m - 2)
  {
    if m < 2 {
      Pow2Monotone(m, 1);
    } else {
      assert Pow2(m - 1) == 2 * Pow2(m - 2);
    }
  }

  lemma BlockIndex(m: nat, n: nat, q: nat)
    requires n == Pow2(m) && n > 2 && 4 * q < n
    ensures m >= 2 && 4 * q + 4 <= n && q < Pow2(m - 2) && n == 4 * (n / 4)
    ensures n <= 256 <==> m <= 8
  {
    Quarters(m, n);
    Powers();
    if m <= 8 {
      Pow2Monotone(m, 8);
    } else {
      Pow2Monotone(9, m);
      assert Pow2(9) == 512;
    }
  }

  // ---------------------------------------------------------------- the even table

  /** An entry of block `b` is the matching entry of block 0 plus the block's own reversal. */
  lemma BlockEntry(m: nat, rest: Radices, k: nat, b: nat)
    requires k < Pow2(m)
    ensures DigitReverse(Twos(m) + rest, k + Pow2(m) * b)
         == BitReverse(m, k) * Product(rest) + DigitReverse(rest, b)
  {
    ProductTwos(m);
    ReverseConcat(Twos(m), rest, k + Pow2(m) * b, k, b);
  }

  /** Copies the first block to position `i`, every entry raised by `j`. */
  method CopyBlock(dst: array<int>, i: nat, n: nat, j: int)
    requires n <= i && i + n <= dst.Length
    modifies dst
    ensures forall x :: 0 <= x < i ==> dst[x] == old(dst[x])
    ensures forall x :: i <= x < i + n ==> dst[x] == old(dst[x - i]) + j
  {
    for k := 0 to n
      invariant forall x :: 0 <= x < i ==> dst[x] == old(dst[x])
      invariant forall x :: i <= x < i + k ==> dst[x] == old(dst[x - i]) + j
    {
      dst[i + k] := dst[k] + j;
    }
  }

  lemma BlockEntryScaled(m: nat, n: nat, rest: Radices, i: nat, k: nat, b: nat)
    requires n == Pow2(m) && k < n && i == n * b
    ensures DigitReverse(Twos(m) + rest, i + k) == ScaledReversal(m, Product(rest))[k] + DigitReverse(rest, b)
  {
    assert i + k == k + Pow2(m) * b;
    BlockEntry(m, rest, k, b);
  }

  lemma BlocksGrow(m: nat, n: nat, rest: Radices, dst: seq<int>, b: nat, i: nat, j: int)
    requires n == Pow2(m) && i == n * b && j == DigitReverse(rest, b) && i + n <= |dst|
    requires forall x: nat :: x < i ==> dst[x] == DigitReverse(Twos(m) + rest, x)
    requires forall x: nat :: x < n ==> dst[i + x] == ScaledReversal(m, Product(rest))[x] + j
    ensures forall x: nat :: x < i + n ==> dst[x] == DigitReverse(Twos(m) + rest, x)
  {
    forall x: nat | i <= x < i + n
      ensures dst[x] == DigitReverse(Twos(m) + rest, x)
    {
      BlockEntryScaled(m, n, rest, i, x - i, b);
      assert dst[x] == dst[i + (x - i)];
    }
  }

  /** Block 0 on its own is already correct. */
  lemma BlockZero(m: nat, n: nat, rest: Radices, dst: seq<int>)
    requires n == Pow2(m) && n <= |dst|
    requires forall x: nat :: x < n ==> dst[x] == ScaledReversal(m, Product(rest))[x]
    ensures forall x: nat :: x < n ==> dst[x] == DigitReverse(Twos(m) + rest, x)
  {
    ReverseZero(rest);
    BlocksGrow(m, n, rest, dst, 0, 0, 0);
  }

  /** Raising the first digit of a zero odometer shows 1. */
  lemma FirstBlockDone(rest: Radices, ds: seq<int>)
    requires rest != [] && |ds| == |rest| && rest[0] >= 2
    requires ds[0] == 1 && forall k :: 1 <= k < |ds| ==> ds[k] == 0
    ensures Odometer(rest, ds, 1, Product(rest[1..]))
  {
    var zero := ds[0 := 0];
    ZeroDigits(rest, zero);
    Bump(rest, zero, 0);
    assert zero[0 := 1] == ds;
    assert Product(rest[..0]) == 1;
  }

  lemma NextBlock(n: nat, b: nat, total: nat)
    requires n > 0 && b < total
    ensures n * b + n == n * (b + 1) <= n * total
    ensures n * (b + 1) < n * total <==> b + 1 < total
  {
    MulMonotone(b + 1, total, n);
    if b + 1 < total {
      MulStrict(b + 1, total, n);
    }
  }

  ghost predicate Filled(dst: array<int>, rs: Radices, n: nat)
    requires n <= dst.Length
    reads dst
  {
    forall x: nat :: x < n ==> dst[x] == DigitReverse(rs, x)
  }

  lemma FirstFilled(m: nat, n: nat, rest: Radices, dst: array<int>)
    requires n == Pow2(m) && n <= dst.Length
    requires forall x: nat :: x < n ==> dst[x] == ScaledReversal(m, Product(rest))[x]
    ensures Filled(dst, Twos(m) + rest, n)
  {
    BlockZero(m, n, rest, dst[..]);
  }

  /** Copies block 0, raised by `j`, to block `b`. */
  method AppendBlock(dst: array<int>, ghost m: nat, n: nat, ghost rest: Radices, ghost b: nat, i: nat, j: int)
    requires n == Pow2(m) && i == n * b && j == DigitReverse(rest, b) && b >= 1 && i + n <= dst.Length
    requires Filled(dst, Twos(m) + rest, i)
    modifies dst
    ensures Filled(dst, Twos(m) + rest, i + n)
  {
    MulMonotone(1, b, n);
    forall x: nat | x < n
      ensures dst[x] == ScaledReversal(m, Product(rest))[x]
    {
      BlockEntryScaled(m, n, rest, 0, x, 0);
      ReverseZero(rest);
    }
    CopyBlock(dst, i, n, j);
    BlocksGrow(m, n, rest, dst[..], b, i, j);
  }

  /** Blocks 1, 2, ...: the odometer over the odd factors places each copy of block 0. */
  method Replicate(dst: array<int>, n0: nat, n: nat, ghost m: nat, ghost fs: Radices,
                   factors: array<nat>, radix: array<nat>, digits: array<int>)
    requires 2 <= |fs| <= factors.Length && |fs| < digits.Length
    requires fs == factors[..|fs|] && RadixTable(fs, radix)
    requires dst != digits && n0 == n * Product(fs[1..]) && n0 <= dst.Length && n <= dst.Length
    requires n == fs[0] == Pow2(m) && fs[1] >= 2
    requires digits[1] == 1 && forall k :: 2 <= k < |fs| ==> digits[k] == 0
    requires Filled(dst, Twos(m) + fs[1..], n)
    modifies dst, digits
    ensures Filled(dst, Twos(m) + fs[1..], n0)
  {
    ghost var nf, rest: Radices, b := |fs|, fs[1..], 1;
    ghost var blocks := Product(rest);
    var i, j := n, radix[2] as int;
    FirstBlockDone(rest, digits[1..nf]);
    BlocksAtLeastTwo(rest);
    assert rest[1..] == fs[2..];
    while i < n0
      invariant 1 <= b < blocks && i == n * b && i <= dst.Length
      invariant Odometer(rest, digits[1..nf], b, j)
      invariant Filled(dst, Twos(m) + rest, i)
      decreases n0 - i
    {
      NextBlock(n, b, blocks);
      ReverseOfDigits(rest, digits[1..nf]);
      AppendBlock(dst, m, n, rest, b, i, j);
      i := i + n;
      if i >= n0 {
        break;
      }
      j := j + radix[2];
      j := Carry(digits, fs, factors, radix, 1, b, j);
      b := b + 1;
    }
  }

  /** The table for an even length: bit-reversed block 0, then its copies. */
  method EvenTable(rows: seq<seq<nat>>, dst: array<int>, n0: nat, n: nat, m: nat, ghost fs: Radices,
                   nf: nat, factors: array<nat>, radix: array<nat>, digits: array<int>)
    requires IsReversalTable(rows)
    requires 1 <= nf == |fs| <= factors.Length && nf < digits.Length
    requires fs == factors[..nf] && RadixTable(fs, radix)
    requires dst != digits && n0 == Product(fs) && n0 <= dst.Length
    requires 1 <= m <= 31 && n == fs[0] == Pow2(m)
    requires forall k :: 1 <= k < nf ==> fs[k] >= 2
    requires forall k :: 0 <= k <= nf ==> digits[k] == 0
    modifies dst, digits
    ensures Filled(dst, Twos(m) + fs[1..], n0)
  {
    ghost var rest: Radices := fs[1..];
    ProductPositive(rest);
    NextBlock(n, 0, Product(rest));
    FirstBlock(rows, dst, n, m, radix[1]);
    FirstFilled(m, n, rest, dst);
    digits[1] := digits[1] + 1;
    if nf >= 2 {
      Replicate(dst, n0, n, m, fs, factors, radix, digits);
    } else {
      assert n0 == n * Product([]);
    }
  }

  lemma BlocksAtLeastTwo(rest: Radices)
    requires rest != [] && rest[0] >= 2
    ensures Product(rest) >= 2
  {
    ProductPositive(rest[1..]);
    MulMonotone(1, Product(rest[1..]), rest[0]);
  }

  // ---------------------------------------------------------------- the whole table

  method ReversalTable() returns (rows: seq<seq<nat>>)
    ensures IsReversalTable(rows)
  {
    TableReverses();
    rows := BITREV_ROWS;
  }

  /** The number of bits of a block: the loop counts up to the first power of two that is not below `n`. */
  method FloorLog(n: nat) returns (m: nat)
    requires exists k: nat :: n == Pow2(k)
    ensures n == Pow2(m)
  {
    ghost var k: nat :| n == Pow2(k);
    m := 0;
    while Pow2(m) < n
      invariant m <= k
      decreases k - m
    {
      m := m + 1;
    }
    if m < k {
      Pow2Monotone(m + 1, k);
    }
  }

  /** Zero digits, and the radix products filled from index `nf` down. */
  method FillRadix(nf: nat, factors: array<nat>, digits: array<int>, radix: array<nat>)
    requires 1 <= nf < MAX_FACTORS && nf <= factors.Length
    requires digits.Length == radix.Length == MAX_FACTORS && radix != factors
    modifies digits, radix
    ensures factors[..nf] == old(factors[..nf])
    ensures RadixTable(factors[..nf], radix)
    ensures forall k :: 0 <= k <= nf ==> digits[k] == 0
  {
    ghost var fs := factors[..nf];
    radix[nf] := 1;
    digits[nf] := 0;
    assert fs[nf..] == [];
    for i := 0 to nf
      invariant forall k :: 0 <= k < nf ==> factors[k] == fs[k]
      invariant digits[nf] == 0 && forall k :: 0 <= k < i ==> digits[k] == 0
      invariant forall k :: nf - i <= k <= nf ==> radix[k] == Product(fs[k..])
    {
      ClearDigit(digits, i);
      var k := nf - i - 1;
      var p := NextRadix(fs, k, radix[k + 1], factors[k]);
      radix[k] := p;
    }
  }

  method ClearDigit(digits: array<int>, i: nat)
    requires i < digits.Length
    modifies digits
    ensures digits[i] == 0 && forall k :: 0 <= k < digits.Length && k != i ==> digits[k] == old(digits[k])
  {
    digits[i] := 0;
  }

  method NextRadix(ghost fs: seq<nat>, ghost k: nat, r: nat, f: nat) returns (p: nat)
    requires k < |fs| && f == fs[k] && r == Product(fs[k + 1..])
    ensures p == Product(fs[k..])
  {
    ProductStep(fs, k);
    p := r * f;
  }

  lemma ProductStep(fs: seq<nat>, k: nat)
    requires k < |fs|
    ensures Product(fs[k..]) == Product(fs[k + 1..]) * fs[k]
  {
    assert fs[k..][1..] == fs[k + 1..];
  }

  /** The table without inversion, for `n0 > 5`. */
  method ForwardTable(n0: nat, nf: nat, factors: array<nat>, dst: array<int>)
    requires 5 < n0 < INT_LIMIT && 1 <= nf < MAX_FACTORS && nf <= factors.Length
    requires IsPlan(n0, factors[..nf]) && n0 <= dst.Length
    modifies dst
    ensures forall i: nat :: i < n0 ==> dst[i] == Reordering(n0, factors[..nf], i)
  {
    ghost var fs := factors[..nf];
    PlanRadices(n0, fs);
    var digits, radix := new int[MAX_FACTORS], new nat[MAX_FACTORS];
    FillRadix(nf, factors, digits, radix);
    var n := factors[0];
    if n % 2 == 0 {
      LeadingPower(n0, fs);
      var m := FloorLog(n);
      ExponentUnique(m, TwoLog(n));
      var rows := ReversalTable();
      EvenTable(rows, dst, n0, n, m, fs, nf, factors, radix, digits);
    } else {
      OddTable(dst, n0, fs, factors, radix, digits);
    }
  }

  lemma ExponentUnique(a: nat, b: nat)
    requires Pow2(a) == Pow2(b)
    ensures a == b
  {
    TwoLogOfPower(a);
    TwoLogOfPower(b);
  }

  lemma LeadingPower(n0: nat, fs: seq<nat>)
    requires 5 < n0 < INT_LIMIT && IsPlan(n0, fs) && fs[0] % 2 == 0
    ensures fs[0] == Pow2(TwoLog(fs[0])) && 1 <= TwoLog(fs[0]) <= 31
    ensures forall k :: 1 <= k < |fs| ==> fs[k] >= 2
  {
    PlanRadices(n0, fs);
    Pow2Of31();
    if TwoLog(fs[0]) > 31 {
      Pow2Monotone(31, TwoLog(fs[0]));
    }
    assert forall k :: 1 <= k < |fs| ==> fs[k] == fs[1..][k - 1];
  }

  /** The table for the lengths the source lists by hand. */
  method SmallTable(n0: nat, itab: array<int>)
    requires 1 <= n0 <= 5 && n0 <= itab.Length
    modifies itab
    ensures forall i: nat :: i < n0 ==> itab[i] == Reordering(n0, [n0], i)
  {
    SmallReordering(n0);
    itab[0] := 0;
    itab[n0 - 1] := n0 - 1;
    if n0 != 4 {
      var i := 1;
      while i < n0 - 1
        invariant forall k :: 0 <= k < i && k < n0 ==> itab[k] == k
        invariant itab[n0 - 1] == n0 - 1
      {
        itab[i] := i;
        i := i + 1;
      }
    } else {
      itab[1] := 2;
      itab[2] := 1;
    }
  }

  lemma SmallReordering(n0: nat)
    requires 1 <= n0 <= 5
    ensures IsPlan(n0, [n0])
    ensures n0 != 4 ==> forall i: nat :: i < n0 ==> Reordering(n0, [n0], i) == i
    ensures n0 == 4 ==> Reordering(4, [4], 0) == 0 && Reordering(4, [4], 1) == 2
    ensures n0 == 4 ==> Reordering(4, [4], 2) == 1 && Reordering(4, [4], 3) == 3
  {
    assert Product([n0]) == n0 * Product([]);
    if n0 == 4 {
      assert TwoLog(4) == 2 && BinaryRadices([4]) == Twos(2);
      PairReverses(0);
      PairReverses(1);
      PairReverses(2);
      PairReverses(3);
    } else {
      assert TwoLog(2) == 1 && BinaryRadices([n0]) == [n0];
      forall i: nat | i < n0
        ensures Reordering(n0, [n0], i) == i
      {
        SingleRadix(n0, i);
      }
    }
  }

  /** `inv` undoes the table `src`. */
  ghost predicate Undoes(src: seq<int>, inv: seq<nat>, n0: nat) {
    && |inv| == n0 <= |src|
    && (forall i :: 0 <= i < n0 ==> 0 <= src[i] < n0 && inv[src[i]] == i)
    && forall j :: 0 <= j < n0 ==> inv[j] < n0 && src[inv[j]] == j
  }

  /** The closing loop of the inverse transform: `itab0[itab[i]] = i`, two entries at a time. */
  method InvertTable(n0: nat, src: array<int>, itab: array<int>, ghost inv: seq<nat>)
    requires n0 >= 1 && src != itab && n0 <= itab.Length && Undoes(src[..], inv, n0) && src[0] == 0
    modifies itab
    ensures forall j :: 0 <= j < n0 ==> itab[j] == inv[j]
  {
    itab[0] := 0;
    var i := n0 % 2;
    while i < n0
      invariant i <= n0 && (n0 - i) % 2 == 0
      invariant forall x :: 0 <= x < i ==> itab[src[x]] == x
    {
      var k0, k1 := src[i], src[i + 1];
      assert inv[k0] == i && inv[k1] == i + 1;
      itab[k0] := i;
      itab[k1] := i + 1;
      i := i + 2;
    }
  }

  /** The inverse of a reordering, as a table. */
  ghost function InverseTable(n0: nat, fs: seq<nat>): (inv: seq<nat>)
    requires n0 >= 1 && IsPlan(n0, fs)
    ensures |inv| == n0
  {
    seq(n0, j requires 0 <= j < n0 => InverseReordering(n0, fs, j))
  }

  lemma InverseTableUndoes(n0: nat, fs: seq<nat>, src: seq<int>)
    requires n0 >= 1 && IsPlan(n0, fs) && n0 <= |src|
    requires forall i: nat :: i < n0 ==> src[i] == Reordering(n0, fs, i)
    ensures Undoes(src, InverseTable(n0, fs), n0) && src[0] == 0
  {
    forall i: nat | i < n0
      ensures 0 <= src[i] < n0 && InverseReordering(n0, fs, src[i]) == i
      ensures 0 <= InverseReordering(n0, fs, i) < n0 && src[InverseReordering(n0, fs, i)] == i
    {
      ReorderingIsPermutation(n0, fs, i);
    }
    PlanRadices(n0, fs);
    ReverseZero(BinaryRadices(fs));
  }

  method Invert(n0: nat, ghost fs: seq<nat>, src: array<int>, itab: array<int>)
    requires n0 >= 1 && IsPlan(n0, fs) && src != itab && n0 <= src.Length && n0 <= itab.Length
    requires forall i: nat :: i < n0 ==> src[i] == Reordering(n0, fs, i)
    modifies itab
    ensures forall j: nat :: j < n0 ==> itab[j] == InverseReordering(n0, fs, j)
  {
    InverseTableUndoes(n0, fs, src[..]);
    InvertTable(n0, src, itab, InverseTable(n0, fs));
  }

  /** `DFTInit`, as far as it fills `itab`; `wave` lends its space to the forward table. */
  method Init(n0: nat, nf: nat, factors: array<nat>, itab: array<int>, wave: array<int>, inv: bool)
    requires 1 <= n0 < INT_LIMIT && 1 <= nf < MAX_FACTORS && nf <= factors.Length
    requires IsPlan(n0, factors[..nf])
    requires itab != wave && n0 <= itab.Length && n0 <= wave.Length
    modifies itab, wave
    ensures factors[..nf] == old(factors[..nf])
    ensures !inv ==> forall i: nat :: i < n0 ==> itab[i] == Reordering(n0, factors[..nf], i)
    ensures inv ==> forall i: nat :: i < n0 ==> itab[i] == InverseReordering(n0, factors[..nf], i)
  {
    ghost var fs := factors[..nf];
    if n0 <= 5 {
      SmallTable(n0, itab);
    } else if inv && factors[0] != factors[nf - 1] {
      ForwardTable(n0, nf, factors, wave);
      Invert(n0, fs, wave, itab);
    } else {
      ForwardTable(n0, nf, factors, itab);
    }
    if inv && fs[0] == fs[nf - 1] {
      forall i: nat | i < n0
        ensures InverseReordering(n0, fs, i) == Reordering(n0, fs, i)
      {
        InversionCanBeSkipped(n0, fs, i);
      }
    }
  }
}
