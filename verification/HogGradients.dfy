/** Per-pixel inputs of the histogram: the interpolation weights of a cell and the orientation sector of a gradient. */
module HogGradients {
  import opened Arithmetic

  const NUM_SECTOR := 9

  // ---------------------------------------------------------------- interpolation weights

  /** The neighbouring cell a pixel row (or column) `p` of a cell of size `k` also votes for. */
  function Near(k: nat, p: nat): int {
    if p < k / 2 then -1 else 1
  }

  /** Distances of position `p` from the centre of its own cell and of that neighbour. */
  function OwnDistance(k: nat, p: nat): real {
    if p < k / 2 then (k / 2 - p) as real - 0.5 else (p - k / 2) as real + 0.5
  }

  function NearDistance(k: nat, p: nat): real {
    if p < k / 2 then (k / 2 + p) as real + 0.5 else (k / 2 + k - p) as real - 0.5
  }

  /** A position's two weights; each is the other distance's share. */
  function OwnWeight(k: nat, p: nat): real
    requires p < k
  {
    DistancesPositive(k, p);
    NearDistance(k, p) / (OwnDistance(k, p) + NearDistance(k, p))
  }

  function NearWeight(k: nat, p: nat): real
    requires p < k
  {
    DistancesPositive(k, p);
    OwnDistance(k, p) / (OwnDistance(k, p) + NearDistance(k, p))
  }

  lemma DistancesPositive(k: nat, p: nat)
    requires p < k
    ensures OwnDistance(k, p) > 0.0 && NearDistance(k, p) > 0.0
  {}

  lemma Share(a: real, b: real)
    requires a > 0.0 && b > 0.0
    ensures a / (a + b) + b / (a + b) == 1.0
    ensures a / (a + b) > 0.0
    ensures 1.0 / a * ((a * b) / (a + b)) == b / (a + b)
    ensures 1.0 / b * ((a * b) / (a + b)) == a / (a + b)
  {
    var s := a + b;
    assert a / s + b / s == s / s;
    assert (1.0 / a) * ((a * b) / s) == ((1.0 / a) * a) * (b / s);
    assert (1.0 / b) * ((a * b) / s) == ((1.0 / b) * b) * (a / s);
  }

  /** Every pixel splits its vote into two positive parts that add up to the whole. */
  lemma WeightsShareOne(k: nat, p: nat)
    requires p < k
    ensures OwnWeight(k, p) > 0.0 && NearWeight(k, p) > 0.0
    ensures OwnWeight(k, p) + NearWeight(k, p) == 1.0
  {
    DistancesPositive(k, p);
    Share(OwnDistance(k, p), NearDistance(k, p));
    Share(NearDistance(k, p), OwnDistance(k, p));
  }

  /** The vote of pixel row (or column) `p` of the image for cell row (or column) `y`. */
  function Hat(k: nat, p: nat, y: int): real
    requires k > 0
  {
    if p / k == y then OwnWeight(k, p % k)
    else if p / k + Near(k, p % k) == y then NearWeight(k, p % k)
    else 0.0
  }

  /** Linear interpolation between cell centres `k` apart. */
  function Triangle(k: nat, p: nat, y: int): real
    requires k > 0
  {
    Fall(k, p as real + 0.5 - (k * y + k / 2) as real)
  }

  function Fall(k: nat, d: real): real
    requires k > 0
  {
    var t := 1.0 - (if d < 0.0 then -d else d) / k as real;
    if t < 0.0 then 0.0 else t
  }

  lemma Complement(a: real, b: real, k: real)
    requires k > 0.0 && a + b == k
    ensures 1.0 - a / k == b / k
  {
    assert a / k + b / k == (a + b) / k;
  }

  lemma FarAway(d: real, k: real)
    requires k > 0.0 && d >= k
    ensures 1.0 - d / k <= 0.0
  {
    assert d / k >= k / k;
  }

  /** Where the two distances add up to a cell, the votes are linear interpolation. */
  lemma HatIsTriangle(k: nat, p: nat, y: int)
    requires k > 0 && (k % 2 == 0 || k == 1 || p % k >= k / 2)
    ensures Hat(k, p, y) == Triangle(k, p, y)
  {
    Recompose(p, k);
    TriangleOffset(k, p, y, p / k, p % k);
    HatAtOffset(k, p % k, p / k - y, p as real + 0.5 - (k * y + k / 2) as real);
  }

  lemma TriangleOffset(k: nat, p: nat, y: int, c: int, r: int)
    requires p == c * k + r
    ensures p as real + 0.5 - (k * y + k / 2) as real == (k * (c - y)) as real + r as real + 0.5 - (k / 2) as real
  {
    Distribute(y, c - y, k);
  }

  /** The same, `e` cells below cell `y`. */
  lemma HatAtOffset(k: nat, r: nat, e: int, d: real)
    requires r < k && (k % 2 == 0 || k == 1 || r >= k / 2)
    requires d == (k * e) as real + r as real + 0.5 - (k / 2) as real
    ensures Fall(k, d) == if e == 0 then OwnWeight(k, r) else if e == -Near(k, r) then NearWeight(k, r) else 0.0
  {
    if e == 0 {
      OwnFall(k, r, d);
    } else if e == -Near(k, r) {
      NearFall(k, r, e, d);
    } else {
      FarOffset(k, r, e, d);
      FarAway(if d < 0.0 then -d else d, k as real);
    }
  }

  lemma DistancesAddUp(k: nat, r: nat)
    requires r < k && (k % 2 == 0 || k == 1 || r >= k / 2)
    ensures OwnDistance(k, r) > 0.0 && NearDistance(k, r) > 0.0 && OwnDistance(k, r) + NearDistance(k, r) == k as real
  {}

  lemma OwnFall(k: nat, r: nat, d: real)
    requires r < k && (k % 2 == 0 || k == 1 || r >= k / 2) && d == r as real + 0.5 - (k / 2) as real
    ensures Fall(k, d) == OwnWeight(k, r)
  {
    DistancesAddUp(k, r);
    assert d == OwnDistance(k, r) || d == -OwnDistance(k, r);
    Complement(OwnDistance(k, r), NearDistance(k, r), k as real);
  }

  lemma NearFall(k: nat, r: nat, e: int, d: real)
    requires r < k && (k % 2 == 0 || k == 1 || r >= k / 2) && e == -Near(k, r)
    requires d == (k * e) as real + r as real + 0.5 - (k / 2) as real
    ensures Fall(k, d) == NearWeight(k, r)
  {
    DistancesAddUp(k, r);
    assert d == NearDistance(k, r) || d == -NearDistance(k, r);
    Complement(NearDistance(k, r), OwnDistance(k, r), k as real);
  }

  lemma FarOffset(k: nat, r: nat, e: int, d: real)
    requires r < k && e != 0 && e != -Near(k, r)
    requires d == (k * e) as real + r as real + 0.5 - (k / 2) as real
    ensures d >= k as real || -d >= k as real
  {
    if e > 0 {
      MulMonotone(if r < k / 2 then 2 else 1, e, k);
    } else {
      MulMonotone(e, if r < k / 2 then -1 else -2, k);
    }
  }

  /** In odd cells of at least three pixels the first pixel misses linear interpolation: pixel `k` of the second one. */
  lemma OddCellDiffers(k: nat)
    requires k % 2 == 1 && k >= 3
    ensures Hat(k, k, 1) != Triangle(k, k, 1)
  {
    var h := (k / 2) as real;
    var a, b := h - 0.5, h + 0.5;
    DivModUnique(1, 0, k);
    TriangleOffset(k, k, 1, 1, 0);
    assert OwnDistance(k, 0) == a && NearDistance(k, 0) == b;
    assert k as real == 2.0 * h + 1.0;
    assert Hat(k, k, 1) == b / (a + b);
    assert Triangle(k, k, 1) == 1.0 - a / k as real;
    Complement(a, b + 1.0, k as real);
    FractionsDiffer(h, k as real, b / (a + b), (b + 1.0) / k as real);
  }

  lemma FractionsDiffer(h: real, k: real, u: real, v: real)
    requires h >= 1.0 && k == 2.0 * h + 1.0 && u == (h + 0.5) / (2.0 * h) && v == (h + 1.5) / k
    ensures u != v
  {
    assert u * (2.0 * h) == h + 0.5;
    assert v * k == h + 1.5;
    assert u < 1.0;
    assert (u - v) * k == u * (2.0 * h) + u - v * k;
  }

  /** The votes are linear interpolation between cell centres exactly for even cells and one-pixel cells, whether or not
      pixel 0, which is on the border and never votes, is looked at. */
  lemma InterpolationCondition(k: nat)
    requires k > 0
    ensures (forall p: nat, y: int :: Hat(k, p, y) == Triangle(k, p, y)) <==> k % 2 == 0 || k == 1
    ensures (forall p: nat, y: int :: p > 0 ==> Hat(k, p, y) == Triangle(k, p, y)) <==> k % 2 == 0 || k == 1
  {
    if k % 2 == 0 || k == 1 {
      forall p: nat, y: int
        ensures Hat(k, p, y) == Triangle(k, p, y)
      {
        HatIsTriangle(k, p, y);
      }
    } else {
      OddCellDiffers(k);
    }
  }

  /** The share the code computes from the two distances: the first one's reciprocal, normalised. */
  function Part(a: real, b: real): real
    requires a > 0.0 && b > 0.0
  {
    1.0 / a * ((a * b) / (a + b))
  }

  lemma PartsAreWeights(k: nat, p: nat, a: real, b: real)
    requires p < k && a == OwnDistance(k, p) && b == NearDistance(k, p)
    ensures a > 0.0 && b > 0.0 && Part(a, b) == OwnWeight(k, p) && Part(b, a) == NearWeight(k, p)
  {
    DistancesPositive(k, p);
    Share(a, b);
    Share(b, a);
  }

  method FillNearest(k: nat) returns (nearest: array<int>)
    ensures fresh(nearest) && nearest.Length == k
    ensures forall p :: 0 <= p < k ==> nearest[p] == Near(k, p)
  {
    nearest := new int[k];
    for i := 0 to k / 2
      invariant forall p :: 0 <= p < i ==> nearest[p] == -1
    {
      nearest[i] := -1;
    }
    for i := k / 2 to k
      invariant forall p :: 0 <= p < k / 2 ==> nearest[p] == -1
      invariant forall p :: k / 2 <= p < i ==> nearest[p] == 1
    {
      nearest[i] := 1;
    }
  }

  /** The pair of weights of position `p`. */
  predicate PairAt(w: seq<real>, k: nat, p: nat)
    requires p < k
  {
    2 * p + 1 < |w| && w[2 * p] == OwnWeight(k, p) && w[2 * p + 1] == NearWeight(k, p)
  }

  method FillWeights(k: nat) returns (w: array<real>)
    ensures fresh(w) && w.Length == 2 * k
    ensures forall p :: 0 <= p < k ==> PairAt(w[..], k, p)
  {
    w := new real[2 * k];
    for j := 0 to k / 2
      invariant forall p :: 0 <= p < j ==> PairAt(w[..], k, p)
    {
      var bx := (k / 2 + j) as real + 0.5;
      var ax := (k / 2 - j) as real - 0.5;
      StorePair(k, w, j, ax, bx);
    }
    for j := k / 2 to k
      invariant forall p :: 0 <= p < j ==> PairAt(w[..], k, p)
    {
      var ax := (j - k / 2) as real + 0.5;
      var bx := (k / 2 + k - j) as real - 0.5;
      StorePair(k, w, j, ax, bx);
    }
  }

  method StorePair(k: nat, w: array<real>, j: nat, ax: real, bx: real)
    requires j < k && w.Length == 2 * k && ax == OwnDistance(k, j) && bx == NearDistance(k, j)
    requires forall p :: 0 <= p < j ==> PairAt(w[..], k, p)
    modifies w
    ensures forall p :: 0 <= p <= j ==> PairAt(w[..], k, p)
  {
    PartsAreWeights(k, j, ax, bx);
    ghost var was := w[..];
    w[2 * j] := Part(ax, bx);
    w[2 * j + 1] := Part(bx, ax);
    forall p | 0 <= p < j
      ensures PairAt(w[..], k, p)
    {
      assert PairAt(was, k, p);
    }
  }

  // ---------------------------------------------------------------- orientation sectors

  /** The unit vectors of the sector directions over a half turn. */
  datatype Compass = Compass(x: seq<real>, y: seq<real>) {
    predicate Valid() {
      |x| == NUM_SECTOR + 1 && |y| == NUM_SECTOR + 1
    }

    function Dot(kk: nat, gx: real, gy: real): real
      requires Valid() && kk <= NUM_SECTOR
    {
      x[kk] * gx + y[kk] * gy
    }

    /** How well a gradient agrees with signed sector `m`: sectors 9 to 17 are the opposite directions. */
    function Signed(m: nat, gx: real, gy: real): real
      requires Valid() && m < 2 * NUM_SECTOR
    {
      if m < NUM_SECTOR then Dot(m, gx, gy) else -Dot(m - NUM_SECTOR, gx, gy)
    }
  }

  /** Among equally good sectors the lower direction wins, and of a direction its positive sense. */
  function Rank(m: nat): nat {
    if m < NUM_SECTOR then 2 * m else 2 * (m - NUM_SECTOR) + 1
  }

  /** The scores of all signed sectors. */
  function Scores(c: Compass, gx: real, gy: real): (s: seq<real>)
    requires c.Valid()
  {
    seq(2 * NUM_SECTOR, (m: nat) requires m < 2 * NUM_SECTOR => c.Signed(m, gx, gy))
  }

  /** `m` has the best score, and the lowest rank among the best. */
  ghost predicate IsBest(s: seq<real>, m: nat) {
    m < |s| && forall n: nat :: n < |s| ==> s[n] < s[m] || (s[n] == s[m] && Rank(m) <= Rank(n))
  }

  ghost predicate IsSector(c: Compass, gx: real, gy: real, m: nat)
    requires c.Valid()
  {
    IsBest(Scores(c, gx, gy), m)
  }

  method ChooseSector(c: Compass, gx: real, gy: real) returns (maxi: nat)
    requires c.Valid()
    ensures maxi < 2 * NUM_SECTOR && IsSector(c, gx, gy, maxi)
  {
    ghost var s := Scores(c, gx, gy);
    var max := c.Dot(0, gx, gy);
    maxi := 0;
    for kk := 0 to NUM_SECTOR
      invariant maxi < 2 * NUM_SECTOR && max == s[maxi]
      invariant maxi == 0 || Rank(maxi) < 2 * kk
      invariant kk > 0 ==> max >= 0.0
      invariant forall n: nat :: n < |s| && Rank(n) < 2 * kk ==> s[n] < max || (s[n] == max && Rank(maxi) <= Rank(n))
    {
      var dotProd := c.Dot(kk, gx, gy);
      assert s[kk] == dotProd && s[kk + NUM_SECTOR] == -dotProd;
      forall n: nat | n < |s| && 2 * kk <= Rank(n) < 2 * kk + 2
        ensures n == kk || n == kk + NUM_SECTOR
      {}
      if dotProd > max {
        max := dotProd;
        maxi := kk;
      } else if -dotProd > max {
        max := -dotProd;
        maxi := kk + NUM_SECTOR;
      }
    }
  }

  lemma SectorUnique(c: Compass, gx: real, gy: real, m: nat, n: nat)
    requires c.Valid() && IsSector(c, gx, gy, m) && IsSector(c, gx, gy, n)
    ensures m == n
  {
    var s := Scores(c, gx, gy);
    assert s[m] == s[n];
    assert Rank(m) == Rank(n);
  }

  function Opposite(m: nat): nat {
    if m < NUM_SECTOR then m + NUM_SECTOR else m - NUM_SECTOR
  }

  /** Scores of opposite gradients. */
  ghost predicate Negated(s: seq<real>, t: seq<real>) {
    |s| == |t| == 2 * NUM_SECTOR &&
    forall n: nat :: n < 2 * NUM_SECTOR ==> t[n] == -s[n] && s[Opposite(n)] == -s[n]
  }

  lemma OppositeScores(s: seq<real>, t: seq<real>, m: nat, n: nat)
    requires Negated(s, t) && IsBest(s, m) && IsBest(t, n)
    ensures n % NUM_SECTOR == m % NUM_SECTOR
    ensures s[m] > 0.0 ==> n == Opposite(m)
  {
    assert t[Opposite(m)] == s[m] && s[Opposite(n)] == t[n];
    assert s[m] == t[n];
    assert Rank(m) <= Rank(Opposite(n)) && Rank(n) <= Rank(Opposite(m));
  }

  /** The unsigned bin does not see the sense of a gradient; the signed bin flips with it unless the gradient fits
      no sector. */
  lemma OppositeGradient(c: Compass, gx: real, gy: real, m: nat, n: nat)
    requires c.Valid() && IsSector(c, gx, gy, m) && IsSector(c, -gx, -gy, n)
    ensures n % NUM_SECTOR == m % NUM_SECTOR
    ensures c.Signed(m, gx, gy) > 0.0 ==> n == Opposite(m)
  {
    var s, t := Scores(c, gx, gy), Scores(c, -gx, -gy);
    forall k: nat | k < 2 * NUM_SECTOR
      ensures t[k] == -s[k] && s[Opposite(k)] == -s[k]
    {
      DotNegated(c, k % NUM_SECTOR, gx, gy);
    }
    OppositeScores(s, t, m, n);
  }

  lemma DotNegated(c: Compass, kk: nat, gx: real, gy: real)
    requires c.Valid() && kk < NUM_SECTOR
    ensures c.Dot(kk, -gx, -gy) == -c.Dot(kk, gx, gy)
  {}

  // ---------------------------------------------------------------- the strongest channel

  function Magnitude(sqrt: real -> real, gx: real, gy: real): real {
    sqrt(gx * gx + gy * gy)
  }

  function MagnitudeAt(sqrt: real -> real, dx: seq<real>, dy: seq<real>, h: nat): real
    requires h < |dx| && h < |dy|
  {
    Magnitude(sqrt, dx[h], dy[h])
  }

  /** `h` is the first entry of largest magnitude in `lo .. hi`. */
  ghost predicate IsStrongest(sqrt: real -> real, dx: seq<real>, dy: seq<real>, lo: nat, hi: nat, h: nat) {
    lo <= h < hi <= |dx| && hi <= |dy| &&
    forall g :: lo <= g < hi ==>
      MagnitudeAt(sqrt, dx, dy, g) < MagnitudeAt(sqrt, dx, dy, h) ||
      (MagnitudeAt(sqrt, dx, dy, g) == MagnitudeAt(sqrt, dx, dy, h) && h <= g)
  }

  /** Of the `n` interleaved channels at `base`, the first with the largest gradient. */
  method StrongestChannel(sqrt: real -> real, dx: seq<real>, dy: seq<real>, base: nat, n: nat)
    returns (r: real, x: real, y: real, c: nat)
    requires 0 < n && base + n <= |dx| && base + n <= |dy|
    ensures c < n && IsStrongest(sqrt, dx, dy, base, base + n, base + c)
    ensures x == dx[base + c] && y == dy[base + c] && r == Magnitude(sqrt, x, y)
  {
    c, x, y := 0, dx[base], dy[base];
    r := Magnitude(sqrt, x, y);
    for ch := 1 to n
      invariant c < ch && IsStrongest(sqrt, dx, dy, base, base + ch, base + c)
      invariant x == dx[base + c] && y == dy[base + c] && r == Magnitude(sqrt, x, y)
    {
      var tx, ty := dx[base + ch], dy[base + ch];
      var magnitude := Magnitude(sqrt, tx, ty);
      assert magnitude == MagnitudeAt(sqrt, dx, dy, base + ch);
      if magnitude > r {
        r, c, x, y := magnitude, ch, tx, ty;
      }
    }
  }

  // ---------------------------------------------------------------- gradients along a direction

  /** The directions are unit vectors, and no two of them lie on one line. */
  ghost predicate Unit(c: Compass) {
    && c.Valid()
    && (forall k: nat :: k < NUM_SECTOR ==> c.x[k] * c.x[k] + c.y[k] * c.y[k] == 1.0)
    && forall j: nat, k: nat :: j < k < NUM_SECTOR ==>
      !(c.x[j] == c.x[k] && c.y[j] == c.y[k]) && !(c.x[j] == -c.x[k] && c.y[j] == -c.y[k])
  }

  lemma ScaledProduct(a: real, b: real, u: real, v: real, r: real, cosine: real)
    requires cosine == a * u + b * v
    ensures a * (r * u) + b * (r * v) == r * cosine
  {}

  /** The score of a gradient of length `r` along direction `k` is `r`. */
  lemma OwnScore(c: Compass, k: nat, r: real)
    requires Unit(c) && k < NUM_SECTOR
    ensures c.Dot(k, r * c.x[k], r * c.y[k]) == r
  {
    ScaledProduct(c.x[k], c.y[k], c.x[k], c.y[k], r, 1.0);
  }

  /** Two unit vectors on different lines: their product is between -1 and 1. */
  lemma CosineInside(a: real, b: real, u: real, v: real, cosine: real)
    requires a * a + b * b == 1.0 && u * u + v * v == 1.0 && cosine == a * u + b * v
    requires !(a == u && b == v) && !(a == -u && b == -v)
    ensures -1.0 < cosine < 1.0
  {
    Binomial(a, u, a - u, a + u);
    Binomial(b, v, b - v, b + v);
    SquarePositive(a - u);
    SquarePositive(a + u);
    SquarePositive(b - v);
    SquarePositive(b + v);
  }

  function Times(x: real, y: real): real {
    x * y
  }

  function Square(x: real): real {
    Times(x, x)
  }

  lemma Binomial(a: real, u: real, p: real, q: real)
    requires p == a - u && q == a + u
    ensures Square(p) == a * a - 2.0 * (a * u) + u * u
    ensures Square(q) == a * a + 2.0 * (a * u) + u * u
  {}

  lemma SquarePositive(x: real)
    ensures Square(x) >= 0.0 && (x != 0.0 ==> Square(x) > 0.0)
  {
    if x > 0.0 {
      PositiveSquare(x);
    } else if x < 0.0 {
      SameSquare(x, -x);
      PositiveSquare(-x);
    }
  }

  lemma PositiveSquare(x: real)
    requires x > 0.0
    ensures Square(x) > 0.0
  {
    TimesPositive(x, x);
  }

  lemma TimesPositive(x: real, y: real)
    requires x > 0.0 && y > 0.0
    ensures Times(x, y) > 0.0
  {}

  lemma SameSquare(x: real, y: real)
    requires y == -x
    ensures Square(x) == Square(y)
  {}

  lemma ProductPositive(x: real, y: real)
    requires x > 0.0 && y > 0.0
    ensures x * y > 0.0
  {}

  lemma Bounded(q: real, r: real)
    requires -1.0 < q < 1.0 && r > 0.0
    ensures -r < r * q < r
  {
    ProductPositive(1.0 - q, r);
    ProductPositive(1.0 + q, r);
  }

  /** In every other direction it is smaller. */
  lemma OtherScore(c: Compass, j: nat, k: nat, r: real)
    requires Unit(c) && j < NUM_SECTOR && k < NUM_SECTOR && j != k && r > 0.0
    ensures -r < c.Dot(j, r * c.x[k], r * c.y[k]) < r
  {
    var cosine := c.x[j] * c.x[k] + c.y[j] * c.y[k];
    CosineInside(c.x[j], c.y[j], c.x[k], c.y[k], cosine);
    DotScaled(c, j, c.x[k], c.y[k], r, cosine);
    ScoreBounded(c.Dot(j, r * c.x[k], r * c.y[k]), r, cosine);
  }

  lemma DotScaled(c: Compass, j: nat, u: real, v: real, r: real, cosine: real)
    requires c.Valid() && j < NUM_SECTOR && cosine == c.x[j] * u + c.y[j] * v
    ensures c.Dot(j, r * u, r * v) == r * cosine
  {
    ScaledProduct(c.x[j], c.y[j], u, v, r, cosine);
  }

  lemma ScoreBounded(score: real, r: real, cosine: real)
    requires score == r * cosine && -1.0 < cosine < 1.0 && r > 0.0
    ensures -r < score < r
  {
    Bounded(cosine, r);
  }

  /** A gradient along direction `k` gets sector `k`, the opposite one the opposite sector. */
  lemma SectorOfDirection(c: Compass, k: nat, r: real, m: nat)
    requires Unit(c) && k < NUM_SECTOR && r > 0.0
    ensures IsSector(c, r * c.x[k], r * c.y[k], m) ==> m == k
    ensures IsSector(c, -(r * c.x[k]), -(r * c.y[k]), m) ==> m == k + NUM_SECTOR
  {
    var gx, gy := r * c.x[k], r * c.y[k];
    AlongScores(c, k, r, gx, gy);
    OnlyBest(Scores(c, gx, gy), k, r, m);
    AgainstScores(c, k, r, gx, gy, Scores(c, -gx, -gy));
    OnlyBest(Scores(c, -gx, -gy), k + NUM_SECTOR, r, m);
  }

  lemma AlongScores(c: Compass, k: nat, r: real, gx: real, gy: real)
    requires Unit(c) && k < NUM_SECTOR && r > 0.0 && gx == r * c.x[k] && gy == r * c.y[k]
    ensures Scores(c, gx, gy)[k] == r
    ensures forall n: nat :: n < 2 * NUM_SECTOR && n != k ==> Scores(c, gx, gy)[n] < r
  {
    OwnScore(c, k, r);
    forall n: nat | n < 2 * NUM_SECTOR && n != k
      ensures Scores(c, gx, gy)[n] < r
    {
      OneScore(c, n, k, r, gx, gy);
    }
  }

  lemma OneScore(c: Compass, n: nat, k: nat, r: real, gx: real, gy: real)
    requires Unit(c) && k < NUM_SECTOR && r > 0.0 && gx == r * c.x[k] && gy == r * c.y[k]
    requires n < 2 * NUM_SECTOR && n != k
    ensures c.Signed(n, gx, gy) < r
  {
    if n == k + NUM_SECTOR {
      OwnScore(c, k, r);
    } else {
      OtherScore(c, n % NUM_SECTOR, k, r);
    }
  }

  lemma AgainstScores(c: Compass, k: nat, r: real, gx: real, gy: real, s: seq<real>)
    requires Unit(c) && k < NUM_SECTOR && r > 0.0 && gx == r * c.x[k] && gy == r * c.y[k] && s == Scores(c, -gx, -gy)
    ensures s[k + NUM_SECTOR] == r
    ensures forall n: nat :: n < 2 * NUM_SECTOR && n != k + NUM_SECTOR ==> s[n] < r
  {
    AlongScores(c, k, r, gx, gy);
    var t := Scores(c, gx, gy);
    forall n: nat | n < 2 * NUM_SECTOR
      ensures s[n] == t[Opposite(n)]
    {
      DotNegated(c, n % NUM_SECTOR, gx, gy);
    }
    assert Opposite(k + NUM_SECTOR) == k;
    forall n: nat | n < 2 * NUM_SECTOR && n != k + NUM_SECTOR
      ensures s[n] < r
    {
      assert Opposite(n) != k;
    }
  }

  lemma OnlyBest(s: seq<real>, k: nat, r: real, m: nat)
    requires k < |s| && s[k] == r && forall n: nat :: n < |s| && n != k ==> s[n] < r
    ensures IsBest(s, m) ==> m == k
  {}

  /** The magnitude is the length: its square is the sum of both squares. */
  lemma MagnitudeIsLength(sqrt: real -> real, gx: real, gy: real)
    requires IsRoot(sqrt)
    ensures Magnitude(sqrt, gx, gy) * Magnitude(sqrt, gx, gy) == gx * gx + gy * gy
  {
    SquarePositive(gx);
    SquarePositive(gy);
  }

  /** `sqrt` is a square root. */
  ghost predicate IsRoot(sqrt: real -> real) {
    forall v: real :: v >= 0.0 ==> sqrt(v) >= 0.0 && sqrt(v) * sqrt(v) == v
  }

  lemma MagnitudeOfDirection(sqrt: real -> real, c: Compass, k: nat, r: real)
    requires IsRoot(sqrt) && Unit(c) && k < NUM_SECTOR && r >= 0.0
    ensures Magnitude(sqrt, r * c.x[k], r * c.y[k]) == r
  {
    var gx, gy := r * c.x[k], r * c.y[k];
    assert gx * gx + gy * gy == r * r * (c.x[k] * c.x[k] + c.y[k] * c.y[k]);
    MagnitudeIsLength(sqrt, gx, gy);
    SameRoot(Magnitude(sqrt, gx, gy), r);
  }

  lemma SameRoot(a: real, b: real)
    requires a >= 0.0 && b >= 0.0 && a * a == b * b
    ensures a == b
  {
    if a < b {
      LessSquare(a, b);
    } else if b < a {
      LessSquare(b, a);
    }
  }

  lemma LessSquare(a: real, b: real)
    requires 0.0 <= a < b
    ensures a * a < b * b
  {
    var d := b - a;
    ProductPositive(d, b);
    RealSign(a, d);
    assert b * b == a * a + a * d + d * b;
  }
}
