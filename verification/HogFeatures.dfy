/** What normalisation, truncation and reduction owe every cell, and how the link between bins survives them. */
module HogFeatures {
  import opened Arithmetic
  import opened HogGradients
  import opened HogBins
  import opened HogVotes

  /** Features of a cell after normalisation, and after reduction. */
  const BLOCK_BINS := 12 * NUM_SECTOR
  const REDUCED := 3 * NUM_SECTOR + 4

  /** A feature map as a value. */
  datatype Grid = Grid(s: seq<real>, sizeX: nat, sizeY: nat, nf: nat) {
    predicate Valid() {
      |s| == sizeX * sizeY * nf
    }

    function Get(y: int, x: int, f: int): real {
      At(s, sizeX, nf, Bin(y, x, f))
    }

    predicate Cell(y: int, x: int) {
      0 <= y < sizeY && 0 <= x < sizeX
    }
  }

  // ---------------------------------------------------------------- what the stages mean

  /** Sum of squares of the first `n` (unsigned) bins of a cell. */
  function Energy(g: Grid, y: int, x: int, n: nat): real {
    if n == 0 then 0.0 else Energy(g, y, x, n - 1) + g.Get(y, x, n - 1) * g.Get(y, x, n - 1)
  }

  /** The four blocks a cell belongs to reach one cell down or up, and one right or left. */
  function Down(q: nat): int {
    if q % 2 == 0 then 1 else -1
  }

  function Right(q: nat): int {
    if q < 2 then 1 else -1
  }

  /** Energy of block `q` around cell (`y`, `x`). */
  function BlockEnergy(g: Grid, y: int, x: int, q: nat): real {
    Energy(g, y, x, NUM_SECTOR) + Energy(g, y, x + Right(q), NUM_SECTOR)
    + Energy(g, y + Down(q), x, NUM_SECTOR) + Energy(g, y + Down(q), x + Right(q), NUM_SECTOR)
  }

  function BlockNorm(sqrt: real -> real, eps: real, g: Grid, y: int, x: int, q: nat): real {
    sqrt(BlockEnergy(g, y, x, q)) + eps
  }

  function Truncate(value: real, alfa: real): real {
    if value > alfa then alfa else value
  }

  function Ratio(value: real, norm: real): real {
    if norm == 0.0 then 0.0 else value / norm
  }

  /** Which block and which histogram bin feature `f` of a normalised cell comes from. */
  function BlockOf(f: nat): nat {
    if f < 4 * NUM_SECTOR then f / NUM_SECTOR else (f - 4 * NUM_SECTOR) / (2 * NUM_SECTOR)
  }

  function BinOf(f: nat): nat {
    if f < 4 * NUM_SECTOR then f % NUM_SECTOR else NUM_SECTOR + (f - 4 * NUM_SECTOR) % (2 * NUM_SECTOR)
  }

  /** Feature `f` of the normalised cell whose histogram is cell (`y`, `x`) of `g`. */
  function Normalised(sqrt: real -> real, eps: real, g: Grid, y: int, x: int, f: nat): real {
    Ratio(g.Get(y, x, BinOf(f)), BlockNorm(sqrt, eps, g, y, x, BlockOf(f)))
  }

  /** `h` is `g` normalised and truncated, without its rim of cells. */
  ghost predicate IsNormalised(sqrt: real -> real, eps: real, alfa: real, g: Grid, h: Grid) {
    h.Valid() && h.nf == BLOCK_BINS && h.sizeX + 2 == g.sizeX && h.sizeY + 2 == g.sizeY &&
    forall y, x, f :: h.Cell(y, x) && 0 <= f < BLOCK_BINS ==>
      h.Get(y, x, f) == Truncate(Normalised(sqrt, eps, g, y + 1, x + 1, f), alfa)
  }

  /** Sum of `n` features of a cell, from `f` in steps of `step`. */
  function Features(g: Grid, y: int, x: int, f: int, step: int, n: nat): real {
    if n == 0 then 0.0 else Features(g, y, x, f, step, n - 1) + g.Get(y, x, f + (n - 1) * step)
  }

  /** Feature `f` of a reduced cell: signed bins, unsigned bins, then one texture feature a block. */
  function Reduced(g: Grid, nx: real, ny: real, y: int, x: int, f: int): real {
    if f < 2 * NUM_SECTOR then Features(g, y, x, 4 * NUM_SECTOR + f, 2 * NUM_SECTOR, 4) * ny
    else if f < 3 * NUM_SECTOR then Features(g, y, x, f - 2 * NUM_SECTOR, NUM_SECTOR, 4) * ny
    else Features(g, y, x, 4 * NUM_SECTOR + (f - 3 * NUM_SECTOR) * 2 * NUM_SECTOR, 1, 2 * NUM_SECTOR) * nx
  }

  ghost predicate IsReduced(nx: real, ny: real, g: Grid, h: Grid) {
    h.Valid() && h.nf == REDUCED && h.sizeX == g.sizeX && h.sizeY == g.sizeY &&
    forall y, x, f :: h.Cell(y, x) && 0 <= f < REDUCED ==> h.Get(y, x, f) == Reduced(g, nx, ny, y, x, f)
  }

  // ---------------------------------------------------------------- what survives each stage

  /** Histogram stage: the two signed bins of every direction add up to its unsigned bin. */
  ghost predicate ExactLink(g: Grid) {
    forall y, x, o :: g.Cell(y, x) && 0 <= o < NUM_SECTOR ==> Linked(Entries(g), y, x, o)
  }

  function Entries(g: Grid): Bin -> real {
    (b: Bin) => g.Get(b.y, b.x, b.f)
  }

  /** What remains of the link once values are cut off: between the larger and the sum. */
  predicate Between(u: real, s: real, t: real) {
    0.0 <= s <= u && 0.0 <= t <= u && u <= s + t
  }

  lemma TruncationKeepsBetween(u: real, s: real, t: real, norm: real, alfa: real)
    requires u == s + t && s >= 0.0 && t >= 0.0 && norm > 0.0 && alfa >= 0.0
    ensures Between(Truncate(Ratio(u, norm), alfa), Truncate(Ratio(s, norm), alfa), Truncate(Ratio(t, norm), alfa))
    ensures Truncate(Ratio(u, norm), alfa) <= alfa
  {
    assert (s + t) / norm == s / norm + t / norm;
    assert s / norm >= 0.0 && t / norm >= 0.0;
  }

  lemma {:induction false} EnergyNonNegative(g: Grid, y: int, x: int, n: nat)
    ensures Energy(g, y, x, n) >= 0.0
  {
    if n > 0 {
      EnergyNonNegative(g, y, x, n - 1);
    }
  }

  lemma NormPositive(sqrt: real -> real, eps: real, g: Grid, y: int, x: int, q: nat)
    requires RootSigns(sqrt) && eps > 0.0
    ensures BlockNorm(sqrt, eps, g, y, x, q) > 0.0
  {
    EnergyNonNegative(g, y, x, NUM_SECTOR);
    EnergyNonNegative(g, y, x + Right(q), NUM_SECTOR);
    EnergyNonNegative(g, y + Down(q), x, NUM_SECTOR);
    EnergyNonNegative(g, y + Down(q), x + Right(q), NUM_SECTOR);
  }

  /** Normalised stage: within every block the link holds between truncated values. */
  ghost predicate BlockLink(h: Grid, alfa: real, y: int, x: int, q: int, o: int) {
    var u, s := q * NUM_SECTOR + o, 4 * NUM_SECTOR + q * 2 * NUM_SECTOR + o;
    Between(h.Get(y, x, u), h.Get(y, x, s), h.Get(y, x, s + NUM_SECTOR)) && h.Get(y, x, u) <= alfa
  }

  lemma NormalisedLinked(sqrt: real -> real, eps: real, alfa: real, g: Grid, h: Grid, y: int, x: int, q: int, o: int)
    requires RootSigns(sqrt) && eps > 0.0 && alfa >= 0.0 && IsNormalised(sqrt, eps, alfa, g, h) && ExactLink(g)
    requires h.Cell(y, x) && 0 <= q < 4 && 0 <= o < NUM_SECTOR
    ensures BlockLink(h, alfa, y, x, q, o)
  {
    var u, s := q * NUM_SECTOR + o, 4 * NUM_SECTOR + q * 2 * NUM_SECTOR + o;
    Origin(q, o);
    assert g.Cell(y + 1, x + 1);
    assert Linked(Entries(g), y + 1, x + 1, o);
    NormPositive(sqrt, eps, g, y + 1, x + 1, q);
    TruncationKeepsBetween(g.Get(y + 1, x + 1, o), g.Get(y + 1, x + 1, NUM_SECTOR + o),
                           g.Get(y + 1, x + 1, 2 * NUM_SECTOR + o),
                           BlockNorm(sqrt, eps, g, y + 1, x + 1, q), alfa);
  }

  /** The three features a block derives from direction `o`. */
  lemma Origin(q: int, o: int)
    requires 0 <= q < 4 && 0 <= o < NUM_SECTOR
    ensures var u, s := q * NUM_SECTOR + o, 4 * NUM_SECTOR + q * 2 * NUM_SECTOR + o;
      && BlockOf(u) == q && BinOf(u) == o && BlockOf(s) == q && BinOf(s) == NUM_SECTOR + o
      && BlockOf(s + NUM_SECTOR) == q && BinOf(s + NUM_SECTOR) == 2 * NUM_SECTOR + o
      && 0 <= u < BLOCK_BINS && 0 <= s && s + NUM_SECTOR < BLOCK_BINS
  {}

  /** Reduced stage: the unsigned feature still lies between the larger signed one and their sum, and all are
      bounded. */
  ghost predicate WeakLink(h: Grid, bound: real, y: int, x: int, o: int) {
    Between(h.Get(y, x, 2 * NUM_SECTOR + o), h.Get(y, x, o), h.Get(y, x, NUM_SECTOR + o))
      && h.Get(y, x, 2 * NUM_SECTOR + o) <= bound
  }

  ghost predicate TextureBound(h: Grid, bound: real, y: int, x: int, q: int) {
    0.0 <= h.Get(y, x, 3 * NUM_SECTOR + q) <= bound
  }

  lemma FourFeatures(g: Grid, y: int, x: int, f: int, step: int)
    ensures Features(g, y, x, f, step, 4)
         == g.Get(y, x, f) + g.Get(y, x, f + step) + g.Get(y, x, f + 2 * step) + g.Get(y, x, f + 3 * step)
  {
    assert Features(g, y, x, f, step, 0) == 0.0;
    assert Features(g, y, x, f, step, 1) == g.Get(y, x, f + 0 * step);
    assert Features(g, y, x, f, step, 2) == Features(g, y, x, f, step, 1) + g.Get(y, x, f + 1 * step);
    assert Features(g, y, x, f, step, 3) == Features(g, y, x, f, step, 2) + g.Get(y, x, f + 2 * step);
  }

  lemma ScaledBetween(u: real, s: real, t: real, k: real, bound: real)
    requires Between(u, s, t) && u <= bound && k >= 0.0
    ensures Between(u * k, s * k, t * k) && u * k <= bound * k
  {
    RealMonotone(0.0, s, k);
    RealMonotone(0.0, t, k);
    RealMonotone(s, u, k);
    RealMonotone(t, u, k);
    RealMonotone(u, s + t, k);
    RealMonotone(u, bound, k);
    assert (s + t) * k == s * k + t * k;
  }

  /** Sums over the four blocks keep the link. */
  lemma BlocksBetween(g: Grid, alfa: real, y: int, x: int, o: int)
    requires forall q :: 0 <= q < 4 ==> BlockLink(g, alfa, y, x, q, o)
    ensures var u := Features(g, y, x, o, NUM_SECTOR, 4);
      && Between(u, Features(g, y, x, 4 * NUM_SECTOR + o, 2 * NUM_SECTOR, 4),
        Features(g, y, x, 5 * NUM_SECTOR + o, 2 * NUM_SECTOR, 4))
      && u <= 4.0 * alfa
  {
    assert BlockLink(g, alfa, y, x, 0, o) && BlockLink(g, alfa, y, x, 1, o) && BlockLink(g, alfa, y, x, 2, o);
    assert BlockLink(g, alfa, y, x, 3, o);
    FourFeatures(g, y, x, o, NUM_SECTOR);
    FourFeatures(g, y, x, 4 * NUM_SECTOR + o, 2 * NUM_SECTOR);
    FourFeatures(g, y, x, 5 * NUM_SECTOR + o, 2 * NUM_SECTOR);
  }

  lemma DirectionReduced(g: Grid, h: Grid, nx: real, ny: real, alfa: real, y: int, x: int, o: int)
    requires IsReduced(nx, ny, g, h) && h.Cell(y, x) && 0 <= o < NUM_SECTOR && ny >= 0.0
    requires forall q :: 0 <= q < 4 ==> BlockLink(g, alfa, y, x, q, o)
    ensures WeakLink(h, 4.0 * alfa * ny, y, x, o)
  {
    BlocksBetween(g, alfa, y, x, o);
    ReducedTriple(g, h, nx, ny, y, x, o);
    LinkOf(h, 4.0 * alfa, ny, y, x, o,
           Features(g, y, x, o, NUM_SECTOR, 4), Features(g, y, x, 4 * NUM_SECTOR + o, 2 * NUM_SECTOR, 4),
           Features(g, y, x, 5 * NUM_SECTOR + o, 2 * NUM_SECTOR, 4));
  }

  lemma LinkOf(h: Grid, bound: real, ny: real, y: int, x: int, o: int, u: real, s: real, t: real)
    requires h.Get(y, x, o) == s * ny && h.Get(y, x, NUM_SECTOR + o) == t * ny
    requires h.Get(y, x, 2 * NUM_SECTOR + o) == u * ny
    requires Between(u, s, t) && u <= bound && ny >= 0.0
    ensures WeakLink(h, bound * ny, y, x, o)
  {
    ScaledBetween(u, s, t, ny, bound);
  }

  /** The three reduced features of a direction. */
  lemma ReducedTriple(g: Grid, h: Grid, nx: real, ny: real, y: int, x: int, o: int)
    requires IsReduced(nx, ny, g, h) && h.Cell(y, x) && 0 <= o < NUM_SECTOR
    ensures h.Get(y, x, o) == Features(g, y, x, 4 * NUM_SECTOR + o, 2 * NUM_SECTOR, 4) * ny
    ensures h.Get(y, x, NUM_SECTOR + o) == Features(g, y, x, 5 * NUM_SECTOR + o, 2 * NUM_SECTOR, 4) * ny
    ensures h.Get(y, x, 2 * NUM_SECTOR + o) == Features(g, y, x, o, NUM_SECTOR, 4) * ny
  {
    assert h.Get(y, x, o) == Reduced(g, nx, ny, y, x, o);
    assert h.Get(y, x, NUM_SECTOR + o) == Reduced(g, nx, ny, y, x, NUM_SECTOR + o);
    assert h.Get(y, x, 2 * NUM_SECTOR + o) == Reduced(g, nx, ny, y, x, 2 * NUM_SECTOR + o);
  }

  /** A signed feature of block `q`. */
  lemma SignedFeature(g: Grid, alfa: real, y: int, x: int, q: int, n: int)
    requires 0 <= n < 2 * NUM_SECTOR && 0 <= q < 4 && forall o :: 0 <= o < NUM_SECTOR ==> BlockLink(g, alfa, y, x, q, o)
    ensures 0.0 <= g.Get(y, x, 4 * NUM_SECTOR + q * 2 * NUM_SECTOR + n) <= alfa
  {
    assert BlockLink(g, alfa, y, x, q, if n < NUM_SECTOR then n else n - NUM_SECTOR);
  }

  lemma {:induction false} TextureSum(g: Grid, alfa: real, y: int, x: int, q: int, n: nat)
    requires n <= 2 * NUM_SECTOR && 0 <= q < 4 && forall o :: 0 <= o < NUM_SECTOR ==> BlockLink(g, alfa, y, x, q, o)
    ensures 0.0 <= Features(g, y, x, 4 * NUM_SECTOR + q * 2 * NUM_SECTOR, 1, n) <= n as real * alfa
  {
    if n > 0 {
      TextureSum(g, alfa, y, x, q, n - 1);
      SignedFeature(g, alfa, y, x, q, n - 1);
      assert n as real * alfa == (n - 1) as real * alfa + alfa;
    }
  }

  lemma TextureReduced(g: Grid, h: Grid, nx: real, ny: real, alfa: real, y: int, x: int, q: int)
    requires IsReduced(nx, ny, g, h) && h.Cell(y, x) && 0 <= q < 4 && nx >= 0.0
    requires forall o :: 0 <= o < NUM_SECTOR ==> BlockLink(g, alfa, y, x, q, o)
    ensures TextureBound(h, 18.0 * alfa * nx, y, x, q)
  {
    TextureSum(g, alfa, y, x, q, 2 * NUM_SECTOR);
    var t := Features(g, y, x, 4 * NUM_SECTOR + q * 2 * NUM_SECTOR, 1, 2 * NUM_SECTOR);
    assert t * nx >= 0.0 && (18.0 * alfa - t) * nx >= 0.0;
  }

  /** Every feature of a finished map. */
  ghost predicate Finished(h: Grid, bins: real, textures: real) {
    (forall y, x, o :: h.Cell(y, x) && 0 <= o < NUM_SECTOR ==> WeakLink(h, bins, y, x, o)) &&
    (forall y, x, q :: h.Cell(y, x) && 0 <= q < 4 ==> TextureBound(h, textures, y, x, q))
  }

  /** Truncation bounds every orientation feature and every texture feature. */
  function BinBound(alfa: real, ny: real): real {
    4.0 * alfa * ny
  }

  function TextureLimit(alfa: real, nx: real): real {
    18.0 * alfa * nx
  }

  /** The link of the histogram survives all three stages, weakened. */
  lemma LinkSurvives(sqrt: real -> real, eps: real, alfa: real, nx: real, ny: real, g: Grid, n: Grid, h: Grid)
    requires RootSigns(sqrt) && eps > 0.0 && alfa >= 0.0 && nx >= 0.0 && ny >= 0.0
    requires ExactLink(g) && IsNormalised(sqrt, eps, alfa, g, n) && IsReduced(nx, ny, n, h)
    ensures Finished(h, BinBound(alfa, ny), TextureLimit(alfa, nx))
  {
    forall y, x, q, o | h.Cell(y, x) && 0 <= q < 4 && 0 <= o < NUM_SECTOR
      ensures BlockLink(n, alfa, y, x, q, o)
    {
      NormalisedLinked(sqrt, eps, alfa, g, n, y, x, q, o);
    }
    var bins, textures := BinBound(alfa, ny), TextureLimit(alfa, nx);
    forall y, x, o | h.Cell(y, x) && 0 <= o < NUM_SECTOR
      ensures WeakLink(h, bins, y, x, o)
    {
      DirectionReduced(n, h, nx, ny, alfa, y, x, o);
    }
    forall y, x, q | h.Cell(y, x) && 0 <= q < 4
      ensures TextureBound(h, textures, y, x, q)
    {
      TextureReduced(n, h, nx, ny, alfa, y, x, q);
    }
  }

  // ---------------------------------------------------------------- the features in terms of the histogram

  function Sq(x: real): real {
    x * x
  }

  /** The squares of a cell's nine unsigned bins. */
  function NineSquares(g: Grid, y: int, x: int): real {
    Sq(g.Get(y, x, 0)) + Sq(g.Get(y, x, 1)) + Sq(g.Get(y, x, 2)) + Sq(g.Get(y, x, 3)) + Sq(g.Get(y, x, 4))
    + Sq(g.Get(y, x, 5)) + Sq(g.Get(y, x, 6)) + Sq(g.Get(y, x, 7)) + Sq(g.Get(y, x, 8))
  }

  lemma ThreeMore(g: Grid, y: int, x: int, n: nat)
    ensures Energy(g, y, x, n + 3)
         == Energy(g, y, x, n) + Sq(g.Get(y, x, n)) + Sq(g.Get(y, x, n + 1)) + Sq(g.Get(y, x, n + 2))
  {
    assert Energy(g, y, x, n + 1) == Energy(g, y, x, n) + Sq(g.Get(y, x, n));
    assert Energy(g, y, x, n + 2) == Energy(g, y, x, n + 1) + Sq(g.Get(y, x, n + 1));
  }

  lemma EnergyIsNine(g: Grid, y: int, x: int)
    ensures Energy(g, y, x, 9) == NineSquares(g, y, x)
  {
    ThreeMore(g, y, x, 0);
    ThreeMore(g, y, x, 3);
    ThreeMore(g, y, x, 6);
  }

  /** A block has one norm, whichever of its four cells it is looked at from. */
  lemma BlockShared(sqrt: real -> real, eps: real, g: Grid, y: int, x: int)
    ensures BlockNorm(sqrt, eps, g, y, x, 0) == BlockNorm(sqrt, eps, g, y + 1, x, 1)
    ensures BlockNorm(sqrt, eps, g, y, x, 0) == BlockNorm(sqrt, eps, g, y, x + 1, 2)
    ensures BlockNorm(sqrt, eps, g, y, x, 0) == BlockNorm(sqrt, eps, g, y + 1, x + 1, 3)
  {
    assert BlockEnergy(g, y, x, 0) == BlockEnergy(g, y + 1, x, 1);
    assert BlockEnergy(g, y, x, 0) == BlockEnergy(g, y, x + 1, 2);
    assert BlockEnergy(g, y, x, 0) == BlockEnergy(g, y + 1, x + 1, 3);
  }

  /** Less `eps`, it is the root of the squares of the unsigned bins of exactly these four cells. */
  lemma BlockSquares(sqrt: real -> real, eps: real, g: Grid, y: int, x: int)
    requires IsRoot(sqrt)
    ensures Sq(BlockNorm(sqrt, eps, g, y, x, 0) - eps)
         == NineSquares(g, y, x) + NineSquares(g, y, x + 1) + NineSquares(g, y + 1, x) + NineSquares(g, y + 1, x + 1)
  {
    EnergyIsNine(g, y, x);
    EnergyIsNine(g, y, x + 1);
    EnergyIsNine(g, y + 1, x);
    EnergyIsNine(g, y + 1, x + 1);
    EnergyNonNegative(g, y, x, 9);
    EnergyNonNegative(g, y, x + 1, 9);
    EnergyNonNegative(g, y + 1, x, 9);
    EnergyNonNegative(g, y + 1, x + 1, 9);
    RootOf(sqrt, eps, BlockEnergy(g, y, x, 0), BlockNorm(sqrt, eps, g, y, x, 0));
  }

  lemma RootOf(sqrt: real -> real, eps: real, e: real, norm: real)
    requires IsRoot(sqrt) && e >= 0.0 && norm == sqrt(e) + eps
    ensures Sq(norm - eps) == e
  {
    assert norm - eps == sqrt(e);
  }

  /** A histogram value over a block norm, cut off at the threshold. */
  function Share(alfa: real, value: real, norm: real): real {
    Truncate(Ratio(value, norm), alfa)
  }

  /** Up to the threshold it is the value in units of the norm, from there on the threshold. */
  lemma ShareIs(alfa: real, value: real, norm: real)
    requires norm > 0.0
    ensures value <= alfa * norm ==> Share(alfa, value, norm) * norm == value
    ensures value >= alfa * norm ==> Share(alfa, value, norm) == alfa
  {
    var q := value / norm;
    assert q * norm == value;
    if q > alfa {
      ProductPositive(q - alfa, norm);
    } else if q < alfa {
      ProductPositive(alfa - q, norm);
    }
  }

  /** Positions of unsigned bin `o` and signed bin `t` of block `q` in a normalised cell. */
  function UnsignedPlace(q: nat, o: nat): nat {
    9 * q + o
  }

  function SignedPlace(q: nat, t: nat): nat {
    36 + 18 * q + t
  }

  /** Cell (`y`, `x`) of `h` holds every bin of a histogram over each of four norms. */
  ghost predicate InBlocks(h: Grid, hist: seq<real>, alfa: real, y: int, x: int, norms: seq<real>) {
    && |norms| == 4 && |hist| == CELL_BINS
    && (forall q: nat, o: nat :: q < 4 && o < 9 ==>
         h.Get(y, x, UnsignedPlace(q, o)) == Share(alfa, hist[o], norms[q]))
    && (forall q: nat, t: nat :: q < 4 && t < 18 ==>
         h.Get(y, x, SignedPlace(q, t)) == Share(alfa, hist[9 + t], norms[q]))
  }

  /** A normalised cell does: the histogram is the one a cell down and right, the norms are those of its four blocks. */
  lemma NormalisedCell(sqrt: real -> real, eps: real, alfa: real, g: Grid, h: Grid, y: int, x: int, hist: seq<real>,
                       norms: seq<real>)
    requires IsNormalised(sqrt, eps, alfa, g, h) && h.Cell(y, x) && |norms| == 4 && |hist| == CELL_BINS
    requires forall b: nat :: b < CELL_BINS ==> hist[b] == g.Get(y + 1, x + 1, b)
    requires forall q: nat :: q < 4 ==> norms[q] == BlockNorm(sqrt, eps, g, y + 1, x + 1, q)
    ensures InBlocks(h, hist, alfa, y, x, norms)
  {
    forall q: nat, o: nat | q < 4 && o < 9
      ensures h.Get(y, x, UnsignedPlace(q, o)) == Share(alfa, hist[o], norms[q])
    {
      assert BlockOf(9 * q + o) == q && BinOf(9 * q + o) == o;
    }
    forall q: nat, t: nat | q < 4 && t < 18
      ensures h.Get(y, x, SignedPlace(q, t)) == Share(alfa, hist[9 + t], norms[q])
    {
      assert BlockOf(36 + 18 * q + t) == q && BinOf(36 + 18 * q + t) == 9 + t;
    }
  }

  /** The shares of a value in four blocks. */
  function FourShares(alfa: real, value: real, norms: seq<real>): real
    requires |norms| == 4
  {
    Share(alfa, value, norms[0]) + Share(alfa, value, norms[1])
    + Share(alfa, value, norms[2]) + Share(alfa, value, norms[3])
  }

  /** The shares of the first `n` signed bins in one block. */
  function SignedShares(alfa: real, hist: seq<real>, n: nat, norm: real): real
    requires n <= 18 && |hist| == CELL_BINS
  {
    if n == 0 then 0.0 else SignedShares(alfa, hist, n - 1, norm) + Share(alfa, hist[9 + (n - 1)], norm)
  }

  lemma ReducedAt(nx: real, ny: real, h: Grid, m: Grid, y: int, x: int, f: nat)
    requires IsReduced(nx, ny, h, m) && m.Cell(y, x) && f < REDUCED
    ensures m.Get(y, x, f) == Reduced(h, nx, ny, y, x, f)
  {}

  /** From histogram to finished feature: a signed feature is the sum of its bin's shares in the four blocks. */
  lemma SignedMeaning(alfa: real, nx: real, ny: real, hist: seq<real>, h: Grid, m: Grid, y: int, x: int,
                      norms: seq<real>, t: nat)
    requires InBlocks(h, hist, alfa, y, x, norms) && IsReduced(nx, ny, h, m) && m.Cell(y, x) && t < 18
    ensures m.Get(y, x, t) == FourShares(alfa, hist[9 + t], norms) * ny
  {
    SignedSum(alfa, hist, h, y, x, norms, t);
    SignedReduced(nx, ny, h, m, y, x, t, FourShares(alfa, hist[9 + t], norms));
  }

  lemma SignedSum(alfa: real, hist: seq<real>, h: Grid, y: int, x: int, norms: seq<real>, t: nat)
    requires InBlocks(h, hist, alfa, y, x, norms) && t < 18
    ensures Features(h, y, x, 36 + t, 18, 4) == FourShares(alfa, hist[9 + t], norms)
  {
    FourFeatures(h, y, x, 36 + t, 18);
    assert SignedPlace(0, t) == 36 + t && SignedPlace(1, t) == 54 + t;
    assert SignedPlace(2, t) == 72 + t && SignedPlace(3, t) == 90 + t;
  }

  lemma SignedReduced(nx: real, ny: real, h: Grid, m: Grid, y: int, x: int, t: nat, sum: real)
    requires IsReduced(nx, ny, h, m) && m.Cell(y, x) && t < 18 && Features(h, y, x, 36 + t, 18, 4) == sum
    ensures m.Get(y, x, t) == sum * ny
  {
    ReducedAt(nx, ny, h, m, y, x, t);
  }

  /** So is an unsigned one. */
  lemma UnsignedMeaning(alfa: real, nx: real, ny: real, hist: seq<real>, h: Grid, m: Grid, y: int, x: int,
                        norms: seq<real>, o: nat)
    requires InBlocks(h, hist, alfa, y, x, norms) && IsReduced(nx, ny, h, m) && m.Cell(y, x) && o < 9
    ensures m.Get(y, x, 18 + o) == FourShares(alfa, hist[o], norms) * ny
  {
    UnsignedSum(alfa, hist, h, y, x, norms, o);
    UnsignedReduced(nx, ny, h, m, y, x, o, FourShares(alfa, hist[o], norms));
  }

  lemma UnsignedSum(alfa: real, hist: seq<real>, h: Grid, y: int, x: int, norms: seq<real>, o: nat)
    requires InBlocks(h, hist, alfa, y, x, norms) && o < 9
    ensures Features(h, y, x, o, 9, 4) == FourShares(alfa, hist[o], norms)
  {
    FourFeatures(h, y, x, o, 9);
    assert UnsignedPlace(0, o) == o && UnsignedPlace(1, o) == 9 + o;
    assert UnsignedPlace(2, o) == 18 + o && UnsignedPlace(3, o) == 27 + o;
  }

  lemma UnsignedReduced(nx: real, ny: real, h: Grid, m: Grid, y: int, x: int, o: nat, sum: real)
    requires IsReduced(nx, ny, h, m) && m.Cell(y, x) && o < 9 && Features(h, y, x, o, 9, 4) == sum
    ensures m.Get(y, x, 18 + o) == sum * ny
  {
    ReducedAt(nx, ny, h, m, y, x, 18 + o);
  }

  /** A texture feature is the sum of all signed bins' shares in its block. */
  lemma TextureMeaning(alfa: real, nx: real, ny: real, hist: seq<real>, h: Grid, m: Grid, y: int, x: int,
                       norms: seq<real>, q: nat)
    requires InBlocks(h, hist, alfa, y, x, norms) && IsReduced(nx, ny, h, m) && m.Cell(y, x) && q < 4
    ensures m.Get(y, x, 27 + q) == SignedShares(alfa, hist, 18, norms[q]) * nx
  {
    TextureShares(alfa, hist, h, y, x, norms, q, 18);
    ReducedAt(nx, ny, h, m, y, x, 27 + q);
  }

  lemma {:induction false} TextureShares(alfa: real, hist: seq<real>, h: Grid, y: int, x: int, norms: seq<real>, q: nat,
                                         n: nat)
    requires InBlocks(h, hist, alfa, y, x, norms) && q < 4 && n <= 18
    ensures Features(h, y, x, 36 + 18 * q, 1, n) == SignedShares(alfa, hist, n, norms[q])
  {
    if n > 0 {
      TextureShares(alfa, hist, h, y, x, norms, q, n - 1);
      assert SignedPlace(q, n - 1) == 36 + 18 * q + (n - 1);
    }
  }
}
