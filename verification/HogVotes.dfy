/** Accumulation of the pixel votes into the cell histograms, and what the accumulated map means. */
module HogVotes {
  import opened Arithmetic
  import opened HogGradients
  import opened HogBins

  /** One entry of the map. */
  datatype Bin = Bin(y: int, x: int, f: int)

  /** The recorded pixels of an image cut into cells of size `k`. */
  datatype Votes = Votes(k: nat, width: nat, height: nat, r: seq<real>, alfa: seq<nat>) {
    function SizeX(): nat
      requires k > 0
    {
      width / k
    }

    function SizeY(): nat
      requires k > 0
    {
      height / k
    }

    predicate Has(b: Bin)
      requires k > 0
    {
      0 <= b.y < SizeY() && 0 <= b.x < SizeX() && 0 <= b.f < CELL_BINS
    }

    function Dense(py: nat, px: nat): nat {
      MulMonotone(0, py, width);
      py * width + px
    }

    /** Every inner pixel carries a magnitude and a matching pair of bins. */
    ghost predicate Valid() {
      k > 0 && forall py: nat, px: nat :: Inner(width, height, py, px) ==> PixelValid(Dense(py, px))
    }

    predicate PixelValid(d: nat) {
      d < |r| && 2 * d + 1 < |alfa| && r[d] >= 0.0 && alfa[2 * d + 1] < 2 * NUM_SECTOR
      && alfa[2 * d] == alfa[2 * d + 1] % NUM_SECTOR
    }
  }

  /** A pixel of signed sector `m` votes for one unsigned and one signed bin. */
  predicate Selects(m: nat, f: int) {
    f == m % NUM_SECTOR || f == m + NUM_SECTOR
  }

  /** What pixel (`py`, `px`) adds to bin `b`: its magnitude, weighted by both distances. */
  ghost function PixelGain(v: Votes, py: nat, px: nat, b: Bin): real
    requires v.Valid()
  {
    if Inner(v.width, v.height, py, px) && Selects(v.alfa[2 * v.Dense(py, px) + 1], b.f)
    then Weigh(v.r[v.Dense(py, px)], Hat(v.k, py, b.y), Hat(v.k, px, b.x))
    else 0.0
  }

  /** A magnitude with its row and column weights. */
  function Weigh(r: real, a: real, b: real): real {
    r * a * b
  }

  /** What the first `n` pixels of cell column `j` add in pixel row `py`. */
  ghost function RowGain(v: Votes, py: nat, j: nat, n: nat, b: Bin): real
    requires v.Valid()
  {
    if n == 0 then 0.0 else RowGain(v, py, j, n - 1, b) + PixelGain(v, py, j * v.k + (n - 1), b)
  }

  /** The first `n` pixel rows of cell (`i`, `j`). */
  ghost function CellGain(v: Votes, i: nat, j: nat, n: nat, b: Bin): real
    requires v.Valid()
  {
    if n == 0 then 0.0 else CellGain(v, i, j, n - 1, b) + RowGain(v, i * v.k + (n - 1), j, v.k, b)
  }

  /** The first `n` cells of cell row `i`. */
  ghost function BandGain(v: Votes, i: nat, n: nat, b: Bin): real
    requires v.Valid()
  {
    if n == 0 then 0.0 else BandGain(v, i, n - 1, b) + CellGain(v, i, n - 1, v.k, b)
  }

  /** The first `n` cell rows. */
  ghost function MapGain(v: Votes, n: nat, b: Bin): real
    requires v.Valid()
  {
    if n == 0 then 0.0 else MapGain(v, n - 1, b) + BandGain(v, n - 1, v.SizeX(), b)
  }

  /** The finished histogram bin: all pixels of all whole cells. */
  ghost function Histogram(v: Votes, b: Bin): real
    requires v.Valid()
  {
    MapGain(v, v.SizeY(), b)
  }

  /** Away from the map's rim nothing of a pixel's magnitude is lost or invented. */
  lemma VoteConserved(k: nat, ii: nat, jj: nat, r: real)
    requires ii < k && jj < k
    ensures var a0, a1, b0, b1 := OwnWeight(k, ii), NearWeight(k, ii), OwnWeight(k, jj), NearWeight(k, jj);
      Weigh(r, a0, b0) + Weigh(r, a1, b0) + Weigh(r, a0, b1) + Weigh(r, a1, b1) == r
  {
    WeightsShareOne(k, ii);
    WeightsShareOne(k, jj);
    var a0, a1, b0, b1 := OwnWeight(k, ii), NearWeight(k, ii), OwnWeight(k, jj), NearWeight(k, jj);
    assert r * a0 * b0 + r * a0 * b1 == r * a0 * (b0 + b1);
    assert r * a1 * b0 + r * a1 * b1 == r * a1 * (b0 + b1);
    assert r * a0 + r * a1 == r * (a0 + a1);
  }

  // ---------------------------------------------------------------- the vote of one pixel

  /** No other pixel carries a magnitude. */
  ghost predicate Alone(v: Votes, py: nat, px: nat)
    requires v.Valid()
  {
    forall y: nat, x: nat :: Inner(v.width, v.height, y, x) && !(y == py && x == px) ==> v.r[v.Dense(y, x)] == 0.0
  }

  lemma NoGain(v: Votes, py: nat, px: nat, y: nat, x: nat, b: Bin)
    requires v.Valid() && Alone(v, py, px) && !(y == py && x == px)
    ensures PixelGain(v, y, x, b) == 0.0
  {}

  lemma {:induction false} RowAlone(v: Votes, py: nat, px: nat, y: nat, j: nat, n: nat, b: Bin)
    requires v.Valid() && Alone(v, py, px)
    ensures RowGain(v, y, j, n, b) == if y == py && j * v.k <= px < j * v.k + n then PixelGain(v, py, px, b) else 0.0
  {
    if n > 0 {
      RowAlone(v, py, px, y, j, n - 1, b);
      MulMonotone(0, j, v.k);
      var x := j * v.k + (n - 1);
      if !(y == py && x == px) {
        NoGain(v, py, px, y, x, b);
      }
    }
  }

  lemma {:induction false} CellAlone(v: Votes, py: nat, px: nat, i: nat, j: nat, n: nat, b: Bin)
    requires v.Valid() && Alone(v, py, px)
    ensures CellGain(v, i, j, n, b)
         == if i * v.k <= py < i * v.k + n && j * v.k <= px < j * v.k + v.k then PixelGain(v, py, px, b) else 0.0
  {
    if n > 0 {
      CellAlone(v, py, px, i, j, n - 1, b);
      MulMonotone(0, i, v.k);
      RowAlone(v, py, px, i * v.k + (n - 1), j, v.k, b);
    }
  }

  lemma {:induction false} BandAlone(v: Votes, py: nat, px: nat, i: nat, n: nat, b: Bin)
    requires v.Valid() && Alone(v, py, px)
    ensures BandGain(v, i, n, b)
         == if i * v.k <= py < i * v.k + v.k && px < n * v.k then PixelGain(v, py, px, b) else 0.0
  {
    if n > 0 {
      BandAlone(v, py, px, i, n - 1, b);
      CellAlone(v, py, px, i, n - 1, v.k, b);
      Distribute(n - 1, 1, v.k);
      MulMonotone(0, n - 1, v.k);
    }
  }

  lemma {:induction false} MapAlone(v: Votes, py: nat, px: nat, n: nat, b: Bin)
    requires v.Valid() && Alone(v, py, px)
    ensures MapGain(v, n, b) == if py < n * v.k && px < v.SizeX() * v.k then PixelGain(v, py, px, b) else 0.0
  {
    if n > 0 {
      MapAlone(v, py, px, n - 1, b);
      BandAlone(v, py, px, n - 1, v.SizeX(), b);
      Distribute(n - 1, 1, v.k);
      MulMonotone(0, n - 1, v.k);
    }
  }

  /**
   The histogram of a single inner pixel of signed sector `m`, in whole cells: its magnitude times both weights in the
   unsigned bin `m` modulo 9 and in the signed bin 9 + `m`, and nothing elsewhere.
   */
  lemma SinglePixel(v: Votes, py: nat, px: nat, d: nat, b: Bin)
    requires v.Valid() && Alone(v, py, px) && Inner(v.width, v.height, py, px) && d == py * v.width + px
    requires py < v.SizeY() * v.k && px < v.SizeX() * v.k
    ensures 2 * d + 1 < |v.alfa| && d < |v.r|
    ensures Histogram(v, b)
         == if b.f == v.alfa[2 * d + 1] % 9 || b.f == 9 + v.alfa[2 * d + 1]
            then v.r[d] * Hat(v.k, py, b.y) * Hat(v.k, px, b.x) else 0.0
  {
    MapAlone(v, py, px, v.SizeY(), b);
    OwnGain(v, py, px, d, b);
  }

  /** A pixel on the border of the image, or outside whole cells, does not vote. */
  lemma BorderSilent(v: Votes, py: nat, px: nat, b: Bin)
    requires v.Valid() && Alone(v, py, px)
    requires !(0 < py < v.height - 1 && 0 < px < v.width - 1) || py >= v.SizeY() * v.k || px >= v.SizeX() * v.k
    ensures Histogram(v, b) == 0.0
  {
    MapAlone(v, py, px, v.SizeY(), b);
  }

  lemma OwnGain(v: Votes, py: nat, px: nat, d: nat, b: Bin)
    requires v.Valid() && Inner(v.width, v.height, py, px) && d == v.Dense(py, px)
    ensures 2 * d + 1 < |v.alfa| && d < |v.r|
    ensures PixelGain(v, py, px, b)
         == if b.f == v.alfa[2 * d + 1] % 9 || b.f == 9 + v.alfa[2 * d + 1]
            then v.r[d] * Hat(v.k, py, b.y) * Hat(v.k, px, b.x) else 0.0
  {
    assert v.PixelValid(v.Dense(py, px));
  }

  // ---------------------------------------------------------------- the invariant of the bins

  /** Unsigned bin `o` collects exactly the votes of the two signed bins of its direction, and no bin is negative. */
  ghost predicate Linked(gain: Bin -> real, y: int, x: int, o: int) {
    gain(Bin(y, x, o)) == gain(Bin(y, x, NUM_SECTOR + o)) + gain(Bin(y, x, 2 * NUM_SECTOR + o))
    && gain(Bin(y, x, o)) >= 0.0 && gain(Bin(y, x, NUM_SECTOR + o)) >= 0.0 && gain(Bin(y, x, 2 * NUM_SECTOR + o)) >= 0.0
  }

  lemma HatNonNegative(k: nat, p: nat, y: int)
    requires k > 0
    ensures 0.0 <= Hat(k, p, y) <= 1.0
  {
    WeightsShareOne(k, p % k);
  }

  lemma PixelLinked(v: Votes, py: nat, px: nat, y: int, x: int, o: int)
    requires v.Valid() && 0 <= o < NUM_SECTOR
    ensures Linked(b => PixelGain(v, py, px, b), y, x, o)
  {
    if Inner(v.width, v.height, py, px) {
      var d := v.Dense(py, px);
      assert v.PixelValid(d);
      HatNonNegative(v.k, py, y);
      HatNonNegative(v.k, px, x);
      NonNegativeProduct(v.r[d], Hat(v.k, py, y), Hat(v.k, px, x));
      OneSense(v.alfa[2 * d + 1], o);
    }
  }

  lemma NonNegativeProduct(r: real, a: real, b: real)
    requires r >= 0.0 && a >= 0.0 && b >= 0.0
    ensures Weigh(r, a, b) >= 0.0
  {
    assert r * a >= 0.0;
  }

  lemma OneSense(m: nat, o: int)
    requires m < 2 * NUM_SECTOR && 0 <= o < NUM_SECTOR
    ensures Selects(m, o) <==> Selects(m, NUM_SECTOR + o) || Selects(m, 2 * NUM_SECTOR + o)
    ensures !(Selects(m, NUM_SECTOR + o) && Selects(m, 2 * NUM_SECTOR + o))
  {}

  lemma {:induction false} RowLinked(v: Votes, py: nat, j: nat, n: nat, y: int, x: int, o: int)
    requires v.Valid() && 0 <= o < NUM_SECTOR
    ensures Linked(b => RowGain(v, py, j, n, b), y, x, o)
  {
    if n > 0 {
      RowLinked(v, py, j, n - 1, y, x, o);
      PixelLinked(v, py, j * v.k + (n - 1), y, x, o);
    }
  }

  lemma {:induction false} CellLinked(v: Votes, i: nat, j: nat, n: nat, y: int, x: int, o: int)
    requires v.Valid() && 0 <= o < NUM_SECTOR
    ensures Linked(b => CellGain(v, i, j, n, b), y, x, o)
  {
    if n > 0 {
      CellLinked(v, i, j, n - 1, y, x, o);
      RowLinked(v, i * v.k + (n - 1), j, v.k, y, x, o);
    }
  }

  lemma {:induction false} BandLinked(v: Votes, i: nat, n: nat, y: int, x: int, o: int)
    requires v.Valid() && 0 <= o < NUM_SECTOR
    ensures Linked(b => BandGain(v, i, n, b), y, x, o)
  {
    if n > 0 {
      BandLinked(v, i, n - 1, y, x, o);
      CellLinked(v, i, n - 1, v.k, y, x, o);
    }
  }

  lemma {:induction false} MapLinked(v: Votes, n: nat, y: int, x: int, o: int)
    requires v.Valid() && 0 <= o < NUM_SECTOR
    ensures Linked(b => MapGain(v, n, b), y, x, o)
  {
    if n > 0 {
      MapLinked(v, n - 1, y, x, o);
      BandLinked(v, n - 1, v.SizeX(), y, x, o);
    }
  }

  /** Every finished cell is linked: the two signed bins of a direction add up to its unsigned bin. */
  lemma HistogramLinked(v: Votes, y: int, x: int, o: int)
    requires v.Valid() && 0 <= o < NUM_SECTOR
    ensures Linked(b => Histogram(v, b), y, x, o)
  {
    MapLinked(v, v.SizeY(), y, x, o);
  }

  // ---------------------------------------------------------------- the flat map

  /** Position of a bin in a flat map of `nf` features a cell. */
  function Slot(sizeX: nat, nf: nat, b: Bin): int {
    (b.y * sizeX + b.x) * nf + b.f
  }

  lemma SlotInRange(sizeX: nat, sizeY: nat, nf: nat, b: Bin)
    requires 0 <= b.y < sizeY && 0 <= b.x < sizeX && 0 <= b.f < nf
    ensures 0 <= (b.y * sizeX + b.x) * nf && 0 <= Slot(sizeX, nf, b) < sizeX * sizeY * nf
  {
    MulStrict(b.y, sizeY, sizeX);
    MulMonotone(0, b.y, sizeX);
    MulStrict(b.y * sizeX + b.x, sizeX * sizeY, nf);
    MulMonotone(0, b.y * sizeX + b.x, nf);
  }

  lemma SlotUnique(sizeX: nat, nf: nat, b: Bin, c: Bin)
    requires 0 <= b.x < sizeX && 0 <= c.x < sizeX && 0 <= b.f < nf && 0 <= c.f < nf
    requires Slot(sizeX, nf, b) == Slot(sizeX, nf, c)
    ensures b == c
  {
    DivModUnique(b.y * sizeX + b.x, b.f, nf);
    DivModUnique(c.y * sizeX + c.x, c.f, nf);
    DivModUnique(b.y, b.x, sizeX);
    DivModUnique(c.y, c.x, sizeX);
  }

  /** What bin `b` holds. */
  function At(s: seq<real>, sizeX: nat, nf: nat, b: Bin): real {
    if 0 <= Slot(sizeX, nf, b) < |s| then s[Slot(sizeX, nf, b)] else 0.0
  }

  /** `t` is `s` with `gain` added to every bin. */
  ghost predicate Added(v: Votes, s: seq<real>, t: seq<real>, gain: Bin -> real)
    requires v.k > 0
  {
    |s| == |t| && forall b :: v.Has(b) ==> At(t, v.SizeX(), CELL_BINS, b) == At(s, v.SizeX(), CELL_BINS, b) + gain(b)
  }

  /** A single pair of votes of weight `w` in cell (`y`, `x`). */
  function PairGain(y: int, x: int, m: nat, w: real): Bin -> real {
    (b: Bin) => if b.y == y && b.x == x && Selects(m, b.f) then w else 0.0
  }

  /** Adds `w` to the unsigned and the signed bin of one cell. */
  method VotePair(v: Votes, cells: array<real>, y: nat, x: nat, unsigned: nat, m: nat, w: real)
    requires v.k > 0 && y < v.SizeY() && x < v.SizeX() && m < 2 * NUM_SECTOR && unsigned == m % NUM_SECTOR
    requires cells.Length == v.SizeX() * v.SizeY() * CELL_BINS
    modifies cells
    ensures Added(v, old(cells[..]), cells[..], PairGain(y, x, m, w))
  {
    var stringSize := v.SizeX() * CELL_BINS;
    ghost var u, s := Bin(y, x, unsigned), Bin(y, x, m + NUM_SECTOR);
    SlotInRange(v.SizeX(), v.SizeY(), CELL_BINS, u);
    SlotInRange(v.SizeX(), v.SizeY(), CELL_BINS, s);
    SlotCode(y, x, unsigned, v.SizeX());
    SlotCode(y, x, m + NUM_SECTOR, v.SizeX());
    cells[y * stringSize + x * CELL_BINS + unsigned] := cells[y * stringSize + x * CELL_BINS + unsigned] + w;
    cells[y * stringSize + x * CELL_BINS + m + NUM_SECTOR] :=
      cells[y * stringSize + x * CELL_BINS + m + NUM_SECTOR] + w;
    forall b | v.Has(b)
      ensures At(cells[..], v.SizeX(), CELL_BINS, b) ==
        At(old(cells[..]), v.SizeX(), CELL_BINS, b) + PairGain(y, x, m, w)(b)
    {
      SlotInRange(v.SizeX(), v.SizeY(), CELL_BINS, b);
      if Slot(v.SizeX(), CELL_BINS, b) == Slot(v.SizeX(), CELL_BINS, u) {
        SlotUnique(v.SizeX(), CELL_BINS, b, u);
      }
      if Slot(v.SizeX(), CELL_BINS, b) == Slot(v.SizeX(), CELL_BINS, s) {
        SlotUnique(v.SizeX(), CELL_BINS, b, s);
      }
    }
  }

  lemma SlotCode(y: nat, x: nat, f: nat, sizeX: nat)
    ensures y * (sizeX * CELL_BINS) + x * CELL_BINS + f == Slot(sizeX, CELL_BINS, Bin(y, x, f))
  {
    MulAssoc(y, sizeX, CELL_BINS);
  }

  /** The same for a cell that may lie off the map. */
  method VoteIf(v: Votes, cells: array<real>, inside: bool, y: int, x: int, unsigned: nat, m: nat, w: real)
    requires v.k > 0 && m < 2 * NUM_SECTOR && unsigned == m % NUM_SECTOR
    requires inside <==> 0 <= y < v.SizeY() && 0 <= x < v.SizeX()
    requires cells.Length == v.SizeX() * v.SizeY() * CELL_BINS
    modifies cells
    ensures Added(v, old(cells[..]), cells[..], PairGain(y, x, m, w))
  {
    if inside {
      VotePair(v, cells, y, x, unsigned, m, w);
    }
  }

  /** The two tables hold the weights and neighbour directions of the cell size. */
  ghost predicate Tables(k: nat, nearest: seq<int>, w: seq<real>) {
    |nearest| == k && forall p :: 0 <= p < k ==> nearest[p] == Near(k, p) && PairAt(w, k, p)
  }

  /** A position's weight for cell `y`, given its own cell `c` and the offset `n` of the other one. */
  function Split(c: int, n: int, own: real, near: real, y: int): real {
    if c == y then own else if c + n == y then near else 0.0
  }

  lemma HatIsSplit(k: nat, c: nat, r: nat, p: nat, y: int)
    requires r < k && p == c * k + r
    ensures Hat(k, p, y) == Split(c, Near(k, r), OwnWeight(k, r), NearWeight(k, r), y)
  {
    DivModUnique(c, r, k);
  }

  /** The votes of an inner pixel are the four votes around it. */
  lemma FourVotes(r: real, b: Bin, m: nat, i: int, j: int, ni: int, nj: int, a0: real, a1: real, b0: real, b1: real)
    requires ni != 0 && nj != 0
    ensures (if Selects(m, b.f) then Weigh(r, Split(i, ni, a0, a1, b.y), Split(j, nj, b0, b1, b.x)) else 0.0)
         == Around(m, i, j, ni, nj, Weigh(r, a0, b0), Weigh(r, a1, b0), Weigh(r, a0, b1), Weigh(r, a1, b1))(b)
  {
    assert Weigh(r, Split(i, ni, a0, a1, b.y), 0.0) == 0.0;
    assert Weigh(r, 0.0, Split(j, nj, b0, b1, b.x)) == 0.0;
  }

  /** Pairs of votes in a cell and its three neighbours. */
  function Around(m: nat, i: int, j: int, ni: int, nj: int, w00: real, w10: real, w01: real, w11: real): Bin -> real {
    Sum4(PairGain(i, j, m, w00), PairGain(i + ni, j, m, w10), PairGain(i, j + nj, m, w01),
      PairGain(i + ni, j + nj, m, w11))
  }

  /** The votes around a pixel of magnitude `r` at position (`ii`, `jj`) of cell (`i`, `j`). */
  function PixelAround(k: nat, i: int, j: int, ii: nat, jj: nat, r: real, m: nat): Bin -> real
    requires ii < k && jj < k
  {
    var a0, a1, b0, b1 := OwnWeight(k, ii), NearWeight(k, ii), OwnWeight(k, jj), NearWeight(k, jj);
    Around(m, i, j, Near(k, ii), Near(k, jj), Weigh(r, a0, b0), Weigh(r, a1, b0), Weigh(r, a0, b1), Weigh(r, a1, b1))
  }

  lemma PixelIsFour(v: Votes, py: nat, px: nat, i: nat, j: nat, ii: nat, jj: nat, r: real, m: nat, b: Bin)
    requires v.Valid() && ii < v.k && jj < v.k && py == i * v.k + ii && px == j * v.k + jj
    requires Inner(v.width, v.height, py, px) && r == v.r[v.Dense(py, px)] && m == v.alfa[2 * v.Dense(py, px) + 1]
    ensures PixelGain(v, py, px, b) == PixelAround(v.k, i, j, ii, jj, r, m)(b)
  {
    HatIsSplit(v.k, i, ii, py, b.y);
    HatIsSplit(v.k, j, jj, px, b.x);
    FourVotes(r, b, m, i, j, Near(v.k, ii), Near(v.k, jj),
              OwnWeight(v.k, ii), NearWeight(v.k, ii), OwnWeight(v.k, jj), NearWeight(v.k, jj));
  }

  function Sum4(a: Bin -> real, b: Bin -> real, c: Bin -> real, d: Bin -> real): Bin -> real {
    x => a(x) + b(x) + c(x) + d(x)
  }

  lemma AddedFour(v: Votes, s0: seq<real>, s1: seq<real>, s2: seq<real>, s3: seq<real>, s4: seq<real>,
                  a: Bin -> real, b: Bin -> real, c: Bin -> real, d: Bin -> real)
    requires v.k > 0 && Added(v, s0, s1, a) && Added(v, s1, s2, b) && Added(v, s2, s3, c) && Added(v, s3, s4, d)
    ensures Added(v, s0, s4, Sum4(a, b, c, d))
  {}

  /** Four pairs of votes; the neighbours may lie off the map. */
  method VoteFour(v: Votes, cells: array<real>, i: nat, j: nat, ni: int, nj: int, unsigned: nat, m: nat,
                  w00: real, w10: real, w01: real, w11: real)
    requires v.k > 0 && i < v.SizeY() && j < v.SizeX() && m < 2 * NUM_SECTOR && unsigned == m % NUM_SECTOR
    requires cells.Length == v.SizeX() * v.SizeY() * CELL_BINS
    modifies cells
    ensures Added(v, old(cells[..]), cells[..], Around(m, i, j, ni, nj, w00, w10, w01, w11))
  {
    ghost var s0 := cells[..];
    VotePair(v, cells, i, j, unsigned, m, w00);
    ghost var s1 := cells[..];
    VoteIf(v, cells, i + ni >= 0 && i + ni <= v.SizeY() - 1, i + ni, j, unsigned, m, w10);
    ghost var s2 := cells[..];
    VoteIf(v, cells, j + nj >= 0 && j + nj <= v.SizeX() - 1, i, j + nj, unsigned, m, w01);
    ghost var s3 := cells[..];
    VoteIf(v, cells, i + ni >= 0 && i + ni <= v.SizeY() - 1 && j + nj >= 0 && j + nj <= v.SizeX() - 1,
           i + ni, j + nj, unsigned, m, w11);
    AddedFour(v, s0, s1, s2, s3, cells[..], PairGain(i, j, m, w00), PairGain(i + ni, j, m, w10),
              PairGain(i, j + nj, m, w01), PairGain(i + ni, j + nj, m, w11));
  }

  /** One pixel; the image border has no gradient and does not vote. */
  method VotePixel(v: Votes, cells: array<real>, nearest: array<int>, w: array<real>, i: nat, j: nat, ii: nat, jj: nat,
                   py: nat, px: nat)
    requires v.Valid() && i < v.SizeY() && j < v.SizeX() && ii < v.k && jj < v.k && Tables(v.k, nearest[..], w[..])
    requires py == i * v.k + ii && px == j * v.k + jj
    requires cells.Length == v.SizeX() * v.SizeY() * CELL_BINS && cells != w
    modifies cells
    ensures Added(v, old(cells[..]), cells[..], b => PixelGain(v, py, px, b))
  {
    if py > 0 && py < v.height - 1 && px > 0 && px < v.width - 1 {
      var d := v.Dense(py, px);
      assert v.PixelValid(d);
      assert PairAt(w[..], v.k, ii) && PairAt(w[..], v.k, jj);
      ghost var s := cells[..];
      VoteFour(v, cells, i, j, nearest[ii], nearest[jj], v.alfa[d * 2], v.alfa[d * 2 + 1],
               Weigh(v.r[d], w[ii * 2], w[jj * 2]), Weigh(v.r[d], w[ii * 2 + 1], w[jj * 2]),
               Weigh(v.r[d], w[ii * 2], w[jj * 2 + 1]), Weigh(v.r[d], w[ii * 2 + 1], w[jj * 2 + 1]));
      PixelAdded(v, s, cells[..], i, j, ii, jj, py, px);
    }
  }

  lemma PixelAdded(v: Votes, s: seq<real>, t: seq<real>, i: nat, j: nat, ii: nat, jj: nat, py: nat, px: nat)
    requires v.Valid() && ii < v.k && jj < v.k && py == i * v.k + ii && px == j * v.k + jj
    requires Inner(v.width, v.height, py, px)
    requires Added(v, s, t, PixelAround(v.k, i, j, ii, jj, v.r[v.Dense(py, px)], v.alfa[2 * v.Dense(py, px) + 1]))
    ensures Added(v, s, t, b => PixelGain(v, py, px, b))
  {
    forall b | v.Has(b)
      ensures PixelGain(v, py, px, b) ==
        PixelAround(v.k, i, j, ii, jj, v.r[v.Dense(py, px)], v.alfa[2 * v.Dense(py, px) + 1])(b)
    {
      PixelIsFour(v, py, px, i, j, ii, jj, v.r[v.Dense(py, px)], v.alfa[2 * v.Dense(py, px) + 1], b);
    }
  }

  method VoteRow(v: Votes, cells: array<real>, nearest: array<int>, w: array<real>, i: nat, j: nat, ii: nat)
    requires v.Valid() && i < v.SizeY() && j < v.SizeX() && ii < v.k && Tables(v.k, nearest[..], w[..])
    requires cells.Length == v.SizeX() * v.SizeY() * CELL_BINS && cells != w
    modifies cells
    ensures Added(v, old(cells[..]), cells[..], b => RowGain(v, i * v.k + ii, j, v.k, b))
  {
    for jj := 0 to v.k
      invariant Tables(v.k, nearest[..], w[..])
      invariant Added(v, old(cells[..]), cells[..], b => RowGain(v, i * v.k + ii, j, jj, b))
    {
      VotePixel(v, cells, nearest, w, i, j, ii, jj, i * v.k + ii, j * v.k + jj);
    }
  }

  method VoteCell(v: Votes, cells: array<real>, nearest: array<int>, w: array<real>, i: nat, j: nat)
    requires v.Valid() && i < v.SizeY() && j < v.SizeX() && Tables(v.k, nearest[..], w[..])
    requires cells.Length == v.SizeX() * v.SizeY() * CELL_BINS && cells != w
    modifies cells
    ensures Added(v, old(cells[..]), cells[..], b => CellGain(v, i, j, v.k, b))
  {
    for ii := 0 to v.k
      invariant Tables(v.k, nearest[..], w[..])
      invariant Added(v, old(cells[..]), cells[..], b => CellGain(v, i, j, ii, b))
    {
      VoteRow(v, cells, nearest, w, i, j, ii);
    }
  }

  method VoteBand(v: Votes, cells: array<real>, nearest: array<int>, w: array<real>, i: nat)
    requires v.Valid() && i < v.SizeY() && Tables(v.k, nearest[..], w[..])
    requires cells.Length == v.SizeX() * v.SizeY() * CELL_BINS && cells != w
    modifies cells
    ensures Added(v, old(cells[..]), cells[..], b => BandGain(v, i, v.SizeX(), b))
  {
    for j := 0 to v.SizeX()
      invariant Tables(v.k, nearest[..], w[..])
      invariant Added(v, old(cells[..]), cells[..], b => BandGain(v, i, j, b))
    {
      VoteCell(v, cells, nearest, w, i, j);
    }
  }

  /** Adds the votes of all pixels of all whole cells to the map. */
  method Accumulate(v: Votes, cells: array<real>)
    requires v.Valid() && cells.Length == v.SizeX() * v.SizeY() * CELL_BINS
    modifies cells
    ensures Added(v, old(cells[..]), cells[..], b => Histogram(v, b))
  {
    var nearest := FillNearest(v.k);
    var w := FillWeights(v.k);
    for i := 0 to v.SizeY()
      invariant Tables(v.k, nearest[..], w[..])
      invariant Added(v, old(cells[..]), cells[..], b => MapGain(v, i, b))
    {
      VoteBand(v, cells, nearest, w, i);
    }
  }
}
