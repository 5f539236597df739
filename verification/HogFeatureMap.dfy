/** The feature map object and its three stages, run in place. */
module HogFeatureMap {
  import opened Arithmetic
  import opened HogGradients
  import opened HogBins
  import opened HogVotes
  import opened HogFeatures

  // ---------------------------------------------------------------- filling a map cell by cell

  /** The first `n` cells of a flat map hold what `want` says. */
  ghost predicate CellsDone(s: seq<real>, sizeX: nat, sizeY: nat, nf: nat, n: nat, want: Bin -> real) {
    forall b: Bin :: 0 <= b.y < sizeY && 0 <= b.x < sizeX && 0 <= b.f < nf && b.y * sizeX + b.x < n ==>
      At(s, sizeX, nf, b) == want(b)
  }

  lemma NoCells(s: seq<real>, sizeX: nat, sizeY: nat, nf: nat, want: Bin -> real)
    ensures CellsDone(s, sizeX, sizeY, nf, 0, want)
  {
    forall b: Bin | 0 <= b.y < sizeY && 0 <= b.x < sizeX
      ensures b.y * sizeX + b.x >= 0
    {
      MulMonotone(0, b.y, sizeX);
    }
  }

  /** What a complete map holds. */
  lemma CellDone(s: seq<real>, sizeX: nat, sizeY: nat, nf: nat, n: nat, want: Bin -> real, y: int, x: int, f: int)
    requires CellsDone(s, sizeX, sizeY, nf, n, want) && n == sizeX * sizeY
    requires 0 <= y < sizeY && 0 <= x < sizeX && 0 <= f < nf
    ensures At(s, sizeX, nf, Bin(y, x, f)) == want(Bin(y, x, f))
  {
    MulStrict(y, sizeY, sizeX);
    var b := Bin(y, x, f);
    assert b.y * sizeX + b.x < n;
  }

  /** Only the features of cell `c` change. */
  ghost predicate OnlyCell(s: seq<real>, t: seq<real>, start: nat, nf: nat) {
    |s| == |t| && start + nf <= |s| && forall k :: 0 <= k < |s| && !(start <= k < start + nf) ==> t[k] == s[k]
  }

  lemma CellAdded(s: seq<real>, t: seq<real>, sizeX: nat, sizeY: nat, nf: nat, c: nat, start: nat, y: nat, x: nat,
                  want: Bin -> real)
    requires |s| == sizeX * sizeY * nf && x < sizeX && y < sizeY && c == y * sizeX + x && start == c * nf
    requires CellsDone(s, sizeX, sizeY, nf, c, want) && OnlyCell(s, t, start, nf)
    requires forall k :: start <= k < start + nf ==> t[k] == want(Bin(y, x, k - start))
    ensures CellsDone(t, sizeX, sizeY, nf, c + 1, want)
  {
    forall b: Bin | 0 <= b.y < sizeY && 0 <= b.x < sizeX && 0 <= b.f < nf && b.y * sizeX + b.x < c + 1
      ensures At(t, sizeX, nf, b) == want(b)
    {
      SlotInRange(sizeX, sizeY, nf, b);
      var e := b.y * sizeX + b.x;
      if e < c {
        MulStrict(e, c, nf);
        assert At(s, sizeX, nf, b) == want(b);
      } else {
        DivModUnique(b.y, b.x, sizeX);
        DivModUnique(y, x, sizeX);
        assert b == Bin(y, x, b.f);
        assert t[start + b.f] == want(Bin(y, x, b.f));
      }
    }
  }

  /** Position of a cell in a flat map. */
  lemma CellStart(sizeX: nat, sizeY: nat, nf: nat, y: nat, x: nat)
    requires y < sizeY && x < sizeX
    ensures 0 <= y * sizeX && y * sizeX + x < sizeX * sizeY
    ensures 0 <= (y * sizeX + x) * nf && (y * sizeX + x) * nf + nf <= sizeX * sizeY * nf
  {
    MulStrict(y, sizeY, sizeX);
    MulMonotone(0, y, sizeX);
    MulStrict(y * sizeX + x, sizeX * sizeY, if nf == 0 then 1 else nf);
    MulMonotone(0, y * sizeX + x, nf);
  }

  // ---------------------------------------------------------------- one cell of the normalised map

  /** Energies of all cells, row-major. */
  ghost predicate Energies(g: Grid, part: seq<real>) {
    |part| == g.sizeX * g.sizeY && forall c :: 0 <= c < |part| ==> part[c] == CellEnergy(g, c)
  }

  function CellEnergy(g: Grid, c: nat): real {
    if g.sizeX == 0 then 0.0 else Energy(g, c / g.sizeX, c % g.sizeX, NUM_SECTOR)
  }

  method SquareSum(cells: array<real>, ghost g: Grid, ghost y: nat, ghost x: nat, pos: nat) returns (valOfNorm: real)
    requires g.s == cells[..] && pos == (y * g.sizeX + x) * g.nf && pos + NUM_SECTOR <= cells.Length
    ensures valOfNorm == Energy(g, y, x, NUM_SECTOR)
  {
    valOfNorm := 0.0;
    for j := 0 to NUM_SECTOR
      invariant valOfNorm == Energy(g, y, x, j)
    {
      assert g.Get(y, x, j) == cells[pos + j];
      valOfNorm := valOfNorm + cells[pos + j] * cells[pos + j];
    }
  }

  method FillEnergies(cells: array<real>, ghost g: Grid, sizeX: nat, sizeY: nat, nf: nat) returns (part: array<real>)
    requires g == Grid(cells[..], sizeX, sizeY, nf) && g.Valid() && nf >= NUM_SECTOR
    ensures fresh(part) && Energies(g, part[..])
  {
    part := new real[sizeX * sizeY];
    for i := 0 to sizeX * sizeY
      invariant g.s == cells[..]
      invariant forall c :: 0 <= c < i ==> part[c] == CellEnergy(g, c)
    {
      MulStrict(i, sizeX * sizeY, nf);
      MulMonotone(0, i, nf);
      Recompose(i, sizeX);
      part[i] := SquareSum(cells, g, i / sizeX, i % sizeX, i * nf);
    }
  }

  lemma EnergyAt(g: Grid, part: seq<real>, y: int, x: int)
    requires Energies(g, part) && g.Cell(y, x)
    ensures 0 <= y * g.sizeX + x < |part| && part[y * g.sizeX + x] == Energy(g, y, x, NUM_SECTOR)
  {
    CellStart(g.sizeX, g.sizeY, 0, y, x);
    DivModUnique(y, x, g.sizeX);
  }

  /** The norm of the block that reaches `di` down and `dj` right of cell (`i`, `j`). */
  method NormOf(sqrt: real -> real, eps: real, part: array<real>, ghost g: Grid, sizeX: nat, i: int, j: int, di: int,
                dj: int, ghost q: nat)
    returns (norm: real)
    requires Energies(g, part[..]) && sizeX == g.sizeX && di == Down(q) && dj == Right(q)
    requires g.Cell(i, j) && g.Cell(i + di, j + dj)
    ensures norm == BlockNorm(sqrt, eps, g, i, j, q)
  {
    EnergyAt(g, part[..], i, j);
    EnergyAt(g, part[..], i, j + dj);
    EnergyAt(g, part[..], i + di, j);
    EnergyAt(g, part[..], i + di, j + dj);
    ghost var e := BlockEnergy(g, i, j, q);
    norm := part[i * sizeX + j] + part[i * sizeX + (j + dj)] + part[(i + di) * sizeX + j] +
      part[(i + di) * sizeX + (j + dj)];
    assert norm == e;
    norm := sqrt(norm) + eps;
  }

  /** `n` histogram values over one norm. */
  method Divide(cells: array<real>, out: array<real>, from: nat, to: nat, n: nat, norm: real)
    requires cells != out && norm != 0.0 && from + n <= cells.Length && to + n <= out.Length
    modifies out
    ensures forall k :: to <= k < to + n ==> out[k] == Ratio(cells[k - to + from], norm)
    ensures forall k :: 0 <= k < out.Length && !(to <= k < to + n) ==> out[k] == old(out[k])
  {
    for ii := 0 to n
      invariant forall k :: to <= k < to + ii ==> out[k] == Ratio(cells[k - to + from], norm)
      invariant forall k :: 0 <= k < out.Length && !(to <= k < to + ii) ==> out[k] == old(out[k])
    {
      out[to + ii] := cells[from + ii] / norm;
    }
  }

  /** The features of blocks before `q` are in place. */
  ghost predicate BlocksDone(out: seq<real>, pos2: nat, q: nat, want: int -> real) {
    pos2 + BLOCK_BINS <= |out| &&
    forall k :: pos2 <= k < pos2 + BLOCK_BINS && BlockOf(k - pos2) < q ==> out[k] == want(k - pos2)
  }

  /** What the blocks of the cell at (`y`, `x`) must hold. */
  function BlockWant(sqrt: real -> real, eps: real, g: Grid, y: int, x: int): int -> real {
    f => if f >= 0 then Normalised(sqrt, eps, g, y, x, f) else 0.0
  }

  /** Block `q` of a cell: nine unsigned and eighteen signed values over the same norm. */
  method NormalizeBlock(cells: array<real>, out: array<real>, pos1: nat, pos2: nat, q: nat, norm: real,
                        ghost want: int -> real)
    requires cells != out && q < 4 && norm != 0.0 && pos1 + CELL_BINS <= cells.Length
    requires BlocksDone(out[..], pos2, q, want)
    requires forall f :: 0 <= f < BLOCK_BINS && BlockOf(f) == q ==> want(f) == Ratio(cells[pos1 + BinOf(f)], norm)
    modifies out
    ensures BlocksDone(out[..], pos2, q + 1, want)
    ensures forall k :: 0 <= k < out.Length && !(pos2 <= k < pos2 + BLOCK_BINS) ==> out[k] == old(out[k])
  {
    Divide(cells, out, pos1, pos2 + NUM_SECTOR * q, NUM_SECTOR, norm);
    Divide(cells, out, pos1 + NUM_SECTOR, pos2 + NUM_SECTOR * (4 + 2 * q), 2 * NUM_SECTOR, norm);
    forall k | pos2 <= k < pos2 + BLOCK_BINS && BlockOf(k - pos2) <= q
      ensures out[k] == want(k - pos2)
    {
      var f := k - pos2;
      if BlockOf(f) == q {
        assert want(f) == Ratio(cells[pos1 + BinOf(f)], norm);
      } else {
        assert old(out[..])[k] == want(k - pos2);
      }
    }
  }

  lemma BlockWantAt(sqrt: real -> real, eps: real, g: Grid, y: nat, x: nat, q: nat, pos1: nat)
    requires g.Valid() && g.nf == CELL_BINS && g.Cell(y, x) && pos1 == (y * g.sizeX + x) * g.nf && q < 4
    ensures pos1 + CELL_BINS <= |g.s|
    ensures forall f :: 0 <= f < BLOCK_BINS && BlockOf(f) == q ==>
              BlockWant(sqrt, eps, g, y, x)(f) == Ratio(g.s[pos1 + BinOf(f)], BlockNorm(sqrt, eps, g, y, x, q))
  {
    CellStart(g.sizeX, g.sizeY, g.nf, y, x);
  }

  /** All four blocks of the cell whose histogram is cell (`i`, `j`). */
  method NormalizeCell(sqrt: real -> real, eps: real, cells: array<real>, out: array<real>, part: array<real>,
                       ghost g: Grid, sizeX: nat, i: nat, j: nat, pos1: nat, pos2: nat)
    requires RootSigns(sqrt) && eps > 0.0 && cells != out && part != out
    requires g.Valid() && g.s == cells[..] && g.nf == CELL_BINS && Energies(g, part[..]) && sizeX == g.sizeX
    requires 0 < i < g.sizeY - 1 && 0 < j < g.sizeX - 1 && pos1 == (i * sizeX + j) * CELL_BINS
    requires pos2 + BLOCK_BINS <= out.Length
    modifies out
    ensures BlocksDone(out[..], pos2, 4, BlockWant(sqrt, eps, g, i, j))
    ensures OnlyCell(old(out[..]), out[..], pos2, BLOCK_BINS)
  {
    ghost var want := BlockWant(sqrt, eps, g, i, j);
    var norm := NormOf(sqrt, eps, part, g, sizeX, i, j, 1, 1, 0);
    NormalizeWith(sqrt, eps, cells, out, g, i, j, pos1, pos2, 0, norm);
    norm := NormOf(sqrt, eps, part, g, sizeX, i, j, -1, 1, 1);
    NormalizeWith(sqrt, eps, cells, out, g, i, j, pos1, pos2, 1, norm);
    norm := NormOf(sqrt, eps, part, g, sizeX, i, j, 1, -1, 2);
    NormalizeWith(sqrt, eps, cells, out, g, i, j, pos1, pos2, 2, norm);
    norm := NormOf(sqrt, eps, part, g, sizeX, i, j, -1, -1, 3);
    NormalizeWith(sqrt, eps, cells, out, g, i, j, pos1, pos2, 3, norm);
  }

  /** One block, given its norm. */
  method NormalizeWith(ghost sqrt: real -> real, ghost eps: real, cells: array<real>, out: array<real>, ghost g: Grid,
                       ghost i: nat, ghost j: nat, pos1: nat, pos2: nat, q: nat, norm: real)
    requires RootSigns(sqrt) && eps > 0.0 && cells != out && q < 4
    requires g.Valid() && g.s == cells[..] && g.nf == CELL_BINS && g.Cell(i, j) && pos1 == (i * g.sizeX + j) * CELL_BINS
    requires norm == BlockNorm(sqrt, eps, g, i, j, q) && BlocksDone(out[..], pos2, q, BlockWant(sqrt, eps, g, i, j))
    modifies out
    ensures BlocksDone(out[..], pos2, q + 1, BlockWant(sqrt, eps, g, i, j))
    ensures forall k :: 0 <= k < out.Length && !(pos2 <= k < pos2 + BLOCK_BINS) ==> out[k] == old(out[k])
  {
    BlockWantAt(sqrt, eps, g, i, j, q, pos1);
    NormPositive(sqrt, eps, g, i, j, q);
    NormalizeBlock(cells, out, pos1, pos2, q, norm, BlockWant(sqrt, eps, g, i, j));
  }

  // ---------------------------------------------------------------- whole maps

  /** What the normalised map must hold before truncation: output cell (0, 0) is input cell (1, 1). */
  function MapWant(sqrt: real -> real, eps: real, g: Grid): Bin -> real {
    (b: Bin) => BlockWant(sqrt, eps, g, b.y + 1, b.x + 1)(b.f)
  }

  /** The output cell at (`y`, `x`), number `c` of the map. */
  method NormalizeNext(sqrt: real -> real, eps: real, cells: array<real>, out: array<real>, part: array<real>,
                       ghost g: Grid, sizeX: nat, ghost sizeY: nat, y: nat, x: nat, c: nat)
    requires RootSigns(sqrt) && eps > 0.0 && cells != out && part != out
    requires g.Valid() && g.s == cells[..] && g.nf == CELL_BINS && Energies(g, part[..]) && sizeX + 2 == g.sizeX
    requires sizeY + 2 == g.sizeY
    requires y < sizeY && x < sizeX && c == y * sizeX + x && out.Length == sizeX * sizeY * BLOCK_BINS
    requires CellsDone(out[..], sizeX, sizeY, BLOCK_BINS, c, MapWant(sqrt, eps, g))
    modifies out
    ensures CellsDone(out[..], sizeX, sizeY, BLOCK_BINS, c + 1, MapWant(sqrt, eps, g))
  {
    ghost var was := out[..];
    CellStart(sizeX, sizeY, BLOCK_BINS, y, x);
    CellStart(g.sizeX, g.sizeY, CELL_BINS, y + 1, x + 1);
    var i, j, w := y + 1, x + 1, sizeX + 2;
    var pos1, pos2 := (i * w + j) * CELL_BINS, c * BLOCK_BINS;
    NormalizeCell(sqrt, eps, cells, out, part, g, w, i, j, pos1, pos2);
    BlocksAreCell(sqrt, eps, g, out[..], pos2, y, x, i, j, BlockWant(sqrt, eps, g, i, j), MapWant(sqrt, eps, g));
    CellAdded(was, out[..], sizeX, sizeY, BLOCK_BINS, c, pos2, y, x, MapWant(sqrt, eps, g));
  }

  /** All four blocks make up the cell. */
  lemma BlocksAreCell(sqrt: real -> real, eps: real, g: Grid, out: seq<real>, pos2: nat, y: nat, x: nat, i: nat, j: nat,
                      want: int -> real, mapWant: Bin -> real)
    requires i == y + 1 && j == x + 1 && want == BlockWant(sqrt, eps, g, i, j) && mapWant == MapWant(sqrt, eps, g)
    requires BlocksDone(out, pos2, 4, want)
    ensures pos2 + BLOCK_BINS <= |out|
    ensures forall k :: pos2 <= k < pos2 + BLOCK_BINS ==> out[k] == mapWant(Bin(y, x, k - pos2))
  {
    forall k | pos2 <= k < pos2 + BLOCK_BINS
      ensures out[k] == mapWant(Bin(y, x, k - pos2))
    {
      assert BlockOf(k - pos2) < 4;
      assert mapWant(Bin(y, x, k - pos2)) == want(k - pos2);
    }
  }

  method NormalizeRow(sqrt: real -> real, eps: real, cells: array<real>, out: array<real>, part: array<real>,
                      ghost g: Grid, sizeX: nat, ghost sizeY: nat, i: nat)
    requires RootSigns(sqrt) && eps > 0.0 && cells != out && part != out
    requires g.Valid() && g.s == cells[..] && g.nf == CELL_BINS && Energies(g, part[..]) && sizeX + 2 == g.sizeX
    requires sizeY + 2 == g.sizeY
    requires 1 <= i <= sizeY && out.Length == sizeX * sizeY * BLOCK_BINS
    requires CellsDone(out[..], sizeX, sizeY, BLOCK_BINS, (i - 1) * sizeX, MapWant(sqrt, eps, g))
    modifies out
    ensures CellsDone(out[..], sizeX, sizeY, BLOCK_BINS, (i - 1) * sizeX + sizeX, MapWant(sqrt, eps, g))
  {
    MulMonotone(0, i - 1, sizeX);
    var c := (i - 1) * sizeX;
    ghost var start := c;
    for j := 1 to sizeX + 1
      invariant g.s == cells[..] && Energies(g, part[..]) && c == start + (j - 1)
      invariant CellsDone(out[..], sizeX, sizeY, BLOCK_BINS, c, MapWant(sqrt, eps, g))
    {
      NormalizeNext(sqrt, eps, cells, out, part, g, sizeX, sizeY, i - 1, j - 1, c);
      c := c + 1;
    }
  }

  method NormalizeMap(sqrt: real -> real, eps: real, cells: array<real>, ghost g: Grid, w: nat, h: nat, sizeX: nat,
                      sizeY: nat)
    returns (out: array<real>)
    requires RootSigns(sqrt) && eps > 0.0 && sizeX + 2 == w && sizeY + 2 == h
    requires g == Grid(cells[..], w, h, CELL_BINS) && g.Valid()
    ensures fresh(out) && out.Length == sizeX * sizeY * BLOCK_BINS
    ensures CellsDone(out[..], sizeX, sizeY, BLOCK_BINS, sizeX * sizeY, MapWant(sqrt, eps, g))
  {
    var part := FillEnergies(cells, g, w, h, CELL_BINS);
    out := new real[sizeX * sizeY * BLOCK_BINS];
    ghost var done := 0;
    NoCells(out[..], sizeX, sizeY, BLOCK_BINS, MapWant(sqrt, eps, g));
    for i := 1 to sizeY + 1
      invariant g.s == cells[..] && Energies(g, part[..]) && done == (i - 1) * sizeX
      invariant CellsDone(out[..], sizeX, sizeY, BLOCK_BINS, done, MapWant(sqrt, eps, g))
    {
      NormalizeRow(sqrt, eps, cells, out, part, g, sizeX, sizeY, i);
      Distribute(i - 1, 1, sizeX);
      done := done + sizeX;
    }
    assert done == sizeX * sizeY;
  }

  /** Cuts every value off at the threshold, in place. */
  method TruncateAll(out: array<real>, alfa: real)
    modifies out
    ensures forall k :: 0 <= k < out.Length ==> out[k] == Truncate(old(out[k]), alfa)
  {
    for i := 0 to out.Length
      invariant forall k :: 0 <= k < i ==> out[k] == Truncate(old(out[k]), alfa)
      invariant forall k :: i <= k < out.Length ==> out[k] == old(out[k])
    {
      if out[i] > alfa {
        out[i] := alfa;
      }
    }
  }

  lemma TruncatedEntry(s: seq<real>, t: seq<real>, sizeX: nat, sizeY: nat, nf: nat, alfa: real, b: Bin)
    requires |s| == |t| == sizeX * sizeY * nf && 0 <= b.y < sizeY && 0 <= b.x < sizeX && 0 <= b.f < nf
    requires forall k :: 0 <= k < |s| ==> t[k] == Truncate(s[k], alfa)
    ensures At(t, sizeX, nf, b) == Truncate(At(s, sizeX, nf, b), alfa)
  {
    SlotInRange(sizeX, sizeY, nf, b);
  }

  lemma TruncatedMap(sqrt: real -> real, eps: real, alfa: real, g: Grid, s: seq<real>, t: seq<real>, sizeX: nat,
                     sizeY: nat)
    requires g.sizeX == sizeX + 2 && g.sizeY == sizeY + 2 && |s| == |t| == sizeX * sizeY * BLOCK_BINS
    requires CellsDone(s, sizeX, sizeY, BLOCK_BINS, sizeX * sizeY, MapWant(sqrt, eps, g))
    requires forall k :: 0 <= k < |s| ==> t[k] == Truncate(s[k], alfa)
    ensures IsNormalised(sqrt, eps, alfa, g, Grid(t, sizeX, sizeY, BLOCK_BINS))
  {
    var h := Grid(t, sizeX, sizeY, BLOCK_BINS);
    forall y, x, f | h.Cell(y, x) && 0 <= f < BLOCK_BINS
      ensures h.Get(y, x, f) == Truncate(Normalised(sqrt, eps, g, y + 1, x + 1, f), alfa)
    {
      CellDone(s, sizeX, sizeY, BLOCK_BINS, sizeX * sizeY, MapWant(sqrt, eps, g), y, x, f);
      TruncatedEntry(s, t, sizeX, sizeY, BLOCK_BINS, alfa, Bin(y, x, f));
    }
  }

  method NormalizeAll(sqrt: real -> real, eps: real, alfa: real, cells: array<real>, ghost g: Grid, w: nat, h: nat,
                      sizeX: nat, sizeY: nat)
    returns (out: array<real>)
    requires RootSigns(sqrt) && eps > 0.0 && sizeX + 2 == w && sizeY + 2 == h
    requires g == Grid(cells[..], w, h, CELL_BINS) && g.Valid()
    ensures fresh(out) && IsNormalised(sqrt, eps, alfa, g, Grid(out[..], sizeX, sizeY, BLOCK_BINS))
  {
    out := NormalizeMap(sqrt, eps, cells, g, w, h, sizeX, sizeY);
    ghost var s := out[..];
    TruncateAll(out, alfa);
    TruncatedMap(sqrt, eps, alfa, g, s, out[..], sizeX, sizeY);
  }

  // ---------------------------------------------------------------- reduction

  method AddUp(cells: array<real>, ghost g: Grid, ghost y: nat, ghost x: nat, pos1: nat, f: nat, step: nat, n: nat)
    returns (val: real)
    requires g.s == cells[..] && pos1 == (y * g.sizeX + x) * g.nf
    requires forall k :: 0 <= k < n ==> 0 <= k * step && pos1 + f + k * step < cells.Length
    ensures val == Features(g, y, x, f, step, n)
  {
    val := 0.0;
    for ii := 0 to n
      invariant val == Features(g, y, x, f, step, ii)
    {
      assert 0 <= ii * step && pos1 + f + ii * step < cells.Length;
      assert g.Get(y, x, f + ii * step) == cells[pos1 + f + ii * step];
      val := val + cells[pos1 + f + ii * step];
    }
  }

  function ReducedWant(g: Grid, nx: real, ny: real): Bin -> real {
    (b: Bin) => Reduced(g, nx, ny, b.y, b.x, b.f)
  }

  /** The first `k` reduced features of a cell are in place. */
  ghost predicate ReducedUpTo(out: seq<real>, pos2: nat, k: nat, want: Bin -> real, y: nat, x: nat) {
    pos2 + REDUCED <= |out| && k <= REDUCED && forall d :: pos2 <= d < pos2 + k ==> out[d] == want(Bin(y, x, d - pos2))
  }

  method StoreFeature(out: array<real>, pos2: nat, k: nat, value: real, ghost want: Bin -> real, ghost y: nat,
                      ghost x: nat)
    requires k < REDUCED && ReducedUpTo(out[..], pos2, k, want, y, x) && value == want(Bin(y, x, k))
    modifies out
    ensures ReducedUpTo(out[..], pos2, k + 1, want, y, x)
    ensures OnlyCell(old(out[..]), out[..], pos2, REDUCED)
  {
    out[pos2 + k] := value;
  }

  method ReduceCell(cells: array<real>, out: array<real>, ghost g: Grid, nx: real, ny: real, ghost y: nat, ghost x: nat,
                    pos1: nat, pos2: nat)
    requires cells != out && g.s == cells[..] && g.nf == BLOCK_BINS && pos1 == (y * g.sizeX + x) * g.nf
    requires pos1 + BLOCK_BINS <= cells.Length && pos2 + REDUCED <= out.Length
    modifies out
    ensures OnlyCell(old(out[..]), out[..], pos2, REDUCED)
    ensures ReducedUpTo(out[..], pos2, REDUCED, ReducedWant(g, nx, ny), y, x)
  {
    ghost var want := ReducedWant(g, nx, ny);
    ReduceSigned(cells, out, g, nx, ny, y, x, pos1, pos2, want);
    ReduceUnsigned(cells, out, g, nx, ny, y, x, pos1, pos2, want);
    ReduceTexture(cells, out, g, nx, ny, y, x, pos1, pos2, want);
  }

  method ReduceSigned(cells: array<real>, out: array<real>, ghost g: Grid, ghost nx: real, ny: real, ghost y: nat,
                      ghost x: nat, pos1: nat, pos2: nat, ghost want: Bin -> real)
    requires cells != out && g.s == cells[..] && g.nf == BLOCK_BINS && pos1 == (y * g.sizeX + x) * g.nf
    requires pos1 + BLOCK_BINS <= cells.Length && pos2 + REDUCED <= out.Length && want == ReducedWant(g, nx, ny)
    modifies out
    ensures OnlyCell(old(out[..]), out[..], pos2, REDUCED) && ReducedUpTo(out[..], pos2, 2 * NUM_SECTOR, want, y, x)
  {
    for jj := 0 to 2 * NUM_SECTOR
      invariant g.s == cells[..] && ReducedUpTo(out[..], pos2, jj, want, y, x)
      invariant OnlyCell(old(out[..]), out[..], pos2, REDUCED)
    {
      var val := AddUp(cells, g, y, x, pos1, 4 * NUM_SECTOR + jj, 2 * NUM_SECTOR, 4);
      StoreFeature(out, pos2, jj, val * ny, want, y, x);
    }
  }

  method ReduceUnsigned(cells: array<real>, out: array<real>, ghost g: Grid, ghost nx: real, ny: real, ghost y: nat,
                        ghost x: nat, pos1: nat, pos2: nat, ghost want: Bin -> real)
    requires cells != out && g.s == cells[..] && g.nf == BLOCK_BINS && pos1 == (y * g.sizeX + x) * g.nf
    requires pos1 + BLOCK_BINS <= cells.Length && want == ReducedWant(g, nx, ny)
    requires ReducedUpTo(out[..], pos2, 2 * NUM_SECTOR, want, y, x)
    modifies out
    ensures OnlyCell(old(out[..]), out[..], pos2, REDUCED) && ReducedUpTo(out[..], pos2, 3 * NUM_SECTOR, want, y, x)
  {
    for jj := 0 to NUM_SECTOR
      invariant g.s == cells[..] && ReducedUpTo(out[..], pos2, 2 * NUM_SECTOR + jj, want, y, x)
      invariant OnlyCell(old(out[..]), out[..], pos2, REDUCED)
    {
      var val := AddUp(cells, g, y, x, pos1, jj, NUM_SECTOR, 4);
      StoreFeature(out, pos2, 2 * NUM_SECTOR + jj, val * ny, want, y, x);
    }
  }

  method ReduceTexture(cells: array<real>, out: array<real>, ghost g: Grid, nx: real, ghost ny: real, ghost y: nat,
                       ghost x: nat, pos1: nat, pos2: nat, ghost want: Bin -> real)
    requires cells != out && g.s == cells[..] && g.nf == BLOCK_BINS && pos1 == (y * g.sizeX + x) * g.nf
    requires pos1 + BLOCK_BINS <= cells.Length && want == ReducedWant(g, nx, ny)
    requires ReducedUpTo(out[..], pos2, 3 * NUM_SECTOR, want, y, x)
    modifies out
    ensures OnlyCell(old(out[..]), out[..], pos2, REDUCED) && ReducedUpTo(out[..], pos2, REDUCED, want, y, x)
  {
    for ii := 0 to 4
      invariant g.s == cells[..] && ReducedUpTo(out[..], pos2, 3 * NUM_SECTOR + ii, want, y, x)
      invariant OnlyCell(old(out[..]), out[..], pos2, REDUCED)
    {
      var val := AddUp(cells, g, y, x, pos1, 4 * NUM_SECTOR + ii * 2 * NUM_SECTOR, 1, 2 * NUM_SECTOR);
      StoreFeature(out, pos2, 3 * NUM_SECTOR + ii, val * nx, want, y, x);
    }
  }

  method ReduceMap(cells: array<real>, ghost g: Grid, nx: real, ny: real, sizeX: nat, sizeY: nat)
    returns (out: array<real>)
    requires g == Grid(cells[..], sizeX, sizeY, BLOCK_BINS) && g.Valid()
    ensures fresh(out) && IsReduced(nx, ny, g, Grid(out[..], sizeX, sizeY, REDUCED))
  {
    out := new real[sizeX * sizeY * REDUCED];
    ghost var done := 0;
    NoCells(out[..], sizeX, sizeY, REDUCED, ReducedWant(g, nx, ny));
    for i := 0 to sizeY
      invariant g.s == cells[..] && done == i * sizeX
      invariant CellsDone(out[..], sizeX, sizeY, REDUCED, done, ReducedWant(g, nx, ny))
    {
      ReduceRow(cells, out, g, nx, ny, sizeX, sizeY, i);
      Distribute(i, 1, sizeX);
      done := done + sizeX;
    }
    ReducedAll(g, out[..], nx, ny);
  }

  method ReduceRow(cells: array<real>, out: array<real>, ghost g: Grid, nx: real, ny: real, sizeX: nat,
                   ghost sizeY: nat, i: nat)
    requires g == Grid(cells[..], sizeX, sizeY, BLOCK_BINS) && g.Valid() && out != cells && i < sizeY
    requires out.Length == sizeX * sizeY * REDUCED
    requires CellsDone(out[..], sizeX, sizeY, REDUCED, i * sizeX, ReducedWant(g, nx, ny))
    modifies out
    ensures CellsDone(out[..], sizeX, sizeY, REDUCED, i * sizeX + sizeX, ReducedWant(g, nx, ny))
  {
    MulMonotone(0, i, sizeX);
    var c := i * sizeX;
    ghost var start := c;
    for j := 0 to sizeX
      invariant g.s == cells[..] && c == start + j
      invariant CellsDone(out[..], sizeX, sizeY, REDUCED, c, ReducedWant(g, nx, ny))
    {
      ReduceNext(cells, out, g, nx, ny, i, j, c);
      c := c + 1;
    }
  }

  /** Cell `c` of the reduced map. */
  method ReduceNext(cells: array<real>, out: array<real>, ghost g: Grid, nx: real, ny: real, ghost y: nat,
                    ghost x: nat, c: nat)
    requires g.s == cells[..] && g.nf == BLOCK_BINS && g.Valid() && out != cells
    requires out.Length == g.sizeX * g.sizeY * REDUCED && y < g.sizeY && x < g.sizeX && c == y * g.sizeX + x
    requires CellsDone(out[..], g.sizeX, g.sizeY, REDUCED, c, ReducedWant(g, nx, ny))
    modifies out
    ensures CellsDone(out[..], g.sizeX, g.sizeY, REDUCED, c + 1, ReducedWant(g, nx, ny))
  {
    ghost var was := out[..];
    CellStart(g.sizeX, g.sizeY, REDUCED, y, x);
    CellStart(g.sizeX, g.sizeY, BLOCK_BINS, y, x);
    ReduceCell(cells, out, g, nx, ny, y, x, c * BLOCK_BINS, c * REDUCED);
    CellAdded(was, out[..], g.sizeX, g.sizeY, REDUCED, c, c * REDUCED, y, x, ReducedWant(g, nx, ny));
  }

  lemma ReducedAll(g: Grid, s: seq<real>, nx: real, ny: real)
    requires |s| == g.sizeX * g.sizeY * REDUCED
    requires CellsDone(s, g.sizeX, g.sizeY, REDUCED, g.sizeY * g.sizeX, ReducedWant(g, nx, ny))
    ensures IsReduced(nx, ny, g, Grid(s, g.sizeX, g.sizeY, REDUCED))
  {
    var h := Grid(s, g.sizeX, g.sizeY, REDUCED);
    forall y, x, f | h.Cell(y, x) && 0 <= f < REDUCED
      ensures h.Get(y, x, f) == Reduced(g, nx, ny, y, x, f)
    {
      CellDone(s, g.sizeX, g.sizeY, REDUCED, g.sizeY * g.sizeX, ReducedWant(g, nx, ny), y, x, f);
    }
  }

  /** The scale of a reduced feature. */
  function Inverse(sqrt: real -> real, n: real): (r: real)
    requires RootSigns(sqrt) && n > 0.0
    ensures r > 0.0
  {
    assert sqrt(n) > 0.0;
    1.0 / sqrt(n)
  }

  /** It undoes the root. */
  lemma InverseIs(sqrt: real -> real, n: real)
    requires RootSigns(sqrt) && IsRoot(sqrt) && n > 0.0
    ensures Inverse(sqrt, n) * Inverse(sqrt, n) * n == 1.0
  {
    var root, r := sqrt(n), Inverse(sqrt, n);
    assert root * root == n && r * root == 1.0;
    assert r * r * (root * root) == (r * root) * (r * root);
  }

  /** Entry (`y`, `x`, `f`) of a map, in its buffer. */
  lemma EntryAt(h: Grid, y: nat, x: nat, f: nat)
    requires h.Valid() && h.Cell(y, x) && f < h.nf
    ensures 0 <= (y * h.sizeX + x) * h.nf + f < |h.s| && h.Get(y, x, f) == h.s[(y * h.sizeX + x) * h.nf + f]
  {
    CellStart(h.sizeX, h.sizeY, h.nf, y, x);
  }

  // ---------------------------------------------------------------- the object

  class FeatureMap {
    var sizeX: nat
    var sizeY: nat
    var numFeatures: nat
    var cells: array<real>

    ghost predicate Valid()
      reads this
    {
      cells.Length == sizeX * sizeY * numFeatures
    }

    ghost function Value(): Grid
      reads this, cells
    {
      Grid(cells[..], sizeX, sizeY, numFeatures)
    }

    /** An empty map. */
    constructor (sizeX: nat, sizeY: nat, numFeatures: nat)
      ensures Valid() && fresh(cells) && this.sizeX == sizeX && this.sizeY == sizeY && this.numFeatures == numFeatures
      ensures forall k :: 0 <= k < cells.Length ==> cells[k] == 0.0
    {
      this.sizeX, this.sizeY, this.numFeatures := sizeX, sizeY, numFeatures;
      cells := new real[sizeX * sizeY * numFeatures](_ => 0.0);
    }

    method NormalizeAndTruncate(sqrt: real -> real, eps: real, alfa: real)
      requires Valid() && sizeX >= 2 && sizeY >= 2 && numFeatures == CELL_BINS && RootSigns(sqrt) && eps > 0.0
      modifies this
      ensures Valid() && fresh(cells) && IsNormalised(sqrt, eps, alfa, old(Value()), Value())
    {
      ghost var g := Value();
      var newData := NormalizeAll(sqrt, eps, alfa, cells, g, sizeX, sizeY, sizeX - 2, sizeY - 2);
      ghost var h := Grid(newData[..], sizeX - 2, sizeY - 2, BLOCK_BINS);
      assert IsNormalised(sqrt, eps, alfa, g, h) && h.Valid();
      numFeatures := BLOCK_BINS;
      sizeX := sizeX - 2;
      sizeY := sizeY - 2;
      cells := newData;
      assert Value() == h;
    }

    method Reduce(sqrt: real -> real)
      requires Valid() && numFeatures == BLOCK_BINS && RootSigns(sqrt)
      modifies this
      ensures Valid() && fresh(cells) && IsReduced(Inverse(sqrt, 18.0), Inverse(sqrt, 4.0), old(Value()), Value())
    {
      var nx := Inverse(sqrt, (NUM_SECTOR * 2) as real);
      var ny := Inverse(sqrt, 4.0);
      var newData := ReduceMap(cells, Value(), nx, ny, sizeX, sizeY);
      numFeatures := REDUCED;
      cells := newData;
    }
  }

  // ---------------------------------------------------------------- end to end

  /** The recorded pixels of an image. */
  lemma VotesValid(sqrt: real -> real, c: Compass, g: Gradients, v: Votes)
    requires c.Valid() && g.Valid() && RootSigns(sqrt) && v.k > 0 && v.width == g.width && v.height == g.height
    requires RowsRecorded(sqrt, c, g, v.r, v.alfa, g.height)
    ensures v.Valid()
  {
    forall py: nat, px: nat | Inner(v.width, v.height, py, px)
      ensures v.PixelValid(v.Dense(py, px))
    {
      assert InTables(sqrt, c, g, v.r, v.alfa, py, px);
      var h: nat :| IsStrongest(sqrt, g.dx[py], g.dy[py], px * g.channels, px * g.channels + g.channels, h)
        && v.r[v.Dense(py, px)] == MagnitudeAt(sqrt, g.dx[py], g.dy[py], h);
      SquaresNonNegative(g.dx[py][h], g.dy[py][h]);
    }
  }

  lemma SquaresNonNegative(x: real, y: real)
    ensures x * x + y * y >= 0.0
  {}

  /** The histogram of an image: what every pixel recorded, accumulated from zero. */
  method GetFeatureMaps(sqrt: real -> real, c: Compass, g: Gradients, k: nat)
    returns (features: FeatureMap, ghost v: Votes)
    requires c.Valid() && g.Valid() && RootSigns(sqrt) && k > 0 && g.width > 0
    ensures fresh(features) && features.Valid() && features.numFeatures == CELL_BINS && features.sizeX == g.width / k
    ensures features.sizeY == g.height / k
    ensures v.Valid() && v.k == k && v.width == g.width && v.height == g.height
    ensures RowsRecorded(sqrt, c, g, v.r, v.alfa, g.height)
    ensures forall b :: v.Has(b) ==> features.Value().Get(b.y, b.x, b.f) == Histogram(v, b)
    ensures ExactLink(features.Value())
  {
    var r := new real[g.width * g.height];
    var alfa := new nat[2 * (g.width * g.height)];
    Orient(sqrt, c, g, r, alfa);
    var w := Votes(k, g.width, g.height, r[..], alfa[..]);
    VotesValid(sqrt, c, g, w);
    features := new FeatureMap(g.width / k, g.height / k, CELL_BINS);
    ghost var zero := features.cells[..];
    Accumulate(w, features.cells);
    v := w;
    ghost var h := features.Value();
    forall b | v.Has(b)
      ensures h.Get(b.y, b.x, b.f) == Histogram(v, b)
    {
      assert At(zero, v.SizeX(), CELL_BINS, b) == 0.0;
    }
    HistogramIsLinked(v, h);
  }

  lemma HistogramIsLinked(v: Votes, h: Grid)
    requires v.Valid() && h.sizeX == v.SizeX() && h.sizeY == v.SizeY()
    requires forall b :: v.Has(b) ==> h.Get(b.y, b.x, b.f) == Histogram(v, b)
    ensures ExactLink(h)
  {
    forall y, x, o | h.Cell(y, x) && 0 <= o < NUM_SECTOR
      ensures Linked(Entries(h), y, x, o)
    {
      HistogramLinked(v, y, x, o);
      assert v.Has(Bin(y, x, o)) && v.Has(Bin(y, x, NUM_SECTOR + o)) && v.Has(Bin(y, x, 2 * NUM_SECTOR + o));
    }
  }

  /** All three stages: the finished features keep what is left of the link, and stay in their bounds. */
  method ExtractFeatures(sqrt: real -> real, eps: real, alfa: real, c: Compass, g: Gradients, k: nat)
    returns (m: FeatureMap, ghost v: Votes, ghost h: Grid, ghost n: Grid)
    requires c.Valid() && g.Valid() && RootSigns(sqrt) && eps > 0.0 && alfa >= 0.0
    requires k > 0 && g.width / k >= 2 && g.height / k >= 2
    ensures fresh(m) && m.Valid() && m.numFeatures == REDUCED && m.sizeX == g.width / k - 2
    ensures m.sizeY == g.height / k - 2
    ensures Finished(m.Value(), BinBound(alfa, Inverse(sqrt, 4.0)), TextureLimit(alfa, Inverse(sqrt, 18.0)))
    ensures v.Valid() && v.k == k && v.width == g.width && v.height == g.height
    ensures RowsRecorded(sqrt, c, g, v.r, v.alfa, g.height)
    ensures h.Valid() && h.nf == CELL_BINS && h.sizeX == g.width / k && h.sizeY == g.height / k
    ensures forall b :: v.Has(b) ==> h.Get(b.y, b.x, b.f) == Histogram(v, b)
    ensures IsNormalised(sqrt, eps, alfa, h, n)
    ensures IsReduced(Inverse(sqrt, 18.0), Inverse(sqrt, 4.0), n, m.Value())
  {
    m, v := GetFeatureMaps(sqrt, c, g, k);
    h := m.Value();
    m.NormalizeAndTruncate(sqrt, eps, alfa);
    n := m.Value();
    m.Reduce(sqrt);
    ghost var nx, ny := Inverse(sqrt, 18.0), Inverse(sqrt, 4.0);
    LinkSurvives(sqrt, eps, alfa, nx, ny, h, n, m.Value());
  }
}
