/** Orientation of every inner pixel: the magnitude and the two bins of its strongest channel, as recorded for
    voting. */
module HogBins {
  import opened Arithmetic
  import opened HogGradients

  /** Features of a cell: nine unsigned bins, then eighteen signed ones. */
  const CELL_BINS := 3 * NUM_SECTOR

  /** `sqrt` as far as the histograms depend on it. */
  ghost predicate RootSigns(sqrt: real -> real) {
    forall v: real :: (v >= 0.0 ==> sqrt(v) >= 0.0) && (v > 0.0 ==> sqrt(v) > 0.0)
  }

  // ---------------------------------------------------------------- orientation of every inner pixel

  /** The gradient images: `height` rows of `width * channels` interleaved values. */
  datatype Gradients = Gradients(width: nat, height: nat, channels: nat, dx: seq<seq<real>>, dy: seq<seq<real>>) {
    ghost predicate Valid() {
      channels > 0 && |dx| == height && |dy| == height &&
      forall j :: 0 <= j < height ==> |dx[j]| == width * channels && |dy[j]| == width * channels
    }
  }

  ghost predicate Inner(width: nat, height: nat, j: int, i: int) {
    0 < j < height - 1 && 0 < i < width - 1
  }

  /** What pixel (`j`, `i`) must record: the magnitude of its strongest channel and that gradient's sectors. */
  ghost predicate Recorded(sqrt: real -> real, c: Compass, g: Gradients, j: nat, i: nat, r: real, unsigned: nat,
                           sector: nat)
    requires c.Valid() && g.Valid() && j < g.height
  {
    sector < 2 * NUM_SECTOR && unsigned == sector % NUM_SECTOR &&
    exists h: nat :: IsStrongest(sqrt, g.dx[j], g.dy[j], i * g.channels, i * g.channels + g.channels, h)
      && r == MagnitudeAt(sqrt, g.dx[j], g.dy[j], h) && IsSector(c, g.dx[j][h], g.dy[j][h], sector)
  }

  /** Pixel (`j`, `i`) is recorded in the two tables, at linear position `d`. */
  ghost predicate RecordedAt(sqrt: real -> real, c: Compass, g: Gradients, r: seq<real>, alfa: seq<nat>, j: nat, i: nat,
                             d: nat)
    requires c.Valid() && g.Valid() && j < g.height
  {
    d < |r| && 2 * d + 1 < |alfa| && Recorded(sqrt, c, g, j, i, r[d], alfa[2 * d], alfa[2 * d + 1])
  }

  ghost predicate InTables(sqrt: real -> real, c: Compass, g: Gradients, r: seq<real>, alfa: seq<nat>, j: nat, i: nat)
    requires c.Valid() && g.Valid() && j < g.height
  {
    MulMonotone(0, j, g.width);
    RecordedAt(sqrt, c, g, r, alfa, j, i, j * g.width + i)
  }

  method OrientPixel(sqrt: real -> real, c: Compass, g: Gradients, j: nat, i: nat)
    returns (r: real, unsigned: nat, sector: nat)
    requires c.Valid() && g.Valid() && j < g.height && i < g.width
    ensures Recorded(sqrt, c, g, j, i, r, unsigned, sector)
  {
    MulStrict(i, g.width, g.channels);
    MulMonotone(0, i, g.channels);
    var x, y, ch;
    r, x, y, ch := StrongestChannel(sqrt, g.dx[j], g.dy[j], i * g.channels, g.channels);
    sector := ChooseSector(c, x, y);
    unsigned := sector % NUM_SECTOR;
  }

  method OrientRow(sqrt: real -> real, c: Compass, g: Gradients, j: nat, start: nat, r: array<real>, alfa: array<nat>)
    requires c.Valid() && g.Valid() && 0 < j < g.height - 1 && g.width > 0 && start == j * g.width
    requires start + g.width <= r.Length && alfa.Length == 2 * r.Length
    modifies r, alfa
    ensures forall i :: 0 < i < g.width - 1 ==> InTables(sqrt, c, g, r[..], alfa[..], j, i)
    ensures forall d :: 0 <= d < start ==>
      r[d] == old(r[d]) && alfa[2 * d] == old(alfa[2 * d]) && alfa[2 * d + 1] == old(alfa[2 * d + 1])
  {
    var i := 1;
    while i < g.width - 1
      invariant 1 <= i && (i <= g.width - 1 || i == 1)
      invariant forall x :: 0 < x < i ==> InTables(sqrt, c, g, r[..], alfa[..], j, x)
      invariant forall d :: 0 <= d < start ==>
        r[d] == old(r[d]) && alfa[2 * d] == old(alfa[2 * d]) && alfa[2 * d + 1] == old(alfa[2 * d + 1])
    {
      var m, a0, a1 := OrientPixel(sqrt, c, g, j, i);
      ghost var r0, alfa0 := r[..], alfa[..];
      r[start + i] := m;
      alfa[2 * (start + i)] := a0;
      alfa[2 * (start + i) + 1] := a1;
      Extend(sqrt, c, g, j, i, start + i, r0, alfa0, r[..], alfa[..]);
      i := i + 1;
    }
  }

  /** Storing pixel `i` at `d` keeps the pixels before it. */
  lemma Extend(sqrt: real -> real, c: Compass, g: Gradients, j: nat, i: nat, d: nat, r0: seq<real>, alfa0: seq<nat>,
               r: seq<real>, alfa: seq<nat>)
    requires c.Valid() && g.Valid() && j < g.height && d == j * g.width + i
    requires |r| == |r0| && |alfa| == |alfa0| == 2 * |r| && RecordedAt(sqrt, c, g, r, alfa, j, i, d)
    requires forall x :: 0 <= x < d ==>
      r[x] == r0[x] && alfa[2 * x] == alfa0[2 * x] && alfa[2 * x + 1] == alfa0[2 * x + 1]
    requires forall x :: 0 < x < i ==> InTables(sqrt, c, g, r0, alfa0, j, x)
    ensures forall x :: 0 < x <= i ==> InTables(sqrt, c, g, r, alfa, j, x)
  {
    forall x | 0 < x < i
      ensures InTables(sqrt, c, g, r, alfa, j, x)
    {
      assert InTables(sqrt, c, g, r0, alfa0, j, x);
      MulMonotone(0, j, g.width);
    }
  }

  /** Rows `1 .. n - 1` are recorded. */
  ghost predicate RowsRecorded(sqrt: real -> real, c: Compass, g: Gradients, r: seq<real>, alfa: seq<nat>, n: nat)
    requires c.Valid() && g.Valid() && n <= g.height
  {
    forall j, i :: 0 < j < n && Inner(g.width, g.height, j, i) ==> InTables(sqrt, c, g, r, alfa, j, i)
  }

  lemma RowsKept(sqrt: real -> real, c: Compass, g: Gradients, r0: seq<real>, alfa0: seq<nat>, r: seq<real>,
                 alfa: seq<nat>, n: nat)
    requires c.Valid() && g.Valid() && n < g.height && RowsRecorded(sqrt, c, g, r0, alfa0, n)
    requires |r| == |r0| && |alfa| == |alfa0| == 2 * |r| && n * g.width <= |r|
    requires forall d :: 0 <= d < n * g.width ==>
      r[d] == r0[d] && alfa[2 * d] == alfa0[2 * d] && alfa[2 * d + 1] == alfa0[2 * d + 1]
    requires forall i :: 0 < i < g.width - 1 ==> InTables(sqrt, c, g, r, alfa, n, i)
    ensures RowsRecorded(sqrt, c, g, r, alfa, n + 1)
  {
    forall j, i | 0 < j < n && Inner(g.width, g.height, j, i)
      ensures InTables(sqrt, c, g, r, alfa, j, i)
    {
      assert InTables(sqrt, c, g, r0, alfa0, j, i);
      MulStrict(j, n, g.width);
      MulMonotone(0, j, g.width);
    }
  }

  /** Magnitude and orientation of every inner pixel; the border is left as it is. */
  method Orient(sqrt: real -> real, c: Compass, g: Gradients, r: array<real>, alfa: array<nat>)
    requires c.Valid() && g.Valid() && g.width > 0 && r.Length == g.width * g.height && alfa.Length == 2 * r.Length
    modifies r, alfa
    ensures RowsRecorded(sqrt, c, g, r[..], alfa[..], g.height)
  {
    var j := 1;
    while j < g.height - 1
      invariant 1 <= j && (j < g.height || j == 1)
      invariant j <= g.height ==> RowsRecorded(sqrt, c, g, r[..], alfa[..], j)
    {
      ghost var r0, alfa0 := r[..], alfa[..];
      MulStrict(j, g.height, g.width);
      MulMonotone(0, j, g.width);
      OrientRow(sqrt, c, g, j, j * g.width, r, alfa);
      RowsKept(sqrt, c, g, r0, alfa0, r[..], alfa[..], j);
      j := j + 1;
    }
  }

  /** With one channel a pixel records its own gradient. */
  lemma OneChannel(sqrt: real -> real, c: Compass, g: Gradients, j: nat, i: nat, magnitude: real, unsigned: nat,
                   sector: nat)
    requires c.Valid() && g.Valid() && g.channels == 1 && j < g.height && i < g.width
    requires Recorded(sqrt, c, g, j, i, magnitude, unsigned, sector)
    ensures |g.dx[j]| == |g.dy[j]| == g.width && unsigned == sector % 9
    ensures magnitude == Magnitude(sqrt, g.dx[j][i], g.dy[j][i]) && IsSector(c, g.dx[j][i], g.dy[j][i], sector)
  {
    var h: nat :| IsStrongest(sqrt, g.dx[j], g.dy[j], i * g.channels, i * g.channels + g.channels, h)
      && magnitude == MagnitudeAt(sqrt, g.dx[j], g.dy[j], h) && IsSector(c, g.dx[j][h], g.dy[j][h], sector);
    assert h == i;
  }

  /** A gradient of length `r` along direction `k` is recorded with that length and that direction as both bins. */
  lemma DirectionRecorded(sqrt: real -> real, c: Compass, g: Gradients, j: nat, i: nat, k: nat, r: real,
                          magnitude: real, unsigned: nat, sector: nat)
    requires IsRoot(sqrt) && Unit(c) && g.Valid() && g.channels == 1 && j < g.height && i < g.width
    requires k < NUM_SECTOR && r > 0.0 && Recorded(sqrt, c, g, j, i, magnitude, unsigned, sector)
    requires |g.dx[j]| == |g.dy[j]| == g.width && g.dx[j][i] == r * c.x[k] && g.dy[j][i] == r * c.y[k]
    ensures magnitude == r && unsigned == sector == k
  {
    OneChannel(sqrt, c, g, j, i, magnitude, unsigned, sector);
    SectorOfDirection(c, k, r, sector);
    MagnitudeOfDirection(sqrt, c, k, r);
  }

  /** The opposite gradient is recorded with the opposite signed bin. */
  lemma OppositeRecorded(sqrt: real -> real, c: Compass, g: Gradients, j: nat, i: nat, k: nat, r: real,
                         magnitude: real, unsigned: nat, sector: nat)
    requires IsRoot(sqrt) && Unit(c) && g.Valid() && g.channels == 1 && j < g.height && i < g.width
    requires k < NUM_SECTOR && r > 0.0 && Recorded(sqrt, c, g, j, i, magnitude, unsigned, sector)
    requires |g.dx[j]| == |g.dy[j]| == g.width && g.dx[j][i] == -(r * c.x[k]) && g.dy[j][i] == -(r * c.y[k])
    ensures magnitude == r && unsigned == k && sector == k + 9
  {
    OneChannel(sqrt, c, g, j, i, magnitude, unsigned, sector);
    SectorOfDirection(c, k, r, sector);
    MagnitudeOfDirection(sqrt, c, k, r);
    OppositeMagnitude(sqrt, r * c.x[k], r * c.y[k]);
  }

  lemma OppositeMagnitude(sqrt: real -> real, gx: real, gy: real)
    ensures Magnitude(sqrt, -gx, -gy) == Magnitude(sqrt, gx, gy)
  {
    assert (-gx) * (-gx) == gx * gx && (-gy) * (-gy) == gy * gy;
  }
}
