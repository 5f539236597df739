/**
 The resampling kernels: the generic triangle kernel as a windowed weighted mean, and the pixel it
 assigns, with its border skipping and weight normalisation.
 */
module Resample {
  import opened Arithmetic

  function Abs(x: real): real {
    if x < 0.0 then -x else x
  }

  /** `triangleCoeff`. */
  function Tri(x: real): real {
    if 1.0 - Abs(x) < 0.0 then 0.0 else 1.0 - Abs(x)
  }

  /** The C library's `round`: to the nearest integer, halves away from zero. */
  function Round(x: real): int {
    if x >= 0.0 then (x + 0.5).Floor else -((-x + 0.5).Floor)
  }

  lemma RoundIs(x: real, k: int)
    ensures k as real - 0.5 < x < k as real + 0.5 ==> Round(x) == k
    ensures x == k as real + 0.5 ==> Round(x) == if k >= 0 then k + 1 else k
  {}

  function Ceil(x: real): (k: int)
    ensures x <= k as real < x + 1.0
  {
    -((-x).Floor)
  }

  /** One channel plane of the input, row-major from `base`. */
  datatype Plane = Plane(data: seq<real>, base: nat, iw: nat, ih: nat) {
    predicate Valid() {
      base + iw * ih <= |data|
    }

    predicate Inside(y: int, x: int) {
      0 <= y < ih && 0 <= x < iw
    }

    lemma InRange(y: int, x: int)
      requires Valid() && Inside(y, x)
      ensures 0 <= base + y * iw + x < |data|
    {
      MulStrict(y, ih, iw);
      MulMonotone(0, y, iw);
    }

    function Pixel(y: int, x: int): real
      requires Valid() && Inside(y, x)
    {
      InRange(y, x);
      data[base + y * iw + x]
    }
  }

  function Product(a: real, b: real): real {
    a * b
  }

  function Weigh(ax: real, tx: real, ay: real, ty: real): real {
    ax * tx * ay * ty
  }

  /** The window of one output pixel: centre, radii and scales. */
  datatype Window = Window(ix: real, iy: real, rx: int, ry: int, ax: real, ay: real) {
    function Weight(y: int, x: int): real {
      Weigh(ax, Tri(ax * (ix - x as real)), ay, Tri(ay * (iy - y as real)))
    }
  }

  /** A weighted sum and the sum of its weights. */
  datatype Acc = Acc(sum: real, wsum: real)

  /** One tap of the window: nothing outside the image. */
  function Tap(p: Plane, w: Window, y: int, x: int): Acc
    requires p.Valid()
  {
    if p.Inside(y, x) then Acc(Product(w.Weight(y, x), p.Pixel(y, x)), w.Weight(y, x)) else Acc(0.0, 0.0)
  }

  /** The accumulated values of `f` over `lo <= k < hi`. */
  function SumAcc(f: int -> Acc, lo: int, hi: int): Acc
    decreases hi - lo
  {
    if hi <= lo then Acc(0.0, 0.0) else
      var a, t := SumAcc(f, lo, hi - 1), f(hi - 1);
      Acc(a.sum + t.sum, a.wsum + t.wsum)
  }

  /** The taps of row `y`, and the rows of a window. */
  function RowTaps(tap: (int, int) -> Acc, y: int): int -> Acc {
    x => tap(y, x)
  }

  function WindowRows(tap: (int, int) -> Acc, xlo: int, xhi: int): int -> Acc {
    y => SumAcc(RowTaps(tap, y), xlo, xhi)
  }

  function WindowAcc(tap: (int, int) -> Acc, xlo: int, xhi: int, ylo: int, yhi: int): Acc {
    SumAcc(WindowRows(tap, xlo, xhi), ylo, yhi)
  }

  function Taps(p: Plane, w: Window): (int, int) -> Acc
    requires p.Valid()
  {
    (y, x) => Tap(p, w, y, x)
  }

  /** A quotient, with zero for a zero denominator. */
  function Quot(num: real, den: real): real {
    if den == 0.0 then 0.0 else num / den
  }

  function Mean(a: Acc): real {
    Quot(a.sum, a.wsum)
  }

  /** The normalised value: the weighted mean over the part of the window inside the image. */
  function WindowMean(p: Plane, w: Window): real
    requires p.Valid()
  {
    var xr, yr := Round(w.ix), Round(w.iy);
    Mean(WindowAcc(Taps(p, w), xr - w.rx, xr + w.rx + 1, yr - w.ry, yr + w.ry + 1))
  }

  /** The window `InterpolationKernel` opens for output pixel (`oy`, `ox`). */
  function KernelWindow(fx: real, fy: real, kernelWidth: nat, antialias: bool, oy: nat, ox: nat): Window
    requires fx > 0.0 && fy > 0.0
  {
    var ax := 1.0 / (if antialias then fx else 1.0);
    var ay := 1.0 / (if antialias then fy else 1.0);
    PositiveScale(if antialias then fx else 1.0);
    PositiveScale(if antialias then fy else 1.0);
    Window(ox as real * fx + fy / 2.0 - 0.5, oy as real * fy + fx / 2.0 - 0.5,
           if fx < 1.0 then 2 else Ceil(kernelWidth as real / ax),
           if fy < 1.0 then 2 else Ceil(kernelWidth as real / ay), ax, ay)
  }

  lemma PositiveScale(f: real)
    requires f > 0.0
    ensures 1.0 / f > 0.0
  {
    assert (1.0 / f) * f == 1.0;
  }

  function KernelPixel(p: Plane, fx: real, fy: real, kernelWidth: nat, antialias: bool, oy: nat, ox: nat): real
    requires p.Valid() && fx > 0.0 && fy > 0.0
  {
    WindowMean(p, KernelWindow(fx, fy, kernelWidth, antialias, oy, ox))
  }

  /** One pass of the inner loop: taps outside the image are skipped. */
  method AddTap(p: Plane, w: Window, y: int, x: int, sum0: real, wsum0: real) returns (sum: real, wsum: real)
    requires p.Valid()
    ensures sum == sum0 + Tap(p, w, y, x).sum && wsum == wsum0 + Tap(p, w, y, x).wsum
  {
    sum, wsum := sum0, wsum0;
    if y < 0 || x < 0 || y >= p.ih || x >= p.iw {
      return;
    }
    var weight := w.Weight(y, x);
    p.InRange(y, x);
    sum := sum + weight * p.data[p.base + y * p.iw + x];
    wsum := wsum + weight;
  }

  /** The inner loop: adds the taps of row `y`. */
  method AccumulateRow(p: Plane, w: Window, y: int, lo: int, hi: int, sum0: real, wsum0: real, ghost row: int -> Acc)
    returns (sum: real, wsum: real)
    requires p.Valid() && row == RowTaps(Taps(p, w), y)
    ensures sum == sum0 + SumAcc(row, lo, hi).sum && wsum == wsum0 + SumAcc(row, lo, hi).wsum
  {
    sum, wsum := sum0, wsum0;
    var x := lo;
    while x < hi
      invariant lo <= x && (x <= hi || x == lo)
      invariant sum == sum0 + SumAcc(row, lo, x).sum
      invariant wsum == wsum0 + SumAcc(row, lo, x).wsum
      decreases hi - x
    {
      assert row(x) == Tap(p, w, y, x);
      sum, wsum := AddTap(p, w, y, x, sum, wsum);
      x := x + 1;
    }
    EmptySum(row, lo, x, hi);
  }

  lemma EmptySum(f: int -> Acc, lo: int, x: int, hi: int)
    requires x >= hi && (x <= hi || x == lo)
    ensures SumAcc(f, lo, x) == SumAcc(f, lo, hi)
  {}

  /** The two accumulation loops over a window. */
  method AccumulateWindow(p: Plane, w: Window, xlo: int, xhi: int, ylo: int, yhi: int) returns (sum: real, wsum: real)
    requires p.Valid()
    ensures Acc(sum, wsum) == WindowAcc(Taps(p, w), xlo, xhi, ylo, yhi)
  {
    ghost var tap := Taps(p, w);
    ghost var rows := WindowRows(tap, xlo, xhi);
    sum, wsum := 0.0, 0.0;
    var y := ylo;
    while y < yhi
      invariant ylo <= y && (y <= yhi || y == ylo)
      invariant Acc(sum, wsum) == SumAcc(rows, ylo, y)
      decreases yhi - y
    {
      assert rows(y) == SumAcc(RowTaps(tap, y), xlo, xhi);
      sum, wsum := AccumulateRow(p, w, y, xlo, xhi, sum, wsum, RowTaps(tap, y));
      y := y + 1;
    }
    EmptySum(rows, ylo, y, yhi);
  }

  /** The value of one output pixel. */
  method Accumulate(p: Plane, w: Window) returns (value: real)
    requires p.Valid()
    ensures value == WindowMean(p, w)
  {
    var ix_r, iy_r := Round(w.ix), Round(w.iy);
    var sum, wsum := AccumulateWindow(p, w, ix_r - w.rx, ix_r + w.rx + 1, iy_r - w.ry, iy_r + w.ry + 1);
    value := if wsum == 0.0 then 0.0 else sum / wsum;
  }
}
