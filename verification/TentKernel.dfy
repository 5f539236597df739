/**
 What the generic kernel computes, without windows: the mean of the whole image under a tent around the output pixel's
 centre, one pixel wide on each side, or one output pixel when antialiasing.
 */
module TentKernel {
  import opened Arithmetic
  import opened Resample
  import ResampleLayer

  /** How far the tent reaches to each side. */
  function Support(f: real, antialias: bool): real {
    if antialias then f else 1.0
  }

  /** The tent at distance `d` from its centre: it falls linearly to zero at distance `s`. */
  function Tent(s: real, d: real): real {
    if d >= s || -d >= s then 0.0 else if d < 0.0 then s + d else s - d
  }

  lemma Below(x: real, y: real, s: real, xs: real, ys: real)
    requires x < y && s > 0.0 && xs == x * s && ys == y * s
    ensures xs < ys
  {
    assert ys - xs == (y - x) * s;
  }

  lemma NegatedProduct(x: real, s: real, y: real)
    requires y == -x
    ensures y * s == -(x * s)
  {}

  /** The triangle coefficient of a scaled distance. */
  lemma TriIsTent(s: real, x: real, d: real)
    requires s > 0.0 && x * s == d
    ensures Tri(x) * s == Tent(s, d)
  {
    if x >= 1.0 {
      RealMonotone(1.0, x, s);
    } else if x <= -1.0 {
      NegatedProduct(x, s, -x);
      RealMonotone(1.0, -x, s);
    } else {
      Below(x, 1.0, s, d, s);
      Below(-1.0, x, s, -s, d);
      if x < 0.0 {
        Below(x, 0.0, s, d, 0.0);
        assert Tri(x) * s == s + d;
      } else {
        RealSign(x, s);
        assert Tri(x) * s == s - d;
      }
    }
  }

  /** The centre of an output pixel: each axis is offset by half the scale of the other. */
  function Centre(o: nat, f: real, g: real): real {
    o as real * f + g / 2.0 - 0.5
  }

  /** A pixel of the image under the tent of an output pixel. */
  datatype Spot = Spot(ix: real, iy: real, sx: real, sy: real) {
    /** Both supports squared. */
    function Scale(): real {
      Product(Product(sx, sx), Product(sy, sy))
    }

    function Height(y: int, x: int): real {
      Product(Tent(sx, ix - x as real), Tent(sy, iy - y as real))
    }
  }

  function SpotOf(fx: real, fy: real, antialias: bool, oy: nat, ox: nat): Spot {
    Spot(Centre(ox, fx, fy), Centre(oy, fy, fx), Support(fx, antialias), Support(fy, antialias))
  }

  lemma Regroup(ax: real, tx: real, ay: real, ty: real, sx: real, sy: real)
    ensures ax * tx * ay * ty * (sx * sx * (sy * sy)) == (ax * sx) * (ay * sy) * ((tx * sx) * (ty * sy))
  {}

  lemma OneTimes(p: real, q: real, x: real)
    requires p == 1.0 && q == 1.0
    ensures p * q * x == x
  {}

  /** Window `w` is open around spot `s`. */
  predicate Around(w: Window, s: Spot) {
    w.ix == s.ix && w.iy == s.iy && s.sx > 0.0 && s.sy > 0.0 && w.ax * s.sx == 1.0 && w.ay * s.sy == 1.0
  }

  lemma WindowAround(fx: real, fy: real, kernelWidth: nat, antialias: bool, oy: nat, ox: nat)
    requires fx > 0.0 && fy > 0.0
    ensures Around(KernelWindow(fx, fy, kernelWidth, antialias, oy, ox), SpotOf(fx, fy, antialias, oy, ox))
  {
    Reciprocal(Support(fx, antialias));
    Reciprocal(Support(fy, antialias));
  }

  lemma Reciprocal(s: real)
    requires s > 0.0
    ensures (1.0 / s) * s == 1.0
  {}

  /** The weight of a tap is the height of the tent, up to the square of both supports. */
  lemma WeightIsHeight(w: Window, s: Spot, y: int, x: int)
    requires Around(w, s)
    ensures Product(w.Weight(y, x), s.Scale()) == s.Height(y, x)
  {
    var dx, dy := w.ax * (w.ix - x as real), w.ay * (w.iy - y as real);
    WeightOf(w, y, x, dx, dy);
    HeightOf(w.ax, w.ay, s, s.ix - x as real, s.iy - y as real, w.Weight(y, x), dx, dy);
  }

  lemma HeightOf(ax: real, ay: real, s: Spot, ex: real, ey: real, weight: real, dx: real, dy: real)
    requires ax * s.sx == 1.0 && ay * s.sy == 1.0 && s.sx > 0.0 && s.sy > 0.0
    requires dx == ax * ex && dy == ay * ey && weight == Weigh(ax, Tri(dx), ay, Tri(dy))
    ensures Product(weight, s.Scale()) == Product(Tent(s.sx, ex), Tent(s.sy, ey))
  {
    AxisTent(ax, s.sx, ex, dx);
    AxisTent(ay, s.sy, ey, dy);
    WeightProduct(ax, Tri(dx), ay, Tri(dy), s, Tent(s.sx, ex), Tent(s.sy, ey));
  }

  lemma WeightOf(w: Window, y: int, x: int, dx: real, dy: real)
    requires dx == w.ax * (w.ix - x as real) && dy == w.ay * (w.iy - y as real)
    ensures w.Weight(y, x) == Weigh(w.ax, Tri(dx), w.ay, Tri(dy))
  {}

  lemma WeightProduct(ax: real, tx: real, ay: real, ty: real, s: Spot, hx: real, hy: real)
    requires ax * s.sx == 1.0 && ay * s.sy == 1.0 && tx * s.sx == hx && ty * s.sy == hy
    ensures Product(Weigh(ax, tx, ay, ty), s.Scale()) == Product(hx, hy)
  {
    Regroup(ax, tx, ay, ty, s.sx, s.sy);
    OneTimes(ax * s.sx, ay * s.sy, (tx * s.sx) * (ty * s.sy));
  }

  lemma AxisTent(a: real, s: real, d: real, ad: real)
    requires s > 0.0 && a * s == 1.0 && ad == a * d
    ensures Tri(ad) * s == Tent(s, d)
  {
    assert ad * s == (a * s) * d;
    TriIsTent(s, ad, d);
  }

  /** A tap weighs something exactly when it is closer than the support along both axes. */
  lemma PositiveHeight(s: Spot, y: int, x: int)
    requires s.sx > 0.0 && s.sy > 0.0
    ensures s.Height(y, x) >= 0.0
    ensures s.Height(y, x) > 0.0 <==> -s.sx < s.ix - x as real < s.sx && -s.sy < s.iy - y as real < s.sy
  {
    var a, b := Tent(s.sx, s.ix - x as real), Tent(s.sy, s.iy - y as real);
    assert a >= 0.0 && b >= 0.0;
    RealSign(a, b);
    if a > 0.0 && b > 0.0 {
      assert a * b > 0.0;
    }
  }

  // ---------------------------------------------------------------- the loops reach every such tap

  lemma RoundNear(x: real)
    ensures -0.5 <= Round(x) as real - x <= 0.5
  {}

  /** A tap closer than the support lies within the radius of the loop. */
  lemma AxisVisited(centre: real, f: real, a: real, s: real, r: int, k: int, kernelWidth: nat, antialias: bool)
    requires f > 0.0 && kernelWidth >= 2 && s == Support(f, antialias) && a * s == 1.0
    requires r == if f < 1.0 then 2 else Ceil(kernelWidth as real / a)
    requires -s < centre - k as real < s
    ensures Round(centre) - r <= k < Round(centre) + r + 1
  {
    RoundNear(centre);
    if f < 1.0 {
      assert s <= 1.0;
    } else {
      RadiusCovers(a, s, kernelWidth);
      assert r as real >= 2.0 * s && s >= 1.0;
    }
  }

  lemma RadiusCovers(a: real, s: real, kernelWidth: nat)
    requires a * s == 1.0 && s > 0.0 && kernelWidth >= 2
    ensures a > 0.0 && kernelWidth as real / a >= 2.0 * s
  {
    assert a > 0.0 by {
      if a <= 0.0 {
        RealSign(-a, s);
      }
    }
    var q := kernelWidth as real / a;
    assert q * a == kernelWidth as real;
    assert q == q * (a * s);
    assert q * (a * s) == (q * a) * s;
    RealMonotone(2.0, kernelWidth as real, s);
  }

  /** Every tap of positive height inside or outside the image is visited. */
  lemma TapVisited(fx: real, fy: real, kernelWidth: nat, antialias: bool, oy: nat, ox: nat, y: int, x: int)
    requires fx > 0.0 && fy > 0.0 && kernelWidth >= 2
    requires SpotOf(fx, fy, antialias, oy, ox).Height(y, x) > 0.0
    ensures var w := KernelWindow(fx, fy, kernelWidth, antialias, oy, ox);
      && Round(w.ix) - w.rx <= x < Round(w.ix) + w.rx + 1
      && Round(w.iy) - w.ry <= y < Round(w.iy) + w.ry + 1
  {
    var w, s := KernelWindow(fx, fy, kernelWidth, antialias, oy, ox), SpotOf(fx, fy, antialias, oy, ox);
    WindowAround(fx, fy, kernelWidth, antialias, oy, ox);
    PositiveHeight(s, y, x);
    Radii(fx, fy, kernelWidth, antialias, oy, ox);
    SpotVisited(w, s, fx, fy, kernelWidth, antialias, y, x);
  }

  lemma Radii(fx: real, fy: real, kernelWidth: nat, antialias: bool, oy: nat, ox: nat)
    requires fx > 0.0 && fy > 0.0
    ensures RadiiOf(KernelWindow(fx, fy, kernelWidth, antialias, oy, ox), fx, fy, kernelWidth)
  {}

  predicate RadiiOf(w: Window, fx: real, fy: real, kernelWidth: nat) {
    && w.ax != 0.0 && w.rx == (if fx < 1.0 then 2 else Ceil(kernelWidth as real / w.ax))
    && w.ay != 0.0 && w.ry == (if fy < 1.0 then 2 else Ceil(kernelWidth as real / w.ay))
  }

  lemma SpotVisited(w: Window, s: Spot, fx: real, fy: real, kernelWidth: nat, antialias: bool, y: int, x: int)
    requires fx > 0.0 && fy > 0.0 && kernelWidth >= 2 && Around(w, s) && RadiiOf(w, fx, fy, kernelWidth)
    requires s.sx == Support(fx, antialias) && s.sy == Support(fy, antialias)
    requires -s.sx < s.ix - x as real < s.sx && -s.sy < s.iy - y as real < s.sy
    ensures Round(w.ix) - w.rx <= x < Round(w.ix) + w.rx + 1
    ensures Round(w.iy) - w.ry <= y < Round(w.iy) + w.ry + 1
  {
    AxisVisited(w.ix, fx, w.ax, s.sx, w.rx, x, kernelWidth, antialias);
    AxisVisited(w.iy, fy, w.ay, s.sy, w.ry, y, kernelWidth, antialias);
  }

  // ---------------------------------------------------------------- the whole image

  const NOTHING := Acc(0.0, 0.0)

  /** A pixel of the image under the tent. */
  function TentTap(p: Plane, s: Spot): (int, int) -> Acc
    requires p.Valid()
  {
    (y, x) => if p.Inside(y, x) then Acc(Product(s.Height(y, x), p.Pixel(y, x)), s.Height(y, x)) else NOTHING
  }

  /** The mean of all pixels of the image, weighted by the height of the tent over them; zero if it covers none. */
  function TentMean(p: Plane, s: Spot): real
    requires p.Valid()
  {
    Mean(WindowAcc(TentTap(p, s), 0, p.iw, 0, p.ih))
  }

  lemma {:induction false} SumTail(f: int -> Acc, lo: int, mid: int, hi: int)
    requires mid <= hi && forall k :: mid <= k < hi ==> f(k) == NOTHING
    requires lo <= mid
    ensures SumAcc(f, lo, hi) == SumAcc(f, lo, mid)
    decreases hi - mid
  {
    if mid < hi {
      SumTail(f, lo, mid, hi - 1);
    }
  }

  lemma {:induction false} SumNothing(f: int -> Acc, lo: int, hi: int)
    requires forall k :: lo <= k < hi ==> f(k) == NOTHING
    ensures SumAcc(f, lo, hi) == NOTHING
    decreases hi - lo
  {
    if lo < hi {
      SumNothing(f, lo, hi - 1);
    }
  }

  lemma {:induction false} SumHead(f: int -> Acc, lo: int, mid: int, hi: int)
    requires lo <= mid <= hi && forall k :: lo <= k < mid ==> f(k) == NOTHING
    ensures SumAcc(f, lo, hi) == SumAcc(f, mid, hi)
    decreases hi - mid
  {
    if mid < hi {
      SumHead(f, lo, mid, hi - 1);
    } else {
      SumNothing(f, lo, hi);
    }
  }

  /** Two ranges that both hold everything have the same sum. */
  lemma SameSum(f: int -> Acc, lo: int, hi: int, from: int, to: int)
    requires forall k :: !(lo <= k < hi && from <= k < to) ==> f(k) == NOTHING
    ensures SumAcc(f, lo, hi) == SumAcc(f, from, to)
  {
    var a, b := Later(lo, from), Earlier(hi, to);
    if a <= b {
      SumTail(f, lo, b, hi);
      SumHead(f, lo, a, b);
      SumTail(f, from, b, to);
      SumHead(f, from, a, b);
    } else {
      SumNothing(f, lo, hi);
      SumNothing(f, from, to);
    }
  }

  function Later(a: int, b: int): int {
    if a < b then b else a
  }

  function Earlier(a: int, b: int): int {
    if a < b then a else b
  }

  lemma {:induction false} SumSame(f: int -> Acc, g: int -> Acc, lo: int, hi: int)
    requires forall k :: lo <= k < hi ==> f(k) == g(k)
    ensures SumAcc(f, lo, hi) == SumAcc(g, lo, hi)
    decreases hi - lo
  {
    if lo < hi {
      SumSame(f, g, lo, hi - 1);
    }
  }

  /** `g` is `f`, scaled. */
  predicate Scaled(a: Acc, b: Acc, scale: real) {
    b.sum == Product(a.sum, scale) && b.wsum == Product(a.wsum, scale)
  }

  lemma {:induction false} SumScaled(f: int -> Acc, g: int -> Acc, lo: int, hi: int, scale: real)
    requires forall k :: lo <= k < hi ==> Scaled(f(k), g(k), scale)
    ensures Scaled(SumAcc(f, lo, hi), SumAcc(g, lo, hi), scale)
    decreases hi - lo
  {
    if lo < hi {
      SumScaled(f, g, lo, hi - 1, scale);
      var a, t := SumAcc(f, lo, hi - 1), f(hi - 1);
      ProductSum(a.sum, t.sum, scale);
      ProductSum(a.wsum, t.wsum, scale);
    } else {
      ProductSum(0.0, 0.0, scale);
    }
  }

  lemma ProductSum(a: real, b: real, scale: real)
    ensures Product(a + b, scale) == Product(a, scale) + Product(b, scale)
    ensures Product(0.0, scale) == 0.0
  {}

  /** Any ranges that hold every tap give the sum over the image. */
  lemma WholeImage(tap: (int, int) -> Acc, iw: nat, ih: nat, xlo: int, xhi: int, ylo: int, yhi: int)
    requires forall y, x :: !(0 <= y < ih && 0 <= x < iw && ylo <= y < yhi && xlo <= x < xhi) ==> tap(y, x) == NOTHING
    ensures WindowAcc(tap, xlo, xhi, ylo, yhi) == WindowAcc(tap, 0, iw, 0, ih)
  {
    var f, g := WindowRows(tap, xlo, xhi), WindowRows(tap, 0, iw);
    forall y: int
      ensures f(y) == g(y)
      ensures !(0 <= y < ih && ylo <= y < yhi) ==> f(y) == NOTHING
    {
      SameSum(RowTaps(tap, y), xlo, xhi, 0, iw);
      if !(0 <= y < ih && ylo <= y < yhi) {
        SumNothing(RowTaps(tap, y), xlo, xhi);
      }
    }
    SameSum(f, ylo, yhi, 0, ih);
    SumSame(f, g, 0, ih);
  }

  lemma WindowScaled(f: (int, int) -> Acc, g: (int, int) -> Acc, xlo: int, xhi: int, ylo: int, yhi: int, scale: real)
    requires forall y, x :: Scaled(f(y, x), g(y, x), scale)
    ensures Scaled(WindowAcc(f, xlo, xhi, ylo, yhi), WindowAcc(g, xlo, xhi, ylo, yhi), scale)
  {
    forall y: int
      ensures Scaled(WindowRows(f, xlo, xhi)(y), WindowRows(g, xlo, xhi)(y), scale)
    {
      SumScaled(RowTaps(f, y), RowTaps(g, y), xlo, xhi, scale);
    }
    SumScaled(WindowRows(f, xlo, xhi), WindowRows(g, xlo, xhi), ylo, yhi, scale);
  }

  lemma SameMean(a: Acc, b: Acc, scale: real)
    requires Scaled(a, b, scale) && scale > 0.0
    ensures Mean(a) == Mean(b)
  {
    if a.wsum != 0.0 {
      var q := a.sum / a.wsum;
      assert q * a.wsum == a.sum;
      assert b.sum == q * b.wsum;
      assert b.wsum != 0.0;
      assert b.sum / b.wsum == q;
    }
  }

  /** One tap of the kernel and one of the tent. */
  lemma TapScaled(p: Plane, w: Window, s: Spot, y: int, x: int)
    requires p.Valid() && Around(w, s)
    ensures Scaled(Tap(p, w, y, x), TentTap(p, s)(y, x), s.Scale())
  {
    if p.Inside(y, x) {
      WeightIsHeight(w, s, y, x);
      TapOf(w.Weight(y, x), p.Pixel(y, x), s.Scale(), s.Height(y, x));
    } else {
      ProductSum(0.0, 0.0, s.Scale());
    }
  }

  lemma TapOf(weight: real, pixel: real, scale: real, height: real)
    requires Product(weight, scale) == height
    ensures Scaled(Acc(Product(weight, pixel), weight), Acc(Product(height, pixel), height), scale)
  {
    Exchange(weight, pixel, scale);
  }

  lemma Exchange(weight: real, pixel: real, scale: real)
    ensures Product(Product(weight, pixel), scale) == Product(Product(weight, scale), pixel)
  {}

  /** A tap without height has no weight. */
  lemma NoWeight(p: Plane, w: Window, s: Spot, y: int, x: int)
    requires p.Valid() && Around(w, s) && !(s.Height(y, x) > 0.0)
    ensures Tap(p, w, y, x) == NOTHING
  {
    PositiveHeight(s, y, x);
    WeightIsHeight(w, s, y, x);
    ScalePositive(s);
    ZeroFactor(w.Weight(y, x), s.Scale());
  }

  lemma ScalePositive(s: Spot)
    requires s.sx > 0.0 && s.sy > 0.0
    ensures s.Scale() > 0.0
  {
    BothPositive(s.sx, s.sx);
    BothPositive(s.sy, s.sy);
    BothPositive(Product(s.sx, s.sx), Product(s.sy, s.sy));
  }

  lemma BothPositive(a: real, b: real)
    requires a > 0.0 && b > 0.0
    ensures Product(a, b) > 0.0
  {}

  lemma ZeroFactor(a: real, b: real)
    requires Product(a, b) == 0.0 && b > 0.0
    ensures a == 0.0
  {}

  /** The generic kernel computes the mean of the image under the tent: its windows leave nothing out. */
  lemma KernelIsTentMean(p: Plane, fx: real, fy: real, kernelWidth: nat, antialias: bool, oy: nat, ox: nat)
    requires p.Valid() && fx > 0.0 && fy > 0.0 && kernelWidth >= 2
    ensures KernelPixel(p, fx, fy, kernelWidth, antialias, oy, ox)
         == TentMean(p, SpotOf(fx, fy, antialias, oy, ox))
  {
    var w, s := KernelWindow(fx, fy, kernelWidth, antialias, oy, ox), SpotOf(fx, fy, antialias, oy, ox);
    var xlo, xhi := Round(w.ix) - w.rx, Round(w.ix) + w.rx + 1;
    var ylo, yhi := Round(w.iy) - w.ry, Round(w.iy) + w.ry + 1;
    var tap := Taps(p, w);
    WindowAround(fx, fy, kernelWidth, antialias, oy, ox);
    forall y, x | !(0 <= y < p.ih && 0 <= x < p.iw && ylo <= y < yhi && xlo <= x < xhi)
      ensures tap(y, x) == NOTHING
    {
      if p.Inside(y, x) {
        if s.Height(y, x) > 0.0 {
          TapVisited(fx, fy, kernelWidth, antialias, oy, ox, y, x);
        } else {
          NoWeight(p, w, s, y, x);
        }
      }
    }
    WholeImage(tap, p.iw, p.ih, xlo, xhi, ylo, yhi);
    forall y: int, x: int
      ensures Scaled(tap(y, x), TentTap(p, s)(y, x), s.Scale())
    {
      TapScaled(p, w, s, y, x);
    }
    WindowScaled(tap, TentTap(p, s), 0, p.iw, 0, p.ih, s.Scale());
    ScalePositive(s);
    SameMean(WindowAcc(tap, 0, p.iw, 0, p.ih), WindowAcc(TentTap(p, s), 0, p.iw, 0, p.ih), s.Scale());
  }

  /** The centre is where the middle of the output pixel falls in the image exactly if both scales are the same. */
  lemma CentreIsMiddle(o: nat, f: real, g: real)
    ensures Centre(o, f, g) == (o as real + 0.5) * f - 0.5 <==> f == g
  {
    assert (o as real + 0.5) * f == o as real * f + f / 2.0;
  }

  /** A tent that covers no pixel of the image leaves zero. */
  lemma NothingCovered(p: Plane, s: Spot)
    requires p.Valid() && forall y, x :: p.Inside(y, x) ==> s.Height(y, x) == 0.0
    ensures TentMean(p, s) == 0.0
  {
    var tap := TentTap(p, s);
    forall y: int, x: int
      ensures tap(y, x) == NOTHING
    {
      if p.Inside(y, x) {
        assert Product(s.Height(y, x), p.Pixel(y, x)) == 0.0;
      }
    }
    forall y: int
      ensures WindowRows(tap, 0, p.iw)(y) == NOTHING
    {
      SumNothing(RowTaps(tap, y), 0, p.iw);
    }
    SumNothing(WindowRows(tap, 0, p.iw), 0, p.ih);
  }

  /**
   Antialiasing narrows the tent along an axis that grows: four times as wide and a quarter as high, the first pixel is
   zero for every image, because no column is within a quarter of its centre at one and a half.
   */
  lemma GrowingAxisMisses(p: Plane)
    requires p.Valid()
    ensures KernelPixel(p, 0.25, 4.0, 2, true, 0, 0) == 0.0
  {
    var s := SpotOf(0.25, 4.0, true, 0, 0);
    assert s.ix == 1.5 && s.sx == 0.25;
    forall y, x | p.Inside(y, x)
      ensures s.Height(y, x) == 0.0
    {
      assert Tent(s.sx, s.ix - x as real) == 0.0;
    }
    NothingCovered(p, s);
    KernelIsTentMean(p, 0.25, 4.0, 2, true, 0, 0);
  }

  /** Element (`q`, `oy`, `ox`) of a finished batch of `n` planes. */
  lemma KernelElement(data: seq<real>, out: seq<real>, n: nat, iw: nat, ih: nat, ow: nat, oh: nat, fx: real, fy: real,
                      antialias: bool, q: nat, oy: nat, ox: nat)
    requires fx > 0.0 && fy > 0.0 && q < n && oy < oh && ox < ow && n * (iw * ih) <= |data|
    requires ResampleLayer.BatchDone(out, n, ow, oh, ResampleLayer.Wants(data, iw, ih, fx, fy, 2, antialias))
    ensures 0 <= q * (ow * oh) + oy * ow + ox < |out| && 0 <= q * (iw * ih) && q * (iw * ih) + iw * ih <= |data|
    ensures out[q * (ow * oh) + oy * ow + ox]
         == TentMean(Plane(data, q * (iw * ih), iw, ih), SpotOf(fx, fy, antialias, oy, ox))
  {
    ResampleLayer.PlaneFits(q, n, iw * ih, |data|);
    var p := ResampleLayer.PlaneAt(data, q, iw, ih);
    ResampleLayer.BatchElement(out, n, ow, oh, ResampleLayer.Wants(data, iw, ih, fx, fy, 2, antialias), q, oy, ox);
    assert p.Valid();
    KernelIsTentMean(p, fx, fy, 2, antialias, oy, ox);
  }
}
