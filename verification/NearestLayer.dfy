/** The three nearest-neighbour resamplers: the generic loop and the two that exploit a fixed scale. */
module NearestLayer {
  import opened Arithmetic
  import opened Resample
  import opened ResampleLayer
  import opened Upsample4x

  // ---------------------------------------------------------------- which pixel is nearest

  /** Source row (or column) of output row `o`: the offset uses the other axis' scale. */
  function Nearest(o: nat, f: real, g: real): int {
    Round(o as real * f + g / 2.0 - 0.5)
  }

  /** The value there; beyond the plane it is whatever memory holds. */
  function NearestPixel(p: Plane, junk: int -> real, fx: real, fy: real, oy: int, ox: int): real {
    if oy >= 0 && ox >= 0 then Load(p, junk, Nearest(oy, fy, fx), Nearest(ox, fx, fy)) else 0.0
  }

  function NearestWant(p: Plane, junk: int -> real, fx: real, fy: real): (int, int) -> real {
    (oy, ox) => NearestPixel(p, junk, fx, fy, oy, ox)
  }

  // ---------------------------------------------------------------- when the reads stay inside the image

  /** Every output pixel has a source pixel. */
  ghost predicate Covers(iw: nat, ih: nat, fx: real, fy: real, ow: nat, oh: nat) {
    AxisCovers(oh, fy, fx, ih) && AxisCovers(ow, fx, fy, iw)
  }

  ghost predicate AxisCovers(count: nat, f: real, g: real, n: nat) {
    forall o: nat :: o < count ==> 0 <= Nearest(o, f, g) < n
  }

  lemma NearestInside(o: nat, f: real, g: real, n: nat, x: real)
    requires f > 0.0 && g > 0.0 && n > 0 && x == o as real * f
    ensures 0 <= Nearest(o, f, g)
    ensures Nearest(o, f, g) < n <==> x + g / 2.0 < n as real
  {
    assert x >= 0.0;
    var c := x + g / 2.0 - 0.5;
    if c < 0.0 {
      assert 0.0 <= -c + 0.5 < 1.0;
    }
  }

  lemma AxisCondition(count: nat, f: real, g: real, n: nat)
    requires count > 0 && n > 0 && f > 0.0 && g > 0.0 && count as real * f == n as real
    ensures AxisCovers(count, f, g, n) <==> g < 2.0 * f
  {
    var last := (count - 1) as real * f;
    assert last == n as real - f;
    NearestInside(count - 1, f, g, n, last);
    if g < 2.0 * f {
      forall o: nat | o < count
        ensures 0 <= Nearest(o, f, g) < n
      {
        var x := o as real * f;
        assert x <= last by {
          assert (count - 1 - o) as real * f >= 0.0;
        }
        NearestInside(o, f, g, n, x);
      }
    }
  }

  lemma Scale(i: nat, o: nat, f: real)
    requires i > 0 && o > 0 && f == i as real / o as real
    ensures f > 0.0 && o as real * f == i as real
  {}

  /** The sources all lie inside exactly when neither scale is twice the other: each axis is offset by the other's
      scale. */
  lemma CoversCondition(iw: nat, ih: nat, fx: real, fy: real, ow: nat, oh: nat)
    requires iw > 0 && ih > 0 && ow > 0 && oh > 0 && fx == iw as real / ow as real && fy == ih as real / oh as real
    ensures Covers(iw, ih, fx, fy, ow, oh) <==> fy < 2.0 * fx && fx < 2.0 * fy
  {
    Scale(iw, ow, fx);
    Scale(ih, oh, fy);
    AxisCondition(oh, fy, fx, ih);
    AxisCondition(ow, fx, fy, iw);
  }

  /** A four by four image resampled to eight by one reads column five. */
  lemma FlatOutputMisses()
    ensures Nearest(7, 0.5, 4.0) == 5 && !Covers(4, 4, 0.5, 4.0, 8, 1)
  {
    AxisCondition(8, 0.5, 4.0, 4);
  }

  /** Inside, the value is the image's. */
  lemma NearestIsPixel(p: Plane, junk: int -> real, fx: real, fy: real, ow: nat, oh: nat, oy: nat, ox: nat)
    requires p.Valid() && Covers(p.iw, p.ih, fx, fy, ow, oh) && oy < oh && ox < ow
    ensures p.Inside(Nearest(oy, fy, fx), Nearest(ox, fx, fy))
    ensures NearestWant(p, junk, fx, fy)(oy, ox) == p.Pixel(Nearest(oy, fy, fx), Nearest(ox, fx, fy))
  {
    LoadInside(p, junk, Nearest(oy, fy, fx), Nearest(ox, fx, fy));
  }

  lemma LoadInside(p: Plane, junk: int -> real, y: int, x: int)
    requires p.Valid() && p.Inside(y, x)
    ensures Load(p, junk, y, x) == p.Pixel(y, x)
  {
    p.InRange(y, x);
  }

  // ---------------------------------------------------------------- the two special scales

  lemma NearestHalf(n: nat, l: nat)
    requires l < 2
    ensures Nearest(2 * n + l, 0.5, 0.5) == n
  {
    var x := (2 * n + l) as real * 0.5 + 0.5 / 2.0 - 0.5;
    assert x == n as real + l as real / 2.0 - 0.25;
    if x < 0.0 {
      assert n == 0 && 0.0 <= -x + 0.5 < 1.0;
    } else {
      assert n as real <= x + 0.5 < n as real + 1.0;
    }
  }

  lemma NearestQuarter(n: nat, l: nat)
    requires l < 4
    ensures Nearest(4 * n + l, 0.25, 0.25) == n
  {
    var x := (4 * n + l) as real * 0.25 + 0.25 / 2.0 - 0.5;
    assert x == n as real + l as real / 4.0 - 0.375;
    if x < 0.0 {
      assert n == 0 && 0.0 <= -x + 0.5 < 1.0;
    } else {
      assert n as real <= x + 0.5 < n as real + 1.0;
    }
  }

  // ---------------------------------------------------------------- the generic loop

  method NearestRow(p: Plane, junk: int -> real, fx: real, fy: real, out: array<real>, start: nat, ow: nat, oy: nat)
    requires p.Valid() && start + ow <= out.Length
    modifies out
    ensures Segment(out, start, ow, RowWant(p, junk, fx, fy, oy))
    ensures forall k :: 0 <= k < out.Length && !(start <= k < start + ow) ==> out[k] == old(out[k])
  {
    ghost var want := RowWant(p, junk, fx, fy, oy);
    for ox := 0 to ow
      invariant Segment(out, start, ox, want)
      invariant forall k :: 0 <= k < out.Length && !(start <= k < start + ow) ==> out[k] == old(out[k])
    {
      var ix_r, iy_r := Nearest(ox, fx, fy), Nearest(oy, fy, fx);
      Spread(out, start, ox, 1, Load(p, junk, iy_r, ix_r), want);
    }
  }

  method NearestPlane(p: Plane, junk: int -> real, fx: real, fy: real, out: array<real>, obase: nat, ow: nat, oh: nat)
    requires p.Valid() && obase + ow * oh <= out.Length
    modifies out
    ensures RowsDone(out[..], obase, ow, oh, NearestWant(p, junk, fx, fy))
    ensures forall k :: 0 <= k < out.Length && !(obase <= k < obase + ow * oh) ==> out[k] == old(out[k])
  {
    ghost var want := NearestWant(p, junk, fx, fy);
    for oy := 0 to oh
      invariant RowsDone(out[..], obase, ow, oy, want)
      invariant forall k :: 0 <= k < out.Length && !(obase <= k < obase + ow * oh) ==> out[k] == old(out[k])
    {
      ghost var was := out[..];
      RowFits(oy, oh, ow);
      NearestRow(p, junk, fx, fy, out, obase + oy * ow, ow, oy);
      RowsKept(was, out[..], obase, ow, oy, want);
      SegmentIsRow(out, obase + oy * ow, ow, p, junk, fx, fy, oy);
      RowAdded(out[..], obase, ow, oy, obase + oy * ow, want);
    }
  }

  // ---------------------------------------------------------------- twice the size

  lemma HalfWant(p: Plane, junk: int -> real, y: nat, x: nat, j: nat, l: nat)
    requires p.Valid() && p.Inside(y, x) && j < 2 && l < 2
    ensures NearestWant(p, junk, 0.5, 0.5)(2 * y + j, 2 * x + l) == p.Pixel(y, x)
  {
    NearestHalf(y, j);
    NearestHalf(x, l);
    LoadInside(p, junk, y, x);
  }

  /** Output row `oy` as a function of the column. */
  function RowWant(p: Plane, junk: int -> real, fx: real, fy: real, oy: int): int -> real {
    c => NearestPixel(p, junk, fx, fy, oy, c)
  }

  /** `n` equal pixels from column `ox` on. */
  method Spread(out: array<real>, start: nat, ox: nat, n: nat, value: real, ghost want: int -> real)
    requires start + ox + n <= out.Length && Segment(out, start, ox, want)
    requires forall c :: ox <= c < ox + n ==> want(c) == value
    modifies out
    ensures Segment(out, start, ox + n, want)
    ensures forall k :: 0 <= k < out.Length && !(start + ox <= k < start + ox + n) ==> out[k] == old(out[k])
  {
    for l := 0 to n
      invariant Segment(out, start, ox + l, want)
      invariant forall k :: 0 <= k < out.Length && !(start + ox <= k < start + ox + n) ==> out[k] == old(out[k])
    {
      ghost var was := out[..];
      out[start + ox + l] := value;
      forall c | 0 <= c < ox + l
        ensures Holds(out[..], start + c, want(c))
      {
        assert Holds(was, start + c, want(c));
      }
    }
  }

  lemma HalfColumns(p: Plane, junk: int -> real, y: nat, x: nat, j: nat, oy: nat)
    requires p.Valid() && p.Inside(y, x) && j < 2 && oy == 2 * y + j
    ensures forall c :: 2 * x <= c < 2 * x + 2 ==> RowWant(p, junk, 0.5, 0.5, oy)(c) == p.Pixel(y, x)
  {
    forall c | 2 * x <= c < 2 * x + 2
      ensures RowWant(p, junk, 0.5, 0.5, oy)(c) == p.Pixel(y, x)
    {
      HalfWant(p, junk, y, x, j, c - 2 * x);
    }
  }

  /** Two output rows, two pixels of each at a time. */
  method DoubleRow(p: Plane, junk: int -> real, out: array<real>, r0: nat, ow: nat, iy: nat)
    requires p.Valid() && iy < p.ih && ow == 2 * p.iw && r0 + 2 * ow <= out.Length
    modifies out
    ensures Segment(out, r0, ow, RowWant(p, junk, 0.5, 0.5, 2 * iy))
    ensures Segment(out, r0 + ow, ow, RowWant(p, junk, 0.5, 0.5, 2 * iy + 1))
    ensures forall k :: 0 <= k < out.Length && !(r0 <= k < r0 + 2 * ow) ==> out[k] == old(out[k])
  {
    ghost var upper, lower := RowWant(p, junk, 0.5, 0.5, 2 * iy), RowWant(p, junk, 0.5, 0.5, 2 * iy + 1);
    for ix := 0 to p.iw
      invariant Segment(out, r0, 2 * ix, upper) && Segment(out, r0 + ow, 2 * ix, lower)
      invariant forall k :: 0 <= k < out.Length && !(r0 <= k < r0 + 2 * ow) ==> out[k] == old(out[k])
    {
      p.InRange(iy, ix);
      var ox := 2 * ix;
      var value := p.data[p.base + iy * p.iw + ix];
      HalfColumns(p, junk, iy, ix, 0, 2 * iy);
      HalfColumns(p, junk, iy, ix, 1, 2 * iy + 1);
      SpreadTwo(out, r0, ow, ox, value, upper, lower);
    }
  }

  method SpreadTwo(out: array<real>, r0: nat, ow: nat, ox: nat, value: real, ghost upper: int -> real,
                   ghost lower: int -> real)
    requires r0 + 2 * ow <= out.Length && ox + 2 <= ow && Segment(out, r0, ox, upper)
    requires Segment(out, r0 + ow, ox, lower)
    requires forall c :: ox <= c < ox + 2 ==> upper(c) == value && lower(c) == value
    modifies out
    ensures Segment(out, r0, ox + 2, upper) && Segment(out, r0 + ow, ox + 2, lower)
    ensures forall k :: 0 <= k < out.Length && !(r0 <= k < r0 + 2 * ow) ==> out[k] == old(out[k])
  {
    Spread(out, r0, ox, 2, value, upper);
    Spread(out, r0 + ow, ox, 2, value, lower);
  }

  lemma SegmentIsRow(out: array<real>, start: int, ow: nat, p: Plane, junk: int -> real, fx: real, fy: real, oy: int)
    requires Segment(out, start, ow, RowWant(p, junk, fx, fy, oy))
    ensures forall ox :: 0 <= ox < ow ==> Holds(out[..], start + ox, NearestWant(p, junk, fx, fy)(oy, ox))
  {
    forall ox | 0 <= ox < ow
      ensures Holds(out[..], start + ox, NearestWant(p, junk, fx, fy)(oy, ox))
    {
      assert Holds(out[..], start + ox, RowWant(p, junk, fx, fy, oy)(ox));
    }
  }

  method DoublePlane(p: Plane, junk: int -> real, out: array<real>, obase: nat, ow: nat, oh: nat)
    requires p.Valid() && ow == 2 * p.iw && oh == 2 * p.ih && obase + ow * oh <= out.Length
    modifies out
    ensures RowsDone(out[..], obase, ow, oh, NearestWant(p, junk, 0.5, 0.5))
    ensures forall k :: 0 <= k < out.Length && !(obase <= k < obase + ow * oh) ==> out[k] == old(out[k])
  {
    ghost var want := NearestWant(p, junk, 0.5, 0.5);
    for iy := 0 to p.ih
      invariant RowsDone(out[..], obase, ow, 2 * iy, want)
      invariant forall k :: 0 <= k < out.Length && !(obase <= k < obase + ow * oh) ==> out[k] == old(out[k])
    {
      ghost var was := out[..];
      RowFits(2 * iy, oh, ow);
      RowFits(2 * iy + 1, oh, ow);
      Distribute(2 * iy, 1, ow);
      var r0 := obase + 2 * iy * ow;
      DoubleRow(p, junk, out, r0, ow, iy);
      RowsKept(was, out[..], obase, ow, 2 * iy, want);
      SegmentIsRow(out, r0, ow, p, junk, 0.5, 0.5, 2 * iy);
      RowAdded(out[..], obase, ow, 2 * iy, r0, want);
      SegmentIsRow(out, r0 + ow, ow, p, junk, 0.5, 0.5, 2 * iy + 1);
      RowAdded(out[..], obase, ow, 2 * iy + 1, r0 + ow, want);
    }
  }

  // ---------------------------------------------------------------- four times the size

  lemma QuarterWant(p: Plane, junk: int -> real, y: nat, x: nat, j: nat, l: nat)
    requires p.Valid() && p.Inside(y, x) && j < 4 && l < 4
    ensures NearestWant(p, junk, 0.25, 0.25)(4 * y + j, 4 * x + l) == p.Pixel(y, x)
  {
    NearestQuarter(y, j);
    NearestQuarter(x, l);
    LoadInside(p, junk, y, x);
  }

  lemma QuarterColumns(p: Plane, junk: int -> real, oy: nat, x: nat)
    requires p.Valid() && p.Inside(oy / 4, x)
    ensures Nearest(oy, 0.25, 0.25) == oy / 4 && Nearest(4 * x, 0.25, 0.25) == x
    ensures forall c :: 4 * x <= c < 4 * x + 4 ==> RowWant(p, junk, 0.25, 0.25, oy)(c) == p.Pixel(oy / 4, x)
  {
    NearestQuarter(oy / 4, oy % 4);
    NearestQuarter(x, 0);
    forall c | 4 * x <= c < 4 * x + 4
      ensures RowWant(p, junk, 0.25, 0.25, oy)(c) == p.Pixel(oy / 4, x)
    {
      QuarterWant(p, junk, oy / 4, x, oy % 4, c - 4 * x);
    }
  }

  /** One output row, four equal pixels at a time. */
  method QuadRow(p: Plane, junk: int -> real, out: array<real>, start: nat, ow: nat, oy: nat)
    requires p.Valid() && oy < 4 * p.ih && ow == 4 * p.iw && p.iw > 0 && start + ow <= out.Length
    modifies out
    ensures Segment(out, start, ow, RowWant(p, junk, 0.25, 0.25, oy))
    ensures forall k :: 0 <= k < out.Length && !(start <= k < start + ow) ==> out[k] == old(out[k])
  {
    ghost var want := RowWant(p, junk, 0.25, 0.25, oy);
    var ox := 0;
    ghost var x := 0;
    while ox <= ow - 4
      invariant ox == 4 * x && x <= p.iw && Segment(out, start, ox, want)
      invariant forall k :: 0 <= k < out.Length && !(start <= k < start + ow) ==> out[k] == old(out[k])
    {
      QuarterColumns(p, junk, oy, x);
      var ix_r, iy_r := Nearest(ox, 0.25, 0.25), Nearest(oy, 0.25, 0.25);
      p.InRange(iy_r, ix_r);
      Spread(out, start, ox, 4, p.data[p.base + iy_r * p.iw + ix_r], want);
      ox, x := ox + 4, x + 1;
    }
  }

  method QuadPlane(p: Plane, junk: int -> real, out: array<real>, obase: nat, ow: nat, oh: nat)
    requires p.Valid() && p.iw > 0 && ow == 4 * p.iw && oh == 4 * p.ih && obase + ow * oh <= out.Length
    modifies out
    ensures RowsDone(out[..], obase, ow, oh, NearestWant(p, junk, 0.25, 0.25))
    ensures forall k :: 0 <= k < out.Length && !(obase <= k < obase + ow * oh) ==> out[k] == old(out[k])
  {
    ghost var want := NearestWant(p, junk, 0.25, 0.25);
    for oy := 0 to oh
      invariant RowsDone(out[..], obase, ow, oy, want)
      invariant forall k :: 0 <= k < out.Length && !(obase <= k < obase + ow * oh) ==> out[k] == old(out[k])
    {
      ghost var was := out[..];
      RowFits(oy, oh, ow);
      QuadRow(p, junk, out, obase + oy * ow, ow, oy);
      RowsKept(was, out[..], obase, ow, oy, want);
      SegmentIsRow(out, obase + oy * ow, ow, p, junk, 0.25, 0.25, oy);
      RowAdded(out[..], obase, ow, oy, obase + oy * ow, want);
    }
  }

  // ---------------------------------------------------------------- batches

  function NearestWants(data: seq<real>, iw: nat, ih: nat, junk: int -> real, fx: real,
                        fy: real): nat -> ((int, int) -> real) {
    (q: nat) => NearestWant(PlaneAt(data, q, iw, ih), junk, fx, fy)
  }

  /** Which of the three the layer runs on a plane. */
  datatype Path = Generic | Twice | FourTimes

  /** The branches of `execute` for nearest-neighbour resampling; all of them owe the same pixels. */
  method ResampleNearest(data: seq<real>, iw: nat, ih: nat, junk: int -> real, fx: real, fy: real,
                         out: array<real>, ow: nat, oh: nat, channels: nat, batch: nat)
    returns (path: Path)
    requires iw > 0 && ih > 0 && ow > 0 && oh > 0 && fx == iw as real / ow as real && fy == ih as real / oh as real
    requires batch * channels * (iw * ih) <= |data| && batch * channels * (ow * oh) <= out.Length
    modifies out
    ensures BatchDone(out[..], batch * channels, ow, oh, NearestWants(data, iw, ih, junk, fx, fy))
    ensures path == if ow == 4 * iw && oh == 4 * ih then FourTimes
                    else if ow == 2 * iw && oh == 2 * ih then Twice
                    else Generic
  {
    Ratio(iw, ow, fx);
    Ratio(ih, oh, fy);
    path := if fx == 0.25 && fy == 0.25 then FourTimes else if fx == 0.5 && fy == 0.5 then Twice else Generic;
    ghost var wants := NearestWants(data, iw, ih, junk, fx, fy);
    var q := 0;
    for b := 0 to batch
      invariant q == b * channels
      invariant BatchDone(out[..], q, ow, oh, wants)
    {
      for c := 0 to channels
        invariant q == b * channels + c
        invariant BatchDone(out[..], q, ow, oh, wants)
      {
        ghost var was := out[..];
        PlaneNumber(b, c, batch, channels);
        PlaneFits(q, batch * channels, iw * ih, |data|);
        PlaneFits(q, batch * channels, ow * oh, out.Length);
        NearestAny(path, PlaneAt(data, q, iw, ih), junk, fx, fy, out, q * (ow * oh), ow, oh);
        BatchGrows(was, out[..], q, ow, oh, wants);
        q := q + 1;
      }
      Distribute(b, 1, channels);
    }
  }

  method NearestAny(path: Path, p: Plane, junk: int -> real, fx: real, fy: real, out: array<real>, obase: nat, ow: nat,
                    oh: nat)
    requires p.Valid() && p.iw > 0 && obase + ow * oh <= out.Length
    requires path == FourTimes ==> fx == 0.25 && fy == 0.25 && ow == 4 * p.iw && oh == 4 * p.ih
    requires path == Twice ==> fx == 0.5 && fy == 0.5 && ow == 2 * p.iw && oh == 2 * p.ih
    modifies out
    ensures RowsDone(out[..], obase, ow, oh, NearestWant(p, junk, fx, fy))
    ensures forall k :: 0 <= k < out.Length && !(obase <= k < obase + ow * oh) ==> out[k] == old(out[k])
  {
    match path
    case FourTimes => QuadPlane(p, junk, out, obase, ow, oh);
    case Twice => DoublePlane(p, junk, out, obase, ow, oh);
    case Generic => NearestPlane(p, junk, fx, fy, out, obase, ow, oh);
  }

  lemma Ratio(i: nat, o: nat, f: real)
    requires i > 0 && o > 0 && f == i as real / o as real
    ensures f == 0.25 <==> o == 4 * i
    ensures f == 0.5 <==> o == 2 * i
  {
    var d := o as real;
    assert f * d == i as real;
    if o == 4 * i {
      ZeroFactor(f - 0.25, d);
    }
    if o == 2 * i {
      ZeroFactor(f - 0.5, d);
    }
  }

  lemma ZeroFactor(a: real, b: real)
    requires a * b == 0.0 && b > 0.0
    ensures a == 0.0
  {}

  // ---------------------------------------------------------------- whole scales

  /** Magnified `k` times, an output row shows the input row it lies in. */
  lemma NearestMagnified(o: nat, k: nat, f: real)
    requires k > 0 && f * k as real == 1.0
    ensures Nearest(o, f, f) == o / k
  {
    Recompose(o, k);
    var q, r := o / k, o % k;
    var part := r as real * f + f / 2.0;
    assert o as real == q as real * k as real + r as real;
    WholePart(q as real, k as real, f);
    PartInside(r, k, f, part);
    assert o as real * f + f / 2.0 - 0.5 == q as real + part - 0.5 by {
      assert o as real * f == (q as real * k as real) * f + r as real * f;
    }
    RoundsTo(q, part);
  }

  lemma WholePart(q: real, k: real, f: real)
    requires f * k == 1.0
    ensures (q * k) * f == q
  {
    assert (q * k) * f == q * (f * k);
  }

  /** The middle of part `r` of `k` lies between 0 and 1. */
  lemma PartInside(r: nat, k: nat, f: real, part: real)
    requires r < k && f * k as real == 1.0 && part == r as real * f + f / 2.0
    ensures 0.0 < part < 1.0
  {
    assert f > 0.0 by {
      if f <= 0.0 {
        RealSign(-f, k as real);
      }
    }
    RealSign(r as real, f);
    RealMonotone(r as real + 1.0, k as real, f);
    Halfway(r as real * f, f, part);
  }

  lemma Halfway(start: real, f: real, part: real)
    requires 0.0 <= start && f > 0.0 && start + f <= 1.0 && part == start + f / 2.0
    ensures 0.0 < part < 1.0
  {}

  lemma RoundsTo(q: nat, part: real)
    requires 0.0 < part < 1.0
    ensures Round(q as real + part - 0.5) == q
  {}

  /** Element (`q`, `oy`, `ox`) of a finished batch of planes magnified `k` times. */
  lemma MagnifiedElement(data: seq<real>, junk: int -> real, out: seq<real>, n: nat, iw: nat, ih: nat, k: nat, f: real,
                         q: nat, oy: nat, ox: nat)
    requires k > 0 && f * k as real == 1.0 && n * (iw * ih) <= |data|
    requires q < n && oy < k * ih && ox < k * iw
    requires BatchDone(out, n, k * iw, k * ih, NearestWants(data, iw, ih, junk, f, f))
    ensures oy / k < ih && ox / k < iw
    ensures 0 <= q * ((k * iw) * (k * ih)) + oy * (k * iw) + ox < |out|
    ensures 0 <= q * (iw * ih) + oy / k * iw + ox / k < |data|
    ensures out[q * ((k * iw) * (k * ih)) + oy * (k * iw) + ox] == data[q * (iw * ih) + oy / k * iw + ox / k]
  {
    var p := PlaneAt(data, q, iw, ih);
    PlaneFits(q, n, iw * ih, |data|);
    BatchElement(out, n, k * iw, k * ih, NearestWants(data, iw, ih, junk, f, f), q, oy, ox);
    MagnifiedPixel(p, junk, k, f, oy, ox);
    p.InRange(oy / k, ox / k);
  }

  lemma MagnifiedPixel(p: Plane, junk: int -> real, k: nat, f: real, oy: nat, ox: nat)
    requires p.Valid() && k > 0 && f * k as real == 1.0 && oy < k * p.ih && ox < k * p.iw
    ensures p.Inside(oy / k, ox / k) && NearestWant(p, junk, f, f)(oy, ox) == p.Pixel(oy / k, ox / k)
  {
    AxisMagnified(oy, k, f, p.ih);
    AxisMagnified(ox, k, f, p.iw);
    NearestPixelIs(p, junk, f, oy, ox, oy / k, ox / k);
  }

  lemma AxisMagnified(o: nat, k: nat, f: real, n: nat)
    requires k > 0 && f * k as real == 1.0 && o < k * n
    ensures 0 <= o / k < n && Nearest(o, f, f) == o / k
  {
    NearestMagnified(o, k, f);
    DivLess(o, k, n);
  }

  lemma NearestPixelIs(p: Plane, junk: int -> real, f: real, oy: nat, ox: nat, y: int, x: int)
    requires p.Valid() && p.Inside(y, x) && Nearest(oy, f, f) == y && Nearest(ox, f, f) == x
    ensures NearestWant(p, junk, f, f)(oy, ox) == p.Pixel(y, x)
  {
    LoadInside(p, junk, y, x);
  }
}
