/** The two linear resamplers over whole batches: the generic loops and the blocked fast path. */
module ResampleLayer {
  import opened Arithmetic
  import opened Resample
  import opened Upsample4x

  /** What both resamplers owe at output pixel (`oy`, `ox`) of a plane. */
  function Want(p: Plane, fx: real, fy: real, kw: nat, aa: bool, oy: int, ox: int): real {
    if p.Valid() && fx > 0.0 && fy > 0.0 && oy >= 0 && ox >= 0 then KernelPixel(p, fx, fy, kw, aa, oy, ox) else 0.0
  }

  /** Rows `0 .. n - 1` of the output plane at `obase` are finished. */
  ghost predicate RowsDone(s: seq<real>, obase: nat, ow: nat, n: nat, want: (int, int) -> real) {
    forall oy, ox :: 0 <= oy < n && 0 <= ox < ow ==> Holds(s, obase + oy * ow + ox, want(oy, ox))
  }

  predicate Holds(s: seq<real>, k: int, value: real) {
    0 <= k < |s| && s[k] == value
  }

  /** Two buffers hold the same values from `lo` up to `hi`. */
  predicate Agree(s: seq<real>, t: seq<real>, lo: nat, hi: nat) {
    |s| == |t| && hi <= |s| && forall k :: lo <= k < hi ==> s[k] == t[k]
  }

  lemma RowIndex(oy: int, n: int, ow: int, ox: int)
    requires 0 <= oy < n && 0 <= ox < ow
    ensures 0 <= oy * ow && oy * ow + ox < n * ow
  {
    MulStrict(oy, n, ow);
    MulMonotone(0, oy, ow);
  }

  lemma RowsKept(s: seq<real>, t: seq<real>, obase: nat, ow: nat, n: nat, want: (int, int) -> real)
    requires RowsDone(s, obase, ow, n, want) && Agree(s, t, obase, obase + n * ow)
    ensures RowsDone(t, obase, ow, n, want)
  {
    forall oy, ox | 0 <= oy < n && 0 <= ox < ow
      ensures Holds(t, obase + oy * ow + ox, want(oy, ox))
    {
      RowIndex(oy, n, ow, ox);
      assert Holds(s, obase + oy * ow + ox, want(oy, ox));
    }
  }

  /** One more finished row. */
  lemma RowAdded(s: seq<real>, obase: nat, ow: nat, n: nat, start: nat, want: (int, int) -> real)
    requires start == obase + n * ow && RowsDone(s, obase, ow, n, want)
    requires forall ox :: 0 <= ox < ow ==> Holds(s, start + ox, want(n, ox))
    ensures RowsDone(s, obase, ow, n + 1, want)
  {}

  // ---------------------------------------------------------------- the generic kernel

  /** One output row of the generic kernel. */
  method KernelRow(p: Plane, fx: real, fy: real, kw: nat, aa: bool, out: array<real>, start: nat, ow: nat, oy: nat)
    requires p.Valid() && fx > 0.0 && fy > 0.0 && start + ow <= out.Length
    modifies out
    ensures forall ox :: 0 <= ox < ow ==> out[start + ox] == Want(p, fx, fy, kw, aa, oy, ox)
    ensures forall k :: 0 <= k < out.Length && !(start <= k < start + ow) ==> out[k] == old(out[k])
  {
    for ox := 0 to ow
      invariant forall c :: 0 <= c < ox ==> out[start + c] == Want(p, fx, fy, kw, aa, oy, c)
      invariant forall k :: 0 <= k < out.Length && !(start <= k < start + ow) ==> out[k] == old(out[k])
    {
      var value := Accumulate(p, KernelWindow(fx, fy, kw, aa, oy, ox));
      out[start + ox] := value;
    }
  }

  method KernelPlane(p: Plane, fx: real, fy: real, kw: nat, aa: bool, out: array<real>, obase: nat, ow: nat, oh: nat)
    requires p.Valid() && fx > 0.0 && fy > 0.0 && obase + ow * oh <= out.Length
    modifies out
    ensures RowsDone(out[..], obase, ow, oh, PlaneWant(p, fx, fy, kw, aa))
    ensures forall k :: 0 <= k < out.Length && !(obase <= k < obase + ow * oh) ==> out[k] == old(out[k])
  {
    ghost var want := PlaneWant(p, fx, fy, kw, aa);
    for oy := 0 to oh
      invariant RowsDone(out[..], obase, ow, oy, want)
      invariant forall k :: 0 <= k < out.Length && !(obase <= k < obase + ow * oh) ==> out[k] == old(out[k])
    {
      ghost var was := out[..];
      RowFits(oy, oh, ow);
      KernelRow(p, fx, fy, kw, aa, out, obase + oy * ow, ow, oy);
      RowsKept(was, out[..], obase, ow, oy, want);
      RowAdded(out[..], obase, ow, oy, obase + oy * ow, want);
    }
  }

  lemma RowFits(oy: nat, oh: nat, ow: nat)
    requires oy < oh
    ensures 0 <= oy * ow && oy * ow + ow <= ow * oh
  {
    MulMonotone(oy + 1, oh, ow);
    MulMonotone(0, oy, ow);
  }

  // ---------------------------------------------------------------- the blocked fast path

  /** The four row starts of an output block lie `ow` apart. */
  ghost predicate Starts(starts: seq<nat>, r0: nat, ow: nat) {
    |starts| == 4 && starts[0] == r0 && starts[1] == r0 + ow && starts[2] == r0 + 2 * ow && starts[3] == r0 + 3 * ow
  }

  /** Row `j` of the block is finished up to column `n`. */
  ghost predicate Segment(out: array<real>, start: int, n: nat, want: int -> real)
    reads out
  {
    SegmentIn(out[..], start, n, want)
  }

  ghost predicate SegmentIn(s: seq<real>, start: int, n: nat, want: int -> real) {
    forall c :: 0 <= c < n ==> Holds(s, start + c, want(c))
  }

  method StoreLanes(out: array<real>, at: nat, v: V4)
    requires at + 4 <= out.Length
    modifies out
    ensures forall k :: 0 <= k < out.Length ==> out[k] == if at <= k < at + 4 then Lane(v, k - at) else old(out[k])
  {
    out[at], out[at + 1], out[at + 2], out[at + 3] := v.a, v.b, v.c, v.d;
  }

  /** Column `c` of row `j` of the block above input row `y`. */
  function BlockWant(p: Plane, y: nat, j: nat): int -> real {
    c => Want(p, 0.25, 0.25, 2, false, 4 * y + j, c)
  }

  lemma WantIsPixel(p: Plane, y: nat, j: nat, c: nat, pixel: real)
    requires p.Valid() && pixel == KernelPixel(p, 0.25, 0.25, 2, false, 4 * y + j, c)
    ensures BlockWant(p, y, j)(c) == pixel
  {}

  lemma LaneIsWant(p: Plane, junk: int -> real, kind: RowKind, y: nat, x: nat, left: bool, right: bool, j: nat, l: nat,
                   value: real)
    requires p.Valid() && p.iw >= 2 && p.ih >= 2 && y < p.ih && x < p.iw && j < 4 && l < 4
    requires Flags(ImageOf(p), kind, y, x, left, right)
    requires value == Lane(Quad(Around(p, junk), kind, y, x, left, right, j), l)
    ensures BlockWant(p, y, j)(4 * x + l) == value
  {
    var pixel := KernelPixel(p, 0.25, 0.25, 2, false, 4 * y + j, 4 * x + l);
    QuadIsKernel(p, junk, kind, y, x, left, right, j, l, value, pixel);
    WantIsPixel(p, y, j, 4 * x + l, pixel);
  }

  function BlockWants(p: Plane, y: nat): nat -> int -> real {
    j => BlockWant(p, y, j)
  }

  method ComputeQuad(p: Plane, ghost junk: int -> real, ld: (int, int) -> real, kind: RowKind, y: nat, x: nat,
                     left: bool, right: bool, j: nat)
    returns (v: V4)
    requires p.Valid() && p.iw >= 2 && p.ih >= 2 && y < p.ih && x < p.iw && j < 4
    requires Flags(ImageOf(p), kind, y, x, left, right) && ld == Around(p, junk)
    ensures forall l :: 0 <= l < 4 ==> Lane(v, l) == BlockWants(p, y)(j)(4 * x + l)
  {
    v := Quad(ld, kind, y, x, left, right, j);
    forall l | 0 <= l < 4
      ensures Lane(v, l) == BlockWants(p, y)(j)(4 * x + l)
    {
      assert BlockWants(p, y)(j) == BlockWant(p, y, j);
      LaneIsWant(p, junk, kind, y, x, left, right, j, l, Lane(v, l));
    }
  }

  /** The loop over the four output rows of one column of quads. */
  method StoreColumn(p: Plane, junk: int -> real, kind: RowKind, y: nat, x: nat, out: array<real>, r0: nat, ow: nat)
    requires p.Valid() && p.iw >= 2 && p.ih >= 2 && y < p.ih && x < p.iw && ow == 4 * p.iw
    requires (kind == First <==> y == 0) && (kind == Last <==> y == p.ih - 1)
    requires r0 + 4 * ow <= out.Length
    requires forall j: nat :: j < 4 ==> Segment(out, r0 + j * ow, 4 * x, BlockWants(p, y)(j))
    modifies out
    ensures forall j: nat :: j < 4 ==> Segment(out, r0 + j * ow, 4 * x + 4, BlockWants(p, y)(j))
    ensures forall k :: 0 <= k < out.Length && !(r0 <= k < r0 + 4 * ow) ==> out[k] == old(out[k])
  {
    var ox := 4 * x;
    for i := 0 to 4
      invariant forall j: nat :: j < 4 ==> Segment(out, r0 + j * ow, if j < i then ox + 4 else ox, BlockWants(p, y)(j))
      invariant forall k :: 0 <= k < out.Length && !(r0 <= k < r0 + 4 * ow) ==> out[k] == old(out[k])
    {
      StoreQuad(p, junk, kind, y, x, out, r0, ow, ox, i);
    }
  }

  /** One quad of output row `i` of the block. */
  method StoreQuad(p: Plane, junk: int -> real, kind: RowKind, y: nat, x: nat, out: array<real>, r0: nat, ow: nat,
                   ox: nat, i: nat)
    requires p.Valid() && p.iw >= 2 && p.ih >= 2 && y < p.ih && x < p.iw && ow == 4 * p.iw && ox == 4 * x && i < 4
    requires (kind == First <==> y == 0) && (kind == Last <==> y == p.ih - 1)
    requires r0 + 4 * ow <= out.Length
    requires forall j: nat :: j < 4 ==> Segment(out, r0 + j * ow, if j < i then ox + 4 else ox, BlockWants(p, y)(j))
    modifies out
    ensures forall j: nat :: j < 4 ==> Segment(out, r0 + j * ow, if j < i + 1 then ox + 4 else ox, BlockWants(p, y)(j))
    ensures forall k :: 0 <= k < out.Length && !(r0 <= k < r0 + 4 * ow) ==> out[k] == old(out[k])
  {
    var v := ComputeQuad(p, junk, Around(p, junk), kind, y, x, ox == 0, ox == ow - 4, i);
    PlaceQuad(out, r0, ow, ox, i, v, BlockWants(p, y));
  }

  /** Four lanes, placed in output row `i` of the block; the other rows keep what they have. */
  method PlaceQuad(out: array<real>, r0: nat, ow: nat, ox: nat, i: nat, v: V4, ghost wants: nat -> int -> real)
    requires i < 4 && ox + 4 <= ow && r0 + 4 * ow <= out.Length
    requires forall l :: 0 <= l < 4 ==> Lane(v, l) == wants(i)(ox + l)
    requires forall j: nat :: j < 4 ==> Segment(out, r0 + j * ow, if j < i then ox + 4 else ox, wants(j))
    modifies out
    ensures forall j: nat :: j < 4 ==> Segment(out, r0 + j * ow, if j < i + 1 then ox + 4 else ox, wants(j))
    ensures forall k :: 0 <= k < out.Length && !(r0 <= k < r0 + 4 * ow) ==> out[k] == old(out[k])
  {
    RowFits(i, 4, ow);
    ghost var was := out[..];
    var at := r0 + i * ow + ox;
    StoreLanes(out, at, v);
    QuadPlaced(was, out[..], r0, ow, ox, i, v, wants, at);
  }

  /** Four lanes went to position `at` of row `i`. */
  ghost predicate LanesAt(was: seq<real>, now: seq<real>, at: int, v: V4) {
    && 0 <= at && at + 4 <= |was| == |now|
    && forall k :: 0 <= k < |now| ==> now[k] == if at <= k < at + 4 then Lane(v, k - at) else was[k]
  }

  lemma QuadPlaced(was: seq<real>, now: seq<real>, r0: nat, ow: nat, ox: nat, i: nat, v: V4,
                   wants: nat -> int -> real, at: int)
    requires i < 4 && ox + 4 <= ow && at == r0 + i * ow + ox && LanesAt(was, now, at, v)
    requires forall j: nat :: j < 4 ==> SegmentIn(was, r0 + j * ow, if j < i then ox + 4 else ox, wants(j))
    requires forall l :: 0 <= l < 4 ==> Lane(v, l) == wants(i)(ox + l)
    ensures forall j: nat :: j < 4 ==> SegmentIn(now, r0 + j * ow, if j < i + 1 then ox + 4 else ox, wants(j))
  {
    forall j: nat | j < 4
      ensures SegmentIn(now, r0 + j * ow, if j < i + 1 then ox + 4 else ox, wants(j))
    {
      if j == i {
        SegmentGrown(was, now, r0 + i * ow, ox, v, wants(i), at);
      } else if j < i {
        MulStrict(j, i, ow);
        SegmentKept(was, now, r0 + j * ow, ox + 4, v, wants(j), at);
      } else {
        MulStrict(i, j, ow);
        SegmentKept(was, now, r0 + j * ow, ox, v, wants(j), at);
      }
    }
  }

  /** A segment clear of the four lanes. */
  lemma SegmentKept(was: seq<real>, now: seq<real>, start: int, n: nat, v: V4, want: int -> real, at: int)
    requires LanesAt(was, now, at, v) && SegmentIn(was, start, n, want)
    requires start + n <= at || at + 4 <= start
    ensures SegmentIn(now, start, n, want)
  {
    forall c | 0 <= c < n
      ensures Holds(now, start + c, want(c))
    {
      assert Holds(was, start + c, want(c));
    }
  }

  /** The segment the four lanes extend. */
  lemma SegmentGrown(was: seq<real>, now: seq<real>, start: int, ox: nat, v: V4, want: int -> real, at: int)
    requires LanesAt(was, now, at, v) && at == start + ox && SegmentIn(was, start, ox, want)
    requires forall l :: 0 <= l < 4 ==> Lane(v, l) == want(ox + l)
    ensures SegmentIn(now, start, ox + 4, want)
  {
    forall c | 0 <= c < ox + 4
      ensures Holds(now, start + c, want(c))
    {
      if c < ox {
        assert Holds(was, start + c, want(c));
      } else {
        var l := c - ox;
        assert Lane(v, l) == want(ox + l);
        assert now[at + l] == Lane(v, at + l - at);
      }
    }
  }

  /** One block of four output rows. */
  method RowBlock(p: Plane, junk: int -> real, kind: RowKind, oy: nat, out: array<real>, obase: nat, ow: nat,
                  ghost y: nat)
    requires p.Valid() && p.iw >= 2 && p.ih >= 2 && y < p.ih && oy == 4 * y && ow == 4 * p.iw
    requires (kind == First <==> y == 0) && (kind == Last <==> y == p.ih - 1)
    requires obase + oy * ow + 4 * ow <= out.Length
    modifies out
    ensures forall j: nat :: j < 4 ==> Segment(out, obase + oy * ow + j * ow, ow, BlockWants(p, y)(j))
    ensures forall k :: 0 <= k < out.Length && !(obase + oy * ow <= k < obase + oy * ow + 4 * ow) ==>
      out[k] == old(out[k])
  {
    RoundOffset(y, 0);
    var iyr := Round(oy as real * 0.25 + 0.25 / 2.0 - 0.5);
    RowColumns(p, junk, kind, iyr, out, obase + oy * ow, ow);
  }

  /** Its columns of four quads, from left to right. */
  method RowColumns(p: Plane, junk: int -> real, kind: RowKind, y: nat, out: array<real>, r0: nat, ow: nat)
    requires p.Valid() && p.iw >= 2 && p.ih >= 2 && y < p.ih && ow == 4 * p.iw
    requires (kind == First <==> y == 0) && (kind == Last <==> y == p.ih - 1)
    requires r0 + 4 * ow <= out.Length
    modifies out
    ensures forall j: nat :: j < 4 ==> Segment(out, r0 + j * ow, ow, BlockWants(p, y)(j))
    ensures forall k :: 0 <= k < out.Length && !(r0 <= k < r0 + 4 * ow) ==> out[k] == old(out[k])
  {
    var ox := 0;
    ghost var x := 0;
    while ox <= ow - 4
      invariant ox == 4 * x && x <= p.iw
      invariant forall j: nat :: j < 4 ==> Segment(out, r0 + j * ow, ox, BlockWants(p, y)(j))
      invariant forall k :: 0 <= k < out.Length && !(r0 <= k < r0 + 4 * ow) ==> out[k] == old(out[k])
    {
      RoundOffset(x, 0);
      var ixr := Round(ox as real * 0.25 + 0.25 / 2.0 - 0.5);
      StoreColumn(p, junk, kind, y, ixr, out, r0, ow);
      ox, x := ox + 4, x + 1;
    }
  }

  function PlaneWant(p: Plane, fx: real, fy: real, kw: nat, aa: bool): (int, int) -> real {
    (oy, ox) => Want(p, fx, fy, kw, aa, oy, ox)
  }

  /** A block of four finished rows extends the finished part of the plane. */
  lemma BlockAdded(p: Plane, s: seq<real>, obase: nat, ow: nat, oy: nat, y: nat)
    requires p.Valid() && oy == 4 * y
    requires RowsDone(s, obase, ow, oy, PlaneWant(p, 0.25, 0.25, 2, false))
    requires forall j: nat, c :: j < 4 && 0 <= c < ow ==> Holds(s, obase + oy * ow + j * ow + c, BlockWant(p, y, j)(c))
    ensures RowsDone(s, obase, ow, oy + 4, PlaneWant(p, 0.25, 0.25, 2, false))
  {
    forall r, c | oy <= r < oy + 4 && 0 <= c < ow
      ensures Holds(s, obase + r * ow + c, PlaneWant(p, 0.25, 0.25, 2, false)(r, c))
    {
      var j := r - oy;
      Distribute(oy, j, ow);
      assert Holds(s, obase + oy * ow + j * ow + c, BlockWant(p, y, j)(c));
    }
  }

  /** `Upsample4x_TriangleInterpolation` on one plane: first, middle and last rows of blocks. */
  method UpsamplePlane(p: Plane, junk: int -> real, out: array<real>, obase: nat, ow: nat, oh: nat)
    requires p.Valid() && p.iw >= 2 && p.ih >= 2 && ow == 4 * p.iw && oh == 4 * p.ih && obase + ow * oh <= out.Length
    requires oh < SIZE_RANGE
    modifies out
    ensures RowsDone(out[..], obase, ow, oh, PlaneWant(p, 0.25, 0.25, 2, false))
    ensures forall k :: 0 <= k < out.Length && !(obase <= k < obase + ow * oh) ==> out[k] == old(out[k])
  {
    BoundsOfBlocks(oh, p.ih);
    UpsampleBlock(p, junk, First, 0, out, obase, ow, oh, 0);
    var oy := 4;
    ghost var y := 1;
    while oy <= SizeSub(oh, 8)
      invariant oy == 4 * y && 1 <= y <= p.ih - 1
      invariant RowsDone(out[..], obase, ow, oy, PlaneWant(p, 0.25, 0.25, 2, false))
      invariant forall k :: 0 <= k < out.Length && !(obase <= k < obase + ow * oh) ==> out[k] == old(out[k])
    {
      UpsampleBlock(p, junk, Middle, oy, out, obase, ow, oh, y);
      oy, y := oy + 4, y + 1;
    }
    oy := SizeSub(oh, 4);
    UpsampleBlock(p, junk, Last, oy, out, obase, ow, oh, y);
  }

  lemma BoundsOfBlocks(oh: nat, ih: nat)
    requires oh == 4 * ih && ih >= 2 && oh < SIZE_RANGE
    ensures SizeSub(oh, 8) == 4 * (ih - 2) && SizeSub(oh, 4) == 4 * (ih - 1)
  {}

  method UpsampleBlock(p: Plane, junk: int -> real, kind: RowKind, oy: nat, out: array<real>, obase: nat, ow: nat,
                       oh: nat, ghost y: nat)
    requires p.Valid() && p.iw >= 2 && p.ih >= 2 && ow == 4 * p.iw && oh == 4 * p.ih && obase + ow * oh <= out.Length
    requires oy == 4 * y && y < p.ih && (kind == First <==> y == 0) && (kind == Last <==> y == p.ih - 1)
    requires RowsDone(out[..], obase, ow, oy, PlaneWant(p, 0.25, 0.25, 2, false))
    modifies out
    ensures RowsDone(out[..], obase, ow, oy + 4, PlaneWant(p, 0.25, 0.25, 2, false))
    ensures forall k :: 0 <= k < out.Length && !(obase <= k < obase + ow * oh) ==> out[k] == old(out[k])
  {
    ghost var was := out[..];
    BlockFits(oy, oh, ow);
    RowBlock(p, junk, kind, oy, out, obase, ow, y);
    RowsKept(was, out[..], obase, ow, oy, PlaneWant(p, 0.25, 0.25, 2, false));
    forall j: nat, c | j < 4 && 0 <= c < ow
      ensures Holds(out[..], obase + oy * ow + j * ow + c, BlockWant(p, y, j)(c))
    {
      assert Segment(out, obase + oy * ow + j * ow, ow, BlockWants(p, y)(j));
    }
    BlockAdded(p, out[..], obase, ow, oy, y);
  }

  lemma BlockFits(oy: nat, oh: nat, ow: nat)
    requires oy + 4 <= oh
    ensures 0 <= oy * ow && oy * ow + 4 * ow <= ow * oh
  {
    MulMonotone(oy + 4, oh, ow);
    MulMonotone(0, oy, ow);
    Distribute(oy, 4, ow);
  }

  // ---------------------------------------------------------------- batches of planes

  /** Plane `q` of a dense batch. */
  function PlaneAt(data: seq<real>, q: nat, iw: nat, ih: nat): Plane {
    Plane(data, q * (iw * ih), iw, ih)
  }

  ghost predicate BatchDone(s: seq<real>, n: nat, ow: nat, oh: nat, wants: nat -> ((int, int) -> real)) {
    forall q: nat :: q < n ==> RowsDone(s, q * (ow * oh), ow, oh, wants(q))
  }

  /** Element (`q`, `oy`, `ox`) of a finished batch. */
  lemma BatchElement(s: seq<real>, n: nat, ow: nat, oh: nat, wants: nat -> ((int, int) -> real), q: nat, oy: nat,
                     ox: nat)
    requires BatchDone(s, n, ow, oh, wants) && q < n && oy < oh && ox < ow
    ensures 0 <= q * (ow * oh) + oy * ow + ox < |s| && s[q * (ow * oh) + oy * ow + ox] == wants(q)(oy, ox)
  {
    assert RowsDone(s, q * (ow * oh), ow, oh, wants(q));
    assert Holds(s, q * (ow * oh) + oy * ow + ox, wants(q)(oy, ox));
  }

  /** The pixels owed for each plane of a batch. */
  function Wants(data: seq<real>, iw: nat, ih: nat, fx: real, fy: real, kw: nat,
                 aa: bool): nat -> ((int, int) -> real) {
    (q: nat) => PlaneWant(PlaneAt(data, q, iw, ih), fx, fy, kw, aa)
  }

  lemma PlaneFits(q: nat, n: nat, size: nat, total: nat)
    requires q < n && n * size <= total
    ensures 0 <= q * size && q * size + size <= total
  {
    MulMonotone(q + 1, n, size);
    MulMonotone(0, q, size);
    Distribute(q, 1, size);
  }

  /** Finished planes stay finished while the next one is written. */
  lemma BatchGrows(s: seq<real>, t: seq<real>, q: nat, ow: nat, oh: nat, wants: nat -> ((int, int) -> real))
    requires BatchDone(s, q, ow, oh, wants) && q * (ow * oh) <= |s| && Agree(s, t, 0, q * (ow * oh))
    requires RowsDone(t, q * (ow * oh), ow, oh, wants(q))
    ensures BatchDone(t, q + 1, ow, oh, wants)
  {
    forall q': nat | q' < q
      ensures RowsDone(t, q' * (ow * oh), ow, oh, wants(q'))
    {
      PlaneFits(q', q, ow * oh, q * (ow * oh));
      RowsKept(s, t, q' * (ow * oh), ow, oh, wants(q'));
    }
  }

  /** `InterpolationKernel`. */
  method InterpolationKernel(data: seq<real>, iw: nat, ih: nat, fx: real, fy: real, out: array<real>, ow: nat, oh: nat,
                             channels: nat, batch: nat, kw: nat, aa: bool)
    requires fx > 0.0 && fy > 0.0
    requires batch * channels * (iw * ih) <= |data| && batch * channels * (ow * oh) <= out.Length
    modifies out
    ensures BatchDone(out[..], batch * channels, ow, oh, Wants(data, iw, ih, fx, fy, kw, aa))
  {
    ghost var wants := Wants(data, iw, ih, fx, fy, kw, aa);
    var q := 0;
    for b := 0 to batch
      invariant q == b * channels
      invariant BatchDone(out[..], q, ow, oh, wants)
    {
      for c := 0 to channels
        invariant q == b * channels + c
        invariant BatchDone(out[..], q, ow, oh, wants)
      {
        ghost var was := out[..];
        PlaneNumber(b, c, batch, channels);
        PlaneFits(q, batch * channels, iw * ih, |data|);
        PlaneFits(q, batch * channels, ow * oh, out.Length);
        KernelPlane(PlaneAt(data, q, iw, ih), fx, fy, kw, aa, out, q * (ow * oh), ow, oh);
        BatchGrows(was, out[..], q, ow, oh, wants);
        q := q + 1;
      }
      Distribute(b, 1, channels);
    }
  }

  /** `Upsample4x_TriangleInterpolation`: the same pixels as the generic kernel at scale one quarter. */
  method TriangleUpsample4x(data: seq<real>, iw: nat, ih: nat, junk: int -> real, out: array<real>, ow: nat, oh: nat,
                            channels: nat, batch: nat)
    requires iw >= 2 && ih >= 2 && ow == 4 * iw && oh == 4 * ih && oh < SIZE_RANGE
    requires batch * channels * (iw * ih) <= |data| && batch * channels * (ow * oh) <= out.Length
    modifies out
    ensures BatchDone(out[..], batch * channels, ow, oh, Wants(data, iw, ih, 0.25, 0.25, 2, false))
  {
    ghost var wants := Wants(data, iw, ih, 0.25, 0.25, 2, false);
    var q := 0;
    for b := 0 to batch
      invariant q == b * channels
      invariant BatchDone(out[..], q, ow, oh, wants)
    {
      for c := 0 to channels
        invariant q == b * channels + c
        invariant BatchDone(out[..], q, ow, oh, wants)
      {
        ghost var was := out[..];
        PlaneNumber(b, c, batch, channels);
        PlaneFits(q, batch * channels, iw * ih, |data|);
        PlaneFits(q, batch * channels, ow * oh, out.Length);
        UpsamplePlane(PlaneAt(data, q, iw, ih), junk, out, q * (ow * oh), ow, oh);
        BatchGrows(was, out[..], q, ow, oh, wants);
        q := q + 1;
      }
      Distribute(b, 1, channels);
    }
  }

  lemma PlaneNumber(b: nat, c: nat, batch: nat, channels: nat)
    requires b < batch && c < channels
    ensures b * channels + c < batch * channels
  {
    MulMonotone(b + 1, batch, channels);
    Distribute(b, 1, channels);
  }
}
