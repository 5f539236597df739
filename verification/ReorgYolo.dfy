/** The reorg layer: which input element each output element is copied from, and when that is a rearrangement. */
module ReorgYolo {
  import opened Arithmetic
  import opened Memory

  /** Input dimensions and stride; both blobs have `Size()` elements. */
  datatype Shape = Shape(B: nat, IC: nat, IH: nat, IW: nat, stride: nat) {
    predicate Valid() {
      IC > 0 && IH > 0 && IW > 0 && stride > 0 && Off() > 0
    }

    function Off(): nat
      requires stride > 0
    {
      IC / (stride * stride)
    }

    function Size(): int {
      B * IC * IH * IW
    }

    /** The channels are cut into `stride * stride` equal groups. */
    predicate Divisible()
      requires stride > 0
    {
      IC == Off() * (stride * stride)
    }
  }

  // ---------------------------------------------------------------- coordinates and linear positions

  datatype Coord = Coord(b: int, c: int, h: int, w: int)

  predicate InBox(x: Coord, B: int, C: int, H: int, W: int) {
    0 <= x.b < B && 0 <= x.c < C && 0 <= x.h < H && 0 <= x.w < W
  }

  /** Row-major position, as nested steps. */
  function Flat(x: Coord, C: int, H: int, W: int): int {
    ((x.b * C + x.c) * H + x.h) * W + x.w
  }

  function Unflat(k: nat, C: nat, H: nat, W: nat): Coord
    requires C > 0 && H > 0 && W > 0
  {
    Coord(k / W / H / C, k / W / H % C, k / W % H, k % W)
  }

  /** The sum of products the code computes. */
  lemma FlatCode(x: Coord, C: int, H: int, W: int)
    ensures x.b * C * H * W + x.c * H * W + x.h * W + x.w == Flat(x, C, H, W)
  {
    Distribute(x.b * C, x.c, H);
    Distribute((x.b * C + x.c) * H, x.h, W);
    Distribute(x.b * C * H, x.c * H, W);
  }

  lemma StepInRange(q: int, r: int, n: int, m: int)
    requires 0 <= q < n && 0 <= r < m
    ensures 0 <= q * m + r < n * m
  {
    MulStrict(q, n, m);
    MulMonotone(0, q, m);
  }

  lemma FlatInRange(x: Coord, B: int, C: int, H: int, W: int)
    requires InBox(x, B, C, H, W)
    ensures 0 <= Flat(x, C, H, W) < B * C * H * W
  {
    StepInRange(x.b, x.c, B, C);
    StepInRange(x.b * C + x.c, x.h, B * C, H);
    StepInRange((x.b * C + x.c) * H + x.h, x.w, B * C * H, W);
  }

  lemma UnflatFlat(x: Coord, B: int, C: nat, H: nat, W: nat)
    requires InBox(x, B, C, H, W)
    ensures 0 <= Flat(x, C, H, W) && Unflat(Flat(x, C, H, W), C, H, W) == x
  {
    FlatInRange(x, B, C, H, W);
    UnflatSteps(x, Flat(x, C, H, W), (x.b * C + x.c) * H + x.h, x.b * C + x.c, C, H, W);
  }

  lemma UnflatSteps(x: Coord, k: int, p: int, q: int, C: nat, H: nat, W: nat)
    requires 0 <= x.c < C && 0 <= x.h < H && 0 <= x.w < W && k >= 0
    requires k == p * W + x.w && p == q * H + x.h && q == x.b * C + x.c
    ensures Unflat(k, C, H, W) == x
  {
    DivModUnique(p, x.w, W);
    DivModUnique(q, x.h, H);
    DivModUnique(x.b, x.c, C);
  }

  lemma FlatUnflat(k: nat, B: nat, C: nat, H: nat, W: nat)
    requires C > 0 && H > 0 && W > 0 && k < B * C * H * W
    ensures InBox(Unflat(k, C, H, W), B, C, H, W) && Flat(Unflat(k, C, H, W), C, H, W) == k
  {
    Recompose(k, W);
    Recompose(k / W, H);
    Recompose(k / W / H, C);
    DivLess(k, W, B * C * H);
    DivLess(k / W, H, B * C);
    DivLess(k / W / H, C, B);
  }

  // ---------------------------------------------------------------- the mapping

  /** Where the element of output coordinate `x` comes from: coordinates in an input seen as fewer, larger planes. */
  function From(s: Shape, x: Coord): Coord
    requires s.Valid() && x.c >= 0
  {
    var offset := x.c / s.Off();
    Coord(x.b, x.c % s.Off(), x.h * s.stride + offset / s.stride, x.w * s.stride + offset % s.stride)
  }

  function To(s: Shape, y: Coord): Coord
    requires s.Valid() && y.h >= 0 && y.w >= 0
  {
    var offset := y.h % s.stride * s.stride + y.w % s.stride;
    Coord(y.b, offset * s.Off() + y.c, y.h / s.stride, y.w / s.stride)
  }

  function Source(s: Shape, x: Coord): int
    requires s.Valid() && x.c >= 0
  {
    Flat(From(s, x), s.Off(), s.IH * s.stride, s.IW * s.stride)
  }

  /** The same on linear positions, and its inverse. */
  function SrcAt(s: Shape, k: nat): int
    requires s.Valid()
  {
    Source(s, Unflat(k, s.IC, s.IH, s.IW))
  }

  function DstAt(s: Shape, k: nat): int
    requires s.Valid()
  {
    MulPositive(s.IH, s.stride);
    MulPositive(s.IW, s.stride);
    Flat(To(s, Unflat(k, s.Off(), s.IH * s.stride, s.IW * s.stride)), s.IC, s.IH, s.IW)
  }

  lemma MulPositive(a: nat, b: nat)
    requires a > 0 && b > 0
    ensures a * b > 0
  {
    MulStrict(0, a, b);
  }

  lemma GroupOf(s: Shape, x: Coord)
    requires s.Valid() && s.Divisible() && 0 <= x.c < s.IC
    ensures var offset := x.c / s.Off(); 0 <= offset / s.stride < s.stride && x.c == offset * s.Off() + x.c % s.Off()
  {
    var q, n := s.Off(), s.stride * s.stride;
    assert x.c < n * q;
    DivLess(x.c, q, n);
    Recompose(x.c, q);
    DivLess(x.c / q, s.stride, s.stride);
  }

  lemma FromInBox(s: Shape, x: Coord)
    requires s.Valid() && s.Divisible() && InBox(x, s.B, s.IC, s.IH, s.IW)
    ensures InBox(From(s, x), s.B, s.Off(), s.IH * s.stride, s.IW * s.stride) && To(s, From(s, x)) == x
  {
    GroupOf(s, x);
    var offset := x.c / s.Off();
    StepInRange(x.h, offset / s.stride, s.IH, s.stride);
    StepInRange(x.w, offset % s.stride, s.IW, s.stride);
    DivModUnique(x.h, offset / s.stride, s.stride);
    DivModUnique(x.w, offset % s.stride, s.stride);
    Recompose(offset, s.stride);
  }

  lemma ToInBox(s: Shape, y: Coord)
    requires s.Valid() && s.Divisible() && InBox(y, s.B, s.Off(), s.IH * s.stride, s.IW * s.stride)
    ensures InBox(To(s, y), s.B, s.IC, s.IH, s.IW) && From(s, To(s, y)) == y
  {
    var q, n := s.Off(), s.stride;
    var offset := y.h % n * n + y.w % n;
    StepInRange(y.h % n, y.w % n, n, n);
    StepInRange(offset, y.c, n * n, q);
    DivModUnique(offset, y.c, q);
    DivModUnique(y.h % n, y.w % n, n);
    DivLess(y.h, n, s.IH);
    DivLess(y.w, n, s.IW);
    Recompose(y.h, n);
    Recompose(y.w, n);
  }

  lemma SameSize(s: Shape)
    requires s.Valid() && s.Divisible()
    ensures s.B * s.Off() * (s.IH * s.stride) * (s.IW * s.stride) == s.Size()
  {
    var q, n := s.Off(), s.stride;
    Regroup(s.B, q, s.IH, s.IW, n);
  }

  lemma Regroup(b: int, q: int, h: int, w: int, n: int)
    ensures b * q * (h * n) * (w * n) == b * (q * (n * n)) * h * w
  {
    var x := b * q;
    assert x * (h * n) * (w * n) == x * h * n * w * n;
    assert b * (q * (n * n)) == x * n * n;
    assert x * n * n * h * w == x * h * n * w * n;
  }

  /** With equal groups the layer is a rearrangement: every input position is used exactly once. */
  lemma Bijection(s: Shape, k: nat)
    requires s.Valid() && s.Divisible() && k < s.Size()
    ensures 0 <= SrcAt(s, k) < s.Size() && DstAt(s, SrcAt(s, k)) == k
    ensures 0 <= DstAt(s, k) < s.Size() && SrcAt(s, DstAt(s, k)) == k
  {
    MulPositive(s.IH, s.stride);
    MulPositive(s.IW, s.stride);
    SameSize(s);
    var x := Unflat(k, s.IC, s.IH, s.IW);
    FlatUnflat(k, s.B, s.IC, s.IH, s.IW);
    FromInBox(s, x);
    FlatInRange(From(s, x), s.B, s.Off(), s.IH * s.stride, s.IW * s.stride);
    UnflatFlat(From(s, x), s.B, s.Off(), s.IH * s.stride, s.IW * s.stride);
    var y := Unflat(k, s.Off(), s.IH * s.stride, s.IW * s.stride);
    FlatUnflat(k, s.B, s.Off(), s.IH * s.stride, s.IW * s.stride);
    ToInBox(s, y);
    FlatInRange(To(s, y), s.B, s.IC, s.IH, s.IW);
    UnflatFlat(To(s, y), s.B, s.IC, s.IH, s.IW);
  }

  // ---------------------------------------------------------------- when it is one

  /** No two output elements are copies of the same input element. */
  ghost predicate Injective(s: Shape)
    requires s.Valid()
  {
    forall x, y ::
      InBox(x, s.B, s.IC, s.IH, s.IW) && InBox(y, s.B, s.IC, s.IH, s.IW) && Source(s, x) == Source(s, y) ==> x == y
  }

  /** The one shape without equal groups that still copies no element twice: a single group, row and image. */
  predicate Single(s: Shape)
    requires s.stride > 0
  {
    s.Off() == 1 && s.IH == 1 && s.B == 1
  }

  /** The first channel beyond the equal groups starts where another row, channel or image starts. */
  lemma Collision(s: Shape)
    requires s.Valid() && !s.Divisible() && !Single(s) && s.B > 0
    ensures !Injective(s)
  {
    var q, n := s.Off(), s.stride;
    var m := n * n;
    Recompose(s.IC, m);
    var extra := Coord(0, q * m, 0, 0);
    MulPositive(n, n);
    MulMonotone(0, m, q);
    assert 0 <= q * m < s.IC;
    DivModUnique(m, 0, q);
    DivModUnique(n, 0, n);
    assert From(s, extra) == Coord(0, 0, n, 0);
    var H, W := s.IH * n, s.IW * n;
    var other := if s.IH > 1 then Coord(0, 0, 1, 0) else if q > 1 then Coord(0, 1, 0, 0) else Coord(1, 0, 0, 0);
    if s.IH > 1 {
      DivModUnique(0, 0, q);
      DivModUnique(0, 0, n);
      assert From(s, other) == Coord(0, 0, n, 0);
    } else if q > 1 {
      DivModUnique(0, 1, q);
      DivModUnique(0, 0, n);
      MulMonotone(1, m, q);
      assert From(s, other) == Coord(0, 1, 0, 0);
      assert Flat(Coord(0, 1, 0, 0), q, H, W) == H * W == n * W;
    } else {
      DivModUnique(0, 0, q);
      DivModUnique(0, 0, n);
      assert From(s, other) == Coord(1, 0, 0, 0);
      assert Flat(Coord(1, 0, 0, 0), q, H, W) == q * H * W == n * W;
    }
    assert Flat(Coord(0, 0, n, 0), q, H, W) == n * W;
    assert Source(s, extra) == Source(s, other);
  }

  lemma DivisibleInjective(s: Shape)
    requires s.Valid() && s.Divisible()
    ensures Injective(s)
  {
    MulPositive(s.IH, s.stride);
    MulPositive(s.IW, s.stride);
    forall x, y | InBox(x, s.B, s.IC, s.IH, s.IW) && InBox(y, s.B, s.IC, s.IH, s.IW) && Source(s, x) == Source(s, y)
      ensures x == y
    {
      FromInBox(s, x);
      FromInBox(s, y);
      UnflatFlat(From(s, x), s.B, s.Off(), s.IH * s.stride, s.IW * s.stride);
      UnflatFlat(From(s, y), s.B, s.Off(), s.IH * s.stride, s.IW * s.stride);
    }
  }

  /** With a single group, row and image the source position still determines the element. */
  lemma SingleInjective(s: Shape)
    requires s.Valid() && Single(s)
    ensures Injective(s)
  {
    MulPositive(s.IW, s.stride);
    forall x, y | InBox(x, s.B, s.IC, s.IH, s.IW) && InBox(y, s.B, s.IC, s.IH, s.IW) && Source(s, x) == Source(s, y)
      ensures x == y
    {
      SingleSource(s, x);
      SingleSource(s, y);
    }
  }

  lemma SingleSource(s: Shape, x: Coord)
    requires s.Valid() && Single(s) && InBox(x, s.B, s.IC, s.IH, s.IW) && s.IW * s.stride > 0
    ensures var k, n, W := Source(s, x), s.stride, s.IW * s.stride;
      k >= 0 && x == Coord(0, k / W * n + k % W % n, 0, k % W / n)
  {
    var n, W := s.stride, s.IW * s.stride;
    DivModUnique(x.c, 0, 1);
    assert From(s, x) == Coord(0, 0, x.c / n, x.w * n + x.c % n);
    StepInRange(x.w, x.c % n, s.IW, n);
    assert Source(s, x) == x.c / n * W + (x.w * n + x.c % n);
    MulMonotone(0, x.c / n, W);
    DivModUnique(x.c / n, x.w * n + x.c % n, W);
    DivModUnique(x.w, x.c % n, n);
    Recompose(x.c, n);
  }

  /** Exactly when the squared stride divides the channels, that shape apart, is no element copied twice. */
  lemma InjectiveCondition(s: Shape)
    requires s.Valid() && s.B > 0
    ensures Injective(s) <==> s.Divisible() || Single(s)
  {
    if s.Divisible() {
      DivisibleInjective(s);
    } else if Single(s) {
      SingleInjective(s);
    } else {
      Collision(s);
    }
  }

  // ---------------------------------------------------------------- when the reads stay inside the input

  /** No element is read beyond the input. */
  ghost predicate ReadsInside(s: Shape)
    requires s.Valid()
  {
    forall x :: InBox(x, s.B, s.IC, s.IH, s.IW) ==> 0 <= Source(s, x) < s.Size()
  }

  /** Channels beyond the equal groups. */
  function Rest(s: Shape): nat
    requires s.Valid()
  {
    MulPositive(s.stride, s.stride);
    s.IC % (s.stride * s.stride)
  }

  /** How far behind a whole group an element of the `e`-th surplus group reaches. */
  function Reach(s: Shape, e: nat): int
    requires s.Valid()
  {
    e / s.stride * (s.IW * s.stride) + (s.IW - 1) * s.stride + e % s.stride
  }

  /** There are fewer surplus channels than a group has, or they make room enough for what they read. */
  predicate RoomForRest(s: Shape)
    requires s.Valid()
  {
    Rest(s) < s.Off() || Reach(s, Rest(s) / s.Off() - 1) < s.B * Rest(s) * s.IH * s.IW
  }

  lemma RestBound(s: Shape)
    requires s.Valid()
    ensures Rest(s) < s.stride * s.stride && s.IC == s.Off() * (s.stride * s.stride) + Rest(s)
  {
    MulPositive(s.stride, s.stride);
    Recompose(s.IC, s.stride * s.stride);
  }

  lemma ReachBound(s: Shape, e: nat)
    requires s.Valid() && e < s.stride * s.stride
    ensures 0 <= Reach(s, e) < (s.IH * s.stride) * (s.IW * s.stride)
  {
    var n, W := s.stride, s.IW * s.stride;
    DivLess(e, n, n);
    StepInRange(s.IW - 1, e % n, s.IW, n);
    StepInRange(e / n, (s.IW - 1) * n + e % n, n, W);
    MulMonotone(1, s.IH, n);
    MulMonotone(n, s.IH * n, W);
  }

  lemma ReachGrows(s: Shape, d: nat, e: nat)
    requires s.Valid() && d <= e
    ensures Reach(s, d) <= Reach(s, e)
  {
    var n, W := s.stride, s.IW * s.stride;
    Recompose(d, n);
    Recompose(e, n);
    MulMonotone(1, s.IW, n);
    if d / n < e / n {
      MulStrict(d / n, e / n, W);
    } else if d / n > e / n {
      MulStrict(e / n, d / n, n);
    }
  }

  /** Of one channel, the last element of the last image reads furthest. */
  lemma LastReadsFurthest(s: Shape, x: Coord)
    requires s.Valid() && InBox(x, s.B, s.IC, s.IH, s.IW)
    ensures Source(s, x) <= Source(s, Coord(s.B - 1, x.c, s.IH - 1, s.IW - 1))
  {
    var a, b := From(s, x), From(s, Coord(s.B - 1, x.c, s.IH - 1, s.IW - 1));
    MulMonotone(x.h, s.IH - 1, s.stride);
    MulMonotone(x.w, s.IW - 1, s.stride);
    FlatGrows(a, b, s.Off(), s.IH * s.stride, s.IW * s.stride);
  }

  lemma FlatGrows(a: Coord, b: Coord, C: nat, H: nat, W: nat)
    requires a.b <= b.b && a.c <= b.c && a.h <= b.h && a.w <= b.w
    ensures Flat(a, C, H, W) <= Flat(b, C, H, W)
  {
    MulMonotone(a.b, b.b, C);
    MulMonotone(a.b * C + a.c, b.b * C + b.c, H);
    MulMonotone((a.b * C + a.c) * H + a.h, (b.b * C + b.c) * H + b.h, W);
  }

  /** The offset of surplus channel `t`, as quotient and remainder by the stride. */
  lemma SurplusOffset(s: Shape, t: nat)
    requires s.Valid()
    ensures var c, e := s.Off() * (s.stride * s.stride) + t, t / s.Off();
      && c >= 0 && c % s.Off() == t % s.Off()
      && c / s.Off() / s.stride == s.stride + e / s.stride && c / s.Off() % s.stride == e % s.stride
  {
    var q, n := s.Off(), s.stride;
    var e := t / q;
    Recompose(t, q);
    Distribute(n * n, e, q);
    DivModUnique(n * n + e, t % q, q);
    Recompose(e, n);
    Distribute(n, e / n, n);
    DivModUnique(n + e / n, e % n, n);
  }

  /** Where the last element of surplus channel `t` reads. */
  lemma SurplusReads(s: Shape, t: nat)
    requires s.Valid() && s.B > 0
    ensures var c, plane := s.Off() * (s.stride * s.stride) + t, (s.IH * s.stride) * (s.IW * s.stride);
      && c >= 0
      && Source(s, Coord(s.B - 1, c, s.IH - 1, s.IW - 1)) ==
        ((s.B - 1) * s.Off() + t % s.Off() + 1) * plane + Reach(s, t / s.Off())
  {
    SurplusOffset(s, t);
    var q, n, e := s.Off(), s.stride, t / s.Off();
    var H, W := s.IH * n, s.IW * n;
    var g := (s.B - 1) * q + t % q;
    Distribute(s.IH - 1, 1, n);
    FlatTop(g, H, W, (s.IH - 1) * n + (n + e / n), e / n, (s.IW - 1) * n + e % n);
  }

  lemma FlatTop(g: int, H: int, W: int, h: int, d: int, w: int)
    requires h == H + d
    ensures (g * H + h) * W + w == (g + 1) * (H * W) + d * W + w
  {
    Distribute(g, 1, H);
    Distribute((g + 1) * H, d, W);
    MulAssoc(g + 1, H, W);
  }

  /** Equal groups and surplus channels share the input. */
  lemma SizeSplits(s: Shape)
    requires s.Valid() && s.B > 0
    ensures s.Size() == s.B * s.Off() * ((s.IH * s.stride) * (s.IW * s.stride)) + s.B * Rest(s) * s.IH * s.IW
    ensures s.B * Rest(s) * s.IH * s.IW >= 0
  {
    RestBound(s);
    var q, m, r := s.Off(), s.stride * s.stride, Rest(s);
    Distribute(q * m, r, s.B);
    Distribute(s.B * (q * m), s.B * r, s.IH);
    Distribute(s.B * (q * m) * s.IH, s.B * r * s.IH, s.IW);
    Regroup(s.B, q, s.IH, s.IW, s.stride);
    MulAssoc(s.B * q, s.IH * s.stride, s.IW * s.stride);
    MulMonotone(0, s.B, r);
    MulMonotone(0, s.B * r, s.IH);
    MulMonotone(0, s.B * r * s.IH, s.IW);
  }

  /** The last element of a surplus channel stays inside, or reaches behind the last group. */
  lemma SurplusInside(s: Shape, t: nat)
    requires s.Valid() && s.B > 0 && t < Rest(s)
    ensures var c := s.Off() * (s.stride * s.stride) + t;
      && c >= 0
      && (Source(s, Coord(s.B - 1, c, s.IH - 1, s.IW - 1)) < s.Size() <==>
            t % s.Off() + 1 < s.Off() || Reach(s, t / s.Off()) < s.B * Rest(s) * s.IH * s.IW)
  {
    RestBound(s);
    SizeSplits(s);
    SurplusReads(s, t);
    var q, plane := s.Off(), (s.IH * s.stride) * (s.IW * s.stride);
    DivAtMost(t, q);
    ReachBound(s, t / q);
    var g := (s.B - 1) * q + t % q + 1;
    Distribute(s.B - 1, 1, q);
    if t % q + 1 < q {
      MulStrict(g, s.B * q, plane);
    }
  }

  lemma DivAtMost(t: nat, q: nat)
    requires q > 0
    ensures 0 <= t / q <= t
  {
    Recompose(t, q);
    MulMonotone(1, q, t / q);
  }

  /** A channel of an equal group reads inside. */
  lemma GroupReadsInside(s: Shape, x: Coord)
    requires s.Valid() && s.B > 0 && InBox(x, s.B, s.IC, s.IH, s.IW) && x.c < s.Off() * (s.stride * s.stride)
    ensures Source(s, x) < s.Size()
  {
    var q, n := s.Off(), s.stride;
    var even := s.(IC := q * (n * n));
    MulPositive(n, n);
    MulPositive(q, n * n);
    DivModUnique(q, 0, n * n);
    assert even.Valid() && even.Divisible() && even.Off() == q;
    FromInBox(even, x);
    assert From(even, x) == From(s, x);
    FlatInRange(From(s, x), s.B, q, s.IH * n, s.IW * n);
    SizeSplits(s);
    MulAssoc(s.B * q, s.IH * n, s.IW * n);
  }

  /** The surplus channel that reaches furthest behind the last group. */
  lemma WorstSurplus(s: Shape)
    requires s.Valid() && s.B > 0 && Rest(s) >= s.Off()
    ensures var t := Rest(s) / s.Off() * s.Off() - 1;
      0 <= t < Rest(s) && t % s.Off() == s.Off() - 1 && t / s.Off() == Rest(s) / s.Off() - 1
  {
    var q, k := s.Off(), Rest(s) / s.Off();
    Recompose(Rest(s), q);
    assert k >= 1;
    Distribute(k - 1, 1, q);
    MulMonotone(0, k - 1, q);
    DivModUnique(k - 1, q - 1, q);
  }

  /** The reads stay inside exactly when there is room for what the surplus channels read. */
  lemma ReadsCondition(s: Shape)
    requires s.Valid() && s.B > 0
    ensures ReadsInside(s) <==> RoomForRest(s)
  {
    RestBound(s);
    if RoomForRest(s) {
      forall x | InBox(x, s.B, s.IC, s.IH, s.IW)
        ensures 0 <= Source(s, x) < s.Size()
      {
        RoomSuffices(s, x);
      }
    } else {
      WorstSurplus(s);
      var t := Rest(s) / s.Off() * s.Off() - 1;
      SurplusInside(s, t);
      var x := Coord(s.B - 1, s.Off() * (s.stride * s.stride) + t, s.IH - 1, s.IW - 1);
      assert InBox(x, s.B, s.IC, s.IH, s.IW) && Source(s, x) >= s.Size();
    }
  }

  lemma RoomSuffices(s: Shape, x: Coord)
    requires s.Valid() && s.B > 0 && RoomForRest(s) && InBox(x, s.B, s.IC, s.IH, s.IW)
    ensures 0 <= Source(s, x) < s.Size()
  {
    RestBound(s);
    SourceNonNegative(s, x);
    var q, m := s.Off(), s.stride * s.stride;
    if x.c < q * m {
      GroupReadsInside(s, x);
    } else {
      var t := x.c - q * m;
      SurplusInside(s, t);
      LastReadsFurthest(s, x);
      if t % q + 1 == q {
        SurplusRank(s, t);
        ReachGrows(s, t / q, Rest(s) / q - 1);
      }
    }
  }

  /** A full row of surplus channels comes before the last one ends. */
  lemma SurplusRank(s: Shape, t: nat)
    requires s.Valid() && t < Rest(s) && t % s.Off() + 1 == s.Off()
    ensures Rest(s) >= s.Off() && t / s.Off() <= Rest(s) / s.Off() - 1
  {
    var q := s.Off();
    Recompose(t, q);
    Recompose(Rest(s), q);
    MulMonotone(0, t / q, q);
    if t / q > Rest(s) / q - 1 {
      MulMonotone(Rest(s) / q, t / q, q);
    }
  }

  /** Seven channels of one row of two with stride two: the fourteen elements are read up to position fourteen. */
  lemma SevenChannelsMiss()
    ensures Shape(1, 7, 1, 2, 2).Valid() && Shape(1, 7, 1, 2, 2).Size() == 14 && !ReadsInside(Shape(1, 7, 1, 2, 2))
  {
    var s := Shape(1, 7, 1, 2, 2);
    assert s.Off() == 1 && Rest(s) == 3;
    assert Reach(s, 2) == 6;
    ReadsCondition(s);
  }

  // ---------------------------------------------------------------- the layer

  /** `execute`: output element by output element. */
  method Execute(s: Shape, src: array<real>, beyond: int -> real, dst: array<real>)
    requires s.Valid() && src != dst && dst.Length == s.Size()
    modifies dst
    ensures Done(s, src[..], beyond, dst[..], s.Size())
  {
    ghost var done := 0;
    for b := 0 to s.B
      invariant done == b * s.IC * s.IH * s.IW && Done(s, src[..], beyond, dst[..], done)
    {
      for ic := 0 to s.IC
        invariant done == (b * s.IC + ic) * s.IH * s.IW && Done(s, src[..], beyond, dst[..], done)
      {
        for ih := 0 to s.IH
          invariant done == ((b * s.IC + ic) * s.IH + ih) * s.IW && Done(s, src[..], beyond, dst[..], done)
        {
          done := CopyRow(s, src, beyond, dst, b, ic, ih, done);
          Distribute((b * s.IC + ic) * s.IH + ih, 1, s.IW);
        }
        Distribute(b * s.IC + ic, 1, s.IH);
      }
      Distribute(b, 1, s.IC);
    }
  }

  /** The first `n` output elements are copies of their sources. */
  ghost predicate Done(s: Shape, src: seq<real>, beyond: int -> real, dst: seq<real>, n: int)
    requires s.Valid()
  {
    forall k: nat :: k < n && k < |dst| ==> dst[k] == ReadAt(src, beyond, SrcAt(s, k))
  }

  method CopyRow(s: Shape, src: array<real>, beyond: int -> real, dst: array<real>, b: nat, ic: nat, ih: nat,
                 ghost start: int)
    returns (ghost done: int)
    requires s.Valid() && src != dst && dst.Length == s.Size() && b < s.B && ic < s.IC && ih < s.IH
    requires start == ((b * s.IC + ic) * s.IH + ih) * s.IW && Done(s, src[..], beyond, dst[..], start)
    modifies dst
    ensures done == start + s.IW && Done(s, src[..], beyond, dst[..], done)
  {
    done := start;
    for iw := 0 to s.IW
      invariant done == start + iw && Done(s, src[..], beyond, dst[..], done)
    {
      CopyElement(s, src, beyond, dst, Coord(b, ic, ih, iw), done);
      done := done + 1;
    }
  }

  method CopyElement(s: Shape, src: array<real>, beyond: int -> real, dst: array<real>, x: Coord, ghost done: int)
    requires s.Valid() && src != dst && dst.Length == s.Size() && InBox(x, s.B, s.IC, s.IH, s.IW)
    requires done == Flat(x, s.IC, s.IH, s.IW) && Done(s, src[..], beyond, dst[..], done)
    modifies dst
    ensures Done(s, src[..], beyond, dst[..], done + 1)
  {
    FlatCode(x, s.IC, s.IH, s.IW);
    UnflatFlat(x, s.B, s.IC, s.IH, s.IW);
    FlatInRange(x, s.B, s.IC, s.IH, s.IW);
    var ic_off, ih_off, iw_off := s.Off(), s.IH * s.stride, s.IW * s.stride;
    var dstIndex := x.b * s.IC * s.IH * s.IW + x.c * s.IH * s.IW + x.h * s.IW + x.w;
    var oc, offset := x.c % ic_off, x.c / ic_off;
    var ow, oh := x.w * s.stride + offset % s.stride, x.h * s.stride + offset / s.stride;
    FlatCode(From(s, x), ic_off, ih_off, iw_off);
    var srcIndex := x.b * ic_off * ih_off * iw_off + oc * ih_off * iw_off + oh * iw_off + ow;
    assert srcIndex == SrcAt(s, dstIndex);
    dst[dstIndex] := ReadAt(src[..], beyond, srcIndex);
  }

  lemma SourceNonNegative(s: Shape, x: Coord)
    requires s.Valid() && x.b >= 0 && x.c >= 0 && x.h >= 0 && x.w >= 0
    ensures Source(s, x) >= 0
  {
    var offset := x.c / s.Off();
    StepNonNegative(x.h, s.stride, offset);
    StepNonNegative(x.w, s.stride, offset);
    MulPositive(s.IH, s.stride);
    MulPositive(s.IW, s.stride);
    FlatNonNegative(From(s, x), s.Off(), s.IH * s.stride, s.IW * s.stride);
  }

  lemma StepNonNegative(h: nat, n: nat, offset: nat)
    requires n > 0
    ensures h * n + offset / n >= 0 && h * n + offset % n >= 0
  {
    MulMonotone(0, h, n);
  }

  lemma FlatNonNegative(y: Coord, C: nat, H: nat, W: nat)
    requires y.b >= 0 && y.c >= 0 && y.h >= 0 && y.w >= 0
    ensures Flat(y, C, H, W) >= 0
  {
    MulMonotone(0, y.b, C);
    MulMonotone(0, y.b * C + y.c, H);
    MulMonotone(0, (y.b * C + y.c) * H + y.h, W);
  }

  /** With equal groups the output, read through the inverse mapping, is the input. */
  lemma Recovered(s: Shape, src: seq<real>, beyond: int -> real, dst: seq<real>, k: nat)
    requires s.Valid() && s.Divisible() && |src| == |dst| == s.Size() && Done(s, src, beyond, dst, s.Size())
    requires k < |src|
    ensures 0 <= DstAt(s, k) < |dst| && dst[DstAt(s, k)] == src[k]
  {
    Bijection(s, k);
  }

  /**
   Space to depth: seen as `Off()` planes of `stride` times as many rows and columns, the input's pixel in row `py` and
   column `px` of tile (`h`, `w`) of plane `c` goes to pixel (`h`, `w`) of channel `(py * stride + px) * Off() + c`.
   */
  lemma SpaceToDepth(s: Shape, src: seq<real>, beyond: int -> real, dst: seq<real>, b: nat, c: nat, py: nat, px: nat,
                     h: nat, w: nat)
    requires s.Valid() && |dst| == s.Size() && Done(s, src, beyond, dst, s.Size())
    requires b < s.B && c < s.Off() && py < s.stride && px < s.stride && h < s.IH && w < s.IW
    ensures var channel := (py * s.stride + px) * s.Off() + c;
      var at := ((b * s.IC + channel) * s.IH + h) * s.IW + w;
      var row := (b * s.Off() + c) * (s.IH * s.stride) + (h * s.stride + py);
      && 0 <= channel < s.IC && 0 <= at < |dst|
      && dst[at] == ReadAt(src, beyond, row * (s.IW * s.stride) + (w * s.stride + px))
  {
    var x := Coord(b, (py * s.stride + px) * s.Off() + c, h, w);
    TileChannel(s, c, py, px);
    FlatInRange(x, s.B, s.IC, s.IH, s.IW);
    UnflatFlat(x, s.B, s.IC, s.IH, s.IW);
    assert From(s, x) == Coord(b, c, h * s.stride + py, w * s.stride + px);
    StoredAt(s, src, beyond, dst, x);
  }

  lemma TileChannel(s: Shape, c: nat, py: nat, px: nat)
    requires s.Valid() && c < s.Off() && py < s.stride && px < s.stride
    ensures var channel := (py * s.stride + px) * s.Off() + c;
      0 <= channel < s.IC && channel / s.Off() == py * s.stride + px && channel % s.Off() == c
    ensures (py * s.stride + px) / s.stride == py && (py * s.stride + px) % s.stride == px
  {
    StepInRange(py, px, s.stride, s.stride);
    StepInRange(py * s.stride + px, c, s.stride * s.stride, s.Off());
    DivModUnique(py * s.stride + px, c, s.Off());
    DivModUnique(py, px, s.stride);
    MulPositive(s.stride, s.stride);
    Recompose(s.IC, s.stride * s.stride);
  }

  lemma StoredAt(s: Shape, src: seq<real>, beyond: int -> real, dst: seq<real>, x: Coord)
    requires s.Valid() && |dst| == s.Size() && Done(s, src, beyond, dst, s.Size()) && InBox(x, s.B, s.IC, s.IH, s.IW)
    ensures 0 <= Flat(x, s.IC, s.IH, s.IW) < |dst|
    ensures dst[Flat(x, s.IC, s.IH, s.IW)] == ReadAt(src, beyond, Source(s, x))
  {
    FlatInRange(x, s.B, s.IC, s.IH, s.IW);
    UnflatFlat(x, s.B, s.IC, s.IH, s.IW);
  }
}
