/**
 The table-driven 4x triangle upsampler, four lanes at a time, and its agreement with the generic
 kernel.
 */
module Upsample4x {
  import opened Memory
  import opened Resample

  // ---------------------------------------------------------------- four-lane vectors

  datatype V4 = V4(a: real, b: real, c: real, d: real)

  const ZERO := V4(0.0, 0.0, 0.0, 0.0)

  function Lane(v: V4, l: int): real {
    if l == 0 then v.a else if l == 1 then v.b else if l == 2 then v.c else v.d
  }

  /** `_mm_shuffle_ps`: two lanes of `x`, then two of `y`, chosen by two-bit fields. */
  function Shuffle(x: V4, y: V4, imm: nat): V4 {
    V4(Lane(x, imm % 4), Lane(x, imm / 4 % 4), Lane(y, imm / 16 % 4), Lane(y, imm / 64 % 4))
  }

  function Mul(x: V4, y: V4): V4 {
    V4(x.a * y.a, x.b * y.b, x.c * y.c, x.d * y.d)
  }

  function Add(x: V4, y: V4): V4 {
    V4(x.a + y.a, x.b + y.b, x.c + y.c, x.d + y.d)
  }

  function Div(x: V4, y: V4): V4 {
    V4(Quot(x.a, y.a), Quot(x.b, y.b), Quot(x.c, y.c), Quot(x.d, y.d))
  }

  /** `_mm_load_ss`: one value in lane 0. */
  function LoadSs(value: real): V4 {
    V4(value, 0.0, 0.0, 0.0)
  }

  /** The coefficient table: row `i` of an output block, four coefficient vectors. */
  const TABLE_SSE: seq<seq<V4>> := [
    [ V4(0.140625, 0.046875, 0.046875, 0.140625), V4(0.234375, 0.328125, 0.328125, 0.234375),
      V4(0.234375, 0.078125, 0.078125, 0.234375), V4(0.390625, 0.546875, 0.546875, 0.390625) ],
    [ V4(0.046875, 0.015625, 0.015625, 0.046875), V4(0.078125, 0.109375, 0.109375, 0.078125),
      V4(0.328125, 0.109375, 0.109375, 0.328125), V4(0.546875, 0.765625, 0.765625, 0.546875) ],
    [ V4(0.328125, 0.109375, 0.109375, 0.328125), V4(0.546875, 0.765625, 0.765625, 0.546875),
      V4(0.046875, 0.015625, 0.015625, 0.046875), V4(0.078125, 0.109375, 0.109375, 0.078125) ],
    [ V4(0.234375, 0.078125, 0.078125, 0.234375), V4(0.390625, 0.546875, 0.546875, 0.390625),
      V4(0.140625, 0.046875, 0.046875, 0.140625), V4(0.234375, 0.328125, 0.328125, 0.234375) ]
  ]

  // ---------------------------------------------------------------- one quad of output pixels

  datatype RowKind = First | Middle | Last

  /** What lies at linear offset `y * iw + x` from the plane. */
  function Load(p: Plane, junk: int -> real, y: int, x: int): real {
    ReadAt(p.data, junk, p.base + y * p.iw + x)
  }

  function Around(p: Plane, junk: int -> real): (int, int) -> real {
    (y, x) => Load(p, junk, y, x)
  }

  /** The coefficients of row `i`, after the border adjustments for this row kind and column. */
  function Coefficients(kind: RowKind, left: bool, right: bool, i: nat): (c: (V4, V4, V4, V4))
    requires i < 4
  {
    var c0 := if kind == First && i < 2 then ZERO else TABLE_SSE[i][0];
    var c1 := if kind == First && i < 2 then ZERO else TABLE_SSE[i][1];
    var c2 := if kind == Last && i >= 2 then ZERO else TABLE_SSE[i][2];
    var c3 := if kind == Last && i >= 2 then ZERO else TABLE_SSE[i][3];
    var adjust0 := !(kind == First && i < 2);
    var adjust2 := !(kind == Last && i >= 2);
    if left then
      (if adjust0 then Shuffle(ZERO, c0, 0xD0) else c0, c1, if adjust2 then Shuffle(ZERO, c2, 0xD0) else c2, c3)
    else if right then
      (if adjust0 then Shuffle(c0, ZERO, 0x07) else c0, c1, if adjust2 then Shuffle(c2, ZERO, 0x07) else c2, c3)
    else
      (c0, c1, c2, c3)
  }

  /** The four taps of row `i` around input pixel (`y`, `x`), spread over the lanes. */
  function Sources(ld: (int, int) -> real, kind: RowKind, y: nat, x: nat, i: nat): (V4, V4, V4, V4) {
    var vx00 := if kind == First then ZERO else LoadSs(ld(y - 1, x - 1));
    var vx01 := if kind == First then ZERO else LoadSs(ld(y - 1, x));
    var vx02 := if kind == First then ZERO else LoadSs(ld(y - 1, x + 1));
    var vx10 := LoadSs(ld(y, x - 1));
    var vx11 := LoadSs(ld(y, x));
    var vx12 := LoadSs(ld(y, x + 1));
    var vx20 := if kind == Last then ZERO else LoadSs(ld(y + 1, x - 1));
    var vx21 := if kind == Last then ZERO else LoadSs(ld(y + 1, x));
    var vx22 := if kind == Last then ZERO else LoadSs(ld(y + 1, x + 1));
    if i < 2 then
      (Shuffle(vx00, vx02, 0), Shuffle(vx01, vx01, 0), Shuffle(vx10, vx12, 0), Shuffle(vx11, vx11, 0))
    else
      (Shuffle(vx10, vx12, 0), Shuffle(vx11, vx11, 0), Shuffle(vx20, vx22, 0), Shuffle(vx21, vx21, 0))
  }

  /** The vector stored for row `i` of the block above input pixel (`y`, `x`). */
  function Quad(ld: (int, int) -> real, kind: RowKind, y: nat, x: nat, left: bool, right: bool, i: nat): V4
    requires i < 4
  {
    var c := Coefficients(kind, left, right, i);
    var v := Sources(ld, kind, y, x, i);
    Finish(Blend(v, c), Weights(c), kind != Middle || left || right)
  }

  function Blend(v: (V4, V4, V4, V4), c: (V4, V4, V4, V4)): V4 {
    Add(Add(Mul(v.0, c.0), Mul(v.1, c.1)), Add(Mul(v.2, c.2), Mul(v.3, c.3)))
  }

  function Weights(c: (V4, V4, V4, V4)): V4 {
    Add(Add(c.0, c.1), Add(c.2, c.3))
  }

  /** Border blocks divide by the sum of the coefficients; inner blocks need not. */
  function Finish(res: V4, wei: V4, divide: bool): V4 {
    if divide then Div(res, wei) else res
  }

  // ---------------------------------------------------------------- the separable weights

  /** Distance from input pixel `X` of output pixel `4 X + l`. */
  function Offset(l: int): real {
    l as real / 4.0 - 0.375
  }

  /** Weight of the centre tap and of the one neighbour with weight, along one axis. */
  function Centre(l: int): real {
    if l == 0 || l == 3 then 0.625 else 0.875
  }

  function Side(l: int): real {
    if l == 0 || l == 3 then 0.375 else 0.125
  }

  /** The neighbour is on the left for the first two of four, on the right for the others. */
  function Step(l: int): int {
    if l < 2 then -1 else 1
  }

  lemma TriWeights(l: nat, d: int)
    requires l < 4 && -2 <= d <= 2
    ensures Tri(Offset(l) - d as real) == if d == 0 then Centre(l) else if d == Step(l) then Side(l) else 0.0
  {}

  lemma RoundOffset(n: nat, l: nat)
    requires l < 4
    ensures Round((4 * n + l) as real * 0.25 + 0.25 / 2.0 - 0.5) == n
    ensures (4 * n + l) as real * 0.25 + 0.25 / 2.0 - 0.5 == n as real + Offset(l)
  {
    var x := (4 * n + l) as real * 0.25 + 0.25 / 2.0 - 0.5;
    assert x == n as real + Offset(l);
    if x >= 0.0 {
      assert n as real <= x + 0.5 < n as real + 1.0;
    } else {
      assert n == 0 && 0.0 <= -x + 0.5 < 1.0;
    }
  }

  function AxisWeight(l: int, d: int): real {
    if d == 0 then Centre(l) else if d == Step(l) then Side(l) else 0.0
  }

  /** The kernel's window over output pixel (`4 y + i`, `4 x + l`) at scale one quarter. */
  function QuarterWindow(y: nat, x: nat, i: nat, l: nat): Window {
    KernelWindow(0.25, 0.25, 2, false, 4 * y + i, 4 * x + l)
  }

  lemma QuarterShape(y: nat, x: nat, i: nat, l: nat)
    requires i < 4 && l < 4
    ensures var w := QuarterWindow(y, x, i, l);
      && w.ax == 1.0 && w.ay == 1.0 && w.rx == 2 && w.ry == 2
      && Round(w.ix) == x && Round(w.iy) == y
      && w.ix == x as real + Offset(l) && w.iy == y as real + Offset(i)
  {
    RoundOffset(x, l);
    RoundOffset(y, i);
  }

  lemma UnitWeight(w: Window, y: int, x: int, v: real, u: real)
    requires w.ax == 1.0 && w.ay == 1.0 && u == w.ix - x as real && v == w.iy - y as real
    ensures w.Weight(y, x) == Tri(v) * Tri(u)
  {
    assert 1.0 * u == u && 1.0 * v == v;
    assert w.Weight(y, x) == 1.0 * Tri(u) * 1.0 * Tri(v);
  }

  lemma WeightAt(y: nat, x: nat, i: nat, l: nat, dy: int, dx: int)
    requires i < 4 && l < 4 && -2 <= dy <= 2 && -2 <= dx <= 2
    ensures QuarterWindow(y, x, i, l).Weight(y + dy, x + dx) == AxisWeight(i, dy) * AxisWeight(l, dx)
  {
    QuarterShape(y, x, i, l);
    WeightOf(QuarterWindow(y, x, i, l), y, x, i, l, dy, dx);
  }

  lemma WeightOf(w: Window, y: nat, x: nat, i: nat, l: nat, dy: int, dx: int)
    requires i < 4 && l < 4 && -2 <= dy <= 2 && -2 <= dx <= 2
    requires w.ax == 1.0 && w.ay == 1.0 && w.ix == x as real + Offset(l) && w.iy == y as real + Offset(i)
    ensures w.Weight(y + dy, x + dx) == AxisWeight(i, dy) * AxisWeight(l, dx)
  {
    UnitWeight(w, y + dy, x + dx, Offset(i) - dy as real, Offset(l) - dx as real);
    TriWeights(l, dx);
    TriWeights(i, dy);
  }

  // ---------------------------------------------------------------- the generic kernel at scale one quarter

  /** An image as a function of row and column. */
  datatype Image = Image(iw: nat, ih: nat, px: (int, int) -> real)

  function ImageOf(p: Plane): (g: Image)
    requires p.Valid()
    ensures g.iw == p.iw && g.ih == p.ih
  {
    Image(p.iw, p.ih, (y, x) => if p.Inside(y, x) then p.Pixel(y, x) else 0.0)
  }

  /** The one neighbour with weight is inside the row. */
  predicate HasSide(g: Image, x: nat, l: int) {
    0 <= x + Step(l) < g.iw
  }

  function RowBlend(g: Image, row: int, x: nat, l: int): real {
    Centre(l) * g.px(row, x) + if HasSide(g, x, l) then Side(l) * g.px(row, x + Step(l)) else 0.0
  }

  function RowWeight(g: Image, x: nat, l: int): real {
    Centre(l) + if HasSide(g, x, l) then Side(l) else 0.0
  }

  /** The horizontal share of tap `dx`, before the row's own weight. */
  function TapShare(g: Image, row: int, x: nat, l: int, dx: int): Acc {
    if 0 <= x + dx < g.iw then Acc(AxisWeight(l, dx) * g.px(row, x + dx), AxisWeight(l, dx)) else Acc(0.0, 0.0)
  }

  function Scale(k: real, a: Acc): Acc {
    Acc(k * a.sum, k * a.wsum)
  }

  /** What tap (`dy`, `dx`) around input pixel (`y`, `x`) contributes. */
  function QuarterTap(g: Image, y: nat, x: nat, i: int, l: int, dy: int, dx: int): Acc {
    if 0 <= y + dy < g.ih then Scale(AxisWeight(i, dy), TapShare(g, y + dy, x, l, dx)) else Acc(0.0, 0.0)
  }

  lemma TapIsQuarter(p: Plane, y: nat, x: nat, i: nat, l: nat, dy: int, dx: int)
    requires p.Valid() && i < 4 && l < 4 && -2 <= dy <= 2 && -2 <= dx <= 2
    ensures Taps(p, QuarterWindow(y, x, i, l))(y + dy, x + dx) == QuarterTap(ImageOf(p), y, x, i, l, dy, dx)
  {
    WeightAt(y, x, i, l, dy, dx);
    if p.Inside(y + dy, x + dx) {
      var a, b, v := AxisWeight(i, dy), AxisWeight(l, dx), p.Pixel(y + dy, x + dx);
      assert (a * b) * v == a * (b * v);
    }
  }

  /** A five-term sum whose outer terms vanish. */
  lemma FiveTerms(f: int -> Acc, c: int, s: int)
    requires s == 1 || s == -1
    requires forall k :: c - 2 <= k <= c + 2 && k != c && k != c + s ==> f(k) == Acc(0.0, 0.0)
    ensures SumAcc(f, c - 2, c + 3) == Acc(f(c).sum + f(c + s).sum, f(c).wsum + f(c + s).wsum)
  {
    assert f(c - 2) == f(c + 2) == f(c - s) == Acc(0.0, 0.0);
    assert SumAcc(f, c - 2, c - 2) == Acc(0.0, 0.0);
    assert SumAcc(f, c - 2, c - 1) == Acc(f(c - 2).sum, f(c - 2).wsum);
    assert SumAcc(f, c - 2, c) == Acc(f(c - 2).sum + f(c - 1).sum, f(c - 2).wsum + f(c - 1).wsum);
    assert SumAcc(f, c - 2, c + 1) == Acc(f(c - 1).sum + f(c).sum, f(c - 1).wsum + f(c).wsum);
    assert SumAcc(f, c - 2, c + 2)
        == Acc(f(c - 1).sum + f(c).sum + f(c + 1).sum, f(c - 1).wsum + f(c).wsum + f(c + 1).wsum);
  }

  /** What window row `dy` contributes. */
  function RowShare(g: Image, y: nat, x: nat, i: int, l: int, dy: int): Acc {
    if 0 <= y + dy < g.ih
    then Scale(AxisWeight(i, dy), Acc(RowBlend(g, y + dy, x, l), RowWeight(g, x, l)))
    else Acc(0.0, 0.0)
  }

  lemma TwoTaps(g: Image, y: nat, x: nat, i: nat, l: nat, dy: int)
    requires x < g.iw
    ensures var c, s := QuarterTap(g, y, x, i, l, dy, 0), QuarterTap(g, y, x, i, l, dy, Step(l));
      Acc(c.sum + s.sum, c.wsum + s.wsum) == RowShare(g, y, x, i, l, dy)
  {
    var k := AxisWeight(i, dy);
    var c, s := TapShare(g, y + dy, x, l, 0), TapShare(g, y + dy, x, l, Step(l));
    assert k * c.sum + k * s.sum == k * (c.sum + s.sum);
    assert k * c.wsum + k * s.wsum == k * (c.wsum + s.wsum);
  }

  lemma NoWeight(g: Image, y: nat, x: nat, i: nat, l: nat, dy: int, dx: int)
    ensures dx != 0 && dx != Step(l) ==> QuarterTap(g, y, x, i, l, dy, dx) == Acc(0.0, 0.0)
    ensures dy != 0 && dy != Step(i) ==> RowShare(g, y, x, i, l, dy) == Acc(0.0, 0.0)
  {
    if dx != 0 && dx != Step(l) {
      assert TapShare(g, y + dy, x, l, dx) == Acc(0.0, 0.0);
    }
  }

  /** A window row contributes its vertical weight times the horizontal blend. */
  lemma QuarterRow(p: Plane, y: nat, x: nat, i: nat, l: nat, dy: int)
    requires p.Valid() && i < 4 && l < 4 && -2 <= dy <= 2 && x < p.iw
    ensures SumAcc(RowTaps(Taps(p, QuarterWindow(y, x, i, l)), y + dy), x - 2, x + 3)
         == RowShare(ImageOf(p), y, x, i, l, dy)
  {
    var row := RowTaps(Taps(p, QuarterWindow(y, x, i, l)), y + dy);
    forall k | x - 2 <= k <= x + 2 && k != x && k != x + Step(l)
      ensures row(k) == Acc(0.0, 0.0)
    {
      TapIsQuarter(p, y, x, i, l, dy, k - x);
      NoWeight(ImageOf(p), y, x, i, l, dy, k - x);
    }
    FiveTerms(row, x, Step(l));
    TapIsQuarter(p, y, x, i, l, dy, 0);
    TapIsQuarter(p, y, x, i, l, dy, Step(l));
    TwoTaps(ImageOf(p), y, x, i, l, dy);
  }

  /** The window of an output pixel as a function of its row. */
  function QuarterWindowRows(p: Plane, y: nat, x: nat, i: nat, l: nat): int -> Acc
    requires p.Valid()
  {
    WindowRows(Taps(p, QuarterWindow(y, x, i, l)), x - 2, x + 3)
  }

  lemma QuarterRowAt(p: Plane, y: nat, x: nat, i: nat, l: nat, k: int)
    requires p.Valid() && i < 4 && l < 4 && y - 2 <= k <= y + 2 && x < p.iw
    ensures QuarterWindowRows(p, y, x, i, l)(k) == RowShare(ImageOf(p), y, x, i, l, k - y)
    ensures k != y && k != y + Step(i) ==> QuarterWindowRows(p, y, x, i, l)(k) == Acc(0.0, 0.0)
  {
    QuarterRow(p, y, x, i, l, k - y);
    NoWeight(ImageOf(p), y, x, i, l, k - y, 0);
  }

  /** The whole window: the centre row and the one neighbouring row with weight. */
  lemma QuarterRows(p: Plane, y: nat, x: nat, i: nat, l: nat)
    requires p.Valid() && i < 4 && l < 4 && x < p.iw
    ensures var c, s := RowShare(ImageOf(p), y, x, i, l, 0), RowShare(ImageOf(p), y, x, i, l, Step(i));
      WindowAcc(Taps(p, QuarterWindow(y, x, i, l)), x - 2, x + 3, y - 2, y + 3) == Acc(c.sum + s.sum, c.wsum + s.wsum)
  {
    var rows := QuarterWindowRows(p, y, x, i, l);
    forall k | y - 2 <= k <= y + 2 && k != y && k != y + Step(i)
      ensures rows(k) == Acc(0.0, 0.0)
    {
      QuarterRowAt(p, y, x, i, l, k);
    }
    FiveTerms(rows, y, Step(i));
    QuarterRowAt(p, y, x, i, l, y);
    QuarterRowAt(p, y, x, i, l, y + Step(i));
  }

  /** The neighbouring row is inside the image. */
  predicate HasRow(g: Image, y: nat, i: int) {
    0 <= y + Step(i) < g.ih
  }

  lemma WeightPositive(g: Image, y: nat, x: nat, i: int, l: int)
    ensures ColumnWeight(g, y, i) > 0.0 && RowWeight(g, x, l) > 0.0 && ColumnWeight(g, y, i) * RowWeight(g, x, l) > 0.0
  {}

  function ColumnWeight(g: Image, y: nat, i: int): real {
    Centre(i) + if HasRow(g, y, i) then Side(i) else 0.0
  }

  function BlendSum(g: Image, y: nat, x: nat, i: int, l: int): real {
    Centre(i) * RowBlend(g, y, x, l) + if HasRow(g, y, i) then Side(i) * RowBlend(g, y + Step(i), x, l) else 0.0
  }

  /** The bilinear mean both implementations compute, border taps left out and weights renormalised. */
  function BlendMean(g: Image, y: nat, x: nat, i: int, l: int): real {
    Quot(BlendSum(g, y, x, i, l), BlendWeight(g, y, x, i, l))
  }

  function BlendWeight(g: Image, y: nat, x: nat, i: int, l: int): real {
    ColumnWeight(g, y, i) * RowWeight(g, x, l)
  }

  /** The generic kernel computes the bilinear mean. */
  lemma KernelIsBlend(p: Plane, y: nat, x: nat, i: nat, l: nat)
    requires p.Valid() && i < 4 && l < 4 && x < p.iw && y < p.ih
    ensures KernelPixel(p, 0.25, 0.25, 2, false, 4 * y + i, 4 * x + l) == BlendMean(ImageOf(p), y, x, i, l)
  {
    QuarterShape(y, x, i, l);
    QuarterRows(p, y, x, i, l);
    SharesAreBlend(ImageOf(p), y, x, i, l);
  }

  lemma SharesAreBlend(g: Image, y: nat, x: nat, i: nat, l: nat)
    requires x < g.iw && y < g.ih
    ensures var c, s := RowShare(g, y, x, i, l, 0), RowShare(g, y, x, i, l, Step(i));
      Mean(Acc(c.sum + s.sum, c.wsum + s.wsum)) == BlendMean(g, y, x, i, l)
  {
    var rw := RowWeight(g, x, l);
    var sw := if HasRow(g, y, i) then Side(i) else 0.0;
    WeightPositive(g, y, x, i, l);
    assert (Centre(i) + sw) * rw == Centre(i) * rw + sw * rw;
  }

  // ---------------------------------------------------------------- the table-driven quad

  /** Axis weights of the two table rows of block row `i`, after the border rows are masked. */
  function UpperWeight(kind: RowKind, i: int): real {
    if i < 2 then (if kind == First then 0.0 else Side(i)) else Centre(i)
  }

  function LowerWeight(kind: RowKind, i: int): real {
    if i < 2 then Centre(i) else (if kind == Last then 0.0 else Side(i))
  }

  function SideWeight(left: bool, right: bool, l: int): real {
    if (left && l < 2) || (right && l >= 2) then 0.0 else Side(l)
  }

  /** The masked weights of one lane. */
  datatype LaneWeights = LaneWeights(a0: real, a1: real, s: real, c: real) {
    function Den(): real {
      (a0 + a1) * (c + s)
    }

    /** The lane's coefficients are these products. */
    predicate Of(k: (V4, V4, V4, V4), l: nat) {
      Lane(k.0, l) == a0 * s && Lane(k.1, l) == a0 * c && Lane(k.2, l) == a1 * s && Lane(k.3, l) == a1 * c
    }

    function Num(v: (V4, V4, V4, V4), l: nat): real {
      TwoRows(a0, a1, s, c, Lane(v.0, l), Lane(v.1, l), Lane(v.2, l), Lane(v.3, l))
    }
  }

  function WeightsOf(kind: RowKind, left: bool, right: bool, i: nat, l: nat): LaneWeights {
    LaneWeights(UpperWeight(kind, i), LowerWeight(kind, i), SideWeight(left, right, l), Centre(l))
  }

  /** The shuffled table entries are products of axis weights, with the border taps zeroed. */
  lemma CoefficientLanes(kind: RowKind, left: bool, right: bool, i: nat, l: nat)
    requires i < 4 && l < 4 && !(left && right)
    ensures WeightsOf(kind, left, right, i, l).Of(Coefficients(kind, left, right, i), l)
  {
    if i < 2 {
      UpperLanes(kind, left, right, i, l);
    } else {
      LowerLanes(kind, left, right, i, l);
    }
  }

  lemma UpperLanes(kind: RowKind, left: bool, right: bool, i: nat, l: nat)
    requires i < 2 && l < 4 && !(left && right)
    ensures WeightsOf(kind, left, right, i, l).Of(Coefficients(kind, left, right, i), l)
  {
    if i == 0 {
    } else {
    }
  }

  lemma LowerLanes(kind: RowKind, left: bool, right: bool, i: nat, l: nat)
    requires 2 <= i < 4 && l < 4 && !(left && right)
    ensures WeightsOf(kind, left, right, i, l).Of(Coefficients(kind, left, right, i), l)
  {
    if i == 2 {
    } else {
    }
  }

  /** The upper of the two input rows block row `i` blends. */
  function UpperRow(y: nat, i: nat): int {
    if i < 2 then y - 1 else y
  }

  /** Which taps reach lane `l`. */
  lemma SourceLanes(ld: (int, int) -> real, kind: RowKind, y: nat, x: nat, i: nat, l: nat)
    requires i < 4 && l < 4
    ensures var v := Sources(ld, kind, y, x, i);
      var upper, lower := UpperRow(y, i), UpperRow(y, i) + 1;
      && (!(kind == First && i < 2) ==> Lane(v.0, l) == ld(upper, x + Step(l)) && Lane(v.1, l) == ld(upper, x))
      && (!(kind == Last && i >= 2) ==> Lane(v.2, l) == ld(lower, x + Step(l)) && Lane(v.3, l) == ld(lower, x))
  {}

  lemma LoadIsPixel(p: Plane, junk: int -> real, y: int, x: int)
    requires p.Valid() && p.Inside(y, x)
    ensures Load(p, junk, y, x) == ImageOf(p).px(y, x)
  {
    p.InRange(y, x);
  }

  /** Two masked row blends, each a centre tap and a side tap. */
  function TwoRows(a0: real, a1: real, s: real, c: real, v0: real, v1: real, v2: real, v3: real): real {
    Mix(a0, a1, OneRow(s, c, v0, v1), OneRow(s, c, v2, v3))
  }

  function OneRow(s: real, c: real, side: real, centre: real): real {
    c * centre + s * side
  }

  function Mix(a0: real, a1: real, b0: real, b1: real): real {
    a0 * b0 + a1 * b1
  }

  lemma FourProducts(a0: real, a1: real, s: real, c: real, v0: real, v1: real, v2: real, v3: real)
    ensures v0 * (a0 * s) + v1 * (a0 * c) + (v2 * (a1 * s) + v3 * (a1 * c)) == TwoRows(a0, a1, s, c, v0, v1, v2, v3)
    ensures a0 * s + a0 * c + (a1 * s + a1 * c) == (a0 + a1) * (c + s)
  {
    assert v0 * (a0 * s) == a0 * (s * v0);
    assert v1 * (a0 * c) == a0 * (c * v1);
    assert v2 * (a1 * s) == a1 * (s * v2);
    assert v3 * (a1 * c) == a1 * (c * v3);
    assert a0 * OneRow(s, c, v0, v1) == a0 * (c * v1) + a0 * (s * v0);
    assert a1 * OneRow(s, c, v2, v3) == a1 * (c * v3) + a1 * (s * v2);
  }

  lemma LaneMul(x: V4, y: V4, l: nat)
    ensures Lane(Mul(x, y), l) == Lane(x, l) * Lane(y, l)
  {}

  lemma LaneAdd(x: V4, y: V4, l: nat)
    ensures Lane(Add(x, y), l) == Lane(x, l) + Lane(y, l)
  {}

  lemma LaneDiv(x: V4, y: V4, l: nat)
    ensures Lane(Div(x, y), l) == Quot(Lane(x, l), Lane(y, l))
  {}

  lemma LaneOfBlend(v: (V4, V4, V4, V4), c: (V4, V4, V4, V4), l: nat, p0: real, p1: real, p2: real, p3: real)
    requires Lane(v.0, l) * Lane(c.0, l) == p0 && Lane(v.1, l) * Lane(c.1, l) == p1
    requires Lane(v.2, l) * Lane(c.2, l) == p2 && Lane(v.3, l) * Lane(c.3, l) == p3
    ensures Lane(Blend(v, c), l) == p0 + p1 + (p2 + p3)
  {
    LaneMul(v.0, c.0, l);
    LaneMul(v.1, c.1, l);
    LaneMul(v.2, c.2, l);
    LaneMul(v.3, c.3, l);
    LaneAdd(Mul(v.0, c.0), Mul(v.1, c.1), l);
    LaneAdd(Mul(v.2, c.2), Mul(v.3, c.3), l);
    LaneAdd(Add(Mul(v.0, c.0), Mul(v.1, c.1)), Add(Mul(v.2, c.2), Mul(v.3, c.3)), l);
  }

  lemma LaneOfWeights(c: (V4, V4, V4, V4), l: nat)
    ensures Lane(Weights(c), l) == Lane(c.0, l) + Lane(c.1, l) + (Lane(c.2, l) + Lane(c.3, l))
  {
    LaneAdd(c.0, c.1, l);
    LaneAdd(c.2, c.3, l);
    LaneAdd(Add(c.0, c.1), Add(c.2, c.3), l);
  }

  lemma NumeratorLane(v: (V4, V4, V4, V4), k: (V4, V4, V4, V4), l: nat, a0: real, a1: real, s: real, c: real)
    requires Lane(k.0, l) == a0 * s && Lane(k.1, l) == a0 * c && Lane(k.2, l) == a1 * s && Lane(k.3, l) == a1 * c
    ensures Lane(Blend(v, k), l) == TwoRows(a0, a1, s, c, Lane(v.0, l), Lane(v.1, l), Lane(v.2, l), Lane(v.3, l))
  {
    FourProducts(a0, a1, s, c, Lane(v.0, l), Lane(v.1, l), Lane(v.2, l), Lane(v.3, l));
    LaneOfBlend(v, k, l, Lane(v.0, l) * (a0 * s), Lane(v.1, l) * (a0 * c), Lane(v.2, l) * (a1 * s),
      Lane(v.3, l) * (a1 * c));
  }

  lemma FinishLane(res: V4, wei: V4, divide: bool, l: nat, num: real, den: real)
    requires Lane(res, l) == num && Lane(wei, l) == den && den > 0.0 && (!divide ==> den == 1.0)
    ensures Lane(Finish(res, wei, divide), l) == Quot(num, den)
  {
    LaneDiv(res, wei, l);
  }

  lemma DenominatorLane(k: (V4, V4, V4, V4), l: nat, a0: real, a1: real, s: real, c: real)
    requires Lane(k.0, l) == a0 * s && Lane(k.1, l) == a0 * c && Lane(k.2, l) == a1 * s && Lane(k.3, l) == a1 * c
    ensures Lane(Weights(k), l) == (a0 + a1) * (c + s)
  {
    LaneOfWeights(k, l);
    FourProducts(a0, a1, s, c, 0.0, 0.0, 0.0, 0.0);
  }

  /** One lane, given which products its coefficients are. */
  lemma LaneValue(v: (V4, V4, V4, V4), k: (V4, V4, V4, V4), divide: bool, l: nat, a0: real, a1: real, s: real, c: real)
    requires Lane(k.0, l) == a0 * s && Lane(k.1, l) == a0 * c && Lane(k.2, l) == a1 * s && Lane(k.3, l) == a1 * c
    requires (a0 + a1) * (c + s) > 0.0 && (!divide ==> (a0 + a1) * (c + s) == 1.0)
    ensures Lane(Finish(Blend(v, k), Weights(k), divide), l)
         == TwoRows(a0, a1, s, c, Lane(v.0, l), Lane(v.1, l), Lane(v.2, l), Lane(v.3, l)) / ((a0 + a1) * (c + s))
  {
    NumeratorLane(v, k, l, a0, a1, s, c);
    DenominatorLane(k, l, a0, a1, s, c);
    FinishLane(Blend(v, k), Weights(k), divide, l,
               TwoRows(a0, a1, s, c, Lane(v.0, l), Lane(v.1, l), Lane(v.2, l), Lane(v.3, l)), (a0 + a1) * (c + s));
  }

  lemma DenominatorPositive(kind: RowKind, left: bool, right: bool, i: nat, l: nat)
    requires i < 4 && l < 4
    ensures WeightsOf(kind, left, right, i, l).Den() > 0.0
    ensures kind == Middle && !left && !right ==> WeightsOf(kind, left, right, i, l).Den() == 1.0
  {
    if kind == Middle && !left && !right {
      assert UpperWeight(kind, i) + LowerWeight(kind, i) == 1.0 && Centre(l) + SideWeight(left, right, l) == 1.0;
    }
  }

  /** The row kind and column flags the loops use at input pixel (`y`, `x`). */
  ghost predicate Flags(g: Image, kind: RowKind, y: nat, x: nat, left: bool, right: bool) {
    && (kind == First <==> y == 0) && (kind == Last <==> y == g.ih - 1)
    && (left <==> x == 0) && (right <==> x == g.iw - 1)
  }

  /** Reading memory gives the image wherever the image is. */
  ghost predicate Shows(ld: (int, int) -> real, g: Image) {
    forall y, x :: 0 <= y < g.ih && 0 <= x < g.iw ==> ld(y, x) == g.px(y, x)
  }

  /** Masked taps are exactly the taps outside the image. */
  lemma MaskedRow(g: Image, ld: (int, int) -> real, x: nat, row: int, left: bool, right: bool, l: nat)
    requires g.iw >= 2 && x < g.iw && 0 <= row < g.ih && l < 4 && Shows(ld, g)
    requires (left <==> x == 0) && (right <==> x == g.iw - 1)
    ensures OneRow(SideWeight(left, right, l), Centre(l), ld(row, x + Step(l)), ld(row, x)) == RowBlend(g, row, x, l)
    ensures Centre(l) + SideWeight(left, right, l) == RowWeight(g, x, l)
  {
    if !HasSide(g, x, l) {
      assert SideWeight(left, right, l) == 0.0;
    }
  }

  lemma WeightsMatch(g: Image, kind: RowKind, y: nat, i: nat)
    requires i < 4 && g.ih >= 2 && y < g.ih
    requires (kind == First <==> y == 0) && (kind == Last <==> y == g.ih - 1)
    ensures UpperWeight(kind, i) + LowerWeight(kind, i) == ColumnWeight(g, y, i)
    ensures i < 2 ==> UpperWeight(kind, i) == if HasRow(g, y, i) then Side(i) else 0.0
    ensures i >= 2 ==> LowerWeight(kind, i) == if HasRow(g, y, i) then Side(i) else 0.0
  {}

  /** The two row blends of a lane, with every masked tap gone, are the numerator of the bilinear mean. */
  lemma NumeratorIsBlend(g: Image, ld: (int, int) -> real, kind: RowKind, y: nat, x: nat, left: bool, right: bool,
                         i: nat, l: nat, v0: real, v1: real, v2: real, v3: real)
    requires g.iw >= 2 && g.ih >= 2 && y < g.ih && x < g.iw && i < 4 && l < 4
    requires Flags(g, kind, y, x, left, right) && Shows(ld, g)
    requires !(kind == First && i < 2) ==> v0 == ld(UpperRow(y, i), x + Step(l)) && v1 == ld(UpperRow(y, i), x)
    requires !(kind == Last && i >= 2) ==> v2 == ld(UpperRow(y, i) + 1, x + Step(l)) && v3 == ld(UpperRow(y, i) + 1, x)
    ensures TwoRows(UpperWeight(kind, i), LowerWeight(kind, i), SideWeight(left, right, l), Centre(l), v0, v1, v2, v3)
         == BlendSum(g, y, x, i, l)
  {
    MaskedRow(g, ld, x, y, left, right, l);
    WeightsMatch(g, kind, y, i);
    if HasRow(g, y, i) {
      MaskedRow(g, ld, x, y + Step(i), left, right, l);
    }
    var s, c := SideWeight(left, right, l), Centre(l);
    MixIsSum(g, kind, y, x, i, l, OneRow(s, c, v0, v1), OneRow(s, c, v2, v3));
  }

  lemma MixIsSum(g: Image, kind: RowKind, y: nat, x: nat, i: nat, l: nat, b0: real, b1: real)
    requires i < 4
    requires i < 2 ==> UpperWeight(kind, i) == if HasRow(g, y, i) then Side(i) else 0.0
    requires i >= 2 ==> LowerWeight(kind, i) == if HasRow(g, y, i) then Side(i) else 0.0
    requires HasRow(g, y, i) ==> (if i < 2 then b0 else b1) == RowBlend(g, y + Step(i), x, l)
    requires (if i < 2 then b1 else b0) == RowBlend(g, y, x, l)
    ensures Mix(UpperWeight(kind, i), LowerWeight(kind, i), b0, b1) == BlendSum(g, y, x, i, l)
  {}

  lemma DenominatorIsBlend(g: Image, ld: (int, int) -> real, kind: RowKind, y: nat, x: nat, left: bool, right: bool,
                           i: nat, l: nat)
    requires g.iw >= 2 && g.ih >= 2 && y < g.ih && x < g.iw && i < 4 && l < 4
    requires Flags(g, kind, y, x, left, right) && Shows(ld, g)
    ensures WeightsOf(kind, left, right, i, l).Den() == BlendWeight(g, y, x, i, l)
  {
    WeightsMatch(g, kind, y, i);
    MaskedRow(g, ld, x, y, left, right, l);
  }

  lemma LaneQuotient(v: (V4, V4, V4, V4), k: (V4, V4, V4, V4), divide: bool, l: nat, w: LaneWeights)
    requires w.Of(k, l) && w.Den() > 0.0 && (!divide ==> w.Den() == 1.0)
    ensures Lane(Finish(Blend(v, k), Weights(k), divide), l) == Quot(w.Num(v, l), w.Den())
  {
    LaneValue(v, k, divide, l, w.a0, w.a1, w.s, w.c);
  }

  /** One lane of the stored vector. */
  lemma QuadQuotient(ld: (int, int) -> real, kind: RowKind, y: nat, x: nat, left: bool, right: bool, i: nat, l: nat)
    requires i < 4 && l < 4 && !(left && right)
    ensures var w := WeightsOf(kind, left, right, i, l);
      Lane(Quad(ld, kind, y, x, left, right, i), l) == Quot(w.Num(Sources(ld, kind, y, x, i), l), w.Den())
  {
    var v, k := Sources(ld, kind, y, x, i), Coefficients(kind, left, right, i);
    CoefficientLanes(kind, left, right, i, l);
    DenominatorPositive(kind, left, right, i, l);
    LaneQuotient(v, k, kind != Middle || left || right, l, WeightsOf(kind, left, right, i, l));
  }

  lemma NumIsBlend(g: Image, ld: (int, int) -> real, kind: RowKind, y: nat, x: nat, left: bool, right: bool, i: nat,
                   l: nat)
    requires g.iw >= 2 && g.ih >= 2 && y < g.ih && x < g.iw && i < 4 && l < 4
    requires Flags(g, kind, y, x, left, right) && Shows(ld, g)
    ensures WeightsOf(kind, left, right, i, l).Num(Sources(ld, kind, y, x, i), l) == BlendSum(g, y, x, i, l)
  {
    var v := Sources(ld, kind, y, x, i);
    SourceLanes(ld, kind, y, x, i, l);
    NumeratorIsBlend(g, ld, kind, y, x, left, right, i, l, Lane(v.0, l), Lane(v.1, l), Lane(v.2, l), Lane(v.3, l));
  }

  /** The table-driven quad computes the bilinear mean. */
  lemma QuadIsBlend(g: Image, ld: (int, int) -> real, kind: RowKind, y: nat, x: nat, left: bool, right: bool, i: nat,
                    l: nat)
    requires g.iw >= 2 && g.ih >= 2 && y < g.ih && x < g.iw && i < 4 && l < 4
    requires Flags(g, kind, y, x, left, right) && Shows(ld, g)
    ensures Lane(Quad(ld, kind, y, x, left, right, i), l) == BlendMean(g, y, x, i, l)
  {
    QuadQuotient(ld, kind, y, x, left, right, i, l);
    NumIsBlend(g, ld, kind, y, x, left, right, i, l);
    DenominatorIsBlend(g, ld, kind, y, x, left, right, i, l);
  }

  /** Every stored lane is the pixel the generic kernel computes. */
  lemma QuadIsKernel(p: Plane, junk: int -> real, kind: RowKind, y: nat, x: nat, left: bool, right: bool, i: nat,
                     l: nat, lane: real, pixel: real)
    requires p.Valid() && p.iw >= 2 && p.ih >= 2 && y < p.ih && x < p.iw && i < 4 && l < 4
    requires Flags(ImageOf(p), kind, y, x, left, right)
    requires lane == Lane(Quad(Around(p, junk), kind, y, x, left, right, i), l)
    requires pixel == KernelPixel(p, 0.25, 0.25, 2, false, 4 * y + i, 4 * x + l)
    ensures lane == pixel
  {
    var g, ld := ImageOf(p), Around(p, junk);
    forall r, c | 0 <= r < g.ih && 0 <= c < g.iw
      ensures ld(r, c) == g.px(r, c)
    {
      LoadIsPixel(p, junk, r, c);
    }
    QuadIsBlend(g, ld, kind, y, x, left, right, i, l);
    KernelIsBlend(p, y, x, i, l);
  }

  // ---------------------------------------------------------------- when the fast path may be used

  function KindOf(y: nat, ih: nat): RowKind {
    if y == 0 then First else if y == ih - 1 then Last else Middle
  }

  /** Output pixel (`4 y + i`, `4 x + l`) of the fast path over memory `ld`, for any image shape. */
  function FastPixel(ld: (int, int) -> real, iw: nat, ih: nat, y: nat, x: nat, i: nat, l: nat): real
    requires i < 4 && l < 4
  {
    Lane(Quad(ld, KindOf(y, ih), y, x, x == 0, x == iw - 1, i), l)
  }

  /** `ld` is what reading around plane `p` yields, for some memory contents outside the buffer. */
  ghost predicate Reads(ld: (int, int) -> real, p: Plane) {
    exists junk: int -> real :: ld == Around(p, junk)
  }

  /** The fast path and the kernel give output pixel (`4 y + i`, `4 x + l`) the same value. */
  ghost predicate Same(p: Plane, ld: (int, int) -> real, y: nat, x: nat, i: nat, l: nat)
    requires p.Valid() && i < 4 && l < 4
  {
    FastPixel(ld, p.iw, p.ih, y, x, i, l) == KernelPixel(p, 0.25, 0.25, 2, false, 4 * y + i, 4 * x + l)
  }

  /** They agree on every image of this shape, whatever lies around it in memory. */
  ghost predicate Agrees(iw: nat, ih: nat) {
    forall p: Plane, ld: (int, int) -> real, y: nat, x: nat, i: nat, l: nat ::
      p.Valid() && p.iw == iw && p.ih == ih && Reads(ld, p) && y < ih && x < iw && i < 4 && l < 4 ==>
      Same(p, ld, y, x, i, l)
  }

  /** In a column that is both first and last only the left border adjustment is made. */
  lemma LeftWins(ld: (int, int) -> real, kind: RowKind, y: nat, x: nat, right: bool, i: nat)
    requires i < 4
    ensures Quad(ld, kind, y, x, true, right, i) == Quad(ld, kind, y, x, true, false, i)
  {
    assert Coefficients(kind, true, right, i) == Coefficients(kind, true, false, i);
  }

  /** The weights a lane of the fast path applies at input pixel (`y`, `x`). */
  function FastWeights(iw: nat, ih: nat, y: nat, x: nat, i: nat, l: nat): LaneWeights {
    WeightsOf(KindOf(y, ih), x == 0, x == iw - 1 && x != 0, i, l)
  }

  function FastNum(ld: (int, int) -> real, iw: nat, ih: nat, y: nat, x: nat, i: nat, l: nat): real {
    FastWeights(iw, ih, y, x, i, l).Num(Sources(ld, KindOf(y, ih), y, x, i), l)
  }

  /** Any difference between the two means refutes agreement. */
  lemma Refute(p: Plane, ld: (int, int) -> real, y: nat, x: nat, i: nat, l: nat, num: real, den: real, mean: real)
    requires p.Valid() && Reads(ld, p) && y < p.ih && x < p.iw && i < 4 && l < 4
    requires num == FastNum(ld, p.iw, p.ih, y, x, i, l) && den == FastWeights(p.iw, p.ih, y, x, i, l).Den()
    requires mean == BlendMean(ImageOf(p), y, x, i, l) && Quot(num, den) != mean
    ensures !Agrees(p.iw, p.ih)
  {
    if x == 0 {
      LeftWins(ld, KindOf(y, p.ih), y, x, x == p.iw - 1, i);
    }
    QuadQuotient(ld, KindOf(y, p.ih), y, x, x == 0, x == p.iw - 1 && x != 0, i, l);
    KernelIsBlend(p, y, x, i, l);
    assert !Same(p, ld, y, x, i, l);
  }

  /** In a one-column image the right lanes blend in what lies to the right, the pixel of the next row. */
  lemma NarrowNum(ld: (int, int) -> real, ih: nat)
    requires ih >= 2
    ensures FastNum(ld, 1, ih, 0, 0, 0, 2) == 0.625 * (0.875 * ld(0, 0) + 0.125 * ld(0, 1))
    ensures FastWeights(1, ih, 0, 0, 0, 2).Den() == 0.625
  {}

  lemma NarrowMean(g: Image)
    requires g.iw == 1 && g.ih >= 2
    ensures BlendMean(g, 0, 0, 0, 2) == g.px(0, 0)
  {
    assert BlendSum(g, 0, 0, 0, 2) == 0.625 * (0.875 * g.px(0, 0));
    assert BlendWeight(g, 0, 0, 0, 2) == 0.625 * 0.875;
  }

  lemma WideAgrees(iw: nat, ih: nat)
    requires iw >= 2 && ih >= 2
    ensures Agrees(iw, ih)
  {
    forall p: Plane, ld: (int, int) -> real, y: nat, x: nat, i: nat, l: nat |
      p.Valid() && p.iw == iw && p.ih == ih && Reads(ld, p) && y < ih && x < iw && i < 4 && l < 4
      ensures Same(p, ld, y, x, i, l)
    {
      var junk: int -> real :| ld == Around(p, junk);
      QuadIsKernel(p, junk, KindOf(y, ih), y, x, x == 0, x == iw - 1, i, l, FastPixel(ld, iw, ih, y, x, i, l),
                   KernelPixel(p, 0.25, 0.25, 2, false, 4 * y + i, 4 * x + l));
    }
  }

  /** A column of pixels 0, 1, 2, … goes wrong in its first output row. */
  lemma NarrowDisagrees(ih: nat)
    requires ih >= 2
    ensures !Agrees(1, ih)
  {
    var p := Plane(seq(ih, k => k as real), 0, 1, ih);
    var junk: int -> real := k => 0.0;
    var ld := Around(p, junk);
    assert ld(0, 1) == 1.0 && ld(0, 0) == 0.0 && Reads(ld, p);
    NarrowNum(ld, ih);
    NarrowMean(ImageOf(p));
    assert ImageOf(p).px(0, 0) == 0.0;
    Refute(p, ld, 0, 0, 0, 2, 0.078125, 0.625, 0.0);
  }

  // ---------------------------------------------------------------- the blocks the row loops visit

  /** One more than the largest value of the loop counters. */
  const SIZE_RANGE := 0x1_0000_0000_0000_0000

  /** `a - b` in the 64-bit unsigned arithmetic of the loop bounds. */
  function SizeSub(a: nat, b: nat): nat {
    (a - b) % SIZE_RANGE
  }

  /** Where round `k` of the middle loop starts its block. */
  function MiddleStart(k: nat): nat {
    (4 + 4 * k) % SIZE_RANGE
  }

  /** The middle loop gets as far as round `k`. */
  ghost predicate Visits(oh: nat, k: nat) {
    forall i: nat :: i <= k ==> MiddleStart(i) <= SizeSub(oh, 8)
  }

  /** The three row loops start a block of four output rows at `oy`. */
  ghost predicate BlockStart(oh: nat, oy: nat) {
    oy == 0 || oy == SizeSub(oh, 4) || exists k: nat :: Visits(oh, k) && oy == MiddleStart(k)
  }

  /** All of them write rows of the output only. */
  ghost predicate BlocksInside(oh: nat) {
    forall oy: nat :: BlockStart(oh, oy) ==> oy + 4 <= oh
  }

  /** The row loops stay inside exactly when there are two input rows: with one, the bound of the middle loop wraps
      around. */
  lemma BlocksCondition(ih: nat)
    requires 1 <= ih && 4 * ih < SIZE_RANGE
    ensures BlocksInside(4 * ih) <==> ih >= 2
  {
    var oh := 4 * ih;
    if ih >= 2 {
      assert SizeSub(oh, 4) == oh - 4 && SizeSub(oh, 8) == oh - 8;
      forall oy: nat | BlockStart(oh, oy)
        ensures oy + 4 <= oh
      {
        if oy != 0 && oy != SizeSub(oh, 4) {
          var k: nat :| Visits(oh, k) && oy == MiddleStart(k);
          assert MiddleStart(k) <= SizeSub(oh, 8);
        }
      }
    } else {
      assert SizeSub(4, 8) == SIZE_RANGE - 4;
      assert Visits(oh, 0) && MiddleStart(0) == 4;
      assert BlockStart(oh, 4);
    }
  }

  /** The fast path is right on every image of a shape, and writes nothing else, exactly when there are two rows and
      two columns. */
  lemma FastPathCondition(iw: nat, ih: nat)
    requires iw >= 1 && ih >= 1 && 4 * ih < SIZE_RANGE
    ensures BlocksInside(4 * ih) && Agrees(iw, ih) <==> iw >= 2 && ih >= 2
  {
    BlocksCondition(ih);
    if ih >= 2 {
      ColumnCondition(iw, ih);
    }
  }

  /** With two rows, two columns decide. */
  lemma ColumnCondition(iw: nat, ih: nat)
    requires iw >= 1 && ih >= 2
    ensures Agrees(iw, ih) <==> iw >= 2
  {
    if iw >= 2 {
      WideAgrees(iw, ih);
    } else {
      NarrowDisagrees(ih);
    }
  }
}
