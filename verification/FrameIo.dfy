/** Raw NV12 frames between planar byte streams and strided surfaces. */
module FrameIo {
  import opened Arithmetic

  type byte = x: int | 0 <= x < 256

  datatype Status = MFX_ERR_NONE | MFX_ERR_MORE_DATA | MFX_ERR_UNSUPPORTED

  /** The largest chroma width the loader's line buffer takes. */
  const MAX_CHROMA := 2048

  /** `h` rows of `w` bytes, `pitch` apart, end inside a buffer of this size: the last one need not be padded. */
  predicate Spans(base: int, pitch: nat, w: nat, h: nat, size: nat) {
    w > 0 && h > 0 ==> base + (h - 1) * pitch + w <= size
  }

  lemma RowFits(base: int, pitch: nat, w: nat, h: nat, i: nat, size: nat)
    requires i < h && Spans(base, pitch, w, h, size)
    ensures 0 <= i * pitch && 0 <= i * w && (w > 0 ==> base + i * pitch + w <= size)
  {
    MulMonotone(i, h - 1, pitch);
    MulMonotone(0, i, pitch);
    MulMonotone(0, i, w);
  }

  /** The window of a surface that holds the picture. */
  datatype Crop = Crop(x: nat, y: nat, w: nat, h: nat, pitch: nat) {
    function YBase(): int {
      x + y * pitch
    }

    /** Where the loader puts the chroma rows, and where the writers look for them. */
    function LoadBase(): int {
      x + (y / 2) * pitch
    }

    function WriteBase(): int {
      y * pitch / 2 + x
    }

    /** Where the writers find byte `j` of row `i`. */
    function SectionAt(factor: nat, i: nat, j: nat): int
      requires factor > 0
    {
      y * pitch / factor + x + i * pitch + j
    }

    predicate Positive() {
      w > 0 && h > 0
    }

    /** Rows do not overlap, and every byte the loader touches lies inside buffers of these sizes. */
    predicate LoadFits(ySize: nat, uvSize: nat) {
      && pitch >= x + w
      && Spans(YBase(), pitch, w, h, ySize)
      && Spans(LoadBase(), pitch, 2 * (w / 2), h / 2, uvSize)
    }

    /** Every byte the writers touch lies inside buffers of these sizes. */
    predicate WriteFits(ySize: nat, uvSize: nat) {
      Spans(YBase(), pitch, w, h, ySize) && Spans(WriteBase(), pitch, w, h / 2, uvSize)
    }

    /** Bytes of a planar frame. */
    function LumaSize(): int {
      h * w
    }

    function ChromaSize(): int {
      (h / 2) * (w / 2)
    }

    function FrameSize(): int {
      LumaSize() + 2 * ChromaSize()
    }
  }

  // ---------------------------------------------------------------- planes

  /** Position (`i`, `j`) of a plane with rows `pitch` apart and columns `step` apart. */
  function Cell(base: int, pitch: nat, step: nat, i: int, j: int): int {
    base + i * pitch + j * step
  }

  ghost predicate InPlane(base: int, pitch: nat, step: nat, w: nat, h: nat, k: int) {
    exists i, j :: 0 <= i < h && 0 <= j < w && Cell(base, pitch, step, i, j) == k
  }

  /** The value a plane has at (`i`, `j`), if it is inside the buffer. */
  ghost predicate Has(a: seq<byte>, k: int, value: byte) {
    0 <= k < |a| && a[k] == value
  }

  function Byte(src: seq<byte>, k: int): byte {
    if 0 <= k < |src| then src[k] else 0
  }

  /** The first `n` rows of a plane hold the stream from `pos` on, row by row. */
  ghost predicate PlaneHolds(a: seq<byte>, base: int, pitch: nat, step: nat, w: nat, n: nat, src: seq<byte>, pos: nat) {
    forall i, j :: 0 <= i < n && 0 <= j < w ==> Has(a, Cell(base, pitch, step, i, j), Byte(src, pos + i * w + j))
  }

  /** Nothing outside the plane changed. */
  ghost predicate OnlyPlane(a: seq<byte>, b: seq<byte>, base: int, pitch: nat, step: nat, w: nat, h: nat) {
    |a| == |b| && forall k :: 0 <= k < |a| && !InPlane(base, pitch, step, w, h, k) ==> b[k] == a[k]
  }

  lemma CellUnique(base: int, pitch: nat, i: int, c: int, i': int, c': int)
    requires 0 <= c < pitch && 0 <= c' < pitch && base + i * pitch + c == base + i' * pitch + c'
    ensures i == i' && c == c'
  {
    DivModUnique(i, c, pitch);
    DivModUnique(i', c', pitch);
  }

  // ---------------------------------------------------------------- loading

  /** A byte stream with a read position. */
  class Stream {
    const data: seq<byte>
    var pos: nat

    constructor (data: seq<byte>)
      ensures this.data == data && pos == 0
    {
      this.data := data;
      pos := 0;
    }

    function Left(): int
      reads this
    {
      |data| - pos
    }

    /** `fread`: as many of `n` bytes as there are. */
    method Read(a: array<byte>, at: nat, n: nat) returns (got: nat)
      requires pos <= |data| && (n > 0 ==> at + n <= a.Length)
      modifies this`pos, a
      ensures got == (if n <= old(Left()) then n else old(Left())) && pos == old(pos) + got
      ensures forall k :: at <= k < at + got ==> a[k] == data[old(pos) + (k - at)]
      ensures forall k :: 0 <= k < a.Length && !(at <= k < at + got) ==> a[k] == old(a[k])
    {
      got := if n <= |data| - pos then n else |data| - pos;
      for k := 0 to got
        invariant pos == old(pos)
        invariant forall d :: at <= d < at + k ==> a[d] == data[old(pos) + (d - at)]
        invariant forall d :: 0 <= d < a.Length && !(at <= d < at + k) ==> a[d] == old(a[d])
      {
        a[at + k] := data[pos + k];
      }
      pos := pos + got;
    }
  }

  /** One row more. */
  lemma RowHeld(a: seq<byte>, b: seq<byte>, base: int, pitch: nat, step: nat, w: nat, h: nat, i: nat, src: seq<byte>,
                pos: nat)
    requires 0 < step && w * step <= pitch && i < h && base >= 0 && |a| == |b|
    requires PlaneHolds(a, base, pitch, step, w, i, src, pos)
    requires forall j :: 0 <= j < w ==> Has(b, Cell(base, pitch, step, i, j), Byte(src, pos + i * w + j))
    requires forall k :: 0 <= k < base + i * pitch && k < |a| ==> b[k] == a[k]
    ensures PlaneHolds(b, base, pitch, step, w, i + 1, src, pos)
  {
    forall i', j | 0 <= i' < i && 0 <= j < w
      ensures Has(b, Cell(base, pitch, step, i', j), Byte(src, pos + i' * w + j))
    {
      MulStrict(i', i, pitch);
      MulStrict(j, w, step);
      assert Has(a, Cell(base, pitch, step, i', j), Byte(src, pos + i' * w + j));
    }
  }

  /** What a row of a plane changes. */
  ghost predicate RowWritten(a: seq<byte>, b: seq<byte>, start: int, step: nat, w: nat, src: seq<byte>, pos: int) {
    && |a| == |b|
    && (forall j :: 0 <= j < w ==> Has(b, start + j * step, Byte(src, pos + j)))
    && forall k :: 0 <= k < |a| && !InRow(start, step, w, k) ==> b[k] == a[k]
  }

  ghost predicate InRow(start: int, step: nat, w: nat, k: int) {
    exists j :: 0 <= j < w && start + j * step == k
  }

  lemma RowAdded(a0: seq<byte>, a: seq<byte>, b: seq<byte>, base: int, pitch: nat, step: nat, w: nat, h: nat, i: nat,
                 src: seq<byte>, pos: nat, start: int, at: int)
    requires 0 < step && w * step <= pitch && i < h && base >= 0 && start == base + i * pitch && at == pos + i * w
    requires PlaneHolds(a, base, pitch, step, w, i, src, pos) && OnlyPlane(a0, a, base, pitch, step, w, h)
    requires RowWritten(a, b, start, step, w, src, at)
    ensures PlaneHolds(b, base, pitch, step, w, i + 1, src, pos) && OnlyPlane(a0, b, base, pitch, step, w, h)
  {
    forall j | 0 <= j < w
      ensures Has(b, Cell(base, pitch, step, i, j), Byte(src, pos + i * w + j))
    {
      assert Has(b, start + j * step, Byte(src, at + j));
    }
    forall k | 0 <= k < start && k < |a|
      ensures b[k] == a[k]
    {
      if InRow(start, step, w, k) {
        var j :| 0 <= j < w && start + j * step == k;
        MulMonotone(0, j, step);
        assert false;
      }
    }
    RowHeld(a, b, base, pitch, step, w, h, i, src, pos);
    forall k | 0 <= k < |a| && !InPlane(base, pitch, step, w, h, k)
      ensures b[k] == a0[k]
    {
      if InRow(start, step, w, k) {
        var j :| 0 <= j < w && start + j * step == k;
        CellStart(base, pitch, step, i, j, start);
        assert false;
      }
    }
  }

  lemma CellStart(base: int, pitch: nat, step: nat, i: int, j: int, start: int)
    requires start == base + i * pitch
    ensures Cell(base, pitch, step, i, j) == start + j * step
  {}

  /** Reads the luminance rows straight into the surface. */
  method LoadLuma(a: array<byte>, base: nat, pitch: nat, w: nat, h: nat, src: Stream) returns (sts: Status)
    requires src.pos <= |src.data| && w <= pitch && Spans(base, pitch, w, h, a.Length)
    modifies a, src`pos
    ensures sts == MFX_ERR_NONE <==> h * w <= old(src.Left())
    ensures sts == MFX_ERR_NONE || sts == MFX_ERR_MORE_DATA
    ensures src.pos <= |src.data| && OnlyPlane(old(a[..]), a[..], base, pitch, 1, w, h)
    ensures sts == MFX_ERR_NONE ==>
      src.pos == old(src.pos) + h * w && PlaneHolds(a[..], base, pitch, 1, w, h, src.data, old(src.pos))
  {
    ghost var was, pos0 := a[..], src.pos;
    for i := 0 to h
      invariant src.pos == pos0 + i * w && src.pos <= |src.data|
      invariant PlaneHolds(a[..], base, pitch, 1, w, i, src.data, pos0) && OnlyPlane(was, a[..], base, pitch, 1, w, h)
    {
      var ok := LoadLumaRow(a, base, pitch, w, h, i, src, was, pos0);
      if !ok {
        return MFX_ERR_MORE_DATA;
      }
    }
    sts := MFX_ERR_NONE;
  }

  /** One luminance row; a short one is stored as far as it goes. */
  method LoadLumaRow(a: array<byte>, base: nat, pitch: nat, w: nat, h: nat, i: nat, src: Stream, ghost was: seq<byte>,
                     ghost pos0: nat) returns (ok: bool)
    requires src.pos <= |src.data| && w <= pitch && Spans(base, pitch, w, h, a.Length) && i < h
    requires src.pos == pos0 + i * w
    requires PlaneHolds(a[..], base, pitch, 1, w, i, src.data, pos0) && OnlyPlane(was, a[..], base, pitch, 1, w, h)
    modifies a, src`pos
    ensures src.pos <= |src.data| && OnlyPlane(was, a[..], base, pitch, 1, w, h)
    ensures ok ==> src.pos == pos0 + (i + 1) * w && PlaneHolds(a[..], base, pitch, 1, w, i + 1, src.data, pos0)
    ensures !ok ==> |src.data| - pos0 < h * w
  {
    RowFits(base, pitch, w, h, i, a.Length);
    ghost var before, at := a[..], src.pos;
    ghost var start := base + i * pitch;
    var nBytesRead := LoadRow(a, base + i * pitch, w, src);
    ok := w == nBytesRead;
    MulStrict(i, h, if w == 0 then 1 else w);
    Distribute(i, 1, w);
    if ok {
      RowAdded(was, before, a[..], base, pitch, 1, w, h, i, src.data, pos0, start, at);
    } else {
      OnlyRow(was, before, a[..], base, pitch, w, h, i, start);
    }
  }

  /** A partly written row is still inside the plane. */
  lemma OnlyRow(a0: seq<byte>, a: seq<byte>, b: seq<byte>, base: nat, pitch: nat, w: nat, h: nat, i: nat, start: int)
    requires i < h && start == base + i * pitch && OnlyPlane(a0, a, base, pitch, 1, w, h) && |a| == |b|
    requires forall k :: 0 <= k < |a| && !(start <= k < start + w) ==> b[k] == a[k]
    ensures OnlyPlane(a0, b, base, pitch, 1, w, h)
  {
    forall k | 0 <= k < |a| && !InPlane(base, pitch, 1, w, h, k)
      ensures b[k] == a0[k]
    {
      assert Cell(base, pitch, 1, i, k - start) == k;
    }
  }

  method LoadRow(a: array<byte>, start: nat, w: nat, src: Stream) returns (got: nat)
    requires src.pos <= |src.data| && (w > 0 ==> start + w <= a.Length)
    modifies a, src`pos
    ensures got == (if w <= old(src.Left()) then w else old(src.Left())) && src.pos == old(src.pos) + got
    ensures forall k :: 0 <= k < a.Length && !(start <= k < start + w) ==> a[k] == old(a[k])
    ensures got == w ==> RowWritten(old(a[..]), a[..], start, 1, w, src.data, old(src.pos))
  {
    ghost var was, pos0 := a[..], src.pos;
    got := src.Read(a, start, w);
    if got == w {
      forall j | 0 <= j < w
        ensures Has(a[..], start + j * 1, Byte(src.data, pos0 + j))
      {
        assert a[start + j] == src.data[pos0 + (start + j - start)];
      }
      forall k | 0 <= k < a.Length && !InRow(start, 1, w, k)
        ensures a[k] == was[k]
      {
        assert start + (k - start) * 1 == k;
      }
    }
  }

  /** Spreads one line of `w` samples over every other byte from `start` on. */
  method StoreLine(a: array<byte>, start: nat, w: nat, buf: array<byte>, ghost src: seq<byte>, ghost pos: nat)
    requires a != buf && w <= buf.Length && (w > 0 ==> start + 2 * w - 2 < a.Length)
    requires forall j :: 0 <= j < w ==> buf[j] == Byte(src, pos + j)
    modifies a
    ensures RowWritten(old(a[..]), a[..], start, 2, w, src, pos)
  {
    for j := 0 to w
      invariant forall c :: 0 <= c < j ==> Has(a[..], start + c * 2, Byte(src, pos + c))
      invariant forall k :: 0 <= k < a.Length && !InRow(start, 2, w, k) ==> a[k] == old(a[k])
    {
      assert start + j * 2 == start + 2 * j;
      ghost var before := a[..];
      a[start + j * 2] := buf[j];
      forall c | 0 <= c < j
        ensures Has(a[..], start + c * 2, Byte(src, pos + c))
      {
        assert Has(before, start + c * 2, Byte(src, pos + c));
      }
    }
  }

  /** `ReadPlaneData`: one chroma plane, sample by sample into every other byte. */
  method ReadPlaneData(w: nat, h: nat, buf: array<byte>, a: array<byte>, base: nat, pitch: nat, offset: nat,
                       src: Stream) returns (sts: Status)
    requires src.pos <= |src.data| && w <= buf.Length && a != buf && offset < 2 && 2 * w <= pitch
    requires Spans(base, pitch, 2 * w, h, a.Length)
    modifies buf, a, src`pos
    ensures sts == MFX_ERR_NONE <==> h * w <= old(src.Left())
    ensures sts == MFX_ERR_NONE || sts == MFX_ERR_MORE_DATA
    ensures src.pos <= |src.data| && (sts == MFX_ERR_NONE ==> src.pos == old(src.pos) + h * w)
    ensures RowsStored(old(a[..]), a[..], base + offset, pitch, w, RowsRead(w, h, old(src.Left())), src.data,
                       old(src.pos))
  {
    ghost var was, pos0 := a[..], src.pos;
    for i := 0 to h
      invariant src.pos == pos0 + i * w && src.pos <= |src.data|
      invariant RowsStored(was, a[..], base + offset, pitch, w, i, src.data, pos0)
    {
      var ok := ReadPlaneLine(w, h, buf, a, base, pitch, offset, i, src, was, pos0);
      if !ok {
        LastRowRead(w, h, i, |src.data| - pos0);
        return MFX_ERR_MORE_DATA;
      }
    }
    sts := MFX_ERR_NONE;
  }

  /** How many rows of a chroma plane `left` bytes complete. */
  function RowsRead(w: nat, h: nat, left: nat): (rows: nat)
    ensures rows <= h
  {
    if h * w <= left then h else
      assert w > 0;
      FewerRows(w, h, left);
      left / w
  }

  lemma FewerRows(w: nat, h: nat, left: nat)
    requires w > 0 && left < h * w
    ensures left / w < h
  {
    Recompose(left, w);
    if left / w >= h {
      MulMonotone(h, left / w, w);
    }
  }

  lemma LastRowRead(w: nat, h: nat, i: nat, left: nat)
    requires i < h && i * w <= left < (i + 1) * w
    ensures left < h * w && RowsRead(w, h, left) == i
  {
    Distribute(i, 1, w);
    RowsLeft(i, h, w);
    DivModUnique(i, left - i * w, w);
  }

  /** The first `n` rows of a chroma plane come from the stream, everything else is as it was. */
  ghost predicate RowsStored(a: seq<byte>, b: seq<byte>, base: int, pitch: nat, w: nat, n: nat, src: seq<byte>,
                             pos: nat) {
    OnlyPlane(a, b, base, pitch, 2, w, n) && PlaneHolds(b, base, pitch, 2, w, n, src, pos)
  }

  lemma PlaneGrows(a: seq<byte>, b: seq<byte>, base: int, pitch: nat, step: nat, w: nat, n: nat, h: nat)
    requires n <= h && OnlyPlane(a, b, base, pitch, step, w, n)
    ensures OnlyPlane(a, b, base, pitch, step, w, h)
  {}

  lemma RowsLeft(i: nat, h: nat, w: nat)
    requires i < h
    ensures i * w + w <= h * w
  {
    MulStrict(i, h, if w == 0 then 1 else w);
  }

  /** Line `i` of a chroma plane. */
  method ReadPlaneLine(w: nat, h: nat, buf: array<byte>, a: array<byte>, base: nat, pitch: nat, offset: nat, i: nat,
                       src: Stream, ghost was: seq<byte>, ghost pos0: nat) returns (ok: bool)
    requires src.pos <= |src.data| && w <= buf.Length && a != buf && offset < 2 && 2 * w <= pitch
    requires Spans(base, pitch, 2 * w, h, a.Length)
    requires i < h && src.pos == pos0 + i * w
    requires RowsStored(was, a[..], base + offset, pitch, w, i, src.data, pos0)
    modifies buf, a, src`pos
    ensures src.pos <= |src.data|
    ensures RowsStored(was, a[..], base + offset, pitch, w, if ok then i + 1 else i, src.data, pos0)
    ensures if ok then src.pos == pos0 + (i + 1) * w else i * w <= |src.data| - pos0 < (i + 1) * w
  {
    RowFits(base, pitch, 2 * w, h, i, a.Length);
    ghost var before, at := a[..], src.pos;
    var start := base + offset + i * pitch;
    var nBytesRead := ReadPlaneRow(w, buf, a, start, src);
    ok := w == nBytesRead;
    Distribute(i, 1, w);
    if ok {
      RowStored(was, before, a[..], base + offset, pitch, w, i, src.data, pos0, start, at);
    } else {
      assert a[..] == before;
    }
  }

  lemma RowStored(was: seq<byte>, before: seq<byte>, now: seq<byte>, base: int, pitch: nat, w: nat, i: nat,
                  src: seq<byte>, pos: nat, start: int, at: int)
    requires 2 * w <= pitch && base >= 0 && start == base + i * pitch && at == pos + i * w
    requires RowsStored(was, before, base, pitch, w, i, src, pos) && RowWritten(before, now, start, 2, w, src, at)
    ensures RowsStored(was, now, base, pitch, w, i + 1, src, pos)
  {
    PlaneGrows(was, before, base, pitch, 2, w, i, i + 1);
    RowAdded(was, before, now, base, pitch, 2, w, i + 1, i, src, pos, start, at);
  }

  /** One line through the buffer; a short line is not stored. */
  method ReadPlaneRow(w: nat, buf: array<byte>, a: array<byte>, start: nat, src: Stream) returns (got: nat)
    requires src.pos <= |src.data| && w <= buf.Length && a != buf && (w > 0 ==> start + 2 * w - 2 < a.Length)
    modifies buf, a, src`pos
    ensures got == (if w <= old(src.Left()) then w else old(src.Left())) && src.pos == old(src.pos) + got
    ensures if got == w then RowWritten(old(a[..]), a[..], start, 2, w, src.data, old(src.pos)) else a[..] == old(a[..])
  {
    ghost var pos0 := src.pos;
    got := LoadRow(buf, 0, w, src);
    if got == w {
      BufferHolds(buf[..], w, src.data, pos0);
      StoreLine(a, start, w, buf, src.data, pos0);
    }
  }

  lemma BufferHolds(buf: seq<byte>, w: nat, src: seq<byte>, pos: nat)
    requires w <= |buf| && forall j :: 0 <= j < w ==> Has(buf, 0 + j * 1, Byte(src, pos + j))
    ensures forall j :: 0 <= j < w ==> buf[j] == Byte(src, pos + j)
  {
    forall j | 0 <= j < w
      ensures buf[j] == Byte(src, pos + j)
    {
      assert Has(buf, 0 + j * 1, Byte(src, pos + j));
    }
  }

  /** The frame from `pos` on is in the window: luminance, then the two chroma planes interleaved. */
  ghost predicate FrameHolds(y: seq<byte>, uv: seq<byte>, c: Crop, src: seq<byte>, pos: nat) {
    && c.LumaSize() >= 0 && c.ChromaSize() >= 0
    && PlaneHolds(y, c.YBase(), c.pitch, 1, c.w, c.h, src, pos)
    && PlaneHolds(uv, c.LoadBase(), c.pitch, 2, c.w / 2, c.h / 2, src, pos + c.LumaSize())
    && PlaneHolds(uv, c.LoadBase() + 1, c.pitch, 2, c.w / 2, c.h / 2, src, pos + c.LumaSize() + c.ChromaSize())
  }

  /** Outside the window nothing changed. */
  ghost predicate OnlyWindow(y0: seq<byte>, uv0: seq<byte>, y: seq<byte>, uv: seq<byte>, c: Crop) {
    && OnlyPlane(y0, y, c.YBase(), c.pitch, 1, c.w, c.h)
    && |uv0| == |uv|
    && forall k :: 0 <= k < |uv| && !InChroma(c, k) ==> uv[k] == uv0[k]
  }

  ghost predicate InChroma(c: Crop, k: int) {
    InPlane(c.LoadBase(), c.pitch, 2, c.w / 2, c.h / 2, k) || InPlane(c.LoadBase() + 1, c.pitch, 2, c.w / 2, c.h / 2, k)
  }

  /** The two chroma planes share rows but no bytes. */
  lemma OtherPlaneKept(a: seq<byte>, b: seq<byte>, base: int, pitch: nat, w: nat, h: nat, src: seq<byte>, pos: nat)
    requires 2 * w <= pitch && PlaneHolds(a, base, pitch, 2, w, h, src, pos)
    requires OnlyPlane(a, b, base + 1, pitch, 2, w, h)
    ensures PlaneHolds(b, base, pitch, 2, w, h, src, pos)
  {
    forall i, j | 0 <= i < h && 0 <= j < w
      ensures Has(b, Cell(base, pitch, 2, i, j), Byte(src, pos + i * w + j))
    {
      var k := Cell(base, pitch, 2, i, j);
      assert Has(a, k, Byte(src, pos + i * w + j));
      if InPlane(base + 1, pitch, 2, w, h, k) {
        var i', j' :| 0 <= i' < h && 0 <= j' < w && Cell(base + 1, pitch, 2, i', j') == k;
        CellUnique(base, pitch, i, 2 * j, i', 2 * j' + 1);
        assert false;
      }
    }
  }

  /** A surface: two planes and the window to use; an empty window stands for the whole picture. */
  class Surface {
    const info: Crop
    const width: nat
    const height: nat
    const y: array<byte>
    const uv: array<byte>

    constructor (info: Crop, width: nat, height: nat, y: array<byte>, uv: array<byte>)
      ensures this.info == info && this.width == width && this.height == height && this.y == y && this.uv == uv
    {
      this.info, this.width, this.height, this.y, this.uv := info, width, height, y, uv;
    }

    /** What the loader fills. */
    function Picture(): Crop {
      if info.h > 0 && info.w > 0 then info else info.(w := width, h := height)
    }
  }

  /** A window without rows or columns means the picture's own size, from the same corner. */
  lemma EmptyWindow(s: Surface)
    ensures s.Picture().x == s.info.x && s.Picture().y == s.info.y && s.Picture().pitch == s.info.pitch
    ensures s.info.h == 0 || s.info.w == 0 ==> s.Picture().w == s.width && s.Picture().h == s.height
    ensures s.info.h > 0 && s.info.w > 0 ==> s.Picture() == s.info
  {}

  lemma SizesNonNegative(c: Crop)
    ensures c.LumaSize() >= 0 && c.ChromaSize() >= 0 && c.YBase() >= 0 && c.LoadBase() >= 0 && c.WriteBase() >= 0
  {
    MulMonotone(0, c.h, c.w);
    MulMonotone(0, c.h / 2, c.w / 2);
    MulMonotone(0, c.y, c.pitch);
    MulMonotone(0, c.y / 2, c.pitch);
  }

  /** The status for `left` bytes to come. The length of the second chroma plane has no part in it. */
  function LoadStatus(c: Crop, left: int): Status {
    if left < c.LumaSize() then MFX_ERR_MORE_DATA
    else if c.w / 2 > MAX_CHROMA then MFX_ERR_UNSUPPORTED
    else if left < c.LumaSize() + c.ChromaSize() then MFX_ERR_MORE_DATA
    else MFX_ERR_NONE
  }

  /** Rows of the second chroma plane for `left` bytes to come. */
  function LastRows(c: Crop, left: int): nat {
    var rest := left - c.LumaSize() - c.ChromaSize();
    if rest < 0 then 0 else RowsRead(c.w / 2, c.h / 2, rest)
  }

  /** Both chroma planes after reading, the second one up to row `rows`. */
  ghost predicate ChromaLoaded(uv0: seq<byte>, uv: seq<byte>, c: Crop, src: seq<byte>, pos: nat, rows: nat) {
    && |uv0| == |uv| && c.ChromaSize() >= 0
    && PlaneHolds(uv, c.LoadBase(), c.pitch, 2, c.w / 2, c.h / 2, src, pos)
    && PlaneHolds(uv, c.LoadBase() + 1, c.pitch, 2, c.w / 2, rows, src, pos + c.ChromaSize())
    && RowsKept(uv0, uv, c.LoadBase() + 1, c.pitch, c.w / 2, rows, c.h / 2)
  }

  /** Rows `n` to `h` of a chroma plane hold what they held before. */
  ghost predicate RowsKept(a: seq<byte>, b: seq<byte>, base: int, pitch: nat, w: nat, n: nat, h: nat) {
    forall i, j :: n <= i < h && 0 <= j < w ==> Untouched(a, b, Cell(base, pitch, 2, i, j))
  }

  ghost predicate Untouched(a: seq<byte>, b: seq<byte>, k: int) {
    0 <= k < |a| == |b| && b[k] == a[k]
  }

  /** What loading through a window makes of the planes `y0`, `uv0` with the stream `src` from `pos` on. */
  ghost predicate LoadOutcome(c: Crop, y0: seq<byte>, uv0: seq<byte>, y: seq<byte>, uv: seq<byte>, src: seq<byte>,
                              pos: nat, sts: Status) {
    && sts == LoadStatus(c, |src| - pos) && OnlyWindow(y0, uv0, y, uv, c)
    && (sts == MFX_ERR_NONE ==>
         && c.LumaSize() >= 0 && PlaneHolds(y, c.YBase(), c.pitch, 1, c.w, c.h, src, pos)
         && ChromaLoaded(uv0, uv, c, src, pos + c.LumaSize(), LastRows(c, |src| - pos)))
  }

  /** A complete frame is in the window. */
  lemma CompleteFrame(c: Crop, y0: seq<byte>, uv0: seq<byte>, y: seq<byte>, uv: seq<byte>, src: seq<byte>, pos: nat)
    requires LoadOutcome(c, y0, uv0, y, uv, src, pos, MFX_ERR_NONE) && c.FrameSize() <= |src| - pos
    ensures FrameHolds(y, uv, c, src, pos)
  {
    SizesNonNegative(c);
  }

  /** `LoadRawFrame`. A stream that ends inside the second chroma plane is not reported. */
  method LoadRawFrame(s: Surface, src: Stream) returns (sts: Status)
    requires src.pos <= |src.data| && s.y != s.uv && s.Picture().LoadFits(s.y.Length, s.uv.Length)
    modifies s.y, s.uv, src`pos
    ensures LoadOutcome(s.Picture(), old(s.y[..]), old(s.uv[..]), s.y[..], s.uv[..], src.data, old(src.pos), sts)
    ensures sts == MFX_ERR_NONE && s.Picture().FrameSize() <= old(src.Left()) ==>
              src.pos == old(src.pos) + s.Picture().FrameSize()
  {
    var c := s.Picture();
    SizesNonNegative(c);
    ghost var pos0 := src.pos;
    sts := LoadLuma(s.y, c.YBase(), c.pitch, c.w, c.h, src);
    if sts != MFX_ERR_NONE || c.w / 2 > MAX_CHROMA {
      return if sts != MFX_ERR_NONE then sts else MFX_ERR_UNSUPPORTED;
    }
    sts := LoadChroma(s.uv, c, src);
  }

  /** Both chroma planes; only the first one's status counts. */
  method LoadChroma(uv: array<byte>, c: Crop, src: Stream) returns (sts: Status)
    requires src.pos <= |src.data| && c.w / 2 <= MAX_CHROMA && c.pitch >= c.w
    requires 0 <= c.LoadBase() && Spans(c.LoadBase(), c.pitch, 2 * (c.w / 2), c.h / 2, uv.Length) && c.ChromaSize() >= 0
    modifies uv, src`pos
    ensures sts == if old(src.Left()) < c.ChromaSize() then MFX_ERR_MORE_DATA else MFX_ERR_NONE
    ensures forall k :: 0 <= k < uv.Length && !InChroma(c, k) ==> uv[k] == old(uv[k])
    ensures sts == MFX_ERR_NONE ==>
              ChromaLoaded(old(uv[..]), uv[..], c, src.data, old(src.pos),
                           RowsRead(c.w / 2, c.h / 2, old(src.Left()) - c.ChromaSize()))
    ensures 2 * c.ChromaSize() <= old(src.Left()) ==> src.pos == old(src.pos) + 2 * c.ChromaSize()
  {
    var buf := new byte[MAX_CHROMA];
    ghost var uv0, pos0 := uv[..], src.pos;
    sts := ReadPlaneData(c.w / 2, c.h / 2, buf, uv, c.LoadBase(), c.pitch, 0, src);
    FirstPlaneOnly(uv0, uv[..], c, RowsRead(c.w / 2, c.h / 2, |src.data| - pos0));
    if sts != MFX_ERR_NONE {
      return;
    }
    ghost var uv1, rows := uv[..], RowsRead(c.w / 2, c.h / 2, src.Left());
    var ignored := ReadPlaneData(c.w / 2, c.h / 2, buf, uv, c.LoadBase(), c.pitch, 1, src);
    PlaneGrows(uv1, uv[..], c.LoadBase() + 1, c.pitch, 2, c.w / 2, rows, c.h / 2);
    OtherPlaneKept(uv1, uv[..], c.LoadBase(), c.pitch, c.w / 2, c.h / 2, src.data, pos0);
    RestKept(uv0, uv1, uv[..], c, rows);
  }

  lemma FirstPlaneOnly(a: seq<byte>, b: seq<byte>, c: Crop, rows: nat)
    requires rows <= c.h / 2 && OnlyPlane(a, b, c.LoadBase(), c.pitch, 2, c.w / 2, rows)
    ensures OnlyPlane(a, b, c.LoadBase(), c.pitch, 2, c.w / 2, c.h / 2)
  {
    PlaneGrows(a, b, c.LoadBase(), c.pitch, 2, c.w / 2, rows, c.h / 2);
  }

  /** The rows of the second plane behind `rows` have kept their bytes. */
  lemma RestKept(uv0: seq<byte>, uv1: seq<byte>, uv: seq<byte>, c: Crop, rows: nat)
    requires c.pitch >= c.w && 0 <= c.LoadBase() && Spans(c.LoadBase(), c.pitch, 2 * (c.w / 2), c.h / 2, |uv0|)
    requires OnlyPlane(uv0, uv1, c.LoadBase(), c.pitch, 2, c.w / 2, c.h / 2)
    requires OnlyPlane(uv1, uv, c.LoadBase() + 1, c.pitch, 2, c.w / 2, rows) && rows <= c.h / 2
    ensures RowsKept(uv0, uv, c.LoadBase() + 1, c.pitch, c.w / 2, rows, c.h / 2)
  {
    var base := c.LoadBase() + 1;
    forall i, j | rows <= i < c.h / 2 && 0 <= j < c.w / 2
      ensures Untouched(uv0, uv, Cell(base, c.pitch, 2, i, j))
    {
      CellKept(uv0, uv1, uv, c, rows, i, j);
    }
  }

  lemma CellKept(uv0: seq<byte>, uv1: seq<byte>, uv: seq<byte>, c: Crop, rows: nat, i: nat, j: nat)
    requires c.pitch >= c.w && 0 <= c.LoadBase() && Spans(c.LoadBase(), c.pitch, 2 * (c.w / 2), c.h / 2, |uv0|)
    requires OnlyPlane(uv0, uv1, c.LoadBase(), c.pitch, 2, c.w / 2, c.h / 2)
    requires OnlyPlane(uv1, uv, c.LoadBase() + 1, c.pitch, 2, c.w / 2, rows)
    requires rows <= i < c.h / 2 && j < c.w / 2
    ensures Untouched(uv0, uv, Cell(c.LoadBase() + 1, c.pitch, 2, i, j))
  {
    var k := Cell(c.LoadBase() + 1, c.pitch, 2, i, j);
    RowFits(c.LoadBase(), c.pitch, 2 * (c.w / 2), c.h / 2, i, |uv0|);
    if InPlane(c.LoadBase(), c.pitch, 2, c.w / 2, c.h / 2, k) {
      var i', j' :| 0 <= i' < c.h / 2 && 0 <= j' < c.w / 2 && Cell(c.LoadBase(), c.pitch, 2, i', j') == k;
      CellUnique(c.LoadBase(), c.pitch, i, 2 * j + 1, i', 2 * j');
      assert false;
    }
    if InPlane(c.LoadBase() + 1, c.pitch, 2, c.w / 2, rows, k) {
      var i', j' :| 0 <= i' < rows && 0 <= j' < c.w / 2 && Cell(c.LoadBase() + 1, c.pitch, 2, i', j') == k;
      CellUnique(c.LoadBase(), c.pitch, i, 2 * j + 1, i', 2 * j' + 1);
      assert false;
    }
  }

  /** A stream that ends inside the second chroma plane is accepted, with the old bytes in the rows that are missing. */
  lemma TruncatedAccepted(c: Crop, left: int)
    ensures LoadStatus(c, left) == MFX_ERR_NONE && left < c.FrameSize()
       <==> c.w / 2 <= MAX_CHROMA && c.LumaSize() + c.ChromaSize() <= left < c.FrameSize()
  {
    SizesNonNegative(c);
  }

  lemma FirstSample(uv: seq<byte>, base: int, pitch: nat, w: nat, n: nat, src: seq<byte>, pos: nat)
    requires PlaneHolds(uv, base, pitch, 2, w, n, src, pos) && w > 0 && n > 0
    ensures Has(uv, base, Byte(src, pos))
  {
    assert Has(uv, Cell(base, pitch, 2, 0, 0), Byte(src, pos + 0 * w + 0));
  }

  lemma FirstKept(uv0: seq<byte>, uv: seq<byte>, base: int, pitch: nat, w: nat, h: nat)
    requires RowsKept(uv0, uv, base, pitch, w, 0, h) && w > 0 && h > 0
    ensures Untouched(uv0, uv, base)
  {
    assert Untouched(uv0, uv, Cell(base, pitch, 2, 0, 0));
  }

  /** Without a row of the second plane, its first sample keeps the old byte. */
  lemma SecondPlaneMissing(uv0: seq<byte>, uv: seq<byte>, c: Crop, src: seq<byte>, pos: nat)
    requires ChromaLoaded(uv0, uv, c, src, pos, 0) && c.w >= 2 && c.h >= 2
    ensures Has(uv, c.LoadBase(), Byte(src, pos)) && Untouched(uv0, uv, c.LoadBase() + 1)
  {
    FirstSample(uv, c.LoadBase(), c.pitch, c.w / 2, c.h / 2, src, pos);
    FirstKept(uv0, uv, c.LoadBase() + 1, c.pitch, c.w / 2, c.h / 2);
  }

  /** A two by two picture in the corner. */
  predicate TwoByTwo(c: Crop) {
    c.x == 0 && c.y == 0 && c.w == 2 && c.h == 2
  }

  lemma SizesOf(c: Crop)
    requires TwoByTwo(c)
    ensures c.LumaSize() == 4 && c.ChromaSize() == 1 && c.LoadBase() == 0
  {}

  /** Five bytes are one short of the picture, and do for the loader. */
  lemma OneShort(c: Crop)
    requires c.w == 2 && c.h == 2 && c.LumaSize() == 4 && c.ChromaSize() == 1
    ensures c.FrameSize() == 6 && LoadStatus(c, 5) == MFX_ERR_NONE && LastRows(c, 5) == 0
  {
    assert RowsRead(1, 1, 0) == 0;
  }

  lemma Unfolded(c: Crop, y0: seq<byte>, uv0: seq<byte>, y: seq<byte>, uv: seq<byte>, src: seq<byte>, sts: Status)
    requires LoadOutcome(c, y0, uv0, y, uv, src, 0, sts) && LoadStatus(c, |src|) == MFX_ERR_NONE
    ensures sts == MFX_ERR_NONE && c.LumaSize() >= 0
    ensures ChromaLoaded(uv0, uv, c, src, c.LumaSize(), LastRows(c, |src|))
  {}

  /** The last byte of the picture is then what it was before. */
  lemma FiveOfSix(c: Crop, y0: seq<byte>, uv0: seq<byte>, y: seq<byte>, uv: seq<byte>, src: seq<byte>, sts: Status)
    requires TwoByTwo(c) && |uv0| == 2 && |src| == 5 && LoadOutcome(c, y0, uv0, y, uv, src, 0, sts)
    ensures c.FrameSize() == 6 && sts == MFX_ERR_NONE && uv == [src[4], uv0[1]]
  {
    SizesOf(c);
    OneShort(c);
    Unfolded(c, y0, uv0, y, uv, src, sts);
    TwoBytes(uv0, uv, c, src, 4);
  }

  lemma TwoBytes(uv0: seq<byte>, uv: seq<byte>, c: Crop, src: seq<byte>, pos: nat)
    requires ChromaLoaded(uv0, uv, c, src, pos, 0) && c.w >= 2 && c.h >= 2
    requires c.LoadBase() == 0 && |uv0| == 2 && pos < |src|
    ensures uv == [src[pos], uv0[1]]
  {
    SecondPlaneMissing(uv0, uv, c, src, pos);
  }

  // ---------------------------------------------------------------- writing

  /** `n` bytes, `step` apart. */
  function Line(a: seq<byte>, start: int, step: int, n: nat): seq<byte> {
    seq<byte>(n, k => Byte(a, start + k * step))
  }

  /** `h` lines, `pitch` apart. */
  function Lines(a: seq<byte>, base: int, pitch: int, step: int, n: nat, h: nat): seq<byte> {
    if h == 0 then [] else Lines(a, base, pitch, step, n, h - 1) + Line(a, base + (h - 1) * pitch, step, n)
  }

  lemma LinesMore(a: seq<byte>, base: int, pitch: int, step: int, n: nat, h: nat)
    ensures Lines(a, base, pitch, step, n, h + 1) ==
      Lines(a, base, pitch, step, n, h) + Line(a, base + h * pitch, step, n)
  {}

  /** What both writers produce for a window. */
  function Written(y: seq<byte>, uv: seq<byte>, c: Crop): seq<byte> {
    Lines(y, c.YBase(), c.pitch, 1, c.w, c.h) + Lines(uv, c.WriteBase(), c.pitch, 2, (c.w + 1) / 2, c.h / 2)
    + Lines(uv, c.WriteBase() + 1, c.pitch, 2, c.w / 2, c.h / 2)
  }

  class Sink {
    var bytes: seq<byte>

    constructor ()
      ensures bytes == []
    {
      bytes := [];
    }
  }

  /** `WriteSection`. */
  method WriteSection(plane: array<byte>, factor: nat, chunksize: nat, c: Crop, i: nat, j: nat, sink: Sink)
    requires factor == 1 || factor == 2
    requires chunksize > 0 ==> 0 <= c.SectionAt(factor, i, j) && c.SectionAt(factor, i, j) + chunksize <= plane.Length
    modifies sink
    ensures sink.bytes == old(sink.bytes) + Line(plane[..], c.SectionAt(factor, i, j), 1, chunksize)
  {
    var at := c.SectionAt(factor, i, j);
    var chunk := if chunksize == 0 then [] else plane[at..at + chunksize];
    sink.bytes := sink.bytes + chunk;
    assert chunk == Line(plane[..], at, 1, chunksize);
  }

  lemma LineMore(a: seq<byte>, start: int, step: int, n: nat)
    ensures Line(a, start, step, n + 1) == Line(a, start, step, n) + Line(a, start + n * step, 1, 1)
  {}

  /** Every other byte of one chroma row. */
  method WriteChromaRow(uv: array<byte>, c: Crop, i: nat, first: nat, sink: Sink)
    requires first < 2 && c.WriteBase() >= 0 && 0 <= i * c.pitch
    requires c.w > 0 ==> c.WriteBase() + i * c.pitch + c.w <= uv.Length
    modifies sink
    ensures sink.bytes == old(sink.bytes) + Line(uv[..], c.WriteBase() + first + i * c.pitch, 2, (c.w + 1 - first) / 2)
  {
    var j := first;
    ghost var n := 0;
    ghost var start := c.WriteBase() + first + i * c.pitch;
    while j < c.w
      invariant j == first + 2 * n && n <= (c.w + 1 - first) / 2
      invariant sink.bytes == old(sink.bytes) + Line(uv[..], start, 2, n)
    {
      WriteSection(uv, 2, 1, c, i, j, sink);
      LineMore(uv[..], start, 2, n);
      j := j + 2;
      n := n + 1;
    }
  }

  method WriteChroma(uv: array<byte>, c: Crop, first: nat, sink: Sink)
    requires first < 2 && c.WriteBase() >= 0 && Spans(c.WriteBase(), c.pitch, c.w, c.h / 2, uv.Length)
    modifies sink
    ensures sink.bytes ==
      old(sink.bytes) + Lines(uv[..], c.WriteBase() + first, c.pitch, 2, (c.w + 1 - first) / 2, c.h / 2)
  {
    for i := 0 to c.h / 2
      invariant sink.bytes ==
        old(sink.bytes) + Lines(uv[..], c.WriteBase() + first, c.pitch, 2, (c.w + 1 - first) / 2, i)
    {
      RowFits(c.WriteBase(), c.pitch, c.w, c.h / 2, i, uv.Length);
      WriteChromaRow(uv, c, i, first, sink);
    }
  }

  method WriteLuma(y: array<byte>, c: Crop, sink: Sink)
    requires c.YBase() >= 0 && Spans(c.YBase(), c.pitch, c.w, c.h, y.Length)
    modifies sink
    ensures sink.bytes == old(sink.bytes) + Lines(y[..], c.YBase(), c.pitch, 1, c.w, c.h)
  {
    ghost var src, before := y[..], sink.bytes;
    for i := 0 to c.h
      invariant sink.bytes == before + Lines(src, c.YBase(), c.pitch, 1, c.w, i)
    {
      RowFits(c.YBase(), c.pitch, c.w, c.h, i, y.Length);
      LinesMore(src, c.YBase(), c.pitch, 1, c.w, i);
      WriteSection(y, 1, c.w, c, i, 0, sink);
    }
  }

  /** `WriteRawFrame`. */
  method WriteRawFrame(s: Surface, sink: Sink)
    requires s.info.WriteFits(s.y.Length, s.uv.Length)
    modifies sink
    ensures sink.bytes == old(sink.bytes) + Written(s.y[..], s.uv[..], s.info)
  {
    var c := s.info;
    SizesNonNegative(c);
    WriteLuma(s.y, c, sink);
    WriteChroma(s.uv, c, 0, sink);
    WriteChroma(s.uv, c, 1, sink);
  }

  // ---------------------------------------------------------------- writing to memory

  /** `dest` starts with `bytes`; the rest is as before. */
  ghost predicate Starts(before: seq<byte>, dest: seq<byte>, bytes: seq<byte>) {
    |bytes| <= |dest| && dest == bytes + before[if |bytes| <= |before| then |bytes| else |before|..]
  }

  /** Copies `n` bytes behind those already written. */
  method Copy(dest: array<byte>, ipos: nat, a: array<byte>, from: nat, n: nat, ghost before: seq<byte>,
              ghost done: seq<byte>)
    requires dest != a && ipos == |done| && ipos + n <= dest.Length && (n > 0 ==> from + n <= a.Length)
    requires |before| == dest.Length && Starts(before, dest[..], done)
    modifies dest
    ensures Starts(before, dest[..], done + Line(a[..], from, 1, n))
  {
    for k := 0 to n
      invariant dest[..] == done + Line(a[..], from, 1, k) + before[ipos + k..]
    {
      dest[ipos + k] := a[from + k];
      assert Line(a[..], from, 1, k + 1) == Line(a[..], from, 1, k) + [a[from + k]];
    }
  }

  lemma {:induction false} LinesLength(a: seq<byte>, base: int, pitch: int, step: int, n: nat, h: nat)
    ensures |Lines(a, base, pitch, step, n, h)| == h * n
  {
    if h > 0 {
      LinesLength(a, base, pitch, step, n, h - 1);
      Distribute(h - 1, 1, n);
    }
  }

  lemma WrittenLength(y: seq<byte>, uv: seq<byte>, c: Crop)
    ensures |Written(y, uv, c)| == c.h * c.w + (c.h / 2) * ((c.w + 1) / 2) + (c.h / 2) * (c.w / 2)
  {
    LinesLength(y, c.YBase(), c.pitch, 1, c.w, c.h);
    LinesLength(uv, c.WriteBase(), c.pitch, 2, (c.w + 1) / 2, c.h / 2);
    LinesLength(uv, c.WriteBase() + 1, c.pitch, 2, c.w / 2, c.h / 2);
  }

  method CopyLuma(dest: array<byte>, y: array<byte>, c: Crop, ghost before: seq<byte>)
    requires dest != y && before == dest[..] && c.h * c.w <= dest.Length
    requires c.YBase() >= 0 && Spans(c.YBase(), c.pitch, c.w, c.h, y.Length)
    modifies dest
    ensures Starts(before, dest[..], Lines(y[..], c.YBase(), c.pitch, 1, c.w, c.h))
  {
    ghost var src := y[..];
    ghost var rows := Lines(src, c.YBase(), c.pitch, 1, c.w, 0);
    for i := 0 to c.h
      invariant src == y[..] && rows == Lines(src, c.YBase(), c.pitch, 1, c.w, i)
      invariant Starts(before, dest[..], rows)
    {
      rows := CopyLumaRow(dest, y, c, i, before, src, rows);
    }
  }

  method CopyLumaRow(dest: array<byte>, y: array<byte>, c: Crop, i: nat,
                     ghost before: seq<byte>, ghost src: seq<byte>, ghost rows: seq<byte>)
    returns (ghost more: seq<byte>)
    requires dest != y && |before| == dest.Length && c.h * c.w <= dest.Length && i < c.h
    requires c.YBase() >= 0 && Spans(c.YBase(), c.pitch, c.w, c.h, y.Length)
    requires src == y[..] && rows == Lines(src, c.YBase(), c.pitch, 1, c.w, i)
    requires Starts(before, dest[..], rows)
    modifies dest
    ensures more == Lines(src, c.YBase(), c.pitch, 1, c.w, i + 1) && Starts(before, dest[..], more)
  {
    RowFits(c.YBase(), c.pitch, c.w, c.h, i, y.Length);
    RowsLeft(i, c.h, c.w);
    LinesLength(src, c.YBase(), c.pitch, 1, c.w, i);
    LinesMore(src, c.YBase(), c.pitch, 1, c.w, i);
    var from, ipos := c.YBase() + i * c.pitch, i * c.w;
    Copy(dest, ipos, y, from, c.w, before, rows);
    more := rows + Line(src, from, 1, c.w);
  }

  /** One chroma row, byte by byte from `ipos` on. */
  method CopyChromaRow(dest: array<byte>, ipos0: nat, uv: array<byte>, c: Crop, i: nat, first: nat,
                       ghost before: seq<byte>, ghost done: seq<byte>)
    returns (ipos: nat)
    requires dest != uv && first < 2 && c.WriteBase() >= 0 && 0 <= i * c.pitch
    requires c.w > 0 ==> c.WriteBase() + i * c.pitch + c.w <= uv.Length
    requires |before| == dest.Length && ipos0 == |done| && ipos0 + (c.w + 1 - first) / 2 <= dest.Length
    requires Starts(before, dest[..], done)
    modifies dest
    ensures ipos == ipos0 + (c.w + 1 - first) / 2
    ensures Starts(before, dest[..], done + Line(uv[..], c.WriteBase() + first + i * c.pitch, 2, (c.w + 1 - first) / 2))
  {
    ipos := ipos0;
    var j := first;
    ghost var n := 0;
    ghost var start := c.WriteBase() + first + i * c.pitch;
    assert done + Line(uv[..], start, 2, 0) == done;
    while j < c.w
      invariant j == first + 2 * n && n <= (c.w + 1 - first) / 2 && ipos == ipos0 + n
      invariant Starts(before, dest[..], done + Line(uv[..], start, 2, n))
    {
      Copy(dest, ipos, uv, c.WriteBase() + i * c.pitch + j, 1, before, done + Line(uv[..], start, 2, n));
      LineMore(uv[..], start, 2, n);
      assert done + Line(uv[..], start, 2, n) + Line(uv[..], start + n * 2, 1, 1) ==
        done + Line(uv[..], start, 2, n + 1);
      ipos := ipos + 1;
      j := j + 2;
      n := n + 1;
    }
  }

  method CopyChroma(dest: array<byte>, ipos0: nat, uv: array<byte>, c: Crop, first: nat, ghost before: seq<byte>,
                    ghost done: seq<byte>)
    returns (ipos: nat)
    requires dest != uv && first < 2 && c.WriteBase() >= 0 && Spans(c.WriteBase(), c.pitch, c.w, c.h / 2, uv.Length)
    requires |before| == dest.Length && ipos0 == |done| && ipos0 + (c.h / 2) * ((c.w + 1 - first) / 2) <= dest.Length
    requires Starts(before, dest[..], done)
    modifies dest
    ensures ipos == ipos0 + (c.h / 2) * ((c.w + 1 - first) / 2)
    ensures Starts(before, dest[..],
                   done + Lines(uv[..], c.WriteBase() + first, c.pitch, 2, (c.w + 1 - first) / 2, c.h / 2))
  {
    ipos := ipos0;
    ghost var n := (c.w + 1 - first) / 2;
    ghost var rows := Lines(uv[..], c.WriteBase() + first, c.pitch, 2, n, 0);
    assert done + rows == done;
    for i := 0 to c.h / 2
      invariant rows == Lines(uv[..], c.WriteBase() + first, c.pitch, 2, n, i) && ipos == ipos0 + i * n == |done + rows|
      invariant Starts(before, dest[..], done + rows)
    {
      RowFits(c.WriteBase(), c.pitch, c.w, c.h / 2, i, uv.Length);
      MulStrict(i, c.h / 2, if n == 0 then 1 else n);
      Distribute(i, 1, n);
      ipos := CopyChromaRow(dest, ipos, uv, c, i, first, before, done + rows);
      ghost var line := Line(uv[..], c.WriteBase() + first + i * c.pitch, 2, n);
      assert done + rows + line == done + (rows + line);
      rows := rows + line;
    }
  }

  /** The NV12 branch of `WriteRawFrameToMemory`. */
  method WriteRawFrameToMemory(s: Surface, dest: array<byte>)
    requires s.info.WriteFits(s.y.Length, s.uv.Length) && dest != s.y && dest != s.uv
    requires s.info.h * s.info.w + (s.info.h / 2) * ((s.info.w + 1) / 2) + (s.info.h / 2) * (s.info.w / 2)
          <= dest.Length
    modifies dest
    ensures Starts(old(dest[..]), dest[..], Written(s.y[..], s.uv[..], s.info))
  {
    var c := s.info;
    ghost var before := dest[..];
    SizesNonNegative(c);
    MulMonotone(0, c.h / 2, (c.w + 1) / 2);
    CopyLuma(dest, s.y, c, before);
    ghost var luma := Lines(s.y[..], c.YBase(), c.pitch, 1, c.w, c.h);
    LinesLength(s.y[..], c.YBase(), c.pitch, 1, c.w, c.h);
    var ipos := c.h * c.w;
    ipos := CopyChroma(dest, ipos, s.uv, c, 0, before, luma);
    LinesLength(s.uv[..], c.WriteBase(), c.pitch, 2, (c.w + 1) / 2, c.h / 2);
    ipos := CopyChroma(dest, ipos, s.uv, c, 1, before,
                       luma + Lines(s.uv[..], c.WriteBase(), c.pitch, 2, (c.w + 1) / 2, c.h / 2));
  }

  // ---------------------------------------------------------------- round trip

  /** `n` bytes of the stream from `pos` on. */
  function Slice(src: seq<byte>, pos: int, n: nat): seq<byte> {
    seq<byte>(n, k => Byte(src, pos + k))
  }

  lemma SliceSplit(src: seq<byte>, pos: int, m: nat, n: nat)
    ensures Slice(src, pos, m + n) == Slice(src, pos, m) + Slice(src, pos + m, n)
  {}

  lemma {:induction false} PlaneWritten(a: seq<byte>, base: int, pitch: nat, step: nat, w: nat, h: nat, src: seq<byte>,
                                        pos: nat)
    requires PlaneHolds(a, base, pitch, step, w, h, src, pos)
    ensures h * w >= 0 && Lines(a, base, pitch, step, w, h) == Slice(src, pos, h * w)
  {
    if h > 0 {
      PlaneWritten(a, base, pitch, step, w, h - 1, src, pos);
      var i, done := h - 1, (h - 1) * w;
      Distribute(i, 1, w);
      SliceSplit(src, pos, done, w);
      LineWritten(a, base, pitch, step, w, h, i, src, pos, base + i * pitch, pos + done);
    }
  }

  /** One row of it. */
  lemma LineWritten(a: seq<byte>, base: int, pitch: nat, step: nat, w: nat, h: nat, i: int, src: seq<byte>, pos: nat,
                    start: int, at: int)
    requires PlaneHolds(a, base, pitch, step, w, h, src, pos) && 0 <= i < h
    requires start == base + i * pitch && at == pos + i * w
    ensures Line(a, start, step, w) == Slice(src, at, w)
  {
    forall j | 0 <= j < w
      ensures Byte(a, start + j * step) == Byte(src, at + j)
    {
      assert Has(a, Cell(base, pitch, step, i, j), Byte(src, pos + i * w + j));
    }
  }

  /** The chroma part of a loaded frame, written back. */
  lemma ChromaBack(uv: seq<byte>, c: Crop, src: seq<byte>, pos: nat)
    requires c.w % 2 == 0 && c.y % 2 == 0 && c.ChromaSize() >= 0
    requires PlaneHolds(uv, c.LoadBase(), c.pitch, 2, c.w / 2, c.h / 2, src, pos)
    requires PlaneHolds(uv, c.LoadBase() + 1, c.pitch, 2, c.w / 2, c.h / 2, src, pos + c.ChromaSize())
    ensures Lines(uv, c.WriteBase(), c.pitch, 2, (c.w + 1) / 2, c.h / 2) +
      Lines(uv, c.WriteBase() + 1, c.pitch, 2, c.w / 2, c.h / 2)
         == Slice(src, pos, 2 * c.ChromaSize())
  {
    EvenBase(c);
    PlaneWritten(uv, c.LoadBase(), c.pitch, 2, c.w / 2, c.h / 2, src, pos);
    PlaneWritten(uv, c.LoadBase() + 1, c.pitch, 2, c.w / 2, c.h / 2, src, pos + c.ChromaSize());
    SliceSplit(src, pos, c.ChromaSize(), c.ChromaSize());
  }

  lemma SliceIsPart(src: seq<byte>, pos: nat, n: nat)
    ensures pos + n <= |src| ==> Slice(src, pos, n) == src[pos..pos + n]
  {
    if pos + n <= |src| {
      forall k | 0 <= k < n
        ensures Slice(src, pos, n)[k] == src[pos..pos + n][k]
      {
        assert Byte(src, pos + k) == src[pos + k];
      }
      assert |src[pos..pos + n]| == n;
    }
  }

  /** A loaded frame is written back byte for byte. */
  lemma RoundTrip(y: seq<byte>, uv: seq<byte>, c: Crop, src: seq<byte>, pos: nat)
    requires FrameHolds(y, uv, c, src, pos) && (c.h < 2 || (c.w % 2 == 0 && c.y % 2 == 0))
    ensures c.FrameSize() >= 0
    ensures pos + c.FrameSize() <= |src| ==> Written(y, uv, c) == src[pos..pos + c.FrameSize()]
  {
    PlaneWritten(y, c.YBase(), c.pitch, 1, c.w, c.h, src, pos);
    SliceIsPart(src, pos, c.FrameSize());
    if c.h >= 2 {
      ChromaBack(uv, c, src, pos + c.LumaSize());
    } else {
      assert c.h / 2 == 0 && c.ChromaSize() == 0;
    }
    SliceSplit(src, pos, c.LumaSize(), 2 * c.ChromaSize());
  }

  lemma EvenBase(c: Crop)
    requires c.y % 2 == 0
    ensures c.WriteBase() == c.LoadBase()
  {
    var q := c.y / 2;
    assert c.y * c.pitch == 2 * (q * c.pitch);
  }

  /** The planes `y0`, `uv0` become `y`, `uv` when exactly the frame `src` is to come. */
  ghost predicate Loads(c: Crop, y0: seq<byte>, uv0: seq<byte>, y: seq<byte>, uv: seq<byte>, src: seq<byte>,
                        sts: Status) {
    && c.LoadFits(|y0|, |uv0|) && c.WriteFits(|y0|, |uv0|)
    && |src| == c.FrameSize() && LoadOutcome(c, y0, uv0, y, uv, src, 0, sts)
  }

  /** Every frame is loaded through this window without complaint, and comes back. */
  ghost predicate RoundTrips(c: Crop) {
    forall y0: seq<byte>, uv0: seq<byte>, y: seq<byte>, uv: seq<byte>, src: seq<byte>, sts: Status ::
      Loads(c, y0, uv0, y, uv, src, sts) ==> sts == MFX_ERR_NONE && Written(y, uv, c) == src
  }

  /** The window of a black surface after loading an all-ones stream. */
  function Ones(n: nat): seq<byte> {
    seq<byte>(n, _ => 1)
  }

  function Zeros(n: nat): seq<byte> {
    seq<byte>(n, _ => 0)
  }

  ghost function LumaMask(c: Crop, n: nat): (m: seq<byte>) {
    seq<byte>(n, k => if InPlane(c.YBase(), c.pitch, 1, c.w, c.h, k) then 1 else 0)
  }

  ghost function ChromaMask(c: Crop, n: nat): (m: seq<byte>) {
    seq<byte>(n, k => if InChroma(c, k) then 1 else 0)
  }

  lemma MaskHolds(a: seq<byte>, base: int, pitch: nat, step: nat, w: nat, h: nat, size: nat, src: seq<byte>, pos: nat)
    requires step > 0 && base >= 0 && (w > 0 && h > 0 ==> base + (h - 1) * pitch + (w - 1) * step < |a|)
    requires forall k :: 0 <= k < |a| && InPlane(base, pitch, step, w, h, k) ==> a[k] == 1
    requires src == Ones(size) && pos + h * w <= size
    ensures PlaneHolds(a, base, pitch, step, w, h, src, pos)
  {
    forall i, j | 0 <= i < h && 0 <= j < w
      ensures Has(a, Cell(base, pitch, step, i, j), Byte(src, pos + i * w + j))
    {
      MulMonotone(j, w - 1, step);
      MulMonotone(0, j, step);
      MulMonotone(i, h - 1, pitch);
      MulMonotone(0, i, pitch);
      assert InPlane(base, pitch, step, w, h, Cell(base, pitch, step, i, j));
      MulStrict(i, h, w);
      MulMonotone(0, i, w);
    }
  }

  /** Sizes of the smallest buffers that hold the window. */
  function LumaRoom(c: Crop): int {
    c.YBase() + (c.h - 1) * c.pitch + c.w
  }

  function ChromaRoom(c: Crop): int {
    if c.h < 2 then 0 else c.WriteBase() + (c.h / 2 - 1) * c.pitch + c.w
  }

  lemma Bases(c: Crop)
    ensures 0 <= c.LoadBase() && c.WriteBase() == c.LoadBase() + (if c.y % 2 == 0 then 0 else c.pitch / 2)
  {
    var q := c.y / 2;
    MulMonotone(0, q, c.pitch);
    if c.y % 2 == 0 {
      EvenBase(c);
    } else {
      Distribute(2 * q, 1, c.pitch);
      assert c.y * c.pitch == 2 * (q * c.pitch) + c.pitch;
    }
  }

  /** The window fits buffers without a byte to spare. */
  lemma TightFits(c: Crop)
    requires c.Positive() && c.pitch >= c.x + c.w
    ensures 0 <= LumaRoom(c) && 0 <= ChromaRoom(c)
    ensures c.LoadFits(LumaRoom(c), ChromaRoom(c)) && c.WriteFits(LumaRoom(c), ChromaRoom(c))
  {
    SizesNonNegative(c);
    Bases(c);
    MulMonotone(0, c.h - 1, c.pitch);
    if c.h >= 2 {
      MulMonotone(0, c.h / 2 - 1, c.pitch);
    }
  }

  /** Loading an all-ones stream into a black surface. */
  lemma OnesLoaded(c: Crop)
    requires c.Positive() && c.pitch >= c.x + c.w
    ensures 0 <= LumaRoom(c) && 0 <= ChromaRoom(c) && 0 <= c.FrameSize()
    ensures var y, uv := LumaMask(c, LumaRoom(c)), ChromaMask(c, ChromaRoom(c));
      OnlyWindow(Zeros(|y|), Zeros(|uv|), y, uv, c) && FrameHolds(y, uv, c, Ones(c.FrameSize()), 0)
  {
    SizesNonNegative(c);
    TightFits(c);
    Bases(c);
    var size, chroma := c.FrameSize(), ChromaMask(c, ChromaRoom(c));
    MaskHolds(LumaMask(c, LumaRoom(c)), c.YBase(), c.pitch, 1, c.w, c.h, size, Ones(size), 0);
    MaskHolds(chroma, c.LoadBase(), c.pitch, 2, c.w / 2, c.h / 2, size, Ones(size), c.LumaSize());
    MaskHolds(chroma, c.LoadBase() + 1, c.pitch, 2, c.w / 2, c.h / 2, size, Ones(size), c.LumaSize() + c.ChromaSize());
  }

  /** An odd width writes more bytes than were read. */
  lemma OddWidthGrows(y: seq<byte>, uv: seq<byte>, c: Crop)
    requires c.w % 2 == 1 && c.h >= 2
    ensures |Written(y, uv, c)| > c.FrameSize()
  {
    WrittenLength(y, uv, c);
    Distribute(c.w / 2, 1, c.h / 2);
  }

  lemma {:induction false} LinesLast(a: seq<byte>, base: int, pitch: int, step: int, n: nat, h: nat)
    requires n > 0 && h > 0
    ensures |Lines(a, base, pitch, step, n, h)| > 0
    ensures Lines(a, base, pitch, step, n, h)[|Lines(a, base, pitch, step, n, h)| - 1] ==
      Byte(a, base + (h - 1) * pitch + (n - 1) * step)
  {
    var line := Line(a, base + (h - 1) * pitch, step, n);
    assert Lines(a, base, pitch, step, n, h) == Lines(a, base, pitch, step, n, h - 1) + line;
    assert line[n - 1] == Byte(a, base + (h - 1) * pitch + (n - 1) * step);
  }

  /** With an odd vertical offset the writers look half a row further than the loader. */
  lemma OddOffsetMisses(c: Crop)
    requires c.Positive() && c.pitch >= c.x + c.w && c.w % 2 == 0 && c.y % 2 == 1 && c.h >= 2 && 0 <= ChromaRoom(c)
    ensures !InChroma(c, c.WriteBase() + 1 + (c.h / 2 - 1) * c.pitch + (c.w / 2 - 1) * 2)
  {
    Bases(c);
    var k := c.WriteBase() + 1 + (c.h / 2 - 1) * c.pitch + (c.w / 2 - 1) * 2;
    forall base, i, j | (base == c.LoadBase() || base == c.LoadBase() + 1) && 0 <= i < c.h / 2 && 0 <= j < c.w / 2
      ensures Cell(base, c.pitch, 2, i, j) < k
    {
      MulMonotone(i, c.h / 2 - 1, c.pitch);
    }
  }

  lemma OddOffsetFails(y: seq<byte>, c: Crop)
    requires c.Positive() && c.pitch >= c.x + c.w && c.w % 2 == 0 && c.y % 2 == 1 && c.h >= 2 && 0 <= ChromaRoom(c)
    requires 0 <= c.FrameSize()
    ensures Written(y, ChromaMask(c, ChromaRoom(c)), c) != Ones(c.FrameSize())
  {
    var uv := ChromaMask(c, ChromaRoom(c));
    var k := c.WriteBase() + 1 + (c.h / 2 - 1) * c.pitch + (c.w / 2 - 1) * 2;
    OddOffsetMisses(c);
    LastWritten(y, uv, c, k);
    MaskOutside(c, ChromaRoom(c), k);
  }

  lemma LastWritten(y: seq<byte>, uv: seq<byte>, c: Crop, k: int)
    requires c.w >= 2 && c.h >= 2 && k == c.WriteBase() + 1 + (c.h / 2 - 1) * c.pitch + (c.w / 2 - 1) * 2
    ensures var out := Written(y, uv, c); |out| > 0 && out[|out| - 1] == Byte(uv, k)
  {
    LinesLast(uv, c.WriteBase() + 1, c.pitch, 2, c.w / 2, c.h / 2);
  }

  lemma MaskOutside(c: Crop, n: nat, k: int)
    requires !InChroma(c, k)
    ensures Byte(ChromaMask(c, n), k) == 0
  {}

  /** The round trip holds for every frame exactly when the loader takes the width, and there is no chroma row or the
      width and the vertical offset are even. */
  lemma RoundTripCondition(c: Crop)
    requires c.Positive() && c.pitch >= c.x + c.w
    ensures RoundTrips(c) <==> c.w / 2 <= MAX_CHROMA && (c.h < 2 || (c.w % 2 == 0 && c.y % 2 == 0))
  {
    SizesNonNegative(c);
    if c.w / 2 > MAX_CHROMA {
      WideRefused(c);
    } else if c.h < 2 || (c.w % 2 == 0 && c.y % 2 == 0) {
      forall y0: seq<byte>, uv0: seq<byte>, y: seq<byte>, uv: seq<byte>, src: seq<byte>, sts: Status |
        Loads(c, y0, uv0, y, uv, src, sts)
        ensures sts == MFX_ERR_NONE && Written(y, uv, c) == src
      {
        CompleteFrame(c, y0, uv0, y, uv, src, 0);
        RoundTrip(y, uv, c, src, 0);
      }
    } else {
      UnevenFails(c);
    }
  }

  /** A window wider than the loader's line buffer allows is refused, whatever the stream. */
  lemma WideRefused(c: Crop)
    requires c.Positive() && c.pitch >= c.x + c.w && c.w / 2 > MAX_CHROMA
    ensures forall left :: LoadStatus(c, left) != MFX_ERR_NONE
    ensures !RoundTrips(c)
  {
    SizesNonNegative(c);
    TightFits(c);
    var y, uv := Zeros(LumaRoom(c)), Zeros(ChromaRoom(c));
    Refuted(c, y, uv, y, uv, Ones(c.FrameSize()), MFX_ERR_UNSUPPORTED);
  }

  lemma UnevenFails(c: Crop)
    requires c.Positive() && c.pitch >= c.x + c.w && c.w / 2 <= MAX_CHROMA
    requires c.h >= 2 && (c.w % 2 == 1 || c.y % 2 == 1)
    ensures !RoundTrips(c)
  {
    SizesNonNegative(c);
    OnesLoaded(c);
    TightFits(c);
    var y, uv := LumaMask(c, LumaRoom(c)), ChromaMask(c, ChromaRoom(c));
    if c.w % 2 == 1 {
      OddWidthGrows(y, uv, c);
    } else {
      OddOffsetFails(y, c);
    }
    assert LastRows(c, c.FrameSize()) == c.h / 2;
    Refuted(c, Zeros(|y|), Zeros(|uv|), y, uv, Ones(c.FrameSize()), MFX_ERR_NONE);
  }

  lemma Refuted(c: Crop, y0: seq<byte>, uv0: seq<byte>, y: seq<byte>, uv: seq<byte>, src: seq<byte>, sts: Status)
    requires Loads(c, y0, uv0, y, uv, src, sts)
    requires sts != MFX_ERR_NONE || Written(y, uv, c) != src
    ensures !RoundTrips(c)
  {}

  /** Five thousand columns, everything even: refused. */
  lemma FiveThousandRefused()
    ensures Crop(0, 0, 5000, 2, 5000).Positive() && !RoundTrips(Crop(0, 0, 5000, 2, 5000))
  {
    WideRefused(Crop(0, 0, 5000, 2, 5000));
  }

  // ---------------------------------------------------------------- where every byte is

  /**
   Pixel (`i`, `j`) of a loaded frame is in the luminance plane at row `c.y + i` and column `c.x + j`, and sample
   (`i`, `j`) of both chroma planes in row `c.y / 2 + i`, the second one behind the first.
   */
  lemma LoadedPixel(y: seq<byte>, uv: seq<byte>, c: Crop, src: seq<byte>, pos: nat, i: nat, j: nat)
    requires FrameHolds(y, uv, c, src, pos)
    ensures i < c.h && j < c.w ==> Has(y, (c.y + i) * c.pitch + c.x + j, Byte(src, pos + i * c.w + j))
    ensures i < c.h / 2 && j < c.w / 2 ==>
      && Has(uv, (c.y / 2 + i) * c.pitch + c.x + 2 * j, Byte(src, pos + c.h * c.w + i * (c.w / 2) + j))
      && Has(uv, (c.y / 2 + i) * c.pitch + c.x + 2 * j + 1,
             Byte(src, pos + c.h * c.w + (c.h / 2) * (c.w / 2) + i * (c.w / 2) + j))
  {
    Distribute(c.y, i, c.pitch);
    Distribute(c.y / 2, i, c.pitch);
    if i < c.h && j < c.w {
      assert Has(y, Cell(c.YBase(), c.pitch, 1, i, j), Byte(src, pos + i * c.w + j));
    }
    if i < c.h / 2 && j < c.w / 2 {
      SampleAt(uv, c.LoadBase(), c.pitch, c.w / 2, c.h / 2, src, pos + c.LumaSize(), i, j);
      SampleAt(uv, c.LoadBase() + 1, c.pitch, c.w / 2, c.h / 2, src, pos + c.LumaSize() + c.ChromaSize(), i, j);
    }
  }

  lemma SampleAt(uv: seq<byte>, base: int, pitch: nat, w: nat, h: nat, src: seq<byte>, pos: nat, i: nat, j: nat)
    requires PlaneHolds(uv, base, pitch, 2, w, h, src, pos) && i < h && j < w
    ensures Has(uv, base + i * pitch + 2 * j, Byte(src, pos + i * w + j))
  {
    assert Has(uv, Cell(base, pitch, 2, i, j), Byte(src, pos + i * w + j));
  }

  /** Byte `j` of line `i`. */
  lemma {:induction false} LinesAt(a: seq<byte>, base: int, pitch: int, step: int, n: nat, h: nat, i: nat, j: nat)
    requires i < h && j < n
    ensures 0 <= i * n + j < |Lines(a, base, pitch, step, n, h)|
    ensures Lines(a, base, pitch, step, n, h)[i * n + j] == Byte(a, base + i * pitch + j * step)
  {
    LinesLength(a, base, pitch, step, n, h);
    LinesLength(a, base, pitch, step, n, h - 1);
    MulStrict(i, h, n);
    MulMonotone(0, i, n);
    if i < h - 1 {
      LinesAt(a, base, pitch, step, n, h - 1, i, j);
    }
  }

  /**
   The written frame: pixel (`i`, `j`) of the window comes from row `c.y + i` and column `c.x + j`; then every even and
   every odd byte of the chroma rows, which begin `c.y` half rows and `c.x` bytes into their plane.
   */
  lemma WrittenPixel(y: seq<byte>, uv: seq<byte>, c: Crop, i: nat, j: nat)
    requires i < c.h && j < c.w
    ensures 0 <= i * c.w + j < |Written(y, uv, c)|
    ensures Written(y, uv, c)[i * c.w + j] == Byte(y, (c.y + i) * c.pitch + c.x + j)
  {
    Distribute(c.y, i, c.pitch);
    LinesAt(y, c.YBase(), c.pitch, 1, c.w, c.h, i, j);
  }

  lemma WrittenSample(y: seq<byte>, uv: seq<byte>, c: Crop, i: nat, j: nat)
    requires i < c.h / 2 && j < c.w
    ensures var all, u, v := Written(y, uv, c), (c.w + 1) / 2, c.w / 2;
      var at := c.h * c.w + (if j % 2 == 0 then i * u + j / 2 else (c.h / 2) * u + i * v + j / 2);
      && 0 <= at < |all| && all[at] == Byte(uv, c.y * c.pitch / 2 + c.x + i * c.pitch + j)
  {
    var u, v := (c.w + 1) / 2, c.w / 2;
    LinesLength(y, c.YBase(), c.pitch, 1, c.w, c.h);
    LinesLength(uv, c.WriteBase(), c.pitch, 2, u, c.h / 2);
    MulMonotone(0, c.h, c.w);
    MulMonotone(0, c.h / 2, u);
    if j % 2 == 0 {
      LinesAt(uv, c.WriteBase(), c.pitch, 2, u, c.h / 2, i, j / 2);
    } else {
      LinesAt(uv, c.WriteBase() + 1, c.pitch, 2, v, c.h / 2, i, j / 2);
    }
  }
}
