/** The batching detector: images fill one request's blob while the other request may still be running. */
module BatchDetector {
  import opened Arithmetic

  datatype Mat = Mat(cols: nat, rows: nat, pixels: seq<int>)

  datatype ImageInfo = ImageInfo(orgimg: Mat, inputid: int, frameno: int, channelid: int)

  datatype Box = Box(classid: int, confidence: real, left: int, top: int, right: int, bottom: int)

  datatype DetectorResult = DetectorResult(info: ImageInfo, boxs: seq<Box>)

  datatype Status = INSERTIMG_NULL | INSERTIMG_INSERTED | INSERTIMG_PROCESSED | INSERTIMG_GET

  /** One proposal of the network's output. */
  datatype Row = Row(imgid: real, classid: real, confidence: real, l: real, t: real, r: real, b: real)

  // ---------------------------------------------------------------- reading the output

  /** A conversion to `int`, towards zero. */
  function Trunc(x: real): int {
    if x >= 0.0 then x.Floor else -((-x).Floor)
  }

  /** The proposals end at the first one without an image or without confidence. */
  predicate Stops(row: Row, numBatch: nat) {
    Trunc(row.imgid) < 0 || row.confidence == 0.0 || Trunc(row.imgid) > numBatch
  }

  /** `k` is `x` without its fraction. */
  predicate Whole(x: real, k: int) {
    if x >= 0.0 then k as real <= x < k as real + 1.0 else k as real - 1.0 < x <= k as real
  }

  lemma TruncIsWhole(x: real, k: int)
    ensures Whole(x, k) <==> k == Trunc(x)
  {}

  /** Pixel `k` is the one a side at this fraction of `size` pixels begins with: none before the image. */
  predicate Begins(fraction: real, size: nat, k: int) {
    BeginsAt(fraction * size as real, k)
  }

  predicate BeginsAt(x: real, k: int) {
    if x < 0.0 then k == 0 else k as real <= x < k as real + 1.0
  }

  /** Pixel `k` is the one it ends with: the last one if the side is behind the image. */
  predicate Ends(fraction: real, size: nat, k: int) {
    EndsAt(fraction * size as real, size, k)
  }

  predicate EndsAt(x: real, size: nat, k: int) {
    if x >= size as real || (size == 0 && x > -1.0) then k == size - 1 else Whole(x, k)
  }

  /** A box is the proposal in pixels of the image: horizontal fields along columns, vertical ones along rows. */
  predicate InPixels(b: Box, row: Row, img: Mat) {
    && Begins(row.l, img.cols, b.left) && Begins(row.t, img.rows, b.top)
    && Ends(row.r, img.cols, b.right) && Ends(row.b, img.rows, b.bottom)
    && Whole(row.classid, b.classid) && b.confidence == row.confidence
  }

  /** The left or upper side. */
  function First(fraction: real, size: nat): (k: int)
    ensures Begins(fraction, size, k)
  {
    Low(Trunc(fraction * size as real))
  }

  function Low(k: int): int {
    if k < 0 then 0 else k
  }

  /** The right or lower side. */
  function Last(fraction: real, size: nat): (k: int)
    ensures Ends(fraction, size, k)
  {
    High(fraction * size as real, size)
  }

  function High(x: real, size: nat): (k: int)
    ensures EndsAt(x, size, k)
  {
    if Trunc(x) >= size then size - 1 else Trunc(x)
  }

  /** A proposal in pixels of an image, clipped to it. */
  function BoxOf(row: Row, img: Mat): (b: Box)
    ensures InPixels(b, row, img)
  {
    Box(Trunc(row.classid), row.confidence, First(row.l, img.cols), First(row.t, img.rows),
        Last(row.r, img.cols), Last(row.b, img.rows))
  }

  /** Only one box is. */
  lemma PixelsUnique(a: Box, b: Box, row: Row, img: Mat)
    requires InPixels(a, row, img) && InPixels(b, row, img)
    ensures a == b
  {}

  /** How many proposals are read. */
  function Proposals(rows: seq<Row>, numBatch: nat): (n: nat)
    ensures n <= |rows|
  {
    if |rows| == 0 || Stops(rows[0], numBatch) then 0 else 1 + Proposals(rows[1..], numBatch)
  }

  /** The boxes of image `i` among the first `n` proposals, in their order. */
  function BoxesOf(rows: seq<Row>, n: nat, i: nat, img: Mat): seq<Box>
    requires n <= |rows|
  {
    if n == 0 then [] else
      BoxesOf(rows, n - 1, i, img) + if Trunc(rows[n - 1].imgid) == i then [BoxOf(rows[n - 1], img)] else []
  }

  /** The images of a batch. */
  function Images(batch: seq<ImageInfo>): seq<Mat> {
    seq(|batch|, i requires 0 <= i < |batch| => batch[i].orgimg)
  }

  /** What a batch must deliver: record `i` of the batch with the boxes the network found in image `i`. */
  function ResultsOf(batch: seq<ImageInfo>, rows: seq<Row>): seq<DetectorResult> {
    seq(|batch|, i requires 0 <= i < |batch| =>
      DetectorResult(batch[i], BoxesOf(rows, Proposals(rows, |batch|), i, batch[i].orgimg)))
  }

  /** How many of the first `n` proposals are for image `i`. */
  function Earlier(rows: seq<Row>, n: nat, i: nat): nat
    requires n <= |rows|
  {
    if n == 0 then 0 else Earlier(rows, n - 1, i) + if Whole(rows[n - 1].imgid, i) then 1 else 0
  }

  lemma {:induction false} BoxAt(rows: seq<Row>, n: nat, i: nat, img: Mat, k: nat)
    requires k < n <= |rows| && Whole(rows[k].imgid, i)
    ensures |BoxesOf(rows, k, i, img)| == Earlier(rows, k, i) < |BoxesOf(rows, n, i, img)|
    ensures BoxesOf(rows, n, i, img)[Earlier(rows, k, i)] == BoxOf(rows[k], img)
  {
    BoxesCounted(rows, k, i, img);
    TruncIsWhole(rows[n - 1].imgid, i);
    if k < n - 1 {
      BoxAt(rows, n - 1, i, img, k);
    }
  }

  lemma {:induction false} BoxesCounted(rows: seq<Row>, n: nat, i: nat, img: Mat)
    requires n <= |rows|
    ensures |BoxesOf(rows, n, i, img)| == Earlier(rows, n, i)
  {
    if n > 0 {
      BoxesCounted(rows, n - 1, i, img);
      TruncIsWhole(rows[n - 1].imgid, i);
    }
  }

  /** Reading stops exactly at the first row with a negative image number, one above the batch, or no confidence. */
  lemma {:induction false} ProposalsEnd(rows: seq<Row>, n: nat, k: nat)
    requires k < |rows|
    ensures k < Proposals(rows, n) ==> -1.0 < rows[k].imgid < n as real + 1.0 && rows[k].confidence != 0.0
    ensures k == Proposals(rows, n) ==> !(-1.0 < rows[k].imgid < n as real + 1.0 && rows[k].confidence != 0.0)
  {
    if k > 0 && !Stops(rows[0], n) {
      ProposalsEnd(rows[1..], n, k - 1);
    }
  }

  /**
   A proposal that is read for image `i` is in record `i`, behind the boxes of the earlier ones, with its sides in
   pixels of that image; and a record holds nothing else.
   */
  lemma RecordedBox(infos: seq<ImageInfo>, rows: seq<Row>, i: nat, k: nat)
    requires i < |infos| && k < Proposals(rows, |infos|) && Whole(rows[k].imgid, i)
    ensures var r := ResultsOf(infos, rows)[i];
      && r.info == infos[i] && |r.boxs| == Earlier(rows, Proposals(rows, |infos|), i)
      && Earlier(rows, k, i) < |r.boxs|
      && InPixels(r.boxs[Earlier(rows, k, i)], rows[k], infos[i].orgimg)
  {
    BoxAt(rows, Proposals(rows, |infos|), i, infos[i].orgimg, k);
    BoxesCounted(rows, Proposals(rows, |infos|), i, infos[i].orgimg);
  }

  /** For a proposal inside the image the sides are its coordinates times the image's size, without their fractions. */
  lemma InsideSides(b: Box, row: Row, img: Mat)
    requires InPixels(b, row, img) && img.cols > 0 && img.rows > 0
    requires 0.0 <= row.l < 1.0 && 0.0 <= row.t < 1.0 && 0.0 <= row.r < 1.0 && 0.0 <= row.b < 1.0
    ensures InsideSide(row.l, img.cols, b.left) && InsideSide(row.t, img.rows, b.top)
    ensures InsideSide(row.r, img.cols, b.right) && InsideSide(row.b, img.rows, b.bottom)
  {
    SideInside(row.l, img.cols, b.left);
    SideInside(row.t, img.rows, b.top);
    SideInside(row.r, img.cols, b.right);
    SideInside(row.b, img.rows, b.bottom);
  }

  predicate InsideSide(fraction: real, size: nat, k: int) {
    0 <= k < size && k as real <= fraction * size as real < k as real + 1.0
  }

  lemma SideInside(fraction: real, size: nat, k: int)
    requires 0.0 <= fraction < 1.0 && size > 0 && (Begins(fraction, size, k) || Ends(fraction, size, k))
    ensures InsideSide(fraction, size, k)
  {
    var x := fraction * size as real;
    assert 0.0 <= x < size as real;
  }

  /** A quarter, half and three quarters of a hundred by hundred image; a side at 1 is the last pixel. */
  lemma Quarters(img: Mat)
    requires img.cols == img.rows == 100
    ensures BoxOf(Row(0.0, 1.0, 0.9, 0.25, 0.5, 0.75, 1.0), img) == Box(1, 0.9, 25, 50, 75, 99)
  {
    PixelsUnique(BoxOf(Row(0.0, 1.0, 0.9, 0.25, 0.5, 0.75, 1.0), img), Box(1, 0.9, 25, 50, 75, 99),
                 Row(0.0, 1.0, 0.9, 0.25, 0.5, 0.75, 1.0), img);
  }

  /** None of the first `m` proposals carries the batch size as its image number. */
  ghost predicate NoneSlips(rows: seq<Row>, m: nat, numBatch: nat)
    requires m <= |rows|
  {
    forall k: nat :: k < m ==> Trunc(rows[k].imgid) != numBatch
  }

  /** No proposal that is read does. */
  ghost predicate NamesBatch(rows: seq<Row>, numBatch: nat) {
    NoneSlips(rows, Proposals(rows, numBatch), numBatch)
  }

  /** Boxes in record `i`, once `m` proposals are read. */
  ghost function BoxesIn(infos: seq<ImageInfo>, rows: seq<Row>, m: nat, i: nat): nat
    requires m <= |rows| && i < |infos|
  {
    |BoxesOf(rows, m, i, infos[i].orgimg)|
  }

  /** Boxes in the first `j` records. */
  ghost function Boxes(infos: seq<ImageInfo>, rows: seq<Row>, m: nat, j: nat): nat
    requires m <= |rows| && j <= |infos|
  {
    if j == 0 then 0 else Boxes(infos, rows, m, j - 1) + BoxesIn(infos, rows, m, j - 1)
  }

  lemma {:induction false} BoxesMore(infos: seq<ImageInfo>, rows: seq<Row>, m: nat, j: nat)
    requires m < |rows| && j <= |infos|
    ensures Boxes(infos, rows, m + 1, j)
         == Boxes(infos, rows, m, j) + if 0 <= Trunc(rows[m].imgid) < j then 1 else 0
  {
    if j > 0 {
      BoxesMore(infos, rows, m, j - 1);
    }
  }

  lemma {:induction false} NoBoxes(infos: seq<ImageInfo>, rows: seq<Row>, j: nat)
    requires j <= |infos|
    ensures Boxes(infos, rows, 0, j) == 0
  {
    if j > 0 {
      NoBoxes(infos, rows, j - 1);
    }
  }

  lemma SlipsMore(rows: seq<Row>, m: nat, n: nat)
    requires m < |rows|
    ensures NoneSlips(rows, m + 1, n) <==> NoneSlips(rows, m, n) && Trunc(rows[m].imgid) != n
  {}

  /** Of the first `m` proposals none is lost exactly when none names the batch size. */
  lemma {:induction false} BoxesUpTo(infos: seq<ImageInfo>, rows: seq<Row>, m: nat)
    requires m <= Proposals(rows, |infos|)
    ensures Boxes(infos, rows, m, |infos|) <= m
    ensures Boxes(infos, rows, m, |infos|) == m <==> NoneSlips(rows, m, |infos|)
  {
    if m == 0 {
      NoBoxes(infos, rows, |infos|);
    } else {
      var p := m - 1;
      BoxesUpTo(infos, rows, p);
      BoxesMore(infos, rows, p, |infos|);
      ReadRow(rows, |infos|, p);
      SlipsMore(rows, p, |infos|);
      var was, now := Boxes(infos, rows, p, |infos|), Boxes(infos, rows, m, |infos|);
      assert was <= p && now <= was + 1;
    }
  }

  /** The records hold as many boxes as proposals were read exactly if no such proposal names the batch size. */
  lemma BoxesLand(infos: seq<ImageInfo>, rows: seq<Row>)
    ensures var n := Proposals(rows, |infos|);
      Boxes(infos, rows, n, |infos|) == n <==> NamesBatch(rows, |infos|)
  {
    BoxesUpTo(infos, rows, Proposals(rows, |infos|));
  }

  lemma {:induction false} SomeBox(infos: seq<ImageInfo>, rows: seq<Row>, m: nat, j: nat, i: nat)
    requires m <= |rows| && i < j <= |infos| && BoxesIn(infos, rows, m, i) > 0
    ensures Boxes(infos, rows, m, j) > 0
  {
    if i < j - 1 {
      SomeBox(infos, rows, m, j - 1, i);
    }
  }

  lemma {:induction false} BoxedRecord(infos: seq<ImageInfo>, rows: seq<Row>, m: nat, j: nat) returns (i: nat)
    requires m <= |rows| && j <= |infos| && Boxes(infos, rows, m, j) > 0
    ensures i < j && BoxesIn(infos, rows, m, i) > 0
  {
    if BoxesIn(infos, rows, m, j - 1) > 0 {
      i := j - 1;
    } else {
      i := BoxedRecord(infos, rows, m, j - 1);
    }
  }

  ghost predicate HasBox(objects: seq<DetectorResult>) {
    exists i :: 0 <= i < |objects| && objects[i].boxs != []
  }

  /** What the status says of a delivery: without a stray proposal, some record has a box exactly if any was read. */
  lemma FoundMeansBox(infos: seq<ImageInfo>, rows: seq<Row>)
    ensures HasBox(ResultsOf(infos, rows)) ==> Proposals(rows, |infos|) > 0
    ensures NamesBatch(rows, |infos|) ==> (HasBox(ResultsOf(infos, rows)) <==> Proposals(rows, |infos|) > 0)
  {
    var n, objects := Proposals(rows, |infos|), ResultsOf(infos, rows);
    BoxesLand(infos, rows);
    BoxesUpTo(infos, rows, n);
    if HasBox(objects) {
      var i :| 0 <= i < |objects| && objects[i].boxs != [];
      SomeBox(infos, rows, n, |infos|, i);
    }
    if NamesBatch(rows, |infos|) && n > 0 {
      var i := BoxedRecord(infos, rows, n, |infos|);
      assert objects[i].boxs != [];
    }
  }

  /** The guard lets the batch size itself through: a proposal is read, yet neither of two records has a box. */
  lemma BatchSizeSlips(a: ImageInfo, b: ImageInfo)
    ensures var rows := [Row(2.0, 1.0, 0.5, 0.0, 0.0, 1.0, 1.0)];
      && Proposals(rows, 2) == 1 && Trunc(rows[0].imgid) == 2
      && !NamesBatch(rows, 2) && !HasBox(ResultsOf([a, b], rows))
  {
    var rows := [Row(2.0, 1.0, 0.5, 0.0, 0.0, 1.0, 1.0)];
    assert Trunc(rows[0].imgid) == 2 && !Stops(rows[0], 2);
    assert Proposals(rows[1..], 2) == 0;
    assert forall i: nat, img :: i < 2 ==> BoxesOf(rows, 1, i, img) == BoxesOf(rows, 0, i, img);
  }

  lemma {:induction false} ReadRow(rows: seq<Row>, numBatch: nat, k: nat)
    requires k < |rows|
    ensures k < Proposals(rows, numBatch) ==> !Stops(rows[k], numBatch)
    ensures k == Proposals(rows, numBatch) ==> Stops(rows[k], numBatch)
  {
    if k > 0 && !Stops(rows[0], numBatch) {
      ReadRow(rows[1..], numBatch, k - 1);
    }
  }

  /**
   Collects the boxes into the records they belong to. A box for image `n` of `n` is stored behind the records, so
   none of them gets it.
   */
  method ReadBoxes(rows: seq<Row>, infos: seq<ImageInfo>) returns (objects: seq<DetectorResult>, found: bool)
    ensures objects == ResultsOf(infos, rows)
    ensures found <==> Proposals(rows, |infos|) > 0
  {
    var n := |infos|;
    objects := seq(n, i requires 0 <= i < n => DetectorResult(infos[i], []));
    found := false;
    var k := 0;
    while k < |rows|
      invariant k <= Proposals(rows, n) && |objects| == n
      invariant forall i :: 0 <= i < n ==> objects[i] == DetectorResult(infos[i], BoxesOf(rows, k, i, infos[i].orgimg))
      invariant found <==> k > 0
    {
      ReadRow(rows, n, k);
      var imgid := Trunc(rows[k].imgid);
      if imgid < 0 || rows[k].confidence == 0.0 || imgid > n {
        break;
      }
      if imgid < n {
        var box := BoxOf(rows[k], infos[imgid].orgimg);
        objects := objects[imgid := objects[imgid].(boxs := objects[imgid].boxs + [box])];
      }
      found := true;
      k := k + 1;
    }
    if k < |rows| {
      ReadRow(rows, n, k);
    }
    assert k == Proposals(rows, n);
    assert objects == ResultsOf(infos, rows);
  }

  // ---------------------------------------------------------------- inference requests

  /** The state of a request: its input blob, and the blob it was last started on. */
  datatype View = View(blob: seq<Mat>, started: bool, submitted: seq<Mat>) {
    function Start(): View {
      View(blob, true, blob)
    }

    /** It was started on exactly these images, and still holds them. */
    predicate Carries(images: seq<Mat>) {
      started && submitted == blob == images
    }
  }

  /** An inference request. */
  class Request {
    var blob: seq<Mat>
    var started: bool
    ghost var submitted: seq<Mat>

    ghost function Of(): View
      reads this
    {
      View(blob, started, submitted)
    }

    constructor (n: nat, blank: Mat)
      ensures |blob| == n && !started
    {
      blob := seq(n, _ => blank);
      started := false;
    }

    method StartAsync()
      modifies this
      ensures Of() == old(Of()).Start()
    {
      started := true;
      submitted := blob;
    }

    /** Ready only once started; the output belongs to the blob only if nobody wrote to it meanwhile. */
    method Wait(infer: seq<Mat> -> seq<Row>) returns (ok: bool, rows: seq<Row>)
      requires started ==> submitted == blob
      ensures ok == started && (ok ==> rows == infer(submitted))
    {
      ok := started;
      rows := if ok then infer(blob) else [];
    }
  }

  // ---------------------------------------------------------------- the detector

  function Flatten(batches: seq<seq<ImageInfo>>): seq<ImageInfo> {
    if |batches| == 0 then [] else Flatten(batches[..|batches| - 1]) + batches[|batches| - 1]
  }

  lemma FlattenMore(batches: seq<seq<ImageInfo>>, full: seq<ImageInfo>)
    ensures Flatten(batches + [full]) == Flatten(batches) + full
  {
    assert (batches + [full])[..|batches|] == batches;
  }

  /** The results a batch must get. */
  type Answers = seq<ImageInfo> -> seq<DetectorResult>

  function Answer(infer: seq<Mat> -> seq<Row>): Answers {
    batch => ResultsOf(batch, infer(Images(batch)))
  }

  /** What happened so far: the full batches, the images of the one being filled, and the results handed out. */
  datatype Ledger = Ledger(batches: seq<seq<ImageInfo>>, partial: seq<ImageInfo>, delivered: seq<seq<DetectorResult>>) {
    /** Batches that were started but not delivered. */
    function InFlight(async: bool): nat {
      if async && |batches| > 0 then 1 else 0
    }

    /** The images whose results are still to come. */
    function Queue(async: bool): seq<ImageInfo> {
      (if InFlight(async) == 1 then batches[|batches| - 1] else []) + partial
    }

    /** Everything inserted so far, in order. */
    function Inserted(): seq<ImageInfo> {
      Flatten(batches) + partial
    }

    /** The queue holds the batch in flight, if any, and the batch being filled; in asynchronous mode one batch is
        still out. */
    ghost predicate Ok(queue: seq<ImageInfo>, n: nat, async: bool) {
      && |partial| <= n && queue == Queue(async)
      && (InFlight(async) == 1 ==> |batches[|batches| - 1]| == n)
      && |delivered| + InFlight(async) == |batches|
    }

    /** The `k`-th delivery belongs to the `k`-th batch. */
    ghost predicate Paired(answer: Answers) {
      |delivered| <= |batches| && forall k :: 0 <= k < |delivered| ==> delivered[k] == answer(batches[k])
    }

    function Append(info: ImageInfo): Ledger {
      this.(partial := partial + [info])
    }

    /** The batch whose results come out when the batch being filled is complete. */
    function Ready(async: bool): seq<ImageInfo> {
      if InFlight(async) == 1 then batches[|batches| - 1] else partial
    }

    predicate Comes(async: bool) {
      !async || |batches| > 0
    }

    function Complete(async: bool, answer: Answers): Ledger {
      Ledger(batches + [partial], [],
             if Comes(async) then delivered + [answer(Ready(async))] else delivered)
    }

    /** One more image; a batch that becomes full is completed at once. */
    function Accept(info: ImageInfo, n: nat, async: bool, answer: Answers): Ledger {
      var l := Append(info);
      if |l.partial| >= n then l.Complete(async, answer) else l
    }

    /** Whether that image brings out results. */
    predicate Yields(n: nat, async: bool) {
      |partial| + 1 >= n && Comes(async)
    }
  }

  lemma AppendOk(l: Ledger, queue: seq<ImageInfo>, n: nat, async: bool, info: ImageInfo)
    requires l.Ok(queue, n, async) && |l.partial| < n
    ensures l.Append(info).Ok(queue + [info], n, async)
  {}

  lemma ReadyAhead(l: Ledger, queue: seq<ImageInfo>, n: nat, async: bool)
    requires l.Ok(queue, n, async) && |l.partial| == n > 0
    ensures l.Comes(async) ==> n <= |queue| && queue[..n] == l.Ready(async) && |l.Ready(async)| == n
  {}

  lemma CompleteOk(l: Ledger, queue: seq<ImageInfo>, after: seq<ImageInfo>, m: Ledger, n: nat, async: bool,
                   answer: Answers)
    requires l.Ok(queue, n, async) && |l.partial| == n > 0 && m == l.Complete(async, answer)
    requires after == if l.Comes(async) then (if n <= |queue| then queue[n..] else []) else queue
    ensures m.Ok(after, n, async) && m.partial == []
  {
    ReadyAhead(l, queue, n, async);
    assert m.batches[|m.batches| - 1] == l.partial;
  }

  /** The request being filled holds the images so far; the one in flight still holds the batch it was started on. */
  ghost predicate Fit(curr: View, next: View, l: Ledger, index: nat, n: nat, async: bool) {
    && |curr.blob| == n && |next.blob| == n && index == |l.partial| <= n
    && (if async then next else curr).blob[..index] == Images(l.partial)
    && (async ==> (|l.batches| == 0 <==> !curr.started))
    && (l.InFlight(async) == 1 ==> curr.Carries(Images(l.batches[|l.batches| - 1])))
  }

  /** Starting the filled request makes the ready batch available, and after the swap everything fits again. */
  lemma CompleteFit(curr: View, next: View, l: Ledger, n: nat, async: bool, answer: Answers)
    requires Fit(curr, next, l, n, n, async)
    ensures var c, x := if async then curr else curr.Start(), if async then next.Start() else next;
      && (c.started <==> l.Comes(async))
      && (c.started ==> c.Carries(Images(l.Ready(async))))
      && Fit(if async then x else c, if async then c else x, l.Complete(async, answer), 0, n, async)
  {
    var filled := if async then next else curr;
    assert filled.blob[..n] == filled.blob;
    var m := l.Complete(async, answer);
    assert m.batches[|m.batches| - 1] == l.partial;
  }

  lemma AppendFit(curr: View, next: View, l: Ledger, n: nat, async: bool, info: ImageInfo)
    requires Fit(curr, next, l, |l.partial|, n, async) && |l.partial| < n
    ensures var i := |l.partial|;
      Fit(if async then curr else curr.(blob := curr.blob[i := info.orgimg]),
          if async then next.(blob := next.blob[i := info.orgimg]) else next,
          l.Append(info), i + 1, n, async)
  {}

  ghost predicate SamePair(a: Request, b: Request, c: Request, d: Request) {
    (a == c && b == d) || (a == d && b == c)
  }

  class Detector {
    var curr: Request
    var next: Request
    var target: Request
    var queue: seq<ImageInfo>
    var nbatch_index: nat
    var num_batch: nat
    var bisASync: bool
    var bLoad: bool
    const infer: seq<Mat> -> seq<Row>
    ghost var ledger: Ledger

    ghost predicate RequestsHold()
      reads this, curr, next
    {
      Fit(curr.Of(), next.Of(), ledger, nbatch_index, num_batch, bisASync)
    }

    ghost predicate Valid()
      reads this, curr, next
    {
      && nbatch_index < num_batch && |ledger.partial| == nbatch_index
      && ledger.Ok(queue, num_batch, bisASync)
      && RequestsHold() && curr != next && (nbatch_index > 0 ==> target == if bisASync then next else curr)
    }

    /** A loaded detector; asynchronous until told otherwise. */
    constructor (n: nat, infer: seq<Mat> -> seq<Row>, blank: Mat)
      requires n > 0
      ensures Valid() && bLoad && bisASync && num_batch == n && this.infer == infer
      ensures ledger == Ledger([], [], []) && fresh(curr) && fresh(next) && fresh(target)
    {
      curr := new Request(n, blank);
      next := new Request(n, blank);
      target := curr;
      queue := [];
      nbatch_index := 0;
      num_batch := n;
      bisASync := true;
      bLoad := true;
      this.infer := infer;
      ledger := Ledger([], [], []);
    }

    /**
     Forgets all images and sets the mode; the parameter is stored as the asynchronous flag, whatever its name.
     Requests and queue still belong together unless the detector becomes asynchronous with a started request left
     over: that one is waited for before it is started again, although its images are forgotten.
     */
    method SetMode(isSync: bool)
      modifies this`queue, this`nbatch_index, this`bisASync, this`ledger
      ensures queue == [] && nbatch_index == 0 && bisASync == isSync && ledger == Ledger([], [], [])
      ensures old(Valid()) ==> (Valid() <==> !isSync || !old(curr.started))
    {
      queue := [];
      nbatch_index := 0;
      bisASync := isSync;
      ledger := Ledger([], [], []);
    }

    /** Waits for the current request; if it was started, its images leave the queue with their results. */
    method Deliver(objects0: seq<DetectorResult>, ghost ready: seq<ImageInfo>)
      returns (status: Status, objects: seq<DetectorResult>)
      requires curr.started ==>
        |ready| == num_batch <= |queue| && queue[..num_batch] == ready && curr.Of().Carries(Images(ready))
      modifies this`queue
      ensures Reported(status, objects0, objects, infer, ready) && status != INSERTIMG_NULL
      ensures curr.started <==> status != INSERTIMG_INSERTED
      ensures queue == if curr.started then old(queue)[num_batch..] else old(queue)
    {
      status, objects := INSERTIMG_INSERTED, objects0;
      var ok, rows := curr.Wait(infer);
      if ok {
        var found;
        objects, found := ReadBoxes(rows, queue[..num_batch]);
        queue := queue[num_batch..];
        status := if found then INSERTIMG_GET else INSERTIMG_PROCESSED;
      }
    }

    /** Starts the request that was filled; the other one is not touched. */
    method StartFilled()
      requires curr != next
      modifies curr, next
      ensures curr.Of() == (if bisASync then old(curr.Of()) else old(curr.Of()).Start())
      ensures next.Of() == (if bisASync then old(next.Of()).Start() else old(next.Of()))
    {
      if bisASync {
        next.StartAsync();
      } else {
        curr.StartAsync();
      }
    }

    /** The batch just filled is started, and whichever batch is ready is delivered. */
    method CompleteBatch(objects0: seq<DetectorResult>) returns (status: Status, objects: seq<DetectorResult>)
      requires 0 < num_batch == nbatch_index == |ledger.partial|
      requires ledger.Ok(queue, num_batch, bisASync) && RequestsHold() && curr != next
      modifies this`queue, this`nbatch_index, this`ledger, this`curr, this`next, curr, next
      ensures Valid() && SamePair(curr, next, old(curr), old(next))
      ensures ledger == old(ledger).Complete(bisASync, Answer(infer))
      ensures Reported(status, objects0, objects, infer, old(ledger).Ready(bisASync)) && status != INSERTIMG_NULL
      ensures status != INSERTIMG_INSERTED <==> old(ledger).Comes(bisASync)
      ensures old(ledger).Comes(bisASync) ==> ledger.delivered == old(ledger).delivered + [objects]
    {
      ReadyAhead(ledger, queue, num_batch, bisASync);
      CompleteFit(curr.Of(), next.Of(), ledger, num_batch, bisASync, Answer(infer));
      ghost var was, waiting := ledger, queue;
      nbatch_index := 0;
      StartFilled();
      status, objects := Deliver(objects0, ledger.Ready(bisASync));
      ledger := ledger.Complete(bisASync, Answer(infer));
      CompleteOk(was, waiting, queue, ledger, num_batch, bisASync, Answer(infer));
      if bisASync {
        curr, next := next, curr;
      }
    }

    /** Queues one image and writes it to its slot of the request being filled. */
    method Append(info: ImageInfo)
      requires Valid() && target == if bisASync then next else curr
      modifies this`queue, this`ledger, this`nbatch_index, target
      ensures ledger == old(ledger).Append(info) && ledger.Ok(queue, num_batch, bisASync)
      ensures nbatch_index == old(nbatch_index) + 1 == |ledger.partial| && RequestsHold()
    {
      AppendOk(ledger, queue, num_batch, bisASync, info);
      AppendFit(curr.Of(), next.Of(), ledger, num_batch, bisASync, info);
      queue := queue + [info];
      target.blob := target.blob[nbatch_index := info.orgimg];
      ledger := ledger.Append(info);
      nbatch_index := nbatch_index + 1;
    }

    /** Takes in one usable image. */
    method Accept(objects0: seq<DetectorResult>, info: ImageInfo) returns (status: Status, objects: seq<DetectorResult>)
      requires Valid()
      modifies this`queue, this`nbatch_index, this`ledger, this`curr, this`next, this`target, curr, next
      ensures Valid() && SamePair(curr, next, old(curr), old(next))
      ensures ledger == old(ledger).Accept(info, num_batch, bisASync, Answer(infer))
      ensures Reported(status, objects0, objects, infer, old(ledger).Append(info).Ready(bisASync))
      ensures status != INSERTIMG_NULL
      ensures status != INSERTIMG_INSERTED <==> old(ledger).Yields(num_batch, bisASync)
      ensures old(ledger).Yields(num_batch, bisASync) ==> ledger.delivered == old(ledger).delivered + [objects]
    {
      if nbatch_index == 0 {
        target := if bisASync then next else curr;
      }
      Append(info);
      status, objects := INSERTIMG_INSERTED, objects0;
      if nbatch_index >= num_batch {
        status, objects := CompleteBatch(objects0);
      }
    }

    /** Takes in one image; when that fills a batch, the results that are ready come out. */
    method InsertImage(orgimg: Mat, objects0: seq<DetectorResult>, inputid: int, frameno: int, channelid: int)
      returns (status: Status, objects: seq<DetectorResult>)
      requires Valid()
      modifies this`queue, this`nbatch_index, this`ledger, this`curr, this`next, this`target, curr, next
      ensures Valid() && SamePair(curr, next, old(curr), old(next))
      ensures status == INSERTIMG_NULL <==> orgimg.cols == 0 || orgimg.rows == 0 || !bLoad
      ensures status == INSERTIMG_NULL ==> ledger == old(ledger) && queue == old(queue)
      ensures status != INSERTIMG_NULL ==>
                ledger == old(ledger).Accept(ImageInfo(orgimg, inputid, frameno, channelid), num_batch, bisASync,
                  Answer(infer))
      ensures Reported(status, objects0, objects, infer,
                       old(ledger).Append(ImageInfo(orgimg, inputid, frameno, channelid)).Ready(bisASync))
      ensures var ready := old(ledger).Append(ImageInfo(orgimg, inputid, frameno, channelid)).Ready(bisASync);
        && (status == INSERTIMG_GET ==> Proposals(infer(Images(ready)), |ready|) > 0)
        && (status == INSERTIMG_PROCESSED ==> Proposals(infer(Images(ready)), |ready|) == 0)
      ensures status != INSERTIMG_NULL && status != INSERTIMG_INSERTED ==>
        ledger.delivered == old(ledger).delivered + [objects]
      ensures status == INSERTIMG_INSERTED ==> ledger.delivered == old(ledger).delivered
    {
      status, objects := INSERTIMG_NULL, objects0;
      if orgimg.cols == 0 || orgimg.rows == 0 || !bLoad {
        return;
      }
      status, objects := Accept(objects0, ImageInfo(orgimg, inputid, frameno, channelid));
    }
  }

  /** Every image goes in once, in order, and each delivery extends the earlier ones. */
  lemma AcceptInserted(l: Ledger, info: ImageInfo, n: nat, async: bool, answer: Answers)
    ensures var m := l.Accept(info, n, async, answer);
      && m.Inserted() == l.Inserted() + [info]
      && m.delivered == l.delivered + (if l.Yields(n, async) then [answer(l.Append(info).Ready(async))] else [])
  {
    FlattenMore(l.batches, l.partial + [info]);
  }

  /** Without a delivery the caller's results are untouched; with one, the status tells whether a proposal was read. */
  ghost predicate Reported(status: Status, objects0: seq<DetectorResult>, objects: seq<DetectorResult>,
                           infer: seq<Mat> -> seq<Row>, ready: seq<ImageInfo>) {
    if status == INSERTIMG_NULL || status == INSERTIMG_INSERTED then objects == objects0
    else
      && objects == Answer(infer)(ready)
      && (status == INSERTIMG_GET <==> Proposals(infer(Images(ready)), |ready|) > 0)
  }

  // ---------------------------------------------------------------- whole runs

  /** The ledger after inserting `infos` one by one. */
  function Run(infos: seq<ImageInfo>, n: nat, async: bool, answer: Answers): Ledger {
    if |infos| == 0 then Ledger([], [], [])
    else Run(infos[..|infos| - 1], n, async, answer).Accept(infos[|infos| - 1], n, async, answer)
  }

  /** A run inserts exactly its images, in order. */
  lemma {:induction false} RunInserted(infos: seq<ImageInfo>, n: nat, async: bool, answer: Answers)
    ensures Run(infos, n, async, answer).Inserted() == infos
  {
    if |infos| > 0 {
      var last := |infos| - 1;
      var before := infos[..last];
      RunInserted(before, n, async, answer);
      var l := Run(before, n, async, answer);
      AcceptInserted(l, infos[last], n, async, answer);
      assert l.Inserted() + [infos[last]] == infos;
    }
  }

  /** How the images of a run are cut into batches. */
  ghost predicate Cut(l: Ledger, infos: seq<ImageInfo>, n: nat) {
    && |l.partial| < n && |l.batches| * n + |l.partial| == |infos|
    && l.partial == infos[|infos| - |l.partial|..]
    && forall k :: 0 <= k < |l.batches| ==> IsBatch(l.batches[k], infos, k, n)
  }

  ghost predicate IsBatch(batch: seq<ImageInfo>, infos: seq<ImageInfo>, k: nat, n: nat) {
    0 <= k * n && k * n + n <= |infos| && batch == infos[k * n..k * n + n]
  }

  lemma BatchStays(batch: seq<ImageInfo>, infos: seq<ImageInfo>, info: ImageInfo, k: nat, n: nat)
    requires IsBatch(batch, infos, k, n)
    ensures IsBatch(batch, infos + [info], k, n)
  {
    assert (infos + [info])[k * n..k * n + n] == infos[k * n..k * n + n];
  }

  lemma LastBatch(partial: seq<ImageInfo>, infos: seq<ImageInfo>, info: ImageInfo, k: nat, n: nat)
    requires k * n + |partial| == |infos| && |partial| + 1 == n && partial == infos[|infos| - |partial|..]
    ensures IsBatch(partial + [info], infos + [info], k, n) && (k + 1) * n == |infos| + 1
  {
    Distribute(k, 1, n);
    assert (infos + [info])[k * n..] == infos[k * n..] + [info];
  }

  lemma AcceptCut(l: Ledger, infos: seq<ImageInfo>, n: nat, async: bool, answer: Answers, info: ImageInfo)
    requires n > 0 && Cut(l, infos, n)
    ensures Cut(l.Accept(info, n, async, answer), infos + [info], n)
  {
    forall k | 0 <= k < |l.batches|
      ensures IsBatch(l.batches[k], infos + [info], k, n)
    {
      BatchStays(l.batches[k], infos, info, k, n);
    }
    if |l.partial| + 1 == n {
      LastBatch(l.partial, infos, info, |l.batches|, n);
    }
  }

  lemma AcceptOk(l: Ledger, n: nat, async: bool, answer: Answers, info: ImageInfo)
    requires l.Ok(l.Queue(async), n, async) && |l.partial| < n
    ensures var m := l.Accept(info, n, async, answer); m.Ok(m.Queue(async), n, async)
  {
    AppendOk(l, l.Queue(async), n, async, info);
    if |l.partial| + 1 == n {
      var queue := l.Queue(async) + [info];
      var m := l.Append(info);
      CompleteOk(m, queue, if m.Comes(async) then queue[n..] else queue, m.Complete(async, answer), n, async, answer);
    }
  }

  lemma AcceptPaired(l: Ledger, n: nat, async: bool, answer: Answers, info: ImageInfo)
    requires l.Ok(l.Queue(async), n, async) && |l.partial| < n && l.Paired(answer)
    ensures l.Accept(info, n, async, answer).Paired(answer)
  {}

  lemma {:induction false} RunCut(infos: seq<ImageInfo>, n: nat, async: bool, answer: Answers)
    requires n > 0
    ensures var l := Run(infos, n, async, answer);
      Cut(l, infos, n) && l.Ok(l.Queue(async), n, async) && l.Paired(answer)
  {
    if |infos| > 0 {
      var last := |infos| - 1;
      RunCut(infos[..last], n, async, answer);
      AcceptCut(Run(infos[..last], n, async, answer), infos[..last], n, async, answer, infos[last]);
      AcceptOk(Run(infos[..last], n, async, answer), n, async, answer, infos[last]);
      AcceptPaired(Run(infos[..last], n, async, answer), n, async, answer, infos[last]);
      assert infos[..last] + [infos[last]] == infos;
    }
  }

  /** Batches are consecutive runs of images; the `k`-th delivery answers the `k`-th batch, one batch late in
      asynchronous mode. */
  lemma RunDelivers(infos: seq<ImageInfo>, n: nat, async: bool, answer: Answers)
    requires n > 0
    ensures var l := Run(infos, n, async, answer);
      && |l.partial| < n && |l.batches| * n + |l.partial| == |infos|
      && |l.delivered| == (if async && |l.batches| > 0 then |l.batches| - 1 else |l.batches|)
      && |l.Queue(async)| == |l.partial| + l.InFlight(async) * n
      && forall k :: 0 <= k < |l.delivered| ==>
        IsBatch(l.batches[k], infos, k, n) && l.delivered[k] == answer(l.batches[k])
  {
    RunCut(infos, n, async, answer);
  }
}
