/** The round-robin scheduler: one frame of every channel a sweep, straight into the batching detector. */
module Scheduler {
  import opened Arithmetic
  import opened BatchDetector
  import PipeContents

  /** How many channels are accepted, and how many of them have a counter of finished frames. */
  const NUM_OF_CHANNELS := 48
  const INPUTNUM := 6

  datatype Frame = Frame(imgbuf: Mat, channel: nat, frameno: int)

  /** The `k`-th frame loaded from pipe `c`; loads block until there is one. */
  type Feed = (nat, nat) -> Frame

  /** What is inserted in turn `j`. */
  function Turn(feed: Feed, channels: nat, j: nat): ImageInfo
    requires channels > 0
  {
    var f := feed(j % channels, j / channels);
    ImageInfo(f.imgbuf, f.channel, f.frameno, 0)
  }

  function Order(feed: Feed, channels: nat, m: nat): seq<ImageInfo>
    requires channels > 0
  {
    seq(m, j requires 0 <= j < m => Turn(feed, channels, j))
  }

  /** Every pipe carries frames of its own channel, of the network's non-empty input size. */
  ghost predicate Feeds(feed: Feed, channels: nat) {
    channels <= NUM_OF_CHANNELS &&
    forall c: nat, k: nat :: c < channels ==>
      feed(c, k).channel == c && feed(c, k).imgbuf.cols > 0 && feed(c, k).imgbuf.rows > 0
  }

  /** The feed is what left the pipes, `pipes[c]` being the state of pipe `c`. */
  ghost predicate FedBy(feed: Feed, pipes: seq<PipeContents.Carrier<Frame>>) {
    forall c: nat, k: nat :: c < |pipes| && k < |pipes[c].delivered| ==> feed(c, k) == pipes[c].delivered[k]
  }

  /** Through all interleavings with the decoders, turn `j` inserts what its channel stored in round `j / channels`. */
  lemma TurnIsStored(feed: Feed, pipes: seq<PipeContents.Carrier<Frame>>, nframe: nat, j: nat)
    requires |pipes| > 0 && FedBy(feed, pipes) && PipeContents.Reached(pipes[j % |pipes|], nframe)
    requires j / |pipes| < |pipes[j % |pipes|].delivered|
    ensures var c, k := j % |pipes|, j / |pipes|;
      && k < |pipes[c].written| == |pipes[c].pipe.stored|
      && var f := pipes[c].written[k]; Turn(feed, |pipes|, j) == ImageInfo(f.imgbuf, f.channel, f.frameno, 0)
  {
    var p := pipes[j % |pipes|];
    var s, run :| PipeContents.Fresh(s, nframe) && PipeContents.Leads(s, run, p);
    PipeContents.ArriveIntact(s, run, p, nframe);
  }

  // ---------------------------------------------------------------- counting results by channel

  /** Results of channel `c` among the first `n` records of a delivery. */
  function CountIn(objects: seq<DetectorResult>, n: nat, c: int): nat
    requires n <= |objects|
  {
    if n == 0 then 0 else CountIn(objects, n - 1, c) + if objects[n - 1].info.inputid == c then 1 else 0
  }

  /** Results of channel `c` among the first `n` deliveries. */
  function Count(delivered: seq<seq<DetectorResult>>, n: nat, c: int): nat
    requires n <= |delivered|
  {
    if n == 0 then 0 else Count(delivered, n - 1, c) + CountIn(delivered[n - 1], |delivered[n - 1]|, c)
  }

  /** No counter belongs to this record's channel. */
  predicate Outside(r: DetectorResult) {
    !(0 <= r.info.inputid < INPUTNUM)
  }

  function OutsideIn(objects: seq<DetectorResult>, n: nat): nat
    requires n <= |objects|
  {
    if n == 0 then 0 else OutsideIn(objects, n - 1) + if Outside(objects[n - 1]) then 1 else 0
  }

  /** Records among the first `n` deliveries that are counted behind the counters. */
  function Astray(delivered: seq<seq<DetectorResult>>, n: nat): nat
    requires n <= |delivered|
  {
    if n == 0 then 0 else Astray(delivered, n - 1) + OutsideIn(delivered[n - 1], |delivered[n - 1]|)
  }

  lemma {:induction false} CountMore(delivered: seq<seq<DetectorResult>>, more: seq<seq<DetectorResult>>, n: nat,
                                     c: int)
    requires n <= |delivered| <= |more| && delivered == more[..|delivered|]
    ensures Count(more, n, c) == Count(delivered, n, c) && Astray(more, n) == Astray(delivered, n)
  {
    if n > 0 {
      CountMore(delivered, more, n - 1, c);
      assert more[n - 1] == delivered[n - 1];
    }
  }

  /** Turns of channel `c` among the first `m`. */
  function Served(m: nat, channels: nat, c: nat): nat
    requires channels > 0
  {
    if m == 0 then 0 else Served(m - 1, channels, c) + if (m - 1) % channels == c then 1 else 0
  }

  /** Every channel gets its share of any number of turns, up to one. */
  lemma {:induction false} FairShare(m: nat, channels: nat, c: nat)
    requires c < channels
    ensures Served(m, channels, c) == m / channels + if c < m % channels then 1 else 0
  {
    if m > 0 {
      FairShare(m - 1, channels, c);
      var q, r := (m - 1) / channels, (m - 1) % channels;
      Recompose(m - 1, channels);
      if r + 1 < channels {
        DivModUnique(q, r + 1, channels);
      } else {
        Distribute(q, 1, channels);
        DivModUnique(q + 1, 0, channels);
      }
    } else {
      DivModUnique(0, 0, channels);
    }
  }

  /** A delivery answers the `n` turns from `start` on. */
  ghost predicate AnswersTurns(feed: Feed, channels: nat, objects: seq<DetectorResult>, start: int, n: nat)
    requires channels > 0
  {
    start >= 0 && |objects| == n && forall j :: 0 <= j < n ==> objects[j].info == Turn(feed, channels, start + j)
  }

  lemma TurnChannel(feed: Feed, channels: nat, j: nat)
    requires channels > 0 && Feeds(feed, channels)
    ensures Turn(feed, channels, j).inputid == j % channels && Turn(feed, channels, j).orgimg.cols > 0
    ensures Turn(feed, channels, j).orgimg.rows > 0
  {}

  lemma {:induction false} CountBatch(feed: Feed, channels: nat, objects: seq<DetectorResult>, start: nat, n: nat,
                                      i: nat, c: nat)
    requires channels > 0 && Feeds(feed, channels) && c < channels && i <= n
    requires AnswersTurns(feed, channels, objects, start, n)
    ensures CountIn(objects, i, c) == Served(start + i, channels, c) - Served(start, channels, c)
  {
    if i > 0 {
      CountBatch(feed, channels, objects, start, n, i - 1, c);
      var x := start + (i - 1);
      assert objects[i - 1].info == Turn(feed, channels, x);
      TurnChannel(feed, channels, x);
      assert Served(x + 1, channels, c) == Served(x, channels, c) + if x % channels == c then 1 else 0;
    }
  }

  /** Deliveries that answer consecutive turns count as many results of a channel as it had turns. */
  lemma {:induction false} CountPrefix(feed: Feed, channels: nat, delivered: seq<seq<DetectorResult>>, n: nat, k: nat,
                                       c: nat)
    requires channels > 0 && Feeds(feed, channels) && c < channels && k <= |delivered|
    requires forall i :: 0 <= i < |delivered| ==> AnswersTurns(feed, channels, delivered[i], i * n, n)
    ensures Count(delivered, k, c) == Served(k * n, channels, c)
  {
    if k > 0 {
      CountPrefix(feed, channels, delivered, n, k - 1, c);
      var start := (k - 1) * n;
      assert AnswersTurns(feed, channels, delivered[k - 1], start, n);
      Distribute(k - 1, 1, n);
      assert k * n == start + n;
      CountBatch(feed, channels, delivered[k - 1], start, n, n, c);
    }
  }

  /** The `k`-th delivery answers turns `k n` to `k n + n - 1`. */
  lemma DeliveryAnswers(feed: Feed, channels: nat, m: nat, n: nat, async: bool, infer: seq<Mat> -> seq<Row>, k: nat)
    requires channels > 0 && n > 0 && k < |Run(Order(feed, channels, m), n, async, Answer(infer)).delivered|
    ensures AnswersTurns(feed, channels, Run(Order(feed, channels, m), n, async, Answer(infer)).delivered[k], k * n, n)
  {
    var infos := Order(feed, channels, m);
    RunDelivers(infos, n, async, Answer(infer));
    BatchAnswers(feed, channels, m, infer, Run(infos, n, async, Answer(infer)).batches[k], k, n);
  }

  lemma BatchAnswers(feed: Feed, channels: nat, m: nat, infer: seq<Mat> -> seq<Row>, batch: seq<ImageInfo>, k: nat,
                     n: nat)
    requires channels > 0 && IsBatch(batch, Order(feed, channels, m), k, n)
    ensures AnswersTurns(feed, channels, Answer(infer)(batch), k * n, n)
  {
    assert Answer(infer)(batch) == ResultsOf(batch, infer(Images(batch)));
  }

  lemma CountDelivered(feed: Feed, channels: nat, m: nat, n: nat, async: bool, infer: seq<Mat> -> seq<Row>, c: nat)
    requires channels > 0 && n > 0 && Feeds(feed, channels) && c < channels
    ensures var done := Run(Order(feed, channels, m), n, async, Answer(infer)).delivered;
      Count(done, |done|, c) == Served(|done| * n, channels, c)
  {
    var done := Run(Order(feed, channels, m), n, async, Answer(infer)).delivered;
    forall i | 0 <= i < |done|
      ensures AnswersTurns(feed, channels, done[i], i * n, n)
    {
      DeliveryAnswers(feed, channels, m, n, async, infer, i);
    }
    CountPrefix(feed, channels, done, n, |done|, c);
  }

  /** At any time the numbers of finished frames of two channels differ by at most one. */
  lemma ResultsAreFair(feed: Feed, channels: nat, m: nat, n: nat, async: bool, infer: seq<Mat> -> seq<Row>, c: nat,
                       d: nat)
    requires channels > 0 && n > 0 && Feeds(feed, channels) && c < channels && d < channels
    ensures var done := Run(Order(feed, channels, m), n, async, Answer(infer)).delivered;
      -1 <= Count(done, |done|, c) - Count(done, |done|, d) <= 1
  {
    var done := Run(Order(feed, channels, m), n, async, Answer(infer)).delivered;
    CountDelivered(feed, channels, m, n, async, infer, c);
    CountDelivered(feed, channels, m, n, async, infer, d);
    FairShare(|done| * n, channels, c);
    FairShare(|done| * n, channels, d);
  }

  // ---------------------------------------------------------------- which counts land

  /** Turns among the first `m` of channels without a counter. */
  function OutsideTurns(m: nat, channels: nat): nat
    requires channels > 0
  {
    if m == 0 then 0 else OutsideTurns(m - 1, channels) + if (m - 1) % channels >= INPUTNUM then 1 else 0
  }

  lemma {:induction false} OutsideBatch(feed: Feed, channels: nat, objects: seq<DetectorResult>, start: nat, n: nat,
                                        i: nat)
    requires channels > 0 && Feeds(feed, channels) && i <= n && AnswersTurns(feed, channels, objects, start, n)
    ensures OutsideTurns(start + i, channels) == OutsideTurns(start, channels) + OutsideIn(objects, i)
  {
    if i > 0 {
      OutsideBatch(feed, channels, objects, start, n, i - 1);
      var x := start + (i - 1);
      assert objects[i - 1].info == Turn(feed, channels, x);
      TurnChannel(feed, channels, x);
    }
  }

  lemma {:induction false} OutsidePrefix(feed: Feed, channels: nat, delivered: seq<seq<DetectorResult>>, n: nat, k: nat)
    requires channels > 0 && Feeds(feed, channels) && k <= |delivered|
    requires forall i :: 0 <= i < |delivered| ==> AnswersTurns(feed, channels, delivered[i], i * n, n)
    ensures Astray(delivered, k) == OutsideTurns(k * n, channels)
  {
    if k > 0 {
      OutsidePrefix(feed, channels, delivered, n, k - 1);
      var start := (k - 1) * n;
      assert AnswersTurns(feed, channels, delivered[k - 1], start, n);
      Distribute(k - 1, 1, n);
      assert k * n == start + n;
      OutsideBatch(feed, channels, delivered[k - 1], start, n, n);
    }
  }

  /** The first turn without a counter is the seventh, if there are seven channels. */
  lemma {:induction false} OutsideFrom(m: nat, channels: nat)
    requires channels > 0
    ensures OutsideTurns(m, channels) == 0 <==> channels <= INPUTNUM || m <= INPUTNUM
  {
    if m > 0 {
      OutsideFrom(m - 1, channels);
      if m - 1 < channels {
        DivModUnique(0, m - 1, channels);
      }
    }
  }

  /** All counts of a run land exactly if there are six channels at most, or six results at most so far. */
  lemma CountsLand(feed: Feed, channels: nat, m: nat, n: nat, async: bool, infer: seq<Mat> -> seq<Row>)
    requires channels > 0 && n > 0 && Feeds(feed, channels)
    ensures var done := Run(Order(feed, channels, m), n, async, Answer(infer)).delivered;
      Astray(done, |done|) == 0 <==> channels <= INPUTNUM || |done| * n <= INPUTNUM
  {
    var done := Run(Order(feed, channels, m), n, async, Answer(infer)).delivered;
    forall i | 0 <= i < |done|
      ensures AnswersTurns(feed, channels, done[i], i * n, n)
    {
      DeliveryAnswers(feed, channels, m, n, async, infer, i);
    }
    OutsidePrefix(feed, channels, done, n, |done|);
    ProductSign(|done|, n);
    OutsideFrom(|done| * n, channels);
  }

  /** The counts of a run land. */
  ghost predicate AllLand(feed: Feed, channels: nat, m: nat, n: nat, async: bool, infer: seq<Mat> -> seq<Row>)
    requires channels > 0
  {
    var done := Run(Order(feed, channels, m), n, async, Answer(infer)).delivered;
    Astray(done, |done|) == 0
  }

  /** Over all runs they do exactly for up to six channels; more are accepted. */
  lemma SixChannels(feed: Feed, channels: nat, n: nat, async: bool, infer: seq<Mat> -> seq<Row>)
    requires channels > 0 && n > 0 && Feeds(feed, channels)
    ensures (forall m: nat :: AllLand(feed, channels, m, n, async, infer)) <==> channels <= INPUTNUM
  {
    if channels <= INPUTNUM {
      forall m: nat
        ensures AllLand(feed, channels, m, n, async, infer)
      {
        CountsLand(feed, channels, m, n, async, infer);
      }
    } else {
      var m := 8 * n;
      CountsLand(feed, channels, m, n, async, infer);
      EnoughDelivered(Order(feed, channels, m), n, async, Answer(infer));
      assert !AllLand(feed, channels, m, n, async, infer);
    }
  }

  lemma EnoughDelivered(infos: seq<ImageInfo>, n: nat, async: bool, answer: BatchDetector.Answers)
    requires n > 0 && |infos| == 8 * n
    ensures |Run(infos, n, async, answer).delivered| * n > INPUTNUM
  {
    RunDelivers(infos, n, async, answer);
    var l := Run(infos, n, async, answer);
    if |l.batches| < 8 {
      MulMonotone(|l.batches|, 7, n);
    }
    MulMonotone(7, |l.delivered|, n);
  }

  /** Seven channels, one image a batch: the seventh result is counted behind the six counters. */
  lemma SevenChannels(feed: Feed, infer: seq<Mat> -> seq<Row>)
    requires Feeds(feed, 7)
    ensures var done := Run(Order(feed, 7, 7), 1, false, Answer(infer)).delivered;
      |done| == 7 && |done[6]| == 1 && done[6][0].info.inputid == 6 && Astray(done, 7) > 0
  {
    RunDelivers(Order(feed, 7, 7), 1, false, Answer(infer));
    DeliveryAnswers(feed, 7, 7, 1, false, infer, 6);
    TurnChannel(feed, 7, 6);
    CountsLand(feed, 7, 7, 1, false, infer);
  }

  /** At any turn the numbers of frames taken from two channels differ by at most one. */
  lemma TakenAreFair(m: nat, channels: nat, c: nat, d: nat)
    requires c < channels && d < channels
    ensures -1 <= Served(m, channels, c) - Served(m, channels, d) <= 1
    ensures m % channels == 0 ==> Served(m, channels, c) == Served(m, channels, d)
  {
    FairShare(m, channels, c);
    FairShare(m, channels, d);
  }

  // ---------------------------------------------------------------- the scheduler

  class ScheduleThread {
    const channels: nat
    const feed: Feed
    var detector: Detector
    var taken: array<nat>
    var each_frame: array<nat>
    ghost var astray: nat
    var objects: seq<DetectorResult>

    /** After `m` turns the detector has seen exactly the turns. */
    ghost predicate Seen(m: nat)
      reads this, detector, detector.curr, detector.next
    {
      && 0 < channels && Feeds(feed, channels) && detector.Valid() && detector.bLoad
      && detector.ledger == Run(Order(feed, channels, m), detector.num_batch, detector.bisASync, Answer(detector.infer))
    }

    /** Every channel was served in turn. */
    ghost predicate Level(m: nat)
      reads this, taken
    {
      0 < channels && taken.Length == channels && forall c :: 0 <= c < channels ==> taken[c] == Served(m, channels, c)
    }

    /** And the results so far are counted. */
    ghost predicate After(m: nat)
      reads this, detector, detector.curr, detector.next, taken, each_frame
    {
      && Seen(m) && Level(m) && taken != each_frame
      && Counted(detector.ledger.delivered)
    }

    /** Each counter holds its channel's results; `astray` is how many others were counted behind the counters. */
    ghost predicate Counted(delivered: seq<seq<DetectorResult>>)
      reads this, each_frame
    {
      && each_frame.Length == INPUTNUM && astray == Astray(delivered, |delivered|)
      && forall c :: 0 <= c < INPUTNUM ==> each_frame[c] == Count(delivered, |delivered|, c)
    }

    constructor (channels: nat, feed: Feed, detector: Detector)
      requires 0 < channels && Feeds(feed, channels) && detector.Valid() && detector.bLoad
      requires detector.ledger == Ledger([], [], [])
      ensures After(0) && this.channels == channels && this.feed == feed && this.detector == detector
      ensures fresh(taken) && fresh(each_frame)
    {
      this.channels, this.feed, this.detector := channels, feed, detector;
      taken := new nat[channels](_ => 0);
      each_frame := new nat[INPUTNUM](_ => 0);
      objects, astray := [], 0;
    }

    /** Books the results that came out: an increment of a counter that does not exist lands elsewhere in memory. */
    method Book(ghost before: seq<seq<DetectorResult>>)
      requires Counted(before)
      modifies this`astray, each_frame
      ensures Counted(before + [objects])
    {
      for k := 0 to |objects|
        invariant astray == Astray(before, |before|) + OutsideIn(objects, k)
        invariant forall c :: 0 <= c < INPUTNUM ==>
          each_frame[c] == Count(before, |before|, c) + CountIn(objects, k, c)
      {
        if Outside(objects[k]) {
          astray := astray + 1;
        } else {
          each_frame[objects[k].info.inputid] := each_frame[objects[k].info.inputid] + 1;
        }
      }
      BookedAll(before, objects);
    }

    /** The frame of turn `m` goes to the detector. */
    method InsertTurn(f: Frame, ghost m: nat) returns (status: Status)
      requires Seen(m) && Turn(feed, channels, m) == ImageInfo(f.imgbuf, f.channel, f.frameno, 0)
      modifies this`objects, detector, detector.curr, detector.next
      ensures Seen(m + 1) && SamePair(detector.curr, detector.next, old(detector.curr), old(detector.next))
      ensures if status == INSERTIMG_GET || status == INSERTIMG_PROCESSED
        then detector.ledger.delivered == old(detector.ledger).delivered + [objects]
              else detector.ledger.delivered == old(detector.ledger).delivered
    {
      TurnChannel(feed, channels, m);
      ghost var was := detector.ledger;
      status, objects := detector.InsertImage(f.imgbuf, objects, f.channel, f.frameno, 0);
      assert detector.ledger == was.Accept(Turn(feed, channels, m), detector.num_batch, detector.bisASync,
                                           Answer(detector.infer));
      RunMore(feed, channels, m, was, detector.num_batch, detector.bisASync, Answer(detector.infer));
    }

    /** Takes the next frame of channel `c`. */
    method LoadTurn(c: nat, ghost m: nat) returns (f: Frame)
      requires Level(m) && c < channels && m % channels == c && taken[c] == m / channels
      modifies taken
      ensures Level(m + 1) && f == feed(c, m / channels)
    {
      f := feed(c, taken[c]);
      taken[c] := taken[c] + 1;
    }

    /** Serves channel `c`, and books whatever comes out. */
    method Serve(c: nat, ghost m: nat)
      requires After(m) && c < channels && m % channels == c && taken[c] == m / channels
      modifies this`objects, this`astray, taken, each_frame, detector, detector.curr, detector.next
      ensures After(m + 1) && SamePair(detector.curr, detector.next, old(detector.curr), old(detector.next))
    {
      ghost var before := detector.ledger.delivered;
      var f := LoadTurn(c, m);
      var status := InsertTurn(f, m);
      if status == INSERTIMG_GET || status == INSERTIMG_PROCESSED {
        Book(before);
      }
    }

    /** Channel `c` comes next after `s` sweeps and `c` turns. */
    ghost method NextTurn(s: nat, c: nat, m: nat)
      requires Level(m) && c < channels && m == s * channels + c
      ensures m % channels == c && m / channels == s == taken[c]
    {
      DivModUnique(s, c, channels);
      FairShare(m, channels, c);
    }

    ghost method AllLevel(s: nat, m: nat)
      requires Level(m) && m == s * channels
      ensures forall c :: 0 <= c < channels ==> taken[c] == s
    {
      forall d: nat | d < channels
        ensures taken[d] == s
      {
        FairShare(m, channels, d);
        DivModUnique(s, 0, channels);
      }
    }

    /** One sweep: every pipe is loaded once, in the same order, and all channels are level again. */
    method Sweep(ghost s: nat)
      requires After(s * channels) && forall c :: 0 <= c < channels ==> taken[c] == s
      modifies this`objects, this`astray, taken, each_frame, detector, detector.curr, detector.next
      ensures After((s + 1) * channels)
      ensures SamePair(detector.curr, detector.next, old(detector.curr), old(detector.next))
      ensures forall c :: 0 <= c < channels ==> taken[c] == s + 1
    {
      var c := 0;
      ghost var m := s * channels;
      while c < channels
        invariant c <= channels && m == s * channels + c && After(m)
        invariant SamePair(detector.curr, detector.next, old(detector.curr), old(detector.next))
      {
        NextTurn(s, c, m);
        Serve(c, m);
        c := c + 1;
        m := m + 1;
      }
      Distribute(s, 1, channels);
      AllLevel(s + 1, m);
    }
  }

  lemma RunMore(feed: Feed, channels: nat, m: nat, l: Ledger, n: nat, async: bool, answer: BatchDetector.Answers)
    requires channels > 0 && l == Run(Order(feed, channels, m), n, async, answer)
    ensures l.Accept(Turn(feed, channels, m), n, async, answer) == Run(Order(feed, channels, m + 1), n, async, answer)
  {
    OrderMore(feed, channels, m);
  }

  lemma BookedAll(before: seq<seq<DetectorResult>>, objects: seq<DetectorResult>)
    ensures var all := before + [objects];
      && Astray(all, |all|) == Astray(before, |before|) + OutsideIn(objects, |objects|)
      && forall c :: Count(all, |all|, c) == Count(before, |before|, c) + CountIn(objects, |objects|, c)
  {
    CountMore(before, before + [objects], |before|, 0);
    forall c: int
      ensures Count(before + [objects], |before|, c) == Count(before, |before|, c)
    {
      CountMore(before, before + [objects], |before|, c);
    }
  }

  lemma OrderMore(feed: Feed, channels: nat, m: nat)
    requires channels > 0
    ensures Order(feed, channels, m + 1) == Order(feed, channels, m) + [Turn(feed, channels, m)]
    ensures Order(feed, channels, m + 1)[..m] == Order(feed, channels, m)
  {}
}
