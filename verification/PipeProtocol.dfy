/** Threads sharing one frame pipe: every interleaving of their critical sections, waits and signals. */
module PipeProtocol {
  import opened PipeLists

  type Buf = nat
  type Tid = nat

  /** Where a thread is between critical sections. `Signalling` is after a store's unlock and before its signal. */
  datatype Phase = Idle | Asleep(timed: bool) | Woken(timed: bool) | Signalling

  /** A frame that left the output list: loaded, or dropped by a `dpipe_get` while the pipes are stopped. */
  datatype Departure = Departure(frame: Buf, dropped: bool)

  datatype State = State(
    lists: Lists<Buf>,
    held: map<Buf, Tid>,
    phase: map<Tid, Phase>,
    started: bool,
    wasStopped: bool,
    stored: seq<Buf>,
    departed: seq<Departure>)

  /** One step of one thread, of the condition variable, or of the flag all pipes share: creating any pipe starts
      them again. */
  datatype Event =
    | DoGet(t: Tid)
    | DoPut(t: Tid, b: Buf)
    | DoStore(t: Tid, b: Buf)
    | DoSignal(t: Tid, waked: Tid)
    | DoLoad(t: Tid, timed: bool)
    | DoResume(t: Tid)
    | DoLoadNowait(t: Tid)
    | DoWake(t: Tid)
    | DoStop
    | DoStart

  ghost predicate Sleeping(s: State, t: Tid) {
    t in s.phase && s.phase[t].Asleep?
  }

  /** Threads return only what they hold; a signal wakes a sleeper whenever there is one; timeouts and spurious
      wake-ups may come at any time. */
  ghost predicate Enabled(s: State, e: Event) {
    match e
    case DoGet(t) => t in s.phase && s.phase[t] == Idle
    case DoPut(t, b) => t in s.phase && s.phase[t] == Idle && b in s.held && s.held[b] == t
    case DoStore(t, b) => t in s.phase && s.phase[t] == Idle && b in s.held && s.held[b] == t
    case DoSignal(t, waked) =>
      t in s.phase && s.phase[t] == Signalling && ((exists u :: Sleeping(s, u)) ==> Sleeping(s, waked))
    case DoLoad(t, timed) => t in s.phase && s.phase[t] == Idle
    case DoResume(t) => t in s.phase && s.phase[t].Woken?
    case DoLoadNowait(t) => t in s.phase && s.phase[t] == Idle
    case DoWake(t) => Sleeping(s, t)
    case DoStop => true
    case DoStart => true
  }

  /** The caller takes what the lists give out, if anything. */
  function Take(s: State, t: Tid, r: (Lists<Buf>, Outcome<Buf>), fromReady: bool, dropped: bool): State {
    match r.1
    case Took(b) => s.(lists := r.0, held := s.held[b := t],
                       departed := if fromReady then s.departed + [Departure(b, dropped)] else s.departed)
    case _ => s.(lists := r.0)
  }

  /** The locked part of a load: a frame, or sleep, or give up. */
  function TryLoad(s: State, t: Tid, otherwise: Phase): State {
    var got := Take(s, t, Load(s.lists), true, false);
    got.(phase := s.phase[t := if |s.lists.ready| > 0 then Idle else otherwise])
  }

  function Apply(s: State, e: Event): State {
    match e
    case DoGet(t) => Take(s, t, Get(s.lists, s.started), |s.lists.free| == 0, true)
    case DoPut(t, b) => s.(lists := Put(s.lists, b), held := s.held - {b})
    case DoStore(t, b) =>
      s.(lists := Store(s.lists, b), held := s.held - {b}, phase := s.phase[t := Signalling], stored := s.stored + [b])
    case DoSignal(t, waked) =>
      var p := s.phase[t := Idle];
      s.(phase := if waked in p && p[waked].Asleep? then p[waked := Woken(p[waked].timed)] else p)
    case DoLoad(t, timed) => TryLoad(s, t, Asleep(timed))
    case DoResume(t) => TryLoad(s, t, if t in s.phase && s.phase[t] == Woken(true) then Idle else Asleep(false))
    case DoLoadNowait(t) => TryLoad(s, t, Idle)
    case DoWake(t) => s.(phase := s.phase[t := Woken(t in s.phase && s.phase[t].Asleep? && s.phase[t].timed)])
    case DoStop => s.(started := false, wasStopped := true)
    case DoStart => s.(started := true)
  }

  /** A new pipe of `nframe` free buffers. */
  ghost predicate Init(s: State, nframe: nat) {
    && |s.lists.free| == nframe && (forall i :: 0 <= i < nframe ==> s.lists.free[i] == nframe - 1 - i)
    && s.lists.ready == []
    && s.held == map[] && s.stored == [] && s.departed == [] && s.started && !s.wasStopped
    && forall t :: t in s.phase ==> s.phase[t] == Idle
  }

  /** `t` is where run `run` leads from `s`. */
  ghost predicate Reaches(s: State, run: seq<Event>, t: State)
    decreases |run|
  {
    if |run| == 0 then s == t
    else Enabled(s, run[0]) && Reaches(Apply(s, run[0]), run[1..], t)
  }

  // ---------------------------------------------------------------- what the steps mean for their threads

  /**
   `dpipe_get`, from the states alone: the newest free buffer; none while the pipes run and none is free; after the stop
   the eldest stored frame, which is dropped; and none if there is nothing at all.
   */
  lemma GetStep(s: State, t: Tid)
    requires Enabled(s, DoGet(t))
    ensures var u := Apply(s, DoGet(t));
      if |s.lists.free| > 0 then
        u == s.(lists := Lists(s.lists.free[1..], s.lists.ready), held := s.held[s.lists.free[0] := t])
      else if s.started || |s.lists.ready| == 0 then u == s
      else
        u == s.(lists := Lists([], s.lists.ready[1..]), held := s.held[s.lists.ready[0] := t],
                departed := s.departed + [Departure(s.lists.ready[0], true)])
  {}

  /** Only a running pipe asks to try again, so every get ends once the pipes are stopped. */
  lemma StoppedGetEnds(s: State)
    ensures Get(s.lists, s.started).1 == Retry <==> s.started && |s.lists.free| == 0
  {}

  /** A load hands out the eldest frame and leaves its thread idle; without one the thread sleeps or gives up. */
  lemma LoadStep(s: State, t: Tid, timed: bool)
    requires Enabled(s, DoLoad(t, timed))
    ensures Apply(s, DoLoad(t, timed))
         == if |s.lists.ready| > 0 then Loads(s, t) else s.(phase := s.phase[t := Asleep(timed)])
    ensures Apply(s, DoLoadNowait(t)) == if |s.lists.ready| > 0 then Loads(s, t) else s.(phase := s.phase[t := Idle])
  {}

  /** A woken thread looks again; a timed one only once. */
  lemma ResumeStep(s: State, t: Tid)
    requires Enabled(s, DoResume(t))
    ensures Apply(s, DoResume(t))
         == if |s.lists.ready| > 0 then Loads(s, t)
            else s.(phase := s.phase[t := if s.phase[t].timed then Idle else Asleep(false)])
  {}

  function Loads(s: State, t: Tid): State
    requires |s.lists.ready| > 0
  {
    s.(lists := Lists(s.lists.free, s.lists.ready[1..]), held := s.held[s.lists.ready[0] := t],
       phase := s.phase[t := Idle], departed := s.departed + [Departure(s.lists.ready[0], false)])
  }

  /** Storing wakes nobody by itself; the signal that follows wakes exactly one sleeper, if there is one. */
  lemma SignalStep(s: State, t: Tid, waked: Tid)
    requires Enabled(s, DoSignal(t, waked))
    ensures var u := Apply(s, DoSignal(t, waked));
      && u.phase[t] == Idle && u.lists == s.lists && u.held == s.held
      && (Sleeping(s, waked) ==> waked in u.phase && u.phase[waked] == Woken(s.phase[waked].timed))
      && forall v :: v in s.phase && v != t && v != waked ==> v in u.phase && u.phase[v] == s.phase[v]
  {}

  // ---------------------------------------------------------------- every buffer is in exactly one place

  /** Each of the `nframe` buffers is free, stored, or in the hands of one thread, and nowhere else. */
  ghost predicate Partition(s: State, nframe: nat) {
    && Distinct(s.lists)
    && (forall b :: b in s.held ==> b !in s.lists.free && b !in s.lists.ready)
    && forall b: Buf :: b < nframe <==> b in s.lists.free || b in s.lists.ready || b in s.held
  }

  /** Every stored frame left in the order of storing or is still listed, in order; nothing is dropped before the
      first stop. */
  ghost predicate InOrder(s: State) {
    && s.stored == Frames(s.departed) + s.lists.ready
    && (!s.wasStopped ==> s.started && Loaded(s.departed) == Frames(s.departed))
  }

  function Frames(d: seq<Departure>): (f: seq<Buf>)
    ensures |f| == |d|
  {
    if |d| == 0 then [] else Frames(d[..|d| - 1]) + [d[|d| - 1].frame]
  }

  /** The frames handed to loaders. */
  function Loaded(d: seq<Departure>): seq<Buf> {
    if |d| == 0 then [] else Loaded(d[..|d| - 1]) + if d[|d| - 1].dropped then [] else [d[|d| - 1].frame]
  }

  lemma Departs(d: seq<Departure>, e: Departure)
    ensures Frames(d + [e]) == Frames(d) + [e.frame]
    ensures Loaded(d + [e]) == Loaded(d) + if e.dropped then [] else [e.frame]
  {
    assert (d + [e])[..|d|] == d;
  }

  lemma Rest(q: seq<Buf>)
    requires |q| > 0 && forall i, j :: 0 <= i < j < |q| ==> q[i] != q[j]
    ensures forall b :: b in q[1..] <==> b != q[0] && b in q
    ensures forall i, j :: 0 <= i < j < |q| - 1 ==> q[1..][i] != q[1..][j]
  {
    assert q == [q[0]] + q[1..];
  }

  lemma TakeFree(s: State, t: Tid, nframe: nat)
    requires Partition(s, nframe) && |s.lists.free| > 0
    ensures Partition(s.(lists := s.lists.(free := s.lists.free[1..]), held := s.held[s.lists.free[0] := t]), nframe)
  {
    Rest(s.lists.free);
    assert s.lists.free[0] !in s.lists.ready && s.lists.free[0] !in s.held;
  }

  lemma TakeReady(s: State, t: Tid, nframe: nat)
    requires Partition(s, nframe) && |s.lists.ready| > 0
    ensures Partition(s.(lists := s.lists.(ready := s.lists.ready[1..]), held := s.held[s.lists.ready[0] := t]), nframe)
  {
    Rest(s.lists.ready);
    assert s.lists.ready[0] !in s.lists.free && s.lists.ready[0] !in s.held;
  }

  lemma DepartKeeps(s: State, dropped: bool)
    requires InOrder(s) && |s.lists.ready| > 0 && (dropped ==> !s.started)
    ensures InOrder(s.(lists := s.lists.(ready := s.lists.ready[1..]),
                       departed := s.departed + [Departure(s.lists.ready[0], dropped)]))
  {
    Departs(s.departed, Departure(s.lists.ready[0], dropped));
    assert s.lists.ready == [s.lists.ready[0]] + s.lists.ready[1..];
  }

  lemma LoadKeeps(s: State, t: Tid, dropped: bool, nframe: nat)
    requires Partition(s, nframe) && InOrder(s) && (dropped ==> !s.started)
    ensures var u := Take(s, t, Load(s.lists), true, dropped); Partition(u, nframe) && InOrder(u)
  {
    if |s.lists.ready| > 0 {
      TakeReady(s, t, nframe);
      DepartKeeps(s, dropped);
    }
  }

  lemma StepKeeps(s: State, e: Event, nframe: nat)
    requires Enabled(s, e) && Partition(s, nframe) && InOrder(s)
    ensures Partition(Apply(s, e), nframe) && InOrder(Apply(s, e))
  {
    match e
    case DoGet(t) =>
      if |s.lists.free| > 0 {
        TakeFree(s, t, nframe);
      } else if !s.started {
        LoadKeeps(s, t, true, nframe);
      }
    case DoPut(t, b) => PutKeeps(s, b, nframe);
    case DoStore(t, b) => StoreKeeps(s, b, t, nframe);
    case DoLoad(t, timed) => LoadKeeps(s, t, false, nframe);
    case DoResume(t) => LoadKeeps(s, t, false, nframe);
    case DoLoadNowait(t) => LoadKeeps(s, t, false, nframe);
    case _ =>
  }

  lemma PutKeeps(s: State, b: Buf, nframe: nat)
    requires Partition(s, nframe) && b in s.held
    ensures Partition(s.(lists := Put(s.lists, b), held := s.held - {b}), nframe)
  {}

  lemma StoreKeeps(s: State, b: Buf, t: Tid, nframe: nat)
    requires Partition(s, nframe) && InOrder(s) && b in s.held
    ensures var s' := s.(lists := Store(s.lists, b), held := s.held - {b}, phase := s.phase[t := Signalling],
                         stored := s.stored + [b]);
      Partition(s', nframe) && InOrder(s')
  {
    assert Frames(s.departed) + s.lists.ready + [b] == Frames(s.departed) + (s.lists.ready + [b]);
  }

  // ---------------------------------------------------------------- after the stop

  function Gets(s: State, t: Tid, k: nat): State {
    if k == 0 then s else Apply(Gets(s, t, k - 1), DoGet(t))
  }

  /** `k` free buffers and the `m` eldest stored frames are now with `t`. */
  ghost predicate DrainedTo(s: State, u: State, t: Tid, k: nat, m: nat)
    requires k <= |s.lists.free| && m <= |s.lists.ready|
  {
    && !u.started && u.phase == s.phase && u.lists == Lists(s.lists.free[k..], s.lists.ready[m..])
    && Frames(u.departed) == Frames(s.departed) + s.lists.ready[..m]
    && Loaded(u.departed) == Loaded(s.departed)
    && forall i :: 0 <= i < m ==> s.lists.ready[i] in u.held && u.held[s.lists.ready[i]] == t
  }

  lemma DrainFree(s: State, u: State, t: Tid, k: nat, m: nat)
    requires k < |s.lists.free| && m == 0 && DrainedTo(s, u, t, k, m)
    ensures DrainedTo(s, Apply(u, DoGet(t)), t, k + 1, m)
  {}

  lemma DrainReady(s: State, u: State, t: Tid, k: nat, m: nat)
    requires k == |s.lists.free| && m < |s.lists.ready| && DrainedTo(s, u, t, k, m)
    ensures DrainedTo(s, Apply(u, DoGet(t)), t, k, m + 1)
  {
    assert u.lists.ready[0] == s.lists.ready[m];
    Departs(u.departed, Departure(s.lists.ready[m], true));
    assert s.lists.ready[..m + 1] == s.lists.ready[..m] + [s.lists.ready[m]];
  }

  lemma DrainNothing(s: State, u: State, t: Tid)
    requires DrainedTo(s, u, t, |s.lists.free|, |s.lists.ready|)
    ensures DrainedTo(s, Apply(u, DoGet(t)), t, |s.lists.free|, |s.lists.ready|)
  {}

  /** One more get. */
  lemma DrainOne(s: State, u: State, t: Tid, k: nat, m: nat)
    requires k <= |s.lists.free| && m <= |s.lists.ready| && (m == 0 || k == |s.lists.free|) && DrainedTo(s, u, t, k, m)
    ensures var k' := if k < |s.lists.free| then k + 1 else k;
      var m' := if k < |s.lists.free| || m == |s.lists.ready| then m else m + 1;
      DrainedTo(s, Apply(u, DoGet(t)), t, k', m')
  {
    if k < |s.lists.free| {
      DrainFree(s, u, t, k, m);
    } else if m < |s.lists.ready| {
      DrainReady(s, u, t, k, m);
    } else {
      DrainNothing(s, u, t);
    }
  }

  function Least(a: int, b: int): int {
    if a < b then a else b
  }

  /** Once the pipes are stopped, gets drain them: the free buffers first, then the stored frames, eldest first. */
  lemma {:induction false} StoppedDrains(s: State, t: Tid, n: nat)
    requires !s.started
    ensures var k := Least(n, |s.lists.free|);
      DrainedTo(s, Gets(s, t, n), t, k, Least(n - k, |s.lists.ready|))
  {
    if n > 0 {
      StoppedDrains(s, t, n - 1);
      var k := Least(n - 1, |s.lists.free|);
      DrainOne(s, Gets(s, t, n - 1), t, k, Least(n - 1 - k, |s.lists.ready|));
    } else {
      NothingDrained(s, t);
    }
  }

  lemma NothingDrained(s: State, t: Tid)
    requires !s.started
    ensures DrainedTo(s, s, t, 0, 0)
  {}

  // ---------------------------------------------------------------- no lost wake-up

  ghost function InPhase(s: State, p: Phase -> bool): set<Tid> {
    set t | t in s.phase && p(s.phase[t])
  }

  /** Signals still to come, and threads that will look at the output list again. */
  ghost function Awaited(s: State): nat {
    |InPhase(s, (p: Phase) => p.Signalling?)| + |InPhase(s, (p: Phase) => p.Woken?)|
  }

  /** While anybody sleeps, every stored frame has a signal or a woken thread coming for it. */
  ghost predicate Covered(s: State) {
    (exists t :: Sleeping(s, t)) ==> |s.lists.ready| <= Awaited(s)
  }

  lemma SetPlus(a: set<Tid>, b: set<Tid>, t: Tid)
    requires b == a + {t} || b == a - {t}
    ensures |b| == if t in a then (if t in b then |a| else |a| - 1) else (if t in b then |a| + 1 else |a|)
  {
    if t in a {
      assert a == (a - {t}) + {t};
    }
    if b == a + {t} && t in a {
      assert a == b;
    } else if b == a - {t} && t !in a {
      assert a == b;
    }
  }

  /** How one thread's change of phase changes a count. */
  lemma PhaseCount(s: State, t: Tid, q: Phase, p: Phase -> bool)
    requires t in s.phase
    ensures |InPhase(s.(phase := s.phase[t := q]), p)|
         == |InPhase(s, p)| + (if p(q) then 1 else 0) - (if p(s.phase[t]) then 1 else 0)
  {
    var a, b := InPhase(s, p), InPhase(s.(phase := s.phase[t := q]), p);
    if p(q) {
      assert b == a + {t};
    } else {
      assert b == a - {t};
    }
    SetPlus(a, b, t);
  }

  function Weight(p: Phase): int {
    if p.Signalling? || p.Woken? then 1 else 0
  }

  lemma AwaitedChanges(s: State, t: Tid, q: Phase)
    requires t in s.phase
    ensures Awaited(s.(phase := s.phase[t := q])) == Awaited(s) + Weight(q) - Weight(s.phase[t])
  {
    PhaseCount(s, t, q, (p: Phase) => p.Signalling?);
    PhaseCount(s, t, q, (p: Phase) => p.Woken?);
  }

  lemma LoadCovered(s: State, t: Tid, otherwise: Phase)
    requires Covered(s) && t in s.phase && (s.phase[t] == Idle || s.phase[t].Woken?)
    requires otherwise == Idle || otherwise.Asleep?
    ensures Covered(TryLoad(s, t, otherwise))
  {
    var u := TryLoad(s, t, otherwise);
    AwaitedChanges(s, t, u.phase[t]);
    assert Awaited(u) == Awaited(s.(phase := u.phase));
    forall v | v != t && Sleeping(u, v)
      ensures Sleeping(s, v)
    {}
  }

  lemma StepCovered(s: State, e: Event)
    requires Enabled(s, e) && Covered(s)
    ensures Covered(Apply(s, e))
  {
    match e
    case DoGet(t) => SamePhasesCovered(s, Apply(s, e));
    case DoPut(t, b) => SamePhasesCovered(s, Apply(s, e));
    case DoStore(t, b) => StoreCovered(s, t, b);
    case DoSignal(t, waked) => SignalCovered(s, t, waked);
    case DoLoad(t, timed) => LoadCovered(s, t, Asleep(timed));
    case DoResume(t) => LoadCovered(s, t, if s.phase[t] == Woken(true) then Idle else Asleep(false));
    case DoLoadNowait(t) => LoadCovered(s, t, Idle);
    case DoWake(t) => WakeCovered(s, t);
    case DoStop => SamePhasesCovered(s, Apply(s, e));
    case DoStart => SamePhasesCovered(s, Apply(s, e));
  }

  lemma SamePhasesCovered(s: State, u: State)
    requires Covered(s) && u.phase == s.phase && |u.lists.ready| <= |s.lists.ready|
    ensures Covered(u)
  {
    assert Awaited(u) == Awaited(s);
    SleepersOf(s, u);
  }

  lemma StoreCovered(s: State, t: Tid, b: Buf)
    requires Enabled(s, DoStore(t, b)) && Covered(s)
    ensures Covered(Apply(s, DoStore(t, b)))
  {
    var u := Apply(s, DoStore(t, b));
    AwaitedChanges(s, t, Signalling);
    assert Awaited(u) == Awaited(s.(phase := u.phase));
    SleepersOf(s, u);
  }

  lemma SignalCovered(s: State, t: Tid, waked: Tid)
    requires Enabled(s, DoSignal(t, waked)) && Covered(s)
    ensures Covered(Apply(s, DoSignal(t, waked)))
  {
    var u := Apply(s, DoSignal(t, waked));
    AwaitedChanges(s, t, Idle);
    var m := s.(phase := s.phase[t := Idle]);
    if Sleeping(m, waked) {
      AwaitedChanges(m, waked, Woken(m.phase[waked].timed));
      assert u.phase == m.phase[waked := Woken(m.phase[waked].timed)];
    } else {
      assert !Sleeping(s, waked);
    }
    SleepersOf(s, u);
  }

  lemma WakeCovered(s: State, t: Tid)
    requires Enabled(s, DoWake(t)) && Covered(s)
    ensures Covered(Apply(s, DoWake(t)))
  {
    var u := Apply(s, DoWake(t));
    AwaitedChanges(s, t, u.phase[t]);
    SleepersOf(s, u);
  }

  lemma SleepersOf(s: State, u: State)
    requires forall v :: v in u.phase && u.phase[v].Asleep? ==> v in s.phase && s.phase[v] == u.phase[v]
    ensures (exists v :: Sleeping(u, v)) ==> exists v :: Sleeping(s, v)
  {
    if v :| Sleeping(u, v) {
      assert Sleeping(s, v);
    }
  }

  // ---------------------------------------------------------------- every run

  ghost predicate Inv(s: State, nframe: nat) {
    Partition(s, nframe) && InOrder(s) && Covered(s)
  }

  lemma InitInv(s: State, nframe: nat)
    requires Init(s, nframe)
    ensures Inv(s, nframe)
  {
    forall b: Buf | b < nframe
      ensures b in s.lists.free
    {
      assert s.lists.free[nframe - 1 - b] == b;
    }
  }

  lemma {:induction false} RunKeeps(s: State, run: seq<Event>, t: State, nframe: nat)
    requires Inv(s, nframe) && Reaches(s, run, t)
    ensures Inv(t, nframe) && (DoStop !in run ==> t.wasStopped == s.wasStopped)
    decreases |run|
  {
    if |run| > 0 {
      StepKeeps(s, run[0], nframe);
      StepCovered(s, run[0]);
      RunKeeps(Apply(s, run[0]), run[1..], t, nframe);
      assert run == [run[0]] + run[1..];
    }
  }

  /** In every reachable state each buffer is in exactly one place. */
  lemma EveryBufferInOnePlace(s: State, run: seq<Event>, t: State, nframe: nat)
    requires Init(s, nframe) && Reaches(s, run, t)
    ensures Partition(t, nframe)
  {
    InitInv(s, nframe);
    RunKeeps(s, run, t, nframe);
  }

  /** Until the first stop, the loaded frames are a prefix of the stored ones and the output list is exactly the
      rest. */
  lemma LoadedIsPrefix(s: State, run: seq<Event>, t: State, nframe: nat)
    requires Init(s, nframe) && Reaches(s, run, t)
    ensures t.stored == Frames(t.departed) + t.lists.ready
    ensures DoStop !in run ==> t.stored == Loaded(t.departed) + t.lists.ready
  {
    InitInv(s, nframe);
    RunKeeps(s, run, t, nframe);
  }

  /** No lost wake-up: whenever somebody sleeps while frames are stored, a signal is still to come or a woken thread
      has yet to look. */
  lemma NoLostWakeUp(s: State, run: seq<Event>, t: State, nframe: nat, sleeper: Tid)
    requires Init(s, nframe) && Reaches(s, run, t) && Sleeping(t, sleeper)
    ensures |t.lists.ready| <= Awaited(t)
  {
    InitInv(s, nframe);
    RunKeeps(s, run, t, nframe);
  }

  /** With a single loading thread, some store then lies between its unlock and its signal. */
  lemma OneLoader(s: State, run: seq<Event>, t: State, nframe: nat, loader: Tid)
    requires Init(s, nframe) && Reaches(s, run, t) && Sleeping(t, loader) && |t.lists.ready| > 0
    requires forall u :: u in t.phase && u != loader ==> !t.phase[u].Woken?
    ensures exists u :: u in t.phase && t.phase[u] == Signalling
  {
    NoLostWakeUp(s, run, t, nframe, loader);
    var woken := InPhase(t, (p: Phase) => p.Woken?);
    assert woken == {};
    var signalling := InPhase(t, (p: Phase) => p.Signalling?);
    assert |signalling| > 0;
    var u :| u in signalling;
  }
}
