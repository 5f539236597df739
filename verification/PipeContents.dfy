/** What the buffers of a pipe carry: a frame arrives as it was stored, because only its holder can write a buffer. */
module PipeContents {
  import opened PipeLists
  import opened PipeProtocol

  /** The pipe, its buffers' contents, and the contents at every store and at every departure. */
  datatype Carrier<D> = Carrier(pipe: State, content: Buf -> D, written: seq<D>, delivered: seq<D>)

  /** A step of the protocol, or a thread filling a buffer it holds. */
  datatype Action<D> = Step(e: Event) | Fill(t: Tid, b: Buf, d: D)

  ghost predicate Possible<D>(s: Carrier<D>, a: Action<D>) {
    match a
    case Step(e) => Enabled(s.pipe, e)
    case Fill(t, b, d) => b in s.pipe.held && s.pipe.held[b] == t
  }

  function Update<D>(content: Buf -> D, b: Buf, d: D): Buf -> D {
    (x: Buf) => if x == b then d else content(x)
  }

  /** The frame a step takes off the output list. */
  predicate Leaves(s: State, e: Event) {
    |s.lists.ready| > 0 && |Apply(s, e).departed| > |s.departed|
  }

  function Act<D>(s: Carrier<D>, a: Action<D>): Carrier<D> {
    match a
    case Fill(t, b, d) => s.(content := Update(s.content, b, d))
    case Step(e) =>
      s.(pipe := Apply(s.pipe, e),
         written := if e.DoStore? then s.written + [s.content(e.b)] else s.written,
         delivered := if Leaves(s.pipe, e) then s.delivered + [s.content(s.pipe.lists.ready[0])] else s.delivered)
  }

  ghost predicate Leads<D>(s: Carrier<D>, run: seq<Action<D>>, t: Carrier<D>)
    decreases |run|
  {
    if |run| == 0 then s == t
    else Possible(s, run[0]) && Leads(Act(s, run[0]), run[1..], t)
  }

  /** Listed frames still carry what was stored, and the departed ones did when they left. */
  ghost predicate Carried<D>(s: Carrier<D>) {
    && |s.written| == |s.pipe.departed| + |s.pipe.lists.ready|
    && s.delivered == s.written[..|s.pipe.departed|]
    && forall i :: 0 <= i < |s.pipe.lists.ready| ==>
      s.content(s.pipe.lists.ready[i]) == s.written[|s.pipe.departed| + i]
  }

  /** How a step changes the output list: a frame comes in behind, or leaves in front, or nothing happens. */
  ghost predicate ReadyChange(s: State, e: Event) {
    var u := Apply(s, e);
    if e.DoStore? then u.lists.ready == s.lists.ready + [e.b] && u.departed == s.departed
    else if Leaves(s, e) then u.lists.ready == s.lists.ready[1..] && |u.departed| == |s.departed| + 1
    else u.lists.ready == s.lists.ready && u.departed == s.departed
  }

  lemma StepChanges(s: State, e: Event)
    requires Enabled(s, e)
    ensures ReadyChange(s, e)
  {}

  lemma StepCarries<D>(s: Carrier<D>, e: Event)
    requires Carried(s) && ReadyChange(s.pipe, e)
    ensures Carried(Act(s, Step(e)))
  {
    var u := Act(s, Step(e));
    var n := |s.pipe.departed|;
    if Leaves(s.pipe, e) {
      assert s.written[..n + 1] == s.written[..n] + [s.written[n]];
    } else if e.DoStore? {
      assert u.written[..n] == s.written[..n];
    }
  }

  /** Filling a held buffer touches no listed one. */
  lemma FillCarries<D>(s: Carrier<D>, t: Tid, b: Buf, d: D, nframe: nat)
    requires Carried(s) && Partition(s.pipe, nframe) && b in s.pipe.held
    ensures Carried(Act(s, Fill(t, b, d)))
  {
    forall i | 0 <= i < |s.pipe.lists.ready|
      ensures Update(s.content, b, d)(s.pipe.lists.ready[i]) == s.written[|s.pipe.departed| + i]
    {
      assert s.pipe.lists.ready[i] in s.pipe.lists.ready;
    }
  }

  lemma {:induction false} RunCarries<D>(s: Carrier<D>, run: seq<Action<D>>, t: Carrier<D>, nframe: nat)
    requires Inv(s.pipe, nframe) && Carried(s) && Leads(s, run, t)
    ensures Inv(t.pipe, nframe) && Carried(t)
    decreases |run|
  {
    if |run| > 0 {
      match run[0]
      case Step(e) =>
        StepChanges(s.pipe, e);
        StepCarries(s, e);
        StepKeeps(s.pipe, e, nframe);
        StepCovered(s.pipe, e);
        RunCarries(Act(s, run[0]), run[1..], t, nframe);
      case Fill(u, b, d) =>
        FillCarries(s, u, b, d, nframe);
        RunCarries(Act(s, run[0]), run[1..], t, nframe);
    }
  }

  /** A fresh pipe. */
  ghost predicate Fresh<D>(s: Carrier<D>, nframe: nat) {
    Init(s.pipe, nframe) && s.written == [] && s.delivered == []
  }

  /** Over every run, the `k`-th frame that leaves is what was in its buffer at the `k`-th store. */
  lemma ArriveIntact<D>(s: Carrier<D>, run: seq<Action<D>>, t: Carrier<D>, nframe: nat)
    requires Fresh(s, nframe) && Leads(s, run, t)
    ensures |t.delivered| == |t.pipe.departed| <= |t.written| == |t.pipe.stored|
    ensures t.delivered == t.written[..|t.delivered|]
  {
    InitInv(s.pipe, nframe);
    RunCarries(s, run, t, nframe);
  }

  /** Some run of a fresh pipe leads here. */
  ghost predicate Reached<D(!new)>(t: Carrier<D>, nframe: nat) {
    exists s: Carrier<D>, run: seq<Action<D>> :: Fresh(s, nframe) && Leads(s, run, t)
  }

  /** Giving a buffer back first and reading it then is another matter: the next `dpipe_get` gets the very same one. */
  lemma ReadAfterPut<D>(s: Carrier<D>, t: Tid, u: Tid, b: Buf, d: D)
    requires t in s.pipe.phase && s.pipe.phase[t] == Idle && b in s.pipe.held && s.pipe.held[b] == t
    requires u in s.pipe.phase && s.pipe.phase[u] == Idle
    ensures exists v :: Leads(s, [Step(DoPut(t, b)), Step(DoGet(u)), Fill(u, b, d)], v) && v.content(b) == d
  {
    var x := Act(s, Step(DoPut(t, b)));
    var y := Act(x, Step(DoGet(u)));
    var v := Act(y, Fill(u, b, d));
    var run := [Step(DoPut(t, b)), Step(DoGet(u)), Fill(u, b, d)];
    assert y.pipe.held[b] == u;
    assert run[1..][1..] == [Fill(u, b, d)] && run[1..][1..][1..] == [];
    assert Leads(v, [], v);
    assert Leads(y, run[1..][1..], v);
    assert Leads(x, run[1..], v);
    assert Leads(s, run, v);
  }
}
