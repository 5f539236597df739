/**
 Non-maximum suppression as one greedy choice, the specification all three layers refine.

 Candidates are the positions `0 .. n - 1` of a list in order of preference; `rel(p, q)` says
 that a kept position `p` suppresses the later position `q`.
 */
module GreedyNms {

  predicate Suppressed(kept: seq<nat>, q: nat, rel: (nat, nat) -> bool) {
    exists k :: 0 <= k < |kept| && rel(kept[k], q)
  }

  /** The positions kept among the first `n`. */
  function Greedy(n: nat, rel: (nat, nat) -> bool): (kept: seq<nat>)
    ensures |kept| <= n
    ensures forall k :: 0 <= k < |kept| ==> kept[k] < n
    ensures forall a, b :: 0 <= a < b < |kept| ==> kept[a] < kept[b]
  {
    if n == 0 then [] else
      var g := Greedy(n - 1, rel);
      if Suppressed(g, n - 1, rel) then g else g + [n - 1]
  }

  lemma GreedyNext(n: nat, rel: (nat, nat) -> bool, kept: seq<nat>)
    requires kept == Greedy(n, rel)
    ensures Greedy(n + 1, rel) == if Suppressed(kept, n, rel) then kept else kept + [n]
  {}

  /** Stopping as soon as `limit` positions are kept; a limit of 0 or less never stops. */
  function Limited(n: nat, rel: (nat, nat) -> bool, limit: int): seq<nat> {
    var g := Greedy(n, rel);
    if 1 <= limit < |g| then g[..limit] else g
  }

  predicate Increasing(s: seq<nat>, n: nat) {
    && (forall k :: 0 <= k < |s| ==> s[k] < n)
    && (forall a, b :: 0 <= a < b < |s| ==> s[a] < s[b])
  }

  predicate Independent(s: seq<nat>, rel: (nat, nat) -> bool) {
    forall a, b :: 0 <= a < b < |s| ==> !rel(s[a], s[b])
  }

  predicate SuppressedEarlier(kept: seq<nat>, q: nat, rel: (nat, nat) -> bool) {
    exists k :: 0 <= k < |kept| && kept[k] < q && rel(kept[k], q)
  }

  /** What it means to be a suppression result, without saying how it is computed. */
  ghost predicate IsSelection(kept: seq<nat>, n: nat, rel: (nat, nat) -> bool) {
    && Increasing(kept, n)
    && Independent(kept, rel)
    && forall q: nat :: q < n && q !in kept ==> SuppressedEarlier(kept, q, rel)
  }

  lemma SuppressedGrows(g: seq<nat>, h: seq<nat>, q: nat, rel: (nat, nat) -> bool)
    requires g <= h && SuppressedEarlier(g, q, rel)
    ensures SuppressedEarlier(h, q, rel)
  {
    var k :| 0 <= k < |g| && g[k] < q && rel(g[k], q);
    assert h[k] == g[k];
  }

  lemma {:induction false} GreedyIsSelection(n: nat, rel: (nat, nat) -> bool)
    ensures IsSelection(Greedy(n, rel), n, rel)
  {
    if n > 0 {
      GreedyIsSelection(n - 1, rel);
      var g, h := Greedy(n - 1, rel), Greedy(n, rel);
      assert g <= h;
      forall q: nat | q < n && q !in h
        ensures SuppressedEarlier(h, q, rel)
      {
        if q < n - 1 {
          assert q !in g;
          SuppressedGrows(g, h, q, rel);
        } else {
          assert h == g;
        }
      }
    }
  }

  lemma {:induction false} IncreasingShort(s: seq<nat>, n: nat)
    requires Increasing(s, n)
    ensures |s| <= n
  {
    if s != [] {
      IncreasingShort(s[..|s| - 1], s[|s| - 1]);
    }
  }

  /** There is only one suppression result. */
  lemma {:induction false} SelectionUnique(kept: seq<nat>, n: nat, rel: (nat, nat) -> bool)
    requires IsSelection(kept, n, rel)
    ensures kept == Greedy(n, rel)
    decreases n
  {
    if n == 0 {
      IncreasingShort(kept, n);
    } else if n - 1 in kept {
      var front := kept[..|kept| - 1];
      assert kept == front + [n - 1];
      DropLast(kept, front, n, rel);
      SelectionUnique(front, n - 1, rel);
    } else {
      assert forall k :: 0 <= k < |kept| ==> kept[k] != n - 1;
      SelectionUnique(kept, n - 1, rel);
    }
  }

  lemma DropLast(kept: seq<nat>, front: seq<nat>, n: nat, rel: (nat, nat) -> bool)
    requires n >= 1 && IsSelection(kept, n, rel) && kept == front + [n - 1]
    ensures IsSelection(front, n - 1, rel)
    ensures !Suppressed(front, n - 1, rel)
  {
    assert forall k :: 0 <= k < |front| ==> front[k] == kept[k] && kept[k] < kept[|front|];
    forall q: nat | q < n - 1 && q !in front
      ensures SuppressedEarlier(front, q, rel)
    {
      assert q !in kept;
      var k :| 0 <= k < |kept| && kept[k] < q && rel(kept[k], q);
      assert front[k] == kept[k];
    }
  }

  lemma {:induction false} GreedyExtends(m: nat, n: nat, rel: (nat, nat) -> bool)
    requires m <= n
    ensures Greedy(m, rel) <= Greedy(n, rel)
    decreases n - m
  {
    if m < n {
      GreedyExtends(m + 1, n, rel);
    }
  }

  /** Only the verdicts on ordered pairs matter. */
  lemma {:induction false} GreedySameTests(n: nat, rel: (nat, nat) -> bool, rel': (nat, nat) -> bool)
    requires forall p, q :: 0 <= p < q < n ==> rel(p, q) == rel'(p, q)
    ensures Greedy(n, rel) == Greedy(n, rel')
  {
    if n > 0 {
      GreedySameTests(n - 1, rel, rel');
    }
  }

  /** A run that stopped early has exactly the first `limit` positions of the full result. */
  lemma StoppedRun(m: nat, n: nat, rel: (nat, nat) -> bool, limit: nat)
    requires m <= n && limit >= 1 && |Greedy(m, rel)| == limit
    ensures Limited(n, rel, limit) == Greedy(m, rel)
  {
    GreedyExtends(m, n, rel);
  }
}
