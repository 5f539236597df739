/** The surface allocator: decode surfaces are shared per owner and counted, all others have one response each. */
module SurfaceAllocator {

  type Owner = int
  type SurfaceArray = nat

  datatype Status = MFX_ERR_NONE | MFX_ERR_UNSUPPORTED | MFX_ERR_NULL_PTR | MFX_ERR_MEMORY_ALLOC

  /** The memory type flags the allocator looks at. */
  datatype Request = Request(system: bool, external: bool, fromDecode: bool) {
    predicate Decode() {
      external && fromDecode
    }
  }

  /** A response handed to the library; the array is gone once it was freed through this response. */
  class Response {
    var mids: SurfaceArray
    var valid: bool

    constructor ()
      ensures !valid
    {
      mids, valid := 0, false;
    }
  }

  /** What an outstanding response stands for. */
  datatype Ticket = Ticket(owner: Owner, surfaces: SurfaceArray, decode: bool)

  /** The allocator's three maps, the device's release counts, and the outstanding responses. */
  datatype Books = Books(
    allocResponses: map<SurfaceArray, Owner>,
    decodeResponses: map<Owner, SurfaceArray>,
    decodeRefCount: map<Owner, int>,
    releases: seq<nat>,
    live: map<Response, Ticket>)

  // ---------------------------------------------------------------- the invariant

  /** Outstanding decode responses of an owner. */
  ghost function Holders(live: map<Response, Ticket>, p: Owner): set<Response> {
    set r | r in live && live[r].decode && live[r].owner == p
  }

  ghost predicate Held(live: map<Response, Ticket>, a: SurfaceArray) {
    exists r :: r in live && live[r].surfaces == a
  }

  /** An owner's count is the number of its outstanding decode responses, and they all share its one array. */
  ghost predicate Counted(b: Books) {
    && (forall p :: p in b.decodeResponses <==> p in b.decodeRefCount)
    && (forall p :: p in b.decodeRefCount ==> b.decodeRefCount[p] == |Holders(b.live, p)| && Holders(b.live, p) != {})
    && (forall r :: r in b.live && b.live[r].decode ==>
          b.live[r].owner in b.decodeResponses && b.decodeResponses[b.live[r].owner] == b.live[r].surfaces)
  }

  /** Every other array has exactly one outstanding response. */
  ghost predicate Single(b: Books) {
    && (forall r :: r in b.live && !b.live[r].decode ==> b.live[r].surfaces in b.allocResponses)
    && (forall r, s :: r in b.live && s in b.live && r != s && !b.live[r].decode && !b.live[s].decode ==>
          b.live[r].surfaces != b.live[s].surfaces)
    && (forall a :: a in b.allocResponses ==> Held(b.live, a))
  }

  /** No array serves two purposes. */
  ghost predicate Apart(b: Books) {
    && (forall p, q :: p in b.decodeResponses && q in b.decodeResponses && p != q ==>
      b.decodeResponses[p] != b.decodeResponses[q])
    && (forall p :: p in b.decodeResponses ==> b.decodeResponses[p] !in b.allocResponses)
  }

  ghost predicate Known(b: Books, a: SurfaceArray) {
    a in b.allocResponses || exists p :: p in b.decodeResponses && b.decodeResponses[p] == a
  }

  /** Exactly the arrays on the books are unreleased; every other one was released once. */
  ghost predicate Released(b: Books) {
    forall a: SurfaceArray ::
      (Known(b, a) ==> a < |b.releases|) && (a < |b.releases| ==> b.releases[a] == if Known(b, a) then 0 else 1)
  }

  ghost predicate Inv(b: Books) {
    Counted(b) && Single(b) && Apart(b) && Released(b)
  }

  // ---------------------------------------------------------------- the transitions

  function Share(b: Books, p: Owner, r: Response): Books
    requires p in b.decodeResponses && p in b.decodeRefCount
  {
    b.(decodeRefCount := b.decodeRefCount[p := b.decodeRefCount[p] + 1],
       live := b.live[r := Ticket(p, b.decodeResponses[p], true)])
  }

  function Fresh(b: Books, p: Owner, r: Response, decode: bool): Books {
    var a := |b.releases|;
    var c := b.(releases := b.releases + [0], live := b.live[r := Ticket(p, a, decode)]);
    if decode then c.(decodeResponses := b.decodeResponses[p := a], decodeRefCount := b.decodeRefCount[p := 1])
    else c.(allocResponses := b.allocResponses[a := p])
  }

  ghost function Free(b: Books, p: Owner, r: Response): Books
    requires Inv(b) && Freeable(b, p, r)
  {
    FreeDefined(b, p, r);
    var a := b.live[r].surfaces;
    var c := b.(live := b.live - {r});
    if a in b.allocResponses then
      c.(allocResponses := b.allocResponses - {a}, releases := b.releases[a := b.releases[a] + 1])
    else if b.decodeRefCount[p] == 1 then
      c.(decodeResponses := b.decodeResponses - {p}, decodeRefCount := b.decodeRefCount - {p},
        releases := b.releases[a := b.releases[a] + 1])
    else
      c.(decodeRefCount := b.decodeRefCount[p := b.decodeRefCount[p] - 1])
  }

  lemma HoldersAdd(live: map<Response, Ticket>, r: Response, t: Ticket, p: Owner)
    requires r !in live
    ensures Holders(live[r := t], p) == Holders(live, p) + if t.decode && t.owner == p then {r} else {}
    ensures |Holders(live[r := t], p)| == |Holders(live, p)| + if t.decode && t.owner == p then 1 else 0
  {
    var h := Holders(live, p);
    assert Holders(live[r := t], p) == h + if t.decode && t.owner == p then {r} else {};
  }

  lemma HoldersRemove(live: map<Response, Ticket>, r: Response, p: Owner)
    requires r in live
    ensures Holders(live - {r}, p) == Holders(live, p) - {r}
    ensures |Holders(live - {r}, p)| == |Holders(live, p)| - if live[r].decode && live[r].owner == p then 1 else 0
  {
    assert Holders(live - {r}, p) == Holders(live, p) - {r};
  }

  lemma HeldLonger(live: map<Response, Ticket>, more: map<Response, Ticket>, a: SurfaceArray)
    requires Held(live, a) && forall r :: r in live ==> r in more && more[r] == live[r]
    ensures Held(more, a)
  {
    var r :| r in live && live[r].surfaces == a;
    assert r in more;
  }

  lemma KnownSame(b: Books, c: Books)
    requires b.allocResponses == c.allocResponses && b.decodeResponses == c.decodeResponses
    ensures forall a :: Known(b, a) <==> Known(c, a)
  {}

  /** One more response for the array an owner already has. */
  lemma ShareCounted(b: Books, p: Owner, r: Response)
    requires Counted(b) && p in b.decodeResponses && r !in b.live
    ensures Counted(Share(b, p, r))
  {
    var c := Share(b, p, r);
    forall q | q in c.decodeRefCount
      ensures c.decodeRefCount[q] == |Holders(c.live, q)| && Holders(c.live, q) != {}
    {
      HoldersAdd(b.live, r, Ticket(p, b.decodeResponses[p], true), q);
    }
  }

  lemma ShareSingle(b: Books, p: Owner, r: Response)
    requires Single(b) && p in b.decodeResponses && p in b.decodeRefCount && r !in b.live
    ensures Single(Share(b, p, r))
  {
    var c := Share(b, p, r);
    forall a | a in c.allocResponses
      ensures Held(c.live, a)
    {
      HeldLonger(b.live, c.live, a);
    }
  }

  lemma ShareKeeps(b: Books, p: Owner, r: Response)
    requires Inv(b) && p in b.decodeResponses && r !in b.live
    ensures Inv(Share(b, p, r))
  {
    ShareCounted(b, p, r);
    ShareSingle(b, p, r);
    KnownSame(b, Share(b, p, r));
  }

  lemma FreshCounted(b: Books, p: Owner, r: Response, decode: bool)
    requires Counted(b) && r !in b.live && (decode ==> p !in b.decodeResponses)
    ensures Counted(Fresh(b, p, r, decode))
  {
    var c := Fresh(b, p, r, decode);
    forall q
      ensures |Holders(c.live, q)| == |Holders(b.live, q)| + if decode && q == p then 1 else 0
    {
      HoldersAdd(b.live, r, Ticket(p, |b.releases|, decode), q);
    }
    if decode {
      NoHolders(b, p);
    }
    forall q | q in c.decodeRefCount
      ensures c.decodeRefCount[q] == |Holders(c.live, q)| && Holders(c.live, q) != {}
    {
      HoldersAdd(b.live, r, Ticket(p, |b.releases|, decode), q);
    }
  }

  lemma NoHolders(b: Books, p: Owner)
    requires Counted(b) && p !in b.decodeResponses
    ensures Holders(b.live, p) == {}
  {
    assert forall r :: r in b.live && b.live[r].decode ==> b.live[r].owner != p;
  }

  lemma FreshSingle(b: Books, p: Owner, r: Response, decode: bool)
    requires Inv(b) && r !in b.live
    ensures Single(Fresh(b, p, r, decode))
  {
    var c := Fresh(b, p, r, decode);
    assert !Known(b, |b.releases|);
    forall a | a in c.allocResponses
      ensures Held(c.live, a)
    {
      if a == |b.releases| && !decode {
        assert c.live[r].surfaces == a;
      } else {
        HeldLonger(b.live, c.live, a);
      }
    }
  }

  lemma FreshApart(b: Books, p: Owner, r: Response, decode: bool)
    requires Inv(b) && r !in b.live && (decode ==> p !in b.decodeResponses)
    ensures Apart(Fresh(b, p, r, decode)) && Released(Fresh(b, p, r, decode))
  {
    var c := Fresh(b, p, r, decode);
    var n := |b.releases|;
    assert !Known(b, n);
    forall a
      ensures Known(c, a) <==> Known(b, a) || a == n
    {
      if a == n && decode {
        assert c.decodeResponses[p] == n;
      }
      if q :| q in b.decodeResponses && b.decodeResponses[q] == a {
        assert c.decodeResponses[q] == a;
      }
    }
  }

  lemma FreshKeeps(b: Books, p: Owner, r: Response, decode: bool)
    requires Inv(b) && r !in b.live && (decode ==> p !in b.decodeResponses)
    ensures Inv(Fresh(b, p, r, decode))
  {
    FreshCounted(b, p, r, decode);
    FreshSingle(b, p, r, decode);
    FreshApart(b, p, r, decode);
  }

  /** A live response stands for an array on the books. */
  lemma LiveKnown(b: Books, r: Response)
    requires Inv(b) && r in b.live
    ensures Known(b, b.live[r].surfaces) && b.live[r].surfaces < |b.releases|
    ensures b.live[r].decode <==> b.live[r].surfaces !in b.allocResponses
    ensures b.live[r].decode ==> b.live[r].owner in b.decodeRefCount
  {
    var t := b.live[r];
    if t.decode {
      assert b.decodeResponses[t.owner] == t.surfaces;
    }
    assert Known(b, t.surfaces);
  }

  ghost predicate Freeable(b: Books, p: Owner, r: Response) {
    r in b.live && (b.live[r].decode ==> b.live[r].owner == p)
  }

  lemma FreeDefined(b: Books, p: Owner, r: Response)
    requires Inv(b) && Freeable(b, p, r)
    ensures b.live[r].surfaces < |b.releases| && (b.live[r].surfaces !in b.allocResponses ==> p in b.decodeRefCount)
  {
    LiveKnown(b, r);
  }

  /** The holders of every owner after a free. */
  lemma HoldersFreed(b: Books, p: Owner, r: Response, q: Owner)
    requires Inv(b) && Freeable(b, p, r)
    ensures Holders(b.live - {r}, q)
         == if b.live[r].decode && q == p then Holders(b.live, q) - {r} else Holders(b.live, q)
    ensures |Holders(b.live - {r}, q)| == |Holders(b.live, q)| - if b.live[r].decode && q == p then 1 else 0
  {
    HoldersRemove(b.live, r, q);
  }

  lemma FreeCounted(b: Books, p: Owner, r: Response)
    requires Inv(b) && Freeable(b, p, r)
    ensures Counted(Free(b, p, r))
  {
    LiveKnown(b, r);
    var c := Free(b, p, r);
    forall q | q in c.decodeRefCount
      ensures c.decodeRefCount[q] == |Holders(c.live, q)| && Holders(c.live, q) != {}
    {
      HoldersFreed(b, p, r, q);
    }
    forall s | s in c.live && c.live[s].decode
      ensures c.live[s].owner in c.decodeResponses && c.decodeResponses[c.live[s].owner] == c.live[s].surfaces
    {
      StillServed(b, p, r, s);
    }
  }

  /** An owner with another outstanding decode response is still on the books. */
  lemma StillServed(b: Books, p: Owner, r: Response, s: Response)
    requires Inv(b) && Freeable(b, p, r) && s in b.live && s != r && b.live[s].decode
    ensures var c := Free(b, p, r);
      b.live[s].owner in c.decodeResponses && c.decodeResponses[b.live[s].owner] == b.live[s].surfaces
  {
    LiveKnown(b, r);
    var q := b.live[s].owner;
    assert s in Holders(b.live - {r}, q);
    HoldersFreed(b, p, r, q);
    LiveKnown(b, s);
  }

  lemma FreeSingle(b: Books, p: Owner, r: Response)
    requires Inv(b) && Freeable(b, p, r)
    ensures Single(Free(b, p, r))
  {
    LiveKnown(b, r);
    var c := Free(b, p, r);
    forall a | a in c.allocResponses
      ensures Held(c.live, a)
    {
      var s :| s in b.live && b.live[s].surfaces == a;
      LiveKnown(b, s);
      assert s in c.live && c.live[s].surfaces == a;
    }
  }

  lemma FreeReleased(b: Books, p: Owner, r: Response)
    requires Inv(b) && Freeable(b, p, r)
    ensures Apart(Free(b, p, r)) && Released(Free(b, p, r))
  {
    LiveKnown(b, r);
    var c, t := Free(b, p, r), b.live[r];
    var gone := t.surfaces in b.allocResponses || b.decodeRefCount[p] == 1;
    forall a
      ensures Known(c, a) <==> Known(b, a) && !(gone && a == t.surfaces)
    {
      if q :| q in b.decodeResponses && b.decodeResponses[q] == a {
        if q in c.decodeResponses {
          assert c.decodeResponses[q] == a;
        }
      }
    }
  }

  lemma FreeKeeps(b: Books, p: Owner, r: Response)
    requires Inv(b) && Freeable(b, p, r)
    ensures Inv(Free(b, p, r))
  {
    FreeCounted(b, p, r);
    FreeSingle(b, p, r);
    FreeReleased(b, p, r);
  }

  lemma KnownIsHeld(b: Books, a: SurfaceArray)
    requires Inv(b) && Known(b, a)
    ensures Held(b.live, a)
  {
    if a !in b.allocResponses {
      var p :| p in b.decodeResponses && b.decodeResponses[p] == a;
      assert p in b.decodeRefCount;
      var r :| r in Holders(b.live, p);
      assert b.live[r].surfaces == a;
    }
  }

  lemma HeldIsKnown(b: Books, a: SurfaceArray)
    requires Inv(b) && Held(b.live, a)
    ensures Known(b, a)
  {
    var r :| r in b.live && b.live[r].surfaces == a;
    LiveKnown(b, r);
  }

  /** An array was released, and only once, exactly when no outstanding response stands for it any more. */
  lemma ReleasedAtLastFree(b: Books, a: SurfaceArray)
    requires Inv(b) && a < |b.releases|
    ensures b.releases[a] == if Held(b.live, a) then 0 else 1
  {
    if Known(b, a) {
      KnownIsHeld(b, a);
    }
    if Held(b.live, a) {
      HeldIsKnown(b, a);
    }
  }

  /** All outstanding decode responses of an owner stand for one array, and the count says how many there are. */
  lemma OwnersShare(b: Books, p: Owner)
    requires Inv(b)
    ensures |Holders(b.live, p)| == if p in b.decodeRefCount then b.decodeRefCount[p] else 0
    ensures forall r, s :: r in Holders(b.live, p) && s in Holders(b.live, p) ==>
      b.live[r].surfaces == b.live[s].surfaces
  {
    if p !in b.decodeResponses {
      NoHolders(b, p);
    }
  }

  // ---------------------------------------------------------------- the allocator

  class Allocator {
    var allocResponses: map<SurfaceArray, Owner>
    var allocDecodeResponses: map<Owner, SurfaceArray>
    var allocDecodeRefCount: map<Owner, int>
    var releases: seq<nat>
    ghost var live: map<Response, Ticket>

    ghost function Of(): Books
      reads this
    {
      Books(allocResponses, allocDecodeResponses, allocDecodeRefCount, releases, live)
    }

    ghost predicate Valid()
      reads this
    {
      Inv(Of())
    }

    constructor ()
      ensures Valid() && live == map[] && releases == []
    {
      allocResponses, allocDecodeResponses, allocDecodeRefCount := map[], map[], map[];
      releases := [];
      live := map[];
    }

    /** A missing count starts at zero. */
    method CountUp(pthis: Owner)
      modifies this`allocDecodeRefCount
      ensures var n := if pthis in old(allocDecodeRefCount) then old(allocDecodeRefCount)[pthis] else 0;
        allocDecodeRefCount == old(allocDecodeRefCount)[pthis := n + 1]
    {
      var count := if pthis in allocDecodeRefCount then allocDecodeRefCount[pthis] else 0;
      allocDecodeRefCount := allocDecodeRefCount[pthis := count + 1];
    }

    /** The response an owner's decoder already has. */
    method AllocShared(pthis: Owner, response: Response)
      requires Valid() && response !in live && pthis in allocDecodeResponses && pthis in allocDecodeRefCount
      modifies this, response
      ensures Valid() && Of() == Share(old(Of()), pthis, response)
      ensures response.valid && response.mids == live[response].surfaces
    {
      ShareKeeps(Of(), pthis, response);
      response.mids, response.valid := allocDecodeResponses[pthis], true;
      CountUp(pthis);
      live := live[response := Ticket(pthis, response.mids, true)];
    }

    /** A new array. */
    method AllocFresh(pthis: Owner, decode: bool, response: Response)
      requires Valid() && response !in live && (decode ==> pthis !in allocDecodeResponses)
      modifies this, response
      ensures Valid() && Of() == Fresh(old(Of()), pthis, response, decode)
      ensures response.valid && response.mids == live[response].surfaces
    {
      FreshKeeps(Of(), pthis, response, decode);
      response.mids, response.valid := |releases|, true;
      releases := releases + [0];
      if decode {
        allocDecodeResponses := allocDecodeResponses[pthis := response.mids];
        CountUp(pthis);
      } else {
        allocResponses := allocResponses[response.mids := pthis];
      }
      live := live[response := Ticket(pthis, response.mids, decode)];
    }

    /** `simple_alloc`; `available` says whether the device can create the surfaces. */
    method Alloc(pthis: Owner, request: Request, response: Response, available: bool) returns (sts: Status)
      requires Valid() && response !in live
      modifies this, response
      ensures Valid()
      ensures sts == if request.system then MFX_ERR_UNSUPPORTED
                     else if available || (pthis in old(allocDecodeResponses) && request.Decode()) then MFX_ERR_NONE
                     else MFX_ERR_MEMORY_ALLOC
      ensures sts != MFX_ERR_NONE ==> Of() == old(Of())
      ensures sts == MFX_ERR_NONE ==> response in live && response.valid && response.mids == live[response].surfaces
      ensures sts == MFX_ERR_NONE && pthis in old(allocDecodeResponses) && request.Decode() ==>
                pthis in old(allocDecodeRefCount) && Of() == Share(old(Of()), pthis, response)
      ensures sts == MFX_ERR_NONE && !(pthis in old(allocDecodeResponses) && request.Decode()) ==>
                Of() == Fresh(old(Of()), pthis, response, request.Decode())
      ensures sts == MFX_ERR_NONE && !(request.external && request.fromDecode) ==>
                && response.mids == |old(releases)| && response.mids in allocResponses
                && allocDecodeResponses == old(allocDecodeResponses) && allocDecodeRefCount == old(allocDecodeRefCount)
      ensures sts == MFX_ERR_NONE && request.external && request.fromDecode ==>
                && pthis in allocDecodeResponses && allocDecodeResponses[pthis] == response.mids
                && allocResponses == old(allocResponses)
                && response.mids == (if pthis in old(allocDecodeResponses) then old(allocDecodeResponses)[pthis]
                                     else |old(releases)|)
    {
      if request.system {
        return MFX_ERR_UNSUPPORTED;
      }
      if pthis in allocDecodeResponses && request.Decode() {
        AllocShared(pthis, response);
      } else {
        if !available {
          return MFX_ERR_MEMORY_ALLOC;
        }
        AllocFresh(pthis, request.Decode(), response);
      }
      return MFX_ERR_NONE;
    }

    /** `_simple_free`: the surfaces go back to the device and the response loses its array. */
    method Release(response: Response)
      requires response.mids < |releases|
      modifies this`releases, response
      ensures releases == old(releases)[old(response.mids) := old(releases)[old(response.mids)] + 1] && !response.valid
    {
      releases := releases[response.mids := releases[response.mids] + 1];
      response.valid := false;
    }

    /** `simple_free`, for an outstanding response; a decode response is freed by its owner. */
    method FreeResponse(pthis: Owner, response: Response?) returns (sts: Status)
      requires Valid()
      requires response != null ==> Freeable(Of(), pthis, response) && response.mids == live[response].surfaces
      modifies this, response
      ensures Valid()
      ensures response == null ==> sts == MFX_ERR_NULL_PTR && Of() == old(Of())
      ensures response != null ==> sts == MFX_ERR_NONE && Freed(old(Of()), Of(), pthis, response)
    {
      if response == null {
        return MFX_ERR_NULL_PTR;
      }
      FreeKeeps(Of(), pthis, response);
      ghost var b := Of();
      if response.mids !in allocResponses {
        FreeDecode(pthis, response);
      } else {
        allocResponses := allocResponses - {response.mids};
        Release(response);
      }
      live := live - {response};
      assert Of() == Free(b, pthis, response);
      sts := MFX_ERR_NONE;
    }

    /** One holder less; the last one releases the shared array. */
    method FreeDecode(pthis: Owner, response: Response)
      requires pthis in allocDecodeRefCount && response.mids < |releases|
      modifies this`allocDecodeRefCount, this`allocDecodeResponses, this`releases, response
      ensures var n, a := old(allocDecodeRefCount)[pthis], old(response.mids);
        if n == 1 then
          && allocDecodeRefCount == old(allocDecodeRefCount) - {pthis}
          && allocDecodeResponses == old(allocDecodeResponses) - {pthis}
          && releases == old(releases)[a := old(releases)[a] + 1] && !response.valid
        else
          && allocDecodeRefCount == old(allocDecodeRefCount)[pthis := n - 1]
          && allocDecodeResponses == old(allocDecodeResponses)
          && releases == old(releases)
    {
      allocDecodeRefCount := allocDecodeRefCount[pthis := allocDecodeRefCount[pthis] - 1];
      if allocDecodeRefCount[pthis] == 0 {
        Release(response);
        allocDecodeResponses := allocDecodeResponses - {pthis};
        allocDecodeRefCount := allocDecodeRefCount - {pthis};
      }
    }
  }

  /** One response less. */
  ghost predicate Freed(b: Books, c: Books, p: Owner, r: Response) {
    Inv(b) && Freeable(b, p, r) && c == Free(b, p, r)
  }
}
