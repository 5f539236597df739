/** The frame pipe on the heap: buffers linked into a free list and an output list with a tail pointer. */
module FramePipe {
  import opened PipeLists

  class Buffer {
    var next: Buffer?

    constructor ()
      ensures next == null
    {
      next := null;
    }
  }

  /** The nodes of `s`, in order, are the list that starts at `head`. */
  ghost predicate Chain(head: Buffer?, s: seq<Buffer>)
    reads s
  {
    && (|s| == 0 ==> head == null)
    && (|s| > 0 ==> head == s[0] && s[|s| - 1].next == null)
    && forall i :: 0 <= i < |s| - 1 ==> s[i].next == s[i + 1]
  }

  /** What a method hands out, as an outcome. */
  ghost predicate Gives(o: Outcome<Buffer>, vbuf: Buffer?, retry: bool) {
    match o
    case Took(b) => vbuf == b && !retry
    case Nothing => vbuf == null && !retry
    case Retry => vbuf == null && retry
  }

  class Pipe {
    var in_: Buffer?
    var out: Buffer?
    var out_tail: Buffer?
    var in_count: int
    var out_count: int
    ghost var lists: Lists<Buffer>

    ghost function Nodes(): set<Buffer>
      reads this
    {
      (set b | b in lists.free) + (set b | b in lists.ready)
    }

    /** Two disjoint acyclic chains, a tail pointer that is null exactly when the output is empty, and two counts. */
    ghost predicate Valid()
      reads this, Nodes()
    {
      && Distinct(lists)
      && Chain(in_, lists.free) && Chain(out, lists.ready)
      && out_tail == (if |lists.ready| == 0 then null else lists.ready[|lists.ready| - 1])
      && in_count == |lists.free| && out_count == |lists.ready|
    }

    /** `nframe` free buffers. */
    constructor (nframe: nat)
      ensures Valid() && fresh(Nodes()) && |lists.free| == nframe && lists.ready == []
    {
      in_, out, out_tail := null, null, null;
      in_count, out_count := 0, 0;
      lists := Lists([], []);
      new;
      for i := 0 to nframe
        invariant Valid() && fresh(Nodes()) && |lists.free| == i && lists.ready == []
        invariant forall b :: b in Nodes() ==> allocated(b)
      {
        var dbuffer := new Buffer();
        Push(dbuffer);
      }
    }

    /** Links a buffer in front of the free list. */
    method Push(buffer: Buffer)
      requires Valid() && buffer !in Nodes()
      modifies this, buffer
      ensures Valid() && lists == Put(old(lists), buffer)
    {
      buffer.next := in_;
      in_ := buffer;
      in_count := in_count + 1;
      lists := Put(lists, buffer);
    }

    /** Unlinks the head of the output list, if any. */
    method Pop() returns (vbuf: Buffer?)
      requires Valid()
      modifies this, Nodes()
      ensures Valid() && lists == Load(old(lists)).0
      ensures Gives(Load(old(lists)).1, vbuf, false)
      ensures vbuf != null ==> vbuf.next == null && vbuf !in Nodes()
    {
      vbuf := null;
      if out != null {
        vbuf := out;
        out := vbuf.next;
        vbuf.next := null;
        if out == null {
          out_tail := null;
        }
        out_count := out_count - 1;
        lists := Load(lists).0;
      }
    }

    /** One attempt of `dpipe_get`; `retry` means to sleep a while and lock again. */
    method Get(started: bool) returns (vbuf: Buffer?, retry: bool)
      requires Valid()
      modifies this, Nodes()
      ensures Valid() && lists == PipeLists.Get(old(lists), started).0
      ensures Gives(PipeLists.Get(old(lists), started).1, vbuf, retry)
      ensures retry <==> started && |old(lists).free| == 0
      ensures |old(lists).free| > 0 ==>
        vbuf == old(lists).free[0] && lists == Lists(old(lists).free[1..], old(lists).ready)
      ensures |old(lists).free| == 0 && !started && |old(lists).ready| > 0 ==>
        vbuf == old(lists).ready[0] && lists == Lists([], old(lists).ready[1..])
      ensures retry || (|old(lists).free| == |old(lists).ready| == 0) ==> vbuf == null && lists == old(lists)
      ensures vbuf != null ==> vbuf.next == null && vbuf !in Nodes()
    {
      vbuf, retry := null, false;
      if in_ != null {
        vbuf := in_;
        in_ := vbuf.next;
        vbuf.next := null;
        in_count := in_count - 1;
        lists := PipeLists.Get(lists, started).0;
      } else if started {
        retry := true;
      } else {
        vbuf := Pop();
      }
    }

    /** `dpipe_put`, for a buffer its caller holds. */
    method PutBuffer(buffer: Buffer)
      requires Valid() && buffer !in Nodes()
      modifies this, buffer
      ensures Valid() && lists == Put(old(lists), buffer)
      ensures lists == Lists([buffer] + old(lists).free, old(lists).ready)
    {
      Push(buffer);
    }

    /** `dpipe_load_nowait`, and the locked part of `dpipe_load`. */
    method LoadNowait() returns (vbuf: Buffer?)
      requires Valid()
      modifies this, Nodes()
      ensures Valid() && lists == Load(old(lists)).0
      ensures Gives(Load(old(lists)).1, vbuf, false)
      ensures if |old(lists).ready| > 0
        then vbuf == old(lists).ready[0] && lists == Lists(old(lists).free, old(lists).ready[1..])
        else vbuf == null && lists == old(lists)
      ensures vbuf != null ==> vbuf.next == null && vbuf !in Nodes()
    {
      vbuf := Pop();
    }

    /** `dpipe_store`, for a buffer its caller holds. */
    method StoreBuffer(buffer: Buffer)
      requires Valid() && buffer !in Nodes()
      modifies this, buffer, Nodes()
      ensures Valid() && lists == Store(old(lists), buffer)
      ensures lists == Lists(old(lists).free, old(lists).ready + [buffer])
    {
      if out_tail != null {
        out_tail.next := buffer;
        out_tail := buffer;
      } else {
        out := buffer;
        out_tail := buffer;
      }
      buffer.next := null;
      out_count := out_count + 1;
      lists := Store(lists, buffer);
    }
  }

  // ---------------------------------------------------------------- the table of pipes

  datatype Option<T> = None | Some(value: T)

  /** All pipes by name, and the flag they share. */
  class PipeTable {
    var dpipemap: map<string, Pipe>
    var start: bool

    constructor ()
      ensures dpipemap == map[] && !start
    {
      dpipemap, start := map[], false;
    }

    method Lookup(name: string) returns (dpipe: Pipe?)
      ensures dpipe == if name in dpipemap then dpipemap[name] else null
    {
      dpipe := null;
      if name in dpipemap {
        dpipe := dpipemap[name];
      }
    }

    /** Refuses bad arguments and taken names; a new pipe (re)starts all pipes. */
    method Create(id: int, name: Option<string>, nframe: int, maxframesize: int) returns (dpipe: Pipe?)
      modifies this
      ensures dpipe == null <==> name.None? || id < 0 || nframe <= 0 || maxframesize <= 0 || name.value in old(dpipemap)
      ensures dpipe == null ==> dpipemap == old(dpipemap) && start == old(start)
      ensures dpipe != null ==> start && dpipemap == old(dpipemap)[name.value := dpipe]
      ensures dpipe != null ==> fresh(dpipe) && dpipe.Valid() && fresh(dpipe.Nodes())
      ensures dpipe != null ==> |dpipe.lists.free| == nframe && dpipe.lists.ready == []
    {
      if name.None? || id < 0 || nframe <= 0 || maxframesize <= 0 {
        return null;
      }
      dpipe := Lookup(name.value);
      if dpipe != null {
        return null;
      }
      dpipe := new Pipe(nframe);
      dpipemap := dpipemap[name.value := dpipe];
      start := true;
    }

    /** Stops every pipe, whichever is named. */
    method Stop(dpipe: Pipe?)
      modifies this
      ensures !start && dpipemap == old(dpipemap)
    {
      start := false;
    }
  }
}
