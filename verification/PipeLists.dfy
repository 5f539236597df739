/** What one critical section of a frame pipe does to its two lists, as values. */
module PipeLists {

  /** The free buffers, a stack, and the stored frames, a queue. */
  datatype Lists<B> = Lists(free: seq<B>, ready: seq<B>)

  /** What a caller gets: a buffer, nothing, or the advice to try again. */
  datatype Outcome<B> = Took(buffer: B) | Nothing | Retry

  /** A frame is available to `dpipe_get` only as a free buffer, or as the eldest stored one once the pipes are
      stopped. */
  function Get<B>(l: Lists<B>, started: bool): (r: (Lists<B>, Outcome<B>)) {
    if |l.free| > 0 then (l.(free := l.free[1..]), Took(l.free[0]))
    else if started then (l, Retry)
    else Load(l)
  }

  function Put<B>(l: Lists<B>, b: B): Lists<B> {
    l.(free := [b] + l.free)
  }

  function Load<B>(l: Lists<B>): (r: (Lists<B>, Outcome<B>)) {
    if |l.ready| > 0 then (l.(ready := l.ready[1..]), Took(l.ready[0])) else (l, Nothing)
  }

  function Store<B>(l: Lists<B>, b: B): Lists<B> {
    l.(ready := l.ready + [b])
  }

  /** No buffer is listed twice. */
  ghost predicate Distinct<B>(l: Lists<B>) {
    && (forall i, j :: 0 <= i < j < |l.free| ==> l.free[i] != l.free[j])
    && (forall i, j :: 0 <= i < j < |l.ready| ==> l.ready[i] != l.ready[j])
    && (forall i, j :: 0 <= i < |l.free| && 0 <= j < |l.ready| ==> l.free[i] != l.ready[j])
  }
}
