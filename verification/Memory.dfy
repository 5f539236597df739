/** Reading through a raw buffer pointer. */
module Memory {

  /** The value at offset `k` from the start of a buffer: beyond its ends, whatever memory holds there. */
  function ReadAt(data: seq<real>, beyond: int -> real, k: int): real {
    if 0 <= k < |data| then data[k] else beyond(k)
  }
}
