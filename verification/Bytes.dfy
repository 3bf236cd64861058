/** Bytes and words, and writing a run of them over another. */
module Bytes {

  type Byte = b: int | 0 <= b < 256
  type Word = w: int | 0 <= w < 65536

  /** The sequence with d written over it from position pos on. */
  function Overlay<T>(was: seq<T>, pos: nat, d: seq<T>): (now: seq<T>)
    requires pos + |d| <= |was|
    ensures |now| == |was|
  {
    was[..pos] + d + was[pos + |d|..]
  }
}
