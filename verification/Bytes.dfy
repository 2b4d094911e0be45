/** Octets as the records, blocks and rings hold them. */
module Bytes {
  newtype byte = x: int | 0 <= x < 256

  type Record = seq<byte>

  // As much of a record as there is room for.
  function Bounded(data: Record, maxSize: nat): (copy: Record)
    ensures copy <= data && (|data| <= maxSize ==> copy == data) && (maxSize <= |data| ==> |copy| == maxSize)
  {
    if |data| <= maxSize then data else data[..maxSize]
  }
}
