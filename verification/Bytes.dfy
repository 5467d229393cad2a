/** Byte strings. */
module Bytes {
  type Byte = b: int | 0 <= b < 256

  type Bytes = seq<Byte>

  function Flatten(blocks: seq<Bytes>): Bytes {
    if blocks == [] then [] else blocks[0] + Flatten(blocks[1..])
  }
}
