/** Octets as the transfer code sees them. */
module Bytes {
  type byte = b: int | 0 <= b < 256

  const CR: byte := 13
  const LF: byte := 10

  /** The blocks a stream was read in, the latest outermost. */
  datatype Blocks = Start | Then(before: Blocks, last: seq<byte>) {
    /** The stream itself. */
    function Joined(): seq<byte> {
      match this
      case Start => []
      case Then(before, last) => before.Joined() + last
    }
  }
}
