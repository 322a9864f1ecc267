/** Small shared vocabulary: optional values and bytes. */
module Wrappers {

  /** An optional value; decoders return None on malformed input. */
  datatype Option<+T> = None | Some(value: T)
}

module Bytes {

  /** An octet, as held in a Node.js Buffer. */
  type Byte = b: int | 0 <= b < 0x100
}
