/** What the other modules share: optional values and bytes. */
module Basics {

  datatype Option<+T> = None | Some(value: T)

  type Byte = b: nat | b < 256
}
