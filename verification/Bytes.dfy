/** The octets that travel over sockets, shared by the relay and the PROXY preamble. */
module Bytes {
  newtype Byte = x: int | 0 <= x < 256

  const SPACE: Byte := 32
  const CR: Byte := 13
  const LF: Byte := 10
}
