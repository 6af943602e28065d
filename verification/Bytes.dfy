// Bytes as small numbers.
module Bytes {
  type octet = x: nat | x < 256
}
