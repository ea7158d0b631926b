/** The types and functions that several modules share. */
module Basics {
  type Byte = x: int | 0 <= x < 256

  /** The text of a network address. */
  type Addr = string

  function Min(a: int, b: int): int { if a < b then a else b }
}
