/** Fixed-width machine values shared by the bus and the processor. */
module Bytes {

  /** An unsigned 8-bit value: a RAM cell, a data argument, an 8-bit register. */
  type byte = bv8

  /** An unsigned 16-bit value: the program counter. */
  type word = bv16
}
