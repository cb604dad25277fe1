/** lifter/includes.h */
module Includes {
  // The stack pointer's initial value, below which addresses count as stack.
  const STACKP_VALUE := 0x14FEA0
}
