/** The C++ `byte` (an unsigned 8-bit integer) shared by every module:
    a bit-vector, so that shifts, masks and wrap-around read as in the source. */
module Bytes {
  type byte = bv8
}
