/** Bytes, written as the characters of their codes. */
module Bytes {

  type Byte = c: char | c as int < 256 witness '\0'

  predicate IsEol(c: Byte) {
    c == '\r' || c == '\n'
  }
}
