/** What the parsers of this program take for white space in a byte. */
module Bytes {
  predicate IsSpace(c: char) {
    c == ' ' || c == '\t' || c == '\n' || c == '\r' || c == 11 as char || c == 12 as char
  }
}
