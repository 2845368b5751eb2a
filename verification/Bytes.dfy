/** Bytes and the C character classes (in the "C" locale) the coders rely on. */
module Bytes {

  type byte = b: int | 0 <= b < 256

  type bytes = seq<byte>

  const NUL: byte := 0
  const TAB: byte := 9
  const LF: byte := 10
  const CR: byte := 13
  const ESC: byte := 27
  const SPACE: byte := 32
  const DOT: byte := 46
  const EQ: byte := 61

  predicate IsCntrl(c: byte) { c < 32 || c == 127 }

  predicate IsSpace(c: byte) { c == SPACE || 9 <= c <= 13 }

  predicate IsXDigit(c: byte) {
    48 <= c <= 57 || 65 <= c <= 70 || 97 <= c <= 102
  }

  function HexValue(c: byte): (v: nat)
    requires IsXDigit(c)
    ensures v < 16
  {
    if c <= 57 then c - 48 else if c <= 70 then c - 55 else c - 87
  }

  // Upper-case hexadecimal digit.
  function HexDigit(v: nat): (c: byte)
    requires v < 16
    ensures IsXDigit(c) && HexValue(c) == v
  {
    if v < 10 then 48 + v else 55 + v
  }
}
