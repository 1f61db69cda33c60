/** Bytes of the pseudo-terminal stream and the few character classes the
    emulator tests them against. */
module Bytes {

  newtype byte = b: int | 0 <= b < 256

  const NUL: byte := 0x00
  const BEL: byte := 0x07   // CTRL_G
  const BS: byte := 0x08    // CTRL_H
  const TAB: byte := 0x09
  const LF: byte := 0x0A
  const VT: byte := 0x0B
  const FF: byte := 0x0C
  const CR: byte := 0x0D
  const SI: byte := 0x0F    // CTRL_O
  const ESC: byte := 0x1B
  const SPACE: byte := 0x20

  /** The byte of an ASCII character. */
  function B(ch: char): byte
    requires ch as int < 256
  {
    ch as int as byte
  }

  /** The character a byte stands for in the Latin-1 range. */
  function Ch(b: byte): char {
    (b as int) as char
  }

  /** The bytes of an ASCII string. */
  function Ascii(s: string): (r: seq<byte>)
    requires forall i :: 0 <= i < |s| ==> s[i] as int < 256
    ensures |r| == |s|
    ensures forall i :: 0 <= i < |s| ==> r[i] as int == s[i] as int
  {
    if s == [] then [] else [B(s[0])] + Ascii(s[1..])
  }

  /** Byte `i` of a NUL-terminated window: every position at or after the
      end of `s` reads as the terminating NUL. */
  function At(s: seq<byte>, i: int): byte {
    if 0 <= i < |s| then s[i] else NUL
  }

  predicate IsDigit(c: byte) {
    B('0') <= c <= B('9')
  }

  function DigitValue(c: byte): int
    requires IsDigit(c)
  {
    c as int - '0' as int
  }

  /** `iscntrl` of the C library for one byte in the "C" locale. */
  predicate IsControl(c: byte) {
    c < 0x20 || c == 0x7F
  }

  /** The decimal digits of a natural number, most significant first, as
      `std::to_string` writes them. */
  function Decimal(n: nat): (r: seq<byte>)
    ensures 1 <= |r|
    ensures forall i :: 0 <= i < |r| ==> IsDigit(r[i])
    ensures DecimalValue(r) == n
  {
    if n < 10 then [(n + '0' as int) as byte]
    else Decimal(n / 10) + [((n % 10) + '0' as int) as byte]
  }

  /** The value of a string of decimal digits, as `sscanf("%ld")` reads it
      (the integer width is not modelled). */
  function DecimalValue(d: seq<byte>): nat
    requires forall i :: 0 <= i < |d| ==> IsDigit(d[i])
  {
    if d == [] then 0 else DecimalValue(d[..|d| - 1]) * 10 + DigitValue(d[|d| - 1])
  }
}
