/** Hexadecimal digits as both programs read and print them. */
module HexText {

  predicate IsHexDigit(c: char)
  {
    '0' <= c <= '9' || 'a' <= c <= 'f' || 'A' <= c <= 'F'
  }

  /** The value of a digit; upper and lower case letters are the same digit. */
  function HexValue(c: char): (d: nat)
    requires IsHexDigit(c)
    ensures d < 16
  {
    if '0' <= c <= '9' then c as int - '0' as int
    else if 'a' <= c <= 'f' then c as int - 'a' as int + 10
    else c as int - 'A' as int + 10
  }

  /** The digit printf's `%X` writes for `d`. */
  function UpperDigit(d: nat): (c: char)
    requires d < 16
    ensures IsHexDigit(c) && HexValue(c) == d
    ensures !('a' <= c <= 'f')
  {
    if d < 10 then ('0' as int + d) as char else ('A' as int + d - 10) as char
  }

  /** The digit printf's `%x` and Python's `x` format write for `d`: the `%X` digit in lower case. */
  function LowerDigit(d: nat): (c: char)
    requires d < 16
    ensures IsHexDigit(c) && HexValue(c) == d
    ensures !('A' <= c <= 'F')
  {
    var u := UpperDigit(d);
    if 'A' <= u <= 'F' then (u as int - 'A' as int + 'a' as int) as char else u
  }

  /** A hex digit in the case `%X` prints. */
  function ToUpper(c: char): (u: char)
    requires IsHexDigit(c)
    ensures u == UpperDigit(HexValue(c))
  {
    if 'a' <= c <= 'f' then (c as int - 'a' as int + 'A' as int) as char else c
  }
}
