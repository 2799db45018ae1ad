/** Character classes shared by the two regular expressions of the driver. */
module Chars {

  /** `\d` in a Python 2 byte-string pattern: the ASCII digits only. */
  predicate IsDigit(c: char)
  {
    '0' <= c <= '9'
  }

  predicate AllDigits(s: string)
  {
    forall i :: 0 <= i < |s| ==> IsDigit(s[i])
  }
}
