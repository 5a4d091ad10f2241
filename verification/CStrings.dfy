/** The conversions of the C library that the loader relies on. */
module CStrings {

  predicate IsSpace(c: char) {
    c == ' ' || '\t' <= c <= '\r'
  }

  predicate IsDigit(c: char) {
    '0' <= c <= '9'
  }

  function Digits(s: string, value: nat): nat {
    if s == "" || !IsDigit(s[0]) then value
    else Digits(s[1..], value * 10 + (s[0] - '0') as nat)
  }

  /** Leading blanks, an optional sign, then digits as far as they go. */
  function Atoi(s: string): int {
    if s == "" then 0
    else if IsSpace(s[0]) then Atoi(s[1..])
    else if s[0] == '-' then 0 - Digits(s[1..], 0)
    else if s[0] == '+' then Digits(s[1..], 0)
    else Digits(s, 0)
  }
}
