/** Constants that several parts of the server share. */
module Constants {
  const SEGSIZE := 512
  const MAX_SEGSIZE := 65464

  // How often a packet is sent before giving up, and the whole waiting time in units of the basic timeout.
  const TRIES := 6
  const TIMEOUT_LIMIT := 63 // (1 << TRIES) - 1

  // The states of a buffer that holds no data.
  const BF_ALLOC := -3
  const BF_FREE := -2
}

module Maybe {
  datatype Option<T> = None | Some(value: T)
}

/** Characters as `ctype.h` classifies and maps them. */
module Ascii {
  predicate IsDigit(c: char) {
    '0' <= c <= '9'
  }

  predicate IsSpace(c: char) {
    c == ' ' || '\t' <= c <= '\r'
  }

  function DigitValue(c: char): (d: nat)
    requires IsDigit(c)
    ensures d < 10
  {
    c as int - '0' as int
  }

  function LowerChar(c: char): char {
    if 'A' <= c <= 'Z' then (c as int + 32) as char else c
  }

  function UpperChar(c: char): char {
    if 'a' <= c <= 'z' then (c as int - 32) as char else c
  }
}
