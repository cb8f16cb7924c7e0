/** Numbers in option values: `strtoumax` and `%ju`, and powers of two as the block size code tests for them. */
module Numerals {
  import opened Ascii
  import opened Maybe

  const TWO_64 := 0x1_0000_0000_0000_0000

  function DigitChar(d: nat): (c: char)
    requires d < 10
    ensures IsDigit(c) && DigitValue(c) == d
  {
    '0' + d as char
  }

  predicate AllDigits(s: string) {
    forall i :: 0 <= i < |s| ==> IsDigit(s[i])
  }

  function DigitsValue(s: string): nat
    requires AllDigits(s)
  {
    if s == "" then 0 else 10 * DigitsValue(s[..|s| - 1]) + DigitValue(s[|s| - 1])
  }

  function Unsigned(s: string): Option<nat> {
    if s != "" && AllDigits(s) && DigitsValue(s) < TWO_64 then Some(DigitsValue(s)) else None
  }

  /** `strtoumax` in base ten with the caller's tests for trailing characters and overflow: leading white space, one
      sign, digits; a minus sign negates as an unsigned number.
   */
  function StrToUMax(s: string): Option<nat> {
    if s == "" then None
    else if IsSpace(s[0]) then StrToUMax(s[1..])
    else if s[0] == '+' then Unsigned(s[1..])
    else if s[0] == '-' then
      match Unsigned(s[1..]) case None => None case Some(v) => Some(if v == 0 then 0 else TWO_64 - v)
    else Unsigned(s)
  }

  function Decimal(n: nat): (s: string)
    ensures s != "" && AllDigits(s)
  {
    if n < 10 then [DigitChar(n)] else Decimal(n / 10) + [DigitChar(n % 10)]
  }

  lemma {:induction false} DigitsOfDecimal(n: nat)
    ensures DigitsValue(Decimal(n)) == n
  {
    var s := Decimal(n);
    if n < 10 {
      assert s[..0] == "";
      assert DigitsValue(s[..0]) == 0;
    } else {
      DigitsOfDecimal(n / 10);
      assert s[..|s| - 1] == Decimal(n / 10);
    }
  }

  /** Printing and reading back is the identity on the numbers that fit. */
  lemma DecimalRoundTrip(n: nat)
    requires n < TWO_64
    ensures StrToUMax(Decimal(n)) == Some(n)
  {
    DigitsOfDecimal(n);
    assert IsDigit(Decimal(n)[0]);
  }

  /** Numbers are written with the most significant digit first, and read in the same way. */
  lemma DecimalDigits(n: nat, d: nat, s: string)
    requires d < 10 && AllDigits(s)
    ensures Decimal(d) == ["0123456789"[d]]
    ensures n > 0 ==> Decimal(10 * n + d) == Decimal(n) + ["0123456789"[d]]
    ensures AllDigits(s + ["0123456789"[d]]) && DigitsValue(s + ["0123456789"[d]]) == 10 * DigitsValue(s) + d
  {
    assert DigitChar(d) == "0123456789"[d];
    assert (10 * n + d) / 10 == n && (10 * n + d) % 10 == d;
    assert (s + ["0123456789"[d]])[..|s|] == s;
  }

  /** The forms of a value: digits up to 64 bits; the same after a plus sign; the negated number after a minus sign;
      all of these after white space; nothing else.
   */
  lemma NumberForms(digits: string, other: char, rest: string)
    requires digits != "" && AllDigits(digits)
    ensures var v := DigitsValue(digits);
      && (v < TWO_64 ==> StrToUMax(digits) == StrToUMax("+" + digits) == Some(v))
      && (v < TWO_64 ==> StrToUMax("-" + digits) == Some((TWO_64 - v) % TWO_64))
      && (v >= TWO_64 ==> StrToUMax(digits) == StrToUMax("+" + digits) == StrToUMax("-" + digits) == None)
    ensures StrToUMax(" " + rest) == StrToUMax("\t" + rest) == StrToUMax("\n" + rest) == StrToUMax(rest)
    ensures StrToUMax("") == StrToUMax("+") == StrToUMax("-") == None
    ensures !IsDigit(other) ==> StrToUMax(digits + [other] + rest) == None
  {
    assert IsDigit(digits[0]);
    assert ("+" + digits)[1..] == ("-" + digits)[1..] == digits;
    assert (" " + rest)[1..] == ("\t" + rest)[1..] == ("\n" + rest)[1..] == rest;
    assert (digits + [other] + rest)[|digits|] == other && (digits + [other] + rest)[0] == digits[0];
    hide DigitsValue;
  }

  // ----- Powers of two

  predicate IsPow2(n: nat) {
    n == 1 || (n > 1 && n % 2 == 0 && IsPow2(n / 2))
  }

  /** The bitwise conjunction of two unsigned numbers. */
  function And(a: nat, b: nat): nat {
    if a == 0 || b == 0 then 0 else (a % 2) * (b % 2) + 2 * And(a / 2, b / 2)
  }

  lemma {:induction false} AndSelf(n: nat)
    ensures And(n, n) == n
  {
    if n > 0 {
      AndSelf(n / 2);
    }
  }

  /** The test `sz & (sz - 1)` tells powers of two from other numbers. */
  lemma {:induction false} PowerTest(n: nat)
    requires n >= 1
    ensures And(n, n - 1) == 0 <==> IsPow2(n)
  {
    if n == 1 {
    } else if n % 2 == 0 {
      PowerTest(n / 2);
      assert (n - 1) / 2 == n / 2 - 1 && (n - 1) % 2 == 1;
    } else {
      assert (n - 1) / 2 == n / 2 && (n - 1) % 2 == 0;
      AndSelf(n / 2);
    }
  }

  /** The largest power of two that is not above `n`. */
  function FloorPow2(n: nat): (p: nat)
    requires n >= 1
    ensures IsPow2(p) && p <= n < 2 * p
  {
    if n == 1 then 1 else 2 * FloorPow2(n / 2)
  }

  lemma {:induction false} FloorPow2IsLargest(n: nat, q: nat)
    requires n >= 1 && IsPow2(q) && q <= n
    ensures q <= FloorPow2(n)
  {
    if n > 1 && q > 1 {
      FloorPow2IsLargest(n / 2, q / 2);
    }
  }

  /** Shift one number right until nothing is left and the other one left as often. */
  function Shifted(p: nat, sz: nat): nat
    decreases sz
  {
    if sz == 0 then p else Shifted(2 * p, sz / 2)
  }

  lemma {:induction false} ShiftedDoubles(p: nat, sz: nat)
    ensures Shifted(2 * p, sz) == 2 * Shifted(p, sz)
    decreases sz
  {
    if sz > 0 {
      ShiftedDoubles(2 * p, sz / 2);
    }
  }

  lemma {:induction false} ShiftedIsFloor(n: nat)
    requires n >= 1
    ensures Shifted(1, n / 2) == FloorPow2(n)
  {
    if n > 1 {
      ShiftedIsFloor(n / 2);
      ShiftedDoubles(1, n / 2 / 2);
    }
  }

  /** The shift loop of `set_blksize2` */
  method ShiftLoop(n: nat) returns (p: nat)
    requires n >= 1
    ensures p == FloorPow2(n)
  {
    ShiftedIsFloor(n);
    var sz: nat := n / 2;
    p := 1;
    while sz != 0
      invariant Shifted(p, sz) == FloorPow2(n)
      decreases sz
    {
      p := 2 * p;
      sz := sz / 2;
    }
  }
}
