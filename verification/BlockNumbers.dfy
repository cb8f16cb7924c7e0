/** Sixteen-bit block numbers with a negotiated rollover value.

    Both ends of a transfer advance their block counter with the same two statements: increment a
    `u_short` and, when it comes out as zero, replace it by the rollover value.
 */
module BlockNumbers {

  const MAX_BLOCK := 65535

  type U16 = n: nat | n <= 65535

  /** The number after `b` when the counter rolls over to `r`. */
  function Next(b: U16, r: U16): U16 {
    if b == MAX_BLOCK then r else b + 1
  }

  /** The number carried by block `n`: blocks count from 1 and number 0 acknowledges the request itself. */
  function Number(n: nat, r: U16): U16 {
    if n == 0 then 0 else Next(Number(n - 1, r), r)
  }

  /** How many numbers are in use once the counter has rolled over. */
  function Period(r: U16): (p: nat)
    ensures 1 <= p <= 65536
  {
    65536 - r
  }

  function Mod(x: nat, m: nat): (k: nat)
    requires m > 0
    ensures k < m
  {
    x % m
  }

  /** A multiple of `m` that lies strictly between -m and m is zero. */
  lemma SmallMultiple(m: int, d: int)
    requires 0 < m && -m < m * d < m
    ensures d == 0
  {
  }

  /** A remainder is determined by any decomposition into a multiple and a small rest. */
  lemma ModUnique(x: nat, m: nat, q: nat, k: nat)
    requires m > 0 && k < m && x == m * q + k
    ensures Mod(x, m) == k
  {
    var d := x / m - q;
    assert x == m * (x / m) + x % m;
    assert m * (q + d) == m * q + m * d;
    SmallMultiple(m, d);
  }

  lemma ModQuotient(x: nat, m: nat) returns (q: nat)
    requires m > 0
    ensures x == m * q + Mod(x, m)
  {
    q := x / m;
  }

  /** A remainder steps up by one, or falls back to zero at the end of its period. */
  lemma ModStep(x: nat, m: nat)
    requires m > 0
    ensures Mod(x + 1, m) == if Mod(x, m) == m - 1 then 0 else Mod(x, m) + 1
  {
    var q := ModQuotient(x, m);
    hide Mod;
    if Mod(x, m) == m - 1 {
      assert m * (q + 1) == m * q + m;
      ModUnique(x + 1, m, q + 1, 0);
    } else {
      ModUnique(x + 1, m, q, Mod(x, m) + 1);
    }
  }

  lemma ModSmall(x: nat, m: nat)
    requires x < m
    ensures Mod(x, m) == x
  {
    ModUnique(x, m, 0, x);
  }

  /** The number of block `n` in closed form, for any number of wraps. */
  function ClosedForm(n: nat, r: U16): nat {
    if n < r then n else r + Mod(n - r, Period(r))
  }

  lemma ClosedFormStep(n: nat, r: U16)
    requires ClosedForm(n, r) <= MAX_BLOCK
    ensures ClosedForm(n + 1, r) == Next(ClosedForm(n, r), r)
  {
    hide Mod;
    ModSmall(0, Period(r));
    if n >= r {
      ModStep(n - r, Period(r));
    }
  }

  /** The closed form of block numbering. */
  lemma {:induction false} NumberClosedForm(n: nat, r: U16)
    ensures Number(n, r) == ClosedForm(n, r)
  {
    hide Mod;
    if n == 0 {
      ModSmall(0, Period(r));
    } else {
      NumberClosedForm(n - 1, r);
      ClosedFormStep(n - 1, r);
    }
  }

  /** Two offsets leave the same remainder exactly when their distance is a whole number of periods. */
  lemma SameRemainder(a: nat, b: nat, m: nat)
    requires m > 0 && a <= b
    ensures Mod(a, m) == Mod(b, m) <==> Mod(b - a, m) == 0
  {
    var qa := ModQuotient(a, m);
    var qd := ModQuotient(b - a, m);
    hide Mod;
    var k := Mod(a, m) + Mod(b - a, m);
    assert m * (qa + qd) == m * qa + m * qd;
    if k < m {
      ModUnique(b, m, qa + qd, k);
    } else {
      assert m * (qa + qd + 1) == m * (qa + qd) + m;
      ModUnique(b, m, qa + qd + 1, k - m);
    }
  }

  /** Exactly which pairs of blocks share a number. */
  lemma SharedNumber(m: nat, n: nat, r: U16)
    requires m < n
    ensures Number(m, r) == Number(n, r) <==> r <= m && Mod(n - m, Period(r)) == 0
  {
    hide Mod;
    NumberClosedForm(m, r);
    NumberClosedForm(n, r);
    if r <= m {
      SameRemainder(m - r, n - r, Period(r));
    }
  }

  /** Any two blocks closer than one period carry different numbers. */
  lemma CloseBlocksDiffer(m: nat, n: nat, r: U16)
    requires m < n < m + Period(r)
    ensures Number(m, r) != Number(n, r)
  {
    hide Mod;
    SharedNumber(m, n, r);
    ModSmall(n - m, Period(r));
  }

  /** Neighbouring blocks are told apart exactly when the period is longer than one or no wrap is near. */
  lemma NeighboursDiffer(n: nat, r: U16)
    ensures Number(n, r) != Number(n + 1, r) <==> r < MAX_BLOCK || n < MAX_BLOCK
  {
    hide Mod;
    SharedNumber(n, n + 1, r);
    if r < MAX_BLOCK {
      ModSmall(1, Period(r));
    }
  }
}
