/** Optional values, for results that may be absent (a peak that was not reported,
    a message that does not parse). */
module Opt {
  datatype Option<+T> = None | Some(value: T)
}

/** The parts of C's 32-bit signed `int` arithmetic the model relies on: its range,
    `abs`, and the `/` and `%` operators, which truncate toward zero. */
module CInt {
  const INT_MIN: int := -0x8000_0000
  const INT_MAX: int := 0x7fff_ffff

  predicate IsInt32(x: int) {
    INT_MIN <= x <= INT_MAX
  }

  /** C's `abs`, for arguments other than INT_MIN (where C leaves it undefined). */
  function Abs(x: int): (r: nat)
    ensures r == x || r == -x
  {
    if x < 0 then -x else x
  }

  /** C's `a / b` for a positive divisor: the quotient rounded toward zero. */
  function CDiv(a: int, b: int): int
    requires b > 0
  {
    if a >= 0 then a / b else -((-a) / b)
  }

  /** C's `a % b` for a positive divisor: the remainder takes the sign of `a`. */
  function CRem(a: int, b: int): int
    requires b > 0
  {
    if a >= 0 then a % b else -((-a) % b)
  }

  /** C's quotient and remainder: they rebuild `a`, both take the sign of `a`
      (or are zero), and their magnitudes are those of `Abs(a)` divided by `b`. */
  lemma DivRem(a: int, b: int)
    requires b > 0
    ensures a == CDiv(a, b) * b + CRem(a, b)
    ensures a >= 0 ==> CDiv(a, b) >= 0 && CRem(a, b) >= 0
    ensures a < 0 ==> CDiv(a, b) <= 0 && CRem(a, b) <= 0
    ensures Abs(CDiv(a, b)) == Abs(a) / b && Abs(CRem(a, b)) == Abs(a) % b
  {
  }

  /** The magnitude of `a` splits into the magnitudes of C's quotient and
      remainder, the remainder's below the divisor and the quotient's at most `a`'s. */
  lemma AbsDivRem(a: int, b: int)
    requires b > 0
    ensures Abs(a) == Abs(CDiv(a, b)) * b + Abs(CRem(a, b))
    ensures Abs(CRem(a, b)) < b
    ensures Abs(CDiv(a, b)) <= Abs(a)
  {
    var n := Abs(a);
    DivRem(a, b);
    assert n == (n / b) * b + n % b;
    QuotientBound(n, b);
  }

  lemma QuotientBound(n: nat, b: int)
    requires b > 0
    ensures n / b <= n
  {
    var q := n / b;
    assert q * b + n % b == n;
    MulAtLeast(q, b);
  }

  lemma {:induction false} MulAtLeast(q: nat, b: int)
    requires b >= 1
    ensures q * b >= q
    decreases b
  {
    if b > 1 {
      MulAtLeast(q, b - 1);
      assert q * b == q * (b - 1) + q;
    }
  }
}
