/** The C++ numeric conversions the reporting code relies on, over exact reals. */
module Numeric {

  /** `static_cast` of a double to an integer type: truncation toward zero. */
  function Trunc(x: real): (n: int)
    ensures x >= 0.0 ==> 0.0 <= n as real <= x < n as real + 1.0
    ensures x < 0.0 ==> n as real - 1.0 < x <= n as real <= 0.0
  {
    if x >= 0.0 then x.Floor else -((-x).Floor)
  }

  /** `std::clamp(x, lo, hi)`. */
  function Clamp(x: int, lo: int, hi: int): (y: int)
    requires lo <= hi
    ensures lo <= y <= hi
    ensures lo <= x <= hi ==> y == x
    ensures x < lo ==> y == lo
    ensures x > hi ==> y == hi
  {
    if x < lo then lo else if x > hi then hi else x
  }

  /** Quotient and remainder are the only such pair: `a == q * n + r` with
      `0 <= r < n` fixes `q` as `a / n` and `r` as `a % n`. */
  lemma DivModUnique(a: nat, n: nat, q: int, r: int)
    requires n > 0 && 0 <= r < n && a == q * n + r
    ensures a / n == q && a % n == r
  {
    var q', r' := a / n, a % n;
    assert (q - q') * n == r' - r;
    MulBounds(q - q', n);
  }

  lemma MulBounds(k: int, n: int)
    requires n > 0
    ensures k >= 1 ==> k * n >= n
    ensures k <= -1 ==> k * n <= -n
  {
  }
}
