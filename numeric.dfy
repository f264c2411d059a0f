/** JavaScript's number primitives used by the palette code, stated over exact reals. */
module Numeric {

  function Abs(x: real): (y: real)
    ensures y >= 0.0 && (y == x || y == -x)
  {
    if x < 0.0 then -x else x
  }

  /** `Math.round(x)`: the nearest integer, a half rounded towards plus infinity. */
  function Round(x: real): (n: int)
    ensures n as real - 0.5 <= x < n as real + 0.5
  {
    (x + 0.5).Floor
  }

  /** `Math.trunc(x)`: drops the fractional part, towards zero. */
  function Trunc(x: real): (n: int)
    ensures 0.0 <= x ==> n as real <= x < n as real + 1.0
    ensures x < 0.0 ==> n as real - 1.0 < x <= n as real
  {
    if x < 0.0 then -((-x).Floor) else x.Floor
  }

  /**
   * `a % 2` on numbers: the remainder of a truncating division by 2, with the sign of
   * `a`. What it takes away from `a` is an even integer.
   */
  function RemTwo(a: real): (r: real)
    ensures 0.0 <= a ==> 0.0 <= r < 2.0
    ensures a < 0.0 ==> -2.0 < r <= 0.0
    ensures ((a - r) / 2.0).Floor as real == (a - r) / 2.0
  {
    a - 2.0 * Trunc(a / 2.0) as real
  }

  /** Scaling by a factor in [0, 1] keeps a non-negative value between 0 and itself. */
  lemma ScaleDown(a: real, f: real, p: real)
    requires 0.0 <= a && 0.0 <= f <= 1.0 && p == a * f
    ensures 0.0 <= p <= a
  {
    assert a * (1.0 - f) >= 0.0;
  }

  /**
   * The integer number of hundredths that `parseFloat(x.toFixed(2))` keeps: the
   * multiple of 0.01 nearest to `x`, a half rounded away from zero (toFixed rounds
   * the magnitude and writes the sign in front).
   */
  function Cents(x: real): (n: int)
    ensures 0.0 <= x ==> n as real - 0.5 <= 100.0 * x < n as real + 0.5
    ensures x < 0.0 ==> n as real - 0.5 < 100.0 * x <= n as real + 0.5
    ensures 0.0 <= x ==> 0 <= n
    ensures x <= 0.0 ==> n <= 0
  {
    if x < 0.0 then -((-x * 100.0 + 0.5).Floor) else (x * 100.0 + 0.5).Floor
  }

  /**
   * `parseFloat(x.toFixed(2))`, as exact round-to-hundredth: a whole number of
   * hundredths, the nearest one to `x`, a half going away from zero.
   */
  function ToFixed2(x: real): (y: real)
    ensures (100.0 * y).Floor as real == 100.0 * y
    ensures 0.0 <= x ==> y - 0.005 <= x < y + 0.005
    ensures x < 0.0 ==> y - 0.005 < x <= y + 0.005
    ensures -0.005 <= y - x <= 0.005
    ensures 0.0 <= x ==> 0.0 <= y
  {
    Cents(x) as real / 100.0
  }

  /** A number written with at most two decimals. */
  predicate IsHundredths(x: real) {
    x == ToFixed2(x)
  }

  /** Rounding to hundredths leaves a value that already has two decimals unchanged. */
  lemma ToFixed2Idempotent(x: real)
    ensures IsHundredths(ToFixed2(x))
  {
    CentsOfCents(Cents(x));
  }

  lemma CentsOfCents(n: int)
    ensures Cents(n as real / 100.0) == n
  {
    var x := n as real / 100.0;
    assert x * 100.0 == n as real;
    if x < 0.0 {
      assert -x * 100.0 + 0.5 == (-n) as real + 0.5;
    } else {
      assert x * 100.0 + 0.5 == n as real + 0.5;
    }
  }

  /** An integer plus a value with two decimals has two decimals. */
  lemma HundredthsPlusInt(x: real, k: int)
    requires IsHundredths(x)
    ensures IsHundredths(x + k as real)
  {
    var n := Cents(x);
    assert x == n as real / 100.0;
    assert x + k as real == (n + 100 * k) as real / 100.0;
    CentsOfCents(n + 100 * k);
  }

  /** Rounding to hundredths keeps a value inside any interval whose ends have two decimals. */
  lemma ToFixed2Within(x: real, lo: int, hi: int)
    requires lo as real / 100.0 <= x <= hi as real / 100.0
    ensures lo as real / 100.0 <= ToFixed2(x) <= hi as real / 100.0
  {
    var n := Cents(x);
    assert lo as real <= 100.0 * x <= hi as real;
    assert lo <= n <= hi;
  }
}
