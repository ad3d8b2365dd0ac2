/**
 * Scalar arithmetic shared by both programs, in exact real arithmetic:
 * NumPy's uint8 samples, Python's floor modulo on floats, `np.clip` and the
 * float-to-uint8 cast.
 */
module Numeric {

  /** An 8-bit unsigned image sample (NumPy's uint8). */
  type Byte = x: int | 0 <= x < 256

  function Abs(a: real): (r: real)
    ensures r >= 0.0
    ensures r == a || r == -a
  {
    if a < 0.0 then -a else a
  }

  /**
   * Python's and NumPy's `%` on floats: the remainder takes the sign of the
   * divisor, so for a positive divisor it lies in [0, n); see FModPeriodic
   * and FModSmall for how it depends on `a`.
   */
  function FMod(a: real, n: real): (r: real)
    requires n > 0.0
    ensures 0.0 <= r < n
  {
    var q := (a / n).Floor;
    FloorScaled(a, n);
    a - n * q as real
  }

  lemma FloorScaled(a: real, n: real)
    requires n > 0.0
    ensures n * ((a / n).Floor as real) <= a < n * ((a / n).Floor as real) + n
  {
    var t := a / n;
    var q := t.Floor as real;
    assert n * t == a;
    var below, above := t - q, q + 1.0 - t;
    assert below >= 0.0 && above > 0.0;
    PositiveProduct(n, below);
    PositiveProduct(n, above);
    assert n * below == a - n * q;
    assert n * above == n * q + n - a;
    assert n * q <= a;
    assert a < n * q + n;
  }

  lemma PositiveProduct(n: real, d: real)
    requires n > 0.0 && d >= 0.0
    ensures n * d >= 0.0
    ensures d > 0.0 ==> n * d > 0.0
  {
  }

  lemma CancelFactor(n: real, u: real, w: real)
    requires n > 0.0 && n * u == n * w
    ensures u == w
  {
    assert n * (u - w) == 0.0;
    if u > w {
      PositiveProduct(n, u - w);
    } else if u < w {
      PositiveProduct(n, w - u);
    }
  }

  /**
   * Adding a whole turn `n` to the dividend leaves the remainder unchanged.
   */
  lemma FModPeriodic(a: real, n: real)
    requires n > 0.0
    ensures FMod(a + n, n) == FMod(a, n)
  {
    var t := a / n;
    var u := (a + n) / n;
    assert n * t == a;
    assert n * u == a + n;
    assert n * (t + 1.0) == a + n;
    CancelFactor(n, u, t + 1.0);
    assert u.Floor == t.Floor + 1;
  }

  /** A dividend already in [0, n) is its own remainder. */
  lemma FModSmall(a: real, n: real)
    requires 0.0 <= a < n
    ensures FMod(a, n) == a
  {
    var t := a / n;
    assert n * t == a;
    if t < 0.0 {
      PositiveProduct(n, -t);
    } else if t >= 1.0 {
      PositiveProduct(n, t - 1.0);
    }
    assert t.Floor == 0;
  }

  /** `np.clip(a, lo, hi)` on one element. */
  function Clip(a: real, lo: real, hi: real): (r: real)
    requires lo <= hi
    ensures lo <= r <= hi
    ensures lo <= a <= hi ==> r == a
    ensures a < lo ==> r == lo
    ensures a > hi ==> r == hi
  {
    if a < lo then lo else if a > hi then hi else a
  }

  /**
   * Casting a float to uint8, for values in the range where the cast is
   * defined: the fractional part is dropped.
   */
  function Truncate(a: real): (r: Byte)
    requires 0.0 <= a < 256.0
    ensures r as real <= a < r as real + 1.0
  {
    a.Floor
  }

  /** `.clip(0, 255).astype(np.uint8)` on one element. */
  function ClipToByte(a: real): (r: Byte)
    ensures a <= 0.0 ==> r == 0
    ensures a >= 255.0 ==> r == 255
    ensures 0.0 <= a <= 255.0 ==> r as real <= a < r as real + 1.0
  {
    Truncate(Clip(a, 0.0, 255.0))
  }
}
