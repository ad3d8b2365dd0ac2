/**
 * Image buffers: height x width x 3 NumPy arrays.  A float32 HSV buffer is
 * an `array3<real>`, a uint8 buffer an `array3<Byte>`.  This module reads
 * pixels out of them and models the whole-array NumPy operations the two
 * programs use on them: `.copy()`, `.astype(np.float32)` and an
 * element-wise assignment to one channel, `a[:, :, ch] = f(a[:, :, ch])`.
 */
module Images {
  import opened Numeric
  import opened Hexcone

  /** The HSV pixel at row i, column j of a float32 buffer. */
  function PixelAt(a: array3<real>, i: int, j: int): Hsv
    reads a
    requires 0 <= i < a.Length0 && 0 <= j < a.Length1 && a.Length2 == 3
  {
    Hsv(a[i, j, 0], a[i, j, 1], a[i, j, 2])
  }

  /** The HSV pixel at row i, column j of a uint8 buffer, read as floats. */
  function BytePixelAt(a: array3<Byte>, i: int, j: int): Hsv
    reads a
    requires 0 <= i < a.Length0 && 0 <= j < a.Length1 && a.Length2 == 3
  {
    Hsv(a[i, j, 0] as real, a[i, j, 1] as real, a[i, j, 2] as real)
  }

  /** The RGB pixel at row i, column j of a uint8 buffer. */
  function RgbAt(a: array3<Byte>, i: int, j: int): Rgb
    reads a
    requires 0 <= i < a.Length0 && 0 <= j < a.Length1 && a.Length2 == 3
  {
    Rgb(a[i, j, 0], a[i, j, 1], a[i, j, 2])
  }

  /**
   * Every pixel of the buffer is a valid input for both conversion
   * strategies, and they agree on it: saturation and value in [0, 255] and
   * a non-negative hue.
   */
  ghost predicate Convertible(a: array3<real>)
    reads a
    requires a.Length2 == 3
  {
    forall i, j :: 0 <= i < a.Length0 && 0 <= j < a.Length1 ==>
      InSampleRange(PixelAt(a, i, j)) && PixelAt(a, i, j).hue >= 0.0
  }

  /** `a.copy()` of a float32 buffer. */
  method Copy(a: array3<real>) returns (b: array3<real>)
    ensures fresh(b)
    ensures b.Length0 == a.Length0 && b.Length1 == a.Length1 && b.Length2 == a.Length2
    ensures forall i, j, k :: 0 <= i < a.Length0 && 0 <= j < a.Length1 && 0 <= k < a.Length2 ==>
      b[i, j, k] == a[i, j, k]
  {
    b := new real[a.Length0, a.Length1, a.Length2]((i, j, k) reads a =>
      if 0 <= i < a.Length0 && 0 <= j < a.Length1 && 0 <= k < a.Length2 then a[i, j, k] else 0.0);
  }

  /** `a.copy()` of a uint8 buffer. */
  method CopyBytes(a: array3<Byte>) returns (b: array3<Byte>)
    ensures fresh(b)
    ensures b.Length0 == a.Length0 && b.Length1 == a.Length1 && b.Length2 == a.Length2
    ensures forall i, j, k :: 0 <= i < a.Length0 && 0 <= j < a.Length1 && 0 <= k < a.Length2 ==>
      b[i, j, k] == a[i, j, k]
  {
    b := new Byte[a.Length0, a.Length1, a.Length2]((i, j, k) reads a =>
      if 0 <= i < a.Length0 && 0 <= j < a.Length1 && 0 <= k < a.Length2 then a[i, j, k] else 0);
  }

  /** `a.astype(np.float32)` of a uint8 buffer. */
  method ToFloat(a: array3<Byte>) returns (b: array3<real>)
    ensures fresh(b)
    ensures b.Length0 == a.Length0 && b.Length1 == a.Length1 && b.Length2 == a.Length2
    ensures forall i, j, k :: 0 <= i < a.Length0 && 0 <= j < a.Length1 && 0 <= k < a.Length2 ==>
      b[i, j, k] == a[i, j, k] as real
  {
    b := new real[a.Length0, a.Length1, a.Length2]((i, j, k) reads a =>
      if 0 <= i < a.Length0 && 0 <= j < a.Length1 && 0 <= k < a.Length2 then a[i, j, k] as real else 0.0);
  }

  /**
   * `a[:, :, ch] = f(a[:, :, ch])`: every sample of channel `ch` is replaced
   * by `f` of itself, and the other channels keep their samples.
   */
  method MapChannel<T>(a: array3<T>, ch: nat, f: T -> T)
    requires ch < a.Length2
    modifies a
    ensures forall i, j, k :: 0 <= i < a.Length0 && 0 <= j < a.Length1 && 0 <= k < a.Length2 ==>
      a[i, j, k] == if k == ch then f(old(a[i, j, k])) else old(a[i, j, k])
  {
    for i := 0 to a.Length0
      invariant forall i', j, k :: 0 <= i' < a.Length0 && 0 <= j < a.Length1 && 0 <= k < a.Length2 ==>
        a[i', j, k] == if k == ch && i' < i then f(old(a[i', j, k])) else old(a[i', j, k])
    {
      for j := 0 to a.Length1
        invariant forall i', j', k :: 0 <= i' < a.Length0 && 0 <= j' < a.Length1 && 0 <= k < a.Length2 ==>
          a[i', j', k] == if k == ch && (i' < i || (i' == i && j' < j)) then f(old(a[i', j', k])) else old(a[i', j', k])
      {
        a[i, j, ch] := f(a[i, j, ch]);
      }
    }
  }
}
