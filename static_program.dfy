/**
 * The image pipeline of the command-line program (`modify_hsv_image`): the
 * uint8 HSV image is copied, the copy's hue channel is rotated and its value
 * channel gamma-mapped, and the result is converted back to RGB by both
 * strategies.  Because the copy is a uint8 array, both written channels are
 * truncated to whole samples when they are stored.
 */
module StaticProgram {
  import opened Numeric
  import opened Hexcone
  import opened Images
  import opened Converter
  import opened Adjustment

  /**
   * The stored hue sample: the hue rotated by half of `hueShift` degrees
   * modulo 180, truncated to an integer when it is written back into the
   * uint8 image.  It stays on OpenCV's hue scale.
   */
  function ModifyHue(hue: Byte, hueShift: real): (r: Byte)
    ensures r < 180
    ensures r as real <= ShiftHue(hue as real, hueShift / 2.0) < r as real + 1.0
  {
    Truncate(ShiftHue(hue as real, hueShift / 2.0))
  }

  /**
   * The stored value sample: `value_exp` applied as a gamma to the
   * normalised value, clipped into [0, 255] and truncated to uint8: a raw
   * gamma result at or below 0 stores 0, one at or above 255 stores 255,
   * and one in between stores its whole part.
   */
  function ModifyValue(val: Byte, valueExp: real, power: (real, real) -> real): (r: Byte)
    ensures var g := power(val as real / 255.0, valueExp) * 255.0;
      (g <= 0.0 ==> r == 0) && (g >= 255.0 ==> r == 255) &&
      (0.0 <= g <= 255.0 ==> r as real <= g < r as real + 1.0)
  {
    ClipToByte(power(val as real / 255.0, valueExp) * 255.0)
  }

  /** Shifting the hue by a further 360 degrees stores the same hue sample. */
  lemma ModifyHueFullTurn(hue: Byte, hueShift: real)
    ensures ModifyHue(hue, hueShift + 360.0) == ModifyHue(hue, hueShift)
  {
    assert (hueShift + 360.0) / 2.0 == hueShift / 2.0 + 180.0;
    ShiftHueFullTurn(hue as real, hueShift / 2.0);
  }

  /** A zero hue shift leaves a hue sample on OpenCV's scale unchanged. */
  lemma ModifyHueZero(hue: Byte)
    requires hue < 180
    ensures ModifyHue(hue, 0.0) == hue
  {
    ShiftHueZero(hue as real);
  }

  /**
   * An exponent of 1 leaves the value sample unchanged, for any `power`
   * that is the identity at exponent 1 on the normalised value.
   */
  lemma ModifyValueIdentity(val: Byte, power: (real, real) -> real)
    requires power(val as real / 255.0, 1.0) == val as real / 255.0
    ensures ModifyValue(val, 1.0, power) == val
  {
    GammaIdentity(val as real, power);
  }

  /** The modified HSV pixel at row i, column j of `imgHsv`, read as floats. */
  function ModifiedPixelAt(imgHsv: array3<Byte>, i: int, j: int, hueShift: real, valueExp: real,
                           power: (real, real) -> real): (q: Hsv)
    reads imgHsv
    requires 0 <= i < imgHsv.Length0 && 0 <= j < imgHsv.Length1 && imgHsv.Length2 == 3
    ensures InSampleRange(q) && 0.0 <= q.hue < 180.0
    ensures q.sat == imgHsv[i, j, 1] as real
  {
    Hsv(ModifyHue(imgHsv[i, j, 0], hueShift) as real, imgHsv[i, j, 1] as real,
        ModifyValue(imgHsv[i, j, 2], valueExp, power) as real)
  }

  /**
   * The channel edits of `modify_hsv_image`: a copy of `imgHsv` whose hue
   * and value channels are rewritten and whose saturation channel is that
   * of `imgHsv`.  The input image is not written.
   */
  method ModifyChannels(imgHsv: array3<Byte>, hueShift: real, valueExp: real, power: (real, real) -> real)
      returns (modifiedHsv: array3<Byte>)
    requires imgHsv.Length2 == 3
    ensures modifiedHsv != imgHsv
    ensures modifiedHsv.Length0 == imgHsv.Length0 && modifiedHsv.Length1 == imgHsv.Length1
    ensures modifiedHsv.Length2 == 3
    ensures forall i, j :: 0 <= i < imgHsv.Length0 && 0 <= j < imgHsv.Length1 ==>
      modifiedHsv[i, j, 0] == ModifyHue(imgHsv[i, j, 0], hueShift) &&
      modifiedHsv[i, j, 1] == imgHsv[i, j, 1] &&
      modifiedHsv[i, j, 2] == ModifyValue(imgHsv[i, j, 2], valueExp, power)
  {
    modifiedHsv := CopyBytes(imgHsv);
    MapChannel(modifiedHsv, 0, v => ModifyHue(v, hueShift));
    MapChannel(modifiedHsv, 2, v => ModifyValue(v, valueExp, power));
  }

  /**
   * `modify_hsv_image` from the converted HSV image on: the channel edits,
   * then both conversions back to RGB.  The two RGB results are the same
   * image, and each pixel is the hexcone conversion of the modified pixel.
   */
  method ModifyHsvImage(imgHsv: array3<Byte>, hueShift: real, valueExp: real, power: (real, real) -> real)
      returns (modifiedRgbLoops: array3<Byte>, modifiedRgbMatrix: array3<Byte>)
    requires imgHsv.Length2 == 3
    ensures modifiedRgbLoops.Length0 == imgHsv.Length0 && modifiedRgbLoops.Length1 == imgHsv.Length1
    ensures modifiedRgbMatrix.Length0 == imgHsv.Length0 && modifiedRgbMatrix.Length1 == imgHsv.Length1
    ensures modifiedRgbLoops.Length2 == 3 && modifiedRgbMatrix.Length2 == 3
    ensures forall i, j :: 0 <= i < imgHsv.Length0 && 0 <= j < imgHsv.Length1 ==>
      RgbAt(modifiedRgbLoops, i, j) == RgbAt(modifiedRgbMatrix, i, j) &&
      RgbAt(modifiedRgbMatrix, i, j) == MatrixPixel(ModifiedPixelAt(imgHsv, i, j, hueShift, valueExp, power))
  {
    var modifiedHsv := ModifyChannels(imgHsv, hueShift, valueExp, power);
    // Both converters start with `astype(np.float32)` of their input.
    var samples := ToFloat(modifiedHsv);
    assert forall i, j :: 0 <= i < imgHsv.Length0 && 0 <= j < imgHsv.Length1 ==>
      PixelAt(samples, i, j) == ModifiedPixelAt(imgHsv, i, j, hueShift, valueExp, power);
    modifiedRgbLoops := HsvToRgbLoop(samples);
    modifiedRgbMatrix := HsvToRgbMatrix(samples);
    forall i, j | 0 <= i < imgHsv.Length0 && 0 <= j < imgHsv.Length1
      ensures RgbAt(modifiedRgbLoops, i, j) == RgbAt(modifiedRgbMatrix, i, j)
    {
      StrategiesAgree(PixelAt(samples, i, j));
    }
  }
}
