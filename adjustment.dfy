/**
 * The per-channel HSV adjustments applied before conversion: hue rotated
 * modulo 180 (OpenCV's half-degree scale), saturation scaled and clipped,
 * value gamma-mapped and clipped.  `np.power` is transcendental and is
 * taken as a parameter `power`; no property of it is assumed except where
 * a lemma says so.
 */
module Adjustment {
  import opened Numeric
  import opened Hexcone

  /** `(hue + shift) % 180`: the hue rotated by `shift` half-degrees. */
  function ShiftHue(hue: real, shift: real): (r: real)
    ensures 0.0 <= r < 180.0
  {
    FMod(hue + shift, 180.0)
  }

  /** `np.clip(sat * factor, 0, 255)`. */
  function ScaleSaturation(sat: real, factor: real): (r: real)
    ensures 0.0 <= r <= 255.0
    ensures 0.0 <= sat * factor <= 255.0 ==> r == sat * factor
  {
    Clip(sat * factor, 0.0, 255.0)
  }

  /** `np.clip(np.power(val / 255.0, gamma) * 255.0, 0, 255)`. */
  function GammaValue(val: real, gamma: real, power: (real, real) -> real): (r: real)
    ensures 0.0 <= r <= 255.0
  {
    Clip(power(val / 255.0, gamma) * 255.0, 0.0, 255.0)
  }

  /**
   * The pixel `update_image` derives from a base pixel for the three slider
   * positions: the hue slider in degrees (halved), the saturation and value
   * sliders in percent.  Whatever the base pixel, the result is a valid
   * input for both conversion strategies.
   */
  function AdjustPixel(p: Hsv, hueSlider: int, saturationSlider: int, valueSlider: int,
                       power: (real, real) -> real): (q: Hsv)
    ensures InSampleRange(q) && 0.0 <= q.hue < 180.0
  {
    Hsv(ShiftHue(p.hue, hueSlider as real / 2.0),
        ScaleSaturation(p.sat, saturationSlider as real / 100.0),
        GammaValue(p.val, valueSlider as real / 100.0, power))
  }

  /** Rotating by a further 180 half-degrees (360 degrees) changes nothing. */
  lemma ShiftHueFullTurn(hue: real, shift: real)
    ensures ShiftHue(hue, shift + 180.0) == ShiftHue(hue, shift)
  {
    assert hue + (shift + 180.0) == (hue + shift) + 180.0;
    FModPeriodic(hue + shift, 180.0);
  }

  /** A zero rotation leaves a hue in [0, 180) unchanged. */
  lemma ShiftHueZero(hue: real)
    requires 0.0 <= hue < 180.0
    ensures ShiftHue(hue, 0.0) == hue
  {
    FModSmall(hue, 180.0);
  }

  /**
   * Moving the hue slider by a full turn of 360 degrees yields the same
   * adjusted pixel.
   */
  lemma HueSliderFullTurn(p: Hsv, hueSlider: int, saturationSlider: int, valueSlider: int,
                          power: (real, real) -> real)
    ensures AdjustPixel(p, hueSlider + 360, saturationSlider, valueSlider, power)
         == AdjustPixel(p, hueSlider, saturationSlider, valueSlider, power)
  {
    assert (hueSlider + 360) as real / 2.0 == hueSlider as real / 2.0 + 180.0;
    ShiftHueFullTurn(p.hue, hueSlider as real / 2.0);
  }

  /**
   * A gamma of 1 leaves an in-range value unchanged, for any `power` that
   * is the identity at exponent 1 on that value.
   */
  lemma GammaIdentity(val: real, power: (real, real) -> real)
    requires 0.0 <= val <= 255.0
    requires power(val / 255.0, 1.0) == val / 255.0
    ensures GammaValue(val, 1.0, power) == val
  {
  }

  /**
   * With the sliders at hue 0, saturation 100 % and value 100 % (and a
   * `power` that is the identity at exponent 1 on this value), a pixel in
   * OpenCV's ranges comes back unchanged.
   */
  lemma NeutralSlidersIdentity(p: Hsv, power: (real, real) -> real)
    requires InSampleRange(p) && 0.0 <= p.hue < 180.0
    requires power(p.val / 255.0, 1.0) == p.val / 255.0
    ensures AdjustPixel(p, 0, 100, 100, power) == p
  {
    ShiftHueZero(p.hue);
    GammaIdentity(p.val, power);
  }

  /**
   * Whatever the base pixel and slider positions, both conversion
   * strategies turn the adjusted pixel into the same RGB pixel.
   */
  lemma AdjustedPixelConvertsAlike(p: Hsv, hueSlider: int, saturationSlider: int, valueSlider: int,
                                   power: (real, real) -> real)
    ensures var q := AdjustPixel(p, hueSlider, saturationSlider, valueSlider, power);
      MatrixPixel(q) == LoopPixel(q)
  {
    StrategiesAgree(AdjustPixel(p, hueSlider, saturationSlider, valueSlider, power));
  }
}
