/**
 * The image state of the GUI program's window (HSVAdjustmentApp) and the
 * work of `update_image`: every slider change derives a fresh adjusted
 * HSV buffer from the cached base buffer, which is never written.
 */
module GuiProgram {
  import opened Numeric
  import opened Images
  import opened Adjustment

  class HsvAdjustmentApp {
    /** The loaded RGB image (`original_image`); null until an image is loaded. */
    var originalImage: array3?<Byte>
    /** The cached float32 HSV base buffer (`hsv_image`). */
    var hsvImage: array3?<real>
    /** The adjusted HSV buffer (`current_hsv`) that saving converts to RGB. */
    var currentHsv: array3?<real>

    /**
     * The three buffers are loaded together; the adjusted buffer has the
     * base's shape, is a different array, and is always a valid input on
     * which both conversion strategies agree.
     */
    ghost predicate Valid()
      reads this, currentHsv
    {
      (originalImage == null <==> hsvImage == null) &&
      (hsvImage == null <==> currentHsv == null) &&
      (hsvImage != null ==>
        hsvImage.Length2 == 3 && currentHsv != hsvImage &&
        currentHsv.Length0 == hsvImage.Length0 && currentHsv.Length1 == hsvImage.Length1 &&
        currentHsv.Length2 == 3 && Convertible(currentHsv))
    }

    /** The image state of a new window: nothing loaded. */
    constructor ()
      ensures Valid()
      ensures originalImage == null && hsvImage == null && currentHsv == null
    {
      originalImage, hsvImage, currentHsv := null, null, null;
    }

    /**
     * `load_image` once a file has been chosen: `image` is the decoded RGB
     * image and `hsv` OpenCV's RGB to HSV conversion of it.  The base buffer
     * is its float32 copy and the adjusted buffer starts as a copy of that.
     */
    method LoadImage(image: array3<Byte>, hsv: array3<Byte>)
      requires hsv.Length2 == 3
      modifies this
      ensures Valid()
      ensures originalImage == image && hsvImage != null && currentHsv != null
      ensures fresh(hsvImage) && fresh(currentHsv)
      ensures hsvImage.Length0 == hsv.Length0 && hsvImage.Length1 == hsv.Length1 && hsvImage.Length2 == 3
      ensures forall i, j :: 0 <= i < hsv.Length0 && 0 <= j < hsv.Length1 ==>
        PixelAt(hsvImage, i, j) == BytePixelAt(hsv, i, j) && PixelAt(currentHsv, i, j) == BytePixelAt(hsv, i, j)
    {
      originalImage := image;
      var base := ToFloat(hsv);
      var current := Copy(base);
      hsvImage, currentHsv := base, current;
      assert forall i, j :: 0 <= i < hsv.Length0 && 0 <= j < hsv.Length1 ==>
        PixelAt(current, i, j) == BytePixelAt(hsv, i, j);
    }

    /**
     * `update_image` for the slider positions given: with no image loaded it
     * changes nothing; otherwise it copies the base buffer, rewrites the
     * copy's hue, saturation and value channels, and makes the copy the
     * adjusted buffer.  The base buffer is never written.
     */
    method UpdateImage(hueSlider: int, saturationSlider: int, valueSlider: int, power: (real, real) -> real)
      requires Valid()
      modifies this`currentHsv
      ensures Valid()
      ensures hsvImage != null ==> unchanged(hsvImage)
      ensures old(originalImage) == null ==> currentHsv == old(currentHsv)
      ensures old(originalImage) != null ==> hsvImage != null && currentHsv != null && fresh(currentHsv)
      ensures old(originalImage) != null ==>
        forall i, j :: 0 <= i < hsvImage.Length0 && 0 <= j < hsvImage.Length1 ==>
          PixelAt(currentHsv, i, j) == AdjustPixel(PixelAt(hsvImage, i, j), hueSlider, saturationSlider, valueSlider, power)
    {
      if originalImage == null {
        return;
      }
      var hueShift := hueSlider as real / 2.0;
      var saturationFactor := saturationSlider as real / 100.0;
      var gamma := valueSlider as real / 100.0;

      var current := Copy(hsvImage);
      MapChannel(current, 0, v => ShiftHue(v, hueShift));
      MapChannel(current, 1, v => ScaleSaturation(v, saturationFactor));
      MapChannel(current, 2, v => GammaValue(v, gamma, power));
      forall i, j | 0 <= i < hsvImage.Length0 && 0 <= j < hsvImage.Length1
        ensures PixelAt(current, i, j) == AdjustPixel(PixelAt(hsvImage, i, j), hueSlider, saturationSlider, valueSlider, power)
      {
      }
      currentHsv := current;
    }
  }

  /**
   * Two slider updates with the same positions leave the same adjusted
   * buffer: each one starts again from the unchanged base, so nothing
   * accumulates.
   */
  method RepeatedUpdateNoDrift(app: HsvAdjustmentApp, hueSlider: int, saturationSlider: int, valueSlider: int,
                               power: (real, real) -> real)
      returns (first: array3<real>, second: array3<real>)
    requires app.Valid() && app.originalImage != null
    modifies app`currentHsv
    ensures first.Length0 == second.Length0 && first.Length1 == second.Length1
    ensures first.Length2 == 3 && second.Length2 == 3
    ensures forall i, j :: 0 <= i < first.Length0 && 0 <= j < first.Length1 ==>
      PixelAt(first, i, j) == PixelAt(second, i, j)
  {
    app.UpdateImage(hueSlider, saturationSlider, valueSlider, power);
    first := app.currentHsv;
    app.UpdateImage(hueSlider, saturationSlider, valueSlider, power);
    second := app.currentHsv;
  }
}
