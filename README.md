# HSV adjustment and HSV→RGB conversion, modelled in Dafny

The repository has two programs that change the hue, saturation and value of
an image and convert the result back to RGB:

- a PyQt6 window, `HSVAdjustmentApp` in `GUI-Program/GUIProgram.py`;
- a command-line pipeline, `modify_hsv_image` and class `ColorConverter` in
  `Static-Program/StaticProgram.py`.

Both carry the same two HSV→RGB converters. Each implements A. R. Smith's
hexcone formula on OpenCV's scales: hue in half-degrees, saturation and value
in 0–255.

- `hsv_to_rgb_matrix` builds the result with whole-array NumPy operations: six
  masked assignments over a buffer of zeros, then `+= m` on each channel, then
  scale, clip and cast to uint8.
- `hsv_to_rgb_loop` walks the pixels in nested loops. It uses an if/elif
  sector chain and casts each channel to uint8 without clipping.

This project models both converters once, since their code is the same in both
files, together with the adjustments that feed them:

- `update_image` in the window, with the window's image state as a class;
- the hue and value edits of `modify_hsv_image`.

What is proved:

- The sector masks partition the non-negative hues.
- For saturation and value in [0, 255], the two strategies give the same image
  for every hue ≥ 0. For negative hues they part ways, and the model says
  exactly how.
- For saturation and value in [0, 255], the loop strategy never needs clipping.
- Zero saturation gives grey.
- Every adjustment lands in the converters' input range.
- Hue shifts are periodic.
- The window never writes its cached base buffer.

Modules:

- `Numeric`: uint8 samples, Python's floor-modulo `%` on floats, `np.clip`
  and the float-to-uint8 cast.
- `Hexcone`: the per-pixel formula and the specification functions
  `LoopPixel` and `MatrixPixel`, with their lemmas.
- `Images`: height × width × 3 buffers (`array3`), with `.copy()`,
  `.astype(np.float32)` and one-channel assignment.
- `Converter`: the two strategies as array-filling methods.
- `Adjustment`: the channel adjustments of `update_image`.
- `GuiProgram`: class `HsvAdjustmentApp`, with `load_image`'s state change and
  `update_image`.
- `StaticProgram`: `modify_hsv_image` from the HSV image on.

Arithmetic is exact (`real`). A float32 sample is a `real`, and a uint8 sample
is a `Byte` (an `int` in [0, 255]). NumPy's float-to-uint8 cast of a value in
range is the floor. `np.power` is a function-valued parameter `power`, and
nothing is assumed of it except where a lemma says so.

HSV (30, 128, 200) lies on the boundary of sector 1 and converts to RGB
(200, 200, 99) under both strategies: m = v − c = 200/255 − 25600/65025, so
blue is m·255 = 200·127/255 ≈ 99.6, cast to 99 (`Hexcone.SectorBoundaryExample`).

## Model

| member | source | states |
|---|---|---|
| Numeric.FMod | GUI-Program/GUIProgram.py:334 | Python's float `%` by a positive modulus always lies in [0, n), including for negative operands |
| Numeric.FModPeriodic | GUI-Program/GUIProgram.py:243 | adding one modulus to the operand does not change `%` (proved from the floor characterisation) |
| Numeric.FModSmall | GUI-Program/GUIProgram.py:243 | an operand already in [0, n) is its own remainder |
| Numeric.Clip | GUI-Program/GUIProgram.py:244 | `np.clip` lands in [lo, hi], is the identity inside the range and saturates at the nearer bound outside it |
| Numeric.Truncate | Static-Program/StaticProgram.py:223 | the uint8 cast of a value in [0, 256) is the whole sample r with r ≤ a < r + 1 |
| Numeric.ClipToByte | Static-Program/StaticProgram.py:129 | clip to [0, 255] then cast: 0 for a ≤ 0, 255 for a ≥ 255, otherwise the whole part of a |
| Hexcone.Decompose | GUI-Program/GUIProgram.py:399-406 | defines the formula's quantities for one pixel: h = hue·2/60, s = S/255, v = V/255, c = v·s, x = c·(1 − abs(h mod 2 − 1)), m = v − c; PartsBounds bounds them |
| Hexcone.Table | GUI-Program/GUIProgram.py:408-419 | defines the (r, g, b) triple of each sector, shared by the if/elif chain and the six masked assignments; TableArrangement shows each is an arrangement of c, x and 0 |
| Hexcone.TableArrangement | GUI-Program/GUIProgram.py:345-366 | every sector's triple is a permutation of {c, x, 0} |
| Hexcone.InMask | GUI-Program/GUIProgram.py:344-364 | defines the six mask conditions, the last without an upper bound; MaskIsSector and MasksDisjoint characterise them |
| Hexcone.Masked | GUI-Program/GUIProgram.py:338-366 | defines what a pixel holds after the masked writes for masks 0 … n−1 over zeros, a later mask overwriting an earlier one; MaskedIsSectorTable gives its closed form |
| Hexcone.LoopPixel | GUI-Program/GUIProgram.py:421 | defines the loop strategy's pixel: the chain's triple plus m, times 255, stored into uint8 without clipping; TableWithinValue shows the store is in range and StrategiesAgree ties it to MatrixPixel |
| Hexcone.MatrixPixel | GUI-Program/GUIProgram.py:369-373 | defines the matrix strategy's pixel: the masked result plus m, times 255, clipped and cast; StrategiesAgree ties it to LoopPixel, and NegativeHueDiverges gives where they differ |
| Hexcone.Sector | GUI-Program/GUIProgram.py:408-419 | the if/elif chain picks a sector below 6; for 0 ≤ h < 6 it is the one with k ≤ h < k + 1, and every other h falls to the else branch (sector 5) |
| Hexcone.MaskIsSector | GUI-Program/GUIProgram.py:344-366 | for h ≥ 0, h lies in mask k if and only if k is the sector the if/elif chain picks, so the masks cover every h ≥ 0 exactly once and h ≥ 6 falls into the last mask |
| Hexcone.MasksDisjoint | Static-Program/StaticProgram.py:101-123 | no h lies in two different masks |
| Hexcone.NegativeHueUnmasked | GUI-Program/GUIProgram.py:344-366 | a negative h lies in no mask, yet the if/elif chain sends it to sector 5 |
| Hexcone.MaskedIsSectorTable | GUI-Program/GUIProgram.py:338-366 | after masks 0 … n−1 over zeros, a pixel holds its sector's triple if that sector is among them and is non-negative; otherwise it holds zeros |
| Hexcone.PartsBounds | GUI-Program/GUIProgram.py:401-406 | for S, V in [0, 255]: 0 ≤ m, c + m = v ≤ 1 and 0 ≤ x ≤ c |
| Hexcone.TableWithinValue | Static-Program/StaticProgram.py:140-160 | every sector triple plus m has each channel in [m, v] ⊆ [0, 1], so the loop's unclipped cast stays in [0, 255] |
| Hexcone.ExtremeChannels | GUI-Program/GUIProgram.py:404-419 | before scaling, one loop channel equals v, one equals m, and all three lie between m and v |
| Hexcone.StrategiesAgree | GUI-Program/GUIProgram.py:344-373 | for S, V in [0, 255] and hue ≥ 0 the matrix and loop strategies give the same RGB pixel |
| Hexcone.NegativeHueDiverges | GUI-Program/GUIProgram.py:408-421 | for a negative hue the matrix strategy gives (m, m, m) and the loop strategy gives the sector-5 triple (c + m, m, x + m) |
| Hexcone.NegativeHueParts | GUI-Program/GUIProgram.py:401-406 | for HSV (−30, 255, 255) the formula gives h = −1, v = c = x = 1 and m = 0, since Python's −1 % 2 is 1 |
| Hexcone.NegativeHueMatrixExample | Static-Program/StaticProgram.py:101-129 | HSV (−30, 255, 255), whose h = −1 lies in no mask, becomes RGB (0, 0, 0) under the matrix strategy |
| Hexcone.NegativeHueLoopExample | Static-Program/StaticProgram.py:140-160 | the same pixel falls to the loop's else branch and becomes RGB (255, 0, 255) under the loop strategy |
| Hexcone.UnsaturatedIsGrey | GUI-Program/GUIProgram.py:404-421 | zero saturation gives R = G = B under both strategies; under the loop strategy that level is the value sample with its fraction dropped |
| Hexcone.SectorBoundaryExample | GUI-Program/GUIProgram.py:375-423 | HSV (30, 128, 200), on the boundary of sector 1, becomes RGB (200, 200, 99) under both strategies |
| Images.Copy | GUI-Program/GUIProgram.py:242 | `.copy()` gives a fresh buffer of the same shape and samples |
| Images.CopyBytes | Static-Program/StaticProgram.py:211 | `.copy()` of a uint8 buffer gives a fresh buffer of the same shape and samples |
| Images.ToFloat | Static-Program/StaticProgram.py:89 | `.astype(np.float32)` gives a fresh buffer of the same shape holding the same sample values |
| Images.MapChannel | GUI-Program/GUIProgram.py:243-248 | `a[:, :, ch] = f(a[:, :, ch])` replaces every sample of channel ch by f of itself and leaves the other channels as they were |
| Converter.Planes | GUI-Program/GUIProgram.py:327-335 | the h, c, x and m planes hold, at each pixel, that pixel's sector position, chroma, secondary component and offset |
| Converter.AssignMasked | GUI-Program/GUIProgram.py:344-346 | one masked assignment for mask k turns a buffer holding the result of masks 0 … k−1 into one holding the result of masks 0 … k |
| Converter.AddPlane | GUI-Program/GUIProgram.py:369-371 | `rgb[:, :, ch] += m` raises channel ch of every pixel by that pixel's m and changes nothing else |
| Converter.ScaleClipCast | GUI-Program/GUIProgram.py:373 | every output sample is the input sample times 255, clipped to [0, 255] and cast |
| Converter.SectorTriples | Static-Program/StaticProgram.py:98-123 | zeros followed by all six masked assignments leave every pixel holding the masks' combined result |
| Converter.HsvToRgbMatrix | GUI-Program/GUIProgram.py:308-373 | the output is a new array with the input's height and width, and every output pixel is MatrixPixel of its input pixel (so with StrategiesAgree it matches the loop) |
| Converter.HsvToRgbLoop | Static-Program/StaticProgram.py:131-162 | for S, V in [0, 255] the loop fills a new array, setting every output pixel with LoopPixel of its input pixel, and every unclipped cast is in range |
| Converter.LoopStep | GUI-Program/GUIProgram.py:401-421 | one loop iteration: the if/elif chain's triple plus m, scaled by 255, lies in [0, 256) and casts to LoopPixel of the pixel |
| Adjustment.ShiftHue | GUI-Program/GUIProgram.py:243 | the shifted hue lies in [0, 180) |
| Adjustment.ScaleSaturation | GUI-Program/GUIProgram.py:244 | the scaled saturation lies in [0, 255] and equals sat × factor when that product is already in range |
| Adjustment.GammaValue | GUI-Program/GUIProgram.py:246-248 | the gamma-mapped value lies in [0, 255] whatever `power` returns |
| Adjustment.AdjustPixel | GUI-Program/GUIProgram.py:238-248 | every adjusted pixel has hue in [0, 180) and S, V in [0, 255], so it is a valid converter input |
| Adjustment.ShiftHueFullTurn | GUI-Program/GUIProgram.py:243 | a further 180 half-degrees of shift gives the same hue |
| Adjustment.ShiftHueZero | GUI-Program/GUIProgram.py:243 | a zero shift leaves a hue in [0, 180) unchanged |
| Adjustment.HueSliderFullTurn | GUI-Program/GUIProgram.py:238-243 | moving the hue slider by 360 degrees gives the same adjusted pixel |
| Adjustment.GammaIdentity | GUI-Program/GUIProgram.py:246-248 | gamma 1 leaves an in-range value unchanged when `power` is the identity at exponent 1 there |
| Adjustment.NeutralSlidersIdentity | GUI-Program/GUIProgram.py:238-248 | sliders at hue 0, saturation 100 and value 100 give back every pixel in OpenCV's ranges (under the same condition on `power`) |
| Adjustment.AdjustedPixelConvertsAlike | GUI-Program/GUIProgram.py:243-248 | whatever the slider positions, both converters turn the adjusted pixel into the same RGB pixel |
| GuiProgram.HsvAdjustmentApp.constructor | GUI-Program/GUIProgram.py:133-136 | a new window has no image, no base buffer and no adjusted buffer, and its invariant holds |
| GuiProgram.HsvAdjustmentApp.LoadImage | GUI-Program/GUIProgram.py:198-202 | loading stores the RGB image, a fresh float copy of its HSV conversion as the base, and a second fresh copy as the adjusted buffer, and the invariant holds |
| GuiProgram.HsvAdjustmentApp.UpdateImage | GUI-Program/GUIProgram.py:235-250 | with no image loaded nothing changes; otherwise the base buffer is left unchanged and a fresh adjusted buffer holds AdjustPixel of each base pixel; the invariant (the adjusted buffer is a valid converter input) is kept |
| GuiProgram.RepeatedUpdateNoDrift | GUI-Program/GUIProgram.py:242-250 | two updates with the same slider positions leave identical adjusted buffers: nothing accumulates |
| StaticProgram.ModifyHue | Static-Program/StaticProgram.py:214-216 | the stored hue is below 180 and is the whole part of the hue shifted by hue_shift / 2 modulo 180 |
| StaticProgram.ModifyValue | Static-Program/StaticProgram.py:220-223 | the raw gamma result `power(val / 255, value_exp) * 255` is clipped into [0, 255] before the cast: at or below 0 it stores 0, at or above 255 it stores 255, in between its whole part |
| StaticProgram.ModifyHueFullTurn | Static-Program/StaticProgram.py:214-216 | shifts of hue_shift and hue_shift + 360 store the same hue |
| StaticProgram.ModifyHueZero | Static-Program/StaticProgram.py:214-216 | a zero shift leaves a hue sample below 180 unchanged |
| StaticProgram.ModifyValueIdentity | Static-Program/StaticProgram.py:220-223 | exponent 1 leaves the value sample unchanged when `power` is the identity at exponent 1 there |
| StaticProgram.ModifiedPixelAt | Static-Program/StaticProgram.py:211-223 | the modified pixel has hue in [0, 180), S and V in [0, 255], and the input's saturation |
| StaticProgram.ModifyChannels | Static-Program/StaticProgram.py:211-223 | the result is a different array from the input (which is not written); channel 0 holds the modified hue, channel 1 the input's saturation and channel 2 the modified value |
| StaticProgram.ModifyHsvImage | Static-Program/StaticProgram.py:211-275 | the loop and matrix results are the same image, and each pixel is the hexcone conversion of the modified pixel |

## Left out

- The PyQt6 user interface is not modelled: widgets, sliders, labels, scenes, `show_images`, resize and show events, message boxes and file dialogs. Slider positions enter `UpdateImage` as integers.
- OpenCV calls are not modelled because their code is not in the repository: `imread`, `cvtColor` in both directions, `resize` and `imwrite`.
    - The RGB image and its HSV conversion enter `LoadImage` and `ModifyHsvImage` as parameters.
    - The window's `adjusted_image` field (the `cvtColor` result at GUIProgram.py:251) is not modelled.
    - The `img_rgb` that `modify_hsv_image` returns is not modelled.
    - `modify_hsv_image`'s loading, and its error when the file cannot be read, are not modelled.
- Timing and benchmarking are wall-clock measurements and are not modelled: `compare_methods`, `compare_performance`, the timing inside `modify_hsv_image` and `save_image`'s choice of converter and file write.
- Plotting, `show_results` and the `print_values` diagnostics are not modelled. The diagnostics pick random pixels and only print.
- `np.power` is transcendental. It is a parameter, and only its clipped result is bounded.
- Float32 and float64 rounding are not modelled: all arithmetic is exact. The model makes no claim that results are bit-exact, or about how far the float32 results of the two converters can differ.
- Converter.HsvToRgbMatrix, Converter.HsvToRgbLoop: both require a 3-channel input. The source documents that input but never checks it.
- Converter.HsvToRgbLoop: requires S and V in [0, 255], the documented input range. Outside it the source's unclipped uint8 cast of an out-of-range value is not modelled.
- Converter.Planes: computes h, c, x and m in one pass over the pixels, where NumPy evaluates each whole-array expression separately. The values are the same.
- Converter.HsvToRgbMatrix: float32 buffers are `real` arrays, and the intermediate whole-array temporaries (`zeros`, the masked slices) are not separate arrays.
- A negative hue never comes out of OpenCV or the adjustments, but the converters accept one. The model states how the strategies then differ (`NegativeHueDiverges`) and does not claim it is reachable.
