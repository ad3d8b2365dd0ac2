/**
 * The per-pixel HSV to RGB formula shared by both conversion strategies:
 * A. R. Smith's hexcone model on OpenCV's scales (hue in half-degrees,
 * nominally [0, 180); saturation and value in [0, 255]).
 *
 * The two strategies differ only in how they pick the sector triple:
 * the loop strategy by an if/elif chain whose last branch catches
 * everything else (Sector), the matrix strategy by six masked writes over
 * zeros in which the last mask has no upper bound (Masked).
 */
module Hexcone {
  import opened Numeric

  /** One HSV pixel as the converters read it (float32 channels). */
  datatype Hsv = Hsv(hue: real, sat: real, val: real)

  /** One RGB pixel on the unit scale, before scaling by 255. */
  datatype Channels = Channels(r: real, g: real, b: real)

  /** One output RGB pixel (uint8 channels). */
  datatype Rgb = Rgb(r: Byte, g: Byte, b: Byte)

  /** The quantities the formula derives from one pixel. */
  datatype Parts = Parts(h: real, v: real, c: real, x: real, m: real)

  /** The input range the converters document: saturation and value in [0, 255]. */
  predicate InSampleRange(p: Hsv) {
    0.0 <= p.sat <= 255.0 && 0.0 <= p.val <= 255.0
  }

  predicate IsGrey(q: Rgb) {
    q.r == q.g == q.b
  }

  /**
   * h in sector units (hue * 2 / 60), s and v on [0, 1], chroma c = v * s,
   * secondary component x = c * (1 - |h mod 2 - 1|) and offset m = v - c.
   */
  function Decompose(p: Hsv): Parts {
    var h := p.hue * 2.0 / 60.0;
    var s := p.sat / 255.0;
    var v := p.val / 255.0;
    var c := v * s;
    var x := c * (1.0 - Abs(FMod(h, 2.0) - 1.0));
    Parts(h, v, c, x, v - c)
  }

  /** The sector the loop strategy's if/elif chain selects. */
  function Sector(h: real): (k: nat)
    ensures k < 6
    ensures 0.0 <= h < 6.0 ==> k as real <= h < k as real + 1.0
    ensures h < 0.0 || h >= 6.0 ==> k == 5
  {
    if 0.0 <= h < 1.0 then 0
    else if 1.0 <= h < 2.0 then 1
    else if 2.0 <= h < 3.0 then 2
    else if 3.0 <= h < 4.0 then 3
    else if 4.0 <= h < 5.0 then 4
    else 5
  }

  /**
   * The matrix strategy's k-th mask: [k, k + 1) for the first five, and
   * h >= 5 for the last.
   */
  predicate InMask(k: nat, h: real) {
    if k < 5 then k as real <= h < k as real + 1.0 else k == 5 && h >= 5.0
  }

  /** The (r, g, b) triple of sector k, before the offset m is added. */
  function Table(k: nat, c: real, x: real): Channels {
    if k == 0 then Channels(c, x, 0.0)
    else if k == 1 then Channels(x, c, 0.0)
    else if k == 2 then Channels(0.0, c, x)
    else if k == 3 then Channels(0.0, x, c)
    else if k == 4 then Channels(x, 0.0, c)
    else Channels(c, 0.0, x)
  }

  /**
   * What the matrix strategy's buffer holds at one pixel after the masked
   * writes for masks 0 .. n - 1 over a buffer of zeros: a later mask
   * overwrites an earlier one.
   */
  function Masked(n: nat, h: real, c: real, x: real): Channels {
    if n == 0 then Channels(0.0, 0.0, 0.0)
    else if InMask(n - 1, h) then Table(n - 1, c, x)
    else Masked(n - 1, h, c, x)
  }

  function Offset(t: Channels, m: real): Channels {
    Channels(t.r + m, t.g + m, t.b + m)
  }

  /** The loop strategy's channels for one pixel, before scaling. */
  function LoopChannels(p: Hsv): Channels {
    var d := Decompose(p);
    Offset(Table(Sector(d.h), d.c, d.x), d.m)
  }

  /** The matrix strategy's channels for one pixel, before scaling. */
  function MatrixChannels(p: Hsv): Channels {
    var d := Decompose(p);
    Offset(Masked(6, d.h, d.c, d.x), d.m)
  }

  /**
   * The loop strategy's output pixel: each channel scaled by 255 and stored
   * into a uint8 buffer with no clipping.  The cast is defined only because
   * every channel stays within [0, 1] (TableWithinValue).
   */
  function LoopPixel(p: Hsv): Rgb
    requires InSampleRange(p)
  {
    var t := LoopChannels(p);
    TableWithinValue(Sector(Decompose(p).h), p);
    Rgb(Truncate(t.r * 255.0), Truncate(t.g * 255.0), Truncate(t.b * 255.0))
  }

  /** The matrix strategy's output pixel: scaled by 255, clipped, cast. */
  function MatrixPixel(p: Hsv): Rgb {
    var t := MatrixChannels(p);
    Rgb(ClipToByte(t.r * 255.0), ClipToByte(t.g * 255.0), ClipToByte(t.b * 255.0))
  }

  // ----- the sector partition -----

  /** Every sector's triple is an arrangement of c, x and 0. */
  lemma TableArrangement(k: nat, c: real, x: real)
    ensures var t := Table(k, c, x); multiset{t.r, t.g, t.b} == multiset{c, x, 0.0}
  {
  }

  /**
   * For a non-negative h the masks and the if/elif chain agree: h lies in
   * exactly the mask of its sector.
   */
  lemma MaskIsSector(k: nat, h: real)
    requires h >= 0.0
    ensures InMask(k, h) <==> k == Sector(h)
  {
  }

  /** No two masks overlap, whatever h is. */
  lemma MasksDisjoint(k1: nat, k2: nat, h: real)
    requires InMask(k1, h) && InMask(k2, h)
    ensures k1 == k2
  {
  }

  /** A negative h lies in no mask, although the if/elif chain sends it to sector 5. */
  lemma NegativeHueUnmasked(k: nat, h: real)
    requires h < 0.0
    ensures !InMask(k, h)
    ensures Sector(h) == 5
  {
  }

  /**
   * After the masked writes for masks 0 .. n - 1 a pixel holds its sector's
   * triple if its sector is among them, and zeros otherwise; a negative h
   * keeps its zeros.
   */
  lemma {:induction false} MaskedIsSectorTable(n: nat, h: real, c: real, x: real)
    requires n <= 6
    ensures Masked(n, h, c, x)
         == if h >= 0.0 && Sector(h) < n then Table(Sector(h), c, x) else Channels(0.0, 0.0, 0.0)
  {
    if n > 0 {
      MaskedIsSectorTable(n - 1, h, c, x);
      if h >= 0.0 {
        MaskIsSector(n - 1, h);
      } else {
        NegativeHueUnmasked(n - 1, h);
      }
    }
  }

  // ----- bounds -----

  /** For an in-range pixel: 0 <= m, c + m = v <= 1 and 0 <= x <= c. */
  lemma PartsBounds(p: Hsv)
    requires InSampleRange(p)
    ensures var d := Decompose(p);
      0.0 <= d.m && d.c + d.m == d.v <= 1.0 && 0.0 <= d.x <= d.c
  {
    var h := p.hue * 2.0 / 60.0;
    var s := p.sat / 255.0;
    var v := p.val / 255.0;
    var c := v * s;
    var f := 1.0 - Abs(FMod(h, 2.0) - 1.0);
    assert 0.0 <= f <= 1.0;
    UnitProduct(v, s);
    UnitProduct(c, f);
    var x := c * f;
    assert 0.0 <= x <= c;
    assert Decompose(p) == Parts(h, v, c, x, v - c);
  }

  lemma UnitProduct(a: real, f: real)
    requires 0.0 <= a && 0.0 <= f <= 1.0
    ensures 0.0 <= a * f <= a
  {
    assert a - a * f == a * (1.0 - f);
  }

  /**
   * Every sector triple, once offset by m, has each channel between m and
   * v, and so within [0, 1]: the loop strategy needs no clipping.
   */
  lemma TableWithinValue(k: nat, p: Hsv)
    requires InSampleRange(p)
    ensures var d := Decompose(p); var t := Offset(Table(k, d.c, d.x), d.m);
      0.0 <= d.m <= t.r <= d.v <= 1.0 &&
      d.m <= t.g <= d.v && d.m <= t.b <= d.v
  {
    PartsBounds(p);
  }

  /**
   * Before scaling, one channel of the loop result equals v, one equals m,
   * and the third lies between them.
   */
  lemma ExtremeChannels(p: Hsv)
    requires InSampleRange(p)
    ensures var d := Decompose(p); var t := LoopChannels(p);
      (t.r == d.v || t.g == d.v || t.b == d.v) &&
      (t.r == d.m || t.g == d.m || t.b == d.m) &&
      d.m <= t.r <= d.v && d.m <= t.g <= d.v && d.m <= t.b <= d.v
  {
    var d := Decompose(p);
    TableWithinValue(Sector(d.h), p);
    PartsBounds(p);
  }

  // ----- agreement of the two strategies -----

  /**
   * For every in-range pixel with a non-negative hue the two strategies
   * produce the same output pixel.
   */
  lemma StrategiesAgree(p: Hsv)
    requires InSampleRange(p) && p.hue >= 0.0
    ensures MatrixPixel(p) == LoopPixel(p)
  {
    var d := Decompose(p);
    MaskedIsSectorTable(6, d.h, d.c, d.x);
    assert MatrixChannels(p) == LoopChannels(p);
    TableWithinValue(Sector(d.h), p);
  }

  /**
   * For a negative hue the strategies part ways: the matrix strategy leaves
   * the zeros in place and yields the grey (m, m, m), while the loop
   * strategy falls through to the last sector's triple.
   */
  lemma NegativeHueDiverges(p: Hsv)
    requires p.hue < 0.0
    ensures var d := Decompose(p);
      MatrixChannels(p) == Channels(d.m, d.m, d.m) &&
      LoopChannels(p) == Channels(d.c + d.m, d.m, d.x + d.m)
  {
    var d := Decompose(p);
    MaskedIsSectorTable(6, d.h, d.c, d.x);
  }

  /** The formula's quantities for HSV (-30, 255, 255): h = -1, and h mod 2 = 1. */
  lemma NegativeHueParts()
    ensures Decompose(Hsv(-30.0, 255.0, 255.0)) == Parts(-1.0, 1.0, 1.0, 1.0, 0.0)
  {
    FModPeriodic(-1.0, 2.0);
    FModSmall(1.0, 2.0);
    assert FMod(-1.0, 2.0) == 1.0;
  }

  /**
   * A full-saturation, full-value pixel at hue -30 shows the difference: the
   * matrix strategy turns it black (this lemma), the loop strategy magenta
   * (NegativeHueLoopExample).  The pixel is bound by `:|` rather than `:=`
   * so that the solver does not unfold the formula on literal arguments.
   */
  lemma NegativeHueMatrixExample()
    ensures MatrixPixel(Hsv(-30.0, 255.0, 255.0)) == Rgb(0, 0, 0)
  {
    var p :| p == Hsv(-30.0, 255.0, 255.0);
    NegativeHueParts();
    NegativeHueDiverges(p);
    var t := MatrixChannels(p);
    assert t == Channels(0.0, 0.0, 0.0);
    assert MatrixPixel(p) == Rgb(ClipToByte(t.r * 255.0), ClipToByte(t.g * 255.0), ClipToByte(t.b * 255.0));
  }

  /** The loop strategy turns the pixel of NegativeHueMatrixExample magenta. */
  lemma NegativeHueLoopExample()
    ensures LoopPixel(Hsv(-30.0, 255.0, 255.0)) == Rgb(255, 0, 255)
  {
    var p :| p == Hsv(-30.0, 255.0, 255.0);
    NegativeHueParts();
    NegativeHueDiverges(p);
    var t := LoopChannels(p);
    assert t == Channels(1.0, 0.0, 1.0);
    assert LoopPixel(p) == Rgb(Truncate(t.r * 255.0), Truncate(t.g * 255.0), Truncate(t.b * 255.0));
  }

  // ----- special inputs -----

  /**
   * Zero saturation gives a grey pixel under both strategies; in range its
   * level is the value sample with the fraction dropped.
   */
  lemma UnsaturatedIsGrey(p: Hsv)
    requires p.sat == 0.0
    ensures IsGrey(MatrixPixel(p))
    ensures InSampleRange(p) ==> IsGrey(LoopPixel(p)) && LoopPixel(p).r == Truncate(p.val)
  {
    var d := Decompose(p);
    assert d.c == 0.0 && d.x == 0.0;
    MaskedIsSectorTable(6, d.h, d.c, d.x);
  }

  /**
   * Half-degree hue 30 (60 degrees) at saturation 128 and value 200 lies on
   * the boundary of sector 1: red and green equal the value and blue is
   * m * 255 = 200 * 127 / 255, about 99.6, cast to 99.
   */
  lemma SectorBoundaryExample()
    ensures LoopPixel(Hsv(30.0, 128.0, 200.0)) == Rgb(200, 200, 99)
    ensures MatrixPixel(Hsv(30.0, 128.0, 200.0)) == Rgb(200, 200, 99)
  {
    var p := Hsv(30.0, 128.0, 200.0);
    var v, c := 200.0 / 255.0, 25600.0 / 65025.0;
    FModSmall(1.0, 2.0);
    assert Decompose(p) == Parts(1.0, v, c, c, v - c);
    assert LoopChannels(p) == Channels(v, v, v - c);
    assert v * 255.0 == 200.0;
    assert (v - c) * 255.0 == 25400.0 / 255.0;
    assert Truncate(25400.0 / 255.0) == 99;
    StrategiesAgree(p);
  }
}
