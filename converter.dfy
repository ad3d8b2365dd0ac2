/**
 * The two HSV to RGB conversion strategies, `hsv_to_rgb_matrix` and
 * `hsv_to_rgb_loop`.  GUIProgram.py and StaticProgram.py (class
 * ColorConverter) carry the same code for both; it is modelled once here.
 * Each method is specified by the per-pixel function of module Hexcone it
 * computes at every pixel.
 */
module Converter {
  import opened Numeric
  import opened Hexcone
  import opened Images

  /** The pre-scaling channels the matrix strategy's float buffer holds at one pixel. */
  function ChannelsAt(a: array3<real>, i: int, j: int): Channels
    reads a
    requires 0 <= i < a.Length0 && 0 <= j < a.Length1 && a.Length2 == 3
  {
    Channels(a[i, j, 0], a[i, j, 1], a[i, j, 2])
  }

  // ----- the matrix strategy -----

  /**
   * The whole-array expressions h, c, x and m of the matrix strategy,
   * computed element by element into four planes.
   */
  method Planes(hsvImg: array3<real>) returns (h: array2<real>, c: array2<real>, x: array2<real>, m: array2<real>)
    requires hsvImg.Length2 == 3
    ensures h.Length0 == c.Length0 == x.Length0 == m.Length0 == hsvImg.Length0
    ensures h.Length1 == c.Length1 == x.Length1 == m.Length1 == hsvImg.Length1
    ensures forall i, j :: 0 <= i < hsvImg.Length0 && 0 <= j < hsvImg.Length1 ==>
      var d := Decompose(PixelAt(hsvImg, i, j)); h[i, j] == d.h && c[i, j] == d.c && x[i, j] == d.x && m[i, j] == d.m
  {
    var height, width := hsvImg.Length0, hsvImg.Length1;
    h := new real[height, width];
    c := new real[height, width];
    x := new real[height, width];
    m := new real[height, width];
    for i := 0 to height
      invariant forall i', j :: 0 <= i' < i && 0 <= j < width ==>
        var d := Decompose(PixelAt(hsvImg, i', j)); h[i', j] == d.h && c[i', j] == d.c && x[i', j] == d.x && m[i', j] == d.m
    {
      for j := 0 to width
        invariant forall i', j' :: 0 <= i' < i && 0 <= j' < width ==>
          var d := Decompose(PixelAt(hsvImg, i', j')); h[i', j'] == d.h && c[i', j'] == d.c && x[i', j'] == d.x && m[i', j'] == d.m
        invariant forall j' :: 0 <= j' < j ==>
          var d := Decompose(PixelAt(hsvImg, i, j')); h[i, j'] == d.h && c[i, j'] == d.c && x[i, j'] == d.x && m[i, j'] == d.m
      {
        var d := Decompose(PixelAt(hsvImg, i, j));
        h[i, j], c[i, j], x[i, j], m[i, j] := d.h, d.c, d.x, d.m;
      }
    }
  }

  /**
   * One masked assignment `rgb[mask, 0], rgb[mask, 1], rgb[mask, 2] = ...`
   * for mask k: pixels whose h lies in the mask get sector k's triple, all
   * others keep what they hold, so a buffer that held the result of masks
   * 0 .. k - 1 now holds that of masks 0 .. k.
   */
  method AssignMasked(rgb: array3<real>, h: array2<real>, c: array2<real>, x: array2<real>, k: nat)
    requires k < 6 && rgb.Length2 == 3
    requires h.Length0 == c.Length0 == x.Length0 == rgb.Length0
    requires h.Length1 == c.Length1 == x.Length1 == rgb.Length1
    requires forall i, j :: 0 <= i < rgb.Length0 && 0 <= j < rgb.Length1 ==>
      ChannelsAt(rgb, i, j) == Masked(k, h[i, j], c[i, j], x[i, j])
    modifies rgb
    ensures forall i, j :: 0 <= i < rgb.Length0 && 0 <= j < rgb.Length1 ==>
      ChannelsAt(rgb, i, j) == Masked(k + 1, h[i, j], c[i, j], x[i, j])
  {
    for i := 0 to rgb.Length0
      invariant forall i', j :: 0 <= i' < rgb.Length0 && 0 <= j < rgb.Length1 ==>
        ChannelsAt(rgb, i', j) == Masked(if i' < i then k + 1 else k, h[i', j], c[i', j], x[i', j])
    {
      for j := 0 to rgb.Length1
        invariant forall i', j' :: 0 <= i' < rgb.Length0 && 0 <= j' < rgb.Length1 ==>
          ChannelsAt(rgb, i', j') ==
            Masked(if i' < i || (i' == i && j' < j) then k + 1 else k, h[i', j'], c[i', j'], x[i', j'])
      {
        if InMask(k, h[i, j]) {
          var t := Table(k, c[i, j], x[i, j]);
          rgb[i, j, 0], rgb[i, j, 1], rgb[i, j, 2] := t.r, t.g, t.b;
        }
      }
    }
  }

  /** Channel ch of t raised by m. */
  function Raise(t: Channels, ch: nat, m: real): Channels {
    if ch == 0 then t.(r := t.r + m) else if ch == 1 then t.(g := t.g + m) else t.(b := t.b + m)
  }

  /** `rgb[:, :, ch] += m`. */
  method AddPlane(rgb: array3<real>, m: array2<real>, ch: nat)
    requires ch < 3 && rgb.Length2 == 3
    requires m.Length0 == rgb.Length0 && m.Length1 == rgb.Length1
    modifies rgb
    ensures forall i, j :: 0 <= i < rgb.Length0 && 0 <= j < rgb.Length1 ==>
      ChannelsAt(rgb, i, j) == Raise(old(ChannelsAt(rgb, i, j)), ch, m[i, j])
  {
    for i := 0 to rgb.Length0
      invariant forall i', j :: 0 <= i' < rgb.Length0 && 0 <= j < rgb.Length1 ==>
        ChannelsAt(rgb, i', j) == if i' < i then Raise(old(ChannelsAt(rgb, i', j)), ch, m[i', j]) else old(ChannelsAt(rgb, i', j))
    {
      for j := 0 to rgb.Length1
        invariant forall i', j' :: 0 <= i' < rgb.Length0 && 0 <= j' < rgb.Length1 ==>
          ChannelsAt(rgb, i', j') ==
            if i' < i || (i' == i && j' < j) then Raise(old(ChannelsAt(rgb, i', j')), ch, m[i', j'])
            else old(ChannelsAt(rgb, i', j'))
      {
        rgb[i, j, ch] := rgb[i, j, ch] + m[i, j];
      }
    }
  }

  /** `(rgb * 255).clip(0, 255).astype(np.uint8)`. */
  method ScaleClipCast(rgb: array3<real>) returns (out: array3<Byte>)
    ensures fresh(out)
    ensures out.Length0 == rgb.Length0 && out.Length1 == rgb.Length1 && out.Length2 == rgb.Length2
    ensures forall i, j, k :: 0 <= i < rgb.Length0 && 0 <= j < rgb.Length1 && 0 <= k < rgb.Length2 ==>
      out[i, j, k] == ClipToByte(rgb[i, j, k] * 255.0)
  {
    out := new Byte[rgb.Length0, rgb.Length1, rgb.Length2]((i, j, k) reads rgb =>
      if 0 <= i < rgb.Length0 && 0 <= j < rgb.Length1 && 0 <= k < rgb.Length2
      then ClipToByte(rgb[i, j, k] * 255.0) else 0);
  }

  /**
   * `rgb = np.zeros_like(...)` followed by the six masked assignments: every
   * pixel holds Masked(6, ...) of its planes.
   */
  method SectorTriples(h: array2<real>, c: array2<real>, x: array2<real>) returns (rgb: array3<real>)
    requires h.Length0 == c.Length0 == x.Length0 && h.Length1 == c.Length1 == x.Length1
    ensures fresh(rgb)
    ensures rgb.Length0 == h.Length0 && rgb.Length1 == h.Length1 && rgb.Length2 == 3
    ensures forall i, j :: 0 <= i < rgb.Length0 && 0 <= j < rgb.Length1 ==>
      ChannelsAt(rgb, i, j) == Masked(6, h[i, j], c[i, j], x[i, j])
  {
    rgb := new real[h.Length0, h.Length1, 3]((_, _, _) => 0.0);
    AssignMasked(rgb, h, c, x, 0);
    AssignMasked(rgb, h, c, x, 1);
    AssignMasked(rgb, h, c, x, 2);
    AssignMasked(rgb, h, c, x, 3);
    AssignMasked(rgb, h, c, x, 4);
    AssignMasked(rgb, h, c, x, 5);
  }

  /**
   * `hsv_to_rgb_matrix`: six masked assignments over a buffer of zeros,
   * then m added to every channel, then scale, clip and cast.  Every output
   * pixel is MatrixPixel of the input pixel.
   */
  method HsvToRgbMatrix(hsvImg: array3<real>) returns (rgbImg: array3<Byte>)
    requires hsvImg.Length2 == 3
    ensures fresh(rgbImg)
    ensures rgbImg.Length0 == hsvImg.Length0 && rgbImg.Length1 == hsvImg.Length1 && rgbImg.Length2 == 3
    ensures forall i, j :: 0 <= i < hsvImg.Length0 && 0 <= j < hsvImg.Length1 ==>
      RgbAt(rgbImg, i, j) == MatrixPixel(PixelAt(hsvImg, i, j))
  {
    var h, c, x, m := Planes(hsvImg);
    var rgb := SectorTriples(h, c, x);
    AddPlane(rgb, m, 0);
    AddPlane(rgb, m, 1);
    AddPlane(rgb, m, 2);
    forall i, j | 0 <= i < rgb.Length0 && 0 <= j < rgb.Length1
      ensures ChannelsAt(rgb, i, j) == MatrixChannels(PixelAt(hsvImg, i, j))
    {
      var d := Decompose(PixelAt(hsvImg, i, j));
      assert d.h == h[i, j] && d.c == c[i, j] && d.x == x[i, j] && d.m == m[i, j];
    }
    rgbImg := ScaleClipCast(rgb);
    forall i, j | 0 <= i < hsvImg.Length0 && 0 <= j < hsvImg.Length1
      ensures RgbAt(rgbImg, i, j) == MatrixPixel(PixelAt(hsvImg, i, j))
    {
      var t := ChannelsAt(rgb, i, j);
      assert rgbImg[i, j, 0] == ClipToByte(t.r * 255.0);
      assert rgbImg[i, j, 1] == ClipToByte(t.g * 255.0);
      assert rgbImg[i, j, 2] == ClipToByte(t.b * 255.0);
    }
  }

  // ----- the loop strategy -----

  /**
   * `hsv_to_rgb_loop`: nested loops over rows and columns, the formula and
   * an if/elif sector chain per pixel, each channel stored into the uint8
   * output without clipping.  The input must hold saturation and value in
   * [0, 255], as the converters document; the cast is then always in range.
   */
  method HsvToRgbLoop(hsvImg: array3<real>) returns (rgbImg: array3<Byte>)
    requires hsvImg.Length2 == 3
    requires forall i, j :: 0 <= i < hsvImg.Length0 && 0 <= j < hsvImg.Length1 ==> InSampleRange(PixelAt(hsvImg, i, j))
    ensures fresh(rgbImg)
    ensures rgbImg.Length0 == hsvImg.Length0 && rgbImg.Length1 == hsvImg.Length1 && rgbImg.Length2 == 3
    ensures forall i, j :: 0 <= i < hsvImg.Length0 && 0 <= j < hsvImg.Length1 ==>
      RgbAt(rgbImg, i, j) == LoopPixel(PixelAt(hsvImg, i, j))
  {
    var height, width := hsvImg.Length0, hsvImg.Length1;
    rgbImg := new Byte[height, width, 3]((_, _, _) => 0);
    for i := 0 to height
      invariant forall i', j' :: 0 <= i' < i && 0 <= j' < width ==>
        RgbAt(rgbImg, i', j') == LoopPixel(PixelAt(hsvImg, i', j'))
    {
      for j := 0 to width
        invariant forall i', j' :: 0 <= i' < i && 0 <= j' < width ==>
          RgbAt(rgbImg, i', j') == LoopPixel(PixelAt(hsvImg, i', j'))
        invariant forall j' :: 0 <= j' < j ==>
          RgbAt(rgbImg, i, j') == LoopPixel(PixelAt(hsvImg, i, j'))
      {
        var p := PixelAt(hsvImg, i, j);
        var h, s, v := hsvImg[i, j, 0], hsvImg[i, j, 1], hsvImg[i, j, 2];
        h := (h * 2.0) / 60.0;
        s := s / 255.0;
        v := v / 255.0;
        var c := v * s;
        var x := c * (1.0 - Abs(FMod(h, 2.0) - 1.0));
        var m := v - c;
        assert Decompose(p) == Parts(h, v, c, x, m);

        var r, g, b;
        if 0.0 <= h < 1.0 {
          r, g, b := c, x, 0.0;
        } else if 1.0 <= h < 2.0 {
          r, g, b := x, c, 0.0;
        } else if 2.0 <= h < 3.0 {
          r, g, b := 0.0, c, x;
        } else if 3.0 <= h < 4.0 {
          r, g, b := 0.0, x, c;
        } else if 4.0 <= h < 5.0 {
          r, g, b := x, 0.0, c;
        } else {
          r, g, b := c, 0.0, x;
        }
        LoopStep(p, h, v, c, x, m, r, g, b);
        rgbImg[i, j, 0], rgbImg[i, j, 1], rgbImg[i, j, 2] :=
          Truncate((r + m) * 255.0), Truncate((g + m) * 255.0), Truncate((b + m) * 255.0);
      }
    }
  }

  /**
   * One iteration of the loop strategy computes LoopPixel: the locals hold
   * the formula's quantities and the triple the if/elif chain picked.
   */
  lemma LoopStep(p: Hsv, h: real, v: real, c: real, x: real, m: real, r: real, g: real, b: real)
    requires InSampleRange(p) && Decompose(p) == Parts(h, v, c, x, m)
    requires (0.0 <= h < 1.0 ==> (r, g, b) == (c, x, 0.0))
    requires (1.0 <= h < 2.0 ==> (r, g, b) == (x, c, 0.0))
    requires (2.0 <= h < 3.0 ==> (r, g, b) == (0.0, c, x))
    requires (3.0 <= h < 4.0 ==> (r, g, b) == (0.0, x, c))
    requires (4.0 <= h < 5.0 ==> (r, g, b) == (x, 0.0, c))
    requires (h < 0.0 || h >= 5.0 ==> (r, g, b) == (c, 0.0, x))
    ensures 0.0 <= (r + m) * 255.0 < 256.0 && 0.0 <= (g + m) * 255.0 < 256.0 && 0.0 <= (b + m) * 255.0 < 256.0
    ensures LoopPixel(p) == Rgb(Truncate((r + m) * 255.0), Truncate((g + m) * 255.0), Truncate((b + m) * 255.0))
  {
    assert Channels(r, g, b) == Table(Sector(h), c, x);
    TableWithinValue(Sector(h), p);
  }
}
