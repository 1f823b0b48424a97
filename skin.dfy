/**
 The planet skin generator: an opacity mask is taken from the base image
 (255 where alpha exceeds 32), the style image's colours are transferred into
 the mask with full opacity while everything outside it becomes transparent,
 and one random hue/saturation/value change is applied to every pixel inside
 the mask.

 Rasters are `array2<Pixel>` indexed `[y, x]` as the script's numpy arrays
 are. The HSV round trip (`colorsys` in floating point, with its clamps and
 `int(c*255)` truncation) is the function parameter `recolor`, applied with
 the one `HsvShift` drawn per image.
 */
module Skin {

  type Byte = k: int | 0 <= k < 256

  datatype Rgb = Rgb(r: Byte, g: Byte, b: Byte)
  datatype Pixel = Pixel(rgb: Rgb, a: Byte)

  /** The three draws of `randomize_palette`: hue shift, saturation and value scales. */
  datatype HsvShift = HsvShift(hue: real, saturation: real, value: real)

  const SkinSize := 32
  const AlphaThreshold := 32
  const Opaque: Byte := 255
  const Transparent: Byte := 0

  /** `extract_colored_mask`, one pixel: 255 where alpha exceeds 32. */
  function MaskValue(p: Pixel): Byte {
    if p.a > AlphaThreshold then 255 else 0
  }

  /** `transfer_bands_and_randomize`'s loop, one pixel. */
  function TransferPixel(m: Byte, base: Pixel, style: Pixel): Pixel {
    if m > AlphaThreshold then Pixel(style.rgb, Opaque) else Pixel(base.rgb, Transparent)
  }

  /** `randomize_palette`'s loop, one pixel. */
  function RandomizePixel(m: Byte, p: Pixel, shift: HsvShift, recolor: (HsvShift, Rgb) -> Rgb): Pixel {
    if m < AlphaThreshold || p.a < AlphaThreshold then Pixel(p.rgb, Transparent)
    else Pixel(recolor(shift, p.rgb), p.a)
  }

  /**
   What a skin pixel is meant to be: inside the base's silhouette, the style
   colour recoloured and fully opaque; outside it, the base colour, transparent.
   */
  function SkinPixel(base: Pixel, style: Pixel, shift: HsvShift, recolor: (HsvShift, Rgb) -> Rgb): Pixel {
    if base.a > AlphaThreshold then Pixel(recolor(shift, style.rgb), Opaque) else Pixel(base.rgb, Transparent)
  }

  /** Mask, transfer and randomization together give the intended skin pixel. */
  lemma PipelineIsSkinPixel(base: Pixel, style: Pixel, shift: HsvShift, recolor: (HsvShift, Rgb) -> Rgb)
    ensures var m := MaskValue(base);
      RandomizePixel(m, TransferPixel(m, base, style), shift, recolor) == SkinPixel(base, style, shift, recolor)
  {
  }

  /**
   The alpha footprint: a skin pixel is opaque (255) exactly where the base is
   in the mask and transparent (0) elsewhere, so its alpha channel is the mask.
   */
  lemma SkinAlphaIsMask(base: Pixel, style: Pixel, shift: HsvShift, recolor: (HsvShift, Rgb) -> Rgb)
    ensures SkinPixel(base, style, shift, recolor).a == MaskValue(base)
    ensures SkinPixel(base, style, shift, recolor).a > 0 <==> base.a > AlphaThreshold
  {
  }

  /** `np.array(image)`: a fresh copy. */
  method CopyImage(img: array2<Pixel>) returns (copy: array2<Pixel>)
    ensures fresh(copy)
    ensures copy.Length0 == img.Length0 && copy.Length1 == img.Length1
    ensures forall y, x :: 0 <= y < img.Length0 && 0 <= x < img.Length1 ==> copy[y, x] == img[y, x]
  {
    copy := new Pixel[img.Length0, img.Length1]((y, x) reads img => if 0 <= y < img.Length0 && 0 <= x < img.Length1 then img[y, x] else Pixel(Rgb(0, 0, 0), 0));
  }

  /** `extract_colored_mask`: a same-sized mask that is 255 exactly where the alpha exceeds 32, 0 elsewhere. */
  method ExtractColoredMask(img: array2<Pixel>) returns (mask: array2<Byte>)
    ensures mask.Length0 == img.Length0 && mask.Length1 == img.Length1
    ensures forall y, x :: 0 <= y < img.Length0 && 0 <= x < img.Length1 ==>
      mask[y, x] == (if img[y, x].a > AlphaThreshold then 255 else 0)
  {
    mask := new Byte[img.Length0, img.Length1]((y, x) => 0);
    var y := 0;
    while y < img.Length0
      invariant 0 <= y <= img.Length0
      invariant forall yy, xx :: 0 <= yy < y && 0 <= xx < img.Length1 ==> mask[yy, xx] == MaskValue(img[yy, xx])
      invariant forall yy, xx :: y <= yy < img.Length0 && 0 <= xx < img.Length1 ==> mask[yy, xx] == 0
    {
      var x := 0;
      while x < img.Length1
        invariant 0 <= x <= img.Length1
        invariant forall yy, xx :: 0 <= yy < y && 0 <= xx < img.Length1 ==> mask[yy, xx] == MaskValue(img[yy, xx])
        invariant forall xx :: 0 <= xx < x ==> mask[y, xx] == MaskValue(img[y, xx])
        invariant forall xx :: x <= xx < img.Length1 ==> mask[y, xx] == 0
        invariant forall yy, xx :: y < yy < img.Length0 && 0 <= xx < img.Length1 ==> mask[yy, xx] == 0
      {
        if img[y, x].a > AlphaThreshold {
          mask[y, x] := 255;
        }
        x := x + 1;
      }
      y := y + 1;
    }
  }

  /**
   `randomize_palette`: a copy of `img` in which every pixel outside the mask
   (mask below 32, or alpha below 32) becomes transparent with its colour
   kept, and every other pixel is recoloured with the one `shift`, alpha kept.
   */
  method RandomizePalette(img: array2<Pixel>, mask: array2<Byte>, shift: HsvShift,
                          recolor: (HsvShift, Rgb) -> Rgb)
    returns (arr: array2<Pixel>)
    requires mask.Length0 >= img.Length0 && mask.Length1 >= img.Length1
    ensures arr.Length0 == img.Length0 && arr.Length1 == img.Length1
    ensures forall y, x :: 0 <= y < img.Length0 && 0 <= x < img.Length1 ==>
      if mask[y, x] < AlphaThreshold || img[y, x].a < AlphaThreshold
      then arr[y, x] == Pixel(img[y, x].rgb, Transparent)
      else arr[y, x] == Pixel(recolor(shift, img[y, x].rgb), img[y, x].a)
  {
    arr := CopyImage(img);
    var y := 0;
    while y < arr.Length0
      invariant 0 <= y <= arr.Length0
      invariant forall yy, xx :: 0 <= yy < y && 0 <= xx < arr.Length1 ==>
        arr[yy, xx] == RandomizePixel(mask[yy, xx], img[yy, xx], shift, recolor)
      invariant forall yy, xx :: y <= yy < arr.Length0 && 0 <= xx < arr.Length1 ==> arr[yy, xx] == img[yy, xx]
      invariant arr.Length0 == img.Length0 && arr.Length1 == img.Length1
    {
      var x := 0;
      while x < arr.Length1
        invariant 0 <= x <= arr.Length1
        invariant forall yy, xx :: 0 <= yy < y && 0 <= xx < arr.Length1 ==>
          arr[yy, xx] == RandomizePixel(mask[yy, xx], img[yy, xx], shift, recolor)
        invariant forall xx :: 0 <= xx < x ==> arr[y, xx] == RandomizePixel(mask[y, xx], img[y, xx], shift, recolor)
        invariant forall yy, xx :: (yy == y && x <= xx < arr.Length1) || (y < yy < arr.Length0 && 0 <= xx < arr.Length1) ==>
          arr[yy, xx] == img[yy, xx]
      {
        var a := arr[y, x].a;
        if mask[y, x] < AlphaThreshold || a < AlphaThreshold {
          arr[y, x] := arr[y, x].(a := Transparent);
        } else {
          arr[y, x] := Pixel(recolor(shift, arr[y, x].rgb), a);
        }
        x := x + 1;
      }
      y := y + 1;
    }
  }

  /**
   `transfer_bands_and_randomize` on the two images once resized to 32x32:
   each output pixel is the intended skin pixel, so the output's alpha is
   the base's mask, the colour inside it is the style colour recoloured with
   the one `shift`, and outside it the base colour is kept.
   */
  method TransferBandsAndRandomize(base: array2<Pixel>, style: array2<Pixel>, shift: HsvShift,
                                   recolor: (HsvShift, Rgb) -> Rgb)
    returns (out: array2<Pixel>)
    requires base.Length0 == SkinSize && base.Length1 == SkinSize
    requires style.Length0 == SkinSize && style.Length1 == SkinSize
    ensures out.Length0 == SkinSize && out.Length1 == SkinSize
    ensures forall y, x :: 0 <= y < SkinSize && 0 <= x < SkinSize ==>
      out[y, x] == SkinPixel(base[y, x], style[y, x], shift, recolor)
    ensures forall y, x :: 0 <= y < SkinSize && 0 <= x < SkinSize ==>
      && (out[y, x].a > 0 <==> base[y, x].a > AlphaThreshold)
      && (out[y, x].a > 0 ==> out[y, x].a == Opaque)
  {
    var mask := ExtractColoredMask(base);
    var outArr := CopyImage(base);
    var y := 0;
    while y < SkinSize
      invariant 0 <= y <= SkinSize
      invariant forall yy, xx :: 0 <= yy < SkinSize && 0 <= xx < SkinSize ==> mask[yy, xx] == MaskValue(base[yy, xx])
      invariant forall yy, xx :: 0 <= yy < y && 0 <= xx < SkinSize ==>
        outArr[yy, xx] == TransferPixel(mask[yy, xx], base[yy, xx], style[yy, xx])
      invariant forall yy, xx :: y <= yy < SkinSize && 0 <= xx < SkinSize ==> outArr[yy, xx] == base[yy, xx]
    {
      var x := 0;
      while x < SkinSize
        invariant 0 <= x <= SkinSize
        invariant forall yy, xx :: 0 <= yy < SkinSize && 0 <= xx < SkinSize ==> mask[yy, xx] == MaskValue(base[yy, xx])
        invariant forall yy, xx :: 0 <= yy < y && 0 <= xx < SkinSize ==>
          outArr[yy, xx] == TransferPixel(mask[yy, xx], base[yy, xx], style[yy, xx])
        invariant forall xx :: 0 <= xx < x ==> outArr[y, xx] == TransferPixel(mask[y, xx], base[y, xx], style[y, xx])
        invariant forall yy, xx :: (yy == y && x <= xx < SkinSize) || (y < yy < SkinSize && 0 <= xx < SkinSize) ==>
          outArr[yy, xx] == base[yy, xx]
      {
        if mask[y, x] > AlphaThreshold {
          outArr[y, x] := Pixel(style[y, x].rgb, Opaque);
        } else {
          outArr[y, x] := outArr[y, x].(a := Transparent);
        }
        x := x + 1;
      }
      y := y + 1;
    }
    out := RandomizePalette(outArr, mask, shift, recolor);
    forall y, x | 0 <= y < SkinSize && 0 <= x < SkinSize
      ensures out[y, x] == SkinPixel(base[y, x], style[y, x], shift, recolor)
    {
      assert mask[y, x] == MaskValue(base[y, x]);
      assert outArr[y, x] == TransferPixel(mask[y, x], base[y, x], style[y, x]);
      assert out[y, x] == RandomizePixel(mask[y, x], outArr[y, x], shift, recolor);
      PipelineIsSkinPixel(base[y, x], style[y, x], shift, recolor);
    }
  }
}
