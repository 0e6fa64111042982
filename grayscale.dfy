/**
 * `GrayscaleFilter` of src/filters/grayscale_filter.cpp: every pixel is
 * replaced, in place, by its clamped luminance in all three channels.
 */
module Grayscale {
  import opened Images
  import opened Channels

  /** (g, g, g) with g = clamp(0.299 r + 0.587 g + 0.114 b, 0, 1). */
  function GrayPixel(p: Pixel): (q: Pixel)
    ensures IsAchromatic(q) && IsNormalized(q)
    ensures IsNormalized(p) ==> q.r == Luminance(p)
    ensures IsAchromatic(p) && InUnitInterval(p.r) ==> q == p
  {
    LuminanceBounds(p);
    var gray := ClampUnit(Luminance(p));
    Pixel(gray, gray, gray)
  }

  /** The image after the filter: each pixel depends only on the same input pixel. */
  function Grayscale(src: Raster): (r: Raster)
    requires src.WellShaped()
    ensures r.WellShaped() && r.width == src.width && r.height == src.height
    ensures forall x: nat, y: nat :: x < src.width && y < src.height ==> r.At(x, y) == GrayPixel(src.At(x, y))
  {
    MapPixels(src, GrayPixel)
  }

  /** Pure red becomes the grey of level 0.299. */
  lemma GrayOfRed()
    ensures GrayPixel(Pixel(1.0, 0.0, 0.0)) == Pixel(0.299, 0.299, 0.299)
  {}

  /** Applying the filter a second time changes nothing. */
  lemma {:induction false} GrayscaleIdempotent(src: Raster)
    requires src.WellShaped()
    ensures Grayscale(Grayscale(src)) == Grayscale(src)
  {
    var once := Grayscale(src);
    forall x: nat, y: nat | x < src.width && y < src.height
      ensures Grayscale(once).At(x, y) == once.At(x, y)
    {
      var p := once.At(x, y);
      assert IsAchromatic(p) && InUnitInterval(p.r);
    }
    Extensionality(Grayscale(once), once);
  }

  /**
   * `GrayscaleFilter::Apply`: visit the pixels row by row and overwrite each
   * with its grey value. Each pixel is read before it is written, so the
   * in-place loop computes the filter of the original image.
   */
  method Apply(image: Image)
    requires image.Valid()
    modifies image
    ensures image.Valid() && image.View() == Grayscale(old(image.View()))
  {
    ghost var src := image.View();
    ghost var target := Grayscale(src);
    var width := image.GetWidth();
    var height := image.GetHeight();
    ScanStart(target, src);
    var y := 0;
    while y < height
      invariant 0 <= y <= height
      invariant image.Valid() && image.width == width && image.height == height
      invariant ScannedTo(image.View(), target, src, 0, y)
    {
      var x := 0;
      while x < width
        invariant 0 <= x <= width
        invariant image.Valid() && image.width == width && image.height == height
        invariant ScannedTo(image.View(), target, src, x, y)
      {
        var p := image.GetPixel(x, y).value;
        var gray := Clamp(RedLuminance * p.r + GreenLuminance * p.g + BlueLuminance * p.b, 0.0, 1.0);
        ScanStep(image.View(), target, src, x, y);
        var _ := image.SetPixel(x, y, Pixel(gray, gray, gray));
        x := x + 1;
      }
      ScanNextRow(image.View(), target, src, y);
      y := y + 1;
    }
    ScanDone(image.View(), target, src);
  }
}
