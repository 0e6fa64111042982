/**
 * `SepiaFilter` of src/filters/sepia_filter.cpp: every pixel is replaced,
 * in place, by a fixed 3x3 colour matrix applied to (r, g, b), each result
 * channel clamped into [0, 1].
 */
module Sepia {
  import opened Images
  import opened Channels

  // The rows of the sepia matrix: the weights of r, g and b in each output channel.
  const SepiaRedR: real := 0.393
  const SepiaRedG: real := 0.769
  const SepiaRedB: real := 0.189
  const SepiaGreenR: real := 0.349
  const SepiaGreenG: real := 0.686
  const SepiaGreenB: real := 0.168
  const SepiaBlueR: real := 0.272
  const SepiaBlueG: real := 0.534
  const SepiaBlueB: real := 0.131

  /**
   * `ApplySepia`: each output channel is one matrix row applied to the
   * input, then `min(1, max(0, v))`, which is clamping into [0, 1].
   */
  function ApplySepia(p: Pixel): (q: Pixel)
    ensures IsNormalized(q)
  {
    var r, g, b := p.r, p.g, p.b;
    var newR := SepiaRedR * r + SepiaRedG * g + SepiaRedB * b;
    var newG := SepiaGreenR * r + SepiaGreenG * g + SepiaGreenB * b;
    var newB := SepiaBlueR * r + SepiaBlueG * g + SepiaBlueB * b;
    Pixel(Clamp(newR, 0.0, 1.0), Clamp(newG, 0.0, 1.0), Clamp(newB, 0.0, 1.0))
  }

  /**
   * The tint is warm: every weight in the red row is at least the one below
   * it in the green row, and likewise green over blue, so for a pixel with
   * no negative channel the output has red >= green >= blue.
   */
  lemma {:induction false} SepiaIsWarm(p: Pixel)
    requires 0.0 <= p.r && 0.0 <= p.g && 0.0 <= p.b
    ensures ApplySepia(p).r >= ApplySepia(p).g >= ApplySepia(p).b
  {
    var red := SepiaRedR * p.r + SepiaRedG * p.g + SepiaRedB * p.b;
    var green := SepiaGreenR * p.r + SepiaGreenG * p.g + SepiaGreenB * p.b;
    var blue := SepiaBlueR * p.r + SepiaBlueG * p.g + SepiaBlueB * p.b;
    assert green <= red;
    assert blue <= green;
    ClampMonotone(green, red, 0.0, 1.0);
    ClampMonotone(blue, green, 0.0, 1.0);
  }

  /** Black stays black, and white becomes (1, 1, 0.937). */
  lemma SepiaOfBlackAndWhite()
    ensures ApplySepia(Black) == Black
    ensures ApplySepia(Pixel(1.0, 1.0, 1.0)) == Pixel(1.0, 1.0, 0.937)
  {}

  /** The image after the filter: `ApplySepia` mapped over the pixels of the original. */
  function Sepia(src: Raster): (r: Raster)
    requires src.WellShaped()
    ensures r.WellShaped() && r.width == src.width && r.height == src.height
    ensures forall x: nat, y: nat :: x < src.width && y < src.height ==> r.At(x, y) == ApplySepia(src.At(x, y))
  {
    MapPixels(src, ApplySepia)
  }

  /**
   * `SepiaFilter::Apply`: every pixel is visited once, row by row, and
   * overwritten with its sepia tone. `ApplySepia` depends on that one pixel
   * only, so updating in place gives the same image as mapping over a snapshot.
   */
  method Apply(image: Image)
    requires image.Valid()
    modifies image
    ensures image.Valid() && image.View() == Sepia(old(image.View()))
  {
    ghost var src := image.View();
    ghost var target := Sepia(src);
    ScanStart(target, src);
    var y := 0;
    while y < image.GetHeight()
      invariant image.Valid() && image.width == src.width && image.height == src.height
      invariant 0 <= y <= image.height
      invariant ScannedTo(image.View(), target, src, 0, y)
    {
      var x := 0;
      while x < image.GetWidth()
        invariant image.Valid() && image.width == src.width && image.height == src.height
        invariant 0 <= x <= image.width
        invariant ScannedTo(image.View(), target, src, x, y)
      {
        var p := image.GetPixel(x, y).value;
        var sepia := ApplySepia(p);
        ScanStep(image.View(), target, src, x, y);
        var _ := image.SetPixel(x, y, sepia);
        x := x + 1;
      }
      ScanNextRow(image.View(), target, src, y);
      y := y + 1;
    }
    ScanDone(image.View(), target, src);
  }
}
