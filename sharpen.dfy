/**
 * `SharpeningFilter` of src/filters/sharpening_filter.cpp: every pixel is
 * replaced by the 3x3 sharpening kernel applied to a snapshot of the image
 * taken before the first write, each channel clamped into [0, 1].
 */
module Sharpen {
  import opened Images
  import opened Channels
  import opened Window

  /** The kernel {{0, -1, 0}, {-1, 5, -1}, {0, -1, 0}}. */
  const SharpenKernel: seq<seq<real>> := [[0.0, -1.0, 0.0], [-1.0, 5.0, -1.0], [0.0, -1.0, 0.0]]

  /** The weights sum to 1: sharpening adds the difference from the neighbours to the pixel. */
  lemma SharpenKernelSum()
    ensures IsKernel(SharpenKernel) && WeightSum(SharpenKernel, 3) == 1.0
  {
    assert WeightRowSum(SharpenKernel, -1, 3) == -1.0;
    assert WeightRowSum(SharpenKernel, 0, 3) == 3.0;
    assert WeightRowSum(SharpenKernel, 1, 3) == -1.0;
  }

  /** Output pixel (x, y): the kernel applied around (x, y) of the snapshot, clamped. */
  function SharpenPixel(src: Raster, x: nat, y: nat): (q: Pixel)
    requires src.Valid()
    ensures IsNormalized(q)
  {
    SharpenKernelSum();
    ClampPixel(WindowSum(src, SharpenKernel, x, y, 3))
  }

  /** The image after the filter. */
  function Sharpen(src: Raster): (r: Raster)
    requires src.Valid()
    ensures r.Valid() && r.width == src.width && r.height == src.height
    ensures r.Normalized()
    ensures forall x: nat, y: nat :: x < src.width && y < src.height ==> r.At(x, y) == SharpenPixel(src, x, y)
  {
    Tabulate(src.width, src.height, (x: nat, y: nat) requires x < src.width && y < src.height => SharpenPixel(src, x, y))
  }

  /** An image of one normalised colour is left unchanged: the weights sum to 1, and the edges repeat that colour. */
  lemma {:induction false} SharpenConstant(src: Raster, c: Pixel)
    requires src.Valid() && Constant(src, c) && IsNormalized(c)
    ensures Sharpen(src) == src
  {
    SharpenKernelSum();
    forall x: nat, y: nat | x < src.width && y < src.height
      ensures Sharpen(src).At(x, y) == src.At(x, y)
    {
      WindowSumConstant(src, SharpenKernel, x, y, 3, c);
      assert Scale(c, 1.0) == c;
    }
    Extensionality(Sharpen(src), src);
  }

  /**
   * The dy/dx loops of `Apply` for one output pixel: accumulate the weighted
   * channels of the nine clamped neighbours, read from `original`.
   */
  method Convolve(original: Image, x: nat, y: nat) returns (r: real, g: real, b: real)
    requires original.Valid()
    ensures Pixel(r, g, b) == WindowSum(original.View(), SharpenKernel, x, y, 3)
  {
    ghost var src := original.View();
    var kernel := SharpenKernel;
    r, g, b := 0.0, 0.0, 0.0;
    var dy := -1;
    while dy <= 1
      invariant -1 <= dy <= 2
      invariant Pixel(r, g, b) == WindowSum(src, kernel, x, y, dy + 1)
    {
      var dx := -1;
      while dx <= 1
        invariant -1 <= dx <= 2
        invariant Pixel(r, g, b) == Add(WindowSum(src, kernel, x, y, dy + 1), RowSum(src, kernel, x, y, dy, dx + 1))
      {
        var nx := ClampIndex(x + dx, original.GetWidth());
        var ny := ClampIndex(y + dy, original.GetHeight());
        var p := original.GetPixel(nx, ny).value;
        var weight := kernel[dy + 1][dx + 1];
        AddScaled(Pixel(r, g, b), p, weight);
        assert Add(WindowSum(src, kernel, x, y, dy + 1), RowSum(src, kernel, x, y, dy, dx + 2))
            == Add(Add(WindowSum(src, kernel, x, y, dy + 1), RowSum(src, kernel, x, y, dy, dx + 1)), Scale(p, weight));
        r := r + p.r * weight;
        g := g + p.g * weight;
        b := b + p.b * weight;
        dx := dx + 1;
      }
      dy := dy + 1;
    }
  }

  /**
   * `SharpeningFilter::Apply`: copy the image, then for each pixel row by
   * row convolve the copy, clamp, and write into the image. All reads are
   * from the copy, so the pixels already written do not feed later ones.
   */
  method Apply(image: Image)
    requires image.Valid()
    modifies image
    ensures image.Valid() && image.View() == Sharpen(old(image.View()))
  {
    ghost var src := image.View();
    var original := new Image.Copy(image);
    ghost var target := Sharpen(src);
    ScanStart(target, src);
    var y := 0;
    while y < image.GetHeight()
      invariant image.Valid() && image.width == src.width && image.height == src.height
      invariant original.Valid() && original.View() == src
      invariant 0 <= y <= image.height
      invariant ScannedTo(image.View(), target, src, 0, y)
    {
      var x := 0;
      while x < image.GetWidth()
        invariant image.Valid() && image.width == src.width && image.height == src.height
        invariant original.Valid() && original.View() == src
        invariant 0 <= x <= image.width
        invariant ScannedTo(image.View(), target, src, x, y)
      {
        var r, g, b := Convolve(original, x, y);
        r := Clamp(r, 0.0, 1.0);
        g := Clamp(g, 0.0, 1.0);
        b := Clamp(b, 0.0, 1.0);
        ScanStep(image.View(), target, src, x, y);
        var _ := image.SetPixel(x, y, Pixel(r, g, b));
        x := x + 1;
      }
      ScanNextRow(image.View(), target, src, y);
      y := y + 1;
    }
    ScanDone(image.View(), target, src);
  }
}
