/**
 * `EdgeDetectionFilter` of src/filters/edge_detection_filter.cpp: a grey
 * copy of the image (unclamped luminance in every channel), then the 3x3
 * Laplacian of that copy, clamped into [0, 1] and thresholded to black or
 * white, built in a new image that replaces the original.
 */
module EdgeDetection {
  import opened Images
  import opened Channels
  import opened Window

  const White: Pixel := Pixel(1.0, 1.0, 1.0)

  /** The kernel {{0, -1, 0}, {-1, 4, -1}, {0, -1, 0}}. */
  const LaplaceKernel: seq<seq<real>> := [[0.0, -1.0, 0.0], [-1.0, 4.0, -1.0], [0.0, -1.0, 0.0]]

  /** The weights sum to 0: the Laplacian vanishes where the image does not vary. */
  lemma LaplaceKernelSum()
    ensures IsKernel(LaplaceKernel) && WeightSum(LaplaceKernel, 3) == 0.0
  {
    assert WeightRowSum(LaplaceKernel, -1, 3) == -1.0;
    assert WeightRowSum(LaplaceKernel, 0, 3) == 2.0;
    assert WeightRowSum(LaplaceKernel, 1, 3) == -1.0;
  }

  /** A pixel of the grey copy: its luminance in all three channels, not clamped. */
  function LumaPixel(p: Pixel): (q: Pixel)
    ensures IsAchromatic(q)
    ensures IsNormalized(p) ==> IsNormalized(q)
  {
    LuminanceBounds(p);
    var gray := RedLuminance * p.r + GreenLuminance * p.g + BlueLuminance * p.b;
    Pixel(gray, gray, gray)
  }

  /** The grey copy of the first pass. */
  function GrayCopy(src: Raster): (r: Raster)
    requires src.WellShaped()
    ensures r.WellShaped() && r.width == src.width && r.height == src.height
    ensures forall x: nat, y: nat :: x < src.width && y < src.height ==> r.At(x, y) == LumaPixel(src.At(x, y))
  {
    MapPixels(src, LumaPixel)
  }

  /**
   * Output level at (x, y): 1 where the clamped Laplacian of the red
   * channel of the grey copy exceeds the threshold, 0 elsewhere. A
   * threshold of 1 or more gives 0 everywhere, a negative one 1 everywhere.
   */
  function EdgeLevel(gray: Raster, x: nat, y: nat, threshold: real): (v: real)
    requires gray.Valid()
    ensures v == 0.0 || v == 1.0
    ensures 1.0 <= threshold ==> v == 0.0
    ensures threshold < 0.0 ==> v == 1.0
  {
    LaplaceKernelSum();
    var value := Clamp(WindowSum(gray, LaplaceKernel, x, y, 3).r, 0.0, 1.0);
    if value > threshold then 1.0 else 0.0
  }

  /** The image the second pass builds from the grey copy. */
  function EdgeMap(gray: Raster, threshold: real): (r: Raster)
    requires gray.Valid()
    ensures r.Valid() && r.width == gray.width && r.height == gray.height
    ensures forall x: nat, y: nat :: x < gray.width && y < gray.height ==>
      var v := EdgeLevel(gray, x, y, threshold); r.At(x, y) == Pixel(v, v, v)
  {
    Tabulate(gray.width, gray.height, (x: nat, y: nat) requires x < gray.width && y < gray.height =>
      var v := EdgeLevel(gray, x, y, threshold); Pixel(v, v, v))
  }

  /** The image after the filter: same dimensions, every pixel black or white. */
  function EdgeDetect(src: Raster, threshold: real): (r: Raster)
    requires src.Valid()
    ensures r.Valid() && r.width == src.width && r.height == src.height
    ensures forall x: nat, y: nat :: x < src.width && y < src.height ==> r.At(x, y) == Black || r.At(x, y) == White
  {
    EdgeMap(GrayCopy(src), threshold)
  }

  /** An image of one colour has no edges: with a threshold of 0 or more it becomes all black. */
  lemma {:induction false} EdgeOfConstant(src: Raster, c: Pixel, threshold: real)
    requires src.Valid() && Constant(src, c) && 0.0 <= threshold
    ensures EdgeDetect(src, threshold) == Blank(src.width, src.height)
  {
    var gray := GrayCopy(src);
    LaplaceKernelSum();
    forall x: nat, y: nat | x < src.width && y < src.height
      ensures EdgeDetect(src, threshold).At(x, y) == Blank(src.width, src.height).At(x, y)
    {
      WindowSumConstant(gray, LaplaceKernel, x, y, 3, LumaPixel(c));
      assert WindowSum(gray, LaplaceKernel, x, y, 3).r == 0.0;
    }
    Extensionality(EdgeDetect(src, threshold), Blank(src.width, src.height));
  }

  /** A threshold of 1 or more turns every image black. */
  lemma {:induction false} EdgeHighThreshold(src: Raster, threshold: real)
    requires src.Valid() && 1.0 <= threshold
    ensures EdgeDetect(src, threshold) == Blank(src.width, src.height)
  {
    var gray := GrayCopy(src);
    forall x: nat, y: nat | x < src.width && y < src.height
      ensures EdgeDetect(src, threshold).At(x, y) == Blank(src.width, src.height).At(x, y)
    {
      assert EdgeLevel(gray, x, y, threshold) == 0.0;
    }
    Extensionality(EdgeDetect(src, threshold), Blank(src.width, src.height));
  }

  /** The first pass: a new image holding the luminance of every pixel in all three channels. */
  method GrayPass(image: Image) returns (grayscale: Image)
    requires image.Valid()
    ensures fresh(grayscale) && grayscale.Valid() && grayscale.View() == GrayCopy(image.View())
  {
    ghost var src := image.View();
    ghost var target := GrayCopy(src);
    grayscale := new Image(image.GetWidth(), image.GetHeight());
    ghost var blank := grayscale.View();
    ScanStart(target, blank);
    var y := 0;
    while y < image.GetHeight()
      invariant grayscale.Valid() && grayscale.width == src.width && grayscale.height == src.height
      invariant 0 <= y <= image.height
      invariant ScannedTo(grayscale.View(), target, blank, 0, y)
    {
      var x := 0;
      while x < image.GetWidth()
        invariant grayscale.Valid() && grayscale.width == src.width && grayscale.height == src.height
        invariant 0 <= x <= image.width
        invariant ScannedTo(grayscale.View(), target, blank, x, y)
      {
        var p := image.GetPixel(x, y).value;
        var gray := RedLuminance * p.r + GreenLuminance * p.g + BlueLuminance * p.b;
        ScanStep(grayscale.View(), target, blank, x, y);
        var _ := grayscale.SetPixel(x, y, Pixel(gray, gray, gray));
        x := x + 1;
      }
      ScanNextRow(grayscale.View(), target, blank, y);
      y := y + 1;
    }
    ScanDone(grayscale.View(), target, blank);
  }

  /** The dy/dx loops for one output pixel: the weighted sum of the red channel of the nine clamped neighbours. */
  method Convolve(grayscale: Image, x: nat, y: nat) returns (sum: real)
    requires grayscale.Valid()
    ensures sum == WindowSum(grayscale.View(), LaplaceKernel, x, y, 3).r
  {
    ghost var gray := grayscale.View();
    var kernel := LaplaceKernel;
    sum := 0.0;
    var dy := -1;
    while dy <= 1
      invariant -1 <= dy <= 2
      invariant sum == WindowSum(gray, kernel, x, y, dy + 1).r
    {
      var dx := -1;
      while dx <= 1
        invariant -1 <= dx <= 2
        invariant sum == WindowSum(gray, kernel, x, y, dy + 1).r + RowSum(gray, kernel, x, y, dy, dx + 1).r
      {
        var nx := ClampIndex(x + dx, grayscale.GetWidth());
        var ny := ClampIndex(y + dy, grayscale.GetHeight());
        var p := grayscale.GetPixel(nx, ny).value;
        assert RowSum(gray, kernel, x, y, dy, dx + 2).r == RowSum(gray, kernel, x, y, dy, dx + 1).r + p.r * kernel[dy + 1][dx + 1];
        sum := sum + p.r * kernel[dy + 1][dx + 1];
        dx := dx + 1;
      }
      dy := dy + 1;
    }
  }

  /** The second pass: a new image holding the thresholded Laplacian of the grey copy. */
  method EdgePass(grayscale: Image, threshold: real) returns (result: Image)
    requires grayscale.Valid()
    ensures fresh(result) && result.Valid() && result.View() == EdgeMap(grayscale.View(), threshold)
  {
    ghost var gray := grayscale.View();
    ghost var target := EdgeMap(gray, threshold);
    result := new Image(grayscale.GetWidth(), grayscale.GetHeight());
    ghost var blank := result.View();
    ScanStart(target, blank);
    var y := 0;
    while y < grayscale.GetHeight()
      invariant result.Valid() && result.width == gray.width && result.height == gray.height
      invariant 0 <= y <= grayscale.height
      invariant ScannedTo(result.View(), target, blank, 0, y)
    {
      var x := 0;
      while x < grayscale.GetWidth()
        invariant result.Valid() && result.width == gray.width && result.height == gray.height
        invariant 0 <= x <= grayscale.width
        invariant ScannedTo(result.View(), target, blank, x, y)
      {
        var sum := Convolve(grayscale, x, y);
        var value := Clamp(sum, 0.0, 1.0);
        value := if value > threshold then 1.0 else 0.0;
        ScanStep(result.View(), target, blank, x, y);
        var _ := result.SetPixel(x, y, Pixel(value, value, value));
        x := x + 1;
      }
      ScanNextRow(result.View(), target, blank, y);
      y := y + 1;
    }
    ScanDone(result.View(), target, blank);
  }

  /** `EdgeDetectionFilter::Apply`: both passes, then the result replaces the image. */
  method Apply(image: Image, threshold: real)
    requires image.Valid()
    modifies image
    ensures image.Valid() && image.View() == EdgeDetect(old(image.View()), threshold)
  {
    var grayscale := GrayPass(image);
    var result := EdgePass(grayscale, threshold);
    image.Assign(result);
  }
}
