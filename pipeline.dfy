/**
 * The filter chain of image_processor.cpp: the filters named on the command
 * line are applied to the image one after the other, in order. The first
 * exception (only cropping to a zero size can raise one) ends the run.
 */
module Pipeline {
  import opened Errors
  import opened Images
  import Crop
  import Grayscale
  import Negative
  import Sepia
  import Sharpen
  import EdgeDetection
  import GaussianBlur

  /** The filters, with the parameters their factories take. */
  datatype Filter =
    | CropFilter(width: nat, height: nat)
    | GrayscaleFilter
    | NegativeFilter
    | SharpeningFilter
    | EdgeDetectionFilter(threshold: real)
    | GaussianBlurFilter(radius: nat, raw: seq<real>)
    | SepiaFilter
  {
    /** A blur filter carries 2 * radius + 1 positive raw weights. */
    predicate WellFormed() {
      GaussianBlurFilter? ==> |raw| == 2 * radius + 1 && GaussianBlur.AllPositive(raw)
    }
  }

  /** The image one filter leaves: only cropping can fail, and only cropping changes the dimensions. */
  function ApplyFilter(f: Filter, src: Raster): (r: Result<Raster>)
    requires src.Valid() && f.WellFormed()
    ensures r.Err? <==> f.CropFilter? && (f.width == 0 || f.height == 0)
    ensures r.Err? ==> r.error == ZeroDimensions
    ensures r.Ok? ==> r.value.Valid()
    ensures r.Ok? && !f.CropFilter? ==> r.value.width == src.width && r.value.height == src.height
  {
    match f
    case CropFilter(width, height) => Crop.Crop(src, width, height)
    case GrayscaleFilter => Ok(Grayscale.Grayscale(src))
    case NegativeFilter => Ok(Negative.Negative(src))
    case SharpeningFilter => Ok(Sharpen.Sharpen(src))
    case EdgeDetectionFilter(threshold) => Ok(EdgeDetection.EdgeDetect(src, threshold))
    case GaussianBlurFilter(radius, raw) =>
      GaussianBlur.NormalizedKernel(raw);
      Ok(GaussianBlur.Blur(src, GaussianBlur.Normalize(raw, GaussianBlur.Sum(raw)), radius))
    case SepiaFilter => Ok(Sepia.Sepia(src))
  }

  /** Every filter of the chain is well formed. */
  predicate AllWellFormed(filters: seq<Filter>) {
    forall i :: 0 <= i < |filters| ==> filters[i].WellFormed()
  }

  /** The filters applied left to right; the first failure is the result. */
  function Run(filters: seq<Filter>, src: Raster): (r: Result<Raster>)
    requires src.Valid() && AllWellFormed(filters)
    ensures r.Ok? ==> r.value.Valid()
    ensures r.Err? ==> r.error == ZeroDimensions
    decreases |filters|
  {
    if |filters| == 0 then Ok(src)
    else
      var next := ApplyFilter(filters[0], src);
      if next.Err? then Err(next.error)
      else Run(filters[1..], next.value)
  }

  /** Running two chains one after the other is running their concatenation. */
  lemma {:induction false} RunAppend(first: seq<Filter>, second: seq<Filter>, src: Raster)
    requires src.Valid() && AllWellFormed(first) && AllWellFormed(second)
    ensures AllWellFormed(first + second)
    ensures Run(first + second, src) == if Run(first, src).Err? then Run(first, src) else Run(second, Run(first, src).value)
    decreases |first|
  {
    if |first| > 0 {
      assert (first + second)[1..] == first[1..] + second;
      var next := ApplyFilter(first[0], src);
      if next.Ok? {
        RunAppend(first[1..], second, next.value);
      }
    } else {
      assert first + second == second;
    }
  }

  /** A crop to a zero size. */
  predicate IsEmptyCrop(f: Filter) {
    f.CropFilter? && (f.width == 0 || f.height == 0)
  }

  /**
   * The chain fails exactly when it contains a crop to a zero size; without
   * any crop it keeps the dimensions of the image.
   */
  lemma {:induction false} RunOutcome(filters: seq<Filter>, src: Raster)
    requires src.Valid() && AllWellFormed(filters)
    ensures Run(filters, src).Err? <==> exists i :: 0 <= i < |filters| && IsEmptyCrop(filters[i])
    ensures (forall i :: 0 <= i < |filters| ==> !filters[i].CropFilter?) ==>
      Run(filters, src).Ok? && Run(filters, src).value.width == src.width && Run(filters, src).value.height == src.height
    decreases |filters|
  {
    if |filters| > 0 {
      var next := ApplyFilter(filters[0], src);
      if next.Ok? {
        RunOutcome(filters[1..], next.value);
        assert forall i :: 1 <= i < |filters| ==> filters[i] == filters[1..][i - 1];
        if exists i :: 0 <= i < |filters| && IsEmptyCrop(filters[i]) {
          var i :| 0 <= i < |filters| && IsEmptyCrop(filters[i]);
          assert i > 0;
          assert IsEmptyCrop(filters[1..][i - 1]);
        }
      } else {
        assert IsEmptyCrop(filters[0]);
      }
    }
  }

  /** One filter applied in place to the image through its own `Apply`. */
  method ApplyOne(image: Image, f: Filter) returns (r: Outcome)
    requires image.Valid() && f.WellFormed()
    modifies image
    ensures r.Fail? <==> ApplyFilter(f, old(image.View())).Err?
    ensures r.Fail? ==> r.error == ZeroDimensions
    ensures r.Pass? ==> image.Valid() && image.View() == ApplyFilter(f, old(image.View())).value
  {
    match f
    case CropFilter(width, height) =>
      r := Crop.Apply(image, width, height);
    case GrayscaleFilter =>
      Grayscale.Apply(image);
      r := Pass;
    case NegativeFilter =>
      Negative.Apply(image);
      r := Pass;
    case SharpeningFilter =>
      Sharpen.Apply(image);
      r := Pass;
    case EdgeDetectionFilter(threshold) =>
      EdgeDetection.Apply(image, threshold);
      r := Pass;
    case GaussianBlurFilter(radius, raw) =>
      var blur := new GaussianBlur.GaussianBlurFilter(radius, raw);
      blur.Apply(image);
      r := Pass;
    case SepiaFilter =>
      Sepia.Apply(image);
      r := Pass;
  }

  /** The filter loop of the program: each filter applied in place in turn, stopping at the first failure. */
  method ApplyAll(image: Image, filters: seq<Filter>) returns (r: Outcome)
    requires image.Valid() && AllWellFormed(filters)
    modifies image
    ensures r.Fail? <==> Run(filters, old(image.View())).Err?
    ensures r.Fail? ==> r.error == Run(filters, old(image.View())).error
    ensures r.Pass? ==> image.Valid() && image.View() == Run(filters, old(image.View())).value
  {
    ghost var result := Run(filters, image.View());
    var i := 0;
    while i < |filters|
      invariant 0 <= i <= |filters|
      invariant image.Valid()
      invariant Run(filters[i..], image.View()) == result
    {
      assert filters[i..][1..] == filters[i + 1..];
      var outcome := ApplyOne(image, filters[i]);
      if outcome.Fail? {
        return outcome;
      }
      i := i + 1;
    }
    return Pass;
  }
}
