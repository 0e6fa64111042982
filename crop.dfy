/**
 * `CropFilter` of src/filters/crop_filter.cpp: keep the top-left
 * min(W, width) x min(H, height) rectangle. The pixels are copied into a new
 * image, which then replaces the original.
 */
module Crop {
  import opened Errors
  import opened Images

  /** `std::min` on sizes. */
  function Min(a: nat, b: nat): (m: nat)
    ensures m <= a && m <= b && (m == a || m == b)
  {
    if a <= b then a else b
  }

  /**
   * The cropped image. The new image is built with the clipped dimensions,
   * which fails when one of them is zero: the original dimensions are
   * positive, so exactly when W or H is zero.
   */
  function Crop(src: Raster, width: nat, height: nat): (r: Result<Raster>)
    requires src.Valid()
    ensures r.Err? <==> width == 0 || height == 0
    ensures r.Err? ==> r.error == ZeroDimensions
    ensures r.Ok? ==>
      && r.value.Valid()
      && r.value.width == Min(width, src.width) && r.value.height == Min(height, src.height)
      && forall x: nat, y: nat :: x < r.value.width && y < r.value.height ==> r.value.At(x, y) == src.At(x, y)
  {
    var newWidth := Min(width, src.width);
    var newHeight := Min(height, src.height);
    if newWidth == 0 || newHeight == 0 then Err(ZeroDimensions)
    else Ok(Tabulate(newWidth, newHeight, (x: nat, y: nat) requires x < newWidth && y < newHeight => src.At(x, y)))
  }

  /** Cropping to a rectangle at least as large as the image leaves it as it is. */
  lemma {:induction false} CropIdentity(src: Raster, width: nat, height: nat)
    requires src.Valid() && src.width <= width && src.height <= height
    ensures Crop(src, width, height) == Ok(src)
  {
    var r := Crop(src, width, height).value;
    Extensionality(r, src);
  }

  /** Two crops in a row are one crop to the smaller rectangle. */
  lemma {:induction false} CropCrop(src: Raster, w1: nat, h1: nat, w2: nat, h2: nat)
    requires src.Valid() && w1 > 0 && h1 > 0
    ensures Crop(Crop(src, w1, h1).value, w2, h2) == Crop(src, Min(w1, w2), Min(h1, h2))
  {
    var once := Crop(src, w1, h1).value;
    var twice := Crop(once, w2, h2);
    var direct := Crop(src, Min(w1, w2), Min(h1, h2));
    if twice.Ok? {
      Extensionality(twice.value, direct.value);
    }
  }

  /**
   * `CropFilter::Apply`: build a blank image of the clipped size, copy
   * pixel (x, y) for every x < new width, y < new height (all in bounds of
   * the original), then assign it to the image. When building the new image
   * fails the image is left as it was.
   */
  method Apply(image: Image, width: nat, height: nat) returns (r: Outcome)
    requires image.Valid()
    modifies image
    ensures r.Fail? <==> Crop(old(image.View()), width, height).Err?
    ensures r.Fail? ==> r.error == ZeroDimensions && image.View() == old(image.View())
    ensures r.Pass? ==> image.Valid() && image.View() == Crop(old(image.View()), width, height).value
  {
    ghost var src := image.View();
    var newWidth := Min(width, image.GetWidth());
    var newHeight := Min(height, image.GetHeight());
    var made := Image.Create(newWidth, newHeight);
    if made.Err? {
      return Fail(made.error);
    }
    var result := made.value;
    ghost var target := Crop(src, width, height).value;
    ghost var blank := Blank(newWidth, newHeight);
    ScanStart(target, blank);
    var y := 0;
    while y < newHeight
      invariant 0 <= y <= newHeight
      invariant result.Valid() && result.width == newWidth && result.height == newHeight
      invariant image.View() == src
      invariant ScannedTo(result.View(), target, blank, 0, y)
    {
      var x := 0;
      while x < newWidth
        invariant 0 <= x <= newWidth
        invariant result.Valid() && result.width == newWidth && result.height == newHeight
        invariant image.View() == src
        invariant ScannedTo(result.View(), target, blank, x, y)
      {
        ScanStep(result.View(), target, blank, x, y);
        var _ := result.SetPixel(x, y, image.GetPixel(x, y).value);
        x := x + 1;
      }
      ScanNextRow(result.View(), target, blank, y);
      y := y + 1;
    }
    ScanDone(result.View(), target, blank);
    image.Assign(result);
    return Pass;
  }
}
