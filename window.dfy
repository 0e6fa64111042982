/**
 * The 3x3 clamp-to-edge convolution shared by the sharpening and edge
 * detection filters: neighbour (x + dx, y + dy) for dx, dy in -1..1 with
 * each coordinate clamped into the image, weighted by kernel[dy + 1][dx + 1]
 * and summed row by row, left to right.
 */
module Window {
  import opened Images
  import opened Channels

  /** A 3x3 matrix of weights. */
  predicate IsKernel(kernel: seq<seq<real>>) {
    |kernel| == 3 && |kernel[0]| == 3 && |kernel[1]| == 3 && |kernel[2]| == 3
  }

  /** The all-zero pixel the channel sums start from. */
  const Zero: Pixel := Pixel(0.0, 0.0, 0.0)

  /** Neighbour (x + dx, y + dy), each coordinate clamped to the image: always an in-bounds read. */
  function Tap(src: Raster, x: nat, y: nat, dx: int, dy: int): Pixel
    requires src.Valid()
  {
    src.At(ClampIndex(x + dx, src.width), ClampIndex(y + dy, src.height))
  }

  /** The weighted sum of the first n taps (dx = -1 .. n - 2) of kernel row dy. */
  function RowSum(src: Raster, kernel: seq<seq<real>>, x: nat, y: nat, dy: int, n: nat): Pixel
    requires src.Valid() && IsKernel(kernel) && -1 <= dy <= 1 && n <= 3
  {
    if n == 0 then Zero
    else Add(RowSum(src, kernel, x, y, dy, n - 1), Scale(Tap(src, x, y, n - 2, dy), kernel[dy + 1][n - 1]))
  }

  /** The weighted sum of the first m kernel rows (dy = -1 .. m - 2); m = 3 is the whole window. */
  function WindowSum(src: Raster, kernel: seq<seq<real>>, x: nat, y: nat, m: nat): Pixel
    requires src.Valid() && IsKernel(kernel) && m <= 3
  {
    if m == 0 then Zero
    else Add(WindowSum(src, kernel, x, y, m - 1), RowSum(src, kernel, x, y, m - 2, 3))
  }

  /** The sum of the weights in the first n entries of kernel row dy. */
  function WeightRowSum(kernel: seq<seq<real>>, dy: int, n: nat): real
    requires IsKernel(kernel) && -1 <= dy <= 1 && n <= 3
  {
    if n == 0 then 0.0 else WeightRowSum(kernel, dy, n - 1) + kernel[dy + 1][n - 1]
  }

  /** The sum of the weights in the first m kernel rows. */
  function WeightSum(kernel: seq<seq<real>>, m: nat): real
    requires IsKernel(kernel) && m <= 3
  {
    if m == 0 then 0.0 else WeightSum(kernel, m - 1) + WeightRowSum(kernel, m - 2, 3)
  }

  /** Every pixel of the image is c. */
  predicate Constant(src: Raster, c: Pixel)
    requires src.WellShaped()
  {
    forall x: nat, y: nat :: x < src.width && y < src.height ==> src.At(x, y) == c
  }

  /** Scaling distributes over a sum of weights. */
  lemma ScaleAdd(c: Pixel, a: real, b: real)
    ensures Add(Scale(c, a), Scale(c, b)) == Scale(c, a + b)
  {
    assert c.r * a + c.r * b == c.r * (a + b);
    assert c.g * a + c.g * b == c.g * (a + b);
    assert c.b * a + c.b * b == c.b * (a + b);
  }

  /** Over a constant image a kernel row contributes c times its weights. */
  lemma {:induction false} RowSumConstant(src: Raster, kernel: seq<seq<real>>, x: nat, y: nat, dy: int, n: nat, c: Pixel)
    requires src.Valid() && IsKernel(kernel) && -1 <= dy <= 1 && n <= 3 && Constant(src, c)
    ensures RowSum(src, kernel, x, y, dy, n) == Scale(c, WeightRowSum(kernel, dy, n))
  {
    if n > 0 {
      RowSumConstant(src, kernel, x, y, dy, n - 1, c);
      var tap := Tap(src, x, y, n - 2, dy);
      assert tap == c;
      ScaleAdd(c, WeightRowSum(kernel, dy, n - 1), kernel[dy + 1][n - 1]);
    }
  }

  /**
   * Over a constant image the window sum is c times the sum of the
   * weights, wherever the window sits: clamping at the edges only repeats
   * pixels that are all equal.
   */
  lemma {:induction false} WindowSumConstant(src: Raster, kernel: seq<seq<real>>, x: nat, y: nat, m: nat, c: Pixel)
    requires src.Valid() && IsKernel(kernel) && m <= 3 && Constant(src, c)
    ensures WindowSum(src, kernel, x, y, m) == Scale(c, WeightSum(kernel, m))
  {
    if m > 0 {
      WindowSumConstant(src, kernel, x, y, m - 1, c);
      RowSumConstant(src, kernel, x, y, m - 2, 3, c);
      ScaleAdd(c, WeightSum(kernel, m - 1), WeightRowSum(kernel, m - 2, 3));
    }
  }
}
