/**
 * `GaussianBlurFilter` of src/filters/gaussian_blur_filter.cpp: a kernel of
 * 2 * radius + 1 positive weights normalised to sum 1, applied as a
 * horizontal pass from the image into a temporary image and a vertical pass
 * back, both sampling clamp-to-edge.
 */
module GaussianBlur {
  import opened Images
  import opened Channels
  import opened Window

  // ---------------------------------------------------------------------
  // The kernel

  /** The sum of a sequence of weights, accumulated from the front as the constructor's loop does. */
  function Sum(s: seq<real>): real {
    if |s| == 0 then 0.0 else Sum(s[..|s| - 1]) + s[|s| - 1]
  }

  /** Every weight is positive. */
  predicate AllPositive(s: seq<real>) {
    forall i :: 0 <= i < |s| ==> 0.0 < s[i]
  }

  /** A non-empty sequence of positive weights has a positive sum. */
  lemma {:induction false} SumPositive(s: seq<real>)
    requires |s| > 0 && AllPositive(s)
    ensures Sum(s) > 0.0
  {
    if |s| > 1 {
      SumPositive(s[..|s| - 1]);
    }
  }

  /** Every weight divided by the total, as `k /= sum` does to each entry. */
  function Normalize(raw: seq<real>, total: real): (k: seq<real>)
    requires total != 0.0
    ensures |k| == |raw|
  {
    seq(|raw|, i requires 0 <= i < |raw| => raw[i] / total)
  }

  /** Dividing every weight by the total divides the sum by it. */
  lemma {:induction false} SumNormalize(raw: seq<real>, total: real)
    requires total != 0.0
    ensures Sum(Normalize(raw, total)) == Sum(raw) / total
  {
    if |raw| > 0 {
      var n := |raw| - 1;
      assert Normalize(raw, total)[..n] == Normalize(raw[..n], total);
      SumNormalize(raw[..n], total);
      assert Sum(raw[..n]) / total + raw[n] / total == (Sum(raw[..n]) + raw[n]) / total;
    }
  }

  /**
   * With positive raw weights the normalised kernel is positive and sums to
   * 1: every blurred pixel is a weighted average of its neighbours.
   */
  lemma NormalizedKernel(raw: seq<real>)
    requires |raw| > 0 && AllPositive(raw)
    ensures Sum(raw) > 0.0
    ensures AllPositive(Normalize(raw, Sum(raw))) && Sum(Normalize(raw, Sum(raw))) == 1.0
  {
    SumPositive(raw);
    var total := Sum(raw);
    NormalizePositive(raw, total);
    SumNormalize(raw, total);
    DivideBySelf(total);
  }

  /** A non-zero total divided by itself is 1. */
  lemma DivideBySelf(total: real)
    requires total != 0.0
    ensures total / total == 1.0
  {}

  /** Positive weights divided by a positive total stay positive. */
  lemma NormalizePositive(raw: seq<real>, total: real)
    requires AllPositive(raw) && 0.0 < total
    ensures AllPositive(Normalize(raw, total))
  {
    var k := Normalize(raw, total);
    forall i | 0 <= i < |k|
      ensures 0.0 < k[i]
    {
      assert k[i] == raw[i] / total;
    }
  }

  // ---------------------------------------------------------------------
  // One pass

  /** The pixel at offset `offset` from (x, y) along the pass direction, clamped to the image. */
  function Tap1D(src: Raster, x: nat, y: nat, offset: int, horizontal: bool): Pixel
    requires src.Valid() && x < src.width && y < src.height
  {
    if horizontal then src.At(ClampIndex(x + offset, src.width), y)
    else src.At(x, ClampIndex(y + offset, src.height))
  }

  /** The weighted sum of the first n taps, i = -radius .. n - 1 - radius, weight kernel[i + radius]. */
  function TapSum(src: Raster, kernel: seq<real>, radius: nat, x: nat, y: nat, horizontal: bool, n: nat): Pixel
    requires src.Valid() && x < src.width && y < src.height && n <= |kernel|
  {
    if n == 0 then Zero
    else Add(TapSum(src, kernel, radius, x, y, horizontal, n - 1), Scale(Tap1D(src, x, y, n - 1 - radius, horizontal), kernel[n - 1]))
  }

  /** The image one pass writes: every pixel the full weighted sum of its taps. */
  function Pass(src: Raster, kernel: seq<real>, radius: nat, horizontal: bool): (r: Raster)
    requires src.Valid()
    ensures r.Valid() && r.width == src.width && r.height == src.height
    ensures forall x: nat, y: nat :: x < src.width && y < src.height ==>
      r.At(x, y) == TapSum(src, kernel, radius, x, y, horizontal, |kernel|)
  {
    Tabulate(src.width, src.height, (x: nat, y: nat) requires x < src.width && y < src.height =>
      TapSum(src, kernel, radius, x, y, horizontal, |kernel|))
  }

  /** The image after the filter: the horizontal pass, then the vertical pass over its result. */
  function Blur(src: Raster, kernel: seq<real>, radius: nat): (r: Raster)
    requires src.Valid()
    ensures r.Valid() && r.width == src.width && r.height == src.height
  {
    Pass(Pass(src, kernel, radius, true), kernel, radius, false)
  }

  /** Every channel of p lies in [0, hi]. */
  predicate Bounded(p: Pixel, hi: real) {
    0.0 <= p.r <= hi && 0.0 <= p.g <= hi && 0.0 <= p.b <= hi
  }

  /** Adding a normalised pixel with weight k >= 0 to a sum bounded by `before` gives a sum bounded by before + k. */
  lemma AddWeightedBounded(q: Pixel, p: Pixel, k: real, before: real)
    requires Bounded(q, before) && IsNormalized(p) && 0.0 <= k
    ensures Bounded(Add(q, Scale(p, k)), before + k)
  {
    WeightedChannel(q.r, p.r, k, before);
    WeightedChannel(q.g, p.g, k, before);
    WeightedChannel(q.b, p.b, k, before);
  }

  /** The same for one channel. */
  lemma WeightedChannel(partial: real, c: real, k: real, before: real)
    requires 0.0 <= partial <= before && InUnitInterval(c) && 0.0 <= k
    ensures 0.0 <= partial + c * k <= before + k
  {
    assert c * k <= 1.0 * k;
  }

  /** The sum of the first n entries is the sum of the first n - 1 plus entry n - 1. */
  lemma SumPrefix(s: seq<real>, n: nat)
    requires 0 < n <= |s|
    ensures Sum(s[..n]) == Sum(s[..n - 1]) + s[n - 1]
  {
    assert s[..n][..n - 1] == s[..n - 1];
  }

  /** Every tap of a normalised image is normalised. */
  lemma Tap1DNormalized(src: Raster, x: nat, y: nat, offset: int, horizontal: bool)
    requires src.Valid() && x < src.width && y < src.height && src.Normalized()
    ensures IsNormalized(Tap1D(src, x, y, offset, horizontal))
  {
    if horizontal {
      assert IsNormalized(src.At(ClampIndex(x + offset, src.width), y));
    } else {
      assert IsNormalized(src.At(x, ClampIndex(y + offset, src.height)));
    }
  }

  /** Every channel of a sum of normalised taps with positive weights lies between 0 and the sum of the weights. */
  lemma {:induction false} TapSumBounds(src: Raster, kernel: seq<real>, radius: nat, x: nat, y: nat, horizontal: bool, n: nat)
    requires src.Valid() && x < src.width && y < src.height && n <= |kernel|
    requires AllPositive(kernel) && src.Normalized()
    ensures Bounded(TapSum(src, kernel, radius, x, y, horizontal, n), Sum(kernel[..n]))
  {
    if n == 0 {
      assert kernel[..0] == [];
    } else {
      TapSumBounds(src, kernel, radius, x, y, horizontal, n - 1);
      SumPrefix(kernel, n);
      Tap1DNormalized(src, x, y, n - 1 - radius, horizontal);
      AddWeightedBounded(TapSum(src, kernel, radius, x, y, horizontal, n - 1),
        Tap1D(src, x, y, n - 1 - radius, horizontal), kernel[n - 1], Sum(kernel[..n - 1]));
    }
  }

  /** Over a constant image the sum of the first n taps is c times the sum of their weights. */
  lemma {:induction false} TapSumConstant(src: Raster, kernel: seq<real>, radius: nat, x: nat, y: nat, horizontal: bool, n: nat, c: Pixel)
    requires src.Valid() && x < src.width && y < src.height && n <= |kernel| && Constant(src, c)
    ensures TapSum(src, kernel, radius, x, y, horizontal, n) == Scale(c, Sum(kernel[..n]))
  {
    if n > 0 {
      TapSumConstant(src, kernel, radius, x, y, horizontal, n - 1, c);
      SumPrefix(kernel, n);
      ScaleAdd(c, Sum(kernel[..n - 1]), kernel[n - 1]);
    }
  }

  /** A pass with a positive kernel summing to 1 keeps every channel in [0, 1]. */
  lemma {:induction false} PassNormalized(src: Raster, kernel: seq<real>, radius: nat, horizontal: bool)
    requires src.Valid() && src.Normalized() && AllPositive(kernel) && Sum(kernel) == 1.0
    ensures Pass(src, kernel, radius, horizontal).Normalized()
  {
    var r := Pass(src, kernel, radius, horizontal);
    forall x: nat, y: nat | x < src.width && y < src.height
      ensures IsNormalized(r.At(x, y))
    {
      TapSumBounds(src, kernel, radius, x, y, horizontal, |kernel|);
      assert kernel[..|kernel|] == kernel;
    }
  }

  /** Blurring with a positive kernel summing to 1 keeps every channel in [0, 1], though the filter never clamps. */
  lemma {:induction false} BlurNormalized(src: Raster, kernel: seq<real>, radius: nat)
    requires src.Valid() && src.Normalized() && AllPositive(kernel) && Sum(kernel) == 1.0
    ensures Blur(src, kernel, radius).Normalized()
  {
    PassNormalized(src, kernel, radius, true);
    PassNormalized(Pass(src, kernel, radius, true), kernel, radius, false);
  }

  /** A pass with a kernel summing to 1 leaves an image of one colour unchanged. */
  lemma {:induction false} PassConstant(src: Raster, kernel: seq<real>, radius: nat, horizontal: bool, c: Pixel)
    requires src.Valid() && Constant(src, c) && Sum(kernel) == 1.0
    ensures Pass(src, kernel, radius, horizontal) == src
  {
    var r := Pass(src, kernel, radius, horizontal);
    forall x: nat, y: nat | x < src.width && y < src.height
      ensures r.At(x, y) == src.At(x, y)
    {
      TapSumConstant(src, kernel, radius, x, y, horizontal, |kernel|, c);
      assert kernel[..|kernel|] == kernel;
      assert Scale(c, 1.0) == c;
    }
    Extensionality(r, src);
  }

  /** Blurring with a kernel summing to 1 leaves an image of one colour unchanged. */
  lemma {:induction false} BlurConstant(src: Raster, kernel: seq<real>, radius: nat, c: Pixel)
    requires src.Valid() && Constant(src, c) && Sum(kernel) == 1.0
    ensures Blur(src, kernel, radius) == src
  {
    PassConstant(src, kernel, radius, true, c);
    PassConstant(src, kernel, radius, false, c);
  }

  // ---------------------------------------------------------------------
  // The filter object

  /** The filter: the radius and the normalised kernel it fixes on construction. */
  class GaussianBlurFilter {
    var radius: nat
    var kernel: seq<real>

    /** 2 * radius + 1 positive weights summing to 1. */
    ghost predicate Valid()
      reads this
    {
      |kernel| == 2 * radius + 1 && AllPositive(kernel) && Sum(kernel) == 1.0
    }

    /**
     * The constructor: resize the kernel, store each raw weight at index
     * i + radius for i = -radius .. radius while summing them, then divide
     * every entry by the sum. The raw weights stand for the `std::exp`
     * values of the source.
     */
    constructor (radius: nat, raw: seq<real>)
      requires |raw| == 2 * radius + 1 && AllPositive(raw)
      ensures Valid() && this.radius == radius
      ensures Sum(raw) > 0.0 && kernel == Normalize(raw, Sum(raw))
    {
      this.radius := radius;
      kernel := seq(2 * radius + 1, _ => 0.0);
      new;
      var sum := 0.0;
      var i: int := -(radius as int);
      while i <= radius
        invariant -(radius as int) <= i <= radius + 1
        invariant this.radius == radius && |kernel| == 2 * radius + 1
        invariant kernel[..i + radius] == raw[..i + radius]
        invariant sum == Sum(raw[..i + radius])
      {
        kernel := kernel[i + radius := raw[i + radius]];
        assert raw[..i + radius + 1][..i + radius] == raw[..i + radius];
        sum := sum + kernel[i + radius];
        i := i + 1;
      }
      assert kernel == raw && raw[..|raw|] == raw;
      NormalizedKernel(raw);
      var j := 0;
      while j < |kernel|
        invariant 0 <= j <= |kernel| == |raw|
        invariant this.radius == radius
        invariant forall k :: 0 <= k < j ==> kernel[k] == raw[k] / sum
        invariant forall k :: j <= k < |kernel| ==> kernel[k] == raw[k]
      {
        kernel := kernel[j := kernel[j] / sum];
        j := j + 1;
      }
      assert kernel == Normalize(raw, sum);
    }

    /**
     * One tap of `Apply1D`: in the horizontal pass only x is offset and
     * clamped to [0, width - 1], in the vertical pass only y, clamped to
     * [0, height - 1]; the read is always in bounds.
     */
    static method ReadTap(src: Image, x: nat, y: nat, i: int, horizontal: bool) returns (p: Pixel)
      requires src.Valid() && x < src.width && y < src.height
      ensures p == Tap1D(src.View(), x, y, i, horizontal)
    {
      var nx := 0;
      var ny := 0;
      if horizontal {
        nx := ClampIndex(x + i, src.GetWidth());
        ny := y;
      } else {
        nx := x;
        ny := ClampIndex(y + i, src.GetHeight());
      }
      p := src.GetPixel(nx, ny).value;
    }

    /** The tap loop for one destination pixel: the weighted sum of the 2 * radius + 1 clamped taps. */
    method Taps(src: Image, x: nat, y: nat, horizontal: bool) returns (r: real, g: real, b: real)
      requires |kernel| == 2 * radius + 1 && src.Valid() && x < src.width && y < src.height
      ensures Pixel(r, g, b) == TapSum(src.View(), kernel, radius, x, y, horizontal, |kernel|)
    {
      ghost var view := src.View();
      r, g, b := 0.0, 0.0, 0.0;
      var i: int := -(radius as int);
      while i <= radius
        invariant -(radius as int) <= i <= radius + 1
        invariant Pixel(r, g, b) == TapSum(view, kernel, radius, x, y, horizontal, i + radius)
      {
        var p := ReadTap(src, x, y, i, horizontal);
        var weight := kernel[i + radius];
        AddScaled(Pixel(r, g, b), p, weight);
        r := r + p.r * weight;
        g := g + p.g * weight;
        b := b + p.b * weight;
        assert TapSum(view, kernel, radius, x, y, horizontal, i + radius + 1)
            == Add(TapSum(view, kernel, radius, x, y, horizontal, i + radius), Scale(Tap1D(view, x, y, i, horizontal), weight));
        i := i + 1;
      }
    }

    /** `Apply1D`: every pixel of `dst` is written once with the weighted sum of its taps in `src`. */
    method Apply1D(src: Image, dst: Image, horizontal: bool)
      requires Valid() && src.Valid() && dst.Valid() && src != dst
      requires dst.width == src.width && dst.height == src.height
      modifies dst
      ensures dst.Valid() && dst.View() == Pass(src.View(), kernel, radius, horizontal)
    {
      ghost var view := src.View();
      ghost var target := Pass(view, kernel, radius, horizontal);
      ghost var init := dst.View();
      ScanStart(target, init);
      var y := 0;
      while y < src.GetHeight()
        invariant dst.Valid() && dst.width == view.width && dst.height == view.height
        invariant 0 <= y <= src.height
        invariant ScannedTo(dst.View(), target, init, 0, y)
      {
        var x := 0;
        while x < src.GetWidth()
          invariant dst.Valid() && dst.width == view.width && dst.height == view.height
          invariant 0 <= x <= src.width
          invariant ScannedTo(dst.View(), target, init, x, y)
        {
          var r, g, b := Taps(src, x, y, horizontal);
          ScanStep(dst.View(), target, init, x, y);
          var _ := dst.SetPixel(x, y, Pixel(r, g, b));
          x := x + 1;
        }
        ScanNextRow(dst.View(), target, init, y);
        y := y + 1;
      }
      ScanDone(dst.View(), target, init);
    }

    /** `Apply`: horizontal pass from the image into a blank temporary image, vertical pass back into the image. */
    method Apply(image: Image)
      requires Valid() && image.Valid()
      modifies image
      ensures image.Valid() && image.View() == Blur(old(image.View()), kernel, radius)
    {
      var temp := new Image(image.GetWidth(), image.GetHeight());
      Apply1D(image, temp, true);
      Apply1D(temp, image, false);
    }
  }
}
