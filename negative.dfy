/**
 * `NegativeFilter` of src/filters/negative_filter.cpp: every channel c is
 * replaced, in place, by 1 - c rounded to the nearest multiple of 1/255 and
 * clamped into [0, 1].
 */
module Negative {
  import opened Images
  import opened Channels

  /** `std::round`: the nearest integer, halves rounded away from zero. */
  function Round(v: real): (n: int)
    ensures 0.0 <= v ==> n as real - 0.5 <= v < n as real + 0.5
    ensures v < 0.0 ==> n as real - 0.5 < v <= n as real + 0.5
    ensures v == v.Floor as real ==> n == v.Floor
  {
    if 0.0 <= v then (v + 0.5).Floor else -((-v + 0.5).Floor)
  }

  /** clamp(round((1 - c) * 255) / 255, 0, 1). */
  function NegateChannel(c: real): (r: real)
    ensures OnGrid(r)
    ensures InUnitInterval(c) ==> -1.0 / 510.0 <= r - (1.0 - c) <= 1.0 / 510.0
  {
    var k := Round((1.0 - c) * 255.0);
    ClampedLevelOnGrid(k);
    ClampUnit(Level(k))
  }

  /** Any integer over 255, clamped into [0, 1], is on the grid. */
  lemma ClampedLevelOnGrid(k: int)
    ensures OnGrid(ClampUnit(Level(k)))
  {
    if 0 <= k <= 255 {
      OnGridLevel(Level(k));
    } else if k < 0 {
      assert ClampUnit(Level(k)) == 0.0;
    } else {
      assert ClampUnit(Level(k)) == 1.0;
    }
  }

  /** Sample k becomes sample 255 - k. */
  lemma NegateLevel(k: int)
    requires 0 <= k <= 255
    ensures NegateChannel(Level(k)) == Level(255 - k)
  {
    assert (1.0 - Level(k)) * 255.0 == (255 - k) as real;
  }

  /** On the grid the channel negation is an involution. */
  lemma NegateChannelTwice(c: real)
    requires OnGrid(c)
    ensures NegateChannel(NegateChannel(c)) == c
  {
    OnGridLevel(c);
    var k := (c * 255.0).Floor;
    NegateLevel(k);
    NegateLevel(255 - k);
  }

  /** The pixel with each channel negated. */
  function NegatePixel(p: Pixel): (q: Pixel)
    ensures PixelOnGrid(q) && IsNormalized(q)
  {
    Pixel(NegateChannel(p.r), NegateChannel(p.g), NegateChannel(p.b))
  }

  /** Black becomes white. */
  lemma NegateBlack()
    ensures NegatePixel(Black) == Pixel(1.0, 1.0, 1.0)
  {
    NegateLevel(0);
    assert Level(0) == 0.0;
  }

  /** The image after the filter: each pixel is rewritten from its own old value only. */
  function Negative(src: Raster): (r: Raster)
    requires src.WellShaped()
    ensures r.WellShaped() && r.width == src.width && r.height == src.height
    ensures forall x: nat, y: nat :: x < src.width && y < src.height ==> r.At(x, y) == NegatePixel(src.At(x, y))
  {
    MapPixels(src, NegatePixel)
  }

  /** An image whose channels are all on the grid (for instance one read from a BMP file) is restored by a second negation. */
  lemma {:induction false} NegativeInvolution(src: Raster)
    requires src.WellShaped()
    requires forall x: nat, y: nat :: x < src.width && y < src.height ==> PixelOnGrid(src.At(x, y))
    ensures Negative(Negative(src)) == src
  {
    forall x: nat, y: nat | x < src.width && y < src.height
      ensures Negative(Negative(src)).At(x, y) == src.At(x, y)
    {
      var p := src.At(x, y);
      NegateChannelTwice(p.r);
      NegateChannelTwice(p.g);
      NegateChannelTwice(p.b);
    }
    Extensionality(Negative(Negative(src)), src);
  }

  /** Whatever the input, negating three times is negating once: the first pass lands on the grid. */
  lemma {:induction false} NegativeThrice(src: Raster)
    requires src.WellShaped()
    ensures Negative(Negative(Negative(src))) == Negative(src)
  {
    NegativeInvolution(Negative(src));
  }

  /**
   * `NegativeFilter::Apply`: read each pixel into a local, rewrite its
   * three channels, clamp them, and store it back.
   */
  method Apply(image: Image)
    requires image.Valid()
    modifies image
    ensures image.Valid() && image.View() == Negative(old(image.View()))
  {
    ghost var src := image.View();
    ghost var target := Negative(src);
    ScanStart(target, src);
    var y := 0;
    while y < image.GetHeight()
      invariant image.Valid() && image.width == src.width && image.height == src.height
      invariant 0 <= y <= image.height
      invariant ScannedTo(image.View(), target, src, 0, y)
    {
      var x := 0;
      while x < image.GetWidth()
        invariant image.Valid() && image.width == src.width && image.height == src.height
        invariant 0 <= x <= image.width
        invariant ScannedTo(image.View(), target, src, x, y)
      {
        var p := image.GetPixel(x, y).value;
        p := p.(r := Level(Round((1.0 - p.r) * 255.0)));
        p := p.(g := Level(Round((1.0 - p.g) * 255.0)));
        p := p.(b := Level(Round((1.0 - p.b) * 255.0)));
        p := p.(r := Clamp(p.r, 0.0, 1.0));
        p := p.(g := Clamp(p.g, 0.0, 1.0));
        p := p.(b := Clamp(p.b, 0.0, 1.0));
        ScanStep(image.View(), target, src, x, y);
        var _ := image.SetPixel(x, y, p);
        x := x + 1;
      }
      ScanNextRow(image.View(), target, src, y);
      y := y + 1;
    }
    ScanDone(image.View(), target, src);
  }
}
