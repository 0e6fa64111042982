/**
 * Channel arithmetic shared by the codec and the filters: `std::clamp` on
 * intensities and on neighbour coordinates, the luminance weights, and the
 * 1/255 quantisation grid of 8-bit BMP samples.
 */
module Channels {
  import opened Images

  /** `std::clamp(v, lo, hi)`: `lo` below the range, `hi` above it, `v` itself inside. */
  function Clamp(v: real, lo: real, hi: real): (r: real)
    requires lo <= hi
    ensures lo <= r <= hi
    ensures lo <= v <= hi ==> r == v
    ensures v < lo ==> r == lo
    ensures hi < v ==> r == hi
  {
    if v < lo then lo else if hi < v then hi else v
  }

  /** Clamping is monotone: it never reverses the order of two values. */
  lemma ClampMonotone(u: real, v: real, lo: real, hi: real)
    requires lo <= hi && u <= v
    ensures Clamp(u, lo, hi) <= Clamp(v, lo, hi)
  {}

  /** Clamping into [0, 1], as the filters do to every output channel. */
  function ClampUnit(v: real): (r: real)
    ensures InUnitInterval(r)
    ensures InUnitInterval(v) ==> r == v
  {
    Clamp(v, 0.0, 1.0)
  }

  /** Each channel clamped into [0, 1]. */
  function ClampPixel(p: Pixel): (q: Pixel)
    ensures IsNormalized(q)
    ensures IsNormalized(p) ==> q == p
  {
    Pixel(ClampUnit(p.r), ClampUnit(p.g), ClampUnit(p.b))
  }

  /**
   * `std::clamp(i, 0, n - 1)` on a neighbour coordinate: clamp-to-edge
   * sampling. The result is always a valid index, and an index that is
   * already valid is kept.
   */
  function ClampIndex(i: int, n: nat): (r: nat)
    requires n > 0
    ensures r < n
    ensures 0 <= i < n ==> r == i
    ensures i < 0 ==> r == 0
    ensures n <= i ==> r == n - 1
  {
    if i < 0 then 0 else if n - 1 < i then n - 1 else i
  }

  // The luminance weights of the grayscale and edge-detection filters.
  const RedLuminance: real := 0.299
  const GreenLuminance: real := 0.587
  const BlueLuminance: real := 0.114

  /** 0.299 r + 0.587 g + 0.114 b. */
  function Luminance(p: Pixel): real {
    RedLuminance * p.r + GreenLuminance * p.g + BlueLuminance * p.b
  }

  /**
   * The weights sum to 1, so the luminance of a normalised pixel is in
   * [0, 1] and the luminance of a grey pixel is its own level.
   */
  lemma LuminanceBounds(p: Pixel)
    ensures IsNormalized(p) ==> InUnitInterval(Luminance(p))
    ensures IsAchromatic(p) ==> Luminance(p) == p.r
  {}

  // ---------------------------------------------------------------------
  // The 1/255 grid of 8-bit samples

  /** The intensity k / 255 of 8-bit sample k. */
  function Level(k: int): real {
    k as real / 255.0
  }

  /** A channel that an 8-bit sample represents exactly: a multiple of 1/255 in [0, 1]. */
  predicate OnGrid(c: real) {
    InUnitInterval(c) && (c * 255.0).Floor as real == c * 255.0
  }

  /** The grid is exactly the set of levels of the samples 0..255. */
  lemma OnGridLevel(c: real)
    ensures OnGrid(c) ==> 0 <= (c * 255.0).Floor <= 255 && c == Level((c * 255.0).Floor)
    ensures forall k: int :: 0 <= k <= 255 && c == Level(k) ==> OnGrid(c)
  {
    forall k: int | 0 <= k <= 255 && c == Level(k)
      ensures OnGrid(c)
    {
      assert c * 255.0 == k as real;
    }
  }

  /** Every channel of the pixel is on the grid. */
  predicate PixelOnGrid(p: Pixel) {
    OnGrid(p.r) && OnGrid(p.g) && OnGrid(p.b)
  }
}
