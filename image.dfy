/**
 * The pixel buffer of header/image.h and src/image.cpp.
 *
 * `Pixel` is the three-channel value type, `Raster` the value of a
 * width x height row-major grid (used by every specification), and `Image`
 * the mutable object the codec and the filters work on: its `data` field is
 * the flat buffer whose slot y * width + x holds pixel (x, y).
 */
module Images {
  import opened Errors

  /** One RGB pixel; each channel is a normalised intensity, nominally in [0, 1]. */
  datatype Pixel = Pixel(r: real, g: real, b: real)

  /** A value-initialised `Pixel`: all three channels are 0.0. */
  const Black: Pixel := Pixel(0.0, 0.0, 0.0)

  predicate InUnitInterval(c: real) { 0.0 <= c <= 1.0 }

  predicate IsNormalized(p: Pixel) {
    InUnitInterval(p.r) && InUnitInterval(p.g) && InUnitInterval(p.b)
  }

  /** A grey pixel: all three channels are equal. */
  predicate IsAchromatic(p: Pixel) { p.r == p.g && p.g == p.b }

  /** Channel-wise sum, the accumulation step of the convolutions. */
  function Add(p: Pixel, q: Pixel): Pixel { Pixel(p.r + q.r, p.g + q.g, p.b + q.b) }

  /** Every channel multiplied by one kernel weight. */
  function Scale(p: Pixel, weight: real): Pixel { Pixel(p.r * weight, p.g * weight, p.b * weight) }

  /** One step of a convolution: adding a weighted tap channel by channel. */
  lemma AddScaled(acc: Pixel, p: Pixel, weight: real)
    ensures Add(acc, Scale(p, weight)) == Pixel(acc.r + p.r * weight, acc.g + p.g * weight, acc.b + p.b * weight)
  {
    var q := Scale(p, weight);
    assert q.r == p.r * weight && q.g == p.g * weight && q.b == p.b * weight;
  }

  // ---------------------------------------------------------------------
  // Row-major slot arithmetic

  /** The index of pixel (x, y) in the flat buffer of an image `width` pixels wide. */
  function Slot(width: nat, x: nat, y: nat): nat { y * width + x }

  lemma MulMonotone(a: nat, b: nat, c: nat)
    requires a <= b
    ensures a * c <= b * c
  {}

  lemma MulCancelLess(a: nat, b: nat, c: nat)
    requires a * c < b * c
    ensures a < b
  {}

  /** Every in-range pixel has a slot inside the width * height buffer. */
  lemma SlotInBuffer(width: nat, height: nat, x: nat, y: nat)
    requires x < width && y < height
    ensures Slot(width, x, y) < width * height
  {
    MulMonotone(y + 1, height, width);
  }

  lemma SlotOrdered(width: nat, x: nat, y: nat, x': nat, y': nat)
    requires x < width && y < y'
    ensures Slot(width, x, y) < Slot(width, x', y')
  {
    MulMonotone(y + 1, y', width);
  }

  /** Distinct in-range pixels occupy distinct slots. */
  lemma SlotDistinct(width: nat, x: nat, y: nat, x': nat, y': nat)
    requires x < width && x' < width
    ensures Slot(width, x, y) == Slot(width, x', y') <==> x == x' && y == y'
  {
    if y < y' {
      SlotOrdered(width, x, y, x', y');
    } else if y' < y {
      SlotOrdered(width, x', y', x, y);
    }
  }

  /** Every slot of the buffer is the slot of exactly the pixel (k % width, k / width). */
  lemma SlotOf(width: nat, height: nat, k: nat)
    requires k < width * height
    ensures 0 < width && k % width < width && k / width < height
    ensures Slot(width, k % width, k / width) == k
  {
    assert 0 < width;
    MulCancelLess(k / width, height, width);
  }

  // ---------------------------------------------------------------------
  // The value of an image

  /** A width x height grid stored row-major, as `Image` stores it. */
  datatype Raster = Raster(width: nat, height: nat, pixels: seq<Pixel>) {

    /** The buffer holds exactly width * height pixels. */
    predicate WellShaped() { |pixels| == width * height }

    /** What every constructed `Image` satisfies: positive dimensions as well. */
    predicate Valid() { WellShaped() && width > 0 && height > 0 }

    /** Pixel (x, y): buffer slot y * width + x. */
    function At(x: nat, y: nat): Pixel
      requires WellShaped() && x < width && y < height
    {
      SlotInBuffer(width, height, x, y);
      pixels[Slot(width, x, y)]
    }

    /** The grid with pixel (x, y) replaced by `p` and nothing else changed. */
    function Set(x: nat, y: nat, p: Pixel): (r: Raster)
      requires WellShaped() && x < width && y < height
      ensures r.WellShaped() && r.width == width && r.height == height
      ensures forall x': nat, y': nat :: x' < width && y' < height ==>
        r.At(x', y') == if x' == x && y' == y then p else At(x', y')
    {
      SlotInBuffer(width, height, x, y);
      var r := Raster(width, height, pixels[Slot(width, x, y) := p]);
      assert forall x': nat, y': nat :: x' < width && y' < height ==>
        r.At(x', y') == if x' == x && y' == y then p else At(x', y')
      by {
        forall x': nat, y': nat | x' < width && y' < height
          ensures r.At(x', y') == if x' == x && y' == y then p else At(x', y')
        {
          SetAtPoint(width, height, pixels, x, y, p, x', y');
        }
      }
      r
    }

    /** Every channel of every pixel lies in [0, 1]. */
    ghost predicate Normalized()
      requires WellShaped()
    {
      forall x: nat, y: nat :: x < width && y < height ==> IsNormalized(At(x, y))
    }
  }

  lemma SetAtPoint(width: nat, height: nat, pixels: seq<Pixel>, x: nat, y: nat, p: Pixel, x': nat, y': nat)
    requires |pixels| == width * height && x < width && y < height && x' < width && y' < height
    ensures Slot(width, x, y) < |pixels| && Slot(width, x', y') < |pixels|
    ensures pixels[Slot(width, x, y) := p][Slot(width, x', y')] == if x' == x && y' == y then p else pixels[Slot(width, x', y')]
  {
    SlotInBuffer(width, height, x', y');
    SlotInBuffer(width, height, x, y);
    SlotDistinct(width, x', y', x, y);
  }

  /** The grid whose pixel (x, y) is f(x, y). */
  function Tabulate(width: nat, height: nat, f: (nat, nat) --> Pixel): (r: Raster)
    requires forall x: nat, y: nat :: x < width && y < height ==> f.requires(x, y)
    ensures r.WellShaped() && r.width == width && r.height == height
    ensures forall x: nat, y: nat :: x < width && y < height ==> r.At(x, y) == f(x, y)
  {
    var r := Raster(width, height, seq(width * height, k requires 0 <= k < width * height => Cell(width, height, f, k)));
    TabulateAt(width, height, f, r);
    r
  }

  lemma TabulateAt(width: nat, height: nat, f: (nat, nat) --> Pixel, r: Raster)
    requires forall x: nat, y: nat :: x < width && y < height ==> f.requires(x, y)
    requires r == Raster(width, height, seq(width * height, k requires 0 <= k < width * height => Cell(width, height, f, k)))
    ensures forall x: nat, y: nat :: x < width && y < height ==> r.At(x, y) == f(x, y)
  {
    forall x: nat, y: nat | x < width && y < height
      ensures r.At(x, y) == f(x, y)
    {
      var k := Slot(width, x, y);
      SlotInBuffer(width, height, x, y);
      SlotOf(width, height, k);
      SlotDistinct(width, x, y, k % width, k / width);
      assert r.At(x, y) == Cell(width, height, f, k);
    }
  }

  function Cell(width: nat, height: nat, f: (nat, nat) --> Pixel, k: nat): Pixel
    requires forall x: nat, y: nat :: x < width && y < height ==> f.requires(x, y)
    requires k < width * height
  {
    SlotOf(width, height, k);
    f(k % width, k / width)
  }

  /** A freshly constructed image: width * height default pixels. */
  function Blank(width: nat, height: nat): (r: Raster)
    ensures r.WellShaped() && r.width == width && r.height == height
    ensures forall x: nat, y: nat :: x < width && y < height ==> r.At(x, y) == Black
  {
    var r := Raster(width, height, seq(width * height, _ => Black));
    forall x: nat, y: nat | x < width && y < height
      ensures r.At(x, y) == Black
    {
      SlotInBuffer(width, height, x, y);
    }
    r
  }

  /** The grid of the same shape whose every pixel is `f` of the pixel at the same place. */
  function MapPixels(src: Raster, f: Pixel -> Pixel): (r: Raster)
    requires src.WellShaped()
    ensures r.WellShaped() && r.width == src.width && r.height == src.height
    ensures forall x: nat, y: nat :: x < src.width && y < src.height ==> r.At(x, y) == f(src.At(x, y))
  {
    Tabulate(src.width, src.height, (x: nat, y: nat) requires x < src.width && y < src.height => f(src.At(x, y)))
  }

  /** Two grids of the same shape that agree at every pixel are equal. */
  lemma Extensionality(a: Raster, b: Raster)
    requires a.WellShaped() && b.WellShaped() && a.width == b.width && a.height == b.height
    requires forall x: nat, y: nat :: x < a.width && y < a.height ==> a.At(x, y) == b.At(x, y)
    ensures a == b
  {
    forall k | 0 <= k < |a.pixels|
      ensures a.pixels[k] == b.pixels[k]
    {
      SlotOf(a.width, a.height, k);
      assert a.At(k % a.width, k / a.width) == b.At(k % a.width, k / a.width);
    }
  }

  /** Rows of equal length: the data constructor's input is a proper matrix. */
  predicate Rectangular(rows: seq<seq<Pixel>>) {
    forall i :: 0 <= i < |rows| ==> |rows[i]| == |rows[0]|
  }

  /**
   * The value built by the data constructor `Image(width, height, data)`:
   * pixel (x, y) is data[y][x]; zero dimensions and a row count or first-row
   * length that disagrees with the dimensions are errors.
   */
  function OfRows(width: nat, height: nat, rows: seq<seq<Pixel>>): (r: Result<Raster>)
    requires Rectangular(rows)
    ensures r.Err? <==> width == 0 || height == 0 || |rows| != height || |rows[0]| != width
    ensures r.Err? ==> r.error == if width == 0 || height == 0 then ZeroDimensions else DataMismatch
    ensures r.Ok? ==> r.value.Valid() && r.value.width == width && r.value.height == height
    ensures r.Ok? ==> forall x: nat, y: nat :: x < width && y < height ==> r.value.At(x, y) == rows[y][x]
  {
    if width == 0 || height == 0 then Err(ZeroDimensions)
    else if |rows| != height || |rows[0]| != width then Err(DataMismatch)
    else Ok(Tabulate(width, height, (x: nat, y: nat) requires x < width && y < height => rows[y][x]))
  }

  // ---------------------------------------------------------------------
  // Progress of a row-by-row scan that writes every pixel once

  /**
   * `cur` holds `target` at every pixel already visited by a y-then-x scan
   * that is now at (x, y), and `init` at every pixel not yet visited.
   */
  ghost predicate ScannedTo(cur: Raster, target: Raster, init: Raster, x: nat, y: nat)
  {
    && cur.WellShaped() && target.WellShaped() && init.WellShaped()
    && cur.width == target.width && cur.height == target.height
    && init.width == cur.width && init.height == cur.height
    && forall x': nat, y': nat :: x' < cur.width && y' < cur.height ==>
         cur.At(x', y') == if y' < y || (y' == y && x' < x) then target.At(x', y') else init.At(x', y')
  }

  lemma ScanStart(target: Raster, init: Raster)
    requires target.WellShaped() && init.WellShaped()
    requires target.width == init.width && target.height == init.height
    ensures ScannedTo(init, target, init, 0, 0)
  {}

  /** Writing the target value at (x, y) advances the scan by one pixel. */
  lemma ScanStep(cur: Raster, target: Raster, init: Raster, x: nat, y: nat)
    requires ScannedTo(cur, target, init, x, y) && x < cur.width && y < cur.height
    ensures ScannedTo(cur.Set(x, y, target.At(x, y)), target, init, x + 1, y)
  {}

  lemma ScanNextRow(cur: Raster, target: Raster, init: Raster, y: nat)
    requires ScannedTo(cur, target, init, cur.width, y)
    ensures ScannedTo(cur, target, init, 0, y + 1)
  {}

  /** A scan that has passed the last row has produced the target. */
  lemma ScanDone(cur: Raster, target: Raster, init: Raster)
    requires ScannedTo(cur, target, init, 0, cur.height)
    ensures cur == target
  {
    Extensionality(cur, target);
  }

  // ---------------------------------------------------------------------
  // The mutable image

  /** `Image`: fixed dimensions and a flat row-major pixel buffer. */
  class Image {
    var width: nat
    var height: nat
    var data: seq<Pixel>

    /** The class invariant: positive dimensions and exactly width * height pixels. */
    ghost predicate Valid()
      reads this
    {
      width > 0 && height > 0 && |data| == width * height
    }

    /** The value currently held. */
    function View(): (v: Raster)
      reads this
      ensures Valid() <==> v.Valid()
    {
      Raster(width, height, data)
    }

    /** `Image(width, height)` where it does not throw: width * height default pixels. */
    constructor (width: nat, height: nat)
      requires width > 0 && height > 0
      ensures Valid() && View() == Blank(width, height)
    {
      this.width := width;
      this.height := height;
      this.data := seq(width * height, _ => Black);
    }

    /** `Image(width, height)`: fails on a zero dimension, else a blank image. */
    static method Create(width: nat, height: nat) returns (r: Result<Image>)
      ensures r.Err? <==> width == 0 || height == 0
      ensures r.Err? ==> r.error == ZeroDimensions
      ensures r.Ok? ==> fresh(r.value) && r.value.Valid() && r.value.View() == Blank(width, height)
    {
      if width == 0 || height == 0 {
        return Err(ZeroDimensions);
      }
      var image := new Image(width, height);
      return Ok(image);
    }

    /**
     * `Image(width, height, data)`: delegates to `Image(width, height)`,
     * checks the row count and the first row's length, then copies data[y][x]
     * into slot y * width + x.
     */
    static method FromRows(width: nat, height: nat, rows: seq<seq<Pixel>>) returns (r: Result<Image>)
      requires Rectangular(rows)
      ensures r.Ok? ==> fresh(r.value) && r.value.Valid()
      ensures OfRows(width, height, rows).Err? ==> r == Err(OfRows(width, height, rows).error)
      ensures OfRows(width, height, rows).Ok? ==> r.Ok? && r.value.View() == OfRows(width, height, rows).value
    {
      var made := Create(width, height);
      if made.Err? {
        return Err(made.error);
      }
      var image := made.value;
      if |rows| != height || (height > 0 && |rows[0]| != width) {
        return Err(DataMismatch);
      }
      ghost var target := OfRows(width, height, rows).value;
      ghost var blank := Blank(width, height);
      ScanStart(target, blank);
      var y := 0;
      while y < height
        invariant 0 <= y <= height
        invariant image.Valid() && image.width == width && image.height == height
        invariant ScannedTo(image.View(), target, blank, 0, y)
      {
        var x := 0;
        while x < width
          invariant 0 <= x <= width
          invariant image.Valid() && image.width == width && image.height == height
          invariant ScannedTo(image.View(), target, blank, x, y)
        {
          ScanStep(image.View(), target, blank, x, y);
          SlotInBuffer(width, height, x, y);
          image.data := image.data[y * width + x := rows[y][x]];
          x := x + 1;
        }
        ScanNextRow(image.View(), target, blank, y);
        y := y + 1;
      }
      ScanDone(image.View(), target, blank);
      return Ok(image);
    }

    /** The copy constructor, used for the sharpening filter's snapshot. */
    constructor Copy(other: Image)
      requires other.Valid()
      ensures Valid() && View() == other.View()
    {
      width := other.width;
      height := other.height;
      data := other.data;
    }

    /** Copy assignment `*this = other`: this image takes other's dimensions and pixels. */
    method Assign(other: Image)
      requires other.Valid()
      modifies this
      ensures Valid() && View() == old(other.View())
    {
      width, height, data := other.width, other.height, other.data;
    }

    function GetWidth(): (w: nat)
      reads this
      requires Valid()
      ensures w > 0 && w == View().width
    {
      width
    }

    function GetHeight(): (h: nat)
      reads this
      requires Valid()
      ensures h > 0 && h == View().height
    {
      height
    }

    /** Bounds-checked read of slot y * width + x; reads only. */
    function GetPixel(x: nat, y: nat): (r: Result<Pixel>)
      reads this
      requires Valid()
      ensures r.Err? <==> x >= width || y >= height
      ensures r.Err? ==> r.error == OutOfRange
      ensures r.Ok? ==> Slot(width, x, y) < width * height && r.value == View().At(x, y)
    {
      if x >= width || y >= height then Err(OutOfRange)
      else
        SlotInBuffer(width, height, x, y);
        Ok(data[y * width + x])
    }

    /**
     * Bounds-checked write of slot y * width + x. Only the pixel buffer may
     * change; an out-of-range write changes nothing.
     */
    method SetPixel(x: nat, y: nat, pixel: Pixel) returns (r: Outcome)
      requires Valid()
      modifies this`data
      ensures Valid()
      ensures r.Fail? <==> x >= old(width) || y >= old(height)
      ensures r.Fail? ==> r.error == OutOfRange && data == old(data)
      ensures r.Pass? ==> View() == old(View()).Set(x, y, pixel)
    {
      if x >= width || y >= height {
        return Fail(OutOfRange);
      }
      SlotInBuffer(width, height, x, y);
      data := data[y * width + x := pixel];
      return Pass;
    }
  }
}
