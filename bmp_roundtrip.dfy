/**
 * The writer and the reader together: a file produced by `BMPWriter::Write`
 * is accepted by `BMPReader` and decodes to the written image, each channel
 * rounded to the nearest of the 256 levels an 8-bit sample can hold.
 */
module BmpRoundTrip {
  import opened Errors
  import opened Images
  import opened Channels
  import opened BmpFormat
  import opened BmpReader
  import opened BmpWriter

  /** A pixel as it comes back from a file: each channel converted to a byte and divided by 255. */
  function QuantizePixel(p: Pixel): (q: Pixel)
    ensures PixelOnGrid(q)
  {
    var q := Pixel(Level(SafeColorConvert(p.r)), Level(SafeColorConvert(p.g)), Level(SafeColorConvert(p.b)));
    OnGridLevel(q.r);
    OnGridLevel(q.g);
    OnGridLevel(q.b);
    q
  }

  /** Quantisation keeps pixels already on the grid and moves the others by at most half a step. */
  lemma QuantizePixelProperties(p: Pixel)
    ensures PixelOnGrid(p) ==> QuantizePixel(p) == p
    ensures IsNormalized(p) ==>
      var q := QuantizePixel(p);
      && -1.0 / 510.0 <= q.r - p.r <= 1.0 / 510.0
      && -1.0 / 510.0 <= q.g - p.g <= 1.0 / 510.0
      && -1.0 / 510.0 <= q.b - p.b <= 1.0 / 510.0
  {
    if PixelOnGrid(p) {
      SafeColorConvertOnGrid(p.r);
      SafeColorConvertOnGrid(p.g);
      SafeColorConvertOnGrid(p.b);
    }
    if IsNormalized(p) {
      SafeColorConvertError(p.r);
      SafeColorConvertError(p.g);
      SafeColorConvertError(p.b);
    }
  }

  /** The image with every pixel quantised. */
  function Quantize(src: Raster): (r: Raster)
    requires src.WellShaped()
    ensures r.WellShaped() && r.width == src.width && r.height == src.height
    ensures forall x: nat, y: nat :: x < src.width && y < src.height ==> r.At(x, y) == QuantizePixel(src.At(x, y))
  {
    MapPixels(src, QuantizePixel)
  }

  /**
   * The reader accepts the writer's output: the header checks pass, the
   * pixel data starts right after the header, the rows are stored
   * bottom-up with the writer's row size, and the file holds all of them.
   */
  lemma {:induction false} EncodedLayout(src: Raster)
    requires src.Valid() && src.width < Two31 && src.height < Two31
    ensures Validate(EncodedBytes(src)) == Ok(Layout(src.width, src.height, false, HeaderSize, RowSize(src.width)))
  {
    var bytes := EncodedBytes(src);
    EncodedLength(src);
    EncodedHeader(src);
    var h := ParseHeader(bytes);
    assert h == WriterHeader(src.width, src.height);
    assert h.width == src.width && h.height == src.height;
    assert bytes[0] == 0x42 && bytes[1] == 0x4D;
  }

  /** The three bytes the writer stores for pixel x of file row y decode to that pixel, quantised. */
  lemma {:induction false} StoredPixel(src: Raster, y: nat, x: nat)
    requires src.WellShaped() && y < src.height && x < src.width
    ensures RowOffset(src, y) + BytesPerPixel * x + BytesPerPixel <= |EncodedBytes(src)|
    ensures DecodePixel(EncodedBytes(src), RowOffset(src, y), x) == QuantizePixel(src.At(x, src.height - 1 - y))
  {
    EncodedPixel(src, y, x, 0);
    EncodedPixel(src, y, x, 1);
    EncodedPixel(src, y, x, 2);
  }

  /** Pixel (x, t) of the decoded output is the quantised pixel (x, t) of the written image. */
  lemma {:induction false} DecodedPixel(src: Raster, x: nat, t: nat)
    requires src.Valid() && src.width < Two31 && src.height < Two31
    requires x < src.width && t < src.height
    ensures Decode(EncodedBytes(src)).Ok?
    ensures && Decode(EncodedBytes(src)).value.height == src.height
            && Decode(EncodedBytes(src)).value.width == src.width
            && Decode(EncodedBytes(src)).value.rows[t][x] == QuantizePixel(src.At(x, t))
  {
    var bytes := EncodedBytes(src);
    EncodedLayout(src);
    var layout := Validate(bytes).value;
    var y := src.height - 1 - t;
    assert TargetRow(y, layout.height, layout.topDown) == t;
    DecodeAt(bytes, y, x);
    assert RowStart(layout, y) == RowOffset(src, y);
    StoredPixel(src, y, x);
  }

  /**
   * The round trip: writing an image and reading the file back gives the
   * image with every channel quantised to 8 bits. Dimensions must fit the
   * header's signed 32-bit fields.
   */
  lemma {:induction false} DecodeEncoded(src: Raster)
    requires src.Valid() && src.width < Two31 && src.height < Two31
    ensures DecodeImage(EncodedBytes(src)) == Ok(Quantize(src))
  {
    var bytes := EncodedBytes(src);
    EncodedLayout(src);
    var d := Decode(bytes).value;
    var r := DecodeImage(bytes);
    assert r.Ok?;
    forall x: nat, y: nat | x < src.width && y < src.height
      ensures r.value.At(x, y) == Quantize(src).At(x, y)
    {
      DecodedPixel(src, x, y);
    }
    Extensionality(r.value, Quantize(src));
  }

  /** An image whose channels are all multiples of 1/255 in [0, 1] survives the round trip exactly. */
  lemma {:induction false} DecodeEncodedExact(src: Raster)
    requires src.Valid() && src.width < Two31 && src.height < Two31
    requires forall x: nat, y: nat :: x < src.width && y < src.height ==> PixelOnGrid(src.At(x, y))
    ensures DecodeImage(EncodedBytes(src)) == Ok(src)
  {
    DecodeEncoded(src);
    forall x: nat, y: nat | x < src.width && y < src.height
      ensures Quantize(src).At(x, y) == src.At(x, y)
    {
      QuantizePixelProperties(src.At(x, y));
    }
    Extensionality(Quantize(src), src);
  }

  /**
   * Re-saving an image that was read from a file changes no pixel: what the
   * reader produces is already on the grid, so it is written and read back
   * unchanged.
   */
  lemma {:induction false} ResaveStable(bytes: seq<Byte>)
    requires DecodeImage(bytes).Ok?
    requires DecodeImage(bytes).value.width < Two31 && DecodeImage(bytes).value.height < Two31
    ensures DecodeImage(EncodedBytes(DecodeImage(bytes).value)) == DecodeImage(bytes)
  {
    var img := DecodeImage(bytes).value;
    forall x: nat, y: nat | x < img.width && y < img.height
      ensures PixelOnGrid(img.At(x, y))
    {
      DecodedOnGrid(bytes, y, x);
    }
    DecodeEncodedExact(img);
  }
}
