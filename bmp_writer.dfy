/**
 * `BMPWriter::Write` of src/writer/bmp_writer.cpp as the byte sequence it
 * sends to the file: the packed header with the writer's defaults, then the
 * rows bottom-up, each pixel as B,G,R and each row zero-padded to a multiple
 * of 4 bytes.
 */
module BmpWriter {
  import opened Errors
  import opened Images
  import opened Channels
  import opened BmpFormat

  /**
   * `SafeColorConvert`: scale to [0, 255], clamp, add 0.5 and truncate to
   * `uint8_t`. The clamped value plus 0.5 is positive, so truncation is the
   * floor; the result is the nearest 8-bit sample (halves round up).
   */
  function SafeColorConvert(v: real): (b: Byte)
    ensures b as real - 0.5 <= Clamp(v * 255.0, 0.0, 255.0) < b as real + 0.5
  {
    var clamped := Clamp(v * 255.0, 0.0, 255.0);
    (clamped + 0.5).Floor
  }

  /** The level k / 255 of an 8-bit sample converts back to k. */
  lemma SafeColorConvertLevel(k: int)
    requires 0 <= k <= 255
    ensures SafeColorConvert(Level(k)) == k
  {
    assert Level(k) * 255.0 == k as real;
  }

  /** A channel on the 1/255 grid survives conversion and division by 255 exactly. */
  lemma SafeColorConvertOnGrid(c: real)
    requires OnGrid(c)
    ensures Level(SafeColorConvert(c)) == c
  {
    OnGridLevel(c);
    SafeColorConvertLevel((c * 255.0).Floor);
  }

  /** Any channel in [0, 1] comes back from conversion within half a step, 1/510. */
  lemma SafeColorConvertError(c: real)
    requires InUnitInterval(c)
    ensures -1.0 / 510.0 <= Level(SafeColorConvert(c)) - c <= 1.0 / 510.0
  {}

  /** The member initialisers of the writer's `BmpHeader`. */
  const DefaultHeader: BmpHeader := BmpHeader(
    Signature, 0, 0, 0, HeaderSize, InfoHeaderSize, 0, 0,
    1, BitsPerPixel, CompressionNone, 0, PixelsPerMeter, PixelsPerMeter, 0, 0)

  /** The pixel array size: `height` padded rows. */
  function ImageSize(width: nat, height: nat): nat { RowSize(width) * height }

  /**
   * The header `Write` emits: the defaults with the dimensions cast to
   * `int32_t` and the file and image sizes cast to `uint32_t`. Dimensions
   * below 2^31 and sizes below 2^32 come through unchanged.
   */
  function WriterHeader(width: nat, height: nat): (h: BmpHeader)
    ensures h.FieldsInRange()
    ensures h.fileType == Signature && h.offset == HeaderSize && h.infoSize == InfoHeaderSize
    ensures h.planes == 1 && h.bpp == BitsPerPixel && h.compression == CompressionNone
    ensures h.xPixelsPerMeter == PixelsPerMeter && h.yPixelsPerMeter == PixelsPerMeter
    ensures h.reserved1 == 0 && h.reserved2 == 0 && h.colorsUsed == 0 && h.colorsImportant == 0
    ensures width < Two31 ==> h.width == width
    ensures height < Two31 ==> h.height == height
    ensures HeaderSize + ImageSize(width, height) < Two32 ==>
      h.size == HeaderSize + ImageSize(width, height) && h.imageSize == ImageSize(width, height)
  {
    var imageSize := ImageSize(width, height);
    var fileSize := HeaderSize + imageSize;
    DefaultHeader.(
      width := ToSigned32(ToUnsigned32(width)),
      height := ToSigned32(ToUnsigned32(height)),
      size := ToUnsigned32(fileSize),
      imageSize := ToUnsigned32(imageSize))
  }

  /** The three bytes of a pixel in file order: blue, green, red. */
  function PixelTriple(p: Pixel): (s: seq<Byte>)
    ensures |s| == BytesPerPixel
  {
    [SafeColorConvert(p.b), SafeColorConvert(p.g), SafeColorConvert(p.r)]
  }

  /** The bytes of the first n pixels of image row t, three per pixel. */
  function PixelBytes(src: Raster, t: nat, n: nat): (s: seq<Byte>)
    requires src.WellShaped() && t < src.height && n <= src.width
    ensures |s| == BytesPerPixel * n
  {
    if n == 0 then [] else PixelBytes(src, t, n - 1) + PixelTriple(src.At(n - 1, t))
  }

  /** Byte 3x + c of the pixel bytes is byte c of pixel x's triple. */
  lemma {:induction false} PixelBytesAt(src: Raster, t: nat, n: nat, x: nat, c: nat)
    requires src.WellShaped() && t < src.height && n <= src.width && x < n && c < BytesPerPixel
    ensures PixelBytes(src, t, n)[BytesPerPixel * x + c] == PixelTriple(src.At(x, t))[c]
  {
    if x < n - 1 {
      PixelBytesAt(src, t, n - 1, x, c);
    }
  }

  /** The stored bytes of image row t: three bytes per pixel, then zero padding to RowSize(width). */
  function EncodeRow(src: Raster, t: nat): (row: seq<Byte>)
    requires src.WellShaped() && t < src.height
    ensures |row| == RowSize(src.width)
  {
    PixelBytes(src, t, src.width) + seq(RowSize(src.width) - BytesPerPixel * src.width, _ => 0)
  }

  /** Byte 3x + c of an encoded row is byte c of pixel x's triple. */
  lemma EncodeRowAt(src: Raster, t: nat, x: nat, c: nat)
    requires src.WellShaped() && t < src.height && x < src.width && c < BytesPerPixel
    ensures BytesPerPixel * x + c < RowSize(src.width)
    ensures EncodeRow(src, t)[BytesPerPixel * x + c] == PixelTriple(src.At(x, t))[c]
  {
    PixelBytesAt(src, t, src.width, x, c);
  }

  /** The padding of an encoded row is zero. */
  lemma EncodeRowPadding(src: Raster, t: nat, j: nat)
    requires src.WellShaped() && t < src.height && BytesPerPixel * src.width <= j < RowSize(src.width)
    ensures EncodeRow(src, t)[j] == 0
  {}

  /** The first n stored rows: file row y holds image row height - 1 - y (bottom-up). */
  function EncodeRows(src: Raster, n: nat): seq<Byte>
    requires src.WellShaped() && n <= src.height
  {
    if n == 0 then []
    else EncodeRows(src, n - 1) + EncodeRow(src, src.height - n)
  }

  /** n stored rows take n strides. */
  lemma {:induction false} EncodeRowsLength(src: Raster, n: nat)
    requires src.WellShaped() && n <= src.height
    ensures |EncodeRows(src, n)| == n * RowSize(src.width)
  {
    if n > 0 {
      EncodeRowsLength(src, n - 1);
      var rs := RowSize(src.width);
      assert |EncodeRow(src, src.height - n)| == rs;
      assert (n - 1) * rs + rs == n * rs;
    }
  }

  /** Appending the encoding of image row height - 1 - y to the first y stored rows gives y + 1 of them. */
  lemma AppendRow(src: Raster, written: seq<Byte>, out: seq<Byte>, y: nat, row: seq<Byte>)
    requires src.WellShaped() && y < src.height
    requires out == written + EncodeRows(src, y) && row == EncodeRow(src, src.height - 1 - y)
    ensures out + row == written + EncodeRows(src, y + 1)
  {
    assert EncodeRows(src, y + 1) == EncodeRows(src, y) + row;
  }

  /** Byte j of file row y of the stored rows is byte j of the encoding of image row height - 1 - y. */
  lemma {:induction false} EncodeRowsAt(src: Raster, n: nat, y: nat, j: nat)
    requires src.WellShaped() && n <= src.height && y < n && j < RowSize(src.width)
    ensures y * RowSize(src.width) + j < |EncodeRows(src, n)|
    ensures EncodeRows(src, n)[y * RowSize(src.width) + j] == EncodeRow(src, src.height - 1 - y)[j]
  {
    var rs := RowSize(src.width);
    if y == n - 1 {
      EncodeRowsLength(src, n - 1);
    } else {
      MulMonotone(y + 1, n - 1, rs);
      EncodeRowsAt(src, n - 1, y, j);
    }
  }

  /**
   * The bytes `Write` sends to the file: a zero dimension is rejected before
   * anything is produced; otherwise the header, then every row.
   */
  function Encode(src: Raster): (r: Result<seq<Byte>>)
    requires src.WellShaped()
    ensures r.Err? <==> src.width == 0 || src.height == 0
    ensures r.Err? ==> r.error == ZeroDimensions
    ensures r.Ok? ==> r.value == EncodedBytes(src)
  {
    if src.width == 0 || src.height == 0 then Err(ZeroDimensions)
    else Ok(EncodedBytes(src))
  }

  /** The header followed by every stored row. */
  function EncodedBytes(src: Raster): seq<Byte>
    requires src.WellShaped()
  {
    SerializeHeader(WriterHeader(src.width, src.height)) + EncodeRows(src, src.height)
  }

  /** The output is the 54-byte header and `height` rows of RowSize(width) bytes. */
  lemma EncodedLength(src: Raster)
    requires src.WellShaped()
    ensures |EncodedBytes(src)| == HeaderSize + src.height * RowSize(src.width)
  {
    EncodeRowsLength(src, src.height);
  }

  /** The header at the front of the output is the writer's header, field for field. */
  lemma EncodedHeader(src: Raster)
    requires src.WellShaped()
    ensures ParseHeader(EncodedBytes(src)) == WriterHeader(src.width, src.height)
  {
    HeaderRoundTrip(WriterHeader(src.width, src.height), EncodeRows(src, src.height));
  }

  /** The size field of the header is the length of the whole output whenever that fits in 32 bits. */
  lemma EncodedSizeField(src: Raster)
    requires src.WellShaped() && |EncodedBytes(src)| < Two32
    ensures U32At(EncodedBytes(src), 2) == |EncodedBytes(src)|
  {
    EncodedHeader(src);
    EncodedLength(src);
  }

  /** Where file row y starts in the output: after the header and y rows of RowSize(width) bytes. */
  function RowOffset(src: Raster, y: nat): nat {
    HeaderSize + y * RowSize(src.width)
  }

  /** After the 54 header bytes come the stored rows. */
  lemma EncodedBody(src: Raster, k: nat)
    requires src.WellShaped() && k < |EncodeRows(src, src.height)|
    ensures HeaderSize + k < |EncodedBytes(src)|
    ensures EncodedBytes(src)[HeaderSize + k] == EncodeRows(src, src.height)[k]
  {
    var header := SerializeHeader(WriterHeader(src.width, src.height));
    var rows := EncodeRows(src, src.height);
    assert EncodedBytes(src) == header + rows;
    assert (header + rows)[|header| + k] == rows[k];
  }

  /** Byte j of file row y of the output is byte j of the encoding of image row height - 1 - y. */
  lemma EncodedRowByte(src: Raster, y: nat, j: nat)
    requires src.WellShaped() && y < src.height && j < RowSize(src.width)
    ensures && RowOffset(src, y) + j < |EncodedBytes(src)|
            && EncodedBytes(src)[RowOffset(src, y) + j] == EncodeRow(src, src.height - 1 - y)[j]
  {
    EncodeRowsAt(src, src.height, y, j);
    var k := y * RowSize(src.width) + j;
    assert k < |EncodeRows(src, src.height)|;
    EncodedBody(src, k);
    assert RowOffset(src, y) + j == HeaderSize + k;
  }

  /**
   * Pixel x of file row y is stored as B, G, R at bytes RowOffset(y) + 3x
   * onwards and carries image pixel (x, height - 1 - y).
   */
  lemma EncodedPixel(src: Raster, y: nat, x: nat, c: nat)
    requires src.WellShaped()
    requires y < src.height && x < src.width && c < BytesPerPixel
    ensures && RowOffset(src, y) + BytesPerPixel * x + c < |EncodedBytes(src)|
            && EncodedBytes(src)[RowOffset(src, y) + BytesPerPixel * x + c]
                 == PixelTriple(src.At(x, src.height - 1 - y))[c]
  {
    EncodeRowAt(src, src.height - 1 - y, x, c);
    EncodedRowByte(src, y, BytesPerPixel * x + c);
  }

  /** The padding bytes after the pixels of every row are zero. */
  lemma EncodedPadding(src: Raster, y: nat, j: nat)
    requires src.WellShaped()
    requires y < src.height && BytesPerPixel * src.width <= j < RowSize(src.width)
    ensures && RowOffset(src, y) + j < |EncodedBytes(src)|
            && EncodedBytes(src)[RowOffset(src, y) + j] == 0
  {
    EncodedRowByte(src, y, j);
    EncodeRowPadding(src, src.height - 1 - y, j);
  }

  /**
   * The row loop of `Write`: the rows go out bottom-up, each through the
   * same buffer of RowSize(width) bytes, whose padding stays zero because
   * only the pixel bytes are ever overwritten.
   */
  method WriteRows(image: Image, written: seq<Byte>) returns (out: seq<Byte>)
    requires image.View().WellShaped() && image.width > 0
    ensures out == written + EncodeRows(image.View(), image.height)
  {
    ghost var src := image.View();
    var width := image.width;
    var height := image.height;
    var rowSize := RowSize(width);
    var row := new Byte[rowSize](_ => 0);
    out := written;
    var y := 0;
    while y < height
      invariant 0 <= y <= height
      invariant out == written + EncodeRows(src, y)
      invariant forall j :: BytesPerPixel * width <= j < rowSize ==> row[j] == 0
    {
      var targetY := height - 1 - y;
      FillRow(image, row, targetY);
      var bytes := row[..];
      AppendRow(src, written, out, y, bytes);
      out := out + bytes;
      y := y + 1;
    }
  }

  /**
   * `Write`: check the dimensions, fill in the header, then for each file
   * row y refill the reused row buffer (zero-initialised once, so its
   * padding stays zero) from image row height - 1 - y and append it.
   * The image is only read; the model requires the buffer to match the
   * dimensions but not that they are positive, so the zero check is live.
   */
  method Write(image: Image) returns (r: Result<seq<Byte>>)
    requires image.View().WellShaped()
    ensures r == Encode(image.View())
  {
    ghost var src := image.View();
    var width := image.width;
    var height := image.height;
    if width == 0 || height == 0 {
      return Err(ZeroDimensions);
    }
    var header := WriterHeader(width, height);
    var out := SerializeHeader(header);
    out := WriteRows(image, out);
    return Ok(out);
  }

  /**
   * The pixel loop of `Write`: pixel x of image row t goes to bytes 3x, 3x + 1,
   * 3x + 2 of the row buffer as B, G, R. The padding is not touched, so it
   * keeps the zeros the buffer was created with.
   */
  method FillRow(image: Image, row: array<Byte>, t: nat)
    requires image.Valid() && t < image.height && row.Length == RowSize(image.width)
    requires forall j :: BytesPerPixel * image.width <= j < row.Length ==> row[j] == 0
    modifies row
    ensures row[..] == EncodeRow(image.View(), t)
    ensures forall j :: BytesPerPixel * image.width <= j < row.Length ==> row[j] == 0
  {
    ghost var src := image.View();
    var width := image.width;
    ghost var padding := row[BytesPerPixel * width..];
    var x := 0;
    while x < width
      invariant 0 <= x <= width
      invariant row[..BytesPerPixel * x] == PixelBytes(src, t, x)
      invariant row[BytesPerPixel * width..] == padding
    {
      var p := image.GetPixel(x, t).value;
      var offset := x * BytesPerPixel;
      row[offset + 0] := SafeColorConvert(p.b);
      row[offset + 1] := SafeColorConvert(p.g);
      row[offset + 2] := SafeColorConvert(p.r);
      assert row[..BytesPerPixel * (x + 1)] == row[..BytesPerPixel * x] + PixelTriple(p);
      x := x + 1;
    }
    assert row[..] == row[..BytesPerPixel * width] + row[BytesPerPixel * width..];
  }
}
