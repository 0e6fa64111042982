/**
 * `BMPReader` of src/reader/bmp_reader.cpp on the whole file held in memory:
 * header validation, the stride and row order, the B,G,R decoding of every
 * pixel, and `GetImage`.
 */
module BmpReader {
  import opened Errors
  import opened Images
  import opened Channels
  import opened BmpFormat

  /** `std::abs` on a header dimension. */
  function Abs(v: int): nat {
    if v < 0 then -v else v
  }

  /** Where the pixel rows are and how they are laid out, once the header is accepted. */
  datatype Layout = Layout(width: nat, height: nat, topDown: bool, offset: nat, rowSize: nat)
  {
    /** The file holds every row: offset + height * rowSize bytes at least. */
    predicate FitsIn(fileSize: nat) {
      offset + height * rowSize <= fileSize
    }
  }

  /**
   * The checks of the reader's constructor, in the order it makes them.
   * Each error is stated on the raw bytes where that is how the format
   * defines it (the signature is the two bytes "BM").
   */
  function Validate(bytes: seq<Byte>): (r: Result<Layout>)
    ensures r == Err(FileTooSmall) <==> |bytes| < HeaderSize
    ensures r == Err(InvalidSignature) <==> |bytes| >= HeaderSize && !(bytes[0] == 0x42 && bytes[1] == 0x4D)
    ensures r == Err(UnsupportedFormat) <==>
      && |bytes| >= HeaderSize && bytes[0] == 0x42 && bytes[1] == 0x4D
      && (ParseHeader(bytes).bpp != BitsPerPixel || ParseHeader(bytes).compression != CompressionNone)
    ensures r.Err? ==> r.error in {FileTooSmall, InvalidSignature, UnsupportedFormat, InvalidDataOffset, Truncated}
    ensures r.Ok? ==>
      var h := ParseHeader(bytes);
      && h.fileType == Signature && h.bpp == BitsPerPixel && h.compression == CompressionNone
      && r.value.offset == h.offset <= |bytes|
      && r.value.width == Abs(h.width) && r.value.height == Abs(h.height)
      && (r.value.topDown <==> h.height < 0)
      && r.value.rowSize == RowSize(r.value.width) && BytesPerPixel * r.value.width <= r.value.rowSize
      && r.value.FitsIn(|bytes|)
  {
    if |bytes| < HeaderSize then Err(FileTooSmall)
    else
      var h := ParseHeader(bytes);
      if h.fileType != Signature then Err(InvalidSignature)
      else if h.bpp != BitsPerPixel || h.compression != CompressionNone then Err(UnsupportedFormat)
      else if h.offset > |bytes| then Err(InvalidDataOffset)
      else
        var width, height := Abs(h.width), Abs(h.height);
        var layout := Layout(width, height, h.height < 0, h.offset, RowSize(width));
        if !layout.FitsIn(|bytes|) then Err(Truncated) else Ok(layout)
  }

  /** Once the header passes, the offset and truncation checks fail exactly as the constructor's do. */
  lemma ValidateOffsetAndSize(bytes: seq<Byte>)
    requires |bytes| >= HeaderSize
    requires ParseHeader(bytes).fileType == Signature
    requires ParseHeader(bytes).bpp == BitsPerPixel && ParseHeader(bytes).compression == CompressionNone
    ensures var h := ParseHeader(bytes);
      Validate(bytes) == Err(InvalidDataOffset) <==> h.offset > |bytes|
    ensures var h := ParseHeader(bytes);
      Validate(bytes) == Err(Truncated) <==>
        h.offset <= |bytes| < h.offset + Abs(h.height) * RowSize(Abs(h.width))
  {}

  /**
   * The image row that file row y fills: y itself when the file is stored
   * top-down, height - 1 - y when it is stored bottom-up.
   */
  function TargetRow(y: nat, height: nat, topDown: bool): (t: nat)
    requires y < height
    ensures t < height
  {
    if topDown then y else height - 1 - y
  }

  /**
   * The row mapping is its own inverse, so it is a bijection on [0, height):
   * every image row is filled by exactly one file row.
   */
  lemma TargetRowInvolution(y: nat, height: nat, topDown: bool)
    requires y < height
    ensures TargetRow(TargetRow(y, height, topDown), height, topDown) == y
    ensures forall y': nat :: y' < height && TargetRow(y', height, topDown) == TargetRow(y, height, topDown) ==> y' == y
  {}

  /** The offset of file row y: rows follow the pixel-data offset back to back. */
  function RowStart(layout: Layout, y: nat): nat {
    layout.offset + y * layout.rowSize
  }

  /** Every file row of an accepted layout lies inside the file. */
  lemma RowInFile(layout: Layout, fileSize: nat, y: nat)
    requires layout.FitsIn(fileSize) && y < layout.height
    ensures RowStart(layout, y) + layout.rowSize <= fileSize
  {
    MulMonotone(y + 1, layout.height, layout.rowSize);
  }

  /** Pixel x of the row starting at `start`: R, G and B are bytes 3x + 2, 3x + 1 and 3x, each over 255. */
  function DecodePixel(bytes: seq<Byte>, start: nat, x: nat): Pixel
    requires start + BytesPerPixel * x + BytesPerPixel <= |bytes|
  {
    var o := start + BytesPerPixel * x;
    Pixel(Level(bytes[o + 2]), Level(bytes[o + 1]), Level(bytes[o]))
  }

  /** A decoded pixel is on the 1/255 grid: 8-bit samples decode exactly. */
  lemma DecodePixelOnGrid(bytes: seq<Byte>, start: nat, x: nat)
    requires start + BytesPerPixel * x + BytesPerPixel <= |bytes|
    ensures PixelOnGrid(DecodePixel(bytes, start, x))
  {
    var o := start + BytesPerPixel * x;
    OnGridLevel(Level(bytes[o]));
    OnGridLevel(Level(bytes[o + 1]));
    OnGridLevel(Level(bytes[o + 2]));
  }

  /** The pixels of the row starting at `start`; the padding after byte 3 * width is not read. */
  function RowPixels(bytes: seq<Byte>, start: nat, width: nat): (row: seq<Pixel>)
    requires start + BytesPerPixel * width <= |bytes|
    ensures |row| == width
  {
    seq(width, x requires 0 <= x < width => DecodePixel(bytes, start, x))
  }

  /** Image row t is decoded from file row TargetRow(t), which the involution makes the file row mapped to t. */
  function Rows(bytes: seq<Byte>, layout: Layout): (rows: seq<seq<Pixel>>)
    requires layout.FitsIn(|bytes|) && BytesPerPixel * layout.width <= layout.rowSize
    ensures |rows| == layout.height
    ensures forall t :: 0 <= t < layout.height ==> |rows[t]| == layout.width
  {
    seq(layout.height, t requires 0 <= t < layout.height =>
      RowInFile(layout, |bytes|, TargetRow(t, layout.height, layout.topDown));
      RowPixels(bytes, RowStart(layout, TargetRow(t, layout.height, layout.topDown)), layout.width))
  }

  /** File row y lands in image row TargetRow(y), pixel x coming from bytes 3x .. 3x + 2 of that row. */
  lemma RowsAt(bytes: seq<Byte>, layout: Layout, y: nat, x: nat)
    requires layout.FitsIn(|bytes|) && BytesPerPixel * layout.width <= layout.rowSize
    requires y < layout.height && x < layout.width
    ensures RowStart(layout, y) + BytesPerPixel * x + BytesPerPixel <= |bytes|
    ensures Rows(bytes, layout)[TargetRow(y, layout.height, layout.topDown)][x] == DecodePixel(bytes, RowStart(layout, y), x)
  {
    RowInFile(layout, |bytes|, y);
    TargetRowInvolution(y, layout.height, layout.topDown);
  }

  /** What the constructor leaves in `width_`, `height_` and `data_`. */
  datatype Decoded = Decoded(width: nat, height: nat, rows: seq<seq<Pixel>>)

  /**
   * The reader's result on the whole file: the first failed check, or the
   * dimensions and `height` rows of `width` pixels each.
   */
  function Decode(bytes: seq<Byte>): (r: Result<Decoded>)
    ensures Validate(bytes).Err? <==> r.Err?
    ensures r.Err? ==> r.error == Validate(bytes).error
    ensures r.Ok? ==>
      var layout := Validate(bytes).value;
      && r.value.width == layout.width && r.value.height == layout.height
      && |r.value.rows| == layout.height
      && (forall t :: 0 <= t < layout.height ==> |r.value.rows[t]| == layout.width)
  {
    var v := Validate(bytes);
    if v.Err? then Err(v.error)
    else Ok(Decoded(v.value.width, v.value.height, Rows(bytes, v.value)))
  }

  /**
   * The pixel content of an accepted file: file row y, starting at
   * offset + y * rowSize, becomes image row y (top-down) or height - 1 - y
   * (bottom-up), and its pixel x is the B,G,R triple at bytes 3x .. 3x + 2.
   */
  lemma DecodeAt(bytes: seq<Byte>, y: nat, x: nat)
    requires Decode(bytes).Ok?
    requires y < Decode(bytes).value.height && x < Decode(bytes).value.width
    ensures var layout := Validate(bytes).value;
      && RowStart(layout, y) + BytesPerPixel * x + BytesPerPixel <= |bytes|
      && Decode(bytes).value.rows[TargetRow(y, layout.height, layout.topDown)][x]
           == DecodePixel(bytes, RowStart(layout, y), x)
  {
    RowsAt(bytes, Validate(bytes).value, y, x);
  }

  /** Every decoded pixel is on the 1/255 grid: decoding never produces a value 8 bits cannot hold. */
  lemma DecodedOnGrid(bytes: seq<Byte>, t: nat, x: nat)
    requires Decode(bytes).Ok?
    requires t < Decode(bytes).value.height && x < Decode(bytes).value.width
    ensures PixelOnGrid(Decode(bytes).value.rows[t][x])
  {
    var layout := Validate(bytes).value;
    var y := TargetRow(t, layout.height, layout.topDown);
    TargetRowInvolution(t, layout.height, layout.topDown);
    DecodeAt(bytes, y, x);
    DecodePixelOnGrid(bytes, RowStart(layout, y), x);
  }

  /**
   * The constructor: validate the header, then take file row after file
   * row (the bytes its reused `row` buffer holds after each read) and fill
   * image row TargetRow(y), pixel by pixel, from its B,G,R bytes.
   */
  method Read(bytes: seq<Byte>) returns (r: Result<Decoded>)
    ensures r == Decode(bytes)
  {
    if |bytes| < HeaderSize {
      return Err(FileTooSmall);
    }
    var header := ParseHeader(bytes);
    if header.fileType != Signature {
      return Err(InvalidSignature);
    }
    if header.bpp != BitsPerPixel || header.compression != CompressionNone {
      return Err(UnsupportedFormat);
    }
    if header.offset > |bytes| {
      return Err(InvalidDataOffset);
    }
    var width := Abs(header.width);
    var height := Abs(header.height);
    var topDown := header.height < 0;
    var rowSize := RowSize(width);
    var required: int := header.offset + height * rowSize;
    if |bytes| < required {
      return Err(Truncated);
    }
    var layout := Layout(width, height, topDown, header.offset, rowSize);
    assert Validate(bytes) == Ok(layout);
    var data := ReadRows(bytes, layout);
    return Ok(Decoded(width, height, data));
  }

  /** Decoding the slice of the file taken from `start` is decoding the file in place at `start`. */
  lemma RowPixelsOfSlice(bytes: seq<Byte>, start: nat, rowSize: nat, width: nat)
    requires start + rowSize <= |bytes| && BytesPerPixel * width <= rowSize
    ensures RowPixels(bytes[start..start + rowSize], 0, width) == RowPixels(bytes, start, width)
  {
    var row := bytes[start..start + rowSize];
    forall x | 0 <= x < width
      ensures DecodePixel(row, 0, x) == DecodePixel(bytes, start, x)
    {
      var o := BytesPerPixel * x;
      assert row[o] == bytes[start + o] && row[o + 1] == bytes[start + o + 1] && row[o + 2] == bytes[start + o + 2];
    }
  }

  /**
   * The pixel loop of the constructor: the image row is resized to `width`
   * default pixels, then pixel x is set from bytes 3x + 2, 3x + 1, 3x of the
   * row buffer.
   */
  method DecodeRow(row: seq<Byte>, width: nat) returns (line: seq<Pixel>)
    requires BytesPerPixel * width <= |row|
    ensures line == RowPixels(row, 0, width)
  {
    line := seq(width, _ => Black);
    var x := 0;
    while x < width
      invariant 0 <= x <= width && |line| == width
      invariant forall x' :: 0 <= x' < x ==> line[x'] == DecodePixel(row, 0, x')
    {
      var offset := x * BytesPerPixel;
      line := line[x := Pixel(Level(row[offset + 2]), Level(row[offset + 1]), Level(row[offset + 0]))];
      x := x + 1;
    }
  }

  /**
   * One pass of the row loop: the bytes of file row y, which are what the
   * reused row buffer holds after the read, are sliced out and their pixels
   * decoded, giving image row TargetRow(y).
   */
  method ReadRow(bytes: seq<Byte>, layout: Layout, y: nat) returns (line: seq<Pixel>)
    requires layout.FitsIn(|bytes|) && BytesPerPixel * layout.width <= layout.rowSize && y < layout.height
    ensures line == Rows(bytes, layout)[TargetRow(y, layout.height, layout.topDown)]
  {
    RowInFile(layout, |bytes|, y);
    var start := layout.offset + y * layout.rowSize;
    var row := bytes[start..start + layout.rowSize];
    line := DecodeRow(row, layout.width);
    RowPixelsOfSlice(bytes, start, layout.rowSize, layout.width);
    TargetRowInvolution(y, layout.height, layout.topDown);
  }

  /**
   * The row loop of the constructor: the bytes of file row y (the contents
   * of the reused `row` buffer after each read) are taken, and image row
   * TargetRow(y) is resized to `width` pixels and filled from its B,G,R bytes.
   */
  method ReadRows(bytes: seq<Byte>, layout: Layout) returns (data: seq<seq<Pixel>>)
    requires layout.FitsIn(|bytes|) && BytesPerPixel * layout.width <= layout.rowSize
    ensures data == Rows(bytes, layout)
  {
    var width, height, topDown, rowSize := layout.width, layout.height, layout.topDown, layout.rowSize;
    ghost var rows := Rows(bytes, layout);
    data := seq(height, _ => []);
    var y := 0;
    while y < height
      invariant 0 <= y <= height && |data| == height
      invariant forall t :: 0 <= t < height ==>
        data[t] == if TargetRow(t, height, topDown) < y then rows[t] else []
    {
      var targetY := if topDown then y else height - 1 - y;
      var line := ReadRow(bytes, layout, y);
      forall t | 0 <= t < height
        ensures TargetRow(t, height, topDown) == y <==> t == targetY
      {
        TargetRowInvolution(t, height, topDown);
      }
      data := data[targetY := line];
      y := y + 1;
    }
  }

  /** The image the decoded rows make: `Image(width_, height_, data_)`, which rejects a zero dimension. */
  function DecodeImage(bytes: seq<Byte>): (r: Result<Raster>)
    ensures Decode(bytes).Err? ==> r == Err(Decode(bytes).error)
    ensures Decode(bytes).Ok? && (Decode(bytes).value.width == 0 || Decode(bytes).value.height == 0) ==>
      r == Err(ZeroDimensions)
    ensures Decode(bytes).Ok? && Decode(bytes).value.width > 0 && Decode(bytes).value.height > 0 ==> r.Ok?
    ensures r.Ok? ==>
      && r.value.Valid()
      && r.value.width == Decode(bytes).value.width && r.value.height == Decode(bytes).value.height
      && forall x: nat, y: nat :: x < r.value.width && y < r.value.height ==>
           r.value.At(x, y) == Decode(bytes).value.rows[y][x]
  {
    var d := Decode(bytes);
    if d.Err? then Err(d.error)
    else OfRows(d.value.width, d.value.height, d.value.rows)
  }

  /** `GetImage`: builds the image from the rows read by the constructor. */
  method GetImage(d: Decoded) returns (r: Result<Image>)
    requires |d.rows| == d.height && forall t :: 0 <= t < d.height ==> |d.rows[t]| == d.width
    ensures OfRows(d.width, d.height, d.rows).Err? ==> r == Err(OfRows(d.width, d.height, d.rows).error)
    ensures OfRows(d.width, d.height, d.rows).Ok? ==>
      r.Ok? && fresh(r.value) && r.value.Valid() && r.value.View() == OfRows(d.width, d.height, d.rows).value
  {
    r := Image.FromRows(d.width, d.height, d.rows);
  }

  /** Reading a file and taking its image: the whole reader. */
  method ReadImage(bytes: seq<Byte>) returns (r: Result<Image>)
    ensures DecodeImage(bytes).Err? ==> r == Err(DecodeImage(bytes).error)
    ensures DecodeImage(bytes).Ok? ==>
      r.Ok? && fresh(r.value) && r.value.Valid() && r.value.View() == DecodeImage(bytes).value
  {
    var d := Read(bytes);
    if d.Err? {
      return Err(d.error);
    }
    r := GetImage(d.value);
  }
}
