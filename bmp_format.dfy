/**
 * The on-disk layout shared by the BMP reader and writer: the packed 54-byte
 * header (a 14-byte BITMAPFILEHEADER followed by a 40-byte BITMAPINFOHEADER),
 * its little-endian fields at fixed offsets, and the 4-byte-aligned row size.
 */
module BmpFormat {

  /** One octet of the file. */
  type Byte = b: int | 0 <= b < 256

  const HeaderSize: nat := 54
  const Signature: nat := 0x4D42  // "BM" read as a little-endian 16-bit value
  const BitsPerPixel: nat := 24
  const CompressionNone: nat := 0
  const BytesPerPixel: nat := 3
  const PaddingAlignment: nat := 4
  const InfoHeaderSize: nat := 40
  const PixelsPerMeter: nat := 2835

  const Two16: int := 0x1_0000
  const Two31: int := 0x8000_0000
  const Two32: int := 0x1_0000_0000

  // ---------------------------------------------------------------------
  // Little-endian fields

  /** The 16-bit little-endian value stored at bytes o, o + 1. */
  function U16At(s: seq<Byte>, o: nat): nat
    requires o + 2 <= |s|
  {
    s[o] as int + 256 * s[o + 1] as int
  }

  /** The 32-bit little-endian value stored at bytes o .. o + 3. */
  function U32At(s: seq<Byte>, o: nat): nat
    requires o + 4 <= |s|
  {
    U16At(s, o) + Two16 * U16At(s, o + 2)
  }

  /** An `int32_t` read from the bit pattern of a `uint32_t` (two's complement). */
  function ToSigned32(u: int): (v: int)
    requires 0 <= u < Two32
    ensures -Two31 <= v < Two31
    ensures v % Two32 == u
  {
    if u < Two31 then u else u - Two32
  }

  /** The `uint32_t` bit pattern of an integer: its value modulo 2^32. */
  function ToUnsigned32(v: int): (u: nat)
    ensures u < Two32
    ensures 0 <= v < Two32 ==> u == v
    ensures -Two31 <= v < Two31 ==> ToSigned32(u) == v
  {
    v % Two32
  }

  /** The two bytes of a 16-bit field, low byte first; reading them back gives the value. */
  function LE16(v: int): (s: seq<Byte>)
    ensures |s| == 2
    ensures 0 <= v < Two16 ==> U16At(s, 0) == v
  {
    [v % 256, (v / 256) % 256]
  }

  /** The four bytes of a 32-bit field, low byte first; reading them back gives the value. */
  function LE32(v: int): (s: seq<Byte>)
    ensures |s| == 4
    ensures 0 <= v < Two32 ==> U32At(s, 0) == v
  {
    var s := LE16(v) + LE16(v / Two16);
    assert U16At(s, 0) == U16At(LE16(v), 0);
    assert U16At(s, 2) == U16At(LE16(v / Two16), 0);
    s
  }

  // ---------------------------------------------------------------------
  // The packed header

  /**
   * The 16 fields of the packed header in file order. `width` and `height`
   * are the signed `int32_t` fields; all others are unsigned.
   */
  datatype BmpHeader = BmpHeader(
    fileType: int,
    size: int,
    reserved1: int,
    reserved2: int,
    offset: int,
    infoSize: int,
    width: int,
    height: int,
    planes: int,
    bpp: int,
    compression: int,
    imageSize: int,
    xPixelsPerMeter: int,
    yPixelsPerMeter: int,
    colorsUsed: int,
    colorsImportant: int)
  {
    /** Every field fits its C++ type. */
    predicate FieldsInRange() {
      && 0 <= fileType < Two16 && 0 <= size < Two32
      && 0 <= reserved1 < Two16 && 0 <= reserved2 < Two16
      && 0 <= offset < Two32 && 0 <= infoSize < Two32
      && -Two31 <= width < Two31 && -Two31 <= height < Two31
      && 0 <= planes < Two16 && 0 <= bpp < Two16
      && 0 <= compression < Two32 && 0 <= imageSize < Two32
      && -Two31 <= xPixelsPerMeter < Two31 && -Two31 <= yPixelsPerMeter < Two31
      && 0 <= colorsUsed < Two32 && 0 <= colorsImportant < Two32
    }
  }

  /** The header as the packed struct reads it from the first 54 bytes, little-endian. */
  function ParseHeader(s: seq<Byte>): (h: BmpHeader)
    requires |s| >= HeaderSize
    ensures h.FieldsInRange()
    ensures h.fileType == s[0] as int + 256 * s[1] as int
  {
    BmpHeader(
      U16At(s, 0), U32At(s, 2), U16At(s, 6), U16At(s, 8), U32At(s, 10), U32At(s, 14),
      ToSigned32(U32At(s, 18)), ToSigned32(U32At(s, 22)),
      U16At(s, 26), U16At(s, 28), U32At(s, 30), U32At(s, 34),
      ToSigned32(U32At(s, 38)), ToSigned32(U32At(s, 42)),
      U32At(s, 46), U32At(s, 50))
  }

  /**
   * Byte i of the packed struct in memory on a little-endian host: the
   * fields follow each other in declaration order with no padding, each
   * stored low byte first.
   */
  function HeaderByte(h: BmpHeader, i: nat): Byte
    requires i < HeaderSize
  {
    if i < 2 then LE16(h.fileType)[i]
    else if i < 6 then LE32(h.size)[i - 2]
    else if i < 8 then LE16(h.reserved1)[i - 6]
    else if i < 10 then LE16(h.reserved2)[i - 8]
    else if i < 14 then LE32(h.offset)[i - 10]
    else if i < 18 then LE32(h.infoSize)[i - 14]
    else if i < 22 then LE32(ToUnsigned32(h.width))[i - 18]
    else if i < 26 then LE32(ToUnsigned32(h.height))[i - 22]
    else if i < 28 then LE16(h.planes)[i - 26]
    else if i < 30 then LE16(h.bpp)[i - 28]
    else if i < 34 then LE32(h.compression)[i - 30]
    else if i < 38 then LE32(h.imageSize)[i - 34]
    else if i < 42 then LE32(ToUnsigned32(h.xPixelsPerMeter))[i - 38]
    else if i < 46 then LE32(ToUnsigned32(h.yPixelsPerMeter))[i - 42]
    else if i < 50 then LE32(h.colorsUsed)[i - 46]
    else LE32(h.colorsImportant)[i - 50]
  }

  /** The 54 bytes the packed struct occupies, as the writer sends them to the file in one write. */
  function SerializeHeader(h: BmpHeader): (s: seq<Byte>)
    ensures |s| == HeaderSize
  {
    seq(HeaderSize, i requires 0 <= i < HeaderSize => HeaderByte(h, i))
  }

  /** A 16-bit field whose two bytes sit at offset o reads back as its value. */
  lemma Field16(s: seq<Byte>, o: nat, v: int)
    requires 0 <= v < Two16 && o + 2 <= |s|
    requires s[o] == LE16(v)[0] && s[o + 1] == LE16(v)[1]
    ensures U16At(s, o) == v
  {
    assert U16At(s, o) == U16At(LE16(v), 0);
  }

  /** A 32-bit field whose four bytes sit at offset o reads back as its value. */
  lemma Field32(s: seq<Byte>, o: nat, v: int)
    requires 0 <= v < Two32 && o + 4 <= |s|
    requires s[o] == LE32(v)[0] && s[o + 1] == LE32(v)[1] && s[o + 2] == LE32(v)[2] && s[o + 3] == LE32(v)[3]
    ensures U32At(s, o) == v
  {
    assert U32At(s, o) == U32At(LE32(v), 0);
  }

  /**
   * Writing a header and reading it back gives the same header, whatever
   * follows it in the file: every field lands at the offset it is read from.
   */
  lemma {:induction false} HeaderRoundTrip(h: BmpHeader, rest: seq<Byte>)
    requires h.FieldsInRange()
    ensures ParseHeader(SerializeHeader(h) + rest) == h
  {
    var header := SerializeHeader(h);
    var s := header + rest;
    var p := ParseHeader(s);
    assert p.fileType == h.fileType by { Field16(s, 0, h.fileType); }
    assert p.size == h.size by { Field32(s, 2, h.size); }
    assert p.reserved1 == h.reserved1 by { Field16(s, 6, h.reserved1); }
    assert p.reserved2 == h.reserved2 by { Field16(s, 8, h.reserved2); }
    assert p.offset == h.offset by { Field32(s, 10, h.offset); }
    assert p.infoSize == h.infoSize by { Field32(s, 14, h.infoSize); }
    assert p.width == h.width by { Field32(s, 18, ToUnsigned32(h.width)); }
    assert p.height == h.height by { Field32(s, 22, ToUnsigned32(h.height)); }
    assert p.planes == h.planes by { Field16(s, 26, h.planes); }
    assert p.bpp == h.bpp by { Field16(s, 28, h.bpp); }
    assert p.compression == h.compression by { Field32(s, 30, h.compression); }
    assert p.imageSize == h.imageSize by { Field32(s, 34, h.imageSize); }
    assert p.xPixelsPerMeter == h.xPixelsPerMeter by { Field32(s, 38, ToUnsigned32(h.xPixelsPerMeter)); }
    assert p.yPixelsPerMeter == h.yPixelsPerMeter by { Field32(s, 42, ToUnsigned32(h.yPixelsPerMeter)); }
    assert p.colorsUsed == h.colorsUsed by { Field32(s, 46, h.colorsUsed); }
    assert p.colorsImportant == h.colorsImportant by { Field32(s, 50, h.colorsImportant); }
  }

  // ---------------------------------------------------------------------
  // Rows

  /**
   * The bytes of one stored row: three per pixel plus 3, with the two low
   * bits masked off, which rounds the pixel bytes up to the next multiple
   * of 4. Clearing the two low bits is subtracting the remainder modulo 4.
   */
  function RowSize(width: nat): (rs: nat)
    ensures rs % PaddingAlignment == 0
    ensures BytesPerPixel * width <= rs < BytesPerPixel * width + PaddingAlignment
  {
    var n := width * BytesPerPixel + PaddingAlignment - 1;
    n - n % PaddingAlignment
  }
}
