# image_processor in Dafny

This project models the core of `image_processor`, a command-line tool. The tool reads a
24-bit uncompressed BMP file, applies a chain of filters to the image in place and writes the
result back as BMP. The model covers these parts and proves properties of them:

- **The `Image` pixel buffer** (`Images`). It is a class with a width, a height and a flat
  row-major buffer. The constructors reject a zero dimension and a mismatched data matrix.
  `GetPixel` and `SetPixel` are bounds-checked. A value view, `Raster`, is what every
  specification is written against.
- **The BMP reader** (`BmpFormat`, `BmpReader`). It checks the packed 54-byte header
  (signature, 24 bpp, no compression, data offset, truncation). It then reads the rows one at a
  time, bottom-up or top-down according to the sign of the height, and decodes every
  B,G,R triple to intensities k / 255.
- **The BMP writer** (`BmpWriter`). It takes the header defaults and adds the dimensions and
  sizes cast to the header's 32-bit fields. It writes the rows bottom-up through one reused,
  zero-padded row buffer. Every channel passes through `SafeColorConvert` (scale, clamp, add
  0.5, truncate).
- **Writer and reader together** (`BmpRoundTrip`). The reader accepts every file the writer
  produces, and reading it back gives the written image with every channel quantised to 8
  bits.
- **The filters**, each proved against a specification function on `Raster`:
  - crop (`Crop`);
  - grayscale (`Grayscale`);
  - negative (`Negative`);
  - sepia (`Sepia`);
  - sharpening (`Sharpen`);
  - edge detection (`EdgeDetection`);
  - the separable Gaussian blur (`GaussianBlur`).

  Sharpening and edge detection share the 3x3 clamp-to-edge window, `Window`.
- **The filter chain** of `image_processor.cpp` (`Pipeline`). The filters are applied in
  order, and the first failure ends the run.

Every loop of the source that updates state is a `method` with a `while` loop and invariants:
- the reader's row and pixel loops;
- the writer's row and pixel loops;
- each filter's y/x scan, and the neighbour loops of the convolutions;
- the blur constructor's summing and normalising loops;
- the filter chain.

Each of these methods has an `ensures` clause that ties its result or new state to a function of
its inputs. Lemmas state the properties of those functions:
- round trips;
- involution;
- idempotence;
- ranges of the output;
- behaviour on images of one colour;
- how crops and filter chains compose.

Floating-point channels are modelled as `real`. Bytes are integers in [0, 256). The header's
fixed-width integers are explicit: 32-bit two's complement for the `int32_t` fields and modulo
2^32 for the `uint32_t` fields.

## Model

| member | source | states |
|---|---|---|
| Images.Image.constructor | src/image.cpp:4-8 | a new image of positive size holds width * height default (black) pixels |
| Images.Image.Create | src/image.cpp:4-8 | construction fails with the zero-dimension error exactly when a dimension is 0, else yields a fresh blank image |
| Images.OfRows | src/image.cpp:10-20 | the data constructor fails on a zero dimension, or on a row count or first-row length that disagrees with the dimensions; otherwise pixel (x, y) is data[y][x] |
| Images.Image.FromRows | src/image.cpp:10-20 | the constructor's copy loop builds exactly `OfRows`, with the same error in each failing case |
| Images.Image.GetWidth | header/image.h:16-18 | the width of a constructed image is positive and is the width of its value |
| Images.Image.GetHeight | header/image.h:19-21 | the height of a constructed image is positive and is the height of its value |
| Images.Image.GetPixel | src/image.cpp:22-27 | out-of-range coordinates, and only those, give the out-of-range error; otherwise the result is pixel (x, y), slot y * width + x |
| Images.Image.SetPixel | src/image.cpp:29-34 | an out-of-range write fails and changes nothing; otherwise only pixel (x, y) changes, and the dimensions never do |
| Images.Image.Copy | header/image.h:11-30 | a copied image holds the same value as the original |
| Images.Image.Assign | src/filters/crop_filter.cpp:19 | copy assignment: the image takes the other image's dimensions and pixels |
| Images.Raster.Set | src/image.cpp:33 | replacing one slot changes pixel (x, y) and no other pixel |
| Images.Extensionality | header/image.h:27-29 | two buffers with the same dimensions that agree at every (x, y) are equal: the row-major layout is a bijection |
| Channels.Clamp | src/filters/grayscale_filter.cpp:23 | `std::clamp`: the result is in [lo, hi], equals v inside the range and the nearer bound outside it |
| Channels.ClampMonotone | src/filters/sepia_filter.cpp:41-43 | clamping preserves the order of two values |
| Channels.ClampIndex | src/filters/sharpening_filter.cpp:20-21 | a clamped neighbour coordinate is always a valid index, and a valid index is kept |
| Channels.LuminanceBounds | src/filters/grayscale_filter.cpp:5-9 | the weights 0.299, 0.587 and 0.114 sum to 1: a normalised pixel has luminance in [0, 1], and a grey pixel has its own level |
| Channels.OnGridLevel | src/reader/bmp_reader.cpp:11 | the channels that 8-bit samples represent exactly are the levels k / 255 for k in 0..255 |
| BmpFormat.ToSigned32 | src/reader/bmp_reader.cpp:25-26 | the `int32_t` reading of a 32-bit pattern is in [-2^31, 2^31) and has that pattern modulo 2^32 |
| BmpFormat.ToUnsigned32 | src/writer/bmp_writer.cpp:69-70 | the `uint32_t` cast is below 2^32, keeps values that fit, and inverts `ToSigned32` on the `int32_t` range |
| BmpFormat.LE16 | src/writer/bmp_writer.cpp:77 | a 16-bit field is written as 2 bytes, low byte first, that read back as the value |
| BmpFormat.LE32 | src/writer/bmp_writer.cpp:77 | a 32-bit field is written as 4 bytes, low byte first, that read back as the value |
| BmpFormat.ParseHeader | src/reader/bmp_reader.cpp:18-35 | the packed header read from the first 54 bytes: every field is within its C++ type, and the type field is the first two bytes little-endian |
| BmpFormat.SerializeHeader | src/writer/bmp_writer.cpp:26-45 | the packed header occupies exactly 54 bytes |
| BmpFormat.Field16 | src/reader/bmp_reader.cpp:19 | a 16-bit field written at offset o reads back from offset o |
| BmpFormat.Field32 | src/reader/bmp_reader.cpp:20 | a 32-bit field written at offset o reads back from offset o |
| BmpFormat.HeaderRoundTrip | src/writer/bmp_writer.cpp:77 | writing a header and parsing the file gives back the same header whatever follows it: every field is read from the offset it was written to |
| BmpFormat.RowSize | src/reader/bmp_reader.cpp:77 | the row stride is a multiple of 4, at least 3 * width and less than 3 * width + 4 |
| BmpReader.Validate | src/reader/bmp_reader.cpp:52-81 | each error occurs exactly under its own check and in the source's order (too small, signature, bpp or compression, offset, truncated); on success the layout has the absolute dimensions, is top-down iff the height is negative, starts at the header offset and fits in the file |
| BmpReader.ValidateOffsetAndSize | src/reader/bmp_reader.cpp:69-81 | past the format checks, the offset error occurs iff the offset exceeds the file size, and the truncation error iff the offset fits but offset + height * stride exceeds the file size |
| BmpReader.TargetRow | src/reader/bmp_reader.cpp:92 | file row y fills image row y (top-down) or height - 1 - y (bottom-up), which is always in range |
| BmpReader.TargetRowInvolution | src/reader/bmp_reader.cpp:92 | the row mapping is its own inverse and injective: every image row is filled by exactly one file row |
| BmpReader.RowInFile | src/reader/bmp_reader.cpp:78-81 | once the truncation check passes, every file row lies wholly inside the file |
| BmpReader.DecodePixelOnGrid | src/reader/bmp_reader.cpp:97-101 | each decoded pixel has channels that are multiples of 1/255 in [0, 1] |
| BmpReader.RowPixels | src/reader/bmp_reader.cpp:93-102 | one decoded row holds exactly width pixels; the padding is not read |
| BmpReader.Rows | src/reader/bmp_reader.cpp:87-103 | the decoded data has height rows of width pixels |
| BmpReader.RowsAt | src/reader/bmp_reader.cpp:95-101 | pixel x of image row TargetRow(y) is the B,G,R triple at bytes 3x .. 3x + 2 of file row y, read as R = byte 3x + 2, G = byte 3x + 1, B = byte 3x |
| BmpReader.Decode | src/reader/bmp_reader.cpp:42-104 | the reader fails exactly when validation fails, with the same error; otherwise it has the header's absolute dimensions and height rows of width pixels |
| BmpReader.DecodeAt | src/reader/bmp_reader.cpp:87-103 | the content of an accepted file: file row y, from offset + y * stride, lands in image row TargetRow(y) |
| BmpReader.DecodedOnGrid | src/reader/bmp_reader.cpp:97-101 | no decoded channel is off the 1/255 grid |
| BmpReader.Read | src/reader/bmp_reader.cpp:42-104 | the constructor's check sequence and row loop compute exactly `Decode` |
| BmpReader.RowPixelsOfSlice | src/reader/bmp_reader.cpp:88-90 | decoding the row's bytes taken from offset `start` (what the reused row buffer holds after the read) is decoding the file at `start` |
| BmpReader.DecodeRow | src/reader/bmp_reader.cpp:93-102 | the pixel loop decodes exactly `RowPixels` of the row buffer |
| BmpReader.ReadRow | src/reader/bmp_reader.cpp:88-102 | taking the bytes of file row y and decoding them yields exactly the image row TargetRow(y) of `Rows` |
| BmpReader.ReadRows | src/reader/bmp_reader.cpp:85-103 | the row loop fills every image row exactly as `Rows` specifies |
| BmpReader.DecodeImage | src/reader/bmp_reader.cpp:106-108 | `GetImage` fails with the reader's error, or with the zero-dimension error exactly when a decoded dimension is 0; otherwise it succeeds, with the decoded dimensions, and its pixel (x, y) is decoded row y, pixel x |
| BmpReader.GetImage | src/reader/bmp_reader.cpp:106-108 | builds a fresh image equal to the data constructor's value, or returns its error |
| BmpReader.ReadImage | src/reader/bmp_reader.cpp:42-108 | reading a file and taking its image yields a fresh image with the value of `DecodeImage`, or its error |
| BmpWriter.SafeColorConvert | src/writer/bmp_writer.cpp:19-23 | the byte is the value scaled by 255 and clamped to [0, 255], rounded to the nearest integer (halves up) |
| BmpWriter.SafeColorConvertLevel | src/writer/bmp_writer.cpp:19-23 | the level k / 255 converts back to exactly k |
| BmpWriter.SafeColorConvertOnGrid | src/writer/bmp_writer.cpp:19-23 | a channel on the 1/255 grid survives conversion and division by 255 unchanged |
| BmpWriter.SafeColorConvertError | src/writer/bmp_writer.cpp:19-23 | a channel in [0, 1] is reproduced within 1/510 |
| BmpWriter.WriterHeader | src/writer/bmp_writer.cpp:26-70 | all fields are in range; the header carries the defaults (signature, offset 54, info size 40, 1 plane, 24 bpp, no compression, 2835 pixels per metre, zero reserved fields and colour counts); the dimensions are exact below 2^31, and the file size 54 + image size and the image size stride * height are exact below 2^32 |
| BmpWriter.PixelBytesAt | src/writer/bmp_writer.cpp:84-90 | byte 3x + c of a row's pixel bytes is byte c of pixel x's B,G,R triple |
| BmpWriter.EncodeRow | src/writer/bmp_writer.cpp:81-90 | an encoded row is exactly one stride long |
| BmpWriter.EncodeRowAt | src/writer/bmp_writer.cpp:86-89 | pixel x is stored as B, G, R at row bytes 3x, 3x + 1, 3x + 2 |
| BmpWriter.EncodeRowPadding | src/writer/bmp_writer.cpp:81 | the padding bytes after the pixels are 0 |
| BmpWriter.EncodeRowsLength | src/writer/bmp_writer.cpp:82-95 | n stored rows occupy n strides of RowSize(width) bytes |
| BmpWriter.AppendRow | src/writer/bmp_writer.cpp:93 | writing the encoding of image row height - 1 - y after the first y stored rows gives the first y + 1 |
| BmpWriter.EncodeRowsAt | src/writer/bmp_writer.cpp:83 | file row y holds image row height - 1 - y: the rows are written bottom-up |
| BmpWriter.Encode | src/writer/bmp_writer.cpp:54-100 | writing fails with the zero-dimension error exactly when a dimension is 0, before any byte is produced; otherwise the output is the header followed by every row |
| BmpWriter.EncodedLength | src/writer/bmp_writer.cpp:62-64 | the output is 54 + height * stride bytes long |
| BmpWriter.EncodedHeader | src/writer/bmp_writer.cpp:66-77 | parsing the first 54 bytes of the output gives the writer's header field for field |
| BmpWriter.EncodedSizeField | src/writer/bmp_writer.cpp:69 | the size field equals the length of the output whenever that length fits in 32 bits |
| BmpWriter.EncodedBody | src/writer/bmp_writer.cpp:77-95 | the rows follow immediately after the 54 header bytes |
| BmpWriter.EncodedRowByte | src/writer/bmp_writer.cpp:82-95 | file row y starts at 54 + y * stride and holds the encoding of image row height - 1 - y |
| BmpWriter.EncodedPixel | src/writer/bmp_writer.cpp:84-90 | byte 54 + y * stride + 3x + c of the output is byte c of the B,G,R triple of pixel (x, height - 1 - y) |
| BmpWriter.EncodedPadding | src/writer/bmp_writer.cpp:81 | every padding byte of the output is 0 |
| BmpWriter.WriteRows | src/writer/bmp_writer.cpp:81-95 | the row loop through one reused zero-initialised buffer appends exactly the stored rows, bottom-up, to the bytes written so far |
| BmpWriter.FillRow | src/writer/bmp_writer.cpp:84-90 | the pixel loop leaves the reused row buffer holding exactly the encoding of image row t, padding included, and keeps the padding bytes zero for the next row |
| BmpWriter.Write | src/writer/bmp_writer.cpp:54-100 | the zero check, the header and the row loop through one reused buffer produce exactly `Encode` of the image |
| BmpRoundTrip.QuantizePixel | src/writer/bmp_writer.cpp:19-23 | a written and re-read pixel is on the 1/255 grid |
| BmpRoundTrip.QuantizePixelProperties | src/writer/bmp_writer.cpp:19-23 | quantising keeps pixels on the grid and moves normalised channels by at most 1/510 |
| BmpRoundTrip.EncodedLayout | src/reader/bmp_reader.cpp:52-81 | every file the writer produces (dimensions below 2^31) passes all the reader's checks: bottom-up, data at offset 54, the writer's stride |
| BmpRoundTrip.StoredPixel | src/writer/bmp_writer.cpp:84-90 | the bytes stored for pixel x of file row y decode to that image pixel, quantised |
| BmpRoundTrip.DecodedPixel | src/reader/bmp_reader.cpp:92-101 | decoded pixel (x, t) of the written file is the quantised pixel (x, t) of the image |
| BmpRoundTrip.DecodeEncoded | src/reader/bmp_reader.cpp:42-108 | reading back a written image gives the image with every channel quantised |
| BmpRoundTrip.DecodeEncodedExact | src/writer/bmp_writer.cpp:19-23 | an image whose channels are all on the 1/255 grid survives writing and reading unchanged |
| BmpRoundTrip.ResaveStable | src/reader/bmp_reader.cpp:97-101 | re-saving an image read from a file and reading it again gives the same image |
| Crop.Crop | src/filters/crop_filter.cpp:9-20 | a crop fails (`Image` rejects the size) iff a requested dimension is 0; otherwise the result is min(requested, actual) in each dimension, and its pixel (x, y) is the original pixel (x, y) |
| Crop.CropIdentity | src/filters/crop_filter.cpp:10-11 | cropping to at least the image size leaves the image unchanged |
| Crop.CropCrop | src/filters/crop_filter.cpp:9-20 | two successive crops are one crop to the smaller width and height |
| Crop.Apply | src/filters/crop_filter.cpp:9-20 | the filter fails, leaving the image as it was, iff `Crop` fails; otherwise the image becomes `Crop` of its old value |
| Grayscale.GrayPixel | src/filters/grayscale_filter.cpp:19-25 | the output pixel is grey and normalised, equals the luminance for normalised input, and leaves a normalised grey pixel unchanged |
| Grayscale.GrayOfRed | src/filters/grayscale_filter.cpp:6 | pure red becomes grey level 0.299 |
| Grayscale.GrayscaleIdempotent | src/filters/grayscale_filter.cpp:13-28 | applying the filter twice is applying it once |
| Grayscale.Apply | src/filters/grayscale_filter.cpp:13-28 | the in-place scan leaves the image equal to `Grayscale` of its old value |
| Negative.Round | src/filters/negative_filter.cpp:18-20 | `std::round`: within half of v, with halves rounded away from zero, and an integer kept |
| Negative.NegateChannel | src/filters/negative_filter.cpp:18-24 | the result is on the 1/255 grid, and within 1/510 of 1 - c for c in [0, 1] |
| Negative.NegateLevel | src/filters/negative_filter.cpp:18-24 | level k / 255 maps to level (255 - k) / 255 |
| Negative.NegateChannelTwice | src/filters/negative_filter.cpp:18-24 | on the grid, negating a channel twice restores it |
| Negative.NegatePixel | src/filters/negative_filter.cpp:16-26 | every output pixel is normalised and on the grid |
| Negative.NegateBlack | src/filters/negative_filter.cpp:18-24 | black becomes white |
| Negative.NegativeInvolution | src/filters/negative_filter.cpp:13-29 | on an image whose channels are on the grid (any image read from a BMP), the filter is an involution |
| Negative.NegativeThrice | src/filters/negative_filter.cpp:13-29 | on any image, three applications equal one |
| Negative.Apply | src/filters/negative_filter.cpp:13-29 | the in-place scan leaves the image equal to `Negative` of its old value |
| Sepia.ApplySepia | src/filters/sepia_filter.cpp:32-46 | every channel of the sepia pixel is in [0, 1] |
| Sepia.SepiaIsWarm | src/filters/sepia_filter.cpp:5-13 | for non-negative input the output satisfies red >= green >= blue |
| Sepia.SepiaOfBlackAndWhite | src/filters/sepia_filter.cpp:37-43 | black stays black; white becomes (1, 1, 0.937) |
| Sepia.Apply | src/filters/sepia_filter.cpp:21-29 | the in-place scan leaves the image equal to `Sepia` of its old value |
| Sharpen.SharpenKernelSum | src/filters/sharpening_filter.cpp:10 | the sharpening weights sum to 1 |
| Sharpen.SharpenPixel | src/filters/sharpening_filter.cpp:32-34 | every sharpened pixel is normalised |
| Sharpen.Sharpen | src/filters/sharpening_filter.cpp:8-39 | the result keeps the dimensions and is normalised, and pixel (x, y) is the clamped window sum around (x, y) of the original |
| Sharpen.SharpenConstant | src/filters/sharpening_filter.cpp:18-34 | an image of one normalised colour is left unchanged |
| Sharpen.Convolve | src/filters/sharpening_filter.cpp:18-30 | the dy/dx loops compute the 3x3 clamp-to-edge window sum of the snapshot |
| Sharpen.Apply | src/filters/sharpening_filter.cpp:8-39 | reading from the snapshot while writing the image gives exactly `Sharpen` of the old value |
| Window.ScaleAdd | src/filters/sharpening_filter.cpp:26-28 | weights accumulate linearly: c * a + c * b = c * (a + b) channel-wise |
| Window.RowSumConstant | src/filters/sharpening_filter.cpp:19-29 | over an image of one colour a kernel row contributes that colour times its weights, at every position |
| Window.WindowSumConstant | src/filters/sharpening_filter.cpp:18-30 | over an image of one colour the window sum is that colour times the sum of the weights, even at the edges |
| EdgeDetection.LaplaceKernelSum | src/filters/edge_detection_filter.cpp:29 | the Laplacian weights sum to 0 |
| EdgeDetection.LumaPixel | src/filters/edge_detection_filter.cpp:21-24 | the grey copy's pixel is grey, and normalised for normalised input, although it is not clamped |
| EdgeDetection.GrayCopy | src/filters/edge_detection_filter.cpp:17-26 | the grey copy has the image's dimensions and the unclamped luminance of each pixel |
| EdgeDetection.EdgeLevel | src/filters/edge_detection_filter.cpp:45-46 | the output level is 0 or 1; a threshold of 1 or more gives 0, and a negative one gives 1 |
| EdgeDetection.EdgeMap | src/filters/edge_detection_filter.cpp:28-49 | the result keeps the dimensions, and pixel (x, y) is grey at the thresholded level |
| EdgeDetection.EdgeDetect | src/filters/edge_detection_filter.cpp:16-52 | the result keeps the dimensions and every pixel is black or white |
| EdgeDetection.EdgeOfConstant | src/filters/edge_detection_filter.cpp:29-46 | an image of one colour has no edges: with a threshold of 0 or more it becomes black |
| EdgeDetection.EdgeHighThreshold | src/filters/edge_detection_filter.cpp:45-46 | a threshold of 1 or more makes every image black |
| EdgeDetection.GrayPass | src/filters/edge_detection_filter.cpp:17-26 | the first pass builds a fresh image equal to `GrayCopy` |
| EdgeDetection.Convolve | src/filters/edge_detection_filter.cpp:33-43 | the dy/dx loops compute the red channel of the Laplacian window sum |
| EdgeDetection.EdgePass | src/filters/edge_detection_filter.cpp:28-49 | the second pass builds a fresh image equal to `EdgeMap` of the grey copy |
| EdgeDetection.Apply | src/filters/edge_detection_filter.cpp:16-52 | the image becomes `EdgeDetect` of its old value |
| GaussianBlur.SumPositive | src/filters/gaussian_blur_filter.cpp:17-22 | the sum of positive weights is positive, so the division is defined |
| GaussianBlur.SumNormalize | src/filters/gaussian_blur_filter.cpp:23-25 | dividing every weight by t divides the sum by t |
| GaussianBlur.NormalizedKernel | src/filters/gaussian_blur_filter.cpp:17-25 | the normalised kernel is positive and sums to exactly 1 |
| GaussianBlur.NormalizePositive | src/filters/gaussian_blur_filter.cpp:23-25 | normalising keeps every weight positive |
| GaussianBlur.Pass | src/filters/gaussian_blur_filter.cpp:35-64 | one pass keeps the dimensions; pixel (x, y) is the weighted sum of the 2r + 1 clamped taps along the pass direction |
| GaussianBlur.Blur | src/filters/gaussian_blur_filter.cpp:28-32 | the blur is the horizontal pass followed by the vertical pass, and keeps the dimensions |
| GaussianBlur.TapSumBounds | src/filters/gaussian_blur_filter.cpp:42-59 | over a normalised image, the first n taps sum to between 0 and the sum of the first n weights |
| GaussianBlur.TapSumConstant | src/filters/gaussian_blur_filter.cpp:42-59 | over an image of one colour, the first n taps sum to that colour times the sum of the first n weights |
| GaussianBlur.PassNormalized | src/filters/gaussian_blur_filter.cpp:35-64 | with a normalised kernel, a pass keeps every channel in [0, 1], although the source does not clamp |
| GaussianBlur.BlurNormalized | src/filters/gaussian_blur_filter.cpp:28-32 | the blur keeps a normalised image normalised |
| GaussianBlur.PassConstant | src/filters/gaussian_blur_filter.cpp:35-64 | a pass leaves an image of one colour unchanged |
| GaussianBlur.BlurConstant | src/filters/gaussian_blur_filter.cpp:28-32 | the blur leaves an image of one colour unchanged |
| GaussianBlur.GaussianBlurFilter.constructor | src/filters/gaussian_blur_filter.cpp:14-26 | the kernel has 2r + 1 entries, each raw weight divided by their sum; it is positive and sums to 1 |
| GaussianBlur.GaussianBlurFilter.ReadTap | src/filters/gaussian_blur_filter.cpp:43-54 | a tap clamps only the coordinate along the pass direction and reads that pixel |
| GaussianBlur.GaussianBlurFilter.Taps | src/filters/gaussian_blur_filter.cpp:38-59 | the tap loop computes the weighted sum of the 2r + 1 taps |
| GaussianBlur.GaussianBlurFilter.Apply1D | src/filters/gaussian_blur_filter.cpp:35-64 | `dst` becomes `Pass` of `src`, which is not changed |
| GaussianBlur.GaussianBlurFilter.Apply | src/filters/gaussian_blur_filter.cpp:28-32 | through the temporary image, the image becomes `Blur` of its old value under the constructor's kernel |
| Pipeline.ApplyFilter | image_processor.cpp:85-87 | one filter fails iff it is a crop to a zero size; non-crop filters keep the dimensions |
| Pipeline.Run | image_processor.cpp:85-87 | the chain yields a well-formed image or the zero-dimension error |
| Pipeline.RunAppend | image_processor.cpp:85-87 | running two chains in turn is running their concatenation, and a failure in the first chain ends the run |
| Pipeline.RunOutcome | image_processor.cpp:85-87 | the chain fails iff it contains a crop to a zero size; a chain without crops keeps the dimensions |
| Pipeline.ApplyOne | image_processor.cpp:86 | each filter's in-place `Apply` realises `ApplyFilter` |
| Pipeline.ApplyAll | image_processor.cpp:85-87 | the loop over the filters realises `Run`, stopping at the first failure |

## Left out

- File I/O is left out: opening, seeking, reading, writing and the stream failure checks. The
  reader works on the whole file as a byte sequence. The writer returns the bytes it would send,
  and a failed write is not modelled.
- BmpReader.ReadRow takes each file row as a slice of the file instead of reading it into one
  reused buffer; the source's read overwrites the whole buffer each time, so the decoded
  pixels are the same, but the reuse of the reader's buffer is not modelled.
- Command-line parsing is left out: the argument checks, the `std::stof` conversions and the
  filter factories. Filters are values of the `Pipeline.Filter` datatype, whose parameters
  arrive already parsed. image_processor.cpp is modelled only in its filter loop. The writer is
  not called after a failed chain; that is modelled as the chain's error.
- The abstract reader, writer and filter interfaces (header/reader.h, header/writer.h,
  header/filter.h) are not part of this model. Each filter is a module with its own `Apply`
  method, and `Pipeline.ApplyOne` dispatches over them.
- Channels are `real`, not IEEE `float`. Rounding error, NaN and infinities are not modelled.
  The equalities proved (for example the sepia value 0.937 and the exact kernel sum 1) hold for
  reals and only approximately for floats.
- The Gaussian constructor takes the radius and the raw positive weights as inputs. The radius
  computation `ceil(3 * sigma)` and the `exp` of the source are not modelled, and neither are
  sigma <= 0, a negative radius or a kernel sum that underflows.
- GaussianBlur.GaussianBlurFilter is built by `Pipeline.ApplyOne` when the filter is applied,
  not when the chain is parsed. The filter has no other state, so the result is the same.
- `Image` sizes are unbounded naturals. The overflow of `width * height` and of the reader's
  `offset + height * row_size` in `size_t` is not modelled.
- `std::abs(INT32_MIN)` is not modelled: `BmpReader.Abs` returns 2^31 there, where the C++
  behaviour is undefined.
- BmpFormat.ParseHeader and BmpFormat.SerializeHeader read and write the packed struct
  little-endian. This models the little-endian hosts the program assumes. A big-endian host is
  not modelled.
- Images.OfRows and Images.Image.FromRows require the rows to be of equal length
  (`Rectangular`). The source checks only the first row's length, so a ragged matrix leads to
  out-of-bounds reads there. The reader always passes a rectangular matrix.
- Images.Image keeps its pixels in a `seq` field that the methods reassign, where the source
  uses a `std::vector` updated in place. The dimensions and the data are fields of the class.
- BmpWriter.Write takes any image whose buffer matches its dimensions, not only a constructed
  one. That keeps its zero-dimension check reachable; it can never fire on an image the
  constructors built.
- BmpRoundTrip.DecodeEncoded: this lemma requires dimensions below 2^31. For larger images
  the `int32_t` casts in the header wrap, and the file no longer reads back.
- EdgeDetection.Convolve and Sharpen.Convolve: the neighbour coordinates are clamped as
  unbounded integers. The source's `static_cast<int>` of a `size_t` coordinate, which could
  overflow above 2^31, is not modelled.
