# BMP reader and drawer, modelled in Dafny

This project models the core of a small BMP decoder and editor. The reader
takes a byte stream holding a Windows bitmap. It reads the 14-byte
BITMAPFILEHEADER, then one of two info-header dialects:

- the 12-byte BITMAPCOREHEADER;
- the 40-byte BITMAPINFOHEADER, which also covers its 54, 56, 108 and
  124-byte variants.

It derives the default image size and the row padding. It then decodes the
uncompressed 24- or 32-bit pixel array into a black-and-white bitmap: a
pixel is dark when the sum of its channels is at most 366. The drawer
rasterises lines and crosses into both the bitmap and a byte copy of the
file.

The model has two layers:

- **Specification functions** decide what each step produces from the
  input bytes:
  - `BitmapFileHeader` and `BitmapInfoHeader`: the packed records and
    their validation chains.
  - `HeaderDecoding`: the important-fields record and the dialect dispatch.
  - `PixelDecoding`: the pixel array.
  - `Raster`: the points of a line and the effect of drawing them.
- **Class `BmpReader.BMPReader`** keeps the reader's state: the stream
  cursor, the important fields, the bitmap and the file copy. Its methods
  follow the source's step-by-step code, including the nested read loops,
  the in-place row reversal and the point-collecting loop of `DrawLine`.
  Each method is proved to compute the corresponding specification
  function.

Supporting modules:

- `FieldTypes`: the fixed-width integer types, their little-endian byte
  encodings, and the bitwise AND and right shift, written as arithmetic.
- `MsConstants`: the compression codes and the standard channel masks.
- `Color`: the colour record and its two on-disk encodings.
- `Errors`: the two failure kinds. An I/O failure is a short read. An
  invalid-document failure is a broken format rule. Each failure carries a
  tag in place of the message text.

A thrown exception becomes the `Failure` or `Fail` value of the operation.
Stream reads work on an immutable `seq<Byte>` plus the cursor `pos`. A read
that runs past the end is an I/O failure.

Where the sources disagree with each other, the model follows one choice:

- The record keeps the pixel depth once, as bytes per pixel. The header
  code stores the bit count, and the out-of-line reader stores the byte
  count. The bit count is 8 times the byte count.
- The out-of-line, 32-bit-capable `ReadData` is the current decoder. The
  inline variant of the header file is modelled as well, as
  `ReadDataInline`.

## Model

| member | source | states |
|---|---|---|
| FieldTypes.WordRoundTrip | src/util/field_types.h:8 | reading back the two little-endian bytes of a Word gives the Word |
| FieldTypes.WordBytesRoundTrip | src/util/field_types.h:8 | any two bytes are the little-endian image of the Word read from them |
| FieldTypes.DWordRoundTrip | src/util/field_types.h:9 | reading back the four little-endian bytes of a DWord gives the DWord |
| FieldTypes.DWordBytesRoundTrip | src/util/field_types.h:9 | any four bytes are the little-endian image of the DWord read from them |
| FieldTypes.LongRoundTrip | src/util/field_types.h:10 | reading back the four bytes of a signed Long gives the Long (two's complement) |
| FieldTypes.LongBytesRoundTrip | src/util/field_types.h:10 | any four bytes are the image of the Long read from them |
| FieldTypes.AndOnes | src/bmp_reader.cpp:141-143 | AND with an all-ones mask of n bits leaves any number below 2^n unchanged |
| FieldTypes.ByteMasks | src/bmp_reader.cpp:141-143 | a byte ANDed with 0xFF is itself and ANDed with 0 is 0 |
| MsConstants.FromCode | src/util/ms_constants.h:7 | the compression method cast from a code 0..6 has that code |
| MsConstants.CodeInjective | src/util/ms_constants.h:7 | distinct compression methods have distinct codes |
| Color.Decode24 | src/util/color.h:10-14 | a 3-byte pixel read into the record has the packed layout blue, green, red of those bytes |
| Color.Decode24RoundTrip | src/util/color.h:10-14 | the packed layout determines the colour |
| Color.MaskBytes | src/bmp_reader.cpp:141-143 | each standard mask selects exactly one byte of the pixel word; the green and red masks shifted down are the blue mask |
| Color.MaskedWord | src/bmp_reader.cpp:141-143 | masking a pixel word with the blue, green and red masks keeps byte 0, 1 and 2 in place |
| Color.DecodeWordChannels | src/bmp_reader.cpp:141-143 | mask-then-shift decoding of a pixel word gives blue, green, red = bytes 0, 1, 2 of the word |
| Color.Decode32Channels | src/bmp_reader.cpp:135-145 | a 32-bit pixel decodes to the colour of its first three bytes; the fourth is ignored |
| Color.Decode32AsWrittenChannels | src/bmp_reader.cpp:141-143 | with the shift applied to the mask, as the code parses, every channel is the pixel's first byte |
| Color.Decode32AsWrittenMisclassifies | src/bmp_reader.cpp:141-143 | a yellow 32-bit pixel is light when decoded as intended but dark as the code parses |
| Color.DarkBoundary | src/bmp_reader.cpp:121 | the threshold is inclusive: channel sum 366 is dark, 367 is light |
| BitmapFileHeader.Encode | src/util/bitmap_file_header.h:13-23 | the packed file header is 14 bytes |
| BitmapFileHeader.DecodeEncode | src/util/bitmap_file_header.h:13-23 | a file header is read back from its packed little-endian image |
| BitmapFileHeader.EncodeDecode | src/util/bitmap_file_header.h:13-23 | any 14 bytes are the packed image of the header they decode to |
| BitmapFileHeader.MagicBytes | src/util/bitmap_file_header.h:33-36 | the signature is 0x4D42 exactly when the first two bytes are 'B', 'M' |
| BitmapFileHeader.Check | src/util/bitmap_file_header.h:34-39 | accepted iff signature 0x4D42, file size > 0 and both reserved words 0; otherwise the first failing rule, in source order, is reported |
| BitmapFileHeader.Read | src/util/bitmap_file_header.h:28-41 | fewer than 14 bytes is an I/O failure; otherwise the validation verdict decides; an accepted header is returned exactly as read (offset unchecked) and the cursor moves 14 bytes |
| BitmapFileHeader.BadMagicIsInvalid | src/util/bitmap_file_header.h:34-36 | a file not starting with "BM" is an invalid document |
| BitmapInfoHeader.EncodeCore | src/util/bitmap_info_header.h:18-26 | the packed core header is 8 bytes |
| BitmapInfoHeader.DecodeEncodeCore | src/util/bitmap_info_header.h:18-26 | a core header is read back from its packed image (four u16 in declared order) |
| BitmapInfoHeader.EncodeDecodeCore | src/util/bitmap_info_header.h:18-26 | any 8 bytes are the packed image of the core header they decode to |
| BitmapInfoHeader.CheckCore | src/util/bitmap_info_header.h:35-41 | accepted iff width > 0, height > 0, planes 1 and bit count 24 or 32; otherwise the first failing rule is reported |
| BitmapInfoHeader.ReadCore | src/util/bitmap_info_header.h:30-43 | fewer than 8 bytes is an I/O failure; otherwise the validation verdict decides; an accepted header is exactly the bytes read and the cursor moves 8 bytes |
| BitmapInfoHeader.EncodeInfo | src/util/bitmap_info_header.h:49-69 | the packed info header body is 36 bytes |
| BitmapInfoHeader.DecodeEncodeInfo | src/util/bitmap_info_header.h:49-69 | an info header is read back from its packed image, fields in declared order |
| BitmapInfoHeader.EncodeDecodeInfo | src/util/bitmap_info_header.h:49-69 | any 36 bytes are the packed image of the info header they decode to |
| BitmapInfoHeader.CheckInfo | src/util/bitmap_info_header.h:78-96 | accepted iff width > 0, height != 0 (negative allowed), planes 1, bit count 24/32, compression 0, 3 or 6, size image > 0 unless RGB, clr_important <= clr_used; otherwise the first failing rule in source order |
| BitmapInfoHeader.ResolutionIgnored | src/util/bitmap_info_header.h:93 | the resolution fields never affect the verdict |
| BitmapInfoHeader.ReadInfo | src/util/bitmap_info_header.h:73-98 | fewer than 36 bytes is an I/O failure; otherwise the validation verdict decides; the cursor moves 36 bytes |
| BitmapInfoHeader.ReadInfoExact | src/util/bitmap_info_header.h:74-76 | an accepted info header is exactly the bytes read |
| HeaderDecoding.PaddingFor | src/bmp_reader.h:72-77 | the padding lies in [0, 3], equals (4 - row bytes mod 4) mod 4 and makes the row a multiple of 4, although computed from a 32-bit product |
| HeaderDecoding.WrapKeepsRowRemainder | src/bmp_reader.h:73 | the 32-bit wrap of width * bit_count, divided by 8, keeps the row length modulo 4 |
| HeaderDecoding.CompleteToFour | src/bmp_reader.h:74-76 | turning the remainder into 4 - remainder (or 0) completes the row to a multiple of 4 |
| HeaderDecoding.DefaultSizeImage | src/bmp_reader.h:68-70 | the default size is width * height * bytes per pixel whenever the 32-bit product of the bit count does not wrap |
| HeaderDecoding.FileHeaderStep | src/bmp_reader.cpp:24-34 | a failed file-header read is passed on; with a nonzero expected size a different header size is an invalid document; 0 skips the check; success records only the offset |
| HeaderDecoding.CoreInfoHeaderStep | src/bmp_reader.cpp:52-59 | a failed core read is passed on and a successful one makes the step succeed; success sets width, height and bytes per pixel = bit count / 8 and moves past 8 bytes |
| HeaderDecoding.ApplyInfo | src/bmp_reader.cpp:65-75 | new-dialect fields: height = abs(height), bottom-up iff height > 0, bytes per pixel 3 or 4, the compression code copied |
| HeaderDecoding.MasksFollowPrecedence | src/bmp_reader.cpp:78-79 | masks are read for ALPHABITFIELDS even at 24 bits, for BITFIELDS only at 32 bits, never for RGB (the code's && / \|\| precedence) |
| HeaderDecoding.MasksStep | src/bmp_reader.cpp:80-88 | a short mask read is an I/O failure, a non-standard mask an invalid document, standard masks are consumed and change no field |
| BmpReader.MaskWords | src/bmp_reader.cpp:86 | the 12 mask bytes are standard exactly when the three mask words equal the standard red, green and blue masks |
| HeaderDecoding.NewInfoHeaderStep | src/bmp_reader.cpp:61-90 | a failed info read is passed on; masks follow exactly when the precedence condition holds, with their failures; otherwise success right after the header |
| HeaderDecoding.NewInfoHeaderStepApplies | src/bmp_reader.cpp:61-75 | a successful new-dialect step applied a header that passed every check |
| HeaderDecoding.InfoHeaderStep | src/bmp_reader.cpp:36-50 | a short size word is an I/O failure; size 12 selects the core dialect, 40/54/56/108/124 the new one, any other size is an invalid document |
| HeaderDecoding.HeaderSize20Rejected | src/bmp_reader.cpp:42-49 | size 20 selects no dialect |
| HeaderDecoding.HeadersFromAborts | src/bmp_reader.h:64-66 | from any position and fields, a failed file-header read ends the stage with its error, and so does a failed info-header read after a good file header; nothing is derived |
| HeaderDecoding.ReadHeadersAborts | src/bmp_reader.h:64-66 | for a fresh reader, the stage stops with the error of the first read that fails |
| HeaderDecoding.HeadersFromSteps | src/bmp_reader.h:64-78 | from any position and fields, a successful stage is a file-header read of 14 bytes keeping only the offset, a successful info-header read after it, and the derivation of what that leaves |
| HeaderDecoding.ReadHeaders | src/bmp_reader.h:64-78 | an accepted file yields well-formed fields whose offset is the file header's |
| HeaderDecoding.DerivedWellformed | src/bmp_reader.h:64-78 | the fields after both headers and the derivation are well formed |
| HeaderDecoding.InfoHeaderStepFields | src/bmp_reader.cpp:36-90 | a successful info-header step leaves positive dimensions and 3 or 4 bytes per pixel and keeps padding and offset |
| HeaderDecoding.DeriveWellformed | src/bmp_reader.h:68-77 | deriving from positive dimensions gives the aligning padding and keeps the offset |
| HeaderDecoding.FileSizeChecked | src/bmp_reader.cpp:28-32 | a nonzero expected size that differs from the header's is an invalid document; the matching size reads like size 0 |
| HeaderDecoding.UnknownInfoHeaderSize | src/bmp_reader.cpp:47-49 | an unknown info-header size makes the whole header read an invalid document |
| HeaderDecoding.HeadersSteps | src/bmp_reader.h:64-66 | a successful header read ran the file-header step first, then the info-header step, then the derivation |
| HeaderDecoding.ReadHeadersBySteps | src/bmp_reader.h:64-78 | conversely, two successful steps give the derived fields |
| HeaderDecoding.CoreDialectFields | src/bmp_reader.cpp:52-59 | in the core dialect, fields the core header does not set keep their defaults (bottom-up, RGB, no palette); size and padding are derived |
| HeaderDecoding.NewDialectFields | src/bmp_reader.cpp:61-75 | in the new dialect, every field follows the info header, a zero size image is replaced by the default size and a nonzero one kept |
| HeaderDecoding.DeriveApplyInfo | src/bmp_reader.h:68-77 | the derivation after a new-dialect header leaves every field as that header sets it, apart from the default size |
| HeaderDecoding.PaddingForTenPixels | test/reader_tests.cpp:33 | 10 pixels of 3 bytes need 2 bytes of padding |
| HeaderDecoding.ReaderTestFileHeader | test/reader_tests.cpp:24 | the reader test's file header gives offset 54 |
| HeaderDecoding.ReaderTestInfoHeader | test/reader_tests.cpp:25-32 | the reader test's info header gives a 10x10, bottom-up, 24-bit RGB image with size image 320 and no palette |
| HeaderDecoding.ReaderTestHeaders | test/reader_tests.cpp:15-34 | the headers of the reader test's file give the expected fields, padding 2 included |
| HeaderDecoding.ReaderTestDerivation | test/reader_tests.cpp:24-33 | the two steps of the reader test compose to the expected fields |
| HeaderDecoding.ReaderTestPadding | test/reader_tests.cpp:30-33 | the derivation keeps the declared size 320 and sets padding 2 |
| PixelDecoding.OffsetSteps | src/bmp_reader.cpp:96-111 | a row is width * bytes + padding bytes, a multiple of 4; consecutive pixels are adjacent and the next row starts after the padding |
| PixelDecoding.OffsetMonotone | src/bmp_reader.cpp:96-111 | later pixels lie further into the file |
| PixelDecoding.ColorAtChannels | src/bmp_reader.cpp:100-104 | a pixel with bytes b0, b1, b2 decodes to blue b0, green b1, red b2 at either depth |
| PixelDecoding.Reversed | src/bmp_reader.cpp:113-115 | reversal keeps the length and puts element n-1-i at i |
| PixelDecoding.ReversedTwice | src/bmp_reader.cpp:113-115 | reversing twice restores the rows |
| PixelDecoding.BinarizeRow | src/bmp_reader.cpp:117-122 | each entry of a thresholded scan is true exactly when its pixel is dark |
| PixelDecoding.Binarize | src/bmp_reader.cpp:117-124 | one thresholded scan per row |
| PixelDecoding.ScanOrder | src/bmp_reader.cpp:113-115 | the file row shown at a bitmap row is a row of the image |
| PixelDecoding.DecodeData | src/bmp_reader.cpp:92-125 | fails with an I/O failure exactly when the pixel array runs past the end; otherwise height rows of width booleans |
| PixelDecoding.ShownRowsEntry | src/bmp_reader.cpp:113-115 | bitmap row i shows file row height-1-i when bottom-up and file row i otherwise |
| PixelDecoding.DecodeDataPixel | src/bmp_reader.cpp:96-123 | bitmap entry [i][c] is true exactly when the pixel of the shown file row is dark |
| PixelDecoding.DiskRowsOrderFree | src/bmp_reader.cpp:96-111 | the rows read do not depend on the scan-order flag |
| PixelDecoding.SameColorsSameRows | src/bmp_reader.cpp:96-111 | arrays agreeing pixel by pixel give the same rows |
| PixelDecoding.BinarizeReversed | src/bmp_reader.cpp:113-124 | thresholding commutes with reversing the rows |
| PixelDecoding.ScanOrderFlips | src/bmp_reader.cpp:113-115 | a bottom-up image is the top-down image of the same bytes upside down |
| PixelDecoding.PaddingIgnored | src/bmp_reader.cpp:107-109 | padding and other non-pixel bytes never affect the bitmap |
| Raster.LinePoints | src/bmp_reader.cpp:171-201 | the line has max(dx, dy) + 1 points |
| Raster.ShallowPoint | src/bmp_reader.cpp:173-186 | point i of a flat line is x = smaller x + i, with a y shift of i * dy / dx in [0, dy] toward the other endpoint |
| Raster.SteepPoint | src/bmp_reader.cpp:187-201 | point i of a steep line is y = smaller y + i, with an x shift of i * dx / dy in [0, dx] toward the other endpoint |
| Raster.LineEndpoints | src/bmp_reader.cpp:171-201 | the first and last points are the two endpoints, in one order or the other |
| Raster.ShallowEndpoints | src/bmp_reader.cpp:173-186 | a flat line runs from the endpoint with the smaller x to the other |
| Raster.SteepEndpoints | src/bmp_reader.cpp:187-201 | a steep line runs from the endpoint with the smaller y to the other |
| Raster.LineInBox | src/bmp_reader.cpp:171-201 | every point lies in the endpoints' bounding box |
| Raster.LineSteps | src/bmp_reader.cpp:179-199 | one point per integer step of the major axis; consecutive points are 8-neighbours |
| Raster.LineSymmetric | src/bmp_reader.cpp:175-178 | swapping the endpoints gives the same points in the same order |
| Raster.MarkPixel | src/bmp_reader.cpp:149-150 | drawing (x, y) sets entry [height-y-1][x] of the bitmap and changes nothing else |
| Raster.MarkPixelIdempotent | src/bmp_reader.cpp:147-150 | drawing the same pixel again changes nothing further |
| Raster.MarkPoints | src/bmp_reader.cpp:204-206 | drawing points keeps the bitmap's shape |
| Raster.MarkPointsEntries | src/bmp_reader.cpp:204-206 | after drawing points an entry is true exactly when it was before or one of the points covers it |
| Raster.MarkPointsAppend | src/bmp_reader.cpp:204-206 | drawing two point lists one after the other is drawing their concatenation |
| Raster.MarkPointsIdempotent | src/bmp_reader.cpp:204-206 | drawing the same points again changes nothing further |
| Raster.PixelPosInside | src/bmp_reader.cpp:153-164 | the bytes DrawPixel overwrites lie inside the pixel array |
| Raster.PixelPosNoWrap | src/bmp_reader.cpp:153-155 | in a file shorter than 2^32 bytes, the DWord sum giving DrawPixel's position never wraps |
| Raster.LineProductsNoWrap | src/bmp_reader.cpp:179-199 | in a file shorter than 2^32 bytes, the shift products of DrawLine (at most dx * dy) stay below 2^32 |
| Raster.ImageFitsFile | src/bmp_reader.cpp:96-111 | a pixel array that fits in the file has at most as many pixels as the file has bytes |
| Raster.PrevScansOffByOne | src/bmp_reader.cpp:153-155 | rows y = 0 and y = 1 write the same file bytes |
| Raster.PixelPosMatchesDecoding | src/bmp_reader.cpp:149-155 | the bytes written are those of the pixel shown at that bitmap entry iff the row counted equals the row shown; bottom-up, only for y = 0 |
| Raster.ZeroFill | src/bmp_reader.cpp:156-164 | writing n zeros at p zeroes exactly those bytes, and the length is kept |
| Raster.ZeroFillIdempotent | src/bmp_reader.cpp:156-164 | writing the same zeros again changes nothing further |
| Raster.BlackenPoints | src/bmp_reader.cpp:204-206 | after drawing points a file byte is 0 exactly when some point's write covers it, otherwise unchanged |
| Raster.MarkPointsSnoc | src/bmp_reader.cpp:204-206 | drawing one more point is one more pixel on the bitmap |
| Raster.BlackenPointsSnoc | src/bmp_reader.cpp:204-206 | drawing one more point is one more zero write in the file |
| Raster.BlackenStep | src/bmp_reader.cpp:204-206 | the zero write of the last point extends the bytes blackened by the others |
| Raster.BlackenPointsAppend | src/bmp_reader.cpp:204-206 | blackening two point lists in turn is blackening their concatenation |
| Raster.CrossOnWhiteCell | test/drawer_tests.cpp:12-22 | the expected pattern marks exactly the two diagonals between (2, 2) and (8, 8) |
| Raster.TestCrossPoints | test/drawer_tests.cpp:38 | the cross from (2, 2) to (8, 8) is the 14 diagonal points |
| Raster.TestCrossEntry | test/drawer_tests.cpp:12-22 | each entry of the drawn cross agrees with the diagonal formula |
| Raster.DrawerTestCross | test/drawer_tests.cpp:32-56 | the cross drawn from (2, 2) to (8, 8) on a white 10x10 image is the test's expected pattern |
| BmpReader.RowPrefixExtends | src/bmp_reader.cpp:98-106 | reading the next pixel of a row extends the prefix read so far |
| BmpReader.PixelReadFails | src/bmp_reader.cpp:127-145 | a pixel read that runs short means the pixel array does not fit in the file |
| BmpReader.PixelReadAdvances | src/bmp_reader.cpp:98-105 | a successful pixel read was at that pixel's position and moves to the next pixel |
| BmpReader.PaddingSkipped | src/bmp_reader.cpp:107-109 | skipping the padding brings the cursor to the next row's first pixel, or to the end of the stream |
| BmpReader.RowsReadAreDiskRows | src/bmp_reader.cpp:96-111 | rows read pixel by pixel are the rows of the file |
| BmpReader.ReverseInPlace | src/bmp_reader.cpp:113-115 | the array afterwards holds the old rows reversed |
| BmpReader.CollectLine | src/bmp_reader.cpp:167-201 | the collected points are LinePoints of the endpoints |
| BmpReader.CollectShallow | src/bmp_reader.cpp:173-186 | the loop along x collects LinePoints of a flat line |
| BmpReader.CollectSteep | src/bmp_reader.cpp:187-201 | the loop along y collects LinePoints of a steep line |
| BmpReader.BMPReader.constructor | src/bmp_reader.h:57 | a fresh reader at stream position 0 with default fields, an empty bitmap and a copy of the file |
| BmpReader.BMPReader.Read | src/util/bitmap_file_header.h:29-31 | a read of n bytes returns them and advances, or is an I/O failure when fewer remain |
| BmpReader.BMPReader.ReadDWord | src/bmp_reader.cpp:37-40 | reads a little-endian DWord and advances 4, or is an I/O failure |
| BmpReader.BMPReader.Ignore | src/bmp_reader.cpp:108 | skips n bytes, stopping at the end of the stream |
| BmpReader.BMPReader.Seek | src/bmp_reader.cpp:93 | moves the cursor to the given position |
| BmpReader.BMPReader.ReadFileHeader | src/bmp_reader.cpp:24-34 | outcome, fields and cursor are those of FileHeaderStep |
| BmpReader.BMPReader.ReadCoreInfoHeader | src/bmp_reader.cpp:52-59 | outcome, fields and cursor are those of CoreInfoHeaderStep |
| BmpReader.BMPReader.ReadNewInfoHeader | src/bmp_reader.cpp:61-90 | outcome, fields and cursor are those of NewInfoHeaderStep |
| BmpReader.BMPReader.ReadMasks | src/bmp_reader.cpp:80-88 | outcome and cursor are those of MasksStep |
| BmpReader.BMPReader.ReadInfoHeader | src/bmp_reader.cpp:36-50 | outcome, fields and cursor are those of InfoHeaderStep |
| BmpReader.BMPReader.ReadHeaders | src/bmp_reader.h:64-78 | outcome, fields and cursor are those of HeadersFrom |
| BmpReader.BMPReader.Read24bitPixel | src/bmp_reader.cpp:127-133 | reads blue, green, red from the next three bytes and advances 3, or is an I/O failure |
| BmpReader.BMPReader.Read32bitPixel | src/bmp_reader.cpp:135-145 | decodes the next four bytes as a pixel word and advances 4, or is an I/O failure |
| BmpReader.BMPReader.ReadPixel | src/bmp_reader.cpp:100-104 | reads a pixel of the image's depth |
| BmpReader.BMPReader.ReadScan | src/bmp_reader.cpp:97-106 | reads one row pixel by pixel; a short read fails, and then the array does not fit |
| BmpReader.BMPReader.ReadScans | src/bmp_reader.cpp:93-111 | fails exactly when the array does not fit; otherwise the rows of the file, cursor after the last row |
| BmpReader.BMPReader.PushScans | src/bmp_reader.cpp:113-124 | appends the rows, reversed when bottom-up, each thresholded |
| BmpReader.BMPReader.ReadData | src/bmp_reader.cpp:92-125 | the outcome is that of DecodeData; on success the decoded bitmap is appended, on failure the bitmap is unchanged |
| BmpReader.BMPReader.ReadDataInline | src/bmp_reader.h:80-103 | rejects anything but 24-bit data with a logic error; otherwise it behaves as ReadData |
| BmpReader.BMPReader.GetPixelData | src/bmp_reader.h:105-107 | returns the bitmap held, reading and changing nothing else |
| BmpReader.BMPReader.Write | src/bmp_reader.cpp:161-163 | writes the bytes at p into the file copy and changes nothing else |
| BmpReader.BMPReader.DrawPixel | src/bmp_reader.cpp:147-165 | the bitmap is MarkPixel of (x, y); the file copy has BlackSize zeros written at PixelPos, nothing else changes |
| BmpReader.BMPReader.DrawLine | src/bmp_reader.cpp:167-207 | the bitmap and the file copy are those after drawing every point of LinePoints |
| BmpReader.BMPReader.DrawPoints | src/bmp_reader.cpp:204-206 | drawing each point in turn gives MarkPoints and BlackenPoints of the list |
| BmpReader.BMPReader.DrawCross | test/drawer_tests.cpp:38 | both diagonals drawn: the bitmap and the file copy after drawing CrossPoints |

## Findings

| source | as written | input that shows it | evidently intended | confidence | as-written member | corrected member |
|---|---|---|---|---|---|---|
| src/bmp_reader.cpp:141-143 | `raw_color & kStandRMask >> 16` parses as `raw & (mask >> 16)` because `>>` binds tighter than `&`, so every channel is the low byte of the pixel word | the 32-bit yellow pixel bytes 00 FF FF 00: intended channel sum 510 (light), as written 0 (dark) | `(raw & mask) >> shift`, giving blue, green, red = bytes 0, 1, 2 | not executed | Color.Decode32AsWrittenMisclassifies | Color.Decode32Channels |

The rest of the model uses the corrected decoding (`Color.Decode32`).
`Color.Decode32AsWritten` keeps the parse of the code as written.

Two more quirks are modelled as written, each with a lemma that shows it:

- The mask-read condition (`HeaderDecoding.MasksFollowPrecedence`): because
  `&&` binds tighter than `||`, ALPHABITFIELDS reads masks even at 24 bits.
- The row offset in DrawPixel (`Raster.PrevScansOffByOne`,
  `Raster.PixelPosMatchesDecoding`): `prev_scans` is `y - 1` except at 0, and
  the offset ignores the scan order. So rows 0 and 1 write the same bytes, and
  in a bottom-up image only row 0 writes the pixel the bitmap entry shows.

## Left out

- cli/main.cpp is not part of this model: it does argument parsing, prompting and console rendering, all I/O.
- The tests are not modelled as code. Their fixture files are not part of this model. `HeaderDecoding.ReaderTestImage` is a file with the headers the reader test expects. `Raster.Blank` stands for the decoded white image of the drawer test. The expected text of the Read24bitData test depends on the fixture's pixel bytes and is not stated.
- Stream mechanics (`read`, `seekg`, `ignore`, `seekp`, `write`) are modelled as a byte sequence and a cursor. The stream's fail state after a short read is not modelled: the read fails and the operation stops, as the thrown exception does.
- Exceptions become `Failure`/`Fail` values. The message text is replaced by a tag naming the read or the rule.
- The constructor's endianness check (src/bmp_reader.h:58-61) is a platform query. The model decodes little-endian on every platform.
- The debug output at src/bmp_reader.cpp:188 is left out.
- Writing the edited file copy back to disk is done by no code in the modelled files and is pure I/O.
- The extra fields of the 108- and 124-byte headers are left out. Like the source, the model reads only the 36-byte body and, when required, the three mask words.
- The values of `kStandRMask`, `kStandGMask` and `kStandBMask` are not defined in any source file: src/util/ms_constants.h holds only the compression enum. The model uses the standard BGRx masks 0x00FF0000, 0x0000FF00 and 0x000000FF.
- Read24bitData (declared at src/bmp_reader.h:52) is not part of this model: src/bmp_reader.cpp does not define it, and no other source file does. `BmpReader.BMPReader.ReadDataInline` reads the 24-bit rows with the same scan reader as ReadData.
- `DrawPixel`, `DrawLine`, `DrawCross` and the file copy `bmp_contents_` are not declared in src/bmp_reader.h. The model adds them as members of `BMPReader`, keeping the file copy as an `array<Byte>` holding the whole file.
- `GetImportantFields`, called at test/reader_tests.cpp:22, is not declared in src/bmp_reader.h. The model's `fields` is a public field of the class instead.
- BmpReader.BMPReader.DrawCross is inferred from the drawer test (test/drawer_tests.cpp:12-22, 38, 55-56). The model takes it to be `DrawLine(x1, y1, x2, y2)` followed by `DrawLine(x1, y2, x2, y1)`.
- BmpReader.BMPReader.ReadData and ReadDataInline require well-formed fields. Before ReadHeaders succeeds, the source uses uninitialised fields, and the model does not state its behaviour then.
- BmpReader.BMPReader.ReadHeaders: after a failure, the model states only the failure and not the fields or the cursor. The source leaves them partly updated.
- BmpReader.BMPReader.DrawPixel: requires coordinates inside the image and a file copy that holds the whole pixel array, because the source has no bounds check and writes out of range otherwise. `Drawable` also requires the file copy to be shorter than 2^32 bytes, as the file header's DWord size and offset fields imply. Under that bound the DWord position never wraps (`Raster.PixelPosNoWrap`), so computing it on unbounded integers agrees with the source. For files of 4 GiB or more, where the source's position wraps, the model says nothing.
- BmpReader.BMPReader.DrawLine: computes `(x - x1) * y_diff` and the other shift products on unbounded integers. Under `Drawable`'s bound of fewer than 2^32 file bytes, the image has fewer than 2^32 pixels, so the products stay below 2^32 (`Raster.LineProductsNoWrap`) and agree with the source. The negated unsigned shift added to the start wraps around to the plain difference (`Raster.Toward`). For files of 4 GiB or more, the model says nothing.
- Raster.LinePoints: computes on unbounded integers. It agrees with the source's 32-bit arithmetic for the endpoints `DrawLine` admits, as the DrawLine line states.
- Several methods are extractions of code that the source writes inline in one function: `ReadMasks`, `ReadPixel`, `ReadScan`, `ReadScans`, `PushScans`, `CollectLine`, `CollectShallow`, `CollectSteep` and `DrawPoints`. Each keeps the source's loop or branches. The constructor leaves out the stream pointer.
