/** The reader's header stage as functions: the record of important fields,
    how each header read fills it in, and the derivation of the default
    image size and the row padding. BmpReader's methods are proved to
    follow these functions. */
module HeaderDecoding {
  import opened FieldTypes
  import opened Errors
  import opened MsConstants
  import FH = BitmapFileHeader
  import opened BitmapInfoHeader

  /** The header fields the reader keeps. The pixel depth is kept once, as
      bytes per pixel (bit count / 8). Before any header is read every field
      holds its default; offset, width, height and the depth have no
      initialiser in the record and are 0 here. */
  datatype ImportantFields = ImportantFields(
    offset: DWord,
    width: DWord,
    height: DWord,
    bottomUp: bool,
    bytesPerPixel: Word,
    compression: Compression,
    sizeImage: DWord,
    paletteUsed: bool,
    paletteImportant: DWord,
    paddingBytes: Word)

  const Defaults: ImportantFields :=
    ImportantFields(0, 0, 0, true, 0, RGB, 0, false, 0, 0)

  /** Info-header size words: 12 selects the core dialect, these the new one. */
  const CoreHeaderSize: DWord := 12
  predicate IsNewHeaderSize(size: DWord)
  {
    size == 40 || size == 54 || size == 56 || size == 108 || size == 124
  }

  function Abs(x: int): nat
  {
    if x < 0 then -x else x
  }

  // ---------------------------------------------------------------------------
  // Derived fields

  /** The row padding: for a depth other than 32 bits, `width * bit_count / 8
      % 4` computed in 32-bit unsigned arithmetic, turned into the number of
      bytes that completes the row to a multiple of 4. The wrap-around of the
      product never changes the result. */
  function PaddingFor(width: DWord, bytesPerPixel: nat): (p: Word)
    ensures p <= 3
    ensures p == (4 - width * bytesPerPixel % 4) % 4
    ensures (width * bytesPerPixel + p) % 4 == 0
  {
    var n := width * bytesPerPixel;
    assert width * (8 * bytesPerPixel) == 8 * n;
    var rem := width * (8 * bytesPerPixel) % DWordModulus / 8 % 4;
    WrapKeepsRowRemainder(n);
    CompleteToFour(n);
    if rem > 0 then 4 - rem else 0
  }

  /** Reducing 8 * n modulo 2^32 and dividing by 8 keeps n modulo 4. */
  lemma WrapKeepsRowRemainder(n: nat)
    ensures 8 * n % DWordModulus / 8 % 4 == n % 4
  {
    var k := 8 * n / DWordModulus;
    var m := 8 * n % DWordModulus;
    var t := n - k * 0x2000_0000;
    assert m == 8 * t by {
      assert 8 * n == DWordModulus * k + m;
    }
    assert m / 8 == t by {
      DivEight(t);
    }
    assert t % 4 == n % 4 by {
      assert t == n + 4 * (-k * 0x800_0000);
    }
  }

  lemma DivEight(t: int)
    ensures 8 * t / 8 == t
  {
  }

  lemma CompleteToFour(n: nat)
    ensures var rem := n % 4; var p := if rem > 0 then 4 - rem else 0;
      p == (4 - rem) % 4 && (n + p) % 4 == 0
  {
  }

  /** The implied image size `width * height * bit_count / 8`, computed in
      32-bit unsigned arithmetic; it is the plain product whenever that does
      not wrap. */
  function DefaultSizeImage(width: DWord, height: DWord, bytesPerPixel: nat): (s: DWord)
    ensures width * height * (8 * bytesPerPixel) < DWordModulus ==>
      s == width * height * bytesPerPixel
  {
    var bits := width * height * (8 * bytesPerPixel);
    assert bits == 8 * (width * height * bytesPerPixel);
    bits % DWordModulus / 8
  }

  /** What ReadHeaders computes after both headers are read. */
  function Derive(f: ImportantFields): ImportantFields
  {
    var sized :=
      if f.sizeImage == 0 then f.(sizeImage := DefaultSizeImage(f.width, f.height, f.bytesPerPixel))
      else f;
    if 8 * f.bytesPerPixel != 32 then sized.(paddingBytes := PaddingFor(f.width, f.bytesPerPixel))
    else sized
  }

  /** The fields after a successful ReadHeaders: positive dimensions, a
      3- or 4-byte pixel, and the padding that aligns each row. */
  predicate Wellformed(f: ImportantFields)
  {
    f.width > 0 && f.height > 0 && (f.bytesPerPixel == 3 || f.bytesPerPixel == 4)
    && f.paddingBytes == PaddingFor(f.width, f.bytesPerPixel)
  }

  // ---------------------------------------------------------------------------
  // The header reads

  /** ReadFileHeader: the file header, checked against the expected file
      size unless that is 0; only the pixel offset is kept. */
  function FileHeaderStep(input: seq<Byte>, pos: nat, fileSize: DWord, f: ImportantFields)
    : (r: Result<(ImportantFields, nat)>)
    ensures FH.Read(input, pos).Failure? ==> r == Failure(FH.Read(input, pos).error)
    ensures FH.Read(input, pos).Success? ==>
      var h := FH.Read(input, pos).value.0;
      (r.Failure? <==> fileSize > 0 && h.fileSize != fileSize)
      && (r.Failure? ==> r.error == InvalidBMP(FileSizeMismatch))
      && (r.Success? ==> r.value == (f.(offset := h.offset), pos + FH.Size))
  {
    match FH.Read(input, pos)
    case Failure(e) => Failure(e)
    case Success((h, p)) =>
      if fileSize > 0 && h.fileSize != fileSize then Failure(InvalidBMP(FileSizeMismatch))
      else Success((f.(offset := h.offset), p))
  }

  /** The fields a core header sets; all others keep their values. */
  function ApplyCore(f: ImportantFields, h: CoreHeader): ImportantFields
  {
    f.(width := h.width, height := h.height, bytesPerPixel := h.bitCount / 8)
  }

  /** ReadCoreInfoHeader. */
  function CoreInfoHeaderStep(input: seq<Byte>, pos: nat, f: ImportantFields)
    : (r: Result<(ImportantFields, nat)>)
    ensures ReadCore(input, pos).Failure? ==> r == Failure(ReadCore(input, pos).error)
    ensures ReadCore(input, pos).Success? ==> r.Success?
    ensures r.Success? ==>
      var h := DecodeCore(input[pos..pos + CoreSize]);
      CheckCore(h).Accept? && r.value == (ApplyCore(f, h), pos + CoreSize)
  {
    match ReadCore(input, pos)
    case Failure(e) => Failure(e)
    case Success((h, p)) => Success((ApplyCore(f, h), p))
  }

  /** The fields a validated new-dialect header sets: the height's sign
      gives the scan order and its magnitude the row count; the palette
      fields change only when the palette is used. */
  function ApplyInfo(f: ImportantFields, h: InfoHeader): (g: ImportantFields)
    requires CheckInfo(h).Accept?
    ensures g.width > 0 && g.height > 0 && (g.bytesPerPixel == 3 || g.bytesPerPixel == 4)
    ensures g.height == Abs(h.height) && (g.bottomUp <==> h.height > 0)
    ensures Code(g.compression) == h.compression
  {
    var g := f.(
      width := h.width,
      height := Abs(h.height),
      bottomUp := h.height > 0,
      bytesPerPixel := h.bitCount / 8,
      compression := FromCode(h.compression),
      sizeImage := h.sizeImage);
    if h.clrUsed > 0 then g.(paletteUsed := true, paletteImportant := h.clrImportant) else g
  }

  /** The condition under which channel masks follow the header, as the
      source writes it: `&&` binds tighter than `||`. */
  predicate MasksFollow(bytesPerPixel: int, compression: Compression)
  {
    (bytesPerPixel == 4 && compression == BITFIELDS) || compression == ALPHABITFIELDS
  }

  /** Because of that precedence, ALPHABITFIELDS asks for masks even in a
      24-bit image, while BITFIELDS does so only in a 32-bit one. */
  lemma MasksFollowPrecedence()
    ensures MasksFollow(3, ALPHABITFIELDS)
    ensures !MasksFollow(3, BITFIELDS) && MasksFollow(4, BITFIELDS)
    ensures forall b :: !MasksFollow(b, RGB)
  {
  }

  const MasksSize: nat := 12

  /** The red, green and blue mask words are the standard ones. */
  predicate StandardMaskWords(red: DWord, green: DWord, blue: DWord)
  {
    red == StandRMask && green == StandGMask && blue == StandBMask
  }

  /** Three little-endian mask words equal to the standard R, G, B masks. */
  predicate StandardMasks(b: seq<Byte>)
    requires |b| == MasksSize
  {
    StandardMaskWords(DWordOf(b[0..4]), DWordOf(b[4..8]), DWordOf(b[8..12]))
  }

  /** The masks after the header body: a short read is an I/O failure,
      non-standard masks an invalid-document failure. */
  function MasksStep(input: seq<Byte>, pos: nat, f: ImportantFields)
    : (r: Result<(ImportantFields, nat)>)
    ensures r == Failure(IOError(BitMaskRead)) <==> |input| < pos + MasksSize
    ensures r == Failure(InvalidBMP(NonStandardMasks)) <==>
      pos + MasksSize <= |input| && !StandardMasks(input[pos..pos + MasksSize])
    ensures r.Success? <==> pos + MasksSize <= |input| && StandardMasks(input[pos..pos + MasksSize])
    ensures r.Success? ==> r.value == (f, pos + MasksSize)
  {
    if |input| < pos + MasksSize then Failure(IOError(BitMaskRead))
    else if !StandardMasks(input[pos..pos + MasksSize]) then Failure(InvalidBMP(NonStandardMasks))
    else Success((f, pos + MasksSize))
  }

  /** ReadNewInfoHeader: the header body, then the masks exactly when
      MasksFollow holds. A short mask read is an I/O failure, non-standard
      masks an invalid-document failure. */
  function NewInfoHeaderStep(input: seq<Byte>, pos: nat, f: ImportantFields)
    : (r: Result<(ImportantFields, nat)>)
    ensures ReadInfo(input, pos).Failure? ==> r == Failure(ReadInfo(input, pos).error)
    ensures ReadInfo(input, pos).Success? ==>
      var g := ApplyInfo(f, ReadInfo(input, pos).value.0);
      var end := pos + InfoSize;
      if MasksFollow(g.bytesPerPixel, g.compression) then
        (r == Failure(IOError(BitMaskRead)) <==> |input| < end + MasksSize)
        && (r == Failure(InvalidBMP(NonStandardMasks)) <==>
              end + MasksSize <= |input| && !StandardMasks(input[end..end + MasksSize]))
        && (r.Success? <==>
              end + MasksSize <= |input| && StandardMasks(input[end..end + MasksSize]))
        && (r.Success? ==> r.value == (g, end + MasksSize))
      else
        r == Success((g, end))
  {
    match ReadInfo(input, pos)
    case Failure(e) => Failure(e)
    case Success((h, p)) =>
      var g := ApplyInfo(f, h);
      if MasksFollow(g.bytesPerPixel, g.compression) then MasksStep(input, p, g)
      else Success((g, p))
  }

  /** ReadInfoHeader: the size word selects the dialect. */
  function InfoHeaderStep(input: seq<Byte>, pos: nat, f: ImportantFields)
    : (r: Result<(ImportantFields, nat)>)
    ensures |input| < pos + 4 ==> r == Failure(IOError(InfoHeaderSizeRead))
    ensures pos + 4 <= |input| ==>
      var size := DWordOf(input[pos..pos + 4]);
      (r == Failure(InvalidBMP(BadInfoHeaderSize)) <==> size != CoreHeaderSize && !IsNewHeaderSize(size))
      && (size == CoreHeaderSize ==> r == CoreInfoHeaderStep(input, pos + 4, f))
      && (IsNewHeaderSize(size) ==> r == NewInfoHeaderStep(input, pos + 4, f))
  {
    if |input| < pos + 4 then Failure(IOError(InfoHeaderSizeRead))
    else
      var size := DWordOf(input[pos..pos + 4]);
      if size == CoreHeaderSize then CoreInfoHeaderStep(input, pos + 4, f)
      else if IsNewHeaderSize(size) then NewInfoHeaderStep(input, pos + 4, f)
      else Failure(InvalidBMP(BadInfoHeaderSize))
  }

  /** ReadHeaders from a given stream position and field record: the file
      header first, then the info header; a failure of either is the result,
      and only when both succeed are the size and padding derived. */
  function HeadersFrom(input: seq<Byte>, pos: nat, fileSize: DWord, f: ImportantFields)
    : Result<(ImportantFields, nat)>
  {
    match FileHeaderStep(input, pos, fileSize, f)
    case Failure(e) => Failure(e)
    case Success((f1, p1)) =>
      match InfoHeaderStep(input, p1, f1)
      case Failure(e) => Failure(e)
      case Success((f2, p2)) => Success((Derive(f2), p2))
  }

  /** The whole header stage of a fresh reader: from the start of the file,
      fields at their defaults. A success is always well formed and keeps
      the file header's offset. */
  function ReadHeaders(input: seq<Byte>, fileSize: DWord): (r: Result<ImportantFields>)
    ensures r.Success? ==> Wellformed(r.value)
    ensures r.Success? ==>
      FH.Size <= |input| && r.value.offset == FH.Decode(input[..FH.Size]).offset
  {
    var res := HeadersFrom(input, 0, fileSize, Defaults);
    if res.Failure? then Failure(res.error)
    else
      DerivedWellformed(input, fileSize);
      Success(res.value.0)
  }

  lemma DerivedWellformed(input: seq<Byte>, fileSize: DWord)
    requires HeadersFrom(input, 0, fileSize, Defaults).Success?
    ensures Wellformed(HeadersFrom(input, 0, fileSize, Defaults).value.0)
    ensures HeadersFrom(input, 0, fileSize, Defaults).value.0.offset
      == FH.Decode(input[..FH.Size]).offset
  {
    var (f1, p1) := FileHeaderStep(input, 0, fileSize, Defaults).value;
    assert input[0..FH.Size] == input[..FH.Size];
    InfoHeaderStepFields(input, p1, f1);
    DeriveWellformed(InfoHeaderStep(input, p1, f1).value.0);
  }

  /** Either dialect leaves positive dimensions, 3 or 4 bytes per pixel and
      the padding untouched. */
  lemma InfoHeaderStepFields(input: seq<Byte>, pos: nat, f: ImportantFields)
    requires InfoHeaderStep(input, pos, f).Success?
    ensures var g := InfoHeaderStep(input, pos, f).value.0;
      g.width > 0 && g.height > 0 && (g.bytesPerPixel == 3 || g.bytesPerPixel == 4)
      && g.paddingBytes == f.paddingBytes && g.offset == f.offset
  {
    var size := DWordOf(input[pos..pos + 4]);
    if size == CoreHeaderSize {
      var h := ReadCore(input, pos + 4).value.0;
      assert h.bitCount == 24 || h.bitCount == 32;
    } else {
      var h := ReadInfo(input, pos + 4).value.0;
      assert CheckInfo(h).Accept?;
    }
  }

  lemma DeriveWellformed(f: ImportantFields)
    requires f.width > 0 && f.height > 0 && (f.bytesPerPixel == 3 || f.bytesPerPixel == 4)
    requires f.paddingBytes == 0
    ensures Wellformed(Derive(f)) && Derive(f).offset == f.offset
  {
    if f.bytesPerPixel == 4 {
      assert f.width * 4 % 4 == 0;
    }
  }

  // ---------------------------------------------------------------------------
  // Properties of the whole header stage

  /** A nonzero expected size must match the header's; 0 disables the check. */
  lemma FileSizeChecked(input: seq<Byte>, fileSize: DWord)
    requires FH.Read(input, 0).Success?
    ensures var h := FH.Read(input, 0).value.0;
      (fileSize > 0 && h.fileSize != fileSize ==>
        ReadHeaders(input, fileSize) == Failure(InvalidBMP(FileSizeMismatch)))
      && (h.fileSize == fileSize ==> ReadHeaders(input, fileSize) == ReadHeaders(input, 0))
  {
  }

  /** A size word that names no known dialect, such as 20, is an
      invalid-document failure. */
  lemma UnknownInfoHeaderSize(input: seq<Byte>, fileSize: DWord)
    requires FileHeaderStep(input, 0, fileSize, Defaults).Success?
    requires FH.Size + 4 <= |input|
    requires var size := DWordOf(input[FH.Size..FH.Size + 4]);
      size != CoreHeaderSize && !IsNewHeaderSize(size)
    ensures ReadHeaders(input, fileSize) == Failure(InvalidBMP(BadInfoHeaderSize))
  {
  }

  lemma HeaderSize20Rejected()
    ensures !IsNewHeaderSize(20) && 20 != CoreHeaderSize
  {
  }

  /** A core header sets only the dimensions and the depth; every other
      field keeps its default, and the size and padding are derived. */
  lemma CoreDialectFields(input: seq<Byte>, fileSize: DWord, f: ImportantFields)
    requires ReadHeaders(input, fileSize) == Success(f)
    requires FH.Size + 4 <= |input| && DWordOf(input[FH.Size..FH.Size + 4]) == CoreHeaderSize
    ensures FH.Size + 4 + CoreSize <= |input|
    ensures var start := FH.Size + 4;
      var h := DecodeCore(input[start..start + CoreSize]);
      f.width == h.width && f.height == h.height && f.bytesPerPixel == h.bitCount / 8
      && f.bottomUp && f.compression == RGB && !f.paletteUsed && f.paletteImportant == 0
      && f.sizeImage == DefaultSizeImage(h.width, h.height, h.bitCount / 8)
      && f.paddingBytes == PaddingFor(h.width, h.bitCount / 8)
  {
    HeadersSteps(input, fileSize);
    var f1 := FileHeaderStep(input, 0, fileSize, Defaults).value.0;
    var start := FH.Size + 4;
    assert InfoHeaderStep(input, FH.Size, f1) == CoreInfoHeaderStep(input, start, f1);
  }

  /** A new-dialect header: the height's sign gives the scan order and its
      magnitude the row count, the depth is 3 or 4 bytes, a declared image
      size is kept and a zero one derived, and the palette fields are taken
      only when colours are used. */
  lemma NewDialectFields(input: seq<Byte>, fileSize: DWord, f: ImportantFields)
    requires ReadHeaders(input, fileSize) == Success(f)
    requires FH.Size + 4 <= |input| && IsNewHeaderSize(DWordOf(input[FH.Size..FH.Size + 4]))
    ensures FH.Size + 4 + InfoSize <= |input|
    ensures var start := FH.Size + 4;
      var h := DecodeInfo(input[start..start + InfoSize]);
      f.width == h.width && f.height == Abs(h.height) && (f.bottomUp <==> h.height > 0)
      && f.bytesPerPixel == h.bitCount / 8 && (f.bytesPerPixel == 3 || f.bytesPerPixel == 4)
      && Code(f.compression) == h.compression
      && f.sizeImage == (if h.sizeImage == 0 then DefaultSizeImage(f.width, f.height, f.bytesPerPixel)
                         else h.sizeImage)
      && (f.paletteUsed <==> h.clrUsed > 0)
      && f.paletteImportant == (if h.clrUsed > 0 then h.clrImportant else 0)
  {
    HeadersSteps(input, fileSize);
    var f1 := FileHeaderStep(input, 0, fileSize, Defaults).value.0;
    assert !f1.paletteUsed && f1.paletteImportant == 0;
    var start := FH.Size + 4;
    NewInfoHeaderStepApplies(input, start, f1);
    var h := DecodeInfo(input[start..start + InfoSize]);
    assert f == Derive(ApplyInfo(f1, h));
    DeriveApplyInfo(f1, h);
  }

  /** The derived fields of an accepted new-dialect header applied to fields
      with no palette. */
  lemma DeriveApplyInfo(f1: ImportantFields, h: InfoHeader)
    requires CheckInfo(h).Accept? && !f1.paletteUsed && f1.paletteImportant == 0
    ensures var f := Derive(ApplyInfo(f1, h));
      f.width == h.width && f.height == Abs(h.height) && (f.bottomUp <==> h.height > 0)
      && f.bytesPerPixel == h.bitCount / 8 && (f.bytesPerPixel == 3 || f.bytesPerPixel == 4)
      && Code(f.compression) == h.compression
      && f.sizeImage == (if h.sizeImage == 0 then DefaultSizeImage(f.width, f.height, f.bytesPerPixel)
                         else h.sizeImage)
      && (f.paletteUsed <==> h.clrUsed > 0)
      && f.paletteImportant == (if h.clrUsed > 0 then h.clrImportant else 0)
  {
  }

  /** A failed file-header read aborts the header stage with its error, and
      so does a failed info-header read after a successful file-header read;
      nothing is derived in either case. */
  lemma HeadersFromAborts(input: seq<Byte>, pos: nat, fileSize: DWord, f: ImportantFields)
    ensures FileHeaderStep(input, pos, fileSize, f).Failure? ==>
      HeadersFrom(input, pos, fileSize, f) == Failure(FileHeaderStep(input, pos, fileSize, f).error)
    ensures FileHeaderStep(input, pos, fileSize, f).Success? ==>
      var p1 := pos + FH.Size;
      var f1 := f.(offset := FH.Read(input, pos).value.0.offset);
      InfoHeaderStep(input, p1, f1).Failure? ==>
        HeadersFrom(input, pos, fileSize, f) == Failure(InfoHeaderStep(input, p1, f1).error)
  {
  }

  /** The same for a fresh reader: the stage stops at the first read that
      fails, with that read's error. */
  lemma ReadHeadersAborts(input: seq<Byte>, fileSize: DWord)
    ensures FileHeaderStep(input, 0, fileSize, Defaults).Failure? ==>
      ReadHeaders(input, fileSize) == Failure(FileHeaderStep(input, 0, fileSize, Defaults).error)
    ensures FileHeaderStep(input, 0, fileSize, Defaults).Success? ==>
      var f1 := Defaults.(offset := FH.Read(input, 0).value.0.offset);
      InfoHeaderStep(input, FH.Size, f1).Failure? ==>
        ReadHeaders(input, fileSize) == Failure(InfoHeaderStep(input, FH.Size, f1).error)
  {
    HeadersFromAborts(input, 0, fileSize, Defaults);
  }

  /** A successful header stage from any position and field record is a
      successful file-header read of 14 bytes, a successful info-header read
      after it, and the derivation of what that leaves. */
  lemma HeadersFromSteps(input: seq<Byte>, pos: nat, fileSize: DWord, f: ImportantFields)
    requires HeadersFrom(input, pos, fileSize, f).Success?
    ensures FileHeaderStep(input, pos, fileSize, f).Success?
    ensures var (f1, p1) := FileHeaderStep(input, pos, fileSize, f).value;
      p1 == pos + FH.Size && f1 == f.(offset := FH.Read(input, pos).value.0.offset)
      && InfoHeaderStep(input, p1, f1).Success?
      && HeadersFrom(input, pos, fileSize, f)
        == Success((Derive(InfoHeaderStep(input, p1, f1).value.0), InfoHeaderStep(input, p1, f1).value.1))
  {
  }

  /** A successful header stage is a successful file-header read of 14
      bytes, a successful info-header read after it, and the derivation. */
  lemma HeadersSteps(input: seq<Byte>, fileSize: DWord)
    requires ReadHeaders(input, fileSize).Success?
    ensures FileHeaderStep(input, 0, fileSize, Defaults).Success?
    ensures var (f1, p1) := FileHeaderStep(input, 0, fileSize, Defaults).value;
      p1 == FH.Size && InfoHeaderStep(input, p1, f1).Success?
      && ReadHeaders(input, fileSize).value == Derive(InfoHeaderStep(input, p1, f1).value.0)
  {
  }

  /** A successful new-dialect read applies the 36 header bytes. */
  lemma NewInfoHeaderStepApplies(input: seq<Byte>, pos: nat, f: ImportantFields)
    requires NewInfoHeaderStep(input, pos, f).Success?
    ensures pos + InfoSize <= |input|
    ensures CheckInfo(DecodeInfo(input[pos..pos + InfoSize])).Accept?
    ensures NewInfoHeaderStep(input, pos, f).value.0 == ApplyInfo(f, DecodeInfo(input[pos..pos + InfoSize]))
  {
  }

  /** A 10-pixel, 24-bit row takes 30 bytes and needs 2 bytes of padding. */
  lemma PaddingForTenPixels()
    ensures PaddingFor(10, 3) == 2
  {
    var p := PaddingFor(10, 3);
    assert 10 * 3 == 30;
    assert p == (4 - 30 % 4) % 4;
  }

  /** The reader test's image: a 10x10, 24-bit, bottom-up file of 374
      bytes with its 320 pixel bytes at offset 54. */
  function ReaderTestImage(xPxPerMeter: Long, yPxPerMeter: Long, pixels: seq<Byte>): seq<Byte>
  {
    FH.Encode(FH.FileHeader(FH.Magic, 374, 0, 0, 54)) + DWordBytes(40)
      + EncodeInfo(InfoHeader(10, 10, 1, 24, 0, 320, xPxPerMeter, yPxPerMeter, 0, 0)) + pixels
  }

  lemma ReaderTestFileHeader(xPxPerMeter: Long, yPxPerMeter: Long, pixels: seq<Byte>)
    requires |pixels| == 320
    ensures var input := ReaderTestImage(xPxPerMeter, yPxPerMeter, pixels);
      |input| == 374
      && FileHeaderStep(input, 0, 374, Defaults) == Success((Defaults.(offset := 54), 14))
  {
    var fh := FH.FileHeader(FH.Magic, 374, 0, 0, 54);
    var input := ReaderTestImage(xPxPerMeter, yPxPerMeter, pixels);
    assert input[0..FH.Size] == FH.Encode(fh);
    FH.DecodeEncode(fh);
  }

  lemma ReaderTestInfoHeader(xPxPerMeter: Long, yPxPerMeter: Long, pixels: seq<Byte>)
    requires |pixels| == 320
    ensures var input := ReaderTestImage(xPxPerMeter, yPxPerMeter, pixels);
      |input| == 374
      && InfoHeaderStep(input, 14, Defaults.(offset := 54))
        == Success((ImportantFields(54, 10, 10, true, 3, RGB, 320, false, 0, 0), 54))
  {
    var ih := InfoHeader(10, 10, 1, 24, 0, 320, xPxPerMeter, yPxPerMeter, 0, 0);
    var input := ReaderTestImage(xPxPerMeter, yPxPerMeter, pixels);
    assert input[14..18] == DWordBytes(40);
    DWordRoundTrip(40);
    assert input[18..54] == EncodeInfo(ih);
    DecodeEncodeInfo(ih);
    assert DWordOf(input[14..18]) == 40;
    assert CheckInfo(ih).Accept?;
    assert ReadInfo(input, 18) == Success((ih, 54));
    var f := Defaults.(offset := 54);
    var g := ApplyInfo(f, ih);
    CodeInjective(g.compression, RGB);
    assert g == ImportantFields(54, 10, 10, true, 3, RGB, 320, false, 0, 0);
    assert !MasksFollow(g.bytesPerPixel, g.compression);
    assert NewInfoHeaderStep(input, 18, f) == Success((g, 54));
  }

  /** The test expects exactly these fields for its image, padding 2
      included, whatever its resolution and pixel bytes. */
  lemma ReaderTestHeaders(xPxPerMeter: Long, yPxPerMeter: Long, pixels: seq<Byte>)
    requires |pixels| == 320
    ensures var input := ReaderTestImage(xPxPerMeter, yPxPerMeter, pixels);
      ReadHeaders(input, |input|) == Success(ImportantFields(54, 10, 10, true, 3, RGB, 320, false, 0, 2))
  {
    ReaderTestFileHeader(xPxPerMeter, yPxPerMeter, pixels);
    ReaderTestInfoHeader(xPxPerMeter, yPxPerMeter, pixels);
    ReaderTestDerivation(ReaderTestImage(xPxPerMeter, yPxPerMeter, pixels));
  }

  lemma ReaderTestDerivation(input: seq<Byte>)
    requires FileHeaderStep(input, 0, 374, Defaults) == Success((Defaults.(offset := 54), 14))
    requires InfoHeaderStep(input, 14, Defaults.(offset := 54))
      == Success((ImportantFields(54, 10, 10, true, 3, RGB, 320, false, 0, 0), 54))
    ensures ReadHeaders(input, 374) == Success(ImportantFields(54, 10, 10, true, 3, RGB, 320, false, 0, 2))
  {
    var g := ImportantFields(54, 10, 10, true, 3, RGB, 320, false, 0, 0);
    ReadHeadersBySteps(input, 374, Defaults.(offset := 54), 14, g, 54);
    ReaderTestPadding();
  }

  lemma ReaderTestPadding()
    ensures Derive(ImportantFields(54, 10, 10, true, 3, RGB, 320, false, 0, 0))
      == ImportantFields(54, 10, 10, true, 3, RGB, 320, false, 0, 2)
  {
    PaddingForTenPixels();
  }

  /** ReadHeaders is the derivation applied to what the two reads leave. */
  lemma ReadHeadersBySteps(input: seq<Byte>, fileSize: DWord, f1: ImportantFields, p1: nat,
                           f2: ImportantFields, p2: nat)
    requires FileHeaderStep(input, 0, fileSize, Defaults) == Success((f1, p1))
    requires InfoHeaderStep(input, p1, f1) == Success((f2, p2))
    ensures ReadHeaders(input, fileSize) == Success(Derive(f2))
  {
  }
}
