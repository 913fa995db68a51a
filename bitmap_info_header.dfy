/** The two info-header dialects, BITMAPCOREHEADER and BITMAPINFOHEADER
    (the 36 bytes that follow the size word), their packed layouts and
    their validating reads. */
module BitmapInfoHeader {
  import opened FieldTypes
  import opened Errors
  import opened MsConstants

  // ---------------------------------------------------------------------------
  // The core (OS/2) dialect

  datatype CoreHeader = CoreHeader(width: Word, height: Word, planes: Word, bitCount: Word)

  const CoreSize: nat := 8

  function EncodeCore(h: CoreHeader): (b: seq<Byte>)
    ensures |b| == CoreSize
  {
    WordBytes(h.width) + WordBytes(h.height) + WordBytes(h.planes) + WordBytes(h.bitCount)
  }

  function DecodeCore(b: seq<Byte>): CoreHeader
    requires |b| == CoreSize
  {
    CoreHeader(WordOf(b[0..2]), WordOf(b[2..4]), WordOf(b[4..6]), WordOf(b[6..8]))
  }

  lemma DecodeEncodeCore(h: CoreHeader)
    ensures DecodeCore(EncodeCore(h)) == h
  {
    var b := EncodeCore(h);
    assert b[0..2] == WordBytes(h.width);
    assert b[2..4] == WordBytes(h.height);
    assert b[4..6] == WordBytes(h.planes);
    assert b[6..8] == WordBytes(h.bitCount);
    WordRoundTrip(h.width);
    WordRoundTrip(h.height);
    WordRoundTrip(h.planes);
    WordRoundTrip(h.bitCount);
  }

  lemma EncodeDecodeCore(b: seq<Byte>)
    requires |b| == CoreSize
    ensures EncodeCore(DecodeCore(b)) == b
  {
    WordBytesRoundTrip(b[0..2]);
    WordBytesRoundTrip(b[2..4]);
    WordBytesRoundTrip(b[4..6]);
    WordBytesRoundTrip(b[6..8]);
    assert b == b[0..2] + b[2..4] + b[4..6] + b[6..8];
  }

  /** The first rule a core header breaks, in the order the reader checks. */
  function CheckCore(h: CoreHeader): (v: Verdict)
    ensures v.Accept? <==>
      h.width > 0 && h.height > 0 && h.planes == 1 && (h.bitCount == 24 || h.bitCount == 32)
    ensures v == Reject(NonPositiveSize) <==> h.width == 0 || h.height == 0
    ensures v == Reject(BadPlanes) <==> h.width > 0 && h.height > 0 && h.planes != 1
    ensures v == Reject(BadBitCount) <==>
      h.width > 0 && h.height > 0 && h.planes == 1 && h.bitCount != 24 && h.bitCount != 32
  {
    if !(h.width > 0 && h.height > 0) then Reject(NonPositiveSize)
    else if h.planes != 1 then Reject(BadPlanes)
    else if !(h.bitCount == 24 || h.bitCount == 32) then Reject(BadBitCount)
    else Accept
  }

  /** Reading a core header: fewer than 8 bytes is an I/O failure, a broken
      rule an invalid-document failure; an accepted header is the 8 bytes
      as read. */
  function ReadCore(input: seq<Byte>, pos: nat): (r: Result<(CoreHeader, nat)>)
    ensures r == Failure(IOError(CoreHeaderRead)) <==> |input| < pos + CoreSize
    ensures r.Success? <==>
      pos + CoreSize <= |input| && CheckCore(DecodeCore(input[pos..pos + CoreSize])).Accept?
    ensures r.Failure? && r.error.InvalidBMP? ==>
      pos + CoreSize <= |input|
      && CheckCore(DecodeCore(input[pos..pos + CoreSize])) == Reject(r.error.violation)
    ensures r.Success? ==>
      r.value.1 == pos + CoreSize && EncodeCore(r.value.0) == input[pos..pos + CoreSize]
  {
    if |input| < pos + CoreSize then Failure(IOError(CoreHeaderRead))
    else
      var b := input[pos..pos + CoreSize];
      EncodeDecodeCore(b);
      match CheckCore(DecodeCore(b))
      case Reject(v) => Failure(InvalidBMP(v))
      case Accept => Success((DecodeCore(b), pos + CoreSize))
  }

  // ---------------------------------------------------------------------------
  // The new (Win32, version 3) dialect

  datatype InfoHeader = InfoHeader(
    width: Long,
    height: Long,
    planes: Word,
    bitCount: Word,
    compression: DWord,
    sizeImage: DWord,
    xPxPerMeter: Long,
    yPxPerMeter: Long,
    clrUsed: DWord,
    clrImportant: DWord)

  /** The record's packed size; the 4-byte size word before it is read
      separately. */
  const InfoSize: nat := 36

  function EncodeInfo(h: InfoHeader): (b: seq<Byte>)
    ensures |b| == InfoSize
  {
    (LongBytes(h.width) + LongBytes(h.height) + WordBytes(h.planes) + WordBytes(h.bitCount)
      + DWordBytes(h.compression))
    + (DWordBytes(h.sizeImage) + LongBytes(h.xPxPerMeter) + LongBytes(h.yPxPerMeter)
      + DWordBytes(h.clrUsed) + DWordBytes(h.clrImportant))
  }

  function DecodeInfo(b: seq<Byte>): InfoHeader
    requires |b| == InfoSize
  {
    InfoHeader(
      width := LongOf(b[0..4]),
      height := LongOf(b[4..8]),
      planes := WordOf(b[8..10]),
      bitCount := WordOf(b[10..12]),
      compression := DWordOf(b[12..16]),
      sizeImage := DWordOf(b[16..20]),
      xPxPerMeter := LongOf(b[20..24]),
      yPxPerMeter := LongOf(b[24..28]),
      clrUsed := DWordOf(b[28..32]),
      clrImportant := DWordOf(b[32..36]))
  }

  lemma DecodeEncodeInfo(h: InfoHeader)
    ensures DecodeInfo(EncodeInfo(h)) == h
  {
    var b := EncodeInfo(h);
    assert b[0..4] == LongBytes(h.width);
    assert b[4..8] == LongBytes(h.height);
    assert b[8..10] == WordBytes(h.planes);
    assert b[10..12] == WordBytes(h.bitCount);
    assert b[12..16] == DWordBytes(h.compression);
    assert b[16..20] == DWordBytes(h.sizeImage);
    assert b[20..24] == LongBytes(h.xPxPerMeter);
    assert b[24..28] == LongBytes(h.yPxPerMeter);
    assert b[28..32] == DWordBytes(h.clrUsed);
    assert b[32..36] == DWordBytes(h.clrImportant);
    LongRoundTrip(h.width);
    LongRoundTrip(h.height);
    WordRoundTrip(h.planes);
    WordRoundTrip(h.bitCount);
    DWordRoundTrip(h.compression);
    DWordRoundTrip(h.sizeImage);
    LongRoundTrip(h.xPxPerMeter);
    LongRoundTrip(h.yPxPerMeter);
    DWordRoundTrip(h.clrUsed);
    DWordRoundTrip(h.clrImportant);
  }

  /** The first 16 bytes: dimensions, planes, bit count, compression. */
  lemma EncodeDecodeInfoFront(b: seq<Byte>)
    requires |b| == InfoSize
    ensures var d := DecodeInfo(b);
      LongBytes(d.width) + LongBytes(d.height) + WordBytes(d.planes) + WordBytes(d.bitCount)
        + DWordBytes(d.compression) == b[..16]
  {
    LongBytesRoundTrip(b[0..4]);
    LongBytesRoundTrip(b[4..8]);
    WordBytesRoundTrip(b[8..10]);
    WordBytesRoundTrip(b[10..12]);
    DWordBytesRoundTrip(b[12..16]);
    assert b[..16] == b[0..4] + b[4..8] + b[8..10] + b[10..12] + b[12..16];
  }

  /** The last 20 bytes: image size, resolution, palette counts. */
  lemma EncodeDecodeInfoBack(b: seq<Byte>)
    requires |b| == InfoSize
    ensures var d := DecodeInfo(b);
      DWordBytes(d.sizeImage) + LongBytes(d.xPxPerMeter) + LongBytes(d.yPxPerMeter)
        + DWordBytes(d.clrUsed) + DWordBytes(d.clrImportant) == b[16..]
  {
    DWordBytesRoundTrip(b[16..20]);
    LongBytesRoundTrip(b[20..24]);
    LongBytesRoundTrip(b[24..28]);
    DWordBytesRoundTrip(b[28..32]);
    DWordBytesRoundTrip(b[32..36]);
    assert b[16..] == b[16..20] + b[20..24] + b[24..28] + b[28..32] + b[32..36];
  }

  lemma EncodeDecodeInfo(b: seq<Byte>)
    requires |b| == InfoSize
    ensures EncodeInfo(DecodeInfo(b)) == b
  {
    EncodeDecodeInfoFront(b);
    EncodeDecodeInfoBack(b);
    assert b == b[..16] + b[16..];
  }

  /** The compression codes accepted for 24- and 32-bit images. */
  predicate AcceptedCompression(code: DWord)
  {
    code == Code(RGB) || code == Code(BITFIELDS) || code == Code(ALPHABITFIELDS)
  }

  /** The first rule a new-dialect header breaks, in the order the reader
      checks. The resolution fields take part in no rule. */
  function CheckInfo(h: InfoHeader): (v: Verdict)
    ensures v.Accept? <==>
      h.width > 0 && h.height != 0 && h.planes == 1 && (h.bitCount == 24 || h.bitCount == 32)
      && AcceptedCompression(h.compression)
      && (h.compression == Code(RGB) || h.sizeImage > 0)
      && h.clrImportant <= h.clrUsed
    ensures v == Reject(NonPositiveWidth) <==> h.width <= 0
    ensures v == Reject(ZeroHeight) <==> h.width > 0 && h.height == 0
    ensures v == Reject(BadPlanes) <==> h.width > 0 && h.height != 0 && h.planes != 1
    ensures v == Reject(BadBitCount) <==>
      h.width > 0 && h.height != 0 && h.planes == 1 && h.bitCount != 24 && h.bitCount != 32
    ensures v == Reject(BadCompression) <==>
      h.width > 0 && h.height != 0 && h.planes == 1 && (h.bitCount == 24 || h.bitCount == 32)
      && !AcceptedCompression(h.compression)
    ensures v == Reject(ZeroSizeImage) <==>
      h.width > 0 && h.height != 0 && h.planes == 1 && (h.bitCount == 24 || h.bitCount == 32)
      && AcceptedCompression(h.compression) && h.compression != Code(RGB) && h.sizeImage == 0
    ensures v == Reject(TooManyImportant) <==>
      h.width > 0 && h.height != 0 && h.planes == 1 && (h.bitCount == 24 || h.bitCount == 32)
      && AcceptedCompression(h.compression) && (h.compression == Code(RGB) || h.sizeImage > 0)
      && h.clrImportant > h.clrUsed
  {
    if !(h.width > 0) then Reject(NonPositiveWidth)
    else if !(h.height != 0) then Reject(ZeroHeight)
    else if h.planes != 1 then Reject(BadPlanes)
    else if !(h.bitCount == 24 || h.bitCount == 32) then Reject(BadBitCount)
    else if !AcceptedCompression(h.compression) then Reject(BadCompression)
    else if !(h.compression == Code(RGB) || h.sizeImage > 0) then Reject(ZeroSizeImage)
    else if !(h.clrImportant <= h.clrUsed) then Reject(TooManyImportant)
    else Accept
  }

  /** The resolution fields never change the verdict. */
  lemma ResolutionIgnored(h: InfoHeader, x: Long, y: Long)
    ensures CheckInfo(h.(xPxPerMeter := x, yPxPerMeter := y)) == CheckInfo(h)
  {
  }

  /** Reading a new-dialect header body: fewer than 36 bytes is an I/O
      failure, a broken rule an invalid-document failure; an accepted header
      is the 36 bytes as read. */
  function ReadInfo(input: seq<Byte>, pos: nat): (r: Result<(InfoHeader, nat)>)
    ensures r == Failure(IOError(InfoHeaderRead)) <==> |input| < pos + InfoSize
    ensures r.Success? <==>
      pos + InfoSize <= |input| && CheckInfo(DecodeInfo(input[pos..pos + InfoSize])).Accept?
    ensures r.Failure? && r.error.InvalidBMP? ==>
      pos + InfoSize <= |input|
      && CheckInfo(DecodeInfo(input[pos..pos + InfoSize])) == Reject(r.error.violation)
    ensures r.Success? ==>
      r.value.1 == pos + InfoSize && r.value.0 == DecodeInfo(input[pos..pos + InfoSize])
  {
    if |input| < pos + InfoSize then Failure(IOError(InfoHeaderRead))
    else
      var b := input[pos..pos + InfoSize];
      match CheckInfo(DecodeInfo(b))
      case Reject(v) => Failure(InvalidBMP(v))
      case Accept => Success((DecodeInfo(b), pos + InfoSize))
  }

  /** An accepted new-dialect header is the 36 bytes exactly as read:
      writing it back reproduces them. */
  lemma ReadInfoExact(input: seq<Byte>, pos: nat)
    requires ReadInfo(input, pos).Success?
    ensures EncodeInfo(ReadInfo(input, pos).value.0) == input[pos..pos + InfoSize]
  {
    EncodeDecodeInfo(input[pos..pos + InfoSize]);
  }
}
