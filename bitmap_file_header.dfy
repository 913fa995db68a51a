/** The 14-byte BITMAPFILEHEADER record, its packed layout and its
    validating read. */
module BitmapFileHeader {
  import opened FieldTypes
  import opened Errors

  datatype FileHeader = FileHeader(
    signature: Word,
    fileSize: DWord,
    reserved1: Word,
    reserved2: Word,
    offset: DWord)

  /** Size of the packed record. */
  const Size: nat := 14
  /** "BM" read as a little-endian Word. */
  const Magic: Word := 0x4D42

  /** The packed little-endian image of a header, fields in declared order. */
  function Encode(h: FileHeader): (b: seq<Byte>)
    ensures |b| == Size
  {
    WordBytes(h.signature) + DWordBytes(h.fileSize) + WordBytes(h.reserved1)
      + WordBytes(h.reserved2) + DWordBytes(h.offset)
  }

  /** The record a packed 14-byte read fills in. */
  function Decode(b: seq<Byte>): FileHeader
    requires |b| == Size
  {
    FileHeader(
      signature := WordOf(b[0..2]),
      fileSize := DWordOf(b[2..6]),
      reserved1 := WordOf(b[6..8]),
      reserved2 := WordOf(b[8..10]),
      offset := DWordOf(b[10..14]))
  }

  /** Every header is read back from its packed image. */
  lemma DecodeEncode(h: FileHeader)
    ensures Decode(Encode(h)) == h
  {
    var b := Encode(h);
    assert b[0..2] == WordBytes(h.signature);
    assert b[2..6] == DWordBytes(h.fileSize);
    assert b[6..8] == WordBytes(h.reserved1);
    assert b[8..10] == WordBytes(h.reserved2);
    assert b[10..14] == DWordBytes(h.offset);
    WordRoundTrip(h.signature);
    DWordRoundTrip(h.fileSize);
    WordRoundTrip(h.reserved1);
    WordRoundTrip(h.reserved2);
    DWordRoundTrip(h.offset);
  }

  /** Every 14 bytes are the packed image of the header they decode to. */
  lemma EncodeDecode(b: seq<Byte>)
    requires |b| == Size
    ensures Encode(Decode(b)) == b
  {
    WordBytesRoundTrip(b[0..2]);
    DWordBytesRoundTrip(b[2..6]);
    WordBytesRoundTrip(b[6..8]);
    WordBytesRoundTrip(b[8..10]);
    DWordBytesRoundTrip(b[10..14]);
    assert b == b[0..2] + b[2..6] + b[6..8] + b[8..10] + b[10..14];
  }

  /** The signature is "BM" exactly when the first two bytes are 0x42, 0x4D. */
  lemma MagicBytes(b: seq<Byte>)
    requires |b| == Size
    ensures Decode(b).signature == Magic <==> b[0] == 0x42 && b[1] == 0x4D
  {
    WordBytesRoundTrip(b[0..2]);
    WordRoundTrip(Magic);
    assert WordBytes(Magic) == [0x42, 0x4D];
  }

  /** The first check a header fails, in the order the reader checks. */
  function Check(h: FileHeader): (v: Verdict)
    ensures v.Accept? <==> h.signature == Magic && h.fileSize > 0 && h.reserved1 == 0 && h.reserved2 == 0
    ensures v == Reject(BadSignature) <==> h.signature != Magic
    ensures v == Reject(ZeroFileSize) <==> h.signature == Magic && h.fileSize == 0
    ensures v == Reject(ReservedNotZero) <==>
      h.signature == Magic && h.fileSize > 0 && (h.reserved1 != 0 || h.reserved2 != 0)
  {
    if h.signature != Magic then Reject(BadSignature)
    else if h.fileSize == 0 then Reject(ZeroFileSize)
    else if h.reserved1 != 0 || h.reserved2 != 0 then Reject(ReservedNotZero)
    else Accept
  }

  /** Reading a file header at `pos`: a short read is an I/O failure, a
      broken rule an invalid-document failure; an accepted header is every
      field exactly as read, and the read consumes 14 bytes. The offset is
      never checked. */
  function Read(input: seq<Byte>, pos: nat): (r: Result<(FileHeader, nat)>)
    ensures r == Failure(IOError(FileHeaderRead)) <==> |input| < pos + Size
    ensures r.Success? <==> pos + Size <= |input| && Check(Decode(input[pos..pos + Size])).Accept?
    ensures r.Failure? && r.error.InvalidBMP? ==>
      pos + Size <= |input| && Check(Decode(input[pos..pos + Size])) == Reject(r.error.violation)
    ensures r.Success? ==>
      r.value.1 == pos + Size && Encode(r.value.0) == input[pos..pos + Size]
    ensures r.Success? ==>
      r.value.0.signature == Magic && r.value.0.fileSize > 0
      && r.value.0.reserved1 == 0 && r.value.0.reserved2 == 0
  {
    if |input| < pos + Size then Failure(IOError(FileHeaderRead))
    else
      var b := input[pos..pos + Size];
      var h := Decode(b);
      EncodeDecode(b);
      match Check(h)
      case Reject(v) => Failure(InvalidBMP(v))
      case Accept => Success((h, pos + Size))
  }

  /** A bad signature is an invalid-document failure, not an I/O failure,
      whenever the 14 bytes are there. */
  lemma BadMagicIsInvalid(input: seq<Byte>, pos: nat)
    requires pos + Size <= |input|
    requires input[pos] != 0x42 || input[pos + 1] != 0x4D
    ensures Read(input, pos) == Failure(InvalidBMP(BadSignature))
  {
    MagicBytes(input[pos..pos + Size]);
  }
}
