/** Named constants of Microsoft's bitmap documentation. */
module MsConstants {
  import opened FieldTypes

  /** BMP compression method; the constructors are numbered 0 to 6 in order. */
  datatype Compression = RGB | RLE8 | RLE4 | BITFIELDS | JPEG | PNG | ALPHABITFIELDS

  /** The on-disk code of a compression method. */
  function Code(c: Compression): (k: DWord)
    ensures k <= 6
  {
    match c
    case RGB => 0
    case RLE8 => 1
    case RLE4 => 2
    case BITFIELDS => 3
    case JPEG => 4
    case PNG => 5
    case ALPHABITFIELDS => 6
  }

  /** The compression method with a given code (a `static_cast` of the code). */
  function FromCode(k: DWord): (c: Compression)
    requires k <= 6
    ensures Code(c) == k
  {
    if k == 0 then RGB
    else if k == 1 then RLE8
    else if k == 2 then RLE4
    else if k == 3 then BITFIELDS
    else if k == 4 then JPEG
    else if k == 5 then PNG
    else ALPHABITFIELDS
  }

  /** Distinct methods have distinct codes, so a code names one method. */
  lemma CodeInjective(c: Compression, d: Compression)
    ensures Code(c) == Code(d) ==> c == d
  {
  }

  /** The standard channel masks of a 32-bit pixel word (BGRx byte order).
      The reader refers to them by name; their values are those of the
      Win32 bitmap documentation. */
  const StandRMask: DWord := 0x00FF_0000
  const StandGMask: DWord := 0x0000_FF00
  const StandBMask: DWord := 0x0000_00FF
}
