/** A pixel's colour, its two on-disk encodings and its binarisation. */
module Color {
  import opened FieldTypes
  import opened MsConstants

  /** 24-bit colour; the fields are in on-disk order: blue, green, red. */
  datatype RGBColor = RGBColor(blue: Byte, green: Byte, red: Byte)

  /** The packed 3-byte layout of a colour. */
  function Bytes24(c: RGBColor): (b: seq<Byte>)
    ensures |b| == 3
  {
    [c.blue, c.green, c.red]
  }

  /** A 3-byte pixel read straight into the packed colour record. */
  function Decode24(b: seq<Byte>): (c: RGBColor)
    requires |b| == 3
    ensures Bytes24(c) == b
  {
    RGBColor(b[0], b[1], b[2])
  }

  /** The 3-byte layout determines the colour. */
  lemma Decode24RoundTrip(c: RGBColor)
    ensures Decode24(Bytes24(c)) == c
  {
  }

  /** A 32-bit pixel: the four bytes are read as one little-endian word and
      decoded by DecodeWord. */
  function Decode32(b: seq<Byte>): (c: RGBColor)
    requires |b| == 4
  {
    DecodeWord(DWordOf(b))
  }

  /** Each channel of a pixel word is isolated with its standard mask,
      shifted down and stored as a byte. */
  function DecodeWord(raw: DWord): (c: RGBColor)
  {
    RGBColor(
      blue := Uint8(DWordAnd(raw, StandBMask)),
      green := Uint8(ShiftRight(DWordAnd(raw, StandGMask), 8)),
      red := Uint8(ShiftRight(DWordAnd(raw, StandRMask), 16)))
  }

  /** Each standard mask selects one byte of the word. */
  lemma MaskBytes()
    ensures DWordBytes(StandBMask) == [0xFF, 0, 0, 0]
    ensures DWordBytes(StandGMask) == [0, 0xFF, 0, 0]
    ensures DWordBytes(StandRMask) == [0, 0, 0xFF, 0]
    ensures ShiftRight(StandGMask, 8) == StandBMask && ShiftRight(StandRMask, 16) == StandBMask
  {
    assert Pow2(8) == 0x100 && Pow2(16) == 0x1_0000;
  }

  /** A standard mask applied to a word keeps exactly the byte it selects. */
  lemma MaskedWord(raw: DWord)
    ensures var e := DWordBytes(raw);
      DWordAnd(raw, StandBMask) == e[0]
      && DWordAnd(raw, StandGMask) == 0x100 * (e[1] as int)
      && DWordAnd(raw, StandRMask) == 0x1_0000 * (e[2] as int)
  {
    var e := DWordBytes(raw);
    MaskBytes();
    ByteMasks(e[0]);
    ByteMasks(e[1]);
    ByteMasks(e[2]);
    ByteMasks(e[3]);
  }

  /** Bringing the masked words down to bytes: a byte moved up by one or two
      bytes is shifted back, and a byte is kept by the conversion. */
  lemma ChannelBytes(wb: DWord, wg: DWord, wr: DWord, x0: Byte, x1: Byte, x2: Byte)
    requires wb == x0 && wg == 0x100 * (x1 as int) && wr == 0x1_0000 * (x2 as int)
    ensures Uint8(wb) == x0
    ensures Uint8(ShiftRight(wg, 8)) == x1 && Uint8(ShiftRight(wr, 16)) == x2
  {
    assert Pow2(8) == 0x100 && Pow2(16) == 0x1_0000;
  }

  /** The channels of a word are its three low bytes. */
  lemma DecodeWordChannels(raw: DWord)
    ensures var e := DWordBytes(raw);
      DecodeWord(raw) == RGBColor(blue := e[0], green := e[1], red := e[2])
  {
    var e := DWordBytes(raw);
    MaskedWord(raw);
    ChannelBytes(DWordAnd(raw, StandBMask), DWordAnd(raw, StandGMask), DWordAnd(raw, StandRMask),
      e[0], e[1], e[2]);
  }

  /** A 32-bit pixel holds blue, green, red in its first three bytes; the
      fourth (alpha) byte is ignored. */
  lemma Decode32Channels(b: seq<Byte>)
    requires |b| == 4
    ensures Decode32(b) == Decode24(b[..3])
  {
    DWordBytesRoundTrip(b);
    DecodeWordChannels(DWordOf(b));
  }

  /** The 32-bit decoding exactly as the source writes it: `>>` binds tighter
      than `&`, so each mask is shifted before it is applied. */
  function Decode32AsWritten(b: seq<Byte>): (c: RGBColor)
    requires |b| == 4
  {
    var raw := DWordOf(b);
    RGBColor(
      blue := Uint8(DWordAnd(raw, StandBMask)),
      green := Uint8(DWordAnd(raw, ShiftRight(StandGMask, 8))),
      red := Uint8(DWordAnd(raw, ShiftRight(StandRMask, 16))))
  }

  /** As written, every channel is the pixel's first (blue) byte. */
  lemma Decode32AsWrittenChannels(b: seq<Byte>)
    requires |b| == 4
    ensures Decode32AsWritten(b) == RGBColor(b[0], b[0], b[0])
  {
    var raw := DWordOf(b);
    MaskBytes();
    DWordBytesRoundTrip(b);
    MaskedWord(raw);
    ChannelBytes(DWordAnd(raw, StandBMask), 0, 0, b[0], 0, 0);
  }

  /** Luminance threshold: a colour is dark when its channel average is at
      most 122, i.e. its channel sum is at most 366. */
  const DarkSum: int := 122 * 3

  predicate IsDark(c: RGBColor)
  {
    c.red as int + c.green as int + c.blue as int <= DarkSum
  }

  /** A yellow 32-bit pixel (blue 0, green and red 255) is light, yet the
      as-written decoding classifies it as dark. */
  lemma Decode32AsWrittenMisclassifies()
    ensures !IsDark(Decode32([0x00, 0xFF, 0xFF, 0x00]))
    ensures IsDark(Decode32AsWritten([0x00, 0xFF, 0xFF, 0x00]))
  {
    var yellow := [0x00, 0xFF, 0xFF, 0x00];
    Decode32Channels(yellow);
    Decode32AsWrittenChannels(yellow);
  }

  /** The threshold is inclusive: channel sum 366 is dark, 367 is light. */
  lemma DarkBoundary()
    ensures IsDark(RGBColor(122, 122, 122))
    ensures !IsDark(RGBColor(122, 122, 123))
  {
  }
}
