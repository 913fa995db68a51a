/** Integral field types of Microsoft's bitmap documentation and their packed
    little-endian byte layout. */
module FieldTypes {

  /** uint8_t */
  type Byte = x: int | 0 <= x < 0x100
  /** uint16_t */
  type Word = x: int | 0 <= x < 0x1_0000
  /** uint32_t */
  type DWord = x: int | 0 <= x < 0x1_0000_0000
  /** int32_t */
  type Long = x: int | -0x8000_0000 <= x < 0x8000_0000

  /** 2^32: DWord arithmetic is computed modulo this value. */
  const DWordModulus: int := 0x1_0000_0000

  /** Two little-endian bytes read as a Word. */
  function WordOf(b: seq<Byte>): Word
    requires |b| == 2
  {
    b[0] as int + 0x100 * b[1] as int
  }

  /** Four little-endian bytes read as a DWord. */
  function DWordOf(b: seq<Byte>): DWord
    requires |b| == 4
  {
    b[0] as int + 0x100 * (b[1] as int + 0x100 * (b[2] as int + 0x100 * b[3] as int))
  }

  /** Four little-endian bytes read as a two's-complement Long. */
  function LongOf(b: seq<Byte>): Long
    requires |b| == 4
  {
    var u := DWordOf(b);
    if u < 0x8000_0000 then u else u - DWordModulus
  }

  function WordBytes(w: Word): (b: seq<Byte>)
    ensures |b| == 2
  {
    [(w % 0x100) as Byte, (w / 0x100) as Byte]
  }

  function DWordBytes(d: DWord): (b: seq<Byte>)
    ensures |b| == 4
  {
    [(d % 0x100) as Byte, (d / 0x100 % 0x100) as Byte,
     (d / 0x1_0000 % 0x100) as Byte, (d / 0x100_0000) as Byte]
  }

  function LongBytes(l: Long): (b: seq<Byte>)
    ensures |b| == 4
  {
    DWordBytes(if l < 0 then l + DWordModulus else l)
  }

  lemma ByteToInt(t: int)
    requires 0 <= t < 0x100
    ensures (t as Byte) as int == t
  {
  }

  lemma IntToByte(b: Byte)
    ensures (b as int) as Byte == b
  {
  }

  /** Splitting off the low byte of a number. */
  lemma SplitLowByte(x: int, a: int, y: int)
    requires 0 <= a < 0x100 && x == a + 0x100 * y
    ensures x % 0x100 == a && x / 0x100 == y
  {
  }

  lemma ShiftBytes(x: int)
    requires 0 <= x
    ensures x / 0x100 / 0x100 == x / 0x1_0000
    ensures x / 0x1_0000 / 0x100 == x / 0x100_0000
  {
  }

  /** Writing a Word and reading it back gives the Word. */
  lemma WordRoundTrip(w: Word)
    ensures WordOf(WordBytes(w)) == w
  {
    ByteToInt(w % 0x100);
    ByteToInt(w / 0x100);
  }

  /** Reading two bytes and writing the Word back gives the bytes. */
  lemma WordBytesRoundTrip(b: seq<Byte>)
    requires |b| == 2
    ensures WordBytes(WordOf(b)) == b
  {
    SplitLowByte(WordOf(b), b[0] as int, b[1] as int);
    IntToByte(b[0]);
    IntToByte(b[1]);
  }

  lemma DWordRoundTrip(d: DWord)
    ensures DWordOf(DWordBytes(d)) == d
  {
    ShiftBytes(d);
    ByteToInt(d % 0x100);
    ByteToInt(d / 0x100 % 0x100);
    ByteToInt(d / 0x1_0000 % 0x100);
    ByteToInt(d / 0x100_0000);
    var e := DWordBytes(d);
    assert e[0] as int == d % 0x100 && e[1] as int == d / 0x100 % 0x100;
    assert e[2] as int == d / 0x1_0000 % 0x100 && e[3] as int == d / 0x100_0000;
  }

  lemma DWordBytesRoundTrip(b: seq<Byte>)
    requires |b| == 4
    ensures DWordBytes(DWordOf(b)) == b
  {
    var x := DWordOf(b);
    var y1 := b[1] as int + 0x100 * (b[2] as int + 0x100 * b[3] as int);
    var y2 := b[2] as int + 0x100 * b[3] as int;
    SplitLowByte(x, b[0] as int, y1);
    SplitLowByte(y1, b[1] as int, y2);
    SplitLowByte(y2, b[2] as int, b[3] as int);
    ShiftBytes(x);
    IntToByte(b[0]);
    IntToByte(b[1]);
    IntToByte(b[2]);
    IntToByte(b[3]);
  }

  lemma LongRoundTrip(l: Long)
    ensures LongOf(LongBytes(l)) == l
  {
    DWordRoundTrip(if l < 0 then l + DWordModulus else l);
  }

  lemma LongBytesRoundTrip(b: seq<Byte>)
    requires |b| == 4
    ensures LongBytes(LongOf(b)) == b
  {
    DWordBytesRoundTrip(b);
  }

  /** 2^n */
  function Pow2(n: nat): (p: nat)
    ensures p > 0
  {
    if n == 0 then 1 else 2 * Pow2(n - 1)
  }

  /** The bitwise AND of two unsigned numbers, bit by bit from the least
      significant. */
  function AndBits(x: nat, y: nat): (r: nat)
    ensures r <= x && r <= y
  {
    if x == 0 || y == 0 then 0
    else 2 * AndBits(x / 2, y / 2) + (if x % 2 == 1 && y % 2 == 1 then 1 else 0)
  }

  /** uint8_t & uint8_t */
  function ByteAnd(x: Byte, y: Byte): (r: Byte)
  {
    AndBits(x, y)
  }

  /** An all-ones mask keeps every bit. */
  lemma {:induction false} AndOnes(x: nat, n: nat)
    requires x < Pow2(n)
    ensures AndBits(x, Pow2(n) - 1) == x
  {
    if x > 0 {
      var p := Pow2(n - 1);
      assert (2 * p - 1) / 2 == p - 1 && (2 * p - 1) % 2 == 1;
      AndOnes(x / 2, n - 1);
    }
  }

  lemma ByteMasks(x: Byte)
    ensures ByteAnd(x, 0xFF) == x && ByteAnd(x, 0) == 0
  {
    assert Pow2(8) == 0x100;
    AndOnes(x, 8);
  }

  /** uint32_t & uint32_t: bitwise AND acts on each bit alone, so it acts on
      each of the four bytes alone. */
  function DWordAnd(a: DWord, b: DWord): DWord
  {
    var x := DWordBytes(a);
    var y := DWordBytes(b);
    DWordOf([ByteAnd(x[0], y[0]), ByteAnd(x[1], y[1]), ByteAnd(x[2], y[2]), ByteAnd(x[3], y[3])])
  }

  /** uint32_t >> k */
  function ShiftRight(a: DWord, k: nat): (r: DWord)
    ensures r <= a
  {
    var d := Pow2(k);
    DivShrinks(a, d);
    a / d
  }

  lemma DivShrinks(a: nat, d: nat)
    requires d > 0
    ensures 0 <= a / d <= a
  {
    var q := a / d;
    assert q >= 0;
    MulGe(d, q);
    assert a == d * q + a % d;
  }

  lemma {:induction false} MulGe(d: nat, q: nat)
    requires d > 0
    ensures q <= d * q
  {
    if d > 1 {
      MulGe(d - 1, q);
      assert d * q == (d - 1) * q + q;
    }
  }

  /** The conversion of an unsigned integer to uint8_t: the low byte. */
  function Uint8(a: DWord): Byte
  {
    a % 0x100
  }
}
