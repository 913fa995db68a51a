/** The pixel array as functions: where each pixel lies in the file, the
    colours of the rows in file order, and the black-and-white bitmap the
    reader produces from them. BmpReader.BMPReader.ReadData is proved to
    compute DecodeData. */
module PixelDecoding {
  import opened FieldTypes
  import opened Errors
  import opened Color
  import opened HeaderDecoding

  /** Bytes per stored row: the pixels and the padding after them. */
  function Stride(f: ImportantFields): nat
  {
    f.width * f.bytesPerPixel + f.paddingBytes
  }

  /** The file position of the pixel in column `c` of the `r`-th row in
      file order. */
  function PixelOffset(f: ImportantFields, r: nat, c: nat): nat
  {
    f.offset + r * Stride(f) + c * f.bytesPerPixel
  }

  /** Every pixel read stays inside the file. */
  predicate DataFits(f: ImportantFields, n: nat)
    requires Wellformed(f)
  {
    PixelOffset(f, f.height - 1, f.width - 1) + f.bytesPerPixel <= n
  }

  /** Each row is `width * bytes + padding` bytes, a multiple of 4, and the
      next pixel of a row follows the previous one directly. */
  lemma OffsetSteps(f: ImportantFields, r: nat, c: nat)
    requires Wellformed(f)
    ensures Stride(f) % 4 == 0
    ensures PixelOffset(f, r, c + 1) == PixelOffset(f, r, c) + f.bytesPerPixel
    ensures PixelOffset(f, r + 1, 0) == PixelOffset(f, r, f.width) + f.paddingBytes
  {
    assert (c + 1) * f.bytesPerPixel == c * f.bytesPerPixel + f.bytesPerPixel;
    assert (r + 1) * Stride(f) == r * Stride(f) + Stride(f);
  }

  /** Later pixels lie further into the file. */
  lemma OffsetMonotone(f: ImportantFields, r: nat, c: nat, r2: nat, c2: nat)
    requires r <= r2 && c <= c2
    ensures PixelOffset(f, r, c) <= PixelOffset(f, r2, c2)
  {
    MulMonotone(r, r2, Stride(f));
    MulMonotone(c, c2, f.bytesPerPixel);
  }

  lemma MulMonotone(a: nat, b: nat, k: nat)
    requires a <= b
    ensures a * k <= b * k
  {
    assert b * k == a * k + (b - a) * k;
  }

  /** The colour of the pixel stored at file position `o`: a 3-byte pixel
      is read into the colour record as blue, green, red; a 4-byte pixel is
      decoded channel-wise. */
  function ColorAt(input: seq<Byte>, o: nat, bytesPerPixel: nat): RGBColor
    requires o + bytesPerPixel <= |input|
    requires bytesPerPixel == 3 || bytesPerPixel == 4
  {
    if bytesPerPixel == 3 then Decode24(input[o..o + 3]) else Decode32(input[o..o + 4])
  }

  /** A pixel with bytes b0, b1, b2 (and, at 32 bits, an ignored b3) is blue
      b0, green b1, red b2. */
  lemma ColorAtChannels(input: seq<Byte>, o: nat, bytesPerPixel: nat)
    requires o + bytesPerPixel <= |input|
    requires bytesPerPixel == 3 || bytesPerPixel == 4
    ensures ColorAt(input, o, bytesPerPixel)
      == RGBColor(blue := input[o], green := input[o + 1], red := input[o + 2])
  {
    if bytesPerPixel == 3 {
      assert Bytes24(Decode24(input[o..o + 3])) == input[o..o + 3];
    } else {
      Decode32Channels(input[o..o + 4]);
      assert Bytes24(Decode24(input[o..o + 4][..3])) == input[o..o + 3];
    }
  }

  /** The colour in column `c` of file row `r`. */
  function DiskColor(input: seq<Byte>, f: ImportantFields, r: nat, c: nat): RGBColor
    requires Wellformed(f) && DataFits(f, |input|)
    requires r < f.height && c < f.width
  {
    OffsetMonotone(f, r, c, f.height - 1, f.width - 1);
    ColorAt(input, PixelOffset(f, r, c), f.bytesPerPixel)
  }

  /** The rows in file order. */
  function DiskRows(input: seq<Byte>, f: ImportantFields): (rows: seq<seq<RGBColor>>)
    requires Wellformed(f) && DataFits(f, |input|)
  {
    seq(f.height, r requires 0 <= r < f.height =>
      seq(f.width, c requires 0 <= c < f.width => DiskColor(input, f, r, c)))
  }

  function Reversed<T>(s: seq<T>): (r: seq<T>)
    ensures |r| == |s|
    ensures forall i | 0 <= i < |s| :: r[i] == s[|s| - 1 - i]
  {
    seq(|s|, i requires 0 <= i < |s| => s[|s| - 1 - i])
  }

  lemma ReversedTwice<T>(s: seq<T>)
    ensures Reversed(Reversed(s)) == s
  {
  }

  /** The threshold applied to one scan. */
  function BinarizeRow(scan: seq<RGBColor>): (bw: seq<bool>)
    ensures |bw| == |scan|
    ensures forall j | 0 <= j < |scan| :: bw[j] <==> IsDark(scan[j])
  {
    seq(|scan|, j requires 0 <= j < |scan| => IsDark(scan[j]))
  }

  function Binarize(rows: seq<seq<RGBColor>>): (bw: seq<seq<bool>>)
    ensures |bw| == |rows|
    ensures forall i | 0 <= i < |rows| :: bw[i] == BinarizeRow(rows[i])
  {
    seq(|rows|, i requires 0 <= i < |rows| => BinarizeRow(rows[i]))
  }

  /** The file row shown as row `i` of the bitmap. */
  function ScanOrder(f: ImportantFields, i: nat): (r: nat)
    requires i < f.height
    ensures r < f.height
  {
    if f.bottomUp then f.height - 1 - i else i
  }

  /** The rows the bitmap is made from, in bitmap order. */
  function ShownRows(input: seq<Byte>, f: ImportantFields): (rows: seq<seq<RGBColor>>)
    requires Wellformed(f) && DataFits(f, |input|)
  {
    var rows := DiskRows(input, f);
    if f.bottomUp then Reversed(rows) else rows
  }

  /** The bitmap of the whole pixel array: a read past the end is an I/O
      failure, otherwise `height` rows of `width` pixels. */
  function DecodeData(input: seq<Byte>, f: ImportantFields): (r: Result<seq<seq<bool>>>)
    requires Wellformed(f)
    ensures r.Failure? <==> !DataFits(f, |input|)
    ensures r.Failure? ==> r.error == IOError(PixelRead)
    ensures r.Success? ==> |r.value| == f.height
    ensures r.Success? ==> forall i | 0 <= i < f.height :: |r.value[i]| == f.width
  {
    if !DataFits(f, |input|) then Failure(IOError(PixelRead))
    else Success(Binarize(ShownRows(input, f)))
  }

  lemma ShownRowsEntry(input: seq<Byte>, f: ImportantFields, i: nat, c: nat)
    requires Wellformed(f) && DataFits(f, |input|)
    requires i < f.height && c < f.width
    ensures |ShownRows(input, f)| == f.height && |ShownRows(input, f)[i]| == f.width
    ensures ShownRows(input, f)[i][c] == DiskColor(input, f, ScanOrder(f, i), c)
  {
    var rows := DiskRows(input, f);
    assert |rows| == f.height;
    if f.bottomUp {
      assert ShownRows(input, f)[i] == rows[f.height - 1 - i];
    }
  }

  /** Row `i` of the bitmap is file row `height-1-i` when the image is
      bottom-up and file row `i` otherwise, and a pixel is dark exactly when
      its channel sum is at most 366. */
  lemma DecodeDataPixel(input: seq<Byte>, f: ImportantFields, i: nat, c: nat)
    requires Wellformed(f) && DataFits(f, |input|)
    requires i < f.height && c < f.width
    ensures DecodeData(input, f).value[i][c]
      <==> IsDark(DiskColor(input, f, ScanOrder(f, i), c))
  {
    var shown := ShownRows(input, f);
    assert DecodeData(input, f).value == Binarize(shown);
    ShownRowsEntry(input, f, i, c);
  }

  /** The rows in file order do not depend on the row order flag. */
  lemma DiskRowsOrderFree(input: seq<Byte>, f: ImportantFields, g: ImportantFields)
    requires Wellformed(f) && DataFits(f, |input|)
    requires g == f.(bottomUp := g.bottomUp)
    ensures DiskRows(input, g) == DiskRows(input, f)
  {
    forall r, c | 0 <= r < f.height && 0 <= c < f.width
      ensures DiskColor(input, g, r, c) == DiskColor(input, f, r, c)
    {
      assert PixelOffset(g, r, c) == PixelOffset(f, r, c);
    }
    SameColorsSameRows(input, g, input, f);
  }

  /** Two pixel arrays of the same shape whose colours agree pixel by pixel
      have the same rows. */
  lemma SameColorsSameRows(input: seq<Byte>, f: ImportantFields, input2: seq<Byte>, g: ImportantFields)
    requires Wellformed(f) && DataFits(f, |input|) && Wellformed(g) && DataFits(g, |input2|)
    requires f.height == g.height && f.width == g.width
    requires forall r, c | 0 <= r < f.height && 0 <= c < f.width ::
      DiskColor(input, f, r, c) == DiskColor(input2, g, r, c)
    ensures DiskRows(input, f) == DiskRows(input2, g)
  {
    var rows := DiskRows(input, f);
    var rows2 := DiskRows(input2, g);
    forall r | 0 <= r < f.height
      ensures rows[r] == rows2[r]
    {
      assert forall c | 0 <= c < f.width :: rows[r][c] == rows2[r][c];
    }
  }

  /** Thresholding commutes with turning the rows upside down. */
  lemma BinarizeReversed(rows: seq<seq<RGBColor>>)
    ensures Binarize(Reversed(rows)) == Reversed(Binarize(rows))
  {
  }

  /** A bottom-up image is the top-down image with the same bytes, upside
      down. */
  lemma ScanOrderFlips(input: seq<Byte>, f: ImportantFields)
    requires Wellformed(f) && DataFits(f, |input|)
    ensures DecodeData(input, f.(bottomUp := true)).value
      == Reversed(DecodeData(input, f.(bottomUp := false)).value)
  {
    var up := f.(bottomUp := true);
    var down := f.(bottomUp := false);
    DiskRowsOrderFree(input, f, up);
    DiskRowsOrderFree(input, f, down);
    BinarizeReversed(DiskRows(input, f));
  }

  /** Two files that agree on the bytes of the pixel stored at `o`. */
  predicate SamePixel(input: seq<Byte>, input2: seq<Byte>, o: nat, bytesPerPixel: nat)
  {
    o + bytesPerPixel <= |input| && o + bytesPerPixel <= |input2|
    && input[o..o + bytesPerPixel] == input2[o..o + bytesPerPixel]
  }

  /** Only the pixel bytes matter: two files that agree on every pixel
      decode alike, whatever their padding and other bytes hold. */
  lemma PaddingIgnored(input: seq<Byte>, input2: seq<Byte>, f: ImportantFields)
    requires Wellformed(f) && DataFits(f, |input|) && DataFits(f, |input2|)
    requires forall r, c | 0 <= r < f.height && 0 <= c < f.width ::
      SamePixel(input, input2, PixelOffset(f, r, c), f.bytesPerPixel)
    ensures DecodeData(input, f) == DecodeData(input2, f)
  {
    forall r, c | 0 <= r < f.height && 0 <= c < f.width
      ensures DiskColor(input, f, r, c) == DiskColor(input2, f, r, c)
    {
      var o := PixelOffset(f, r, c);
      assert SamePixel(input, input2, o, f.bytesPerPixel);
      ColorAtChannels(input, o, f.bytesPerPixel);
      ColorAtChannels(input2, o, f.bytesPerPixel);
      assert input[o..o + f.bytesPerPixel][0] == input2[o..o + f.bytesPerPixel][0];
      assert input[o..o + f.bytesPerPixel][1] == input2[o..o + f.bytesPerPixel][1];
      assert input[o..o + f.bytesPerPixel][2] == input2[o..o + f.bytesPerPixel][2];
    }
    SameColorsSameRows(input, f, input2, f);
  }
}
