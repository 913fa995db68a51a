/** The reader object: it reads the headers and the pixel array from a byte
    stream through a cursor, keeps the black-and-white bitmap, and draws
    into both the bitmap and a byte copy of the file. Each method is proved
    to follow the functions of HeaderDecoding, PixelDecoding and Raster. */
module BmpReader {
  import opened FieldTypes
  import opened Errors
  import opened MsConstants
  import opened Color
  import FH = BitmapFileHeader
  import opened BitmapInfoHeader
  import opened HeaderDecoding
  import opened PixelDecoding
  import opened Raster

  /** The cursor `pos` stands for stream position `p` of an `n`-byte
      stream: it is there, or both are past the end. */
  predicate Tracks(pos: nat, p: nat, n: nat)
  {
    pos == p || (n <= pos && n < p)
  }

  /** Row `r` as read: its colours, each read from its own file position. */
  predicate RowRead(scan: seq<RGBColor>, input: seq<Byte>, f: ImportantFields, r: nat)
    requires f.bytesPerPixel == 3 || f.bytesPerPixel == 4
  {
    RowPrefix(scan, input, f, r, f.width)
  }

  /** `scan` holds the first `k` pixels of file row `r`. */
  predicate RowPrefix(scan: seq<RGBColor>, input: seq<Byte>, f: ImportantFields, r: nat, k: nat)
    requires f.bytesPerPixel == 3 || f.bytesPerPixel == 4
  {
    |scan| == k
    && forall c | 0 <= c < k ::
      PixelOffset(f, r, c) + f.bytesPerPixel <= |input|
      && scan[c] == ColorAt(input, PixelOffset(f, r, c), f.bytesPerPixel)
  }

  /** The next pixel of the row extends the prefix read so far. */
  lemma RowPrefixExtends(scan: seq<RGBColor>, color: RGBColor, input: seq<Byte>, f: ImportantFields, r: nat, k: nat)
    requires f.bytesPerPixel == 3 || f.bytesPerPixel == 4
    requires RowPrefix(scan, input, f, r, k)
    requires PixelOffset(f, r, k) + f.bytesPerPixel <= |input|
    requires color == ColorAt(input, PixelOffset(f, r, k), f.bytesPerPixel)
    ensures RowPrefix(scan + [color], input, f, r, k + 1)
  {
  }

  /** A pixel read that runs past the end means the pixel array does not
      fit in the file. */
  lemma PixelReadFails(f: ImportantFields, n: nat, pos: nat, r: nat, c: nat)
    requires Wellformed(f) && r < f.height && c < f.width
    requires Tracks(pos, PixelOffset(f, r, c), n) && n < pos + f.bytesPerPixel
    ensures !DataFits(f, n)
  {
    OffsetMonotone(f, r, c, f.height - 1, f.width - 1);
  }

  /** A pixel read that succeeds starts at the pixel's own position and
      leaves the cursor at the next one. */
  lemma PixelReadAdvances(f: ImportantFields, n: nat, pos: nat, r: nat, c: nat)
    requires Wellformed(f)
    requires Tracks(pos, PixelOffset(f, r, c), n) && pos + f.bytesPerPixel <= n
    ensures pos == PixelOffset(f, r, c)
    ensures pos + f.bytesPerPixel == PixelOffset(f, r, c + 1)
  {
    OffsetSteps(f, r, c);
  }

  /** Skipping the padding after a row leaves the cursor at the next row. */
  lemma PaddingSkipped(f: ImportantFields, n: nat, pos: nat, r: nat)
    requires Wellformed(f) && pos == PixelOffset(f, r, f.width) && pos <= n
    ensures var next := if f.paddingBytes > 0 then Min(pos + f.paddingBytes, n) else pos;
      Tracks(next, PixelOffset(f, r + 1, 0), n) && next <= n
  {
    OffsetSteps(f, r, f.width);
  }

  /** Rows read one by one are the rows of the file. */
  lemma RowsReadAreDiskRows(rows: seq<seq<RGBColor>>, input: seq<Byte>, f: ImportantFields)
    requires Wellformed(f) && DataFits(f, |input|) && |rows| == f.height
    requires forall r | 0 <= r < f.height :: RowRead(rows[r], input, f, r)
    ensures rows == DiskRows(input, f)
  {
    var disk := DiskRows(input, f);
    forall r | 0 <= r < f.height
      ensures rows[r] == disk[r]
    {
      assert RowRead(rows[r], input, f, r);
    }
  }

  /** The three mask words read one by one are the words StandardMasks
      checks. */
  lemma MaskWords(input: seq<Byte>, start: nat)
    requires start + MasksSize <= |input|
    ensures StandardMasks(input[start..start + MasksSize]) <==>
      StandardMaskWords(DWordOf(input[start..start + 4]), DWordOf(input[start + 4..start + 8]),
        DWordOf(input[start + 8..start + 12]))
  {
    var masks := input[start..start + MasksSize];
    assert masks[0..4] == input[start..start + 4];
    assert masks[4..8] == input[start + 4..start + 8];
    assert masks[8..12] == input[start + 8..start + 12];
  }

  /** std::reverse on the rows read. */
  method ReverseInPlace<T>(a: array<T>)
    modifies a
    ensures a[..] == Reversed(old(a[..]))
  {
    var i := 0;
    while i < a.Length / 2
      invariant 0 <= i <= a.Length / 2
      invariant forall k | 0 <= k < i ::
        a[k] == old(a[a.Length - 1 - k]) && a[a.Length - 1 - k] == old(a[k])
      invariant forall k | i <= k < a.Length - i :: a[k] == old(a[k])
    {
      a[i], a[a.Length - 1 - i] := a[a.Length - 1 - i], a[i];
      i := i + 1;
    }
  }

  /** The first half of DrawLine: the points of the line, one per step of
      the axis along which it is longer, collected in order. */
  method CollectLine(x1: DWord, y1: DWord, x2: DWord, y2: DWord) returns (line: seq<Point>)
    ensures line == LinePoints(x1, y1, x2, y2)
  {
    if Dist(x1, x2) >= Dist(y1, y2) {
      line := CollectShallow(x1, y1, x2, y2);
    } else {
      line := CollectSteep(x1, y1, x2, y2);
    }
  }

  /** The points of a line at most 45 degrees steep, one per column, from
      the endpoint with the smaller x. */
  method CollectShallow(x1: DWord, y1: DWord, x2: DWord, y2: DWord) returns (line: seq<Point>)
    requires Dist(x1, x2) >= Dist(y1, y2)
    ensures line == LinePoints(x1, y1, x2, y2)
  {
    ghost var points := LinePoints(x1, y1, x2, y2);
    line := [];
    var xDiff := Dist(x1, x2);
    var yDiff := Dist(y1, y2);
    var xa, ya, xb, yb := x1, y1, x2, y2;
    if xa > xb {
      xa, xb := xb, xa;
      ya, yb := yb, ya;
    }
    var x: int := xa;
    while x <= xb
      invariant xa <= x <= xb + 1
      invariant |line| == x - xa && forall k | 0 <= k < |line| :: line[k] == points[k]
    {
      var yShift := if xDiff == 0 then 0 else (x - xa) * yDiff / xDiff;
      var y: int := if ya > yb then ya - yShift else ya + yShift;
      assert points[x - xa] == (x, y) by {
        ShallowPoint(x1, y1, x2, y2, x - xa);
      }
      line := line + [(x, y)];
      x := x + 1;
    }
  }

  /** The points of a line steeper than 45 degrees, one per row, from the
      endpoint with the smaller y. */
  method CollectSteep(x1: DWord, y1: DWord, x2: DWord, y2: DWord) returns (line: seq<Point>)
    requires Dist(x1, x2) < Dist(y1, y2)
    ensures line == LinePoints(x1, y1, x2, y2)
  {
    ghost var points := LinePoints(x1, y1, x2, y2);
    line := [];
    var xDiff := Dist(x1, x2);
    var yDiff := Dist(y1, y2);
    var xa, ya, xb, yb := x1, y1, x2, y2;
    if ya > yb {
      xa, xb := xb, xa;
      ya, yb := yb, ya;
    }
    var y: int := ya;
    while y <= yb
      invariant ya <= y <= yb + 1
      invariant |line| == y - ya && forall k | 0 <= k < |line| :: line[k] == points[k]
    {
      var xShift := (y - ya) * xDiff / yDiff;
      var x: int := if xa > xb then xa - xShift else xa + xShift;
      assert points[y - ya] == (x, y) by {
        SteepPoint(x1, y1, x2, y2, y - ya);
      }
      line := line + [(x, y)];
      y := y + 1;
    }
  }

  class BMPReader {
    /** The stream and the read position in it. */
    const input: seq<Byte>
    var pos: nat
    /** The expected file size; 0 disables the check. */
    const fileSize: DWord
    var fields: ImportantFields
    /** The bitmap, top row first; true is a dark pixel. */
    var pixelData: seq<seq<bool>>
    /** The byte copy of the file that drawing edits. */
    const contents: array<Byte>

    constructor (stream: seq<Byte>, expectedSize: DWord)
      ensures input == stream && fileSize == expectedSize && pos == 0
      ensures fields == Defaults && pixelData == []
      ensures fresh(contents) && contents[..] == stream
    {
      input := stream;
      pos := 0;
      fileSize := expectedSize;
      fields := Defaults;
      pixelData := [];
      contents := new Byte[|stream|](i requires 0 <= i < |stream| => stream[i]);
    }

    /** The outcome of a step and the state it leaves are those of `spec`. */
    predicate Took(r: Outcome, spec: Result<(ImportantFields, nat)>)
      reads this
    {
      match spec
      case Failure(e) => r == Fail(e)
      case Success((f, p)) => r == Pass && fields == f && pos == p
    }

    // -------------------------------------------------------------------------
    // Stream primitives

    /** istream::read of `n` bytes; fewer remaining is an I/O failure. */
    method Read(n: nat, tag: ShortRead) returns (r: Result<seq<Byte>>)
      modifies this`pos
      ensures old(pos) + n <= |input| ==>
        r == Success(input[old(pos)..old(pos) + n]) && pos == old(pos) + n
      ensures |input| < old(pos) + n ==> r == Failure(IOError(tag))
    {
      if |input| < pos + n {
        return Failure(IOError(tag));
      }
      r := Success(input[pos..pos + n]);
      pos := pos + n;
    }

    /** A little-endian DWord read. */
    method ReadDWord(tag: ShortRead) returns (r: Result<DWord>)
      modifies this`pos
      ensures old(pos) + 4 <= |input| ==>
        r == Success(DWordOf(input[old(pos)..old(pos) + 4])) && pos == old(pos) + 4
      ensures |input| < old(pos) + 4 ==> r == Failure(IOError(tag))
    {
      var b := Read(4, tag);
      if b.Failure? {
        return Failure(b.error);
      }
      r := Success(DWordOf(b.value));
    }

    /** istream::ignore: skips `n` bytes, stopping at the end. */
    method Ignore(n: nat)
      modifies this`pos
      ensures pos == Min(old(pos) + n, |input|)
    {
      pos := Min(pos + n, |input|);
    }

    /** istream::seekg. */
    method Seek(p: nat)
      modifies this`pos
      ensures pos == p
    {
      pos := p;
    }

    // -------------------------------------------------------------------------
    // Headers

    method ReadFileHeader() returns (r: Outcome)
      modifies this`pos, this`fields
      ensures Took(r, FileHeaderStep(input, old(pos), fileSize, old(fields)))
    {
      var res := FH.Read(input, pos);
      if res.Failure? {
        return Fail(res.error);
      }
      var (header, next) := res.value;
      pos := next;
      if fileSize > 0 && header.fileSize != fileSize {
        return Fail(InvalidBMP(FileSizeMismatch));
      }
      fields := fields.(offset := header.offset);
      r := Pass;
    }

    method ReadCoreInfoHeader() returns (r: Outcome)
      modifies this`pos, this`fields
      ensures Took(r, CoreInfoHeaderStep(input, old(pos), old(fields)))
    {
      var res := ReadCore(input, pos);
      if res.Failure? {
        return Fail(res.error);
      }
      var (header, next) := res.value;
      pos := next;
      fields := fields.(width := header.width);
      fields := fields.(height := header.height);
      fields := fields.(bytesPerPixel := header.bitCount / 8);
      r := Pass;
    }

    method ReadNewInfoHeader() returns (r: Outcome)
      modifies this`pos, this`fields
      ensures Took(r, NewInfoHeaderStep(input, old(pos), old(fields)))
    {
      var res := ReadInfo(input, pos);
      if res.Failure? {
        return Fail(res.error);
      }
      var (header, next) := res.value;
      pos := next;
      fields := fields.(
        width := header.width,
        height := Abs(header.height),
        bottomUp := header.height > 0,
        bytesPerPixel := header.bitCount / 8,
        compression := FromCode(header.compression),
        sizeImage := header.sizeImage);
      if header.clrUsed > 0 {
        fields := fields.(paletteUsed := true, paletteImportant := header.clrImportant);
      }
      assert fields == ApplyInfo(old(fields), header);

      if MasksFollow(fields.bytesPerPixel, fields.compression) {
        r := ReadMasks();
        if r.Fail? {
          return;
        }
      }
      r := Pass;
    }

    /** The three channel masks after a new-dialect header; they must be
        the standard ones. */
    method ReadMasks() returns (r: Outcome)
      modifies this`pos
      ensures Took(r, MasksStep(input, old(pos), fields))
    {
      ghost var start := pos;
      var rMask := ReadDWord(BitMaskRead);
      if rMask.Failure? {
        return Fail(rMask.error);
      }
      var gMask := ReadDWord(BitMaskRead);
      if gMask.Failure? {
        return Fail(gMask.error);
      }
      var bMask := ReadDWord(BitMaskRead);
      if bMask.Failure? {
        return Fail(bMask.error);
      }
      MaskWords(input, start);
      if !StandardMaskWords(rMask.value, gMask.value, bMask.value) {
        return Fail(InvalidBMP(NonStandardMasks));
      }
      r := Pass;
    }

    method ReadInfoHeader() returns (r: Outcome)
      modifies this`pos, this`fields
      ensures Took(r, InfoHeaderStep(input, old(pos), old(fields)))
    {
      var size := ReadDWord(InfoHeaderSizeRead);
      if size.Failure? {
        return Fail(size.error);
      }
      if size.value == CoreHeaderSize {
        r := ReadCoreInfoHeader();
      } else if IsNewHeaderSize(size.value) {
        r := ReadNewInfoHeader();
      } else {
        r := Fail(InvalidBMP(BadInfoHeaderSize));
      }
    }

    /** Both headers, then the derived image size and row padding, computed
        in 32-bit unsigned arithmetic as the source does. */
    method ReadHeaders() returns (r: Outcome)
      modifies this`pos, this`fields
      ensures Took(r, HeadersFrom(input, old(pos), fileSize, old(fields)))
    {
      r := ReadFileHeader();
      if r.Fail? {
        return;
      }
      r := ReadInfoHeader();
      if r.Fail? {
        return;
      }
      ghost var read := fields;
      var bits := 8 * fields.bytesPerPixel;
      if fields.sizeImage == 0 {
        fields := fields.(sizeImage := fields.width * fields.height * bits % DWordModulus / 8);
      }
      if bits != 32 {
        fields := fields.(paddingBytes := fields.width * bits % DWordModulus / 8 % 4);
        if fields.paddingBytes > 0 {
          fields := fields.(paddingBytes := 4 - fields.paddingBytes);
        }
      }
      assert fields == Derive(read);
    }

    // -------------------------------------------------------------------------
    // Pixel data

    method Read24bitPixel() returns (r: Result<RGBColor>)
      modifies this`pos
      ensures old(pos) + 3 <= |input| ==>
        r == Success(ColorAt(input, old(pos), 3)) && pos == old(pos) + 3
        && r.value == RGBColor(blue := input[old(pos)], green := input[old(pos) + 1], red := input[old(pos) + 2])
      ensures |input| < old(pos) + 3 ==> r == Failure(IOError(PixelRead))
    {
      var b := Read(3, PixelRead);
      if b.Failure? {
        return Failure(b.error);
      }
      r := Success(Decode24(b.value));
    }

    /** A 32-bit pixel, each channel isolated by its mask and then shifted
        down to a byte. */
    method Read32bitPixel() returns (r: Result<RGBColor>)
      modifies this`pos
      ensures old(pos) + 4 <= |input| ==>
        r == Success(ColorAt(input, old(pos), 4)) && pos == old(pos) + 4
      ensures |input| < old(pos) + 4 ==> r == Failure(IOError(PixelRead))
    {
      var b := Read(4, PixelRead);
      if b.Failure? {
        return Failure(b.error);
      }
      var raw := DWordOf(b.value);
      var color := RGBColor(
        blue := Uint8(DWordAnd(raw, StandBMask)),
        green := Uint8(ShiftRight(DWordAnd(raw, StandGMask), 8)),
        red := Uint8(ShiftRight(DWordAnd(raw, StandRMask), 16)));
      r := Success(color);
    }

    /** One pixel, read by the reader for the image's pixel size. */
    method ReadPixel(bytesPerPixel: nat) returns (r: Result<RGBColor>)
      requires bytesPerPixel == 3 || bytesPerPixel == 4
      modifies this`pos
      ensures old(pos) + bytesPerPixel <= |input| ==>
        r == Success(ColorAt(input, old(pos), bytesPerPixel)) && pos == old(pos) + bytesPerPixel
      ensures |input| < old(pos) + bytesPerPixel ==> r == Failure(IOError(PixelRead))
    {
      if bytesPerPixel == 3 {
        r := Read24bitPixel();
      } else {
        r := Read32bitPixel();
      }
    }

    /** One scan of the pixel array: `width` pixels read in turn from the
        start of file row `scanNum`. */
    method ReadScan(scanNum: nat) returns (r: Result<seq<RGBColor>>)
      requires Wellformed(fields) && scanNum < fields.height
      requires Tracks(pos, PixelOffset(fields, scanNum, 0), |input|)
      modifies this`pos
      ensures r.Failure? ==> r.error == IOError(PixelRead) && !DataFits(fields, |input|)
      ensures r.Success? ==> RowRead(r.value, input, fields, scanNum)
      ensures r.Success? ==> pos == PixelOffset(fields, scanNum, fields.width) && pos <= |input|
    {
      var f := fields;
      var n := |input|;
      var scan: seq<RGBColor> := [];
      var cellNum := 0;
      while cellNum < f.width
        invariant 0 <= cellNum <= f.width
        invariant Tracks(pos, PixelOffset(f, scanNum, cellNum), n)
        invariant cellNum > 0 ==> pos == PixelOffset(f, scanNum, cellNum) && pos <= n
        invariant RowPrefix(scan, input, f, scanNum, cellNum)
      {
        ghost var here := pos;
        var color := ReadPixel(f.bytesPerPixel);
        if color.Failure? {
          PixelReadFails(f, n, here, scanNum, cellNum);
          return Failure(color.error);
        }
        PixelReadAdvances(f, n, here, scanNum, cellNum);
        RowPrefixExtends(scan, color.value, input, f, scanNum, cellNum);
        scan := scan + [color.value];
        cellNum := cellNum + 1;
      }
      r := Success(scan);
    }

    /** The scans of the pixel array in file order, from the current fields;
        a short read at any pixel is an I/O failure. */
    method ReadScans() returns (r: Result<array<seq<RGBColor>>>)
      requires Wellformed(fields) && pos == fields.offset
      modifies this`pos
      ensures r.Failure? <==> !DataFits(fields, |input|)
      ensures r.Failure? ==> r.error == IOError(PixelRead)
      ensures r.Success? ==> fresh(r.value) && r.value[..] == DiskRows(input, fields)
      ensures r.Success? ==> pos == Min(PixelOffset(fields, fields.height, 0), |input|)
    {
      var f := fields;
      var n := |input|;
      var bitData := new seq<RGBColor>[f.height];
      var scanNum := 0;
      while scanNum < f.height
        invariant 0 <= scanNum <= f.height
        invariant Tracks(pos, PixelOffset(f, scanNum, 0), n)
        invariant scanNum > 0 ==> pos <= n
        invariant forall i | 0 <= i < scanNum :: RowRead(bitData[i], input, f, i)
      {
        var scan := ReadScan(scanNum);
        if scan.Failure? {
          return Failure(scan.error);
        }
        PaddingSkipped(f, n, pos, scanNum);
        if f.paddingBytes > 0 {
          Ignore(f.paddingBytes);
        }
        bitData[scanNum] := scan.value;
        scanNum := scanNum + 1;
      }
      assert RowRead(bitData[f.height - 1], input, f, f.height - 1);
      RowsReadAreDiskRows(bitData[..], input, f);
      r := Success(bitData);
    }

    /** The rows turned top-down when the image is stored bottom-up, then
        each thresholded and appended to the bitmap. */
    method PushScans(bitData: array<seq<RGBColor>>)
      modifies this`pixelData, bitData
      ensures pixelData == old(pixelData)
        + Binarize(if fields.bottomUp then Reversed(old(bitData[..])) else old(bitData[..]))
    {
      ghost var ordered := if fields.bottomUp then Reversed(bitData[..]) else bitData[..];
      if fields.bottomUp {
        ReverseInPlace(bitData);
      }
      var i := 0;
      while i < bitData.Length
        invariant 0 <= i <= bitData.Length
        invariant bitData[..] == ordered
        invariant pixelData == old(pixelData) + Binarize(bitData[..i])
      {
        assert bitData[..i + 1] == bitData[..i] + [bitData[i]];
        assert Binarize(bitData[..i + 1]) == Binarize(bitData[..i]) + [BinarizeRow(bitData[i])];
        pixelData := pixelData + [BinarizeRow(bitData[i])];
        i := i + 1;
      }
      assert bitData[..i] == bitData[..];
    }

    /** The pixel array from `offset`: on success the decoded bitmap is
        appended to the bitmap held; on failure the bitmap is unchanged. */
    method ReadData() returns (r: Outcome)
      requires Wellformed(fields)
      modifies this`pos, this`pixelData
      ensures DecodeData(input, fields).Failure? ==>
        r == Fail(DecodeData(input, fields).error) && pixelData == old(pixelData)
      ensures DecodeData(input, fields).Success? ==>
        r == Pass && pixelData == old(pixelData) + DecodeData(input, fields).value
        && pos == Min(fields.offset + fields.height * Stride(fields), |input|)
    {
      Seek(fields.offset);
      var scans := ReadScans();
      if scans.Failure? {
        return Fail(scans.error);
      }
      PushScans(scans.value);
      r := Pass;
    }

    /** The header's inline variant: it rejects anything but 24-bit data,
        after seeking to the pixel array. */
    method ReadDataInline() returns (r: Outcome)
      requires Wellformed(fields)
      modifies this`pos, this`pixelData
      ensures fields.bytesPerPixel != 3 ==>
        r == Fail(LogicError) && pixelData == old(pixelData) && pos == fields.offset
      ensures fields.bytesPerPixel == 3 && DecodeData(input, fields).Failure? ==>
        r == Fail(DecodeData(input, fields).error) && pixelData == old(pixelData)
      ensures fields.bytesPerPixel == 3 && DecodeData(input, fields).Success? ==>
        r == Pass && pixelData == old(pixelData) + DecodeData(input, fields).value
    {
      Seek(fields.offset);
      if 8 * fields.bytesPerPixel != 24 {
        return Fail(LogicError);
      }
      var scans := ReadScans();
      if scans.Failure? {
        return Fail(scans.error);
      }
      PushScans(scans.value);
      r := Pass;
    }

    function GetPixelData(): (bitmap: seq<seq<bool>>)
      reads this
      ensures bitmap == pixelData
    {
      pixelData
    }

    // -------------------------------------------------------------------------
    // Drawing

    /** The state drawing needs: well-formed fields, a bitmap covering the
        image and a file copy holding the whole pixel array, shorter than
        2^32 bytes as the file header's DWord size and offset imply. */
    predicate Drawable()
      reads this
    {
      Wellformed(fields) && Canvas(pixelData, fields.width, fields.height)
      && DataFits(fields, contents.Length) && contents.Length < DWordModulus
    }

    /** ostream::write of `bytes` at position `p` of the file copy. */
    method Write(p: nat, bytes: seq<Byte>)
      requires p + |bytes| <= contents.Length
      modifies contents
      ensures forall m | 0 <= m < contents.Length ::
        contents[m] == if p <= m < p + |bytes| then bytes[m - p] else old(contents[m])
    {
      var k := 0;
      while k < |bytes|
        invariant 0 <= k <= |bytes|
        invariant forall m | 0 <= m < contents.Length ::
          contents[m] == if p <= m < p + k then bytes[m - p] else old(contents[m])
      {
        contents[p + k] := bytes[k];
        k := k + 1;
      }
    }

    method DrawPixel(x: DWord, y: DWord)
      requires Drawable() && x < fields.width && y < fields.height
      modifies this`pixelData, contents
      ensures Drawable()
      ensures PixelPos(fields, x, y) + BlackSize(fields) <= contents.Length
      ensures pixelData == MarkPixel(old(pixelData), fields.width, fields.height, (x, y))
      ensures contents[..] == ZeroFill(old(contents[..]), PixelPos(fields, x, y), BlackSize(fields))
    {
      var revY := fields.height - y - 1;
      pixelData := pixelData[revY := pixelData[revY][x := true]];

      var prevScans := if y == 0 then 0 else y - 1;
      var fullScan := fields.width * fields.bytesPerPixel + fields.paddingBytes;
      var p := fields.offset + prevScans * fullScan + x * fields.bytesPerPixel;
      PixelPosInside(fields, contents.Length, x, y);
      ghost var before := contents[..];
      if fields.bytesPerPixel == 3 {
        Write(p, Bytes24(RGBColor(0, 0, 0)));
      } else {
        Write(p, DWordBytes(0));
      }
      assert contents[..] == ZeroFill(before, p, BlackSize(fields));
    }

    method DrawLine(x1: DWord, y1: DWord, x2: DWord, y2: DWord)
      requires Drawable()
      requires x1 < fields.width && x2 < fields.width && y1 < fields.height && y2 < fields.height
      modifies this`pixelData, contents
      ensures Drawable()
      ensures AllInBounds(LinePoints(x1, y1, x2, y2), fields.width, fields.height)
      ensures pixelData == MarkPoints(old(pixelData), fields.width, fields.height, LinePoints(x1, y1, x2, y2))
      ensures contents[..] == BlackenPoints(old(contents[..]), fields, LinePoints(x1, y1, x2, y2))
    {
      var line := CollectLine(x1, y1, x2, y2);
      assert AllInBounds(line, fields.width, fields.height) by {
        LineInBox(x1, y1, x2, y2);
      }
      DrawPoints(line);
    }

    /** DrawPixel on each collected point in turn. */
    method DrawPoints(line: seq<Point>)
      requires Drawable() && AllInBounds(line, fields.width, fields.height)
      modifies this`pixelData, contents
      ensures Drawable()
      ensures pixelData == MarkPoints(old(pixelData), fields.width, fields.height, line)
      ensures contents[..] == BlackenPoints(old(contents[..]), fields, line)
    {
      ghost var bitmap := pixelData;
      ghost var file := contents[..];
      ghost var done: seq<Point> := [];
      var i := 0;
      while i < |line|
        invariant 0 <= i <= |line| && |done| == i
        invariant forall k | 0 <= k < i :: done[k] == line[k]
        invariant AllInBounds(done, fields.width, fields.height)
        invariant Drawable()
        invariant pixelData == MarkPoints(bitmap, fields.width, fields.height, done)
        invariant contents[..] == BlackenPoints(file, fields, done)
      {
        var p := line[i];
        BlackenPointsSnoc(file, fields, done, p);
        MarkPointsSnoc(bitmap, fields.width, fields.height, done, p);
        DrawPixel(p.0, p.1);
        done := done + [p];
        i := i + 1;
      }
      assert done == line;
    }

    /** Both diagonals of the box with corners (x1, y1) and (x2, y2). The
        drawer test calls this operation but no source file defines it; it
        is inferred from that test's expected pattern. */
    method DrawCross(x1: DWord, y1: DWord, x2: DWord, y2: DWord)
      requires Drawable()
      requires x1 < fields.width && x2 < fields.width && y1 < fields.height && y2 < fields.height
      modifies this`pixelData, contents
      ensures Drawable()
      ensures AllInBounds(CrossPoints(x1, y1, x2, y2), fields.width, fields.height)
      ensures pixelData == MarkPoints(old(pixelData), fields.width, fields.height, CrossPoints(x1, y1, x2, y2))
      ensures contents[..] == BlackenPoints(old(contents[..]), fields, CrossPoints(x1, y1, x2, y2))
    {
      ghost var bitmap := pixelData;
      ghost var file := contents[..];
      DrawLine(x1, y1, x2, y2);
      DrawLine(x1, y2, x2, y1);
      MarkPointsAppend(bitmap, fields.width, fields.height, LinePoints(x1, y1, x2, y2), LinePoints(x1, y2, x2, y1));
      BlackenPointsAppend(file, fields, LinePoints(x1, y1, x2, y2), LinePoints(x1, y2, x2, y1));
    }
  }
}
