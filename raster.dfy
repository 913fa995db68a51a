/** Raster editing as functions: the points DrawLine rasterises, their
    effect on the black-and-white bitmap, and their effect on the byte copy
    of the file. BmpReader.BMPReader's DrawPixel, DrawLine and DrawCross are
    proved to follow these functions. */
module Raster {
  import opened FieldTypes
  import opened HeaderDecoding
  import opened PixelDecoding

  /** A pixel position (x, y); y counts from the bottom of the image. */
  type Point = (int, int)

  function Dist(a: int, b: int): nat
  {
    if a > b then a - b else b - a
  }

  function Max(a: int, b: int): int
  {
    if a >= b then a else b
  }

  function Min(a: int, b: int): int
  {
    if a <= b then a else b
  }

  /** `s` steps from `a` in the direction of `b`. In the source the step is
      negated in unsigned arithmetic and added, which wraps around to the
      same subtraction. */
  function Toward(a: int, b: int, s: int): int
  {
    if a > b then a - s else a + s
  }

  // ---------------------------------------------------------------------------
  // Integer division facts used by the line proofs

  lemma MulLe(a: int, b: int, k: int)
    requires a <= b && k >= 0
    ensures a * k <= b * k
  {
    assert b * k == a * k + (b - a) * k;
  }

  lemma DivBelow(x: int, n: int, b: int)
    requires n > 0 && 0 <= x < (b + 1) * n
    ensures 0 <= x / n <= b
  {
    var q := x / n;
    var r := x % n;
    assert x == q * n + r;
    if q > b {
      MulLe(b + 1, q, n);
      assert false;
    }
    if q < 0 {
      MulLe(q, -1, n);
      assert false;
    }
  }

  lemma DivShift(x: int, n: int, q: int)
    requires n > 0
    ensures (x + q * n) / n == x / n + q
  {
    var a := (x + q * n) / n;
    var b := x / n;
    var ra := (x + q * n) % n;
    var rb := x % n;
    assert x + q * n == a * n + ra;
    assert x == b * n + rb;
    assert (a - b - q) * n == rb - ra;
    if a - b - q > 0 {
      MulLe(1, a - b - q, n);
      assert false;
    }
    if a - b - q < 0 {
      MulLe(a - b - q, -1, n);
      assert false;
    }
  }

  lemma DivExact(d: int, n: int)
    requires n > 0
    ensures d * n / n == d
  {
    DivShift(0, n, d);
  }

  /** With a slope of at most one, the rounded-down offset stays within
      [0, dy], grows by at most one per step and ends at dy. */
  lemma ShiftFacts(i: nat, dy: nat, dx: nat)
    requires 0 < dx && dy <= dx && i <= dx
    ensures 0 <= i * dy / dx <= dy
    ensures i < dx ==> i * dy / dx <= (i + 1) * dy / dx <= i * dy / dx + 1
    ensures i == dx ==> i * dy / dx == dy
  {
    MulLe(i, dx, dy);
    assert dx * dy < (dy + 1) * dx by {
      assert (dy + 1) * dx == dy * dx + dx;
    }
    DivBelow(i * dy, dx, dy);
    if i == dx {
      DivExact(dy, dx);
      assert i * dy == dy * dx;
    }
    if i < dx {
      var q := i * dy / dx;
      var m := i * dy % dx;
      assert i * dy == q * dx + m;
      assert (i + 1) * dy == i * dy + dy;
      var x := (i + 1) * dy - q * dx;
      assert x == m + dy;
      DivBelow(x, dx, 1);
      DivShift(x, dx, q);
      assert x + q * dx == (i + 1) * dy;
    }
  }

  // ---------------------------------------------------------------------------
  // DrawLine's points

  /** The points DrawLine collects, in its order: along x when the line is
      at most 45 degrees steep, along y otherwise, always from the endpoint
      with the smaller major coordinate; the minor coordinate moves by the
      rounded-down proportional offset. */
  function LinePoints(x1: int, y1: int, x2: int, y2: int): (ps: seq<Point>)
    ensures |ps| == Max(Dist(x1, x2), Dist(y1, y2)) + 1
  {
    var dx := Dist(x1, x2);
    var dy := Dist(y1, y2);
    if dx >= dy then
      var (ax, ay, ty) := if x1 > x2 then (x2, y2, y1) else (x1, y1, y2);
      seq(dx + 1, i requires 0 <= i <= dx =>
        (ax + i, Toward(ay, ty, if dx == 0 then 0 else i * dy / dx)))
    else
      var (ax, ay, tx) := if y1 > y2 then (x2, y2, x1) else (x1, y1, x2);
      seq(dy + 1, i requires 0 <= i <= dy =>
        (Toward(ax, tx, i * dx / dy), ay + i))
  }

  /** Point `i` of a line at most 45 degrees steep, from the endpoint with
      the smaller x; its y offset stays within [0, dy]. */
  lemma ShallowPoint(x1: int, y1: int, x2: int, y2: int, i: int)
    requires Dist(x1, x2) >= Dist(y1, y2) && 0 <= i <= Dist(x1, x2)
    ensures var dx := Dist(x1, x2);
      var dy := Dist(y1, y2);
      var shift := if dx == 0 then 0 else i * dy / dx;
      0 <= shift <= dy
      && LinePoints(x1, y1, x2, y2)[i]
        == if x1 > x2 then (x2 + i, Toward(y2, y1, shift)) else (x1 + i, Toward(y1, y2, shift))
  {
    if Dist(x1, x2) > 0 {
      ShiftFacts(i, Dist(y1, y2), Dist(x1, x2));
    }
  }

  /** Point `i` of a line steeper than 45 degrees, from the endpoint with
      the smaller y; its x offset stays within [0, dx]. */
  lemma SteepPoint(x1: int, y1: int, x2: int, y2: int, i: int)
    requires Dist(x1, x2) < Dist(y1, y2) && 0 <= i <= Dist(y1, y2)
    ensures var dx := Dist(x1, x2);
      var dy := Dist(y1, y2);
      var shift := i * dx / dy;
      0 <= shift <= dx
      && LinePoints(x1, y1, x2, y2)[i]
        == if y1 > y2 then (Toward(x2, x1, shift), y2 + i) else (Toward(x1, x2, shift), y1 + i)
  {
    ShiftFacts(i, Dist(x1, x2), Dist(y1, y2));
  }

  predicate InBox(p: Point, x1: int, y1: int, x2: int, y2: int)
  {
    Min(x1, x2) <= p.0 <= Max(x1, x2) && Min(y1, y2) <= p.1 <= Max(y1, y2)
  }

  /** The line starts at one endpoint and ends at the other. */
  lemma LineEndpoints(x1: int, y1: int, x2: int, y2: int)
    ensures var ps := LinePoints(x1, y1, x2, y2);
      (ps[0] == (x1, y1) && ps[|ps| - 1] == (x2, y2))
      || (ps[0] == (x2, y2) && ps[|ps| - 1] == (x1, y1))
  {
    if Dist(x1, x2) >= Dist(y1, y2) {
      ShallowEndpoints(x1, y1, x2, y2);
    } else {
      SteepEndpoints(x1, y1, x2, y2);
    }
  }

  lemma ShallowEndpoints(x1: int, y1: int, x2: int, y2: int)
    requires Dist(x1, x2) >= Dist(y1, y2)
    ensures var ps := LinePoints(x1, y1, x2, y2);
      if x1 > x2 then ps[0] == (x2, y2) && ps[|ps| - 1] == (x1, y1)
      else ps[0] == (x1, y1) && ps[|ps| - 1] == (x2, y2)
  {
    var dx := Dist(x1, x2);
    var dy := Dist(y1, y2);
    var ps := LinePoints(x1, y1, x2, y2);
    assert |ps| - 1 == dx;
    ShallowPoint(x1, y1, x2, y2, 0);
    ShallowPoint(x1, y1, x2, y2, dx);
    var last := if dx == 0 then 0 else dx * dy / dx;
    assert last == dy by {
      if dx > 0 {
        ShiftFacts(dx, dy, dx);
      }
    }
    if x1 > x2 {
      assert ps[dx] == (x2 + dx, Toward(y2, y1, dy));
    } else {
      assert ps[dx] == (x1 + dx, Toward(y1, y2, dy));
    }
  }

  lemma SteepEndpoints(x1: int, y1: int, x2: int, y2: int)
    requires Dist(x1, x2) < Dist(y1, y2)
    ensures var ps := LinePoints(x1, y1, x2, y2);
      if y1 > y2 then ps[0] == (x2, y2) && ps[|ps| - 1] == (x1, y1)
      else ps[0] == (x1, y1) && ps[|ps| - 1] == (x2, y2)
  {
    var dx := Dist(x1, x2);
    var dy := Dist(y1, y2);
    var ps := LinePoints(x1, y1, x2, y2);
    assert |ps| - 1 == dy;
    SteepPoint(x1, y1, x2, y2, 0);
    SteepPoint(x1, y1, x2, y2, dy);
    assert dy * dx / dy == dx by {
      ShiftFacts(dy, dx, dy);
    }
    if y1 > y2 {
      assert ps[dy] == (Toward(x2, x1, dx), y2 + dy);
    } else {
      assert ps[dy] == (Toward(x1, x2, dx), y1 + dy);
    }
  }

  /** Every point lies in the endpoints' bounding box. */
  lemma LineInBox(x1: int, y1: int, x2: int, y2: int)
    ensures forall k | 0 <= k < |LinePoints(x1, y1, x2, y2)| ::
      InBox(LinePoints(x1, y1, x2, y2)[k], x1, y1, x2, y2)
  {
    var ps := LinePoints(x1, y1, x2, y2);
    var dx := Dist(x1, x2);
    var dy := Dist(y1, y2);
    forall k | 0 <= k < |ps|
      ensures InBox(ps[k], x1, y1, x2, y2)
    {
      if dx >= dy && dx > 0 {
        ShiftFacts(k, dy, dx);
      } else if dy > dx {
        ShiftFacts(k, dx, dy);
      }
    }
  }

  /** One point per unit step of the major axis, and each step moves the
      minor coordinate by at most one, so the line has no gaps. */
  lemma LineSteps(x1: int, y1: int, x2: int, y2: int)
    ensures var ps := LinePoints(x1, y1, x2, y2);
      forall k | 0 <= k < |ps| ::
        if Dist(x1, x2) >= Dist(y1, y2) then ps[k].0 == Min(x1, x2) + k
        else ps[k].1 == Min(y1, y2) + k
    ensures var ps := LinePoints(x1, y1, x2, y2);
      forall k | 0 <= k < |ps| - 1 ::
        Dist(ps[k].0, ps[k + 1].0) <= 1 && Dist(ps[k].1, ps[k + 1].1) <= 1
  {
    var ps := LinePoints(x1, y1, x2, y2);
    var dx := Dist(x1, x2);
    var dy := Dist(y1, y2);
    forall k | 0 <= k < |ps| - 1
      ensures Dist(ps[k].0, ps[k + 1].0) <= 1 && Dist(ps[k].1, ps[k + 1].1) <= 1
    {
      if dx >= dy {
        ShiftFacts(k, dy, dx);
      } else {
        ShiftFacts(k, dx, dy);
      }
    }
  }

  /** The argument order does not matter. */
  lemma LineSymmetric(x1: int, y1: int, x2: int, y2: int)
    ensures LinePoints(x1, y1, x2, y2) == LinePoints(x2, y2, x1, y1)
  {
  }

  // ---------------------------------------------------------------------------
  // The bitmap side of DrawPixel

  /** A bitmap with at least `h` rows, each at least `w` long. */
  predicate Canvas(b: seq<seq<bool>>, w: nat, h: nat)
  {
    h <= |b| && forall i | 0 <= i < h :: w <= |b[i]|
  }

  predicate InBounds(p: Point, w: nat, h: nat)
  {
    0 <= p.0 < w && 0 <= p.1 < h
  }

  /** The bitmap is stored top-down, so point (x, y) is entry [h-y-1][x]. */
  predicate Covers(p: Point, h: nat, i: int, j: int)
  {
    i == h - p.1 - 1 && j == p.0
  }

  /** DrawPixel on the bitmap: that one entry becomes true, nothing else
      changes. */
  function MarkPixel(b: seq<seq<bool>>, w: nat, h: nat, p: Point): (b2: seq<seq<bool>>)
    requires Canvas(b, w, h) && InBounds(p, w, h)
    ensures |b2| == |b| && Canvas(b2, w, h)
    ensures forall i | 0 <= i < |b| :: |b2[i]| == |b[i]|
    ensures forall i, j | 0 <= i < |b| && 0 <= j < |b[i]| :: b2[i][j] == (b[i][j] || Covers(p, h, i, j))
  {
    var row := h - p.1 - 1;
    b[row := b[row][p.0 := true]]
  }

  /** Drawing the same pixel twice changes nothing further. */
  lemma MarkPixelIdempotent(b: seq<seq<bool>>, w: nat, h: nat, p: Point)
    requires Canvas(b, w, h) && InBounds(p, w, h)
    ensures MarkPixel(MarkPixel(b, w, h, p), w, h, p) == MarkPixel(b, w, h, p)
  {
    var once := MarkPixel(b, w, h, p);
    var row := h - p.1 - 1;
    assert once[row][p.0 := true] == once[row];
  }

  predicate AllInBounds(ps: seq<Point>, w: nat, h: nat)
  {
    forall k | 0 <= k < |ps| :: InBounds(ps[k], w, h)
  }

  /** DrawPixel applied to each point in turn. */
  function MarkPoints(b: seq<seq<bool>>, w: nat, h: nat, ps: seq<Point>): (b2: seq<seq<bool>>)
    requires Canvas(b, w, h) && AllInBounds(ps, w, h)
    ensures |b2| == |b| && Canvas(b2, w, h)
    ensures forall i | 0 <= i < |b| :: |b2[i]| == |b[i]|
    decreases |ps|
  {
    if ps == [] then b
    else MarkPixel(MarkPoints(b, w, h, ps[..|ps| - 1]), w, h, ps[|ps| - 1])
  }

  /** An entry is set after drawing exactly when it was set before or some
      point covers it. */
  lemma {:induction false} MarkPointsEntries(b: seq<seq<bool>>, w: nat, h: nat, ps: seq<Point>, i: nat, j: nat)
    requires Canvas(b, w, h) && AllInBounds(ps, w, h)
    requires i < |b| && j < |b[i]|
    ensures MarkPoints(b, w, h, ps)[i][j]
      <==> b[i][j] || exists k | 0 <= k < |ps| :: Covers(ps[k], h, i, j)
    decreases |ps|
  {
    if ps != [] {
      var init := ps[..|ps| - 1];
      MarkPointsEntries(b, w, h, init, i, j);
      if exists k | 0 <= k < |init| :: Covers(init[k], h, i, j) {
        var k :| 0 <= k < |init| && Covers(init[k], h, i, j);
        assert ps[k] == init[k];
      }
      if exists k | 0 <= k < |ps| :: Covers(ps[k], h, i, j) {
        var k :| 0 <= k < |ps| && Covers(ps[k], h, i, j);
        if k < |init| {
          assert init[k] == ps[k];
        }
      }
    }
  }

  /** Drawing a point sequence and then its continuation is drawing the
      whole sequence. */
  lemma {:induction false} MarkPointsAppend(b: seq<seq<bool>>, w: nat, h: nat, ps: seq<Point>, qs: seq<Point>)
    requires Canvas(b, w, h) && AllInBounds(ps, w, h) && AllInBounds(qs, w, h)
    ensures AllInBounds(ps + qs, w, h)
    ensures MarkPoints(b, w, h, ps + qs) == MarkPoints(MarkPoints(b, w, h, ps), w, h, qs)
    decreases |qs|
  {
    assert AllInBounds(ps + qs, w, h) by {
      forall k | 0 <= k < |ps + qs|
        ensures InBounds((ps + qs)[k], w, h)
      {
        if k >= |ps| {
          assert (ps + qs)[k] == qs[k - |ps|];
        }
      }
    }
    if qs == [] {
      assert ps + qs == ps;
    } else {
      var init := qs[..|qs| - 1];
      MarkPointsAppend(b, w, h, ps, init);
      assert (ps + qs)[..|ps + qs| - 1] == ps + init;
      assert (ps + qs)[|ps + qs| - 1] == qs[|qs| - 1];
    }
  }

  /** Drawing the same points twice changes nothing further. */
  lemma MarkPointsIdempotent(b: seq<seq<bool>>, w: nat, h: nat, ps: seq<Point>)
    requires Canvas(b, w, h) && AllInBounds(ps, w, h)
    ensures MarkPoints(MarkPoints(b, w, h, ps), w, h, ps) == MarkPoints(b, w, h, ps)
  {
    var once := MarkPoints(b, w, h, ps);
    var twice := MarkPoints(once, w, h, ps);
    forall i | 0 <= i < |b|
      ensures twice[i] == once[i]
    {
      forall j | 0 <= j < |b[i]|
        ensures twice[i][j] == once[i][j]
      {
        MarkPointsEntries(b, w, h, ps, i, j);
        MarkPointsEntries(once, w, h, ps, i, j);
      }
    }
  }

  // ---------------------------------------------------------------------------
  // The file side of DrawPixel

  /** The rows DrawPixel counts below row y: one fewer than y, except at the
      bottom row. */
  function PrevScans(y: nat): nat
  {
    if y == 0 then 0 else y - 1
  }

  /** Where DrawPixel writes point (x, y) in the file. */
  function PixelPos(f: ImportantFields, x: nat, y: nat): nat
  {
    f.offset + PrevScans(y) * Stride(f) + x * f.bytesPerPixel
  }

  /** DrawPixel writes a zero 24-bit colour for 3-byte pixels and a zero
      32-bit word otherwise. */
  function BlackSize(f: ImportantFields): nat
  {
    if f.bytesPerPixel == 3 then 3 else 4
  }

  /** The write of point (x, y) stays inside the pixel array. */
  lemma PixelPosInside(f: ImportantFields, n: nat, x: nat, y: nat)
    requires Wellformed(f) && DataFits(f, n) && x < f.width && y < f.height
    ensures PixelPos(f, x, y) + BlackSize(f) <= n
  {
    OffsetMonotone(f, PrevScans(y), x, f.height - 1, f.width - 1);
  }

  /** In a file shorter than 2^32 bytes every position DrawPixel computes
      fits in a DWord, so its 32-bit sum never wraps. */
  lemma PixelPosNoWrap(f: ImportantFields, n: nat, x: nat, y: nat)
    requires Wellformed(f) && DataFits(f, n) && n < DWordModulus
    requires x < f.width && y < f.height
    ensures PixelPos(f, x, y) + BlackSize(f) < DWordModulus
  {
    PixelPosInside(f, n, x, y);
  }

  /** In a file shorter than 2^32 bytes the image has fewer than 2^32
      pixels, so DrawLine's products `(x - x1) * y_diff` and `(y - y1) *
      x_diff`, at most dx * dy, never wrap. */
  lemma LineProductsNoWrap(f: ImportantFields, n: nat, x1: int, y1: int, x2: int, y2: int)
    requires Wellformed(f) && DataFits(f, n) && n < DWordModulus
    requires 0 <= x1 < f.width && 0 <= x2 < f.width && 0 <= y1 < f.height && 0 <= y2 < f.height
    ensures Dist(x1, x2) * Dist(y1, y2) < DWordModulus
  {
    ImageFitsFile(f, n);
    ProductBelow(Dist(x1, x2), Dist(y1, y2), f.width, f.height);
  }

  /** The pixel array holds at least one byte per pixel. */
  lemma ImageFitsFile(f: ImportantFields, n: nat)
    requires Wellformed(f) && DataFits(f, n)
    ensures f.width * f.height <= n
  {
    RowsFit(f.offset, f.width, f.height, f.bytesPerPixel, Stride(f), n);
  }

  /** `h` rows of stride `s`, the last holding `w` pixels of `b` bytes, hold
      at least `w * h` bytes. */
  lemma RowsFit(o: nat, w: int, h: int, b: int, s: int, n: int)
    requires w >= 1 && h >= 1 && b >= 1 && s >= w * b
    requires o + (h - 1) * s + (w - 1) * b + b <= n
    ensures w * h <= n
  {
    assert w <= w * b by {
      MulLe(1, b, w);
    }
    assert w * (h - 1) <= s * (h - 1) by {
      MulLe(w, s, h - 1);
    }
    assert (w - 1) * b + b == w * b;
    assert w * (h - 1) + w == w * h;
  }

  lemma ProductBelow(a: nat, c: nat, w: nat, h: nat)
    requires a < w && c < h
    ensures a * c < w * h
  {
    MulLe(a, w - 1, c);
    MulLe(c, h - 1, w - 1);
    assert (w - 1) * (h - 1) < w * h by {
      assert w * h == (w - 1) * (h - 1) + (w - 1) + h;
    }
  }

  /** Because of the off-by-one, the two lowest rows write the same bytes. */
  lemma PrevScansOffByOne(f: ImportantFields, x: nat)
    ensures PixelPos(f, x, 0) == PixelPos(f, x, 1)
  {
  }

  /** The bytes written are those of the pixel the bitmap entry was decoded
      from exactly when the file row DrawPixel counts to is the row that
      entry shows; in a bottom-up image that holds only for y = 0. */
  lemma PixelPosMatchesDecoding(f: ImportantFields, x: nat, y: nat)
    requires Wellformed(f) && x < f.width && y < f.height
    ensures PixelPos(f, x, y) == PixelOffset(f, ScanOrder(f, f.height - y - 1), x)
      <==> PrevScans(y) == ScanOrder(f, f.height - y - 1)
    ensures f.bottomUp ==>
      (PixelPos(f, x, y) == PixelOffset(f, ScanOrder(f, f.height - y - 1), x) <==> y == 0)
  {
    var r := ScanOrder(f, f.height - y - 1);
    var stride := Stride(f);
    MulLe(1, f.width, f.bytesPerPixel);
    assert stride > 0;
    MulCancel(PrevScans(y), r, stride);
  }

  lemma MulCancel(a: int, b: int, k: int)
    requires k > 0
    ensures a * k == b * k <==> a == b
  {
    if a < b {
      MulLe(a + 1, b, k);
    } else if a > b {
      MulLe(b + 1, a, k);
    }
  }

  /** The file with `n` bytes from `p` set to zero. */
  function ZeroFill(s: seq<Byte>, p: nat, n: nat): (t: seq<Byte>)
    requires p + n <= |s|
    ensures |t| == |s|
    ensures forall k | 0 <= k < |s| :: t[k] == if p <= k < p + n then 0 else s[k]
  {
    s[..p] + seq(n, _ => 0) + s[p + n..]
  }

  /** Writing the same zeros twice changes nothing further. */
  lemma ZeroFillIdempotent(s: seq<Byte>, p: nat, n: nat)
    requires p + n <= |s|
    ensures ZeroFill(ZeroFill(s, p, n), p, n) == ZeroFill(s, p, n)
  {
  }

  predicate Blackened(f: ImportantFields, p: Point, k: int)
    requires p.0 >= 0 && p.1 >= 0
  {
    PixelPos(f, p.0, p.1) <= k < PixelPos(f, p.0, p.1) + BlackSize(f)
  }

  /** DrawPixel applied to each point's bytes in turn. */
  function BlackenPoints(s: seq<Byte>, f: ImportantFields, ps: seq<Point>): (t: seq<Byte>)
    requires Wellformed(f) && DataFits(f, |s|) && AllInBounds(ps, f.width, f.height)
    ensures |t| == |s|
    ensures forall k | 0 <= k < |s| ::
      t[k] == if exists j | 0 <= j < |ps| :: Blackened(f, ps[j], k) then 0 else s[k]
    decreases |ps|
  {
    if ps == [] then s
    else
      var init := ps[..|ps| - 1];
      var last := ps[|ps| - 1];
      PixelPosInside(f, |s|, last.0, last.1);
      var prev := BlackenPoints(s, f, init);
      BlackenStep(s, prev, f, ps, init);
      ZeroFill(prev, PixelPos(f, last.0, last.1), BlackSize(f))
  }

  /** Drawing one more point is marking it on the bitmap drawn so far. */
  lemma MarkPointsSnoc(b: seq<seq<bool>>, w: nat, h: nat, ps: seq<Point>, p: Point)
    requires Canvas(b, w, h) && AllInBounds(ps + [p], w, h)
    ensures AllInBounds(ps, w, h) && InBounds(p, w, h)
    ensures MarkPoints(b, w, h, ps + [p]) == MarkPixel(MarkPoints(b, w, h, ps), w, h, p)
  {
    var all := ps + [p];
    assert InBounds(all[|ps|], w, h);
    assert all[..|all| - 1] == ps;
  }

  /** Drawing one more point is zeroing its bytes in the file drawn so far. */
  lemma BlackenPointsSnoc(s: seq<Byte>, f: ImportantFields, ps: seq<Point>, p: Point)
    requires Wellformed(f) && DataFits(f, |s|)
    requires AllInBounds(ps, f.width, f.height) && InBounds(p, f.width, f.height)
    ensures AllInBounds(ps + [p], f.width, f.height)
    ensures PixelPos(f, p.0, p.1) + BlackSize(f) <= |s|
    ensures var prev := BlackenPoints(s, f, ps);
      BlackenPoints(s, f, ps + [p]) == ZeroFill(prev, PixelPos(f, p.0, p.1), BlackSize(f))
  {
    var all := ps + [p];
    assert all[..|all| - 1] == ps;
    PixelPosInside(f, |s|, p.0, p.1);
  }

  lemma BlackenStep(s: seq<Byte>, prev: seq<Byte>, f: ImportantFields, ps: seq<Point>, init: seq<Point>)
    requires Wellformed(f) && DataFits(f, |s|) && AllInBounds(ps, f.width, f.height) && ps != []
    requires init == ps[..|ps| - 1] && |prev| == |s|
    requires forall k | 0 <= k < |s| ::
      prev[k] == if exists j | 0 <= j < |init| :: Blackened(f, init[j], k) then 0 else s[k]
    ensures var last := ps[|ps| - 1];
      PixelPos(f, last.0, last.1) + BlackSize(f) <= |s|
      && forall k | 0 <= k < |s| ::
        ZeroFill(prev, PixelPos(f, last.0, last.1), BlackSize(f))[k]
          == if exists j | 0 <= j < |ps| :: Blackened(f, ps[j], k) then 0 else s[k]
  {
    var last := ps[|ps| - 1];
    PixelPosInside(f, |s|, last.0, last.1);
    forall k | 0 <= k < |s|
      ensures ZeroFill(prev, PixelPos(f, last.0, last.1), BlackSize(f))[k]
          == if exists j | 0 <= j < |ps| :: Blackened(f, ps[j], k) then 0 else s[k]
    {
      if exists j | 0 <= j < |ps| - 1 :: Blackened(f, init[j], k) {
        var j :| 0 <= j < |ps| - 1 && Blackened(f, init[j], k);
        assert ps[j] == init[j];
      }
      if exists j | 0 <= j < |ps| :: Blackened(f, ps[j], k) {
        var j :| 0 <= j < |ps| && Blackened(f, ps[j], k);
        if j < |ps| - 1 {
          assert init[j] == ps[j];
        }
      }
    }
  }

  /** Blackening a point sequence and then its continuation is blackening
      the whole sequence. */
  lemma BlackenPointsAppend(s: seq<Byte>, f: ImportantFields, ps: seq<Point>, qs: seq<Point>)
    requires Wellformed(f) && DataFits(f, |s|)
    requires AllInBounds(ps, f.width, f.height) && AllInBounds(qs, f.width, f.height)
    ensures AllInBounds(ps + qs, f.width, f.height)
    ensures BlackenPoints(s, f, ps + qs) == BlackenPoints(BlackenPoints(s, f, ps), f, qs)
  {
    var all := ps + qs;
    assert AllInBounds(all, f.width, f.height) by {
      forall k | 0 <= k < |all|
        ensures InBounds(all[k], f.width, f.height)
      {
        if k >= |ps| {
          assert all[k] == qs[k - |ps|];
        }
      }
    }
    var whole := BlackenPoints(s, f, all);
    var split := BlackenPoints(BlackenPoints(s, f, ps), f, qs);
    forall k | 0 <= k < |s|
      ensures whole[k] == split[k]
    {
      if exists j | 0 <= j < |all| :: Blackened(f, all[j], k) {
        var j :| 0 <= j < |all| && Blackened(f, all[j], k);
        if j < |ps| {
          assert all[j] == ps[j];
        } else {
          assert all[j] == qs[j - |ps|];
        }
      }
      if exists j | 0 <= j < |ps| :: Blackened(f, ps[j], k) {
        var j :| 0 <= j < |ps| && Blackened(f, ps[j], k);
        assert all[j] == ps[j];
      }
      if exists j | 0 <= j < |qs| :: Blackened(f, qs[j], k) {
        var j :| 0 <= j < |qs| && Blackened(f, qs[j], k);
        assert all[|ps| + j] == qs[j];
      }
    }
  }

  // ---------------------------------------------------------------------------
  // DrawCross

  /** The two diagonals of the box with corners (x1, y1) and (x2, y2). */
  function CrossPoints(x1: int, y1: int, x2: int, y2: int): seq<Point>
  {
    LinePoints(x1, y1, x2, y2) + LinePoints(x1, y2, x2, y1)
  }

  /** An all-white bitmap. */
  function Blank(w: nat, h: nat): (b: seq<seq<bool>>)
    ensures Canvas(b, w, h) && |b| == h
  {
    seq(h, _ => seq(w, _ => false))
  }

  /** A bitmap written as text rows, '#' for a dark pixel. */
  function FromRows(rows: seq<string>): seq<seq<bool>>
  {
    seq(|rows|, i requires 0 <= i < |rows| =>
      seq(|rows[i]|, j requires 0 <= j < |rows[i]| => rows[i][j] == '#'))
  }

  /** The pattern the drawer test expects for a cross from (2, 2) to (8, 8)
      on a white 10x10 image. */
  const CrossOnWhite: seq<string> := [
    "..........",
    "..#.....#.",
    "...#...#..",
    "....#.#...",
    ".....#....",
    "....#.#...",
    "...#...#..",
    "..#.....#.",
    "..........",
    ".........."]

  /** The cells of the two diagonals, as a formula. */
  predicate CrossCell(i: int, j: int)
  {
    2 <= j <= 8 && (i + j == 9 || j == i + 1)
  }

  lemma CrossOnWhiteCell(i: nat, j: nat)
    requires i < 10 && j < 10
    ensures |FromRows(CrossOnWhite)| == 10 && |FromRows(CrossOnWhite)[i]| == 10
    ensures FromRows(CrossOnWhite)[i][j] <==> CrossCell(i, j)
  {
    var rows := CrossOnWhite;
    assert |rows[i]| == 10;
    if i == 0 { assert rows[i][j] == '#' <==> CrossCell(i, j); }
    else if i == 1 { assert rows[i][j] == '#' <==> CrossCell(i, j); }
    else if i == 2 { assert rows[i][j] == '#' <==> CrossCell(i, j); }
    else if i == 3 { assert rows[i][j] == '#' <==> CrossCell(i, j); }
    else if i == 4 { assert rows[i][j] == '#' <==> CrossCell(i, j); }
    else if i == 5 { assert rows[i][j] == '#' <==> CrossCell(i, j); }
    else if i == 6 { assert rows[i][j] == '#' <==> CrossCell(i, j); }
    else if i == 7 { assert rows[i][j] == '#' <==> CrossCell(i, j); }
    else if i == 8 { assert rows[i][j] == '#' <==> CrossCell(i, j); }
    else { assert rows[i][j] == '#' <==> CrossCell(i, j); }
  }

  /** The points of the test's cross: the rising diagonal, then the falling
      one. */
  lemma TestCrossPoints()
    ensures var ps := CrossPoints(2, 2, 8, 8);
      |ps| == 14 && forall k | 0 <= k < 14 :: ps[k] == if k < 7 then (2 + k, 2 + k) else (k - 5, 15 - k)
  {
    var ps := CrossPoints(2, 2, 8, 8);
    var up := LinePoints(2, 2, 8, 8);
    var down := LinePoints(2, 8, 8, 2);
    assert forall k | 0 <= k < 7 :: up[k] == (2 + k, 2 + k);
    assert forall k | 0 <= k < 7 :: down[k] == (2 + k, 8 - k);
    assert forall k | 0 <= k < 14 :: ps[k] == if k < 7 then up[k] else down[k - 7];
  }

  /** One entry of the drawn test cross. */
  lemma TestCrossEntry(i: nat, j: nat)
    requires i < 10 && j < 10
    ensures AllInBounds(CrossPoints(2, 2, 8, 8), 10, 10)
    ensures MarkPoints(Blank(10, 10), 10, 10, CrossPoints(2, 2, 8, 8))[i][j] <==> CrossCell(i, j)
  {
    var ps := CrossPoints(2, 2, 8, 8);
    TestCrossPoints();
    var b := Blank(10, 10);
    MarkPointsEntries(b, 10, 10, ps, i, j);
    if 2 <= j <= 8 && i + j == 9 {
      assert Covers(ps[j - 2], 10, i, j);
    } else if 2 <= j <= 8 && j == i + 1 {
      assert Covers(ps[7 + j - 2], 10, i, j);
    }
  }

  lemma DrawerTestCross()
    ensures AllInBounds(CrossPoints(2, 2, 8, 8), 10, 10)
      && MarkPoints(Blank(10, 10), 10, 10, CrossPoints(2, 2, 8, 8)) == FromRows(CrossOnWhite)
  {
    TestCrossEntry(0, 0);
    var result := MarkPoints(Blank(10, 10), 10, 10, CrossPoints(2, 2, 8, 8));
    var expected := FromRows(CrossOnWhite);
    forall i, j | 0 <= i < 10 && 0 <= j < 10
      ensures result[i][j] == expected[i][j]
    {
      TestCrossEntry(i, j);
      CrossOnWhiteCell(i, j);
    }
    CrossOnWhiteCell(0, 0);
    assert forall i | 0 <= i < 10 :: result[i] == expected[i];
  }
}
