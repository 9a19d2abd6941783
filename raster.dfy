/**
  What the `Snowy::Canvas` operations do to an indexed pixel buffer,
  stated on values: a buffer is the `seq<byte>` of palette indices of a
  `w x h` canvas, row by row.
 */
module Raster {
  import opened Wrappers
  import opened Bytes
  import opened Grid

  /** `String#setbyte` and `pack("C")` keep the low eight bits of an Integer. */
  function ByteOf(v: int): (b: byte)
    ensures 0 <= v < 256 ==> b == v
    ensures (b - v) % 256 == 0
  {
    v % 256
  }

  /** `Float#round`: the nearest integer, halves rounded away from zero. */
  function Round(x: real): (n: int)
    ensures x - 0.5 <= n as real <= x + 0.5
    ensures x >= 0.0 ==> n as real > x - 0.5
    ensures x < 0.0 ==> (n as real) < x + 0.5
  {
    if x >= 0.0 then (x + 0.5).Floor else -((0.5 - x).Floor)
  }

  /** `Integer#round` is the identity, and so is rounding a whole Float. */
  lemma RoundWhole(n: int)
    ensures Round(n as real) == n
  {
  }

  function Min(a: int, b: int): int { if a <= b then a else b }

  function Max(a: int, b: int): int { if a >= b then a else b }

  /** `p` with pixels `x0 <= x < x1` of row `y` set to `c`. */
  function Span(p: seq<byte>, w: int, y: int, x0: int, x1: int, c: byte): (r: seq<byte>)
    ensures |r| == |p|
  {
    seq(|p|, k requires 0 <= k < |p| => if w > 0 && k / w == y && x0 <= k % w < x1 then c else p[k])
  }

  /** Pixel `(x', y')` after a span: `c` inside the span, untouched outside. */
  lemma SpanAt(p: seq<byte>, w: int, h: int, y: int, x0: int, x1: int, c: byte, x': int, y': int)
    requires |p| == w * h && InBounds(w, h, x', y')
    ensures 0 <= Index(w, x', y') < |p|
    ensures Span(p, w, y, x0, x1, c)[Index(w, x', y')] ==
      if y' == y && x0 <= x' < x1 then c else p[Index(w, x', y')]
  {
    IndexInside(w, h, x', y');
    IndexRowCol(w, x', y');
  }

  /**
    `plotscanline(y, x0, x1)` once its arguments are rounded: on a row
    inside the canvas, the pixels from the smaller end (but at least 0)
    up to, excluding, the larger end (but at most `w`) become `c`.
   */
  function Scanline(p: seq<byte>, w: int, h: int, y: int, x0: int, x1: int, c: byte): (r: seq<byte>)
    ensures |r| == |p|
  {
    if 0 <= y < h then Span(p, w, y, Max(0, Min(x0, x1)), Min(w, Max(x0, x1)), c) else p
  }

  /** A span with no pixel in it changes nothing. */
  lemma SpanEmpty(p: seq<byte>, w: int, y: int, x0: int, x1: int, c: byte)
    requires x1 <= x0
    ensures Span(p, w, y, x0, x1, c) == p
  {
  }

  /** Widening a span by one pixel on the right sets that one pixel. */
  lemma SpanExtend(p: seq<byte>, w: int, y: int, x0: int, x: int, c: byte)
    requires w > 0 && 0 <= y && x0 <= x < w && 0 <= x
    requires 0 <= Index(w, x, y) < |p|
    ensures Span(p, w, y, x0, x + 1, c) == Span(p, w, y, x0, x, c)[Index(w, x, y) := c]
  {
    IndexRowCol(w, x, y);
    forall k | 0 <= k < |p| && k != Index(w, x, y)
      ensures Span(p, w, y, x0, x + 1, c)[k] == Span(p, w, y, x0, x, c)[k]
    {
      RowColIndex(w, k);
    }
  }

  /** A scanline on a row outside the canvas, or entirely left or right of it, changes nothing. */
  lemma ScanlineOffCanvas(p: seq<byte>, w: int, h: int, y: int, x0: int, x1: int, c: byte)
    requires y < 0 || y >= h || Max(x0, x1) <= 0 || Min(x0, x1) >= w
    ensures Scanline(p, w, h, y, x0, x1, c) == p
  {
  }

  /** `after` differs from `before` only in rows `lo..hi`, and only by holding `c` there. */
  ghost predicate PaintedWithin(before: seq<byte>, after: seq<byte>, w: int, lo: int, hi: int, c: byte)
  {
    && |after| == |before|
    && forall k :: 0 <= k < |before| && after[k] != before[k] ==> after[k] == c && w > 0 && lo <= k / w <= hi
  }

  lemma ScanlinePainted(p: seq<byte>, w: int, h: int, y: int, x0: int, x1: int, c: byte, lo: int, hi: int)
    requires lo <= y <= hi
    ensures PaintedWithin(p, Scanline(p, w, h, y, x0, x1, c), w, lo, hi, c)
  {
  }

  lemma PaintedTrans(a: seq<byte>, b: seq<byte>, d: seq<byte>, w: int, lo: int, hi: int, c: byte)
    requires PaintedWithin(a, b, w, lo, hi, c) && PaintedWithin(b, d, w, lo, hi, c)
    ensures PaintedWithin(a, d, w, lo, hi, c)
  {
    forall k | 0 <= k < |a| && d[k] != a[k] ensures d[k] == c && w > 0 && lo <= k / w <= hi {
      if d[k] == b[k] {
        assert b[k] != a[k];
      }
    }
  }

  /** `setpixel(x, y, v)`: byte `x + y*w` becomes `v`'s low byte when `(x, y)` is on the canvas. */
  function StorePixel(p: seq<byte>, w: int, h: int, x: int, y: int, v: int): (r: seq<byte>)
    requires |p| == w * h
    ensures |r| == |p|
  {
    if InBounds(w, h, x, y) then
      IndexInside(w, h, x, y);
      p[Index(w, x, y) := ByteOf(v)]
    else p
  }

  /**
    Reading after writing: the pixel just set holds the stored byte,
    every other pixel holds what it held before.
   */
  lemma StoreThenRead(p: seq<byte>, w: int, h: int, x: int, y: int, v: int, x': int, y': int)
    requires |p| == w * h && InBounds(w, h, x', y')
    ensures 0 <= Index(w, x', y') < |p|
    ensures StorePixel(p, w, h, x, y, v)[Index(w, x', y')] ==
      if InBounds(w, h, x, y) && x' == x && y' == y then ByteOf(v) else p[Index(w, x', y')]
  {
    IndexInside(w, h, x', y');
    if InBounds(w, h, x, y) {
      IndexInjective(w, x, y, x', y');
      IndexInside(w, h, x, y);
    }
  }

  /** The integer mean of four bytes lies between the smallest and the largest of them. */
  function Mean4(a: byte, b: byte, c: byte, d: byte): (m: byte)
    ensures Min(Min(a, b), Min(c, d)) <= m <= Max(Max(a, b), Max(c, d))
  {
    (a as int + b + c + d) / 4
  }

  /** The mean of the 2x2 block whose top-left pixel is `(2x, 2y)`. */
  function BlockMean(p: seq<byte>, w: int, h: int, x: int, y: int): byte
    requires |p| == w * h && 0 <= x && 2 * x + 1 < w && 0 <= y && 2 * y + 1 < h
  {
    IndexInside(w, h, 2 * x, 2 * y);
    IndexInside(w, h, 2 * x + 1, 2 * y);
    IndexInside(w, h, 2 * x, 2 * y + 1);
    IndexInside(w, h, 2 * x + 1, 2 * y + 1);
    Mean4(p[Index(w, 2 * x, 2 * y)], p[Index(w, 2 * x + 1, 2 * y)],
          p[Index(w, 2 * x, 2 * y + 1)], p[Index(w, 2 * x + 1, 2 * y + 1)])
  }

  /** `halfdown!` as intended: a `(w/2) x (h/2)` buffer of 2x2 block means. */
  function Downsampled(p: seq<byte>, w: nat, h: nat): (r: seq<byte>)
    requires |p| == w * h
    ensures |r| == (w / 2) * (h / 2)
  {
    seq((w / 2) * (h / 2), j requires 0 <= j < (w / 2) * (h / 2) =>
      RowColInside(w / 2, h / 2, j);
      BlockMean(p, w, h, j % (w / 2), j / (w / 2)))
  }

  /** Pixel `(x, y)` of the halved canvas is the mean of block `(2x, 2y)` of the original. */
  lemma DownsampledAt(p: seq<byte>, w: nat, h: nat, x: int, y: int)
    requires |p| == w * h && InBounds(w / 2, h / 2, x, y)
    ensures 0 <= Index(w / 2, x, y) < |Downsampled(p, w, h)|
    ensures Downsampled(p, w, h)[Index(w / 2, x, y)] == BlockMean(p, w, h, x, y)
  {
    IndexInside(w / 2, h / 2, x, y);
    IndexRowCol(w / 2, x, y);
  }

  /**
    The block read for target pixel `(x, y)` of an in-place downsampling
    lies at or after the target byte, so no pixel is read after it has
    been overwritten.
   */
  lemma BlockAfterCursor(w: nat, h: nat, x: int, y: int)
    requires 0 <= x < w / 2 && 0 <= y < h / 2
    ensures Index(w / 2, x, y) <= Index(w, 2 * x, 2 * y) <= Index(w, 2 * x + 1, 2 * y)
    ensures Index(w, 2 * x + 1, 2 * y) <= Index(w, 2 * x, 2 * y + 1) <= Index(w, 2 * x + 1, 2 * y + 1) < w * h
  {
    IndexInside(w, h, 2 * x + 1, 2 * y + 1);
    MulMono(w / 2, w, y);
    MulMono(0, w, y);
    var row := y * w;
    assert y * (w / 2) <= row;
    assert (2 * y) * w == row + row;
    assert (2 * y + 1) * w == row + row + w;
  }

  /** The final value of target pixel `(x, y)` is the mean of its block in the original buffer. */
  lemma HalfStep(orig: seq<byte>, w: nat, h: nat, x: int, y: int, want: seq<byte>)
    requires |orig| == w * h && want == Downsampled(orig, w, h)
    requires 0 <= x < w / 2 && 0 <= y < h / 2
    ensures 0 <= Index(w / 2, x, y) <= Index(w, 2 * x, 2 * y) && Index(w, 2 * x + 1, 2 * y + 1) < w * h
    ensures Index(w / 2, x, y) < |want|
    ensures want[Index(w / 2, x, y)] ==
      Mean4(orig[Index(w, 2 * x, 2 * y)], orig[Index(w, 2 * x + 1, 2 * y)],
            orig[Index(w, 2 * x, 2 * y + 1)], orig[Index(w, 2 * x + 1, 2 * y + 1)])
  {
    BlockAfterCursor(w, h, x, y);
    DownsampledAt(orig, w, h, x, y);
  }

  /** `p` holds `want` before byte `c` and `orig` from byte `c` on. */
  ghost predicate Progress(p: seq<byte>, orig: seq<byte>, want: seq<byte>, c: int)
  {
    && |p| == |orig| && 0 <= c <= |want|
    && forall k :: 0 <= k < |p| ==> p[k] == if k < c then want[k] else orig[k]
  }

  /** Where the row-by-row cursor of an in-place downsampling ends up. */
  lemma CursorEnd(w2: nat, h2: nat, w: nat, h: nat)
    requires w2 == w / 2 && h2 == h / 2
    ensures Index(w2, 0, h2) == w2 * h2 <= w * h
  {
    MulMono(w2, w, h2);
    MulMono(h2, h, w);
  }

  /**
    The block mean `halfdown!` computes for target pixel `(x, y)` as it is
    written, stepping rows by the height instead of the width, read from
    the buffer before any write; `None` when a read falls past the end of
    the buffer (Ruby then adds `nil` and raises). Reading the unwritten
    buffer is exact for the targets of the first row, whose reads all lie
    at or after the write cursor, and on square canvases; on later rows of
    a wide canvas the reads can hit bytes the loop has already replaced
    (on a 32x4 canvas target `(0, 1)` reads bytes 8, 9, 12 and 13, which
    row 0 has overwritten), and this function does not follow those.
   */
  function BlockAsWritten(p: seq<byte>, h: int, x: int, y: int): (r: Option<int>)
    ensures r.Some? ==> 0 <= r.value < 256
  {
    var xx, yy, xx1, yy1 := 2 * x, 2 * y * h, 2 * x + 1, (2 * y + 1) * h;
    if 0 <= xx + yy && 0 <= xx + yy1 && xx1 + yy1 < |p| && xx1 + yy < |p| then
      Some((p[xx + yy] as int + p[xx1 + yy] + p[xx + yy1] + p[xx1 + yy1]) / 4)
    else None
  }

  /** On a square canvas the height stride is the width stride, and the block read is the intended one. */
  lemma BlockAsWrittenSquare(p: seq<byte>, w: nat, x: int, y: int)
    requires |p| == w * w && 0 <= x && 2 * x + 1 < w && 0 <= y && 2 * y + 1 < w
    ensures BlockAsWritten(p, w, x, y) == Some(BlockMean(p, w, w, x, y) as int)
  {
    BlockAfterCursor(w, w, x, y);
  }

  /**
    A 2x4 canvas (`w = 2`, `h = 4`): for the second target pixel `(0, 1)`
    every read is at byte 8 or later of the 8-byte buffer, so `halfdown!`
    raises, while the intended result is a 1x2 canvas.
   */
  lemma BlockAsWrittenTallFails(p: seq<byte>)
    requires |p| == 8
    ensures BlockAsWritten(p, 4, 0, 1) == None
    ensures |Downsampled(p, 2, 4)| == 2
  {
  }

  /**
    A 4x2 canvas (`w = 4`, `h = 2`) whose top row is 0 and bottom row is 4:
    the first target pixel reads the top row twice and gets 0, where the
    mean of its block is 2.
   */
  lemma BlockAsWrittenWideWrong()
    ensures BlockAsWritten([0, 0, 0, 0, 4, 4, 4, 4], 2, 0, 0) == Some(0)
    ensures Downsampled([0, 0, 0, 0, 4, 4, 4, 4], 4, 2)[0] == 2
  {
    DownsampledAt([0, 0, 0, 0, 4, 4, 4, 4], 4, 2, 0, 0);
  }

  /** Not on the canvas border. */
  predicate Interior(w: int, h: int, k: int)
  {
    w > 0 && 1 <= k % w < w - 1 && 1 <= k / w < h - 1
  }

  lemma InteriorNeighbours(w: int, h: int, k: int)
    requires Interior(w, h, k) && 0 <= k
    ensures 0 <= k - w && k + w < w * h
  {
    RowColIndex(w, k);
    IndexInside(w, h, k % w, k / w + 1);
    assert k + w == Index(w, k % w, k / w + 1);
  }

  /**
    One pixel of the outline pass: a background (0) pixel off the border
    with a fill (1) pixel to its left, right, top or bottom becomes 2.
   */
  function OutlineAt(p: seq<byte>, w: int, h: int, k: int): (b: byte)
    requires |p| == w * h && 0 <= k < |p|
    ensures b != p[k] ==> p[k] == 0 && b == 2
  {
    if Interior(w, h, k) then
      InteriorNeighbours(w, h, k);
      if p[k] == 0 && (p[k + 1] == 1 || p[k - 1] == 1 || p[k + w] == 1 || p[k - w] == 1) then 2 else p[k]
    else p[k]
  }

  /** The outline pass of `DefaultDriver.render`, judged entirely on the buffer before it. */
  function Outlined(p: seq<byte>, w: int, h: int): (r: seq<byte>)
    requires |p| == w * h
    ensures |r| == |p|
  {
    seq(|p|, k requires 0 <= k < |p| => OutlineAt(p, w, h, k))
  }

  /** The pass recolours only background pixels, and only to 2: fill pixels stay fill pixels. */
  lemma OutlinedChanges(p: seq<byte>, w: int, h: int, k: int)
    requires |p| == w * h && 0 <= k < |p|
    ensures Outlined(p, w, h)[k] == 1 <==> p[k] == 1
    ensures Outlined(p, w, h)[k] == 0 ==> p[k] == 0
    ensures Outlined(p, w, h)[k] != p[k] ==> p[k] == 0 && Outlined(p, w, h)[k] == 2
  {
  }

  /**
    The 2s the pass writes never start further outlining: running the
    pass again changes nothing.
   */
  lemma OutlinedIdempotent(p: seq<byte>, w: int, h: int)
    requires |p| == w * h
    ensures Outlined(Outlined(p, w, h), w, h) == Outlined(p, w, h)
  {
    var q := Outlined(p, w, h);
    forall k | 0 <= k < |p| ensures OutlineAt(q, w, h, k) == q[k] {
      if Interior(w, h, k) {
        InteriorNeighbours(w, h, k);
        OutlinedChanges(p, w, h, k);
        OutlinedChanges(p, w, h, k + 1);
        OutlinedChanges(p, w, h, k - 1);
        OutlinedChanges(p, w, h, k + w);
        OutlinedChanges(p, w, h, k - w);
      }
    }
  }

  /** Byte `k` comes before pixel `(px, py)` in row-major order. */
  predicate Done(w: int, k: int, px: int, py: int)
  {
    w > 0 && (k / w < py || (k / w == py && k % w < px))
  }

  /**
    Partway through the in-place outline pass, at pixel `(px, py)`: the
    bytes before it hold their outlined values, the rest their original ones.
   */
  ghost predicate OutlineProgress(p: seq<byte>, orig: seq<byte>, w: int, h: int, px: int, py: int)
  {
    && |orig| == w * h && |p| == |orig|
    && forall k :: 0 <= k < |p| ==> p[k] == if Done(w, k, px, py) then Outlined(orig, w, h)[k] else orig[k]
  }

  /**
    One step of the in-place outline pass at interior pixel `(px, py)`:
    the pixel itself is still original, and each neighbour is a fill pixel
    exactly when it was one originally.
   */
  lemma OutlineStep(orig: seq<byte>, p: seq<byte>, w: int, h: int, px: int, py: int)
    requires 1 <= px < w - 1 && 1 <= py < h - 1
    requires OutlineProgress(p, orig, w, h, px, py)
    ensures Index(w, px, py) - w >= 0 && Index(w, px, py) + w < |p|
    ensures Interior(w, h, Index(w, px, py))
    ensures p[Index(w, px, py)] == orig[Index(w, px, py)]
    ensures forall j :: j in {Index(w, px, py) + 1, Index(w, px, py) - 1, Index(w, px, py) + w, Index(w, px, py) - w} ==>
      (p[j] == 1 <==> orig[j] == 1)
    ensures forall k :: 0 <= k < |p| ==> (Done(w, k, px + 1, py) <==> Done(w, k, px, py) || k == Index(w, px, py))
  {
    var k := Index(w, px, py);
    IndexRowCol(w, px, py);
    InteriorNeighbours(w, h, k);
    OutlinedChanges(orig, w, h, k + 1);
    OutlinedChanges(orig, w, h, k - 1);
    OutlinedChanges(orig, w, h, k + w);
    OutlinedChanges(orig, w, h, k - w);
    forall j | 0 <= j < |p| ensures (Done(w, j, px + 1, py) <==> Done(w, j, px, py) || j == k) {
      RowColIndex(w, j);
    }
  }

  /** The pass skips the first pixel of each row: it is on the border. */
  lemma OutlineRowStart(orig: seq<byte>, p: seq<byte>, w: int, h: int, py: int)
    requires OutlineProgress(p, orig, w, h, 0, py)
    ensures OutlineProgress(p, orig, w, h, 1, py)
  {
  }

  /** The pass skips the last pixel of each row: it is on the border. */
  lemma OutlineRowEnd(orig: seq<byte>, p: seq<byte>, w: int, h: int, px: int, py: int)
    requires OutlineProgress(p, orig, w, h, px, py) && 1 <= px && w - 1 <= px
    ensures OutlineProgress(p, orig, w, h, 0, py + 1)
  {
  }

  /** The pass skips the last row, so once past the rows it visits it is complete. */
  lemma OutlineEnd(orig: seq<byte>, p: seq<byte>, w: int, h: int, py: int)
    requires OutlineProgress(p, orig, w, h, 0, py) && h - 1 <= py
    ensures p == Outlined(orig, w, h)
  {
  }

  /** The bytes a colour map can write. */
  function MappedBytes(colormap: map<char, int>): set<byte>
  {
    set ch | ch in colormap :: ByteOf(colormap[ch])
  }

  /**
    `dot_by_char(x, y, text, colormap)` from cursor `(x, y)` with line
    start `x0`: a newline moves to the start of the next line, a space
    skips a pixel, any other character sets its mapped colour (if it has
    one) and moves right.
   */
  function Dots(p: seq<byte>, w: int, h: int, x0: int, x: int, y: int, text: string, colormap: map<char, int>): (r: seq<byte>)
    requires |p| == w * h
    ensures |r| == |p|
    decreases |text|
  {
    if text == [] then p
    else if text[0] == '\n' then Dots(p, w, h, x0, x0, y + 1, text[1..], colormap)
    else if text[0] == ' ' then Dots(p, w, h, x0, x + 1, y, text[1..], colormap)
    else if text[0] in colormap then
      Dots(StorePixel(p, w, h, x, y, colormap[text[0]]), w, h, x0, x + 1, y, text[1..], colormap)
    else Dots(p, w, h, x0, x + 1, y, text[1..], colormap)
  }

  /** Drawing text only ever writes colours from the colour map. */
  lemma {:induction false} DotsWriteMappedColours(p: seq<byte>, w: int, h: int, x0: int, x: int, y: int,
                                                  text: string, colormap: map<char, int>, k: int)
    requires |p| == w * h && 0 <= k < |p|
    ensures Dots(p, w, h, x0, x, y, text, colormap)[k] == p[k] ||
            Dots(p, w, h, x0, x, y, text, colormap)[k] in MappedBytes(colormap)
    decreases |text|
  {
    if text == [] {
    } else if text[0] == '\n' {
      DotsWriteMappedColours(p, w, h, x0, x0, y + 1, text[1..], colormap, k);
    } else if text[0] == ' ' || text[0] !in colormap {
      DotsWriteMappedColours(p, w, h, x0, x + 1, y, text[1..], colormap, k);
    } else {
      var q := StorePixel(p, w, h, x, y, colormap[text[0]]);
      DotsWriteMappedColours(q, w, h, x0, x + 1, y, text[1..], colormap, k);
      assert q[k] == p[k] || q[k] == ByteOf(colormap[text[0]]);
    }
  }

  /** A vertex after transforming and rounding. */
  datatype Point = Point(x: int, y: int)

  /** `r` holds the three points in some order. */
  predicate Permuted(r: (Point, Point, Point), p0: Point, p1: Point, p2: Point)
  {
    || r == (p0, p1, p2) || r == (p0, p2, p1) || r == (p1, p0, p2)
    || r == (p1, p2, p0) || r == (p2, p0, p1) || r == (p2, p1, p0)
  }

  /** A reordering keeps each point as often as it was given. */
  lemma PermutedMultiset(r: (Point, Point, Point), p0: Point, p1: Point, p2: Point)
    requires Permuted(r, p0, p1, p2)
    ensures multiset{r.0, r.1, r.2} == multiset{p0, p1, p2}
  {
  }

  /**
    The three compare-and-swap steps of `triangle`: swap the first two
    vertices if out of order in y, then the last two, then the first two.
   */
  function SortByY(p0: Point, p1: Point, p2: Point): (r: (Point, Point, Point))
    ensures r.0.y <= r.1.y <= r.2.y
    ensures Permuted(r, p0, p1, p2)
  {
    var (a0, a1) := if p0.y > p1.y then (p1, p0) else (p0, p1);
    var (b1, b2) := if a1.y > p2.y then (p2, a1) else (a1, p2);
    var (c0, c1) := if a0.y > b1.y then (b1, a0) else (a0, b1);
    (c0, c1, b2)
  }
}
