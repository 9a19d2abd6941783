/**
  `Snowy::Canvas`: a 256-colour indexed canvas of at most 4096 x 4096
  pixels, one palette index per byte, with its own transformation matrix.
 */
module Canvases {
  import opened Wrappers
  import opened Bytes
  import opened Grid
  import opened Colors
  import opened Affine
  import opened Raster
  import Png

  const MinPixel: int := 1
  const MaxPixel: int := 4096

  const Black: nat := Rgba(0, 0, 0)
  const White: nat := Rgba(255, 255, 255)

  datatype CanvasError =
    | SizeOutOfRange(width: int, height: int)
    | PointOutOfCanvas(x: int, y: int)

  function Min3(a: int, b: int, c: int): (m: int)
    ensures m <= a && m <= b && m <= c && (m == a || m == b || m == c)
  {
    Min(Min(a, b), c)
  }

  function Max3(a: int, b: int, c: int): (m: int)
    ensures m >= a && m >= b && m >= c && (m == a || m == b || m == c)
  {
    Max(Max(a, b), c)
  }

  /** Reordering three points changes neither their leftmost nor their rightmost x. */
  lemma MinMaxPermuted(p0: Point, p1: Point, p2: Point, q0: Point, q1: Point, q2: Point)
    requires Permuted((p0, p1, p2), q0, q1, q2)
    ensures Min3(p0.x, p1.x, p2.x) == Min3(q0.x, q1.x, q2.x)
    ensures Max3(p0.x, p1.x, p2.x) == Max3(q0.x, q1.x, q2.x)
    ensures Min3(p0.y, p1.y, p2.y) == Min3(q0.y, q1.y, q2.y)
    ensures Max3(p0.y, p1.y, p2.y) == Max3(q0.y, q1.y, q2.y)
  {
  }

  /** Makes a canvas, or reports a width or height outside `MinPixel..MaxPixel`. */
  method NewCanvas(width: int, height: int, background: int := 0, color: int := 1,
                   palette: seq<nat> := [White, Black])
    returns (r: Result<Canvas, CanvasError>)
    ensures r.Err? <==> !(MinPixel <= width <= MaxPixel && MinPixel <= height <= MaxPixel)
    ensures r.Err? ==> r.error == SizeOutOfRange(width, height)
    ensures r.Ok? ==> r.value.Valid() && r.value.width == width && r.value.height == height
    ensures r.Ok? ==> forall k :: 0 <= k < |r.value.pixels| ==> r.value.pixels[k] == ByteOf(background)
    ensures r.Ok? ==> r.value.matrix.matrix == Identity()
    ensures r.Ok? ==> r.value.palette == palette && r.value.color == color
  {
    if width < MinPixel || width > MaxPixel || height < MinPixel || height > MaxPixel {
      return Err(SizeOutOfRange(width, height));
    }
    var canvas := new Canvas(width, height, background, color, palette);
    return Ok(canvas);
  }

  /**
    The palette `DefaultDriver.render` leaves on its canvas: the background,
    the fill, and the outline colour only when there is one.
   */
  function RenderPalette(background: nat, fill: nat, outline: Option<nat>): (p: seq<nat>)
    ensures |p| == if outline.Some? then 3 else 2
    ensures p[..2] == [background, fill]
    ensures outline.Some? <==> |p| == 3 && p[2] == outline.value
  {
    if outline.Some? then [background, fill, outline.value] else [background, fill]
  }

  class Canvas {
    var width: nat
    var height: nat
    /** The palette index of pixel `(x, y)` is byte `x + y * width`. */
    var pixels: seq<byte>
    const palette: seq<nat>
    /** The palette index drawing operations paint with. */
    const color: int
    const matrix: Matrix

    ghost predicate Valid()
      reads this
    {
      width <= MaxPixel && height <= MaxPixel && |pixels| == width * height
    }

    /** A canvas of the given size, every pixel `background`, with the identity matrix. */
    constructor (width: nat, height: nat, background: int, color: int, palette: seq<nat>)
      requires MinPixel <= width <= MaxPixel && MinPixel <= height <= MaxPixel
      ensures Valid() && this.width == width && this.height == height
      ensures forall k :: 0 <= k < |pixels| ==> pixels[k] == ByteOf(background)
      ensures fresh(matrix) && matrix.matrix == Identity()
      ensures this.palette == palette && this.color == color
    {
      this.width := width;
      this.height := height;
      pixels := seq(width * height, _ => ByteOf(background));
      matrix := new Matrix();
      this.palette := palette;
      this.color := color;
    }

    /** Whether `(x, y)` lies on the canvas; when it does its byte exists. */
    predicate ValidatePoint(x: int, y: int)
      reads this
      ensures ValidatePoint(x, y) <==> InBounds(width, height, x, y)
      ensures ValidatePoint(x, y) && Valid() ==> 0 <= Index(width, x, y) < |pixels|
    {
      if x < 0 || x >= width || y < 0 || y >= height then
        false
      else
        IndexInside(width, height, x, y);
        true
    }

    /** Succeeds exactly for the points on the canvas. */
    function TestPoint(x: int, y: int): (r: Result<(), CanvasError>)
      reads this
      ensures r.Ok? <==> InBounds(width, height, x, y)
      ensures r.Err? ==> r.error == PointOutOfCanvas(x, y)
    {
      if !ValidatePoint(x, y) then Err(PointOutOfCanvas(x, y)) else Ok(())
    }

    /** The palette index at `(x, y)`, or nothing off the canvas. */
    function GetPixel(x: int, y: int): (r: Option<byte>)
      reads this
      requires Valid()
      ensures r.Some? <==> InBounds(width, height, x, y)
      ensures r.Some? ==> 0 <= Index(width, x, y) < |pixels| && r.value == pixels[Index(width, x, y)]
    {
      if ValidatePoint(x, y) then Some(pixels[x + y * width]) else None
    }

    /** Sets `(x, y)` to the low byte of `level`; a point off the canvas is ignored. */
    method SetPixel(x: int, y: int, level: int)
      requires Valid()
      modifies this
      ensures Valid() && width == old(width) && height == old(height)
      ensures pixels == StorePixel(old(pixels), width, height, x, y, level)
      ensures forall x', y' :: InBounds(width, height, x', y') ==>
        GetPixel(x', y') == if x' == x && y' == y then Some(ByteOf(level)) else old(GetPixel(x', y'))
    {
      if ValidatePoint(x, y) {
        pixels := pixels[x + y * width := ByteOf(level)];
      }
      forall x', y' | InBounds(width, height, x', y')
        ensures GetPixel(x', y') == if x' == x && y' == y then Some(ByteOf(level)) else old(GetPixel(x', y'))
      {
        StoreThenRead(old(pixels), width, height, x, y, level, x', y');
      }
    }

    /** Every byte of the canvas becomes the low byte of `c`. */
    method Fill(c: int := color)
      modifies this
      ensures width == old(width) && height == old(height) && |pixels| == |old(pixels)|
      ensures forall k :: 0 <= k < |pixels| ==> pixels[k] == ByteOf(c)
    {
      var i := 0;
      while i < |pixels|
        invariant 0 <= i <= |pixels| == |old(pixels)|
        invariant width == old(width) && height == old(height)
        invariant forall k :: 0 <= k < i ==> pixels[k] == ByteOf(c)
      {
        pixels := pixels[i := ByteOf(c)];
        i := i + 1;
      }
    }

    /**
      `plotscanline!`: pixels `x0 <= x < x1` of row `y` become `color`.
      Its callers clip the span to the canvas first.
     */
    method PlotScanlineUnchecked(y: int, x0: int, x1: int)
      requires Valid() && 0 <= y < height && 0 <= x0 && x1 <= width
      modifies this
      ensures Valid() && width == old(width) && height == old(height)
      ensures pixels == Span(old(pixels), width, y, x0, x1, ByteOf(color))
    {
      var x := x0;
      SpanEmpty(pixels, width, y, x0, x0, ByteOf(color));
      while x < x1
        invariant x0 <= x <= Max(x0, x1)
        invariant Valid() && width == old(width) && height == old(height)
        invariant pixels == Span(old(pixels), width, y, x0, x, ByteOf(color))
      {
        IndexInside(width, height, x, y);
        SpanExtend(old(pixels), width, y, x0, x, ByteOf(color));
        pixels := pixels[x + y * width := ByteOf(color)];
        x := x + 1;
      }
      if x1 < x0 {
        SpanEmpty(old(pixels), width, y, x0, x0, ByteOf(color));
        SpanEmpty(old(pixels), width, y, x0, x1, ByteOf(color));
      }
    }

    /**
      `plotscanline(y, x0, x1)`: rounds its arguments, and on a row of the
      canvas paints from the smaller to (excluding) the larger end, clipped
      to the canvas.
     */
    method PlotScanline(y: real, x0: real, x1: real)
      requires Valid()
      modifies this
      ensures Valid() && width == old(width) && height == old(height)
      ensures pixels == Scanline(old(pixels), width, height, Round(y), Round(x0), Round(x1), ByteOf(color))
    {
      var yi, a, b := Round(y), Round(x0), Round(x1);
      if yi >= 0 && yi < height {
        if a > b {
          a, b := b, a;
        }
        if a < width && b >= 0 {
          a := Max(0, a);
          b := Min(b, width);
          PlotScanlineUnchecked(yi, a, b);
        } else {
          SpanEmpty(pixels, width, yi, Max(0, a), Min(width, b), ByteOf(color));
        }
      }
    }

    /**
      `dot_by_char(x, y, text, colormap)`: draws a picture written as text,
      one character per pixel, starting at `(x, y)`.
     */
    method DotByChar(x: int, y: int, text: string, colormap: map<char, int> := map['*' := 2])
      requires Valid()
      modifies this
      ensures Valid() && width == old(width) && height == old(height)
      ensures pixels == Dots(old(pixels), width, height, x, x, y, text, colormap)
    {
      var cx, cy := x, y;
      var i := 0;
      while i < |text|
        invariant 0 <= i <= |text|
        invariant Valid() && width == old(width) && height == old(height)
        invariant Dots(old(pixels), width, height, x, x, y, text, colormap) ==
                  Dots(pixels, width, height, x, cx, cy, text[i..], colormap)
      {
        var ch := text[i];
        assert text[i..][1..] == text[i + 1..];
        if ch == '\n' {
          cx := x;
          cy := cy + 1;
        } else if ch == ' ' {
          cx := cx + 1;
        } else {
          if ch in colormap {
            SetPixel(cx, cy, colormap[ch]);
          }
          cx := cx + 1;
        }
        i := i + 1;
      }
    }

    /** `transform(x, y, w)`: the point under the canvas matrix. */
    function Transform(x: real, y: real, w: real := 1.0): (r: (real, real))
      reads matrix
      ensures r.0 == Apply(matrix.matrix, Vec3(x, y, w)).x
      ensures r.1 == Apply(matrix.matrix, Vec3(x, y, w)).y
    {
      matrix.Transform2(x, y, w)
    }

    method Translate(dx: real, dy: real, dw: real := 1.0)
      modifies matrix
      ensures matrix.matrix == Product(old(matrix.matrix), Translation(dx, dy, dw))
    {
      matrix.Translate(dx, dy, dw);
    }

    method Scale(ax: real, ay: real, aw: real := 1.0)
      modifies matrix
      ensures matrix.matrix == Product(old(matrix.matrix), Scaling(ax, ay, aw))
    {
      matrix.Scale(ax, ay, aw);
    }

    /** `push_matrix` without a block: a copy of the current matrix to restore later. */
    method PushMatrix() returns (saved: Matrix)
      ensures fresh(saved) && saved.matrix == matrix.matrix
    {
      saved := matrix.Dup();
    }

    /** `pop_matrix(saved)`: the canvas matrix takes the saved entries again. */
    method PopMatrix(saved: Matrix)
      modifies matrix
      ensures matrix.matrix == old(saved.matrix)
    {
      var _ := matrix.Load(MatrixArg(saved.matrix));
    }

    /** A triangle corner after the canvas matrix and rounding. */
    function Corner(x: real, y: real): Point
      reads matrix
    {
      Point(Round(Transform(x, y).0), Round(Transform(x, y).1))
    }

    /**
      `triangle`: paints, with `color`, one scanline per row from the
      topmost to the bottommost corner, each between the two edges that
      cross that row. Nothing outside those rows changes; a triangle lying
      on one row is the scanline between its leftmost and rightmost corner.
     */
    method Triangle(x0: real, y0: real, x1: real, y1: real, x2: real, y2: real)
      requires Valid()
      modifies this
      ensures Valid() && width == old(width) && height == old(height)
      ensures PaintedWithin(old(pixels), pixels, width,
                            Min3(Corner(x0, y0).y, Corner(x1, y1).y, Corner(x2, y2).y),
                            Max3(Corner(x0, y0).y, Corner(x1, y1).y, Corner(x2, y2).y), ByteOf(color))
      ensures Corner(x0, y0).y == Corner(x1, y1).y == Corner(x2, y2).y ==>
        pixels == Scanline(old(pixels), width, height, Corner(x0, y0).y,
                           Min3(Corner(x0, y0).x, Corner(x1, y1).x, Corner(x2, y2).x),
                           Max3(Corner(x0, y0).x, Corner(x1, y1).x, Corner(x2, y2).x), ByteOf(color))
    {
      var sorted := SortByY(Corner(x0, y0), Corner(x1, y1), Corner(x2, y2));
      var p0, p1, p2 := sorted.0, sorted.1, sorted.2;
      ghost var lo, hi := p0.y, p2.y;
      MinMaxPermuted(p0, p1, p2, Corner(x0, y0), Corner(x1, y1), Corner(x2, y2));
      if p0.y == p2.y {
        var a, b := Min3(p0.x, p1.x, p2.x), Max3(p0.x, p1.x, p2.x);
        FlatScanline(p0, a, b);
        ScanlinePainted(old(pixels), width, height, p0.y, a, b, ByteOf(color), lo, hi);
      } else {
        TwoHalves(p0, p1, p2);
      }
    }

    /** The degenerate triangle: a single scanline. */
    method FlatScanline(p0: Point, a: int, b: int)
      requires Valid()
      modifies this
      ensures Valid() && width == old(width) && height == old(height)
      ensures pixels == Scanline(old(pixels), width, height, p0.y, a, b, ByteOf(color))
    {
      PlotScanline(p0.y as real, a as real, b as real);
      RoundWhole(p0.y);
      RoundWhole(a);
      RoundWhole(b);
    }

    /**
      The upper half, rows `p0.y` up to but excluding `p1.y`, then the
      lower half, rows `p1.y` through `p2.y` (or just the edge from `p1` to
      `p2` when it is horizontal).
     */
    method TwoHalves(p0: Point, p1: Point, p2: Point)
      requires Valid() && p0.y <= p1.y <= p2.y && p0.y < p2.y
      modifies this
      ensures Valid() && width == old(width) && height == old(height)
      ensures PaintedWithin(old(pixels), pixels, width, p0.y, p2.y, ByteOf(color))
    {
      var d1 := if p1.y == p0.y then 0.0 else (p1.x - p0.x) as real / (p1.y - p0.y) as real;
      var d2 := (p2.x - p0.x) as real / (p2.y - p0.y) as real;
      var py := p0.y;
      while py < p1.y
        invariant p0.y <= py <= p1.y
        invariant Valid() && width == old(width) && height == old(height)
        invariant PaintedWithin(old(pixels), pixels, width, p0.y, p2.y, ByteOf(color))
      {
        var dy := py - p0.y;
        PaintRow(py, p0.x as real + dy as real * d1, p0.x as real + dy as real * d2, p0.y, p2.y, old(pixels));
        py := py + 1;
      }
      if p1.y == p2.y {
        PaintRow(p1.y, p1.x as real, p2.x as real, p0.y, p2.y, old(pixels));
      } else {
        var d0 := (p0.x - p2.x) as real / (p0.y - p2.y) as real;
        d1 := (p1.x - p2.x) as real / (p1.y - p2.y) as real;
        py := p1.y;
        while py <= p2.y
          invariant p1.y <= py <= p2.y + 1
          invariant Valid() && width == old(width) && height == old(height)
          invariant PaintedWithin(old(pixels), pixels, width, p0.y, p2.y, ByteOf(color))
        {
          var dy := py - p2.y;
          PaintRow(py, p2.x as real + dy as real * d1, p2.x as real + dy as real * d0, p0.y, p2.y, old(pixels));
          py := py + 1;
        }
      }
    }

    /** One `plotscanline` call of a triangle, on a row between its top and bottom. */
    method PaintRow(py: int, xa: real, xb: real, lo: int, hi: int, ghost start: seq<byte>)
      requires Valid() && lo <= py <= hi
      requires PaintedWithin(start, pixels, width, lo, hi, ByteOf(color))
      modifies this
      ensures Valid() && width == old(width) && height == old(height)
      ensures PaintedWithin(start, pixels, width, lo, hi, ByteOf(color))
    {
      ghost var before := pixels;
      PlotScanline(py as real, xa, xb);
      RoundWhole(py);
      ScanlinePainted(before, width, height, py, Round(xa), Round(xb), ByteOf(color), lo, hi);
      PaintedTrans(start, before, pixels, width, lo, hi, ByteOf(color));
    }

    /**
      `export_to_png`: appends to `io` the PNG file of the canvas, an 8-bit
      palette image whose IDAT chunk holds the unfiltered scanlines as
      `deflate` compresses them at `level`. The canvas does not change.
     */
    method ExportToPng(io: seq<byte>, level: int, deflate: (seq<byte>, int) -> seq<byte>) returns (out: seq<byte>)
      requires Valid()
      ensures out == io + Png.File(width, height, palette, deflate(Png.RawScanlines(pixels, width, height), level))
    {
      var lines := Scanlines();
      ghost var written := Png.Signature;
      out := io + Png.Signature;
      Png.Associative(io, written, Png.Chunk(Png.HeaderChunk(width, height)));
      written := written + Png.Chunk(Png.HeaderChunk(width, height));
      out := out + Png.Chunk(Png.ChunkData(Png.Ihdr, Png.IhdrData(width, height)));
      Png.Associative(io, written, Png.Chunk(Png.PaletteChunk(palette)));
      written := written + Png.Chunk(Png.PaletteChunk(palette));
      out := out + Png.Chunk(Png.ChunkData(Png.Plte, Png.PlteData(palette)));
      Png.Associative(io, written, Png.Chunk(Png.AlphaChunk(palette)));
      written := written + Png.Chunk(Png.AlphaChunk(palette));
      out := out + Png.Chunk(Png.ChunkData(Png.Trns, Png.TrnsData(palette)));
      Png.Associative(io, written, Png.Chunk(Png.SnowyChunk));
      written := written + Png.Chunk(Png.SnowyChunk);
      out := out + Png.Chunk(Png.ChunkData(Png.Itxt, Png.ItxtData(Latin1("snowy"), Png.SnowyText)));
      Png.Associative(io, written, Png.Chunk(Png.LicenseChunk));
      written := written + Png.Chunk(Png.LicenseChunk);
      out := out + Png.Chunk(Png.ChunkData(Png.Itxt, Png.ItxtData(Latin1("LICENSING"), Png.LicenseText)));
      var idat := deflate(lines, level);
      Png.Associative(io, written, Png.Chunk(Png.DataChunk(idat)));
      written := written + Png.Chunk(Png.DataChunk(idat));
      out := out + Png.Chunk(Png.ChunkData(Png.Idat, idat));
      Png.Associative(io, written, Png.Chunk(Png.EndChunk));
      written := written + Png.Chunk(Png.EndChunk);
      out := out + Png.Chunk(Png.ChunkData(Png.Iend, []));
    }

    /** The IDAT payload before compression: each row behind filter type 0, top row first. */
    method Scanlines() returns (lines: seq<byte>)
      requires Valid()
      ensures lines == Png.RawScanlines(pixels, width, height)
    {
      lines := [];
      var h, start := 0, 0;
      while h < height
        invariant 0 <= h <= height && start == width * h && start <= |pixels|
        invariant lines == Png.RawScanlines(pixels[..start], width, h)
      {
        NextRow(width, height, h);
        var line := pixels[start..start + width];
        Png.RawScanlinesSnoc(pixels[..start + width], width, h);
        assert pixels[..start + width][..start] == pixels[..start];
        assert pixels[..start + width][start..] == line;
        lines := lines + [0] + line;
        h, start := h + 1, start + width;
      }
      assert pixels[..width * height] == pixels;
    }

    /**
      `halfdown!`, with the row stride corrected to the width: each 2x2
      block becomes one pixel holding the mean of its four indices, written
      in place in front of the blocks still to be read, and the buffer is
      cut to the new size.
     */
    method HalfDown()
      requires Valid()
      modifies this
      ensures Valid() && width == old(width) / 2 && height == old(height) / 2
      ensures pixels == Downsampled(old(pixels), old(width), old(height))
    {
      var w, h := width, height;
      var w2, h2 := w / 2, h / 2;
      ghost var orig := pixels;
      ghost var want := Downsampled(orig, w, h);
      var y := 0;
      while y < h2
        invariant 0 <= y <= h2 && width == w && height == h
        invariant Progress(pixels, orig, want, Index(w2, 0, y))
      {
        var x := 0;
        while x < w2
          invariant 0 <= x <= w2 && width == w && height == h
          invariant Progress(pixels, orig, want, Index(w2, x, y))
        {
          HalfPixel(x, y, w, h, orig, want);
          x := x + 1;
        }
        assert Index(w2, w2, y) == Index(w2, 0, y + 1);
        y := y + 1;
      }
      CursorEnd(w2, h2, w, h);
      width, height := w2, h2;
      pixels := pixels[..w2 * h2];
    }

    /** One target pixel of `HalfDown`: the mean of its block, read from bytes not yet overwritten. */
    method HalfPixel(x: int, y: int, w: nat, h: nat, ghost orig: seq<byte>, ghost want: seq<byte>)
      requires |orig| == w * h && want == Downsampled(orig, w, h)
      requires 0 <= x < w / 2 && 0 <= y < h / 2
      requires Progress(pixels, orig, want, Index(w / 2, x, y))
      modifies this
      ensures width == old(width) && height == old(height)
      ensures Progress(pixels, orig, want, Index(w / 2, x + 1, y))
    {
      HalfStep(orig, w, h, x, y, want);
      BlockAfterCursor(w, h, x, y);
      var mean := Mean4(pixels[Index(w, 2 * x, 2 * y)], pixels[Index(w, 2 * x + 1, 2 * y)],
                        pixels[Index(w, 2 * x, 2 * y + 1)], pixels[Index(w, 2 * x + 1, 2 * y + 1)]);
      pixels := pixels[Index(w / 2, x, y) := mean];
    }

    /**
      The outline pass of `DefaultDriver.render`: every background pixel
      off the border with a fill pixel beside, above or below it becomes
      index 2. The pass works in place, yet its result is that of judging
      every pixel on the buffer as it was before the pass.
     */
    method OutlinePass()
      requires Valid()
      modifies this
      ensures Valid() && width == old(width) && height == old(height)
      ensures pixels == Outlined(old(pixels), width, height)
    {
      var w: int, h: int := width, height;
      ghost var orig := pixels;
      var py := 1;
      while py < h - 1
        invariant 1 <= py && (h >= 2 ==> py <= h - 1)
        invariant width == w && height == h
        invariant OutlineProgress(pixels, orig, w, h, 0, py)
      {
        var px := 1;
        OutlineRowStart(orig, pixels, w, h, py);
        while px < w - 1
          invariant 1 <= px && (w >= 2 ==> px <= w - 1)
          invariant width == w && height == h
          invariant OutlineProgress(pixels, orig, w, h, px, py)
        {
          OutlinePixel(px, py, w, h, orig);
          px := px + 1;
        }
        OutlineRowEnd(orig, pixels, w, h, px, py);
        py := py + 1;
      }
      OutlineEnd(orig, pixels, w, h, py);
    }

    /**
      The `if outline` guard of `DefaultDriver.render`: the outline pass runs
      only when the design has an outline colour; otherwise the canvas is left
      as the triangles drew it.
     */
    method RenderOutline(outline: Option<nat>)
      requires Valid()
      modifies this
      ensures Valid() && width == old(width) && height == old(height)
      ensures outline.Some? ==> pixels == Outlined(old(pixels), width, height)
      ensures outline.None? ==> pixels == old(pixels)
    {
      if outline.Some? {
        OutlinePass();
      }
    }

    /** One interior pixel of `OutlinePass`. */
    method OutlinePixel(px: int, py: int, w: int, h: int, ghost orig: seq<byte>)
      requires 1 <= px < w - 1 && 1 <= py < h - 1
      requires OutlineProgress(pixels, orig, w, h, px, py)
      modifies this
      ensures width == old(width) && height == old(height)
      ensures OutlineProgress(pixels, orig, w, h, px + 1, py)
    {
      OutlineStep(orig, pixels, w, h, px, py);
      var k := py * w + px;
      if pixels[k] == 0 {
        if pixels[k + 1] == 1 || pixels[k - 1] == 1 || pixels[k + w] == 1 || pixels[k - w] == 1 {
          pixels := pixels[k := 2];
        }
      }
    }
  }
}
