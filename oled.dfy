/** The `QwiicMicroOled` driver's in-memory state and drawing methods. Every
    drawing method updates the 384-byte screen buffer in place, one `pixel` at
    a time, and is specified as painting the dot sequence its geometry
    (module Raster, Glyphs, Text) describes. */
module MicroOled {
  import opened Framebuffer
  import opened Raster
  import opened Glyphs
  import opened Text

  /** `clear` modes: the page buffer, or the controller's whole memory. */
  const PAGE: int := 0
  const ALL: int := 1

  /** Drawing a shape one more point at a time: b1 holds the first points of
      the shape drawn over b0, and b2 is b1 with point p plotted too. */
  lemma PaintSnoc(b0: seq<bv8>, b1: seq<bv8>, b2: seq<bv8>, pts: seq<Point>, p: Point, c: int, mode: int)
    requires |b0| == BufferSize
    requires b1 == Paint(b0, Colored(pts, c), mode) && b2 == Plot(b1, Dot(p.x, p.y, c), mode)
    ensures b2 == Paint(b0, Colored(pts + [p], c), mode)
  {
    assert Colored(pts + [p], c)[..|pts|] == Colored(pts, c);
  }

  /** Drawing one shape after another is drawing their concatenation. */
  lemma PaintShapes(b: seq<bv8>, pts: seq<Point>, more: seq<Point>, c: int, mode: int)
    requires |b| == BufferSize
    ensures Paint(Paint(b, Colored(pts, c), mode), Colored(more, c), mode) == Paint(b, Colored(pts + more, c), mode)
  {
    ColoredAppend(pts, more, c);
    PaintAppend(b, Colored(pts, c), Colored(more, c), mode);
  }

  /** One pass of `line`'s loop: the point it plots at (x, y) comes first in the
      trace, and the rest is traced from the loop variables the pass leaves. */
  lemma TraceStep(b: Bresenham, x: int, y: int, err: int, x': int, y': int, err': int, done: seq<Point>)
    requires x < b.x1 && x' == x + 1
    requires err - b.dy < 0 ==> y' == y + b.ystep && err' == err - b.dy + b.dx
    requires err - b.dy >= 0 ==> y' == y && err' == err - b.dy
    ensures done + Trace(b, LineVars(x, y, err)) == (done + [Unswap(b.steep, x, y)]) + Trace(b, LineVars(x', y', err'))
  {
  }

  /** `rect`'s outline as the four calls make it, for the call arguments. */
  lemma RectParts(x: int, y: int, width: int, height: int, bottom: int, top: int, right: int, sideHeight: int)
    requires bottom == y + height - 1 && top == y + 1 && right == x + width - 1 && sideHeight == height - 2
    ensures sideHeight < 1 ==> RectPoints(x, y, width, height) == HLine(x, y, width) + HLine(x, bottom, width)
    ensures sideHeight >= 1 ==>
      RectPoints(x, y, width, height)
      == (HLine(x, y, width) + HLine(x, bottom, width)) + (VLine(x, top, sideHeight) + VLine(right, top, sideHeight))
  {
  }

  /** `rectFill`'s loop: drawing column `col` = x + k after the first k columns
      leaves the first k + 1 columns drawn. */
  lemma FillStep(b0: seq<bv8>, b1: seq<bv8>, b2: seq<bv8>, x: int, y: int, k: int, height: int, col: int,
                 c: int, m: int)
    requires |b0| == BufferSize && k >= 0 && col == x + k
    requires b1 == Paint(b0, Colored(FillPoints(x, y, k, height), c), m)
    requires b2 == Paint(b1, Colored(VLine(col, y, height), c), m)
    ensures b2 == Paint(b0, Colored(FillPoints(x, y, k + 1, height), c), m)
  {
    assert FillPoints(x, y, k + 1, height) == FillPoints(x, y, k, height) + VLine(col, y, height);
    PaintShapes(b0, FillPoints(x, y, k, height), VLine(col, y, height), c, m);
  }

  /** `rectFill` stops after max(width, 0) columns. */
  lemma FillDone(x: int, y: int, k: int, width: int, height: int)
    requires k == Max(width, 0)
    ensures FillPoints(x, y, k, height) == FillPoints(x, y, width, height)
  {
  }

  /** `circle` before its loop: the extremes, then the arcs from the initial state. */
  lemma CircleFirst(x0: int, y0: int, radius: int, ext: seq<Point>, s: Midpoint)
    requires ext == Extremes(x0, y0, radius) && s == Midpoint(0, radius, 1 - radius, 1, -2 * radius)
    ensures CirclePoints(x0, y0, radius) == ext + Arcs(x0, y0, s)
  {
  }

  /** One pass of `circle`'s loop, from the loop variables (x, y, f, ddFx, ddFy) to
      the primed ones, plots the reflections of (x', y'), and the rest of the arcs
      are traced from the primed variables. */
  lemma ArcsStep(x0: int, y0: int, x: int, y: int, f: int, ddFx: int, ddFy: int,
                 x': int, y': int, f': int, ddFx': int, ddFy': int, refl: seq<Point>, drawn: seq<Point>)
    requires x < y && x' == x + 1 && ddFx' == ddFx + 2
    requires f >= 0 ==> y' == y - 1 && ddFy' == ddFy + 2 && f' == f + ddFy' + ddFx'
    requires f < 0 ==> y' == y && ddFy' == ddFy && f' == f + ddFx'
    requires refl == Reflections(x0, y0, x', y')
    ensures drawn + Arcs(x0, y0, Midpoint(x, y, f, ddFx, ddFy))
            == (drawn + refl) + Arcs(x0, y0, Midpoint(x', y', f', ddFx', ddFy'))
  {
  }

  /** `drawChar`'s innermost loop: after bits 0 .. j-1 of glyph byte g (b1), bit j
      goes to row py in colour pc (b2). */
  lemma BitStep(b0: seq<bv8>, b1: seq<bv8>, b2: seq<bv8>, cx: int, top: int, g: bv8, color: int, j: nat,
                py: int, pc: int, mode: int)
    requires |b0| == BufferSize && j < 8 && py == top + j && pc == BitColor(g, j, color)
    requires b1 == Paint(b0, Column(cx, top, BitColors(g, color)[..j]), mode)
    requires b2 == Plot(b1, Dot(cx, py, pc), mode)
    ensures b2 == Paint(b0, Column(cx, top, BitColors(g, color)[..j + 1]), mode)
  {
    var cs := BitColors(g, color);
    assert cs[..j + 1][..j] == cs[..j];
  }

  /** `drawChar`'s middle loop: after columns 0 .. i-1 of a strip (b1), column i
      goes to column cx (b2). */
  lemma ColumnStep(b0: seq<bv8>, b1: seq<bv8>, b2: seq<bv8>, x: int, top: int, blk: seq<bv8>, color: int,
                   i: nat, cx: int, mode: int)
    requires |b0| == BufferSize && i < |blk| && cx == x + i
    requires b1 == Paint(b0, ColumnDots(x, top, blk, color, i), mode)
    requires b2 == Paint(b1, BitDots(cx, top, blk[i], color), mode)
    ensures b2 == Paint(b0, ColumnDots(x, top, blk, color, i + 1), mode)
  {
    PaintAppend(b0, ColumnDots(x, top, blk, color, i), BitDots(cx, top, blk[i], color), mode);
  }

  /** `drawChar`'s outer loop: after strips 0 .. row-1 (b1), strip `row` goes to
      the page starting at row top (b2). */
  lemma CellStep(b0: seq<bv8>, b1: seq<bv8>, b2: seq<bv8>, x: int, y: int, strips: seq<seq<bv8>>, color: int,
                 row: nat, top: int, mode: int)
    requires |b0| == BufferSize && row < |strips| && top == y + row * 8
    requires b1 == Paint(b0, CellDots(x, y, strips[..row], color), mode)
    requires b2 == Paint(b1, ColumnDots(x, top, strips[row], color, |strips[row]|), mode)
    ensures b2 == Paint(b0, CellDots(x, y, strips[..row + 1], color), mode)
  {
    assert strips[..row + 1][..row] == strips[..row];
    PaintAppend(b0, CellDots(x, y, strips[..row], color), ColumnDots(x, top, strips[row], color, |strips[row]|), mode);
  }

  /** `drawChar`'s strip count, height // 8 raised to at least 1, is `Rows`. */
  lemma RowsToDraw(f: Font, rows: int)
    requires rows == if f.height / 8 <= 1 then 1 else f.height / 8
    ensures rows == Rows(f)
  {
  }

  /** `drawChar`'s index of the glyph's first strip in the font map is `GlyphOffset`. */
  lemma GlyphStart(f: Font, c: int, tempC: int, charPerRow: int, rowPos: int, colPos: int, iStart: int)
    requires ValidFont(f) && tempC == c - f.startChar && charPerRow == f.mapWidth / f.width
    requires rowPos == tempC / charPerRow && colPos == tempC % charPerRow
    requires iStart == rowPos * charPerRow * f.height / 8 + colPos
    ensures iStart == GlyphOffset(f, c)
  {
  }

  /** The block `drawChar` fetches for strip `row` is that strip of the glyph. */
  lemma StripAt(f: Font, c: int, row: int, iStart: int, charPerRow: int, index: int)
    requires ValidFont(f) && 0 <= row < Rows(f)
    requires iStart == GlyphOffset(f, c) && charPerRow == f.mapWidth / f.width
    requires index == iStart + row * charPerRow
    ensures f.block(index) == Strips(f, c)[row]
  {
  }

  class Oled {
    /** The screen buffer: 64 columns by 6 pages, one byte per column of a page. */
    const buffer: array<bv8>
    var cursorX: int
    var cursorY: int
    var foreColor: int
    var drawMode: int
    var fontType: int
    var font: Option<Font>
    /** The font catalogue: entry i is what the font module returns for type i
        (None where it has no font); its length is `nFonts`. */
    const fonts: seq<Option<Font>>

    ghost predicate Valid()
      reads this
    {
      && buffer.Length == BufferSize
      && (forall i :: 0 <= i < |fonts| && fonts[i].Some? ==> ValidFont(fonts[i].value))
      && (font.Some? ==> ValidFont(font.value))
    }

    /** A driver whose buffer starts with the splash screen, drawing WHITE in NORM
        mode with no font loaded. */
    constructor (splash: seq<bv8>, catalogue: seq<Option<Font>>)
      requires |splash| == BufferSize
      requires forall i :: 0 <= i < |catalogue| && catalogue[i].Some? ==> ValidFont(catalogue[i].value)
      ensures Valid() && fresh(buffer)
      ensures buffer[..] == splash && fonts == catalogue
      ensures cursorX == 0 && cursorY == 0 && foreColor == WHITE && drawMode == NORM
      ensures fontType == 0 && font == None
    {
      buffer := new bv8[BufferSize](i requires 0 <= i < BufferSize => splash[i]);
      fonts := catalogue;
      cursorX, cursorY := 0, 0;
      foreColor, drawMode := WHITE, NORM;
      fontType, font := 0, None;
    }

    method SetCursor(x: int, y: int)
      requires Valid()
      modifies this
      ensures Valid()
      ensures cursorX == x && cursorY == y
      ensures foreColor == old(foreColor) && drawMode == old(drawMode)
      ensures fontType == old(fontType) && font == old(font)
    {
      cursorX, cursorY := x, y;
    }

    method SetColor(color: int)
      requires Valid()
      modifies this
      ensures Valid()
      ensures foreColor == color
      ensures cursorX == old(cursorX) && cursorY == old(cursorY) && drawMode == old(drawMode)
      ensures fontType == old(fontType) && font == old(font)
    {
      foreColor := color;
    }

    method SetDrawMode(mode: int)
      requires Valid()
      modifies this
      ensures Valid()
      ensures drawMode == mode
      ensures cursorX == old(cursorX) && cursorY == old(cursorY) && foreColor == old(foreColor)
      ensures fontType == old(fontType) && font == old(font)
    {
      drawMode := mode;
    }

    /** Selects font `type`. Out of range: False, nothing changes. In range: the
        type and the font are taken from the catalogue even when it has no font
        there, and the answer says whether it had one. */
    method SetFontType(kind: int) returns (ok: bool)
      requires Valid()
      modifies this
      ensures Valid()
      ensures ok <==> 0 <= kind < |fonts| && fonts[kind].Some?
      ensures !(0 <= kind < |fonts|) ==> fontType == old(fontType) && font == old(font)
      ensures 0 <= kind < |fonts| ==> fontType == kind && font == fonts[kind]
      ensures cursorX == old(cursorX) && cursorY == old(cursorY)
      ensures foreColor == old(foreColor) && drawMode == old(drawMode)
    {
      if kind >= |fonts| || kind < 0 {
        return false;
      }
      fontType := kind;
      font := fonts[kind];
      if font == None {
        return false;
      }
      return true;
    }

    /** `clear(PAGE, value)` fills the buffer with value, 0 when it is not given;
        `clear(ALL)` only talks to the controller and leaves the buffer alone. */
    method Clear(mode: int, value: Option<bv8>)
      requires Valid()
      modifies buffer
      ensures mode == ALL ==> buffer[..] == old(buffer[..])
      ensures mode != ALL ==> buffer[..] == Filled(value.GetOr(0))
    {
      if mode != ALL {
        var v := value.GetOr(0);
        forall i | 0 <= i < buffer.Length {
          buffer[i] := v;
        }
      }
    }

    /** Copies a whole-screen bitmap into the buffer; a bitmap of any other size is refused. */
    method DrawBitmap(bits: seq<bv8>)
      requires Valid()
      modifies buffer
      ensures |bits| == BufferSize ==> buffer[..] == bits
      ensures |bits| != BufferSize ==> buffer[..] == old(buffer[..])
    {
      if |bits| != buffer.Length {
        return;
      }
      forall i | 0 <= i < buffer.Length {
        buffer[i] := bits[i];
      }
    }

    /** `pixel(x, y, color, mode)`; a missing colour or mode is the current one. */
    method Pixel(x: int, y: int, color: Option<int>, mode: Option<int>)
      requires buffer.Length == BufferSize
      modifies buffer
      ensures buffer[..] == Plot(old(buffer[..]), Dot(x, y, color.GetOr(foreColor)), mode.GetOr(drawMode))
    {
      var c, m := color.GetOr(foreColor), mode.GetOr(drawMode);
      if x < 0 || x >= Width || y < 0 || y >= Height {
        return;
      }
      var index := x + (y / 8) * Width;
      assert index == ByteIndex(Point(x, y));
      buffer[index] := PlotByte(buffer[index], y % 8, c, m);
    }

    /** Bresenham's line from (x0, y0) towards (x1, y1), far endpoint excluded. */
    method Line(x0: int, y0: int, x1: int, y1: int, color: Option<int>, mode: Option<int>)
      requires Valid()
      modifies buffer
      ensures buffer[..] == Paint(old(buffer[..]), Colored(LinePoints(x0, y0, x1, y1), color.GetOr(foreColor)),
                                  mode.GetOr(drawMode))
    {
      var c, m := color.GetOr(foreColor), mode.GetOr(drawMode);
      var ax0, ay0, ax1, ay1 := x0, y0, x1, y1;
      var steep := Abs(ay1 - ay0) > Abs(ax1 - ax0);
      if steep {
        ax0, ay0 := ay0, ax0;
        ax1, ay1 := ay1, ax1;
      }
      if ax0 > ax1 {
        ax0, ax1 := ax1, ax0;
        ay0, ay1 := ay1, ay0;
      }
      var dx := ax1 - ax0;
      var dy := Abs(ay1 - ay0);
      var err := dx / 2;
      var ystep := if ay0 < ay1 then 1 else -1;
      ghost var b := Setup(x0, y0, x1, y1);
      assert b == Bresenham(steep, ax0, ay0, ax1, ay1, dx, dy, ystep);
      ghost var done: seq<Point> := [];
      ghost var all := LinePoints(x0, y0, x1, y1);
      assert Start(b) == LineVars(ax0, ay0, err);
      while ax0 < ax1
        invariant b.x1 == ax1 && b.steep == steep && b.dx == dx && b.dy == dy && b.ystep == ystep
        invariant all == done + Trace(b, LineVars(ax0, ay0, err))
        invariant buffer[..] == Paint(old(buffer[..]), Colored(done, c), m)
        decreases ax1 - ax0
      {
        ghost var p := Unswap(steep, ax0, ay0);
        ghost var before := buffer[..];
        if steep {
          Pixel(ay0, ax0, Some(c), Some(m));
        } else {
          Pixel(ax0, ay0, Some(c), Some(m));
        }
        PaintSnoc(old(buffer[..]), before, buffer[..], done, p, c, m);
        ghost var px, py, perr := ax0, ay0, err;
        err := err - dy;
        if err < 0 {
          ay0 := ay0 + ystep;
          err := err + dx;
        }
        ax0 := ax0 + 1;
        TraceStep(b, px, py, perr, ax0, ay0, err, done);
        done := done + [p];
      }
      assert done == all;
    }

    /** `lineH(x, y, width)`: the line from (x, y) to (x + width, y). */
    method LineH(x: int, y: int, width: int, color: Option<int>, mode: Option<int>)
      requires Valid()
      modifies buffer
      ensures buffer[..] == Paint(old(buffer[..]), Colored(HLine(x, y, width), color.GetOr(foreColor)),
                                  mode.GetOr(drawMode))
    {
      var c, m := color.GetOr(foreColor), mode.GetOr(drawMode);
      Line(x, y, x + width, y, Some(c), Some(m));
    }

    /** `lineV(x, y, height)`: the line from (x, y) to (x, y + height). */
    method LineV(x: int, y: int, height: int, color: Option<int>, mode: Option<int>)
      requires Valid()
      modifies buffer
      ensures buffer[..] == Paint(old(buffer[..]), Colored(VLine(x, y, height), color.GetOr(foreColor)),
                                  mode.GetOr(drawMode))
    {
      var c, m := color.GetOr(foreColor), mode.GetOr(drawMode);
      Line(x, y, x, y + height, Some(c), Some(m));
    }

    /** `rect(x, y, width, height)`: top and bottom rows, then the sides when
        there is a row between them. */
    method Rect(x: int, y: int, width: int, height: int, color: Option<int>, mode: Option<int>)
      requires Valid()
      modifies buffer
      ensures buffer[..] == Paint(old(buffer[..]), Colored(RectPoints(x, y, width, height), color.GetOr(foreColor)),
                                  mode.GetOr(drawMode))
    {
      var c, m := color.GetOr(foreColor), mode.GetOr(drawMode);
      var bottom, top, right := y + height - 1, y + 1, x + width - 1;
      ghost var cv := buffer[..];
      LineH(x, y, width, Some(c), Some(m));
      LineH(x, bottom, width, Some(c), Some(m));
      PaintShapes(cv, HLine(x, y, width), HLine(x, bottom, width), c, m);
      ghost var rows := HLine(x, y, width) + HLine(x, bottom, width);
      var tempHeight := height - 2;
      RectParts(x, y, width, height, bottom, top, right, tempHeight);
      if tempHeight < 1 {
        return;
      }
      ghost var cv2 := buffer[..];
      LineV(x, top, tempHeight, Some(c), Some(m));
      LineV(right, top, tempHeight, Some(c), Some(m));
      PaintShapes(cv2, VLine(x, top, tempHeight), VLine(right, top, tempHeight), c, m);
      PaintShapes(cv, rows, VLine(x, top, tempHeight) + VLine(right, top, tempHeight), c, m);
    }

    /** `rectFill(x, y, width, height)`: one `lineV` per column i in [x, x + width). */
    method RectFill(x: int, y: int, width: int, height: int, color: Option<int>, mode: Option<int>)
      requires Valid()
      modifies buffer
      ensures buffer[..] == Paint(old(buffer[..]), Colored(FillPoints(x, y, width, height), color.GetOr(foreColor)),
                                  mode.GetOr(drawMode))
    {
      var c, m := color.GetOr(foreColor), mode.GetOr(drawMode);
      var i, end := x, x + width;
      ghost var k := 0;
      while i < end
        invariant 0 <= k <= Max(width, 0) && i == x + k && end == x + width
        invariant buffer[..] == Paint(old(buffer[..]), Colored(FillPoints(x, y, k, height), c), m)
        decreases end - i
      {
        ghost var before := buffer[..];
        LineV(i, y, height, Some(c), Some(m));
        FillStep(old(buffer[..]), before, buffer[..], x, y, k, height, i, c, m);
        i, k := i + 1, k + 1;
      }
      FillDone(x, y, k, width, height);
    }

    /** The midpoint circle of the given radius about (x0, y0). */
    method Circle(x0: int, y0: int, radius: int, color: Option<int>, mode: Option<int>)
      requires Valid()
      modifies buffer
      ensures buffer[..] == Paint(old(buffer[..]), Colored(CirclePoints(x0, y0, radius), color.GetOr(foreColor)),
                                  mode.GetOr(drawMode))
    {
      var c, m := color.GetOr(foreColor), mode.GetOr(drawMode);
      var f := 1 - radius;
      var ddFx := 1;
      var ddFy := -2 * radius;
      var x := 0;
      var y := radius;
      var ext := Extremes(x0, y0, radius);
      PixelRun(ext, c, m);
      CircleFirst(x0, y0, radius, ext, Midpoint(x, y, f, ddFx, ddFy));
      ghost var drawn := ext;
      while x < y
        invariant CirclePoints(x0, y0, radius) == drawn + Arcs(x0, y0, Midpoint(x, y, f, ddFx, ddFy))
        invariant buffer[..] == Paint(old(buffer[..]), Colored(drawn, c), m)
        decreases y - x
      {
        ghost var px, py, pf, pdx, pdy := x, y, f, ddFx, ddFy;
        if f >= 0 {
          y := y - 1;
          ddFy := ddFy + 2;
          f := f + ddFy;
        }
        x := x + 1;
        ddFx := ddFx + 2;
        f := f + ddFx;
        var refl := Reflections(x0, y0, x, y);
        PixelRun(refl, c, m);
        PaintShapes(old(buffer[..]), drawn, refl, c, m);
        ArcsStep(x0, y0, px, py, pf, pdx, pdy, x, y, f, ddFx, ddFy, refl, drawn);
        drawn := drawn + refl;
      }
      assert Arcs(x0, y0, Midpoint(x, y, f, ddFx, ddFy)) == [];
      assert CirclePoints(x0, y0, radius) == drawn;
    }

    /** Plots the given points in order, one `pixel` call each (the unrolled
        calls of `circle`). */
    method PixelRun(pts: seq<Point>, c: int, m: int)
      requires Valid()
      modifies buffer
      ensures buffer[..] == Paint(old(buffer[..]), Colored(pts, c), m)
    {
      var k := 0;
      while k < |pts|
        invariant k <= |pts|
        invariant buffer[..] == Paint(old(buffer[..]), Colored(pts[..k], c), m)
      {
        ghost var before := buffer[..];
        Pixel(pts[k].x, pts[k].y, Some(c), Some(m));
        PaintSnoc(old(buffer[..]), before, buffer[..], pts[..k], pts[k], c, m);
        assert pts[..k] + [pts[k]] == pts[..k + 1];
        k := k + 1;
      }
      assert pts[..k] == pts;
    }

    /** `drawChar(x, y, c, color, mode)`: the glyph for code c with its top-left
        corner at (x, y), strip by strip, column by column, bit by bit. */
    method DrawChar(x: int, y: int, c: int, color: Option<int>, mode: Option<int>)
      requires Valid()
      modifies buffer
      ensures font.None? ==> buffer[..] == old(buffer[..])
      ensures font.Some? ==> buffer[..] == Paint(old(buffer[..]), GlyphDots(font.value, x, y, c, color.GetOr(foreColor)),
                                                 mode.GetOr(drawMode))
    {
      var col, m := color.GetOr(foreColor), mode.GetOr(drawMode);
      if font == None {
        return;
      }
      var ft := font.value;
      if c < ft.startChar || c > ft.startChar + ft.totalChar - 1 {
        return;
      }
      var tempC := c - ft.startChar;
      var rowsToDraw := ft.height / 8;
      if rowsToDraw <= 1 {
        rowsToDraw := 1;
      }
      RowsToDraw(ft, rowsToDraw);
      var charPerRow := ft.mapWidth / ft.width;
      var rowPos := tempC / charPerRow;
      var colPos := tempC % charPerRow;
      var iStart := rowPos * charPerRow * ft.height / 8 + colPos;
      GlyphStart(ft, c, tempC, charPerRow, rowPos, colPos, iStart);
      ghost var strips := Strips(ft, c);
      ghost var b0 := old(buffer[..]);
      var row := 0;
      while row < rowsToDraw
        invariant 0 <= row <= rowsToDraw == |strips|
        invariant buffer[..] == Paint(b0, CellDots(x, y, strips[..row], col), m)
      {
        var index := iStart + row * charPerRow;
        var fBuffer := ft.block(index);
        StripAt(ft, c, row, iStart, charPerRow, index);
        var top := y + row * 8;
        ghost var before := buffer[..];
        DrawStrip(x, top, fBuffer, col, m);
        CellStep(b0, before, buffer[..], x, y, strips, col, row, top, m);
        row := row + 1;
      }
      assert strips[..row] == strips;
    }

    /** The body of `drawChar`'s row loop: every column i of the strip, every bit
        j of that column, drawn at (x + i, top + j) in the glyph colour for a set
        bit and its `Inverse` for a clear one. */
    method DrawStrip(x: int, top: int, blk: seq<bv8>, col: int, m: int)
      requires Valid()
      modifies buffer
      ensures buffer[..] == Paint(old(buffer[..]), ColumnDots(x, top, blk, col, |blk|), m)
    {
      var i := 0;
      while i < |blk|
        invariant 0 <= i <= |blk|
        invariant buffer[..] == Paint(old(buffer[..]), ColumnDots(x, top, blk, col, i), m)
      {
        var cx := x + i;
        ghost var before := buffer[..];
        DrawBits(cx, top, blk[i], col, m);
        ColumnStep(old(buffer[..]), before, buffer[..], x, top, blk, col, i, cx, m);
        i := i + 1;
      }
    }

    /** The innermost loop of `drawChar`: bit j of glyph byte g drawn at (cx, top + j). */
    method DrawBits(cx: int, top: int, g: bv8, col: int, m: int)
      requires Valid()
      modifies buffer
      ensures buffer[..] == Paint(old(buffer[..]), BitDots(cx, top, g, col), m)
    {
      ghost var cs := BitColors(g, col);
      var j := 0;
      while j < 8
        invariant 0 <= j <= 8
        invariant buffer[..] == Paint(old(buffer[..]), Column(cx, top, cs[..j]), m)
      {
        var py := top + j;
        var pc := BitColor(g, j, col);
        ghost var before := buffer[..];
        Pixel(cx, py, Some(pc), Some(m));
        BitStep(old(buffer[..]), before, buffer[..], cx, top, g, col, j, py, pc, m);
        j := j + 1;
      }
      assert cs[..8] == cs;
    }

    /** `write(c)`: obeys a newline, ignores a carriage return, and draws any other
        character at the cursor before advancing it; returns 1. Writing anything but
        a carriage return needs a font (the source fails without one). */
    method Write(c: Char) returns (r: int)
      requires Valid()
      requires c.Return? || font.Some?
      modifies this, buffer
      ensures Valid() && r == 1
      ensures font == old(font) && fontType == old(fontType)
      ensures foreColor == old(foreColor) && drawMode == old(drawMode)
      ensures c.Return? ==> buffer[..] == old(buffer[..]) && cursorX == old(cursorX) && cursorY == old(cursorY)
      ensures font.Some? ==> Cursor(cursorX, cursorY) == Advance(font.value, Cursor(old(cursorX), old(cursorY)), c)
      ensures font.Some? ==> buffer[..] == Paint(old(buffer[..]),
                                                 Written(font.value, Cursor(old(cursorX), old(cursorY)), c, foreColor),
                                                 drawMode)
    {
      if c == Newline {
        cursorY := cursorY + font.value.height;
        cursorX := 0;
      } else if c != Return {
        DrawChar(cursorX, cursorY, c.code, None, None);
        cursorX := cursorX + font.value.width + 1;
        if cursorX > Width - font.value.width {
          cursorY := cursorY + font.value.height;
          cursorX := 0;
        }
      }
      return 1;
    }

    /** `print(text)` of a byte string: `write` of each byte, as a character code, in order. */
    method Print(text: seq<bv8>)
      requires Valid()
      requires font.Some? || |text| == 0
      modifies this, buffer
      ensures Valid()
      ensures font == old(font) && fontType == old(fontType)
      ensures foreColor == old(foreColor) && drawMode == old(drawMode)
      ensures |text| == 0 ==> buffer[..] == old(buffer[..]) && cursorX == old(cursorX) && cursorY == old(cursorY)
      ensures font.Some? ==> Cursor(cursorX, cursorY) == TypeCursor(font.value, Cursor(old(cursorX), old(cursorY)), Bytes(text))
      ensures font.Some? ==> buffer[..] == Paint(old(buffer[..]),
                                                 TypeDots(font.value, Cursor(old(cursorX), old(cursorY)), Bytes(text), foreColor),
                                                 drawMode)
    {
      if |text| == 0 {
        return;
      }
      ghost var ft := font.value;
      ghost var start := Cursor(cursorX, cursorY);
      var i := 0;
      while i < |text|
        invariant Valid() && i <= |text|
        invariant font == old(font) && fontType == old(fontType)
        invariant foreColor == old(foreColor) && drawMode == old(drawMode)
        invariant Cursor(cursorX, cursorY) == TypeCursor(ft, start, Bytes(text)[..i])
        invariant buffer[..] == Paint(old(buffer[..]), TypeDots(ft, start, Bytes(text)[..i], foreColor), drawMode)
      {
        ghost var before := buffer[..];
        ghost var cur := Cursor(cursorX, cursorY);
        var _ := Write(Code(text[i] as int));
        assert Bytes(text)[..i + 1] == Bytes(text)[..i] + [Code(text[i] as int)];
        assert Bytes(text)[..i + 1][..i] == Bytes(text)[..i];
        PaintAppend(old(buffer[..]), TypeDots(ft, start, Bytes(text)[..i], foreColor),
                    Written(ft, cur, Code(text[i] as int), foreColor), drawMode);
        i := i + 1;
      }
      assert Bytes(text)[..i] == Bytes(text);
    }
  }
}
