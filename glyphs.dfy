/** Fonts and the cell `drawChar` paints for one character code. */
module Glyphs {
  import opened Framebuffer

  /** A font as `drawChar` sees it. `block(k)` stands for the k-th entry of the
      font map (`_font[k]`): a strip of columns, one byte per column, each byte
      holding 8 vertically stacked pixels. The font tables themselves are not
      part of this model, so `block` is arbitrary. */
  datatype Font = Font(width: int, height: int, startChar: int, totalChar: int,
                       mapWidth: int, block: int -> seq<bv8>)

  /** The fonts `drawChar` can use without dividing by zero. */
  predicate ValidFont(f: Font) {
    0 < f.width <= f.mapWidth
  }

  /** The number of 8-pixel strips a glyph spans: height // 8, at least one. */
  function Rows(f: Font): (n: int)
    ensures n >= 1
    ensures f.height >= 8 ==> n * 8 <= f.height < n * 8 + 8
    ensures f.height < 16 ==> n == 1
  {
    if f.height / 8 <= 1 then 1 else f.height / 8
  }

  /** How many glyphs sit side by side in one row of the font map. */
  function CharsPerRow(f: Font): (n: int)
    requires ValidFont(f)
    ensures n >= 1 && n * f.width <= f.mapWidth < (n + 1) * f.width
  {
    f.mapWidth / f.width
  }

  /** Whether the font has a bitmap for code `c`. */
  predicate HasGlyph(f: Font, c: int) {
    f.startChar <= c <= f.startChar + f.totalChar - 1
  }

  /** The map index of the glyph's first strip: (rowPos * charPerRow * height) // 8 + colPos. */
  function GlyphOffset(f: Font, c: int): int
    requires ValidFont(f)
  {
    var t, cpr := c - f.startChar, CharsPerRow(f);
    (t / cpr) * cpr * f.height / 8 + t % cpr
  }

  /** The map index of strip `row` of the glyph. */
  function BlockIndex(f: Font, c: int, row: int): int
    requires ValidFont(f)
  {
    GlyphOffset(f, c) + row * CharsPerRow(f)
  }

  function Block(f: Font, c: int, row: int): seq<bv8>
    requires ValidFont(f)
  {
    f.block(BlockIndex(f, c, row))
  }

  /** `~color & 0xFF`: the colour `drawChar` uses for clear glyph bits. It is the
      bitwise complement of the colour's low byte, so it is WHITE only for a
      colour congruent to 254, and never for WHITE or BLACK. */
  function Inverse(color: int): (r: int)
    ensures 0 <= r < 256 && r + color % 256 == 255
    ensures r == WHITE <==> color % 256 == 254
  {
    (-color - 1) % 256
  }

  /** The colour `drawChar` passes for bit j of a glyph byte. */
  function BitColor(g: bv8, j: nat, color: int): int
    requires j < 8
  {
    if g & Mask(j) != 0 then color else Inverse(color)
  }

  /** The colours `drawChar` passes for bits 0 .. 7 of glyph byte g. */
  function BitColors(g: bv8, color: int): (cs: seq<int>)
    ensures |cs| == 8
  {
    seq(8, j requires 0 <= j < 8 => BitColor(g, j, color))
  }

  /** Dots in colours cs, downward from (x, y) in the order given. */
  function Column(x: int, y: int, cs: seq<int>): (s: seq<Dot>)
    ensures |s| == |cs|
  {
    if |cs| == 0 then [] else Column(x, y, cs[..|cs| - 1]) + [Dot(x, y + |cs| - 1, cs[|cs| - 1])]
  }

  /** The innermost loop of `drawChar`: the 8 bits of byte g, downward from (x, y). */
  function BitDots(x: int, y: int, g: bv8, color: int): (s: seq<Dot>)
    ensures |s| == 8
  {
    Column(x, y, BitColors(g, color))
  }

  /** The middle loop: columns 0 .. n-1 of one strip, from (x, y). */
  function ColumnDots(x: int, y: int, blk: seq<bv8>, color: int, n: nat): (s: seq<Dot>)
    requires n <= |blk|
    ensures |s| == 8 * n
  {
    if n == 0 then [] else ColumnDots(x, y, blk, color, n - 1) + BitDots(x + n - 1, y, blk[n - 1], color)
  }

  /** The strips `drawChar` fetches for code c, one per 8-pixel row of the glyph. */
  function Strips(f: Font, c: int): (ss: seq<seq<bv8>>)
    requires ValidFont(f)
    ensures |ss| == Rows(f)
  {
    seq(Rows(f), r => Block(f, c, r))
  }

  /** The outer loop: the given strips, stacked 8 pixels apart downward from (x, y). */
  function CellDots(x: int, y: int, strips: seq<seq<bv8>>, color: int): seq<Dot>
  {
    if |strips| == 0 then []
    else
      var n := |strips|;
      CellDots(x, y, strips[..n - 1], color) + ColumnDots(x, y + (n - 1) * 8, strips[n - 1], color, |strips[n - 1]|)
  }

  /** The dots `drawChar(x, y, c, color, mode)` asks `pixel` for, in order, when a font is loaded. */
  function GlyphDots(f: Font, x: int, y: int, c: int, color: int): seq<Dot>
    requires ValidFont(f)
  {
    if HasGlyph(f, c) then CellDots(x, y, Strips(f, c), color) else []
  }

  /** The bit a stack of strips, drawn downward from (x, y), puts on q, or None
      when q lies outside the stack. */
  function StripBit(x: int, y: int, strips: seq<seq<bv8>>, q: Point): (r: Option<bool>)
    ensures r.Some? ==> y <= q.y < y + 8 * |strips| && x <= q.x < x + |strips[(q.y - y) / 8]|
  {
    if q.y < y || q.y >= y + 8 * |strips| then None
    else
      var blk := strips[(q.y - y) / 8];
      if x <= q.x < x + |blk| then Some(blk[q.x - x] & Mask((q.y - y) % 8) != 0) else None
  }

  /** The glyph bit that lands on q when code c is drawn at (x, y), or None when q
      lies outside the character cell: rows [y, y + 8 * Rows), and the columns of
      the strip covering q's row. */
  function GlyphBit(f: Font, x: int, y: int, c: int, q: Point): (r: Option<bool>)
    requires ValidFont(f)
    ensures r.Some? ==> HasGlyph(f, c) && y <= q.y < y + 8 * Rows(f)
                        && x <= q.x < x + |Block(f, c, (q.y - y) / 8)|
  {
    if HasGlyph(f, c) then StripBit(x, y, Strips(f, c), q) else None
  }

  /** The colour the cell gives q: the glyph colour on set bits, Inverse on clear ones. */
  function CellColor(bit: Option<bool>, color: int): Option<int> {
    if bit.None? then None else Some(if bit.value then color else Inverse(color))
  }

  // ---------------------------------------------------------------- lemmas

  lemma {:induction false} ColumnAt(x: int, y: int, cs: seq<int>, q: Point)
    ensures ColorAt(Column(x, y, cs), q) == if q.x == x && y <= q.y < y + |cs| then Some(cs[q.y - y]) else None
    decreases |cs|
  {
    if |cs| > 0 {
      var init, d := cs[..|cs| - 1], Dot(x, y + |cs| - 1, cs[|cs| - 1]);
      ColumnAt(x, y, init, q);
      ColorAtAppend(Column(x, y, init), [d], q);
      ColorAtSingle(d, q);
    }
  }

  lemma {:induction false} ColumnDistinct(x: int, y: int, cs: seq<int>)
    ensures DistinctPositions(Column(x, y, cs))
    decreases |cs|
  {
    if |cs| > 0 {
      var init, last := Column(x, y, cs[..|cs| - 1]), [Dot(x, y + |cs| - 1, cs[|cs| - 1])];
      ColumnDistinct(x, y, cs[..|cs| - 1]);
      forall p ensures ColorAt(init, p).None? || ColorAt(last, p).None? {
        ColumnAt(x, y, cs[..|cs| - 1], p);
        ColorAtSingle(last[0], p);
      }
      DisjointAppend(init, last);
    }
  }

  /** The colour the 8 bits of byte g, drawn downward from (x, y), give q. */
  function ByteColor(x: int, y: int, g: bv8, color: int, q: Point): Option<int> {
    if q.x == x && y <= q.y < y + 8 then Some(BitColor(g, q.y - y, color)) else None
  }

  lemma BitDotsAt(x: int, y: int, g: bv8, color: int, q: Point)
    ensures ColorAt(BitDots(x, y, g, color), q) == ByteColor(x, y, g, color, q)
    ensures DistinctPositions(BitDots(x, y, g, color))
  {
    ColumnAt(x, y, BitColors(g, color), q);
    ColumnDistinct(x, y, BitColors(g, color));
  }

  /** The colour the first n columns of one strip give q. */
  function ColumnColor(x: int, y: int, blk: seq<bv8>, color: int, n: nat, q: Point): Option<int>
    requires n <= |blk|
  {
    if x <= q.x < x + n && y <= q.y < y + 8 then Some(BitColor(blk[q.x - x], q.y - y, color)) else None
  }

  lemma {:induction false} ColumnDotsAt(x: int, y: int, blk: seq<bv8>, color: int, n: nat, q: Point)
    requires n <= |blk|
    ensures ColorAt(ColumnDots(x, y, blk, color, n), q) == ColumnColor(x, y, blk, color, n, q)
    decreases n
  {
    if n > 0 {
      ColumnDotsAt(x, y, blk, color, n - 1, q);
      BitDotsAt(x + n - 1, y, blk[n - 1], color, q);
      ColorAtAppend(ColumnDots(x, y, blk, color, n - 1), BitDots(x + n - 1, y, blk[n - 1], color), q);
      ColumnColorSplit(x, y, blk, color, n, q);
      assert ColumnDots(x, y, blk, color, n)
             == ColumnDots(x, y, blk, color, n - 1) + BitDots(x + n - 1, y, blk[n - 1], color);
      if q.x == x + n - 1 {
        assert ColumnColor(x, y, blk, color, n - 1, q) == None;
      } else {
        assert ByteColor(x + n - 1, y, blk[n - 1], color, q) == None;
      }
    }
  }

  /** The first n columns colour q through column n-1 when q is in it, and through
      the columns before it otherwise. */
  lemma ColumnColorSplit(x: int, y: int, blk: seq<bv8>, color: int, n: nat, q: Point)
    requires 0 < n <= |blk|
    ensures ColumnColor(x, y, blk, color, n, q)
            == if q.x == x + n - 1 then ByteColor(x + n - 1, y, blk[n - 1], color, q)
               else ColumnColor(x, y, blk, color, n - 1, q)
  {
  }

  lemma {:induction false} ColumnDotsDistinct(x: int, y: int, blk: seq<bv8>, color: int, n: nat)
    requires n <= |blk|
    ensures DistinctPositions(ColumnDots(x, y, blk, color, n))
    decreases n
  {
    if n > 0 {
      var init, last := ColumnDots(x, y, blk, color, n - 1), BitDots(x + n - 1, y, blk[n - 1], color);
      ColumnDotsDistinct(x, y, blk, color, n - 1);
      BitDotsAt(x + n - 1, y, blk[n - 1], color, Point(x, y));
      forall p ensures ColorAt(init, p).None? || ColorAt(last, p).None? {
        ColumnDotsAt(x, y, blk, color, n - 1, p);
        BitDotsAt(x + n - 1, y, blk[n - 1], color, p);
      }
      DisjointAppend(init, last);
    }
  }

  /** The colour a stack of strips gives q. */
  function StripColor(x: int, y: int, strips: seq<seq<bv8>>, color: int, q: Point): Option<int> {
    if q.y < y || q.y >= y + 8 * |strips| then None
    else
      var blk := strips[(q.y - y) / 8];
      if x <= q.x < x + |blk| then Some(BitColor(blk[q.x - x], (q.y - y) % 8, color)) else None
  }

  lemma StripOf(y: int, rows: nat, qy: int)
    requires rows > 0 && y + 8 * (rows - 1) <= qy < y + 8 * rows
    ensures (qy - y) / 8 == rows - 1 && (qy - y) % 8 == qy - (y + (rows - 1) * 8)
  {
  }

  /** A stack of strips colours q through its last strip when q is in that strip's
      rows, and through the strips above it otherwise. */
  lemma StripColorSplit(x: int, y: int, strips: seq<seq<bv8>>, color: int, q: Point)
    requires |strips| > 0
    ensures var n := |strips|;
      var y', blk := y + (n - 1) * 8, strips[n - 1];
      StripColor(x, y, strips, color, q)
        == if y' <= q.y < y' + 8 then ColumnColor(x, y', blk, color, |blk|, q)
           else StripColor(x, y, strips[..n - 1], color, q)
  {
    var n := |strips|;
    var y' := y + (n - 1) * 8;
    assert y' + 8 == y + 8 * n;
    if y' <= q.y < y' + 8 {
      StripOf(y, n, q.y);
    } else if y <= q.y < y' {
      assert (q.y - y) / 8 < n - 1;
    }
  }

  lemma {:induction false} CellDotsAt(x: int, y: int, strips: seq<seq<bv8>>, color: int, q: Point)
    ensures ColorAt(CellDots(x, y, strips, color), q) == StripColor(x, y, strips, color, q)
    decreases |strips|
  {
    var n := |strips|;
    if n > 0 {
      var init, y', blk := strips[..n - 1], y + (n - 1) * 8, strips[n - 1];
      CellDotsAt(x, y, init, color, q);
      ColumnDotsAt(x, y', blk, color, |blk|, q);
      ColorAtAppend(CellDots(x, y, init, color), ColumnDots(x, y', blk, color, |blk|), q);
      StripColorSplit(x, y, strips, color, q);
      if y' <= q.y {
        assert StripColor(x, y, init, color, q) == None;
      }
    }
  }

  lemma {:induction false} CellDotsDistinct(x: int, y: int, strips: seq<seq<bv8>>, color: int)
    ensures DistinctPositions(CellDots(x, y, strips, color))
    decreases |strips|
  {
    var n := |strips|;
    if n > 0 {
      var y', blk := y + (n - 1) * 8, strips[n - 1];
      var init, last := CellDots(x, y, strips[..n - 1], color), ColumnDots(x, y', blk, color, |blk|);
      CellDotsDistinct(x, y, strips[..n - 1], color);
      ColumnDotsDistinct(x, y', blk, color, |blk|);
      forall p ensures ColorAt(init, p).None? || ColorAt(last, p).None? {
        CellDotsAt(x, y, strips[..n - 1], color, p);
        ColumnDotsAt(x, y', blk, color, |blk|, p);
      }
      DisjointAppend(init, last);
    }
  }

  lemma StripColorBit(x: int, y: int, strips: seq<seq<bv8>>, color: int, q: Point)
    ensures StripColor(x, y, strips, color, q) == CellColor(StripBit(x, y, strips, q), color)
  {
  }

  /** `drawChar` hits each pixel of the cell once, in the colour of its glyph bit,
      and nothing outside the cell. */
  lemma GlyphColorAt(f: Font, x: int, y: int, c: int, color: int, q: Point)
    requires ValidFont(f)
    ensures ColorAt(GlyphDots(f, x, y, c, color), q) == CellColor(GlyphBit(f, x, y, c, q), color)
    ensures DistinctPositions(GlyphDots(f, x, y, c, color))
  {
    if HasGlyph(f, c) {
      CellDotsAt(x, y, Strips(f, c), color, q);
      CellDotsDistinct(x, y, Strips(f, c), color);
      StripColorBit(x, y, Strips(f, c), color, q);
    }
  }

  /** The pixel-level meaning of `drawChar` for any colour and mode. */
  lemma DrawGlyphPixel(b: seq<bv8>, f: Font, x: int, y: int, c: int, color: int, mode: int, q: Point)
    requires |b| == BufferSize && InBounds(q) && ValidFont(f)
    ensures PixelAt(Paint(b, GlyphDots(f, x, y, c, color), mode), q)
            == Painted(PixelAt(b, q), CellColor(GlyphBit(f, x, y, c, q), color), mode)
  {
    GlyphColorAt(f, x, y, c, color, q);
    PaintAt(b, GlyphDots(f, x, y, c, color), mode, q);
  }

  /** A code without a glyph draws nothing. */
  lemma MissingGlyph(b: seq<bv8>, f: Font, x: int, y: int, c: int, color: int, mode: int)
    requires |b| == BufferSize && ValidFont(f) && !HasGlyph(f, c)
    ensures Paint(b, GlyphDots(f, x, y, c, color), mode) == b
  {
  }

  /** White text in NORM mode: every cell pixel becomes its glyph bit; the rest is untouched. */
  lemma DrawWhiteNorm(b: seq<bv8>, f: Font, x: int, y: int, c: int, q: Point)
    requires |b| == BufferSize && InBounds(q) && ValidFont(f)
    ensures PixelAt(Paint(b, GlyphDots(f, x, y, c, WHITE), NORM), q)
            == if GlyphBit(f, x, y, c, q).Some? then GlyphBit(f, x, y, c, q).value else PixelAt(b, q)
  {
    DrawGlyphPixel(b, f, x, y, c, WHITE, NORM, q);
  }

  /** Black text in NORM mode clears the whole cell: set bits are drawn BLACK, and
      clear bits in Inverse(BLACK) == 255, which is not WHITE. */
  lemma DrawBlackNorm(b: seq<bv8>, f: Font, x: int, y: int, c: int, q: Point)
    requires |b| == BufferSize && InBounds(q) && ValidFont(f)
    ensures PixelAt(Paint(b, GlyphDots(f, x, y, c, BLACK), NORM), q)
            == if GlyphBit(f, x, y, c, q).Some? then false else PixelAt(b, q)
  {
    DrawGlyphPixel(b, f, x, y, c, BLACK, NORM, q);
  }

  /** White text in XOR mode toggles exactly the set glyph bits. */
  lemma DrawWhiteXor(b: seq<bv8>, f: Font, x: int, y: int, c: int, q: Point)
    requires |b| == BufferSize && InBounds(q) && ValidFont(f)
    ensures PixelAt(Paint(b, GlyphDots(f, x, y, c, WHITE), XOR), q)
            == if GlyphBit(f, x, y, c, q) == Some(true) then !PixelAt(b, q) else PixelAt(b, q)
  {
    DrawGlyphPixel(b, f, x, y, c, WHITE, XOR, q);
  }

  /** Black text in XOR mode leaves the buffer as it was. */
  lemma DrawBlackXor(b: seq<bv8>, f: Font, x: int, y: int, c: int)
    requires |b| == BufferSize && ValidFont(f)
    ensures Paint(b, GlyphDots(f, x, y, c, BLACK), XOR) == b
  {
    var r := Paint(b, GlyphDots(f, x, y, c, BLACK), XOR);
    forall q | InBounds(q) ensures PixelAt(r, q) == PixelAt(b, q) {
      DrawGlyphPixel(b, f, x, y, c, BLACK, XOR, q);
    }
    PixelsDetermineBuffer(r, b);
  }

  /** `drawChar` changes no pixel outside rows [y, y + 8 * Rows) and outside the
      columns of the strip covering the pixel's row. */
  lemma GlyphFootprint(b: seq<bv8>, f: Font, x: int, y: int, c: int, color: int, mode: int, q: Point)
    requires |b| == BufferSize && InBounds(q) && ValidFont(f)
    requires q.y < y || q.y >= y + 8 * Rows(f) || q.x < x || q.x >= x + |Block(f, c, (q.y - y) / 8)|
    ensures PixelAt(Paint(b, GlyphDots(f, x, y, c, color), mode), q) == PixelAt(b, q)
  {
    DrawGlyphPixel(b, f, x, y, c, color, mode, q);
  }
}
