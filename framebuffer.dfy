/** The packed 1-bit framebuffer of the 64x48 panel.

    The buffer holds 64 * 6 = 384 bytes. Pixel (x, y) lives in byte
    x + (y / 8) * 64, bit y % 8 (one byte is a column of one 8-row page).
    Every drawing operation of the driver is, in the end, a sequence of
    single-pixel plots; `Plot` is one plot and `Paint` is a sequence of them. */
module Framebuffer {

  datatype Option<T> = None | Some(value: T) {
    /** The value, or `default` when there is none (the driver's `None` arguments). */
    function GetOr(default: T): T {
      if Some? then value else default
    }
  }

  const Width: int := 64
  const Height: int := 48
  const BufferSize: int := 384

  const BLACK: int := 0
  const WHITE: int := 1
  const NORM: int := 0
  const XOR: int := 1

  datatype Point = Point(x: int, y: int)

  /** One request to the pixel routine: a position and the colour asked for. */
  datatype Dot = Dot(x: int, y: int, color: int)

  function Pos(d: Dot): Point {
    Point(d.x, d.y)
  }

  predicate InBounds(p: Point) {
    0 <= p.x < Width && 0 <= p.y < Height
  }

  function ByteIndex(p: Point): (i: nat)
    requires InBounds(p)
    ensures i < BufferSize
  {
    p.x + (p.y / 8) * 64
  }

  /** `1 << k` as a byte. */
  function Mask(k: nat): bv8
    requires k < 8
  {
    if k == 0 then 0x01 else if k == 1 then 0x02 else if k == 2 then 0x04
    else if k == 3 then 0x08 else if k == 4 then 0x10 else if k == 5 then 0x20
    else if k == 6 then 0x40 else 0x80
  }

  /** The pixel getter the driver lacks: bit y % 8 of byte x + (y / 8) * 64. */
  function PixelAt(b: seq<bv8>, p: Point): bool
    requires |b| == BufferSize && InBounds(p)
  {
    b[ByteIndex(p)] & Mask(p.y % 8) != 0
  }

  /** New value of one pixel bit under a plot: NORM writes "colour is WHITE",
      XOR flips the bit for WHITE and leaves it alone for any other colour. */
  function Effect(bit: bool, color: int, mode: int): bool {
    if mode == XOR then (if color == WHITE then !bit else bit) else color == WHITE
  }

  /** What the driver's `pixel` does to the byte that holds the pixel:
      `|=`, `&=` or `^=` with the mask of bit k, or nothing (XOR with a
      colour other than WHITE). */
  function PlotByte(v: bv8, k: nat, color: int, mode: int): (r: bv8)
    requires k < 8
    ensures r & !Mask(k) == v & !Mask(k)
    ensures (r & Mask(k) != 0) == Effect(v & Mask(k) != 0, color, mode)
  {
    var m := Mask(k);
    if mode == XOR then
      (if color == WHITE then v ^ m else v)
    else if color == WHITE then v | m
    else v & !m
  }

  /** The driver's `pixel`: clipped set, clear or toggle of one bit. Any mode
      other than XOR behaves as NORM. */
  function Plot(b: seq<bv8>, d: Dot, mode: int): (r: seq<bv8>)
    requires |b| == BufferSize
    ensures |r| == BufferSize
    ensures !InBounds(Pos(d)) ==> r == b
    ensures InBounds(Pos(d)) ==>
      && (forall k :: 0 <= k < BufferSize && k != ByteIndex(Pos(d)) ==> r[k] == b[k])
      && r[ByteIndex(Pos(d))] == PlotByte(b[ByteIndex(Pos(d))], d.y % 8, d.color, mode)
  {
    if !InBounds(Pos(d)) then b
    else
      var i := ByteIndex(Pos(d));
      b[i := PlotByte(b[i], d.y % 8, d.color, mode)]
  }

  /** Plots the dots of `s` one after the other, in order. */
  function Paint(b: seq<bv8>, s: seq<Dot>, mode: int): (r: seq<bv8>)
    requires |b| == BufferSize
    ensures |r| == BufferSize
    decreases |s|
  {
    if |s| == 0 then b else Plot(Paint(b, s[..|s| - 1], mode), s[|s| - 1], mode)
  }

  /** The colour of the last dot of `s` at position `q`, if any. */
  function ColorAt(s: seq<Dot>, q: Point): Option<int>
    decreases |s|
  {
    if |s| == 0 then None
    else if Pos(s[|s| - 1]) == q then Some(s[|s| - 1].color)
    else ColorAt(s[..|s| - 1], q)
  }

  ghost predicate DistinctPositions(s: seq<Dot>) {
    forall i, j :: 0 <= i < j < |s| ==> Pos(s[i]) != Pos(s[j])
  }

  /** What a pixel bit becomes when the dots that hit it are summarised by `c`. */
  function Painted(bit: bool, c: Option<int>, mode: int): bool {
    if c.None? then bit else Effect(bit, c.value, mode)
  }

  /** The dots asked for by a shape drawn in one colour. */
  function Colored(pts: seq<Point>, c: int): (s: seq<Dot>)
    ensures |s| == |pts|
  {
    seq(|pts|, i requires 0 <= i < |pts| => Dot(pts[i].x, pts[i].y, c))
  }

  ghost predicate NoDuplicates(pts: seq<Point>) {
    forall i, j :: 0 <= i < j < |pts| ==> pts[i] != pts[j]
  }

  /** The whole buffer filled with one byte: `clear(PAGE, v)`. */
  function Filled(v: bv8): (r: seq<bv8>)
    ensures |r| == BufferSize
    ensures forall k :: 0 <= k < |r| ==> r[k] == v
  {
    seq(BufferSize, _ => v)
  }

  // ---------------------------------------------------------------- lemmas

  lemma MasksDisjoint(k: nat, k': nat)
    requires k < 8 && k' < 8 && k != k'
    ensures Mask(k) & Mask(k') == 0
  {
  }

  lemma OtherBitKept(r: bv8, b: bv8, m: bv8, m': bv8)
    requires m & m' == 0
    requires r & !m == b & !m
    ensures (r & m' != 0) == (b & m' != 0)
  {
  }

  lemma ByteFromBits(a: bv8, b: bv8)
    requires forall j :: 0 <= j < 8 ==> (a & Mask(j) != 0) == (b & Mask(j) != 0)
    ensures a == b
  {
    assert (a & Mask(0) != 0) == (b & Mask(0) != 0);
    assert (a & Mask(1) != 0) == (b & Mask(1) != 0);
    assert (a & Mask(2) != 0) == (b & Mask(2) != 0);
    assert (a & Mask(3) != 0) == (b & Mask(3) != 0);
    assert (a & Mask(4) != 0) == (b & Mask(4) != 0);
    assert (a & Mask(5) != 0) == (b & Mask(5) != 0);
    assert (a & Mask(6) != 0) == (b & Mask(6) != 0);
    assert (a & Mask(7) != 0) == (b & Mask(7) != 0);
  }

  lemma PlotHits(b: seq<bv8>, d: Dot, mode: int)
    requires |b| == BufferSize && InBounds(Pos(d))
    ensures PixelAt(Plot(b, d, mode), Pos(d)) == Effect(PixelAt(b, Pos(d)), d.color, mode)
  {
    var i := ByteIndex(Pos(d));
    assert Plot(b, d, mode)[i] == PlotByte(b[i], d.y % 8, d.color, mode);
  }

  lemma PlotMisses(b: seq<bv8>, d: Dot, mode: int, q: Point)
    requires |b| == BufferSize && InBounds(q) && Pos(d) != q
    ensures PixelAt(Plot(b, d, mode), q) == PixelAt(b, q)
  {
    if InBounds(Pos(d)) {
      var i, j := ByteIndex(Pos(d)), ByteIndex(q);
      if i == j {
        var v := PlotByte(b[i], d.y % 8, d.color, mode);
        assert Plot(b, d, mode)[i] == v;
        assert d.x == q.x && d.y / 8 == q.y / 8;
        MasksDisjoint(d.y % 8, q.y % 8);
        OtherBitKept(v, b[i], Mask(d.y % 8), Mask(q.y % 8));
      }
    }
  }

  /** One plot changes at most the pixel it names, and that one as `Effect` says. */
  lemma PlotPixel(b: seq<bv8>, d: Dot, mode: int, q: Point)
    requires |b| == BufferSize && InBounds(q)
    ensures PixelAt(Plot(b, d, mode), q)
            == if Pos(d) == q then Effect(PixelAt(b, q), d.color, mode) else PixelAt(b, q)
  {
    if Pos(d) == q {
      PlotHits(b, d, mode);
    } else {
      PlotMisses(b, d, mode, q);
    }
  }

  /** Two buffers that agree on every pixel are equal: all 384 bytes hold pixels. */
  lemma PixelsDetermineBuffer(a: seq<bv8>, b: seq<bv8>)
    requires |a| == BufferSize && |b| == BufferSize
    requires forall p :: InBounds(p) ==> PixelAt(a, p) == PixelAt(b, p)
    ensures a == b
  {
    forall k | 0 <= k < BufferSize
      ensures a[k] == b[k]
    {
      var x, page := k % Width, k / Width;
      forall j | 0 <= j < 8
        ensures (a[k] & Mask(j) != 0) == (b[k] & Mask(j) != 0)
      {
        var p := Point(x, page * 8 + j);
        assert InBounds(p) && ByteIndex(p) == k && p.y % 8 == j;
        assert PixelAt(a, p) == PixelAt(b, p);
      }
      ByteFromBits(a[k], b[k]);
    }
  }

  lemma {:induction false} PaintAppend(b: seq<bv8>, s: seq<Dot>, t: seq<Dot>, mode: int)
    requires |b| == BufferSize
    ensures Paint(b, s + t, mode) == Paint(Paint(b, s, mode), t, mode)
    decreases |t|
  {
    if |t| == 0 {
      assert s + t == s;
    } else {
      assert (s + t)[..|s + t| - 1] == s + t[..|t| - 1];
      PaintAppend(b, s, t[..|t| - 1], mode);
    }
  }

  /** `ColorAt` is None exactly when no dot hits q, and otherwise the colour of the
      last dot that does. */
  lemma {:induction false} ColorAtLast(s: seq<Dot>, q: Point)
    ensures ColorAt(s, q).None? <==> forall i :: 0 <= i < |s| ==> Pos(s[i]) != q
    ensures ColorAt(s, q).Some? ==>
      exists i :: 0 <= i < |s| && s[i] == Dot(q.x, q.y, ColorAt(s, q).value)
                  && forall j :: i < j < |s| ==> Pos(s[j]) != q
    decreases |s|
  {
    if |s| > 0 {
      var init := s[..|s| - 1];
      ColorAtLast(init, q);
      assert forall i :: 0 <= i < |init| ==> init[i] == s[i];
      if Pos(s[|s| - 1]) != q && ColorAt(s, q).Some? {
        var i :| 0 <= i < |init| && init[i] == Dot(q.x, q.y, ColorAt(init, q).value)
                 && forall j :: i < j < |init| ==> Pos(init[j]) != q;
        assert s[i] == Dot(q.x, q.y, ColorAt(s, q).value);
      }
    }
  }

  lemma {:induction false} ColorAtAppend(s: seq<Dot>, t: seq<Dot>, q: Point)
    ensures ColorAt(s + t, q) == if ColorAt(t, q).Some? then ColorAt(t, q) else ColorAt(s, q)
    decreases |t|
  {
    if |t| == 0 {
      assert s + t == s;
    } else {
      assert (s + t)[..|s + t| - 1] == s + t[..|t| - 1];
      ColorAtAppend(s, t[..|t| - 1], q);
    }
  }

  lemma DistinctAppend(s: seq<Dot>, t: seq<Dot>)
    requires DistinctPositions(s) && DistinctPositions(t)
    requires forall i, j :: 0 <= i < |s| && 0 <= j < |t| ==> Pos(s[i]) != Pos(t[j])
    ensures DistinctPositions(s + t)
  {
    forall i, j | 0 <= i < j < |s + t|
      ensures Pos((s + t)[i]) != Pos((s + t)[j])
    {
      if j < |s| {
      } else if i < |s| {
        assert Pos(s[i]) != Pos(t[j - |s|]);
      } else {
        assert Pos(t[i - |s|]) != Pos(t[j - |s|]);
      }
    }
  }

  lemma ColorAtSingle(d: Dot, q: Point)
    ensures ColorAt([d], q) == if Pos(d) == q then Some(d.color) else None
  {
    assert [d][..0] == [];
  }

  /** Two dot sequences that never hit a common pixel hit distinct pixels together. */
  lemma DisjointAppend(s: seq<Dot>, t: seq<Dot>)
    requires DistinctPositions(s) && DistinctPositions(t)
    requires forall q :: ColorAt(s, q).None? || ColorAt(t, q).None?
    ensures DistinctPositions(s + t)
  {
    forall i, j | 0 <= i < |s| && 0 <= j < |t| ensures Pos(s[i]) != Pos(t[j]) {
      ColorAtLast(s, Pos(s[i]));
      ColorAtLast(t, Pos(t[j]));
    }
    DistinctAppend(s, t);
  }

  /** The meaning of a painted sequence at one pixel. Under NORM the last dot
      at the pixel decides it, whatever came before; under XOR (where order
      and repetition matter) the dots must hit distinct pixels. */
  lemma {:induction false} PaintAt(b: seq<bv8>, s: seq<Dot>, mode: int, q: Point)
    requires |b| == BufferSize && InBounds(q)
    requires mode != XOR || DistinctPositions(s)
    ensures PixelAt(Paint(b, s, mode), q) == Painted(PixelAt(b, q), ColorAt(s, q), mode)
    decreases |s|
  {
    if |s| > 0 {
      var init, last := s[..|s| - 1], s[|s| - 1];
      assert mode != XOR || DistinctPositions(init) by {
        if mode == XOR {
          forall i, j | 0 <= i < j < |init| ensures Pos(init[i]) != Pos(init[j]) {
            assert init[i] == s[i] && init[j] == s[j];
          }
        }
      }
      PaintAt(b, init, mode, q);
      PlotPixel(Paint(b, init, mode), last, mode, q);
      if Pos(last) == q && mode == XOR {
        ColorAtLast(init, q);
        forall i | 0 <= i < |init| ensures Pos(init[i]) != q {
          assert init[i] == s[i];
        }
      }
    }
  }

  lemma ColoredAppend(a: seq<Point>, b: seq<Point>, c: int)
    ensures Colored(a + b, c) == Colored(a, c) + Colored(b, c)
  {
  }

  /** A one-colour shape paints each of its points in that colour, and nothing else;
      it hits distinct pixels exactly when its points are distinct. */
  lemma ColoredAt(pts: seq<Point>, c: int, q: Point)
    ensures ColorAt(Colored(pts, c), q) == if q in pts then Some(c) else None
    ensures NoDuplicates(pts) ==> DistinctPositions(Colored(pts, c))
  {
    var s := Colored(pts, c);
    assert forall i :: 0 <= i < |s| ==> Pos(s[i]) == pts[i];
    ColorAtLast(s, q);
    if q in pts {
      var i :| 0 <= i < |s| && s[i] == Dot(q.x, q.y, ColorAt(s, q).value);
    }
  }

  /** The pixel-level meaning of drawing a one-colour shape: under NORM every
      point of the shape takes the colour; under any mode, a shape without
      repeated points applies `Effect` once to each of its points. */
  lemma PaintShape(b: seq<bv8>, pts: seq<Point>, c: int, mode: int, q: Point)
    requires |b| == BufferSize && InBounds(q)
    requires mode != XOR || NoDuplicates(pts)
    ensures PixelAt(Paint(b, Colored(pts, c), mode), q)
            == if q in pts then Effect(PixelAt(b, q), c, mode) else PixelAt(b, q)
  {
    ColoredAt(pts, c, q);
    PaintAt(b, Colored(pts, c), mode, q);
  }

  /** After `clear(PAGE, 0)` every pixel is BLACK; after `clear(PAGE, 0xFF)` every pixel is WHITE. */
  lemma ClearedPixels(p: Point)
    requires InBounds(p)
    ensures !PixelAt(Filled(0x00), p)
    ensures PixelAt(Filled(0xFF), p)
  {
  }
}
