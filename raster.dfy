/** The geometry of the driver's drawing primitives: which pixels `line`,
    `lineH`, `lineV`, `rect`, `rectFill` and `circle` ask the pixel routine
    for, in order. The driver's methods (module MicroOled) paint exactly
    these sequences; the lemmas here say what the sequences are. */
module Raster {
  import opened Framebuffer

  function Abs(n: int): nat {
    if n < 0 then -n else n
  }

  function Min(a: int, b: int): int {
    if a <= b then a else b
  }

  function Max(a: int, b: int): int {
    if a <= b then b else a
  }

  // ------------------------------------------------------------- Bresenham

  /** The constants of one `line` call after its two normalising swaps:
      the steep transpose, then the swap that makes x0 <= x1. */
  datatype Bresenham = Bresenham(steep: bool, x0: int, y0: int, x1: int, y1: int,
                                 dx: int, dy: int, ystep: int)

  /** The loop variables of `line`: major coordinate, minor coordinate, error term. */
  datatype LineVars = LineVars(x: int, y: int, err: int)

  /** A point of the normalised (possibly transposed) plane, back in screen coordinates. */
  function Unswap(steep: bool, x: int, y: int): Point {
    if steep then Point(y, x) else Point(x, y)
  }

  function Setup(x0: int, y0: int, x1: int, y1: int): Bresenham {
    var steep := Abs(y1 - y0) > Abs(x1 - x0);
    var ax0, ay0, ax1, ay1 := if steep then y0 else x0, if steep then x0 else y0,
                              if steep then y1 else x1, if steep then x1 else y1;
    var bx0, by0, bx1, by1 := if ax0 > ax1 then ax1 else ax0, if ax0 > ax1 then ay1 else ay0,
                              if ax0 > ax1 then ax0 else ax1, if ax0 > ax1 then ay0 else ay1;
    Bresenham(steep, bx0, by0, bx1, by1, bx1 - bx0, Abs(by1 - by0), if by0 < by1 then 1 else -1)
  }

  /** The swaps transpose a steep line and order the endpoints by the major
      axis: the endpoints are the line's own, the major extent is the larger of
      the two extents, and the minor extent is no larger. */
  lemma SetupFacts(x0: int, y0: int, x1: int, y1: int)
    ensures var b := Setup(x0, y0, x1, y1);
      && b.steep == (Abs(y1 - y0) > Abs(x1 - x0))
      && b.x0 <= b.x1 && b.dx == b.x1 - b.x0 && b.dx == Max(Abs(x1 - x0), Abs(y1 - y0))
      && b.dy == Abs(b.y1 - b.y0) && b.dy <= b.dx
      && b.ystep == (if b.y0 < b.y1 then 1 else -1)
      && {Unswap(b.steep, b.x0, b.y0), Unswap(b.steep, b.x1, b.y1)} == {Point(x0, y0), Point(x1, y1)}
  {
  }

  function Start(b: Bresenham): LineVars {
    LineVars(b.x0, b.y0, b.dx / 2)
  }

  /** One iteration of the loop body of `line` (after the pixel is plotted). */
  function Step(b: Bresenham, v: LineVars): LineVars {
    var e := v.err - b.dy;
    if e < 0 then LineVars(v.x + 1, v.y + b.ystep, e + b.dx) else LineVars(v.x + 1, v.y, e)
  }

  /** The pixels plotted from loop state `v` on, while `x0 < x1`. */
  function Trace(b: Bresenham, v: LineVars): seq<Point>
    decreases b.x1 - v.x
  {
    if v.x < b.x1 then [Unswap(b.steep, v.x, v.y)] + Trace(b, Step(b, v)) else []
  }

  /** The loop state in which `line`'s loop stops. */
  function Exit(b: Bresenham, v: LineVars): LineVars
    decreases b.x1 - v.x
  {
    if v.x < b.x1 then Exit(b, Step(b, v)) else v
  }

  /** The pixels `line(x0, y0, x1, y1)` plots, in order. */
  function LinePoints(x0: int, y0: int, x1: int, y1: int): seq<Point> {
    var b := Setup(x0, y0, x1, y1);
    Trace(b, Start(b))
  }

  /** The loop invariant of `line`: with k = x - x0 steps taken and m = |y - y0|
      minor steps, the error term is dx/2 - k*dy + m*dx and stays in [0, dx). */
  ghost predicate LineInvariant(b: Bresenham, v: LineVars) {
    var m := (v.y - b.y0) * b.ystep;
    && b.x0 <= v.x <= b.x1
    && 0 <= v.err && (b.dx > 0 ==> v.err < b.dx)
    && 0 <= m <= v.x - b.x0
    && v.err == b.dx / 2 - (v.x - b.x0) * b.dy + m * b.dx
  }

  ghost predicate Normalised(b: Bresenham) {
    && b.x0 <= b.x1 && b.dx == b.x1 - b.x0
    && b.dy == Abs(b.y1 - b.y0) && 0 <= b.dy <= b.dx
    && b.ystep == (if b.y0 < b.y1 then 1 else -1)
  }

  lemma SetupNormalised(x0: int, y0: int, x1: int, y1: int)
    ensures Normalised(Setup(x0, y0, x1, y1))
    ensures LineInvariant(Setup(x0, y0, x1, y1), Start(Setup(x0, y0, x1, y1)))
  {
  }

  /** The error-term identity after one more major step, with or without a minor step. */
  lemma ErrorTermStep(dx: int, dy: int, k: int, m: int, err: int, minor: bool)
    requires err == dx / 2 - k * dy + m * dx
    ensures var m', err' := if minor then m + 1 else m, if minor then err - dy + dx else err - dy;
      err' == dx / 2 - (k + 1) * dy + m' * dx
  {
    assert (k + 1) * dy == k * dy + dy;
    assert (m + 1) * dx == m * dx + dx;
  }

  /** A minor step moves y by ystep, which adds one to (y - y0) * ystep. */
  lemma MinorCount(y: int, y0: int, ystep: int)
    requires ystep == 1 || ystep == -1
    ensures (y + ystep - y0) * ystep == (y - y0) * ystep + 1
  {
  }

  /** One loop iteration keeps the error term in [0, dx). */
  lemma StepKeepsInvariant(b: Bresenham, v: LineVars)
    requires Normalised(b) && LineInvariant(b, v) && v.x < b.x1
    ensures LineInvariant(b, Step(b, v))
  {
    var minor := v.err - b.dy < 0;
    ErrorTermStep(b.dx, b.dy, v.x - b.x0, (v.y - b.y0) * b.ystep, v.err, minor);
    if minor {
      MinorCount(v.y, b.y0, b.ystep);
    }
  }

  /** A non-zero multiple of a positive number is at least that number away from zero. */
  lemma MultipleAwayFromZero(k: int, d: int)
    requires 0 < d
    ensures k >= 1 ==> k * d >= d
    ensures k <= -1 ==> k * d <= -d
  {
    if k >= 1 {
      assert k * d == (k - 1) * d + d;
    } else if k <= -1 {
      assert k * d == (k + 1) * d - d;
    }
  }

  /** When the invariant holds with k == dx, exactly dy minor steps were taken. */
  lemma MinorStepsAtEnd(dx: int, dy: int, m: int, err: int)
    requires 0 < dx && 0 <= dy && 0 <= m
    requires 0 <= err < dx && err == dx / 2 - dx * dy + m * dx
    ensures m == dy
  {
    assert (m - dy) * dx == err - dx / 2;
    MultipleAwayFromZero(m - dy, dx);
  }

  /** `line`'s loop ends with the major coordinate at x1 and the minor one at y1. */
  lemma {:induction false} ExitReachesEnd(b: Bresenham, v: LineVars)
    requires Normalised(b) && LineInvariant(b, v)
    ensures LineInvariant(b, Exit(b, v))
    ensures Exit(b, v).x == b.x1 && Exit(b, v).y == b.y1
    decreases b.x1 - v.x
  {
    if v.x < b.x1 {
      StepKeepsInvariant(b, v);
      ExitReachesEnd(b, Step(b, v));
    } else {
      var m := (v.y - b.y0) * b.ystep;
      if b.dx > 0 {
        assert (v.x - b.x0) * b.dy == b.dx * b.dy;
        MinorStepsAtEnd(b.dx, b.dy, m, v.err);
      }
      assert m == b.dy;
      assert b.ystep * b.ystep == 1;
      assert v.y - b.y0 == m * b.ystep;
      if b.y0 < b.y1 {
        assert v.y == b.y0 + b.dy;
      } else {
        assert v.y == b.y0 - b.dy;
      }
    }
  }

  /** The major coordinate of a plotted point. */
  function Major(steep: bool, p: Point): int {
    if steep then p.y else p.x
  }

  /** The minor coordinate of a plotted point. */
  function Minor(steep: bool, p: Point): int {
    if steep then p.x else p.y
  }

  lemma {:induction false} TraceShape(b: Bresenham, v: LineVars)
    requires v.x <= b.x1 && (b.ystep == 1 || b.ystep == -1)
    ensures |Trace(b, v)| == b.x1 - v.x
    ensures forall i :: 0 <= i < |Trace(b, v)| ==> Major(b.steep, Trace(b, v)[i]) == v.x + i
    ensures |Trace(b, v)| > 0 ==> Minor(b.steep, Trace(b, v)[0]) == v.y
    ensures forall i :: 0 <= i < |Trace(b, v)| - 1 ==>
              Minor(b.steep, Trace(b, v)[i + 1]) - Minor(b.steep, Trace(b, v)[i]) in {0, b.ystep}
    decreases b.x1 - v.x
  {
    if v.x < b.x1 {
      var w := Step(b, v);
      TraceShape(b, w);
      var t := Trace(b, v);
      assert t == [Unswap(b.steep, v.x, v.y)] + Trace(b, w);
      assert forall i :: 1 <= i < |t| ==> t[i] == Trace(b, w)[i - 1];
    }
  }

  /** The endpoint `line` starts from: the one with the smaller major coordinate. */
  function NearEnd(x0: int, y0: int, x1: int, y1: int): Point {
    var b := Setup(x0, y0, x1, y1);
    Unswap(b.steep, b.x0, b.y0)
  }

  /** The endpoint `line` heads for and never plots. */
  function FarEnd(x0: int, y0: int, x1: int, y1: int): Point {
    var b := Setup(x0, y0, x1, y1);
    Unswap(b.steep, b.x1, b.y1)
  }

  /** `line` plots max(|x1-x0|, |y1-y0|) pixels, one per major coordinate from
      the near endpoint up to but excluding the far one; the minor coordinate
      moves by at most one per step; no pixel is plotted twice. */
  lemma LineShape(x0: int, y0: int, x1: int, y1: int)
    ensures var pts, steep := LinePoints(x0, y0, x1, y1), Abs(y1 - y0) > Abs(x1 - x0);
      && |pts| == Max(Abs(x1 - x0), Abs(y1 - y0))
      && (forall i :: 0 <= i < |pts| ==>
            Major(steep, pts[i]) == Major(steep, NearEnd(x0, y0, x1, y1)) + i)
      && (|pts| > 0 ==> pts[0] == NearEnd(x0, y0, x1, y1))
      && (forall i :: 0 <= i < |pts| - 1 ==> Abs(Minor(steep, pts[i + 1]) - Minor(steep, pts[i])) <= 1)
      && FarEnd(x0, y0, x1, y1) !in pts
      && NoDuplicates(pts)
  {
    var b := Setup(x0, y0, x1, y1);
    var pts := Trace(b, Start(b));
    TraceShape(b, Start(b));
    assert forall i :: 0 <= i < |pts| ==> Major(b.steep, pts[i]) < b.x1;
    if |pts| > 0 {
      assert Minor(b.steep, pts[0]) == b.y0 && Major(b.steep, pts[0]) == b.x0;
    }
  }

  /** The loop of `line` keeps its error term in [0, dx) and leaves the minor
      coordinate at the far endpoint's. */
  lemma LineLoopEnds(x0: int, y0: int, x1: int, y1: int)
    ensures var b := Setup(x0, y0, x1, y1);
      && LineInvariant(b, Exit(b, Start(b)))
      && Unswap(b.steep, Exit(b, Start(b)).x, Exit(b, Start(b)).y) == FarEnd(x0, y0, x1, y1)
  {
    var b := Setup(x0, y0, x1, y1);
    SetupNormalised(x0, y0, x1, y1);
    ExitReachesEnd(b, Start(b));
  }

  // ------------------------------------------------------- straight runs

  /** n consecutive pixels from (x, y), along a row or down a column. */
  function Span(x: int, y: int, n: nat, vertical: bool): (s: seq<Point>)
    ensures |s| == n
  {
    seq(n, i => if vertical then Point(x, y + i) else Point(x + i, y))
  }

  lemma SpanMembers(x: int, y: int, n: nat, vertical: bool, p: Point)
    ensures p in Span(x, y, n, vertical) <==>
      if vertical then p.x == x && y <= p.y < y + n else p.y == y && x <= p.x < x + n
    ensures NoDuplicates(Span(x, y, n, vertical))
  {
    var s := Span(x, y, n, vertical);
    if vertical && p.x == x && y <= p.y < y + n {
      assert s[p.y - y] == p;
    } else if !vertical && p.y == y && x <= p.x < x + n {
      assert s[p.x - x] == p;
    }
  }

  /** With no minor movement (dy == 0) the error term never goes negative, so
      the trace is a straight run. */
  lemma {:induction false} TraceFlat(b: Bresenham, v: LineVars)
    requires b.dy == 0 && 0 <= v.err && v.x <= b.x1
    ensures |Trace(b, v)| == b.x1 - v.x
    ensures forall i :: 0 <= i < b.x1 - v.x ==> Trace(b, v)[i] == Unswap(b.steep, v.x + i, v.y)
    decreases b.x1 - v.x
  {
    if v.x < b.x1 {
      TraceFlat(b, Step(b, v));
    }
  }

  /** `lineH(x, y, width)`: the pixels of row y over [min(x, x+width), that + |width|). */
  function HLine(x: int, y: int, width: int): seq<Point> {
    LinePoints(x, y, x + width, y)
  }

  /** `lineV(x, y, height)`: the pixels of column x over [min(y, y+height), that + |height|). */
  function VLine(x: int, y: int, height: int): seq<Point> {
    LinePoints(x, y, x, y + height)
  }

  lemma HLineSpan(x: int, y: int, width: int)
    ensures HLine(x, y, width) == Span(Min(x, x + width), y, Abs(width), false)
  {
    var b := Setup(x, y, x + width, y);
    TraceFlat(b, Start(b));
  }

  lemma VLineSpan(x: int, y: int, height: int)
    ensures VLine(x, y, height) == Span(x, Min(y, y + height), Abs(height), true)
  {
    var b := Setup(x, y, x, y + height);
    TraceFlat(b, Start(b));
  }

  /** The far endpoint is excluded: `line(0, 0, 5, 0)` plots x = 0..4, and a
      zero-length line plots nothing. */
  lemma LineExamples(x: int, y: int)
    ensures LinePoints(0, 0, 5, 0) == [Point(0, 0), Point(1, 0), Point(2, 0), Point(3, 0), Point(4, 0)]
    ensures LinePoints(x, y, x, y) == []
  {
    HLineSpan(0, 0, 5);
  }

  // ------------------------------------------------------------ rectangles

  /** `rect`: rows y and y+height-1, then, when height-2 >= 1, the columns x and
      x+width-1 over the rows strictly between. */
  function RectPoints(x: int, y: int, width: int, height: int): seq<Point> {
    HLine(x, y, width) + HLine(x, y + height - 1, width)
      + if height - 2 < 1 then []
        else VLine(x, y + 1, height - 2) + VLine(x + width - 1, y + 1, height - 2)
  }

  ghost predicate OnOutline(p: Point, x: int, y: int, width: int, height: int) {
    && x <= p.x < x + width && y <= p.y < y + height
    && (p.x == x || p.x == x + width - 1 || p.y == y || p.y == y + height - 1)
  }

  lemma NoDuplicatesAppend(a: seq<Point>, b: seq<Point>)
    requires NoDuplicates(a) && NoDuplicates(b)
    requires forall p :: p in a ==> p !in b
    ensures NoDuplicates(a + b)
  {
    forall i, j | 0 <= i < j < |a + b|
      ensures (a + b)[i] != (a + b)[j]
    {
      if i < |a| && j >= |a| {
        assert (a + b)[i] in a && (a + b)[j] in b;
      }
    }
  }

  /** The members of a row run drawn by `lineH` with a non-negative width. */
  lemma HLineMembers(x: int, y: int, width: int)
    requires width >= 0
    ensures NoDuplicates(HLine(x, y, width))
    ensures forall p :: p in HLine(x, y, width) <==> p.y == y && x <= p.x < x + width
  {
    HLineSpan(x, y, width);
    forall p ensures p in HLine(x, y, width) <==> p.y == y && x <= p.x < x + width {
      SpanMembers(x, y, width, false, p);
    }
    SpanMembers(x, y, width, false, Point(x, y));
  }

  /** y lies in the rows covered by a column run of the given signed height from y0. */
  ghost predicate InRun(y: int, y0: int, height: int) {
    Min(y0, y0 + height) <= y < Min(y0, y0 + height) + Abs(height)
  }

  /** The members of a column run drawn by `lineV`, for either sign of height. */
  lemma VLineMembers(x: int, y: int, height: int)
    ensures NoDuplicates(VLine(x, y, height))
    ensures |VLine(x, y, height)| == Abs(height)
    ensures forall p :: p in VLine(x, y, height) <==> p.x == x && InRun(p.y, y, height)
  {
    VLineSpan(x, y, height);
    forall p ensures p in VLine(x, y, height) <==> p.x == x && InRun(p.y, y, height) {
      SpanMembers(x, Min(y, y + height), Abs(height), true, p);
    }
    SpanMembers(x, Min(y, y + height), Abs(height), true, Point(x, y));
  }

  /** The two rows of `rect`, for width >= 0 and height >= 2. */
  lemma RectRows(x: int, y: int, width: int, height: int)
    requires width >= 0 && height >= 2
    ensures NoDuplicates(HLine(x, y, width) + HLine(x, y + height - 1, width))
    ensures forall p :: p in HLine(x, y, width) + HLine(x, y + height - 1, width) <==>
      x <= p.x < x + width && (p.y == y || p.y == y + height - 1)
  {
    HLineMembers(x, y, width);
    HLineMembers(x, y + height - 1, width);
    NoDuplicatesAppend(HLine(x, y, width), HLine(x, y + height - 1, width));
  }

  /** The two side columns of `rect`, for width >= 2 and height >= 3. */
  lemma RectSides(x: int, y: int, width: int, height: int)
    requires width >= 2 && height >= 3
    ensures NoDuplicates(VLine(x, y + 1, height - 2) + VLine(x + width - 1, y + 1, height - 2))
    ensures forall p :: p in VLine(x, y + 1, height - 2) + VLine(x + width - 1, y + 1, height - 2) <==>
      y < p.y < y + height - 1 && (p.x == x || p.x == x + width - 1)
  {
    VLineMembers(x, y + 1, height - 2);
    VLineMembers(x + width - 1, y + 1, height - 2);
    NoDuplicatesAppend(VLine(x, y + 1, height - 2), VLine(x + width - 1, y + 1, height - 2));
  }

  /** Membership in the outline with three or more rows: the two rows, or the sides between them. */
  lemma OutlineTall(x: int, y: int, width: int, height: int)
    requires width >= 2 && height >= 3
    ensures var rows, sides := HLine(x, y, width) + HLine(x, y + height - 1, width),
                               VLine(x, y + 1, height - 2) + VLine(x + width - 1, y + 1, height - 2);
      && NoDuplicates(rows + sides)
      && forall p :: p in rows + sides <==> OnOutline(p, x, y, width, height)
  {
    var rows, sides := HLine(x, y, width) + HLine(x, y + height - 1, width),
                       VLine(x, y + 1, height - 2) + VLine(x + width - 1, y + 1, height - 2);
    RectRows(x, y, width, height);
    RectSides(x, y, width, height);
    NoDuplicatesAppend(rows, sides);
    forall p: Point ensures p in rows + sides <==> OnOutline(p, x, y, width, height) {
      assert p in rows + sides <==> p in rows || p in sides;
    }
  }

  /** For width, height >= 2, `rect` plots every pixel of the outline of
      [x, x+width) x [y, y+height) exactly once and nothing else. */
  lemma RectOutline(x: int, y: int, width: int, height: int)
    requires width >= 2 && height >= 2
    ensures NoDuplicates(RectPoints(x, y, width, height))
    ensures forall p :: p in RectPoints(x, y, width, height) <==> OnOutline(p, x, y, width, height)
  {
    if height == 2 {
      RectRows(x, y, width, height);
      assert RectPoints(x, y, width, height) == HLine(x, y, width) + HLine(x, y + 1, width);
    } else {
      OutlineTall(x, y, width, height);
    }
  }

  /** With height 1 `rect` draws the same row twice. */
  lemma RectHeightOne(x: int, y: int, width: int)
    ensures RectPoints(x, y, width, 1) == HLine(x, y, width) + HLine(x, y, width)
  {
  }

  /** So a WHITE `rect` of height 1 drawn under XOR toggles its row twice and
      leaves the buffer as it was. */
  lemma RectHeightOneXor(b: seq<bv8>, x: int, y: int, width: int)
    requires |b| == BufferSize && width >= 0
    ensures Paint(b, Colored(RectPoints(x, y, width, 1), WHITE), XOR) == b
  {
    var row := HLine(x, y, width);
    RectHeightOne(x, y, width);
    ColoredAppend(row, row, WHITE);
    PaintAppend(b, Colored(row, WHITE), Colored(row, WHITE), XOR);
    HLineMembers(x, y, width);
    var once := Paint(b, Colored(row, WHITE), XOR);
    var twice := Paint(once, Colored(row, WHITE), XOR);
    forall q | InBounds(q)
      ensures PixelAt(twice, q) == PixelAt(b, q)
    {
      PaintShape(b, row, WHITE, XOR, q);
      PaintShape(once, row, WHITE, XOR, q);
    }
    PixelsDetermineBuffer(twice, b);
  }

  /** `rectFill`: one `lineV(i, y, height)` per column i in [x, x+width). */
  function FillPoints(x: int, y: int, width: int, height: int): seq<Point>
    decreases width
  {
    if width <= 0 then [] else FillPoints(x, y, width - 1, height) + VLine(x + width - 1, y, height)
  }

  /** `rectFill` plots every pixel of [x, x+width) x [min(y, y+height), ... + |height|)
      exactly once and nothing else (for height >= 0: the rectangle
      [x, x+width) x [y, y+height)). */
  lemma {:induction false} FillExact(x: int, y: int, width: int, height: int)
    ensures NoDuplicates(FillPoints(x, y, width, height))
    ensures forall p :: p in FillPoints(x, y, width, height) <==> x <= p.x < x + width && InRun(p.y, y, height)
    decreases width
  {
    if width > 0 {
      var before, col := FillPoints(x, y, width - 1, height), VLine(x + width - 1, y, height);
      FillExact(x, y, width - 1, height);
      VLineMembers(x + width - 1, y, height);
      NoDuplicatesAppend(before, col);
      forall p: Point ensures p in before + col <==> x <= p.x < x + width && InRun(p.y, y, height) {
        assert p in before + col <==> p in before || p in col;
      }
    }
  }

  /** `rectFill` plots max(width, 0) * |height| pixels. */
  lemma {:induction false} FillLength(x: int, y: int, width: int, height: int)
    ensures |FillPoints(x, y, width, height)| == Max(width, 0) * Abs(height)
    decreases width
  {
    if width > 0 {
      FillLength(x, y, width - 1, height);
      VLineMembers(x + width - 1, y, height);
      var a := Abs(height);
      assert width * a == (width - 1) * a + a;
    }
  }

  // ---------------------------------------------------------------- circle

  /** The loop variables of `circle`. */
  datatype Midpoint = Midpoint(x: int, y: int, f: int, ddFx: int, ddFy: int)

  function CircleStart(radius: int): Midpoint {
    Midpoint(0, radius, 1 - radius, 1, -2 * radius)
  }

  /** One iteration of `circle`'s loop, before its eight plots. */
  function MidStep(s: Midpoint): Midpoint {
    var y, ddFy, f := if s.f >= 0 then s.y - 1 else s.y, if s.f >= 0 then s.ddFy + 2 else s.ddFy,
                      if s.f >= 0 then s.f + s.ddFy + 2 else s.f;
    Midpoint(s.x + 1, y, f + s.ddFx + 2, s.ddFx + 2, ddFy)
  }

  /** The eight reflections plotted per iteration, in the driver's order. */
  function Reflections(x0: int, y0: int, x: int, y: int): seq<Point> {
    [Point(x0 + x, y0 + y), Point(x0 - x, y0 + y), Point(x0 + x, y0 - y), Point(x0 - x, y0 - y),
     Point(x0 + y, y0 + x), Point(x0 - y, y0 + x), Point(x0 + y, y0 - x), Point(x0 - y, y0 - x)]
  }

  /** The four extreme points plotted before the loop, unconditionally. */
  function Extremes(x0: int, y0: int, radius: int): seq<Point> {
    [Point(x0, y0 + radius), Point(x0, y0 - radius), Point(x0 + radius, y0), Point(x0 - radius, y0)]
  }

  /** The pixels plotted by the loop from state `s` on, while x < y. */
  function Arcs(x0: int, y0: int, s: Midpoint): seq<Point>
    decreases s.y - s.x
  {
    if s.x < s.y then
      var n := MidStep(s);
      Reflections(x0, y0, n.x, n.y) + Arcs(x0, y0, n)
    else []
  }

  function CirclePoints(x0: int, y0: int, radius: int): seq<Point> {
    Extremes(x0, y0, radius) + Arcs(x0, y0, CircleStart(radius))
  }

  /** The loop invariant of `circle` at every loop head. */
  ghost predicate MidInvariant(s: Midpoint, radius: int) {
    && s.ddFx == 2 * s.x + 1
    && s.ddFy == -2 * s.y
    && s.f == (s.x + 1) * (s.x + 1) + s.y * s.y - s.y - radius * radius
  }

  /** The loop's initial values (radius >= 0) satisfy the invariant and start on the circle. */
  lemma CircleStartInvariant(radius: int)
    requires radius >= 0
    ensures MidInvariant(CircleStart(radius), radius)
    ensures NearCircle(CircleStart(radius), radius)
  {
  }

  /** The decision terms follow x and y, and y - x strictly decreases (so the loop ends). */
  lemma MidStepKeepsInvariant(s: Midpoint, radius: int)
    requires MidInvariant(s, radius) && s.x < s.y
    ensures MidInvariant(MidStep(s), radius)
    ensures MidStep(s).y - MidStep(s).x < s.y - s.x
  {
    var n := MidStep(s);
    if s.f >= 0 {
      assert (s.y - 1) * (s.y - 1) == s.y * s.y - 2 * s.y + 1;
    }
    assert (s.x + 2) * (s.x + 2) == (s.x + 1) * (s.x + 1) + 2 * s.x + 3;
  }

  /** Where a loop-head state sits relative to the circle: x and y in [0, r],
      and x*x + y*y within y of r*r (strictly below r*r + y while the loop runs). */
  ghost predicate NearCircle(s: Midpoint, radius: int) {
    var g := s.x * s.x + s.y * s.y - radius * radius;
    && 0 <= s.x <= radius && 0 <= s.y <= radius
    && -s.y <= g <= s.y
    && (s.x < s.y ==> g < s.y)
  }

  lemma MidStepNearCircle(s: Midpoint, radius: int)
    requires MidInvariant(s, radius) && NearCircle(s, radius) && s.x < s.y
    ensures NearCircle(MidStep(s), radius)
  {
    var n := MidStep(s);
    var g := s.x * s.x + s.y * s.y - radius * radius;
    assert s.f == g + 2 * s.x + 1 - s.y;
    if s.f >= 0 {
      assert n.x * n.x + n.y * n.y - radius * radius == g + 2 * s.x + 2 - 2 * s.y;
    } else {
      assert n.x * n.x + n.y * n.y - radius * radius == g + 2 * s.x + 1;
    }
  }

  /** p lies in the bounding square of the circle and its squared distance from
      the centre is within radius of radius^2. */
  ghost predicate NearCentre(p: Point, x0: int, y0: int, radius: int) {
    var d := (p.x - x0) * (p.x - x0) + (p.y - y0) * (p.y - y0);
    && x0 - radius <= p.x <= x0 + radius && y0 - radius <= p.y <= y0 + radius
    && radius * radius - radius <= d <= radius * radius + radius
  }

  lemma ReflectionsNear(x0: int, y0: int, x: int, y: int, radius: int)
    requires 0 <= x <= radius && 0 <= y <= radius
    requires -y <= x * x + y * y - radius * radius <= y
    ensures forall p :: p in Reflections(x0, y0, x, y) ==> NearCentre(p, x0, y0, radius)
  {
    assert (-x) * (-x) == x * x && (-y) * (-y) == y * y;
  }

  lemma {:induction false} ArcsNearCircle(x0: int, y0: int, s: Midpoint, radius: int)
    requires MidInvariant(s, radius) && NearCircle(s, radius)
    ensures forall p :: p in Arcs(x0, y0, s) ==> NearCentre(p, x0, y0, radius)
    decreases s.y - s.x
  {
    if s.x < s.y {
      var n := MidStep(s);
      MidStepKeepsInvariant(s, radius);
      MidStepNearCircle(s, radius);
      ArcsNearCircle(x0, y0, n, radius);
      ReflectionsNear(x0, y0, n.x, n.y, radius);
      assert Arcs(x0, y0, s) == Reflections(x0, y0, n.x, n.y) + Arcs(x0, y0, n);
    }
  }

  lemma ExtremesNear(x0: int, y0: int, radius: int)
    requires radius >= 0
    ensures forall p :: p in Extremes(x0, y0, radius) ==> NearCentre(p, x0, y0, radius)
  {
    assert (-radius) * (-radius) == radius * radius;
  }

  /** Every pixel `circle` plots (radius >= 0) lies in the bounding square of the
      circle and at squared distance within radius of radius^2 from the centre,
      i.e. within about half a pixel of the true circle. */
  lemma CircleNearCircle(x0: int, y0: int, radius: int)
    requires radius >= 0
    ensures forall p :: p in CirclePoints(x0, y0, radius) ==> NearCentre(p, x0, y0, radius)
  {
    var s := CircleStart(radius);
    CircleStartInvariant(radius);
    ArcsNearCircle(x0, y0, s, radius);
    ExtremesNear(x0, y0, radius);
  }

  /** The extreme points come first, and for radius 0 the loop never runs:
      the centre is plotted four times. */
  lemma CircleStartsWithExtremes(x0: int, y0: int, radius: int)
    ensures CirclePoints(x0, y0, radius)[..4] == Extremes(x0, y0, radius)
    ensures CirclePoints(x0, y0, 0) == [Point(x0, y0), Point(x0, y0), Point(x0, y0), Point(x0, y0)]
  {
  }
}
