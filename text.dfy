/** The text cursor of `write` and `print`: where each character is drawn and
    where the cursor goes next. */
module Text {
  import opened Framebuffer
  import opened Glyphs

  /** What `write` is given: a newline, a carriage return, or a character code. */
  datatype Char = Newline | Return | Code(code: int)

  datatype Cursor = Cursor(x: int, y: int)

  /** The cursor after `write(c)` from `cur`: a newline moves to the start of the
      next text line; a carriage return does nothing; any other character moves
      right by width + 1 and wraps to the next text line once x exceeds 64 - width. */
  function Advance(f: Font, cur: Cursor, c: Char): Cursor {
    match c
    case Newline => Cursor(0, cur.y + f.height)
    case Return => cur
    case Code(_) =>
      var x := cur.x + f.width + 1;
      if x > Width - f.width then Cursor(0, cur.y + f.height) else Cursor(x, cur.y)
  }

  /** The dots `write(c)` draws: the glyph at the old cursor, for a character code. */
  function Written(f: Font, cur: Cursor, c: Char, color: int): seq<Dot>
    requires ValidFont(f)
  {
    if c.Code? then GlyphDots(f, cur.x, cur.y, c.code, color) else []
  }

  /** The cursor after writing cs in order. */
  function TypeCursor(f: Font, cur: Cursor, cs: seq<Char>): Cursor
    decreases |cs|
  {
    if |cs| == 0 then cur else Advance(f, TypeCursor(f, cur, cs[..|cs| - 1]), cs[|cs| - 1])
  }

  /** The dots drawn by writing cs in order. */
  function TypeDots(f: Font, cur: Cursor, cs: seq<Char>, color: int): seq<Dot>
    requires ValidFont(f)
    decreases |cs|
  {
    if |cs| == 0 then []
    else TypeDots(f, cur, cs[..|cs| - 1], color) + Written(f, TypeCursor(f, cur, cs[..|cs| - 1]), cs[|cs| - 1], color)
  }

  /** `print` of a byte string: each byte is passed to `write` as a character code,
      so a newline or carriage-return byte is drawn as a glyph, not obeyed. */
  function Bytes(text: seq<bv8>): (cs: seq<Char>)
    ensures |cs| == |text|
    ensures forall i :: 0 <= i < |cs| ==> cs[i] == Code(text[i] as int)
  {
    seq(|text|, i requires 0 <= i < |text| => Code(text[i] as int))
  }

  // ---------------------------------------------------------------- lemmas

  /** After a character code the cursor is at the left margin of the next text
      line, or still on the same line and at most 64 - width across; after a
      newline it is at the left margin of the next line. */
  lemma AdvanceBounds(f: Font, cur: Cursor, c: Char)
    ensures c.Code? ==> Advance(f, cur, c).x == 0 || Advance(f, cur, c).x <= Width - f.width
    ensures c.Code? && Advance(f, cur, c).x != 0 ==> Advance(f, cur, c) == Cursor(cur.x + f.width + 1, cur.y)
    ensures c.Code? && Advance(f, cur, c).x == 0 && cur.x + f.width + 1 != 0 ==> Advance(f, cur, c).y == cur.y + f.height
    ensures c.Newline? ==> Advance(f, cur, c) == Cursor(0, cur.y + f.height)
    ensures c.Return? ==> Advance(f, cur, c) == cur
  {
  }

  /** With a non-negative font height the cursor never moves up. */
  lemma {:induction false} CursorNeverRises(f: Font, cur: Cursor, cs: seq<Char>)
    requires f.height >= 0
    ensures TypeCursor(f, cur, cs).y >= cur.y
    decreases |cs|
  {
    if |cs| > 0 {
      CursorNeverRises(f, cur, cs[..|cs| - 1]);
    }
  }

  /** Writing a text and then another is writing their concatenation. */
  lemma {:induction false} TypeAppend(f: Font, cur: Cursor, cs: seq<Char>, ds: seq<Char>, color: int)
    requires ValidFont(f)
    ensures TypeCursor(f, cur, cs + ds) == TypeCursor(f, TypeCursor(f, cur, cs), ds)
    ensures TypeDots(f, cur, cs + ds, color) == TypeDots(f, cur, cs, color) + TypeDots(f, TypeCursor(f, cur, cs), ds, color)
    decreases |ds|
  {
    if |ds| == 0 {
      assert cs + ds == cs;
    } else {
      var ds' := ds[..|ds| - 1];
      assert (cs + ds)[..|cs + ds| - 1] == cs + ds';
      TypeAppend(f, cur, cs, ds', color);
    }
  }

  /** Carriage returns neither draw nor move the cursor. */
  lemma {:induction false} ReturnsDoNothing(f: Font, cur: Cursor, cs: seq<Char>, color: int)
    requires ValidFont(f)
    requires forall i :: 0 <= i < |cs| ==> cs[i] == Return
    ensures TypeCursor(f, cur, cs) == cur && TypeDots(f, cur, cs, color) == []
    decreases |cs|
  {
    if |cs| > 0 {
      ReturnsDoNothing(f, cur, cs[..|cs| - 1], color);
    }
  }

  /** `print` never obeys a newline byte: byte 10 moves the cursor like any other
      character code (contrast `write(Newline)`). */
  lemma PrintedNewline(f: Font, cur: Cursor)
    requires f.width >= 0 && cur.x + f.width + 1 <= Width - f.width
    ensures TypeCursor(f, cur, Bytes([10])) == Cursor(cur.x + f.width + 1, cur.y)
    ensures Advance(f, cur, Newline) == Cursor(0, cur.y + f.height)
  {
    assert Bytes([10]) == [Code(10)];
    assert Bytes([10])[..0] == [];
  }
}
