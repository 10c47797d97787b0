# Qwiic Micro OLED driver: the screen buffer and its drawing operations

This project models the in-memory half of the `QwiicMicroOled` driver for a
64x48 monochrome OLED panel. The driver keeps a packed 1-bit screen buffer of
64 * 6 = 384 bytes. Pixel (x, y) is bit y % 8 of byte x + (y / 8) * 64. Every
drawing operation mutates this buffer in place, one `pixel` call at a time:
`pixel`, `line`, `lineH`, `lineV`, `rect`, `rectFill`, `circle`, `drawChar`,
`write` and `print`. The whole-buffer operations `clear(PAGE, v)` and
`drawBitmap` replace it outright. The driver also keeps a text cursor, a
foreground colour, a draw mode and a current font. `display` ships the
buffer to the controller in bulk writes of 32 bytes, two per 64-byte page;
here that is modelled as a pure transfer plan.

Layout:

- `framebuffer.dfy` (module `Framebuffer`): the buffer layout, one plot
  (`Plot`, the driver's `pixel`) and a sequence of plots (`Paint`), with
  lemmas giving their pixel-level meaning.
- `raster.dfy` (module `Raster`): the pixel sequences that `line`, `lineH`,
  `lineV`, `rect`, `rectFill` and `circle` ask for, and their geometry.
- `glyphs.dfy` (module `Glyphs`): fonts, the glyph-offset arithmetic, and the
  dots `drawChar` asks for, with what they do to each pixel of the cell.
- `text.dfy` (module `Text`): the cursor arithmetic of `write` and `print`.
- `transfer.dfy` (module `Transfer`): `display` and `setColumnAddress` as
  data.
- `oled.dfy` (module `MicroOled`): the driver as a class. The buffer is an
  `array<bv8>` updated in place. The cursor, colour, mode and font are fields.
  Each drawing method is proved to leave the buffer equal to `Paint` of the
  old buffer with its shape's dot sequence.

Colours and modes are plain integers, as in the source. A colour is "on" only
when it equals WHITE (1). A mode is XOR only when it equals XOR (1); any other
mode behaves as NORM. XOR with a colour other than WHITE changes nothing.
`drawChar` draws clear glyph bits in `~color & 0xFF`, which is never WHITE
when the colour is BLACK or WHITE. So for those colours, clear bits are
cleared under NORM and left alone under XOR. Any colour congruent to 254
modulo 256 makes `~color & 0xFF` WHITE, and then the clear bits are set
under NORM and toggled under XOR (`Glyphs.Inverse`).

Two behaviours of the code are worth stating, because a reader might expect
otherwise:

- The comment above `line` (qwiic_micro_oled/qwiic_micro_oled.py:384) says it
  draws "from x0,y0 to x1,y1", but `line` never plots its far endpoint. The
  loop runs `while x0 < x1`, so `line(0, 0, 5, 0)` plots x = 0..4
  (`Raster.LineExamples`).
- `setFontType` with an in-range type stores the type and the looked-up font
  before it tests the font for None. A missing font therefore leaves the
  driver with no font and the new type, and the call returns false.

## Model

| member | source | states |
|---|---|---|
| Framebuffer.PlotByte | qwiic_micro_oled/qwiic_micro_oled.py:374-382 | only bit k of the byte can change. It becomes `Effect` of the old bit: set for NORM+WHITE, cleared for NORM with any other colour, toggled for XOR+WHITE, kept for XOR with any other colour |
| Framebuffer.Plot | qwiic_micro_oled/qwiic_micro_oled.py:367-368 | a pixel outside [0,64)x[0,48) leaves the buffer unchanged, and the buffer keeps its 384 bytes |
| Framebuffer.PlotPixel | qwiic_micro_oled/qwiic_micro_oled.py:367-382 | one `pixel` call changes at most the pixel it names, in the way `Effect` says; every other pixel of the buffer keeps its value |
| Framebuffer.PixelsDetermineBuffer | qwiic_micro_oled/qwiic_micro_oled.py:182 | the 384 bytes are exactly the 64x48 pixels at x + (y / 8) * 64, bit y % 8: two buffers that agree on every pixel are equal |
| Framebuffer.Filled | qwiic_micro_oled/qwiic_micro_oled.py:277 | the buffer `clear(PAGE, v)` leaves: 384 bytes, each equal to v |
| Framebuffer.ClearedPixels | qwiic_micro_oled/qwiic_micro_oled.py:277 | after `clear(PAGE, 0)` every pixel is off; after `clear(PAGE, 0xFF)` every pixel is on |
| Framebuffer.PaintAppend | qwiic_micro_oled/qwiic_micro_oled.py:461-472 | making one batch of `pixel` calls and then another is the same as making the concatenated batch, which is how `rect`, `rectFill` and `print` build on the calls they make |
| Framebuffer.PaintAt | qwiic_micro_oled/qwiic_micro_oled.py:374-382 | the value of a pixel after a run of `pixel` calls. Under NORM the last call that hits the pixel decides it. Under XOR, with calls that hit distinct pixels, the one call that hits it applies `Effect` once. A pixel no call hits keeps its value |
| Framebuffer.PaintShape | qwiic_micro_oled/qwiic_micro_oled.py:374-382 | drawing a shape in one colour applies `Effect` to each of its points and leaves every other pixel alone. Under XOR this needs a shape without repeated points |
| Raster.SetupFacts | qwiic_micro_oled/qwiic_micro_oled.py:394-410 | after the steep transpose and the endpoint swap, x0 <= x1 and dx = max(abs(x1-x0), abs(y1-y0)). Also dy <= dx, ystep points toward y1, and the two endpoints are the call's own two points |
| Raster.SetupNormalised | qwiic_micro_oled/qwiic_micro_oled.py:394-410 | the normalised constants and the initial err = dx // 2 satisfy the loop invariant of `line` |
| Raster.StepKeepsInvariant | qwiic_micro_oled/qwiic_micro_oled.py:413-424 | one loop iteration keeps err in [0, dx) and err = dx/2 - k*dy + m*dx, with k major and m minor steps taken |
| Raster.ExitReachesEnd | qwiic_micro_oled/qwiic_micro_oled.py:413-424 | `line`'s loop stops with the major coordinate at x1 and the minor coordinate at y1 |
| Raster.TraceShape | qwiic_micro_oled/qwiic_micro_oled.py:413-424 | the loop plots x1 - x pixels, one per major coordinate in order. The first plot is at the current minor coordinate, and each step moves the minor coordinate by 0 or ystep |
| Raster.LineShape | qwiic_micro_oled/qwiic_micro_oled.py:386-424 | `line` plots exactly max(abs(x1-x0), abs(y1-y0)) pixels, one per major coordinate, starting at the near endpoint. The minor coordinate moves at most 1 per step, the far endpoint is never plotted, and no pixel is plotted twice |
| Raster.LineLoopEnds | qwiic_micro_oled/qwiic_micro_oled.py:413-424 | at loop exit the error term is still in [0, dx), and the loop variables name the far endpoint |
| Raster.LineExamples | qwiic_micro_oled/qwiic_micro_oled.py:413 | `line(0, 0, 5, 0)` plots x = 0..4, and a zero-length line plots nothing |
| Raster.HLineSpan | qwiic_micro_oled/qwiic_micro_oled.py:428-436 | `lineH(x, y, width)` plots the abs(width) pixels of row y from min(x, x + width), left to right |
| Raster.VLineSpan | qwiic_micro_oled/qwiic_micro_oled.py:441-449 | `lineV(x, y, height)` plots the abs(height) pixels of column x from min(y, y + height), top to bottom |
| Raster.HLineMembers | qwiic_micro_oled/qwiic_micro_oled.py:428-436 | for width >= 0, `lineH` plots exactly the pixels [x, x+width) of row y, each once |
| Raster.VLineMembers | qwiic_micro_oled/qwiic_micro_oled.py:441-449 | for either sign of height, `lineV` plots exactly the pixels of column x in its run, each once, abs(height) in all |
| Raster.RectOutline | qwiic_micro_oled/qwiic_micro_oled.py:453-472 | for width, height >= 2, `rect` plots every pixel of the outline of [x, x+width) x [y, y+height) exactly once, and nothing else |
| Raster.RectHeightOne | qwiic_micro_oled/qwiic_micro_oled.py:461-469 | with height 1, `rect` draws the same row twice and no sides |
| Raster.RectHeightOneXor | qwiic_micro_oled/qwiic_micro_oled.py:461-469 | for width >= 0, a WHITE `rect` of height 1 under XOR toggles its row twice and leaves the buffer unchanged |
| Raster.FillExact | qwiic_micro_oled/qwiic_micro_oled.py:476-486 | `rectFill` plots every pixel of [x, x+width) x (the rows `lineV` covers) exactly once, and nothing else |
| Raster.FillLength | qwiic_micro_oled/qwiic_micro_oled.py:476-486 | `rectFill` makes max(width, 0) * abs(height) `pixel` calls |
| Raster.CircleStartInvariant | qwiic_micro_oled/qwiic_micro_oled.py:499-503 | for radius >= 0, the initial f, ddF_x, ddF_y, x and y satisfy the loop invariant, and (0, radius) lies on the circle |
| Raster.MidStepKeepsInvariant | qwiic_micro_oled/qwiic_micro_oled.py:510-518 | one iteration of `circle`'s loop keeps the invariant, which with `CircleStartInvariant` holds at every loop head: ddF_x = 2x+1, ddF_y = -2y and f = (x+1)^2 + y^2 - y - r^2. y - x strictly decreases, so the loop ends |
| Raster.MidStepNearCircle | qwiic_micro_oled/qwiic_micro_oled.py:510-518 | x and y stay in [0, r], and x^2 + y^2 stays within y of r^2 |
| Raster.ArcsNearCircle | qwiic_micro_oled/qwiic_micro_oled.py:510-528 | every reflection the loop plots lies within the bounding square, at squared distance within r of r^2 from the centre |
| Raster.CircleNearCircle | qwiic_micro_oled/qwiic_micro_oled.py:490-528 | for radius >= 0, every pixel `circle` plots lies within the bounding square, at squared distance within radius of radius^2 from the centre |
| Raster.CircleStartsWithExtremes | qwiic_micro_oled/qwiic_micro_oled.py:505-510 | the four extreme points come first, and for radius 0 the centre is plotted four times |
| Glyphs.Rows | qwiic_micro_oled/qwiic_micro_oled.py:613-616 | `rowsToDraw` is at least 1. It is 1 for heights below 16, and otherwise the largest n with 8n <= height |
| Glyphs.CharsPerRow | qwiic_micro_oled/qwiic_micro_oled.py:619 | `charPerRow` is at least 1 and is the floor quotient: n * width <= map_width < (n + 1) * width |
| Glyphs.Inverse | qwiic_micro_oled/qwiic_micro_oled.py:635 | `~color & 0xFF` is in [0, 255] and adds up with color mod 256 to 255. It equals WHITE only for a colour congruent to 254 |
| Glyphs.GlyphColorAt | qwiic_micro_oled/qwiic_micro_oled.py:626-636 | `drawChar` hits each pixel of the character cell exactly once, in the glyph colour for a set bit and the inverse colour for a clear one, and hits nothing outside the cell |
| Glyphs.DrawGlyphPixel | qwiic_micro_oled/qwiic_micro_oled.py:626-636 | the value of every pixel after `drawChar`, for any colour and mode |
| Glyphs.MissingGlyph | qwiic_micro_oled/qwiic_micro_oled.py:607-608 | a code outside [start_char, start_char + total_char - 1] draws nothing |
| Glyphs.DrawWhiteNorm | qwiic_micro_oled/qwiic_micro_oled.py:626-636 | under NORM+WHITE each pixel of the cell ends equal to its glyph bit, and the rest is untouched |
| Glyphs.DrawBlackNorm | qwiic_micro_oled/qwiic_micro_oled.py:626-636 | under NORM+BLACK the whole cell is cleared |
| Glyphs.DrawWhiteXor | qwiic_micro_oled/qwiic_micro_oled.py:626-636 | under XOR+WHITE exactly the set glyph bits toggle |
| Glyphs.DrawBlackXor | qwiic_micro_oled/qwiic_micro_oled.py:626-636 | under XOR+BLACK the buffer is unchanged |
| Glyphs.GlyphFootprint | qwiic_micro_oled/qwiic_micro_oled.py:626-636 | `drawChar` changes no pixel outside rows [y, y + 8 * rowsToDraw), or outside the columns of the strip covering the pixel's row |
| Text.AdvanceBounds | qwiic_micro_oled/qwiic_micro_oled.py:322-335 | a newline moves the cursor to x = 0 of the next text line, and a carriage return keeps it. A character moves it width + 1 right, or wraps it to x = 0 of the next line, so x ends up 0 or at most 64 - width |
| Text.CursorNeverRises | qwiic_micro_oled/qwiic_micro_oled.py:322-335 | with a non-negative font height, writing never moves the cursor up |
| Text.TypeAppend | qwiic_micro_oled/qwiic_micro_oled.py:346-347 | printing two texts one after the other is printing their concatenation: same cursor, same dots |
| Text.ReturnsDoNothing | qwiic_micro_oled/qwiic_micro_oled.py:324-335 | carriage returns neither draw nor move the cursor |
| Text.PrintedNewline | qwiic_micro_oled/qwiic_micro_oled.py:324-347 | `print` hands byte 10 to `write` as a character code, which moves right like any glyph, while `write('\n')` starts a new line |
| Text.Bytes | qwiic_micro_oled/qwiic_micro_oled.py:346-347 | `print` passes each byte of the text, in order, as a character code |
| Transfer.Or16 | qwiic_micro_oled/qwiic_micro_oled.py:262 | `0x10 OR h` keeps the low nibble of h, sets bit 4, and keeps the bits above bit 4 |
| Transfer.ColumnAddressMeaning | qwiic_micro_oled/qwiic_micro_oled.py:261-263 | for add < 224, the two column commands are a high-nibble command 0x1h and a low-nibble command 0x0l that address column add + 32 |
| Transfer.PageBlock | qwiic_micro_oled/qwiic_micro_oled.py:310-318 | each bulk write starts at a column that is a multiple of 32 and carries at most 32 bytes |
| Transfer.Plan | qwiic_micro_oled/qwiic_micro_oled.py:302-318 | `display` makes 6 * 2 bulk writes |
| Transfer.PlanBlocks | qwiic_micro_oled/qwiic_micro_oled.py:307-318 | bulk write n goes to page n / 2 and column (n % 2) * 32, and carries buffer bytes [32n, 32n + 32) |
| Transfer.PlanSendsBuffer | qwiic_micro_oled/qwiic_micro_oled.py:295-318 | the bulk writes of `display`, concatenated in order, are exactly the screen buffer |
| MicroOled.Oled.constructor | qwiic_micro_oled/qwiic_micro_oled.py:180-200 | a new driver holds the splash screen, cursor (0, 0), WHITE, NORM, font type 0 and no font |
| MicroOled.Oled.SetCursor | qwiic_micro_oled/qwiic_micro_oled.py:353-355 | sets the cursor and nothing else |
| MicroOled.Oled.SetColor | qwiic_micro_oled/qwiic_micro_oled.py:586-587 | sets the foreground colour and nothing else |
| MicroOled.Oled.SetDrawMode | qwiic_micro_oled/qwiic_micro_oled.py:591-592 | sets the draw mode and nothing else |
| MicroOled.Oled.SetFontType | qwiic_micro_oled/qwiic_micro_oled.py:572-582 | the result is true exactly when the type is in [0, nFonts) and has a font. Out of range, type and font are unchanged. In range, both are set, even to a missing font |
| MicroOled.Oled.Clear | qwiic_micro_oled/qwiic_micro_oled.py:268-277 | `clear(PAGE, v)` makes every byte v, and `clear(PAGE)` makes every byte 0; `clear(ALL)` leaves the buffer alone |
| MicroOled.Oled.DrawBitmap | qwiic_micro_oled/qwiic_micro_oled.py:684-690 | a 384-byte bitmap becomes the buffer; any other length leaves it unchanged |
| MicroOled.Oled.Pixel | qwiic_micro_oled/qwiic_micro_oled.py:359-382 | the buffer becomes `Plot` of the old buffer at (x, y), with the current colour and mode standing in for missing ones |
| MicroOled.Oled.Line | qwiic_micro_oled/qwiic_micro_oled.py:386-424 | the buffer becomes the old buffer painted with `LinePoints`, the Bresenham trace whose shape `Raster.LineShape` gives |
| MicroOled.Oled.LineH | qwiic_micro_oled/qwiic_micro_oled.py:428-436 | the buffer becomes the old buffer painted with the row run `HLine` |
| MicroOled.Oled.LineV | qwiic_micro_oled/qwiic_micro_oled.py:441-449 | the buffer becomes the old buffer painted with the column run `VLine` |
| MicroOled.Oled.Rect | qwiic_micro_oled/qwiic_micro_oled.py:453-472 | the buffer becomes the old buffer painted with `RectPoints`: the two rows, then the sides when height - 2 >= 1 |
| MicroOled.Oled.RectFill | qwiic_micro_oled/qwiic_micro_oled.py:476-486 | the buffer becomes the old buffer painted with `FillPoints`, one column run per column of [x, x+width) |
| MicroOled.Oled.Circle | qwiic_micro_oled/qwiic_micro_oled.py:490-528 | the buffer becomes the old buffer painted with `CirclePoints`: the four extremes, then eight reflections per loop iteration |
| MicroOled.Oled.PixelRun | qwiic_micro_oled/qwiic_micro_oled.py:505-508 | a run of `pixel` calls paints its points in order |
| MicroOled.Oled.DrawChar | qwiic_micro_oled/qwiic_micro_oled.py:596-636 | without a font the buffer is unchanged. With one, the buffer becomes the old buffer painted with `GlyphDots`, whose pixel meaning the `Glyphs` lemmas give |
| MicroOled.Oled.DrawStrip | qwiic_micro_oled/qwiic_micro_oled.py:629-636 | one strip of a glyph: column i of the block goes to column x + i, from row top down |
| MicroOled.Oled.DrawBits | qwiic_micro_oled/qwiic_micro_oled.py:632-636 | the 8 bits of one glyph byte go to rows top .. top + 7, in the glyph or the inverse colour |
| MicroOled.Oled.Write | qwiic_micro_oled/qwiic_micro_oled.py:322-335 | returns 1. The cursor moves as `Text.Advance` says, the buffer is painted with the glyph at the old cursor, and colour, mode and font are unchanged |
| MicroOled.Oled.Print | qwiic_micro_oled/qwiic_micro_oled.py:337-347 | `write` of each byte in order: the cursor ends at `TypeCursor` and the buffer is painted with `TypeDots` |
| MicroOled.TraceStep | qwiic_micro_oled/qwiic_micro_oled.py:413-424 | one pass of `line`'s loop plots the next point of the trace and leaves the rest to be traced from the updated x0, y0 and err |
| MicroOled.ArcsStep | qwiic_micro_oled/qwiic_micro_oled.py:510-528 | one pass of `circle`'s loop plots the eight reflections of the updated (x, y) and leaves the rest of the arcs to be traced from the updated variables |
| MicroOled.GlyphStart | qwiic_micro_oled/qwiic_micro_oled.py:610-623 | `drawChar`'s iStart = rowPos * charPerRow * height // 8 + colPos is `Glyphs.GlyphOffset` |
| MicroOled.StripAt | qwiic_micro_oled/qwiic_micro_oled.py:626-629 | the block fetched for `row` is strip `row` of the glyph |

## Left out

- I²C traffic is not modelled: `begin`, `clear(ALL)`'s writes, `invert`, `contrast`, scrolling, flipping, `setPageAddress`, `isConnected`, and loading the bus driver. `display` appears only as the data it would send.
- The contents of the font module and of the splash screen are not modelled. A font is a record with a block lookup `block(k)` for `font[k]`. The splash screen is any 384-byte buffer, and the font catalogue is a constructor argument.
- Float coordinates are not modelled. `pixel`'s `int()` truncation after the bounds check is a no-op on integer coordinates, which are the only ones the model takes.
- The buffer holds bytes (`bv8`). The source's list can hold any integer that `clear` or `drawBitmap` is given, and the model does not cover values outside 0..255.
- `print`'s conversion of scalars and strings to bytes is not modelled: `print` takes a byte string.
- `write` given a one-character string is modelled as `Newline`, `Return` or a character code. Under Python 3 a string other than a newline or a carriage return would fail in `drawChar`'s comparison with `start_char`. The model draws its code instead.
- MicroOled.Oled.Write: writing anything but a carriage return without a font raises AttributeError in the source; the model makes a font a precondition instead.
- MicroOled.Oled.Print: for the same reason, a non-empty text needs a font.
- MicroOled.Oled.DrawChar: `Glyphs.ValidFont` requires every font the driver holds to satisfy 0 < width <= map width, and other fonts are not modelled. With a zero width the source divides by zero. With a positive width and 0 <= map width < width, `charPerRow = map_width // width` is 0, and the source divides by zero again. A negative width, or a positive width with a negative map width, makes one of `map_width // width`, `tempC // charPerRow` and `tempC % charPerRow` a floor division by a negative number. There Python's `//` and `%` differ from Dafny's Euclidean `/` and `%`: -7 // -2 is 3 in Python, and -7 / -2 is 4 in Dafny. Some of these fonts divide by zero in the source: width < map width <= 0 makes `charPerRow` 0, for example -1 // -2 == 0. The rest are left out because of the differing division.
- The broken accessors `getTotalFonts` (undefined name) and `getScreenBuffer` (returns nothing), and the remaining getters, are not modelled.
- `drawBitmap`'s error message, which itself raises, is not modelled; a wrong-sized bitmap is just refused.
- `circle`'s twelve unrolled `pixel` calls are modelled as `PixelRun` over the four extreme points and over the eight reflections.
- `drawChar`'s three nested loops are modelled as `DrawChar`, `DrawStrip` and `DrawBits`, one loop each. `DrawBits` plots at row top + j with top = y + row * 8, which is the source's y + j + row * 8.
- The example scripts (random numbers, sleeps, trigonometry, hardware) are not modelled.
