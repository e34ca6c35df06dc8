/** Pixel buffers of the 640x384 console, and what it means for one to show a text grid. */
module Pixels {
  import opened TextGrid

  type Pixel = nat

  const WIDTH: nat := 640
  const HEIGHT: nat := 384
  const GLYPH_WIDTH: nat := 8
  const GLYPH_HEIGHT: nat := 16
  const LINE: nat := 10240   // pixels in a line of text
  const FILL: Pixel := 0x00ffffff

  /** gFont: sixteen bytes a glyph, one a pixel row, for the 128 ASCII characters. */
  type Glyphs = seq<nat>

  /** The glyphs of BS and of the space are empty. */
  predicate FontOk(font: Glyphs) {
    |font| == 128 * GLYPH_HEIGHT &&
    (forall k | GLYPH_HEIGHT * 8 <= k < GLYPH_HEIGHT * 9 :: font[k] == 0) &&
    (forall k | GLYPH_HEIGHT * 32 <= k < GLYPH_HEIGHT * 33 :: font[k] == 0)
  }

  function Pow2(k: nat): nat {
    if k == 0 then 1 else 2 * Pow2(k - 1)
  }

  lemma {:induction false} Pow2Positive(k: nat)
    ensures Pow2(k) > 0
  {
    if k > 0 {
      Pow2Positive(k - 1);
    }
  }

  /** The bit test `glyph[y] & (1 << (7 - x))`. */
  function GlyphBit(font: Glyphs, c: char, x: nat, y: nat): bool
    requires FontOk(font) && x < GLYPH_WIDTH && y < GLYPH_HEIGHT && c as int < 128
  {
    Pow2Positive(7 - x);
    font[GLYPH_HEIGHT * c as int + y] / Pow2(7 - x) % 2 == 1
  }

  function Shade(fill: bool): Pixel {
    if fill then FILL else 0
  }

  function Col(i: nat): (x: nat)
    ensures x < WIDTH
  {
    i % WIDTH
  }

  function Line(i: nat): (y: nat)
    ensures i < WIDTH * HEIGHT ==> y < HEIGHT
  {
    i / WIDTH
  }

  /** The buffer index of column `x`, line `y`. */
  function Index(x: nat, y: nat): (i: nat)
    requires x < WIDTH && y < HEIGHT
    ensures i < WIDTH * HEIGHT && Col(i) == x && Line(i) == y
  {
    y * WIDTH + x
  }

  /** All characters of the grid are ASCII, as the font needs. */
  predicate Printable(t: Term) {
    t.Valid() && forall r, x | 0 <= r < ROWS && 0 <= x < COLUMNS :: t.rows[r][x] as int < 128
  }

  /** The pixel at buffer index `i` of the rendering of `t`. */
  function Rendered(font: Glyphs, t: Term, i: nat): Pixel
    requires FontOk(font) && Printable(t) && i < WIDTH * HEIGHT
  {
    var x, y := Col(i), Line(i);
    Shade(GlyphBit(font, t.rows[y / GLYPH_HEIGHT][x / GLYPH_WIDTH], x % GLYPH_WIDTH, y % GLYPH_HEIGHT))
  }

  predicate Shows(buf: seq<Pixel>, font: Glyphs, t: Term) {
    FontOk(font) && Printable(t) && |buf| == WIDTH * HEIGHT &&
    forall i | 0 <= i < |buf| :: buf[i] == Rendered(font, t, i)
  }

  // ----- the effect of the drawing steps -----

  /** scroll_up: one line of text up, the bottom line cleared. */
  predicate ScrolledUp(before: seq<Pixel>, after: seq<Pixel>) {
    |before| == |after| == WIDTH * HEIGHT &&
    forall i | 0 <= i < |after| :: after[i] == if i < WIDTH * HEIGHT - LINE then before[i + LINE] else 0
  }

  /** Index `i` belongs to the glyph cell of column `cell` on the bottom line. */
  predicate InCell(i: nat, cell: nat) {
    Line(i) >= HEIGHT - GLYPH_HEIGHT && GLYPH_WIDTH * cell <= Col(i) < GLYPH_WIDTH * (cell + 1)
  }

  /** The glyph pixel of `c` that falls on index `i` of the cell. */
  function CellShade(font: Glyphs, c: char, cell: nat, i: nat): Pixel
    requires FontOk(font) && c as int < 128 && i < WIDTH * HEIGHT && InCell(i, cell)
  {
    Shade(GlyphBit(font, c, Col(i) - GLYPH_WIDTH * cell, Line(i) - (HEIGHT - GLYPH_HEIGHT)))
  }

  predicate CellDrawn(before: seq<Pixel>, after: seq<Pixel>, font: Glyphs, c: char, cell: nat)
    requires FontOk(font) && c as int < 128
  {
    |before| == |after| == WIDTH * HEIGHT &&
    forall i | 0 <= i < |after| :: after[i] == if InCell(i, cell) then CellShade(font, c, cell, i) else before[i]
  }

  lemma BlankRendersDark(font: Glyphs, c: char, x: nat, y: nat)
    requires FontOk(font) && x < GLYPH_WIDTH && y < GLYPH_HEIGHT && (c == BS || c == ' ')
    ensures !GlyphBit(font, c, x, y)
  {
    Pow2Positive(7 - x);
  }

  lemma ScrollRendered(font: Glyphs, t: Term, i: nat)
    requires FontOk(font) && Printable(t) && i < WIDTH * HEIGHT && Printable(Scroll(t))
    ensures Rendered(font, Scroll(t), i) == if i < WIDTH * HEIGHT - LINE then Rendered(font, t, i + LINE) else 0
  {
    hide GlyphBit, FontOk;
    var x, y := Col(i), Line(i);
    if i < WIDTH * HEIGHT - LINE {
      assert Line(i + LINE) == y + 16 && Col(i + LINE) == x;
      assert Scroll(t).rows[y / 16] == t.rows[y / 16 + 1];
    } else {
      BlankRendersDark(font, ' ', x % GLYPH_WIDTH, y % GLYPH_HEIGHT);
      assert y / 16 == 23;
    }
  }

  lemma ScrollShows(before: seq<Pixel>, after: seq<Pixel>, font: Glyphs, t: Term)
    requires Shows(before, font, t) && ScrolledUp(before, after)
    ensures Shows(after, font, Scroll(t))
  {
    hide Rendered, FontOk;
    assert Printable(Scroll(t)) by {
      ScrollPrintable(t);
    }
    forall i | 0 <= i < |after|
      ensures after[i] == Rendered(font, Scroll(t), i)
    {
      ScrollRendered(font, t, i);
    }
  }

  lemma ScrollPrintable(t: Term)
    requires Printable(t)
    ensures Printable(Scroll(t))
  {
  }

  lemma PutPrintable(t: Term, x: nat, c: char)
    requires Printable(t) && x < COLUMNS && c as int < 128
    ensures Printable(Put(t, x, c))
  {
  }

  lemma PutRendered(font: Glyphs, t: Term, cell: nat, c: char, i: nat)
    requires FontOk(font) && Printable(t) && cell < COLUMNS && c as int < 128 && i < WIDTH * HEIGHT
    requires Printable(Put(t, cell, c))
    ensures Rendered(font, Put(t, cell, c), i) ==
            if InCell(i, cell) then CellShade(font, c, cell, i) else Rendered(font, t, i)
  {
    hide GlyphBit, FontOk;
    var x, y := Col(i), Line(i);
    if InCell(i, cell) {
      assert y / 16 == 23 && x / 8 == cell;
      assert y % 16 == y - 368 && x % 8 == x - 8 * cell;
    } else if y >= 368 {
      assert y / 16 == 23 && x / 8 != cell;
    }
  }

  lemma PutShows(before: seq<Pixel>, after: seq<Pixel>, font: Glyphs, t: Term, cell: nat, c: char)
    requires Shows(before, font, t) && cell < COLUMNS && c as int < 128 && CellDrawn(before, after, font, c, cell)
    ensures Shows(after, font, Put(t, cell, c))
  {
    hide Rendered, FontOk, CellShade, InCell;
    PutPrintable(t, cell, c);
    forall i | 0 <= i < |after|
      ensures after[i] == Rendered(font, Put(t, cell, c), i)
    {
      PutRendered(font, t, cell, c, i);
    }
  }

  /** BS draws its own glyph, which is as empty as the space the grid stores. */
  lemma BackspaceDrawsBlank(before: seq<Pixel>, after: seq<Pixel>, font: Glyphs, cell: nat)
    requires FontOk(font) && CellDrawn(before, after, font, BS, cell)
    ensures CellDrawn(before, after, font, ' ', cell)
  {
    hide GlyphBit, FontOk;
    forall i | 0 <= i < |after| && InCell(i, cell)
      ensures CellShade(font, BS, cell, i) == CellShade(font, ' ', cell, i)
    {
      var x, y := Col(i) - GLYPH_WIDTH * cell, Line(i) - (HEIGHT - GLYPH_HEIGHT);
      BlankRendersDark(font, BS, x, y);
      BlankRendersDark(font, ' ', x, y);
    }
  }

  lemma BlackShowsBlank(buf: seq<Pixel>, font: Glyphs)
    requires FontOk(font) && |buf| == WIDTH * HEIGHT && forall i | 0 <= i < |buf| :: buf[i] == 0
    ensures Shows(buf, font, Blank())
  {
    hide GlyphBit, FontOk;
    forall i | 0 <= i < |buf|
      ensures Rendered(font, Blank(), i) == 0
    {
      BlankRendersDark(font, ' ', Col(i) % GLYPH_WIDTH, Line(i) % GLYPH_HEIGHT);
    }
  }

  lemma ShowsFacts(buf: seq<Pixel>, font: Glyphs, t: Term)
    requires Shows(buf, font, t)
    ensures FontOk(font) && Printable(t) && t.Valid()
  {
  }

  /** The cursor is not drawn. */
  lemma CursorNotShown(buf: seq<Pixel>, font: Glyphs, t: Term, cursor: nat)
    requires Shows(buf, font, t) && cursor <= COLUMNS
    ensures Shows(buf, font, t.(cursor := cursor))
  {
    hide GlyphBit, FontOk;
  }

  /** A text grid has one rendering. */
  lemma SameTextSamePixels(a: seq<Pixel>, b: seq<Pixel>, font: Glyphs, t: Term)
    requires Shows(a, font, t) && Shows(b, font, t)
    ensures a == b
  {
    hide Rendered;
  }
}
