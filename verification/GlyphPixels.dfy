/** The bits of the font against the pixels of the screen (src/graphics.c:55-63,
    src/graphics.c:107-111). */
module GlyphPixels {
  import opened TextGrid
  import opened Pixels
  import opened Console

  /** Pixels read left to right as binary digits, the most significant first. */
  function Binary(ps: seq<Pixel>): nat {
    if ps == [] then 0
    else 2 * Binary(ps[..|ps| - 1]) + if ps[|ps| - 1] == 0x00ff_ffff then 1 else 0
  }

  /** Eight pixels, each white or black, that spell the byte `b`. */
  predicate Spells(ps: seq<Pixel>, b: nat) {
    |ps| == 8 && (forall i | 0 <= i < 8 :: ps[i] == 0x00ff_ffff || ps[i] == 0) && Binary(ps) == b
  }

  lemma BinaryStep(ps: seq<Pixel>, k: nat)
    requires k < |ps|
    ensures Binary(ps[..k + 1]) == 2 * Binary(ps[..k]) + if ps[k] == 0x00ff_ffff then 1 else 0
  {
    assert ps[..k + 1][..k] == ps[..k];
  }

  lemma Powers()
    ensures Pow2(0) == 1 && Pow2(1) == 2 && Pow2(2) == 4 && Pow2(3) == 8
    ensures Pow2(4) == 16 && Pow2(5) == 32 && Pow2(6) == 64 && Pow2(7) == 128
  {
    assert Pow2(3) == 8;
    assert Pow2(5) == 32;
  }

  lemma Halves(b: nat)
    requires b < 256
    ensures b / 128 / 2 == 0 && b / 64 / 2 == b / 128 && b / 32 / 2 == b / 64 && b / 16 / 2 == b / 32
    ensures b / 8 / 2 == b / 16 && b / 4 / 2 == b / 8 && b / 2 / 2 == b / 4
  {
  }

  lemma TwoShades(p: Pixel, fill: bool)
    requires p == Shade(fill)
    ensures p == 0x00ff_ffff || p == 0
  {
  }

  lemma ShadedStep(ps: seq<Pixel>, k: nat, q: nat)
    requires k < |ps| && ps[k] == Shade(q % 2 == 1) && Binary(ps[..k]) == q / 2
    ensures Binary(ps[..k + 1]) == q
  {
    hide Binary;
    BinaryStep(ps, k);
  }

  lemma HighBitsSpell(ps: seq<Pixel>, b: nat)
    requires b < 256 && |ps| == 8
    requires ps[0] == Shade(b / 128 % 2 == 1) && ps[1] == Shade(b / 64 % 2 == 1) && ps[2] == Shade(b / 32 % 2 == 1)
    requires ps[3] == Shade(b / 16 % 2 == 1)
    ensures Binary(ps[..4]) == b / 16
  {
    hide Binary, Shade;
    Halves(b);
    NoPixels();
    ShadedStep(ps, 0, b / 128);
    ShadedStep(ps, 1, b / 64);
    ShadedStep(ps, 2, b / 32);
    ShadedStep(ps, 3, b / 16);
  }

  /** A byte is spelled by its bits. */
  lemma BitsSpell(ps: seq<Pixel>, b: nat)
    requires b < 256 && |ps| == 8
    requires ps[0] == Shade(b / 128 % 2 == 1) && ps[1] == Shade(b / 64 % 2 == 1) && ps[2] == Shade(b / 32 % 2 == 1)
    requires ps[3] == Shade(b / 16 % 2 == 1) && ps[4] == Shade(b / 8 % 2 == 1) && ps[5] == Shade(b / 4 % 2 == 1)
    requires ps[6] == Shade(b / 2 % 2 == 1) && ps[7] == Shade(b % 2 == 1)
    ensures Binary(ps) == b
  {
    hide Binary, Shade;
    Halves(b);
    HighBitsSpell(ps, b);
    ShadedStep(ps, 4, b / 8);
    ShadedStep(ps, 5, b / 4);
    ShadedStep(ps, 6, b / 2);
    ShadedStep(ps, 7, b);
    assert ps[..8] == ps;
  }

  lemma NoPixels()
    ensures Binary([]) == 0
  {
  }

  lemma GlyphBitIs(font: Glyphs, c: char, x: nat, y: nat)
    requires FontOk(font) && x < 8 && y < 16 && c as int < 128
    ensures Pow2(7 - x) > 0 && GlyphBit(font, c, x, y) == (font[16 * c as int + y] / Pow2(7 - x) % 2 == 1)
  {
    Pow2Positive(7 - x);
  }

  lemma GlyphBits(font: Glyphs, c: char, y: nat)
    requires FontOk(font) && y < 16 && c as int < 128
    ensures var b := font[16 * c as int + y];
            GlyphBit(font, c, 0, y) == (b / 128 % 2 == 1) && GlyphBit(font, c, 1, y) == (b / 64 % 2 == 1) &&
            GlyphBit(font, c, 2, y) == (b / 32 % 2 == 1) && GlyphBit(font, c, 3, y) == (b / 16 % 2 == 1) &&
            GlyphBit(font, c, 4, y) == (b / 8 % 2 == 1) && GlyphBit(font, c, 5, y) == (b / 4 % 2 == 1) &&
            GlyphBit(font, c, 6, y) == (b / 2 % 2 == 1) && GlyphBit(font, c, 7, y) == (b % 2 == 1)
  {
    hide GlyphBit, FontOk, Pow2;
    Powers();
    GlyphBitIs(font, c, 0, y);
    GlyphBitIs(font, c, 1, y);
    GlyphBitIs(font, c, 2, y);
    GlyphBitIs(font, c, 3, y);
    GlyphBitIs(font, c, 4, y);
    GlyphBitIs(font, c, 5, y);
    GlyphBitIs(font, c, 6, y);
    GlyphBitIs(font, c, 7, y);
  }

  /** The buffer index of a pixel of a glyph cell. */
  lemma CellIndex(r: nat, x: nat, y: nat, i: nat)
    requires r < 24 && x < 80 && y < 16 && i < 8
    ensures var at := 640 * (16 * r + y) + 8 * x + i;
            at < WIDTH * HEIGHT && Col(at) == 8 * x + i && Line(at) == 16 * r + y
  {
  }

  lemma CellPixel(buf: seq<Pixel>, font: Glyphs, t: Term, r: nat, x: nat, y: nat, i: nat)
    requires Shows(buf, font, t) && r < 24 && x < 80 && y < 16 && i < 8
    ensures 640 * (16 * r + y) + 8 * x + i < |buf| == WIDTH * HEIGHT && t.rows[r][x] as int < 128
    ensures buf[640 * (16 * r + y) + 8 * x + i] == Shade(GlyphBit(font, t.rows[r][x], i, y))
  {
    hide GlyphBit, FontOk, Col, Line;
    CellIndex(r, x, y, i);
  }

  /** The eight pixels of a line of a glyph cell. */
  function CellRow(buf: seq<Pixel>, r: nat, x: nat, y: nat): (ps: seq<Pixel>)
    requires |buf| == 640 * 384 && r < 24 && x < 80 && y < 16
    ensures |ps| == 8 && forall i | 0 <= i < 8 :: ps[i] == buf[640 * (16 * r + y) + 8 * x + i]
  {
    buf[640 * (16 * r + y) + 8 * x..640 * (16 * r + y) + 8 * x + 8]
  }

  /** In a buffer that shows a grid, line `y` of the cell of a character spells the character's
      byte `y` in the font. */
  lemma BufferSpellsFont(buf: seq<Pixel>, font: Glyphs, t: Term, r: nat, x: nat, y: nat)
    requires Shows(buf, font, t) && r < 24 && x < 80 && y < 16
    ensures |buf| == 640 * 384 && |font| == 16 * 128 && t.Valid() && t.rows[r][x] as int < 128
    ensures var b := font[16 * t.rows[r][x] as int + y]; b < 256 ==> Spells(CellRow(buf, r, x, y), b)
  {
    hide GlyphBit, Rendered, Shade, Binary;
    var ps, c := CellRow(buf, r, x, y), t.rows[r][x];
    GlyphBits(font, c, y);
    forall i | 0 <= i < 8
      ensures ps[i] == Shade(GlyphBit(font, c, i, y)) && (ps[i] == 0x00ff_ffff || ps[i] == 0)
    {
      CellPixel(buf, font, t, r, x, y, i);
      TwoShades(ps[i], GlyphBit(font, c, i, y));
    }
    if font[16 * c as int + y] < 256 {
      BitsSpell(ps, font[16 * c as int + y]);
    }
  }

  /** The eight pixels on the screen. */
  ghost function ScreenRow(f: FrameBuffer, r: nat, x: nat, y: nat): (ps: seq<Pixel>)
    requires f.Shaped() && r < 24 && x < 80 && y < 16
    reads f.gop.pixels
    ensures |ps| == 8 && forall i | 0 <= i < 8 :: ps[i] == f.gop.pixels[16 * r + y, 8 * x + i]
  {
    seq(8, i requires 0 <= i < 8 reads f.gop.pixels => f.gop.pixels[16 * r + y, 8 * x + i])
  }

  lemma ScreenSpellsFont(f: FrameBuffer, r: nat, x: nat, y: nat)
    requires f.Valid() && f.InSync() && r < 24 && x < 80 && y < 16
    ensures f.Shaped() && |f.font| == 16 * 128 && f.term.Valid() && f.term.rows[r][x] as int < 128
    ensures var b := f.font[16 * f.term.rows[r][x] as int + y]; b < 256 ==> Spells(ScreenRow(f, r, x, y), b)
  {
    hide Shows, Spells, FrameBuffer.Coherent;
    BufferSpellsFont(f.buf[..], f.font, f.term, r, x, y);
    forall i | 0 <= i < 8
      ensures ScreenRow(f, r, x, y)[i] == CellRow(f.buf[..], r, x, y)[i]
    {
      assert Index(8 * x + i, 16 * r + y) == 640 * (16 * r + y) + 8 * x + i;
    }
    assert ScreenRow(f, r, x, y) == CellRow(f.buf[..], r, x, y);
  }

  /** Where the next printable character goes: the column of the cursor, or the first one when
      the row is full. */
  function NextColumn(t: Term): nat {
    if t.cursor == 80 then 0 else t.cursor
  }

  lemma PrintedAt(t: Term, c: char)
    requires t.Valid() && ' ' <= c <= '~'
    ensures NextColumn(t) < 80 && Run(t, [c]).rows[23][NextColumn(t)] == c
  {
    assert [c][..0] == "";
  }

  /** In column `x` of the bottom line each of the sixteen pixel lines spells a byte of `c`. */
  ghost predicate GlyphShown(f: FrameBuffer, x: nat, c: char)
    reads f.gop.pixels
  {
    f.Shaped() && |f.font| == 16 * 128 && x < 80 && c as int < 128 &&
    forall y | 0 <= y < 16 && f.font[16 * c as int + y] < 256 ::
      Spells(ScreenRow(f, 23, x, y), f.font[16 * c as int + y])
  }

  lemma GlyphIsShown(f: FrameBuffer, x: nat, c: char)
    requires f.Valid() && f.InSync() && f.term.Valid() && x < 80 && f.term.rows[23][x] == c
    ensures GlyphShown(f, x, c)
  {
    hide Spells, FrameBuffer.Valid, FrameBuffer.InSync;
    ScreenSpellsFont(f, 23, x, 0);
    forall y | 0 <= y < 16 && f.font[16 * c as int + y] < 256
      ensures Spells(ScreenRow(f, 23, x, y), f.font[16 * c as int + y])
    {
      ScreenSpellsFont(f, 23, x, y);
    }
  }

  /** Writing one printable character: on every screen its glyph stands at the cursor of the
      bottom line, as the font has it. */
  method WritePrintable(fbs: seq<FrameBuffer>, c: char)
    requires Separate(fbs) && AllValid(fbs) && ' ' <= c <= '~'
    modifies Memory(fbs)
    ensures AllValid(fbs)
    ensures forall k | 0 <= k < |fbs| :: GlyphShown(fbs[k], NextColumn(old(fbs[k].term)), c)
  {
    hide Run, FrameBuffer.Valid, FrameBuffer.InSync, NextColumn, GlyphShown;
    ghost var terms := Terms(fbs);
    GraphicsWrite(fbs, [c]);
    forall k | 0 <= k < |fbs|
      ensures GlyphShown(fbs[k], NextColumn(terms[k]), c)
    {
      PrintedAt(terms[k], c);
      GlyphIsShown(fbs[k], NextColumn(terms[k]), c);
    }
  }
}
