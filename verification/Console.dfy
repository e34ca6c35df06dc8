/** The framebuffer console of src/graphics.c: a shadow buffer, a damage rectangle and
    the screens they are copied to. */
module Console {
  import opened TextGrid
  import opened Pixels

  /** memcpy as src/string.c writes it, a loop from the front. Moving down it is a correct
      memmove although source and destination overlap. */
  method MemMove(a: array<Pixel>, dst: nat, src: nat, n: nat)
    requires dst <= src && src + n <= a.Length
    modifies a
    ensures forall i | 0 <= i < a.Length :: a[i] == if dst <= i < dst + n then old(a[i - dst + src]) else old(a[i])
  {
    var k := 0;
    while k < n
      invariant k <= n
      invariant forall i | 0 <= i < a.Length :: a[i] == if dst <= i < dst + k then old(a[i - dst + src]) else old(a[i])
    {
      a[dst + k] := a[src + k];
      k := k + 1;
    }
  }

  method MemSet(a: array<Pixel>, from: nat, n: nat)
    requires from + n <= a.Length
    modifies a
    ensures forall i | 0 <= i < a.Length :: a[i] == if from <= i < from + n then 0 else old(a[i])
  {
    var k := 0;
    while k < n
      invariant k <= n
      invariant forall i | 0 <= i < a.Length :: a[i] == if from <= i < from + k then 0 else old(a[i])
    {
      a[from + k] := 0;
      k := k + 1;
    }
  }

  /** The graphics output protocol: video memory of at least 640x384 pixels
      (UEFI Specification 2.10, section 12.9). */
  class Screen {
    const pixels: array2<Pixel>

    constructor (width: nat, height: nat)
      ensures pixels.Length0 == height && pixels.Length1 == width && fresh(pixels)
    {
      pixels := new Pixel[height, width];
    }

    predicate LargeEnough() {
      pixels.Length0 >= HEIGHT && pixels.Length1 >= WIDTH
    }

    /** EfiBltVideoFill over the whole resolution. */
    method Fill(p: Pixel)
      modifies pixels
      ensures forall y, x | 0 <= y < pixels.Length0 && 0 <= x < pixels.Length1 :: pixels[y, x] == p
    {
      forall y, x | 0 <= y < pixels.Length0 && 0 <= x < pixels.Length1 {
        pixels[y, x] := p;
      }
    }

    /** EfiBltBufferToVideo with the same source and destination corner. */
    method Blt(buf: array<Pixel>, left: nat, up: nat, width: nat, height: nat, stride: nat)
      requires buf.Length == stride * HEIGHT && stride == WIDTH && LargeEnough()
      requires left + width <= WIDTH && up + height <= HEIGHT
      modifies pixels
      ensures forall y, x | 0 <= y < pixels.Length0 && 0 <= x < pixels.Length1 ::
                pixels[y, x] == if up <= y < up + height && left <= x < left + width then buf[Index(x, y)]
                                else old(pixels[y, x])
    {
      forall y, x | up <= y < up + height && left <= x < left + width {
        pixels[y, x] := buf[y * stride + x];
      }
    }
  }

  class FrameBuffer {
    const gop: Screen
    const width: nat := WIDTH
    const height: nat := HEIGHT
    const buf: array<Pixel>
    var damagedLeft: int
    var damagedUp: int
    var damagedRight: int
    var damagedDown: int
    var cursorX: nat
    const font: Glyphs
    ghost var term: Term

    predicate Shaped()
    {
      buf.Length == WIDTH * HEIGHT && gop.LargeEnough()
    }

    /** The damage rectangle is empty or inside the console. */
    predicate DamageOk()
      reads this
    {
      0 <= damagedLeft <= WIDTH && 0 <= damagedUp <= HEIGHT && 0 <= damagedRight < WIDTH && 0 <= damagedDown < HEIGHT &&
      (damagedLeft < WIDTH ==> damagedLeft <= damagedRight && damagedUp <= damagedDown)
    }

    predicate Damaged(x: int, y: int)
      reads this
    {
      damagedLeft <= x <= damagedRight && damagedUp <= y <= damagedDown
    }

    /** Every pixel that differs between screen and shadow buffer is damaged. */
    ghost predicate Coherent()
      requires Shaped()
      reads this, buf, gop.pixels
    {
      DamageOk() &&
      forall y, x | 0 <= y < HEIGHT && 0 <= x < WIDTH :: gop.pixels[y, x] != buf[Index(x, y)] ==> Damaged(x, y)
    }

    /** The screen shows the shadow buffer. */
    ghost predicate InSync()
      requires Shaped()
      reads buf, gop.pixels
    {
      forall y, x | 0 <= y < HEIGHT && 0 <= x < WIDTH :: gop.pixels[y, x] == buf[Index(x, y)]
    }

    ghost predicate Valid()
      reads this, buf, gop.pixels
    {
      Shaped() && Shows(buf[..], font, term) && cursorX == term.cursor && Coherent()
    }

    /** gop_setup_mode: a black buffer and a black screen. */
    constructor (gop: Screen, font: Glyphs)
      requires gop.LargeEnough() && FontOk(font)
      modifies gop.pixels
      ensures Valid() && InSync() && fresh(buf) && this.gop == gop && this.font == font && term == Blank()
      ensures forall y, x | 0 <= y < gop.pixels.Length0 && 0 <= x < gop.pixels.Length1 :: gop.pixels[y, x] == 0
    {
      this.gop := gop;
      this.font := font;
      buf := new Pixel[WIDTH * HEIGHT];
      cursorX := 0;
      term := Blank();
      damagedLeft, damagedUp, damagedRight, damagedDown := 0, 0, 0, 0;
      new;
      ResetDamagedRegion();
      MemSet(buf, 0, WIDTH * HEIGHT);
      gop.Fill(0);
      BlackShowsBlank(buf[..], font);
    }

    method ResetDamagedRegion()
      modifies `damagedLeft, `damagedUp, `damagedRight, `damagedDown
      ensures damagedLeft == width && damagedUp == height && damagedRight == 0 && damagedDown == 0
    {
      damagedLeft, damagedUp, damagedRight, damagedDown := width, height, 0, 0;
    }

    /** The two block operations of scroll_up: everything one text line up, the bottom line
        cleared. */
    method ScrollBuffer()
      requires Shaped()
      modifies buf
      ensures ScrolledUp(old(buf[..]), buf[..])
    {
      var lineSize := GLYPH_HEIGHT * width;
      var moveSize := lineSize * (ROWS - 1);
      MemMove(buf, 0, lineSize, moveSize);
      MemSet(buf, moveSize, lineSize);
    }

    /** scroll_up: one text line up, and all damaged. */
    method ScrollUp()
      requires Valid()
      modifies buf, `damagedLeft, `damagedUp, `damagedRight, `damagedDown, `term
      ensures Valid() && term == Scroll(old(term))
      ensures forall x, y | 0 <= x < WIDTH && 0 <= y < HEIGHT :: Damaged(x, y)
    {
      hide ScrolledUp, Rendered, FontOk;
      ghost var before := buf[..];
      ScrollBuffer();
      damagedLeft, damagedUp := 0, 0;
      damagedRight, damagedDown := width - 1, height - 1;
      ScrollShows(before, buf[..], font, term);
      term := Scroll(term);
    }

    method DrawPixel(x: nat, y: nat, fill: bool)
      requires Shaped() && x < width && y < height
      modifies buf
      ensures forall i | 0 <= i < buf.Length ::
                buf[i] == if Line(i) == y && Col(i) == x then Shade(fill) else old(buf[i])
    {
      var offset := y * width + x;
      buf[offset] := Shade(fill);
    }

    method UpdateDamagedRegion(x: nat, y: nat, w: nat, h: nat)
      requires DamageOk() && 0 < w && 0 < h && x + w <= width && y + h <= height
      modifies `damagedLeft, `damagedUp, `damagedRight, `damagedDown
      ensures DamageOk()
      ensures forall a, b | old(Damaged(a, b)) :: Damaged(a, b)
      ensures forall a, b | x <= a < x + w && y <= b < y + h :: Damaged(a, b)
    {
      var endX, endY := x + w - 1, y + h - 1;
      damagedLeft := if damagedLeft > x then x else damagedLeft;
      damagedUp := if damagedUp > y then y else damagedUp;
      damagedRight := if damagedRight < endX then endX else damagedRight;
      damagedDown := if damagedDown < endY then endY else damagedDown;
    }

    /** The two pixel loops of draw_char. */
    method DrawGlyph(c: char, cell: nat)
      requires Shaped() && FontOk(font) && c as int < 128 && cell < COLUMNS
      modifies buf
      ensures CellDrawn(old(buf[..]), buf[..], font, c, cell)
    {
      hide GlyphBit, FontOk;
      var startX, startY := GLYPH_WIDTH * cell, GLYPH_HEIGHT * (ROWS - 1);
      for y := 0 to GLYPH_HEIGHT
        invariant forall i | 0 <= i < buf.Length ::
                    buf[i] ==
                    if InCell(i, cell) && Line(i) - startY < y then CellShade(font, c, cell, i) else old(buf[i])
      {
        for x := 0 to GLYPH_WIDTH
          invariant forall i | 0 <= i < buf.Length ::
                      buf[i] ==
                      if InCell(i, cell) && (Line(i) - startY < y || (Line(i) - startY == y && Col(i) - startX < x))
                                then CellShade(font, c, cell, i) else old(buf[i])
        {
          DrawPixel(x + startX, y + startY, GlyphBit(font, c, x, y));
        }
      }
    }

    method SetCursor(x: nat)
      requires Valid() && x <= COLUMNS
      modifies `cursorX, `term
      ensures Valid() && term == old(term).(cursor := x)
    {
      hide Shows;
      CursorNotShown(buf[..], font, term, x);
      cursorX := x;
      term := term.(cursor := x);
    }

    /** Draws one glyph at the cursor; the glyph of BS is a blank. */
    method DrawAtCursor(c: char)
      requires Valid() && c as int < 128 && cursorX < COLUMNS
      modifies buf, `damagedLeft, `damagedUp, `damagedRight, `damagedDown, `term
      ensures Valid() && term == Put(old(term), cursorX, if c == BS then ' ' else c)
    {
      hide Shows, CellShade, FontOk;
      ShowsFacts(buf[..], font, term);
      var startY, startX := GLYPH_HEIGHT * (ROWS - 1), GLYPH_WIDTH * cursorX;
      ghost var before := buf[..];
      DrawGlyph(c, cursorX);
      UpdateDamagedRegion(startX, startY, GLYPH_WIDTH, GLYPH_HEIGHT);
      assert CellDrawn(before, buf[..], font, if c == BS then ' ' else c, cursorX) by {
        if c == BS {
          BackspaceDrawsBlank(before, buf[..], font, cursorX);
        }
      }
      forall y, x | 0 <= y < HEIGHT && 0 <= x < WIDTH && gop.pixels[y, x] != buf[Index(x, y)]
        ensures Damaged(x, y)
      {
        if !InCell(Index(x, y), cursorX) {
          assert buf[..][Index(x, y)] == before[Index(x, y)] && old(Damaged(x, y));
        }
      }
      PutShows(before, buf[..], font, term, cursorX, if c == BS then ' ' else c);
      term := Put(term, cursorX, if c == BS then ' ' else c);
    }

    method DrawChar(c: char)
      requires Valid() && c as int < 128
      modifies this, buf
      ensures Valid() && term == Step(old(term), c)
    {
      hide Shows, FontOk, Coherent;
      ShowsFacts(buf[..], font, term);
      if c == '\r' {
        SetCursor(0);
        return;
      } else if c == '\n' {
        ScrollUp();
        return;
      } else if c == BS {
        if cursorX == 0 {
          return;
        }
        SetCursor(cursorX - 1);
      }
      if cursorX == COLUMNS {
        SetCursor(0);
        ScrollUp();
      }
      DrawAtCursor(c);
      if c != BS {
        SetCursor(cursorX + 1);
      }
    }

    /** blit_buffer: copies the damaged rectangle to the screen. */
    method BlitBuffer()
      requires Valid()
      modifies gop.pixels, `damagedLeft, `damagedUp, `damagedRight, `damagedDown
      ensures Valid() && InSync()
      ensures Border(this) == old(Border(this))
    {
      hide Shows, Index;
      if damagedLeft >= width {
        return;
      }
      var damagedWidth := damagedRight - damagedLeft + 1;
      var damagedHeight := damagedDown - damagedUp + 1;
      gop.Blt(buf, damagedLeft, damagedUp, damagedWidth, damagedHeight, width);
      forall y, x | 0 <= y < HEIGHT && 0 <= x < WIDTH
        ensures gop.pixels[y, x] == buf[Index(x, y)]
      {
        assert old(gop.pixels[y, x]) != buf[Index(x, y)] ==> old(Damaged(x, y));
      }
      ResetDamagedRegion();
    }
  }

  // ----- all framebuffers together: gFBs -----

  /** The framebuffers share nothing. */
  ghost predicate Separate(fbs: seq<FrameBuffer>) {
    forall i, j | 0 <= i < j < |fbs| ::
      fbs[i] != fbs[j] && fbs[i].buf != fbs[j].buf && fbs[i].gop.pixels != fbs[j].gop.pixels
  }

  ghost function Memory(fbs: seq<FrameBuffer>): set<object> {
    (set f: FrameBuffer | f in fbs :: f as object) + (set f: FrameBuffer | f in fbs :: f.buf as object) +
    (set f: FrameBuffer | f in fbs :: f.gop.pixels as object)
  }

  ghost predicate AllValid(fbs: seq<FrameBuffer>)
    reads Memory(fbs)
  {
    forall k | 0 <= k < |fbs| :: fbs[k] in fbs && fbs[k].Valid()
  }

  ghost function Terms(fbs: seq<FrameBuffer>): (ts: seq<Term>)
    reads fbs
  {
    seq(|fbs|, k requires 0 <= k < |fbs| reads fbs => fbs[k].term)
  }

  method DrawAll(fbs: seq<FrameBuffer>, c: char)
    requires Separate(fbs) && AllValid(fbs) && c as int < 128
    modifies Memory(fbs)
    ensures AllValid(fbs)
    ensures forall k | 0 <= k < |fbs| :: old(fbs[k].term).Valid() && fbs[k].term == Step(old(fbs[k].term), c)
    ensures forall k | 0 <= k < |fbs| :: unchanged(fbs[k].gop.pixels)
  {
    hide Step, Shows;
    ghost var terms := Terms(fbs);
    TermsValid(fbs);
    for j := 0 to |fbs|
      invariant AllValid(fbs)
      invariant forall k | 0 <= k < |fbs| :: fbs[k].term == if k < j then Step(terms[k], c) else terms[k]
      invariant forall k | 0 <= k < |fbs| :: unchanged(fbs[k].gop.pixels)
    {
      fbs[j].DrawChar(c);
    }
  }

  lemma TermsValid(fbs: seq<FrameBuffer>)
    requires AllValid(fbs)
    ensures forall k | 0 <= k < |fbs| :: fbs[k].term.Valid()
  {
  }

  /** The pixels outside the console area. */
  type Outside = map<(nat, nat), Pixel>

  /** What a screen shows outside the console area. */
  ghost function Border(f: FrameBuffer): Outside
    reads f.gop.pixels
  {
    map y: nat, x: nat | y < f.gop.pixels.Length0 && x < f.gop.pixels.Length1 && (y >= HEIGHT || x >= WIDTH) ::
      (y, x) := f.gop.pixels[y, x]
  }

  ghost function Borders(fbs: seq<FrameBuffer>): (bs: seq<Outside>)
    reads set f: FrameBuffer | f in fbs :: f.gop.pixels
    ensures |bs| == |fbs| && forall k | 0 <= k < |fbs| :: bs[k] == Border(fbs[k])
  {
    seq(|fbs|, k requires 0 <= k < |fbs| reads set f: FrameBuffer | f in fbs :: f.gop.pixels => Border(fbs[k]))
  }

  method BlitAll(fbs: seq<FrameBuffer>)
    requires Separate(fbs) && AllValid(fbs)
    modifies Memory(fbs)
    ensures AllValid(fbs)
    ensures forall k | 0 <= k < |fbs| :: fbs[k].InSync() && fbs[k].term == old(fbs[k].term)
    ensures Borders(fbs) == old(Borders(fbs))
  {
    hide Shows, FrameBuffer.InSync, FrameBuffer.Coherent, Border, Borders;
    ghost var terms, borders := Terms(fbs), Borders(fbs);
    for j := 0 to |fbs|
      invariant AllValid(fbs)
      invariant forall k | 0 <= k < |fbs| :: fbs[k].term == terms[k]
      invariant forall k | 0 <= k < j :: fbs[k].InSync() && Border(fbs[k]) == borders[k]
      invariant forall k | j <= k < |fbs| :: unchanged(fbs[k].gop.pixels)
    {
      fbs[j].BlitBuffer();
    }
  }

  /** graphics_write: `s` is the string up to its terminator. */
  method GraphicsWrite(fbs: seq<FrameBuffer>, s: string)
    requires Separate(fbs) && AllValid(fbs)
    modifies Memory(fbs)
    ensures AllValid(fbs)
    ensures forall k | 0 <= k < |fbs| ::
              fbs[k].InSync() && old(fbs[k].term).Valid() && fbs[k].term == Run(old(fbs[k].term), s)
    ensures Borders(fbs) == old(Borders(fbs))
  {
    hide Step, Shows, Run, Border;
    ghost var terms := Terms(fbs);
    TermsValid(fbs);
    RunNothing(terms);
    for i := 0 to |s|
      invariant AllValid(fbs)
      invariant forall k | 0 <= k < |fbs| :: fbs[k].term == Run(terms[k], s[..i])
      invariant forall k | 0 <= k < |fbs| :: unchanged(fbs[k].gop.pixels)
    {
      DrawAll(fbs, Ascii(s[i]));
      forall k | 0 <= k < |fbs|
        ensures fbs[k].term == Run(terms[k], s[..i + 1])
      {
        RunStep(terms[k], s, i);
      }
    }
    assert s[..|s|] == s;
    BlitAll(fbs);
  }

  lemma RunNothing(ts: seq<Term>)
    requires forall k | 0 <= k < |ts| :: ts[k].Valid()
    ensures forall k | 0 <= k < |ts| :: Run(ts[k], "") == ts[k]
  {
  }

  lemma RunStep(t: Term, s: string, i: nat)
    requires t.Valid() && i < |s|
    ensures Run(t, s[..i + 1]) == Step(Run(t, s[..i]), Ascii(s[i]))
  {
    assert s[..i + 1][..i] == s[..i];
  }

  /** Writing `a` and then `b` leaves every screen as writing `a + b` does: in sync with a
      buffer that shows the same text. */
  method WriteInTwoParts(fbs: seq<FrameBuffer>, a: string, b: string)
    requires Separate(fbs) && AllValid(fbs)
    modifies Memory(fbs)
    ensures AllValid(fbs)
    ensures forall k | 0 <= k < |fbs| ::
              fbs[k].InSync() && old(fbs[k].term).Valid() && fbs[k].term == Run(old(fbs[k].term), a + b)
    ensures Borders(fbs) == old(Borders(fbs))
  {
    hide Step, Shows, Run, Border;
    ghost var terms := Terms(fbs);
    TermsValid(fbs);
    GraphicsWrite(fbs, a);
    GraphicsWrite(fbs, b);
    forall k | 0 <= k < |fbs|
      ensures fbs[k].term == Run(terms[k], a + b)
    {
      RunConcat(terms[k], a, b);
    }
  }
}
