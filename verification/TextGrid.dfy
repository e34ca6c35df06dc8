/** The abstract 80x24 terminal that src/graphics.c implements on pixels: text enters on
    the bottom row and moves up. */
module TextGrid {
  const COLUMNS: nat := 80
  const ROWS: nat := 24
  const BS: char := '\U{0008}'

  type Row = seq<char>

  /** `cursor` is the column on the bottom row; 80 means a wrap is pending. */
  datatype Term = Term(rows: seq<Row>, cursor: nat) {
    predicate Valid() {
      |rows| == ROWS && cursor <= COLUMNS && forall r | 0 <= r < ROWS :: |rows[r]| == COLUMNS
    }
  }

  function BlankRow(): (r: Row)
    ensures |r| == COLUMNS && forall i | 0 <= i < COLUMNS :: r[i] == ' '
  {
    seq(COLUMNS, _ => ' ')
  }

  function Blank(): (t: Term)
    ensures t.Valid()
  {
    Term(seq(ROWS, _ => BlankRow()), 0)
  }

  function Bottom(t: Term): Row
    requires t.Valid()
  {
    t.rows[ROWS - 1]
  }

  function Scroll(t: Term): (r: Term)
    requires t.Valid()
    ensures r.Valid()
  {
    t.(rows := t.rows[1..] + [BlankRow()])
  }

  /** Writes `c` at column `x` of the bottom row. */
  function Put(t: Term, x: nat, c: char): (r: Term)
    requires t.Valid() && x < COLUMNS
    ensures r.Valid() && r.cursor == t.cursor
  {
    t.(rows := t.rows[ROWS - 1 := Bottom(t)[x := c]])
  }

  function Wrap(t: Term): (r: Term)
    requires t.Valid()
    ensures r.Valid() && r.cursor < COLUMNS
  {
    if t.cursor == COLUMNS then Scroll(t).(cursor := 0) else t
  }

  /** One character: CR and LF move, BS erases one column to the left. */
  function Step(t: Term, c: char): (r: Term)
    requires t.Valid()
    ensures r.Valid()
  {
    if c == '\r' then t.(cursor := 0)
    else if c == '\n' then Scroll(t)
    else if c == BS then if t.cursor == 0 then t else Put(t.(cursor := t.cursor - 1), t.cursor - 1, ' ')
    else var w := Wrap(t); Put(w, w.cursor, c).(cursor := w.cursor + 1)
  }

  /** What graphics_write makes of a character outside ASCII. */
  function Ascii(c: char): char {
    if c as int <= 127 then c else ' '
  }

  function Run(t: Term, s: string): (r: Term)
    requires t.Valid()
    ensures r.Valid()
  {
    if s == "" then t else Step(Run(t, s[..|s| - 1]), Ascii(s[|s| - 1]))
  }

  /** Writing in two parts is writing the whole. */
  lemma {:induction false} RunConcat(t: Term, a: string, b: string)
    requires t.Valid()
    ensures Run(t, a + b) == Run(Run(t, a), b)
  {
    if b == "" {
      assert a + b == a;
    } else {
      RunConcat(t, a, b[..|b| - 1]);
      assert (a + b)[..|a + b| - 1] == a + b[..|b| - 1];
    }
  }

  lemma RunTwo(t: Term, a: char, b: char)
    requires t.Valid()
    ensures Run(t, [a]) == Step(t, Ascii(a)) && Run(t, [a, b]) == Step(Step(t, Ascii(a)), Ascii(b))
  {
    assert [a][..0] == "" && [a, b][..1] == [a];
  }

  /** A line feed without a carriage return keeps the column: text that goes on after it stands
      one row down, to the right of the text before it. */
  lemma LineFeedKeepsColumn(t: Term, c: char)
    requires t.Valid() && t.cursor < 80 && ' ' <= c <= '~'
    ensures var r := Run(t, ['\n', c]);
            r.Valid() && r.cursor == t.cursor + 1 && r.rows[22] == t.rows[23] && r.rows[23][t.cursor] == c &&
            forall x | 0 <= x < 80 && x != t.cursor :: r.rows[23][x] == ' '
  {
    RunTwo(t, '\n', c);
  }

  /** A carriage return lets the text be overwritten. */
  lemma ReturnOverwrites(t: Term, c: char)
    requires t.Valid() && ' ' <= c <= '~'
    ensures var r := Run(t, ['\r', c]);
            r.Valid() && r.cursor == 1 && r.rows[23] == t.rows[23][0 := c] && r.rows[..23] == t.rows[..23]
  {
    RunTwo(t, '\r', c);
  }

  /** A backspace at the margin does nothing; elsewhere it blanks the character to the left, and
      undoes a printed character on a blank place. */
  lemma BackspaceUndoes(t: Term, c: char)
    requires t.Valid() && ' ' <= c <= '~'
    ensures t.cursor == 0 ==> Run(t, ['\U{0008}']) == t
    ensures t.cursor < 80 && t.rows[23][t.cursor] == ' ' ==> Run(t, [c, '\U{0008}']) == t
  {
    RunTwo(t, c, BS);
    RunTwo(t, BS, BS);
    var r := Run(t, [c, BS]);
    if t.cursor < 80 && t.rows[23][t.cursor] == ' ' {
      assert t.rows[23][t.cursor := c][t.cursor := ' '] == t.rows[23];
      assert r.rows == t.rows;
    }
  }

  /** A character outside ASCII is shown as a blank. */
  lemma OtherCharacterIsBlank(t: Term, c: char)
    requires t.Valid() && c as int > 127
    ensures Run(t, [c]) == Run(t, " ")
  {
    RunTwo(t, c, c);
    RunTwo(t, ' ', c);
  }
}
