/** A concrete menu on which the default is not found by name (src/string.c:32-45). */
module MenuExample {
  import opened Extlinux
  import opened ExtlinuxLines
  import opened Menu
  import ConfigText

  // ----- reading one line of a text -----

  /** From its `k`-th character on a key of one word matches itself, a blank and a value. */
  lemma {:induction false} KeyFrom(t: string, p: nat, key: string, k: nat)
    requires NoNul(t) && NoNul(key) && k < |key| && p + |key| + 1 < |t|
    requires forall i | 0 <= i < |key| :: t[p + i] == key[i] && !IsSpace(key[i])
    requires t[p + |key|] == ' ' && !IsSpace(t[p + |key| + 1]) && t[p + |key| + 1] != '\n'
    ensures Match(t, p + k, key, k) == Some(p + |key| + 1)
    decreases |key| - k
  {
    if k + 1 < |key| {
      KeyFrom(t, p, key, k + 1);
    } else {
      assert Skip(t, p + |key| + 1) == p + |key| + 1;
    }
  }

  /** A key, a blank and the rest. */
  predicate KeyLine(key: string, line: string) {
    key != "" && |key| + 1 < |line| && line[..|key|] == key && (forall i | 0 <= i < |key| :: !IsSpace(key[i])) &&
    line[|key|] == ' ' && !IsSpace(line[|key| + 1]) && PlainText(line)
  }

  /** The line at `p` is `line`. */
  predicate LineIs(t: string, p: nat, line: string) {
    p + |line| < |t| && t[p..p + |line|] == line && t[p + |line|] == '\n'
  }

  lemma KeyOnLine(t: string, p: nat, key: string, line: string)
    requires NoNul(t) && NoNul(key) && LineIs(t, p, line) && KeyLine(key, line)
    ensures Match(t, p, key, 0) == Some(p + |key| + 1) && Skip(t, p) == p
    ensures LineEnd(t, p) == LineEnd(t, p + |key| + 1) == p + |line|
  {
    hide Match, LineEnd;
    assert forall i | p <= i < p + |line| :: t[i] == t[p..p + |line|][i - p];
    assert forall i | 0 <= i < |key| :: line[i] == line[..|key|][i];
    KeyFrom(t, p, key, 0);
    ConfigText.LineEndIs(t, p, p + |line|);
    LineEndFrom(t, p, p + |key| + 1);
  }

  function ThreeLines(a: string, b: string, c: string): string {
    a + "\n" + (b + "\n" + (c + "\n"))
  }

  lemma LinesOfThree(a: string, b: string, c: string)
    requires PlainText(a) && PlainText(b) && PlainText(c)
    ensures var t := ThreeLines(a, b, c);
            NoNul(t) && LineIs(t, 0, a) && LineIs(t, |a| + 1, b) && LineIs(t, |a| + |b| + 2, c) &&
            |t| == |a| + |b| + |c| + 3
  {
    var t := ThreeLines(a, b, c);
    assert t[|a| + 1..] == b + "\n" + (c + "\n");
    assert t[|a| + |b| + 2..] == c + "\n";
  }

  // ----- a default that is not found -----

  const DEFAULT_LINE: string := "default b "
  const LABEL_A: string := "label a"
  const LABEL_B: string := "label b"

  const BLANK_AFTER_DEFAULT: string := ThreeLines(DEFAULT_LINE, LABEL_A, LABEL_B)

  lemma ExampleKeys()
    ensures KeyLine(DEFAULT, DEFAULT_LINE) && KeyLine(LABEL, LABEL_A) && KeyLine(LABEL, LABEL_B)
  {
    assert DEFAULT_LINE[..7] == DEFAULT && LABEL_A[..5] == LABEL && LABEL_B[..5] == LABEL;
  }

  lemma NotALabel(t: string)
    requires NoNul(t) && LineIs(t, 0, DEFAULT_LINE)
    ensures Match(t, 0, LABEL, 0) == None
  {
    assert t[0] == t[0..|DEFAULT_LINE|][0];
  }

  /** What the readers see of the three lines, the third of them a label line `c`. */
  lemma ThreeRead(c: string)
    requires KeyLine(LABEL, c) && !IsSpace(c[|c| - 1])
    ensures var t := ThreeLines(DEFAULT_LINE, LABEL_A, c);
            NoNul(t) && LineIs(t, 0, DEFAULT_LINE) && LineIs(t, 11, LABEL_A) && LineIs(t, 19, c) &&
            Match(t, 0, LABEL, 0) == None && Match(t, 0, DEFAULT, 0) == Some(8) && Skip(t, 0) == 0 &&
            Skip(t, 11) == 11 && Match(t, 11, LABEL, 0) == Some(17) &&
            Skip(t, 19) == 19 && Match(t, 19, LABEL, 0) == Some(25)
    ensures var t := ThreeLines(DEFAULT_LINE, LABEL_A, c);
            LineEnd(t, 0) == LineEnd(t, 8) == 10 && LineEnd(t, 11) == LineEnd(t, 17) == 18 &&
            LineEnd(t, 19) == LineEnd(t, 25) == 19 + |c| && |t| == 20 + |c|
  {
    hide LineEnd, LineIs, KeyLine, Match, Skip, ThreeLines;
    var t := ThreeLines(DEFAULT_LINE, LABEL_A, c);
    ExampleKeys();
    KeyLinePlain(DEFAULT, DEFAULT_LINE);
    KeyLinePlain(LABEL, LABEL_A);
    KeyLinePlain(LABEL, c);
    LinesOfThree(DEFAULT_LINE, LABEL_A, c);
    KeyOnLine(t, 0, DEFAULT, DEFAULT_LINE);
    KeyOnLine(t, 11, LABEL, LABEL_A);
    KeyOnLine(t, 19, LABEL, c);
    NotALabel(t);
  }

  lemma KeyLinePlain(key: string, line: string)
    requires KeyLine(key, line)
    ensures PlainText(line)
  {
  }

  lemma LastNotBlank(t: string, v: nat, e: nat)
    requires v < e <= |t| && !IsSpace(t[e - 1])
    ensures Trimmed(t, v, e) == e - v
  {
  }

  lemma ThreeValues(c: string)
    requires KeyLine(LABEL, c) && !IsSpace(c[|c| - 1])
    ensures var t := ThreeLines(DEFAULT_LINE, LABEL_A, c);
            After(t, 0) == Some(11) && After(t, 11) == Some(19) && After(t, 19) == None &&
            ValueAt(t, 8) == Slice(8, 1) && ValueAt(t, 17) == Slice(17, 1) && ValueAt(t, 25) == Slice(25, |c| - 6)
  {
    hide LineEnd, KeyLine, Match, Skip, ThreeLines, Trimmed;
    var t := ThreeLines(DEFAULT_LINE, LABEL_A, c);
    ThreeRead(c);
    KeyLineLong(c);
    assert t[8] == t[0..10][8] == 'b' && t[9] == t[0..10][9] == ' ';
    assert t[17] == t[11..18][6] == 'a';
    assert t[18 + |c|] == t[19..19 + |c|][|c| - 1];
    LastNotBlank(t, 8, 9);
    LastBlank(t, 8, 10);
    LastNotBlank(t, 17, 18);
    LastNotBlank(t, 25, 19 + |c|);
  }

  lemma KeyLineLong(c: string)
    requires KeyLine(LABEL, c)
    ensures |c| >= 7
  {
  }

  lemma LastBlank(t: string, v: nat, e: nat)
    requires v < e <= |t| && IsSpace(t[e - 1])
    ensures Trimmed(t, v, e) == Trimmed(t, v, e - 1)
  {
  }

  /** A blank after the default's value keeps it from being found: entry 0 is chosen although
      entry 1 has exactly that name. */
  lemma BlankAfterDefault()
    ensures var t := BLANK_AFTER_DEFAULT;
            NoNul(t) && PlainText(DEFAULT) && ValueText(t, 0, DEFAULT) == Some("b") && Names(t) == ["a", "b"] &&
            DefaultEntry(t) == 0 && DefaultByName(Some("b"), Names(t)) == 1
  {
    hide Match, Skip, After, LineEnd, ValueAt, Compare, NoNul, PlainText, MaximalValue, KeyLine, ThreeLines;
    var t := BLANK_AFTER_DEFAULT;
    ExampleKeys();
    ThreeRead(LABEL_B);
    ThreeValues(LABEL_B);
    DefaultIsMaximal(t);
    assert Get(t, 0, DEFAULT) == Some(Slice(8, 1));
    assert Entries(t, Some(19)) == [19];
    assert Entries(t, Some(11)) == [11, 19];
    assert AllEntries(t) == [11, 19];
    NameSlice(t, 11);
    NameSlice(t, 19);
    ExampleCompares();
    assert t[8..9] == "b" && t[17..18] == "a" && t[25..26] == "b";
    assert Names(t) == ["a", "b"];
    ChosenOfTwo();
  }

  lemma ChosenOfTwo()
    ensures LastTrue([false, true]) == 1 && LastTrue([false, false]) == -1
  {
  }

  lemma ExampleCompares()
    ensures var t := BLANK_AFTER_DEFAULT; Compare(t, 8, 25, 1) != 0 && Compare(t, 8, 17, 1) != 0
  {
  }

  // ----- a default found in a longer name -----

  const LABEL_B_C: string := "label b c"

  const CONTINUED_NAME: string := ThreeLines(DEFAULT_LINE, LABEL_A, LABEL_B_C)

  lemma ContinuedKey()
    ensures KeyLine(LABEL, LABEL_B_C)
  {
    assert LABEL_B_C[..5] == LABEL;
  }

  /** A blank after the default's value lets it be found in a longer name: entry 1 is chosen
      although no entry has the default's name. */
  lemma DefaultInLongerName()
    ensures var t := CONTINUED_NAME;
            NoNul(t) && PlainText(DEFAULT) && ValueText(t, 0, DEFAULT) == Some("b") && Names(t) == ["a", "b c"] &&
            DefaultEntry(t) == 1 && DefaultByName(Some("b"), Names(t)) == 0
  {
    hide Match, Skip, After, LineEnd, ValueAt, Compare, NoNul, PlainText, MaximalValue, KeyLine, ThreeLines;
    var t := CONTINUED_NAME;
    ContinuedKey();
    ThreeRead(LABEL_B_C);
    ThreeValues(LABEL_B_C);
    DefaultIsMaximal(t);
    assert Get(t, 0, DEFAULT) == Some(Slice(8, 1));
    assert Entries(t, Some(19)) == [19];
    assert Entries(t, Some(11)) == [11, 19];
    assert AllEntries(t) == [11, 19];
    NameSlice(t, 11);
    NameSlice(t, 19);
    ContinuedCompares();
    assert t[8..9] == "b" && t[17..18] == "a" && t[25..28] == "b c";
    assert Names(t) == ["a", "b c"];
    ChosenOfTwo();
  }

  lemma ContinuedCompares()
    ensures var t := CONTINUED_NAME; Compare(t, 8, 25, 1) == 0 && Compare(t, 8, 17, 1) != 0
  {
  }
}
