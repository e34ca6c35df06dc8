/** A configuration read back from any layout: blank lines, spaces and tabs do not matter
    (src/extlinux.c, src/menu.c:62-78). */
module SpacedConfig {
  import opened Extlinux
  import opened ExtlinuxLines
  import opened SpacedLines
  import opened ConfigText

  // ----- what the readers see of a text is a function of its lines -----

  /** The lines from the `n`-th label line on. */
  function FromLabel(ls: seq<string>, n: nat): (r: Option<seq<string>>)
    requires AllNoNul(ls)
    ensures r.Some? ==> r.value != [] && AllNoNul(r.value)
    decreases |ls|
  {
    if ls == [] then None
    else if !IsLabel(ls[0]) then FromLabel(ls[1..], n)
    else if n == 0 then Some(ls)
    else FromLabel(ls[1..], n - 1)
  }

  /** What a lookup at the entry whose lines are `ls` gives: the name on its first line, or the
      first binding behind it up to the next label line. */
  function AtEntry(ls: seq<string>, key: string): Option<string>
    requires AllNoNul(ls) && NoNul(key) && ls != []
  {
    if key == LABEL then Binding(ls[0], LABEL) else InScope(ls[1..], key)
  }

  lemma LinesStepAt(t: string, p: nat)
    requires NoNul(t) && p <= |t|
    ensures AllNoNul(LinesFrom(t, p)) && NoNul(LineAt(t, p)) && AllNoNul(LinesAfter(t, After(t, p)))
    ensures LinesFrom(t, p) == [LineAt(t, p)] + LinesAfter(t, After(t, p))
    ensures LinesFrom(t, p)[0] == LineAt(t, p) && LinesFrom(t, p)[1..] == LinesAfter(t, After(t, p))
  {
    hide LineAt, After, NoNul;
    LinesNoNul(t, p);
    LinesStep(t, p);
    if After(t, p).Some? {
      LinesNoNul(t, After(t, p).value);
    }
    LineNoNul(t, p);
  }

  /** A lookup at a label line, whose blanks in front have been skipped. */
  lemma LookupAtLabel(t: string, p: nat, key: string)
    requires NoNul(t) && PlainText(key) && p <= |t| && NoNul(LineAt(t, p)) && IsLabel(LineAt(t, p))
    ensures AllNoNul(LinesFrom(t, p))
    ensures ValueText(t, Skip(t, p), key) == AtEntry(LinesFrom(t, p), key)
  {
    hide LineAt, After, NoNul, Skip, Binding, Match, InScope, LinesFrom, LineEnd, PlainText;
    var e := Skip(t, p);
    SkippedLine(t, p);
    LinesStepAt(t, p);
    LinesStepAt(t, e);
    LabelPlain();
    LabelOnLine(t, p);
    BindingOnLine(t, p, LABEL);
    BindingOnLine(t, e, LABEL);
    assert IsLabel(LineAt(t, e)) && Binding(LineAt(t, e), LABEL) == Binding(LineAt(t, p), LABEL);
    if key == LABEL {
      PlainIsNoNul(key);
      InScopeStep(LineAt(t, e), LinesAfter(t, After(t, e)), LABEL);
    }
  }

  lemma SkippedLine(t: string, p: nat)
    requires NoNul(t) && p <= |t|
    ensures Skip(t, p) <= |t| && Skip(t, Skip(t, p)) == Skip(t, p) && After(t, Skip(t, p)) == After(t, p)
  {
    hide LineAt, After;
    EntryStep(t, p);
  }

  /** Every entry that is enumerated, and every value found at it, is determined by the lines. */
  lemma {:induction false} EntryIsLines(t: string, p: nat, n: nat, key: string)
    requires NoNul(t) && PlainText(key) && p <= |t|
    ensures AllNoNul(LinesFrom(t, p)) && NoNul(key)
    ensures var es, r := Entries(t, Some(p)), FromLabel(LinesFrom(t, p), n);
            (n < |es| <==> r.Some?) && (n < |es| ==> ValueText(t, es[n], key) == AtEntry(r.value, key))
    decreases |t| - p
  {
    hide LineAt, After, NoNul, Skip, Binding, LinesFrom, Entries, ValueText, AtEntry, PlainText, IsLabel;
    var l, next := LineAt(t, p), After(t, p);
    LinesStepAt(t, p);
    EntriesOfLine(t, p);
    SkipOnLine(t, p, p);
    PlainIsNoNul(key);
    if IsLabel(l) {
      LookupAtLabel(t, p, key);
    }
    if next.Some? {
      EntryIsLines(t, next.value, n, key);
      if IsLabel(l) && n > 0 {
        EntryIsLines(t, next.value, n - 1, key);
      }
    } else {
      NoEntries(t);
    }
  }

  lemma BlankIsNoLabel(t: string)
    requires NoNul(t) && t != "" && IsSpace(t[0])
    ensures Match(t, 0, LABEL, 0) == None
  {
  }

  /** A global lookup: it passes over a label line at the very start of the text, unless that
      line is indented. */
  lemma GlobalIsLines(t: string, key: string)
    requires NoNul(t) && PlainText(key) && key != LABEL
    ensures AllNoNul(LinesFrom(t, 0)) && NoNul(key)
    ensures var ls := LinesFrom(t, 0);
            ValueText(t, 0, key) ==
            InScope(if IsLabel(ls[0]) && !IsSpace(Ch(t, 0)) then ls[1..] else ls, key)
  {
    hide LineAt, After, NoNul, Binding, Match, LinesFrom, PlainText, InScope;
    LinesStepAt(t, 0);
    LabelOnLine(t, 0);
    PlainIsNoNul(key);
    if t != "" && IsSpace(t[0]) {
      BlankIsNoLabel(t);
    }
  }

  // ----- layouts -----

  /** A blank line, or a binding written with some blanks. */
  datatype Line = BlankLine(blanks: string) | KeyLine(spacing: Spacing, key: string, value: string)

  predicate LineOk(x: Line) {
    match x
    case BlankLine(blanks) => Blanks(blanks)
    case KeyLine(spacing, key, value) => spacing.Ok() && AnyKey(key) && TrimmedText(value)
  }

  predicate LayoutOk(xs: seq<Line>) {
    forall i | 0 <= i < |xs| :: LineOk(xs[i])
  }

  function Render(x: Line): string {
    match x
    case BlankLine(blanks) => blanks
    case KeyLine(spacing, key, value) => SpacedLine(spacing, key, value)
  }

  function Rendered(xs: seq<Line>): (ls: seq<string>)
    ensures |ls| == |xs|
  {
    if xs == [] then [] else [Render(xs[0])] + Rendered(xs[1..])
  }

  /** The bindings, without their blanks; a label line is a binding of "label". */
  function Spelled(xs: seq<Line>): seq<KeyValue> {
    if xs == [] then []
    else if xs[0].BlankLine? then Spelled(xs[1..])
    else [KeyValue(xs[0].key, xs[0].value)] + Spelled(xs[1..])
  }

  /** The first binding of the key before the next "label". */
  function FirstInScope(bs: seq<KeyValue>, key: string): Option<string> {
    if bs == [] || bs[0].key == "label" then None
    else if bs[0].key == key then Some(bs[0].value)
    else FirstInScope(bs[1..], key)
  }

  /** The bindings from the `n`-th "label" on. */
  function LabelAt(bs: seq<KeyValue>, n: nat): (r: Option<seq<KeyValue>>)
    ensures r.Some? ==> r.value != []
    decreases |bs|
  {
    if bs == [] then None
    else if bs[0].key != "label" then LabelAt(bs[1..], n)
    else if n == 0 then Some(bs)
    else LabelAt(bs[1..], n - 1)
  }

  /** The value of a key in the entry that begins with the first of `bs`. */
  function InEntry(bs: seq<KeyValue>, key: string): Option<string>
    requires bs != []
  {
    if key == "label" then Some(bs[0].value) else FirstInScope(bs[1..], key)
  }

  lemma BlankBindsNothing(l: string, k: string)
    requires Blanks(l) && AnyKey(k)
    ensures PlainText(l) && NoNul(k) && NoNul(l) && Binding(l, k) == None
  {
    hide AnyKey;
    BlanksAreSpaces(l);
    KeyStart(k);
    KeyIsTrimmed(k);
    assert Skip(l, 0) == |l|;
  }

  /** What a line of a layout binds. */
  lemma LineBinds(x: Line, k: string)
    requires LineOk(x) && AnyKey(k)
    ensures PlainText(Render(x)) && NoNul(Render(x)) && NoNul(k)
    ensures Binding(Render(x), k) == if x.KeyLine? && x.key == k then Some(x.value) else None
  {
    hide Binding, AnyKey, TrimmedText, PlainText, Blanks, SpacedLine;
    if x.KeyLine? {
      SpacedBinding(x.spacing, x.key, x.value, k);
    } else {
      BlankBindsNothing(x.blanks, k);
    }
    NoNulText(Render(x));
    NoNulText(k);
  }

  lemma {:induction false} RenderedPlain(xs: seq<Line>)
    requires LayoutOk(xs)
    ensures AllPlain(Rendered(xs)) && AllNoNul(Rendered(xs))
  {
    hide Render, LineOk, PlainText, NoNul, AnyKey;
    if xs != [] {
      RenderedPlain(xs[1..]);
      LabelIsKey();
      LineBinds(xs[0], LABEL);
    }
  }

  /** Searching the lines is searching the bindings. */
  lemma {:induction false} ScopeSpelled(xs: seq<Line>, key: string)
    requires LayoutOk(xs) && KeyOk(key)
    ensures AllNoNul(Rendered(xs)) && NoNul(key) && InScope(Rendered(xs), key) == FirstInScope(Spelled(xs), key)
  {
    hide Render, LineOk, PlainText, NoNul, Binding, AnyKey;
    RenderedPlain(xs);
    LabelIsKey();
    KeyPlain(key);
    if xs != [] {
      LineBinds(xs[0], key);
      LineBinds(xs[0], LABEL);
      ScopeSpelled(xs[1..], key);
    }
  }

  /** The layout from the `n`-th label on. */
  lemma {:induction false} LabelsSpelled(xs: seq<Line>, n: nat, key: string)
    requires LayoutOk(xs) && AnyKey(key)
    ensures AllNoNul(Rendered(xs)) && NoNul(key)
    ensures var r, bs := FromLabel(Rendered(xs), n), LabelAt(Spelled(xs), n);
            (r.Some? <==> bs.Some?) && (r.Some? ==> AtEntry(r.value, key) == InEntry(bs.value, key))
    decreases |xs|
  {
    hide Render, LineOk, PlainText, NoNul, Binding, AnyKey, InScope, FirstInScope;
    RenderedPlain(xs);
    LabelIsKey();
    KeyPlain(key);
    if xs != [] {
      LineBinds(xs[0], LABEL);
      LabelsSpelled(xs[1..], n, key);
      if n > 0 {
        LabelsSpelled(xs[1..], n - 1, key);
      } else if key != LABEL {
        ScopeSpelled(xs[1..], key);
      }
    }
  }

  /** The text consists of these lines. */
  predicate LaidOutAs(t: string, xs: seq<Line>) {
    LayoutOk(xs) && xs != [] && NoNul(t) && LinesFrom(t, 0) == Rendered(xs)
  }

  /** However a configuration is laid out, its entries are the "label" bindings in order, and a
      value looked up at an entry is the first binding of its key in that entry. */
  lemma EntriesOfLayout(t: string, xs: seq<Line>, n: nat, key: string)
    requires LaidOutAs(t, xs) && AnyKey(key)
    ensures NoNul(t) && PlainText(key)
    ensures var es, bs := Entries(t, Some(0)), LabelAt(Spelled(xs), n);
            (n < |es| <==> bs.Some?) && (n < |es| ==> ValueText(t, es[n], key) == InEntry(bs.value, key))
  {
    hide LineAt, NoNul, LinesFrom, Entries, ValueText, AtEntry, InEntry, PlainText, LayoutOk, AnyKey;
    KeyPlain(key);
    EntryIsLines(t, 0, n, key);
    LabelsSpelled(xs, n, key);
  }

  /** A global value is the first binding of its key before the first "label"; but if the text
      starts with a label line that is not indented, the values of that entry are found. */
  lemma GlobalsOfLayout(t: string, xs: seq<Line>, key: string)
    requires LaidOutAs(t, xs) && KeyOk(key)
    ensures NoNul(t) && PlainText(key)
    ensures var flush := xs[0].KeyLine? && xs[0].key == "label" && xs[0].spacing.indent == "";
            ValueText(t, 0, key) == FirstInScope(if flush then Spelled(xs)[1..] else Spelled(xs), key)
  {
    hide LineAt, NoNul, LinesFrom, Entries, ValueText, AtEntry, InEntry, PlainText, AnyKey, FirstInScope, InScope,
         Binding, LineOk, Render;
    KeyPlain(key);
    LabelIsKey();
    GlobalIsLines(t, key);
    LineBinds(xs[0], LABEL);
    if xs[0].KeyLine? {
      FirstChar(t, xs[0]);
    }
    ScopeSpelled(xs, key);
    ScopeSpelled(xs[1..], key);
  }

  /** A label line is indented exactly if the text starts with a blank. */
  lemma FirstChar(t: string, x: Line)
    requires LineOk(x) && NoNul(t) && LinesFrom(t, 0)[0] == Render(x) && x.KeyLine?
    ensures IsSpace(Ch(t, 0)) <==> x.spacing.indent != ""
  {
    var l, s := LineAt(t, 0), x.spacing;
    SpacedPlain(s, x.key, x.value);
    SkipOnLine(t, 0, 0);
    assert l == SpacedLine(s, x.key, x.value);
    if s.indent == "" {
      assert Skip(t, 0) == 0;
    }
  }

  // ----- a configuration in any layout -----

  function EntryBindings(e: Entry): seq<KeyValue> {
    [KeyValue("label", e.name)] + e.bindings
  }

  function EntriesBindings(es: seq<Entry>): seq<KeyValue> {
    if es == [] then [] else EntryBindings(es[0]) + EntriesBindings(es[1..])
  }

  /** The bindings of a configuration, each entry beginning with its label. */
  function AllBindings(c: Config): seq<KeyValue> {
    c.globals + EntriesBindings(c.entries)
  }

  lemma {:induction false} LabelAfter(bs: seq<KeyValue>, rest: seq<KeyValue>, n: nat)
    requires BindingsOk(bs)
    ensures LabelAt(bs + rest, n) == LabelAt(rest, n)
    decreases |bs|
  {
    hide AnyKey, TrimmedText;
    if bs == [] {
      assert bs + rest == rest;
    } else {
      assert (bs + rest)[1..] == bs[1..] + rest;
      LabelAfter(bs[1..], rest, n);
    }
  }

  lemma {:induction false} ScopeEnds(bs: seq<KeyValue>, rest: seq<KeyValue>, key: string)
    requires BindingsOk(bs) && (rest != [] ==> rest[0].key == "label")
    ensures FirstInScope(bs + rest, key) == FirstBinding(bs, key)
    decreases |bs|
  {
    hide AnyKey, TrimmedText;
    if bs == [] {
      assert bs + rest == rest;
    } else {
      assert (bs + rest)[1..] == bs[1..] + rest;
      ScopeEnds(bs[1..], rest, key);
    }
  }

  lemma EntriesBegin(es: seq<Entry>)
    ensures EntriesBindings(es) != [] ==> EntriesBindings(es)[0].key == "label"
  {
  }

  /** The `n`-th label is that of the `n`-th entry. */
  lemma {:induction false} NthLabel(es: seq<Entry>, n: nat, key: string)
    requires EntriesOk(es)
    ensures var bs := LabelAt(EntriesBindings(es), n);
            (n < |es| <==> bs.Some?) &&
            (n < |es| ==>
               InEntry(bs.value, key) == if key == "label" then Some(es[n].name) else FirstBinding(es[n].bindings, key))
    decreases |es|
  {
    hide BindingsOk, TrimmedText, FirstBinding, FirstInScope;
    if es != [] {
      var rest := EntriesBindings(es[1..]);
      var bs := es[0].bindings + rest;
      assert EntriesBindings(es) == [KeyValue("label", es[0].name)] + bs;
      assert EntriesBindings(es)[1..] == bs;
      EntriesBegin(es[1..]);
      ScopeEnds(es[0].bindings, rest, key);
      if n > 0 {
        LabelAfter(es[0].bindings, rest, n - 1);
        NthLabel(es[1..], n - 1, key);
      }
    }
  }

  /** Reading back a configuration from any layout of its bindings. */
  lemma LayoutRoundTrip(t: string, xs: seq<Line>, c: Config, n: nat, key: string)
    requires LaidOutAs(t, xs) && ConfigOk(c) && Spelled(xs) == AllBindings(c) && KeyOk(key)
    ensures NoNul(t) && PlainText(key) && PlainText(LABEL)
    ensures var es := Entries(t, Some(0));
            (n < |es| <==> n < |c.entries|) &&
            (n < |es| ==>
               ValueText(t, es[n], LABEL) == Some(c.entries[n].name) &&
               ValueText(t, es[n], key) == FirstBinding(c.entries[n].bindings, key))
  {
    hide LaidOutAs, Entries, ValueText, FirstBinding, EntriesOk, AnyKey, BindingsOk, NoNul, Spelled, InEntry,
         PlainText, TrimmedText;
    LabelIsKey();
    EntriesOfLayout(t, xs, n, key);
    EntriesOfLayout(t, xs, n, LABEL);
    LabelAfter(c.globals, EntriesBindings(c.entries), n);
    NthLabel(c.entries, n, key);
    NthLabel(c.entries, n, LABEL);
  }

  lemma FirstOf(a: seq<KeyValue>, b: seq<KeyValue>)
    ensures a != [] ==> (a + b)[0] == a[0]
  {
  }

  /** A layout that starts with a label line has no globals. */
  lemma StartsWithLabel(xs: seq<Line>, c: Config)
    requires BindingsOk(c.globals) && Spelled(xs) == AllBindings(c)
    requires xs != [] && xs[0].KeyLine? && xs[0].key == "label"
    ensures c.globals == [] && c.entries != []
    ensures Spelled(xs)[1..] == c.entries[0].bindings + EntriesBindings(c.entries[1..])
  {
    hide BindingsOk, Spelled, EntriesBindings;
    SpelledFirst(xs);
    NoGlobals(c.globals, EntriesBindings(c.entries), Spelled(xs));
    EntriesSplit(c.entries);
  }

  lemma SpelledFirst(xs: seq<Line>)
    requires xs != [] && xs[0].KeyLine?
    ensures Spelled(xs) != [] && Spelled(xs)[0].key == xs[0].key
  {
  }

  lemma NoGlobals(g: seq<KeyValue>, rest: seq<KeyValue>, bs: seq<KeyValue>)
    requires BindingsOk(g) && bs == g + rest && bs != [] && bs[0].key == "label"
    ensures g == [] && bs == rest
  {
    hide AnyKey, TrimmedText;
    FirstOf(g, rest);
  }

  lemma EntriesSplit(es: seq<Entry>)
    requires EntriesBindings(es) != []
    ensures es != [] && EntriesBindings(es)[1..] == es[0].bindings + EntriesBindings(es[1..])
  {
    hide EntriesBindings;
    EntriesStep(es);
    var rest := es[0].bindings + EntriesBindings(es[1..]);
    assert EntriesBindings(es) == [KeyValue("label", es[0].name)] + rest;
  }

  lemma EntriesStep(es: seq<Entry>)
    ensures EntriesBindings(es) == if es == [] then [] else EntryBindings(es[0]) + EntriesBindings(es[1..])
  {
  }

  /** The global values. A configuration that starts with a label line has none; then those of
      its first entry are found, unless that line is indented. */
  lemma LayoutGlobals(t: string, xs: seq<Line>, c: Config, key: string)
    requires LaidOutAs(t, xs) && ConfigOk(c) && Spelled(xs) == AllBindings(c) && KeyOk(key)
    ensures NoNul(t) && PlainText(key)
    ensures xs[0].KeyLine? && xs[0].key == "label" ==> c.globals == [] && c.entries != []
    ensures var flush := xs[0].KeyLine? && xs[0].key == "label" && xs[0].spacing.indent == "";
            ValueText(t, 0, key) == FirstBinding(if flush then c.entries[0].bindings else c.globals, key)
  {
    hide ValueText, FirstBinding, AnyKey, NoNul, FirstInScope, PlainText, TrimmedText, LinesFrom, LayoutOk, BindingsOk,
         Spelled, EntriesBindings;
    GlobalsOfLayout(t, xs, key);
    EntriesBegin(c.entries);
    ScopeEnds(c.globals, EntriesBindings(c.entries), key);
    if xs[0].KeyLine? && xs[0].key == "label" {
      StartsWithLabel(xs, c);
      EntriesBegin(c.entries[1..]);
      ScopeEnds(c.entries[0].bindings, EntriesBindings(c.entries[1..]), key);
    }
  }

  /** Lines that each end with a newline are a text laid out that way. */
  lemma WrittenLayout(xs: seq<Line>)
    requires LayoutOk(xs) && xs != []
    ensures LaidOutAs(Unlines(Rendered(xs)), xs)
  {
    hide LayoutOk, LinesFrom, PlainText;
    var ls := Rendered(xs);
    RenderedPlain(xs);
    UnlinesNoNul(ls);
    LinesOfUnlines("", ls);
    assert "" + Unlines(ls) == Unlines(ls);
  }
}
