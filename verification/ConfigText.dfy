/** Printing a configuration and reading it back (README.md of the repository describes the
    format; the readers are those of src/extlinux.c and src/menu.c). */
module ConfigText {
  import opened Extlinux
  import opened ExtlinuxLines
  import opened SpacedLines

  datatype KeyValue = KeyValue(key: string, value: string)

  datatype Entry = Entry(name: string, bindings: seq<KeyValue>)

  datatype Config = Config(globals: seq<KeyValue>, entries: seq<Entry>)

  predicate KeyOk(k: string) {
    AnyKey(k) && k != LABEL
  }

  predicate BindingsOk(bs: seq<KeyValue>) {
    forall i | 0 <= i < |bs| :: KeyOk(bs[i].key) && TrimmedText(bs[i].value)
  }

  predicate EntriesOk(es: seq<Entry>) {
    forall i | 0 <= i < |es| :: TrimmedText(es[i].name) && BindingsOk(es[i].bindings)
  }

  predicate ConfigOk(c: Config) {
    BindingsOk(c.globals) && EntriesOk(c.entries)
  }

  // ----- printing -----

  function PrintBinding(indent: string, key: string, value: string): string {
    indent + key + " " + value
  }

  function BindingLines(indent: string, bs: seq<KeyValue>): (ls: seq<string>)
    ensures |ls| == |bs|
  {
    if bs == [] then [] else [PrintBinding(indent, bs[0].key, bs[0].value)] + BindingLines(indent, bs[1..])
  }

  function EntryLines(e: Entry): seq<string> {
    [PrintBinding("", LABEL, e.name)] + BindingLines("\t", e.bindings)
  }

  function EntriesLines(es: seq<Entry>): seq<string> {
    if es == [] then [] else EntryLines(es[0]) + EntriesLines(es[1..])
  }

  function ConfigLines(c: Config): seq<string> {
    BindingLines("", c.globals) + EntriesLines(c.entries)
  }

  function Unlines(ls: seq<string>): string {
    if ls == [] then "" else ls[0] + "\n" + Unlines(ls[1..])
  }

  function Print(c: Config): string {
    Unlines(ConfigLines(c))
  }

  function FirstBinding(bs: seq<KeyValue>, key: string): Option<string> {
    if bs == [] then None
    else if bs[0].key == key then Some(bs[0].value)
    else FirstBinding(bs[1..], key)
  }

  // ----- one printed line -----

  predicate Indent(s: string) {
    s == "" || s == "\t"
  }

  /** The blanks of a printed line. */
  function Printed(indent: string): (s: Spacing)
    requires Indent(indent)
    ensures s.Ok()
  {
    Spacing(indent, " ", " ", "")
  }

  lemma PrintedIsSpaced(indent: string, key: string, value: string)
    requires Indent(indent)
    ensures PrintBinding(indent, key, value) == SpacedLine(Printed(indent), key, value)
  {
    assert "menu" + " " + "title" == "menu title";
    assert indent + key + " " + value == indent + (key + " " + (value + ""));
  }

  lemma PrintedPlain(indent: string, key: string, value: string)
    requires Indent(indent) && AnyKey(key) && TrimmedText(value)
    ensures PlainText(PrintBinding(indent, key, value)) && TrimmedText(key)
    ensures Skip(PrintBinding(indent, key, value), 0) == |indent|
  {
    hide PlainText, TrimmedText, Skip, AnyKey, SpacedLine;
    PrintedIsSpaced(indent, key, value);
    SpacedPlain(Printed(indent), key, value);
  }

  /** A printed line binds its own key to its value and no other key. */
  lemma PrintedBinding(indent: string, key: string, value: string, k: string)
    requires Indent(indent) && AnyKey(key) && TrimmedText(value) && AnyKey(k)
    ensures var l := PrintBinding(indent, key, value);
            PlainText(l) && TrimmedText(k) && Binding(l, k) == if k == key then Some(value) else None
  {
    hide PlainText, TrimmedText, Binding, AnyKey, SpacedLine;
    PrintedIsSpaced(indent, key, value);
    SpacedBinding(Printed(indent), key, value, k);
  }

  // ----- lines of a printed text -----

  predicate AllPlain(ls: seq<string>) {
    forall i | 0 <= i < |ls| :: PlainText(ls[i])
  }

  lemma {:induction false} UnlinesNoNul(ls: seq<string>)
    requires AllPlain(ls)
    ensures NoNul(Unlines(ls))
  {
    if ls != [] {
      UnlinesNoNul(ls[1..]);
    }
  }

  lemma {:induction false} UnlinesConcat(a: seq<string>, b: seq<string>)
    ensures Unlines(a + b) == Unlines(a) + Unlines(b)
  {
    if a == [] {
      assert a + b == b;
    } else {
      assert (a + b)[1..] == a[1..] + b;
      UnlinesConcat(a[1..], b);
    }
  }

  lemma {:induction false} LineEndIs(t: string, p: nat, e: nat)
    requires p <= e <= |t| && (e < |t| ==> t[e] == '\n') && forall i | p <= i < e :: t[i] != '\n'
    ensures LineEnd(t, p) == e
    decreases e - p
  {
    if p < e {
      LineEndIs(t, p + 1, e);
    }
  }

  /** The first line of a text that starts at `|pre|`. */
  lemma FirstLine(pre: string, l: string, rest: string)
    requires PlainText(l)
    ensures var t, p := pre + (l + "\n" + rest), |pre|;
            LineAt(t, p) == l && After(t, p) == if rest == "" then None else Some(p + |l| + 1)
  {
    var t, p := pre + (l + "\n" + rest), |pre|;
    assert forall i | p <= i < p + |l| :: t[i] == l[i - p];
    LineEndIs(t, p, p + |l|);
    assert t[p..p + |l|] == l;
  }

  lemma Regroup(pre: string, l: string, rest: string)
    ensures pre + (l + "\n" + rest) == (pre + l + "\n") + rest
  {
  }

  lemma LinesStep(t: string, p: nat)
    requires p <= |t|
    ensures LinesFrom(t, p) == [LineAt(t, p)] + LinesAfter(t, After(t, p))
  {
    hide LineAt, After;
  }

  lemma {:induction false} LinesOfUnlines(pre: string, ls: seq<string>)
    requires ls != [] && AllPlain(ls)
    ensures LinesFrom(pre + Unlines(ls), |pre|) == ls
    decreases |ls|
  {
    hide LineAt, After, LinesFrom, PlainText, Unlines;
    var t, rest := pre + Unlines(ls), Unlines(ls[1..]);
    UnlinesStep(ls);
    UnlinesNonempty(ls[1..]);
    FirstLine(pre, ls[0], rest);
    LinesStep(t, |pre|);
    if |ls| > 1 {
      Regroup(pre, ls[0], rest);
      LinesOfUnlines(pre + ls[0] + "\n", ls[1..]);
    }
    assert ls == [ls[0]] + ls[1..];
  }

  /** The label lines among `ls`, when the first of them starts at `base`. */
  function LabelPositions(base: nat, ls: seq<string>): seq<nat>
    requires AllPlain(ls)
    decreases |ls|
  {
    if ls == [] then []
    else WithFirst(IsLabel(ls[0]), base + Skip(ls[0], 0), LabelPositions(base + |ls[0]| + 1, ls[1..]))
  }

  lemma NoNulAround(pre: string, l: string, rest: string)
    requires NoNul(pre) && PlainText(l) && NoNul(rest)
    ensures NoNul(pre + (l + "\n" + rest)) && NoNul(l) && NoNul(pre + l + "\n")
  {
  }

  lemma LabelOnLine(t: string, p: nat)
    requires NoNul(t) && p <= |t|
    ensures NoNul(LineAt(t, p)) && Skip(t, p) <= |t|
    ensures IsLabel(LineAt(t, p)) <==> Match(t, Skip(t, p), LABEL, 0).Some?
  {
    hide LineAt, LineEnd, Match, Binding, Skip, NoNul, ValueAt;
    LineNoNul(t, p);
    LabelPlain();
    BindingOnLine(t, p, LABEL);
  }

  /** What a line contributes to the enumeration. */
  lemma EntriesOfLine(t: string, p: nat)
    requires NoNul(t) && p <= |t|
    ensures NoNul(LineAt(t, p))
    ensures Entries(t, Some(p)) ==
            WithFirst(IsLabel(LineAt(t, p)), p + Skip(LineAt(t, p), 0), Entries(t, After(t, p)))
  {
    hide LineAt, LineEnd, After, Match, Entries, IsLabel, Skip, NoNul, WithFirst;
    LabelOnLine(t, p);
    EntryStep(t, p);
    SkipOnLine(t, p, p);
  }

  lemma EntriesOfFirstLine(t: string, pre: string, l: string, rest: string)
    requires NoNul(pre) && PlainText(l) && NoNul(rest) && t == pre + (l + "\n" + rest)
    ensures NoNul(t)
    ensures var next := if rest == "" then None else Some(|pre| + |l| + 1);
            Entries(t, Some(|pre|)) == WithFirst(IsLabel(l), |pre| + Skip(l, 0), Entries(t, next))
  {
    hide LineAt, After, Entries, IsLabel, Skip, NoNul, PlainText, LineEnd, WithFirst;
    NoNulAround(pre, l, rest);
    FirstLine(pre, l, rest);
    EntriesOfLine(t, |pre|);
  }

  lemma {:induction false} EntriesOfUnlines(t: string, pre: string, ls: seq<string>)
    requires NoNul(pre) && AllPlain(ls) && ls != [] && t == pre + Unlines(ls)
    ensures NoNul(t) && Entries(t, Some(|pre|)) == LabelPositions(|pre|, ls)
    decreases |ls|
  {
    hide Entries, IsLabel, Skip, NoNul, PlainText, LineEnd, LabelPositions, WithFirst;
    PositionsFirst(|pre|, ls);
    UnlinesNoNul(ls[1..]);
    var rest := Unlines(ls[1..]);
    NoNulAround(pre, ls[0], rest);
    EntriesOfFirstLine(t, pre, ls[0], rest);
    if |ls| > 1 {
      Regroup(pre, ls[0], rest);
      EntriesOfUnlines(t, pre + ls[0] + "\n", ls[1..]);
    } else {
      NoEntries(t);
      NoPositions(|pre| + |ls[0]| + 1);
    }
  }

  lemma LabelPlain()
    ensures PlainText(LABEL)
  {
  }

  lemma NoEntries(t: string)
    requires NoNul(t)
    ensures Entries(t, None) == []
  {
  }

  lemma {:induction false} PositionsConcat(base: nat, a: seq<string>, b: seq<string>)
    requires AllPlain(a) && AllPlain(b) && AllPlain(a + b)
    ensures LabelPositions(base, a + b) == LabelPositions(base, a) + LabelPositions(base + |Unlines(a)|, b)
    decreases |a|
  {
    hide Binding, Skip;
    if a == [] {
      assert a + b == b;
    } else {
      assert (a + b)[1..] == a[1..] + b;
      PositionsConcat(base + |a[0]| + 1, a[1..], b);
    }
  }

  // ----- the printed configuration -----

  lemma {:induction false} BindingLinesAt(indent: string, bs: seq<KeyValue>, i: nat)
    requires i < |bs|
    ensures BindingLines(indent, bs)[i] == PrintBinding(indent, bs[i].key, bs[i].value)
  {
    if i > 0 {
      BindingLinesAt(indent, bs[1..], i - 1);
    }
  }

  lemma BindingLinesPlain(indent: string, bs: seq<KeyValue>)
    requires Indent(indent) && BindingsOk(bs)
    ensures AllPlain(BindingLines(indent, bs))
  {
    hide PlainText, TrimmedText, AnyKey;
    forall i | 0 <= i < |bs|
      ensures PlainText(BindingLines(indent, bs)[i])
    {
      BindingLinesAt(indent, bs, i);
      PrintedPlain(indent, bs[i].key, bs[i].value);
    }
  }

  lemma EntryLinesPlain(e: Entry)
    requires TrimmedText(e.name) && BindingsOk(e.bindings)
    ensures AllPlain(EntryLines(e))
  {
    hide PlainText, TrimmedText, AnyKey;
    LabelIsKey();
    PrintedPlain("", LABEL, e.name);
    BindingLinesPlain("\t", e.bindings);
  }

  lemma {:induction false} EntriesLinesPlain(es: seq<Entry>)
    requires EntriesOk(es)
    ensures AllPlain(EntriesLines(es))
  {
    hide PlainText, TrimmedText, AnyKey, EntryLines;
    if es != [] {
      EntryLinesPlain(es[0]);
      EntriesLinesPlain(es[1..]);
    }
  }

  lemma ConfigLinesPlain(c: Config)
    requires ConfigOk(c)
    ensures AllPlain(ConfigLines(c))
  {
    hide PlainText;
    BindingLinesPlain("", c.globals);
    EntriesLinesPlain(c.entries);
  }

  lemma {:induction false} EntriesLinesConcat(a: seq<Entry>, b: seq<Entry>)
    ensures EntriesLines(a + b) == EntriesLines(a) + EntriesLines(b)
  {
    hide EntryLines;
    if a == [] {
      assert a + b == b;
    } else {
      assert (a + b)[1..] == a[1..] + b;
      EntriesLinesConcat(a[1..], b);
    }
  }

  /** Binding lines contain no label line. */
  lemma {:induction false} NoLabelPositions(base: nat, indent: string, bs: seq<KeyValue>)
    requires Indent(indent) && BindingsOk(bs) && AllPlain(BindingLines(indent, bs))
    ensures LabelPositions(base, BindingLines(indent, bs)) == []
    decreases |bs|
  {
    hide Binding, Skip, PlainText, TrimmedText, AnyKey, PrintBinding;
    if bs != [] {
      LabelIsKey();
      PrintedBinding(indent, bs[0].key, bs[0].value, LABEL);
      var ls := BindingLines(indent, bs);
      assert ls[1..] == BindingLines(indent, bs[1..]);
      NoLabelPositions(base + |ls[0]| + 1, indent, bs[1..]);
    }
  }

  lemma PositionsFirst(base: nat, ls: seq<string>)
    requires AllPlain(ls) && ls != []
    ensures NoNul(ls[0]) && AllPlain(ls[1..])
    ensures LabelPositions(base, ls) ==
            WithFirst(IsLabel(ls[0]), base + Skip(ls[0], 0), LabelPositions(base + |ls[0]| + 1, ls[1..]))
  {
    hide Binding, Skip, WithFirst;
  }

  /** The only label line of an entry is its first. */
  lemma EntryPositions(base: nat, e: Entry)
    requires TrimmedText(e.name) && BindingsOk(e.bindings) && AllPlain(EntryLines(e))
    ensures LabelPositions(base, EntryLines(e)) == [base]
  {
    hide Binding, Skip, PlainText, TrimmedText, AnyKey, PrintBinding, NoNul, BindingLines, BindingsOk, LabelPositions;
    LabelIsKey();
    PrintedBinding("", LABEL, e.name, LABEL);
    PrintedPlain("", LABEL, e.name);
    var ls := EntryLines(e);
    PositionsFirst(base, ls);
    BindingLinesPlain("\t", e.bindings);
    assert ls[1..] == BindingLines("\t", e.bindings);
    NoLabelPositions(base + |ls[0]| + 1, "\t", e.bindings);
  }

  /** The positions of the entries printed from `base` on. */
  function Positions(base: nat, es: seq<Entry>): (ps: seq<nat>)
    ensures |ps| == |es|
    decreases |es|
  {
    if es == [] then [] else [base] + Positions(base + |Unlines(EntryLines(es[0]))|, es[1..])
  }

  lemma {:induction false} EntriesPositions(base: nat, es: seq<Entry>)
    requires EntriesOk(es) && AllPlain(EntriesLines(es))
    ensures LabelPositions(base, EntriesLines(es)) == Positions(base, es)
    decreases |es|
  {
    hide LabelPositions, PlainText, TrimmedText, BindingsOk, EntryLines;
    if es == [] {
      NoPositions(base);
    } else {
      EntryLinesPlain(es[0]);
      EntriesLinesPlain(es[1..]);
      PositionsConcat(base, EntryLines(es[0]), EntriesLines(es[1..]));
      EntryPositions(base, es[0]);
      EntriesPositions(base + |Unlines(EntryLines(es[0]))|, es[1..]);
    }
  }

  lemma NoPositions(base: nat)
    ensures LabelPositions(base, []) == []
  {
  }

  lemma {:induction false} PositionAt(base: nat, es: seq<Entry>, n: nat)
    requires n < |es|
    ensures Positions(base, es)[n] == base + |Unlines(EntriesLines(es[..n]))|
    decreases n
  {
    hide EntryLines;
    if n > 0 {
      PositionAt(base + |Unlines(EntryLines(es[0]))|, es[1..], n - 1);
      assert es[..n][1..] == es[1..][..n - 1];
      UnlinesConcat(EntryLines(es[0]), EntriesLines(es[1..][..n - 1]));
    }
  }

  /** The enumeration of a printed configuration finds each entry where it was printed. */
  lemma PrintedEntries(c: Config)
    requires ConfigOk(c)
    ensures NoNul(Print(c))
    ensures Entries(Print(c), Some(0)) == Positions(|Unlines(BindingLines("", c.globals))|, c.entries)
  {
    hide Entries, LabelPositions, PlainText, BindingsOk, BindingLines, EntriesOk, EntriesLines;
    var ls, g := ConfigLines(c), BindingLines("", c.globals);
    ConfigLinesPlain(c);
    BindingLinesPlain("", c.globals);
    EntriesLinesPlain(c.entries);
    PositionsConcat(0, g, EntriesLines(c.entries));
    NoLabelPositions(0, "", c.globals);
    EntriesPositions(|Unlines(g)|, c.entries);
    UnlinesNoNul(ls);
    assert "" + Unlines(ls) == Unlines(ls);
    if ls != [] {
      EntriesOfUnlines(Print(c), "", ls);
    } else {
      NoPositions(0);
      EmptyText();
    }
  }

  lemma EmptyText()
    ensures NoNul("") && Entries("", Some(0)) == []
    ensures forall key | PlainText(key) :: ValueText("", 0, key) == None
  {
    forall key | PlainText(key)
      ensures ValueText("", 0, key) == None
    {
      assert Start("", 0, key) == Some(0) && LinesFrom("", 0) == [""];
      assert Skip("", 0) == 0 && Binding("", key) == None;
    }
  }

  // ----- looking values up again -----

  /** Lines among which no binding is in scope: none, or a label line first. */
  predicate EndsScope(ls: seq<string>) {
    AllPlain(ls) && (ls != [] ==> IsLabel(ls[0]))
  }

  lemma PlainNoNul(ls: seq<string>)
    requires AllPlain(ls)
    ensures AllNoNul(ls)
  {
  }

  lemma KeyPlain(key: string)
    requires AnyKey(key)
    ensures PlainText(key) && NoNul(key)
  {
  }

  lemma InScopeStep(l: string, ls: seq<string>, key: string)
    requires NoNul(key) && NoNul(l) && AllNoNul(ls)
    ensures AllNoNul([l] + ls)
    ensures InScope([l] + ls, key) ==
            if key != LABEL && IsLabel(l) then None
            else if Binding(l, key).Some? then Binding(l, key)
            else InScope(ls, key)
  {
    hide Binding;
    assert ([l] + ls)[1..] == ls;
  }

  /** Printed bindings followed by no more of the same scope. */
  lemma {:induction false} BindingsInScope(indent: string, bs: seq<KeyValue>, rest: seq<string>, key: string)
    requires Indent(indent) && BindingsOk(bs) && EndsScope(rest) && KeyOk(key)
    ensures AllNoNul(BindingLines(indent, bs) + rest) && NoNul(key)
    ensures InScope(BindingLines(indent, bs) + rest, key) == FirstBinding(bs, key)
    decreases |bs|
  {
    hide Binding, Skip, PlainText, TrimmedText, AnyKey, PrintBinding, NoNul, InScope;
    KeyPlain(key);
    LabelIsKey();
    PlainNoNul(rest);
    if bs == [] {
      assert BindingLines(indent, bs) + rest == rest;
      if rest == [] {
        NothingInScope(key);
      } else {
        assert rest == [rest[0]] + rest[1..];
        InScopeStep(rest[0], rest[1..], key);
      }
    } else {
      var l := PrintBinding(indent, bs[0].key, bs[0].value);
      PrintedBinding(indent, bs[0].key, bs[0].value, LABEL);
      PrintedBinding(indent, bs[0].key, bs[0].value, key);
      BindingsInScope(indent, bs[1..], rest, key);
      PlainIsNoNul(l);
      var ls := BindingLines(indent, bs[1..]) + rest;
      assert BindingLines(indent, bs) + rest == [l] + ls;
      InScopeStep(l, ls, key);
    }
  }

  lemma NothingInScope(key: string)
    requires NoNul(key)
    ensures InScope([], key) == None
  {
  }

  /** Where a lookup starts, at the start of a line without leading blanks. */
  lemma StartOfLine(t: string, p: nat, l: string, key: string)
    requires NoNul(t) && p <= |t| && LineAt(t, p) == l && KeyOk(key) && NoNul(l) && Skip(l, 0) == 0
    ensures Start(t, p, key) == if IsLabel(l) then After(t, p) else Some(p)
  {
    hide Binding, Match, Skip, After, LineAt, NoNul, AnyKey;
    LabelPlain();
    BindingOnLine(t, p, LABEL);
    SkipOnLine(t, p, p);
  }

  lemma PlainIsNoNul(l: string)
    requires PlainText(l)
    ensures NoNul(l)
  {
  }

  /** The lines after the first one. */
  lemma LinesAfterFirst(t: string, pre: string, l: string, ls: seq<string>)
    requires PlainText(l) && AllPlain(ls) && t == pre + (l + "\n" + Unlines(ls))
    ensures LineAt(t, |pre|) == l && LinesAfter(t, After(t, |pre|)) == ls
  {
    hide PlainText, After, LineAt, LinesFrom, LineEnd;
    FirstLine(pre, l, Unlines(ls));
    UnlinesNonempty(ls);
    if ls != [] {
      Regroup(pre, l, Unlines(ls));
      LinesOfUnlines(pre + l + "\n", ls);
    }
  }

  /** An entry printed after `pre`, with the rest of the configuration after it: its name. */
  lemma PrintedEntryName(t: string, pre: string, e: Entry, rest: seq<string>)
    requires NoNul(pre) && TrimmedText(e.name)
    requires AllPlain(EntryLines(e) + rest) && t == pre + Unlines(EntryLines(e) + rest)
    ensures NoNul(t) && PlainText(LABEL) && |pre| <= |t| && ValueText(t, |pre|, LABEL) == Some(e.name)
  {
    hide Binding, PlainText, TrimmedText, AnyKey, PrintBinding, NoNul, InScope, BindingLines, LinesFrom, Unlines;
    var l, ls := PrintBinding("", LABEL, e.name), EntryLines(e) + rest;
    assert ls == [l] + ls[1..];
    LabelPlain();
    LabelIsKey();
    PrintedBinding("", LABEL, e.name, LABEL);
    UnlinesNoNul(ls);
    NoNulConcat(pre, Unlines(ls));
    PlainNoNul(ls);
    LinesOfUnlines(pre, ls);
    assert ls[1..] == BindingLines("\t", e.bindings) + rest;
    PlainParts([l], ls[1..]);
    PlainNoNul(ls[1..]);
    PlainIsNoNul(l);
    InScopeStep(l, ls[1..], LABEL);
  }

  /** The same entry: its bindings. */
  lemma PrintedEntryValue(t: string, pre: string, e: Entry, rest: seq<string>, key: string)
    requires NoNul(t) && TrimmedText(e.name) && BindingsOk(e.bindings) && EndsScope(rest) && KeyOk(key)
    requires AllPlain(EntryLines(e) + rest) && t == pre + Unlines(EntryLines(e) + rest)
    ensures PlainText(key) && |pre| <= |t| && ValueText(t, |pre|, key) == FirstBinding(e.bindings, key)
  {
    hide Binding, Skip, PlainText, TrimmedText, AnyKey, PrintBinding, NoNul, InScope, LineAt, After, BindingLines,
         BindingsOk, LinesFrom, Unlines;
    var l, ls := PrintBinding("", LABEL, e.name), EntryLines(e) + rest;
    assert ls[1..] == BindingLines("\t", e.bindings) + rest;
    assert ls == [l] + ls[1..];
    KeyPlain(key);
    LabelIsKey();
    PrintedPlain("", LABEL, e.name);
    PrintedBinding("", LABEL, e.name, LABEL);
    PlainIsNoNul(l);
    PlainParts([l], ls[1..]);
    UnlinesStep(ls);
    LinesAfterFirst(t, pre, l, ls[1..]);
    StartOfLine(t, |pre|, l, key);
    BindingsInScope("\t", e.bindings, rest, key);
  }

  lemma UnlinesStep(ls: seq<string>)
    requires ls != []
    ensures Unlines(ls) == ls[0] + "\n" + Unlines(ls[1..])
  {
  }

  lemma UnlinesNonempty(ls: seq<string>)
    ensures (Unlines(ls) == "") <==> ls == []
  {
  }

  lemma NoNulConcat(a: string, b: string)
    requires NoNul(a) && NoNul(b)
    ensures NoNul(a + b)
  {
  }

  /** Later entries are out of the scope of earlier lines. */
  lemma EntriesEndScope(es: seq<Entry>)
    requires EntriesOk(es)
    ensures EndsScope(EntriesLines(es))
  {
    hide Binding, PlainText, TrimmedText, AnyKey, PrintBinding, BindingsOk;
    EntriesLinesPlain(es);
    if es != [] {
      LabelIsKey();
      PrintedBinding("", LABEL, es[0].name, LABEL);
    }
  }

  /** What is printed before and from entry `n` on. */
  lemma PrintSplit(c: Config, n: nat)
    requires ConfigOk(c) && n < |c.entries|
    ensures var before := BindingLines("", c.globals) + EntriesLines(c.entries[..n]);
            var from := EntryLines(c.entries[n]) + EntriesLines(c.entries[n + 1..]);
            AllPlain(before) && AllPlain(from) && Print(c) == Unlines(before) + Unlines(from) &&
            |Unlines(before)| == |Unlines(BindingLines("", c.globals))| + |Unlines(EntriesLines(c.entries[..n]))|
  {
    hide EntryLines, BindingLines, PlainText, Unlines;
    var es := c.entries;
    var g := BindingLines("", c.globals);
    var before, from := g + EntriesLines(es[..n]), EntryLines(es[n]) + EntriesLines(es[n + 1..]);
    assert es == es[..n] + es[n..] && es[n..][0] == es[n] && es[n..][1..] == es[n + 1..];
    EntriesLinesConcat(es[..n], es[n..]);
    assert EntriesLines(es[n..]) == from;
    assert ConfigLines(c) == before + from;
    ConfigLinesPlain(c);
    PlainParts(before, from);
    UnlinesConcat(before, from);
    UnlinesConcat(g, EntriesLines(es[..n]));
  }

  lemma PlainParts(a: seq<string>, b: seq<string>)
    requires AllPlain(a + b)
    ensures AllPlain(a) && AllPlain(b)
  {
    hide PlainText;
    forall i | 0 <= i < |a|
      ensures PlainText(a[i])
    {
      assert (a + b)[i] == a[i];
    }
    forall i | 0 <= i < |b|
      ensures PlainText(b[i])
    {
      assert (a + b)[|a| + i] == b[i];
    }
  }

  /** Where the `n`-th entry is printed and found, and what is printed after it. */
  lemma EntryPlace(c: Config, n: nat) returns (pre: string, rest: seq<string>)
    requires ConfigOk(c) && n < |c.entries|
    ensures NoNul(Print(c)) && NoNul(pre) && EndsScope(rest)
    ensures AllPlain(EntryLines(c.entries[n]) + rest) && Print(c) == pre + Unlines(EntryLines(c.entries[n]) + rest)
    ensures var ps := Entries(Print(c), Some(0)); |ps| == |c.entries| && ps[n] == |pre|
  {
    hide Entries, EntriesLines, BindingLines, BindingsOk, TrimmedText, PlainText, AnyKey, Positions, EntryLines,
         Unlines, NoNul, Print;
    var es := c.entries;
    PrintedEntries(c);
    var g := BindingLines("", c.globals);
    PositionAt(|Unlines(g)|, es, n);
    PrintSplit(c, n);
    pre, rest := Unlines(g + EntriesLines(es[..n])), EntriesLines(es[n + 1..]);
    UnlinesNoNul(g + EntriesLines(es[..n]));
    EntriesEndScope(es[n + 1..]);
  }

  /** Reading back a printed configuration: the enumeration finds as many entries as were
      printed, and looking up a key from the `n`-th of them gives its name, or the first
      binding of the key in that entry. */
  lemma EntryRoundTrip(c: Config, n: nat, key: string)
    requires ConfigOk(c) && n < |c.entries| && KeyOk(key)
    ensures NoNul(Print(c)) && PlainText(LABEL) && PlainText(key)
    ensures var t := Print(c);
            var ps := Entries(t, Some(0));
            |ps| == |c.entries| &&
            ValueText(t, ps[n], LABEL) == Some(c.entries[n].name) &&
            ValueText(t, ps[n], key) == FirstBinding(c.entries[n].bindings, key)
  {
    hide Entries, EntriesLines, BindingsOk, TrimmedText, PlainText, AnyKey, EntryLines, Unlines, NoNul, Print,
         ValueText, EndsScope, FirstBinding;
    var pre, rest := EntryPlace(c, n);
    PrintedEntryName(Print(c), pre, c.entries[n], rest);
    PrintedEntryValue(Print(c), pre, c.entries[n], rest, key);
  }

  /** A global lookup gives the first global binding, except in a configuration that begins
      with a label line, which is taken for its first entry. */
  lemma GlobalRoundTrip(c: Config, key: string)
    requires ConfigOk(c) && KeyOk(key)
    ensures NoNul(Print(c)) && PlainText(key)
    ensures ValueText(Print(c), 0, key) ==
            if c.globals == [] && c.entries != [] then FirstBinding(c.entries[0].bindings, key)
            else FirstBinding(c.globals, key)
  {
    hide Entries, EntriesLines, BindingsOk, TrimmedText, PlainText, AnyKey, EntryLines, Unlines, NoNul, ValueText,
         LineAt, PrintBinding, Binding, Skip, InScope, LinesFrom, EntriesOk;
    var ls := ConfigLines(c);
    ConfigLinesPlain(c);
    UnlinesNoNul(ls);
    KeyPlain(key);
    EntriesEndScope(c.entries);
    if c.globals != [] {
      var b := c.globals[0];
      var l := PrintBinding("", b.key, b.value);
      LabelIsKey();
      PlainBinding(c, 0);
      PrintedPlain("", b.key, b.value);
      PrintedBinding("", b.key, b.value, LABEL);
      assert ls[0] == l;
      PlainIsNoNul(l);
      UnlinesStep(ls);
      assert "" + Unlines(ls) == Unlines(ls);
      LinesOfUnlines("", ls);
      FirstLine("", l, Unlines(ls[1..]));
      StartOfLine(Print(c), 0, l, key);
      BindingsInScope("", c.globals, EntriesLines(c.entries), key);
    } else if c.entries != [] {
      EntryRoundTrip(c, 0, key);
      PrintedEntries(c);
      FirstPosition(c);
    } else {
      EmptyPrint(c);
      EmptyText();
    }
  }

  lemma PlainBinding(c: Config, i: nat)
    requires BindingsOk(c.globals) && i < |c.globals|
    ensures AnyKey(c.globals[i].key) && c.globals[i].key != LABEL && TrimmedText(c.globals[i].value)
  {
  }

  lemma FirstPosition(c: Config)
    requires c.globals == [] && c.entries != []
    ensures Positions(|Unlines(BindingLines("", c.globals))|, c.entries)[0] == 0
  {
  }

  lemma EmptyPrint(c: Config)
    requires c.globals == [] && c.entries == []
    ensures Print(c) == ""
  {
  }
}
