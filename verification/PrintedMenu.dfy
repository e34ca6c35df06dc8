/** The menu of a printed configuration. */
module PrintedMenu {
  import opened Extlinux
  import opened ExtlinuxLines
  import opened SpacedLines
  import opened ConfigText
  import opened Menu
  import Strings

  predicate LineDone(l: string) {
    l != "" && PlainText(l) && !IsSpace(l[|l| - 1])
  }

  lemma CleanStep(l: string, rest: string)
    requires LineDone(l) && CleanText(rest)
    ensures CleanText(l + "\n" + rest)
  {
    var first := l + "\n";
    var t := first + rest;
    assert forall i | 0 <= i < |l| :: t[i] == l[i];
    forall i | 0 < i < |t| && t[i] == '\n'
      ensures !IsSpace(t[i - 1])
    {
      if i >= |first| {
        assert t[i] == rest[i - |first|];
      } else if i == |l| {
        assert t[i - 1] == l[i - 1];
      }
    }
  }

  lemma {:induction false} PrintedIsClean(ls: seq<string>)
    requires forall i | 0 <= i < |ls| :: LineDone(ls[i])
    ensures CleanText(Unlines(ls))
  {
    hide CleanText, LineDone;
    if ls == [] {
      EmptyIsClean();
    } else {
      PrintedIsClean(ls[1..]);
      CleanStep(ls[0], Unlines(ls[1..]));
    }
  }

  lemma EmptyIsClean()
    ensures CleanText("")
  {
  }

  lemma BindingDone(indent: string, key: string, value: string)
    requires Indent(indent) && AnyKey(key) && TrimmedText(value)
    ensures LineDone(PrintBinding(indent, key, value))
  {
    hide PlainText, AnyKey;
    PrintedPlain(indent, key, value);
    var l := PrintBinding(indent, key, value);
    assert l[|l| - 1] == value[|value| - 1];
  }

  lemma BindingsDone(indent: string, bs: seq<KeyValue>)
    requires Indent(indent) && BindingsOk(bs)
    ensures forall l | l in BindingLines(indent, bs) :: LineDone(l)
  {
    hide LineDone, TrimmedText, AnyKey;
    if bs != [] {
      BindingDone(indent, bs[0].key, bs[0].value);
      BindingsDone(indent, bs[1..]);
    }
  }

  lemma {:induction false} EntriesDone(es: seq<Entry>)
    requires EntriesOk(es)
    ensures forall l | l in EntriesLines(es) :: LineDone(l)
  {
    hide LineDone, TrimmedText, AnyKey, BindingsOk;
    if es != [] {
      LabelIsKey();
      BindingDone("", LABEL, es[0].name);
      BindingsDone("\t", es[0].bindings);
      EntriesDone(es[1..]);
    }
  }

  lemma PrintIsClean(c: Config)
    requires ConfigOk(c)
    ensures CleanText(Print(c))
  {
    hide LineDone, CleanText;
    BindingsDone("", c.globals);
    EntriesDone(c.entries);
    PrintedIsClean(ConfigLines(c));
  }

  function NamesOf(es: seq<Entry>): (ns: seq<string>)
    ensures |ns| == |es| && forall i | 0 <= i < |es| :: ns[i] == es[i].name
  {
    seq(|es|, i requires 0 <= i < |es| => es[i].name)
  }

  /** The title shown for an entry. */
  function TitleText(e: Entry): string {
    var title := FirstBinding(e.bindings, "menu title");
    if title.Some? then title.value else e.name
  }

  lemma TitleIsKey()
    ensures KeyOk(MENU_TITLE) && OneWord(DEFAULT) && KeyOk(DEFAULT)
  {
  }

  lemma NameIsValue(t: string, p: nat)
    requires NoNul(t) && IsEntry(t, p)
    ensures PlainText(LABEL) && ValueText(t, p, LABEL) == Some(SliceText(t, NameOf(t, p)))
  {
    hide Lookup, InScope, LinesAfter, Start, Match;
    LabelPlain();
  }

  /** The menu lists the printed entries: their names and titles, in order. */
  lemma PrintedListing(c: Config, i: nat)
    requires ConfigOk(c) && i < |c.entries|
    ensures NoNul(Print(c)) && |AllEntries(Print(c))| == |c.entries|
    ensures var t := Print(c);
            var p := AllEntries(t)[i];
            SliceText(t, NameOf(t, p)) == c.entries[i].name &&
            MenuLine(t, i) == Strings.Text(i, 10) + ": " + TitleText(c.entries[i])
  {
    hide ValueText, Entries, IsEntry, Print, FirstBinding, ConfigOk, SliceText, KeyOk, PlainText, NoNul, Strings.Text;
    TitleIsKey();
    EntryRoundTrip(c, i, MENU_TITLE);
    NameIsValue(Print(c), AllEntries(Print(c))[i]);
  }

  lemma PrintedNames(c: Config)
    requires ConfigOk(c)
    ensures NoNul(Print(c)) && Names(Print(c)) == NamesOf(c.entries)
  {
    hide ConfigOk, Print, AllEntries, NoNul, IsEntry, SliceText;
    PrintedCount(c);
    var ns := Names(Print(c));
    forall i | 0 <= i < |c.entries|
      ensures ns[i] == c.entries[i].name
    {
      PrintedListing(c, i);
    }
  }

  lemma PrintedCount(c: Config)
    requires ConfigOk(c)
    ensures NoNul(Print(c)) && |AllEntries(Print(c))| == |c.entries|
  {
    hide Entries, ConfigOk, Print;
    PrintedEntries(c);
  }

  /** What `default` a printed configuration names: its first global one, or that of the
      first entry when the configuration begins with it. */
  function NamedDefault(c: Config): Option<string> {
    if c.globals == [] && c.entries != [] then FirstBinding(c.entries[0].bindings, DEFAULT)
    else FirstBinding(c.globals, DEFAULT)
  }

  /** The default of a printed configuration is the last entry named like it, or entry 0. */
  lemma PrintedDefault(c: Config)
    requires ConfigOk(c)
    ensures NoNul(Print(c)) && DefaultEntry(Print(c)) == DefaultByName(NamedDefault(c), NamesOf(c.entries))
  {
    hide ConfigOk, Print, DefaultEntry, DefaultByName, ValueText, KeyOk, FirstBinding, PlainText, NoNul, CleanText,
         NamesEndLines;
    TitleIsKey();
    GlobalRoundTrip(c, DEFAULT);
    PrintIsClean(c);
    PrintedNames(c);
    CleanTextEndsLines(Print(c));
    DefaultIsLastOfThatName(Print(c));
  }
}
