/** What booting an entry of a printed configuration does, in terms of the configuration
    itself (src/loli.c:70-281). */
module PrintedBoot {
  import opened Extlinux
  import opened ExtlinuxLines
  import opened ConfigText
  import opened Menu
  import opened PrintedMenu
  import opened Boot
  import Strings

  /** The file can be read, and has at least `size` bytes. */
  predicate Readable(a: Answers, path: string, size: nat) {
    a.At(path).size >= size && a.At(path).read >= 0
  }

  /** One round over an entry with the bindings `bs`, from the state `s` on. */
  ghost predicate EntryOutcome(bs: seq<KeyValue>, s: State, a: Answers, r: Outcome) {
    var kernel, initrd, append := FirstBinding(bs, "kernel"), FirstBinding(bs, "initrd"), FirstBinding(bs, "append");
    var fdt := if FirstBinding(bs, "fdt").Some? then FirstBinding(bs, "fdt") else FirstBinding(bs, "devicetree");
    var asked := kernel.Some? && Readable(a, kernel.value, 0) && a.kernelPages;
    var loaded := asked && a.image == Success;
    var tree := fdt.Some? ==> Readable(a, fdt.value, 28);
    var ramdisk := initrd.Some? ==> Readable(a, initrd.value, 0) && a.initrdPages;
    var boots := loaded && tree && ramdisk;
    r.used == 1 && r.booted == (if boots then Some(s.next) else None) &&
    // the image, and one the firmware loaded but refuses
    r.state.images ==
    (if boots || (asked && a.image == SecurityViolation) then s.images[s.next := kernel.value] else s.images) &&
    r.state.next == s.next + (if asked then 1 else 0) &&
    // the command line, the initrd and the device tree
    r.state.options == (if boots && append.Some? then s.options[s.next := append.value + ['\0']] else s.options) &&
    r.state.initrds ==
    s.initrds + (if boots && initrd.Some? then [Initrd(initrd.value, a.At(initrd.value).read)] else []) &&
    r.state.fdts == s.fdts + (if loaded && tree && fdt.Some? then [fdt.value] else [])
  }

  lemma BootKeys()
    ensures KeyOk("kernel") && KeyOk("initrd") && KeyOk("append") && KeyOk("fdt") && KeyOk("devicetree")
  {
  }

  /** The five values load_and_validate_entry looks up at a printed entry. */
  lemma PrintedValues(c: Config, n: nat)
    requires ConfigOk(c) && n < |c.entries|
    ensures NoNul(Print(c)) && n < |AllEntries(Print(c))|
    ensures var t, p, bs := Print(c), AllEntries(Print(c))[n], c.entries[n].bindings;
            KernelOf(t, p) == FirstBinding(bs, "kernel") && InitrdOf(t, p) == FirstBinding(bs, "initrd") &&
            AppendOf(t, p) == FirstBinding(bs, "append") &&
            FdtOf(t, p) ==
            if FirstBinding(bs, "fdt").Some? then FirstBinding(bs, "fdt") else FirstBinding(bs, "devicetree")
  {
    hide ConfigOk, KeyOk, Print, FirstBinding, ValueText, NoNul, PlainText, Entries;
    BootKeys();
    KeysArePlain();
    PrintedCount(c);
    AllEntriesAre(Print(c));
    EntryRoundTrip(c, n, "kernel");
    EntryRoundTrip(c, n, "initrd");
    EntryRoundTrip(c, n, "append");
    EntryRoundTrip(c, n, "fdt");
    EntryRoundTrip(c, n, "devicetree");
  }

  lemma AttemptOutcome(bs: seq<KeyValue>, s: State, t: string, p: nat, a: Answers, r: Outcome)
    requires NoNul(t) && p <= |t| && Valid(s)
    requires KernelOf(t, p) == FirstBinding(bs, "kernel") && InitrdOf(t, p) == FirstBinding(bs, "initrd")
    requires AppendOf(t, p) == FirstBinding(bs, "append")
    requires FdtOf(t, p) ==
             if FirstBinding(bs, "fdt").Some? then FirstBinding(bs, "fdt") else FirstBinding(bs, "devicetree")
    requires r == Outcome(Attempted(s, t, p, a), if Succeeds(t, p, a) then Some(s.next) else None, 1)
    ensures EntryOutcome(bs, s, a, r)
  {
    hide KernelOf, InitrdOf, AppendOf, FdtOf, FirstBinding, NoNul;
  }

  lemma OneRound(t: string, s: State, e: Event)
    requires NoNul(t)
    ensures Run(t, s, [e]) == Outcome(Rounded(t, s, e), if Boots(t, e) then Some(s.next) else None, 1)
  {
    hide Boots, Rounded;
    NoRounds(t, Rounded(t, s, e));
    assert [e][1..] == [];
  }

  lemma SelectedOutcome(c: Config, n: nat, s: State, e: Event)
    requires ConfigOk(c) && n < |c.entries| && Valid(s)
    requires NoNul(Print(c)) && n < |AllEntries(Print(c))|
    requires Selected(Print(c), e.line) == Some(AllEntries(Print(c))[n])
    ensures EntryOutcome(c.entries[n].bindings, s, e.answers, Run(Print(c), s, [e]))
  {
    hide ConfigOk, Print, AllEntries, Selected, Attempted, Succeeds, EntryOutcome, NoNul, Valid, KernelOf, InitrdOf,
         AppendOf, FdtOf, FirstBinding, Run;
    var t, p := Print(c), AllEntries(Print(c))[n];
    PrintedValues(c, n);
    OneRound(t, s, e);
    AttemptOutcome(c.entries[n].bindings, s, t, p, e.answers, Run(t, s, [e]));
  }

  /** Typing the number of an entry attempts that entry: it needs a kernel; its command line is
      its first `append`, its initrd its first `initrd`, its device tree its first `fdt` or,
      failing that, `devicetree`. */
  lemma TypedEntryBoots(c: Config, n: nat, s: State, a: Answers)
    requires ConfigOk(c) && n < |c.entries| <= Strings.TWO_31 && Valid(s)
    ensures NoNul(Print(c))
    ensures EntryOutcome(c.entries[n].bindings, s, a, Run(Print(c), s, [Event(Some(Strings.Text(n, 10)), a)]))
  {
    hide ConfigOk, Print, AllEntries, EntryOutcome, NoNul, Valid, Run, Strings.Text, Strings.Number;
    PrintedCount(c);
    Strings.AtouOfItoa(n);
    SelectedOutcome(c, n, s, Event(Some(Strings.Text(n, 10)), a));
  }

  /** A line that is no number, or the number of no entry, attempts nothing: the loop asks again. */
  lemma MistypedLine(c: Config, line: string, s: State, a: Answers)
    requires ConfigOk(c) && |c.entries| <= Strings.TWO_31
    requires line == "" || !Strings.AllDigits(line) || |c.entries| <= Strings.Value(line, 10) < Strings.TWO_31
    ensures NoNul(Print(c)) && Run(Print(c), s, [Event(Some(line), a)]) == Outcome(s, None, 1)
  {
    hide ConfigOk, Print, AllEntries, NoNul, Run, Strings.Value, Strings.AllDigits, Selected;
    PrintedCount(c);
    SelectsNothing(Print(c), line);
    OneRound(Print(c), s, Event(Some(line), a));
  }

  lemma SelectsNothing(t: string, line: string)
    requires NoNul(t) && |AllEntries(t)| <= Strings.TWO_31
    requires line == "" || !Strings.AllDigits(line) || |AllEntries(t)| <= Strings.Value(line, 10) < Strings.TWO_31
    ensures Selected(t, Some(line)) == None
  {
    hide AllEntries, NoNul, Strings.Value, Strings.AllDigits, Selected, Nth;
    NumbersSelectTheirEntry(t, line);
    if line != "" && Strings.AllDigits(line) {
      NoneSuch(AllEntries(t), Strings.Value(line, 10));
    }
  }

  lemma NoneSuch(es: seq<nat>, n: nat)
    requires |es| <= n
    ensures Nth(es, n) == None
  {
  }

  /** The `default` in force: the first global one, or that of the first entry when the
      configuration begins with it. */
  function DefaultName(c: Config): Option<string> {
    FirstBinding(if c.globals == [] && c.entries != [] then c.entries[0].bindings else c.globals, "default")
  }

  /** Entry `n` is the last one of the default's name, or entry 0 when there is no default or
      no entry of its name. */
  predicate IsDefault(c: Config, n: nat) {
    n < |c.entries| &&
    var name := DefaultName(c);
    if name.Some? && exists i | 0 <= i < |c.entries| :: c.entries[i].name == name.value then
      c.entries[n].name == name.value && forall i | n < i < |c.entries| :: c.entries[i].name != name.value
    else n == 0
  }

  lemma DefaultIsIt(c: Config, n: nat)
    requires IsDefault(c, n)
    ensures DefaultByName(NamedDefault(c), NamesOf(c.entries)) == n
  {
    hide FirstBinding;
    var d, names := NamedDefault(c), NamesOf(c.entries);
    assert d == DefaultName(c);
    if d.Some? {
      var b := Equals(names, d.value);
      var last := LastTrue(b);
      if last >= 0 {
        assert c.entries[last].name == d.value;
      }
      if i: nat :| i < |c.entries| && c.entries[i].name == d.value {
        assert b[i];
      }
    }
  }

  /** When the timer expires the default entry is attempted. */
  lemma TimeoutBootsDefault(c: Config, n: nat, s: State, a: Answers)
    requires ConfigOk(c) && IsDefault(c, n) && Valid(s)
    ensures NoNul(Print(c))
    ensures EntryOutcome(c.entries[n].bindings, s, a, Run(Print(c), s, [Event(None, a)]))
  {
    hide ConfigOk, Print, AllEntries, EntryOutcome, NoNul, Valid, Run, IsDefault, DefaultEntry, DefaultByName;
    DefaultIsInRange(c, n);
    PrintedCount(c);
    PrintedDefault(c);
    DefaultIsIt(c, n);
    SelectedOutcome(c, n, s, Event(None, a));
  }

  lemma DefaultIsInRange(c: Config, n: nat)
    requires IsDefault(c, n)
    ensures n < |c.entries|
  {
  }

  /** There always is one, unless there are no entries at all; then a timeout attempts nothing. */
  lemma SomeDefault(c: Config) returns (n: nat)
    requires c.entries != []
    ensures IsDefault(c, n)
  {
    hide FirstBinding;
    var name := DefaultName(c);
    n := 0;
    if name.Some? {
      n := LastNamed(c.entries, name.value);
    }
  }

  lemma LastNamed(es: seq<Entry>, name: string) returns (n: nat)
    requires es != []
    ensures n < |es|
    ensures if exists i | 0 <= i < |es| :: es[i].name == name then
              es[n].name == name && forall i | n < i < |es| :: es[i].name != name
            else n == 0
  {
    var i := |es| - 1;
    while i >= 0 && es[i].name != name
      invariant -1 <= i < |es| && forall j | i < j < |es| :: es[j].name != name
    {
      i := i - 1;
    }
    n := if i >= 0 then i else 0;
  }

  lemma TimeoutWithoutEntries(c: Config, s: State, a: Answers)
    requires ConfigOk(c) && c.entries == []
    ensures NoNul(Print(c)) && Run(Print(c), s, [Event(None, a)]) == Outcome(s, None, 1)
  {
    hide ConfigOk, Print, AllEntries, NoNul, DefaultEntry, Run;
    PrintedCount(c);
    OneRound(Print(c), s, Event(None, a));
  }

  /** The timeout of a printed configuration is the number its first `timeout` denotes; 0 when
      there is none or it is no number. */
  lemma PrintedTimeout(c: Config)
    requires ConfigOk(c)
    ensures NoNul(Print(c)) && PlainText(TIMEOUT)
    ensures var v := FirstBinding(if c.globals == [] && c.entries != [] then c.entries[0].bindings else c.globals,
                                  "timeout");
            var number := TimeoutOf(ValueText(Print(c), 0, TIMEOUT));
            (v.None? ==> number == 0) &&
            (v.Some? && Strings.AllDigits(v.value) && Strings.Value(v.value, 10) < Strings.TWO_31 ==>
               number == Strings.Value(v.value, 10)) &&
            (v.Some? && !Strings.AllDigits(v.value) ==> number == 0)
  {
    hide ConfigOk, Print, NoNul, PlainText, ValueText, FirstBinding, Strings.Value, KeyOk;
    TimeoutIsKey();
    GlobalRoundTrip(c, "timeout");
    var v := FirstBinding(if c.globals == [] && c.entries != [] then c.entries[0].bindings else c.globals, "timeout");
    if v.Some? && v.value != "" && Strings.AllDigits(v.value) {
      Strings.ValueBound(v.value);
      Strings.NumberIsValueExactly(v.value);
    }
    Strings.ValueOfNothing();
  }

  lemma TimeoutIsKey()
    ensures KeyOk("timeout")
  {
  }
}
