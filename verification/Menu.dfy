/** The boot menu: src/menu.c, the bounded string helpers it uses (src/string.c), and the
    listing half of cmdline_loop (src/loli.c). */
module Menu {
  import opened Extlinux
  import opened ExtlinuxLines
  import Strings
  import SpacedLines

  const DEFAULT: string := "default"
  const TIMEOUT: string := "timeout"
  const TITLE: string := SpacedLines.MENU_TITLE

  // ----- strscpy, menu_get_pair, menu_get_timeout -----

  function Min(a: nat, b: nat): nat {
    if a < b then a else b
  }

  method StrScpy(dst: array<char>, t: string, src: nat, dstlen: nat) returns (n: nat)
    requires NoNul(t) && src <= |t| && 0 < dstlen <= dst.Length
    modifies dst
    ensures n == Min(dstlen - 1, |t| - src)
    ensures dst[..n] == t[src..src + n] && dst[n] == '\0'
    ensures forall i | n < i < dst.Length :: dst[i] == old(dst[i])
  {
    n := 0;
    while n < dstlen - 1 && Ch(t, src + n) != '\0'
      invariant n <= dstlen - 1 && src + n <= |t|
      invariant forall i | 0 <= i < n :: dst[i] == t[src + i]
      invariant forall i | n <= i < dst.Length :: dst[i] == old(dst[i])
    {
      dst[n] := Ch(t, src + n);
      n := n + 1;
    }
    dst[n] := '\0';
  }

  /** menu_get_pair: a fresh, exactly fitting, terminated copy of the value, or null. */
  method MenuGetPair(t: string, p: nat, key: string) returns (copy: array?<char>)
    requires NoNul(t) && PlainText(key) && p <= |t|
    ensures copy == null <==> ValueText(t, p, key) == None
    ensures copy != null ==> fresh(copy) && copy[..] == ValueText(t, p, key).value + ['\0']
  {
    hide Lookup, InScope, Start, LinesAfter;
    GetIsInScope(t, p, key);
    var res := GetValue(t, p, key);
    if res.None? {
      return null;
    }
    copy := new char[res.value.len + 1];
    var n := StrScpy(copy, t, res.value.start, res.value.len + 1);
  }

  function TimeoutOf(v: Option<string>): int {
    if v.Some? && Strings.Number(v.value) >= 0 then Strings.Number(v.value) else 0
  }

  /** menu_get_timeout: a missing or malformed timeout counts as 0. */
  method MenuGetTimeout(t: string) returns (timeout: int)
    requires NoNul(t) && PlainText(TIMEOUT)
    ensures timeout == TimeoutOf(ValueText(t, 0, TIMEOUT)) >= 0
  {
    var res := MenuGetPair(t, 0, TIMEOUT);
    if res == null {
      return 0;
    }
    var s := res[..res.Length - 1];
    assert s == ValueText(t, 0, TIMEOUT).value;
    timeout := Strings.Atou(s);
    if timeout < 0 {
      timeout := 0;
    }
  }

  // ----- menu_get_nth_entry -----

  lemma {:induction false} EntriesTail(t: string, p: Option<nat>, k: nat)
    requires NoNul(t) && (p.Some? ==> p.value <= |t|) && k < |Entries(t, p)|
    ensures Entries(t, After(t, Entries(t, p)[k])) == Entries(t, p)[k + 1..]
    ensures Match(t, Entries(t, p)[k], LABEL, 0).Some?
    decreases k
  {
    hide Match, After;
    if k > 0 {
      EntriesTail(t, After(t, Entries(t, p)[0]), k - 1);
    }
  }

  lemma EntryFromIsFirst(t: string, p: Option<nat>)
    requires NoNul(t) && (p.Some? ==> p.value <= |t|)
    ensures EntryFrom(t, p) == if Entries(t, p) == [] then None else Some(Entries(t, p)[0])
  {
  }

  lemma EntriesOfNone(t: string)
    requires NoNul(t)
    ensures Entries(t, None) == []
  {
  }

  lemma EntriesAreLabels(t: string)
    requires NoNul(t)
    ensures forall i | 0 <= i < |Entries(t, Some(0))| :: IsEntry(t, Entries(t, Some(0))[i])
  {
    forall i | 0 <= i < |Entries(t, Some(0))|
      ensures IsEntry(t, Entries(t, Some(0))[i])
    {
      EntriesTail(t, Some(0), i);
    }
  }

  /** A pointer to a label line, past its blanks. */
  predicate IsEntry(t: string, p: nat)
    requires NoNul(t)
  {
    p < |t| && Match(t, p, LABEL, 0).Some?
  }

  function AllEntries(t: string): (es: seq<nat>)
    requires NoNul(t)
    ensures forall i | 0 <= i < |es| :: es[i] < |t| && IsEntry(t, es[i])
  {
    EntriesAreLabels(t);
    Entries(t, Some(0))
  }

  function Nth(es: seq<nat>, k: nat): Option<nat> {
    if k < |es| then Some(es[k]) else None
  }

  /** One call of extlinux_next_entry with the entry before. */
  method FollowingEntry(t: string, ghost k: nat, last: Option<nat>) returns (r: Option<nat>)
    requires NoNul(t) && last == Nth(AllEntries(t), k)
    ensures r == Nth(AllEntries(t), k + 1)
  {
    hide Entries, After;
    ghost var es := AllEntries(t);
    if k < |es| {
      EntriesTail(t, Some(0), k);
      EntryFromIsFirst(t, After(t, es[k]));
    } else {
      EntriesOfNone(t);
      EntryFromIsFirst(t, None);
    }
    r := NextEntry(t, None, last);
  }

  /** menu_get_nth_entry: the entry with that number, NULL past the last. */
  method MenuGetNthEntry(t: string, index: nat) returns (entry: Option<nat>)
    requires NoNul(t)
    ensures entry == Nth(AllEntries(t), index)
  {
    hide AllEntries, EntryFrom, Entries;
    FirstEntry(t);
    entry := NextEntry(t, Some(0), None);
    var i: nat := index;
    while i > 0
      invariant i <= index && entry == Nth(AllEntries(t), index - i)
    {
      i := i - 1;
      entry := FollowingEntry(t, index - i - 1, entry);
    }
  }

  // ----- strncmp, which also compares the characters after the first n -----

  function Compare(t: string, a: nat, b: nat, n: nat): int
    requires a <= |t| && b <= |t|
    decreases n
  {
    if Ch(t, a) == '\0' || Ch(t, b) == '\0' || n == 0 || Ch(t, a) != Ch(t, b) then Ch(t, a) as int - Ch(t, b) as int
    else Compare(t, a + 1, b + 1, n - 1)
  }

  method StrNCmp(t: string, a: nat, b: nat, n: nat) returns (r: int)
    requires a <= |t| && b <= |t|
    ensures r == Compare(t, a, b, n)
  {
    var s1: nat, s2: nat, left: nat := a, b, n;
    while Ch(t, s1) != '\0' && Ch(t, s2) != '\0'
      invariant s1 <= |t| && s2 <= |t| && Compare(t, s1, s2, left) == Compare(t, a, b, n)
      decreases |t| - s1
    {
      if left == 0 {
        break;
      }
      if Ch(t, s1) != Ch(t, s2) {
        break;
      }
      left := left - 1;
      s1 := s1 + 1;
      s2 := s2 + 1;
    }
    return Ch(t, s1) as int - Ch(t, s2) as int;
  }

  /** strncmp answers 0 exactly when the first n characters and the one after them agree. */
  lemma {:induction false} CompareMeaning(t: string, a: nat, b: nat, n: nat)
    requires NoNul(t) && a + n <= |t| && b <= |t|
    ensures Compare(t, a, b, n) == 0 <==>
            b + n <= |t| && t[a..a + n] == t[b..b + n] && Ch(t, a + n) == Ch(t, b + n)
    decreases n
  {
    if n > 0 {
      if b < |t| && t[a] == t[b] {
        CompareMeaning(t, a + 1, b + 1, n - 1);
        if b + n <= |t| {
          assert t[a..a + n] == [t[a]] + t[a + 1..a + n] && t[b..b + n] == [t[b]] + t[b + 1..b + n];
        }
      } else if b + n <= |t| {
        assert t[a..a + n][0] == t[a] && t[b..b + n][0] == t[b];
      }
    }
  }

  // ----- which entry is the default -----

  /** The name of an entry: the value of its own line. */
  lemma NameSlice(t: string, p: nat)
    requires NoNul(t) && IsEntry(t, p)
    ensures Get(t, p, LABEL) == Some(ValueAt(t, Match(t, p, LABEL, 0).value))
    ensures MaximalValue(t, Get(t, p, LABEL).value)
  {
    hide ValueAt, MaximalValue;
    assert t[p] == 'l';
    LookupIsMaximal(t, Some(p), LABEL);
  }

  function NameOf(t: string, p: nat): (s: Slice)
    requires NoNul(t) && IsEntry(t, p)
    ensures Get(t, p, LABEL) == Some(s) && MaximalValue(t, s)
  {
    NameSlice(t, p);
    Get(t, p, LABEL).value
  }

  function SliceText(t: string, s: Slice): string
    requires MaximalValue(t, s)
  {
    t[s.start..s.start + s.len]
  }

  /** A default longer than the name is never found at the name: only blanks follow it. */
  lemma LongerDiffers(t: string, d: Slice, m: Slice)
    requires MaximalValue(t, d) && MaximalValue(t, m) && d.len > m.len && m.start + d.len <= |t|
    ensures t[m.start..m.start + d.len] != SliceText(t, d)
  {
    hide LineEnd;
    var a, c := SliceText(t, d), t[m.start..m.start + d.len];
    var e := m.start + d.len;
    var g := LineEnd(t, m.start + m.len);
    assert c[d.len - 1] == t[e - 1] && a[d.len - 1] == t[d.start + d.len - 1];
    if g < e {
      assert c[g - m.start] == '\n';
    }
  }

  /** The comparison of the default with a name answers 0 exactly when they are equal and
      followed by the same character, or when what follows the default is the blank that
      comes next in a longer name. */
  lemma ComparedNames(t: string, d: Slice, m: Slice)
    requires NoNul(t) && MaximalValue(t, d) && MaximalValue(t, m)
    ensures var a, b, after := SliceText(t, d), SliceText(t, m), Ch(t, d.start + d.len);
            Compare(t, d.start, m.start, d.len) == 0 <==>
            (a == b && after == Ch(t, m.start + m.len)) || (d.len < m.len && a == b[..d.len] && after == b[d.len])
  {
    hide MaximalValue, Compare;
    SliceBounds(t, d);
    SliceBounds(t, m);
    CompareMeaning(t, d.start, m.start, d.len);
    if d.len < m.len {
      assert t[m.start..m.start + d.len] == SliceText(t, m)[..d.len];
    } else if d.len > m.len && m.start + d.len <= |t| {
      LongerDiffers(t, d, m);
    }
  }

  lemma SliceBounds(t: string, s: Slice)
    requires MaximalValue(t, s)
    ensures s.start + s.len <= |t| && |SliceText(t, s)| == s.len
    ensures forall i | 0 <= i < s.len :: SliceText(t, s)[i] != '\n'
  {
  }

  /** No line has blanks at its end, and the last one is terminated. */
  predicate CleanText(t: string) {
    (t != "" ==> t[|t| - 1] == '\n') && forall i | 0 < i < |t| :: t[i] == '\n' ==> !IsSpace(t[i - 1])
  }

  lemma CleanValue(t: string, s: Slice)
    requires CleanText(t) && MaximalValue(t, s)
    ensures Ch(t, s.start + s.len) == '\n'
  {
    var e := s.start + s.len;
    var g := LineEnd(t, e);
    assert t[g] == '\n' ==> !IsSpace(t[g - 1]);
  }

  function LastTrue(b: seq<bool>): (k: int)
    ensures -1 <= k < |b| && (k >= 0 ==> b[k]) && forall j | k < j < |b| :: !b[j]
  {
    if b == [] then -1 else if b[|b| - 1] then |b| - 1 else LastTrue(b[..|b| - 1])
  }

  /** The entry booted by default: the last one marked, or 0. */
  function LastOrFirst(b: seq<bool>): nat {
    if LastTrue(b) < 0 then 0 else LastTrue(b)
  }

  /** Which of the entries compare equal to the default. */
  function Marks(t: string, d: Slice, es: seq<nat>): (b: seq<bool>)
    requires NoNul(t) && d.start <= |t| && forall i | 0 <= i < |es| :: IsEntry(t, es[i])
    ensures |b| == |es|
    ensures forall i | 0 <= i < |es| :: b[i] == (Compare(t, d.start, NameOf(t, es[i]).start, d.len) == 0)
  {
    seq(|es|, i requires 0 <= i < |es| => Compare(t, d.start, NameOf(t, es[i]).start, d.len) == 0)
  }

  lemma DefaultIsMaximal(t: string)
    requires NoNul(t)
    ensures PlainText(DEFAULT)
    ensures Get(t, 0, DEFAULT).Some? ==> MaximalValue(t, Get(t, 0, DEFAULT).value)
  {
    LookupIsMaximal(t, Start(t, 0, DEFAULT), DEFAULT);
  }

  function DefaultEntry(t: string): nat
    requires NoNul(t)
  {
    DefaultIsMaximal(t);
    var d := Get(t, 0, DEFAULT);
    if d.None? then 0 else LastOrFirst(Marks(t, d.value, AllEntries(t)))
  }

  /** The names of the entries, in order. */
  function Names(t: string): (ns: seq<string>)
    requires NoNul(t)
    ensures |ns| == |AllEntries(t)|
    ensures forall i | 0 <= i < |ns| :: ns[i] == SliceText(t, NameOf(t, AllEntries(t)[i]))
  {
    var es := AllEntries(t);
    seq(|es|, i requires 0 <= i < |es| => SliceText(t, NameOf(t, es[i])))
  }

  /** Which of the names are exactly `a`. */
  function Equals(names: seq<string>, a: string): (b: seq<bool>)
    ensures |b| == |names| && forall i | 0 <= i < |b| :: b[i] == (names[i] == a)
  {
    seq(|names|, i requires 0 <= i < |names| => names[i] == a)
  }

  /** The default by name: the last entry of that name, or entry 0. */
  function DefaultByName(d: Option<string>, names: seq<string>): nat {
    if d.None? then 0 else LastOrFirst(Equals(names, d.value))
  }

  /** The name at `m` is the default, or continues it after the character that follows the
      default in the text. */
  predicate Candidate(t: string, d: Slice, m: Slice)
    requires MaximalValue(t, d) && MaximalValue(t, m)
  {
    var a, b := SliceText(t, d), SliceText(t, m);
    a == b || (d.len < m.len && a == b[..d.len] && Ch(t, d.start + d.len) == b[d.len])
  }

  function Candidates(t: string, d: Slice, es: seq<nat>): (b: seq<bool>)
    requires NoNul(t) && MaximalValue(t, d) && forall i | 0 <= i < |es| :: IsEntry(t, es[i])
    ensures |b| == |es| && forall i | 0 <= i < |es| :: b[i] == Candidate(t, d, NameOf(t, es[i]))
  {
    seq(|es|, i requires 0 <= i < |es| => Candidate(t, d, NameOf(t, es[i])))
  }

  /** Two choices agree exactly when the last index that either marks is the first entry or
      marked by both. */
  lemma SameChoice(m: seq<bool>, e: seq<bool>, either: seq<bool>)
    requires |m| == |e| == |either| && forall i | 0 <= i < |m| :: either[i] == (m[i] || e[i])
    ensures LastOrFirst(m) == LastOrFirst(e) <==> LastTrue(either) <= 0 || (m[LastTrue(either)] && e[LastTrue(either)])
  {
    var k, x, y := LastTrue(either), LastTrue(m), LastTrue(e);
    assert x >= 0 ==> either[x];
    assert y >= 0 ==> either[y];
  }

  /** The last candidate is entry 0, or is named exactly like the default and followed by the
      same character. */
  predicate LastCandidateIsExact(t: string, d: Slice)
    requires NoNul(t) && MaximalValue(t, d)
  {
    var es := AllEntries(t);
    var k := LastTrue(Candidates(t, d, es));
    k > 0 ==>
      var m := NameOf(t, es[k]);
      SliceText(t, d) == SliceText(t, m) && Ch(t, d.start + d.len) == Ch(t, m.start + m.len)
  }

  /** The three ways of marking one entry. */
  lemma MarkOf(t: string, d: Slice, m: Slice)
    requires NoNul(t) && MaximalValue(t, d) && MaximalValue(t, m)
    ensures var mark, equal := Compare(t, d.start, m.start, d.len) == 0, SliceText(t, d) == SliceText(t, m);
            Candidate(t, d, m) == (mark || equal) &&
            (mark && equal <==> equal && Ch(t, d.start + d.len) == Ch(t, m.start + m.len))
  {
    hide MaximalValue, Compare;
    ComparedNames(t, d, m);
    SliceBounds(t, d);
    SliceBounds(t, m);
  }

  /** When the default is the last entry of exactly that name, or entry 0 when there is none:
      always without a `default`, and else exactly when the last candidate is exact. */
  lemma DefaultIsByNameExactly(t: string)
    requires NoNul(t)
    ensures Get(t, 0, DEFAULT).Some? ==> MaximalValue(t, Get(t, 0, DEFAULT).value)
    ensures PlainText(DEFAULT)
    ensures DefaultEntry(t) == DefaultByName(ValueText(t, 0, DEFAULT), Names(t)) <==>
            (Get(t, 0, DEFAULT).Some? ==> LastCandidateIsExact(t, Get(t, 0, DEFAULT).value))
  {
    hide MaximalValue, Compare, Entries, Lookup, InScope, Start, AllEntries, LinesAfter, LastOrFirst, LastTrue,
         Candidate, SliceText, IsEntry;
    DefaultIsMaximal(t);
    var d := Get(t, 0, DEFAULT);
    if d.Some? {
      var es, ns := AllEntries(t), Names(t);
      ValueIsSlice(t, d.value);
      var marks, equals, either := Marks(t, d.value, es), Equals(ns, SliceText(t, d.value)), Candidates(t, d.value, es);
      forall i | 0 <= i < |es|
        ensures either[i] == (marks[i] || equals[i])
        ensures marks[i] && equals[i] <==>
                equals[i] && Ch(t, d.value.start + d.value.len) == Ch(t, NameOf(t, es[i]).start + NameOf(t, es[i]).len)
      {
        MarkOf(t, d.value, NameOf(t, es[i]));
      }
      SameChoice(marks, equals, either);
    }
  }

  lemma ValueIsSlice(t: string, d: Slice)
    requires NoNul(t) && PlainText(DEFAULT) && Get(t, 0, DEFAULT) == Some(d) && MaximalValue(t, d)
    ensures ValueText(t, 0, DEFAULT) == Some(SliceText(t, d))
  {
    hide MaximalValue, Lookup, InScope, Start, LinesAfter;
  }

  /** The default's value and all entry names are directly followed by a newline. */
  predicate NamesEndLines(t: string)
    requires NoNul(t)
  {
    DefaultIsMaximal(t);
    var d := Get(t, 0, DEFAULT);
    (d.Some? ==> Ch(t, d.value.start + d.value.len) == '\n') &&
    forall i | 0 <= i < |AllEntries(t)| ::
      Ch(t, NameOf(t, AllEntries(t)[i]).start + NameOf(t, AllEntries(t)[i]).len) == '\n'
  }

  lemma NewlineCandidate(t: string, d: Slice, m: Slice)
    requires MaximalValue(t, d) && MaximalValue(t, m) && Ch(t, d.start + d.len) == '\n'
    ensures Candidate(t, d, m) ==> SliceText(t, d) == SliceText(t, m)
  {
    hide MaximalValue;
    SliceBounds(t, d);
    SliceBounds(t, m);
  }

  /** With the default's value and the names directly followed by newlines, the default is the
      last entry of exactly that name, or entry 0 when there is none. */
  lemma DefaultIsLastOfThatName(t: string)
    requires NoNul(t) && NamesEndLines(t)
    ensures PlainText(DEFAULT) && DefaultEntry(t) == DefaultByName(ValueText(t, 0, DEFAULT), Names(t))
  {
    hide MaximalValue, AllEntries, Candidate, SliceText, DefaultEntry, DefaultByName, ValueText, IsEntry, Lookup,
         Start;
    DefaultIsByNameExactly(t);
    var d := Get(t, 0, DEFAULT);
    if d.Some? {
      var k := LastTrue(Candidates(t, d.value, AllEntries(t)));
      if k > 0 {
        NewlineCandidate(t, d.value, NameOf(t, AllEntries(t)[k]));
      }
    }
  }

  lemma CleanTextEndsLines(t: string)
    requires NoNul(t) && CleanText(t)
    ensures NamesEndLines(t)
  {
    hide MaximalValue, AllEntries, CleanText, IsEntry, Lookup, Start;
    DefaultIsMaximal(t);
    var d := Get(t, 0, DEFAULT);
    if d.Some? {
      CleanValue(t, d.value);
    }
    forall i | 0 <= i < |AllEntries(t)|
      ensures Ch(t, NameOf(t, AllEntries(t)[i]).start + NameOf(t, AllEntries(t)[i]).len) == '\n'
    {
      CleanValue(t, NameOf(t, AllEntries(t)[i]));
    }
  }

  // ----- the listing -----

  /** What is shown for an entry: its menu title, or its name. */
  function Title(t: string, p: nat): string
    requires NoNul(t) && IsEntry(t, p)
  {
    TitleIsPlain();
    var title := ValueText(t, p, TITLE);
    if title.Some? then title.value else SliceText(t, NameOf(t, p))
  }

  lemma TitleIsPlain()
    ensures PlainText(TITLE)
  {
    SpacedLines.WordsOfMenuTitle();
  }

  /** The text shown for an entry: its menu title when there is one, else its name. */
  method TitleOf(t: string, p: nat, name: Slice) returns (title: string)
    requires NoNul(t) && IsEntry(t, p) && name == NameOf(t, p)
    ensures title == Title(t, p)
  {
    hide Lookup, InScope, Start, LinesAfter, Match, PlainText, NoNul, MaximalValue, Words;
    TitleIsPlain();
    SliceBounds(t, name);
    GetIsInScope(t, p, TITLE);
    var found := GetValue(t, p, TITLE);
    var shown := if found.Some? then found.value else name;
    return t[shown.start..shown.start + shown.len];
  }

  lemma LastTrueStep(b: seq<bool>, k: nat)
    requires k < |b|
    ensures LastTrue(b[..k + 1]) == if b[k] then k else LastTrue(b[..k])
  {
    assert b[..k + 1][..k] == b[..k];
  }

  /** What the comparison in the listing loop does to the default chosen so far. */
  method Choose(t: string, d: Option<Slice>, ghost es: seq<nat>, k: nat, name: Slice, chosen: int) returns (next: int)
    requires NoNul(t) && (d.Some? ==> MaximalValue(t, d.value)) && forall i | 0 <= i < |es| :: IsEntry(t, es[i])
    requires k < |es| && name == NameOf(t, es[k])
    requires chosen == if d.None? then 0 else LastTrue(Marks(t, d.value, es)[..k])
    ensures next == if d.None? then 0 else LastTrue(Marks(t, d.value, es)[..k + 1])
  {
    next := chosen;
    if d.Some? {
      LastTrueStep(Marks(t, d.value, es), k);
      var r := StrNCmp(t, d.value.start, name.start, d.value.len);
      if r == 0 {
        next := k;
      }
    }
  }

  /** The line of the listing for entry `i`: its number and its title. */
  function MenuLine(t: string, i: nat): string
    requires NoNul(t) && i < |AllEntries(t)|
  {
    Strings.Text(i, 10) + ": " + Title(t, AllEntries(t)[i])
  }

  /** The listing loop of cmdline_loop: one line per entry with its number and title; the
      entry to boot by default. */
  method ListEntries(t: string) returns (lines: seq<string>, defaultEntry: nat)
    requires NoNul(t)
    ensures |lines| == |AllEntries(t)|
    ensures forall i | 0 <= i < |lines| :: lines[i] == MenuLine(t, i)
    ensures defaultEntry == DefaultEntry(t)
  {
    hide Entries, After, Lookup, Start, LinesAfter, Compare, MaximalValue, IsEntry, LastTrue, Title, AllEntries,
         Strings.Text;
    DefaultIsMaximal(t);
    ghost var es := AllEntries(t);
    var entryNum: nat, chosen: int := 0, -1;
    lines := [];
    var default := GetValue(t, 0, DEFAULT);
    if default.None? {
      chosen := 0;
    }
    NothingChosen(t, default, es);
    FirstEntry(t);
    var p := NextEntry(t, Some(0), None);
    while p.Some?
      invariant entryNum == |lines| <= |es| && p == Nth(es, entryNum)
      invariant forall i | 0 <= i < |lines| :: lines[i] == MenuLine(t, i)
      invariant chosen == if default.None? then 0 else LastTrue(Marks(t, default.value, es)[..entryNum])
      decreases |es| - entryNum
    {
      ghost var named := NameOf(t, es[entryNum]);
      var name := GetValue(t, p.value, LABEL);
      var title := TitleOf(t, p.value, name.value);
      lines := lines + [Strings.Text(entryNum, 10) + ": " + title];
      chosen := Choose(t, default, es, entryNum, name.value, chosen);
      p := FollowingEntry(t, entryNum, p);
      entryNum := entryNum + 1;
    }
    if default.Some? {
      assert Marks(t, default.value, es)[..entryNum] == Marks(t, default.value, es);
    }
    return lines, if chosen < 0 then 0 else chosen;
  }

  lemma FirstEntry(t: string)
    requires NoNul(t)
    ensures EntryFrom(t, Some(0)) == Nth(AllEntries(t), 0)
  {
    EntryFromIsFirst(t, Some(0));
  }

  lemma NothingChosen(t: string, d: Option<Slice>, es: seq<nat>)
    requires NoNul(t) && (d.Some? ==> MaximalValue(t, d.value)) && forall i | 0 <= i < |es| :: IsEntry(t, es[i])
    ensures d.Some? ==> LastTrue(Marks(t, d.value, es)[..0]) == -1
  {
  }
}
