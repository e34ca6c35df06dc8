/** One line of a configuration, with any blanks between its words (src/extlinux.c:13-91). */
module SpacedLines {
  import opened Extlinux
  import opened ExtlinuxLines

  const MENU_TITLE: string := "menu title"

  predicate OneWord(s: string) {
    TrimmedText(s) && forall i | 0 <= i < |s| :: !IsSpace(s[i])
  }

  /** Keys of one word other than "menu", and the key "menu title". */
  predicate AnyKey(k: string) {
    k == MENU_TITLE || (OneWord(k) && k != "menu")
  }

  /** Spaces and tabs only. */
  predicate Blanks(s: string) {
    forall i | 0 <= i < |s| :: s[i] == ' ' || s[i] == '\t'
  }

  /** The blanks before the key, between the words of "menu title", before the value and after
      it. */
  datatype Spacing = Spacing(indent: string, gap: string, sep: string, trail: string) {
    predicate Ok() {
      Blanks(indent) && Blanks(gap) && gap != "" && Blanks(sep) && sep != "" && Blanks(trail)
    }
  }

  function KeyText(key: string, gap: string): string {
    if key == "menu title" then "menu" + gap + "title" else key
  }

  function SpacedLine(s: Spacing, key: string, value: string): string {
    s.indent + (KeyText(key, s.gap) + s.sep + (value + s.trail))
  }

  // ----- words and blanks -----

  lemma BlanksAreSpaces(s: string)
    requires Blanks(s)
    ensures PlainText(s) && forall i | 0 <= i < |s| :: IsSpace(s[i])
  {
  }

  lemma WordThenBlank(l: string, p: nat, w: nat)
    requires p <= w < |l| && IsSpace(l[w]) && forall i | p <= i < w :: !IsSpace(l[i])
    ensures WordEnd(l, p) == w
  {
    WordEndFrom(l, p, w);
  }

  lemma {:induction false} SkipTo(l: string, p: nat, q: nat)
    requires p <= q < |l| && !IsSpace(l[q]) && forall i | p <= i < q :: IsSpace(l[i])
    ensures Skip(l, p) == q
    decreases q - p
  {
    if p < q {
      SkipTo(l, p + 1, q);
    }
  }

  lemma WordsOfOneWord(k: string)
    requires OneWord(k)
    ensures Words(k, 0) == [k]
  {
    WordEndFrom(k, 0, |k|);
    assert k[0..|k|] == k;
  }

  lemma WordsOfMenuTitle()
    ensures TrimmedText(MENU_TITLE) && Words(MENU_TITLE, 0) == ["menu", "title"]
  {
    var s := MENU_TITLE;
    assert s == ['m', 'e', 'n', 'u', ' ', 't', 'i', 't', 'l', 'e'];
    assert forall i | 0 <= i < |s| :: s[i] != '\0' && s[i] != '\n';
    WordThenBlank(s, 0, 4);
    SkipTo(s, 4, 5);
    WordEndFrom(s, 5, 10);
    assert s[0..4] == "menu" && s[5..10] == "title";
    assert Words(s, 5) == ["title"] + Words(s, 10);
  }

  lemma KeyIsTrimmed(key: string)
    requires AnyKey(key)
    ensures TrimmedText(key)
  {
    hide Words;
    WordsOfMenuTitle();
  }

  lemma KeyWords(k: string)
    requires AnyKey(k)
    ensures k != "" && !IsSpace(k[0])
    ensures Words(k, 0) == if k == MENU_TITLE then ["menu", "title"] else [k]
    ensures k != MENU_TITLE ==> OneWord(k) && k != "menu"
  {
    hide Words;
    if k == MENU_TITLE {
      WordsOfMenuTitle();
    } else {
      WordsOfOneWord(k);
    }
  }

  lemma LabelIsKey()
    ensures AnyKey(LABEL) && OneWord("menu") && OneWord("title")
  {
  }

  lemma TrimmedStart(s: string)
    requires TrimmedText(s)
    ensures PlainText(s) && s != "" && !IsSpace(s[0])
  {
  }

  lemma PlainConcat(a: string, b: string)
    requires PlainText(a) && PlainText(b)
    ensures PlainText(a + b)
  {
  }

  // ----- reading a line word by word -----

  lemma WordPieces(l: string, p: nat, word: string, gap: string, rest: string)
    requires p <= |l| && l[p..] == word + gap + rest && rest != "" && gap != ""
    ensures var w := p + |word|;
            w + |gap| < |l| && l[p..w] == word && l[w + |gap|..] == rest && l[w + |gap|] == rest[0]
    ensures forall i | p <= i < p + |word| :: l[i] == word[i - p]
    ensures forall i | p + |word| <= i < p + |word| + |gap| :: l[i] == gap[i - p - |word|]
  {
    var tail, w := l[p..], p + |word|;
    assert tail[..|word|] == word && tail[|word| + |gap|..] == rest;
    assert l[p..w] == tail[..|word|] && l[w + |gap|..] == tail[|word| + |gap|..];
    assert forall i | p <= i < |l| :: l[i] == tail[i - p];
    assert rest[0] == tail[|word| + |gap|];
  }

  /** The first word of a line, then what follows. */
  lemma ReadWord(l: string, p: nat, word: string, gap: string, rest: string, words: seq<string>)
    requires p <= |l| && l[p..] == word + gap + rest && OneWord(word) && Blanks(gap) && gap != ""
    requires rest != "" && !IsSpace(rest[0]) && words != []
    ensures MatchWords(l, p, words) ==
            if words[0] == word then MatchWords(l, p + |word| + |gap|, words[1..]) else None
    ensures l[p + |word| + |gap|..] == rest
  {
    hide WordEnd, Skip, TrimmedText;
    WordPieces(l, p, word, gap, rest);
    BlanksAreSpaces(gap);
    WordThenBlank(l, p, p + |word|);
    SkipTo(l, p + |word|, p + |word| + |gap|);
  }

  lemma ValueLeft(l: string, p: nat)
    requires p < |l|
    ensures MatchWords(l, p, []) == Some(p)
  {
  }

  lemma TitleMatch(l: string, p: nat, s: Spacing, rest: string, words: seq<string>)
    requires s.Ok() && p <= |l| && l[p..] == "menu" + s.gap + "title" + s.sep + rest
    requires rest != "" && !IsSpace(rest[0]) && words != []
    ensures words[0] != "menu" ==> MatchWords(l, p, words) == None
    ensures var v := p + |"menu" + s.gap + "title"| + |s.sep|;
            MatchWords(l, p, ["menu", "title"]) == Some(v) && l[v..] == rest
  {
    hide MatchWords, TrimmedText, WordEnd, OneWord, AnyKey;
    LabelIsKey();
    var more := "title" + s.sep + rest;
    assert l[p..] == "menu" + s.gap + more;
    ReadWord(l, p, "menu", s.gap, more, words);
    ReadWord(l, p, "menu", s.gap, more, ["menu", "title"]);
    var q := p + 4 + |s.gap|;
    ReadWord(l, q, "title", s.sep, rest, ["title"]);
    assert ["menu", "title"][1..] == ["title"] && ["title"][1..] == [];
    ValueLeft(l, q + 5 + |s.sep|);
  }

  lemma WordMatch(l: string, p: nat, key: string, s: Spacing, rest: string, words: seq<string>)
    requires s.Ok() && p <= |l| && l[p..] == key + s.sep + rest && OneWord(key)
    requires rest != "" && !IsSpace(rest[0]) && words != []
    ensures words[0] != key ==> MatchWords(l, p, words) == None
    ensures var v := p + |key| + |s.sep|;
            l[v..] == rest && (words == [key] ==> MatchWords(l, p, words) == Some(v))
  {
    hide MatchWords, TrimmedText, WordEnd, OneWord;
    ReadWord(l, p, key, s.sep, rest, words);
    if words == [key] {
      assert words[1..] == [];
      ValueLeft(l, p + |key| + |s.sep|);
    }
  }

  lemma MenuIsNotTitle(key: string)
    requires key != "menu"
    ensures ["menu", "title"][0] != key
  {
  }

  lemma PastIndent(s: Spacing, key: string, value: string)
    ensures var l := SpacedLine(s, key, value);
            |s.indent| <= |l| && l[|s.indent|..] == KeyText(key, s.gap) + s.sep + (value + s.trail)
  {
    hide KeyText;
  }

  /** Where word-by-word matching finds the value. */
  lemma SpacedMatch(s: Spacing, key: string, value: string, k: string)
    requires s.Ok() && AnyKey(key) && TrimmedText(value) && AnyKey(k)
    ensures var l, p := SpacedLine(s, key, value), |s.indent|;
            var v := p + |KeyText(key, s.gap)| + |s.sep|;
            v <= |l| && l[v..] == value + s.trail &&
            MatchWords(l, p, Words(k, 0)) == if k == key then Some(v) else None
  {
    hide MatchWords, TrimmedText, Words, WordEnd, AnyKey, OneWord, Blanks, SpacedLine, PlainText;
    var l, p := SpacedLine(s, key, value), |s.indent|;
    TrimmedStart(value);
    KeyWords(key);
    KeyWords(k);
    PastIndent(s, key, value);
    if key == MENU_TITLE {
      TitleMatch(l, p, s, value + s.trail, Words(k, 0));
    } else {
      WordMatch(l, p, key, s, value + s.trail, Words(k, 0));
      MenuIsNotTitle(key);
    }
  }

  // ----- the whole line -----

  lemma {:induction false} TrimmedTo(l: string, v: nat, w: nat, e: nat)
    requires v < w <= e <= |l| && !IsSpace(l[w - 1]) && forall i | w <= i < e :: IsSpace(l[i])
    ensures Trimmed(l, v, e) == w - v
    decreases e
  {
    if w < e {
      TrimmedTo(l, v, w, e - 1);
    }
  }

  lemma SpacedKey(s: Spacing, key: string)
    requires s.Ok() && AnyKey(key)
    ensures PlainText(KeyText(key, s.gap)) && KeyText(key, s.gap) != "" && !IsSpace(KeyText(key, s.gap)[0])
  {
    hide Words;
    KeyWords(key);
    BlanksAreSpaces(s.gap);
  }

  /** It is one line of text, and its blanks in front are skipped. */
  lemma SpacedPlain(s: Spacing, key: string, value: string)
    requires s.Ok() && AnyKey(key) && TrimmedText(value)
    ensures PlainText(SpacedLine(s, key, value)) && TrimmedText(key)
    ensures Skip(SpacedLine(s, key, value), 0) == |s.indent|
  {
    hide PlainText, TrimmedText, Skip, AnyKey, KeyText;
    var word, l := KeyText(key, s.gap), SpacedLine(s, key, value);
    KeyIsTrimmed(key);
    SpacedKey(s, key);
    TrimmedStart(value);
    BlanksAreSpaces(s.indent);
    BlanksAreSpaces(s.sep);
    BlanksAreSpaces(s.trail);
    PlainConcat(word, s.sep);
    PlainConcat(value, s.trail);
    PlainConcat(word + s.sep, value + s.trail);
    PlainConcat(s.indent, word + s.sep + (value + s.trail));
    assert l[|s.indent|] == word[0];
    assert forall i | 0 <= i < |s.indent| :: l[i] == s.indent[i];
    SkipTo(l, 0, |s.indent|);
  }

  lemma SpacedValue(l: string, v: nat, value: string, trail: string)
    requires v <= |l| && l[v..] == value + trail && TrimmedText(value) && Blanks(trail)
    ensures v + Trimmed(l, v, |l|) <= |l| && l[v..v + Trimmed(l, v, |l|)] == value
  {
    hide Trimmed;
    var w, tail := v + |value|, l[v..];
    BlanksAreSpaces(trail);
    assert tail[|value| - 1] == value[|value| - 1] && tail[..|value|] == value;
    assert forall i | v <= i < |l| :: l[i] == tail[i - v];
    assert forall i | w <= i < |l| :: l[i] == trail[i - w];
    TrimmedTo(l, v, w, |l|);
    assert l[v..w] == tail[..|value|];
  }

  /** Whatever blanks it is written with, a line binds its own key to its value and no other
      key. */
  lemma SpacedBinding(s: Spacing, key: string, value: string, k: string)
    requires s.Ok() && AnyKey(key) && TrimmedText(value) && AnyKey(k)
    ensures var l := SpacedLine(s, key, value);
            PlainText(l) && TrimmedText(k) && Binding(l, k) == if k == key then Some(value) else None
  {
    hide MatchWords, Match, Words, SpacedLine, AnyKey, TrimmedText, PlainText, Skip, Trimmed, KeyText;
    var l := SpacedLine(s, key, value);
    SpacedPlain(s, key, value);
    KeyIsTrimmed(k);
    KeyStart(k);
    SpacedMatch(s, key, value, k);
    MatchIsWords(l, |s.indent|, k, 0);
    SpacedValue(l, |s.indent| + |KeyText(key, s.gap)| + |s.sep|, value, s.trail);
    NoNulText(l);
    NoNulText(k);
  }

  lemma NoNulText(s: string)
    ensures PlainText(s) ==> NoNul(s)
    ensures TrimmedText(s) ==> NoNul(s)
  {
  }

  lemma KeyStart(k: string)
    requires AnyKey(k)
    ensures k != "" && !IsSpace(k[0])
  {
    hide Words;
    KeyWords(k);
  }
}
