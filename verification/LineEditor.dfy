/** Console output and the line editor of src/interaction.c. */
module LineEditor {
  import opened Console
  import opened TextGrid

  // ----- output: LF becomes CR LF -----

  function CrLf(s: string): string {
    if s == "" then ""
    else CrLf(s[..|s| - 1]) + (if s[|s| - 1] == '\n' then "\r\n" else [s[|s| - 1]])
  }

  lemma {:induction false} CrLfStep(s: string, i: nat)
    requires i < |s|
    ensures CrLf(s[..i + 1]) == CrLf(s[..i]) + (if s[i] == '\n' then "\r\n" else [s[i]])
  {
    assert s[..i + 1][..i] == s[..i];
  }

  lemma {:induction false} CrLfGrows(s: string, i: nat)
    requires i <= |s|
    ensures |CrLf(s[..i])| <= |CrLf(s)|
    decreases |s| - i
  {
    if i < |s| {
      CrLfStep(s, i);
      CrLfGrows(s, i + 1);
    } else {
      assert s[..i] == s;
    }
  }

  /** puts_internal's conversion into the global buffer; `s` is the string up to its NUL.
      The caller's string must fit once converted. */
  method ConvertLineEnds(s: string, buf: array<char>) returns (n: nat)
    requires |CrLf(s)| < buf.Length
    modifies buf
    ensures n == |CrLf(s)| && buf[..n] == CrLf(s) && buf[n] == '\0'
  {
    var src := 0;
    n := 0;
    while src < |s|
      invariant src <= |s| && n == |CrLf(s[..src])| && n <= |CrLf(s)|
      invariant buf[..n] == CrLf(s[..src])
    {
      hide CrLf;
      CrLfStep(s, src);
      CrLfGrows(s, src + 1);
      if s[src] == '\n' {
        buf[n] := '\r';
        n := n + 1;
      }
      buf[n] := s[src];
      n, src := n + 1, src + 1;
    }
    assert s[..|s|] == s;
    buf[n] := '\0';
  }

  // ----- input -----

  /** A keystroke as the firmware reports it, or the expiry of the timer. */
  datatype Event = Expired | Key(unicode: nat, scan: nat)

  const EOF: int := -1

  /** getchar_translate, after getchar_timeout's check of the timer. */
  function Translate(e: Event): int {
    match e
    case Expired => EOF
    case Key(unicode, scan) => if unicode != 0 then unicode else if scan == 8 then 8 else 0
  }

  predicate IsPrint(c: int) {
    0x1f < c < 0x7f
  }

  datatype Status = Waiting | Done | TimedOut

  /** The line typed so far and everything echoed. */
  datatype Edit = Edit(line: string, echo: string, status: Status)

  /** One keystroke: push a printable character, pop on backspace, end on CR or LF. */
  function Feed(e: Edit, k: Event): Edit {
    var c := Translate(k);
    if e.status != Waiting then e
    else if c == EOF then e.(status := TimedOut)
    else if c == 8 && e.line != "" then Edit(e.line[..|e.line| - 1], e.echo + ERASE, Waiting)
    else if IsPrint(c) then Edit(e.line + [c as char], e.echo + [c as char], Waiting)
    else if c == 13 || c == 10 then Edit(e.line, e.echo + "\r\n", Done)
    else e
  }

  function FeedAll(keys: seq<Event>): Edit {
    if keys == [] then Edit("", "", Waiting) else Feed(FeedAll(keys[..|keys| - 1]), keys[|keys| - 1])
  }

  lemma FeedStep(keys: seq<Event>, i: nat)
    requires i < |keys|
    ensures FeedAll(keys[..i + 1]) == Feed(FeedAll(keys[..i]), keys[i])
  {
    assert keys[..i + 1][..i] == keys[..i];
  }

  lemma {:induction false} Finished(keys: seq<Event>, i: nat)
    requires i <= |keys| && FeedAll(keys[..i]).status != Waiting
    ensures FeedAll(keys) == FeedAll(keys[..i])
    decreases |keys| - i
  {
    if i < |keys| {
      FeedStep(keys, i);
      Finished(keys, i + 1);
    } else {
      assert keys[..i] == keys;
    }
  }

  /** malloc and memcpy of the old contents. */
  method Realloc(s: array<char>, oldSize: nat, size: nat) returns (r: array<char>)
    requires oldSize <= s.Length && oldSize <= size
    ensures fresh(r) && r.Length == size && r[..oldSize] == s[..oldSize]
  {
    r := new char[size];
    for i := 0 to oldSize
      invariant r[..i] == s[..i]
    {
      r[i] := s[i];
    }
  }

  /** Appends a character to a line of `len` characters, growing the buffer when it is full:
      there is always room for the terminator. */
  method Push(s: array<char>, len: nat, c: char) returns (r: array<char>)
    requires len < s.Length
    modifies s
    ensures (r == s || fresh(r)) && len + 1 < r.Length && r[..len + 1] == old(s[..len]) + [c]
  {
    r := s;
    if len + 1 == r.Length {
      r := Realloc(r, len + 1, r.Length + 32);
    }
    r[len] := c;
    assert forall i | 0 <= i < len :: r[i] == old(s[i]);
  }

  // ----- the screens -----

  const ERASE: string := [BS, ' ', BS]

  lemma {:induction false} WithoutNewline(s: string)
    requires '\n' !in s
    ensures CrLf(s) == s
  {
    if s != "" {
      WithoutNewline(s[..|s| - 1]);
    }
  }

  lemma NewlineText()
    ensures CrLf("\n") == "\r\n"
  {
    assert "\n"[..0] == "";
  }

  lemma NotNewline(s: string)
    requires (|s| == 1 && s != "\n") || s == ERASE
    ensures '\n' !in s
  {
    if |s| == 1 {
      assert s == [s[0]];
    }
  }

  lemma EchoedText(s: string)
    requires |s| == 1 || s == ERASE
    ensures CrLf(s) == if s == "\n" then "\r\n" else s
  {
    hide CrLf;
    if s == "\n" {
      NewlineText();
    } else {
      NotNewline(s);
      WithoutNewline(s);
    }
  }

  lemma RunFurther(t: Term, a: string, b: string)
    requires t.Valid()
    ensures Run(t, "") == t && Run(Run(t, a), b) == Run(t, a + b)
  {
    RunConcat(t, a, b);
  }

  /** The framebuffers gFBs and the buffer gLineEndConvertBuf. */
  class Terminal {
    const fbs: seq<FrameBuffer>
    const lineEnds: array<char>

    constructor (fbs: seq<FrameBuffer>, lineEnds: array<char>)
      ensures this.fbs == fbs && this.lineEnds == lineEnds
    {
      this.fbs, this.lineEnds := fbs, lineEnds;
    }

    ghost predicate Ready()
      reads Memory(fbs)
    {
      Separate(fbs) && AllValid(fbs) && lineEnds.Length == 1024 && lineEnds as object !in Memory(fbs)
    }

    /** Every screen is in sync with a buffer that shows `start` run over `text`. */
    ghost predicate Showed(start: seq<Term>, text: string)
      requires Ready()
      reads Memory(fbs)
    {
      |start| == |fbs| &&
      forall k | 0 <= k < |fbs| ::
        fbs[k] in fbs && fbs[k].InSync() && start[k].Valid() && fbs[k].term == Run(start[k], text)
    }

    /** The same, with the pixels outside the console area as in `borders`. */
    ghost predicate Displays(start: seq<Term>, text: string, borders: seq<Outside>)
      reads Memory(fbs)
    {
      Ready() && Showed(start, text) && Borders(fbs) == borders
    }

    /** puts_internal with graphics available. */
    method Puts(s: string, ghost start: seq<Term>, ghost text: string)
      requires Ready() && Showed(start, text) && |CrLf(s)| < 1024
      modifies Memory(fbs), lineEnds
      ensures Ready() && Showed(start, text + CrLf(s))
      ensures Borders(fbs) == old(Borders(fbs))
    {
      hide Run, CrLf, Borders, FrameBuffer.Valid, FrameBuffer.InSync, FrameBuffer.Shaped;
      var n := ConvertLineEnds(s, lineEnds);
      GraphicsWrite(fbs, lineEnds[..n]);
      forall k | 0 <= k < |fbs|
        ensures fbs[k].term == Run(start[k], text + CrLf(s))
      {
        RunFurther(start[k], text, CrLf(s));
      }
    }

    /** getline_timeout over the keystrokes `keys`. It returns a terminated line, nothing on
        expiry of the timer, or is still waiting when the keystrokes run out; every
        keystroke's echo is written to the screens at once. */
    method GetlineTimeout(keys: seq<Event>, ghost start: seq<Term>, ghost text: string)
      returns (s: array?<char>, len: nat, status: Status)
      requires Ready() && Showed(start, text)
      modifies Memory(fbs), lineEnds
      ensures Ready() && Showed(start, text + FeedAll(keys).echo)
      ensures Borders(fbs) == old(Borders(fbs))
      ensures FeedAll(keys).status == status
      ensures status == TimedOut <==> s == null
      ensures s != null ==> fresh(s) && len < s.Length && s[..len] == FeedAll(keys).line
      ensures status == Done ==> s[len] == '\0'
    {
      hide Run, FeedAll, Displays, Translate, CrLf;
      NoKeys(text);
      ghost var borders := Borders(fbs);
      Displayed(start, text, borders);
      var buf := new char[16];
      len := 0;
      ghost var echo := "";
      for i := 0 to |keys|
        invariant fresh(buf) && buf as object !in Memory(fbs) && len < buf.Length
        invariant Displays(start, text + echo, borders)
        invariant FeedAll(keys[..i]) == Edit(buf[..len], echo, Waiting)
      {
        FeedStep(keys, i);
        var c := Translate(keys[i]);
        if c == EOF {
          Finished(keys, i + 1);
          Displayed(start, text + echo, borders);
          return null, len, TimedOut;
        }
        if c == 8 && len > 0 {
          echo := Echo(ERASE, start, text, echo, borders);
          buf[len - 1] := '\0';
          len := len - 1;
        } else if !IsPrint(c) {
          if c == 13 || c == 10 {
            Finished(keys, i + 1);
            echo := Echo("\n", start, text, echo, borders);
            buf[len] := '\0';
            Displayed(start, text + echo, borders);
            return buf, len, Done;
          }
        } else {
          echo := Echo([c as char], start, text, echo, borders);
          buf := Push(buf, len, c as char);
          len := len + 1;
        }
      }
      assert keys[..|keys|] == keys;
      Displayed(start, text + echo, borders);
      return buf, len, Waiting;
    }

    lemma Displayed(start: seq<Term>, text: string, borders: seq<Outside>)
      ensures Displays(start, text, borders) <==> Ready() && Showed(start, text) && Borders(fbs) == borders
    {
    }

    /** One printf of the editor. */
    method Echo(s: string, ghost start: seq<Term>, ghost text: string, ghost echo: string,
                ghost borders: seq<Outside>)
      returns (ghost echo': string)
      requires Displays(start, text + echo, borders) && (|s| == 1 || s == ERASE)
      modifies Memory(fbs), lineEnds
      ensures Displays(start, text + echo', borders) && echo' == echo + if s == "\n" then "\r\n" else s
    {
      hide Run, Ready, Showed, CrLf, Borders;
      EchoedText(s);
      Puts(s, start, text + echo);
      echo' := echo + CrLf(s);
      assert (text + echo) + CrLf(s) == text + echo';
    }
  }

  lemma NoKeys(text: string)
    ensures FeedAll([]) == Edit("", "", Waiting) && text + "" == text
  {
  }

  // ----- what the user sees -----

  function Padded(text: string): (r: Row)
    requires |text| <= COLUMNS
    ensures |r| == COLUMNS && forall i | 0 <= i < COLUMNS :: r[i] == if i < |text| then text[i] else ' '
  {
    text + seq(COLUMNS - |text|, _ => ' ')
  }

  /** The bottom row is exactly `text`, with the cursor after it. */
  predicate Showing(t: Term, text: string) {
    t.Valid() && |text| <= COLUMNS && t.cursor == |text| && Bottom(t) == Padded(text)
  }

  lemma RunOne(t: Term, c: char)
    requires t.Valid()
    ensures Run(t, [c]) == Step(t, Ascii(c)) && Run(t, "") == t
  {
    assert [c][..0] == "";
  }

  lemma RunThree(t: Term, a: char, b: char, c: char)
    requires t.Valid()
    ensures Run(t, [a, b, c]) == Step(Step(Step(t, Ascii(a)), Ascii(b)), Ascii(c))
  {
    hide Step, Run;
    RunOne(t, a);
    RunOne(Run(t, [a]), b);
    RunOne(Run(Run(t, [a]), [b]), c);
    RunConcat(t, [a], [b]);
    RunConcat(t, [a] + [b], [c]);
    assert [a, b, c] == [a] + [b] + [c];
  }

  lemma TypedShows(t: Term, text: string, c: char)
    requires Showing(t, text) && |text| < COLUMNS && IsPrint(c as int)
    ensures Showing(Run(t, [c]), text + [c])
  {
    RunOne(t, c);
    var r := Step(t, c);
    assert Bottom(r) == Bottom(t)[|text| := c];
    assert Padded(text + [c]) == Padded(text)[|text| := c];
  }

  /** On a full row the next character starts a new one: the echo no longer shows the line. */
  lemma FullRowWraps(t: Term, text: string, c: char)
    requires Showing(t, text) && |text| == COLUMNS && IsPrint(c as int)
    ensures Showing(Run(t, [c]), [c]) && Run(t, [c]).rows[ROWS - 2] == Padded(text)
  {
    RunOne(t, c);
    var r := Step(t, c);
    assert Bottom(r) == BlankRow()[0 := c];
    assert Padded([c]) == BlankRow()[0 := c];
  }

  lemma ErasedShows(t: Term, text: string)
    requires Showing(t, text) && text != ""
    ensures Showing(Run(t, [BS, ' ', BS]), text[..|text| - 1])
  {
    RunThree(t, BS, ' ', BS);
    var n := |text| - 1;
    var a := Step(t, BS);
    assert Bottom(a) == Bottom(t)[n := ' '] && a.cursor == n;
    var b := Step(a, ' ');
    assert Bottom(b) == Bottom(t)[n := ' '] && b.cursor == n + 1;
    assert Bottom(Step(b, BS)) == Bottom(t)[n := ' '];
    assert Padded(text[..n]) == Padded(text)[n := ' '];
  }

  /** After the line ends the text is one row up and the bottom row is blank. */
  predicate Entered(t: Term, text: string) {
    t.Valid() && |text| <= COLUMNS && t.cursor == 0 && Bottom(t) == BlankRow() && t.rows[ROWS - 2] == Padded(text)
  }

  lemma EndedShows(t: Term, text: string)
    requires Showing(t, text)
    ensures Entered(Run(t, "\r\n"), text)
  {
    RunOne(t, '\r');
    assert "\r\n"[..1] == "\r";
  }

  /** The text stays on one row at every keystroke. */
  predicate StaysOnRow(prompt: string, keys: seq<Event>) {
    forall i | 0 <= i <= |keys| :: |prompt| + |FeedAll(keys[..i]).line| <= COLUMNS
  }

  /** The bottom row is the prompt followed by the line, or has just been left by them. */
  predicate EchoShown(t: Term, prompt: string, e: Edit)
    requires t.Valid()
  {
    if e.status == Done then Entered(Run(t, e.echo), prompt + e.line) else Showing(Run(t, e.echo), prompt + e.line)
  }

  lemma EraseShown(t: Term, prompt: string, e: Edit)
    requires t.Valid() && Showing(Run(t, e.echo), prompt + e.line) && e.line != ""
    ensures Showing(Run(t, e.echo + ERASE), prompt + e.line[..|e.line| - 1])
  {
    hide Showing, Run;
    var text := prompt + e.line;
    ErasedShows(Run(t, e.echo), text);
    RunConcat(t, e.echo, [BS, ' ', BS]);
    assert text[..|text| - 1] == prompt + e.line[..|e.line| - 1];
  }

  lemma PrintShown(t: Term, prompt: string, e: Edit, c: char)
    requires t.Valid() && Showing(Run(t, e.echo), prompt + e.line) && IsPrint(c as int)
    requires |prompt| + |e.line| < COLUMNS
    ensures Showing(Run(t, e.echo + [c]), prompt + (e.line + [c]))
  {
    hide Showing, Run;
    TypedShows(Run(t, e.echo), prompt + e.line, c);
    RunConcat(t, e.echo, [c]);
    assert prompt + e.line + [c] == prompt + (e.line + [c]);
  }

  lemma EndShown(t: Term, prompt: string, e: Edit)
    requires t.Valid() && Showing(Run(t, e.echo), prompt + e.line)
    ensures Entered(Run(t, e.echo + "\r\n"), prompt + e.line)
  {
    hide Showing, Run, Entered;
    EndedShows(Run(t, e.echo), prompt + e.line);
    RunConcat(t, e.echo, "\r\n");
  }

  lemma KeyShown(t: Term, prompt: string, e: Edit, k: Event)
    requires t.Valid() && EchoShown(t, prompt, e) && |prompt| + |Feed(e, k).line| <= COLUMNS
    ensures EchoShown(t, prompt, Feed(e, k))
  {
    hide Showing, Run, Entered, Translate;
    if e.status == Waiting {
      var c := Translate(k);
      if c == 8 && e.line != "" {
        EraseShown(t, prompt, e);
      } else if IsPrint(c) {
        PrintShown(t, prompt, e, c as char);
      } else if c == 13 || c == 10 {
        EndShown(t, prompt, e);
      }
    }
  }

  lemma NothingTyped(t: Term, prompt: string)
    requires Showing(t, prompt)
    ensures t.Valid() && EchoShown(t, prompt, FeedAll([]))
  {
    RunOne(t, ' ');
    assert prompt + "" == prompt;
  }

  /** The echo keeps the bottom row equal to the prompt followed by the line. */
  lemma {:induction false} EchoShowsLine(t: Term, prompt: string, keys: seq<Event>)
    requires Showing(t, prompt) && StaysOnRow(prompt, keys)
    ensures var e := FeedAll(keys);
            t.Valid() &&
            if e.status == Done then Entered(Run(t, e.echo), prompt + e.line)
            else Showing(Run(t, e.echo), prompt + e.line)
  {
    hide Showing, Run, Entered, Feed;
    NothingTyped(t, prompt);
    if keys != [] {
      var n := |keys| - 1;
      assert forall i | 0 <= i <= n :: keys[..n][..i] == keys[..i];
      EchoShowsLine(t, prompt, keys[..n]);
      assert keys[..|keys|] == keys;
      KeyShown(t, prompt, FeedAll(keys[..n]), keys[n]);
    }
  }

  // ----- prompting -----

  /** A new line leaves an empty row to write on. */
  lemma NewlineShowsNothing(t: Term)
    requires t.Valid()
    ensures Showing(Run(t, "\r\n"), "")
  {
    RunOne(t, '\r');
    assert "\r\n"[..1] == "\r";
    assert Padded("") == BlankRow();
  }

  lemma EnteredShowsNothing(t: Term, text: string)
    requires Entered(t, text)
    ensures Showing(t, "")
  {
    assert Padded("") == BlankRow();
  }

  predicate AllPrint(s: string) {
    forall i | 0 <= i < |s| :: IsPrint(s[i] as int)
  }

  /** A prompt written on an empty row is what the row shows. */
  lemma {:induction false} PromptShows(t: Term, prompt: string)
    requires Showing(t, "") && AllPrint(prompt) && |prompt| <= COLUMNS
    ensures Showing(Run(t, prompt), prompt)
    decreases |prompt|
  {
    hide Showing, Step;
    ShowingIsValid(t, "");
    if prompt == "" {
      StartsEmpty(t);
    } else {
      var n := |prompt| - 1;
      PromptShows(t, prompt[..n]);
      TypedShows(Run(t, prompt[..n]), prompt[..n], prompt[n]);
      RunConcat(t, prompt[..n], [prompt[n]]);
      assert prompt[..n] + [prompt[n]] == prompt;
    }
  }

  lemma ShowingIsValid(t: Term, text: string)
    requires Showing(t, text)
    ensures t.Valid()
  {
  }

  lemma PromptFits()
    ensures AllPrint(PROMPT) && |PROMPT| == 20
  {
  }

  lemma StartsEmpty(t: Term)
    requires Showing(t, "")
    ensures Run(t, "") == t
  {
  }

  const PROMPT: string := "Enter entry number: "

  /** The prompt and the line editor of wait_for_boot_entry, on screens whose bottom row is
      empty. While prompt and line fit one row, every screen shows exactly them on its bottom
      row, or one row up with the bottom row empty again after the line has ended. */
  method PromptForLine(out: Terminal, prompt: string, keys: seq<Event>)
    returns (s: array?<char>, len: nat, status: Status)
    requires out.Ready() && forall k | 0 <= k < |out.fbs| :: out.fbs[k].InSync() && Showing(out.fbs[k].term, "")
    requires AllPrint(prompt) && StaysOnRow(prompt, keys)
    modifies Memory(out.fbs), out.lineEnds
    ensures out.Ready()
    ensures status == FeedAll(keys).status && (status == TimedOut <==> s == null)
    ensures s != null ==> len < s.Length && s[..len] == FeedAll(keys).line
    ensures var text := prompt + FeedAll(keys).line;
            forall k | 0 <= k < |out.fbs| ::
              out.fbs[k].InSync() &&
              if status == Done then Entered(out.fbs[k].term, text) else Showing(out.fbs[k].term, text)
    ensures Borders(out.fbs) == old(Borders(out.fbs))
  {
    hide Showing, Run, CrLf, FeedAll, Borders, Entered, FrameBuffer.InSync, FrameBuffer.Valid;
    ghost var start := Terms(out.fbs);
    FitsRow(prompt, keys);
    WithoutNewline(prompt);
    Fresh(out, start);
    out.Puts(prompt, start, "");
    assert "" + CrLf(prompt) == prompt;
    s, len, status := out.GetlineTimeout(keys, start, prompt);
    forall k | 0 <= k < |out.fbs|
      ensures var text := prompt + FeedAll(keys).line;
              if status == Done then Entered(out.fbs[k].term, text) else Showing(out.fbs[k].term, text)
    {
      PromptShows(start[k], prompt);
      EchoShowsLine(Run(start[k], prompt), prompt, keys);
      RunFurther(start[k], prompt, FeedAll(keys).echo);
    }
  }

  lemma FitsRow(prompt: string, keys: seq<Event>)
    requires AllPrint(prompt) && StaysOnRow(prompt, keys)
    ensures |prompt| <= COLUMNS && '\n' !in prompt && COLUMNS == 80
  {
    assert |prompt| + |FeedAll(keys[..0]).line| <= COLUMNS;
  }

  lemma Fresh(out: Terminal, start: seq<Term>)
    requires out.Ready() && start == Terms(out.fbs)
    requires forall k | 0 <= k < |out.fbs| :: out.fbs[k].InSync() && Showing(out.fbs[k].term, "")
    ensures out.Showed(start, "")
  {
    hide FrameBuffer.InSync;
  }
}
