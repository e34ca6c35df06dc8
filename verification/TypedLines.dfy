/** The line editor seen from the keyboard: which line a sequence of keystrokes gives
    (src/interaction.c:115-176). */
module TypedLines {
  import opened LineEditor

  /** The keys of the characters of `s`, whatever their scan codes. */
  predicate Types(keys: seq<Event>, s: string) {
    |keys| == |s| && forall i | 0 <= i < |s| :: keys[i].Key? && keys[i].unicode == s[i] as int
  }

  predicate Printable(s: string) {
    forall i | 0 <= i < |s| :: ' ' <= s[i] <= '~'
  }

  /** Enter gives CR or LF. */
  predicate IsEnter(k: Event) {
    k.Key? && (k.unicode == 13 || k.unicode == 10)
  }

  /** Backspace as a character, or Delete as a scan code without a character. */
  predicate IsErase(k: Event) {
    k.Key? && (k.unicode == 8 || (k.unicode == 0 && k.scan == 8))
  }

  /** A key that neither types nor edits nor ends the line. */
  predicate IsIgnored(k: Event) {
    k.Key? && !IsErase(k) && !IsEnter(k) && !(32 <= k.unicode <= 126)
  }

  lemma {:induction false} FeedSnoc(keys: seq<Event>, k: Event)
    ensures FeedAll(keys + [k]) == Feed(FeedAll(keys), k)
  {
    assert (keys + [k])[..|keys|] == keys;
  }

  /** What is typed is the line. */
  lemma {:induction false} TypedText(keys: seq<Event>, s: string)
    requires Types(keys, s) && Printable(s)
    ensures FeedAll(keys) == Edit(s, s, Waiting)
    decreases |keys|
  {
    if keys != [] {
      var n := |keys| - 1;
      TypedText(keys[..n], s[..n]);
      assert s == s[..n] + [s[n]];
    }
  }

  /** Typing a printable string and Enter returns that string, and echoes it with a line end. */
  lemma TypedLine(keys: seq<Event>, s: string, enter: Event)
    requires Types(keys, s) && Printable(s) && IsEnter(enter)
    ensures FeedAll(keys + [enter]) == Edit(s, s + "\r\n", Done)
  {
    hide FeedAll;
    TypedText(keys, s);
    FeedSnoc(keys, enter);
  }

  /** `n` times backspace removes the last `n` characters, and no more than there are. */
  lemma {:induction false} ErasedText(keys: seq<Event>, erases: seq<Event>)
    requires FeedAll(keys).status == Waiting && forall i | 0 <= i < |erases| :: IsErase(erases[i])
    ensures var line, e := FeedAll(keys).line, FeedAll(keys + erases);
            e.status == Waiting && e.line == line[..if |erases| <= |line| then |line| - |erases| else 0]
    decreases |erases|
  {
    hide FeedAll;
    if erases == [] {
      assert keys + erases == keys;
    } else {
      var n := |erases| - 1;
      ErasedText(keys, erases[..n]);
      FeedSnoc(keys + erases[..n], erases[n]);
      assert keys + erases[..n] + [erases[n]] == keys + erases;
    }
  }

  /** The line and whether it has ended; not what was echoed. */
  predicate SameLine(a: Edit, b: Edit) {
    a.line == b.line && a.status == b.status
  }

  lemma {:induction false} SameLineAfter(a: seq<Event>, b: seq<Event>, rest: seq<Event>)
    requires SameLine(FeedAll(a), FeedAll(b))
    ensures SameLine(FeedAll(a + rest), FeedAll(b + rest))
    decreases |rest|
  {
    hide FeedAll, Translate, IsPrint;
    if rest == [] {
      assert a + rest == a && b + rest == b;
    } else {
      var n := |rest| - 1;
      SameLineAfter(a, b, rest[..n]);
      FeedSnoc(a + rest[..n], rest[n]);
      FeedSnoc(b + rest[..n], rest[n]);
      assert a + rest[..n] + [rest[n]] == a + rest && b + rest[..n] + [rest[n]] == b + rest;
    }
  }

  /** A mistyped character that is erased at once, or a key that is ignored, makes no difference
      to the line, wherever it comes. */
  lemma CorrectionVanishes(keys: seq<Event>, typo: Event, erase: Event, rest: seq<Event>)
    requires typo.Key? && 32 <= typo.unicode <= 126 && IsErase(erase)
    ensures SameLine(FeedAll(keys + [typo, erase] + rest), FeedAll(keys + rest))
  {
    hide FeedAll;
    FeedSnoc(keys, typo);
    FeedSnoc(keys + [typo], erase);
    assert keys + [typo] + [erase] == keys + [typo, erase];
    SameLineAfter(keys + [typo, erase], keys, rest);
  }

  lemma IgnoredVanishes(keys: seq<Event>, k: Event, rest: seq<Event>)
    requires IsIgnored(k)
    ensures SameLine(FeedAll(keys + [k] + rest), FeedAll(keys + rest))
  {
    hide FeedAll;
    FeedSnoc(keys, k);
    SameLineAfter(keys + [k], keys, rest);
  }

  /** Nothing counts after the end of the line or the expiry of the timer. */
  lemma ExpiryEnds(keys: seq<Event>, rest: seq<Event>)
    requires FeedAll(keys).status == Waiting
    ensures FeedAll(keys + [Expired] + rest) == FeedAll(keys).(status := TimedOut)
  {
    hide FeedAll;
    FeedSnoc(keys, Expired);
    var all := keys + [Expired] + rest;
    assert all[..|keys| + 1] == keys + [Expired];
    Finished(all, |keys| + 1);
  }
}
