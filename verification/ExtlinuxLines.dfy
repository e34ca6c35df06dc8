/** The configuration grammar: what the pointer scans of src/extlinux.c mean in terms of
    words, lines and entries. */
module ExtlinuxLines {
  import opened Extlinux

  // ----- keys are sequences of words -----

  /** The end of the word at `p`. */
  function WordEnd(s: string, p: nat): (q: nat)
    requires p <= |s|
    ensures p <= q <= |s| && (q < |s| ==> IsSpace(s[q])) && forall i | p <= i < q :: !IsSpace(s[i])
    decreases |s| - p
  {
    if p == |s| || IsSpace(s[p]) then p else WordEnd(s, p + 1)
  }

  /** The words of `s` from `p` on. */
  function Words(s: string, p: nat): seq<string>
    requires p <= |s| && (p < |s| ==> !IsSpace(s[p]))
    decreases |s| - p
  {
    if p == |s| then []
    else
      var e := WordEnd(s, p);
      assert e > p;
      [s[p..e]] + Words(s, Skip(s, e))
  }

  predicate PlainText(s: string) {
    NoNul(s) && '\n' !in s
  }

  /** A nonempty one-line string without blanks at its ends. */
  predicate TrimmedText(s: string) {
    s != "" && PlainText(s) && !IsSpace(s[0]) && !IsSpace(s[|s| - 1])
  }

  /** The line `l` from `p` on is the given words, each followed by a positive run of
      blanks, and then a nonempty value; the result is where the value starts. */
  function MatchWords(l: string, p: nat, words: seq<string>): Option<nat>
    requires p <= |l|
    decreases |words|
  {
    if words == [] then (if p < |l| then Some(p) else None)
    else
      var e := WordEnd(l, p);
      if l[p..e] != words[0] || e == |l| then None else MatchWords(l, Skip(l, e), words[1..])
  }

  lemma WordEndFrom(s: string, p: nat, q: nat)
    requires p <= q <= |s| && forall i | p <= i < q :: !IsSpace(s[i])
    ensures WordEnd(s, p) == WordEnd(s, q)
    decreases q - p
  {
    if p < q {
      WordEndFrom(s, p + 1, q);
    }
  }

  /** What matching makes of the word of `l` at `p0` and the word of the key at `k0`. */
  function AfterWord(l: string, p0: nat, key: string, k0: nat): Option<nat>
    requires NoNul(l) && NoNul(key) && p0 <= |l| && k0 <= |key|
  {
    var e, w := WordEnd(key, k0), WordEnd(l, p0);
    if l[p0..w] != key[k0..e] || w == |l| then None
    else if e == |key| then (if Skip(l, w) < |l| then Some(Skip(l, w)) else None)
    else Match(l, Skip(l, w), key, Skip(key, e))
  }

  lemma NoMatch(l: string, p: nat, key: string, k: nat)
    requires NoNul(l) && NoNul(key) && p <= |l| && k < |key| && (p == |l| || l[p] != key[k])
    ensures Match(l, p, key, k) == None
  {
  }

  lemma WordEndsHere(s: string, p: nat)
    requires p <= |s| && (p == |s| || IsSpace(s[p]))
    ensures WordEnd(s, p) == p
  {
  }

  lemma LongerSoFar(l: string, p0: nat, p: nat, key: string, k0: nat, k: nat)
    requires p0 <= p < |l| && k0 <= k < |key| && l[p0..p] == key[k0..k] && l[p] == key[k]
    ensures l[p0..p + 1] == key[k0..k + 1]
  {
    assert l[p0..p + 1] == l[p0..p] + [l[p]] && key[k0..k + 1] == key[k0..k] + [key[k]];
  }

  /** Inside a word of the key, the text must agree character by character. */
  lemma {:induction false} MatchWord(l: string, p0: nat, p: nat, key: string, k0: nat, k: nat)
    requires PlainText(l) && TrimmedText(key) && p0 <= p <= |l| && k0 <= k < |key|
    requires p - p0 == k - k0 && l[p0..p] == key[k0..k] && forall i | k0 <= i <= k :: !IsSpace(key[i])
    ensures Match(l, p, key, k) == AfterWord(l, p0, key, k0)
    decreases |l| - p
  {
    hide Match, AfterWord, WordEnd, Skip;
    WordEndFrom(key, k0, k + 1);
    SameSoFar(l, p0, p, key, k0, k);
    WordEndFrom(l, p0, p);
    if p == |l| || l[p] != key[k] {
      DifferentWords(l, p0, p, key, k0, k);
      NoMatch(l, p, key, k);
    } else {
      WordEndFrom(l, p0, p + 1);
      LongerSoFar(l, p0, p, key, k0, k);
      if k + 1 < |key| && !IsSpace(key[k + 1]) {
        MatchStep(l, p, key, k);
        MatchWord(l, p0, p + 1, key, k0, k + 1);
      } else {
        WordEndsHere(key, k + 1);
        EndOfWord(l, p0, p, key, k0, k);
      }
    }
  }

  lemma SameSoFar(l: string, p0: nat, p: nat, key: string, k0: nat, k: nat)
    requires p0 <= p <= |l| && k0 <= k <= |key| && l[p0..p] == key[k0..k] && forall i | k0 <= i < k :: !IsSpace(key[i])
    ensures forall i | p0 <= i < p :: !IsSpace(l[i])
  {
    var seen, wanted := l[p0..p], key[k0..k];
    forall i | p0 <= i < p
      ensures !IsSpace(l[i])
    {
      assert seen[i - p0] == l[i];
      assert wanted[i - p0] == key[k0 + (i - p0)];
    }
  }

  lemma DifferentWords(l: string, p0: nat, p: nat, key: string, k0: nat, k: nat)
    requires p0 <= p <= |l| && k0 <= k < |key| && p - p0 == k - k0
    requires WordEnd(l, p0) >= p && WordEnd(key, k0) > k && (p == |l| || l[p] != key[k])
    requires NoNul(l) && NoNul(key)
    ensures AfterWord(l, p0, key, k0) == None
  {
    hide Match, Skip, WordEnd;
    var w, e := WordEnd(l, p0), WordEnd(key, k0);
    var a, b := l[p0..w], key[k0..e];
    if |a| == |b| {
      assert a[p - p0] != b[k - k0];
    }
  }

  /** The last word of the key ends after index `k`. */
  lemma EndOfKey(l: string, p: nat, key: string)
    requires PlainText(l) && TrimmedText(key) && p < |l| && l[p] == key[|key| - 1]
    ensures Match(l, p, key, |key| - 1) ==
            if p + 1 < |l| && IsSpace(l[p + 1]) && Skip(l, p + 1) < |l| then Some(Skip(l, p + 1)) else None
  {
    var q := Skip(l, p + 1);
    assert q < |l| ==> l[q] in l;
    assert Match(l, p, key, |key| - 1) == Match(l, p + 1, key, |key|);
  }

  /** A word of the key other than the last ends after index `k`. */
  lemma EndOfInnerWord(l: string, p: nat, key: string, k: nat)
    requires PlainText(l) && TrimmedText(key) && p < |l| && k + 1 < |key| && l[p] == key[k] && IsSpace(key[k + 1])
    ensures Match(l, p, key, k) ==
            if p + 1 < |l| && IsSpace(l[p + 1]) then Match(l, Skip(l, p + 1), key, Skip(key, k + 1)) else None
  {
    if !(p + 1 < |l| && IsSpace(l[p + 1])) {
      assert Match(l, p, key, k) == Match(l, p + 1, key, k + 1);
    }
  }

  /** The key's word ends after index `k`; the text agrees so far. */
  lemma EndOfWord(l: string, p0: nat, p: nat, key: string, k0: nat, k: nat)
    requires PlainText(l) && TrimmedText(key) && p0 <= p < |l| && k0 <= k < |key| && p - p0 == k - k0
    requires l[p0..p + 1] == key[k0..k + 1] && l[p] == key[k]
    requires WordEnd(key, k0) == k + 1 && WordEnd(l, p0) >= p + 1
    ensures Match(l, p, key, k) == AfterWord(l, p0, key, k0)
  {
    hide Match, TrimmedText, WordEnd, Skip;
    var e, w := WordEnd(key, k0), WordEnd(l, p0);
    assert w > p + 1 ==> |l[p0..w]| != |key[k0..e]| && !IsSpace(l[p + 1]);
    if e == |key| {
      EndOfKey(l, p, key);
    } else {
      EndOfInnerWord(l, p, key, k);
    }
  }

  /** match_key is matching word by word. */
  lemma {:induction false} MatchIsWords(l: string, p: nat, key: string, k: nat)
    requires PlainText(l) && TrimmedText(key) && p <= |l| && k < |key| && !IsSpace(key[k])
    ensures Match(l, p, key, k) == MatchWords(l, p, Words(key, k))
    decreases |key| - k
  {
    hide Match, WordEnd, Skip;
    var e, w := WordEnd(key, k), WordEnd(l, p);
    MatchWord(l, p, p, key, k, k);
    assert Words(key, k)[1..] == Words(key, Skip(key, e));
    if l[p..w] == key[k..e] && w < |l| && e < |key| {
      LastIsWord(key, e);
      MatchIsWords(l, Skip(l, w), key, Skip(key, e));
    }
  }

  lemma LastIsWord(key: string, e: nat)
    requires TrimmedText(key) && e < |key|
    ensures Skip(key, e) < |key|
  {
  }

  // ----- a scan stays on its line -----

  function LineAt(t: string, p: nat): (l: string)
    requires p <= |t|
    ensures '\n' !in l && |l| == LineEnd(t, p) - p
  {
    t[p..LineEnd(t, p)]
  }

  function Offset(v: Option<nat>, d: nat): Option<nat> {
    if v.Some? then Some(d + v.value) else None
  }

  lemma {:induction false} LineEndFrom(t: string, p: nat, q: nat)
    requires p <= |t| && p <= q <= LineEnd(t, p)
    ensures LineEnd(t, q) == LineEnd(t, p)
    decreases q - p
  {
    if p < q {
      LineEndFrom(t, p + 1, q);
    }
  }

  lemma {:induction false} SkipOnLine(t: string, p: nat, x: nat)
    requires p <= |t| && p <= x <= LineEnd(t, p)
    ensures var l := LineAt(t, p); Skip(t, x) == p + Skip(l, x - p) <= LineEnd(t, p)
    decreases |t| - x
  {
    if IsSpace(Ch(t, x)) {
      SkipOnLine(t, p, x + 1);
    }
  }

  /** The end of a match: the text of the line or the key is used up. */
  lemma MatchEndsOnLine(t: string, p: nat, x: nat, key: string, k: nat)
    requires NoNul(t) && PlainText(key) && p <= |t| && p <= x <= LineEnd(t, p) && k <= |key|
    requires x == LineEnd(t, p) || k == |key|
    ensures var l := LineAt(t, p); PlainText(l) && Match(t, x, key, k) == Offset(Match(l, x - p, key, k), p)
  {
    hide Skip;
    var l, e := LineAt(t, p), LineEnd(t, p);
    assert forall i | 0 <= i < |l| :: l[i] == t[p + i];
    SkipOnLine(t, p, x);
    assert k < |key| ==> key[k] in key;
  }

  /** One step of match_key. */
  lemma MatchStep(t: string, p: nat, key: string, k: nat)
    requires p < |t| && k < |key| && NoNul(t) && NoNul(key)
    ensures Match(t, p, key, k) ==
            if t[p] != key[k] then None
            else if IsSpace(Ch(key, k + 1)) && IsSpace(Ch(t, p + 1)) then
              Match(t, Skip(t, p + 1), key, Skip(key, k + 1))
            else Match(t, p + 1, key, k + 1)
  {
  }

  /** A character of a line, and whether a blank follows it there. */
  lemma CharOnLine(t: string, p: nat, x: nat)
    requires NoNul(t) && p <= |t| && p <= x < LineEnd(t, p)
    ensures var l := LineAt(t, p);
            PlainText(l) && |l| == LineEnd(t, p) - p && l[x - p] == t[x] &&
            (IsSpace(Ch(l, x + 1 - p)) <==> IsSpace(Ch(t, x + 1)))
  {
    hide LineEnd;
    LinePlain(t, p);
  }

  lemma LinePlain(t: string, p: nat)
    requires NoNul(t) && p <= |t|
    ensures PlainText(LineAt(t, p))
  {
    hide LineEnd;
    var l := LineAt(t, p);
    assert forall i | 0 <= i < |l| :: l[i] == t[p + i];
  }

  /** match_key's answer depends on the current line only. */
  lemma {:induction false} MatchOnLine(t: string, p: nat, x: nat, key: string, k: nat)
    requires NoNul(t) && PlainText(key) && p <= |t| && p <= x <= LineEnd(t, p) && k <= |key|
    ensures var l := LineAt(t, p); PlainText(l) && Match(t, x, key, k) == Offset(Match(l, x - p, key, k), p)
    decreases |t| - x
  {
    hide Skip, LineEnd, LineAt, Match, NoNul;
    if x == LineEnd(t, p) || k == |key| {
      MatchEndsOnLine(t, p, x, key, k);
    } else {
      var l := LineAt(t, p);
      CharOnLine(t, p, x);
      MatchStep(t, x, key, k);
      MatchStep(l, x - p, key, k);
      if t[x] == key[k] {
        SkipOnLine(t, p, x + 1);
        if IsSpace(Ch(key, k + 1)) && IsSpace(Ch(t, x + 1)) {
          MatchOnLine(t, p, Skip(t, x + 1), key, Skip(key, k + 1));
        } else {
          MatchOnLine(t, p, x + 1, key, k + 1);
        }
      }
    }
  }

  // ----- lines -----

  /** The lines of the text from `p` on; a final newline starts no further line. */
  function LinesFrom(t: string, p: nat): (ls: seq<string>)
    requires p <= |t|
    ensures ls != []
    decreases |t| - p
  {
    var q := After(t, p);
    [LineAt(t, p)] + if q.Some? then LinesFrom(t, q.value) else []
  }

  function LinesAfter(t: string, p: Option<nat>): seq<string>
    requires p.Some? ==> p.value <= |t|
  {
    if p.Some? then LinesFrom(t, p.value) else []
  }

  /** The trimmed value a line gives `key`, if the line is a binding of `key`. */
  function Binding(l: string, key: string): (v: Option<string>)
    requires NoNul(l) && NoNul(key)
  {
    var v := Match(l, Skip(l, 0), key, 0);
    if v.Some? then Some(l[v.value..v.value + Trimmed(l, v.value, |l|)]) else None
  }

  predicate IsLabel(l: string)
    requires NoNul(l)
  {
    Binding(l, LABEL).Some?
  }

  /** The first binding of `key` among the lines, up to the next label line. */
  function InScope(ls: seq<string>, key: string): Option<string>
    requires NoNul(key) && forall i | 0 <= i < |ls| :: NoNul(ls[i])
  {
    if ls == [] then None
    else if key != LABEL && IsLabel(ls[0]) then None
    else if Binding(ls[0], key).Some? then Binding(ls[0], key)
    else InScope(ls[1..], key)
  }

  function TextOf(t: string, s: Option<Slice>): Option<string>
    requires s.Some? ==> s.value.start + s.value.len <= |t|
  {
    if s.Some? then Some(t[s.value.start..s.value.start + s.value.len]) else None
  }

  lemma {:induction false} TrimmedOnLine(t: string, p: nat, v: nat, e: nat)
    requires p <= |t| && p <= v <= e <= LineEnd(t, p)
    ensures Trimmed(t, v, e) == Trimmed(LineAt(t, p), v - p, e - p)
    decreases e
  {
    if e > v && IsSpace(t[e - 1]) {
      TrimmedOnLine(t, p, v, e - 1);
    }
  }

  /** The text of the binding found on the line at `p`. */
  lemma BindingOnLine(t: string, p: nat, key: string)
    requires NoNul(t) && PlainText(key) && p <= |t|
    ensures var l, q := LineAt(t, p), Skip(t, p);
            PlainText(l) && q <= LineEnd(t, p) &&
            var v := Match(t, q, key, 0);
            (v.Some? ==> v.value <= |t| && ValueAt(t, v.value).start + ValueAt(t, v.value).len <= |t|) &&
            Binding(l, key) == TextOf(t, if v.Some? then Some(ValueAt(t, v.value)) else None)
  {
    hide Match, Trimmed, LineEnd, LineAt, Skip, NoNul, ValueAt;
    var l, q := LineAt(t, p), Skip(t, p);
    SkipOnLine(t, p, p);
    MatchOnLine(t, p, q, key, 0);
    var v := Match(t, q, key, 0);
    if v.Some? {
      MatchStaysOnLine(l, q - p, key, 0);
      ValueOnLine(t, p, v.value);
    }
  }

  lemma SliceOnLine(t: string, p: nat, e: nat, a: nat, b: nat)
    requires p <= a <= b <= e <= |t|
    ensures t[p..e][a - p..b - p] == t[a..b]
  {
    var x, y := t[p..e][a - p..b - p], t[a..b];
    assert |x| == |y| && forall i | 0 <= i < |x| :: x[i] == y[i];
  }

  lemma ValueOnLine(t: string, p: nat, v: nat)
    requires p <= |t| && p <= v < p + |LineAt(t, p)|
    ensures var l, s := LineAt(t, p), ValueAt(t, v);
            |l| == LineEnd(t, p) - p && s.start == v && s.start + s.len <= |t| &&
            v - p + Trimmed(l, v - p, |l|) <= |l| &&
            l[v - p..v - p + Trimmed(l, v - p, |l|)] == t[s.start..s.start + s.len]
  {
    hide Trimmed, LineEnd;
    var e := LineEnd(t, p);
    LineEndFrom(t, p, v);
    TrimmedOnLine(t, p, v, e);
    SliceOnLine(t, p, e, v, v + Trimmed(t, v, e));
  }

  lemma MatchStaysOnLine(l: string, p: nat, key: string, k: nat)
    requires NoNul(l) && NoNul(key) && p <= |l| && k <= |key|
    ensures Match(l, p, key, k).Some? ==> Match(l, p, key, k).value < |l|
  {
  }

  predicate AllNoNul(ls: seq<string>) {
    forall i | 0 <= i < |ls| :: NoNul(ls[i])
  }

  lemma {:induction false} LinesNoNul(t: string, p: nat)
    requires NoNul(t) && p <= |t|
    ensures AllNoNul(LinesFrom(t, p))
    decreases |t| - p
  {
    var q := After(t, p);
    if q.Some? {
      LinesNoNul(t, q.value);
    }
  }

  /** extlinux_get_value's scan is the search over lines. */
  lemma {:induction false} LookupIsInScope(t: string, p: nat, key: string)
    requires NoNul(t) && PlainText(key) && p <= |t|
    ensures AllNoNul(LinesFrom(t, p))
    ensures var s := Lookup(t, Some(p), key);
            (s.Some? ==> s.value.start + s.value.len <= |t|) && TextOf(t, s) == InScope(LinesFrom(t, p), key)
    decreases |t| - p
  {
    hide Match, ValueAt, Binding, Skip, LineEnd, LineAt;
    LinesNoNul(t, p);
    var l, q, next := LineAt(t, p), Skip(t, p), After(t, p);
    BindingOnLine(t, p, key);
    BindingOnLine(t, p, LABEL);
    LineEndFrom(t, p, q);
    assert LinesFrom(t, p)[0] == l && LinesFrom(t, p)[1..] == LinesAfter(t, next);
    if q == |t| {
      NothingAtEnd(t, key);
      NothingAtEnd(t, LABEL);
    } else if next.Some? {
      LookupIsInScope(t, next.value, key);
    }
  }

  lemma NothingAtEnd(t: string, key: string)
    requires NoNul(t) && NoNul(key)
    ensures Match(t, |t|, key, 0) == None
  {
  }

  // ----- what a lookup answers -----

  /** Line `j` is the first binding of `key` in scope. */
  predicate FirstInScope(ls: seq<string>, key: string, j: nat)
    requires NoNul(key) && AllNoNul(ls)
  {
    j < |ls| && Binding(ls[j], key).Some? &&
    (forall i | 0 <= i < j :: Binding(ls[i], key).None?) &&
    (key != LABEL ==> forall i | 0 <= i <= j :: !IsLabel(ls[i]))
  }

  /** The search finds the first binding in scope, and nothing exactly when there is none. */
  lemma {:induction false} InScopeMeaning(ls: seq<string>, key: string) returns (j: nat)
    requires NoNul(key) && AllNoNul(ls)
    ensures InScope(ls, key).Some? ==> FirstInScope(ls, key, j) && InScope(ls, key) == Binding(ls[j], key)
    ensures InScope(ls, key).None? ==> forall i: nat :: !FirstInScope(ls, key, i)
  {
    hide Binding;
    j := 0;
    if ls != [] && !(key != LABEL && IsLabel(ls[0])) && Binding(ls[0], key).None? {
      var k := InScopeMeaning(ls[1..], key);
      j := k + 1;
      if InScope(ls, key).None? {
        forall i: nat
          ensures !FirstInScope(ls, key, i)
        {
          assert i > 0 && FirstInScope(ls, key, i) ==> FirstInScope(ls[1..], key, i - 1);
        }
      }
    }
  }

  /** extlinux_get_value answers with the first binding in scope: among the lines from the
      pointer on, or after the pointer's own line when that is a label line. */
  lemma GetIsInScope(t: string, p: nat, key: string)
    requires NoNul(t) && PlainText(key) && p <= |t|
    ensures AllNoNul(LinesAfter(t, Start(t, p, key)))
    ensures var s := Get(t, p, key);
            (s.Some? ==> s.value.start + s.value.len <= |t|) &&
            TextOf(t, s) == InScope(LinesAfter(t, Start(t, p, key)), key)
  {
    hide Match, Lookup, InScope, LinesFrom;
    var q := Start(t, p, key);
    if q.Some? {
      LookupIsInScope(t, q.value, key);
    } else {
      NoLines(t, key);
    }
  }

  /** The text of the value extlinux_get_value reports. */
  function ValueText(t: string, p: nat, key: string): (v: Option<string>)
    requires NoNul(t) && PlainText(key) && p <= |t|
    ensures AllNoNul(LinesAfter(t, Start(t, p, key)))
    ensures v == InScope(LinesAfter(t, Start(t, p, key)), key)
  {
    GetIsInScope(t, p, key);
    TextOf(t, Get(t, p, key))
  }

  lemma NoLines(t: string, key: string)
    requires NoNul(t) && NoNul(key)
    ensures InScope([], key) == None && Lookup(t, None, key) == None
  {
  }

  /** The reported slice is the maximal trimmed value: nonempty, on one line, not blank at
      either end, after a blank, and only blanks follow it on its line. */
  predicate MaximalValue(t: string, s: Slice) {
    var e := s.start + s.len;
    0 < s.start && 0 < s.len && e <= |t| && IsSpace(t[s.start - 1]) &&
    !IsSpace(t[s.start]) && !IsSpace(t[e - 1]) && '\n' !in t[s.start..e] &&
    e <= LineEnd(t, e) && forall i | e <= i < LineEnd(t, e) :: IsSpace(t[i])
  }

  lemma {:induction false} MatchAtValue(t: string, p: nat, key: string, k: nat)
    requires NoNul(t) && NoNul(key) && p <= |t| && k <= |key|
    ensures var v := Match(t, p, key, k);
            v.Some? ==> 0 < v.value < |t| && IsSpace(t[v.value - 1]) && !IsSpace(t[v.value]) && t[v.value] != '\n'
    decreases |t| - p
  {
    if p < |t| && k < |key| && t[p] == key[k] {
      if IsSpace(Ch(key, k + 1)) && IsSpace(Ch(t, p + 1)) {
        MatchAtValue(t, Skip(t, p + 1), key, Skip(key, k + 1));
      } else {
        MatchAtValue(t, p + 1, key, k + 1);
      }
    }
  }

  lemma ValueIsMaximal(t: string, v: nat)
    requires 0 < v < |t| && IsSpace(t[v - 1]) && !IsSpace(t[v]) && t[v] != '\n'
    ensures MaximalValue(t, ValueAt(t, v))
  {
    var e := LineEnd(t, v);
    var n := Trimmed(t, v, e);
    assert n > 0;
    LineEndFrom(t, v, v + n);
    assert forall i | v <= i < v + n :: t[i] != '\n';
  }

  lemma {:induction false} LookupIsMaximal(t: string, p: Option<nat>, key: string)
    requires NoNul(t) && NoNul(key) && (p.Some? ==> p.value <= |t|)
    ensures var s := Lookup(t, p, key); s.Some? ==> MaximalValue(t, s.value)
    decreases if p.Some? then |t| - p.value + 1 else 0
  {
    hide Match, ValueAt, MaximalValue;
    if p.Some? {
      var q := Skip(t, p.value);
      MatchAtValue(t, q, key, 0);
      var v := Match(t, q, key, 0);
      if v.Some? {
        ValueIsMaximal(t, v.value);
      }
      LookupIsMaximal(t, After(t, q), key);
    }
  }

  // ----- entries -----

  /** Where the lines start, from `p` on. */
  function LineStarts(t: string, p: Option<nat>): (ss: seq<nat>)
    requires p.Some? ==> p.value <= |t|
    ensures forall i | 0 <= i < |ss| :: ss[i] <= |t|
    decreases if p.Some? then |t| - p.value + 1 else 0
  {
    if p.None? then [] else [p.value] + LineStarts(t, After(t, p.value))
  }

  lemma LineNoNul(t: string, p: nat)
    requires NoNul(t) && p <= |t|
    ensures NoNul(LineAt(t, p))
  {
  }

  function WithFirst(found: bool, at: nat, rest: seq<nat>): seq<nat> {
    if found then [at] + rest else rest
  }

  /** The label lines among some lines, as pointers past their leading blanks. */
  function LabelStarts(t: string, ss: seq<nat>): seq<nat>
    requires NoNul(t) && forall i | 0 <= i < |ss| :: ss[i] <= |t|
  {
    if ss == [] then []
    else
      LineNoNul(t, ss[0]);
      WithFirst(IsLabel(LineAt(t, ss[0])), Skip(t, ss[0]), LabelStarts(t, ss[1..]))
  }

  /** The entries extlinux_next_entry goes through from `p` on. */
  function Entries(t: string, p: Option<nat>): (es: seq<nat>)
    requires NoNul(t) && (p.Some? ==> p.value <= |t|)
    ensures forall i | 0 <= i < |es| :: es[i] < |t|
    decreases if p.Some? then |t| - p.value + 1 else 0
  {
    var q := EntryFrom(t, p);
    if q.None? then [] else [q.value] + Entries(t, After(t, q.value))
  }

  /** The enumeration is exactly the label lines, each once, in order. */
  lemma {:induction false} EntriesAreLabelLines(t: string, p: Option<nat>)
    requires NoNul(t) && (p.Some? ==> p.value <= |t|)
    ensures Entries(t, p) == LabelStarts(t, LineStarts(t, p))
    decreases if p.Some? then |t| - p.value + 1 else 0
  {
    hide Match, LineEnd, Skip, LineAt;
    if p.Some? {
      var q, next := Skip(t, p.value), After(t, p.value);
      BindingOnLine(t, p.value, LABEL);
      LineEndFrom(t, p.value, q);
      assert LineStarts(t, p)[1..] == LineStarts(t, next);
      EntriesAreLabelLines(t, next);
      EntryStep(t, p.value);
    }
  }

  lemma EntryFromStep(t: string, p: nat)
    requires NoNul(t) && p <= |t|
    ensures var q, next := Skip(t, p), After(t, p);
            After(t, q) == next &&
            EntryFrom(t, Some(p)) == if Match(t, q, LABEL, 0).Some? then Some(q) else EntryFrom(t, next)
  {
    hide Match, Skip, LineEnd, LineAt, NoNul;
    SkipOnLine(t, p, p);
    LineEndFrom(t, p, Skip(t, p));
  }

  lemma SameEntries(t: string, p: Option<nat>, p': Option<nat>)
    requires NoNul(t) && (p.Some? ==> p.value <= |t|) && (p'.Some? ==> p'.value <= |t|)
    requires EntryFrom(t, p) == EntryFrom(t, p')
    ensures Entries(t, p) == Entries(t, p')
  {
    hide EntryFrom, After;
  }

  /** Going on from a line either stops at it or goes on from the next. */
  lemma EntryStep(t: string, p: nat)
    requires NoNul(t) && p <= |t|
    ensures var q, next := Skip(t, p), After(t, p);
            After(t, q) == next &&
            Entries(t, Some(p)) == WithFirst(Match(t, q, LABEL, 0).Some?, q, Entries(t, next))
  {
    hide Match, Skip, LineEnd, EntryFrom;
    EntryFromStep(t, p);
    if Match(t, Skip(t, p), LABEL, 0).None? {
      SameEntries(t, Some(p), After(t, p));
    }
  }

  /** The text that remains shrinks from entry to entry. */
  lemma {:induction false} EntriesIncrease(t: string, p: Option<nat>, i: nat, j: nat)
    requires NoNul(t) && (p.Some? ==> p.value <= |t|) && i < j < |Entries(t, p)|
    ensures Entries(t, p)[i] < Entries(t, p)[j]
    decreases if p.Some? then |t| - p.value + 1 else 0
  {
    hide EntryFrom, LineEnd;
    var q := EntryFrom(t, p).value;
    assert Entries(t, p)[1..] == Entries(t, After(t, q));
    if i > 0 {
      EntriesIncrease(t, After(t, q), i - 1, j - 1);
    } else {
      EntriesFrom(t, After(t, q), j - 1);
    }
  }

  lemma {:induction false} EntriesFrom(t: string, p: Option<nat>, j: nat)
    requires NoNul(t) && (p.Some? ==> p.value <= |t|) && j < |Entries(t, p)|
    ensures p.Some? && p.value <= Entries(t, p)[j]
    decreases if p.Some? then |t| - p.value + 1 else 0
  {
    var q := EntryFrom(t, p).value;
    if j > 0 {
      EntriesFrom(t, After(t, q), j - 1);
    }
  }
}
