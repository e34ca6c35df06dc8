/** The configuration parser of src/extlinux.c: pointer scans over one NUL-terminated
    text. A pointer is an index; the index |t| holds the terminator. */
module Extlinux {

  datatype Option<+T> = None | Some(value: T)

  /** `*p` for a pointer into the text `t`. */
  function Ch(t: string, p: nat): char {
    if p < |t| then t[p] else '\0'
  }

  /** A C string has its only NUL at the end. */
  predicate NoNul(t: string) {
    forall i | 0 <= i < |t| :: t[i] != '\0'
  }

  predicate IsSpace(c: char) {
    c == '\t' || c == ' '
  }

  function Skip(t: string, p: nat): (q: nat)
    requires p <= |t|
    ensures p <= q <= |t| && !IsSpace(Ch(t, q))
    ensures forall i | p <= i < q :: IsSpace(t[i])
    decreases |t| - p
  {
    if IsSpace(Ch(t, p)) then Skip(t, p + 1) else p
  }

  method SkipSpace(t: string, p: nat) returns (q: nat)
    requires p <= |t|
    ensures q == Skip(t, p)
  {
    q := p;
    while IsSpace(Ch(t, q))
      invariant q <= |t| && Skip(t, q) == Skip(t, p)
      decreases |t| - q
    {
      q := q + 1;
    }
  }

  /** What match_key returns from the cursors `p` and `k` on. */
  function Match(t: string, p: nat, key: string, k: nat): (v: Option<nat>)
    requires p <= |t| && k <= |key| && NoNul(t) && NoNul(key)
    ensures v.Some? ==> p < v.value < |t|
    decreases |t| - p
  {
    if p == |t| || k == |key| then
      if k < |key| || !IsSpace(Ch(t, p)) then None
      else
        var q := Skip(t, p);
        if Ch(t, q) != '\n' && Ch(t, q) != '\0' then Some(q) else None
    else if t[p] != key[k] then None
    else if IsSpace(Ch(key, k + 1)) && IsSpace(Ch(t, p + 1)) then Match(t, Skip(t, p + 1), key, Skip(key, k + 1))
    else Match(t, p + 1, key, k + 1)
  }

  method MatchKey(t: string, p0: nat, key: string) returns (v: Option<nat>)
    requires p0 <= |t| && NoNul(t) && NoNul(key)
    ensures v == Match(t, p0, key, 0)
  {
    var p: nat, k: nat := p0, 0;
    while Ch(t, p) != '\0' && Ch(key, k) != '\0'
      invariant p <= |t| && k <= |key| && Match(t, p, key, k) == Match(t, p0, key, 0)
      decreases |t| - p
    {
      if Ch(t, p) != Ch(key, k) {
        return None;
      }
      p, k := p + 1, k + 1;
      if IsSpace(Ch(key, k)) && IsSpace(Ch(t, p)) {
        p := SkipSpace(t, p);
        k := SkipSpace(key, k);
      }
    }
    if Ch(key, k) != '\0' {
      return None;
    }
    if IsSpace(Ch(t, p)) {
      p := SkipSpace(t, p);
      if Ch(t, p) != '\n' && Ch(t, p) != '\0' {
        return Some(p);
      }
    }
    return None;
  }

  function LineEnd(t: string, p: nat): (q: nat)
    requires p <= |t|
    ensures p <= q <= |t| && (q < |t| ==> t[q] == '\n')
    ensures forall i | p <= i < q :: t[i] != '\n'
    decreases |t| - p
  {
    if p == |t| || t[p] == '\n' then p else LineEnd(t, p + 1)
  }

  function After(t: string, p: nat): (q: Option<nat>)
    requires p <= |t|
    ensures q.Some? ==> p < q.value < |t|
  {
    var e := LineEnd(t, p);
    if e + 1 < |t| then Some(e + 1) else None
  }

  method NextLine(t: string, p: nat) returns (q: Option<nat>)
    requires p <= |t| && NoNul(t)
    ensures q == After(t, p)
  {
    var e := p;
    while Ch(t, e) != '\n' && Ch(t, e) != '\0'
      invariant p <= e <= |t| && LineEnd(t, e) == LineEnd(t, p)
      decreases |t| - e
    {
      e := e + 1;
    }
    if Ch(t, e) == '\0' {
      return None;
    }
    e := e + 1;
    return if Ch(t, e) != '\0' then Some(e) else None;
  }

  const LABEL: string := "label"

  /** The first label line from `p` on, as a pointer past its leading blanks. */
  function EntryFrom(t: string, p: Option<nat>): (q: Option<nat>)
    requires p.Some? ==> p.value <= |t|
    requires NoNul(t)
    ensures q.Some? ==> p.Some? && p.value <= q.value < |t| && Match(t, q.value, LABEL, 0).Some?
    decreases if p.Some? then |t| - p.value + 1 else 0
  {
    if p.None? then None
    else
      var q := Skip(t, p.value);
      if Match(t, q, LABEL, 0).Some? then Some(q) else EntryFrom(t, After(t, q))
  }

  /** extlinux_next_entry: after `last` when there is one, else from `conf`. */
  method NextEntry(t: string, conf: Option<nat>, last: Option<nat>) returns (r: Option<nat>)
    requires NoNul(t) && (conf.Some? ==> conf.value <= |t|) && (last.Some? ==> last.value <= |t|)
    ensures r == EntryFrom(t, if last.Some? then After(t, last.value) else conf)
  {
    var p := conf;
    if last.Some? {
      p := NextLine(t, last.value);
    }
    ghost var from := p;
    while p.Some?
      invariant p.Some? ==> p.value <= |t|
      invariant EntryFrom(t, p) == EntryFrom(t, from)
      decreases if p.Some? then |t| - p.value + 1 else 0
    {
      var q := SkipSpace(t, p.value);
      var isLabel := MatchKey(t, q, LABEL);
      if isLabel.Some? {
        return Some(q);
      }
      p := NextLine(t, q);
    }
    return None;
  }

  // ----- values -----

  /** A value: where it starts and how long it is without trailing blanks. */
  datatype Slice = Slice(start: nat, len: nat)

  /** The length of the value at `v` up to `e`, trailing blanks removed. */
  function Trimmed(t: string, v: nat, e: nat): (n: nat)
    requires v <= e <= |t|
    ensures v + n <= e && (n > 0 ==> !IsSpace(t[v + n - 1]))
    ensures forall i | v + n <= i < e :: IsSpace(t[i])
    decreases e
  {
    if e > v && IsSpace(t[e - 1]) then Trimmed(t, v, e - 1) else e - v
  }

  function ValueAt(t: string, v: nat): Slice
    requires v <= |t|
  {
    Slice(v, Trimmed(t, v, LineEnd(t, v)))
  }

  /** The first binding of `key` from `p` on, up to the next label line. */
  function Lookup(t: string, p: Option<nat>, key: string): Option<Slice>
    requires NoNul(t) && NoNul(key) && (p.Some? ==> p.value <= |t|)
    decreases if p.Some? then |t| - p.value + 1 else 0
  {
    if p.None? then None
    else
      var q := Skip(t, p.value);
      if q == |t| then None
      else if key != LABEL && Match(t, q, LABEL, 0).Some? then None
      else
        var v := Match(t, q, key, 0);
        if v.Some? then Some(ValueAt(t, v.value)) else Lookup(t, After(t, q), key)
  }

  /** Where extlinux_get_value starts looking: after the pointer's own line when that is a
      label line. */
  function Start(t: string, p: nat, key: string): (q: Option<nat>)
    requires NoNul(t) && p <= |t|
    ensures q.Some? ==> q.value <= |t|
  {
    if key != LABEL && Match(t, p, LABEL, 0).Some? then After(t, p) else Some(p)
  }

  function Get(t: string, p: nat, key: string): Option<Slice>
    requires NoNul(t) && NoNul(key) && p <= |t|
  {
    Lookup(t, Start(t, p, key), key)
  }

  method GetValue(t: string, p0: nat, key: string) returns (r: Option<Slice>)
    requires NoNul(t) && NoNul(key) && p0 <= |t|
    ensures r == Get(t, p0, key)
  {
    hide Match;
    var getLabel := |key| == 5 && key[0] == 'l' && key[1] == 'a' && key[2] == 'b' && key[3] == 'e' && key[4] == 'l';
    assert getLabel <==> key == LABEL;
    var p: Option<nat> := Some(p0);
    if !getLabel {
      var own := MatchKey(t, p0, LABEL);
      if own.Some? {
        p := NextLine(t, p0);
      }
    }
    while p.Some?
      invariant p.Some? ==> p.value <= |t|
      invariant Lookup(t, p, key) == Get(t, p0, key)
      decreases if p.Some? then |t| - p.value + 1 else 0
    {
      var q := SkipSpace(t, p.value);
      if Ch(t, q) == '\0' {
        return None;
      }
      var isLabel := MatchKey(t, q, LABEL);
      if isLabel.Some? && !getLabel {
        return None;
      }
      var value := MatchKey(t, q, key);
      if value.Some? {
        var len := ValueLength(t, value.value);
        return Some(Slice(value.value, len));
      }
      p := NextLine(t, q);
    }
    return None;
  }

  /** The two pointer loops that measure a value. */
  method ValueLength(t: string, value: nat) returns (len: nat)
    requires NoNul(t) && value <= |t|
    ensures len == ValueAt(t, value).len
  {
    var vend: int := value;
    while Ch(t, vend) != '\0' && Ch(t, vend) != '\n'
      invariant value <= vend <= |t| && LineEnd(t, vend) == LineEnd(t, value)
      decreases |t| - vend
    {
      vend := vend + 1;
    }
    vend := vend - 1;
    while vend >= value && IsSpace(t[vend])
      invariant value - 1 <= vend < LineEnd(t, value)
      invariant Trimmed(t, value, vend + 1) == Trimmed(t, value, LineEnd(t, value))
    {
      vend := vend - 1;
    }
    return vend - value + 1;
  }
}
