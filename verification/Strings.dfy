/** Numbers to text and back, and path fixing (src/string.c, src/file.c). */
module Strings {

  // ----- the text of a number -----

  predicate IsDigit(c: char) {
    '0' <= c <= '9'
  }

  function Digit(d: nat): char
    requires d < 16
  {
    "0123456789abcdef"[d]
  }

  function DigitValue(c: char): int {
    if IsDigit(c) then c as int - '0' as int
    else if 'a' <= c <= 'f' then c as int - 'a' as int + 10
    else -1
  }

  predicate IsBase(base: nat) {
    base == 10 || base == 16
  }

  /** The digits of `n`, least significant first; none for zero. */
  function Digits(n: nat, base: nat): (s: string)
    requires IsBase(base)
    decreases n
  {
    if n == 0 then "" else [Digit(n % base)] + Digits(n / base, base)
  }

  /** The usual text of `n`. */
  function Text(n: nat, base: nat): (s: string)
    requires IsBase(base)
    ensures s != ""
    decreases n
  {
    if n < base then [Digit(n)] else Text(n / base, base) + [Digit(n % base)]
  }

  predicate Denotes(s: string, base: nat) {
    forall i | 0 <= i < |s| :: 0 <= DigitValue(s[i]) < base
  }

  /** The number a string of digits denotes. */
  function Value(s: string, base: nat): int {
    if s == "" then 0 else base * Value(s[..|s| - 1], base) + DigitValue(s[|s| - 1])
  }

  function Reverse(s: string): (r: string)
    ensures |r| == |s|
    ensures forall i | 0 <= i < |s| :: r[i] == s[|s| - 1 - i]
  {
    if s == "" then "" else Reverse(s[1..]) + [s[0]]
  }

  lemma DigitMeaning(d: nat)
    requires d < 16
    ensures DigitValue(Digit(d)) == d && (Digit(d) == '0' <==> d == 0) && (IsDigit(Digit(d)) <==> d < 10)
  {
  }

  lemma ZeroValue(base: nat)
    ensures Value("0", base) == 0
  {
    assert "0"[..0] == "";
  }

  /** The text of `n` denotes `n`, in valid digits, with no leading zero. */
  lemma {:induction false} TextMeaning(n: nat, base: nat)
    requires IsBase(base)
    ensures Denotes(Text(n, base), base) && Value(Text(n, base), base) == n
    ensures Text(n, base)[0] == '0' ==> Text(n, base) == "0"
    ensures base == 10 ==> forall i | 0 <= i < |Text(n, base)| :: IsDigit(Text(n, base)[i])
    decreases n
  {
    var s := Text(n, base);
    if n < base {
      DigitMeaning(n);
      assert Value(s, base) == base * Value(s[..0], base) + n;
    } else {
      TextMeaning(n / base, base);
      DigitMeaning(n % base);
      var front := Text(n / base, base);
      assert s[..|s| - 1] == front;
      assert n / base > 0;
      ZeroValue(base);
    }
  }

  function Pow(b: nat, k: nat): nat {
    if k == 0 then 1 else b * Pow(b, k - 1)
  }

  lemma {:induction false} TextLength(n: nat, base: nat, k: nat)
    requires IsBase(base) && k > 0 && n < Pow(base, k)
    ensures |Text(n, base)| <= k
    decreases n
  {
    assert Pow(base, 1) == base * Pow(base, 0);
    if n >= base {
      DivBound(n, base, Pow(base, k - 1));
      TextLength(n / base, base, k - 1);
    }
  }

  lemma DivBound(n: nat, base: nat, p: nat)
    requires IsBase(base) && n < base * p
    ensures n / base < p
  {
  }

  /** A 64-bit number has at most 20 decimal or 16 hexadecimal digits. */
  lemma WordTextLength(n: nat)
    requires n < 0x1_0000_0000_0000_0000
    ensures |Text(n, 10)| <= 20 && |Text(n, 16)| <= 16
  {
    assert Pow(10, 5) == 100000;
    assert Pow(10, 10) == 10000000000;
    assert Pow(10, 15) == 1000000000000000;
    assert Pow(10, 20) == 100000000000000000000;
    assert Pow(16, 5) == 0x10_0000;
    assert Pow(16, 10) == 0x100_0000_0000;
    assert Pow(16, 16) == 0x1_0000_0000_0000_0000;
    TextLength(n, 10, 20);
    TextLength(n, 16, 16);
  }

  lemma {:induction false} TextIsReversedDigits(n: nat, base: nat)
    requires IsBase(base) && n > 0
    ensures Reverse(Digits(n, base)) == Text(n, base)
    decreases n
  {
    var s := Digits(n, base);
    assert s[1..] == Digits(n / base, base);
    if n >= base {
      TextIsReversedDigits(n / base, base);
    } else {
      assert n / base == 0 && n % base == n;
      assert s == [Digit(n)];
    }
  }

  lemma ReversedSlice(was: string, now: string, at: nat, len: nat)
    requires at + len <= |was| == |now|
    requires forall k | at <= k < at + len :: now[k] == was[at + at + len - 1 - k]
    ensures now[at..at + len] == Reverse(was[at..at + len])
  {
    var r := Reverse(was[at..at + len]);
    forall k | 0 <= k < len
      ensures now[at..at + len][k] == r[k]
    {
    }
  }

  /** itoa_n's second loop: reversal in place of the `len` characters from `at`. */
  method ReverseRange(out: array<char>, at: nat, len: nat)
    requires at + len <= out.Length
    modifies out
    ensures out[at..at + len] == Reverse(old(out[at..at + len]))
    ensures forall k | 0 <= k < out.Length && !(at <= k < at + len) :: out[k] == old(out[k])
  {
    hide Reverse;
    ghost var was := out[..];
    for i := 0 to len / 2
      invariant forall k | at <= k < at + len ::
                  out[k] == if k < at + i || k >= at + len - i then old(out[at + at + len - 1 - k]) else old(out[k])
      invariant forall k | 0 <= k < out.Length && !(at <= k < at + len) :: out[k] == old(out[k])
    {
      var tmp := out[at + len - i - 1];
      out[at + len - i - 1] := out[at + i];
      out[at + i] := tmp;
    }
    ReversedSlice(was, out[..], at, len);
    assert out[..][at..at + len] == out[at..at + len];
    assert was[at..at + len] == old(out[at..at + len]);
  }

  /** itoa_n's first loop: the digits from the right. */
  method GenerateDigits(out: array<char>, at: nat, n: nat, base: nat) returns (len: nat)
    requires IsBase(base) && at + |Digits(n, base)| <= out.Length
    modifies out
    ensures len == |Digits(n, base)| && out[at..at + len] == Digits(n, base)
    ensures forall k | 0 <= k < at :: out[k] == old(out[k])
  {
    hide Digit, Digits;
    var m: nat := n;
    len := 0;
    assert out[at..at] + Digits(m, base) == Digits(n, base);
    while m > 0
      invariant at + len <= out.Length && out[at..at + len] + Digits(m, base) == Digits(n, base)
      invariant forall k | 0 <= k < at :: out[k] == old(out[k])
      decreases m
    {
      ghost var done := out[at..at + len];
      DigitsStep(done, m, base);
      out[at + len] := Digit(m % base);
      Appended(out, at, at + len, done);
      m := m / base;
      len := len + 1;
    }
    NoDigits(out[at..at + len], base);
  }

  lemma DigitsStep(done: string, m: nat, base: nat)
    requires IsBase(base) && m > 0
    ensures done + Digits(m, base) == (done + [Digit(m % base)]) + Digits(m / base, base)
    ensures |Digits(m, base)| > 0
  {
  }

  lemma NoDigits(done: string, base: nat)
    requires IsBase(base)
    ensures done + Digits(0, base) == done
  {
  }

  lemma Appended(out: array<char>, at: nat, end: nat, done: string)
    requires at <= end < out.Length && |done| == end - at && forall k | at <= k < end :: out[k] == done[k - at]
    ensures out[at..end + 1] == done + [out[end]]
  {
  }

  lemma TextOfZero(base: nat)
    requires IsBase(base)
    ensures Text(0, base) == "0"
  {
  }

  /** itoa_n, writing from index `at`. */
  method ItoaN(out: array<char>, at: nat, n: nat, base: nat) returns (len: nat)
    requires IsBase(base) && at + |Text(n, base)| <= out.Length
    modifies out
    ensures len == |Text(n, base)| && out[at..at + len] == Text(n, base)
    ensures forall k | 0 <= k < at :: out[k] == old(out[k])
  {
    hide Text, Digits, Digit;
    if n == 0 {
      TextOfZero(base);
      out[at] := '0';
      assert out[at..at + 1] == "0";
      return 1;
    }
    TextIsReversedDigits(n, base);
    len := GenerateDigits(out, at, n, base);
    ReverseRange(out, at, len);
  }

  // ----- vsprintf's integer conversions -----

  datatype Conversion = Decimal | Unsigned | Hex | Pointer

  /** The argument as itoa_n's unsigned parameter sees it. */
  function Masked(v: int, isLong: bool): nat {
    v % (if isLong then 0x1_0000_0000_0000_0000 else 0x1_0000_0000)
  }

  function BaseOf(c: Conversion): nat {
    if c == Hex || c == Pointer then 16 else 10
  }

  function Prefix(c: Conversion, v: int): string {
    if c == Decimal && v < 0 then "-" else if c == Pointer then "0x" else ""
  }

  function Magnitude(c: Conversion, v: int): int {
    if c == Decimal && v < 0 then -v else v
  }

  function IntegerText(c: Conversion, isLong: bool, v: int): string {
    Prefix(c, v) + Text(Masked(Magnitude(c, v), isLong), BaseOf(c))
  }

  /** One %d, %u, %x or %p, with or without `l`, written at index `at`. */
  method FormatInteger(out: array<char>, at: nat, c: Conversion, isLong: bool, v: int) returns (end: nat)
    requires at + |IntegerText(c, isLong, v)| <= out.Length
    modifies out
    ensures end == at + |IntegerText(c, isLong, v)| && out[at..end] == IntegerText(c, isLong, v)
    ensures forall k | 0 <= k < at :: out[k] == old(out[k])
  {
    hide Text, Masked, IntegerText, Prefix, Magnitude, BaseOf;
    IntegerParts(c, isLong, v);
    var p, value := WritePrefix(out, at, c, v);
    ghost var front := out[at..p];
    var len := ItoaN(out, p, Masked(value, isLong), BaseOf(c));
    end := p + len;
    SameFront(out, at, p, front);
    JoinSlices(out, at, p, end);
  }

  /** The sign or "0x" in front of the digits. */
  method WritePrefix(out: array<char>, at: nat, c: Conversion, v: int) returns (p: nat, value: int)
    requires at + |Prefix(c, v)| <= out.Length
    modifies out
    ensures p == at + |Prefix(c, v)| && out[at..p] == Prefix(c, v) && value == Magnitude(c, v)
    ensures forall k | 0 <= k < at :: out[k] == old(out[k])
  {
    p, value := at, v;
    if c == Decimal && value < 0 {
      out[p] := '-';
      p := p + 1;
      value := -value;
    } else if c == Pointer {
      out[p], out[p + 1] := '0', 'x';
      p := p + 2;
    }
  }

  lemma IntegerParts(c: Conversion, isLong: bool, v: int)
    ensures IntegerText(c, isLong, v) == Prefix(c, v) + Text(Masked(Magnitude(c, v), isLong), BaseOf(c))
    ensures IsBase(BaseOf(c))
  {
    hide Text, Masked;
  }

  lemma SameFront(out: array<char>, at: nat, p: nat, front: string)
    requires at <= p <= out.Length && |front| == p - at && forall k | at <= k < p :: out[k] == front[k - at]
    ensures out[at..p] == front
  {
  }

  lemma JoinSlices(out: array<char>, a: nat, b: nat, c: nat)
    requires a <= b <= c <= out.Length
    ensures out[a..c] == out[a..b] + out[b..c]
  {
  }

  /** What a signed decimal text denotes. */
  function SignedValue(s: string): int {
    if s != "" && s[0] == '-' then -Value(s[1..], 10) else Value(s, 10)
  }

  lemma MaskedExact(v: int, isLong: bool)
    requires if isLong then -0x8000_0000_0000_0000 < v < 0x8000_0000_0000_0000 else -0x8000_0000 <= v < 0x8000_0000
    ensures Masked(Magnitude(Decimal, v), isLong) == if v < 0 then -v else v
    ensures Masked(v, isLong) == v % if isLong then 0x1_0000_0000_0000_0000 else 0x1_0000_0000
  {
  }

  lemma SignedTextMeaning(m: nat, negative: bool)
    ensures SignedValue((if negative then "-" else "") + Text(m, 10)) == if negative then -(m as int) else m
  {
    hide Text, Value;
    TextMeaning(m, 10);
    assert ("-" + Text(m, 10))[1..] == Text(m, 10);
    assert "" + Text(m, 10) == Text(m, 10);
  }

  /** %d prints any int, and %ld any long but the most negative, so that it reads back; the
      unsigned conversions print the argument modulo its width, %p after "0x". */
  lemma IntegerTextMeaning(v: int, isLong: bool)
    requires if isLong then -0x8000_0000_0000_0000 < v < 0x8000_0000_0000_0000 else -0x8000_0000 <= v < 0x8000_0000
    ensures SignedValue(IntegerText(Decimal, isLong, v)) == v
    ensures var m := v % if isLong then 0x1_0000_0000_0000_0000 else 0x1_0000_0000;
            var pointer := IntegerText(Pointer, isLong, v);
            Value(IntegerText(Unsigned, isLong, v), 10) == m && Value(IntegerText(Hex, isLong, v), 16) == m &&
            |pointer| > 2 && pointer[..2] == "0x" && Value(pointer[2..], 16) == m
  {
    hide Text, Value, SignedValue, Masked, IntegerText;
    MaskedExact(v, isLong);
    SignedText(v, isLong);
    UnsignedTexts(v, isLong);
  }

  lemma SignedText(v: int, isLong: bool)
    requires Masked(Magnitude(Decimal, v), isLong) == if v < 0 then -v else v
    ensures SignedValue(IntegerText(Decimal, isLong, v)) == v
  {
    hide Text, Value, SignedValue, Masked;
    SignedTextMeaning(Masked(Magnitude(Decimal, v), isLong), v < 0);
  }

  lemma UnsignedTexts(v: int, isLong: bool)
    ensures var pointer := IntegerText(Pointer, isLong, v);
            Value(IntegerText(Unsigned, isLong, v), 10) == Masked(v, isLong) &&
            Value(IntegerText(Hex, isLong, v), 16) == Masked(v, isLong) &&
            |pointer| > 2 && pointer[..2] == "0x" && Value(pointer[2..], 16) == Masked(v, isLong)
  {
    hide Text, Value, Masked;
    var m := Masked(v, isLong);
    TextMeaning(m, 10);
    TextMeaning(m, 16);
    WithPrefix("", Text(m, 10));
    WithPrefix("", Text(m, 16));
    WithPrefix("0x", Text(m, 16));
  }

  lemma WithPrefix(prefix: string, s: string)
    ensures (prefix + s)[..|prefix|] == prefix && (prefix + s)[|prefix|..] == s && (prefix == "" ==> prefix + s == s)
  {
  }

  /** One digit. */
  lemma DigitTexts(d: nat)
    requires d < 16
    ensures Text(d, 16) == ["0123456789abcdef"[d]] && (d < 10 ==> Text(d, 10) == ["0123456789"[d]])
  {
  }

  // ----- text to a number -----

  predicate AllDigits(s: string) {
    forall i | 0 <= i < |s| :: IsDigit(s[i])
  }

  lemma Distribute(p: nat, d: int, v: int)
    ensures 10 * (p * d + v) == 10 * p * d + 10 * v
  {
  }

  lemma {:induction false} ValueCons(c: char, s: string)
    ensures Value([c] + s, 10) == Pow(10, |s|) * DigitValue(c) + Value(s, 10)
  {
    hide DigitValue;
    if s == "" {
      assert [c] + s == [c] && [c][..0] == "";
    } else {
      var n := |s| - 1;
      ValueCons(c, s[..n]);
      assert ([c] + s)[..|s|] == [c] + s[..n];
      Distribute(Pow(10, n), DigitValue(c), Value(s[..n], 10));
    }
  }

  lemma {:induction false} ValueBound(s: string)
    requires AllDigits(s)
    ensures 0 <= Value(s, 10) < Pow(10, |s|)
  {
    if s != "" {
      ValueBound(s[..|s| - 1]);
    }
  }

  lemma PowTen()
    ensures Pow(10, 9) == 1000000000
    ensures forall k: nat | k < 9 :: Pow(10, k) <= 100000000
  {
    assert Pow(10, 3) == 1000 && Pow(10, 6) == 1000000;
    forall k: nat | k < 9
      ensures Pow(10, k) <= 100000000
    {
      assert k == 0 || k == 1 || k == 2 || k == 3 || k == 4 || k == 5 || k == 6 || k == 7 || k == 8;
    }
  }

  const TWO_31: int := 0x8000_0000

  /** What a 32-bit int holds after a sum or product that wraps around. */
  function Wrap(x: int): (r: int)
    ensures -TWO_31 <= r < TWO_31 && (-TWO_31 <= x < TWO_31 ==> r == x)
    ensures (x - r) % 0x1_0000_0000 == 0
  {
    (x + TWO_31) % 0x1_0000_0000 - TWO_31
  }

  lemma SameWrap(x: int, y: int, k: int)
    requires x - y == k * 0x1_0000_0000
    ensures Wrap(x) == Wrap(y)
  {
  }

  /** Wrapping early makes no difference to a sum or a multiple. */
  lemma WrapThrough(a: int, w: int, d: int)
    ensures Wrap(Wrap(a) + Wrap(Wrap(w) * d)) == Wrap(a + w * d) && Wrap(Wrap(w) * d) == Wrap(w * d)
  {
    var ka, kw := (a - Wrap(a)) / 0x1_0000_0000, (w - Wrap(w)) / 0x1_0000_0000;
    assert a == Wrap(a) + ka * 0x1_0000_0000 && w == Wrap(w) + kw * 0x1_0000_0000;
    var m := Wrap(w) * d;
    var km := (m - Wrap(m)) / 0x1_0000_0000;
    assert m == Wrap(m) + km * 0x1_0000_0000;
    Scaled(w, Wrap(w), kw, d);
    SameWrap(w * d, m, kw * d);
    SameWrap(a + w * d, Wrap(a) + Wrap(m), ka + kw * d + km);
  }

  lemma Scaled(x: int, y: int, k: int, d: int)
    requires x == y + k * 0x1_0000_0000
    ensures x * d == y * d + k * d * 0x1_0000_0000
  {
    assert x * d == y * d + k * 0x1_0000_0000 * d;
    assert k * 0x1_0000_0000 * d == k * d * 0x1_0000_0000;
  }

  /** What atou answers: the value in 32 bits, or -1 for an empty string or a non-digit. */
  function Number(s: string): int {
    if s != "" && AllDigits(s) then Wrap(Value(s, 10)) else -1
  }

  /** One more digit on the left, in 32 bits. */
  lemma AtouStep(s: string, p: nat, weight: int, res: int)
    requires p < |s| && IsDigit(s[p]) && AllDigits(s[p + 1..])
    requires weight == Wrap(Pow(10, |s| - 1 - p)) && res == Wrap(Value(s[p + 1..], 10))
    ensures AllDigits(s[p..])
    ensures Wrap(res + Wrap(weight * (s[p] as int - '0' as int))) == Wrap(Value(s[p..], 10))
    ensures Wrap(weight * 10) == Wrap(Pow(10, |s| - p))
  {
    hide Value, Wrap;
    var digit := s[p] as int - '0' as int;
    assert s[p..] == [s[p]] + s[p + 1..];
    ValueCons(s[p], s[p + 1..]);
    assert Pow(10, |s| - p) == 10 * Pow(10, |s| - 1 - p);
    WrapThrough(Value(s[p + 1..], 10), Pow(10, |s| - 1 - p), digit);
    WrapThrough(0, Pow(10, |s| - 1 - p), 10);
  }

  method Atou(s: string) returns (r: int)
    ensures r == Number(s)
  {
    hide Value, Wrap, Pow;
    if s == "" {
      return -1;
    }
    var weight, res := 1, 0;
    var p := |s| - 1;
    AtouStart(s);
    while p >= 0
      invariant -1 <= p < |s| && AllDigits(s[p + 1..])
      invariant weight == Wrap(Pow(10, |s| - 1 - p))
      invariant res == Wrap(Value(s[p + 1..], 10))
    {
      if s[p] < '0' || s[p] > '9' {
        return -1;
      }
      AtouStep(s, p, weight, res);
      var digit := s[p] as int - '0' as int;
      res := Wrap(res + Wrap(weight * digit));
      weight := Wrap(weight * 10);
      p := p - 1;
    }
    assert s[0..] == s;
    return res;
  }

  lemma AtouStart(s: string)
    ensures Wrap(Pow(10, 0)) == 1 && Wrap(Value(s[|s|..], 10)) == 0
  {
  }

  /** The scan from the right meets a non-digit before the weight leaves 32 bits. */
  predicate FitsInt(s: string) {
    |s| <= 9 || exists i | |s| - 10 <= i < |s| :: !IsDigit(s[i])
  }

  /** Where nothing wraps around: the decimal value, or -1 exactly when the string is empty or
      has a non-digit. */
  lemma NumberMeaning(s: string)
    requires FitsInt(s)
    ensures Number(s) == if s != "" && AllDigits(s) then Value(s, 10) else -1
    ensures Number(s) == -1 <==> s == "" || !AllDigits(s)
  {
    hide Value;
    if s != "" && AllDigits(s) {
      ValueBound(s);
      PowGrows(|s|);
    }
  }

  /** With wrap-around the answer is the decimal value exactly when that fits an int. */
  lemma NumberIsValueExactly(s: string)
    requires s != "" && AllDigits(s)
    ensures Number(s) == Value(s, 10) <==> Value(s, 10) < TWO_31
  {
    hide Value;
    ValueBound(s);
  }

  lemma NextDigit(s: string, v: int)
    requires s != "" && IsDigit(s[|s| - 1]) && Value(s[..|s| - 1], 10) == v
    ensures Value(s, 10) == 10 * v + (s[|s| - 1] as int - '0' as int)
  {
  }

  /** A string of digits that is read as a number other than its value: 2^32 is read as 0. */
  lemma TwoTo32()
    ensures var s := "4294967296"; AllDigits(s) && Value(s, 10) == 0x1_0000_0000 && Number(s) == 0
  {
    hide Value;
    assert Value("", 10) == 0 by {
      ValueOfNothing();
    }
    var s := "4294967296";
    assert s[..0] == "" && AllDigits(s);
    assert s[..1][..0] == s[..0];
    NextDigit(s[..1], 0);
    assert s[..2][..1] == s[..1];
    NextDigit(s[..2], 4);
    assert s[..3][..2] == s[..2];
    NextDigit(s[..3], 42);
    assert s[..4][..3] == s[..3];
    NextDigit(s[..4], 429);
    assert s[..5][..4] == s[..4];
    NextDigit(s[..5], 4294);
    assert s[..6][..5] == s[..5];
    NextDigit(s[..6], 42949);
    assert s[..7][..6] == s[..6];
    NextDigit(s[..7], 429496);
    assert s[..8][..7] == s[..7];
    NextDigit(s[..8], 4294967);
    assert s[..9][..8] == s[..8];
    NextDigit(s[..9], 42949672);
    assert s[..10][..9] == s[..9];
    NextDigit(s[..10], 429496729);
    assert s[..10] == s;
  }

  lemma ValueOfNothing()
    ensures Value("", 10) == 0
  {
  }

  lemma PowGrows(k: nat)
    requires k <= 9
    ensures Pow(10, k) <= 1000000000
  {
    PowTen();
  }

  /** Reading back the decimal text of a nonnegative int gives the int. */
  lemma {:induction false} AtouOfItoa(n: nat)
    requires n < TWO_31
    ensures Number(Text(n, 10)) == n
  {
    TextMeaning(n, 10);
  }

  /** Below 10^9 without any overflow on the way. */
  lemma {:induction false} ShortTextFits(n: nat)
    requires n < 1000000000
    ensures FitsInt(Text(n, 10))
  {
    PowTen();
    TextLength(n, 10, 9);
  }

  // ----- fix_path -----

  const SLASH: char := '\\'

  function Separator(c: char): char {
    if c == '/' then SLASH else c
  }

  function Translate(s: string): (r: string)
    ensures |r| == |s| && forall i | 0 <= i < |s| :: r[i] == Separator(s[i])
  {
    seq(|s|, i requires 0 <= i < |s| => Separator(s[i]))
  }

  /** Each run of backslashes becomes one. */
  function Collapse(s: string): string {
    if |s| < 2 then s
    else if s[0] == SLASH && s[1] == SLASH then Collapse(s[1..])
    else [s[0]] + Collapse(s[1..])
  }

  /** What the two cursors have written after `s`. */
  function Fixed(s: string): (r: string)
    ensures |r| <= |s|
  {
    if s == "" then ""
    else
      var front, c := Fixed(s[..|s| - 1]), Separator(s[|s| - 1]);
      if front != "" && front[|front| - 1] == SLASH && c == SLASH then front else front + [c]
  }

  method FixPath(path: array<char>, ghost n: nat)
    requires n < path.Length && path[n] == '\0' && forall i | 0 <= i < n :: path[i] != '\0'
    modifies path
    ensures var r := Fixed(old(path[..n])); path[..|r|] == r && path[|r|] == '\0'
    ensures forall i | n < i < path.Length :: path[i] == old(path[i])
  {
    hide Fixed;
    ghost var was := path[..n];
    var cur, p := 0, 0;
    FixedNothing();
    while path[p] != '\0'
      invariant cur <= p <= n && path[..cur] == Fixed(was[..p])
      invariant forall i | p <= i < path.Length :: path[i] == old(path[i])
      decreases n - p
    {
      FixedStep(was, p);
      ghost var front := path[..cur];
      path[cur] := if path[p] == '/' then SLASH else path[p];
      assert path[..cur] == front && path[..cur + 1] == front + [path[cur]];
      if cur == 0 || path[cur - 1] != SLASH || path[cur] != SLASH {
        cur := cur + 1;
      }
      p := p + 1;
    }
    assert was[..n] == was;
    path[cur] := '\0';
  }

  lemma FixedNothing()
    ensures Fixed("") == ""
  {
  }

  lemma FixedStep(s: string, p: nat)
    requires p < |s|
    ensures var front, c := Fixed(s[..p]), Separator(s[p]);
            Fixed(s[..p + 1]) ==
            if front != "" && front[|front| - 1] == SLASH && c == SLASH then front else front + [c]
  {
    assert s[..p + 1][..p] == s[..p];
  }

  predicate Ends(s: string) {
    s != "" && s[|s| - 1] == SLASH
  }

  lemma {:induction false} CollapseSnoc(s: string, c: char)
    ensures Collapse(s + [c]) == if Ends(s) && c == SLASH then Collapse(s) else Collapse(s) + [c]
    ensures Ends(Collapse(s)) <==> Ends(s)
  {
    if |s| >= 2 {
      assert (s + [c])[1..] == s[1..] + [c];
      CollapseSnoc(s[1..], c);
      assert Collapse(s[1..]) != "" by {
        CollapseNonempty(s[1..]);
      }
    } else if |s| == 1 {
      assert (s + [c])[1..] == [c];
    } else {
      assert s + [c] == [c];
    }
  }

  lemma {:induction false} CollapseNonempty(s: string)
    requires s != ""
    ensures Collapse(s) != ""
  {
    if |s| >= 2 {
      CollapseNonempty(s[1..]);
    }
  }

  lemma EmptyCollapse()
    ensures Collapse("") == "" && Translate("") == ""
  {
  }

  /** The in-place loop is translation followed by collapsing. */
  lemma {:induction false} FixedIsCollapsed(s: string)
    ensures Fixed(s) == Collapse(Translate(s))
  {
    hide Collapse, Separator;
    assert Collapse("") == "" by {
      EmptyCollapse();
    }
    if s != "" {
      var n := |s| - 1;
      FixedIsCollapsed(s[..n]);
      CollapseSnoc(Translate(s[..n]), Separator(s[n]));
      assert Translate(s) == Translate(s[..n]) + [Separator(s[n])];
    }
  }

  predicate Clean(s: string) {
    (forall i | 0 <= i < |s| :: s[i] != '/') &&
    forall i | 0 < i < |s| :: !(s[i - 1] == SLASH && s[i] == SLASH)
  }

  /** A fixed path has no slash and no two adjacent backslashes. */
  lemma {:induction false} FixedIsClean(s: string)
    ensures Clean(Fixed(s))
  {
    if s != "" {
      FixedIsClean(s[..|s| - 1]);
    }
  }

  /** Clean paths are left alone. */
  lemma {:induction false} CleanStays(s: string)
    requires Clean(s)
    ensures Fixed(s) == s
  {
    if s != "" {
      var n := |s| - 1;
      CleanStays(s[..n]);
      assert n > 0 ==> s[..n][n - 1] == s[n - 1];
    }
  }

  lemma {:induction false} FixingIsIdempotent(s: string)
    ensures Fixed(Fixed(s)) == Fixed(s)
  {
    FixedIsClean(s);
    CleanStays(Fixed(s));
  }
}
