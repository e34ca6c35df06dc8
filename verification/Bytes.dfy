/** Little-endian byte codecs, the alignment arithmetic of tools/elf2efi.py and
    fixed-width truncation. */
module Bytes {
  type byte = b: int | 0 <= b < 256

  const TWO_32: nat := 0x1_0000_0000
  const TWO_64: nat := 0x1_0000_0000_0000_0000

  /** What a c_uint32 field holds after being assigned `x`. */
  function U32(x: nat): (r: nat)
    ensures r < TWO_32
    ensures x < TWO_32 ==> r == x
  {
    x % TWO_32
  }

  function Zeros(n: nat): (s: seq<byte>)
    ensures |s| == n
    ensures forall i | 0 <= i < n :: s[i] == 0
  {
    seq(n, _ => 0)
  }

  // ----- little-endian words -----

  function Pow256(k: nat): (p: nat)
    ensures p > 0
  {
    if k == 0 then 1 else 256 * Pow256(k - 1)
  }

  /** The `k` low-order bytes of `n`, least significant first. */
  function ToLe(n: nat, k: nat): (s: seq<byte>)
    ensures |s| == k
  {
    if k == 0 then [] else [n % 256] + ToLe(n / 256, k - 1)
  }

  function FromLe(s: seq<byte>): nat {
    if s == [] then 0 else s[0] + 256 * FromLe(s[1..])
  }

  lemma NoMultipleBetween(k: int, d: nat)
    ensures k == 0 || k * d >= d || k * d + d <= 0
  {
    if k >= 1 {
      assert (k - 1) * d >= 0;
    } else if k <= -1 {
      assert (-1 - k) * d >= 0;
    }
  }

  lemma DivModUnique(n: int, d: int, q: int, r: int)
    requires 0 <= r < d && n == q * d + r
    ensures n / d == q && n % d == r
  {
    var q', r' := n / d, n % d;
    assert (q - q') * d == r' - r;
    NoMultipleBetween(q - q', d);
  }

  lemma DivMod(n: nat, d: nat)
    requires d > 0
    ensures n == n / d * d + n % d
  {
  }

  lemma ProductNat(a: nat, b: nat)
    ensures a * b >= 0
  {
  }

  lemma TimesLess(a: nat, r: nat, b: nat)
    requires r < b
    ensures a * r + a <= a * b
  {
    var c := b - r - 1;
    ProductNat(a, c);
    assert a * c == a * b - a * r - a;
  }

  lemma Regroup(a: nat, b: nat, q: nat, r: nat)
    ensures (q * b + r) * a == q * (a * b) + a * r
  {
    assert (q * b + r) * a == q * b * a + r * a;
    assert q * b * a == q * (a * b);
  }

  /** A number of two digits `q`, `r` in base `b` and a third, `s`, in base `a`. */
  lemma TwoDigits(a: nat, b: nat, q: nat, r: nat, s: nat)
    requires r < b && s < a
    ensures (q * b + r) * a + s == q * (a * b) + (a * r + s) && 0 <= a * r + s < a * b
  {
    Regroup(a, b, q, r);
    TimesLess(a, r, b);
    ProductNat(a, r);
  }

  /** The remainder by a product, digit by digit. */
  lemma ModProduct(n: nat, a: nat, b: nat)
    requires a > 0 && b > 0
    ensures a * b > 0 && n % (a * b) == n % a + a * (n / a % b)
  {
    var m, s := n / a, n % a;
    DivMod(n, a);
    var q, r := m / b, m % b;
    DivMod(m, b);
    TwoDigits(a, b, q, r, s);
    DivModUnique(n, a * b, q, a * r + s);
  }

  lemma {:induction false} FromToLe(n: nat, k: nat)
    ensures FromLe(ToLe(n, k)) == n % Pow256(k)
  {
    if k > 0 {
      FromToLe(n / 256, k - 1);
      assert ToLe(n, k)[1..] == ToLe(n / 256, k - 1);
      assert FromLe(ToLe(n, k)) == n % 256 + 256 * (n / 256 % Pow256(k - 1));
      ModProduct(n, 256, Pow256(k - 1));
    }
  }

  lemma {:induction false} FromLeBound(s: seq<byte>)
    ensures FromLe(s) < Pow256(|s|)
  {
    if s != [] {
      FromLeBound(s[1..]);
    }
  }

  lemma Widths()
    ensures Pow256(2) == 0x1_0000 && Pow256(4) == TWO_32 && Pow256(8) == TWO_64
  {
    assert Pow256(1) == 256;
    assert Pow256(2) == 0x1_0000;
    assert Pow256(3) == 0x100_0000;
    assert Pow256(4) == TWO_32;
    assert Pow256(5) == 0x100_0000_0000;
    assert Pow256(6) == 0x1_0000_0000_0000;
    assert Pow256(7) == 0x100_0000_0000_0000;
  }

  // ----- alignment -----

  predicate PowerOfTwo(a: nat) {
    a == 1 || (a > 0 && a % 2 == 0 && PowerOfTwo(a / 2))
  }

  /** The bitwise `x & ~m` of unbounded integers. */
  function AndNot(x: nat, m: nat): nat {
    if x == 0 then 0 else (if m % 2 == 1 then 0 else x % 2) + 2 * AndNot(x / 2, m / 2)
  }

  lemma {:induction false} AndNotZero(x: nat)
    ensures AndNot(x, 0) == x
  {
    if x > 0 {
      AndNotZero(x / 2);
    }
  }

  /** A mask whose lowest bit is set clears that bit and works on the others. */
  lemma AndNotOdd(x: nat, h: nat)
    requires h > 0
    ensures AndNot(x, 2 * h - 1) == 2 * AndNot(x / 2, h - 1)
  {
    assert (2 * h - 1) / 2 == h - 1;
  }

  lemma RoundingStep(x: nat, h: nat)
    requires h > 0
    ensures 2 * (x / 2 - x / 2 % h) == x - x % (2 * h)
  {
    ModProduct(x, 2, h);
  }

  lemma HalfPower(a: nat)
    requires PowerOfTwo(a) && a != 1
    ensures a / 2 > 0 && PowerOfTwo(a / 2) && a == 2 * (a / 2)
  {
  }

  lemma RoundingOne(x: nat)
    ensures AndNot(x, 0) == x - x % 1
  {
    AndNotZero(x);
  }

  lemma {:induction false} AndNotIsRounding(x: nat, a: nat)
    requires PowerOfTwo(a)
    ensures AndNot(x, a - 1) == x - x % a
    decreases a
  {
    hide AndNot, PowerOfTwo;
    if a == 1 {
      RoundingOne(x);
    } else {
      HalfPower(a);
      AndNotIsRounding(x / 2, a / 2);
      AndNotOdd(x, a / 2);
      RoundingStep(x, a / 2);
    }
  }

  lemma MultipleBelow(x: nat, a: nat)
    requires a > 0
    ensures (x - x % a) % a == 0 && x - x % a <= x < x - x % a + a
  {
    DivModUnique(x - x % a, a, x / a, 0);
  }

  lemma MaskRounds(x: nat, align: nat)
    requires PowerOfTwo(align)
    ensures var r := AndNot(x, align - 1); r % align == 0 && r <= x < r + align
  {
    hide AndNot, PowerOfTwo;
    AndNotIsRounding(x, align);
    PowerIsPositive(align);
    MultipleBelow(x, align);
  }

  lemma PowerIsPositive(a: nat)
    requires PowerOfTwo(a)
    ensures a > 0
  {
  }

  function AlignDown(x: nat, align: nat): (r: nat)
    requires PowerOfTwo(align)
    ensures r % align == 0 && r <= x < r + align
  {
    MaskRounds(x, align);
    AndNot(x, align - 1)
  }

  function AlignTo(x: nat, align: nat): (r: nat)
    requires PowerOfTwo(align)
    ensures r % align == 0 && x <= r < x + align
  {
    MaskRounds(x + align - 1, align);
    AndNot(x + align - 1, align - 1)
  }

  const PAGE: nat := 4096
  const FILE_ALIGNMENT: nat := 512

  function PageDown(x: nat): (r: nat)
    ensures r % 4096 == 0 && r <= x < r + 4096
  {
    AlignDown(x, PAGE)
  }

  function PageUp(x: nat): (r: nat)
    ensures r % 4096 == 0 && x <= r < x + 4096
  {
    AlignTo(x, PAGE)
  }

  function FileUp(x: nat): (r: nat)
    ensures r % 512 == 0 && x <= r < x + 512
  {
    AlignTo(x, FILE_ALIGNMENT)
  }
}
