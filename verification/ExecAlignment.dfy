/** exec_address_alignment of tools/elf2efi.c: one alignment for the whole image. */
module ExecAlignment {
  import opened Bytes

  ghost predicate Divides(d: nat, n: nat) {
    exists k: nat :: n == d * k
  }

  function Gcd(a: nat, b: nat): (g: nat)
    ensures (g == 0 <==> a == 0 && b == 0) && (g <= a || g <= b)
    decreases b
  {
    if b == 0 then a else Gcd(b, a % b)
  }

  lemma NegativeTimes(k: int, d: nat)
    requires k < 0 && d > 0
    ensures d * k < 0
  {
  }

  lemma TimesAtLeast(d: nat, k: nat)
    requires k > 0
    ensures d * k >= d
  {
    assert d * k == d + d * (k - 1);
  }

  /** A divisor of two numbers divides a combination of them. */
  lemma DividesSum(d: nat, a: nat, b: nat, k: nat)
    requires Divides(d, a) && Divides(d, b)
    ensures Divides(d, a * k + b)
  {
    var x: nat :| a == d * x;
    var y: nat :| b == d * y;
    Factor(d, x, k, y);
    assert a * k + b == d * (x * k + y);
  }

  lemma Factor(d: int, x: int, k: int, y: int)
    ensures d * x * k + d * y == d * (x * k + y)
  {
    assert d * x * k == d * (x * k);
  }

  /** A common divisor divides the remainder. */
  lemma DividesRemainder(d: nat, a: nat, b: nat)
    requires Divides(d, a) && Divides(d, b) && b > 0 && d > 0
    ensures Divides(d, a % b)
  {
    var y: nat :| a == d * y;
    var x: nat :| b == d * x;
    var q := a / b;
    var k := y - x * q;
    Factor(d, x, -q, y);
    assert a % b == a - b * q;
    assert a % b == d * k;
    if k < 0 {
      NegativeTimes(k, d);
    }
  }

  lemma DividesTrans(a: nat, b: nat, c: nat)
    requires Divides(a, b) && Divides(b, c)
    ensures Divides(a, c)
  {
    var x: nat :| b == a * x;
    var y: nat :| c == b * y;
    assert c == a * (x * y);
  }

  lemma DividesSelf(a: nat)
    ensures Divides(a, a) && Divides(a, 0)
  {
    assert a == a * 1 && 0 == a * 0;
  }

  lemma DividesDividend(g: nat, a: nat, b: nat)
    requires b > 0 && Divides(g, b) && Divides(g, a % b)
    ensures Divides(g, a)
  {
    hide Divides;
    DividesSum(g, b, a % b, a / b);
    assert b * (a / b) + a % b == a;
  }

  /** gcd divides both numbers, and every common divisor divides it. */
  lemma {:induction false} GcdMeaning(a: nat, b: nat)
    ensures Divides(Gcd(a, b), a) && Divides(Gcd(a, b), b)
    ensures forall d: nat | d > 0 && Divides(d, a) && Divides(d, b) :: Divides(d, Gcd(a, b))
    decreases b
  {
    hide Divides;
    DividesSelf(a);
    if b > 0 {
      var r := a % b;
      GcdMeaning(b, r);
      DividesDividend(Gcd(b, r), a, b);
      forall d: nat | d > 0 && Divides(d, a) && Divides(d, b)
        ensures Divides(d, Gcd(b, r))
      {
        DividesRemainder(d, a, b);
      }
    }
  }

  /** What the first loop computes. */
  function GcdAll(alignments: seq<nat>): nat {
    if alignments == [] then 0
    else Gcd(alignments[|alignments| - 1], GcdAll(alignments[..|alignments| - 1]))
  }

  lemma {:induction false} GcdAllDivides(alignments: seq<nat>, i: nat)
    requires i < |alignments|
    ensures Divides(GcdAll(alignments), alignments[i])
  {
    hide Divides, Gcd;
    var n := |alignments| - 1;
    GcdMeaning(alignments[n], GcdAll(alignments[..n]));
    if i < n {
      GcdAllDivides(alignments[..n], i);
      DividesTrans(GcdAll(alignments), GcdAll(alignments[..n]), alignments[i]);
    }
  }

  lemma {:induction false} GcdIsSmall(alignments: seq<nat>)
    requires forall i | 0 <= i < |alignments| :: alignments[i] < TWO_32
    ensures GcdAll(alignments) < TWO_32
  {
    if alignments != [] {
      GcdIsSmall(alignments[..|alignments| - 1]);
    }
  }

  /** What the second loop computes without 32-bit wrap-around. */
  function Product(alignments: seq<nat>, g: nat): nat
    requires g > 0
  {
    if alignments == [] then g
    else Product(alignments[..|alignments| - 1], g) * (alignments[|alignments| - 1] / g)
  }

  lemma {:induction false} MulMod(x: nat, y: nat)
    ensures x % TWO_32 * y % TWO_32 == x * y % TWO_32
  {
    var q, r := x / TWO_32, x % TWO_32;
    var q', r' := r * y / TWO_32, r * y % TWO_32;
    assert x == q * TWO_32 + r;
    assert x * y == q * TWO_32 * y + r * y;
    assert q * TWO_32 * y == q * y * TWO_32;
    assert x * y == (q * y + q') * TWO_32 + r';
    DivModUnique(x * y, TWO_32, q * y + q', r');
  }

  lemma GcdAllStep(alignments: seq<nat>, i: nat)
    requires i < |alignments|
    ensures GcdAll(alignments[..i + 1]) == Gcd(alignments[i], GcdAll(alignments[..i]))
  {
    assert alignments[..i + 1][..i] == alignments[..i];
  }

  lemma ProductStep(alignments: seq<nat>, g: nat, i: nat)
    requires g > 0 && i < |alignments|
    ensures var p, f := Product(alignments[..i], g), alignments[i] / g;
            Product(alignments[..i + 1], g) == p * f && p % TWO_32 * f % TWO_32 == p * f % TWO_32
  {
    assert alignments[..i + 1][..i] == alignments[..i];
    MulMod(Product(alignments[..i], g), alignments[i] / g);
  }

  /** exec_address_alignment on 32-bit alignments, not all of them 0 (the division by the
      common divisor needs one that is not); 0 when there are none. */
  method ExecAddressAlignment(alignments: seq<nat>) returns (alignment: nat)
    requires forall i | 0 <= i < |alignments| :: alignments[i] < TWO_32
    requires alignments != [] ==> GcdAll(alignments) > 0
    ensures alignment == if alignments == [] then 0 else Product(alignments, GcdAll(alignments)) % TWO_32
  {
    hide Gcd, GcdAll, Product;
    var alignGcd := 0;
    var i := 0;
    NoAlignments(1);
    while i < |alignments|
      invariant 0 <= i <= |alignments| && alignGcd == GcdAll(alignments[..i])
    {
      GcdAllStep(alignments, i);
      alignGcd := Gcd(alignments[i], alignGcd);
      i := i + 1;
    }
    assert alignments[..i] == alignments;
    alignment := alignGcd;
    i := 0;
    GcdIsSmall(alignments);
    if alignments != [] {
      NoAlignments(alignGcd);
    }
    while i < |alignments|
      invariant 0 <= i <= |alignments|
      invariant alignment == if alignments == [] then 0 else Product(alignments[..i], alignGcd) % TWO_32
    {
      ProductStep(alignments, alignGcd, i);
      alignment := U32(alignment * (alignments[i] / alignGcd));
      i := i + 1;
    }
    assert alignments[..i] == alignments;
  }

  lemma NoAlignments(g: nat)
    requires g > 0
    ensures GcdAll([]) == 0 && Product([], g) == g
  {
  }

  // ----- a common multiple -----

  lemma DividesProduct(g: nat, x: nat, y: nat)
    requires Divides(g, x)
    ensures Divides(g, x * y)
  {
    var k: nat :| x == g * k;
    assert x * y == g * (k * y);
  }

  lemma {:induction false} BaseDivides(alignments: seq<nat>, g: nat)
    requires g > 0
    ensures Divides(g, Product(alignments, g))
  {
    hide Divides;
    if alignments == [] {
      DividesSelf(g);
    } else {
      var n := |alignments| - 1;
      BaseDivides(alignments[..n], g);
      DividesProduct(g, Product(alignments[..n], g), alignments[n] / g);
    }
  }

  lemma WholeFactor(g: nat, a: nat, p: nat)
    requires g > 0 && Divides(g, a) && Divides(g, p)
    ensures a / g * g == a && Divides(a, p * (a / g))
  {
    var k: nat :| a == g * k;
    var m: nat :| p == g * m;
    DivModUnique(a, g, k, 0);
    assert p * k == a * m;
  }

  /** The exact product is a common multiple of the alignments. */
  lemma {:induction false} ProductIsMultiple(alignments: seq<nat>, g: nat, i: nat)
    requires g > 0 && i < |alignments| && Divides(g, alignments[i])
    ensures Divides(alignments[i], Product(alignments, g))
  {
    hide Divides;
    var n := |alignments| - 1;
    var front := alignments[..n];
    if i < n {
      ProductIsMultiple(front, g, i);
      DividesProduct(alignments[i], Product(front, g), alignments[n] / g);
    } else {
      BaseDivides(front, g);
      WholeFactor(g, alignments[n], Product(front, g));
    }
  }

  /** Without 32-bit overflow the image alignment is a common multiple of all alignments. */
  lemma AlignmentIsCommonMultiple(alignments: seq<nat>, i: nat)
    requires GcdAll(alignments) > 0 && Product(alignments, GcdAll(alignments)) < TWO_32 && i < |alignments|
    ensures Divides(alignments[i], Product(alignments, GcdAll(alignments)) % TWO_32)
  {
    hide Divides, GcdAll, Product;
    GcdAllDivides(alignments, i);
    ProductIsMultiple(alignments, GcdAll(alignments), i);
  }

  // ----- powers of two, as ELF asks for -----

  lemma HalfProduct(x: nat, y: nat)
    requires x % 2 == 0
    ensures x * y % 2 == 0 && x * y / 2 == x / 2 * y
  {
    var h := x / 2;
    assert x == 2 * h;
    assert x * y == 2 * (h * y);
  }

  lemma OddProduct(d: nat, k: nat)
    requires d % 2 == 1
    ensures d * k % 2 == k % 2
  {
    var h := d / 2;
    assert d == 2 * h + 1;
    assert d * k == 2 * (h * k) + k;
  }

  lemma {:induction false} TimesPower(x: nat, y: nat)
    requires PowerOfTwo(x) && PowerOfTwo(y)
    ensures PowerOfTwo(x * y)
  {
    if x > 1 {
      HalfProduct(x, y);
      TimesPower(x / 2, y);
      DoublePower(x * y);
    }
  }

  lemma DoublePower(p: nat)
    requires p % 2 == 0 && PowerOfTwo(p / 2)
    ensures PowerOfTwo(p)
  {
  }

  /** A divisor of a power of two is one. */
  lemma {:induction false} DivisorOfPower(a: nat, d: nat, k: nat)
    requires PowerOfTwo(a) && a == d * k
    ensures PowerOfTwo(d)
    decreases a
  {
    if k > 0 {
      TimesAtLeast(d, k);
    }
    if a > 1 {
      if d % 2 == 0 {
        HalfProduct(d, k);
        DivisorOfPower(a / 2, d / 2, k);
      } else {
        OddProduct(d, k);
        HalfProduct(k, d);
        DivisorOfPower(a / 2, d, k / 2);
      }
    }
  }

  lemma {:induction false} LargerPower(p: nat, q: nat)
    requires PowerOfTwo(p) && PowerOfTwo(q) && p >= q
    ensures p % q == 0
    decreases q
  {
    if q > 1 {
      LargerPower(p / 2, q / 2);
      ModProduct(p, 2, q / 2);
    }
  }

  lemma {:induction false} ProductIsPower(alignments: seq<nat>, g: nat)
    requires PowerOfTwo(g)
    requires forall i | 0 <= i < |alignments| :: PowerOfTwo(alignments[i]) && Divides(g, alignments[i])
    ensures PowerOfTwo(Product(alignments, g))
  {
    if alignments != [] {
      hide PowerOfTwo;
      var n := |alignments| - 1;
      ProductIsPower(alignments[..n], g);
      QuotientIsPower(alignments[n], g);
      TimesPower(Product(alignments[..n], g), alignments[n] / g);
    }
  }

  lemma QuotientIsPower(a: nat, g: nat)
    requires PowerOfTwo(a) && g > 0 && Divides(g, a)
    ensures PowerOfTwo(a / g)
  {
    var k: nat :| a == g * k;
    DivModUnique(a, g, k, 0);
    DivisorOfPower(a, k, g);
  }

  /** For the powers of two that ELF asks for: the image alignment is a positive common
      multiple exactly when the product does not overflow, and 0 otherwise. */
  lemma AlignmentOfPowers(alignments: seq<nat>)
    requires alignments != [] && forall i | 0 <= i < |alignments| :: PowerOfTwo(alignments[i])
    ensures GcdAll(alignments) > 0
    ensures var g := GcdAll(alignments);
            var r := Product(alignments, g) % TWO_32;
            PowerOfTwo(Product(alignments, g)) &&
            (r > 0 && (forall i | 0 <= i < |alignments| :: Divides(alignments[i], r)) <==>
             Product(alignments, g) < TWO_32) &&
            (Product(alignments, g) >= TWO_32 ==> r == 0)
  {
    hide Divides, GcdAll, Product, PowerOfTwo;
    var g := GcdAll(alignments);
    forall i | 0 <= i < |alignments|
      ensures Divides(g, alignments[i])
    {
      GcdAllDivides(alignments, i);
    }
    GcdOfPowers(alignments[0], g);
    ProductIsPower(alignments, g);
    PowersArePositive(Product(alignments, g));
    if Product(alignments, g) < TWO_32 {
      forall i | 0 <= i < |alignments|
        ensures Divides(alignments[i], Product(alignments, g) % TWO_32)
      {
        AlignmentIsCommonMultiple(alignments, i);
      }
    } else {
      LargerPower(Product(alignments, g), TWO_32);
    }
  }

  lemma GcdOfPowers(a: nat, g: nat)
    requires PowerOfTwo(a) && Divides(g, a)
    ensures g > 0 && PowerOfTwo(g)
  {
    var k: nat :| a == g * k;
    DivisorOfPower(a, g, k);
  }

  lemma PowersArePositive(p: nat)
    requires PowerOfTwo(p)
    ensures p > 0 && PowerOfTwo(TWO_32)
  {
    TimesPower(0x100, 0x100);
    TimesPower(0x1_0000, 0x1_0000);
  }

  /** Three alignments that are powers of two, and an image alignment of 0. */
  lemma AlignmentOverflows()
    ensures GcdAll([1, 0x1_0000, 0x1_0000]) == 1 && Product([1, 0x1_0000, 0x1_0000], 1) % TWO_32 == 0
  {
    var a, b := 1, 0x1_0000;
    assert [a, b, b][..2] == [a, b] && [a, b][..1] == [a] && [a][..0] == [];
    assert GcdAll([a]) == 1;
    assert GcdAll([a, b]) == Gcd(b, 1) == 1;
    assert Product([], 1) == 1 && Product([a], 1) == 1 && Product([a, b], 1) == b;
  }
}
