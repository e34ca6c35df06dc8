/** The alignment macros of tools/elf2efi.c, for any positive alignment. */
module AlignMacros {
  import opened Bytes

  lemma DownFacts(x: nat, a: nat)
    requires a > 0
    ensures x / a * a <= x < x / a * a + a && x / a * a % a == 0
  {
    var q, r := x / a, x % a;
    assert x == a * q + r;
    assert a * q == q * a;
    DivModUnique(q * a, a, q, 0);
  }

  function Down(x: nat, a: nat): (r: nat)
    requires a > 0
    ensures r <= x < r + a && r % a == 0
  {
    DownFacts(x, a);
    x / a * a
  }

  function Align(x: nat, a: nat): (r: nat)
    requires a > 0
    ensures x <= r < x + a && r % a == 0
  {
    Down(x + a - 1, a)
  }

  /** Rounding down commutes with moving by a multiple. */
  lemma DownMoved(x: nat, d: nat, a: nat)
    requires a > 0 && d % a == 0
    ensures Down(x + d, a) == Down(x, a) + d
  {
    var q, k := x / a, d / a;
    assert x == q * a + x % a && d == k * a;
    assert (q + k) * a == q * a + k * a;
    DivModUnique(x + d, a, q + k, x % a);
  }
}
