/** Python's `sorted(sections, key=lambda s: s.VirtualAddress)`: a stable sort, kept as the
    list of indices in sorted order. */
module AddressOrder {
  import opened Coalesce

  /** Each index below |order| occurs, once. */
  predicate IsPermutation(order: seq<nat>) {
    (forall i | 0 <= i < |order| :: order[i] < |order|) &&
    (forall i, j | 0 <= i < j < |order| :: order[i] != order[j]) &&
    forall k | 0 <= k < |order| :: k in order
  }

  /** Inserts `n` after the indices whose address is not larger. */
  function InsertIndex(vas: seq<nat>, order: seq<nat>, n: nat): (r: seq<nat>)
    requires n < |vas| && forall i | 0 <= i < |order| :: order[i] < |vas|
    ensures |r| == |order| + 1 && forall i | 0 <= i < |r| :: r[i] < |vas|
  {
    if order == [] || vas[order[|order| - 1]] <= vas[n] then order + [n]
    else InsertIndex(vas, order[..|order| - 1], n) + [order[|order| - 1]]
  }

  function OrderOf(vas: seq<nat>, n: nat): (order: seq<nat>)
    requires n <= |vas|
    ensures |order| == n && forall i | 0 <= i < n :: order[i] < |vas|
  {
    if n == 0 then [] else InsertIndex(vas, OrderOf(vas, n - 1), n - 1)
  }

  /** The indices of `vas` in stable order of value. */
  function Order(vas: seq<nat>): (order: seq<nat>)
    ensures |order| == |vas| && forall i | 0 <= i < |order| :: order[i] < |vas|
  {
    OrderOf(vas, |vas|)
  }

  lemma {:induction false} InsertKeeps(vas: seq<nat>, order: seq<nat>, n: nat)
    requires n < |vas| && forall i | 0 <= i < |order| :: order[i] < |vas|
    ensures multiset(InsertIndex(vas, order, n)) == multiset(order) + multiset{n}
  {
    if order != [] && vas[order[|order| - 1]] > vas[n] {
      InsertKeeps(vas, order[..|order| - 1], n);
      assert order == order[..|order| - 1] + [order[|order| - 1]];
    }
  }

  /** Before `j` in a stable order. */
  predicate Before(vas: seq<nat>, i: nat, j: nat)
    requires i < |vas| && j < |vas|
  {
    vas[i] < vas[j] || (vas[i] == vas[j] && i < j)
  }

  predicate Stable(vas: seq<nat>, order: seq<nat>)
    requires forall i | 0 <= i < |order| :: order[i] < |vas|
  {
    forall i, j | 0 <= i < j < |order| :: Before(vas, order[i], order[j])
  }

  lemma {:induction false} InsertStable(vas: seq<nat>, order: seq<nat>, n: nat)
    requires n < |vas| && (forall i | 0 <= i < |order| :: order[i] < n) && Stable(vas, order)
    ensures Stable(vas, InsertIndex(vas, order, n))
  {
    if order != [] && vas[order[|order| - 1]] > vas[n] {
      var m := |order| - 1;
      var front, last := order[..m], order[m];
      InsertStable(vas, front, n);
      var r := InsertIndex(vas, front, n);
      forall i | 0 <= i < |r|
        ensures Before(vas, r[i], last)
      {
        InsertKeeps(vas, front, n);
        assert r[i] in multiset(r);
        if r[i] != n {
          assert r[i] in multiset(front);
          var k :| 0 <= k < m && front[k] == r[i];
          assert Before(vas, order[k], order[m]);
        }
      }
    }
  }

  lemma {:induction false} OrderIsStable(vas: seq<nat>, n: nat)
    requires n <= |vas|
    ensures Stable(vas, OrderOf(vas, n))
    ensures forall k: nat :: multiset(OrderOf(vas, n))[k] == if k < n then 1 else 0
    ensures forall i | 0 <= i < n :: OrderOf(vas, n)[i] < n
  {
    hide Before, InsertIndex;
    if n > 0 {
      var prev := OrderOf(vas, n - 1);
      OrderIsStable(vas, n - 1);
      InsertKeeps(vas, prev, n - 1);
      InsertStable(vas, prev, n - 1);
      BelowByCount(OrderOf(vas, n), n);
    }
  }

  lemma BelowByCount(order: seq<nat>, n: nat)
    requires forall k: nat :: multiset(order)[k] == if k < n then 1 else 0
    ensures forall i | 0 <= i < |order| :: order[i] < n
  {
    forall i | 0 <= i < |order|
      ensures order[i] < n
    {
      assert order[i] in multiset(order);
    }
  }

  /** Sorting by address: a permutation, in order of address, equal addresses in the order
      they had. */
  lemma OrderSorts(vas: seq<nat>)
    ensures IsPermutation(Order(vas)) && Stable(vas, Order(vas))
  {
    var n := |vas|;
    var order := Order(vas);
    OrderIsStable(vas, n);
    forall k | 0 <= k < n
      ensures k in order
    {
      assert k in multiset(order);
    }
    forall i, j | 0 <= i < j < n
      ensures order[i] != order[j]
    {
      assert Before(vas, order[i], order[j]);
    }
  }

  predicate Ascending(vas: seq<nat>) {
    forall i, j | 0 <= i < j < |vas| :: vas[i] <= vas[j]
  }

  /** Sorting an ascending list changes nothing. */
  lemma {:induction false} OrderOfAscending(vas: seq<nat>, n: nat)
    requires Ascending(vas) && n <= |vas|
    ensures forall i | 0 <= i < n :: OrderOf(vas, n)[i] == i
  {
    if n > 0 {
      OrderOfAscending(vas, n - 1);
    }
  }

  // ----- sections in address order -----

  function Vas(secs: seq<Section>): (vas: seq<nat>)
    ensures |vas| == |secs| && forall i | 0 <= i < |secs| :: vas[i] == secs[i].va
  {
    seq(|secs|, i requires 0 <= i < |secs| => secs[i].va)
  }

  function Pick<T>(s: seq<T>, order: seq<nat>): (r: seq<T>)
    requires forall i | 0 <= i < |order| :: order[i] < |s|
    ensures |r| == |order| && forall i | 0 <= i < |order| :: r[i] == s[order[i]]
  {
    seq(|order|, i requires 0 <= i < |order| => s[order[i]])
  }

  function Rank(order: seq<nat>, k: nat): (j: nat)
    requires k in order
    ensures j < |order| && order[j] == k
  {
    if order[0] == k then 0 else Rank(order[1..], k) + 1
  }

  /** Undoes Pick: what was picked, back in the places it was picked from. */
  function Unpick<T>(picked: seq<T>, order: seq<nat>): (r: seq<T>)
    requires |picked| == |order| && IsPermutation(order)
    ensures |r| == |order|
  {
    seq(|order|, k requires 0 <= k < |order| => picked[Rank(order, k)])
  }

  lemma UnpickAt<T>(picked: seq<T>, order: seq<nat>, i: nat)
    requires |picked| == |order| && IsPermutation(order) && i < |order|
    ensures Unpick(picked, order)[order[i]] == picked[i]
  {
    var k := order[i];
    assert order[Rank(order, k)] == order[i];
  }

  function Sorted(secs: seq<Section>): (r: seq<Section>)
    ensures |r| == |secs|
  {
    Pick(secs, Order(Vas(secs)))
  }

  lemma SortedAscending(secs: seq<Section>)
    requires Ascending(Vas(secs))
    ensures Sorted(secs) == secs
    ensures IsPermutation(Order(Vas(secs))) && Pick(secs, Order(Vas(secs))) == secs
    ensures forall picked: seq<Section> | |picked| == |secs| :: Unpick(picked, Order(Vas(secs))) == picked
  {
    hide Order;
    OrderSorts(Vas(secs));
    IdentityOrder(Vas(secs));
    var order := Order(Vas(secs));
    forall picked: seq<Section> | |picked| == |secs|
      ensures Unpick(picked, order) == picked
    {
      forall i | 0 <= i < |order|
        ensures Unpick(picked, order)[i] == picked[i]
      {
        UnpickAt(picked, order, i);
      }
    }
  }

  lemma IdentityOrder(vas: seq<nat>)
    requires Ascending(vas)
    ensures forall i | 0 <= i < |vas| :: Order(vas)[i] == i
  {
    OrderOfAscending(vas, |vas|);
  }
}
