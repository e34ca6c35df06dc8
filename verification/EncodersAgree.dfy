/** The two relocation encoders, tools/elf2efi.py and tools/elf2efi.c, ask a loader for the
    same fixups in the same order, and make the same room for the headers. */
module EncodersAgree {
  import opened Bytes
  import opened RelocFormat
  import opened RelocBlocks
  import opened StreamReloc
  import PeImage
  import ExecLayout

  lemma SortedConcat(a: seq<nat>, b: seq<nat>)
    requires Sorted(a) && Sorted(b) && forall i, j | 0 <= i < |a| && 0 <= j < |b| :: a[i] <= b[j]
    ensures Sorted(a + b)
  {
  }

  lemma {:induction false} PageFixupsFrom(page: nat, es: seq<Entry>, i: nat)
    requires i < |PageFixups(page, es)|
    ensures exists k :: 0 <= k < |es| && PageFixups(page, es)[i] == page + es[k].offset
  {
    var first := EntryFixup(page, es[0]);
    if i >= |first| {
      PageFixupsFrom(page, es[1..], i - |first|);
      var k :| 0 <= k < |es| - 1 && PageFixups(page, es[1..])[i - |first|] == page + es[1..][k].offset;
      assert es[1..][k] == es[k + 1];
    }
  }

  lemma {:induction false} PageFixupsSorted(page: nat, es: seq<Entry>)
    requires EntriesSorted(es)
    ensures Sorted(PageFixups(page, es))
  {
    if es != [] {
      var first, rest := EntryFixup(page, es[0]), PageFixups(page, es[1..]);
      PageFixupsSorted(page, es[1..]);
      forall i, j | 0 <= i < |first| && 0 <= j < |rest|
        ensures first[i] <= rest[j]
      {
        PageFixupsFrom(page, es[1..], j);
      }
      SortedConcat(first, rest);
    }
  }

  /** The fixups of blocks whose pages increase come in increasing order. */
  lemma {:induction false} ShapedFixupsSorted(bs: seq<Block>)
    requires PagesIncrease(bs) && forall i | 0 <= i < |bs| :: BlockShape(bs[i])
    ensures Sorted(Fixups(bs))
    ensures forall i | 0 <= i < |Fixups(bs)| :: bs != [] && Fixups(bs)[i] >= bs[0].page
  {
    if bs != [] {
      hide PageFixups, EntriesSorted;
      var first, rest := PageFixups(bs[0].page, bs[0].entries), Fixups(bs[1..]);
      ShapedFixupsSorted(bs[1..]);
      PageFixupsSorted(bs[0].page, bs[0].entries);
      forall i | 0 <= i < |first|
        ensures bs[0].page <= first[i] < bs[0].page + 4096
      {
        PageFixupsFrom(bs[0].page, bs[0].entries, i);
      }
      if |bs| > 1 {
        assert bs[1].page >= bs[0].page + 4096 by {
          assert bs[1].page % 4096 == 0 && bs[0].page % 4096 == 0;
        }
      }
      SortedConcat(first, rest);
    }
  }

  lemma LeastFirst(a: seq<nat>, b: seq<nat>)
    requires Sorted(a) && a != [] && b != [] && b[0] in multiset(a)
    ensures a[0] <= b[0]
  {
    var i :| 0 <= i < |a| && a[i] == b[0];
  }

  lemma SameLength(a: seq<nat>, b: seq<nat>)
    requires multiset(a) == multiset(b)
    ensures |a| == |b|
  {
    assert |multiset(a)| == |a| && |multiset(b)| == |b|;
  }

  lemma Tail(a: seq<nat>)
    requires Sorted(a) && a != []
    ensures Sorted(a[1..])
    ensures a == [a[0]] + a[1..] && multiset(a[1..]) == multiset(a) - multiset{a[0]} && a[0] in multiset(a)
  {
    assert a == [a[0]] + a[1..];
  }

  /** A sorted list is determined by what it contains. */
  lemma {:induction false} SortedUnique(a: seq<nat>, b: seq<nat>)
    requires Sorted(a) && Sorted(b) && multiset(a) == multiset(b)
    ensures a == b
  {
    hide Sorted;
    SameLength(a, b);
    if a != [] {
      Tail(a);
      Tail(b);
      LeastFirst(a, b);
      LeastFirst(b, a);
      SortedUnique(a[1..], b[1..]);
    }
  }

  /** For the same relocations, moved by `shift` in one tool and less the base in the other,
      the two tables ask for the same fixups in the same order. */
  lemma SameFixups(offsets: seq<nat>, shift: nat, vs: seq<nat>, base: nat)
    requires shift % 4096 == 0 && forall o | o in offsets :: o + shift < TWO_32
    requires InReach(vs, base) && multiset(Rebased(vs, base)) == multiset(Shift(offsets, shift))
    ensures Fixups(BlocksOf(RecordAll(offsets), shift)) == Fixups(PageBlocks(vs, base))
  {
    hide Fixups, BlocksOf, PageBlocks, Shift, BlockShape, PagesIncrease;
    FixupsAreTheRelocations(offsets, shift);
    BlocksShape(offsets, shift);
    ShapedFixupsSorted(BlocksOf(RecordAll(offsets), shift));
    BlocksMeaning(vs, base);
    SortedUnique(Fixups(BlocksOf(RecordAll(offsets), shift)), Rebased(vs, base));
  }

  /** Both tools reckon with the same room for the headers. */
  lemma SameHeaderSize(n: nat)
    ensures PeImage.HeaderBytes(n) == ExecLayout.HeaderSize(n) == 328 + 40 * n
  {
  }
}
