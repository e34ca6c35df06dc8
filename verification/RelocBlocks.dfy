/** The page dictionary of tools/elf2efi.py and the .reloc data made from it
    (tools/elf2efi.py:430-451, tools/elf2efi.py:515-530). */
module RelocBlocks {
  import opened Bytes
  import opened ElfModel
  import opened RelocFormat

  type Pages = map<nat, seq<Entry>>

  /** Records one relocation under its page. */
  function Record(pages: Pages, offset: nat): Pages {
    var page := PageDown(offset);
    var old_ := if page in pages then pages[page] else [];
    pages[page := old_ + [Entry(offset - page, DIR64)]]
  }

  function RecordAll(offsets: seq<nat>): Pages {
    if offsets == [] then map[]
    else Record(RecordAll(offsets[..|offsets| - 1]), offsets[|offsets| - 1])
  }

  // ----- sorting -----

  /** Inserts `e` after the entries whose offset is not larger: a stable step. */
  function Insert(es: seq<Entry>, e: Entry): (r: seq<Entry>)
    ensures |r| == |es| + 1
  {
    if es == [] || es[|es| - 1].offset <= e.offset then es + [e]
    else Insert(es[..|es| - 1], e) + [es[|es| - 1]]
  }

  /** Python's sorted(entries, key=lambda e: e.Offset). */
  function SortEntries(es: seq<Entry>): (r: seq<Entry>)
    ensures |r| == |es|
  {
    if es == [] then [] else Insert(SortEntries(es[..|es| - 1]), es[|es| - 1])
  }

  predicate EntriesSorted(es: seq<Entry>) {
    forall i, j | 0 <= i < j < |es| :: es[i].offset <= es[j].offset
  }

  lemma {:induction false} Least(s: set<nat>) returns (m: nat)
    requires s != {}
    ensures m in s && forall y | y in s :: m <= y
  {
    var x :| x in s;
    var rest := s - {x};
    m := x;
    if rest != {} {
      var other := Least(rest);
      m := if x <= other then x else other;
    }
    forall y | y in s
      ensures m <= y
    {
      assert y == x || y in rest;
    }
  }

  lemma HasMin(s: set<nat>)
    requires s != {}
    ensures exists m :: m in s && forall y | y in s :: m <= y
  {
    var m := Least(s);
  }

  function Min(s: set<nat>): (m: nat)
    requires s != {}
    ensures m in s && forall y | y in s :: m <= y
  {
    HasMin(s);
    var m :| m in s && forall y | y in s :: m <= y;
    m
  }

  /** Python's sorted(dict): the keys in increasing order. */
  function SortedKeys(s: set<nat>): (r: seq<nat>)
    ensures forall x :: x in s <==> x in r
    ensures forall i, j | 0 <= i < j < |r| :: r[i] < r[j]
  {
    if s == {} then []
    else
      var m := Min(s);
      [m] + SortedKeys(s - {m})
  }

  // ----- the .reloc data -----

  function PadEven(es: seq<Entry>): (r: seq<Entry>)
    ensures |r| % 2 == 0 && |r| <= |es| + 1
  {
    if |es| % 2 != 0 then es + [Entry(0, ABSOLUTE)] else es
  }

  function ToBlock(page: nat, es: seq<Entry>, shift: nat): Block {
    Block(U32(U32(page) + shift), SortEntries(PadEven(es)))
  }

  function ToBlocks(keys: seq<nat>, pages: Pages, shift: nat): (bs: seq<Block>)
    requires forall k | k in keys :: k in pages
    ensures |bs| == |keys|
  {
    if keys == [] then [] else [ToBlock(keys[0], pages[keys[0]], shift)] + ToBlocks(keys[1..], pages, shift)
  }

  function BlocksOf(pages: Pages, shift: nat): (bs: seq<Block>) {
    ToBlocks(SortedKeys(pages.Keys), pages, shift)
  }

  /** The bytes of the .reloc section for relocations at `offsets`. */
  function RelocData(offsets: seq<nat>, shift: nat): seq<byte> {
    EncodeBlocks(BlocksOf(RecordAll(offsets), shift))
  }

  // ----- what the blocks mean -----

  lemma {:induction false} InsertAdds(es: seq<Entry>, e: Entry)
    ensures multiset(Insert(es, e)) == multiset(es) + multiset{e}
  {
    var n := |es| - 1;
    if es != [] && es[n].offset > e.offset {
      InsertAdds(es[..n], e);
      assert es == es[..n] + [es[n]];
    }
  }

  predicate UpTo(es: seq<Entry>, limit: nat) {
    forall i | 0 <= i < |es| :: es[i].offset <= limit
  }

  lemma {:induction false} InsertUpTo(es: seq<Entry>, e: Entry, limit: nat)
    requires UpTo(es, limit) && e.offset <= limit
    ensures UpTo(Insert(es, e), limit)
  {
    if es != [] && es[|es| - 1].offset > e.offset {
      InsertUpTo(es[..|es| - 1], e, limit);
    }
  }

  lemma {:induction false} InsertSorted(es: seq<Entry>, e: Entry)
    requires EntriesSorted(es)
    ensures EntriesSorted(Insert(es, e))
  {
    var n := |es| - 1;
    if es != [] && es[n].offset > e.offset {
      InsertSorted(es[..n], e);
      InsertUpTo(es[..n], e, es[n].offset);
    }
  }

  lemma {:induction false} InsertFixups(page: nat, es: seq<Entry>, e: Entry)
    ensures multiset(PageFixups(page, Insert(es, e))) ==
            multiset(PageFixups(page, es)) + multiset(EntryFixup(page, e))
  {
    hide EntryFixup;
    var n := |es| - 1;
    if es == [] || es[n].offset <= e.offset {
      PageFixupsConcat(page, es, [e]);
    } else {
      InsertFixups(page, es[..n], e);
      PageFixupsConcat(page, es[..n], [es[n]]);
      PageFixupsConcat(page, Insert(es[..n], e), [es[n]]);
      assert es == es[..n] + [es[n]];
      hide PageFixups;
    }
  }

  lemma {:induction false} SortSorts(es: seq<Entry>)
    ensures EntriesSorted(SortEntries(es)) && multiset(SortEntries(es)) == multiset(es)
  {
    if es != [] {
      var n := |es| - 1;
      SortSorts(es[..n]);
      InsertAdds(SortEntries(es[..n]), es[n]);
      InsertSorted(SortEntries(es[..n]), es[n]);
      assert es == es[..n] + [es[n]];
    }
  }

  lemma {:induction false} SortFixups(page: nat, es: seq<Entry>)
    ensures multiset(PageFixups(page, SortEntries(es))) == multiset(PageFixups(page, es))
  {
    hide EntryFixup, Insert;
    if es != [] {
      var n := |es| - 1;
      SortFixups(page, es[..n]);
      InsertFixups(page, SortEntries(es[..n]), es[n]);
      PageFixupsConcat(page, es[..n], [es[n]]);
      assert es == es[..n] + [es[n]];
      assert PageFixups(page, [es[n]]) == EntryFixup(page, es[n]);
    }
  }

  /** What record-keeping guarantees about each page. */
  predicate PageOk(page: nat, es: seq<Entry>, offsets: seq<nat>) {
    page % 4096 == 0 && es != [] && (exists o :: o in offsets && page <= o) &&
    forall i | 0 <= i < |es| :: es[i].offset < 4096 && es[i].kind == DIR64
  }

  lemma {:induction false} RecordAllOk(offsets: seq<nat>)
    ensures forall k | k in RecordAll(offsets) :: PageOk(k, RecordAll(offsets)[k], offsets)
  {
    if offsets != [] {
      var n := |offsets| - 1;
      RecordAllOk(offsets[..n]);
      var pages, pages' := RecordAll(offsets[..n]), RecordAll(offsets);
      forall k | k in pages'
        ensures PageOk(k, pages'[k], offsets)
      {
        if k == PageDown(offsets[n]) {
          assert offsets[n] in offsets;
        } else {
          var o :| o in offsets[..n] && k <= o;
          assert o in offsets;
        }
      }
    }
  }

  function Shift(s: seq<nat>, d: nat): (r: seq<nat>)
    ensures |r| == |s| && forall i | 0 <= i < |s| :: r[i] == s[i] + d
  {
    seq(|s|, i requires 0 <= i < |s| => s[i] + d)
  }

  lemma AppendCount(s: seq<nat>, v: nat, x: nat)
    ensures multiset(s + [v])[x] == multiset(s)[x] + if v == x then 1 else 0
  {
  }

  /** The multiset of a sequence, its last element apart. */
  lemma LastCount(s: seq<nat>, x: nat)
    requires s != []
    ensures multiset(s)[x] == multiset(s[..|s| - 1])[x] + if s[|s| - 1] == x then 1 else 0
  {
    AppendCount(s[..|s| - 1], s[|s| - 1], x);
    assert s == s[..|s| - 1] + [s[|s| - 1]];
  }

  lemma {:induction false} ShiftCount(s: seq<nat>, d: nat, v: nat)
    ensures multiset(Shift(s, d))[v] == if v >= d then multiset(s)[v - d] else 0
  {
    if s != [] {
      var n := |s| - 1;
      ShiftCount(s[..n], d, v);
      LastCount(Shift(s, d), v);
      assert Shift(s, d)[..n] == Shift(s[..n], d);
      if v >= d {
        LastCount(s, v - d);
      }
    }
  }

  lemma {:induction false} FixupsInPage(page: nat, es: seq<Entry>, v: nat)
    requires forall i | 0 <= i < |es| :: es[i].offset < 4096
    requires v in PageFixups(page, es)
    ensures page <= v < page + 4096
  {
    if v !in EntryFixup(page, es[0]) {
      FixupsInPage(page, es[1..], v);
    }
  }

  lemma OneFixup(page: nat, e: Entry)
    ensures PageFixups(page, [e]) == if e.kind == DIR64 then [page + e.offset] else []
    ensures PageFixups(page, []) == []
  {
    assert [e][1..] == [];
  }

  /** How often the entries recorded for its page ask to fix up `x`, moved by `shift`. */
  function PageCount(pages: Pages, x: nat, shift: nat): nat {
    var page := PageDown(x);
    if page in pages then multiset(PageFixups(page + shift, pages[page]))[x + shift] else 0
  }

  lemma EntryCount(page: nat, es: seq<Entry>, e: Entry, x: nat)
    requires e.kind == DIR64
    ensures multiset(PageFixups(page, es + [e]))[x] ==
            multiset(PageFixups(page, es))[x] + if page + e.offset == x then 1 else 0
  {
    hide PageFixups;
    PageFixupsConcat(page, es, [e]);
    OneFixup(page, e);
    AppendCount(PageFixups(page, es), page + e.offset, x);
  }

  lemma RecordStep(pages: Pages, o: nat, x: nat, shift: nat)
    ensures PageCount(Record(pages, o), x, shift) == PageCount(pages, x, shift) + if o == x then 1 else 0
  {
    hide PageDown, PageFixups;
    var page := PageDown(x);
    if PageDown(o) == page {
      var es := if page in pages then pages[page] else [];
      var e := Entry(o - page, DIR64);
      assert Record(pages, o)[page] == es + [e];
      EntryCount(page + shift, es, e, x + shift);
      OneFixup(page + shift, e);
    }
  }

  lemma NothingRecorded(x: nat, shift: nat)
    ensures PageCount(RecordAll([]), x, shift) == 0
  {
    hide PageDown;
  }

  lemma {:induction false} RecordCount(offsets: seq<nat>, x: nat, shift: nat)
    ensures multiset(offsets)[x] == PageCount(RecordAll(offsets), x, shift)
  {
    hide Record, PageCount;
    if offsets == [] {
      NothingRecorded(x, shift);
    } else {
      var n := |offsets| - 1;
      RecordCount(offsets[..n], x, shift);
      RecordStep(RecordAll(offsets[..n]), offsets[n], x, shift);
      LastCount(offsets, x);
    }
  }

  lemma BlockFixups(page: nat, es: seq<Entry>, shift: nat)
    requires page + shift < TWO_32
    ensures var b := ToBlock(page, es, shift);
            b.page == page + shift &&
            multiset(PageFixups(b.page, b.entries)) == multiset(PageFixups(page + shift, es))
  {
    hide SortEntries, PageFixups, PadEven;
    SortFixups(page + shift, PadEven(es));
    PaddingDropped(page + shift, es);
  }

  lemma PaddingDropped(page: nat, es: seq<Entry>)
    ensures PageFixups(page, PadEven(es)) == PageFixups(page, es)
  {
    hide PageFixups;
    PageFixupsConcat(page, es, [Entry(0, ABSOLUTE)]);
    OneFixup(page, Entry(0, ABSOLUTE));
  }

  predicate KeysOk(keys: seq<nat>, pages: Pages, shift: nat) {
    forall i | 0 <= i < |keys| ::
      keys[i] in pages && keys[i] % 4096 == 0 && keys[i] + shift < TWO_32 &&
      (forall j | 0 <= j < |pages[keys[i]]| :: pages[keys[i]][j].offset < 4096)
  }

  lemma NotInOtherPage(k: nat, es: seq<Entry>, shift: nat, x: nat)
    requires k % 4096 == 0 && k != PageDown(x)
    requires forall j | 0 <= j < |es| :: es[j].offset < 4096
    ensures x + shift !in PageFixups(k + shift, es)
  {
    hide PageDown, PageFixups;
    if x + shift in PageFixups(k + shift, es) {
      FixupsInPage(k + shift, es, x + shift);
    }
  }

  /** How often `x + shift` is fixed up by the block of page `k`. */
  lemma BlockCount(k: nat, es: seq<Entry>, shift: nat, x: nat)
    requires k % 4096 == 0 && k + shift < TWO_32
    requires forall j | 0 <= j < |es| :: es[j].offset < 4096
    ensures var b := ToBlock(k, es, shift);
            multiset(PageFixups(b.page, b.entries))[x + shift] ==
            if k == PageDown(x) then multiset(PageFixups(k + shift, es))[x + shift] else 0
  {
    hide PageDown, PageFixups, ToBlock;
    BlockFixups(k, es, shift);
    if k != PageDown(x) {
      NotInOtherPage(k, es, shift, x);
    }
  }

  lemma NoFixups()
    ensures Fixups([]) == []
  {
  }

  lemma FixupsOfFirst(keys: seq<nat>, pages: Pages, shift: nat)
    requires keys != [] && forall k | k in keys :: k in pages
    ensures var b := ToBlock(keys[0], pages[keys[0]], shift);
            Fixups(ToBlocks(keys, pages, shift)) ==
            PageFixups(b.page, b.entries) + Fixups(ToBlocks(keys[1..], pages, shift))
  {
    assert ToBlocks(keys, pages, shift)[1..] == ToBlocks(keys[1..], pages, shift);
  }

  lemma {:induction false} BlocksCount(keys: seq<nat>, pages: Pages, shift: nat, x: nat)
    requires KeysOk(keys, pages, shift)
    requires forall i, j | 0 <= i < j < |keys| :: keys[i] < keys[j]
    ensures var page := PageDown(x);
            multiset(Fixups(ToBlocks(keys, pages, shift)))[x + shift] ==
            if page in keys then multiset(PageFixups(page + shift, pages[page]))[x + shift] else 0
  {
    hide PageDown, PageFixups, ToBlock, Fixups, ToBlocks;
    if keys == [] {
      assert ToBlocks(keys, pages, shift) == [];
      NoFixups();
    } else {
      var k: nat := keys[0];
      BlocksCount(keys[1..], pages, shift, x);
      BlockCount(k, pages[k], shift, x);
      FixupsOfFirst(keys, pages, shift);
      assert keys == [k] + keys[1..];
      assert k !in keys[1..];
    }
  }

  lemma {:induction false} FixupsShifted(keys: seq<nat>, pages: Pages, shift: nat, v: nat)
    requires KeysOk(keys, pages, shift) && v in Fixups(ToBlocks(keys, pages, shift))
    ensures v >= shift
  {
    hide PageFixups, ToBlock;
    var k: nat := keys[0];
    BlockFixups(k, pages[k], shift);
    if v in PageFixups(k + shift, pages[k]) {
      FixupsInPage(k + shift, pages[k], v);
    } else {
      assert v !in multiset(PageFixups(k + shift, pages[k]));
      FixupsShifted(keys[1..], pages, shift, v);
    }
  }

  lemma KeysAreOk(offsets: seq<nat>, shift: nat)
    requires forall o | o in offsets :: o + shift < TWO_32
    ensures var pages := RecordAll(offsets); KeysOk(SortedKeys(pages.Keys), pages, shift)
  {
    RecordAllOk(offsets);
    var pages := RecordAll(offsets);
    var keys := SortedKeys(pages.Keys);
    forall i | 0 <= i < |keys|
      ensures keys[i] in pages && PageOk(keys[i], pages[keys[i]], offsets)
    {
      assert keys[i] in keys;
    }
  }

  /** The loader fixes up exactly the relocated addresses, each as often as it occurs. */
  lemma FixupsAreTheRelocations(offsets: seq<nat>, shift: nat)
    requires forall o | o in offsets :: o + shift < TWO_32
    ensures multiset(Fixups(BlocksOf(RecordAll(offsets), shift))) == multiset(Shift(offsets, shift))
  {
    hide PageDown, Fixups, ToBlocks, SortedKeys, RecordAll, Shift, KeysOk, PageFixups;
    KeysAreOk(offsets, shift);
    var pages := RecordAll(offsets);
    var keys := SortedKeys(pages.Keys);
    var fixups: seq<nat> := Fixups(BlocksOf(pages, shift));
    forall v: nat
      ensures multiset(fixups)[v] == multiset(Shift(offsets, shift))[v]
    {
      ShiftCount(offsets, shift, v);
      if v >= shift {
        RecordCount(offsets, v - shift, shift);
        BlocksCount(keys, pages, shift, v - shift);
      } else if v in fixups {
        FixupsShifted(keys, pages, shift, v);
      }
    }
  }

  // ----- the shape of the blocks -----

  lemma {:induction false} ToBlocksAt(keys: seq<nat>, pages: Pages, shift: nat, i: nat)
    requires i < |keys| && forall k | k in keys :: k in pages
    ensures ToBlocks(keys, pages, shift)[i] == ToBlock(keys[i], pages[keys[i]], shift)
  {
    if i > 0 {
      ToBlocksAt(keys[1..], pages, shift, i - 1);
    }
  }

  /** Offsets sorted and below 4096, an even number of entries of the two types used. */
  predicate BlockShape(b: Block) {
    b.page < TWO_32 && b.page % 4096 == 0 && EntriesSorted(b.entries) && |b.entries| % 2 == 0 &&
    forall i | 0 <= i < |b.entries| ::
      b.entries[i].offset < 4096 && (b.entries[i].kind == DIR64 || b.entries[i].kind == ABSOLUTE)
  }

  lemma ToBlockShape(page: nat, es: seq<Entry>, shift: nat)
    requires page % 4096 == 0 && shift % 4096 == 0 && page + shift < TWO_32
    requires forall i | 0 <= i < |es| :: es[i].offset < 4096 && es[i].kind == DIR64
    ensures BlockShape(ToBlock(page, es, shift))
  {
    hide SortEntries, U32;
    var padded := PadEven(es);
    SortSorts(padded);
    var sorted := SortEntries(padded);
    forall i | 0 <= i < |sorted|
      ensures sorted[i] in padded
    {
      assert sorted[i] in multiset(sorted);
    }
  }

  predicate PagesIncrease(bs: seq<Block>) {
    forall i, j | 0 <= i < j < |bs| :: bs[i].page < bs[j].page
  }

  lemma BlocksShape(offsets: seq<nat>, shift: nat)
    requires shift % 4096 == 0 && forall o | o in offsets :: o + shift < TWO_32
    ensures var bs := BlocksOf(RecordAll(offsets), shift);
            PagesIncrease(bs) && forall i | 0 <= i < |bs| :: BlockShape(bs[i])
  {
    hide PageDown, RecordAll, SortedKeys, BlockShape, ToBlocks;
    var pages := RecordAll(offsets);
    var keys, bs := SortedKeys(pages.Keys), BlocksOf(pages, shift);
    KeysAreOk(offsets, shift);
    RecordAllOk(offsets);
    forall i | 0 <= i < |bs|
      ensures BlockShape(bs[i]) && bs[i].page == keys[i] + shift
    {
      ToBlocksAt(keys, pages, shift, i);
      assert PageOk(keys[i], pages[keys[i]], offsets);
      ToBlockShape(keys[i], pages[keys[i]], shift);
    }
  }

  lemma {:induction false} BlockInside(bs: seq<Block>, i: nat)
    requires i < |bs|
    ensures 8 + 2 * |bs[i].entries| <= |EncodeBlocks(bs)|
  {
    if i > 0 {
      BlockInside(bs[1..], i - 1);
    }
  }

  lemma BlockAligned(b: Block)
    requires BlockShape(b)
    ensures |EncodeBlock(b)| % 4 == 0
  {
    hide EncodeBlock, EntriesSorted;
    var k := |b.entries| / 2;
    assert |b.entries| == 2 * k;
  }

  lemma {:induction false} BlocksStartAligned(bs: seq<Block>, i: nat)
    requires i <= |bs| && forall k | 0 <= k < |bs| :: BlockShape(bs[k])
    ensures |EncodeBlocks(bs[..i])| % 4 == 0
  {
    hide EncodeBlock, BlockShape;
    if i > 0 {
      BlocksStartAligned(bs[1..], i - 1);
      assert bs[..i][1..] == bs[1..][..i - 1];
      BlockAligned(bs[0]);
    }
  }

  /** Well-shaped blocks survive encoding and decoding, on 4-byte boundaries. */
  lemma ShapedBlocksRoundTrip(bs: seq<Block>)
    requires |EncodeBlocks(bs)| < TWO_32 && forall i | 0 <= i < |bs| :: BlockShape(bs[i])
    ensures DecodeBlocks(EncodeBlocks(bs)) == Some(bs)
    ensures forall i | 0 <= i < |bs| :: |EncodeBlocks(bs[..i])| % 4 == 0
  {
    hide EncodeBlocks, DecodeBlocks;
    forall i | 0 <= i < |bs|
      ensures Encodable(bs[i]) && |EncodeBlocks(bs[..i])| % 4 == 0
    {
      BlockInside(bs, i);
      BlocksStartAligned(bs, i);
    }
    BlocksRoundTrip(bs);
  }

  /** The .reloc codec: a loader walking the emitted bytes finds blocks on 4-byte
      boundaries with increasing pages and sorted offsets, whose non-padding entries
      are exactly the relocated addresses moved by `shift`. */
  lemma RelocDataMeaning(offsets: seq<nat>, shift: nat)
    requires shift % 4096 == 0 && forall o | o in offsets :: o + shift < TWO_32
    requires |RelocData(offsets, shift)| < TWO_32
    ensures var bs := BlocksOf(RecordAll(offsets), shift);
            DecodeBlocks(RelocData(offsets, shift)) == Some(bs) &&
            multiset(Fixups(bs)) == multiset(Shift(offsets, shift)) &&
            PagesIncrease(bs) &&
            forall i | 0 <= i < |bs| :: BlockShape(bs[i]) && |EncodeBlocks(bs[..i])| % 4 == 0
  {
    hide BlocksOf, RecordAll, EncodeBlocks, DecodeBlocks, Fixups, Shift, BlockShape;
    FixupsAreTheRelocations(offsets, shift);
    BlocksShape(offsets, shift);
    ShapedBlocksRoundTrip(BlocksOf(RecordAll(offsets), shift));
  }

  // ----- the bytes for one relocation -----

  lemma OneKey(k: nat)
    ensures SortedKeys({k}) == [k]
  {
    assert SortedKeys({}) == [] && {k} - {Min({k})} == {};
  }

  lemma OneBlock(k: nat, es: seq<Entry>, shift: nat)
    ensures BlocksOf(map[k := es], shift) == [ToBlock(k, es, shift)]
  {
    hide SortEntries, U32;
    var pages := map[k := es];
    OneKey(k);
    assert pages.Keys == {k};
    assert [k][1..] == [] && ToBlocks([], pages, shift) == [];
  }

  lemma OnePage(o: nat)
    ensures RecordAll([o]) == map[o / 4096 * 4096 := [Entry(o % 4096, 10)]]
  {
    assert [o][..0] == [] && RecordAll([]) == map[];
    assert [] + [Entry(o % 4096, 10)] == [Entry(o % 4096, 10)];
  }

  /** The padding is sorted in by its offset 0: it comes first unless the relocation is at the
      start of the page. */
  lemma SortedPair(o: nat)
    ensures var e, pad := Entry(o % 4096, 10), Entry(0, 0);
            SortEntries(PadEven([e])) == if o % 4096 == 0 then [e, pad] else [pad, e]
  {
    var e, pad := Entry(o % 4096, 10), Entry(0, 0);
    assert PadEven([e]) == [e, pad] && [e, pad][..1] == [e] && [e][..0] == [];
    assert SortEntries([e]) == Insert([], e) == [e];
    assert SortEntries([e, pad]) == Insert([e], pad);
    assert Insert([], pad) == [pad];
  }

  lemma EncodePair(page: nat, a: Entry, b: Entry)
    ensures EncodeBlocks([Block(page, [a, b])]) ==
            ToLe(page, 4) + ToLe(12, 4) + (ToLe(a.kind * 4096 + a.offset, 2) + ToLe(b.kind * 4096 + b.offset, 2))
  {
    hide ToLe;
    var bs := [Block(page, [a, b])];
    assert bs[1..] == [] && [a, b][1..] == [b] && [b][1..] == [];
    assert EncodeEntries([]) == [] && EncodeBlocks([]) == [];
    assert EncodeEntries([b]) == ToLe(b.kind * 4096 + b.offset, 2);
    assert EncodeEntries([a, b]) == ToLe(a.kind * 4096 + a.offset, 2) + EncodeEntries([b]);
    assert EncodeBlocks(bs) == EncodeBlock(bs[0]);
  }

  lemma TwelveAndZero()
    ensures ToLe(12, 4) == [12, 0, 0, 0] && ToLe(0, 2) == [0, 0]
  {
  }

  /** One relocation in bytes: page, size 12, a type-10 entry with the offset in the page, and
      one entry of padding. */
  lemma OneRelocation(o: nat, shift: nat)
    requires o + shift < TWO_32
    ensures RelocData([o], shift) ==
            ToLe(o / 4096 * 4096 + shift, 4) + [12, 0, 0, 0] +
            (if o % 4096 == 0 then ToLe(0xA000, 2) + [0, 0] else [0, 0] + ToLe(0xA000 + o % 4096, 2))
  {
    hide ToLe, SortEntries, PadEven, RecordAll, BlocksOf, EncodeBlocks;
    var e, pad := Entry(o % 4096, 10), Entry(0, 0);
    OnePage(o);
    OneBlock(o / 4096 * 4096, [e], shift);
    SortedPair(o);
    TwelveAndZero();
    if o % 4096 == 0 {
      EncodePair(o / 4096 * 4096 + shift, e, pad);
    } else {
      EncodePair(o / 4096 * 4096 + shift, pad, e);
    }
  }
}
