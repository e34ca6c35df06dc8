/** The relocation encoder of tools/elf2efi.c: one pass over sorted relocations, block sizes
    filled in afterwards. */
module StreamReloc {
  import opened AlignMacros
  import opened Bytes
  import opened ElfModel
  import opened RelocFormat

  // ----- the growing buffer -----

  lemma Room(n: nat)
    requires n > 0
    ensures Align(n, 1024) >= 1024 && Align(n, 1024) >= n
  {
  }

  /** `data` is the allocation (NULL is an empty one); its length is allocatedSize. */
  class DynamicBuffer {
    var data: array<byte>
    var effectiveSize: nat

    ghost predicate Valid()
      reads this
    {
      effectiveSize <= data.Length && (data.Length > 0 ==> data.Length >= 1024)
    }

    ghost function Contents(): seq<byte>
      requires Valid()
      reads this, data
    {
      data[..effectiveSize]
    }

    constructor ()
      ensures Valid() && fresh(data) && data.Length == 0 && Contents() == []
    {
      data := new byte[0];
      effectiveSize := 0;
    }

    /** realloc to `size` bytes. */
    method Grow(size: nat)
      requires Valid() && size >= 1024 && size >= data.Length
      modifies this`data
      ensures Valid() && fresh(data) && data.Length == size && Contents() == old(Contents())
    {
      var bigger := new byte[size](_ => 0);
      forall i | 0 <= i < effectiveSize {
        bigger[i] := data[i];
      }
      data := bigger;
    }

    /** buffer_append: every write stays inside the allocation. */
    method Append(s: seq<byte>)
      requires Valid() && s != []
      modifies this, data
      ensures Valid() && (data == old(data) || fresh(data)) && data.Length > 0
      ensures Contents() == old(Contents()) + s
    {
      hide Align;
      var newSize := effectiveSize + |s|;
      if newSize >= data.Length {
        Room(|s|);
        Grow(data.Length + Align(|s|, 1024));
      }
      ghost var c := Contents();
      forall i | 0 <= i < |s| {
        data[effectiveSize + i] := s[i];
      }
      forall i | 0 <= i < newSize
        ensures data[i] == (c + s)[i]
      {
        if i < effectiveSize {
          assert c[i] == data[i];
        } else {
          assert data[effectiveSize + (i - effectiveSize)] == s[i - effectiveSize];
        }
      }
      effectiveSize := newSize;
      assert Contents() == c + s;
    }

    /** `block->size = ...` for the block that starts at `at`; a block that starts at the very
        end of the contents is only covered by the allocation. */
    method SetSize(at: nat, entries: nat)
      requires Valid() && at + 8 <= data.Length
      modifies data
      ensures Contents() == Backfill(old(Contents()), at, entries)
    {
      var size := ToLe(entries * 2 + 8, 4);
      forall i | 0 <= i < 4 {
        data[at + 4 + i] := size[i];
      }
    }
  }

  /** `c` with the size field of the block at `at` filled in, as far as `c` reaches. */
  function Backfill(c: seq<byte>, at: nat, entries: nat): (r: seq<byte>)
    ensures |r| == |c|
  {
    var size := ToLe(8 + 2 * entries, 4);
    seq(|c|, i requires 0 <= i < |c| => if at + 4 <= i < at + 8 then size[i - at - 4] else c[i])
  }

  // ----- what is written -----

  function PageOf(v: nat): (p: nat)
    ensures p <= v < p + 4096 && p % 4096 == 0
  {
    v / 4096 * 4096
  }

  /** The page address a block header holds: a 64-bit difference cut to 32 bits. */
  function Rva(v: nat, base: nat): (r: nat)
    ensures r < TWO_32
  {
    U32((PageOf(v) - base) % TWO_64)
  }

  function EntryOf(v: nat): Entry {
    Entry(v - PageOf(v), DIR64)
  }

  predicate Sorted(vs: seq<nat>) {
    forall i, j | 0 <= i < j < |vs| :: vs[i] <= vs[j]
  }

  function AddEntry(bs: seq<Block>, e: Entry): (r: seq<Block>)
    requires bs != []
    ensures |r| == |bs|
  {
    var n := |bs| - 1;
    bs[..n] + [Block(bs[n].page, bs[n].entries + [e])]
  }

  /** One block per page, in order, with the page's relocations in order. */
  function PageBlocks(vs: seq<nat>, base: nat): (bs: seq<Block>)
    ensures vs != [] ==> bs != []
  {
    if vs == [] then []
    else
      var n := |vs| - 1;
      var front := PageBlocks(vs[..n], base);
      if n == 0 || PageOf(vs[n]) > PageOf(vs[n - 1]) then front + [Block(Rva(vs[n], base), [EntryOf(vs[n])])]
      else AddEntry(front, EntryOf(vs[n]))
  }

  /** A block whose size is still 0. */
  function OpenBlock(b: Block): (s: seq<byte>)
    ensures |s| == 8 + 2 * |b.entries|
  {
    ToLe(b.page, 4) + ToLe(0, 4) + EncodeEntries(b.entries)
  }

  lemma EncodeOne(b: Block)
    ensures EncodeBlocks([b]) == EncodeBlock(b)
  {
    assert [b][1..] == [];
    assert EncodeBlocks([]) == [];
    assert EncodeBlock(b) + [] == EncodeBlock(b);
  }

  lemma EncodeLast(bs: seq<Block>)
    requires bs != []
    ensures EncodeBlocks(bs) == EncodeBlocks(bs[..|bs| - 1]) + EncodeBlock(bs[|bs| - 1])
  {
    hide EncodeBlock, EncodeBlocks;
    var n := |bs| - 1;
    var front, last := bs[..n], bs[n];
    assert bs == front + [last];
    EncodeConcat(front, [last]);
    EncodeOne(last);
  }

  lemma {:induction false} EntriesSnoc(es: seq<Entry>, e: Entry)
    ensures EncodeEntries(es + [e]) == EncodeEntries(es) + ToLe(e.kind * 4096 + e.offset, 2)
  {
    if es == [] {
      assert [] + [e] == [e] && [e][1..] == [];
    } else {
      assert (es + [e])[1..] == es[1..] + [e];
      EntriesSnoc(es[1..], e);
    }
  }

  /** Filling in the size closes a block. */
  lemma FillCloses(pre: seq<byte>, b: Block)
    ensures Backfill(pre + OpenBlock(b), |pre|, |b.entries|) == pre + EncodeBlock(b)
  {
    hide ToLe, EncodeEntries;
    var page, size, es := ToLe(b.page, 4), ToLe(8 + 2 * |b.entries|, 4), EncodeEntries(b.entries);
    var open, closed := pre + OpenBlock(b), pre + EncodeBlock(b);
    var filled := Backfill(open, |pre|, |b.entries|);
    forall i | 0 <= i < |open|
      ensures filled[i] == closed[i]
    {
      if i >= |pre| {
        assert open[i] == OpenBlock(b)[i - |pre|] && closed[i] == EncodeBlock(b)[i - |pre|];
      }
    }
  }

  // ----- the state of the pass -----

  /** The pass does not emit a block header for the page at 0. */
  predicate SkipsHeader(vs: seq<nat>) {
    vs != [] && vs[0] < 4096
  }

  function CurrentPage(vs: seq<nat>): nat {
    if vs == [] then 0 else PageOf(vs[|vs| - 1])
  }

  /** What the buffer `c` and the two cursors hold after the relocations `vs`. */
  predicate Streaming(c: seq<byte>, vs: seq<nat>, base: nat, blockOffset: nat, blockEntries: nat) {
    if vs == [] then c == [] && blockOffset == 0 && blockEntries == 0
    else
      var bs := PageBlocks(vs, base);
      var last := bs[|bs| - 1];
      blockEntries > 0 && (blockOffset == 0 || blockOffset + 8 <= |c|) &&
      if SkipsHeader(vs) then |c| + 8 == |EncodeBlocks(bs)|
      else
        var closed := EncodeBlocks(bs[..|bs| - 1]);
        c == closed + OpenBlock(last) && blockOffset == |closed| && blockEntries == |last.entries|
  }

  lemma BlocksSnoc(vs: seq<nat>, base: nat, v: nat)
    ensures var front := PageBlocks(vs, base);
            PageBlocks(vs + [v], base) ==
            if vs == [] || PageOf(v) > CurrentPage(vs) then front + [Block(Rva(v, base), [EntryOf(v)])]
            else AddEntry(front, EntryOf(v))
  {
    assert (vs + [v])[..|vs|] == vs;
  }

  lemma EncodedSize(front: seq<Block>, b: Block, e: Entry)
    ensures |EncodeBlocks(front + [b])| == |EncodeBlocks(front)| + 8 + 2 * |b.entries|
    ensures front != [] ==> |EncodeBlocks(AddEntry(front, e))| == |EncodeBlocks(front)| + 2
  {
    EncodeConcat(front, [b]);
    EncodeOne(b);
    if front != [] {
      EncodeLast(front);
      EncodeLast(AddEntry(front, e));
      assert AddEntry(front, e)[..|front| - 1] == front[..|front| - 1];
    }
  }

  /** `c` is the finished table of the relocations `vs`, or lacks the skipped header. */
  predicate TableOf(c: seq<byte>, vs: seq<nat>, base: nat) {
    var table := EncodeBlocks(PageBlocks(vs, base));
    if SkipsHeader(vs) then |c| + 8 == |table| else c == table
  }

  /** Closing the current block gives the finished table so far. */
  lemma StreamClosed(c: seq<byte>, vs: seq<nat>, base: nat, blockOffset: nat, blockEntries: nat)
    requires Streaming(c, vs, base, blockOffset, blockEntries)
    ensures TableOf(Backfill(c, blockOffset, blockEntries), vs, base)
  {
    if vs == [] {
      EncodeNothing(base);
    } else if !SkipsHeader(vs) {
      var bs := PageBlocks(vs, base);
      EncodeLast(bs);
      FillCloses(EncodeBlocks(bs[..|bs| - 1]), bs[|bs| - 1]);
    }
  }

  /** A relocation that opens a block: header and entry are appended to the closed table. */
  lemma StreamOpens(c: seq<byte>, vs: seq<nat>, base: nat, v: nat)
    requires PageOf(v) > CurrentPage(vs) && TableOf(c, vs, base)
    ensures Streaming(c + (ToLe(Rva(v, base), 4) + ToLe(0, 4)) + ToLe(DIR64 * 4096 + (v - PageOf(v)), 2),
                      vs + [v], base, |c|, 1)
  {
    hide EncodeBlocks, PageBlocks, OpenBlock, Rva, PageOf, EntryOf, ToLe;
    var front, b := PageBlocks(vs, base), Block(Rva(v, base), [EntryOf(v)]);
    var head, word := ToLe(Rva(v, base), 4) + ToLe(0, 4), ToLe(DIR64 * 4096 + (v - PageOf(v)), 2);
    BlocksSnoc(vs, base, v);
    EncodedSize(front, b, EntryOf(v));
    OpenOne(Rva(v, base), v);
    LastBlock(front, b);
    Grouped(c, head, word);
    if vs == [] {
      EncodeNothing(base);
    }
  }

  lemma LastBlock(front: seq<Block>, b: Block)
    ensures var bs := front + [b]; bs[..|bs| - 1] == front && bs[|bs| - 1] == b
  {
  }

  lemma Grouped(c: seq<byte>, head: seq<byte>, word: seq<byte>)
    ensures c + head + word == c + (head + word)
  {
  }

  lemma OpenOne(rva: nat, v: nat)
    ensures OpenBlock(Block(rva, [EntryOf(v)])) == (ToLe(rva, 4) + ToLe(0, 4)) + ToLe(DIR64 * 4096 + (v - PageOf(v)), 2)
  {
    hide ToLe;
    EntriesSnoc([], EntryOf(v));
    assert [] + [EntryOf(v)] == [EntryOf(v)];
  }

  lemma OpenExtends(b: Block, e: Entry)
    ensures OpenBlock(Block(b.page, b.entries + [e])) == OpenBlock(b) + ToLe(e.kind * 4096 + e.offset, 2)
  {
    hide ToLe;
    EntriesSnoc(b.entries, e);
  }

  lemma LastExtends(bs: seq<Block>, e: Entry)
    requires bs != []
    ensures var n, r := |bs| - 1, AddEntry(bs, e);
            |r| == |bs| && r[..n] == bs[..n] && r[n] == Block(bs[n].page, bs[n].entries + [e])
  {
  }

  /** A relocation on the current page: only its entry is appended. */
  lemma StreamExtends(c: seq<byte>, vs: seq<nat>, base: nat, blockOffset: nat, blockEntries: nat, v: nat)
    requires Streaming(c, vs, base, blockOffset, blockEntries) && PageOf(v) == CurrentPage(vs)
    ensures Streaming(c + ToLe(DIR64 * 4096 + (v - PageOf(v)), 2), vs + [v], base, blockOffset, blockEntries + 1)
  {
    hide ToLe, EncodeBlocks, PageBlocks, OpenBlock, Rva, AddEntry;
    var front, e := PageBlocks(vs, base), EntryOf(v);
    BlocksSnoc(vs, base, v);
    EncodedSize(front, Block(Rva(v, base), [e]), e);
    if vs == [] {
      EncodeNothing(base);
    } else {
      var n := |front| - 1;
      LastExtends(front, e);
      OpenExtends(front[n], e);
      Grouped(EncodeBlocks(front[..n]), OpenBlock(front[n]), ToLe(DIR64 * 4096 + (v - PageOf(v)), 2));
    }
  }

  /** create_pe_reloc, for relocations sorted by address: the table with one block per page
      exactly when there is no relocation or the first one lies above page 0. */
  method CreatePeReloc(vs: seq<nat>, base: nat) returns (buf: DynamicBuffer)
    requires Sorted(vs)
    ensures fresh(buf) && buf.Valid()
    ensures buf.Contents() == EncodeBlocks(PageBlocks(vs, base)) <==> vs == [] || vs[0] >= 4096
    ensures SkipsHeader(vs) ==> |buf.Contents()| + 8 == |EncodeBlocks(PageBlocks(vs, base))|
  {
    hide Streaming, EncodeBlocks, PageBlocks, ToLe, PageOf, Backfill;
    buf := new DynamicBuffer();
    var blockOffset: nat, blockVaddr: nat, blockEntries: nat := 0, 0, 0;
    StreamStart(base);
    var i := 0;
    while i < |vs|
      invariant 0 <= i <= |vs| && fresh(buf) && fresh(buf.data) && buf.Valid()
      invariant Streaming(buf.Contents(), vs[..i], base, blockOffset, blockEntries)
      invariant blockVaddr == CurrentPage(vs[..i])
      invariant i == 0 <==> buf.data.Length == 0
    {
      var vaddr := vs[i];
      var lowerBound := PageOf(vaddr);
      ghost var before, c := vs[..i], buf.Contents();
      assert vs[..i + 1] == before + [vaddr];
      StreamBounds(c, before, base, blockOffset, blockEntries);
      NextPage(vs, i);
      if lowerBound > blockVaddr {
        StreamClosed(c, before, base, blockOffset, blockEntries);
        if buf.data.Length > 0 {
          buf.SetSize(blockOffset, blockEntries);
        }
        StreamOpens(buf.Contents(), before, base, vaddr);
        blockEntries := 0;
        blockVaddr := lowerBound;
        blockOffset := buf.effectiveSize;
        buf.Append(ToLe(U32((lowerBound - base) % TWO_64), 4) + ToLe(0, 4));
      } else {
        StreamExtends(c, before, base, blockOffset, blockEntries, vaddr);
      }
      buf.Append(ToLe(DIR64 * 4096 + (vaddr - blockVaddr), 2));
      blockEntries := blockEntries + 1;
      i := i + 1;
      LastPage(before, vaddr);
    }
    assert vs[..i] == vs;
    StreamBounds(buf.Contents(), vs, base, blockOffset, blockEntries);
    StreamClosed(buf.Contents(), vs, base, blockOffset, blockEntries);
    if blockEntries > 0 {
      buf.SetSize(blockOffset, blockEntries);
    } else {
      EncodeNothing(base);
    }
  }

  lemma StreamStart(base: nat)
    ensures Streaming([], [], base, 0, 0) && CurrentPage([]) == 0
  {
  }

  lemma EncodeNothing(base: nat)
    ensures EncodeBlocks(PageBlocks([], base)) == []
  {
  }

  lemma StreamBounds(c: seq<byte>, vs: seq<nat>, base: nat, blockOffset: nat, blockEntries: nat)
    requires Streaming(c, vs, base, blockOffset, blockEntries)
    ensures blockOffset == 0 || blockOffset + 8 <= |c|
    ensures (blockEntries == 0 <==> vs == []) && (vs == [] ==> c == [])
  {
  }

  lemma NextPage(vs: seq<nat>, i: nat)
    requires Sorted(vs) && i < |vs|
    ensures CurrentPage(vs[..i]) <= PageOf(vs[i])
  {
  }

  lemma LastPage(vs: seq<nat>, v: nat)
    ensures CurrentPage(vs + [v]) == PageOf(v)
  {
  }

  // ----- what a loader reads from the table -----

  /** The fixups a table should hold, in order. */
  function Rebased(vs: seq<nat>, base: nat): (r: seq<nat>)
    requires forall i | 0 <= i < |vs| :: base <= vs[i]
    ensures |r| == |vs| && forall i | 0 <= i < |vs| :: r[i] == vs[i] - base
  {
    seq(|vs|, i requires 0 <= i < |vs| => vs[i] - base)
  }

  /** Sorted relocations whose pages all lie at 32-bit offsets from the base. */
  predicate InReach(vs: seq<nat>, base: nat) {
    Sorted(vs) && forall i | 0 <= i < |vs| :: base <= PageOf(vs[i]) < base + TWO_32 && vs[i] < TWO_64
  }

  lemma FixupsOfOne(b: Block)
    ensures Fixups([b]) == PageFixups(b.page, b.entries)
  {
    hide PageFixups;
    assert [b][1..] == [] && Fixups([]) == [];
    assert PageFixups(b.page, b.entries) + [] == PageFixups(b.page, b.entries);
  }

  lemma PageFixupsSnoc(page: nat, es: seq<Entry>, e: Entry)
    ensures PageFixups(page, es + [e]) == PageFixups(page, es) + EntryFixup(page, e)
  {
    PageFixupsConcat(page, es, [e]);
    assert [e][1..] == [] && PageFixups(page, []) == [];
    assert PageFixups(page, [e]) == EntryFixup(page, e) + [];
  }

  lemma FixupsNewBlock(front: seq<Block>, page: nat, e: Entry)
    ensures Fixups(front + [Block(page, [e])]) == Fixups(front) + EntryFixup(page, e)
  {
    hide Fixups, EntryFixup;
    var b := Block(page, [e]);
    FixupsOfOne(b);
    PageFixupsSnoc(page, [], e);
    assert [] + [e] == [e] && PageFixups(page, []) == [];
    FixupsConcat(front, [b]);
  }

  lemma Associates(a: seq<nat>, b: seq<nat>, c: seq<nat>)
    ensures a + (b + c) == (a + b) + c
  {
  }

  lemma AddsEntry(bs: seq<Block>, e: Entry)
    requires bs != []
    ensures var n := |bs| - 1; AddEntry(bs, e) == bs[..n] + [Block(bs[n].page, bs[n].entries + [e])]
  {
  }

  lemma FixupsSameBlock(front: seq<Block>, e: Entry)
    requires front != []
    ensures Fixups(AddEntry(front, e)) == Fixups(front) + EntryFixup(front[|front| - 1].page, e)
  {
    hide Fixups, EntryFixup, PageFixups, AddEntry;
    var closed, last := front[..|front| - 1], front[|front| - 1];
    var more := Block(last.page, last.entries + [e]);
    FixupsOfOne(last);
    FixupsOfOne(more);
    PageFixupsSnoc(last.page, last.entries, e);
    FixupsConcat(closed, [last]);
    FixupsConcat(closed, [more]);
    assert front == closed + [last];
    AddsEntry(front, e);
    Associates(Fixups(closed), PageFixups(last.page, last.entries), EntryFixup(last.page, e));
  }

  lemma FixupOf(v: nat, base: nat)
    requires base <= PageOf(v) < base + TWO_32 && v < TWO_64
    ensures Rva(v, base) == PageOf(v) - base && EntryFixup(Rva(v, base), EntryOf(v)) == [v - base]
  {
  }

  lemma ReachOfFront(vs: seq<nat>, base: nat)
    requires InReach(vs, base) && vs != []
    ensures var n := |vs| - 1;
            InReach(vs[..n], base) && base <= PageOf(vs[n]) < base + TWO_32 && vs[n] < TWO_64 &&
            vs[..n] + [vs[n]] == vs && CurrentPage(vs[..n]) <= PageOf(vs[n]) == CurrentPage(vs) &&
            Rebased(vs, base) == Rebased(vs[..n], base) + [vs[n] - base]
  {
  }

  /** One relocation more. */
  lemma MeaningStep(front: seq<nat>, base: nat, v: nat)
    requires base <= PageOf(v) < base + TWO_32 && v < TWO_64 && CurrentPage(front) <= PageOf(v)
    requires front != [] ==> var bs := PageBlocks(front, base); bs[|bs| - 1].page == CurrentPage(front) - base
    ensures var bs := PageBlocks(front + [v], base);
            bs != [] && bs[|bs| - 1].page == PageOf(v) - base &&
            Fixups(bs) == Fixups(PageBlocks(front, base)) + [v - base]
  {
    hide Fixups, Rva, EntryFixup, EntryOf, PageOf, PageBlocks, CurrentPage;
    var bs := PageBlocks(front, base);
    BlocksSnoc(front, base, v);
    FixupOf(v, base);
    FixupsNewBlock(bs, Rva(v, base), EntryOf(v));
    if front != [] {
      FixupsSameBlock(bs, EntryOf(v));
    }
  }

  /** The blocks hold the relocations, less the base, in the order given. */
  lemma {:induction false} BlocksMeaning(vs: seq<nat>, base: nat)
    requires InReach(vs, base)
    ensures Fixups(PageBlocks(vs, base)) == Rebased(vs, base)
    ensures vs != [] ==> var bs := PageBlocks(vs, base); bs[|bs| - 1].page == CurrentPage(vs) - base
  {
    hide Fixups, PageOf, PageBlocks, CurrentPage;
    if vs == [] {
      NoFixups(base);
    } else {
      ReachOfFront(vs, base);
      BlocksMeaning(vs[..|vs| - 1], base);
      MeaningStep(vs[..|vs| - 1], base, vs[|vs| - 1]);
    }
  }

  lemma NoFixups(base: nat)
    ensures Fixups(PageBlocks([], base)) == []
  {
  }

  lemma EncodableEntries(page: nat, es: seq<Entry>, v: nat)
    requires page < TWO_32 && 8 + 2 * (|es| + 1) < TWO_32
    requires es == [] || Encodable(Block(page, es))
    ensures Encodable(Block(page, es + [EntryOf(v)]))
  {
  }

  lemma {:induction false} BlocksEncodable(vs: seq<nat>, base: nat, i: nat)
    requires 8 + 2 * |vs| < TWO_32 && i < |PageBlocks(vs, base)|
    ensures Encodable(PageBlocks(vs, base)[i]) && |PageBlocks(vs, base)[i].entries| <= |vs|
  {
    hide Rva, PageOf, PageBlocks, Encodable, EntryOf;
    if vs == [] {
      NoBlocks(base);
    } else {
      var n := |vs| - 1;
      var front, v := vs[..n], vs[n];
      var bs := PageBlocks(front, base);
      assert front + [v] == vs;
      BlocksSnoc(front, base, v);
      if i < |bs| {
        BlocksEncodable(front, base, i);
        EncodablePage(bs[i]);
        EncodableEntries(bs[i].page, bs[i].entries, v);
      } else {
        EncodableEntries(Rva(v, base), [], v);
        assert [] + [EntryOf(v)] == [EntryOf(v)];
      }
    }
  }

  lemma EncodablePage(b: Block)
    requires Encodable(b)
    ensures b.page < TWO_32 && b == Block(b.page, b.entries)
  {
  }

  lemma NoBlocks(base: nat)
    ensures PageBlocks([], base) == []
  {
  }

  /** A loader that walks the table of create_pe_reloc by its block sizes reads back the
      relocations, less the base, in order. */
  lemma TableMeaning(vs: seq<nat>, base: nat)
    requires InReach(vs, base) && 8 + 2 * |vs| < TWO_32
    ensures var blocks := DecodeBlocks(EncodeBlocks(PageBlocks(vs, base)));
            blocks.Some? && Fixups(blocks.value) == Rebased(vs, base)
  {
    hide Encodable, DecodeBlocks, Fixups;
    forall i | 0 <= i < |PageBlocks(vs, base)|
      ensures Encodable(PageBlocks(vs, base)[i])
    {
      BlocksEncodable(vs, base, i);
    }
    BlocksRoundTrip(PageBlocks(vs, base));
    BlocksMeaning(vs, base);
  }

  /** Without its header a lone relocation below 4096 is no table at all: the two bytes that
      create_pe_reloc leaves for it cannot be walked. */
  lemma LoneLowRelocation(c: seq<byte>, v: nat, base: nat)
    requires v < 4096 && |c| + 8 == |EncodeBlocks(PageBlocks([v], base))|
    ensures SkipsHeader([v]) && DecodeBlocks(c) == None
  {
    BlocksSnoc([], base, v);
    assert [] + [v] == [v];
    var b := Block(Rva(v, base), [EntryOf(v)]);
    assert [] + [b] == [b];
    EncodeOne(b);
  }
}
