/** Exactly when the image of an accepted file below 4 GiB is laid out: when SizeOfImage is
    not truncated (tools/elf2efi.py:509-510, tools/elf2efi.py:628). */
module LayoutLimits {
  import opened AddressOrder
  import opened Bytes
  import opened ElfModel
  import opened Coalesce
  import opened RelocFormat
  import opened RelocBlocks
  import opened Relocate
  import opened PeImage
  import opened Layout

  // ----- the size of the relocation data -----

  lemma LastTarget(rs: seq<Reloc>) returns (m: nat)
    requires rs != []
    ensures m < |rs| && forall i | 0 <= i < |rs| :: rs[i].offset <= rs[m].offset
  {
    var n := |rs| - 1;
    m := n;
    if n > 0 {
      var m' := LastTarget(rs[..n]);
      if rs[n].offset < rs[m'].offset {
        m := m';
      }
      assert forall i | 0 <= i < n :: rs[i] == rs[..n][i];
    }
  }

  /** Disjoint words below `bound` are at most bound / 8. */
  lemma {:induction false} ApartCount(rs: seq<Reloc>, bound: nat)
    requires Apart(rs) && forall i | 0 <= i < |rs| :: rs[i].offset + 8 <= bound
    ensures 8 * |rs| <= bound
    decreases |rs|
  {
    if rs != [] {
      var m := LastTarget(rs);
      ApartCount(rs[..m] + rs[m + 1..], rs[m].offset);
    }
  }

  lemma {:induction false} EveryEntryFixes(page: nat, es: seq<Entry>)
    requires forall i | 0 <= i < |es| :: es[i].kind == DIR64
    ensures |PageFixups(page, es)| == |es|
  {
    if es != [] {
      EveryEntryFixes(page, es[1..]);
    }
  }

  /** A block has at most one entry of padding. */
  lemma BlockLength(k: nat, es: seq<Entry>, shift: nat)
    requires k + shift < TWO_32 && forall i | 0 <= i < |es| :: es[i].kind == DIR64
    ensures var b := ToBlock(k, es, shift); |EncodeBlock(b)| <= 10 + 2 * |PageFixups(b.page, b.entries)|
  {
    hide PageFixups, SortEntries, EncodeBlock;
    BlockFixups(k, es, shift);
    EveryEntryFixes(k + shift, es);
    var b := ToBlock(k, es, shift);
    var fixups := PageFixups(b.page, b.entries);
    assert |fixups| == |multiset(fixups)|;
    assert |PageFixups(k + shift, es)| == |multiset(PageFixups(k + shift, es))|;
  }

  predicate OnlyDir64(keys: seq<nat>, pages: Pages) {
    forall i | 0 <= i < |keys| ::
      keys[i] in pages && forall j | 0 <= j < |pages[keys[i]]| :: pages[keys[i]][j].kind == DIR64
  }

  lemma {:induction false} BlocksLength(keys: seq<nat>, pages: Pages, shift: nat)
    requires OnlyDir64(keys, pages) && KeysOk(keys, pages, shift)
    ensures var bs := ToBlocks(keys, pages, shift); |EncodeBlocks(bs)| <= 10 * |keys| + 2 * |Fixups(bs)|
  {
    hide EncodeBlock, PageFixups, ToBlock;
    if keys != [] {
      var k: nat := keys[0];
      BlockLength(k, pages[k], shift);
      BlocksLength(keys[1..], pages, shift);
    }
  }

  lemma {:induction false} PageAtLeast(bs: seq<Block>, i: nat)
    requires PagesIncrease(bs) && i < |bs| && forall k | 0 <= k < |bs| :: BlockShape(bs[k])
    ensures bs[i].page >= 4096 * i
  {
    if i > 0 {
      PageAtLeast(bs, i - 1);
      assert BlockShape(bs[i - 1]) && BlockShape(bs[i]);
    }
  }

  lemma RecordedDir64(offsets: seq<nat>)
    ensures var pages := RecordAll(offsets); OnlyDir64(SortedKeys(pages.Keys), pages)
  {
    hide RecordAll;
    RecordAllOk(offsets);
    var pages := RecordAll(offsets);
    var keys := SortedKeys(pages.Keys);
    forall i | 0 <= i < |keys|
      ensures keys[i] in pages && PageOk(keys[i], pages[keys[i]], offsets)
    {
      assert keys[i] in keys;
    }
  }

  lemma RelocDataLength(offsets: seq<nat>, shift: nat)
    requires shift % 4096 == 0 && forall o | o in offsets :: o + shift < TWO_32
    ensures |RelocData(offsets, shift)| <= 10 * 0x10_0000 + 2 * |offsets|
  {
    hide RecordAll, SortedKeys, ToBlocks, Fixups, EncodeBlocks, BlockShape, Shift, OnlyDir64, KeysOk;
    var pages := RecordAll(offsets);
    var keys, bs := SortedKeys(pages.Keys), BlocksOf(pages, shift);
    KeysAreOk(offsets, shift);
    RecordedDir64(offsets);
    BlocksLength(keys, pages, shift);
    FixupsAreTheRelocations(offsets, shift);
    var fixups := Fixups(bs);
    assert |fixups| == |multiset(fixups)| == |multiset(Shift(offsets, shift))| == |offsets|;
    BlocksShape(offsets, shift);
    if bs != [] {
      PageAtLeast(bs, |bs| - 1);
      assert BlockShape(bs[|bs| - 1]);
      PageSmall(bs[|bs| - 1]);
    }
  }

  lemma PageSmall(b: Block)
    requires BlockShape(b)
    ensures b.page <= TWO_32 - 4096
  {
  }

  /** The relocations of a file below 4 GiB need less than 2 GiB. */
  lemma RelocBytesSmall(elf: Elf, minimum: int)
    requires Convert(elf).Ok? && Convert(elf).value != [] && Below4G(elf.sections) && GoodRelocs(elf)
    requires ImageEnd(Convert(elf).value, minimum) < TWO_32
    ensures |RelocBytes(elf, Convert(elf).value, minimum)| < 0x8000_0000
  {
    hide Convert, AllRelatives, Below4G, RelocData, WordRetained, HeaderSize, SegmentOffset, ImageEnd, Apart;
    var rs, d := AllRelatives(elf.tables, elf), Shift32(elf, minimum);
    OffsetsBeforeEnd(elf, minimum);
    forall i | 0 <= i < |rs|
      ensures rs[i].offset + 8 + d < TWO_32
    {
      assert rs[i] in rs;
    }
    ApartCount(rs, TWO_32);
    RelocDataLength(Offsets(rs), d);
  }

  // ----- what acceptance says about addresses -----

  lemma {:induction false} PlaceAbove(secs: seq<Section>, headers: nat, offset: nat)
    ensures Place(secs, headers, offset).Ok? <==> forall k | 0 <= k < |secs| :: headers <= secs[k].va
    decreases |secs|
  {
    hide FileUp, U32;
    if secs != [] {
      PlaceAbove(secs[1..], headers, FileUp(offset + |secs[0].data|));
      assert forall k | 0 < k < |secs| :: secs[1..][k - 1] == secs[k];
    }
  }

  /** Placing a section list assigns pointers only; it fails exactly when a section starts
      inside the headers. */
  lemma PlaceSortedKeeps(secs: seq<Section>, headers: nat)
    ensures PlaceSorted(secs, headers).Ok? <==> forall k | 0 <= k < |secs| :: headers <= secs[k].va
    ensures PlaceSorted(secs, headers).Ok? ==> OnlyPtrs(secs, PlaceSorted(secs, headers).value)
  {
    hide Order, Place;
    var order := Order(Vas(secs));
    var picked := Pick(secs, order);
    OrderSorts(Vas(secs));
    PlaceKeepsShape(picked, headers, headers);
    PlaceAbove(picked, headers, headers);
    forall k | 0 <= k < |secs|
      ensures picked[Rank(order, k)] == secs[k]
    {
    }
  }

  /** An accepted file: its headers, and its sections before and after placing. */
  lemma Accepted(elf: Elf, imageBase: nat, minimum: int) returns (image: Image)
    requires Elf2Efi(elf, imageBase, minimum).Ok?
    ensures Convert(elf).Ok? && Convert(elf).value != [] && 0 < HeaderSize(|Convert(elf).value|, minimum)
    ensures ConvertRelocations(elf, Convert(elf).value, imageBase, minimum) == Ok(image)
    ensures image.sizeOfHeaders == HeaderSize(|Convert(elf).value|, minimum)
    ensures HeaderBytes(|image.sections|) <= image.sizeOfHeaders
    ensures forall k | 0 <= k < |image.sections| :: image.sizeOfHeaders <= image.sections[k].va
    ensures var placed := Elf2Efi(elf, imageBase, minimum).value;
            placed == image.(sections := placed.sections) && OnlyPtrs(image.sections, placed.sections)
    ensures PlaceSorted(image.sections, image.sizeOfHeaders).Ok?
  {
    hide Convert, ConvertRelocations, PlaceSorted, HeaderBytes, HeaderSize;
    AcceptedHeaders(elf, imageBase, minimum);
    image := ConvertRelocations(elf, Convert(elf).value, imageBase, minimum).value;
    HeadersOf(elf, imageBase, minimum);
    PlaceSortedKeeps(image.sections, image.sizeOfHeaders);
  }

  /** What Finish does to addresses, in 32 bits. */
  lemma FinishedSections(relocated: seq<Section>, shift: nat, pages: Pages)
    requires relocated != []
    ensures var all, n := WithReloc(Moved(relocated, shift), pages, shift), |relocated|;
            |all| == n + (if pages == map[] then 0 else 1) &&
            (forall k | 0 <= k < n :: all[k] == relocated[k].(va := U32(relocated[k].va + shift))) &&
            (pages != map[] ==> var last := relocated[n - 1];
                                all[n].va == U32(PageUp(U32(last.va + shift) + last.vsize)))
  {
    hide PageUp, U32, RelocSection, BlocksOf, RelocFormat.EncodeBlocks;
    var moved := Moved(relocated, shift);
    RelocSectionAt(RelocFormat.EncodeBlocks(BlocksOf(pages, shift)), U32(NextAddress(moved)));
  }

  /** The sections of a converted file, every address cut to 32 bits. */
  lemma MovedSections(elf: Elf, imageBase: nat, minimum: int) returns (relocated: seq<Section>)
    requires Convert(elf).Ok? && Convert(elf).value != [] && Below4G(elf.sections) && GoodRelocs(elf)
    requires ConvertRelocations(elf, Convert(elf).value, imageBase, minimum).Ok?
    ensures SameShape(Convert(elf).value, relocated)
    ensures var pages := RecordAll(Offsets(AllRelatives(elf.tables, elf)));
            ConvertRelocations(elf, Convert(elf).value, imageBase, minimum).value.sections ==
            WithReloc(Moved(relocated, Shift32(elf, minimum)), pages, Shift32(elf, minimum))
  {
    hide Convert, ConvertTables, AllRelatives, Below4G, GoodRelocs, HeaderSize, SegmentOffset, CheckDynamic, Tally,
         ApplyAll, RecordAll, Offsets, WithReloc, Moved, Adjusted, NextAddress, SameShape;
    relocated := RelocateAll(elf, imageBase + Shift32(elf, minimum));
  }

  lemma RelocSectionAt(data: seq<byte>, va: nat)
    ensures RelocSection(data, va).va == va
  {
    hide FileUp;
  }

  /** The first section is at least as low as the last, so moving it past the headers moves
      the last one past 4 GiB only into the headers. */
  lemma LastDoesNotWrap(first: nat, last: nat, headers: nat)
    requires first <= last <= TWO_32 - 4096 && headers < TWO_32
    requires headers <= U32(last + SegmentOffset(first, headers))
    ensures last + SegmentOffset(first, headers) < TWO_32
  {
    hide PageUp;
    assert last + SegmentOffset(first, headers) < headers + TWO_32;
  }

  lemma MovedSection(elf: Elf, imageBase: nat, minimum: int, image: Image, k: nat)
    requires Convert(elf).Ok? && k < |Convert(elf).value| && Below4G(elf.sections) && GoodRelocs(elf)
    requires ConvertRelocations(elf, Convert(elf).value, imageBase, minimum) == Ok(image)
    ensures k < |image.sections|
    ensures var s, s' := Convert(elf).value[k], image.sections[k];
            s'.va == U32(s.va + Shift32(elf, minimum)) && |s'.data| == |s.data|
  {
    hide Convert, ConvertRelocations, AllRelatives, Below4G, GoodRelocs, Shift32, U32, PageUp, WithReloc, Moved,
         RecordAll, Offsets;
    var relocated := MovedSections(elf, imageBase, minimum);
    FinishedSections(relocated, Shift32(elf, minimum), RecordAll(Offsets(AllRelatives(elf.tables, elf))));
  }

  /** The last section is not moved across 4 GiB. */
  lemma LastSectionExact(elf: Elf, imageBase: nat, minimum: int, image: Image)
    requires Convert(elf).Ok? && Convert(elf).value != [] && Below4G(elf.sections) && GoodRelocs(elf)
    requires ConvertRelocations(elf, Convert(elf).value, imageBase, minimum) == Ok(image)
    requires image.sizeOfHeaders == HeaderSize(|Convert(elf).value|, minimum)
    requires forall k | 0 <= k < |image.sections| :: image.sizeOfHeaders <= image.sections[k].va
    ensures |Convert(elf).value| <= |image.sections|
    ensures var s := image.sections[|Convert(elf).value| - 1]; s.va + |s.data| == ImageEnd(Convert(elf).value, minimum)
  {
    hide Convert, ConvertRelocations, AllRelatives, Below4G, GoodRelocs, HeaderSize, SegmentOffset, U32, PageUp,
         Disjoint;
    var secs := Convert(elf).value;
    var n := |secs| - 1;
    MovedSection(elf, imageBase, minimum, image, n);
    ConvertShape(elf);
    AboveFirst(secs, n);
    LastPage(secs[n]);
    LastDoesNotWrap(secs[0].va, secs[n].va, image.sizeOfHeaders);
  }

  lemma LastPage(s: Section)
    requires s.va % 4096 == 0 && s.va < TWO_32
    ensures s.va <= TWO_32 - 4096
  {
  }

  /** A section past the headers does not start at 4 GiB. */
  lemma NotAt4G(start: nat, headers: nat)
    requires start < TWO_32 + 4096 && start % 4096 == 0 && 0 < headers <= U32(start)
    ensures start < TWO_32
  {
  }

  /** Where .reloc is put, in 32 bits. */
  lemma RelocSectionMoved(elf: Elf, imageBase: nat, minimum: int, image: Image)
    requires Convert(elf).Ok? && Convert(elf).value != [] && Below4G(elf.sections) && GoodRelocs(elf)
    requires ConvertRelocations(elf, Convert(elf).value, imageBase, minimum) == Ok(image)
    requires AllRelatives(elf.tables, elf) != [] && ImageEnd(Convert(elf).value, minimum) < TWO_32
    ensures |Convert(elf).value| < |image.sections|
    ensures image.sections[|Convert(elf).value|].va == U32(RelocStart(Convert(elf).value, minimum))
  {
    hide Convert, ConvertRelocations, AllRelatives, Below4G, GoodRelocs, HeaderSize, SegmentOffset, WithReloc, Moved,
         RecordAll, Offsets, PageUp, Disjoint;
    var rs, secs, d := AllRelatives(elf.tables, elf), Convert(elf).value, Shift32(elf, minimum);
    var relocated := MovedSections(elf, imageBase, minimum);
    FinishedSections(relocated, d, RecordAll(Offsets(rs)));
    RecordAllNonempty(Offsets(rs));
    ConvertShape(elf);
    var last := secs[|secs| - 1];
    assert last.va + d + last.vsize == ImageEnd(secs, minimum);
  }

  /** If the last section ends below 4 GiB, all section headers are exact. */
  lemma AcceptedInReach(elf: Elf, imageBase: nat, minimum: int)
    requires Below4G(elf.sections) && GoodRelocs(elf) && Elf2Efi(elf, imageBase, minimum).Ok?
    requires Convert(elf).value != [] && ImageEnd(Convert(elf).value, minimum) < TWO_32
    ensures InReach(elf, minimum)
  {
    hide Convert, ConvertRelocations, AllRelatives, Below4G, GoodRelocs, HeaderSize, ImageEnd, FileUp, RelocBytes,
         Elf2Efi, PlaceSorted, HeaderBytes, PageUp, U32, OnlyPtrs;
    var image := Accepted(elf, imageBase, minimum);
    var n := |Convert(elf).value|;
    RelocBytesSmall(elf, minimum);
    if AllRelatives(elf.tables, elf) != [] {
      RelocSectionMoved(elf, imageBase, minimum, image);
      NotAt4G(RelocStart(Convert(elf).value, minimum), image.sizeOfHeaders);
    }
  }

  /** A size that does not fit is cut to one below the end of the last section. */
  lemma CutSizeTooSmall(elf: Elf, minimum: int)
    requires InReach(elf, minimum) && GoodRelocs(elf) && !Fits(elf, minimum)
    ensures U32(ImageSize(elf, Convert(elf).value, minimum)) < ImageEnd(Convert(elf).value, minimum)
  {
    hide Convert, AllRelatives, Below4G, GoodRelocs, HeaderSize, FileUp, RelocBytes, ImageSize, RelocStart,
         ImageEnd;
    RelocBytesSmall(elf, minimum);
  }

  /** Of the accepted files below 4 GiB, exactly those whose whole image fits in 32 bits are
      laid out as a loader may rely on. */
  lemma LaidOutExactly(elf: Elf, imageBase: nat, minimum: int)
    requires Below4G(elf.sections) && GoodRelocs(elf) && Elf2Efi(elf, imageBase, minimum).Ok?
    ensures LaidOut(Elf2Efi(elf, imageBase, minimum).value) <==> Fits(elf, minimum)
  {
    hide Convert, ConvertRelocations, AllRelatives, Below4G, GoodRelocs, HeaderSize, FileUp, RelocBytes, Elf2Efi,
         PlaceSorted, ImageSize, RelocStart, ImageEnd, InReach, Fits, Assembled, RawAligned, RawChain, RawDisjoint,
         Disjoint, HeaderBytes;
    var image := Accepted(elf, imageBase, minimum);
    var placed, n := Elf2Efi(elf, imageBase, minimum).value, |Convert(elf).value|;
    if Fits(elf, minimum) {
      LayoutInvariant(elf, imageBase, minimum);
    } else if LaidOut(placed) {
      LastSectionExact(elf, imageBase, minimum, image);
      assert SectionOk(placed.sections[n - 1], placed.sizeOfHeaders, placed.sizeOfImage);
      AcceptedInReach(elf, imageBase, minimum);
      CutSizeTooSmall(elf, minimum);
      var relocated := Assemble(elf, imageBase, minimum);
      SizeIsCut(elf, minimum, relocated, image);
      assert false;
    }
  }

  lemma SizeIsCut(elf: Elf, minimum: int, relocated: seq<Section>, image: Image)
    requires InReach(elf, minimum) && Assembled(elf, minimum, relocated, image)
    ensures image.sizeOfImage == U32(ImageSize(elf, Convert(elf).value, minimum))
  {
    hide Convert, AllRelatives, Below4G, SameShape, ApplyAll, ImageSize, ImageEnd, RelocStart, RelocBytes;
  }
}
