/** Where everything ends up: the conditions under which the 32-bit header fields are
    exact, and the layout every converted image then has. */
module Layout {
  import opened AddressOrder
  import opened Bytes
  import opened ElfModel
  import opened Coalesce
  import opened RelocBlocks
  import opened Relocate
  import opened PeImage
  import RelocFormat

  // ----- what is asked of the input -----

  /** The eight bytes at `a` belong to one retained section. */
  predicate WordRetained(elf: Elf, a: nat) {
    exists i | 0 <= i < |elf.sections| ::
      Retained(elf.sections[i]) && elf.sections[i].addr <= a && a + 8 <= elf.sections[i].addr + |elf.sections[i].data|
  }

  /** Relocation targets are disjoint words, each inside one retained section. */
  predicate GoodRelocs(elf: Elf) {
    var rs := AllRelatives(elf.tables, elf);
    Apart(rs) && forall i | 0 <= i < |rs| :: WordRetained(elf, rs[i].offset)
  }

  /** Where the last section ends once moved, without 32-bit truncation. */
  function ImageEnd(secs: seq<Section>, minimum: int): nat
    requires secs != []
  {
    var last := secs[|secs| - 1];
    last.va + |last.data| + SegmentOffset(secs[0].va, HeaderSize(|secs|, minimum))
  }

  /** Where the .reloc section starts, without 32-bit truncation. */
  function RelocStart(secs: seq<Section>, minimum: int): (start: nat)
    requires secs != []
    ensures start % 4096 == 0 && ImageEnd(secs, minimum) <= start < ImageEnd(secs, minimum) + 4096
  {
    PageUp(ImageEnd(secs, minimum))
  }

  function RelocBytes(elf: Elf, secs: seq<Section>, minimum: int): seq<byte>
    requires secs != []
  {
    RelocData(Offsets(AllRelatives(elf.tables, elf)), SegmentOffset(secs[0].va, HeaderSize(|secs|, minimum)))
  }

  /** SizeOfImage, without 32-bit truncation. */
  function ImageSize(elf: Elf, secs: seq<Section>, minimum: int): (size: nat)
    requires secs != []
    ensures size % 4096 == 0
    ensures var end := RelocStart(secs, minimum) + |RelocBytes(elf, secs, minimum)|; end <= size < end + 4096
  {
    PageUp(RelocStart(secs, minimum) + |RelocBytes(elf, secs, minimum)|)
  }

  /** The addresses of the input and of the whole image fit in 32 bits, and SizeOfHeaders is
      not cut to zero. */
  predicate Fits(elf: Elf, minimum: int) {
    Below4G(elf.sections) && Convert(elf).Ok? && Convert(elf).value != [] &&
    0 < HeaderSize(|Convert(elf).value|, minimum) && ImageSize(elf, Convert(elf).value, minimum) < TWO_32
  }

  /** The section headers are exact, whether or not the size of the image is. */
  predicate InReach(elf: Elf, minimum: int) {
    Below4G(elf.sections) && Convert(elf).Ok? && Convert(elf).value != [] &&
    var secs := Convert(elf).value;
    0 < HeaderSize(|secs|, minimum) && ImageEnd(secs, minimum) < TWO_32 &&
    FileUp(|RelocBytes(elf, secs, minimum)|) < TWO_32 &&
    (AllRelatives(elf.tables, elf) != [] ==> RelocStart(secs, minimum) < TWO_32)
  }

  lemma FitsInReach(elf: Elf, minimum: int)
    requires Fits(elf, minimum)
    ensures InReach(elf, minimum)
  {
    hide Convert, AllRelatives, RelocBytes, RelocStart, ImageEnd, Below4G, ImageSize, FileUp, HeaderSize;
  }

  lemma RelocsContained(elf: Elf)
    requires GoodRelocs(elf) && Convert(elf).Ok? && Below4G(elf.sections)
    ensures AllContained(Convert(elf).value, AllRelatives(elf.tables, elf))
  {
    hide Convert, AllRelatives, Apart, Below4G, Retained;
    var rs, secs := AllRelatives(elf.tables, elf), Convert(elf).value;
    forall i | 0 <= i < |rs|
      ensures Contained(secs, rs[i])
    {
      assert WordRetained(elf, rs[i].offset);
      var j :| 0 <= j < |elf.sections| && Retained(elf.sections[j]) && elf.sections[j].addr <= rs[i].offset &&
               rs[i].offset + 8 <= elf.sections[j].addr + |elf.sections[j].data|;
      var k := ConvertHolds(elf, j);
      assert WordIn(secs[k], rs[i].offset);
    }
  }

  // ----- the image before the file offsets are assigned -----

  function Shift32(elf: Elf, minimum: int): (d: nat)
    requires Convert(elf).Ok? && Convert(elf).value != []
    ensures d % 4096 == 0
  {
    var secs := Convert(elf).value;
    SegmentOffset(secs[0].va, HeaderSize(|secs|, minimum))
  }

  /** The image is made of the relocated sections moved up by the segment offset,
      followed by .reloc when there are relocations; only SizeOfImage may be truncated. */
  predicate Assembled(elf: Elf, minimum: int, relocated: seq<Section>, image: Image)
    requires Convert(elf).Ok? && Convert(elf).value != []
  {
    var secs, rs, d := Convert(elf).value, AllRelatives(elf.tables, elf), Shift32(elf, minimum);
    var start, bytes := RelocStart(secs, minimum), RelocBytes(elf, secs, minimum);
    SameShape(secs, relocated) &&
    ApplyAll(secs, rs, image.imageBase + d) == Ok(relocated) &&
    image.sizeOfHeaders == HeaderSize(|secs|, minimum) &&
    |image.sections| == |secs| + (if rs == [] then 0 else 1) &&
    (forall k | 0 <= k < |secs| :: image.sections[k] == relocated[k].(va := relocated[k].va + d)) &&
    image.sizeOfImage == U32(ImageSize(elf, secs, minimum)) && image.entry == U32(elf.entry + d) &&
    image.counts == Adjusted(Tally(secs), d, RecordAll(Offsets(rs)), image.relocSize) &&
    if rs == [] then image.relocAddress == 0 && image.relocSize == 0
    else
      image.sections[|secs|] == Section(".reloc", start, |bytes|, FileUp(|bytes|), 0, RELOC_PERMISSIONS, bytes) &&
      image.relocAddress == start && image.relocSize == |bytes|
  }

  lemma {:induction false} RecordAllNonempty(os: seq<nat>)
    ensures RecordAll(os) == map[] <==> os == []
  {
    if os != [] {
      assert PageDown(os[|os| - 1]) in RecordAll(os);
    }
  }

  lemma AboveFirst(secs: seq<Section>, k: nat)
    requires Disjoint(secs) && k < |secs|
    ensures secs[0].va <= secs[k].va
    ensures secs[k].va + |secs[k].data| <= secs[|secs| - 1].va + |secs[|secs| - 1].data|
  {
  }

  /** Relocated words lie before the end of the last section. */
  lemma OffsetsBeforeEnd(elf: Elf, minimum: int)
    requires Convert(elf).Ok? && Convert(elf).value != [] && Below4G(elf.sections) && GoodRelocs(elf)
    ensures forall r | r in AllRelatives(elf.tables, elf) ::
              r.offset + 8 + Shift32(elf, minimum) <= ImageEnd(Convert(elf).value, minimum)
  {
    hide Convert, AllRelatives, Below4G, Disjoint, Apart, WordRetained, SegmentOffset, HeaderSize;
    var rs, secs := AllRelatives(elf.tables, elf), Convert(elf).value;
    RelocsContained(elf);
    ConvertShape(elf);
    forall i | 0 <= i < |rs|
      ensures rs[i].offset + 8 + Shift32(elf, minimum) <= ImageEnd(secs, minimum)
    {
      assert Contained(secs, rs[i]);
      var k :| 0 <= k < |secs| && WordIn(secs[k], rs[i].offset);
      AboveFirst(secs, k);
    }
  }

  lemma MovedInReach(elf: Elf, minimum: int, k: nat)
    requires InReach(elf, minimum) && k < |Convert(elf).value|
    ensures var s := Convert(elf).value[k];
            s.va + |s.data| + Shift32(elf, minimum) <= ImageEnd(Convert(elf).value, minimum) &&
            s.va % 4096 == 0 && s.data != [] && s.vsize == |s.data|
  {
    hide Convert, FileUp, HeaderSize, Disjoint, RelocBytes, RelocStart, Below4G, AllRelatives, SegmentOffset;
    ConvertShape(elf);
    AboveFirst(Convert(elf).value, k);
  }

  lemma MovedAt(secs: seq<Section>, relocated: seq<Section>, d: nat, k: nat)
    requires SameShape(secs, relocated) && k < |secs| && secs[k].va + d < TWO_32
    ensures Moved(relocated, d)[k] == relocated[k].(va := secs[k].va + d)
  {
  }

  /** Moving the sections up does not wrap around. */
  lemma MovedExactly(elf: Elf, minimum: int, relocated: seq<Section>)
    requires InReach(elf, minimum) && SameShape(Convert(elf).value, relocated)
    ensures var secs, d := Convert(elf).value, Shift32(elf, minimum);
            |relocated| == |secs| && NextAddress(Moved(relocated, d)) == RelocStart(secs, minimum) &&
            forall k | 0 <= k < |secs| :: Moved(relocated, d)[k] == relocated[k].(va := relocated[k].va + d)
  {
    hide Convert, FileUp, PageUp, HeaderSize, RelocBytes, Below4G, AllRelatives, SegmentOffset, Moved;
    var secs, d := Convert(elf).value, Shift32(elf, minimum);
    forall k | 0 <= k < |secs|
      ensures Moved(relocated, d)[k] == relocated[k].(va := relocated[k].va + d)
    {
      MovedInReach(elf, minimum, k);
      MovedAt(secs, relocated, d, k);
    }
    MovedInReach(elf, minimum, |secs| - 1);
  }

  lemma RelocSectionExactly(elf: Elf, minimum: int)
    requires InReach(elf, minimum) && AllRelatives(elf.tables, elf) != []
    ensures var secs := Convert(elf).value;
            var start, bytes := RelocStart(secs, minimum), RelocBytes(elf, secs, minimum);
            RelocSection(bytes, U32(start)) ==
            Section(".reloc", start, |bytes|, FileUp(|bytes|), 0, RELOC_PERMISSIONS, bytes) &&
            NextAddress([RelocSection(bytes, U32(start))]) == ImageSize(elf, secs, minimum)
  {
    hide Convert, AllRelatives, RelocBytes, RelocStart, ImageEnd, Below4G, FileUp, PageUp;
    assert |RelocBytes(elf, Convert(elf).value, minimum)| < TWO_32;
  }

  lemma NoRelocBytes(elf: Elf, secs: seq<Section>, minimum: int)
    requires AllRelatives(elf.tables, elf) == [] && secs != []
    ensures RelocBytes(elf, secs, minimum) == [] && ImageSize(elf, secs, minimum) == RelocStart(secs, minimum)
  {
    hide AllRelatives, PageUp, ImageEnd, RelocStart, SegmentOffset, HeaderSize;
    assert Offsets([]) == [] && RecordAll([]) == map[];
    var none: Pages := map[];
    assert none.Keys == {} && BlocksOf(none, 0) == [];
  }

  lemma NextAfterLast(secs: seq<Section>, s: Section)
    ensures NextAddress(secs + [s]) == NextAddress([s])
  {
    hide PageUp;
  }

  lemma FinishExactly(elf: Elf, imageBase: nat, minimum: int, relocated: seq<Section>)
    requires InReach(elf, minimum) && SameShape(Convert(elf).value, relocated)
    requires var secs, rs := Convert(elf).value, AllRelatives(elf.tables, elf);
             ApplyAll(secs, rs, imageBase + Shift32(elf, minimum)) == Ok(relocated)
    ensures var secs, os := Convert(elf).value, Offsets(AllRelatives(elf.tables, elf));
            Assembled(elf, minimum, relocated,
                      Finish(elf.entry, imageBase, HeaderSize(|secs|, minimum), Shift32(elf, minimum), relocated,
                             RecordAll(os), Tally(secs)))
  {
    hide Convert, AllRelatives, FileUp, PageUp, RecordAll, Below4G, ApplyAll, Moved, HeaderSize, NextAddress,
         RelocSection, SameShape, RelocStart, Offsets, SegmentOffset, BlocksOf;
    var secs, rs, d := Convert(elf).value, AllRelatives(elf.tables, elf), Shift32(elf, minimum);
    MovedExactly(elf, minimum, relocated);
    RecordAllNonempty(Offsets(rs));
    if rs == [] {
      NoRelocBytes(elf, secs, minimum);
    } else {
      RelocSectionExactly(elf, minimum);
    }
    NextAfterLast(Moved(relocated, d), RelocSection(RelocBytes(elf, secs, minimum), U32(RelocStart(secs, minimum))));
  }

  /** The relocated sections, and the pages recorded on the way. */
  lemma RelocateAll(elf: Elf, base: nat) returns (relocated: seq<Section>)
    requires Convert(elf).Ok? && Below4G(elf.sections) && GoodRelocs(elf)
    requires ConvertTables(State(Convert(elf).value, map[]), elf.tables, base, elf).Ok?
    ensures var secs, rs := Convert(elf).value, AllRelatives(elf.tables, elf);
            ApplyAll(secs, rs, base) == Ok(relocated) && SameShape(secs, relocated) &&
            ConvertTables(State(secs, map[]), elf.tables, base, elf) == Ok(State(relocated, RecordAll(Offsets(rs))))
  {
    hide Convert, ConvertTables, AllRelatives, Apart, WordRetained, RecordAll, Below4G, ApplyAll, Disjoint,
         AllContained, SameShape, Offsets;
    ConvertShape(elf);
    RelocsContained(elf);
    ConversionMeaning(Convert(elf).value, elf.tables, base, elf);
    ApplyAllShape(Convert(elf).value, AllRelatives(elf.tables, elf), base);
    relocated := ConvertTables(State(Convert(elf).value, map[]), elf.tables, base, elf).value.secs;
  }

  lemma Assemble(elf: Elf, imageBase: nat, minimum: int) returns (relocated: seq<Section>)
    requires InReach(elf, minimum) && GoodRelocs(elf)
    requires ConvertRelocations(elf, Convert(elf).value, imageBase, minimum).Ok?
    ensures Assembled(elf, minimum, relocated, ConvertRelocations(elf, Convert(elf).value, imageBase, minimum).value)
    ensures ConvertRelocations(elf, Convert(elf).value, imageBase, minimum).value.imageBase == imageBase
  {
    hide Convert, ConvertTables, AllRelatives, GoodRelocs, RecordAll, Below4G, CheckDynamic, ApplyAll, HeaderSize,
         SameShape, Offsets, Assembled, Moved, WithReloc, RelocStart, RelocBytes, U32, NextAddress;
    relocated := RelocateAll(elf, imageBase + Shift32(elf, minimum));
    FinishExactly(elf, imageBase, minimum, relocated);
  }

  // ----- file offsets -----

  predicate OnlyPtrs(a: seq<Section>, b: seq<Section>) {
    |a| == |b| && forall k | 0 <= k < |a| :: b[k].(ptr := a[k].ptr) == a[k]
  }

  /** Raw data is file-aligned and never ahead of the addresses. */
  predicate RawAligned(secs: seq<Section>) {
    forall k | 0 <= k < |secs| :: secs[k].ptr % 512 == 0 && secs[k].ptr <= secs[k].va
  }

  /** Raw data starts at `start` and follows without gaps. */
  predicate RawChain(secs: seq<Section>, start: nat) {
    (secs != [] ==> secs[0].ptr == start) &&
    forall k | 0 < k < |secs| :: secs[k].ptr == secs[k - 1].ptr + FileUp(|secs[k - 1].data|)
  }

  predicate RawDisjoint(secs: seq<Section>) {
    forall k, l | 0 <= k < l < |secs| :: secs[k].ptr + FileUp(|secs[k].data|) <= secs[l].ptr
  }

  predicate Aligned(secs: seq<Section>) {
    forall k | 0 <= k < |secs| :: secs[k].va % 4096 == 0 && secs[k].va < TWO_32
  }

  lemma ChainCons(s: Section, rest: seq<Section>, next: nat)
    requires RawChain(rest, next) && next == s.ptr + FileUp(|s.data|)
    ensures RawChain([s] + rest, s.ptr)
  {
    hide FileUp;
    var all := [s] + rest;
    forall k | 0 < k < |all|
      ensures all[k].ptr == all[k - 1].ptr + FileUp(|all[k - 1].data|)
    {
      assert all[k] == rest[k - 1];
      if k > 1 {
        assert all[k - 1] == rest[k - 2];
      }
    }
  }

  lemma FileUpFrom(start: nat, n: nat)
    requires start % 512 == 0
    ensures FileUp(start + n) == start + FileUp(n)
  {
    hide FileUp;
    var k, l, m := start / 512, FileUp(n) / 512, FileUp(start + n) / 512;
    assert start == 512 * k && FileUp(n) == 512 * l && FileUp(start + n) == 512 * m;
  }

  lemma FileUpLeast(x: nat, m: nat)
    requires m % 512 == 0 && x <= m
    ensures FileUp(x) <= m
  {
    hide FileUp;
    var k, l := m / 512, FileUp(x) / 512;
    assert m == 512 * k && FileUp(x) == 512 * l;
  }

  lemma PagesAreFileAligned(x: nat)
    requires x % 4096 == 0
    ensures x % 512 == 0
  {
    var k := x / 4096;
    assert x == 512 * (8 * k);
  }

  lemma TailShape(secs: seq<Section>, offset: nat)
    requires Disjoint(secs) && Aligned(secs) && offset % 512 == 0 && secs != [] && offset <= secs[0].va
    ensures Disjoint(secs[1..]) && Aligned(secs[1..])
    ensures FileUp(offset + |secs[0].data|) == offset + FileUp(|secs[0].data|)
    ensures |secs| > 1 ==> FileUp(offset + |secs[0].data|) <= secs[1].va
  {
    hide FileUp;
    FileUpFrom(offset, |secs[0].data|);
    if |secs| > 1 {
      PagesAreFileAligned(secs[1].va);
      FileUpLeast(offset + |secs[0].data|, secs[1].va);
    }
  }

  /** The header-overlap error cannot happen when the first section is past the headers. */
  lemma {:induction false} PlaceOk(secs: seq<Section>, headers: nat, offset: nat)
    requires Disjoint(secs) && Aligned(secs) && offset % 512 == 0 && headers <= offset
    requires secs != [] ==> offset <= secs[0].va
    ensures Place(secs, headers, offset).Ok?
    ensures var placed := Place(secs, headers, offset).value;
            OnlyPtrs(secs, placed) && RawAligned(placed) && RawChain(placed, offset)
    decreases |secs|
  {
    hide FileUp, Disjoint, RawChain;
    if secs == [] {
      assert RawChain([], offset) by {
        EmptyChain(offset);
      }
    } else {
      TailShape(secs, offset);
      var next := FileUp(offset + |secs[0].data|);
      PlaceOk(secs[1..], headers, next);
      var rest := Place(secs[1..], headers, next).value;
      ChainCons(secs[0].(ptr := offset), rest, next);
    }
  }

  lemma EmptyChain(start: nat)
    ensures RawChain([], start)
  {
  }

  lemma {:induction false} ChainThenDisjoint(secs: seq<Section>, start: nat)
    requires RawChain(secs, start)
    ensures RawDisjoint(secs)
  {
    hide FileUp;
    if secs != [] {
      var n := |secs| - 1;
      ChainThenDisjoint(secs[..n], start);
      forall k | 0 <= k < n
        ensures secs[k].ptr + FileUp(|secs[k].data|) <= secs[n].ptr
      {
        assert secs[..n][k] == secs[k] && secs[..n][n - 1] == secs[n - 1];
      }
    }
  }

  // ----- the layout invariant -----

  /** Page-aligned, inside the image, past the headers, with exact sizes. */
  predicate SectionOk(s: Section, headers: nat, size: nat) {
    s.va % 4096 == 0 && headers <= s.va && s.va + |s.data| <= size &&
    s.data != [] && s.vsize == |s.data| && s.rawSize == FileUp(|s.data|)
  }

  predicate InBounds(image: Image) {
    image.sizeOfImage % 4096 == 0 && image.sizeOfImage < TWO_32 &&
    HeaderBytes(|image.sections|) <= image.sizeOfHeaders && image.sizeOfHeaders % 512 == 0 &&
    forall k | 0 <= k < |image.sections| :: SectionOk(image.sections[k], image.sizeOfHeaders, image.sizeOfImage)
  }

  /** Everything a loader may rely on: addresses and raw data in bounds and disjoint. */
  predicate LaidOut(image: Image) {
    InBounds(image) && Disjoint(image.sections) &&
    RawAligned(image.sections) && RawChain(image.sections, image.sizeOfHeaders) && RawDisjoint(image.sections)
  }

  /** The raw data is disjoint and behind the headers; addresses may lie outside the image. */
  predicate Written(image: Image) {
    HeaderBytes(|image.sections|) <= image.sizeOfHeaders && image.sizeOfHeaders % 512 == 0 &&
    Disjoint(image.sections) && RawChain(image.sections, image.sizeOfHeaders) && RawDisjoint(image.sections)
  }

  lemma {:induction false} EncodedNonempty(os: seq<nat>, shift: nat)
    requires os != []
    ensures RelocData(os, shift) != []
  {
    hide BlocksOf, RecordAll;
    RecordAllNonempty(os);
    var pages := RecordAll(os);
    BlocksNonempty(pages, shift);
  }

  lemma BlocksNonempty(pages: Pages, shift: nat)
    requires pages != map[]
    ensures RelocFormat.EncodeBlocks(BlocksOf(pages, shift)) != []
  {
    var k :| k in pages.Keys;
    assert k in SortedKeys(pages.Keys);
    assert BlocksOf(pages, shift) != [];
  }

  lemma RoomForReloc(n: nat, minimum: int, k: nat)
    requires k <= n + 1 && ExactHeaders(n, minimum) < TWO_32
    ensures 0 < HeaderBytes(k) <= HeaderSize(n, minimum)
  {
    hide FileUp;
  }

  lemma HeadersAligned(n: nat, minimum: int)
    ensures HeaderSize(n, minimum) % 512 == 0
  {
    hide FileUp, HeaderBytes;
  }

  /** A section of convert_sections has the raw size of its data. */
  lemma RawSizeExact(elf: Elf, k: nat)
    requires Convert(elf).Ok? && Below4G(elf.sections) && k < |Convert(elf).value|
    requires |Convert(elf).value[k].data| + 512 <= TWO_32
    ensures Convert(elf).value[k].rawSize == FileUp(|Convert(elf).value[k].data|)
  {
    hide Runs, FindRelro, FileUp, PageDown, U32;
    PadAllShape(Runs(elf.sections, FindRelro(elf.segments).value).value);
  }

  lemma AboveHeaders(elf: Elf, minimum: int, k: nat)
    requires InReach(elf, minimum) && k < |Convert(elf).value|
    ensures var n, s := |Convert(elf).value|, Convert(elf).value[k];
            512 <= HeaderSize(n, minimum) <= s.va + Shift32(elf, minimum) &&
            (s.va + Shift32(elf, minimum)) % 4096 == 0
  {
    hide Convert, AllRelatives, FileUp, RelocBytes, RelocStart, HeaderSize, SegmentOffset, Below4G, Disjoint;
    ConvertShape(elf);
    AboveFirst(Convert(elf).value, k);
    HeadersAligned(|Convert(elf).value|, minimum);
  }

  lemma MovedSectionOk(elf: Elf, minimum: int, relocated: seq<Section>, image: Image, k: nat)
    requires InReach(elf, minimum) && Assembled(elf, minimum, relocated, image) && k < |Convert(elf).value|
    ensures SectionOk(image.sections[k], image.sizeOfHeaders, RelocStart(Convert(elf).value, minimum))
    ensures image.sections[k].va < TWO_32
  {
    hide Convert, AllRelatives, FileUp, PageUp, RelocBytes, ApplyAll, HeaderSize, Below4G, Disjoint, ImageSize,
         ImageEnd, RelocStart, Shift32;
    var secs, rs, d := Convert(elf).value, AllRelatives(elf.tables, elf), Shift32(elf, minimum);
    MovedInReach(elf, minimum, k);
    assert image.sections[k] == relocated[k].(va := relocated[k].va + d);
    AboveHeaders(elf, minimum, k);
    RawSizeExact(elf, k);
  }

  lemma RelocSectionOk(elf: Elf, minimum: int, relocated: seq<Section>, image: Image)
    requires InReach(elf, minimum) && Assembled(elf, minimum, relocated, image)
    requires AllRelatives(elf.tables, elf) != []
    ensures var secs := Convert(elf).value;
            SectionOk(image.sections[|secs|], image.sizeOfHeaders, ImageSize(elf, secs, minimum)) &&
            image.sections[|secs|].va == RelocStart(secs, minimum) < TWO_32
  {
    hide Convert, AllRelatives, FileUp, PageUp, ApplyAll, HeaderSize, SegmentOffset, Below4G, Disjoint, SameShape,
         RelocData, RelocStart, ImageSize;
    var secs := Convert(elf).value;
    EncodedNonempty(Offsets(AllRelatives(elf.tables, elf)), Shift32(elf, minimum));
    MovedSectionOk(elf, minimum, relocated, image, 0);
  }

  lemma AssembledDisjoint(elf: Elf, minimum: int, relocated: seq<Section>, image: Image)
    requires InReach(elf, minimum) && Assembled(elf, minimum, relocated, image)
    ensures Disjoint(image.sections) && Aligned(image.sections)
    ensures image.sections != [] && image.sizeOfHeaders <= image.sections[0].va
  {
    hide Convert, AllRelatives, FileUp, PageUp, RelocBytes, ApplyAll, HeaderSize, SegmentOffset, Below4G,
         RelocStart, ImageSize, InReach;
    ConvertInOrder(elf, minimum);
    var secs, all := Convert(elf).value, image.sections;
    forall k | 0 <= k < |all|
      ensures all[k].va % 4096 == 0 && all[k].va < TWO_32
      ensures k > 0 ==> all[k - 1].va + |all[k - 1].data| <= all[k].va
    {
      if k > 0 {
        MovedSectionOk(elf, minimum, relocated, image, k - 1);
      }
      if k < |secs| {
        MovedSectionOk(elf, minimum, relocated, image, k);
        assert k > 0 ==> secs[k - 1].va + |secs[k - 1].data| <= secs[k].va;
      } else {
        RelocSectionOk(elf, minimum, relocated, image);
      }
    }
    MovedSectionOk(elf, minimum, relocated, image, 0);
    AdjacentThenDisjoint(all);
  }

  lemma ConvertInOrder(elf: Elf, minimum: int)
    requires InReach(elf, minimum)
    ensures Convert(elf).Ok? && Disjoint(Convert(elf).value) && Convert(elf).value != []
  {
    hide Convert, Disjoint, Below4G, ImageEnd, RelocBytes, RelocStart, AllRelatives;
    ConvertShape(elf);
  }

  /** The assembled image, before raw data is placed, has its addresses in order. */
  lemma AssembledInBounds(elf: Elf, minimum: int, relocated: seq<Section>, image: Image)
    requires Fits(elf, minimum) && Assembled(elf, minimum, relocated, image)
    requires HeaderBytes(|image.sections|) <= image.sizeOfHeaders
    ensures InBounds(image) && Disjoint(image.sections)
  {
    hide Convert, AllRelatives, FileUp, RelocBytes, ApplyAll, HeaderSize, SegmentOffset, Below4G, Disjoint, SameShape,
         SectionOk, RelocStart, PageUp, ImageSize, InReach;
    var secs, rs := Convert(elf).value, AllRelatives(elf.tables, elf);
    HeadersAligned(|secs|, minimum);
    FitsInReach(elf, minimum);
    AssembledDisjoint(elf, minimum, relocated, image);
    forall k | 0 <= k < |image.sections|
      ensures SectionOk(image.sections[k], image.sizeOfHeaders, image.sizeOfImage)
    {
      if k < |secs| {
        MovedSectionOk(elf, minimum, relocated, image, k);
        SectionOkWider(image.sections[k], image.sizeOfHeaders, RelocStart(secs, minimum), image.sizeOfImage);
      } else {
        RelocSectionOk(elf, minimum, relocated, image);
      }
    }
  }

  lemma SectionOkWider(s: Section, headers: nat, size: nat, size': nat)
    requires SectionOk(s, headers, size) && size <= size'
    ensures SectionOk(s, headers, size')
  {
  }

  /** Disjoint sections in order need no sorting. */
  lemma PlacedInOrder(image: Image)
    requires Disjoint(image.sections)
    ensures PlaceSorted(image.sections, image.sizeOfHeaders) ==
            Place(image.sections, image.sizeOfHeaders, image.sizeOfHeaders)
    ensures Sorted(image.sections) == image.sections
  {
    hide Order, Place;
    SortedAscending(image.sections);
    PlaceKeepsShape(image.sections, image.sizeOfHeaders, image.sizeOfHeaders);
  }

  /** The image as it is written: placing cannot fail, and keeps the addresses. */
  lemma PlacedImage(elf: Elf, minimum: int, relocated: seq<Section>, image: Image)
    requires InReach(elf, minimum) && Assembled(elf, minimum, relocated, image)
    ensures var placed := PlaceSorted(image.sections, image.sizeOfHeaders);
            placed.Ok? && OnlyPtrs(image.sections, placed.value) && Disjoint(placed.value) &&
            RawAligned(placed.value) && RawChain(placed.value, image.sizeOfHeaders) && RawDisjoint(placed.value)
    ensures image.sections != [] && image.sizeOfHeaders % 512 == 0
  {
    hide Convert, InReach, Disjoint, Assembled, RawAligned, RawChain, RawDisjoint, Aligned, PlaceSorted, Place;
    AssembledDisjoint(elf, minimum, relocated, image);
    AssembledHeaders(elf, minimum, relocated, image);
    PlaceOk(image.sections, image.sizeOfHeaders, image.sizeOfHeaders);
    PlacedInOrder(image);
    var placed := Place(image.sections, image.sizeOfHeaders, image.sizeOfHeaders).value;
    ChainThenDisjoint(placed, image.sizeOfHeaders);
    PtrsKeepDisjoint(image.sections, placed);
  }

  lemma AssembledHeaders(elf: Elf, minimum: int, relocated: seq<Section>, image: Image)
    requires InReach(elf, minimum) && Assembled(elf, minimum, relocated, image)
    ensures image.sizeOfHeaders % 512 == 0
  {
    hide Convert, AllRelatives, RelocBytes, ApplyAll, SameShape, SegmentOffset, Below4G, RelocStart, ImageSize,
         ImageEnd, HeaderSize;
    HeadersAligned(|Convert(elf).value|, minimum);
  }

  lemma Elf2EfiIs(elf: Elf, imageBase: nat, minimum: int)
    requires Convert(elf).Ok? && ConvertRelocations(elf, Convert(elf).value, imageBase, minimum).Ok?
    requires var image := ConvertRelocations(elf, Convert(elf).value, imageBase, minimum).value;
             PlaceSorted(image.sections, image.sizeOfHeaders).Ok?
    ensures var image := ConvertRelocations(elf, Convert(elf).value, imageBase, minimum).value;
            Elf2Efi(elf, imageBase, minimum) ==
            if HeaderBytes(|image.sections|) > image.sizeOfHeaders then Err(HeadersTooLong)
            else Ok(image.(sections := PlaceSorted(image.sections, image.sizeOfHeaders).value))
  {
    hide Convert, ConvertRelocations, PlaceSorted, HeaderBytes;
  }

  lemma HeadersOf(elf: Elf, imageBase: nat, minimum: int)
    requires Convert(elf).Ok? && ConvertRelocations(elf, Convert(elf).value, imageBase, minimum).Ok?
    ensures var n := |Convert(elf).value|;
            var image := ConvertRelocations(elf, Convert(elf).value, imageBase, minimum).value;
            image.sizeOfHeaders == HeaderSize(n, minimum) && |image.sections| <= n + 1
  {
    hide Convert, ConvertTables, HeaderSize, SegmentOffset, CheckDynamic, Tally, NextAddress;
    var secs := Convert(elf).value;
    var base := imageBase + SegmentOffset(secs[0].va, HeaderSize(|secs|, minimum));
    TablesKeepCount(State(secs, map[]), elf.tables, base, elf);
  }

  lemma NonemptyConverted(elf: Elf, secs: seq<Section>, imageBase: nat, minimum: int)
    requires ConvertRelocations(elf, secs, imageBase, minimum).Ok?
    ensures secs != []
  {
  }

  /** A file without room for its headers is not accepted. */
  lemma AcceptedHeaders(elf: Elf, imageBase: nat, minimum: int)
    requires Elf2Efi(elf, imageBase, minimum).Ok?
    ensures Convert(elf).Ok? && Convert(elf).value != [] && 0 < HeaderSize(|Convert(elf).value|, minimum)
    ensures ConvertRelocations(elf, Convert(elf).value, imageBase, minimum).Ok?
  {
    hide Convert, ConvertRelocations, PlaceSorted, HeaderSize;
    HeadersOf(elf, imageBase, minimum);
    NonemptyConverted(elf, Convert(elf).value, imageBase, minimum);
  }

  /** The layout invariant. Once relocation succeeds nothing else can fail: neither the
      header-overlap error nor the final header-size assertion is reachable, as long as the
      size of the headers itself fits. Every accepted file whose image fits is laid out. */
  lemma LayoutInvariant(elf: Elf, imageBase: nat, minimum: int)
    requires Fits(elf, minimum) && GoodRelocs(elf)
    requires ConvertRelocations(elf, Convert(elf).value, imageBase, minimum).Ok?
    ensures ExactHeaders(|Convert(elf).value|, minimum) < TWO_32 ==> Elf2Efi(elf, imageBase, minimum).Ok?
    ensures Elf2Efi(elf, imageBase, minimum).Ok? ==> LaidOut(Elf2Efi(elf, imageBase, minimum).value)
  {
    hide Convert, ConvertRelocations, GoodRelocs, InReach, Disjoint, Assembled, HeaderBytes, RawChain, HeaderSize,
         RawDisjoint, RawAligned, Elf2Efi, PlaceSorted, InBounds, ExactHeaders, ImageSize, Below4G;
    var n, image := |Convert(elf).value|, ConvertRelocations(elf, Convert(elf).value, imageBase, minimum).value;
    HeadersOf(elf, imageBase, minimum);
    if ExactHeaders(n, minimum) < TWO_32 {
      RoomForReloc(n, minimum, |image.sections|);
    }
    FitsInReach(elf, minimum);
    var relocated := Assemble(elf, imageBase, minimum);
    PlacedImage(elf, minimum, relocated, image);
    Elf2EfiIs(elf, imageBase, minimum);
    if HeaderBytes(|image.sections|) <= image.sizeOfHeaders {
      AssembledInBounds(elf, minimum, relocated, image);
      PtrsKeepBounds(image, PlaceSorted(image.sections, image.sizeOfHeaders).value);
    }
  }

  /** The size of a fitting image is exact. */
  lemma SizeExactly(elf: Elf, minimum: int, relocated: seq<Section>, image: Image)
    requires Fits(elf, minimum) && Assembled(elf, minimum, relocated, image)
    ensures image.sizeOfImage == ImageSize(elf, Convert(elf).value, minimum)
    ensures RelocStart(Convert(elf).value, minimum) <= image.sizeOfImage
  {
    hide Convert, AllRelatives, RelocBytes, RelocStart, ImageSize, ApplyAll, SameShape, Below4G, HeaderSize,
         SegmentOffset, FileUp;
  }

  lemma PtrsKeepBounds(image: Image, placed: seq<Section>)
    requires InBounds(image) && OnlyPtrs(image.sections, placed)
    ensures InBounds(image.(sections := placed))
  {
    hide FileUp;
    forall k | 0 <= k < |placed|
      ensures SectionOk(placed[k], image.sizeOfHeaders, image.sizeOfImage)
    {
      assert SectionOk(image.sections[k], image.sizeOfHeaders, image.sizeOfImage);
    }
  }

  lemma PtrsKeepDisjoint(a: seq<Section>, b: seq<Section>)
    requires OnlyPtrs(a, b) && Disjoint(a)
    ensures Disjoint(b)
  {
  }
}
