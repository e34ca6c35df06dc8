/** The PE image made from an ELF file: header sizes, the segment offset, the .reloc
    section and the file layout (tools/elf2efi.py:456-576, tools/elf2efi.py:606-645). */
module PeImage {
  import opened AddressOrder
  import opened Bytes
  import opened ElfModel
  import opened Coalesce
  import opened RelocBlocks
  import opened Relocate

  /** What ends up in the file: the section table and the header fields a loader uses. */
  datatype Image = Image(sections: seq<Section>, imageBase: nat, sizeOfHeaders: nat, entry: nat,
                         sizeOfImage: nat, relocAddress: nat, relocSize: nat, counts: SectionCounts)

  const PE_OFFSET: nat := 64
  const COFF_SIZE: nat := 20
  const OPTIONAL_SIZE: nat := 240
  const SECTION_HEADER_SIZE: nat := 40
  const RELOC_PERMISSIONS: nat := 0x42000040

  function Max(a: int, b: int): int {
    if a > b then a else b
  }

  /** The headers with room for `n` sections, before rounding. */
  function HeaderBytes(n: nat): nat {
    PE_OFFSET + 4 + COFF_SIZE + OPTIONAL_SIZE + SECTION_HEADER_SIZE * n
  }

  function ExactHeaders(n: nat, minimum: int): nat {
    FileUp(HeaderBytes(Max(n + 1, minimum)))
  }

  /** SizeOfHeaders, a 32-bit field. */
  function HeaderSize(n: nat, minimum: int): (h: nat)
    ensures h < TWO_32
  {
    U32(ExactHeaders(n, minimum))
  }

  /** The least page multiple that moves the first section past the headers. */
  function SegmentOffset(first: nat, headers: nat): (d: nat)
    ensures d % 4096 == 0 && headers <= first + d
    ensures if first < headers then first + d < headers + 4096 else d == 0
  {
    if first < headers then PageUp(headers - first) else 0
  }

  function NextAddress(secs: seq<Section>): (a: nat)
    requires secs != []
    ensures a % 4096 == 0
  {
    PageUp(secs[|secs| - 1].va + secs[|secs| - 1].vsize)
  }

  function Moved(secs: seq<Section>, d: nat): (r: seq<Section>)
    ensures |r| == |secs| && forall k | 0 <= k < |secs| :: r[k] == secs[k].(va := U32(secs[k].va + d))
  {
    seq(|secs|, k requires 0 <= k < |secs| => secs[k].(va := U32(secs[k].va + d)))
  }

  function RelocSection(data: seq<byte>, va: nat): Section {
    Section(".reloc", va, U32(|data|), U32(FileUp(|data|)), 0, RELOC_PERMISSIONS, data)
  }

  function CheckDynamic(elf: Elf): Result<()> {
    if !elf.hasDynamic then Err(NoDynamicSection)
    else if |elf.flags1| != 1 then Err(BadFlagsTag)
    else if !elf.flags1[0] then Err(NotPie)
    else if elf.start.Some? && elf.start.value != 0 then Err(UnexpectedImageBase)
    else Ok(())
  }

  /** The sections with .reloc appended when there are relocations. */
  function WithReloc(secs: seq<Section>, pages: Pages, shift: nat): seq<Section>
    requires secs != []
  {
    if pages == map[] then secs
    else secs + [RelocSection(RelocFormat.EncodeBlocks(BlocksOf(pages, shift)), U32(NextAddress(secs)))]
  }

  lemma RelocKeepsCount(st: State, r: Reloc, base: nat, elf: Elf)
    requires ConvertReloc(st, r, base, elf).Ok?
    ensures |ConvertReloc(st, r, base, elf).value.secs| == |st.secs|
  {
    hide Record, Store;
    if r.rType != elf.noneType {
      assert Targets(st.secs, r.offset)[0] in Targets(st.secs, r.offset);
    }
  }

  lemma {:induction false} TableKeepsCount(st: State, rs: seq<Reloc>, base: nat, elf: Elf)
    requires ConvertTable(st, rs, base, elf).Ok?
    ensures |ConvertTable(st, rs, base, elf).value.secs| == |st.secs|
    decreases |rs|
  {
    hide ConvertReloc;
    if rs != [] {
      RelocKeepsCount(st, rs[0], base, elf);
      TableKeepsCount(ConvertReloc(st, rs[0], base, elf).value, rs[1..], base, elf);
    }
  }

  lemma {:induction false} TablesKeepCount(st: State, tables: seq<RelocTable>, base: nat, elf: Elf)
    requires ConvertTables(st, tables, base, elf).Ok?
    ensures |ConvertTables(st, tables, base, elf).value.secs| == |st.secs|
    decreases |tables|
  {
    hide ConvertTable;
    if tables != [] {
      TableKeepsCount(st, tables[0].relocs, base, elf);
      TablesKeepCount(ConvertTable(st, tables[0].relocs, base, elf).value, tables[1..], base, elf);
    }
  }

  /** The counters after the relocation step: the code has moved, and .reloc is data. */
  function Adjusted(counts: SectionCounts, shift: nat, pages: Pages, relocSize: nat): SectionCounts {
    var moved := counts.(baseOfCode := U32(counts.baseOfCode + shift));
    if pages == map[] then moved
    else moved.(sizeOfInitializedData := U32(moved.sizeOfInitializedData + relocSize))
  }

  /** Moves the relocated sections up and adds .reloc. */
  function Finish(entry: nat, imageBase: nat, headers: nat, shift: nat, secs: seq<Section>, pages: Pages,
                  counts: SectionCounts): Image
    requires secs != []
  {
    var moved := Moved(secs, shift);
    var all := WithReloc(moved, pages, shift);
    var size := if pages == map[] then 0 else all[|moved|].vsize;
    var address := if pages == map[] then 0 else all[|moved|].va;
    Image(all, imageBase, headers, U32(entry + shift), U32(NextAddress(all)), address, size,
          Adjusted(counts, shift, pages, size))
  }

  function ConvertRelocations(elf: Elf, secs: seq<Section>, imageBase: nat, minimum: int): Result<Image> {
    var ok := CheckDynamic(elf);
    if ok.Err? then Err(ok.error)
    else if secs == [] then Err(NoSections)
    else
      var headers := HeaderSize(|secs|, minimum);
      var shift := SegmentOffset(secs[0].va, headers);
      var st := ConvertTables(State(secs, map[]), elf.tables, imageBase + shift, elf);
      if st.Err? then Err(st.error)
      else
        TablesKeepCount(State(secs, map[]), elf.tables, imageBase + shift, elf);
        Ok(Finish(elf.entry, imageBase, headers, shift, st.value.secs, st.value.pages, Tally(secs)))
  }

  /** The raw-data pointers write_pe assigns to sections that are in address order. */
  function Place(secs: seq<Section>, headers: nat, offset: nat): Result<seq<Section>>
    decreases |secs|
  {
    if secs == [] then Ok([])
    else if secs[0].va < headers then Err(HeaderOverlap)
    else
      var rest := Place(secs[1..], headers, FileUp(offset + |secs[0].data|));
      if rest.Err? then rest else Ok([secs[0].(ptr := U32(offset))] + rest.value)
  }

  /** The raw-data pointers of a section list: placed in address order, in their own order. */
  function PlaceSorted(secs: seq<Section>, headers: nat): (r: Result<seq<Section>>)
    ensures r.Ok? ==> |r.value| == |secs|
  {
    var order := Order(Vas(secs));
    var placed := Place(Pick(secs, order), headers, headers);
    if placed.Err? then placed
    else
      OrderSorts(Vas(secs));
      PlaceKeepsShape(Pick(secs, order), headers, headers);
      Ok(Unpick(placed.value, order))
  }

  /** Placing only assigns pointers. */
  lemma {:induction false} PlaceKeepsShape(secs: seq<Section>, headers: nat, offset: nat)
    ensures var placed := Place(secs, headers, offset);
            placed.Ok? ==>
            |placed.value| == |secs| && forall k | 0 <= k < |secs| :: placed.value[k].(ptr := secs[k].ptr) == secs[k]
    decreases |secs|
  {
    hide FileUp, U32;
    if secs != [] {
      PlaceKeepsShape(secs[1..], headers, FileUp(offset + |secs[0].data|));
    }
  }

  /** The whole conversion, up to the bytes of the file. */
  function Elf2Efi(elf: Elf, imageBase: nat, minimum: int): Result<Image> {
    var secs := Convert(elf);
    if secs.Err? then Err(secs.error)
    else
      var image := ConvertRelocations(elf, secs.value, imageBase, minimum);
      if image.Err? then image
      else
        var headers := image.value.sizeOfHeaders;
        var placed := PlaceSorted(image.value.sections, headers);
        if placed.Err? then Err(placed.error)
        else if HeaderBytes(|placed.value|) > headers then Err(HeadersTooLong)
        else Ok(image.value.(sections := placed.value))
  }
}
