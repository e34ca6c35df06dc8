/** The mutating half of tools/elf2efi.py: relocations applied in place, the page
    dictionary, and the assembled section list (tools/elf2efi.py:384-543). */
module PeConvert {
  import opened AddressOrder
  import opened Bytes
  import opened ElfModel
  import opened Coalesce
  import opened RelocFormat
  import opened RelocBlocks
  import opened Relocate
  import opened PeImage
  import opened PeFile
  import opened PeSections
  import Layout

  lemma TargetsStep(secs: seq<Section>, a: nat, i: nat)
    requires i < |secs|
    ensures Targets(secs[..i + 1], a) == Targets(secs[..i], a) + (if secs[i].Covers(a) then [i] else [])
  {
    assert secs[..i + 1][..i] == secs[..i];
  }

  /** The sections that cover `a`, and ghostly their indices. */
  method FindTargets(sections: seq<PeSection>, a: nat) returns (targets: seq<PeSection>, ghost at: seq<nat>)
    ensures at == Targets(Values(sections), a) && |targets| == |at|
    ensures forall j | 0 <= j < |at| :: at[j] < |sections| && targets[j] == sections[at[j]]
  {
    targets, at := [], [];
    ghost var secs := Values(sections);
    for i := 0 to |sections|
      invariant at == Targets(secs[..i], a) && |targets| == |at|
      invariant forall j | 0 <= j < |at| :: at[j] < |sections| && targets[j] == sections[at[j]]
    {
      TargetsStep(secs, a, i);
      var s := sections[i];
      assert secs[i] == s.Value();
      if s.virtualAddress <= a < s.virtualAddress + |s.data| {
        targets, at := targets + [s], at + [i];
      }
    }
    assert secs[..|sections|] == secs;
  }

  lemma ValuesUpdated(sections: seq<PeSection>, secs: seq<Section>, k: nat)
    requires Distinct(sections) && |secs| == |sections| && k < |secs|
    requires forall j | 0 <= j < |secs| && j != k :: sections[j].Value() == secs[j]
    ensures Values(sections) == secs[k := sections[k].Value()]
  {
  }

  method StoreAddend(target: PeSection, r: Reloc, imageBase: nat) returns (ok: bool)
    requires target.Value().Covers(r.offset)
    modifies target
    ensures var s := Store(old(target.Value()), r, imageBase);
            if ok then s == Ok(target.Value()) else s == Err(ValueOverflow) && target.Value() == old(target.Value())
  {
    var at := r.offset - target.virtualAddress;
    var addend: int;
    if r.rela {
      addend := r.addend;
    } else {
      addend := FromLe(Slice8(target.data, at));
    }
    if imageBase + addend < 0 || imageBase + addend >= TWO_64 {
      return false;
    }
    var value := ToLe(imageBase + addend, 8);
    target.data := Splice8(target.data, at, value);
    return true;
  }

  method ApplyElfRelativeRelocation(r: Reloc, imageBase: nat, sections: seq<PeSection>) returns (res: Result<()>)
    requires Distinct(sections)
    modifies sections
    ensures var secs := Apply(old(Values(sections)), r, imageBase);
            if secs.Ok? then res == Ok(()) && Values(sections) == secs.value
            else res == Err(secs.error) && Values(sections) == old(Values(sections))
  {
    ghost var secs := Values(sections);
    var targets, at := FindTargets(sections, r.offset);
    if |targets| != 1 {
      return Err(NoUniqueTarget);
    }
    ghost var k := at[0];
    TargetsCover(secs, r.offset, k);
    assert targets[0] == sections[k];
    var ok := StoreAddend(targets[0], r, imageBase);
    ValuesUpdated(sections, secs, k);
    if !ok {
      assert secs[k := secs[k]] == secs;
      return Err(ValueOverflow);
    }
    return Ok(());
  }

  /** The dictionary pe_reloc_blocks. */
  class PageDict {
    var pages: Pages

    constructor ()
      ensures pages == map[]
    {
      pages := map[];
    }

    method Add(offset: nat)
      modifies this
      ensures pages == Record(old(pages), offset)
    {
      var page := PageDown(offset);
      if page !in pages {
        pages := pages[page := []];
      }
      pages := pages[page := pages[page] + [Entry(offset - page, DIR64)]];
    }
  }

  method ConvertElfRelocTable(elf: Elf, rs: seq<Reloc>, imageBase: nat, sections: seq<PeSection>, blocks: PageDict)
    returns (res: Result<()>)
    requires Distinct(sections)
    modifies sections, blocks
    ensures var st := ConvertTable(State(old(Values(sections)), old(blocks.pages)), rs, imageBase, elf);
            if st.Ok? then res == Ok(()) && State(Values(sections), blocks.pages) == st.value
            else res == Err(st.error)
  {
    ghost var st := State(Values(sections), blocks.pages);
    assert rs[0..] == rs;
    for i := 0 to |rs|
      invariant ConvertTable(State(Values(sections), blocks.pages), rs[i..], imageBase, elf) ==
                ConvertTable(st, rs, imageBase, elf)
    {
      assert rs[i..][1..] == rs[i + 1..];
      var r := rs[i];
      if r.rType == elf.noneType {
        continue;
      }
      if r.rType == elf.relativeType {
        var applied := ApplyElfRelativeRelocation(r, imageBase, sections);
        if applied.Err? {
          return Err(applied.error);
        }
        blocks.Add(r.offset);
        continue;
      }
      return Err(UnsupportedRelocation);
    }
    return Ok(());
  }

  method ConvertAllTables(elf: Elf, imageBase: nat, sections: seq<PeSection>, blocks: PageDict)
    returns (res: Result<()>)
    requires Distinct(sections)
    modifies sections, blocks
    ensures var st := ConvertTables(State(old(Values(sections)), old(blocks.pages)), elf.tables, imageBase, elf);
            if st.Ok? then res == Ok(()) && State(Values(sections), blocks.pages) == st.value
            else res == Err(st.error)
  {
    ghost var st := State(Values(sections), blocks.pages);
    var tables := elf.tables;
    assert tables[0..] == tables;
    for i := 0 to |tables|
      invariant ConvertTables(State(Values(sections), blocks.pages), tables[i..], imageBase, elf) ==
                ConvertTables(st, tables, imageBase, elf)
    {
      assert tables[i..][1..] == tables[i + 1..];
      if tables[i].kind != "REL" && tables[i].kind != "RELA" {
        return Err(UnsupportedTable);
      }
      var table := ConvertElfRelocTable(elf, tables[i].relocs, imageBase, sections, blocks);
      if table.Err? {
        return table;
      }
    }
    return Ok(());
  }

  /** Appends one block: its header, then its entries in order. */
  method AppendBlock(data: seq<byte>, page: nat, es: seq<Entry>, shift: nat) returns (r: seq<byte>)
    ensures r == data + EncodeBlock(ToBlock(page, es, shift))
  {
    hide ToLe, SortEntries, PadEven, U32;
    var padded := PadEven(es);
    var sorted := SortEntries(padded);
    ghost var header := ToLe(U32(U32(page) + shift), 4) + ToLe(8 + 2 * |padded|, 4);
    r := data + (ToLe(U32(U32(page) + shift), 4) + ToLe(8 + 2 * |padded|, 4));
    assert sorted[0..] == sorted;
    for j := 0 to |sorted|
      invariant r + EncodeEntries(sorted[j..]) == data + (header + EncodeEntries(sorted))
    {
      assert sorted[j..][1..] == sorted[j + 1..];
      r := r + ToLe(sorted[j].kind * 4096 + sorted[j].offset, 2);
    }
    assert r + EncodeEntries([]) == r;
  }

  lemma BlocksStep(bs: seq<Block>, i: nat)
    requires i < |bs|
    ensures EncodeBlocks(bs[..i + 1]) == EncodeBlocks(bs[..i]) + EncodeBlock(bs[i])
  {
    hide EncodeBlock;
    EncodeConcat(bs[..i], [bs[i]]);
    assert bs[..i + 1] == bs[..i] + [bs[i]];
    assert [bs[i]][1..] == [];
  }

  method RelocBytesOf(pages: Pages, shift: nat) returns (data: seq<byte>)
    ensures data == EncodeBlocks(BlocksOf(pages, shift))
  {
    hide EncodeBlock, EncodeBlocks, ToBlock, ToBlocks;
    data := [];
    var keys := SortedKeys(pages.Keys);
    ghost var bs := BlocksOf(pages, shift);
    BlocksNone(bs);
    for i := 0 to |keys|
      invariant data == EncodeBlocks(bs[..i])
    {
      var rva: nat := keys[i];
      ToBlocksAt(keys, pages, shift, i);
      BlocksStep(bs, i);
      data := AppendBlock(data, rva, pages[rva], shift);
    }
    assert bs[..|keys|] == bs;
  }

  lemma BlocksNone(bs: seq<Block>)
    ensures EncodeBlocks(bs[..0]) == []
  {
  }

  method MoveSections(sections: seq<PeSection>, shift: nat)
    requires Distinct(sections)
    modifies sections
    ensures Values(sections) == Moved(old(Values(sections)), shift)
  {
    hide U32;
    ghost var secs := Values(sections);
    for i := 0 to |sections|
      invariant forall j | 0 <= j < i :: sections[j].Value() == Moved(secs, shift)[j]
      invariant forall j | i <= j < |sections| :: sections[j].Value() == secs[j]
    {
      sections[i].virtualAddress := U32(sections[i].virtualAddress + shift);
    }
    ValuesAre(sections, Moved(secs, shift));
  }

  method NextSectionAddress(sections: seq<PeSection>) returns (a: nat)
    requires sections != []
    ensures a == NextAddress(Values(sections))
  {
    hide PageUp;
    var last := sections[|sections| - 1];
    a := PageUp(last.virtualAddress + last.virtualSize);
  }

  /** The dynamic-section and symbol checks. */
  method CheckElf(elf: Elf) returns (res: Result<()>)
    ensures res == CheckDynamic(elf)
  {
    if !elf.hasDynamic {
      return Err(NoDynamicSection);
    }
    if |elf.flags1| != 1 {
      return Err(BadFlagsTag);
    }
    if !elf.flags1[0] {
      return Err(NotPie);
    }
    if elf.start.Some? && elf.start.value != 0 {
      return Err(UnexpectedImageBase);
    }
    return Ok(());
  }

  method NewRelocSection(data: seq<byte>, va: nat) returns (s: PeSection)
    ensures fresh(s) && s.Value() == RelocSection(data, va)
  {
    s := new PeSection();
    s.name := ".reloc";
    s.data := data;
    s.virtualAddress := va;
    s.virtualSize := U32(|data|);
    s.sizeOfRawData := U32(FileUp(|data|));
    s.characteristics := RELOC_PERMISSIONS;
  }

  /** SizeOfInitializedData once the relocation section, if any, is counted. */
  ghost function DataSize(size: nat, reloc: PeSection?): nat
    reads reloc
  {
    if reloc == null then size else U32(size + reloc.virtualSize)
  }

  /** Appends the .reloc section when there are relocations. */
  method AppendReloc(opt: PeOptionalHeader, sections: seq<PeSection>, pages: Pages, shift: nat)
    returns (all: seq<PeSection>, reloc: PeSection?)
    requires sections != [] && Distinct(sections)
    modifies opt`sizeOfInitializedData
    ensures Values(all) == WithReloc(old(Values(sections)), pages, shift) && Distinct(all)
    ensures if pages == map[] then reloc == null && all == sections else all == sections + [reloc] && fresh(reloc)
    ensures opt.sizeOfInitializedData == DataSize(old(opt.sizeOfInitializedData), reloc)
  {
    hide RelocSection, U32, FileUp, BlocksOf, EncodeBlocks, NextAddress;
    if pages == map[] {
      return sections, null;
    }
    ghost var secs := Values(sections);
    var data := RelocBytesOf(pages, shift);
    var next := NextSectionAddress(sections);
    var s := NewRelocSection(data, U32(next));
    opt.sizeOfInitializedData := U32(opt.sizeOfInitializedData + s.virtualSize);
    all, reloc := sections + [s], s;
    ValuesAre(all, secs + [s.Value()]);
  }

  /** What an optional header and a section list say about the image. */
  ghost function ImageOf(opt: PeOptionalHeader, secs: seq<Section>): Image
    reads opt
  {
    Image(secs, opt.imageBase, opt.sizeOfHeaders, opt.addressOfEntryPoint, opt.sizeOfImage, opt.relocAddress,
          opt.relocSize, opt.Counts())
  }

  /** Applies and encodes the relocations and moves the sections up by `shift`. */
  method RelocateSections(elf: Elf, opt: PeOptionalHeader, sections: seq<PeSection>, shift: nat)
    returns (res: Result<()>, all: seq<PeSection>, reloc: PeSection?)
    requires Distinct(sections) && sections != []
    modifies sections, opt`sizeOfInitializedData
    ensures var st := ConvertTables(State(old(Values(sections)), map[]), elf.tables, opt.imageBase + shift, elf);
            if st.Err? then res == Err(st.error)
            else
              |st.value.secs| == |sections| &&
              var moved := Moved(st.value.secs, shift);
              res == Ok(()) && Values(all) == WithReloc(moved, st.value.pages, shift) && Distinct(all) &&
              if st.value.pages == map[] then reloc == null && all == sections
              else reloc != null && all == sections + [reloc] && fresh(reloc) && reloc.Value() == Values(all)[|moved|]
    ensures res.Ok? ==> opt.sizeOfInitializedData == DataSize(old(opt.sizeOfInitializedData), reloc)
  {
    hide ConvertTables, WithReloc, Moved;
    all, reloc := sections, null;
    var blocks := new PageDict();
    res := ConvertAllTables(elf, opt.imageBase + shift, sections, blocks);
    if res.Err? {
      return;
    }
    MoveSections(sections, shift);
    all, reloc := AppendReloc(opt, sections, blocks.pages, shift);
    assert reloc != null ==> all[|sections|] == reloc;
  }

  method ConvertElfRelocations(elf: Elf, opt: PeOptionalHeader, sections: seq<PeSection>, minimum: int)
    returns (res: Result<()>, all: seq<PeSection>, reloc: PeSection?)
    requires Distinct(sections)
    modifies sections, opt`sizeOfHeaders, opt`addressOfEntryPoint, opt`baseOfCode, opt`sizeOfInitializedData
    ensures var image := ConvertRelocations(elf, old(Values(sections)), opt.imageBase, minimum);
            if image.Err? then res == Err(image.error)
            else
              res == Ok(()) && Values(all) == image.value.sections && Distinct(all) &&
              image.value.imageBase == opt.imageBase && opt.sizeOfHeaders == image.value.sizeOfHeaders &&
              opt.addressOfEntryPoint == image.value.entry && sections != [] && all != [] &&
              image.value.sizeOfImage == U32(NextAddress(Values(all))) &&
              if reloc == null then image.value.relocAddress == image.value.relocSize == 0 && all == sections
              else
                all == sections + [reloc] && fresh(reloc) &&
                reloc.virtualAddress == image.value.relocAddress && reloc.virtualSize == image.value.relocSize
    ensures res.Ok? ==>
              sections != [] && opt.sizeOfInitializedData == DataSize(old(opt.sizeOfInitializedData), reloc) &&
              var shift := SegmentOffset(old(Values(sections))[0].va, opt.sizeOfHeaders);
              opt.baseOfCode == U32(old(opt.baseOfCode) + shift)
    ensures res.Ok? && old(opt.Counts()) == Tally(old(Values(sections))) ==>
              var image := ConvertRelocations(elf, old(Values(sections)), opt.imageBase, minimum);
              image.Ok? && opt.Counts() == image.value.counts
  {
    hide U32, FileUp, ConvertTables, WithReloc, Moved, SegmentOffset, HeaderSize, NextAddress, CheckDynamic, Tally;
    all, reloc := sections, null;
    res := CheckElf(elf);
    if res.Err? {
      return;
    }
    if sections == [] {
      res := Err(NoSections);
      return;
    }
    opt.sizeOfHeaders := HeaderSize(|sections|, minimum);
    var shift := SegmentOffset(sections[0].virtualAddress, opt.sizeOfHeaders);
    opt.addressOfEntryPoint := U32(elf.entry + shift);
    opt.baseOfCode := U32(opt.baseOfCode + shift);
    res, all, reloc := RelocateSections(elf, opt, sections, shift);
  }

  // ----- writing the file -----

  class File {
    var content: seq<byte>
    var pos: nat

    constructor ()
      ensures content == [] && pos == 0
    {
      content, pos := [], 0;
    }

    method Seek(to: nat)
      modifies `pos
      ensures pos == to
    {
      pos := to;
    }

    method Write(d: seq<byte>)
      modifies this
      ensures content == WriteAt(old(content), old(pos), d) && pos == old(pos) + |d|
    {
      content := WriteAt(content, pos, d);
      pos := pos + |d|;
    }

    method Truncate(n: nat)
      modifies `content
      ensures content == Resize(old(content), n)
    {
      content := Resize(content, n);
    }
  }

  lemma AppendIsWriteAt(f: seq<byte>, d: seq<byte>)
    ensures WriteAt(f, |f|, d) == f + d
  {
  }

  /** The header bytes before the section table. */
  method WriteFrontHeaders(file: File, coff: seq<byte>, opt: seq<byte>)
    requires file.content == [] && file.pos == 0
    modifies file
    ensures file.content == DosHeader() + PE_MAGIC + coff + opt && file.pos == |file.content|
  {
    file.Write([0x4D, 0x5A]);
    file.Seek(0x3C);
    file.Write(ToLe(PE_OFFSET, 2));
    file.Seek(PE_OFFSET);
    file.Write(PE_MAGIC);
    assert file.content == DosHeader() + PE_MAGIC;
    hide WriteAt, DosHeader;
    AppendIsWriteAt(file.content, coff);
    file.Write(coff);
    AppendIsWriteAt(file.content, opt);
    file.Write(opt);
  }

  /** write_pe's first loop: pointers and section headers, over the sorted list. */
  method WriteTable(file: File, headers: nat, sections: seq<PeSection>, ghost front: seq<byte>)
    returns (res: Result<()>, end: nat)
    requires Distinct(sections)
    requires file.content == front && file.pos == |front|
    modifies file, sections
    ensures var secs := old(Values(sections));
            var placed := Place(secs, headers, headers);
            if placed.Err? then res == Err(placed.error)
            else
              res == Ok(()) && Values(sections) == placed.value && end == OffsetAfter(secs, headers) &&
              file.content == front + SectionTable(placed.value) && file.pos == |file.content|
  {
    hide SectionHeader, WriteAt, FileUp, U32, SectionTable, Place, OffsetAfter;
    ghost var secs := Values(sections);
    ghost var done: seq<Section> := [];
    end := headers;
    TableStart(secs, headers, front);
    for i := 0 to |sections|
      invariant |done| == i
      invariant forall j | 0 <= j < |sections| :: sections[j].Value() == if j < i then done[j] else secs[j]
      invariant After(done, Place(secs[i..], headers, end)) == Place(secs, headers, headers)
      invariant OffsetAfter(secs[i..], end) == OffsetAfter(secs, headers)
      invariant file.content == front + SectionTable(done) && file.pos == |file.content|
    {
      var s := sections[i];
      PlaceStep(secs, i, done, headers, end);
      if s.virtualAddress < headers {
        return Err(HeaderOverlap), end;
      }
      s.pointerToRawData := U32(end);
      TableStep(front, done, s.Value());
      file.Write(SectionHeader(s.Value()));
      done := done + [s.Value()];
      end := FileUp(end + |s.data|);
    }
    PlaceNone(secs, done, headers, end);
    ValuesAre(sections, done);
    return Ok(()), end;
  }

  function After(done: seq<Section>, rest: Result<seq<Section>>): Result<seq<Section>> {
    if rest.Err? then rest else Ok(done + rest.value)
  }

  lemma TableStart(secs: seq<Section>, headers: nat, front: seq<byte>)
    ensures secs[0..] == secs && After([], Place(secs, headers, headers)) == Place(secs, headers, headers)
    ensures front + SectionTable([]) == front
  {
    hide Place;
    if Place(secs, headers, headers).Ok? {
      assert [] + Place(secs, headers, headers).value == Place(secs, headers, headers).value;
    }
  }

  lemma PlaceStep(secs: seq<Section>, i: nat, done: seq<Section>, headers: nat, offset: nat)
    requires i < |secs|
    ensures secs[i].va < headers ==> After(done, Place(secs[i..], headers, offset)) == Err(HeaderOverlap)
    ensures secs[i].va >= headers ==>
              var next := FileUp(offset + |secs[i].data|);
              After(done, Place(secs[i..], headers, offset)) ==
              After(done + [secs[i].(ptr := U32(offset))], Place(secs[i + 1..], headers, next))
    ensures OffsetAfter(secs[i..], offset) == OffsetAfter(secs[i + 1..], FileUp(offset + |secs[i].data|))
  {
    hide FileUp, U32;
    assert secs[i..][1..] == secs[i + 1..];
    var rest := Place(secs[i + 1..], headers, FileUp(offset + |secs[i].data|));
    if secs[i].va >= headers && rest.Ok? {
      var s := secs[i].(ptr := U32(offset));
      assert done + ([s] + rest.value) == done + [s] + rest.value;
    }
  }

  lemma PlaceNone(secs: seq<Section>, done: seq<Section>, headers: nat, offset: nat)
    ensures After(done, Place(secs[|secs|..], headers, offset)) == Ok(done)
    ensures OffsetAfter(secs[|secs|..], offset) == offset
  {
    assert done + [] == done;
  }

  lemma TableStep(front: seq<byte>, done: seq<Section>, s: Section)
    ensures var f := front + SectionTable(done);
            WriteAt(f, |f|, SectionHeader(s)) == front + SectionTable(done + [s])
  {
    hide SectionHeader, WriteAt;
    AppendIsWriteAt(front + SectionTable(done), SectionHeader(s));
    assert (done + [s])[..|done|] == done;
  }

  /** write_pe's second loop: the data. */
  method WriteData(file: File, sections: seq<PeSection>)
    modifies file
    ensures file.content == WriteSections(old(file.content), Values(sections))
  {
    hide WriteAt;
    ghost var secs := Values(sections);
    assert secs[0..] == secs && secs[|secs|..] == [];
    for i := 0 to |sections|
      invariant Values(sections) == secs
      invariant WriteSections(file.content, secs[i..]) == WriteSections(old(file.content), secs)
    {
      assert secs[i..][1..] == secs[i + 1..];
      assert secs[i] == sections[i].Value();
      file.Seek(sections[i].pointerToRawData);
      file.Write(sections[i].data);
    }
    assert secs[|sections|..] == [];
  }

  /** `sorted(sections, key=lambda s: s.VirtualAddress)`. */
  method SortByAddress(sections: seq<PeSection>) returns (sorted: seq<PeSection>)
    requires Distinct(sections)
    ensures var order := Order(Vas(Values(sections)));
            sorted == Pick(sections, order) && Values(sorted) == Pick(Values(sections), order)
    ensures Distinct(sorted) && forall i | 0 <= i < |sorted| :: sorted[i] in sections
  {
    var vas := seq(|sections|, i requires 0 <= i < |sections| reads sections => sections[i].virtualAddress);
    assert vas == Vas(Values(sections));
    OrderSorts(vas);
    sorted := Pick(sections, Order(vas));
  }

  /** The objects of a sorted list have been placed: the list itself now has the pointers. */
  lemma PlacedList(sections: seq<PeSection>, sorted: seq<PeSection>, order: seq<nat>, placed: seq<Section>)
    requires IsPermutation(order) && |order| == |sections| == |placed| && sorted == Pick(sections, order)
    requires Values(sorted) == placed
    ensures Values(sections) == Unpick(placed, order)
  {
    forall k | 0 <= k < |sections|
      ensures sections[k].Value() == Unpick(placed, order)[k]
    {
      assert sorted[Rank(order, k)] == sections[k];
    }
  }

  /** Sorting the placed list finds the placed table again. */
  lemma TableOfPlaced(secs: seq<Section>, headers: nat)
    requires PlaceSorted(secs, headers).Ok?
    ensures var order := Order(Vas(secs));
            var placed := Place(Pick(secs, order), headers, headers);
            IsPermutation(order) && placed.Ok? && |placed.value| == |secs| &&
            PlaceSorted(secs, headers).value == Unpick(placed.value, order) &&
            Sorted(PlaceSorted(secs, headers).value) == placed.value
  {
    hide Order, Place;
    var order := Order(Vas(secs));
    var placed := Place(Pick(secs, order), headers, headers).value;
    OrderSorts(Vas(secs));
    PlaceKeepsShape(Pick(secs, order), headers, headers);
    var list := Unpick(placed, order);
    forall i | 0 <= i < |secs|
      ensures list[order[i]] == placed[i] && list[order[i]].va == secs[order[i]].va
    {
      UnpickAt(placed, order, i);
    }
    SameAddresses(list, secs, order);
    assert Sorted(list) == placed;
  }

  lemma SameAddresses(list: seq<Section>, secs: seq<Section>, order: seq<nat>)
    requires IsPermutation(order) && |order| == |list| == |secs|
    requires forall i | 0 <= i < |secs| :: list[order[i]].va == secs[order[i]].va
    ensures Vas(list) == Vas(secs)
  {
    forall k | 0 <= k < |secs|
      ensures list[k].va == secs[k].va
    {
      assert order[Rank(order, k)] == k;
    }
  }

  method WritePe(file: File, c: Constants, opt: PeOptionalHeader, sections: seq<PeSection>) returns (res: Result<()>)
    requires Distinct(sections)
    requires file.content == [] && file.pos == 0
    modifies file, sections
    ensures var placed := PlaceSorted(old(Values(sections)), opt.sizeOfHeaders);
            if placed.Err? then res == Err(placed.error)
            else if HeaderBytes(|sections|) > opt.sizeOfHeaders then res == Err(HeadersTooLong)
            else res == Ok(()) && file.content == FileOf(c, ImageOf(opt, placed.value))
  {
    hide Place, WriteSections, SectionTable, OffsetAfter, Resize, Optional, Coff, Order, Sorted, Unpick, Values,
         IsPermutation;
    ghost var secs, order := Values(sections), Order(Vas(Values(sections)));
    var coff := Coff(c, |sections|);
    var optional := OptionalOf(c, opt);
    WriteFrontHeaders(file, coff, optional);
    ghost var front := file.content;
    var sorted := SortByAddress(sections);
    var end: nat;
    res, end := WriteTable(file, opt.sizeOfHeaders, sorted, front);
    if res.Err? {
      return;
    }
    TableOfPlaced(secs, opt.sizeOfHeaders);
    ghost var table := Values(sorted);
    PlacedList(sections, sorted, order, table);
    assert file.content == Headers(c, ImageOf(opt, table));
    if file.pos > opt.sizeOfHeaders {
      return Err(HeadersTooLong);
    }
    PlaceKeepsData(Pick(secs, order), opt.sizeOfHeaders, opt.sizeOfHeaders);
    WriteData(file, sections);
    file.Truncate(end);
  }

  /** The optional header does not depend on the sections. */
  method OptionalOf(c: Constants, opt: PeOptionalHeader) returns (s: seq<byte>)
    ensures forall secs :: s == Optional(c, ImageOf(opt, secs))
  {
    var counts := SectionCounts(opt.baseOfCode, opt.sizeOfCode, opt.sizeOfInitializedData);
    s := Optional(c, Image([], opt.imageBase, opt.sizeOfHeaders, opt.addressOfEntryPoint, opt.sizeOfImage,
                           opt.relocAddress, opt.relocSize, counts));
  }

  lemma {:induction false} PlaceKeepsData(secs: seq<Section>, headers: nat, offset: nat)
    ensures var placed := Place(secs, headers, offset);
            placed.Ok? ==>
            |placed.value| == |secs| && forall from :: OffsetAfter(placed.value, from) == OffsetAfter(secs, from)
    decreases |secs|
  {
    hide FileUp, U32;
    if secs != [] {
      PlaceKeepsData(secs[1..], headers, FileUp(offset + |secs[0].data|));
    }
  }

  /** SizeOfImage and the base relocation directory. */
  method SetImageFields(opt: PeOptionalHeader, sections: seq<PeSection>, reloc: PeSection?)
    requires sections != []
    modifies opt`sizeOfImage, opt`relocAddress, opt`relocSize
    ensures opt.sizeOfImage == U32(NextAddress(Values(sections)))
    ensures reloc != null ==> opt.relocAddress == reloc.virtualAddress && opt.relocSize == reloc.virtualSize
    ensures reloc == null ==> opt.relocAddress == old(opt.relocAddress) && opt.relocSize == old(opt.relocSize)
  {
    hide U32, NextAddress;
    var next := NextSectionAddress(sections);
    opt.sizeOfImage := U32(next);
    if reloc != null {
      opt.relocAddress, opt.relocSize := reloc.virtualAddress, reloc.virtualSize;
    }
  }

  /** The whole tool, from the parsed ELF file to the bytes of the PE file. */
  method Elf2EfiFile(elf: Elf, imageBase: nat, minimum: int, c: Constants) returns (res: Result<seq<byte>>)
    ensures var image := Elf2Efi(elf, imageBase, minimum);
            if image.Err? then res == Err(image.error) else res == Ok(FileOf(c, image.value))
  {
    hide Convert, ConvertRelocations, FileOf, PlaceSorted, FileUp, NextAddress, U32, Tally, Values, Distinct,
         DataSize, SegmentOffset, HeaderBytes;
    var opt := new PeOptionalHeader(imageBase);
    var converted := ConvertSections(elf, opt);
    if converted.Err? {
      return Err(converted.error);
    }
    var relocated, sections, reloc := ConvertElfRelocations(elf, opt, converted.value, minimum);
    if relocated.Err? {
      return Err(relocated.error);
    }
    SetImageFields(opt, sections, reloc);
    assert ImageOf(opt, Values(sections)) == ConvertRelocations(elf, Convert(elf).value, imageBase, minimum).value;
    var file := new File();
    var written := WritePe(file, c, opt, sections);
    if written.Err? {
      return Err(written.error);
    }
    return Ok(file.content);
  }

  /** For every file whose section addresses fit, the list is in address order already. */
  lemma FittingImagesAreInOrder(elf: Elf, imageBase: nat, minimum: int)
    requires Layout.InReach(elf, minimum) && Layout.GoodRelocs(elf)
    requires ConvertRelocations(elf, Convert(elf).value, imageBase, minimum).Ok?
    ensures var secs := ConvertRelocations(elf, Convert(elf).value, imageBase, minimum).value.sections;
            Sorted(secs) == secs
  {
    hide Convert, ConvertRelocations, Layout.GoodRelocs, Layout.Assembled, Layout.InReach, Disjoint, Sorted;
    Layout.ConvertInOrder(elf, minimum);
    var image := ConvertRelocations(elf, Convert(elf).value, imageBase, minimum).value;
    var relocated := Layout.Assemble(elf, imageBase, minimum);
    Layout.AssembledDisjoint(elf, minimum, relocated, image);
    Layout.PlacedInOrder(image);
  }
}
