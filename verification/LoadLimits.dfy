/** Load equivalence holds of exactly those accepted files whose whole image fits in 32 bits. */
module LoadLimits {
  import opened Bytes
  import opened ElfModel
  import opened Coalesce
  import opened Relocate
  import opened PeImage
  import opened Layout
  import opened LayoutLimits
  import opened PeFile
  import opened Loader
  import opened LoadEquivalence

  /** The byte at link address `a` is found `d` bytes further up in the loaded memory, as it is
      in the ELF file loaded with bias `bias`. */
  predicate LoadedAt(elf: Elf, mem: Option<Memory>, bias: nat, d: nat, a: nat) {
    mem.Some? && a + d < |mem.value| && mem.value[a + d] == ElfLoaded(elf, bias, a)
  }

  /** Every byte of every retained section is. */
  ghost predicate LoadedAs(elf: Elf, mem: Option<Memory>, bias: nat, d: nat) {
    forall i, a: nat | 0 <= i < |elf.sections| && Retained(elf.sections[i]) && Inside(elf.sections[i], a) ::
      LoadedAt(elf, mem, bias, d, a)
  }

  /** The written file announces SizeOfImage, whatever its value. */
  lemma LoadedSize(f: seq<byte>, c: Constants, image: Image, base: nat)
    requires FieldsFit(image) && Headers(c, image) <= f
    ensures LoadPe(f, base).Some? ==> |LoadPe(f, base).value| == image.sizeOfImage
  {
    hide Headers, Field, MapSections, Relocated, ReadRelocations, ReadAlignments;
    ReadBackHeaders(f, c, image);
  }

  /** Of an image whose section headers are exact the headers are in the file, even when
      SizeOfImage has been cut. */
  lemma LoadedInReach(elf: Elf, imageBase: nat, minimum: int, c: Constants, base: nat)
    requires InReach(elf, minimum) && GoodRelocs(elf) && Countable(elf) && imageBase < TWO_64
    requires Elf2Efi(elf, imageBase, minimum).Ok?
    ensures var mem := LoadPe(FileOf(c, Elf2Efi(elf, imageBase, minimum).value), base);
            mem.Some? ==> |mem.value| == U32(ImageSize(elf, Convert(elf).value, minimum))
  {
    hide InReach, GoodRelocs, Elf2Efi, ConvertRelocations, Convert, Assembled, PlaceSorted, FileOf, LoadPe, FieldsFit,
         ImageSize, Headers, U32, Countable, OnlyPtrs, HeaderBytes, RawChain, RawDisjoint, RawAligned, Disjoint;
    var image := Accepted(elf, imageBase, minimum);
    var placed := Elf2Efi(elf, imageBase, minimum).value;
    var relocated := Assemble(elf, imageBase, minimum);
    PlacedImage(elf, minimum, relocated, image);
    Elf2EfiIs(elf, imageBase, minimum);
    FieldsAreSmall(elf, minimum, relocated, image);
    PlacedFields(image, placed);
    SameCount(image.sections, placed.sections);
    FileContains(c, placed);
    LoadedSize(FileOf(c, placed), c, placed, base);
    SizeIsCut(elf, minimum, relocated, image);
  }

  lemma SameCount(a: seq<Section>, b: seq<Section>)
    requires OnlyPtrs(a, b)
    ensures |a| == |b|
  {
  }

  /** If the image does not fit, the loaded memory ends before the last retained byte. */
  lemma LastByteMissing(elf: Elf, imageBase: nat, minimum: int, c: Constants, base: nat) returns (i: nat, a: nat)
    requires GoodRelocs(elf) && Countable(elf) && imageBase < TWO_64 && Elf2Efi(elf, imageBase, minimum).Ok?
    requires !Fits(elf, minimum)
    ensures i < |elf.sections| && Retained(elf.sections[i]) && Inside(elf.sections[i], a)
    ensures Convert(elf).Ok? && Convert(elf).value != []
    ensures var mem := LoadPe(FileOf(c, Elf2Efi(elf, imageBase, minimum).value), base);
            mem.Some? ==> |mem.value| <= a + Shift32(elf, minimum)
  {
    hide GoodRelocs, Countable, Elf2Efi, Convert, FileOf, LoadPe, InReach, ImageSize, Fits, U32, HeaderSize,
         SegmentOffset, ConvertRelocations, PlaceSorted, HeaderBytes;
    var image := Accepted(elf, imageBase, minimum);
    LoadedBelow4G(FileOf(c, Elf2Efi(elf, imageBase, minimum).value), base);
    var secs := Convert(elf).value;
    if Below4G(elf.sections) {
      i := SectionEnd(elf, |secs| - 1);
      if ImageEnd(secs, minimum) < TWO_32 {
        AcceptedInReach(elf, imageBase, minimum);
        CutSizeTooSmall(elf, minimum);
        LoadedInReach(elf, imageBase, minimum, c, base);
      }
    } else {
      i :| 0 <= i < |elf.sections| && Retained(elf.sections[i]) &&
           elf.sections[i].addr + |elf.sections[i].data| >= TWO_32;
    }
    a := elf.sections[i].addr + |elf.sections[i].data| - 1;
  }

  /** The exact condition for load equivalence. Take any accepted ELF file whose relocation words
      are disjoint and inside retained sections, and load the converted file at any base: every
      byte of every retained section is there if and only if the addresses of the file and of the
      whole image fit in 32 bits. */
  lemma LoadEquivalenceExactly(elf: Elf, imageBase: nat, minimum: int, c: Constants, base: nat)
    requires GoodRelocs(elf) && Countable(elf) && imageBase < TWO_64 && Elf2Efi(elf, imageBase, minimum).Ok?
    ensures Convert(elf).Ok? && Convert(elf).value != []
    ensures var mem := LoadPe(FileOf(c, Elf2Efi(elf, imageBase, minimum).value), base);
            var d := Shift32(elf, minimum);
            LoadedAs(elf, mem, base + d, d) <==> Fits(elf, minimum)
  {
    hide GoodRelocs, Countable, Elf2Efi, Convert, FileOf, LoadPe, Fits, Shift32, ElfLoaded, ConvertRelocations,
         PlaceSorted, HeaderBytes, HeaderSize, Retained, OnlyPtrs;
    var image := Accepted(elf, imageBase, minimum);
    var mem := LoadPe(FileOf(c, Elf2Efi(elf, imageBase, minimum).value), base);
    var d := Shift32(elf, minimum);
    if Fits(elf, minimum) {
      forall i, a: nat | 0 <= i < |elf.sections| && Retained(elf.sections[i]) && Inside(elf.sections[i], a)
        ensures LoadedAt(elf, mem, base + d, d, a)
      {
        LoadEquivalence.LoadEquivalence(elf, imageBase, minimum, c, base, i, a);
      }
    } else {
      var i, a := LastByteMissing(elf, imageBase, minimum, c, base);
      assert !LoadedAt(elf, mem, base + d, d, a);
    }
  }

  // ----- a file below 4 GiB whose image ends above -----

  const CODE := ElfSection(".text", "SHT_PROGBITS", SHF_ALLOC + SHF_EXECINSTR, 0, [0xC3], {})
  const HIGH_DATA := ElfSection(".data", "SHT_PROGBITS", SHF_ALLOC + SHF_WRITE, 0xFFFF_D000, Zeros(0x2800), {})

  /** Code at 0, so that everything moves up by a page, and data that ends less than a page
      below 4 GiB; no relocations. */
  const HIGH_FILE := Elf([], [CODE, HIGH_DATA], 0, true, [true], None, [], 0, 8)

  lemma HighFileRetained()
    ensures Retained(CODE) && KnownType(CODE.shType) && Permissions(CODE, None) == RX
    ensures Retained(HIGH_DATA) && KnownType(HIGH_DATA.shType) && Permissions(HIGH_DATA, None) == RW
  {
    assert HasFlag(6, SHF_ALLOC) && HasFlag(6, SHF_EXECINSTR);
    assert HasFlag(3, SHF_ALLOC) && !HasFlag(3, SHF_EXECINSTR) && HasFlag(3, SHF_WRITE);
  }

  lemma HighFileRuns()
    ensures Runs(HIGH_FILE.sections, None) == Ok([Run(0, RX, [0xC3]), Run(0xFFFF_D000, RW, Zeros(0x2800))])
  {
    hide Retained, KnownType, Permissions, Zeros;
    HighFileRetained();
    var es, code := HIGH_FILE.sections, Run(0, RX, [0xC3]);
    assert es[..1] == [CODE] && [CODE][..0] == [];
    assert Runs([CODE], None) == AddSection([], CODE, None) == Ok([] + [code]);
    assert [] + [code] == [code];
    var data := Run(0xFFFF_D000, RW, HIGH_DATA.data);
    assert es[1] == HIGH_DATA && [code] + [data] == [code, data];
    assert AddSection([code], HIGH_DATA, None) == Ok([code] + [data]);
    assert Runs(es, None) == AddSection([code], HIGH_DATA, None);
  }

  lemma AlignedRun(run: Run)
    requires run.va % 4096 == 0 && |run.data| < TWO_32
    ensures Pad(run).va == run.va && |Pad(run).data| == Pad(run).vsize == |run.data|
  {
    hide FileUp, NameOf, PageDown;
  }

  lemma HighFileConverts()
    ensures Convert(HIGH_FILE).Ok? && |Convert(HIGH_FILE).value| == 2
    ensures var secs := Convert(HIGH_FILE).value;
            secs[0].va == 0 && |secs[0].data| == 1 && secs[1].va == 0xFFFF_D000 &&
            |secs[1].data| == secs[1].vsize == 0x2800
  {
    hide Retained, Zeros, Pad, Runs;
    HighFileRuns();
    var code, data := Run(0, RX, [0xC3]), Run(0xFFFF_D000, RW, Zeros(0x2800));
    AlignedRun(code);
    AlignedRun(data);
    assert FindRelro([]) == Ok(None);
    assert [code, data][..1] == [code] && [code][..0] == [];
    assert PadAll([code]) == Ok([] + [Pad(code)]);
    assert PadAll([code, data]) == Ok([] + [Pad(code)] + [Pad(data)]);
  }

  lemma HighFileRelocs()
    ensures AllRelatives(HIGH_FILE.tables, HIGH_FILE) == [] && GoodRelocs(HIGH_FILE)
    ensures Below4G(HIGH_FILE.sections)
  {
    hide Retained;
    forall i | 0 <= i < 2
      ensures HIGH_FILE.sections[i].addr + |HIGH_FILE.sections[i].data| < TWO_32
    {
    }
  }

  lemma HighFileHeaders()
    ensures HeaderSize(2, 0) == 512 && SegmentOffset(0, 512) == 4096
  {
    hide FileUp, PageUp;
    assert FileUp(448) == 512 && PageUp(512) == 4096;
  }

  lemma HighFileMoved(secs: seq<Section>, imageBase: nat)
    requires |secs| == 2 && secs[0].va == 0 && secs[1].va == 0xFFFF_D000 && secs[1].vsize == 0x2800
    ensures var image := ConvertRelocations(HIGH_FILE, secs, imageBase, 0);
            image.Ok? && |image.value.sections| == 2 && image.value.sizeOfHeaders == 512 &&
            image.value.sections[0].va == 0x1000 && image.value.sections[1].va == 0xFFFF_E000 &&
            image.value.sizeOfImage == 0x1000
  {
    hide HeaderSize, SegmentOffset, Tally, PageUp, FileUp;
    HighFileHeaders();
    assert ConvertTables(State(secs, map[]), [], imageBase + 4096, HIGH_FILE) == Ok(State(secs, map[]));
    assert PageUp(0xFFFF_E000 + 0x2800) == 0x1_0000_1000;
  }

  /** The file is accepted, every address of it and of its sections fits, and its SizeOfImage is
      cut to one page: all of the data lies outside the image. */
  lemma HighFileIsCut(imageBase: nat)
    ensures Below4G(HIGH_FILE.sections) && GoodRelocs(HIGH_FILE) && Countable(HIGH_FILE)
    ensures Elf2Efi(HIGH_FILE, imageBase, 0).Ok?
    ensures var image := Elf2Efi(HIGH_FILE, imageBase, 0).value;
            image.sizeOfImage == 0x1000 && |image.sections| == 2 && image.sections[1].va == 0xFFFF_E000
  {
    hide Convert, ConvertRelocations, GoodRelocs, Below4G, AllRelatives, PlaceSorted;
    HighFileRelocs();
    HighFileConverts();
    HighFileMoved(Convert(HIGH_FILE).value, imageBase);
    var image := ConvertRelocations(HIGH_FILE, Convert(HIGH_FILE).value, imageBase, 0).value;
    PlaceSortedKeeps(image.sections, image.sizeOfHeaders);
  }

  /** Loaded at any base it shows less than its retained sections. */
  lemma HighFileIsLost(imageBase: nat, c: Constants, base: nat)
    requires imageBase < TWO_64
    ensures Elf2Efi(HIGH_FILE, imageBase, 0).Ok? && Convert(HIGH_FILE).Ok? && Convert(HIGH_FILE).value != []
    ensures var d := Shift32(HIGH_FILE, 0);
            !LoadedAs(HIGH_FILE, LoadPe(FileOf(c, Elf2Efi(HIGH_FILE, imageBase, 0).value), base), base + d, d)
  {
    hide Convert, GoodRelocs, Elf2Efi, Shift32, LoadPe, FileOf, LoadedAs, Countable, Fits, LaidOut;
    HighFileIsCut(imageBase);
    LaidOutExactly(HIGH_FILE, imageBase, 0);
    LoadEquivalenceExactly(HIGH_FILE, imageBase, 0, c, base);
    assert !LaidOut(Elf2Efi(HIGH_FILE, imageBase, 0).value) by {
      OutsideImage(Elf2Efi(HIGH_FILE, imageBase, 0).value, 1);
    }
  }

  lemma OutsideImage(image: Image, k: nat)
    requires k < |image.sections| && image.sections[k].va >= image.sizeOfImage
    ensures !LaidOut(image)
  {
    hide FileUp, Disjoint, RawAligned, RawChain, RawDisjoint;
    assert InBounds(image) ==> SectionOk(image.sections[k], image.sizeOfHeaders, image.sizeOfImage);
  }
}
