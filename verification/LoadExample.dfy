/** An ELF file with a relocation that meets everything LoadEquivalence asks for. */
module LoadExample {
  import opened Bytes
  import opened ElfModel
  import opened Coalesce
  import opened RelocBlocks
  import opened Relocate
  import opened PeImage
  import opened Layout
  import opened PeFile
  import opened Loader
  import opened LoadEquivalence

  const POINTER_BYTES: seq<byte> := [0, 0, 0, 0, 0, 0, 0, 0]
  const DATA_SECTION := ElfSection(".data", "SHT_PROGBITS", SHF_ALLOC + SHF_WRITE, 0x1000, POINTER_BYTES, {})
  const SELF := ElfModel.Reloc(0x1000, 8, true, 0x1000)

  /** One writable section holding one word that a RELA relocation sets to its own address. */
  const SELF_POINTER := Elf([], [DATA_SECTION], 0x1000, true, [true], None, [RelocTable("RELA", [SELF])], 0, 8)

  lemma ExampleRetained()
    ensures Retained(DATA_SECTION) && KnownType(DATA_SECTION.shType) && FindRelro([]) == Ok(None)
  {
    assert HasFlag(3, SHF_ALLOC);
  }

  lemma ExampleSection()
    ensures Convert(SELF_POINTER).Ok? && |Convert(SELF_POINTER).value| == 1 && Below4G(SELF_POINTER.sections)
    ensures var s := Convert(SELF_POINTER).value[0]; s.va == 0x1000 && |s.data| == 8
  {
    hide Convert, FindRelro, Retained, KnownType, Permissions, NameOf, FileUp;
    ExampleRetained();
    LoneSection(SELF_POINTER, DATA_SECTION);
  }

  lemma ExampleRelatives()
    ensures AllRelatives(SELF_POINTER.tables, SELF_POINTER) == [SELF] && Offsets([SELF]) == [0x1000]
  {
    assert [SELF][1..] == [] && Relatives([], SELF_POINTER) == [];
    assert Relatives([SELF], SELF_POINTER) == [SELF];
    assert SELF_POINTER.tables[1..] == [] && AllRelatives([], SELF_POINTER) == [];
  }

  lemma ExampleBlocks()
    ensures |RelocData([0x1000], 0)| == 12
  {
    hide RelocData, ToLe;
    OneRelocation(0x1000, 0);
  }

  lemma ExampleFits()
    ensures Fits(SELF_POINTER, 0)
  {
    hide Convert, AllRelatives, RelocData, Below4G;
    ExampleSection();
    ExampleRelatives();
    ExampleBlocks();
    var secs := Convert(SELF_POINTER).value;
    assert ExactHeaders(1, 0) == FileUp(HeaderBytes(2)) < 0x1000;
    assert SegmentOffset(0x1000, HeaderSize(1, 0)) == 0;
    assert RelocStart(secs, 0) < 0x4000;
    assert RelocBytes(SELF_POINTER, secs, 0) == RelocData([0x1000], 0);
  }

  lemma ExampleRelocs()
    ensures GoodRelocs(SELF_POINTER)
  {
    hide Retained, AllRelatives;
    ExampleRetained();
    ExampleRelatives();
    assert SELF_POINTER.sections[0] == DATA_SECTION;
    assert WordRetained(SELF_POINTER, 0x1000);
  }

  /** The assumptions of load equivalence hold of this file, for any 32-bit image base. */
  lemma ExampleIsAccepted(imageBase: nat)
    requires imageBase < TWO_32
    ensures Fits(SELF_POINTER, 0) && GoodRelocs(SELF_POINTER) && Countable(SELF_POINTER)
    ensures Elf2Efi(SELF_POINTER, imageBase, 0).Ok?
  {
    hide Fits, GoodRelocs, Elf2Efi, Convert, Finish, AllRelatives;
    ExampleFits();
    ExampleRelocs();
    ExampleSection();
    var secs := Convert(SELF_POINTER).value;
    ExampleConverts(secs, imageBase);
    LayoutInvariant(SELF_POINTER, imageBase, 0);
  }

  lemma ExampleTables(secs: seq<Section>, base: nat)
    requires |secs| == 1 && secs[0].va == 0x1000 && |secs[0].data| == 8 && base + 0x1000 < TWO_64
    ensures ConvertTables(State(secs, map[]), SELF_POINTER.tables, base, SELF_POINTER).Ok?
  {
    hide RecordAll, Record, ToLe;
    var st := State(secs, map[]);
    assert secs[..0] == [] && Targets([], 0x1000) == [];
    assert Targets(secs, 0x1000) == [0];
    assert ConvertReloc(st, SELF, base, SELF_POINTER).Ok?;
    assert [SELF][1..] == [];
    assert ConvertTable(st, [SELF], base, SELF_POINTER).Ok?;
    assert SELF_POINTER.tables[1..] == [];
  }

  lemma ExampleConverts(secs: seq<Section>, imageBase: nat)
    requires |secs| == 1 && secs[0].va == 0x1000 && |secs[0].data| == 8 && imageBase < TWO_32
    ensures ConvertRelocations(SELF_POINTER, secs, imageBase, 0).Ok?
  {
    hide Finish, ConvertTables, SegmentOffset, HeaderSize, Tally;
    ExampleTables(secs, imageBase + SegmentOffset(secs[0].va, HeaderSize(|secs|, 0)));
  }

  /** Loaded at any base, the word of the example holds its own address. */
  lemma ExampleLoads(imageBase: nat, c: Constants, base: nat, i: nat)
    requires imageBase < TWO_32 && i < 8
    ensures Fits(SELF_POINTER, 0) && Elf2Efi(SELF_POINTER, imageBase, 0).Ok?
    ensures var mem := LoadPe(FileOf(c, Elf2Efi(SELF_POINTER, imageBase, 0).value), base);
            var at := 0x1000 + Shift32(SELF_POINTER, 0);
            mem.Some? && at + i < |mem.value| && mem.value[at + i] == ToLe((base + at) % TWO_64, 8)[i]
  {
    hide Fits, GoodRelocs, Countable, Elf2Efi, Convert, Finish, Retained, AllRelatives, ToLe, Shift32, LoadPe, FileOf;
    ExampleIsAccepted(imageBase);
    ExampleRetained();
    ExampleRelatives();
    assert FindCover([SELF], 0x1000 + i) == Some(SELF);
    LoadEquivalence.LoadEquivalence(SELF_POINTER, imageBase, 0, c, base, 0, 0x1000 + i);
  }
}
