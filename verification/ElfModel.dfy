/** The parts of an ELF file that tools/elf2efi.py reads, after pyelftools has
    parsed them, and the errors the conversion can raise. */
module ElfModel {
  import opened Bytes

  datatype Error =
    | SegmentMisaligned
    | UnknownSectionType
    | NegativePadding
    | SectionsOverlap
    | NoDynamicSection
    | BadFlagsTag
    | NotPie
    | UnexpectedImageBase
    | NoSections
    | UnsupportedTable
    | UnsupportedRelocation
    | NoUniqueTarget
    | ValueOverflow
    | HeaderOverlap
    | HeadersTooLong

  datatype Result<+T> = Ok(value: T) | Err(error: Error)

  datatype Option<+T> = None | Some(value: T)

  /** `segments` holds the indices of the program headers that contain the section. */
  datatype ElfSection = ElfSection(name: string, shType: string, flags: nat, addr: nat,
                                   data: seq<byte>, segments: set<nat>)

  datatype ElfSegment = ElfSegment(pType: string, pAlign: nat)

  /** `addend` is meaningful only when `rela` holds. */
  datatype Reloc = Reloc(offset: nat, rType: nat, rela: bool, addend: int)

  datatype RelocTable = RelocTable(kind: string, relocs: seq<Reloc>)

  /** `flags1` lists, per DT_FLAGS_1 tag, whether DF_1_PIE is set; `start` is the
      value of the symbol __executable_start, if there is one. */
  datatype Elf = Elf(segments: seq<ElfSegment>, sections: seq<ElfSection>, entry: nat,
                     hasDynamic: bool, flags1: seq<bool>, start: Option<nat>,
                     tables: seq<RelocTable>, noneType: nat, relativeType: nat)

  const SHF_WRITE: nat := 1
  const SHF_ALLOC: nat := 2
  const SHF_EXECINSTR: nat := 4

  predicate HasFlag(flags: nat, bit: nat)
    requires bit > 0
  {
    flags / bit % 2 == 1
  }

  const RX: nat := 0x60000020
  const RW: nat := 0xC0000040
  const RO: nat := 0x40000040

  const IGNORE_SECTIONS: seq<string> := [".eh_frame", ".eh_frame_hdr", ".ARM.exidx", ".relro_padding"]

  const IGNORE_SECTION_TYPES: seq<string> :=
    ["SHT_DYNAMIC", "SHT_DYNSYM", "SHT_GNU_ATTRIBUTES", "SHT_GNU_HASH", "SHT_HASH", "SHT_NOTE",
     "SHT_REL", "SHT_RELA", "SHT_RELR", "SHT_STRTAB", "SHT_SYMTAB"]

  /** The section is copied into the image. */
  predicate Retained(e: ElfSection) {
    HasFlag(e.flags, SHF_ALLOC) &&
    e.shType !in IGNORE_SECTION_TYPES &&
    e.name !in IGNORE_SECTIONS &&
    e.data != []
  }

  /** `relro` is the index of the PT_GNU_RELRO segment in force. */
  function Permissions(e: ElfSection, relro: Option<nat>): nat {
    if relro.Some? && relro.value in e.segments then RO
    else if HasFlag(e.flags, SHF_EXECINSTR) then RX
    else if HasFlag(e.flags, SHF_WRITE) then RW
    else RO
  }

  /** Address `a` belongs to the ELF section `e`. */
  predicate Inside(e: ElfSection, a: nat) {
    e.addr <= a < e.addr + |e.data|
  }
}
