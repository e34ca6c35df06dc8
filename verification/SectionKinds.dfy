/** Which ELF sections are copied, and what access the copy allows: the bits of the ELF flags
    against those of the PE characteristics (tools/elf2efi.py:259-311). */
module SectionKinds {
  import opened Bytes
  import opened ElfModel
  import opened Coalesce

  /** `bit` is a power of two. */
  predicate Bit(x: nat, bit: nat)
    requires bit > 0
  {
    x / bit % 2 == 1
  }

  predicate IsRelro(s: ElfSegment) {
    s.pType == "PT_GNU_RELRO"
  }

  predicate LastRelro(segs: seq<ElfSegment>, r: nat) {
    r < |segs| && IsRelro(segs[r]) && forall i | r < i < |segs| :: !IsRelro(segs[i])
  }

  /** The section lies in the last PT_GNU_RELRO segment. */
  predicate InRelro(segs: seq<ElfSegment>, e: ElfSection) {
    exists r | 0 <= r < |segs| :: LastRelro(segs, r) && r in e.segments
  }

  /** The segment loop: every PT_LOAD segment is aligned, and the last PT_GNU_RELRO counts. */
  lemma {:induction false} SegmentsFound(segs: seq<ElfSegment>)
    requires FindRelro(segs).Ok?
    ensures forall i | 0 <= i < |segs| && segs[i].pType == "PT_LOAD" :: segs[i].pAlign % 4096 == 0
    ensures var r := FindRelro(segs).value;
            if r.Some? then LastRelro(segs, r.value) else forall i | 0 <= i < |segs| :: !IsRelro(segs[i])
  {
    if segs != [] {
      SegmentsFound(segs[..|segs| - 1]);
    }
  }

  lemma RelroIs(segs: seq<ElfSegment>, e: ElfSection)
    requires FindRelro(segs).Ok?
    ensures var r := FindRelro(segs).value; InRelro(segs, e) <==> r.Some? && r.value in e.segments
  {
    hide FindRelro;
    SegmentsFound(segs);
    if r: nat :| r < |segs| && LastRelro(segs, r) && r in e.segments {
      assert IsRelro(segs[r]);
    }
  }

  /** Allocated, not empty, program or zero data, and not one of the four ignored by name. */
  predicate Copied(e: ElfSection) {
    Bit(e.flags, 2) && e.data != [] && (e.shType == "SHT_PROGBITS" || e.shType == "SHT_NOBITS") &&
    e.name != ".eh_frame" && e.name != ".eh_frame_hdr" && e.name != ".ARM.exidx" && e.name != ".relro_padding"
  }

  lemma {:induction false} KnownWhenRetained(es: seq<ElfSection>, relro: Option<nat>, i: nat)
    requires Runs(es, relro).Ok? && i < |es| && Retained(es[i])
    ensures KnownType(es[i].shType)
  {
    hide Retained, KnownType, Extend;
    if i < |es| - 1 {
      KnownWhenRetained(es[..|es| - 1], relro, i);
    }
  }

  /** In an accepted file the sections that are copied are exactly these; any other section
      that is not ignored by type is an error. */
  lemma RetainedAreCopied(elf: Elf, i: nat)
    requires Convert(elf).Ok? && i < |elf.sections|
    ensures Retained(elf.sections[i]) <==> Copied(elf.sections[i])
  {
    hide Runs, FindRelro, PadAll;
    var e := elf.sections[i];
    if Retained(e) {
      KnownWhenRetained(elf.sections, FindRelro(elf.segments).value, i);
    }
  }

  /** Sections of these eleven types, and those that are not allocated, empty or ignored by
      name, make no difference. */
  lemma SkippedSection(es: seq<ElfSection>, e: ElfSection, relro: Option<nat>)
    requires !Bit(e.flags, 2) || e.data == [] ||
             e.name in [".eh_frame", ".eh_frame_hdr", ".ARM.exidx", ".relro_padding"] ||
             e.shType in ["SHT_DYNAMIC", "SHT_DYNSYM", "SHT_GNU_ATTRIBUTES", "SHT_GNU_HASH", "SHT_HASH", "SHT_NOTE",
                          "SHT_REL", "SHT_RELA", "SHT_RELR", "SHT_STRTAB", "SHT_SYMTAB"]
    ensures Runs(es + [e], relro) == Runs(es, relro)
  {
    assert (es + [e])[..|es|] == es;
  }

  /** What a copied section allows, execution before writing, and neither in the last
      PT_GNU_RELRO segment. */
  predicate MayWrite(e: ElfSection, relro: bool) {
    Bit(e.flags, 1) && !Bit(e.flags, 4) && !relro
  }

  predicate MayExecute(e: ElfSection, relro: bool) {
    Bit(e.flags, 4) && !relro
  }

  /** The characteristics: always readable, writable and executable as above. The content flags
      follow. */
  predicate AccessOf(perms: nat, e: ElfSection, relro: bool) {
    var w, x := MayWrite(e, relro), MayExecute(e, relro);
    Bit(perms, 0x4000_0000) && (Bit(perms, 0x8000_0000) <==> w) && (Bit(perms, 0x2000_0000) <==> x) &&
    (Bit(perms, 0x20) <==> x) && (Bit(perms, 0x40) <==> !x) && perms < TWO_32
  }

  /** The name says which access there is. */
  predicate NamedByAccess(s: Section) {
    s.name ==
    if Bit(s.perms, 0x2000_0000) then ".text" else if Bit(s.perms, 0x8000_0000) then ".data" else ".rodata"
  }

  lemma PermissionBits(elf: Elf, e: ElfSection, s: Section)
    requires FindRelro(elf.segments).Ok?
    requires s.perms == Permissions(e, FindRelro(elf.segments).value) && s.name == NameOf(s.perms)
    ensures AccessOf(s.perms, e, InRelro(elf.segments, e)) && NamedByAccess(s)
  {
    hide FindRelro, InRelro;
    RelroIs(elf.segments, e);
  }

  lemma NamedByPermissions(elf: Elf, k: nat)
    requires Convert(elf).Ok? && k < |Convert(elf).value|
    ensures var s := Convert(elf).value[k]; s.name == NameOf(s.perms)
  {
    hide Runs, FindRelro, FileUp, PageDown, NameOf;
    PadAllShape(Runs(elf.sections, FindRelro(elf.segments).value).value);
  }

  /** Every byte of every copied section lies in exactly one output section, at its own address,
      and that section allows what the ELF section allows. */
  lemma CopiedWithItsAccess(elf: Elf, i: nat, a: nat) returns (k: nat)
    requires Convert(elf).Ok? && Below4G(elf.sections)
    requires i < |elf.sections| && Copied(elf.sections[i]) && Inside(elf.sections[i], a)
    ensures k < |Convert(elf).value|
    ensures var s, e := Convert(elf).value[k], elf.sections[i];
            s.Covers(a) && s.At(a) == e.data[a - e.addr] && AccessOf(s.perms, e, InRelro(elf.segments, e)) &&
            NamedByAccess(s)
    ensures forall l | 0 <= l < |Convert(elf).value| && Convert(elf).value[l].Covers(a) :: l == k
  {
    hide Convert, Retained, Copied, Permissions, Below4G, AccessOf, NamedByAccess, InRelro;
    RetainedAreCopied(elf, i);
    k := RetainedBytesKeepTheirAddress(elf, i, a);
    NamedByPermissions(elf, k);
    FindRelroOk(elf);
    PermissionBits(elf, elf.sections[i], Convert(elf).value[k]);
  }

  // ----- what is merged -----

  /** Sections of equal access that follow each other are merged. */
  lemma {:induction false} RunsAlternate(es: seq<ElfSection>, relro: Option<nat>, k: nat)
    requires Runs(es, relro).Ok? && 0 < k < |Runs(es, relro).value|
    ensures Runs(es, relro).value[k].perms != Runs(es, relro).value[k - 1].perms
  {
    hide Retained, KnownType, Permissions;
    var n := |es| - 1;
    if k < |Runs(es[..n], relro).value| {
      RunsAlternate(es[..n], relro, k);
    }
  }

  /** A run starts where some retained section starts. */
  lemma {:induction false} RunStart(es: seq<ElfSection>, relro: Option<nat>, k: nat) returns (i: nat)
    requires Below4G(es) && Runs(es, relro).Ok? && k < |Runs(es, relro).value|
    ensures i < |es| && Retained(es[i]) && Runs(es, relro).value[k].va == es[i].addr
  {
    hide KnownType, Permissions, Retained;
    var n := |es| - 1;
    if k < |Runs(es[..n], relro).value| {
      i := RunStart(es[..n], relro, k);
    } else {
      i := n;
      OwnAddress(es, n);
    }
  }

  lemma OwnAddress(es: seq<ElfSection>, i: nat)
    requires Below4G(es) && i < |es| && Retained(es[i])
    ensures U32(es[i].addr) == es[i].addr
  {
  }

  /** No more sections than needed, and none reaches further down than its page: neighbours
      differ in permissions, and each output section starts in the page in which some copied
      section starts. */
  lemma SectionsAreFew(elf: Elf, k: nat) returns (i: nat)
    requires Convert(elf).Ok? && Below4G(elf.sections) && k < |Convert(elf).value|
    ensures k > 0 ==> Convert(elf).value[k].perms != Convert(elf).value[k - 1].perms
    ensures i < |elf.sections| && Copied(elf.sections[i])
    ensures Convert(elf).value[k].va <= elf.sections[i].addr < Convert(elf).value[k].va + 4096
  {
    hide Runs, FindRelro, FileUp, PageDown, NameOf, Retained, Copied, Below4G;
    var relro := FindRelro(elf.segments).value;
    PadAllShape(Runs(elf.sections, relro).value);
    if k > 0 {
      RunsAlternate(elf.sections, relro, k);
    }
    i := RunStart(elf.sections, relro, k);
    RetainedAreCopied(elf, i);
  }

  lemma FindRelroOk(elf: Elf)
    requires Convert(elf).Ok?
    ensures FindRelro(elf.segments).Ok?
  {
  }
}
