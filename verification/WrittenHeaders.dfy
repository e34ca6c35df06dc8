/** What the headers of a converted file say about the ELF file: the entry point, the counters of
    code and data, and the room for the section table (tools/elf2efi.py:342-349,
    tools/elf2efi.py:477-497, tools/elf2efi.py:541-542). */
module WrittenHeaders {
  import opened Bytes
  import opened ElfModel
  import opened Coalesce
  import opened Relocate
  import opened RelocBlocks
  import opened PeImage
  import opened Layout
  import opened PeFile
  import opened Loader
  import opened LoadEquivalence
  import opened HeaderFields
  import opened SectionKinds
  import RelocFormat

  /** The file of an accepted ELF file that fits: its headers are in front, and its sections
      are those of the assembled image. */
  lemma WrittenFile(elf: Elf, imageBase: nat, minimum: int, c: Constants)
    returns (relocated: seq<Section>, image: Image)
    requires Fits(elf, minimum) && GoodRelocs(elf) && Countable(elf) && imageBase < TWO_64
    requires Elf2Efi(elf, imageBase, minimum).Ok?
    ensures Assembled(elf, minimum, relocated, image)
    ensures var placed := Elf2Efi(elf, imageBase, minimum).value;
            placed == image.(sections := placed.sections) && OnlyPtrs(image.sections, placed.sections) &&
            FieldsFit(placed) && LaidOut(placed) && Contains(FileOf(c, placed), c, placed) &&
            Headers(c, placed) <= FileOf(c, placed)
  {
    hide Convert, Elf2Efi, GoodRelocs, Fits, Assembled, InReach, FileOf, Countable, OnlyPtrs, FieldsFit, LaidOut,
         Written, Shift32;
    relocated, image := Build(elf, imageBase, minimum);
    var placed := Elf2Efi(elf, imageBase, minimum).value;
    FitsInReach(elf, minimum);
    FieldsAreSmall(elf, minimum, relocated, image);
    PlacedFields(image, placed);
    LaidOutIsWritten(placed);
    FileContains(c, placed);
  }

  // ----- the entry point -----

  lemma EntryField(elf: Elf, minimum: int, relocated: seq<Section>, image: Image)
    requires Convert(elf).Ok? && Convert(elf).value != [] && Assembled(elf, minimum, relocated, image)
    ensures image.entry == (elf.entry + Shift32(elf, minimum)) % TWO_32
  {
    hide Convert, AllRelatives, RelocBytes, ApplyAll, SameShape, RelocStart, ImageSize, Shift32, Adjusted;
  }

  lemma FitsFacts(elf: Elf, minimum: int)
    requires Fits(elf, minimum)
    ensures Convert(elf).Ok? && Convert(elf).value != [] && Below4G(elf.sections)
  {
  }

  lemma EntryRead(f: seq<byte>, c: Constants, image: Image)
    requires FieldsFit(image) && Headers(c, image) <= f
    ensures HasHeaders(f) && EntryPoint(f) == image.entry % TWO_32
  {
    hide Headers, Field, OptionalStart, Announces, HasHeaders, OptionalHeaderAt, Coff, Versions, Environment;
    ReadBackHeaders(f, c, image);
    PartsInFile(f, c, image);
    StartInFile(f, image);
  }

  /** The entry point a loader finds is that of the ELF file, seen from the same base: exactly
      when the moved address fits its field. */
  lemma EntryFollows(elf: Elf, imageBase: nat, minimum: int, c: Constants, base: nat)
    requires Fits(elf, minimum) && GoodRelocs(elf) && Countable(elf) && imageBase < TWO_64
    requires Elf2Efi(elf, imageBase, minimum).Ok?
    ensures HasHeaders(FileOf(c, Elf2Efi(elf, imageBase, minimum).value))
    ensures var f, bias := FileOf(c, Elf2Efi(elf, imageBase, minimum).value), base + Shift32(elf, minimum);
            base + EntryPoint(f) == bias + elf.entry <==> elf.entry + Shift32(elf, minimum) < TWO_32
  {
    hide Convert, Elf2Efi, GoodRelocs, Fits, Assembled, FileOf, Countable, OnlyPtrs, FieldsFit, LaidOut, Headers,
         Shift32, Contains, EntryPoint, HasHeaders;
    FitsFacts(elf, minimum);
    var relocated, image := WrittenFile(elf, imageBase, minimum, c);
    var placed := Elf2Efi(elf, imageBase, minimum).value;
    EntryField(elf, minimum, relocated, image);
    EntryRead(FileOf(c, placed), c, placed);
    CutExactly(elf.entry + Shift32(elf, minimum));
  }

  lemma CutExactly(x: nat)
    ensures x % TWO_32 % TWO_32 == x % TWO_32 && (x % TWO_32 == x <==> x < TWO_32)
  {
  }

  /** If the ELF entry point lies in a copied section, the loader's entry point is the same
      byte: base plus entry is bias plus e_entry, and the loaded memory there is that of the ELF
      file. */
  lemma EntryByteFollows(elf: Elf, imageBase: nat, minimum: int, c: Constants, base: nat, i: nat)
    requires Fits(elf, minimum) && GoodRelocs(elf) && Countable(elf) && imageBase < TWO_64
    requires Elf2Efi(elf, imageBase, minimum).Ok?
    requires i < |elf.sections| && Copied(elf.sections[i]) && Inside(elf.sections[i], elf.entry)
    ensures HasHeaders(FileOf(c, Elf2Efi(elf, imageBase, minimum).value))
    ensures var f, bias := FileOf(c, Elf2Efi(elf, imageBase, minimum).value), base + Shift32(elf, minimum);
            var mem, entry := LoadPe(f, base), EntryPoint(f);
            base + entry == bias + elf.entry && mem.Some? && entry < |mem.value| &&
            mem.value[entry] == ElfLoaded(elf, bias, elf.entry)
  {
    hide Convert, Elf2Efi, GoodRelocs, Fits, FileOf, Countable, Shift32, EntryPoint, HasHeaders, LoadPe, ElfLoaded,
         Retained, Copied;
    FitsFacts(elf, minimum);
    RetainedAreCopied(elf, i);
    LoadEquivalence.LoadEquivalence(elf, imageBase, minimum, c, base, i, elf.entry);
    LoadedBelow4G(FileOf(c, Elf2Efi(elf, imageBase, minimum).value), base);
    EntryFollows(elf, imageBase, minimum, c, base);
  }

  // ----- the room for the section table -----

  /** SizeOfHeaders is the least multiple of 512 with room for one section more than the
      conversion makes, and for the minimum asked for on the command line. */
  lemma HeaderRoom(elf: Elf, imageBase: nat, minimum: int, c: Constants)
    requires Fits(elf, minimum) && GoodRelocs(elf) && Countable(elf) && imageBase < TWO_64
    requires Elf2Efi(elf, imageBase, minimum).Ok?
    ensures var f, n := FileOf(c, Elf2Efi(elf, imageBase, minimum).value), |Convert(elf).value| + 1;
            var room := 328 + 40 * (if n > minimum then n else minimum);
            |f| >= 328 &&
            (room <= TWO_32 - 512 ==> Field(f, 148, 4) % 512 == 0 && room <= Field(f, 148, 4) < room + 512)
  {
    hide Convert, Elf2Efi, GoodRelocs, Fits, FileOf, Countable, OnlyPtrs, LaidOut, Headers, Contains, OptionalStart,
         Coff, Versions, Environment, FileUp, AllRelatives, RelocBytes, ApplyAll, SameShape, RelocStart, ImageSize,
         SegmentOffset, ToLe, FromLe, Pow256;
    FitsFacts(elf, minimum);
    var relocated, image := WrittenFile(elf, imageBase, minimum, c);
    var placed := Elf2Efi(elf, imageBase, minimum).value;
    var f := FileOf(c, placed);
    PartsInFile(f, c, placed);
    Widths();
    RelocFormat.WordRoundTrip(placed.sizeOfHeaders, 4);
  }

  // ----- the counters -----

  /** The section may be executed. */
  predicate IsCode(perms: nat) {
    Bit(perms, 0x2000_0000)
  }

  /** The sizes of the code sections, or of the others, among the first `n` headers of the table. */
  function TableSum(f: seq<byte>, n: nat, code: bool): nat
    requires 328 + 40 * n <= |f|
  {
    if n == 0 then 0
    else
      var h := ReadSectionHeader(f, 328 + 40 * (n - 1));
      TableSum(f, n - 1, code) + if IsCode(h.perms) == code then h.vsize else 0
  }

  /** The address of the last code section of the table, or `none`. */
  function LastCode(f: seq<byte>, n: nat, none: nat): nat
    requires 328 + 40 * n <= |f|
  {
    if n == 0 then none
    else
      var h := ReadSectionHeader(f, 328 + 40 * (n - 1));
      if IsCode(h.perms) then h.va else LastCode(f, n - 1, none)
  }

  function SumOf(secs: seq<Section>, code: bool): nat {
    if secs == [] then 0
    else
      var n := |secs| - 1;
      SumOf(secs[..n], code) + if IsCode(secs[n].perms) == code then secs[n].vsize else 0
  }

  function LastOf(secs: seq<Section>, none: nat): nat {
    if secs == [] then none
    else
      var n := |secs| - 1;
      if IsCode(secs[n].perms) then secs[n].va else LastOf(secs[..n], none)
  }

  /** Exactly the code sections are called .text. */
  predicate WellNamed(secs: seq<Section>) {
    forall k | 0 <= k < |secs| :: secs[k].name == ".text" <==> IsCode(secs[k].perms)
  }

  lemma NameIsKind(perms: nat)
    requires perms == RX || perms == RW || perms == RO
    ensures NameOf(perms) == ".text" <==> IsCode(perms)
  {
  }

  lemma {:induction false} RunKinds(es: seq<ElfSection>, relro: Option<nat>, k: nat)
    requires Runs(es, relro).Ok? && k < |Runs(es, relro).value|
    ensures var perms := Runs(es, relro).value[k].perms; perms == RX || perms == RW || perms == RO
  {
    hide Retained, KnownType;
    var n := |es| - 1;
    if k < |Runs(es[..n], relro).value| {
      RunKinds(es[..n], relro, k);
    }
  }

  lemma ConvertedNames(elf: Elf)
    requires Convert(elf).Ok?
    ensures WellNamed(Convert(elf).value)
    ensures forall k | 0 <= k < |Convert(elf).value| :: Convert(elf).value[k].perms < TWO_32
  {
    hide Runs, FindRelro, FileUp, PageDown, NameOf, IsCode;
    var runs := Runs(elf.sections, FindRelro(elf.segments).value).value;
    PadAllShape(runs);
    forall k | 0 <= k < |runs|
      ensures NameOf(runs[k].perms) == ".text" <==> IsCode(runs[k].perms)
      ensures runs[k].perms < TWO_32
    {
      RunKinds(elf.sections, FindRelro(elf.segments).value, k);
      NameIsKind(runs[k].perms);
    }
  }

  lemma U32Sum(a: nat, b: nat)
    ensures U32(U32(a) + b) == U32(a + b)
  {
  }

  /** The counters of convert_sections: sums in 32 bits, and the last code section. */
  lemma {:induction false} TallySums(secs: seq<Section>)
    requires WellNamed(secs)
    ensures var n := Tally(secs);
            n.sizeOfCode == U32(SumOf(secs, true)) && n.sizeOfInitializedData == U32(SumOf(secs, false)) &&
            n.baseOfCode == LastOf(secs, 0)
  {
    hide IsCode, U32;
    if secs == [] {
      U32Small();
    } else {
      var n := |secs| - 1;
      TallySums(secs[..n]);
      U32Sum(SumOf(secs[..n], true), secs[n].vsize);
      U32Sum(SumOf(secs[..n], false), secs[n].vsize);
    }
  }

  lemma U32Small()
    ensures U32(0) == 0
  {
  }

  /** The sums depend on permissions and sizes only, the last address moves with the sections. */
  lemma {:induction false} SumsMove(a: seq<Section>, b: seq<Section>, d: nat)
    requires |a| == |b|
    requires forall k | 0 <= k < |a| :: b[k].perms == a[k].perms && b[k].vsize == a[k].vsize && b[k].va == a[k].va + d
    ensures SumOf(b, true) == SumOf(a, true) && SumOf(b, false) == SumOf(a, false)
    ensures LastOf(b, d) == LastOf(a, 0) + d
  {
    hide IsCode;
    if a != [] {
      SumsMove(a[..|a| - 1], b[..|b| - 1], d);
    }
  }

  lemma SumsWithData(secs: seq<Section>, s: Section, none: nat)
    requires !IsCode(s.perms)
    ensures SumOf(secs + [s], true) == SumOf(secs, true) && SumOf(secs + [s], false) == SumOf(secs, false) + s.vsize
    ensures LastOf(secs + [s], none) == LastOf(secs, none)
  {
    assert (secs + [s])[..|secs|] == secs;
  }

  /** What the section list of the image says about the counters. */
  lemma CountersOfImage(elf: Elf, minimum: int, relocated: seq<Section>, image: Image)
    requires Convert(elf).Ok? && Convert(elf).value != [] && Assembled(elf, minimum, relocated, image)
    ensures var d, n := Shift32(elf, minimum), image.counts;
            n.sizeOfCode == U32(SumOf(image.sections, true)) &&
            n.sizeOfInitializedData == U32(SumOf(image.sections, false)) &&
            n.baseOfCode == U32(LastOf(image.sections, d))
  {
    hide Convert, AllRelatives, RelocBytes, ApplyAll, RelocStart, ImageSize, ImageEnd, Shift32, U32, RecordAll,
         IsCode, Tally, HeaderSize, FileUp, SumOf, LastOf, WellNamed;
    var secs, d, m := Convert(elf).value, Shift32(elf, minimum), |Convert(elf).value|;
    var front := image.sections[..m];
    ConvertedNames(elf);
    TallySums(secs);
    SumsMove(secs, front, d);
    RecordAllNonempty(Offsets(AllRelatives(elf.tables, elf)));
    if AllRelatives(elf.tables, elf) == [] {
      assert image.sections == front;
    } else {
      var s := image.sections[m];
      assert image.sections == front + [s];
      RelocIsData();
      SumsWithData(front, s, d);
      U32Sum(SumOf(secs, false), s.vsize);
    }
  }

  lemma RelocIsData()
    ensures !IsCode(RELOC_PERMISSIONS) && RELOC_PERMISSIONS < TWO_32
  {
  }

  lemma {:induction false} SumsRead(f: seq<byte>, c: Constants, image: Image, n: nat, none: nat)
    requires LaidOut(image) && Contains(f, c, image) && n <= |image.sections|
    requires forall k | 0 <= k < |image.sections| :: image.sections[k].perms < TWO_32
    ensures 328 + 40 * n <= |f|
    ensures TableSum(f, n, true) == SumOf(image.sections[..n], true)
    ensures TableSum(f, n, false) == SumOf(image.sections[..n], false)
    ensures LastCode(f, n, none) == LastOf(image.sections[..n], none)
  {
    hide LaidOut, Headers, ReadSectionHeader, IsCode, NameBytes;
    if n > 0 {
      SumsRead(f, c, image, n - 1, none);
      ReadBackSection(f, c, image, n - 1);
      var s := image.sections[n - 1];
      assert image.sections[..n][..n - 1] == image.sections[..n - 1];
      assert s.perms % TWO_32 == s.perms;
    }
  }

  lemma PermissionsFit(elf: Elf, minimum: int, relocated: seq<Section>, image: Image, placed: seq<Section>)
    requires Convert(elf).Ok? && Convert(elf).value != [] && Assembled(elf, minimum, relocated, image)
    requires OnlyPtrs(image.sections, placed)
    ensures forall k | 0 <= k < |placed| :: placed[k].perms < TWO_32
  {
    hide Convert, AllRelatives, RelocBytes, ApplyAll, RelocStart, ImageSize, ImageEnd, Shift32, WellNamed, HeaderSize,
         FileUp, Adjusted;
    ConvertedNames(elf);
    forall k | 0 <= k < |placed|
      ensures placed[k].perms < TWO_32
    {
      assert placed[k].(ptr := image.sections[k].ptr) == image.sections[k];
    }
  }

  /** The counters of the optional header agree with the section table behind it: the sizes of
      the code sections, those of all others, and the address of the last code section. */
  lemma CountersAgree(elf: Elf, imageBase: nat, minimum: int, c: Constants)
    requires Fits(elf, minimum) && GoodRelocs(elf) && Countable(elf) && imageBase < TWO_64
    requires Elf2Efi(elf, imageBase, minimum).Ok?
    ensures var f := FileOf(c, Elf2Efi(elf, imageBase, minimum).value);
            |f| >= 328 &&
            var n := Field(f, 70, 2);
            328 + 40 * n <= |f| && Field(f, 92, 4) == TableSum(f, n, true) % TWO_32 &&
            Field(f, 96, 4) == TableSum(f, n, false) % TWO_32 &&
            Field(f, 108, 4) == LastCode(f, n, Shift32(elf, minimum)) % TWO_32
  {
    hide Convert, Elf2Efi, GoodRelocs, Fits, Assembled, FileOf, Countable, OnlyPtrs, LaidOut, Headers, Shift32,
         Contains, OptionalStart, Coff, Versions, Environment, Field, SumOf, LastOf, TableSum, LastCode;
    FitsFacts(elf, minimum);
    var relocated, image := WrittenFile(elf, imageBase, minimum, c);
    var placed := Elf2Efi(elf, imageBase, minimum).value;
    var f, n, d := FileOf(c, placed), |placed.sections|, Shift32(elf, minimum);
    PartsInFile(f, c, placed);
    CoffInFile(f, c, n);
    StartInFile(f, placed);
    CountersOfImage(elf, minimum, relocated, image);
    SamePlaced(image.sections, placed.sections, d);
    PermissionsFit(elf, minimum, relocated, image, placed.sections);
    SumsRead(f, c, placed, n, d);
    assert placed.sections[..n] == placed.sections;
  }

  lemma {:induction false} SamePlaced(a: seq<Section>, b: seq<Section>, none: nat)
    requires OnlyPtrs(a, b)
    ensures SumOf(b, true) == SumOf(a, true) && SumOf(b, false) == SumOf(a, false) && LastOf(b, none) == LastOf(a, none)
  {
    hide IsCode;
    if a != [] {
      var n := |a| - 1;
      assert b[n].(ptr := a[n].ptr) == a[n];
      SamePlaced(a[..n], b[..n], none);
    }
  }

  // ----- the access and the names of the sections -----

  /** The name in a section header says what the section allows. */
  predicate NamedInFile(h: SectionFields) {
    h.name ==
    if Bit(h.perms, 0x2000_0000) then [0x2E, 0x74, 0x65, 0x78, 0x74, 0, 0, 0]                // .text
    else if Bit(h.perms, 0x8000_0000) then [0x2E, 0x64, 0x61, 0x74, 0x61, 0, 0, 0]           // .data
    else [0x2E, 0x72, 0x6F, 0x64, 0x61, 0x74, 0x61, 0]                                       // .rodata
  }

  lemma NameWritten(s: Section, h: SectionFields)
    requires NamedByAccess(s) && h.perms == s.perms && h.name == NameBytes(s.name)
    ensures NamedInFile(h)
  {
    hide Bit;
    assert NameBytes(".text") == [0x2E, 0x74, 0x65, 0x78, 0x74, 0, 0, 0];
    assert NameBytes(".data") == [0x2E, 0x64, 0x61, 0x74, 0x61, 0, 0, 0];
    assert NameBytes(".rodata") == [0x2E, 0x72, 0x6F, 0x64, 0x61, 0x74, 0x61, 0];
  }

  lemma RawCovers(image: Image, k: nat)
    requires LaidOut(image) && k < |image.sections|
    ensures image.sections[k].vsize <= image.sections[k].rawSize
  {
    hide RawChain, RawDisjoint, Disjoint, FileUp;
    assert SectionOk(image.sections[k], image.sizeOfHeaders, image.sizeOfImage);
  }

  /** The section header `k` of the file, for a section of the conversion. */
  lemma MovedHeader(elf: Elf, imageBase: nat, minimum: int, c: Constants, k: nat)
    requires Fits(elf, minimum) && GoodRelocs(elf) && Countable(elf) && imageBase < TWO_64
    requires Elf2Efi(elf, imageBase, minimum).Ok? && k < |Convert(elf).value|
    ensures var f, s := FileOf(c, Elf2Efi(elf, imageBase, minimum).value), Convert(elf).value[k];
            328 + 40 * (k + 1) <= |f| && k < Field(f, 70, 2) &&
            var h := ReadSectionHeader(f, 328 + 40 * k);
            h.va == s.va + Shift32(elf, minimum) && h.vsize == |s.data| <= h.rawSize && h.perms == s.perms % TWO_32 &&
            h.name == NameBytes(s.name)
  {
    hide Convert, Elf2Efi, GoodRelocs, Fits, Assembled, FileOf, Countable, OnlyPtrs, LaidOut, Headers, Shift32, Coff,
         OptionalStart, Versions, Environment, Field, ReadSectionHeader, NameBytes;
    FitsFacts(elf, minimum);
    var relocated, image := WrittenFile(elf, imageBase, minimum, c);
    var placed := Elf2Efi(elf, imageBase, minimum).value;
    var f, n := FileOf(c, placed), |placed.sections|;
    MovedFields(elf, minimum, relocated, image, placed.sections, k);
    PartsInFile(f, c, placed);
    CoffInFile(f, c, n);
    ReadBackSection(f, c, placed, k);
    RawCovers(placed, k);
  }

  lemma MovedFields(elf: Elf, minimum: int, relocated: seq<Section>, image: Image, placed: seq<Section>, k: nat)
    requires Convert(elf).Ok? && Convert(elf).value != [] && Assembled(elf, minimum, relocated, image)
    requires Below4G(elf.sections) && OnlyPtrs(image.sections, placed) && k < |Convert(elf).value|
    ensures k < |placed|
    ensures var p, s := placed[k], Convert(elf).value[k];
            p.va == s.va + Shift32(elf, minimum) && p.vsize == |s.data| && p.perms == s.perms && p.name == s.name
  {
    hide Convert, AllRelatives, RelocBytes, ApplyAll, RelocStart, ImageSize, Shift32, Adjusted, HeaderSize, FileUp,
         Below4G, Disjoint;
    ConvertShape(elf);
    assert placed[k].(ptr := image.sections[k].ptr) == image.sections[k];
  }

  /** The address lies in the section of the header. */
  predicate HeaderCovers(h: SectionFields, a: nat) {
    h.va <= a < h.va + h.vsize
  }

  /** Every byte of a copied section lies in exactly one section of the file's table, moved by
      the segment offset; that section is named after its access and allows what the ELF section
      allows. */
  lemma AccessInFile(elf: Elf, imageBase: nat, minimum: int, c: Constants, i: nat, a: nat) returns (k: nat)
    requires Fits(elf, minimum) && GoodRelocs(elf) && Countable(elf) && imageBase < TWO_64
    requires Elf2Efi(elf, imageBase, minimum).Ok?
    requires i < |elf.sections| && Copied(elf.sections[i]) && Inside(elf.sections[i], a)
    ensures var f := FileOf(c, Elf2Efi(elf, imageBase, minimum).value);
            |f| >= 328 && 328 + 40 * Field(f, 70, 2) <= |f| && k < Field(f, 70, 2) &&
            var h, e := ReadSectionHeader(f, 328 + 40 * k), elf.sections[i];
            HeaderCovers(h, a + Shift32(elf, minimum)) && AccessOf(h.perms, e, InRelro(elf.segments, e)) &&
            NamedInFile(h)
    ensures var f := FileOf(c, Elf2Efi(elf, imageBase, minimum).value);
            forall l | 0 <= l < Field(f, 70, 2) ::
              HeaderCovers(ReadSectionHeader(f, 328 + 40 * l), a + Shift32(elf, minimum)) ==> l == k
  {
    hide Convert, Elf2Efi, GoodRelocs, Fits, Countable, FileOf, Field, ReadSectionHeader, Copied, InRelro, AccessOf,
         NamedByAccess, NamedInFile, Shift32, NameBytes;
    FitsFacts(elf, minimum);
    k := CopiedWithItsAccess(elf, i, a);
    MovedHeader(elf, imageBase, minimum, c, k);
    var f := FileOf(c, Elf2Efi(elf, imageBase, minimum).value);
    var h := ReadSectionHeader(f, 328 + 40 * k);
    SmallAccess(Convert(elf).value[k].perms, elf.sections[i], InRelro(elf.segments, elf.sections[i]));
    NameWritten(Convert(elf).value[k], h);
    HeadersApart(elf, imageBase, minimum, c);
  }

  lemma SmallAccess(perms: nat, e: ElfSection, relro: bool)
    requires AccessOf(perms, e, relro)
    ensures perms % TWO_32 == perms
  {
  }

  /** The sections of the table are disjoint. */
  lemma HeadersApart(elf: Elf, imageBase: nat, minimum: int, c: Constants)
    requires Fits(elf, minimum) && GoodRelocs(elf) && Countable(elf) && imageBase < TWO_64
    requires Elf2Efi(elf, imageBase, minimum).Ok?
    ensures var f := FileOf(c, Elf2Efi(elf, imageBase, minimum).value);
            |f| >= 328 && 328 + 40 * Field(f, 70, 2) <= |f| &&
            forall k, l | 0 <= k < l < Field(f, 70, 2) ::
              var g, h := ReadSectionHeader(f, 328 + 40 * k), ReadSectionHeader(f, 328 + 40 * l);
              g.va + g.vsize <= h.va
  {
    hide Convert, Elf2Efi, GoodRelocs, Fits, Assembled, FileOf, Countable, OnlyPtrs, Headers, Shift32, Coff,
         OptionalStart, Versions, Environment, Field, ReadSectionHeader, NameBytes, InBounds, RawChain, RawDisjoint,
         RawAligned;
    var relocated, image := WrittenFile(elf, imageBase, minimum, c);
    var placed := Elf2Efi(elf, imageBase, minimum).value;
    var f := FileOf(c, placed);
    PartsInFile(f, c, placed);
    CoffInFile(f, c, |placed.sections|);
    if placed.sections != [] {
      ReadBackSection(f, c, placed, |placed.sections| - 1);
    }
    forall k, l | 0 <= k < l < |placed.sections|
      ensures var g, h := ReadSectionHeader(f, 328 + 40 * k), ReadSectionHeader(f, 328 + 40 * l);
              g.va + g.vsize <= h.va
    {
      ReadBackSection(f, c, placed, k);
      ReadBackSection(f, c, placed, l);
      ExactSize(placed, k);
    }
  }

  lemma ExactSize(image: Image, k: nat)
    requires LaidOut(image) && k < |image.sections|
    ensures image.sections[k].vsize == |image.sections[k].data|
  {
    hide RawChain, RawDisjoint, Disjoint, FileUp;
    assert SectionOk(image.sections[k], image.sizeOfHeaders, image.sizeOfImage);
  }

  lemma LastIsReloc(elf: Elf, minimum: int, relocated: seq<Section>, image: Image, placed: seq<Section>)
    requires Convert(elf).Ok? && Convert(elf).value != [] && Assembled(elf, minimum, relocated, image)
    requires OnlyPtrs(image.sections, placed)
    ensures placed != []
    ensures var s := placed[|placed| - 1];
            if AllRelatives(elf.tables, elf) == [] then image.relocAddress == 0 && image.relocSize == 0
            else
              s.name == ".reloc" && s.perms == 0x4200_0040 && s.va == image.relocAddress && s.vsize == image.relocSize
  {
    hide Convert, AllRelatives, RelocBytes, ApplyAll, RelocStart, ImageSize, Shift32, Adjusted, HeaderSize, FileUp;
    var n := |placed| - 1;
    assert placed[n].(ptr := image.sections[n].ptr) == image.sections[n];
  }

  /** When there are relocations the last section of the table is .reloc: initialized data that
      may be read and discarded, and what the base relocation directory points to. */
  lemma RelocInFile(elf: Elf, imageBase: nat, minimum: int, c: Constants)
    requires Fits(elf, minimum) && GoodRelocs(elf) && Countable(elf) && imageBase < TWO_64
    requires Elf2Efi(elf, imageBase, minimum).Ok?
    ensures var f := FileOf(c, Elf2Efi(elf, imageBase, minimum).value);
            |f| >= 328 && 328 + 40 * Field(f, 70, 2) <= |f| && Field(f, 70, 2) >= 1 &&
            var h := ReadSectionHeader(f, 328 + 40 * (Field(f, 70, 2) - 1));
            if AllRelatives(elf.tables, elf) == [] then Field(f, 240, 4) == 0 && Field(f, 244, 4) == 0
            else
              h.name == [0x2E, 0x72, 0x65, 0x6C, 0x6F, 0x63, 0, 0] && h.perms == 0x4200_0040 &&
              h.va == Field(f, 240, 4) && h.vsize == Field(f, 244, 4) > 0
  {
    hide Convert, Elf2Efi, GoodRelocs, Fits, Assembled, FileOf, Countable, OnlyPtrs, Headers, Coff, OptionalStart,
         Versions, Environment, Field, ReadSectionHeader, NameBytes, AllRelatives, LaidOut;
    FitsFacts(elf, minimum);
    var relocated, image := WrittenFile(elf, imageBase, minimum, c);
    var placed := Elf2Efi(elf, imageBase, minimum).value;
    var f, n := FileOf(c, placed), |placed.sections|;
    LastIsReloc(elf, minimum, relocated, image, placed.sections);
    PartsInFile(f, c, placed);
    CoffInFile(f, c, n);
    ReadBackSection(f, c, placed, n - 1);
    LoaderFields(f, c, placed);
    ExactSize(placed, n - 1);
    SectionNonempty(placed, n - 1);
    RelocName();
  }

  lemma RelocName()
    ensures NameBytes(".reloc") == [0x2E, 0x72, 0x65, 0x6C, 0x6F, 0x63, 0, 0] && RELOC_PERMISSIONS < TWO_32
  {
  }

  lemma SectionNonempty(image: Image, k: nat)
    requires LaidOut(image) && k < |image.sections|
    ensures image.sections[k].data != []
  {
    hide RawChain, RawDisjoint, Disjoint, FileUp;
    assert SectionOk(image.sections[k], image.sizeOfHeaders, image.sizeOfImage);
  }
}
