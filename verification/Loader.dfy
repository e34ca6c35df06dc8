/** A PE loader working on the bytes of a file: it maps the sections at a base address
    and applies the base relocations ("Section Table" and "The .reloc Section (Image
    Only)" of the PE Format specification). */
module Loader {
  import opened Bytes
  import opened ElfModel
  import opened Coalesce
  import opened PeImage
  import opened Layout
  import opened PeFile
  import RelocFormat

  type Memory = seq<byte>

  function Overlay(mem: Memory, at: nat, d: seq<byte>): (m: Memory)
    requires at + |d| <= |mem|
    ensures |m| == |mem|
    ensures forall i | 0 <= i < |mem| :: m[i] == if at <= i < at + |d| then d[i - at] else mem[i]
  {
    mem[..at] + d + mem[at + |d|..]
  }

  datatype SectionFields = SectionFields(name: seq<byte>, vsize: nat, va: nat, rawSize: nat, ptr: nat, perms: nat)

  function ReadSectionHeader(f: seq<byte>, at: nat): SectionFields
    requires at + SECTION_HEADER_SIZE <= |f|
  {
    SectionFields(f[at..at + 8], Field(f, at + 8, 4), Field(f, at + 12, 4), Field(f, at + 16, 4),
                  Field(f, at + 20, 4), Field(f, at + 36, 4))
  }

  /** SectionAlignment and FileAlignment of the optional header. */
  datatype Alignments = Alignments(section: nat, file: nat)

  function ReadAlignments(f: seq<byte>, opt: nat): Alignments
    requires opt + OPTIONAL_SIZE <= |f|
  {
    Alignments(Field(f, opt + 32, 4), Field(f, opt + 36, 4))
  }

  /** The section starts at a multiple of the alignments, in memory and in the file. */
  predicate IsAligned(h: SectionFields, al: Alignments) {
    al.section > 0 && al.file > 0 && h.va % al.section == 0 && h.ptr % al.file == 0
  }

  function MapSection(mem: Memory, f: seq<byte>, h: SectionFields, al: Alignments): Option<Memory> {
    var n := if h.vsize < h.rawSize then h.vsize else h.rawSize;
    if !IsAligned(h, al) || h.ptr + n > |f| || h.va + n > |mem| then None
    else Some(Overlay(mem, h.va, f[h.ptr..h.ptr + n]))
  }

  /** Maps the first `n` sections of the table at `table`. */
  function MapSections(mem: Memory, f: seq<byte>, table: nat, n: nat, al: Alignments): (m: Option<Memory>)
    ensures m.Some? ==> |m.value| == |mem|
  {
    if n == 0 then Some(mem)
    else
      var prev := MapSections(mem, f, table, n - 1, al);
      var at := table + SECTION_HEADER_SIZE * (n - 1);
      if prev.None? || at + SECTION_HEADER_SIZE > |f| then None
      else MapSection(prev.value, f, ReadSectionHeader(f, at), al)
  }

  /** A DIR64 fixup: adds `delta` to the 64-bit word at `at`. */
  function Fix(mem: Memory, at: nat, delta: int): Option<Memory> {
    if at + 8 > |mem| then None
    else Some(Overlay(mem, at, ToLe((FromLe(mem[at..at + 8]) + delta) % TWO_64, 8)))
  }

  function FixAll(mem: Memory, fixups: seq<nat>, delta: int): (m: Option<Memory>)
    ensures m.Some? ==> |m.value| == |mem|
    decreases |fixups|
  {
    if fixups == [] then Some(mem)
    else
      var next := Fix(mem, fixups[0], delta);
      if next.None? then None else FixAll(next.value, fixups[1..], delta)
  }

  function Relocated(mem: Memory, address: nat, size: nat, delta: int): (m: Option<Memory>)
    ensures m.Some? ==> |m.value| == |mem|
  {
    if size == 0 then Some(mem)
    else if address + size > |mem| then None
    else
      var blocks := RelocFormat.DecodeBlocks(mem[address..address + size]);
      if blocks.None? then None else FixAll(mem, RelocFormat.Fixups(blocks.value), delta)
  }

  const BASE_RELOCATION_TABLE: nat := 5

  /** The base relocation directory, if the header counts that many directories. */
  function ReadRelocations(f: seq<byte>, opt: nat): (nat, nat)
    requires opt + OPTIONAL_SIZE <= |f|
  {
    if Field(f, opt + 108, 4) <= BASE_RELOCATION_TABLE then (0, 0)
    else (Field(f, opt + 152, 4), Field(f, opt + 156, 4))
  }

  /** The PE signature is where the pointer at 0x3C says, with the headers behind it. */
  predicate HasHeaders(f: seq<byte>) {
    |f| >= PE_OFFSET &&
    var pe := Field(f, 0x3C, 4); pe + 4 + COFF_SIZE + OPTIONAL_SIZE <= |f| && f[pe..pe + 4] == [0x50, 0x45, 0, 0]
  }

  function OptionalHeaderAt(f: seq<byte>): (opt: nat)
    requires HasHeaders(f)
    ensures opt + OPTIONAL_SIZE <= |f|
  {
    Field(f, 0x3C, 4) + 4 + COFF_SIZE
  }

  /** AddressOfEntryPoint, relative to the base. */
  function EntryPoint(f: seq<byte>): nat
    requires HasHeaders(f)
  {
    Field(f, OptionalHeaderAt(f) + 16, 4)
  }

  /** The memory, indexed from `base`, after loading the file `f` at `base`. */
  function LoadPe(f: seq<byte>, base: nat): Option<Memory> {
    if !HasHeaders(f) then None
    else
      var pe, opt := Field(f, 0x3C, 4), OptionalHeaderAt(f);
      var table, n := opt + Field(f, pe + 20, 2), Field(f, pe + 6, 2);
      var mem := MapSections(Zeros(Field(f, opt + 56, 4)), f, table, n, ReadAlignments(f, opt));
      if mem.None? then None
      else
        var (address, size) := ReadRelocations(f, opt);
        Relocated(mem.value, address, size, base - Field(f, opt + 24, 8))
  }

  /** No file fills more memory than its 32-bit SizeOfImage can say. */
  lemma LoadedBelow4G(f: seq<byte>, base: nat)
    ensures LoadPe(f, base).Some? ==> |LoadPe(f, base).value| < TWO_32
  {
    hide Relocated, MapSections, ReadRelocations, ReadAlignments, FromLe, Pow256;
    if LoadPe(f, base).Some? {
      var opt := OptionalHeaderAt(f);
      FromLeBound(f[opt + 56..opt + 60]);
      Widths();
    }
  }

  // ----- the headers as written -----

  lemma SectionHeaderFields(s: Section, h: seq<byte>)
    requires h == SectionHeader(s)
    requires s.vsize < TWO_32 && s.va < TWO_32 && s.rawSize < TWO_32 && s.ptr < TWO_32
    ensures h[0..8] == NameBytes(s.name) && Field(h, 36, 4) == s.perms % TWO_32
    ensures Field(h, 8, 4) == s.vsize && Field(h, 12, 4) == s.va
    ensures Field(h, 16, 4) == s.rawSize && Field(h, 20, 4) == s.ptr
  {
    hide ToLe, Field, NameBytes, Zeros, FromLe, Pow256;
    var a, b, c, d, e := NameBytes(s.name), ToLe(s.vsize, 4), ToLe(s.va, 4), ToLe(s.rawSize, 4), ToLe(s.ptr, 4);
    var z := Zeros(12) + ToLe(s.perms, 4);
    Widths();
    assert h == a + b + (c + d + e + z);
    FieldOf(h, 8, a, s.vsize, 4, c + d + e + z);
    assert h == (a + b) + c + (d + e + z);
    FieldOf(h, 12, a + b, s.va, 4, d + e + z);
    assert h == (a + b + c) + d + (e + z);
    FieldOf(h, 16, a + b + c, s.rawSize, 4, e + z);
    assert h == (a + b + c + d) + e + z;
    FieldOf(h, 20, a + b + c + d, s.ptr, 4, z);
    assert h == (a + b + c + d + e + Zeros(12)) + ToLe(s.perms, 4) + [];
    FieldCut(h, 36, a + b + c + d + e + Zeros(12), s.perms, 4, []);
  }

  lemma {:induction false} TableEntry(secs: seq<Section>, k: nat)
    requires k < |secs|
    ensures SectionTable(secs)[SECTION_HEADER_SIZE * k..SECTION_HEADER_SIZE * (k + 1)] == SectionHeader(secs[k])
  {
    hide SectionHeader;
    var n := |secs| - 1;
    if k < n {
      TableEntry(secs[..n], k);
      var front := SectionTable(secs[..n]);
      assert SectionTable(secs) == front + SectionHeader(secs[n]);
      assert SectionTable(secs)[..|front|] == front;
      assert secs[..n][k] == secs[k];
      assert SectionTable(secs)[..|front|][SECTION_HEADER_SIZE * k..SECTION_HEADER_SIZE * (k + 1)] ==
             SectionTable(secs)[SECTION_HEADER_SIZE * k..SECTION_HEADER_SIZE * (k + 1)];
    }
  }

  lemma FieldInside(f: seq<byte>, at: nat, len: nat, i: nat, width: nat)
    requires at + len <= |f| && i + width <= len
    ensures Field(f[at..at + len], i, width) == Field(f, at + i, width)
  {
    SliceOfSlice(f, at, len, i, width);
  }

  lemma SliceOfSlice(f: seq<byte>, at: nat, len: nat, i: nat, width: nat)
    requires at + len <= |f| && i + width <= len
    ensures f[at..at + len][i..i + width] == f[at + i..at + i + width]
  {
    var a, b := f[at..at + len][i..i + width], f[at + i..at + i + width];
    assert |a| == width && |b| == width;
    assert forall j | 0 <= j < width :: a[j] == b[j];
  }

  lemma ReadBackSection(f: seq<byte>, c: Constants, image: Image, k: nat)
    requires LaidOut(image) && Contains(f, c, image) && k < |image.sections|
    ensures var at, s := HeaderBytes(k), image.sections[k];
            at + SECTION_HEADER_SIZE <= |f| &&
            ReadSectionHeader(f, at) ==
            SectionFields(NameBytes(s.name), s.vsize, s.va, s.rawSize, s.ptr, s.perms % TWO_32)
  {
    hide SectionTable, SectionHeader, Disjoint, RawChain, RawDisjoint, DosHeader, Coff, Optional, Field, FileUp,
         NameBytes;
    var at, s := HeaderBytes(k), image.sections[k];
    var h := Headers(c, image);
    assert SectionOk(s, image.sizeOfHeaders, image.sizeOfImage);
    TableEntry(image.sections, k);
    assert h[HeaderBytes(0)..] == SectionTable(image.sections);
    assert h[at..at + SECTION_HEADER_SIZE] ==
           h[HeaderBytes(0)..][SECTION_HEADER_SIZE * k..SECTION_HEADER_SIZE * (k + 1)];
    assert f[..|h|][at..at + SECTION_HEADER_SIZE] == f[at..at + SECTION_HEADER_SIZE];
    SectionHeaderFields(s, f[at..at + SECTION_HEADER_SIZE]);
    FieldInside(f, at, SECTION_HEADER_SIZE, 8, 4);
    FieldInside(f, at, SECTION_HEADER_SIZE, 12, 4);
    FieldInside(f, at, SECTION_HEADER_SIZE, 16, 4);
    FieldInside(f, at, SECTION_HEADER_SIZE, 20, 4);
    FieldInside(f, at, SECTION_HEADER_SIZE, 36, 4);
    SliceOfSlice(f, at, SECTION_HEADER_SIZE, 0, 8);
  }

  /** The start of the file: MZ, the pointer at 0x3C, the PE signature. */
  lemma ReadBackDos(c: Constants, image: Image)
    ensures var h := Headers(c, image);
            Field(h, 0x3C, 4) == PE_OFFSET && h[PE_OFFSET..PE_OFFSET + 4] == PE_MAGIC
  {
    hide Coff, Optional, SectionTable;
    var h := Headers(c, image);
    assert ToLe(PE_OFFSET, 2) == [64, 0] && Zeros(2) == [0, 0];
    assert ToLe(PE_OFFSET, 4) == [64, 0, 0, 0] by {
      assert ToLe(0, 3) == [0, 0, 0];
    }
    var after := PE_MAGIC + Coff(c, |image.sections|) + Optional(c, image) + SectionTable(image.sections);
    assert h == ([0x4D, 0x5A] + Zeros(0x3A)) + ToLe(PE_OFFSET, 4) + after;
    Widths();
    FieldOf(h, 0x3C, [0x4D, 0x5A] + Zeros(0x3A), PE_OFFSET, 4, after);
  }

  lemma ReadBackCoff(c: Constants, image: Image)
    requires |image.sections| < 0x1_0000
    ensures var h := Headers(c, image);
            Field(h, PE_OFFSET + 6, 2) == |image.sections| && Field(h, PE_OFFSET + 20, 2) == OPTIONAL_SIZE
  {
    hide ToLe, Field, DosHeader, Optional, SectionTable, FromLe, Pow256, Zeros;
    var h, n := Headers(c, image), |image.sections|;
    var front, tail := DosHeader() + PE_MAGIC, Optional(c, image) + SectionTable(image.sections);
    var zeros := ToLe(c.timeStamp, 4) + Zeros(8);
    var rest := zeros + ToLe(OPTIONAL_SIZE, 2) + ToLe(0x22E, 2) + tail;
    Widths();
    assert h == (front + ToLe(c.machine, 2)) + ToLe(n, 2) + rest;
    FieldOf(h, PE_OFFSET + 6, front + ToLe(c.machine, 2), n, 2, rest);
    var front' := front + ToLe(c.machine, 2) + ToLe(n, 2) + zeros;
    assert h == front' + ToLe(OPTIONAL_SIZE, 2) + (ToLe(0x22E, 2) + tail);
    FieldOf(h, PE_OFFSET + 20, front', OPTIONAL_SIZE, 2, ToLe(0x22E, 2) + tail);
  }

  predicate FieldsFit(image: Image) {
    image.imageBase < TWO_64 && image.sizeOfImage < TWO_32 && image.sizeOfHeaders < TWO_32 &&
    image.relocAddress < TWO_32 && image.relocSize < TWO_32 && |image.sections| < 0x1_0000
  }

  lemma OptionalFront(c: Constants, image: Image, o: seq<byte>)
    requires FieldsFit(image) && o == Optional(c, image)
    ensures Field(o, 24, 8) == image.imageBase && Field(o, 32, 4) == PAGE && Field(o, 36, 4) == FILE_ALIGNMENT
  {
    hide ToLe, Field, FromLe, Pow256, OptionalStart, Versions, Environment, Zeros;
    Widths();
    var b0, b1, b2 := OptionalStart(image), ToLe(image.imageBase, 8), ToLe(PAGE, 4);
    var b3 := ToLe(FILE_ALIGNMENT, 4);
    var b4 := Versions(c) + ToLe(image.sizeOfImage, 4) + ToLe(image.sizeOfHeaders, 4) + Environment(c) +
              ToLe(DIRECTORIES, 4) + Zeros(40) + ToLe(image.relocAddress, 4) + ToLe(image.relocSize, 4) + Zeros(80);
    assert o == b0 + b1 + (b2 + b3 + b4);
    FieldOf(o, 24, b0, image.imageBase, 8, b2 + b3 + b4);
    assert o == (b0 + b1) + b2 + (b3 + b4);
    FieldOf(o, 32, b0 + b1, PAGE, 4, b3 + b4);
    FieldOf(o, 36, b0 + b1 + b2, FILE_ALIGNMENT, 4, b4);
  }

  lemma OptionalImageSize(c: Constants, image: Image, o: seq<byte>)
    requires FieldsFit(image) && o == Optional(c, image)
    ensures Field(o, 56, 4) == image.sizeOfImage
  {
    hide ToLe, Field, FromLe, Pow256, OptionalStart, Versions, Environment, Zeros;
    Widths();
    var front := OptionalStart(image) + ToLe(image.imageBase, 8) + ToLe(PAGE, 4) + ToLe(FILE_ALIGNMENT, 4) +
                 Versions(c);
    var back := ToLe(image.sizeOfHeaders, 4) + Environment(c) + ToLe(DIRECTORIES, 4) + Zeros(40) +
                ToLe(image.relocAddress, 4) + ToLe(image.relocSize, 4) + Zeros(80);
    assert o == front + ToLe(image.sizeOfImage, 4) + back;
    FieldOf(o, 56, front, image.sizeOfImage, 4, back);
  }

  lemma OptionalBack(c: Constants, image: Image, o: seq<byte>)
    requires FieldsFit(image) && o == Optional(c, image)
    ensures Field(o, 108, 4) == DIRECTORIES
    ensures Field(o, 152, 4) == image.relocAddress && Field(o, 156, 4) == image.relocSize
  {
    hide ToLe, Field, FromLe, Pow256, OptionalStart, Versions, Environment, Zeros;
    Widths();
    var b0 := OptionalStart(image) + ToLe(image.imageBase, 8) + ToLe(PAGE, 4) + ToLe(FILE_ALIGNMENT, 4) +
              Versions(c) + ToLe(image.sizeOfImage, 4) + ToLe(image.sizeOfHeaders, 4) + Environment(c);
    var b1, b2, b3 := ToLe(DIRECTORIES, 4), Zeros(40), ToLe(image.relocAddress, 4);
    var b4, b5 := ToLe(image.relocSize, 4), Zeros(80);
    assert o == b0 + b1 + (b2 + b3 + b4 + b5);
    FieldOf(o, 108, b0, DIRECTORIES, 4, b2 + b3 + b4 + b5);
    assert o == (b0 + b1 + b2) + b3 + (b4 + b5);
    FieldOf(o, 152, b0 + b1 + b2, image.relocAddress, 4, b4 + b5);
    FieldOf(o, 156, b0 + b1 + b2 + b3, image.relocSize, 4, b5);
  }

  /** What the optional header says to a reader. */
  predicate Announces(f: seq<byte>, opt: nat, image: Image)
    requires opt + OPTIONAL_SIZE <= |f|
  {
    Field(f, opt + 24, 8) == image.imageBase && Field(f, opt + 56, 4) == image.sizeOfImage &&
    ReadAlignments(f, opt) == Alignments(PAGE, FILE_ALIGNMENT) &&
    ReadRelocations(f, opt) == (image.relocAddress, image.relocSize)
  }

  lemma ReadBackOptional(c: Constants, image: Image, f: seq<byte>, opt: nat)
    requires FieldsFit(image) && opt + OPTIONAL_SIZE <= |f| && f[opt..opt + OPTIONAL_SIZE] == Optional(c, image)
    ensures Announces(f, opt, image)
  {
    hide Field, Optional;
    var o := f[opt..opt + OPTIONAL_SIZE];
    OptionalFront(c, image, o);
    OptionalImageSize(c, image, o);
    OptionalBack(c, image, o);
    FieldInside(f, opt, OPTIONAL_SIZE, 24, 8);
    FieldInside(f, opt, OPTIONAL_SIZE, 32, 4);
    FieldInside(f, opt, OPTIONAL_SIZE, 36, 4);
    FieldInside(f, opt, OPTIONAL_SIZE, 56, 4);
    FieldInside(f, opt, OPTIONAL_SIZE, 108, 4);
    FieldInside(f, opt, OPTIONAL_SIZE, 152, 4);
    FieldInside(f, opt, OPTIONAL_SIZE, 156, 4);
  }

  lemma OptionalAt(c: Constants, image: Image, f: seq<byte>)
    requires Headers(c, image) <= f
    ensures var opt := PE_OFFSET + 4 + COFF_SIZE;
            opt + OPTIONAL_SIZE <= |f| && f[opt..opt + OPTIONAL_SIZE] == Optional(c, image)
  {
    hide DosHeader, Coff, Optional, SectionTable;
    var h, opt := Headers(c, image), PE_OFFSET + 4 + COFF_SIZE;
    assert h[opt..opt + OPTIONAL_SIZE] == Optional(c, image);
    assert h == f[0..|h|];
    SliceOfSlice(f, 0, |h|, opt, OPTIONAL_SIZE);
  }

  lemma FieldOfPrefix(h: seq<byte>, f: seq<byte>, at: nat, width: nat)
    requires h <= f && at + width <= |h|
    ensures Field(f, at, width) == Field(h, at, width)
  {
    assert h == f[0..|h|];
    SliceOfSlice(f, 0, |h|, at, width);
  }

  /** What LoadPe finds in the headers of the file. */
  lemma ReadBackHeaders(f: seq<byte>, c: Constants, image: Image)
    requires FieldsFit(image) && Headers(c, image) <= f
    ensures HasHeaders(f) && OptionalHeaderAt(f) == PE_OFFSET + 4 + COFF_SIZE
    ensures |f| >= HeaderBytes(0) && Field(f, 0x3C, 4) == PE_OFFSET && f[PE_OFFSET..PE_OFFSET + 4] == PE_MAGIC
    ensures Field(f, PE_OFFSET + 6, 2) == |image.sections| && Field(f, PE_OFFSET + 20, 2) == OPTIONAL_SIZE
    ensures Announces(f, PE_OFFSET + 4 + COFF_SIZE, image)
  {
    hide Headers, Field, Announces, Optional;
    var h := Headers(c, image);
    ReadBackDos(c, image);
    ReadBackCoff(c, image);
    OptionalAt(c, image, f);
    ReadBackOptional(c, image, f, PE_OFFSET + 4 + COFF_SIZE);
    FieldOfPrefix(h, f, 0x3C, 4);
    FieldOfPrefix(h, f, PE_OFFSET + 6, 2);
    FieldOfPrefix(h, f, PE_OFFSET + 20, 2);
    assert f[..|h|][PE_OFFSET..PE_OFFSET + 4] == f[PE_OFFSET..PE_OFFSET + 4];
  }
}
