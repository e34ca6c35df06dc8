/** The bytes write_pe produces (tools/elf2efi.py:546-576) and the header fields a
    loader reads back from them. */
module PeFile {
  import opened AddressOrder
  import opened Bytes
  import opened Coalesce
  import opened PeImage
  import opened Layout
  import RelocFormat

  // ----- writing into a file -----

  /** Seek to `pos` and write: a gap is filled with zeros. */
  function WriteAt(f: seq<byte>, pos: nat, d: seq<byte>): (r: seq<byte>)
    ensures |r| == if pos + |d| < |f| then |f| else pos + |d|
  {
    (if pos <= |f| then f[..pos] else f + Zeros(pos - |f|)) + d +
    (if pos + |d| < |f| then f[pos + |d|..] else [])
  }

  /** truncate(n), which may also extend. */
  function Resize(f: seq<byte>, n: nat): (r: seq<byte>)
    ensures |r| == n
  {
    if n <= |f| then f[..n] else f + Zeros(n - |f|)
  }

  // ----- headers -----

  /** Header fields taken from the command line, the target and the clock. */
  datatype Constants = Constants(machine: nat, timeStamp: nat, imageMajor: nat, imageMinor: nat,
                                 subsystemMajor: nat, subsystemMinor: nat, subsystem: nat)

  const PE_MAGIC: seq<byte> := [0x50, 0x45, 0, 0]
  const DIRECTORIES: nat := 16

  /** The COFF header: there is no symbol table. */
  function Coff(c: Constants, n: nat): (s: seq<byte>)
    ensures |s| == COFF_SIZE
  {
    ToLe(c.machine, 2) + ToLe(n, 2) + (ToLe(c.timeStamp, 4) + Zeros(8)) + ToLe(OPTIONAL_SIZE, 2) + ToLe(0x22E, 2)
  }

  /** The optional header up to BaseOfCode: no linker version, no uninitialized data. */
  function OptionalStart(image: Image): (s: seq<byte>)
    ensures |s| == 24
  {
    ToLe(0x20B, 2) + Zeros(2) + ToLe(image.counts.sizeOfCode, 4) + ToLe(image.counts.sizeOfInitializedData, 4) +
    ToLe(0, 4) + ToLe(image.entry, 4) + ToLe(image.counts.baseOfCode, 4)
  }

  /** The version fields; those of the operating system and of Win32 stay zero. */
  function Versions(c: Constants): (s: seq<byte>)
    ensures |s| == 16
  {
    Zeros(4) + ToLe(c.imageMajor, 2) + ToLe(c.imageMinor, 2) + ToLe(c.subsystemMajor, 2) +
    ToLe(c.subsystemMinor, 2) + Zeros(4)
  }

  /** From CheckSum to LoaderFlags: subsystem, DYNAMIC_BASE, NX_COMPAT and HIGH_ENTROPY_VA,
      stack and heap sizes. */
  function Environment(c: Constants): (s: seq<byte>)
    ensures |s| == 44
  {
    Zeros(4) + ToLe(c.subsystem, 2) + ToLe(0x160, 2) + ToLe(0x100000, 8) + ToLe(0x1000, 8) + ToLe(0x100000, 8) +
    ToLe(0x1000, 8) + Zeros(4)
  }

  /** The optional header; of the data directories only the sixth, base relocations, is used. */
  function Optional(c: Constants, image: Image): (s: seq<byte>)
    ensures |s| == OPTIONAL_SIZE
  {
    OptionalStart(image) + ToLe(image.imageBase, 8) + ToLe(PAGE, 4) + ToLe(FILE_ALIGNMENT, 4) + Versions(c) +
    ToLe(image.sizeOfImage, 4) + ToLe(image.sizeOfHeaders, 4) + Environment(c) + ToLe(DIRECTORIES, 4) + Zeros(40) +
    ToLe(image.relocAddress, 4) + ToLe(image.relocSize, 4) + Zeros(80)
  }

  function NameBytes(name: string): (s: seq<byte>)
    ensures |s| == 8
  {
    seq(8, i requires 0 <= i < 8 => if i < |name| then name[i] as int % 256 else 0)
  }

  function SectionHeader(s: Section): (r: seq<byte>)
    ensures |r| == SECTION_HEADER_SIZE
  {
    NameBytes(s.name) + ToLe(s.vsize, 4) + ToLe(s.va, 4) + ToLe(s.rawSize, 4) + ToLe(s.ptr, 4) +
    Zeros(12) + ToLe(s.perms, 4)
  }

  function SectionTable(secs: seq<Section>): (r: seq<byte>)
    ensures |r| == SECTION_HEADER_SIZE * |secs|
  {
    if secs == [] then [] else SectionTable(secs[..|secs| - 1]) + SectionHeader(secs[|secs| - 1])
  }

  function DosHeader(): (s: seq<byte>)
    ensures |s| == PE_OFFSET
  {
    [0x4D, 0x5A] + Zeros(0x3A) + ToLe(PE_OFFSET, 2) + Zeros(2)
  }

  function Headers(c: Constants, image: Image): (s: seq<byte>)
    ensures |s| == HeaderBytes(|image.sections|)
  {
    DosHeader() + PE_MAGIC + Coff(c, |image.sections|) + Optional(c, image) + SectionTable(image.sections)
  }

  function WriteSections(f: seq<byte>, secs: seq<Section>): (r: seq<byte>)
    decreases |secs|
  {
    if secs == [] then f else WriteSections(WriteAt(f, secs[0].ptr, secs[0].data), secs[1..])
  }

  /** write_pe's running offset after the sections: the final file size. */
  function OffsetAfter(secs: seq<Section>, offset: nat): nat
    decreases |secs|
  {
    if secs == [] then offset else OffsetAfter(secs[1..], FileUp(offset + |secs[0].data|))
  }

  /** Where the raw data ends. */
  function FileEnd(secs: seq<Section>, start: nat): nat {
    if secs == [] then start else secs[|secs| - 1].ptr + FileUp(|secs[|secs| - 1].data|)
  }

  /** The file: the section table in address order, the data in the order of the list. */
  function FileOf(c: Constants, image: Image): seq<byte>
  {
    var table := Sorted(image.sections);
    Resize(WriteSections(Headers(c, image.(sections := table)), image.sections),
           OffsetAfter(table, image.sizeOfHeaders))
  }

  // ----- reading the headers back -----

  function Field(f: seq<byte>, at: nat, width: nat): nat
    requires at + width <= |f|
  {
    FromLe(f[at..at + width])
  }

  lemma FieldOf(f: seq<byte>, at: nat, before: seq<byte>, value: nat, width: nat, after: seq<byte>)
    requires f == before + ToLe(value, width) + after && |before| == at && value < Pow256(width)
    ensures Field(f, at, width) == value
  {
    RelocFormat.WordRoundTrip(value, width);
    assert f[at..at + width] == ToLe(value, width);
  }

  /** A value that is too large is cut to the width of its field. */
  lemma FieldCut(f: seq<byte>, at: nat, before: seq<byte>, value: nat, width: nat, after: seq<byte>)
    requires f == before + ToLe(value, width) + after && |before| == at
    ensures Field(f, at, width) == value % Pow256(width)
  {
    FromToLe(value, width);
    assert f[at..at + width] == ToLe(value, width);
  }

  // ----- what the finished file contains -----

  lemma WriteAtBefore(f: seq<byte>, pos: nat, d: seq<byte>, n: nat)
    requires n <= pos && n <= |f|
    ensures n <= |WriteAt(f, pos, d)| && WriteAt(f, pos, d)[..n] == f[..n]
  {
  }

  lemma WriteAtHere(f: seq<byte>, pos: nat, d: seq<byte>)
    ensures pos + |d| <= |WriteAt(f, pos, d)| && WriteAt(f, pos, d)[pos..pos + |d|] == d
  {
  }

  /** Writing later sections leaves everything below them alone. */
  lemma {:induction false} WriteSectionsBefore(f: seq<byte>, secs: seq<Section>, n: nat)
    requires n <= |f| && forall k | 0 <= k < |secs| :: n <= secs[k].ptr
    ensures n <= |WriteSections(f, secs)| && WriteSections(f, secs)[..n] == f[..n]
    decreases |secs|
  {
    hide WriteAt;
    if secs != [] {
      WriteAtBefore(f, secs[0].ptr, secs[0].data, n);
      WriteSectionsBefore(WriteAt(f, secs[0].ptr, secs[0].data), secs[1..], n);
    }
  }

  lemma {:induction false} WriteSectionsData(f: seq<byte>, secs: seq<Section>, k: nat)
    requires RawDisjoint(secs) && k < |secs|
    ensures var w, s := WriteSections(f, secs), secs[k];
            s.ptr + |s.data| <= |w| && w[s.ptr..s.ptr + |s.data|] == s.data
    decreases |secs|
  {
    hide WriteAt, FileUp;
    var f', s := WriteAt(f, secs[0].ptr, secs[0].data), secs[0];
    if k == 0 {
      var n := s.ptr + |s.data|;
      WriteAtHere(f, s.ptr, s.data);
      WriteSectionsBefore(f', secs[1..], n);
      assert WriteSections(f, secs)[..n][s.ptr..] == f'[..n][s.ptr..];
    } else {
      WriteSectionsData(f', secs[1..], k - 1);
    }
  }

  lemma {:induction false} WriteSectionsLength(f: seq<byte>, secs: seq<Section>, end: nat)
    requires |f| <= end && forall k | 0 <= k < |secs| :: secs[k].ptr + |secs[k].data| <= end
    ensures |WriteSections(f, secs)| <= end
    decreases |secs|
  {
    if secs != [] {
      WriteSectionsLength(WriteAt(f, secs[0].ptr, secs[0].data), secs[1..], end);
    }
  }

  /** The file has the headers in front and every section's data at its pointer. */
  predicate Contains(f: seq<byte>, c: Constants, image: Image)
  {
    var h := Headers(c, image);
    h <= f &&
    forall k | 0 <= k < |image.sections| ::
      var s := image.sections[k]; s.ptr + |s.data| <= |f| && f[s.ptr..s.ptr + |s.data|] == s.data
  }

  lemma DataEndsBefore(secs: seq<Section>, start: nat, k: nat)
    requires RawDisjoint(secs) && k < |secs|
    ensures secs[k].ptr + |secs[k].data| <= FileEnd(secs, start)
  {
    hide FileUp;
  }

  lemma {:induction false} OffsetIsEnd(secs: seq<Section>, start: nat)
    requires RawChain(secs, start) && start % 512 == 0
    ensures OffsetAfter(secs, start) == FileEnd(secs, start)
    decreases |secs|
  {
    hide FileUp, RawChain;
    if secs != [] {
      FileUpFrom(start, |secs[0].data|);
      ChainTail(secs, start);
      OffsetIsEnd(secs[1..], FileUp(start + |secs[0].data|));
      assert |secs| > 1 ==> secs[1..][|secs| - 2] == secs[|secs| - 1];
    }
  }

  lemma ChainTail(secs: seq<Section>, start: nat)
    requires RawChain(secs, start) && secs != []
    ensures secs[0].ptr == start && RawChain(secs[1..], start + FileUp(|secs[0].data|))
  {
    hide FileUp;
  }

  /** Sections that are in order already are written in that order. */
  lemma FileInOrder(c: Constants, image: Image)
    requires Disjoint(image.sections)
    ensures FileOf(c, image) ==
            Resize(WriteSections(Headers(c, image), image.sections), OffsetAfter(image.sections, image.sizeOfHeaders))
  {
    hide Headers, WriteSections, OffsetAfter, Resize, Disjoint, Sorted;
    PlacedInOrder(image);
    assert image.(sections := image.sections) == image;
  }

  lemma FileContains(c: Constants, image: Image)
    requires Written(image) && image.sections != []
    ensures Contains(FileOf(c, image), c, image)
  {
    hide Headers, WriteSections, SectionTable, Disjoint, FileEnd, OffsetAfter, SectionOk, FileUp, FileOf;
    FileInOrder(c, image);
    var secs, h := image.sections, Headers(c, image);
    var w, end := WriteSections(h, secs), FileEnd(secs, image.sizeOfHeaders);
    forall k | 0 <= k < |secs|
      ensures |h| <= secs[k].ptr && secs[k].ptr + |secs[k].data| <= end
    {
      FirstPtrLeast(secs, image.sizeOfHeaders, k);
      DataEndsBefore(secs, image.sizeOfHeaders, k);
    }
    assert |h| <= secs[0].ptr && secs[0].ptr + |secs[0].data| <= end;
    OffsetIsEnd(secs, image.sizeOfHeaders);
    WriteSectionsLength(h, secs, end);
    WriteSectionsBefore(h, secs, |h|);
    assert w[..|h|] == h;
    forall k | 0 <= k < |secs|
      ensures var s := secs[k];
              s.ptr + |s.data| <= |FileOf(c, image)| && FileOf(c, image)[s.ptr..s.ptr + |s.data|] == s.data
    {
      WriteSectionsData(h, secs, k);
    }
  }

  /** Writing the sections leaves alone what none of them covers; what they extend over is zero. */
  lemma {:induction false} WriteSectionsElsewhere(f: seq<byte>, secs: seq<Section>, i: nat)
    requires i < |WriteSections(f, secs)|
    requires forall k | 0 <= k < |secs| :: !(secs[k].ptr <= i < secs[k].ptr + |secs[k].data|)
    ensures WriteSections(f, secs)[i] == if i < |f| then f[i] else 0
    decreases |secs|
  {
    if secs != [] {
      WriteSectionsElsewhere(WriteAt(f, secs[0].ptr, secs[0].data), secs[1..], i);
    }
  }

  /** The file ends with the last section's data, rounded up to 512, and everything between the
      headers and the sections' data is zero. */
  lemma FileOtherwiseZero(c: Constants, image: Image, i: nat)
    requires Written(image) && image.sections != [] && i < |FileOf(c, image)|
    requires |Headers(c, image)| <= i
    requires forall k | 0 <= k < |image.sections| ::
               var s := image.sections[k]; !(s.ptr <= i < s.ptr + |s.data|)
    ensures FileOf(c, image)[i] == 0
    ensures var last := image.sections[|image.sections| - 1];
            |FileOf(c, image)| == last.ptr + (|last.data| + 511) / 512 * 512
  {
    hide Headers, WriteSections, Disjoint, OffsetAfter, SectionOk, FileUp, FileOf;
    FileInOrder(c, image);
    var secs, h := image.sections, Headers(c, image);
    OffsetIsEnd(secs, image.sizeOfHeaders);
    RoundedUp(|secs[|secs| - 1].data|);
    if i < |WriteSections(h, secs)| {
      WriteSectionsElsewhere(h, secs, i);
    }
  }

  lemma RoundedUp(n: nat)
    ensures FileUp(n) == (n + 511) / 512 * 512
  {
    hide FileUp;
  }

  lemma FirstPtrLeast(secs: seq<Section>, start: nat, k: nat)
    requires RawChain(secs, start) && RawDisjoint(secs) && k < |secs|
    ensures start <= secs[k].ptr
  {
    hide FileUp;
    assert k > 0 ==> secs[0].ptr + FileUp(|secs[0].data|) <= secs[k].ptr;
  }
}
