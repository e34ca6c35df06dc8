/** Every field of the headers, as a reader of the bytes finds it ("MS-DOS 2.0 Stub", "COFF File
    Header" and "Optional Header" of the PE Format specification; tools/elf2efi.py:552-558). */
module HeaderFields {
  import opened Bytes
  import opened PeImage
  import opened PeFile
  import opened Loader

  /** The start of the optional header, up to BaseOfCode. */
  lemma StartFields(image: Image, s: seq<byte>)
    requires s == OptionalStart(image)
    ensures Field(s, 0, 2) == 0x20B && Field(s, 2, 2) == 0
    ensures Field(s, 4, 4) == image.counts.sizeOfCode % TWO_32
    ensures Field(s, 8, 4) == image.counts.sizeOfInitializedData % TWO_32 && Field(s, 12, 4) == 0
    ensures Field(s, 16, 4) == image.entry % TWO_32 && Field(s, 20, 4) == image.counts.baseOfCode % TWO_32
  {
    hide ToLe, Field, FromLe, Pow256, Zeros;
    Widths();
    ZerosAreLe(2);
    var n := image.counts;
    var a, b, d := ToLe(0x20B, 2), ToLe(0, 2), ToLe(n.sizeOfCode, 4);
    var e, z, p, q := ToLe(n.sizeOfInitializedData, 4), ToLe(0, 4), ToLe(image.entry, 4), ToLe(n.baseOfCode, 4);
    assert s == [] + a + (b + d + e + z + p + q);
    FieldCut(s, 0, [], 0x20B, 2, b + d + e + z + p + q);
    assert s == a + b + (d + e + z + p + q);
    FieldCut(s, 2, a, 0, 2, d + e + z + p + q);
    assert s == (a + b) + d + (e + z + p + q);
    FieldCut(s, 4, a + b, n.sizeOfCode, 4, e + z + p + q);
    assert s == (a + b + d) + e + (z + p + q);
    FieldCut(s, 8, a + b + d, n.sizeOfInitializedData, 4, z + p + q);
    assert s == (a + b + d + e) + z + (p + q);
    FieldCut(s, 12, a + b + d + e, 0, 4, p + q);
    FieldCut(s, 16, a + b + d + e + z, image.entry, 4, q);
    assert s == (a + b + d + e + z + p) + q + [];
    FieldCut(s, 20, a + b + d + e + z + p, n.baseOfCode, 4, []);
  }

  lemma {:induction false} ZerosAreLe(k: nat)
    ensures Zeros(k) == ToLe(0, k)
  {
    if k > 0 {
      ZerosAreLe(k - 1);
      assert Zeros(k) == [0] + Zeros(k - 1);
    }
  }

  lemma VersionFields(c: Constants, s: seq<byte>)
    requires s == Versions(c)
    ensures Field(s, 0, 4) == 0 && Field(s, 4, 2) == c.imageMajor % 0x1_0000
    ensures Field(s, 6, 2) == c.imageMinor % 0x1_0000 && Field(s, 8, 2) == c.subsystemMajor % 0x1_0000
    ensures Field(s, 10, 2) == c.subsystemMinor % 0x1_0000 && Field(s, 12, 4) == 0
  {
    hide ToLe, Field, FromLe, Pow256, Zeros;
    Widths();
    ZerosAreLe(4);
    var z, a, b := ToLe(0, 4), ToLe(c.imageMajor, 2), ToLe(c.imageMinor, 2);
    var d, e := ToLe(c.subsystemMajor, 2), ToLe(c.subsystemMinor, 2);
    assert s == [] + z + (a + b + d + e + z);
    FieldCut(s, 0, [], 0, 4, a + b + d + e + z);
    assert s == z + a + (b + d + e + z);
    FieldCut(s, 4, z, c.imageMajor, 2, b + d + e + z);
    assert s == (z + a) + b + (d + e + z);
    FieldCut(s, 6, z + a, c.imageMinor, 2, d + e + z);
    assert s == (z + a + b) + d + (e + z);
    FieldCut(s, 8, z + a + b, c.subsystemMajor, 2, e + z);
    FieldCut(s, 10, z + a + b + d, c.subsystemMinor, 2, z);
    assert s == (z + a + b + d + e) + z + [];
    FieldCut(s, 12, z + a + b + d + e, 0, 4, []);
  }

  /** From CheckSum to LoaderFlags. */
  lemma EnvironmentFields(c: Constants, s: seq<byte>)
    requires s == Environment(c)
    ensures Field(s, 0, 4) == 0 && Field(s, 4, 2) == c.subsystem % 0x1_0000 && Field(s, 6, 2) == 0x160
    ensures Field(s, 8, 8) == 0x100000 && Field(s, 16, 8) == 0x1000
    ensures Field(s, 24, 8) == 0x100000 && Field(s, 32, 8) == 0x1000 && Field(s, 40, 4) == 0
  {
    hide ToLe, Field, FromLe, Pow256, Zeros;
    Widths();
    ZerosAreLe(4);
    var z, a, b := ToLe(0, 4), ToLe(c.subsystem, 2), ToLe(0x160, 2);
    var r, m := ToLe(0x100000, 8), ToLe(0x1000, 8);
    assert s == [] + z + (a + b + r + m + r + m + z);
    FieldCut(s, 0, [], 0, 4, a + b + r + m + r + m + z);
    assert s == z + a + (b + r + m + r + m + z);
    FieldCut(s, 4, z, c.subsystem, 2, b + r + m + r + m + z);
    assert s == (z + a) + b + (r + m + r + m + z);
    FieldCut(s, 6, z + a, 0x160, 2, r + m + r + m + z);
    assert s == (z + a + b) + r + (m + r + m + z);
    FieldCut(s, 8, z + a + b, 0x100000, 8, m + r + m + z);
    assert s == (z + a + b + r) + m + (r + m + z);
    FieldCut(s, 16, z + a + b + r, 0x1000, 8, r + m + z);
    assert s == (z + a + b + r + m) + r + (m + z);
    FieldCut(s, 24, z + a + b + r + m, 0x100000, 8, m + z);
    FieldCut(s, 32, z + a + b + r + m + r, 0x1000, 8, z);
    assert s == (z + a + b + r + m + r + m) + z + [];
    FieldCut(s, 40, z + a + b + r + m + r + m, 0, 4, []);
  }

  lemma CoffFields(c: Constants, n: nat, s: seq<byte>)
    requires s == Coff(c, n)
    ensures Field(s, 0, 2) == c.machine % 0x1_0000 && Field(s, 2, 2) == n % 0x1_0000
    ensures Field(s, 4, 4) == c.timeStamp % TWO_32 && Field(s, 8, 8) == 0
    ensures Field(s, 16, 2) == 240 && Field(s, 18, 2) == 0x22E
  {
    hide ToLe, Field, FromLe, Pow256, Zeros;
    Widths();
    ZerosAreLe(8);
    var a, b, d := ToLe(c.machine, 2), ToLe(n, 2), ToLe(c.timeStamp, 4);
    var z, e, g := ToLe(0, 8), ToLe(OPTIONAL_SIZE, 2), ToLe(0x22E, 2);
    assert s == [] + a + (b + d + z + e + g);
    FieldCut(s, 0, [], c.machine, 2, b + d + z + e + g);
    assert s == a + b + (d + z + e + g);
    FieldCut(s, 2, a, n, 2, d + z + e + g);
    assert s == (a + b) + d + (z + e + g);
    FieldCut(s, 4, a + b, c.timeStamp, 4, z + e + g);
    assert s == (a + b + d) + z + (e + g);
    FieldCut(s, 8, a + b + d, 0, 8, e + g);
    assert s == (a + b + d + z) + e + g;
    FieldCut(s, 16, a + b + d + z, OPTIONAL_SIZE, 2, g);
    assert s == (a + b + d + z + e) + g + [];
    FieldCut(s, 18, a + b + d + z + e, 0x22E, 2, []);
  }

  /** The DOS header: "MZ", the place of the PE header at 0x3C, and zeros. */
  lemma DosFields(f: seq<byte>, c: Constants, image: Image)
    requires Headers(c, image) <= f
    ensures |f| >= 64 && f[0] == 0x4D && f[1] == 0x5A && f[60] == 64 && f[61] == 0 && f[62] == 0 && f[63] == 0
    ensures forall i | 2 <= i < 60 :: f[i] == 0
  {
    hide Headers, DosHeader;
    DosFirst(c, image);
    DosBytes();
    CutPrefix(Headers(c, image), f, 0, 64);
    assert forall i | 0 <= i < 64 :: f[i] == f[0..64][i];
  }

  lemma DosFirst(c: Constants, image: Image)
    ensures Headers(c, image)[0..64] == DosHeader()
  {
    hide DosHeader, Coff, Optional, SectionTable;
  }

  lemma DosBytes()
    ensures var d := DosHeader();
            d[0] == 0x4D && d[1] == 0x5A && d[60] == 64 && d[61] == 0 && d[62] == 0 && d[63] == 0 &&
            forall i | 2 <= i < 60 :: d[i] == 0
  {
    assert ToLe(64, 2) == [64, 0];
  }

  /** Where the parts of the headers lie in the file. */
  lemma PartsInFile(f: seq<byte>, c: Constants, image: Image)
    requires Headers(c, image) <= f
    ensures |f| >= 328 && f[0] == 0x4D && f[1] == 0x5A && f[64..68] == [0x50, 0x45, 0, 0]
    ensures f[68..88] == Coff(c, |image.sections|) && f[88..112] == OptionalStart(image)
    ensures f[128..144] == Versions(c) && f[148..152] == ToLe(image.sizeOfHeaders, 4) && f[152..196] == Environment(c)
    ensures f[200..240] == Zeros(40) && f[248..328] == Zeros(80)
  {
    hide Coff, OptionalStart, Versions, Environment, SectionTable, ToLe, Zeros;
    var h := Headers(c, image);
    assert |f| >= |h| && f[..|h|] == h;
    HeaderParts(c, image);
    CutPrefix(h, f, 0, 1);
    CutPrefix(h, f, 1, 2);
    CutPrefix(h, f, 64, 68);
    CutPrefix(h, f, 68, 88);
    CutPrefix(h, f, 88, 328);
    OptionalParts(c, image, f[88..328]);
    CutInside(f, 0, 24);
    CutInside(f, 40, 56);
    CutInside(f, 60, 64);
    CutInside(f, 64, 108);
    CutInside(f, 112, 152);
    CutInside(f, 160, 240);
  }

  lemma CutPrefix(h: seq<byte>, f: seq<byte>, a: nat, b: nat)
    requires h <= f && a <= b <= |h|
    ensures f[a..b] == h[a..b]
  {
    assert f[..|h|][a..b] == f[a..b];
  }

  lemma CutInside(f: seq<byte>, a: nat, b: nat)
    requires |f| >= 328 && a <= b <= 240
    ensures f[88..328][a..b] == f[88 + a..88 + b]
  {
    SliceOfSlice(f, 88, 240, a, b - a);
  }

  lemma HeaderParts(c: Constants, image: Image)
    ensures var h := Headers(c, image);
            |h| >= 328 && h[0..1] == [0x4D] && h[1..2] == [0x5A] && h[64..68] == [0x50, 0x45, 0, 0] &&
            h[68..88] == Coff(c, |image.sections|) && h[88..328] == Optional(c, image)
  {
    hide Coff, Optional, SectionTable, ToLe, Zeros;
  }

  lemma OptionalParts(c: Constants, image: Image, o: seq<byte>)
    requires o == Optional(c, image)
    ensures o[0..24] == OptionalStart(image) && o[40..56] == Versions(c)
    ensures o[60..64] == ToLe(image.sizeOfHeaders, 4) && o[64..108] == Environment(c)
    ensures o[112..152] == Zeros(40) && o[160..240] == Zeros(80)
  {
    hide OptionalStart, Versions, Environment, ToLe, Zeros;
  }

  lemma FieldFrom(f: seq<byte>, at: nat, len: nat, part: seq<byte>, i: nat, width: nat)
    requires at + len <= |f| && f[at..at + len] == part && i + width <= len
    ensures Field(f, at + i, width) == Field(part, i, width)
  {
    hide Field;
    FieldInside(f, at, len, i, width);
  }

  /** The fields that are the same in every file, or come from the command line, the target and
      the clock. */
  lemma FixedFields(f: seq<byte>, c: Constants, image: Image)
    requires Headers(c, image) <= f
    ensures |f| >= 328 && f[0] == 0x4D && f[1] == 0x5A && f[64..68] == [0x50, 0x45, 0, 0]
    // the COFF header
    ensures Field(f, 68, 2) == c.machine % 0x1_0000 && Field(f, 70, 2) == |image.sections| % 0x1_0000
    ensures Field(f, 72, 4) == c.timeStamp % TWO_32 && Field(f, 76, 8) == 0
    ensures Field(f, 84, 2) == 240 && Field(f, 86, 2) == 0x22E
    // the optional header: magic, linker version, uninitialized data, versions
    ensures Field(f, 88, 2) == 0x20B && Field(f, 90, 2) == 0 && Field(f, 100, 4) == 0
    ensures Field(f, 128, 4) == 0 && Field(f, 132, 2) == c.imageMajor % 0x1_0000
    ensures Field(f, 134, 2) == c.imageMinor % 0x1_0000 && Field(f, 136, 2) == c.subsystemMajor % 0x1_0000
    ensures Field(f, 138, 2) == c.subsystemMinor % 0x1_0000 && Field(f, 140, 4) == 0
    // check sum, subsystem, DLL characteristics, stack and heap sizes, loader flags
    ensures Field(f, 152, 4) == 0 && Field(f, 156, 2) == c.subsystem % 0x1_0000 && Field(f, 158, 2) == 0x160
    ensures Field(f, 160, 8) == 0x100000 && Field(f, 168, 8) == 0x1000
    ensures Field(f, 176, 8) == 0x100000 && Field(f, 184, 8) == 0x1000 && Field(f, 192, 4) == 0
    // the other fifteen directories
    ensures (forall i | 200 <= i < 240 :: f[i] == 0) && forall i | 248 <= i < 328 :: f[i] == 0
  {
    hide Field, Headers, Coff, OptionalStart, Versions, Environment;
    PartsInFile(f, c, image);
    CoffInFile(f, c, |image.sections|);
    StartInFile(f, image);
    VersionsInFile(f, c);
    EnvironmentInFile(f, c);
    assert forall i | 200 <= i < 240 :: f[i] == f[200..240][i - 200];
    assert forall i | 248 <= i < 328 :: f[i] == f[248..328][i - 248];
  }

  lemma CoffInFile(f: seq<byte>, c: Constants, n: nat)
    requires |f| >= 328 && f[68..88] == Coff(c, n)
    ensures Field(f, 68, 2) == c.machine % 0x1_0000 && Field(f, 70, 2) == n % 0x1_0000
    ensures Field(f, 72, 4) == c.timeStamp % TWO_32 && Field(f, 76, 8) == 0
    ensures Field(f, 84, 2) == 240 && Field(f, 86, 2) == 0x22E
  {
    hide Field, Coff;
    var s := Coff(c, n);
    CoffFields(c, n, s);
    FieldFrom(f, 68, 20, s, 0, 2);
    FieldFrom(f, 68, 20, s, 2, 2);
    FieldFrom(f, 68, 20, s, 4, 4);
    FieldFrom(f, 68, 20, s, 8, 8);
    FieldFrom(f, 68, 20, s, 16, 2);
    FieldFrom(f, 68, 20, s, 18, 2);
  }

  lemma StartInFile(f: seq<byte>, image: Image)
    requires |f| >= 328 && f[88..112] == OptionalStart(image)
    ensures Field(f, 88, 2) == 0x20B && Field(f, 90, 2) == 0
    ensures Field(f, 92, 4) == image.counts.sizeOfCode % TWO_32
    ensures Field(f, 96, 4) == image.counts.sizeOfInitializedData % TWO_32 && Field(f, 100, 4) == 0
    ensures Field(f, 104, 4) == image.entry % TWO_32 && Field(f, 108, 4) == image.counts.baseOfCode % TWO_32
  {
    hide Field, OptionalStart;
    var s := OptionalStart(image);
    StartFields(image, s);
    FieldFrom(f, 88, 24, s, 0, 2);
    FieldFrom(f, 88, 24, s, 2, 2);
    FieldFrom(f, 88, 24, s, 4, 4);
    FieldFrom(f, 88, 24, s, 8, 4);
    FieldFrom(f, 88, 24, s, 12, 4);
    FieldFrom(f, 88, 24, s, 16, 4);
    FieldFrom(f, 88, 24, s, 20, 4);
  }

  lemma VersionsInFile(f: seq<byte>, c: Constants)
    requires |f| >= 328 && f[128..144] == Versions(c)
    ensures Field(f, 128, 4) == 0 && Field(f, 132, 2) == c.imageMajor % 0x1_0000
    ensures Field(f, 134, 2) == c.imageMinor % 0x1_0000 && Field(f, 136, 2) == c.subsystemMajor % 0x1_0000
    ensures Field(f, 138, 2) == c.subsystemMinor % 0x1_0000 && Field(f, 140, 4) == 0
  {
    hide Field, Versions;
    var s := Versions(c);
    VersionFields(c, s);
    FieldFrom(f, 128, 16, s, 0, 4);
    FieldFrom(f, 128, 16, s, 4, 2);
    FieldFrom(f, 128, 16, s, 6, 2);
    FieldFrom(f, 128, 16, s, 8, 2);
    FieldFrom(f, 128, 16, s, 10, 2);
    FieldFrom(f, 128, 16, s, 12, 4);
  }

  lemma EnvironmentInFile(f: seq<byte>, c: Constants)
    requires |f| >= 328 && f[152..196] == Environment(c)
    ensures Field(f, 152, 4) == 0 && Field(f, 156, 2) == c.subsystem % 0x1_0000 && Field(f, 158, 2) == 0x160
    ensures Field(f, 160, 8) == 0x100000 && Field(f, 168, 8) == 0x1000
    ensures Field(f, 176, 8) == 0x100000 && Field(f, 184, 8) == 0x1000 && Field(f, 192, 4) == 0
  {
    hide Field, Environment;
    var s := Environment(c);
    EnvironmentFields(c, s);
    FieldFrom(f, 152, 44, s, 0, 4);
    FieldFrom(f, 152, 44, s, 4, 2);
    FieldFrom(f, 152, 44, s, 6, 2);
    FieldFrom(f, 152, 44, s, 8, 8);
    FieldFrom(f, 152, 44, s, 16, 8);
    FieldFrom(f, 152, 44, s, 24, 8);
    FieldFrom(f, 152, 44, s, 32, 8);
    FieldFrom(f, 152, 44, s, 40, 4);
  }

  /** The fields a loader uses. */
  lemma LoaderFields(f: seq<byte>, c: Constants, image: Image)
    requires FieldsFit(image) && Headers(c, image) <= f
    ensures |f| >= 328 && Field(f, 112, 8) == image.imageBase
    ensures Field(f, 120, 4) == 0x1000 && Field(f, 124, 4) == 512 && Field(f, 144, 4) == image.sizeOfImage
    ensures Field(f, 196, 4) == 16 && Field(f, 240, 4) == image.relocAddress && Field(f, 244, 4) == image.relocSize
  {
    hide Field, Headers, Optional;
    OptionalAt(c, image, f);
    var o := f[88..88 + OPTIONAL_SIZE];
    OptionalFront(c, image, o);
    OptionalImageSize(c, image, o);
    OptionalBack(c, image, o);
    FieldInside(f, 88, OPTIONAL_SIZE, 24, 8);
    FieldInside(f, 88, OPTIONAL_SIZE, 32, 4);
    FieldInside(f, 88, OPTIONAL_SIZE, 36, 4);
    FieldInside(f, 88, OPTIONAL_SIZE, 56, 4);
    FieldInside(f, 88, OPTIONAL_SIZE, 108, 4);
    FieldInside(f, 88, OPTIONAL_SIZE, 152, 4);
    FieldInside(f, 88, OPTIONAL_SIZE, 156, 4);
  }
}
