/** The conversion preserves meaning: loading the PE file at any base gives every
    retained section the memory of the ELF file loaded with a bias. */
module LoadEquivalence {
  import opened Bytes
  import opened ElfModel
  import opened Coalesce
  import opened Relocate
  import opened RelocBlocks
  import opened PeImage
  import opened Layout
  import opened PeFile
  import opened Loader
  import RelocFormat

  // ----- loading an ELF file (System V AMD64 psABI, section 4.4) -----

  /** The byte of the file's memory image at link address `a`. */
  function ElfByte(es: seq<ElfSection>, a: nat): byte {
    if es == [] then 0
    else if Retained(es[0]) && Inside(es[0], a) then es[0].data[a - es[0].addr]
    else ElfByte(es[1..], a)
  }

  function ElfWord(es: seq<ElfSection>, a: nat): (w: seq<byte>)
    ensures |w| == 8 && forall i | 0 <= i < 8 :: w[i] == ElfByte(es, a + i)
  {
    [ElfByte(es, a), ElfByte(es, a + 1), ElfByte(es, a + 2), ElfByte(es, a + 3),
     ElfByte(es, a + 4), ElfByte(es, a + 5), ElfByte(es, a + 6), ElfByte(es, a + 7)]
  }

  /** The relocation whose word covers `a`. */
  function FindCover(rs: seq<Reloc>, a: nat): Option<Reloc> {
    if rs == [] then None
    else if Covers8(rs[0], a) then Some(rs[0])
    else FindCover(rs[1..], a)
  }

  /** The byte at `bias + a` once the ELF file is loaded with `bias`: a RELATIVE
      relocation stores bias + addend, the addend of a REL one being the word in place. */
  function ElfLoaded(elf: Elf, bias: nat, a: nat): byte {
    var r := FindCover(AllRelatives(elf.tables, elf), a);
    if r.None? then ElfByte(elf.sections, a)
    else
      var addend := if r.value.rela then r.value.addend else FromLe(ElfWord(elf.sections, r.value.offset));
      var value := (bias + addend) % TWO_64;
      FoundCovers(AllRelatives(elf.tables, elf), a);
      ToLe(value, 8)[a - r.value.offset]
  }

  lemma {:induction false} FoundCovers(rs: seq<Reloc>, a: nat)
    ensures var r := FindCover(rs, a);
            if r.Some? then Covers8(r.value, a) && r.value in rs
            else forall i | 0 <= i < |rs| :: !Covers8(rs[i], a)
  {
    if rs != [] && !Covers8(rs[0], a) {
      FoundCovers(rs[1..], a);
    }
  }

  // ----- mapping the sections -----

  lemma {:induction false} PeekSnoc(secs: seq<Section>, s: Section, a: nat)
    requires Disjoint(secs + [s])
    ensures Peek(secs + [s], a) == if s.Covers(a) then s.At(a) else Peek(secs, a)
  {
    hide Peek, Disjoint;
    var all := secs + [s];
    if s.Covers(a) {
      PeekIs(all, |secs|, a);
    } else if j: nat :| j < |secs| && secs[j].Covers(a) {
      assert all[j] == secs[j];
      PrefixDisjoint(secs, s);
      PeekIs(all, j, a);
      PeekIs(secs, j, a);
    } else {
      PeekNothing(all, a);
      PeekNothing(secs, a);
    }
  }

  lemma PrefixDisjoint(secs: seq<Section>, s: Section)
    requires Disjoint(secs + [s])
    ensures Disjoint(secs)
  {
    assert secs == (secs + [s])[..|secs|];
  }

  predicate Shows(mem: Memory, secs: seq<Section>, size: nat) {
    |mem| == size && forall a | 0 <= a < size :: mem[a] == Peek(secs, a)
  }

  lemma ShownAt(mem: Memory, secs: seq<Section>, size: nat, a: nat)
    requires Shows(mem, secs, size) && a < size
    ensures |mem| == size && mem[a] == Peek(secs, a)
  {
  }

  lemma OverlayShows(mem: Memory, secs: seq<Section>, s: Section, size: nat)
    requires Shows(mem, secs, size) && Disjoint(secs + [s]) && s.va + |s.data| <= size
    ensures Shows(Overlay(mem, s.va, s.data), secs + [s], size)
  {
    hide Peek, Disjoint;
    var m := Overlay(mem, s.va, s.data);
    forall a | 0 <= a < size
      ensures m[a] == Peek(secs + [s], a)
    {
      PeekSnoc(secs, s, a);
    }
  }

  const PE_ALIGNMENTS := Alignments(PAGE, FILE_ALIGNMENT)

  lemma MapsSection(mem: Memory, f: seq<byte>, c: Constants, image: Image, k: nat)
    requires LaidOut(image) && Contains(f, c, image) && k < |image.sections| && |mem| == image.sizeOfImage
    ensures var s := image.sections[k];
            s.va + |s.data| <= |mem| &&
            var h := SectionFields(NameBytes(s.name), s.vsize, s.va, s.rawSize, s.ptr, s.perms % TWO_32);
            MapSection(mem, f, h, PE_ALIGNMENTS) == Some(Overlay(mem, s.va, s.data))
  {
    hide RawChain, RawDisjoint, Disjoint, Headers, FileUp, Overlay;
    assert SectionOk(image.sections[k], image.sizeOfHeaders, image.sizeOfImage);
  }

  lemma {:induction false} MappedSections(f: seq<byte>, c: Constants, image: Image, n: nat)
    requires LaidOut(image) && Contains(f, c, image) && n <= |image.sections|
    ensures var mem := MapSections(Zeros(image.sizeOfImage), f, HeaderBytes(0), n, PE_ALIGNMENTS);
            mem.Some? && Shows(mem.value, image.sections[..n], image.sizeOfImage)
  {
    hide RawChain, RawDisjoint, RawAligned, InBounds, Disjoint, Contains, ReadSectionHeader, MapSection, Overlay,
         Zeros;
    if n == 0 {
      NothingShown(image.sizeOfImage);
    } else {
      MappedSections(f, c, image, n - 1);
      var mem := MapSections(Zeros(image.sizeOfImage), f, HeaderBytes(0), n - 1, PE_ALIGNMENTS).value;
      ReadBackSection(f, c, image, n - 1);
      MapsSection(mem, f, c, image, n - 1);
      assert image.sections[..n] == image.sections[..n - 1] + [image.sections[n - 1]];
      FirstDisjoint(image.sections, n);
      OverlayShows(mem, image.sections[..n - 1], image.sections[n - 1], image.sizeOfImage);
    }
  }

  lemma NothingShown(size: nat)
    ensures Shows(Zeros(size), [], size)
  {
  }

  lemma FirstDisjoint(secs: seq<Section>, n: nat)
    requires Disjoint(secs) && n <= |secs|
    ensures Disjoint(secs[..n])
  {
  }

  // ----- applying the fixups -----

  predicate FixupsApart(fs: seq<nat>) {
    forall i, j | 0 <= i < j < |fs| :: fs[i] + 8 <= fs[j] || fs[j] + 8 <= fs[i]
  }

  predicate FixupsInside(fs: seq<nat>, size: nat) {
    forall i | 0 <= i < |fs| :: fs[i] + 8 <= size
  }

  function Fixed(mem: Memory, at: nat, delta: int): seq<byte>
    requires at + 8 <= |mem|
  {
    ToLe((FromLe(mem[at..at + 8]) + delta) % TWO_64, 8)
  }

  lemma {:induction false} FixElsewhere(mem: Memory, fs: seq<nat>, delta: int, a: nat)
    requires FixupsInside(fs, |mem|) && a < |mem|
    requires forall i | 0 <= i < |fs| :: !(fs[i] <= a < fs[i] + 8)
    ensures var m := FixAll(mem, fs, delta);
            m.Some? && |m.value| == |mem| && m.value[a] == mem[a]
    decreases |fs|
  {
    hide ToLe, FromLe;
    if fs != [] {
      FixElsewhere(Fix(mem, fs[0], delta).value, fs[1..], delta, a);
    }
  }

  lemma FixLeavesWord(mem: Memory, at: nat, delta: int, other: nat)
    requires at + 8 <= |mem| && other + 8 <= |mem|
    requires at + 8 <= other || other + 8 <= at
    ensures Fix(mem, at, delta).value[other..other + 8] == mem[other..other + 8]
  {
    hide ToLe, FromLe;
  }

  lemma FixOwnWord(mem: Memory, at: nat, delta: int, a: nat)
    requires at + 8 <= |mem|
    ensures Fix(mem, at, delta).Some? && |Fix(mem, at, delta).value| == |mem|
    ensures at <= a < at + 8 ==> Fix(mem, at, delta).value[a] == Fixed(mem, at, delta)[a - at]
  {
    hide ToLe, FromLe;
  }

  lemma SameFixed(a: Memory, b: Memory, at: nat, delta: int)
    requires at + 8 <= |a| && at + 8 <= |b| && a[at..at + 8] == b[at..at + 8]
    ensures Fixed(a, at, delta) == Fixed(b, at, delta)
  {
  }

  lemma {:induction false} FixWord(mem: Memory, fs: seq<nat>, delta: int, i: nat, a: nat)
    requires FixupsApart(fs) && FixupsInside(fs, |mem|) && i < |fs| && fs[i] <= a < fs[i] + 8
    ensures var m := FixAll(mem, fs, delta);
            m.Some? && |m.value| == |mem| && m.value[a] == Fixed(mem, fs[i], delta)[a - fs[i]]
    decreases |fs|
  {
    hide Fix, Fixed;
    FixOwnWord(mem, fs[0], delta, a);
    var next := Fix(mem, fs[0], delta).value;
    if i == 0 {
      FixElsewhere(next, fs[1..], delta, a);
    } else {
      FixLeavesWord(mem, fs[0], delta, fs[i]);
      FixWord(next, fs[1..], delta, i - 1, a);
      assert Fixed(next, fs[i], delta) == Fixed(mem, fs[i], delta) by {
        SameFixed(next, mem, fs[i], delta);
      }
    }
  }

  // ----- the fixups of a converted image -----

  lemma {:induction false} ApartCountsOnce(s: seq<nat>, v: nat)
    requires FixupsApart(s)
    ensures multiset(s)[v] <= 1
  {
    if s != [] {
      var n := |s| - 1;
      ApartCountsOnce(s[..n], v);
      assert s == s[..n] + [s[n]];
      assert forall i | 0 <= i < n :: s[..n][i] != s[n];
    }
  }

  lemma TwoCountTwice(s: seq<nat>, i: nat, j: nat)
    requires i < j < |s| && s[i] == s[j]
    ensures multiset(s)[s[i]] >= 2
  {
    var v := s[i];
    assert s == s[..j] + s[j..];
    assert s[..j][i] == v && s[j..][0] == v;
    assert v in multiset(s[..j]) && v in multiset(s[j..]);
    assert multiset(s) == multiset(s[..j]) + multiset(s[j..]);
  }

  /** Being disjoint words depends only on the multiset. */
  lemma ApartByCounts(fs: seq<nat>, s: seq<nat>)
    requires FixupsApart(s) && multiset(fs) == multiset(s)
    ensures FixupsApart(fs)
  {
    forall i, j | 0 <= i < j < |fs|
      ensures fs[i] + 8 <= fs[j] || fs[j] + 8 <= fs[i]
    {
      if fs[i] == fs[j] {
        TwoCountTwice(fs, i, j);
        ApartCountsOnce(s, fs[i]);
        assert false;
      }
      assert fs[i] in multiset(s) && fs[j] in multiset(s);
      var p :| 0 <= p < |s| && s[p] == fs[i];
      var q :| 0 <= q < |s| && s[q] == fs[j];
    }
  }

  lemma ShiftedApart(rs: seq<Reloc>, d: nat)
    requires Apart(rs)
    ensures FixupsApart(Shift(Offsets(rs), d))
  {
  }

  /** The sum a fixup computes is what the ELF loader stores. */
  lemma FixupArithmetic(imageBase: nat, d: nat, addend: int, base: nat)
    requires imageBase < TWO_64 && 0 <= imageBase + d + addend < TWO_64
    ensures (imageBase + d + addend + (base - imageBase)) % TWO_64 == (base + d + addend) % TWO_64
  {
  }

  /** A byte of the relocated sections is found in the image, one segment offset up. */
  lemma PeekMoved(elf: Elf, minimum: int, relocated: seq<Section>, image: Image, placed: seq<Section>, k: nat, a: nat)
    requires Fits(elf, minimum) && Assembled(elf, minimum, relocated, image)
    requires OnlyPtrs(image.sections, placed) && Disjoint(placed)
    requires k < |Convert(elf).value| && Convert(elf).value[k].Covers(a)
    ensures Peek(placed, a + Shift32(elf, minimum)) == Peek(relocated, a)
    ensures a + Shift32(elf, minimum) < RelocStart(Convert(elf).value, minimum) <= image.sizeOfImage
  {
    hide Convert, AllRelatives, FileUp, PageUp, RelocBytes, ApplyAll, HeaderSize, SegmentOffset, Below4G, Disjoint,
         Peek, RelocStart;
    var secs, d := Convert(elf).value, Shift32(elf, minimum);
    FitsInReach(elf, minimum);
    ConvertShape(elf);
    assert Disjoint(relocated) by {
      SameShapeDisjoint(secs, relocated);
    }
    assert placed[k].(ptr := image.sections[k].ptr) == image.sections[k];
    PeekIs(relocated, k, a);
    PeekIs(placed, k, a + d);
    MovedSectionOk(elf, minimum, relocated, image, k);
    SizeExactly(elf, minimum, relocated, image);
  }

  lemma SameShapeDisjoint(a: seq<Section>, b: seq<Section>)
    requires SameShape(a, b) && Disjoint(a)
    ensures Disjoint(b)
  {
  }

  /** Before any relocation the sections show the ELF file's own bytes. */
  lemma {:induction false} PeekIsElf(secs: seq<Section>, es: seq<ElfSection>, a: nat)
    requires forall i | 0 <= i < |es| && Retained(es[i]) && Inside(es[i], a) ::
               Peek(secs, a) == es[i].data[a - es[i].addr]
    requires exists i | 0 <= i < |es| :: Retained(es[i]) && Inside(es[i], a)
    ensures Peek(secs, a) == ElfByte(es, a)
  {
    hide Peek, Retained;
    if !(Retained(es[0]) && Inside(es[0], a)) {
      PeekIsElf(secs, es[1..], a);
    }
  }

  lemma ConvertedByte(elf: Elf, i: nat, a: nat) returns (k: nat)
    requires Convert(elf).Ok? && Below4G(elf.sections)
    requires i < |elf.sections| && Retained(elf.sections[i]) && Inside(elf.sections[i], a)
    ensures k < |Convert(elf).value| && Convert(elf).value[k].Covers(a)
    ensures Peek(Convert(elf).value, a) == ElfByte(elf.sections, a)
  {
    hide Convert, Retained, Below4G, Peek, ElfByte, Disjoint, Permissions, FindRelro;
    ConvertShape(elf);
    k := RetainedBytesKeepTheirAddress(elf, i, a);
    forall j | 0 <= j < |elf.sections| && Retained(elf.sections[j]) && Inside(elf.sections[j], a)
      ensures Peek(Convert(elf).value, a) == elf.sections[j].data[a - elf.sections[j].addr]
    {
      var l := RetainedBytesKeepTheirAddress(elf, j, a);
      PeekIs(Convert(elf).value, l, a);
    }
    PeekIsElf(Convert(elf).value, elf.sections, a);
  }

  lemma ConvertedWord(elf: Elf, o: nat)
    requires Convert(elf).Ok? && Below4G(elf.sections) && WordRetained(elf, o)
    ensures Word(Convert(elf).value, o) == ElfWord(elf.sections, o)
  {
    hide Convert, Retained, Below4G, Peek, ElfByte;
    var i :| 0 <= i < |elf.sections| && Retained(elf.sections[i]) && elf.sections[i].addr <= o &&
             o + 8 <= elf.sections[i].addr + |elf.sections[i].data|;
    var w, w' := Word(Convert(elf).value, o), ElfWord(elf.sections, o);
    forall j | 0 <= j < 8
      ensures w[j] == w'[j]
    {
      var k := ConvertedByte(elf, i, o + j);
    }
  }

  // ----- the theorem -----

  lemma LoadPeIs(f: seq<byte>, c: Constants, image: Image, base: nat)
    requires FieldsFit(image) && LaidOut(image) && Contains(f, c, image)
    ensures var mem := MapSections(Zeros(image.sizeOfImage), f, HeaderBytes(0), |image.sections|, PE_ALIGNMENTS);
            mem.Some? && Shows(mem.value, image.sections, image.sizeOfImage) &&
            LoadPe(f, base) == Relocated(mem.value, image.relocAddress, image.relocSize, base - image.imageBase)
  {
    hide MapSections, Relocated, Headers, Field, LaidOut, Zeros, Shows, ReadAlignments, ReadRelocations;
    ReadBackHeaders(f, c, image);
    MappedSections(f, c, image, |image.sections|);
    assert image.sections[..|image.sections|] == image.sections;
  }

  /** The converted image, its relocated sections and its place in the file. */
  predicate Built(elf: Elf, imageBase: nat, minimum: int, relocated: seq<Section>, image: Image) {
    Fits(elf, minimum) && GoodRelocs(elf) && image.imageBase == imageBase < TWO_64 &&
    Assembled(elf, minimum, relocated, image)
  }

  lemma Build(elf: Elf, imageBase: nat, minimum: int) returns (relocated: seq<Section>, image: Image)
    requires Fits(elf, minimum) && GoodRelocs(elf) && imageBase < TWO_64 && Elf2Efi(elf, imageBase, minimum).Ok?
    ensures Built(elf, imageBase, minimum, relocated, image)
    ensures var placed := Elf2Efi(elf, imageBase, minimum).value;
            LaidOut(placed) && placed == image.(sections := placed.sections) &&
            OnlyPtrs(image.sections, placed.sections) && placed.sections != []
  {
    hide Convert, ConvertRelocations, GoodRelocs, Fits, InReach, Assembled, LaidOut, Elf2Efi, PlaceSorted;
    AcceptedHeaders(elf, imageBase, minimum);
    FitsInReach(elf, minimum);
    relocated := Assemble(elf, imageBase, minimum);
    image := ConvertRelocations(elf, Convert(elf).value, imageBase, minimum).value;
    LayoutInvariant(elf, imageBase, minimum);
    PlacedImage(elf, minimum, relocated, image);
    Elf2EfiIs(elf, imageBase, minimum);
  }

  /** The number of sections fits its 16-bit field. */
  predicate Countable(elf: Elf) {
    Convert(elf).Ok? ==>
      |Convert(elf).value| + (if AllRelatives(elf.tables, elf) == [] then 0 else 1) < 0x1_0000
  }

  lemma FieldsAreSmall(elf: Elf, minimum: int, relocated: seq<Section>, image: Image)
    requires InReach(elf, minimum) && Assembled(elf, minimum, relocated, image) && Countable(elf)
    requires image.imageBase < TWO_64
    ensures FieldsFit(image)
  {
    hide Convert, AllRelatives, ApplyAll, SegmentOffset, Below4G, SameShape, RelocData, RelocStart, ImageEnd,
         HeaderSize, ImageSize;
  }

  /** The loader finds in memory the .reloc bytes, and in them the relocations. */
  lemma FixupsFound(elf: Elf, imageBase: nat, minimum: int, relocated: seq<Section>, image: Image,
                    placed: seq<Section>, mem: Memory)
    requires Built(elf, imageBase, minimum, relocated, image) && AllRelatives(elf.tables, elf) != []
    requires OnlyPtrs(image.sections, placed) && Disjoint(placed) && Shows(mem, placed, image.sizeOfImage)
    ensures var os, d := Offsets(AllRelatives(elf.tables, elf)), Shift32(elf, minimum);
            var bs := BlocksOf(RecordAll(os), d);
            image.relocSize > 0 && image.relocAddress + image.relocSize <= |mem| &&
            RelocFormat.DecodeBlocks(mem[image.relocAddress..image.relocAddress + image.relocSize]) ==
            RelocFormat.DecodeBlocks(RelocData(os, d)) &&
            RelocFormat.DecodeBlocks(RelocData(os, d)) == Some(bs) &&
            multiset(RelocFormat.Fixups(bs)) == multiset(Shift(os, d))
  {
    hide Convert, AllRelatives, FileUp, PageUp, ApplyAll, HeaderSize, SegmentOffset, Below4G, Disjoint, SameShape,
         RelocData, RelocStart, BlocksOf, RecordAll, Apart, WordRetained, Peek, Shows, RelocFormat.DecodeBlocks,
         RelocFormat.Fixups, Shift;
    var secs, rs, d := Convert(elf).value, AllRelatives(elf.tables, elf), Shift32(elf, minimum);
    var os := Offsets(rs);
    var start, bytes := RelocStart(secs, minimum), RelocBytes(elf, secs, minimum);
    FitsInReach(elf, minimum);
    SizeExactly(elf, minimum, relocated, image);
    RelocSectionOk(elf, minimum, relocated, image);
    var s := placed[|secs|];
    assert s.(ptr := image.sections[|secs|].ptr) == image.sections[|secs|];
    ShownAt(mem, placed, image.sizeOfImage, start);
    forall j | 0 <= j < |bytes|
      ensures mem[start + j] == bytes[j]
    {
      PeekIs(placed, |secs|, start + j);
      ShownAt(mem, placed, image.sizeOfImage, start + j);
    }
    assert mem[start..start + |bytes|] == bytes;
    RelocOffsetsSmall(elf, minimum);
    RelocDataMeaning(os, d);
  }

  /** Relocated words stay below the .reloc section. */
  lemma RelocOffsetsSmall(elf: Elf, minimum: int)
    requires Fits(elf, minimum) && GoodRelocs(elf)
    ensures forall o | o in Offsets(AllRelatives(elf.tables, elf)) ::
              o + 8 + Shift32(elf, minimum) <= RelocStart(Convert(elf).value, minimum) < TWO_32
  {
    hide Convert, AllRelatives, Below4G, GoodRelocs, HeaderSize, SegmentOffset, RelocBytes, PageUp, ImageEnd, Shift32;
    OffsetsBeforeEnd(elf, minimum);
    var rs := AllRelatives(elf.tables, elf);
    forall i | 0 <= i < |rs|
      ensures rs[i] in rs
    {
    }
  }

  /** What relocation leaves at a byte of a retained section. */
  lemma RelocatedByte(elf: Elf, imageBase: nat, minimum: int, relocated: seq<Section>, image: Image, i: nat, a: nat)
    requires Built(elf, imageBase, minimum, relocated, image)
    requires i < |AllRelatives(elf.tables, elf)| && Covers8(AllRelatives(elf.tables, elf)[i], a)
    ensures var r := AllRelatives(elf.tables, elf)[i];
            var value := imageBase + Shift32(elf, minimum) + Addend(r, ElfWord(elf.sections, r.offset));
            0 <= value < TWO_64 && Peek(relocated, a) == ToLe(value, 8)[a - r.offset]
  {
    hide Convert, AllRelatives, Below4G, Disjoint, Apart, WordRetained, ApplyAll, AllContained, Peek, ElfWord, Word,
         Addend, ToLe, RelocStart, RelocBytes, PageUp, SameShape, HeaderSize, SegmentOffset, FileUp;
    var rs, secs := AllRelatives(elf.tables, elf), Convert(elf).value;
    ConvertShape(elf);
    RelocsContained(elf);
    ConvertedWord(elf, rs[i].offset);
    ApplyAllWord(secs, rs, imageBase + Shift32(elf, minimum), i, a);
  }

  /** The mapped word at a relocation target, before the loader's fixups. */
  lemma MappedWord(elf: Elf, imageBase: nat, minimum: int, relocated: seq<Section>, image: Image,
                   placed: seq<Section>, mem: Memory, i: nat)
    requires Built(elf, imageBase, minimum, relocated, image) && i < |AllRelatives(elf.tables, elf)|
    requires OnlyPtrs(image.sections, placed) && Disjoint(placed) && Shows(mem, placed, image.sizeOfImage)
    ensures var r, d := AllRelatives(elf.tables, elf)[i], Shift32(elf, minimum);
            var value := imageBase + d + Addend(r, ElfWord(elf.sections, r.offset));
            r.offset + d + 8 <= |mem| && 0 <= value < TWO_64 &&
            mem[r.offset + d..r.offset + d + 8] == ToLe(value, 8)
  {
    hide Convert, AllRelatives, Below4G, Disjoint, Apart, WordRetained, ApplyAll, Peek, ElfWord, Addend, ToLe,
         Assembled, RelocStart, RelocBytes, PageUp;
    var r, d := AllRelatives(elf.tables, elf)[i], Shift32(elf, minimum);
    var secs := Convert(elf).value;
    RelocsContained(elf);
    assert Contained(secs, r);
    var k :| 0 <= k < |secs| && WordIn(secs[k], r.offset);
    RelocatedByte(elf, imageBase, minimum, relocated, image, i, r.offset);
    PeekMoved(elf, minimum, relocated, image, placed, k, r.offset + 7);
    var w := mem[r.offset + d..r.offset + d + 8];
    var w' := ToLe(imageBase + d + Addend(r, ElfWord(elf.sections, r.offset)), 8);
    forall j | 0 <= j < 8
      ensures w[j] == w'[j]
    {
      RelocatedByte(elf, imageBase, minimum, relocated, image, i, r.offset + j);
      PeekMoved(elf, minimum, relocated, image, placed, k, r.offset + j);
    }
  }

  /** A relocated byte after the loader's fixups. */
  lemma LoadedByte(elf: Elf, imageBase: nat, minimum: int, relocated: seq<Section>, image: Image,
                   placed: seq<Section>, mem: Memory, fs: seq<nat>, base: nat, i: nat, a: nat)
    requires Built(elf, imageBase, minimum, relocated, image)
    requires OnlyPtrs(image.sections, placed) && Disjoint(placed) && Shows(mem, placed, image.sizeOfImage)
    requires i < |AllRelatives(elf.tables, elf)| && Covers8(AllRelatives(elf.tables, elf)[i], a)
    requires FixupsApart(fs) && FixupsInside(fs, |mem|)
    requires AllRelatives(elf.tables, elf)[i].offset + Shift32(elf, minimum) in fs
    ensures var r, d, m := AllRelatives(elf.tables, elf)[i], Shift32(elf, minimum), FixAll(mem, fs, base - imageBase);
            var value := (base + d + Addend(r, ElfWord(elf.sections, r.offset))) % TWO_64;
            m.Some? && a + d < |m.value| && m.value[a + d] == ToLe(value, 8)[a - r.offset]
  {
    hide AllRelatives, Disjoint, ElfWord, Addend, ToLe, FromLe, FixAll, FixupsApart, Pow256, GoodRelocs, Assembled,
         Shows, OnlyPtrs, Convert, Below4G, RelocStart, RelocBytes, PageUp;
    var r, d := AllRelatives(elf.tables, elf)[i], Shift32(elf, minimum);
    var addend := Addend(r, ElfWord(elf.sections, r.offset));
    var p :| 0 <= p < |fs| && fs[p] == r.offset + d;
    FixWord(mem, fs, base - imageBase, p, a + d);
    MappedWord(elf, imageBase, minimum, relocated, image, placed, mem, i);
    Widths();
    RelocFormat.WordRoundTrip(imageBase + d + addend, 8);
    FixupArithmetic(imageBase, d, addend, base);
  }

  lemma FixupsFit(elf: Elf, minimum: int, fs: seq<nat>, size: nat)
    requires Fits(elf, minimum) && GoodRelocs(elf) && RelocStart(Convert(elf).value, minimum) <= size
    requires multiset(fs) == multiset(Shift(Offsets(AllRelatives(elf.tables, elf)), Shift32(elf, minimum)))
    ensures FixupsApart(fs) && FixupsInside(fs, size)
  {
    hide Convert, AllRelatives, RelocStart, Apart, WordRetained, Below4G, RelocBytes, PageUp;
    var os, d := Offsets(AllRelatives(elf.tables, elf)), Shift32(elf, minimum);
    ShiftedApart(AllRelatives(elf.tables, elf), d);
    ApartByCounts(fs, Shift(os, d));
    RelocOffsetsSmall(elf, minimum);
    forall i | 0 <= i < |fs|
      ensures fs[i] + 8 <= RelocStart(Convert(elf).value, minimum)
    {
      assert fs[i] in multiset(Shift(os, d));
      var p :| 0 <= p < |os| && Shift(os, d)[p] == fs[i];
      assert os[p] in os;
    }
  }

  /** The loader's final memory when there are relocations, on any byte of a section. */
  lemma FixedAnywhere(elf: Elf, imageBase: nat, minimum: int, relocated: seq<Section>, image: Image,
                      placed: seq<Section>, mem: Memory, fs: seq<nat>, base: nat, a: nat)
    requires Built(elf, imageBase, minimum, relocated, image)
    requires OnlyPtrs(image.sections, placed) && Disjoint(placed) && Shows(mem, placed, image.sizeOfImage)
    requires multiset(fs) == multiset(Shift(Offsets(AllRelatives(elf.tables, elf)), Shift32(elf, minimum)))
    requires RelocStart(Convert(elf).value, minimum) <= |mem| && a + Shift32(elf, minimum) < |mem|
    requires mem[a + Shift32(elf, minimum)] == Peek(relocated, a)
    requires Peek(Convert(elf).value, a) == ElfByte(elf.sections, a)
    ensures var m, d := FixAll(mem, fs, base - imageBase), Shift32(elf, minimum);
            m.Some? && a + d < |m.value| && m.value[a + d] == ElfLoaded(elf, base + d, a)
  {
    hide AllRelatives, Disjoint, ElfWord, ElfByte, FromLe, ToLe, FixAll, FixupsApart, FixupsInside, GoodRelocs,
         Assembled, Peek, OnlyPtrs, Shows, Convert, Below4G, RelocStart, RelocBytes, PageUp, Shift, Offsets;
    var rs, d := AllRelatives(elf.tables, elf), Shift32(elf, minimum);
    FixupsFit(elf, minimum, fs, |mem|);
    FoundCovers(rs, a);
    var r := FindCover(rs, a);
    if r.Some? {
      var p :| 0 <= p < |rs| && rs[p] == r.value;
      FixupListed(rs, d, p, fs);
      LoadedByte(elf, imageBase, minimum, relocated, image, placed, mem, fs, base, p, a);
    } else {
      UncoveredByte(elf, imageBase, minimum, relocated, image, fs, base, mem, a);
    }
  }

  /** The loader's final memory, on any byte of a retained section. */
  lemma LoadedAnywhere(elf: Elf, imageBase: nat, minimum: int, relocated: seq<Section>, image: Image,
                       placed: seq<Section>, mem: Memory, base: nat, i: nat, a: nat)
    requires Built(elf, imageBase, minimum, relocated, image)
    requires OnlyPtrs(image.sections, placed) && Disjoint(placed) && Shows(mem, placed, image.sizeOfImage)
    requires i < |elf.sections| && Retained(elf.sections[i]) && Inside(elf.sections[i], a)
    ensures var m := Relocated(mem, image.relocAddress, image.relocSize, base - imageBase);
            var d := Shift32(elf, minimum);
            m.Some? && a + d < |m.value| && m.value[a + d] == ElfLoaded(elf, base + d, a)
  {
    hide AllRelatives, Disjoint, ElfByte, FixAll, GoodRelocs, Assembled, Peek, OnlyPtrs, Convert, Below4G, RelocStart,
         RelocBytes, PageUp, Retained, BlocksOf, RecordAll, RelocData, Shift, Offsets, ElfLoaded, Shows, Relocated,
         RelocFormat.DecodeBlocks, RelocFormat.Fixups, SegmentOffset, HeaderSize, FindRelro;
    var rs, d := AllRelatives(elf.tables, elf), Shift32(elf, minimum);
    var k := ConvertedByte(elf, i, a);
    PeekMoved(elf, minimum, relocated, image, placed, k, a);
    ShownAt(mem, placed, image.sizeOfImage, a + d);
    if rs == [] {
      NoRelocations(elf, minimum, relocated, image);
      UnrelocatedByte(elf, base + d, a);
      RelocatedIs(mem, image.relocAddress, image.relocSize, base - imageBase, []);
    } else {
      FixupsFound(elf, imageBase, minimum, relocated, image, placed, mem);
      var fs := RelocFormat.Fixups(BlocksOf(RecordAll(Offsets(rs)), d));
      RelocatedIs(mem, image.relocAddress, image.relocSize, base - imageBase, BlocksOf(RecordAll(Offsets(rs)), d));
      FixedAnywhere(elf, imageBase, minimum, relocated, image, placed, mem, fs, base, a);
    }
  }

  lemma RelocatedIs(mem: Memory, address: nat, size: nat, delta: int, bs: seq<RelocFormat.Block>)
    requires size > 0 ==> address + size <= |mem| && RelocFormat.DecodeBlocks(mem[address..address + size]) == Some(bs)
    ensures Relocated(mem, address, size, delta) ==
            if size == 0 then Some(mem) else FixAll(mem, RelocFormat.Fixups(bs), delta)
  {
    hide RelocFormat.DecodeBlocks, RelocFormat.Fixups, FixAll;
  }

  lemma UnrelocatedByte(elf: Elf, bias: nat, a: nat)
    requires AllRelatives(elf.tables, elf) == []
    ensures ElfLoaded(elf, bias, a) == ElfByte(elf.sections, a)
  {
  }

  lemma NoRelocations(elf: Elf, minimum: int, relocated: seq<Section>, image: Image)
    requires Fits(elf, minimum) && Assembled(elf, minimum, relocated, image) && AllRelatives(elf.tables, elf) == []
    ensures relocated == Convert(elf).value && image.relocSize == 0
  {
    hide Convert, AllRelatives, Below4G, RelocStart, RelocBytes, PageUp, SameShape, HeaderSize, Shift32;
  }

  lemma FixupListed(rs: seq<Reloc>, d: nat, p: nat, fs: seq<nat>)
    requires p < |rs| && multiset(fs) == multiset(Shift(Offsets(rs), d))
    ensures rs[p].offset + d in fs
  {
    var s := Shift(Offsets(rs), d);
    assert s[p] in multiset(s);
  }

  lemma UncoveredByte(elf: Elf, imageBase: nat, minimum: int, relocated: seq<Section>, image: Image,
                      fs: seq<nat>, base: nat, mem: Memory, a: nat)
    requires Built(elf, imageBase, minimum, relocated, image)
    requires forall i | 0 <= i < |AllRelatives(elf.tables, elf)| :: !Covers8(AllRelatives(elf.tables, elf)[i], a)
    requires multiset(fs) == multiset(Shift(Offsets(AllRelatives(elf.tables, elf)), Shift32(elf, minimum)))
    requires FixupsInside(fs, |mem|) && a + Shift32(elf, minimum) < |mem|
    ensures Peek(relocated, a) == Peek(Convert(elf).value, a)
    ensures var m := FixAll(mem, fs, base - imageBase);
            m.Some? && |m.value| == |mem| && m.value[a + Shift32(elf, minimum)] == mem[a + Shift32(elf, minimum)]
  {
    hide AllRelatives, Disjoint, Convert, Below4G, RelocStart, RelocBytes, PageUp, Peek, ApplyAll, FixAll,
         AllContained, WordRetained, Apart, SegmentOffset, HeaderSize, SameShape, FixupsInside;
    var rs, d := AllRelatives(elf.tables, elf), Shift32(elf, minimum);
    ConvertShape(elf);
    RelocsContained(elf);
    ApplyAllElsewhere(Convert(elf).value, rs, imageBase + d, a);
    var s := Shift(Offsets(rs), d);
    forall i | 0 <= i < |fs|
      ensures !(fs[i] <= a + d < fs[i] + 8)
    {
      assert fs[i] in multiset(s);
      var p :| 0 <= p < |s| && s[p] == fs[i];
      assert !Covers8(rs[p], a);
    }
    FixElsewhere(mem, fs, base - imageBase, a + d);
  }

  /** Load equivalence. Take any ELF file the conversion accepts, whose addresses fit and
      whose relocation words are disjoint and inside retained sections. Load the bytes of
      the converted file at any base: every byte of every retained section is what it is
      in the ELF file loaded with bias `base` plus the segment offset. */
  lemma LoadEquivalence(elf: Elf, imageBase: nat, minimum: int, c: Constants, base: nat, i: nat, a: nat)
    requires Fits(elf, minimum) && GoodRelocs(elf) && Countable(elf) && imageBase < TWO_64
    requires Elf2Efi(elf, imageBase, minimum).Ok?
    requires i < |elf.sections| && Retained(elf.sections[i]) && Inside(elf.sections[i], a)
    ensures var mem := LoadPe(FileOf(c, Elf2Efi(elf, imageBase, minimum).value), base);
            var d := Shift32(elf, minimum);
            mem.Some? && a + d < |mem.value| && mem.value[a + d] == ElfLoaded(elf, base + d, a)
  {
    hide Convert, Elf2Efi, GoodRelocs, Fits, Assembled, InReach, Retained, FileOf, Countable, OnlyPtrs,
         LoadPe, Relocated, MapSections, ElfLoaded, Contains, Shows, Zeros, InBounds, RawAligned, RawChain,
         RawDisjoint, FieldsFit, Shift32;
    var relocated, image := Build(elf, imageBase, minimum);
    var placed := Elf2Efi(elf, imageBase, minimum).value;
    FitsInReach(elf, minimum);
    FieldsAreSmall(elf, minimum, relocated, image);
    PlacedFields(image, placed);
    LaidOutIsWritten(placed);
    FileContains(c, placed);
    LoadPeIs(FileOf(c, placed), c, placed, base);
    var mem := MapSections(Zeros(placed.sizeOfImage), FileOf(c, placed), HeaderBytes(0), |placed.sections|,
                           PE_ALIGNMENTS).value;
    LoadedAnywhere(elf, imageBase, minimum, relocated, image, placed.sections, mem, base, i, a);
  }

  lemma PlacedFields(image: Image, placed: Image)
    requires placed == image.(sections := placed.sections) && OnlyPtrs(image.sections, placed.sections)
    requires FieldsFit(image)
    ensures FieldsFit(placed)
  {
  }

  lemma LaidOutIsWritten(image: Image)
    requires LaidOut(image)
    ensures Written(image)
  {
    hide HeaderBytes, Disjoint, RawChain, RawDisjoint, SectionOk;
  }
}
