/** Moving an executable to its base address, and where its segments go in the file
    (tools/elf2efi.c). */
module ExecLayout {
  import opened AlignMacros
  import opened Bytes

  // ----- segments -----

  datatype SegmentValue = SegmentValue(vaddr: nat, memsize: nat, alignment: nat, flags: nat, filesize: nat,
                                       data: seq<byte>)

  /** `data` is the segment's own allocation of memsize bytes. */
  class Segment {
    var vaddr: nat
    var memsize: nat
    const alignment: nat
    const flags: nat
    var filesize: nat
    var data: array<byte>

    ghost predicate Valid()
      reads this
    {
      vaddr < TWO_64 && 0 < alignment < TWO_32 && data.Length == memsize
    }

    ghost function Value(): SegmentValue
      reads this, data
    {
      SegmentValue(vaddr, memsize, alignment, flags, filesize, data[..])
    }

    constructor (vaddr: nat, alignment: nat, flags: nat, filesize: nat, data: array<byte>)
      requires vaddr < TWO_64 && 0 < alignment < TWO_32
      ensures Valid() && Value() == SegmentValue(vaddr, data.Length, alignment, flags, filesize, data[..])
      ensures this.data == data
    {
      this.vaddr, this.memsize, this.alignment, this.flags, this.filesize, this.data :=
        vaddr, data.Length, alignment, flags, filesize, data;
    }

    /** The body of the segment loop of relocate_exec. */
    method Relocate(base: nat)
      requires Valid()
      modifies this
      ensures Valid() && Value() == Moved(old(Value()), base) && fresh(data)
    {
      vaddr := (vaddr + base) % TWO_64;
      var alignedAddr := Down(vaddr, alignment);
      var offset := vaddr - alignedAddr;
      var newData := new byte[memsize + offset](_ => 0);
      forall i | 0 <= i < memsize {
        newData[offset + i] := data[i];
      }
      ghost var bytes := data[..];
      vaddr := alignedAddr;
      filesize := filesize + offset;
      memsize := memsize + offset;
      data := newData;
      assert data[..] == Zeros(offset) + bytes;
    }
  }

  /** A segment moved by `d`, then extended down to its alignment with zeros. */
  function Moved(s: SegmentValue, d: nat): SegmentValue
    requires s.alignment > 0
  {
    var at := (s.vaddr + d) % TWO_64;
    var pad := at - Down(at, s.alignment);
    s.(vaddr := at - pad, memsize := s.memsize + pad, filesize := s.filesize + pad, data := Zeros(pad) + s.data)
  }

  // ----- the executable -----

  datatype Reloc = Reloc(vaddr: nat, addend: nat)

  function MovedReloc(r: Reloc, d: nat): Reloc {
    Reloc((r.vaddr + d) % TWO_64, (r.addend + d) % TWO_64)
  }

  /** PE32Plus_Image_Header_Size. */
  function HeaderSize(sections: nat): nat {
    64 + 24 + 24 + 88 + 128 + 40 * sections
  }

  /** The room relocate_exec makes for the headers when the first of `n` segments starts too low. */
  function Room(first: nat, n: nat, alignment: nat): nat
    requires first <= HeaderSize(n + 1) ==> alignment > 0
  {
    var header := HeaderSize(n + 1);
    if first <= header then U32(Align(header, alignment)) else 0
  }

  /** How far relocate_exec moves everything: to the base, and past the headers. */
  function Displacement(first: nat, n: nat, alignment: nat, base: nat): (d: nat)
    requires first <= HeaderSize(n + 1) ==> alignment > 0
  {
    if first <= HeaderSize(n + 1) then (base + Room(first, n, alignment)) % TWO_64 else base
  }

  class Executable {
    var entryAddr: nat
    const segments: seq<Segment>
    const relocs: array<Reloc>
    const executableAlignment: nat

    /** The segments are separate objects with separate data, as parse_elf builds them. */
    ghost predicate Valid()
      reads this, segments
    {
      (forall i | 0 <= i < |segments| :: segments[i].Valid()) &&
      (forall i, j | 0 <= i < j < |segments| :: segments[i] != segments[j])
    }

    constructor (entryAddr: nat, segments: seq<Segment>, relocs: array<Reloc>, executableAlignment: nat)
      ensures this.entryAddr == entryAddr && this.segments == segments && this.relocs == relocs
      ensures this.executableAlignment == executableAlignment
    {
      this.entryAddr, this.segments, this.relocs, this.executableAlignment :=
        entryAddr, segments, relocs, executableAlignment;
    }

    /** relocate_exec: the entry point, every segment and every relocation move by one
        displacement. */
    method Relocate(baseAddress: nat)
      requires Valid() && segments != [] && executableAlignment > 0 && baseAddress < TWO_64
      modifies this, segments, relocs
      ensures Valid()
      ensures var d := Displacement(old(segments[0].vaddr), |segments|, executableAlignment, baseAddress);
              entryAddr == (old(entryAddr) + d) % TWO_64 &&
              (forall i | 0 <= i < |segments| :: segments[i].Value() == Moved(old(segments[i].Value()), d)) &&
              (forall i | 0 <= i < relocs.Length :: relocs[i] == MovedReloc(old(relocs[i]), d))
    {
      hide Moved, Down, Align;
      var base := baseAddress;
      var headerSize := HeaderSize(|segments| + 1);
      if segments[0].vaddr <= headerSize {
        var offset := U32(Align(headerSize, executableAlignment));
        base := (base + offset) % TWO_64;
      }
      entryAddr := (entryAddr + base) % TWO_64;
      RelocateSegments(base);
      var i := 0;
      while i < relocs.Length
        invariant 0 <= i <= relocs.Length
        invariant forall j | 0 <= j < i :: relocs[j] == MovedReloc(old(relocs[j]), base)
        invariant forall j | i <= j < relocs.Length :: relocs[j] == old(relocs[j])
        modifies relocs
      {
        relocs[i] := MovedReloc(relocs[i], base);
        i := i + 1;
      }
    }

    method RelocateSegments(base: nat)
      requires Valid()
      modifies segments
      ensures Valid()
      ensures forall i | 0 <= i < |segments| :: segments[i].Value() == Moved(old(segments[i].Value()), base)
    {
      hide Moved, Down;
      var i := 0;
      while i < |segments|
        invariant 0 <= i <= |segments| && Valid()
        invariant forall j | 0 <= j < i ::
                    segments[j].Value() == Moved(old(segments[j].Value()), base) && fresh(segments[j].data)
        invariant forall j | i <= j < |segments| ::
                    segments[j].Value() == old(segments[j].Value()) && segments[j].data == old(segments[j].data)
      {
        segments[i].Relocate(base);
        i := i + 1;
      }
    }
  }

  // ----- what moving means -----

  /** The byte a segment holds at an address. */
  function ByteAt(s: SegmentValue, a: nat): (b: int)
    ensures -1 <= b < 256
  {
    if s.vaddr <= a < s.vaddr + |s.data| then s.data[a - s.vaddr] else -1
  }

  /** Moving within 64 bits. */
  lemma MovedIs(s: SegmentValue, d: nat)
    requires s.alignment > 0 && s.vaddr + d < TWO_64
    ensures var start := Down(s.vaddr + d, s.alignment);
            var pad := s.vaddr + d - start;
            Moved(s, d) == s.(vaddr := start, memsize := s.memsize + pad, filesize := s.filesize + pad,
                              data := Zeros(pad) + s.data)
  {
    hide Down;
  }

  lemma MovedByte(s: SegmentValue, d: nat, a: nat)
    requires s.alignment > 0 && s.vaddr + d < TWO_64 && ByteAt(s, a) != -1
    ensures ByteAt(Moved(s, d), a + d) == ByteAt(s, a)
  {
    hide Down, Moved;
    MovedIs(s, d);
    var pad := s.vaddr + d - Down(s.vaddr + d, s.alignment);
    assert (Zeros(pad) + s.data)[pad + (a - s.vaddr)] == s.data[a - s.vaddr];
  }

  /** Every byte of the segment moves by exactly `d`; what is added below is less than one
      alignment unit of zeros, and brings the start to a multiple of the alignment. */
  lemma MovedMeaning(s: SegmentValue, d: nat)
    requires s.alignment > 0 && s.vaddr + d < TWO_64 && s.memsize == |s.data|
    ensures var m := Moved(s, d);
            m.vaddr % s.alignment == 0 && m.vaddr <= s.vaddr + d < m.vaddr + s.alignment &&
            m.memsize == |m.data| && m.vaddr + m.memsize == s.vaddr + d + s.memsize &&
            m.memsize - m.filesize == s.memsize - s.filesize && m.flags == s.flags
    ensures forall a: nat :: ByteAt(s, a) != -1 ==> ByteAt(Moved(s, d), a + d) == ByteAt(s, a)
    ensures forall a: nat :: a >= s.vaddr + d || a < Moved(s, d).vaddr || ByteAt(Moved(s, d), a) == 0
  {
    hide Down, Moved, ByteAt;
    MovedIs(s, d);
    forall a: nat | ByteAt(s, a) != -1
      ensures ByteAt(Moved(s, d), a + d) == ByteAt(s, a)
    {
      MovedByte(s, d, a);
    }
    forall a: nat
      ensures a >= s.vaddr + d || a < Moved(s, d).vaddr || ByteAt(Moved(s, d), a) == 0
    {
      AddedByte(s, d, a);
    }
  }

  lemma AddedByte(s: SegmentValue, d: nat, a: nat)
    requires s.alignment > 0 && s.vaddr + d < TWO_64
    ensures a >= s.vaddr + d || a < Moved(s, d).vaddr || ByteAt(Moved(s, d), a) == 0
  {
    hide Down, Moved;
    MovedIs(s, d);
  }

  /** A relocation that points into a segment still points to the same byte of it. */
  lemma RelocFollowsSegment(s: SegmentValue, r: Reloc, d: nat)
    requires s.alignment > 0 && s.vaddr + s.memsize + d <= TWO_64 && s.memsize == |s.data| && ByteAt(s, r.vaddr) != -1
    ensures ByteAt(Moved(s, d), MovedReloc(r, d).vaddr) == ByteAt(s, r.vaddr)
  {
    hide Moved, ByteAt;
    InsideSegment(s, r.vaddr);
    MovedByte(s, d, r.vaddr);
  }

  /** What it stores follows its target too: an addend that designates a byte of a segment still
      designates that byte. */
  lemma AddendFollowsSegment(s: SegmentValue, r: Reloc, d: nat)
    requires s.alignment > 0 && s.vaddr + s.memsize + d <= TWO_64 && s.memsize == |s.data| && ByteAt(s, r.addend) != -1
    ensures ByteAt(Moved(s, d), MovedReloc(r, d).addend) == ByteAt(s, r.addend)
  {
    hide Moved, ByteAt;
    InsideSegment(s, r.addend);
    MovedByte(s, d, r.addend);
  }

  lemma InsideSegment(s: SegmentValue, a: nat)
    requires ByteAt(s, a) != -1
    ensures s.vaddr <= a < s.vaddr + |s.data|
  {
  }

  // ----- room for the headers -----

  lemma DisplacementExactly(first: nat, n: nat, alignment: nat, base: nat)
    requires alignment > 0 && base + Room(first, n, alignment) < TWO_64
    ensures Displacement(first, n, alignment, base) == base + Room(first, n, alignment)
  {
    hide U32, Align, HeaderSize;
  }

  lemma DownRelative(base: nat, w: nat, a: nat)
    requires a > 0
    ensures Down(base + w, a) == Down(base % a + w, a) + (base - base % a)
  {
    hide Down;
    var r := base % a;
    MultipleBelow(base, a);
    DownMoved(r + w, base - r, a);
    assert r + w + (base - r) == base + w;
  }

  /** Exactly when the first segment ends up clear of the headers, for any base: with `r` the
      base's distance from the segment's alignment and `w` the segment's address relative to the
      base once moved, aligning r + w down must not reach below the headers. */
  lemma HeadersClear(s: SegmentValue, n: nat, alignment: nat, base: nat)
    requires s.alignment > 0 && alignment > 0
    requires s.vaddr + base + Room(s.vaddr, n, alignment) < TWO_64
    ensures var header, r, w := HeaderSize(n + 1), base % s.alignment, s.vaddr + Room(s.vaddr, n, alignment);
            Moved(s, Displacement(s.vaddr, n, alignment, base)).vaddr >= base + header <==>
            Down(r + w, s.alignment) >= r + header
  {
    hide Down, Moved, HeaderSize, Room, Displacement;
    var room := Room(s.vaddr, n, alignment);
    DisplacementExactly(s.vaddr, n, alignment, base);
    MovedIs(s, base + room);
    DownRelative(base, s.vaddr + room, s.alignment);
  }

  /** For a base that is a multiple of the alignment the segment clears the headers when it
      starts so low that everything is moved, or when it stays above them after being aligned
      down. A first segment between the end of the headers and its alignment does not. */
  lemma HeadersClearAligned(s: SegmentValue, n: nat, alignment: nat, base: nat)
    requires s.alignment > 0 && alignment > 0 && alignment % s.alignment == 0 && base % s.alignment == 0
    requires Align(HeaderSize(n + 1), alignment) < TWO_32
    requires s.vaddr + base + Align(HeaderSize(n + 1), alignment) < TWO_64
    ensures var header := HeaderSize(n + 1);
            Moved(s, Displacement(s.vaddr, n, alignment, base)).vaddr >= base + header <==>
            s.vaddr <= header || Down(s.vaddr, s.alignment) >= header
  {
    hide Align, Down, Moved, HeaderSize, Displacement;
    var extra := Align(HeaderSize(n + 1), alignment);
    assert Room(s.vaddr, n, alignment) == if s.vaddr <= HeaderSize(n + 1) then extra else 0;
    HeadersClear(s, n, alignment, base);
    MultipleOfMultiple(extra, alignment, s.alignment);
    DownMoved(s.vaddr, extra, s.alignment);
  }

  /** A segment at 512 with page alignment and two segments in all: the headers need 448
      bytes, nothing is moved, and the segment is then aligned down onto the headers. */
  lemma HeadersOverlap()
    ensures var s := SegmentValue(512, 1, 4096, 5, 1, [0]);
            Moved(s, Displacement(s.vaddr, 2, 4096, 0)).vaddr == 0 < HeaderSize(3)
  {
    hide Down, Moved;
    MovedIs(SegmentValue(512, 1, 4096, 5, 1, [0]), 0);
    assert Down(512, 4096) == 0;
  }

  /** A base that is not a multiple of the alignment: a segment at 0 is moved, and still
      starts below the end of the headers, at 448 bytes above the base. */
  lemma MisalignedBaseOverlaps()
    ensures var s, base := SegmentValue(0, 1, 4096, 5, 1, [0]), 0x1000_0FFF;
            Moved(s, Displacement(s.vaddr, 2, 4096, base)).vaddr == 0x1000_1000 < base + HeaderSize(3)
  {
    hide Down, Align, Moved;
    assert Align(448, 4096) == 4096 && Down(0x1000_1FFF, 4096) == 0x1000_1000;
    MovedIs(SegmentValue(0, 1, 4096, 5, 1, [0]), 0x1000_1FFF);
  }

  lemma MultipleOfMultiple(x: nat, b: nat, a: nat)
    requires a > 0 && b > 0 && x % b == 0 && b % a == 0
    ensures x % a == 0
  {
    var k, m := x / b, b / a;
    assert x == k * b && b == m * a;
    assert k * (m * a) == k * m * a;
    DivModUnique(x, a, k * m, 0);
  }

  // ----- segments stay apart -----

  function MovedAll(ss: seq<SegmentValue>, d: nat): (r: seq<SegmentValue>)
    requires forall i | 0 <= i < |ss| :: ss[i].alignment > 0
    ensures |r| == |ss| && forall i | 0 <= i < |ss| :: r[i] == Moved(ss[i], d)
  {
    seq(|ss|, i requires 0 <= i < |ss| => Moved(ss[i], d))
  }

  /** Each segment ends before every later one starts. */
  predicate SegmentsApart(ss: seq<SegmentValue>) {
    forall i, j | 0 <= i < j < |ss| :: ss[i].vaddr + ss[i].memsize <= ss[j].vaddr
  }

  predicate NeighboursApart(ss: seq<SegmentValue>) {
    forall i | 0 < i < |ss| :: ss[i - 1].vaddr + ss[i - 1].memsize <= ss[i].vaddr
  }

  lemma {:induction false} ApartByNeighbours(ss: seq<SegmentValue>)
    ensures SegmentsApart(ss) <==> NeighboursApart(ss)
  {
    if ss != [] && NeighboursApart(ss) {
      var n := |ss| - 1;
      ApartByNeighbours(ss[..n]);
      forall i | 0 <= i < n
        ensures ss[i].vaddr + ss[i].memsize <= ss[n].vaddr
      {
        assert ss[..n][i] == ss[i] && ss[..n][n - 1] == ss[n - 1];
      }
    }
  }

  /** Nothing checks that aligning down keeps the segments apart. They are apart once moved
      exactly when the aligned-down start of each is not below the end of the one before. */
  lemma MovedApart(ss: seq<SegmentValue>, d: nat)
    requires forall i | 0 <= i < |ss| :: ss[i].alignment > 0 && ss[i].vaddr + d < TWO_64
    ensures SegmentsApart(MovedAll(ss, d)) <==>
            forall i | 0 < i < |ss| :: ss[i - 1].vaddr + d + ss[i - 1].memsize <= Down(ss[i].vaddr + d, ss[i].alignment)
  {
    hide Moved, Down, SegmentsApart;
    var moved := MovedAll(ss, d);
    ApartByNeighbours(moved);
    forall i | 0 <= i < |ss|
      ensures moved[i].vaddr == Down(ss[i].vaddr + d, ss[i].alignment)
      ensures moved[i].vaddr + moved[i].memsize == ss[i].vaddr + d + ss[i].memsize
    {
      MovedIs(ss[i], d);
    }
  }

  /** Two disjoint segments that share a page: once moved they overlap. */
  lemma SharedPageOverlaps()
    ensures var ss := [SegmentValue(0x1000, 2, 4096, 5, 2, [1, 2]), SegmentValue(0x1800, 1, 4096, 6, 1, [3])];
            SegmentsApart(ss) && !SegmentsApart(MovedAll(ss, 0x1000_0000))
  {
    hide Moved, Down;
    var ss := [SegmentValue(0x1000, 2, 4096, 5, 2, [1, 2]), SegmentValue(0x1800, 1, 4096, 6, 1, [3])];
    MovedApart(ss, 0x1000_0000);
    assert ss[0].vaddr + 0x1000_0000 + ss[0].memsize > Down(ss[1].vaddr + 0x1000_0000, 4096);
  }

  // ----- the file -----

  datatype FileLayout = FileLayout(offset: nat, size: nat)

  /** The size in the file of a chunk of `n` bytes, in 32 bits. */
  function RawSize(n: nat): nat {
    U32(Align(n, 512))
  }

  /** Where the chunk after the first `k` starts, in 32 bits. */
  function OffsetAfter(start: nat, sizes: seq<nat>): nat {
    if sizes == [] then U32(start) else U32(OffsetAfter(start, sizes[..|sizes| - 1]) + RawSize(sizes[|sizes| - 1]))
  }

  function Layouts(start: nat, sizes: seq<nat>): (r: seq<FileLayout>)
    ensures |r| == |sizes|
    ensures forall i | 0 <= i < |r| :: r[i] == FileLayout(OffsetAfter(start, sizes[..i]), RawSize(sizes[i]))
  {
    seq(|sizes|, i requires 0 <= i < |sizes| => FileLayout(OffsetAfter(start, sizes[..i]), RawSize(sizes[i])))
  }

  /** layout_pe_file, for the file sizes of the segments; the relocation table, if any, goes
      last. */
  method LayoutPeFile(sizeOfHeaders: nat, filesizes: seq<nat>, hasReloc: bool, relocSize: nat)
    returns (layouts: seq<FileLayout>)
    ensures layouts == Layouts(sizeOfHeaders, if hasReloc then filesizes + [relocSize] else filesizes)
  {
    hide Layouts, OffsetAfter, Align;
    ghost var all := if hasReloc then filesizes + [relocSize] else filesizes;
    var offset := U32(sizeOfHeaders);
    layouts := [];
    var i := 0;
    NoLayouts(sizeOfHeaders, all);
    while i < |filesizes|
      invariant 0 <= i <= |filesizes| && offset == OffsetAfter(sizeOfHeaders, all[..i])
      invariant layouts == Layouts(sizeOfHeaders, all)[..i]
    {
      LayoutsStep(sizeOfHeaders, all, i);
      var layout := FileLayout(offset, U32(Align(filesizes[i], 512)));
      layouts := layouts + [layout];
      offset := U32(offset + layout.size);
      i := i + 1;
    }
    if hasReloc {
      LayoutsStep(sizeOfHeaders, all, i);
      layouts := layouts + [FileLayout(offset, U32(Align(relocSize, 512)))];
    }
  }

  lemma NoLayouts(start: nat, sizes: seq<nat>)
    ensures Layouts(start, sizes)[..0] == [] && OffsetAfter(start, sizes[..0]) == U32(start)
  {
  }

  lemma OffsetStep(start: nat, sizes: seq<nat>, i: nat)
    requires i < |sizes|
    ensures OffsetAfter(start, sizes[..i + 1]) == U32(OffsetAfter(start, sizes[..i]) + RawSize(sizes[i]))
  {
    hide RawSize, U32;
    assert sizes[..i + 1][..i] == sizes[..i];
  }

  lemma LayoutsStep(start: nat, sizes: seq<nat>, i: nat)
    requires i < |sizes|
    ensures var layout := FileLayout(OffsetAfter(start, sizes[..i]), RawSize(sizes[i]));
            Layouts(start, sizes)[..i + 1] == Layouts(start, sizes)[..i] + [layout] &&
            OffsetAfter(start, sizes[..i + 1]) == U32(OffsetAfter(start, sizes[..i]) + layout.size)
  {
    hide RawSize, U32, OffsetAfter;
    OffsetStep(start, sizes, i);
  }

  function Total(start: nat, sizes: seq<nat>): nat {
    if sizes == [] then start else Total(start, sizes[..|sizes| - 1]) + Align(sizes[|sizes| - 1], 512)
  }

  /** While the file stays below 4 GiB the chunks follow each other without gap or overlap
      from the end of the headers on, each aligned and large enough for its bytes. */
  lemma {:induction false} LayoutMeaning(start: nat, sizes: seq<nat>, i: nat)
    requires start % 512 == 0 && Total(start, sizes) < TWO_32 && i < |sizes|
    ensures var r := Layouts(start, sizes);
            r[i].offset % 512 == 0 && r[i].size % 512 == 0 && sizes[i] <= r[i].size < sizes[i] + 512 &&
            r[i].offset == (if i == 0 then start else r[i - 1].offset + r[i - 1].size) &&
            r[i].offset + r[i].size <= Total(start, sizes)
  {
    hide Align;
    TotalGrows(start, sizes, i);
    TotalGrows(start, sizes, i + 1);
    OffsetIsTotal(start, sizes[..i]);
    assert sizes[..i + 1][..i] == sizes[..i];
    if i > 0 {
      TotalGrows(start, sizes, i - 1);
      OffsetIsTotal(start, sizes[..i - 1]);
      assert sizes[..i][..i - 1] == sizes[..i - 1];
    }
  }

  lemma {:induction false} TotalGrows(start: nat, sizes: seq<nat>, i: nat)
    requires i <= |sizes|
    ensures start <= Total(start, sizes[..i]) <= Total(start, sizes)
    decreases |sizes|
  {
    hide Align;
    if i < |sizes| {
      var front := sizes[..|sizes| - 1];
      TotalGrows(start, front, i);
      assert front[..i] == sizes[..i];
    } else if sizes != [] {
      TotalGrows(start, sizes[..|sizes| - 1], |sizes| - 1);
      assert sizes[..|sizes|] == sizes;
      assert sizes[..|sizes| - 1][..|sizes| - 1] == sizes[..|sizes| - 1];
    } else {
      assert sizes[..0] == sizes;
    }
  }

  lemma SumAligned(x: nat, y: nat)
    requires x % 512 == 0 && y % 512 == 0
    ensures (x + y) % 512 == 0
  {
    var k, m := x / 512, y / 512;
    assert x + y == 512 * (k + m);
  }

  lemma {:induction false} OffsetIsTotal(start: nat, sizes: seq<nat>)
    requires start % 512 == 0 && Total(start, sizes) < TWO_32
    ensures OffsetAfter(start, sizes) == Total(start, sizes) && Total(start, sizes) % 512 == 0
  {
    hide Align, U32;
    if sizes != [] {
      OffsetIsTotal(start, sizes[..|sizes| - 1]);
      SumAligned(Total(start, sizes[..|sizes| - 1]), Align(sizes[|sizes| - 1], 512));
    }
  }
}
