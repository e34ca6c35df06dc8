/** Applying ELF RELATIVE relocations to the section data, as functions on values
    (tools/elf2efi.py:384-453), and what that does to the memory the sections describe. */
module Relocate {
  import opened Bytes
  import opened ElfModel
  import opened Coalesce
  import opened RelocBlocks

  /** The byte the sections put at address `a`, zero where there is none. */
  function Peek(secs: seq<Section>, a: nat): byte {
    if secs == [] then 0
    else if secs[0].Covers(a) then secs[0].At(a)
    else Peek(secs[1..], a)
  }

  function Word(secs: seq<Section>, a: nat): (w: seq<byte>)
    ensures |w| == 8 && forall i | 0 <= i < 8 :: w[i] == Peek(secs, a + i)
  {
    [Peek(secs, a), Peek(secs, a + 1), Peek(secs, a + 2), Peek(secs, a + 3),
     Peek(secs, a + 4), Peek(secs, a + 5), Peek(secs, a + 6), Peek(secs, a + 7)]
  }

  /** The indices of the sections that cover `a`. */
  function Targets(secs: seq<Section>, a: nat): (ts: seq<nat>)
    ensures forall t | t in ts :: t < |secs|
  {
    if secs == [] then []
    else
      var n := |secs| - 1;
      Targets(secs[..n], a) + (if secs[n].Covers(a) then [n] else [])
  }

  /** Python's `data[at:at+8]`, which stops at the end of the data. */
  function Slice8(data: seq<byte>, at: nat): seq<byte>
    requires at <= |data|
  {
    if at + 8 <= |data| then data[at..at + 8] else data[at..]
  }

  /** Python's `data[at:at+8] = value`, which may lengthen the data. */
  function Splice8(data: seq<byte>, at: nat, value: seq<byte>): seq<byte>
    requires at <= |data|
  {
    data[..at] + value + (if at + 8 <= |data| then data[at + 8..] else [])
  }

  function Addend(r: Reloc, old_: seq<byte>): int {
    if r.rela then r.addend else FromLe(old_)
  }

  function Store(s: Section, r: Reloc, base: nat): Result<Section>
    requires s.Covers(r.offset)
  {
    var at := r.offset - s.va;
    var value := base + Addend(r, Slice8(s.data, at));
    if 0 <= value < TWO_64 then Ok(s.(data := Splice8(s.data, at, ToLe(value, 8)))) else Err(ValueOverflow)
  }

  lemma {:induction false} TargetsCover(secs: seq<Section>, a: nat, k: nat)
    ensures k in Targets(secs, a) <==> k < |secs| && secs[k].Covers(a)
  {
    if secs != [] {
      TargetsCover(secs[..|secs| - 1], a, k);
    }
  }

  function Apply(secs: seq<Section>, r: Reloc, base: nat): Result<seq<Section>> {
    var ts := Targets(secs, r.offset);
    if |ts| != 1 then Err(NoUniqueTarget)
    else
      TargetsCover(secs, r.offset, ts[0]);
      var s := Store(secs[ts[0]], r, base);
      if s.Err? then Err(s.error) else Ok(secs[ts[0] := s.value])
  }

  function ApplyAll(secs: seq<Section>, rs: seq<Reloc>, base: nat): Result<seq<Section>>
    decreases |rs|
  {
    if rs == [] then Ok(secs)
    else
      var next := Apply(secs, rs[0], base);
      if next.Err? then next else ApplyAll(next.value, rs[1..], base)
  }

  // ----- the effect on memory -----

  predicate WordIn(s: Section, a: nat) {
    s.va <= a && a + 8 <= s.va + |s.data|
  }

  predicate Contained(secs: seq<Section>, r: Reloc) {
    exists k | 0 <= k < |secs| :: WordIn(secs[k], r.offset)
  }

  predicate Covers8(r: Reloc, a: nat) {
    r.offset <= a < r.offset + 8
  }

  /** Same addresses and sizes; only the bytes may differ. */
  predicate SameShape(a: seq<Section>, b: seq<Section>) {
    |a| == |b| &&
    forall k | 0 <= k < |a| :: |a[k].data| == |b[k].data| && b[k].(data := a[k].data) == a[k]
  }

  lemma {:induction false} PeekIs(secs: seq<Section>, k: nat, a: nat)
    requires Disjoint(secs) && k < |secs| && secs[k].Covers(a)
    ensures Peek(secs, a) == secs[k].At(a)
  {
    if k > 0 {
      PeekIs(secs[1..], k - 1, a);
    }
  }

  lemma {:induction false} PeekNothing(secs: seq<Section>, a: nat)
    requires forall k | 0 <= k < |secs| :: !secs[k].Covers(a)
    ensures Peek(secs, a) == 0
  {
    if secs != [] {
      PeekNothing(secs[1..], a);
    }
  }

  lemma {:induction false} OneTarget(secs: seq<Section>, a: nat, k: nat)
    requires Disjoint(secs) && k < |secs| && secs[k].Covers(a)
    ensures Targets(secs, a) == [k]
  {
    var n := |secs| - 1;
    if k < n {
      OneTarget(secs[..n], a, k);
    } else {
      NoTarget(secs[..n], a);
    }
  }

  lemma {:induction false} NoTarget(secs: seq<Section>, a: nat)
    requires forall k | 0 <= k < |secs| :: !secs[k].Covers(a)
    ensures Targets(secs, a) == []
  {
    if secs != [] {
      NoTarget(secs[..|secs| - 1], a);
    }
  }

  /** A relocation lying inside its section neither moves nor resizes anything. */
  lemma ApplyShape(secs: seq<Section>, r: Reloc, base: nat)
    requires Disjoint(secs) && Contained(secs, r) && Apply(secs, r, base).Ok?
    ensures SameShape(secs, Apply(secs, r, base).value) && Disjoint(Apply(secs, r, base).value)
  {
    var k :| 0 <= k < |secs| && WordIn(secs[k], r.offset);
    OneTarget(secs, r.offset, k);
  }

  lemma WordOfSection(secs: seq<Section>, k: nat, a: nat)
    requires Disjoint(secs) && k < |secs| && WordIn(secs[k], a)
    ensures Word(secs, a) == Slice8(secs[k].data, a - secs[k].va)
  {
    hide Peek, Disjoint;
    var w := Word(secs, a);
    forall i | 0 <= i < |w|
      ensures w[i] == Slice8(secs[k].data, a - secs[k].va)[i]
    {
      PeekIs(secs, k, a + i);
    }
  }

  lemma StoreBytes(s: Section, r: Reloc, base: nat, a: nat)
    requires WordIn(s, r.offset) && Store(s, r, base).Ok? && s.Covers(a)
    ensures var value, s' := base + Addend(r, Slice8(s.data, r.offset - s.va)), Store(s, r, base).value;
            0 <= value < TWO_64 && s'.va == s.va && |s'.data| == |s.data| &&
            s'.At(a) == if Covers8(r, a) then ToLe(value, 8)[a - r.offset] else s.At(a)
  {
  }

  lemma PeekUpdated(secs: seq<Section>, k: nat, s: Section, a: nat)
    requires Disjoint(secs) && k < |secs| && s.va == secs[k].va && |s.data| == |secs[k].data|
    ensures Peek(secs[k := s], a) == if s.Covers(a) then s.At(a) else Peek(secs, a)
  {
    hide Peek;
    var secs' := secs[k := s];
    assert Disjoint(secs');
    if j: nat :| j < |secs| && secs[j].Covers(a) {
      PeekIs(secs, j, a);
      PeekIs(secs', j, a);
    } else {
      PeekNothing(secs, a);
      PeekNothing(secs', a);
    }
  }

  lemma ApplyIs(secs: seq<Section>, r: Reloc, base: nat, k: nat)
    requires Disjoint(secs) && k < |secs| && WordIn(secs[k], r.offset) && Apply(secs, r, base).Ok?
    ensures Store(secs[k], r, base).Ok? && Apply(secs, r, base).value == secs[k := Store(secs[k], r, base).value]
  {
    hide Store, Disjoint;
    OneTarget(secs, r.offset, k);
  }

  /** The relocated word is `base` plus the addend; every other byte is unchanged. */
  lemma ApplyBytes(secs: seq<Section>, r: Reloc, base: nat, a: nat)
    requires Disjoint(secs) && Contained(secs, r) && Apply(secs, r, base).Ok?
    ensures 0 <= base + Addend(r, Word(secs, r.offset)) < TWO_64
    ensures Peek(Apply(secs, r, base).value, a) ==
            if Covers8(r, a) then ToLe(base + Addend(r, Word(secs, r.offset)), 8)[a - r.offset]
            else Peek(secs, a)
  {
    hide Targets, Peek, Disjoint, Word, Store, Apply, Slice8, Addend, ToLe;
    var k :| 0 <= k < |secs| && WordIn(secs[k], r.offset);
    ApplyIs(secs, r, base, k);
    WordOfSection(secs, k, r.offset);
    StoreBytes(secs[k], r, base, r.offset);
    PeekUpdated(secs, k, Store(secs[k], r, base).value, a);
    if secs[k].Covers(a) {
      StoreBytes(secs[k], r, base, a);
      PeekIs(secs, k, a);
    }
  }

  /** The relocated words do not overlap one another. */
  predicate Apart(rs: seq<Reloc>) {
    forall i, j | 0 <= i < j < |rs| ::
      rs[i].offset + 8 <= rs[j].offset || rs[j].offset + 8 <= rs[i].offset
  }

  /** Every relocated word lies inside one section. */
  predicate AllContained(secs: seq<Section>, rs: seq<Reloc>) {
    forall i | 0 <= i < |rs| :: Contained(secs, rs[i])
  }

  lemma StaysContained(secs: seq<Section>, secs': seq<Section>, rs: seq<Reloc>)
    requires AllContained(secs, rs) && SameShape(secs, secs')
    ensures AllContained(secs', rs)
  {
    forall i | 0 <= i < |rs|
      ensures Contained(secs', rs[i])
    {
      var k :| 0 <= k < |secs| && WordIn(secs[k], rs[i].offset);
      assert WordIn(secs'[k], rs[i].offset);
    }
  }

  /** What one relocation leaves for the remaining ones. */
  lemma ApplyFirst(secs: seq<Section>, rs: seq<Reloc>, base: nat)
    requires Disjoint(secs) && rs != [] && AllContained(secs, rs) && Apart(rs)
    requires ApplyAll(secs, rs, base).Ok?
    ensures var next := Apply(secs, rs[0], base);
            next.Ok? && SameShape(secs, next.value) && Disjoint(next.value) &&
            AllContained(next.value, rs[1..]) && Apart(rs[1..]) &&
            ApplyAll(next.value, rs[1..], base) == ApplyAll(secs, rs, base)
  {
    hide Apply, Disjoint, SameShape, Contained;
    ApplyShape(secs, rs[0], base);
    StaysContained(secs, Apply(secs, rs[0], base).value, rs);
  }

  lemma ShapeTransitive(a: seq<Section>, b: seq<Section>, c: seq<Section>)
    requires SameShape(a, b) && SameShape(b, c)
    ensures SameShape(a, c)
  {
  }

  lemma {:induction false} ApplyAllShape(secs: seq<Section>, rs: seq<Reloc>, base: nat)
    requires Disjoint(secs) && AllContained(secs, rs) && Apart(rs) && ApplyAll(secs, rs, base).Ok?
    ensures SameShape(secs, ApplyAll(secs, rs, base).value)
    decreases |rs|
  {
    hide Apply, Disjoint, AllContained, Apart, SameShape;
    if rs == [] {
      SameShapeRefl(secs);
    } else {
      ApplyFirst(secs, rs, base);
      var next := Apply(secs, rs[0], base).value;
      ApplyAllShape(next, rs[1..], base);
      ShapeTransitive(secs, next, ApplyAll(secs, rs, base).value);
    }
  }

  lemma SameShapeRefl(secs: seq<Section>)
    ensures SameShape(secs, secs)
  {
  }

  /** Bytes outside all relocated words are unchanged. */
  lemma {:induction false} ApplyAllElsewhere(secs: seq<Section>, rs: seq<Reloc>, base: nat, a: nat)
    requires Disjoint(secs) && AllContained(secs, rs) && Apart(rs) && ApplyAll(secs, rs, base).Ok?
    requires forall i | 0 <= i < |rs| :: !Covers8(rs[i], a)
    ensures Peek(ApplyAll(secs, rs, base).value, a) == Peek(secs, a)
    decreases |rs|
  {
    hide Apply, Disjoint, Apart, SameShape, Peek, Contained, Addend;
    if rs != [] {
      ApplyFirst(secs, rs, base);
      ApplyBytes(secs, rs[0], base, a);
      ApplyAllElsewhere(Apply(secs, rs[0], base).value, rs[1..], base, a);
    }
  }

  lemma WordUntouched(secs: seq<Section>, r: Reloc, base: nat, o: nat)
    requires Disjoint(secs) && Contained(secs, r) && Apply(secs, r, base).Ok?
    requires r.offset + 8 <= o || o + 8 <= r.offset
    ensures Word(Apply(secs, r, base).value, o) == Word(secs, o)
  {
    hide Apply, Disjoint, Peek, Contained, Addend, Word;
    var w, w' := Word(secs, o), Word(Apply(secs, r, base).value, o);
    forall i | 0 <= i < 8
      ensures w'[i] == w[i]
    {
      ApplyBytes(secs, r, base, o + i);
    }
  }

  /** Each relocated word is `base` plus its original addend. */
  lemma {:induction false} ApplyAllWord(secs: seq<Section>, rs: seq<Reloc>, base: nat, i: nat, a: nat)
    requires Disjoint(secs) && AllContained(secs, rs) && Apart(rs) && ApplyAll(secs, rs, base).Ok?
    requires i < |rs| && Covers8(rs[i], a)
    ensures var value := base + Addend(rs[i], Word(secs, rs[i].offset));
            0 <= value < TWO_64 &&
            Peek(ApplyAll(secs, rs, base).value, a) == ToLe(value, 8)[a - rs[i].offset]
    decreases |rs|
  {
    hide Apply, Disjoint, SameShape, Peek, Contained, Addend, Word, ToLe;
    ApplyFirst(secs, rs, base);
    var next := Apply(secs, rs[0], base).value;
    if i == 0 {
      ApplyBytes(secs, rs[0], base, a);
      ApplyAllElsewhere(next, rs[1..], base, a);
    } else {
      WordUntouched(secs, rs[0], base, rs[i].offset);
      ApplyAllWord(next, rs[1..], base, i - 1, a);
    }
  }

  // ----- relocation tables -----

  datatype State = State(secs: seq<Section>, pages: Pages)

  /** The loop body of convert_elf_reloc_table. */
  function ConvertReloc(st: State, r: Reloc, base: nat, elf: Elf): Result<State> {
    if r.rType == elf.noneType then Ok(st)
    else if r.rType != elf.relativeType then Err(UnsupportedRelocation)
    else
      var secs := Apply(st.secs, r, base);
      if secs.Err? then Err(secs.error) else Ok(State(secs.value, Record(st.pages, r.offset)))
  }

  function ConvertTable(st: State, rs: seq<Reloc>, base: nat, elf: Elf): Result<State>
    decreases |rs|
  {
    if rs == [] then Ok(st)
    else
      var next := ConvertReloc(st, rs[0], base, elf);
      if next.Err? then next else ConvertTable(next.value, rs[1..], base, elf)
  }

  function ConvertTables(st: State, tables: seq<RelocTable>, base: nat, elf: Elf): Result<State>
    decreases |tables|
  {
    if tables == [] then Ok(st)
    else if tables[0].kind != "REL" && tables[0].kind != "RELA" then Err(UnsupportedTable)
    else
      var next := ConvertTable(st, tables[0].relocs, base, elf);
      if next.Err? then next else ConvertTables(next.value, tables[1..], base, elf)
  }

  /** The relocations that ask for work: all but the NONE ones. */
  function Relatives(rs: seq<Reloc>, elf: Elf): seq<Reloc> {
    if rs == [] then []
    else (if rs[0].rType == elf.noneType then [] else [rs[0]]) + Relatives(rs[1..], elf)
  }

  function AllRelatives(tables: seq<RelocTable>, elf: Elf): seq<Reloc> {
    if tables == [] then [] else Relatives(tables[0].relocs, elf) + AllRelatives(tables[1..], elf)
  }

  function Offsets(rs: seq<Reloc>): (os: seq<nat>)
    ensures |os| == |rs| && forall i | 0 <= i < |rs| :: os[i] == rs[i].offset
  {
    seq(|rs|, i requires 0 <= i < |rs| => rs[i].offset)
  }

  function RecordFrom(pages: Pages, os: seq<nat>): Pages
    decreases |os|
  {
    if os == [] then pages else RecordFrom(Record(pages, os[0]), os[1..])
  }

  lemma {:induction false} RecordFromAll(a: seq<nat>, b: seq<nat>)
    ensures RecordFrom(RecordAll(a), b) == RecordAll(a + b)
    decreases |b|
  {
    hide Record;
    if b == [] {
      assert a + b == a;
    } else {
      assert (a + [b[0]])[..|a|] == a;
      RecordFromAll(a + [b[0]], b[1..]);
      assert a + [b[0]] + b[1..] == a + b;
    }
  }

  /** What a conversion over the relocations `rs` leaves behind. */
  predicate Converted(st: State, rs: seq<Reloc>, base: nat, st': State) {
    ApplyAll(st.secs, rs, base) == Ok(st'.secs) && st'.pages == RecordFrom(st.pages, Offsets(rs))
  }

  lemma {:induction false} ConvertedConcat(st: State, a: seq<Reloc>, mid: State, b: seq<Reloc>, base: nat, st': State)
    requires Converted(st, a, base, mid) && Converted(mid, b, base, st')
    ensures Converted(st, a + b, base, st')
    decreases |a|
  {
    hide Apply, Record, Offsets;
    if a == [] {
      assert a + b == b;
    } else {
      assert (a + b)[1..] == a[1..] + b;
      assert Offsets(a)[1..] == Offsets(a[1..]);
      assert Offsets(a + b)[1..] == Offsets(a[1..] + b);
      ConvertedConcat(State(Apply(st.secs, a[0], base).value, Record(st.pages, a[0].offset)), a[1..], mid, b, base,
                      st');
    }
  }

  lemma ConvertedOne(st: State, r: Reloc, base: nat, elf: Elf)
    requires ConvertReloc(st, r, base, elf).Ok?
    ensures Converted(st, Relatives([r], elf), base, ConvertReloc(st, r, base, elf).value)
  {
    hide Apply, Record;
    assert [r][1..] == [];
    assert Relatives([r], elf) == if r.rType == elf.noneType then [] else [r];
    assert Offsets([]) == [] && Offsets([r]) == [r.offset] && [r.offset][1..] == [];
    if r.rType != elf.noneType {
      var secs := Apply(st.secs, r, base).value;
      assert ApplyAll(secs, [], base) == Ok(secs);
      assert RecordFrom(st.pages, [r.offset]) == RecordFrom(Record(st.pages, r.offset), []);
    }
  }

  lemma {:induction false} TableConverted(st: State, rs: seq<Reloc>, base: nat, elf: Elf)
    requires ConvertTable(st, rs, base, elf).Ok?
    ensures Converted(st, Relatives(rs, elf), base, ConvertTable(st, rs, base, elf).value)
    decreases |rs|
  {
    hide ConvertReloc, Apply, Record;
    if rs == [] {
      assert Offsets([]) == [];
    } else {
      var next := ConvertReloc(st, rs[0], base, elf).value;
      ConvertedOne(st, rs[0], base, elf);
      TableConverted(next, rs[1..], base, elf);
      ConvertedConcat(st, Relatives([rs[0]], elf), next, Relatives(rs[1..], elf), base,
                      ConvertTable(st, rs, base, elf).value);
      assert Relatives([rs[0]], elf) + Relatives(rs[1..], elf) == Relatives(rs, elf) by {
        assert [rs[0]][1..] == [];
      }
    }
  }

  lemma {:induction false} TablesConverted(st: State, tables: seq<RelocTable>, base: nat, elf: Elf)
    requires ConvertTables(st, tables, base, elf).Ok?
    ensures Converted(st, AllRelatives(tables, elf), base, ConvertTables(st, tables, base, elf).value)
    decreases |tables|
  {
    hide ConvertTable, Relatives;
    if tables == [] {
      assert Offsets([]) == [];
    } else {
      var next := ConvertTable(st, tables[0].relocs, base, elf).value;
      TableConverted(st, tables[0].relocs, base, elf);
      TablesConverted(next, tables[1..], base, elf);
      ConvertedConcat(st, Relatives(tables[0].relocs, elf), next, AllRelatives(tables[1..], elf), base,
                      ConvertTables(st, tables, base, elf).value);
    }
  }

  /** From a fresh start: the relocations applied in order, and their pages recorded. */
  lemma ConversionMeaning(secs: seq<Section>, tables: seq<RelocTable>, base: nat, elf: Elf)
    requires ConvertTables(State(secs, map[]), tables, base, elf).Ok?
    ensures var st, rs := ConvertTables(State(secs, map[]), tables, base, elf).value, AllRelatives(tables, elf);
            ApplyAll(secs, rs, base) == Ok(st.secs) && st.pages == RecordAll(Offsets(rs))
  {
    hide ConvertTables, AllRelatives;
    TablesConverted(State(secs, map[]), tables, base, elf);
    var os := Offsets(AllRelatives(tables, elf));
    RecordFromAll([], os);
    assert [] + os == os;
  }

  /** The slice assignment keeps the data's length exactly when the whole word is inside:
      a target in the last seven bytes lengthens the section behind its header's back. */
  lemma StoreKeepsLength(s: Section, r: Reloc, base: nat)
    requires s.Covers(r.offset) && Store(s, r, base).Ok?
    ensures |Store(s, r, base).value.data| == |s.data| <==> WordIn(s, r.offset)
  {
  }

  /** A relocation one byte past the start of an eight-byte section: nine bytes are left. */
  lemma StoreLengthens()
    ensures var s := Section(".data", 0x1000, 8, 512, 0, RW, Zeros(8));
            var stored := Store(s, Reloc(0x1001, 8, true, 0), 0);
            s.Covers(0x1001) && stored.Ok? && |stored.value.data| == 9
  {
  }
}
