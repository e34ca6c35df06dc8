/** Which dynamic sections and relocation tables are accepted: the exact conditions
    (tools/elf2efi.py:384-453, tools/elf2efi.py:456-509). */
module RelocationsAccepted {
  import opened Bytes
  import opened ElfModel
  import opened Coalesce
  import opened Relocate
  import opened PeImage
  import opened Layout
  import opened LoadEquivalence

  // ----- which relocations are applied -----

  lemma {:induction false} InRelatives(rs: seq<Reloc>, elf: Elf, r: Reloc)
    ensures r in Relatives(rs, elf) <==> r in rs && r.rType != elf.noneType
  {
    if rs != [] {
      InRelatives(rs[1..], elf, r);
      assert rs == [rs[0]] + rs[1..];
    }
  }

  /** The relocations that are applied are exactly those of all tables that are not of the NONE
      type. */
  lemma {:induction false} AllRelativesAreAll(tables: seq<RelocTable>, elf: Elf, r: Reloc)
    ensures r in AllRelatives(tables, elf) <==> r.rType != elf.noneType && exists t | t in tables :: r in t.relocs
  {
    if tables != [] {
      InRelatives(tables[0].relocs, elf, r);
      AllRelativesAreAll(tables[1..], elf, r);
      assert tables == [tables[0]] + tables[1..];
    }
  }

  // ----- the loops -----

  predicate TypesKnown(rs: seq<Reloc>, elf: Elf) {
    forall r | r in rs :: r.rType == elf.noneType || r.rType == elf.relativeType
  }

  predicate TablesKnown(tables: seq<RelocTable>, elf: Elf) {
    forall t | t in tables :: (t.kind == "REL" || t.kind == "RELA") && TypesKnown(t.relocs, elf)
  }

  lemma TypesKnownStep(rs: seq<Reloc>, elf: Elf)
    requires rs != []
    ensures TypesKnown(rs, elf) <==>
            (rs[0].rType == elf.noneType || rs[0].rType == elf.relativeType) && TypesKnown(rs[1..], elf)
  {
    assert rs == [rs[0]] + rs[1..];
  }

  lemma TablesKnownStep(tables: seq<RelocTable>, elf: Elf)
    requires tables != []
    ensures TablesKnown(tables, elf) <==>
            (tables[0].kind == "REL" || tables[0].kind == "RELA") && TypesKnown(tables[0].relocs, elf) &&
            TablesKnown(tables[1..], elf)
  {
    hide TypesKnown;
    assert tables == [tables[0]] + tables[1..];
  }

  /** One table is accepted exactly when its types are known and every store succeeds. */
  lemma {:induction false} TableExactly(st: State, rs: seq<Reloc>, base: nat, elf: Elf)
    ensures ConvertTable(st, rs, base, elf).Ok? <==>
            TypesKnown(rs, elf) && ApplyAll(st.secs, Relatives(rs, elf), base).Ok?
    ensures ConvertTable(st, rs, base, elf).Ok? ==>
            ApplyAll(st.secs, Relatives(rs, elf), base) == Ok(ConvertTable(st, rs, base, elf).value.secs)
    decreases |rs|
  {
    hide Apply, TypesKnown;
    if rs == [] {
      NothingUnknown(elf);
    } else {
      TypesKnownStep(rs, elf);
      var next, rest := ConvertReloc(st, rs[0], base, elf), Relatives(rs[1..], elf);
      if next.Ok? {
        TableExactly(next.value, rs[1..], base, elf);
      }
      if rs[0].rType == elf.noneType {
        assert Relatives(rs, elf) == rest;
      } else {
        assert Relatives(rs, elf) == [rs[0]] + rest;
        ApplyCons(st.secs, rs[0], rest, base);
      }
    }
  }

  lemma NothingUnknown(elf: Elf)
    ensures TypesKnown([], elf) && TablesKnown([], elf)
  {
  }

  lemma ApplyCons(secs: seq<Section>, r: Reloc, rest: seq<Reloc>, base: nat)
    ensures var next := Apply(secs, r, base);
            ApplyAll(secs, [r] + rest, base) == if next.Err? then next else ApplyAll(next.value, rest, base)
  {
    hide Apply;
    assert ([r] + rest)[1..] == rest;
  }

  lemma {:induction false} ApplyConcat(secs: seq<Section>, a: seq<Reloc>, b: seq<Reloc>, base: nat)
    ensures var mid := ApplyAll(secs, a, base);
            ApplyAll(secs, a + b, base) == if mid.Err? then mid else ApplyAll(mid.value, b, base)
    decreases |a|
  {
    hide Apply;
    if a == [] {
      assert a + b == b;
    } else {
      assert (a + b)[1..] == a[1..] + b;
      if Apply(secs, a[0], base).Ok? {
        ApplyConcat(Apply(secs, a[0], base).value, a[1..], b, base);
      }
    }
  }

  lemma {:induction false} TablesExactly(st: State, tables: seq<RelocTable>, base: nat, elf: Elf)
    ensures ConvertTables(st, tables, base, elf).Ok? <==>
            TablesKnown(tables, elf) && ApplyAll(st.secs, AllRelatives(tables, elf), base).Ok?
    decreases |tables|
  {
    hide ConvertTable, ApplyAll, TypesKnown, TablesKnown, Relatives;
    if tables == [] {
      NothingUnknown(elf);
      NothingApplied(st.secs, base);
    } else {
      TablesKnownStep(tables, elf);
      var next := ConvertTable(st, tables[0].relocs, base, elf);
      TableExactly(st, tables[0].relocs, base, elf);
      ApplyConcat(st.secs, Relatives(tables[0].relocs, elf), AllRelatives(tables[1..], elf), base);
      if next.Ok? {
        TablesExactly(next.value, tables[1..], base, elf);
      }
    }
  }

  lemma NothingApplied(secs: seq<Section>, base: nat)
    ensures ApplyAll(secs, [], base) == Ok(secs)
  {
  }

  // ----- the stores -----

  predicate ValueFits(value: int) {
    0 <= value < TWO_64
  }

  lemma ApplyOk(secs: seq<Section>, r: Reloc, base: nat)
    requires Disjoint(secs) && Contained(secs, r)
    ensures Apply(secs, r, base).Ok? <==> ValueFits(base + Addend(r, Word(secs, r.offset)))
  {
    hide Targets, Peek, Disjoint, Word, Slice8, Addend, ToLe, Splice8;
    var k :| 0 <= k < |secs| && WordIn(secs[k], r.offset);
    OneTarget(secs, r.offset, k);
    WordOfSection(secs, k, r.offset);
  }

  /** Disjoint words inside sections are all stored exactly when every value fits a word. */
  lemma {:induction false} StoresExactly(secs: seq<Section>, rs: seq<Reloc>, base: nat)
    requires Disjoint(secs) && AllContained(secs, rs) && Apart(rs)
    ensures ApplyAll(secs, rs, base).Ok? <==>
            forall i | 0 <= i < |rs| :: ValueFits(base + Addend(rs[i], Word(secs, rs[i].offset)))
    decreases |rs|
  {
    hide Apply, Disjoint, SameShape, Contained, Addend, Word, ValueFits;
    if rs != [] {
      ApplyOk(secs, rs[0], base);
      if Apply(secs, rs[0], base).Ok? {
        var next := Apply(secs, rs[0], base).value;
        ApplyShape(secs, rs[0], base);
        StaysContained(secs, next, rs);
        StoresExactly(next, rs[1..], base);
        forall i | 0 < i < |rs|
          ensures Word(next, rs[i].offset) == Word(secs, rs[i].offset)
        {
          WordUntouched(secs, rs[0], base, rs[i].offset);
        }
        assert forall i | 0 <= i < |rs| - 1 :: rs[1..][i] == rs[i + 1];
      }
    }
  }

  // ----- the whole conversion -----

  /** What is asked of the dynamic section and of the symbol __executable_start. */
  predicate DynamicFine(elf: Elf) {
    elf.hasDynamic && elf.flags1 == [true] && (elf.start == None || elf.start == Some(0))
  }

  lemma DynamicExactly(elf: Elf)
    ensures CheckDynamic(elf).Ok? <==> DynamicFine(elf)
  {
  }

  /** What the word of a relocation holds in a file loaded at the ELF base `bias`. */
  function Loaded(elf: Elf, bias: nat, r: Reloc): int {
    bias + if r.rela then r.addend else FromLe(ElfWord(elf.sections, r.offset))
  }

  /** Every relocation of every table stores a 64-bit value. */
  predicate ValuesFit(elf: Elf, bias: nat) {
    forall t, r | t in elf.tables && r in t.relocs && r.rType != elf.noneType :: 0 <= Loaded(elf, bias, r) < TWO_64
  }

  lemma LoadedIs(elf: Elf, bias: nat, r: Reloc)
    requires Convert(elf).Ok? && Below4G(elf.sections) && WordRetained(elf, r.offset)
    ensures ValueFits(bias + Addend(r, Word(Convert(elf).value, r.offset))) <==> 0 <= Loaded(elf, bias, r) < TWO_64
  {
    hide Convert, Below4G, Word, ElfWord, FromLe;
    ConvertedWord(elf, r.offset);
  }

  lemma ListedValues(elf: Elf, bias: nat)
    ensures ValuesFit(elf, bias) <==>
            forall i | 0 <= i < |AllRelatives(elf.tables, elf)| ::
              0 <= Loaded(elf, bias, AllRelatives(elf.tables, elf)[i]) < TWO_64
  {
    hide AllRelatives, Loaded;
    var rs := AllRelatives(elf.tables, elf);
    forall i | ValuesFit(elf, bias) && 0 <= i < |rs|
      ensures 0 <= Loaded(elf, bias, rs[i]) < TWO_64
    {
      assert rs[i] in rs;
      AllRelativesAreAll(elf.tables, elf, rs[i]);
    }
    forall t, r | t in elf.tables && r in t.relocs && r.rType != elf.noneType
      ensures exists i | 0 <= i < |rs| :: rs[i] == r
    {
      AllRelativesAreAll(elf.tables, elf, r);
      var i :| 0 <= i < |rs| && rs[i] == r;
    }
  }

  lemma ValuesExactly(elf: Elf, bias: nat)
    requires Convert(elf).Ok? && Below4G(elf.sections) && GoodRelocs(elf)
    ensures ApplyAll(Convert(elf).value, AllRelatives(elf.tables, elf), bias).Ok? <==> ValuesFit(elf, bias)
  {
    hide Convert, Below4G, AllRelatives, Apart, WordRetained, ApplyAll, AllContained, Disjoint, Addend, Word, Loaded,
         ValueFits, ValuesFit;
    var secs, rs := Convert(elf).value, AllRelatives(elf.tables, elf);
    ConvertShape(elf);
    RelocsContained(elf);
    StoresExactly(secs, rs, bias);
    ListedValues(elf, bias);
    forall i | 0 <= i < |rs|
      ensures ValueFits(bias + Addend(rs[i], Word(secs, rs[i].offset))) <==>
              0 <= Loaded(elf, bias, rs[i]) < TWO_64
    {
      LoadedIs(elf, bias, rs[i]);
    }
  }

  lemma RelocatedExactly(elf: Elf, imageBase: nat, minimum: int)
    requires Convert(elf).Ok? && Convert(elf).value != [] && Below4G(elf.sections) && GoodRelocs(elf)
    ensures ConvertRelocations(elf, Convert(elf).value, imageBase, minimum).Ok? <==>
            DynamicFine(elf) && TablesKnown(elf.tables, elf) && ValuesFit(elf, imageBase + Shift32(elf, minimum))
  {
    hide Convert, Below4G, GoodRelocs, AllRelatives, ApplyAll, TablesKnown, ValuesFit, DynamicFine, CheckDynamic,
         HeaderSize, Finish, ConvertTables, SegmentOffset;
    var bias := imageBase + Shift32(elf, minimum);
    DynamicExactly(elf);
    TablesExactly(State(Convert(elf).value, map[]), elf.tables, bias, elf);
    ValuesExactly(elf, bias);
  }

  /** A file whose sections are converted, whose image fits and whose relocated words are
      disjoint and lie in its sections is accepted exactly when it is a PIE linked at 0, its tables
      hold REL or RELA relocations of the two known types, and every relocated word has a 64-bit
      value at the preferred base. */
  lemma AcceptedExactly(elf: Elf, imageBase: nat, minimum: int)
    requires Fits(elf, minimum) && GoodRelocs(elf) && ExactHeaders(|Convert(elf).value|, minimum) < TWO_32
    ensures Elf2Efi(elf, imageBase, minimum).Ok? <==>
            DynamicFine(elf) && TablesKnown(elf.tables, elf) && ValuesFit(elf, imageBase + Shift32(elf, minimum))
  {
    hide Convert, ConvertRelocations, GoodRelocs, TablesKnown, ValuesFit, DynamicFine, Elf2Efi, ExactHeaders,
         HeaderSize, ImageSize, Below4G, Shift32;
    RelocatedExactly(elf, imageBase, minimum);
    if Elf2Efi(elf, imageBase, minimum).Ok? {
      AcceptedHeaders(elf, imageBase, minimum);
    } else if ConvertRelocations(elf, Convert(elf).value, imageBase, minimum).Ok? {
      LayoutInvariant(elf, imageBase, minimum);
    }
  }
}
