/** What iter_copy_sections and convert_sections compute, as functions on values,
    and the proof that the output sections hold every retained ELF byte at its own
    virtual address (tools/elf2efi.py:259-355). */
module Coalesce {
  import opened Bytes
  import opened ElfModel

  /** A section under construction: the values iter_copy_sections fills in. */
  datatype Run = Run(va: nat, perms: nat, data: seq<byte>)

  /** A PE section: the section-header fields and the bytes. */
  datatype Section = Section(name: string, va: nat, vsize: nat, rawSize: nat, ptr: nat,
                             perms: nat, data: seq<byte>)
  {
    predicate Covers(a: nat) {
      va <= a < va + |data|
    }

    function At(a: nat): byte
      requires Covers(a)
    {
      data[a - va]
    }
  }

  /** Puts a section's bytes after the last run, or opens a new run. */
  function Extend(runs: seq<Run>, addr: nat, data: seq<byte>, perms: nat): Result<seq<Run>> {
    if runs != [] && runs[|runs| - 1].perms == perms then
      var last := runs[|runs| - 1];
      var pad := addr - last.va - |last.data|;
      if pad < 0 then Err(NegativePadding)
      else Ok(runs[|runs| - 1 := last.(data := last.data + Zeros(pad) + data)])
    else Ok(runs + [Run(U32(addr), perms, data)])
  }

  predicate KnownType(shType: string) {
    shType == "SHT_PROGBITS" || shType == "SHT_NOBITS"
  }

  /** One step of the section loop; the last run is the one still open. */
  function AddSection(runs: seq<Run>, e: ElfSection, relro: Option<nat>): Result<seq<Run>> {
    if !Retained(e) then Ok(runs)
    else if !KnownType(e.shType) then Err(UnknownSectionType)
    else Extend(runs, e.addr, e.data, Permissions(e, relro))
  }

  function Runs(es: seq<ElfSection>, relro: Option<nat>): Result<seq<Run>> {
    if es == [] then Ok([])
    else
      var prev := Runs(es[..|es| - 1], relro);
      if prev.Err? then prev else AddSection(prev.value, es[|es| - 1], relro)
  }

  /** The segment loop: the alignment check and the last PT_GNU_RELRO. */
  function FindRelro(segs: seq<ElfSegment>): Result<Option<nat>> {
    if segs == [] then Ok(None)
    else
      var n := |segs| - 1;
      var prev := FindRelro(segs[..n]);
      if prev.Err? then prev
      else if segs[n].pType == "PT_LOAD" && segs[n].pAlign % PAGE != 0 then Err(SegmentMisaligned)
      else if segs[n].pType == "PT_GNU_RELRO" then Ok(Some(n))
      else prev
  }

  function NameOf(perms: nat): string {
    if perms == RX then ".text" else if perms == RW then ".data" else ".rodata"
  }

  /** Extends a run down to its page and fills in the header fields. */
  function Pad(run: Run): Section {
    var va := PageDown(run.va);
    var data := Zeros(run.va - va) + run.data;
    Section(NameOf(run.perms), va, U32(|data|), U32(FileUp(|data|)), 0, run.perms, data)
  }

  /** Where the last section ends according to its header: sum(last_vma). */
  function LastEnd(secs: seq<Section>): nat {
    if secs == [] then 0 else secs[|secs| - 1].va + secs[|secs| - 1].vsize
  }

  /** Appends a section unless it overlaps the last one. */
  function Append(secs: seq<Section>, s: Section): Result<seq<Section>> {
    if s.va < LastEnd(secs) then Err(SectionsOverlap) else Ok(secs + [s])
  }

  function PadAll(runs: seq<Run>): (r: Result<seq<Section>>)
    ensures r.Ok? ==> |r.value| == |runs|
  {
    if runs == [] then Ok([])
    else
      var n := |runs| - 1;
      var prev := PadAll(runs[..n]);
      if prev.Err? then prev else Append(prev.value, Pad(runs[n]))
  }

  lemma {:induction false} PadAllShape(runs: seq<Run>)
    requires PadAll(runs).Ok?
    ensures var secs := PadAll(runs).value;
            (forall k | 0 <= k < |runs| :: secs[k] == Pad(runs[k])) &&
            forall k | 0 < k < |runs| :: secs[k].va >= secs[k - 1].va + secs[k - 1].vsize
  {
    if runs != [] {
      PadAllShape(runs[..|runs| - 1]);
    }
  }

  /** The runs that are handed on, one by one, while the section loop goes on: each run when the
      next one opens, and the last one at the end unless the loop has failed. */
  function Handed(es: seq<ElfSection>, relro: Option<nat>): seq<Run> {
    var runs := Runs(es, relro);
    if runs.Ok? then runs.value
    else
      var prev := Runs(es[..|es| - 1], relro);
      if prev.Err? then Handed(es[..|es| - 1], relro) else Closed(prev.value)
  }

  /** All runs but the one still open. */
  function Closed(runs: seq<Run>): seq<Run> {
    if runs == [] then [] else runs[..|runs| - 1]
  }

  /** A run is converted as soon as it is handed on, so an overlap among the runs handed on is
      reported before an error of the section loop. */
  function Convert(elf: Elf): Result<seq<Section>> {
    var relro := FindRelro(elf.segments);
    if relro.Err? then Err(relro.error)
    else
      var runs := Runs(elf.sections, relro.value);
      var secs := PadAll(Handed(elf.sections, relro.value));
      if secs.Err? then secs else if runs.Err? then Err(runs.error) else secs
  }

  // ----- the optional-header counters -----

  /** The optional-header fields that depend on the kinds of the sections. */
  datatype SectionCounts = SectionCounts(baseOfCode: nat, sizeOfCode: nat, sizeOfInitializedData: nat)

  function Count(c: SectionCounts, s: Section): SectionCounts {
    if s.name == ".text" then c.(baseOfCode := s.va, sizeOfCode := U32(c.sizeOfCode + s.vsize))
    else c.(sizeOfInitializedData := U32(c.sizeOfInitializedData + s.vsize))
  }

  function Tally(secs: seq<Section>): SectionCounts {
    if secs == [] then SectionCounts(0, 0, 0)
    else Count(Tally(secs[..|secs| - 1]), secs[|secs| - 1])
  }

  // ----- the address map -----

  /** Every retained section lies below 4 GiB, the reach of a PE section header. */
  predicate Below4G(es: seq<ElfSection>) {
    forall i | 0 <= i < |es| && Retained(es[i]) :: es[i].addr + |es[i].data| < TWO_32
  }

  /** The bytes `data` placed at `va` include those of `e` at e's own address. */
  predicate Holds(va: nat, data: seq<byte>, e: ElfSection) {
    va <= e.addr && e.addr + |e.data| <= va + |data| &&
    data[e.addr - va..e.addr - va + |e.data|] == e.data
  }

  lemma {:induction false} RunBounds(es: seq<ElfSection>, relro: Option<nat>, k: nat)
    requires Below4G(es) && Runs(es, relro).Ok? && k < |Runs(es, relro).value|
    ensures var run := Runs(es, relro).value[k]; run.data != [] && run.va + |run.data| < TWO_32
  {
    var n := |es| - 1;
    if k < |Runs(es[..n], relro).value| {
      RunBounds(es[..n], relro, k);
    }
  }

  lemma StepKeepsRuns(runs: seq<Run>, e: ElfSection, relro: Option<nat>, k: nat)
    requires k < |runs| && AddSection(runs, e, relro).Ok?
    ensures var runs' := AddSection(runs, e, relro).value;
            |runs| <= |runs'| && runs'[k].va == runs[k].va && runs'[k].perms == runs[k].perms &&
            runs[k].data <= runs'[k].data
  {
  }

  lemma HoldsLonger(va: nat, data: seq<byte>, longer: seq<byte>, e: ElfSection)
    requires Holds(va, data, e) && data <= longer
    ensures Holds(va, longer, e)
  {
    var lo, hi := e.addr - va, e.addr - va + |e.data|;
    assert longer[lo..hi] == longer[..|data|][lo..hi];
  }

  lemma StepAddsSection(runs: seq<Run>, e: ElfSection, relro: Option<nat>)
    requires AddSection(runs, e, relro).Ok? && Retained(e) && e.addr < TWO_32
    ensures var runs' := AddSection(runs, e, relro).value;
            runs' != [] &&
            var last := runs'[|runs'| - 1];
            last.perms == Permissions(e, relro) && Holds(last.va, last.data, e)
  {
    var runs' := AddSection(runs, e, relro).value;
    var last := runs'[|runs'| - 1];
    if runs != [] && runs[|runs| - 1].perms == Permissions(e, relro) {
      var front := runs[|runs| - 1].data + Zeros(e.addr - last.va - |runs[|runs| - 1].data|);
      assert last.data == front + e.data && |front| == e.addr - last.va;
    }
  }

  lemma {:induction false} RunHolds(es: seq<ElfSection>, relro: Option<nat>, i: nat) returns (k: nat)
    requires Below4G(es) && Runs(es, relro).Ok? && i < |es| && Retained(es[i])
    ensures k < |Runs(es, relro).value|
    ensures var run := Runs(es, relro).value[k];
            run.perms == Permissions(es[i], relro) && Holds(run.va, run.data, es[i])
  {
    var n := |es| - 1;
    var prev := Runs(es[..n], relro).value;
    if i < n {
      k := RunHolds(es[..n], relro, i);
      StepKeepsRuns(prev, es[n], relro, k);
      HoldsLonger(prev[k].va, prev[k].data, Runs(es, relro).value[k].data, es[i]);
    } else {
      StepAddsSection(prev, es[n], relro);
      k := |Runs(es, relro).value| - 1;
    }
  }

  /** A nonzero byte of a run comes from a retained section at that address. */
  lemma {:induction false} RunOrigin(es: seq<ElfSection>, relro: Option<nat>, k: nat, j: nat) returns (i: nat)
    requires Below4G(es) && Runs(es, relro).Ok? && k < |Runs(es, relro).value|
    requires j < |Runs(es, relro).value[k].data| && Runs(es, relro).value[k].data[j] != 0
    ensures i < |es| && Retained(es[i]) && Inside(es[i], Runs(es, relro).value[k].va + j)
  {
    var n := |es| - 1;
    var prev, runs := Runs(es[..n], relro).value, Runs(es, relro).value;
    if k < |prev| && j < |prev[k].data| {
      i := RunOrigin(es[..n], relro, k, j);
    } else {
      i := n;
      if k < |prev| {
        RunBounds(es[..n], relro, k);
      }
    }
  }

  /** A run ends where some retained section ends. */
  lemma {:induction false} RunEnd(es: seq<ElfSection>, relro: Option<nat>, k: nat) returns (i: nat)
    requires Below4G(es) && Runs(es, relro).Ok? && k < |Runs(es, relro).value|
    ensures i < |es| && Retained(es[i])
    ensures var run := Runs(es, relro).value[k]; run.va + |run.data| == es[i].addr + |es[i].data|
  {
    var n := |es| - 1;
    var prev, runs := Runs(es[..n], relro).value, Runs(es, relro).value;
    if k < |prev| && runs[k] == prev[k] {
      i := RunEnd(es[..n], relro, k);
    } else {
      i := n;
    }
  }

  /** Page-aligned, nonempty, with the header sizes of their data, below 4 GiB. */
  predicate Placed(secs: seq<Section>) {
    forall k | 0 <= k < |secs| ::
      secs[k].va % 4096 == 0 && secs[k].data != [] && secs[k].vsize == |secs[k].data| &&
      secs[k].va + |secs[k].data| < TWO_32
  }

  /** Each section ends before the next one begins. */
  predicate Disjoint(secs: seq<Section>) {
    forall k, l | 0 <= k < l < |secs| :: secs[k].va + |secs[k].data| <= secs[l].va
  }

  predicate Adjacent(secs: seq<Section>) {
    forall k | 0 < k < |secs| :: secs[k - 1].va + |secs[k - 1].data| <= secs[k].va
  }

  lemma {:induction false} AdjacentThenDisjoint(secs: seq<Section>)
    requires Adjacent(secs)
    ensures Disjoint(secs)
  {
    if secs != [] {
      var n := |secs| - 1;
      AdjacentThenDisjoint(secs[..n]);
      forall k | 0 <= k < n
        ensures secs[k].va + |secs[k].data| <= secs[n].va
      {
        assert secs[..n][k] == secs[k] && secs[..n][n - 1] == secs[n - 1];
      }
    }
  }

  lemma ConvertShape(elf: Elf)
    requires Convert(elf).Ok? && Below4G(elf.sections)
    ensures Placed(Convert(elf).value) && Disjoint(Convert(elf).value)
  {
    var relro := FindRelro(elf.segments).value;
    var runs, secs := Runs(elf.sections, relro).value, Convert(elf).value;
    PadAllShape(runs);
    forall k | 0 <= k < |secs|
      ensures secs[k].va % 4096 == 0 && secs[k].data != [] && secs[k].vsize == |secs[k].data| &&
              secs[k].va + |secs[k].data| < TWO_32
    {
      RunBounds(elf.sections, relro, k);
      assert secs[k] == Pad(runs[k]);
    }
    AdjacentThenDisjoint(secs);
  }

  lemma PadHolds(run: Run, e: ElfSection)
    requires Holds(run.va, run.data, e)
    ensures Holds(Pad(run).va, Pad(run).data, e)
  {
    hide FileUp, NameOf, PageDown, U32;
    var s := Pad(run);
    var pad := run.va - s.va;
    assert s.data[e.addr - s.va..e.addr - s.va + |e.data|] == run.data[e.addr - run.va..e.addr - run.va + |e.data|];
  }

  lemma ConvertHolds(elf: Elf, i: nat) returns (k: nat)
    requires Convert(elf).Ok? && Below4G(elf.sections)
    requires i < |elf.sections| && Retained(elf.sections[i])
    ensures k < |Convert(elf).value|
    ensures var s := Convert(elf).value[k];
            Holds(s.va, s.data, elf.sections[i]) &&
            s.perms == Permissions(elf.sections[i], FindRelro(elf.segments).value)
  {
    var relro := FindRelro(elf.segments).value;
    k := RunHolds(elf.sections, relro, i);
    PadAllShape(Runs(elf.sections, relro).value);
    PadHolds(Runs(elf.sections, relro).value[k], elf.sections[i]);
  }

  /** Section `k` is the only one covering `a`; it has the byte and the permissions
      that the ELF section `e` has there. */
  predicate OnlyIn(secs: seq<Section>, k: nat, e: ElfSection, perms: nat, a: nat)
    requires k < |secs| && Inside(e, a)
  {
    secs[k].Covers(a) && secs[k].At(a) == e.data[a - e.addr] && secs[k].perms == perms &&
    forall l | 0 <= l < |secs| && secs[l].Covers(a) :: l == k
  }

  /** Coalescing keeps the address map: every byte of every retained section is in
      exactly one output section, at its own address and with its permissions. */
  lemma RetainedBytesKeepTheirAddress(elf: Elf, i: nat, a: nat) returns (k: nat)
    requires Convert(elf).Ok? && Below4G(elf.sections)
    requires i < |elf.sections| && Retained(elf.sections[i]) && Inside(elf.sections[i], a)
    ensures k < |Convert(elf).value|
    ensures OnlyIn(Convert(elf).value, k, elf.sections[i],
                   Permissions(elf.sections[i], FindRelro(elf.segments).value), a)
  {
    hide Convert, Retained, Permissions, FindRelro, Below4G;
    ConvertShape(elf);
    k := ConvertHolds(elf, i);
    var s, e := Convert(elf).value[k], elf.sections[i];
    assert s.data[e.addr - s.va..e.addr - s.va + |e.data|][a - e.addr] == s.data[a - s.va];
  }

  /** ... and every other byte of the output sections is zero. */
  lemma OtherBytesAreZero(elf: Elf, k: nat, a: nat)
    requires Convert(elf).Ok? && Below4G(elf.sections)
    requires k < |Convert(elf).value| && Convert(elf).value[k].Covers(a)
    requires forall i | 0 <= i < |elf.sections| && Retained(elf.sections[i]) :: !Inside(elf.sections[i], a)
    ensures Convert(elf).value[k].At(a) == 0
  {
    var relro := FindRelro(elf.segments).value;
    var run, s := Runs(elf.sections, relro).value[k], Convert(elf).value[k];
    PadAllShape(Runs(elf.sections, relro).value);
    if s.At(a) != 0 {
      assert run.data[a - run.va] != 0;
      var i := RunOrigin(elf.sections, relro, k, a - run.va);
    }
  }

  /** An output section ends where some retained section ends. */
  lemma SectionEnd(elf: Elf, k: nat) returns (i: nat)
    requires Convert(elf).Ok? && Below4G(elf.sections) && k < |Convert(elf).value|
    ensures i < |elf.sections| && Retained(elf.sections[i])
    ensures var s, e := Convert(elf).value[k], elf.sections[i]; s.va + |s.data| == e.addr + |e.data|
  {
    hide Retained, FindRelro;
    var relro := FindRelro(elf.segments).value;
    i := RunEnd(elf.sections, relro, k);
    PadAllShape(Runs(elf.sections, relro).value);
    PadEnd(Runs(elf.sections, relro).value[k]);
  }

  /** The section `e` lies at its own address in an output section that the 32-bit header
      fields can describe. */
  predicate HeldInReach(secs: seq<Section>, e: ElfSection) {
    exists k | 0 <= k < |secs| :: Holds(secs[k].va, secs[k].data, e) && secs[k].va + |secs[k].data| < TWO_32
  }

  /** Addresses are cut to 32 bits without a check. Of the accepted files, those all of whose
      retained sections are held at their own addresses are exactly those below 4 GiB. */
  lemma AddressesKeptExactlyBelow4G(elf: Elf)
    requires Convert(elf).Ok?
    ensures (forall i | 0 <= i < |elf.sections| && Retained(elf.sections[i]) ::
               HeldInReach(Convert(elf).value, elf.sections[i])) <==>
            Below4G(elf.sections)
  {
    hide Convert, Retained;
    if Below4G(elf.sections) {
      ConvertShape(elf);
      forall i | 0 <= i < |elf.sections| && Retained(elf.sections[i])
        ensures HeldInReach(Convert(elf).value, elf.sections[i])
      {
        var k := ConvertHolds(elf, i);
      }
    }
  }

  /** The conversion of a file with one section. */
  lemma LoneSection(elf: Elf, e: ElfSection)
    requires elf.sections == [e] && FindRelro(elf.segments).Ok? && Retained(e) && KnownType(e.shType)
    ensures var perms := Permissions(e, FindRelro(elf.segments).value);
            Convert(elf) == Ok([Pad(Run(U32(e.addr), perms, e.data))])
  {
    hide FindRelro, Retained, KnownType, Permissions, NameOf, FileUp;
    var relro := FindRelro(elf.segments).value;
    var run := Run(U32(e.addr), Permissions(e, relro), e.data);
    assert Runs([e], relro) == AddSection([], e, relro) == Ok([] + [run]) by {
      assert [e][..0] == [];
    }
    assert PadAll([run]) == Append([], Pad(run)) == Ok([] + [Pad(run)]) by {
      assert [run][..0] == [];
    }
    assert [] + [run] == [run] && [] + [Pad(run)] == [Pad(run)];
  }

  lemma PadEnd(run: Run)
    ensures Pad(run).va + |Pad(run).data| == run.va + |run.data|
  {
    hide FileUp, NameOf, PageDown;
  }

  lemma LoneRunHolds(run: Run, e: ElfSection)
    requires run.va == U32(e.addr) && run.data == e.data
    ensures Holds(Pad(run).va, Pad(run).data, e) <==> e.addr < TWO_32
  {
    hide Pad, U32;
    PadEnd(run);
    if e.addr < TWO_32 {
      assert run.data[0..|e.data|] == e.data;
      PadHolds(run, e);
    }
  }

  /** The header field for an address is 32 bits wide and is not checked: a lone section
      is in the image at its own address exactly when that address fits. */
  lemma LoneSectionKeepsItsAddress(elf: Elf, e: ElfSection)
    requires elf.sections == [e] && FindRelro(elf.segments).Ok?
    requires Retained(e) && KnownType(e.shType)
    ensures Convert(elf).Ok? && |Convert(elf).value| == 1
    ensures var s := Convert(elf).value[0]; Holds(s.va, s.data, e) <==> e.addr < TWO_32
  {
    hide FindRelro, Retained, KnownType, Permissions, Convert, Pad, U32, Holds;
    LoneSection(elf, e);
    LoneRunHolds(Run(U32(e.addr), Permissions(e, FindRelro(elf.segments).value), e.data), e);
  }

  /** A file with one section at 4 GiB: it is accepted, and the section is lost. */
  lemma SectionAt4GIsLost()
    ensures var e := ElfSection(".data", "SHT_PROGBITS", SHF_ALLOC + SHF_WRITE, TWO_32, [1], {});
            var elf := Elf([], [e], 0, true, [true], None, [], 0, 8);
            Retained(e) && Convert(elf).Ok? && !HeldInReach(Convert(elf).value, e)
  {
    hide Convert;
    var e := ElfSection(".data", "SHT_PROGBITS", SHF_ALLOC + SHF_WRITE, TWO_32, [1], {});
    assert HasFlag(3, SHF_ALLOC);
    assert FindRelro([]) == Ok(None);
    var elf := Elf([], [e], 0, true, [true], None, [], 0, 8);
    LoneSection(elf, e);
    AddressesKeptExactlyBelow4G(elf);
  }
}
