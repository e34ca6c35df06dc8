/** The mutable objects of tools/elf2efi.py and the two loops that build the section
    list (tools/elf2efi.py:259-355). */
module PeSections {
  import opened Bytes
  import opened ElfModel
  import opened Coalesce

  class PeSection {
    var name: string
    var virtualSize: nat
    var virtualAddress: nat
    var sizeOfRawData: nat
    var pointerToRawData: nat
    var characteristics: nat
    var data: seq<byte>

    constructor ()
      ensures Value() == Section("", 0, 0, 0, 0, 0, [])
    {
      name, virtualSize, virtualAddress, sizeOfRawData := "", 0, 0, 0;
      pointerToRawData, characteristics, data := 0, 0, [];
    }

    function Value(): Section
      reads this
    {
      Section(name, virtualAddress, virtualSize, sizeOfRawData, pointerToRawData, characteristics, data)
    }
  }

  class PeOptionalHeader {
    var imageBase: nat
    var addressOfEntryPoint: nat
    var baseOfCode: nat
    var sizeOfCode: nat
    var sizeOfInitializedData: nat
    var sizeOfHeaders: nat
    var sizeOfImage: nat
    var relocAddress: nat
    var relocSize: nat

    constructor (imageBase: nat)
      ensures this.imageBase == imageBase && Counts() == Tally([])
      ensures addressOfEntryPoint == sizeOfHeaders == sizeOfImage == relocAddress == relocSize == 0
    {
      this.imageBase := imageBase;
      addressOfEntryPoint, baseOfCode, sizeOfCode, sizeOfInitializedData := 0, 0, 0, 0;
      sizeOfHeaders, sizeOfImage, relocAddress, relocSize := 0, 0, 0, 0;
    }

    ghost function Counts(): SectionCounts
      reads this
    {
      SectionCounts(baseOfCode, sizeOfCode, sizeOfInitializedData)
    }
  }

  ghost predicate Distinct(ss: seq<PeSection>) {
    forall i, j | 0 <= i < j < |ss| :: ss[i] != ss[j]
  }

  ghost function Values(ss: seq<PeSection>): (vs: seq<Section>)
    reads ss
    ensures |vs| == |ss|
  {
    seq(|ss|, i requires 0 <= i < |ss| reads ss => ss[i].Value())
  }

  /** A section as iter_copy_sections leaves it. */
  ghost function Blank(run: Run): Section {
    Section("", run.va, 0, 0, 0, run.perms, run.data)
  }

  lemma ValuesAre(ss: seq<PeSection>, secs: seq<Section>)
    requires |ss| == |secs| && forall k | 0 <= k < |ss| :: ss[k].Value() == secs[k]
    ensures Values(ss) == secs
  {
  }

  method ScanSegments(segs: seq<ElfSegment>) returns (r: Result<Option<nat>>)
    ensures r == FindRelro(segs)
  {
    var relro: Option<nat> := None;
    for i := 0 to |segs|
      invariant FindRelro(segs[..i]) == Ok(relro)
    {
      assert segs[..i + 1][..i] == segs[..i];
      if segs[i].pType == "PT_LOAD" && segs[i].pAlign % PAGE != 0 {
        FailureLasts(segs, i + 1);
        return Err(SegmentMisaligned);
      }
      if segs[i].pType == "PT_GNU_RELRO" {
        relro := Some(i);
      }
    }
    assert segs[..|segs|] == segs;
    return Ok(relro);
  }

  lemma {:induction false} FailureLasts(segs: seq<ElfSegment>, i: nat)
    requires i <= |segs| && FindRelro(segs[..i]).Err?
    ensures FindRelro(segs) == FindRelro(segs[..i])
  {
    if i < |segs| {
      var n := |segs| - 1;
      assert segs[..n][..i] == segs[..i];
      FailureLasts(segs[..n], i);
    } else {
      assert segs[..i] == segs;
    }
  }

  lemma {:induction false} RunsFailureLasts(es: seq<ElfSection>, relro: Option<nat>, i: nat)
    requires i <= |es| && Runs(es[..i], relro).Err?
    ensures Runs(es, relro) == Runs(es[..i], relro)
  {
    if i < |es| {
      var n := |es| - 1;
      assert es[..n][..i] == es[..i];
      RunsFailureLasts(es[..n], relro, i);
    } else {
      assert es[..i] == es;
    }
  }

  lemma RunsStep(es: seq<ElfSection>, relro: Option<nat>, i: nat)
    requires i < |es| && Runs(es[..i], relro).Ok?
    ensures var runs, e := Runs(es[..i], relro).value, es[i];
            Runs(es[..i + 1], relro) ==
            if !Retained(e) then Ok(runs)
            else if !KnownType(e.shType) then Err(UnknownSectionType)
            else Extend(runs, e.addr, e.data, Permissions(e, relro))
  {
    assert es[..i + 1][..i] == es[..i];
  }

  lemma {:induction false} PadFailureLasts(runs: seq<Run>, i: nat)
    requires i <= |runs| && PadAll(runs[..i]).Err?
    ensures PadAll(runs) == PadAll(runs[..i])
  {
    hide Pad, Append;
    if i < |runs| {
      var n := |runs| - 1;
      assert runs[..n][..i] == runs[..i];
      PadFailureLasts(runs[..n], i);
    } else {
      assert runs[..i] == runs;
    }
  }

  /** The body of convert_sections' loop on one section. */
  method PadSection(s: PeSection, ghost run: Run)
    requires s.Value() == Blank(run)
    modifies s
    ensures s.Value() == Pad(run)
  {
    var vma := s.virtualAddress;
    s.virtualAddress := PageDown(vma);
    s.data := Zeros(vma - s.virtualAddress) + s.data;
    s.virtualSize := U32(|s.data|);
    s.sizeOfRawData := U32(FileUp(|s.data|));
    s.name := NameOf(s.characteristics);
  }

  method CountSection(opt: PeOptionalHeader, s: PeSection)
    modifies opt`baseOfCode, opt`sizeOfCode, opt`sizeOfInitializedData
    ensures opt.Counts() == Count(old(opt.Counts()), s.Value())
  {
    if s.name == ".text" {
      opt.baseOfCode := s.virtualAddress;
      opt.sizeOfCode := U32(opt.sizeOfCode + s.virtualSize);
    } else {
      opt.sizeOfInitializedData := U32(opt.sizeOfInitializedData + s.virtualSize);
    }
  }

  /** `lastEnd` is the sum of last_vma, the end of the section before. */
  method ConvertSection(s: PeSection, opt: PeOptionalHeader, lastEnd: nat, ghost run: Run, ghost secs: seq<Section>)
    returns (ok: bool)
    requires s.Value() == Blank(run)
    requires lastEnd == LastEnd(secs)
    modifies s, opt`baseOfCode, opt`sizeOfCode, opt`sizeOfInitializedData
    ensures s.Value() == Pad(run)
    ensures if ok then
              Append(secs, Pad(run)) == Ok(secs + [Pad(run)]) && opt.Counts() == Count(old(opt.Counts()), Pad(run))
            else Append(secs, Pad(run)) == Err(SectionsOverlap)
  {
    PadSection(s, run);
    if s.virtualAddress < lastEnd {
      return false;
    }
    CountSection(opt, s);
    return true;
  }

  lemma PadStep(runs: seq<Run>, i: nat)
    requires i < |runs| && PadAll(runs[..i]).Ok?
    ensures PadAll(runs[..i + 1]) == Append(PadAll(runs[..i]).value, Pad(runs[i]))
  {
    assert runs[..i + 1][..i] == runs[..i];
  }

  lemma TallyStep(secs: seq<Section>, s: Section)
    ensures Tally(secs + [s]) == Count(Tally(secs), s)
    ensures LastEnd(secs + [s]) == s.va + s.vsize
  {
    assert (secs + [s])[..|secs|] == secs;
  }

  // ----- the two loops together -----

  /** Once a new run has opened, the runs before it are handed on whatever comes later. */
  lemma {:induction false} ClosedIsHanded(es: seq<ElfSection>, relro: Option<nat>, i: nat)
    requires i <= |es| && Runs(es[..i], relro).Ok?
    ensures Closed(Runs(es[..i], relro).value) <= Handed(es, relro)
    decreases |es| - i
  {
    hide Retained, Permissions, KnownType, Extend, Runs;
    if i == |es| {
      assert es[..i] == es;
    } else {
      RunsStep(es, relro, i);
      if Runs(es[..i + 1], relro).Ok? {
        if Retained(es[i]) {
          ExtendKeepsClosed(Runs(es[..i], relro).value, es[i].addr, es[i].data, Permissions(es[i], relro));
        }
        ClosedIsHanded(es, relro, i + 1);
      } else {
        FailedHands(es, relro, i);
      }
    }
  }

  lemma ExtendKeepsClosed(runs: seq<Run>, addr: nat, data: seq<byte>, perms: nat)
    requires Extend(runs, addr, data, perms).Ok?
    ensures Closed(runs) <= Closed(Extend(runs, addr, data, perms).value)
  {
  }

  /** What has been handed on when section `i` is the first to fail. */
  lemma {:induction false} FailedHands(es: seq<ElfSection>, relro: Option<nat>, i: nat)
    requires i < |es| && Runs(es[..i], relro).Ok? && Runs(es[..i + 1], relro).Err?
    ensures Handed(es, relro) == Closed(Runs(es[..i], relro).value) && Runs(es, relro) == Runs(es[..i + 1], relro)
    decreases |es|
  {
    hide Runs;
    var n := |es| - 1;
    RunsFailureLasts(es, relro, i + 1);
    if i == n {
      assert es[..i + 1] == es;
    } else {
      assert es[..n][..i] == es[..i] && es[..n][..i + 1] == es[..i + 1];
      FailedHands(es[..n], relro, i);
    }
  }

  lemma {:induction false} PadPrefix(runs: seq<Run>, front: seq<Run>)
    requires front <= runs && PadAll(front).Err?
    ensures PadAll(runs) == PadAll(front)
  {
    assert runs[..|front|] == front;
    PadFailureLasts(runs, |front|);
  }

  /** Appends a section's bytes to the open section, after padding. */
  method ExtendOpen(open: PeSection, addr: nat, data: seq<byte>, ghost runs: seq<Run>) returns (ok: bool)
    requires runs != [] && open.Value() == Blank(runs[|runs| - 1])
    modifies open
    ensures var r := Extend(runs, addr, data, open.characteristics);
            if ok then
              r.Ok? && |r.value| == |runs| && Closed(r.value) == Closed(runs) &&
              open.Value() == Blank(r.value[|runs| - 1])
            else r == Err(NegativePadding)
    ensures open.characteristics == old(open.characteristics)
  {
    var pad := addr - open.virtualAddress - |open.data|;
    if pad < 0 {
      return false;
    }
    open.data := open.data + Zeros(pad) + data;
    return true;
  }

  method OpenSection(addr: nat, data: seq<byte>, perms: nat, ghost runs: seq<Run>) returns (s: PeSection)
    requires runs != [] ==> runs[|runs| - 1].perms != perms
    ensures fresh(s) && s.characteristics == perms
    ensures var r := Extend(runs, addr, data, perms);
            r.Ok? && |r.value| == |runs| + 1 && Closed(r.value) == runs && s.Value() == Blank(r.value[|runs|])
  {
    s := new PeSection();
    s.virtualAddress := U32(addr);
    s.characteristics := perms;
    s.data := data;
  }

  /** What convert_sections has built: the sections handed on to it, converted. */
  ghost predicate Built(ss: seq<PeSection>, opt: PeOptionalHeader, lastEnd: nat, done: seq<Run>)
    reads ss, opt
  {
    PadAll(done) == Ok(Values(ss)) && opt.Counts() == Tally(Values(ss)) && lastEnd == LastEnd(Values(ss))
  }

  /** One turn of convert_sections' loop, on the section just handed on. */
  method TakeSection(ss: seq<PeSection>, s: PeSection, opt: PeOptionalHeader, lastEnd: nat,
                     ghost done: seq<Run>, ghost run: Run)
    returns (ok: bool, end: nat)
    requires Built(ss, opt, lastEnd, done) && s !in ss && s.Value() == Blank(run)
    modifies s, opt`baseOfCode, opt`sizeOfCode, opt`sizeOfInitializedData
    ensures if ok then Built(ss + [s], opt, end, done + [run]) else PadAll(done + [run]) == Err(SectionsOverlap)
  {
    hide Pad, PadAll, Append, LastEnd, Tally, Count;
    assert Built(ss, opt, lastEnd, done);
    ghost var secs := Values(ss);
    assert (done + [run])[..|done|] == done && (done + [run])[..|done| + 1] == done + [run];
    PadStep(done + [run], |done|);
    ok := ConvertSection(s, opt, lastEnd, run, secs);
    end := lastEnd;
    if ok {
      TallyStep(secs, Pad(run));
      end := s.virtualAddress + s.virtualSize;
      assert end == s.Value().va + s.Value().vsize;
      ValuesAre(ss + [s], secs + [Pad(run)]);
    }
  }

  lemma NothingBuilt(opt: PeOptionalHeader, elf: Elf, relro: Option<nat>)
    requires opt.Counts() == Tally([])
    ensures Built([], opt, 0, []) && Runs(elf.sections[..0], relro) == Ok([])
  {
    ValuesAre([], []);
  }

  lemma SegmentsAreReported(elf: Elf)
    requires FindRelro(elf.segments).Err?
    ensures Convert(elf) == Err(FindRelro(elf.segments).error)
  {
  }

  /** An overlap found among the runs handed on so far is what the conversion reports. */
  lemma OverlapIsReported(elf: Elf, done: seq<Run>)
    requires FindRelro(elf.segments).Ok? && done <= Handed(elf.sections, FindRelro(elf.segments).value)
    requires PadAll(done) == Err(SectionsOverlap)
    ensures Convert(elf) == Err(SectionsOverlap)
  {
    hide PadAll, Handed, Runs, FindRelro;
    PadPrefix(Handed(elf.sections, FindRelro(elf.segments).value), done);
  }

  /** A failure of the section loop is reported when nothing handed on before overlaps. */
  lemma FailureIsReported(elf: Elf, i: nat)
    requires FindRelro(elf.segments).Ok? && i < |elf.sections|
    requires var relro := FindRelro(elf.segments).value;
             Runs(elf.sections[..i], relro).Ok? && Runs(elf.sections[..i + 1], relro).Err? &&
             PadAll(Closed(Runs(elf.sections[..i], relro).value)).Ok?
    ensures Convert(elf) == Err(Runs(elf.sections[..i + 1], FindRelro(elf.segments).value).error)
  {
    hide PadAll, Handed, Runs, FindRelro;
    FailedHands(elf.sections, FindRelro(elf.segments).value, i);
  }

  lemma LastOf(runs: seq<Run>)
    requires runs != []
    ensures Closed(runs) + [runs[|runs| - 1]] == runs
  {
  }

  lemma NewRun(runs: seq<Run>, addr: nat, data: seq<byte>, perms: nat)
    requires runs != [] ==> runs[|runs| - 1].perms != perms
    ensures var r := Extend(runs, addr, data, perms); r.Ok? && Closed(r.value) == runs
  {
  }

  /** When the section loop ends, all runs have been handed on. */
  lemma AllHanded(elf: Elf, runs: seq<Run>)
    requires FindRelro(elf.segments).Ok? && Runs(elf.sections, FindRelro(elf.segments).value) == Ok(runs)
    ensures Handed(elf.sections, FindRelro(elf.segments).value) == runs && Convert(elf) == PadAll(runs)
  {
    hide PadAll, Runs, FindRelro;
  }

  lemma BuiltIsConverted(ss: seq<PeSection>, opt: PeOptionalHeader, lastEnd: nat, runs: seq<Run>)
    requires Built(ss, opt, lastEnd, runs)
    ensures PadAll(runs) == Ok(Values(ss)) && opt.Counts() == Tally(Values(ss))
  {
  }

  /** convert_sections, driving the generator iter_copy_sections: whenever a section of other
      permissions turns up, the open section is handed on and converted at once. */
  method ConvertSections(elf: Elf, opt: PeOptionalHeader) returns (r: Result<seq<PeSection>>)
    requires opt.Counts() == Tally([])
    modifies opt`baseOfCode, opt`sizeOfCode, opt`sizeOfInitializedData
    ensures Convert(elf).Err? ==> r == Err(Convert(elf).error)
    ensures Convert(elf).Ok? ==>
              r.Ok? && fresh(r.value) && Distinct(r.value) && Values(r.value) == Convert(elf).value &&
              opt.Counts() == Tally(Convert(elf).value)
  {
    hide Convert, Runs, Retained, Permissions, KnownType, Extend, Built, PadAll, FindRelro, Handed, Tally;
    var found := ScanSegments(elf.segments);
    if found.Err? {
      SegmentsAreReported(elf);
      return Err(found.error);
    }
    var relro := found.value;
    var sections: seq<PeSection>, open: PeSection?, lastEnd := [], null, 0;
    ghost var runs: seq<Run> := [];
    NothingBuilt(opt, elf, relro);
    for i := 0 to |elf.sections|
      invariant Runs(elf.sections[..i], relro) == Ok(runs)
      invariant fresh(sections) && Distinct(sections) && Built(sections, opt, lastEnd, Closed(runs))
      invariant if open == null then runs == []
                else runs != [] && fresh(open) && open !in sections && open.Value() == Blank(runs[|runs| - 1])
    {
      RunsStep(elf.sections, relro, i);
      var e := elf.sections[i];
      if !Retained(e) {
        continue;
      }
      if !KnownType(e.shType) {
        BuiltIsConverted(sections, opt, lastEnd, Closed(runs));
        FailureIsReported(elf, i);
        return Err(UnknownSectionType);
      }
      var perms := Permissions(e, relro);
      ghost var next := Extend(runs, e.addr, e.data, perms);
      if open != null && open.characteristics != perms {
        LastOf(runs);
        var taken, end := TakeSection(sections, open, opt, lastEnd, Closed(runs), runs[|runs| - 1]);
        if !taken {
          NewRun(runs, e.addr, e.data, perms);
          ClosedIsHanded(elf.sections, relro, i + 1);
          OverlapIsReported(elf, runs);
          return Err(SectionsOverlap);
        }
        sections, open, lastEnd := sections + [open], null, end;
      }
      if open == null {
        open := OpenSection(e.addr, e.data, perms, runs);
      } else {
        var extended := ExtendOpen(open, e.addr, e.data, runs);
        if !extended {
          BuiltIsConverted(sections, opt, lastEnd, Closed(runs));
          FailureIsReported(elf, i);
          return Err(NegativePadding);
        }
      }
      runs := next.value;
    }
    assert elf.sections[..|elf.sections|] == elf.sections;
    AllHanded(elf, runs);
    if open != null {
      LastOf(runs);
      var taken, end := TakeSection(sections, open, opt, lastEnd, Closed(runs), runs[|runs| - 1]);
      if !taken {
        OverlapIsReported(elf, runs);
        return Err(SectionsOverlap);
      }
      sections, lastEnd := sections + [open], end;
    }
    BuiltIsConverted(sections, opt, lastEnd, runs);
    return Ok(sections);
  }
}
