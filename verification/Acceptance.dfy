/** Which ELF files are converted: the exact conditions, in terms of the file
    (tools/elf2efi.py:259-355, tools/elf2efi.py:400-500). */
module Acceptance {
  import opened Bytes
  import opened ElfModel
  import opened Coalesce
  import opened SectionKinds

  predicate SegmentsAligned(segs: seq<ElfSegment>) {
    forall i | 0 <= i < |segs| && segs[i].pType == "PT_LOAD" :: segs[i].pAlign % 4096 == 0
  }

  lemma {:induction false} AlignedSegments(segs: seq<ElfSegment>)
    ensures FindRelro(segs).Ok? <==> SegmentsAligned(segs)
  {
    if segs != [] {
      var n := |segs| - 1;
      AlignedSegments(segs[..n]);
      assert SegmentsAligned(segs) ==> SegmentsAligned(segs[..n]);
    }
  }

  function End(e: ElfSection): nat {
    e.addr + |e.data|
  }

  /** Both sections are retained, and none between them is. */
  predicate Neighbours(es: seq<ElfSection>, i: nat, j: nat) {
    i < j < |es| && Retained(es[i]) && Retained(es[j]) && forall k | i < k < j :: !Retained(es[k])
  }

  predicate KnownTypes(es: seq<ElfSection>) {
    forall i | 0 <= i < |es| && Retained(es[i]) :: KnownType(es[i].shType)
  }

  /** A section that follows one of the same permissions starts behind it; one of other
      permissions starts in a page behind it. */
  predicate InOrder(es: seq<ElfSection>, relro: Option<nat>) {
    forall i, j | 0 <= i < j < |es| && Neighbours(es, i, j) :: PairInOrder(es[i], es[j], relro)
  }

  /** The last retained section. */
  predicate LastRetained(es: seq<ElfSection>, i: nat) {
    i < |es| && Retained(es[i]) && forall k | i < k < |es| :: !Retained(es[k])
  }

  /** The open run ends with the last retained section. */
  predicate OpenRun(es: seq<ElfSection>, relro: Option<nat>, runs: seq<Run>) {
    if runs == [] then forall i | 0 <= i < |es| :: !Retained(es[i])
    else
      exists i | 0 <= i < |es| ::
        LastRetained(es, i) && runs[|runs| - 1].perms == Permissions(es[i], relro) &&
        runs[|runs| - 1].va + |runs[|runs| - 1].data| == End(es[i])
  }

  /** The sections are merged and padded without an error. */
  predicate Merges(es: seq<ElfSection>, relro: Option<nat>) {
    Runs(es, relro).Ok? && PadAll(Runs(es, relro).value).Ok?
  }

  predicate Fine(es: seq<ElfSection>, relro: Option<nat>) {
    KnownTypes(es) && InOrder(es, relro)
  }

  lemma SameNeighbours(es: seq<ElfSection>, e: ElfSection, i: nat, j: nat)
    requires j < |es|
    ensures Neighbours(es + [e], i, j) <==> Neighbours(es, i, j)
  {
    hide Retained;
    var all := es + [e];
    assert forall k | 0 <= k <= j :: all[k] == es[k];
  }

  /** The order of two neighbours. */
  predicate PairInOrder(d: ElfSection, e: ElfSection, relro: Option<nat>) {
    End(d) <= if Permissions(d, relro) == Permissions(e, relro) then e.addr else PageDown(e.addr)
  }

  /** What one section more asks for. */
  predicate NextFine(es: seq<ElfSection>, e: ElfSection, relro: Option<nat>) {
    Retained(e) ==>
      KnownType(e.shType) && forall i | 0 <= i < |es| && LastRetained(es, i) :: PairInOrder(es[i], e, relro)
  }

  lemma FinePrefix(es: seq<ElfSection>, e: ElfSection, relro: Option<nat>)
    requires Fine(es + [e], relro)
    ensures Fine(es, relro) && NextFine(es, e, relro)
  {
    hide Retained, KnownType, PairInOrder, Neighbours;
    var all, n := es + [e], |es|;
    assert all[n] == e;
    forall i | 0 <= i < n && Retained(es[i])
      ensures KnownType(es[i].shType)
    {
      assert all[i] == es[i];
    }
    forall i, j | 0 <= i < j < n && Neighbours(es, i, j)
      ensures PairInOrder(es[i], es[j], relro)
    {
      SameNeighbours(es, e, i, j);
      assert PairInOrder(all[i], all[j], relro);
    }
    forall i | 0 <= i < n && LastRetained(es, i) && Retained(e)
      ensures PairInOrder(es[i], e, relro)
    {
      LastIsNeighbour(es, e, i);
      assert PairInOrder(all[i], all[n], relro);
    }
  }

  lemma LastIsNeighbour(es: seq<ElfSection>, e: ElfSection, i: nat)
    requires i < |es|
    ensures Neighbours(es + [e], i, |es|) <==> Retained(e) && LastRetained(es, i)
  {
    hide Retained;
    var all := es + [e];
    assert all[|es|] == e && forall k | 0 <= k < |es| :: all[k] == es[k];
  }

  lemma FineLonger(es: seq<ElfSection>, e: ElfSection, relro: Option<nat>)
    requires Fine(es, relro) && NextFine(es, e, relro)
    ensures Fine(es + [e], relro)
  {
    hide Retained, KnownType, PairInOrder, Neighbours;
    var all, n := es + [e], |es|;
    forall i, j | 0 <= i < j < |all| && Neighbours(all, i, j)
      ensures PairInOrder(all[i], all[j], relro)
    {
      if j < n {
        SameNeighbours(es, e, i, j);
      } else {
        LastIsNeighbour(es, e, i);
      }
    }
  }

  /** More data at the end of the open run does not change whether the runs overlap. */
  lemma PadAllExtended(runs: seq<Run>, data: seq<byte>)
    requires runs != []
    ensures PadAll(runs[|runs| - 1 := runs[|runs| - 1].(data := data)]).Ok? <==> PadAll(runs).Ok?
  {
    hide PageDown, FileUp, U32, NameOf;
    var n := |runs| - 1;
    assert runs[n := runs[n].(data := data)][..n] == runs[..n];
  }

  lemma PadAllAppended(runs: seq<Run>, run: Run)
    ensures PadAll(runs + [run]).Ok? <==>
            PadAll(runs).Ok? && PageDown(run.va) >= LastEnd(PadAll(runs).value)
  {
    hide PageDown, FileUp, U32, NameOf;
    assert (runs + [run])[..|runs|] == runs;
  }

  lemma PaddedEnd(run: Run)
    requires run.va + |run.data| < TWO_32
    ensures Pad(run).va + Pad(run).vsize == run.va + |run.data|
  {
    hide FileUp, NameOf;
  }

  lemma LastRunEnd(runs: seq<Run>)
    requires runs != [] && PadAll(runs).Ok?
    requires var last := runs[|runs| - 1]; last.va + |last.data| < TWO_32
    ensures LastEnd(PadAll(runs).value) == runs[|runs| - 1].va + |runs[|runs| - 1].data|
  {
    hide Pad, FileUp, NameOf, U32;
    PadAllShape(runs);
    PaddedEnd(runs[|runs| - 1]);
  }

  /** An overlap that is there stays there. */
  lemma StaysBad(runs: seq<Run>, e: ElfSection, relro: Option<nat>)
    requires AddSection(runs, e, relro).Ok? && PadAll(AddSection(runs, e, relro).value).Ok?
    ensures PadAll(runs).Ok?
  {
    hide Retained, KnownType, PadAll, U32, LastEnd;
    if Retained(e) {
      var n := |runs| - 1;
      if runs != [] && runs[n].perms == Permissions(e, relro) {
        PadAllExtended(runs, AddSection(runs, e, relro).value[n].data);
      } else {
        PadAllAppended(runs, Run(U32(e.addr), Permissions(e, relro), e.data));
      }
    }
  }

  /** One retained section more: what has to hold, and the open run afterwards. */
  lemma Opened(es: seq<ElfSection>, e: ElfSection, relro: Option<nat>, runs: seq<Run>)
    requires PadAll(runs).Ok? && OpenRun(es, relro, runs) && Retained(e) && KnownType(e.shType)
    requires runs != [] ==> runs[|runs| - 1].va + |runs[|runs| - 1].data| < TWO_32
    requires e.addr < TWO_32 && U32(e.addr) == e.addr
    requires runs == [] || runs[|runs| - 1].perms != Permissions(e, relro)
    ensures AddSection(runs, e, relro).Ok?
    ensures PadAll(AddSection(runs, e, relro).value).Ok? <==> NextFine(es, e, relro)
  {
    hide Retained, KnownType, Permissions, PadAll, PageDown, LastRetained, U32;
    PadAllAppended(runs, Run(e.addr, Permissions(e, relro), e.data));
    if runs != [] {
      LastRunEnd(runs);
      var i :| 0 <= i < |es| && LastRetained(es, i) && runs[|runs| - 1].perms == Permissions(es[i], relro) &&
               runs[|runs| - 1].va + |runs[|runs| - 1].data| == End(es[i]);
      OnlyLast(es, e, i, relro);
    } else {
      NoLast(es);
      NothingPadded();
    }
  }

  lemma NothingPadded()
    ensures PadAll([]) == Ok([])
  {
  }

  lemma NoLast(es: seq<ElfSection>)
    requires forall i | 0 <= i < |es| :: !Retained(es[i])
    ensures forall i | 0 <= i < |es| :: !LastRetained(es, i)
  {
  }

  lemma OnlyLast(es: seq<ElfSection>, e: ElfSection, i: nat, relro: Option<nat>)
    requires LastRetained(es, i)
    ensures NextFine(es, e, relro) <==> (Retained(e) ==> KnownType(e.shType) && PairInOrder(es[i], e, relro))
  {
    hide Retained, KnownType, PairInOrder;
    assert forall k | 0 <= k < |es| && LastRetained(es, k) :: k == i;
  }

  lemma Joined(es: seq<ElfSection>, e: ElfSection, relro: Option<nat>, runs: seq<Run>)
    requires PadAll(runs).Ok? && OpenRun(es, relro, runs) && Retained(e) && KnownType(e.shType)
    requires runs != [] && runs[|runs| - 1].perms == Permissions(e, relro)
    ensures AddSection(runs, e, relro).Ok? && PadAll(AddSection(runs, e, relro).value).Ok? <==>
            NextFine(es, e, relro)
  {
    hide Retained, KnownType, Permissions, PadAll, PageDown, LastRetained;
    var n := |runs| - 1;
    var i :| 0 <= i < |es| && LastRetained(es, i) && runs[n].perms == Permissions(es[i], relro) &&
             runs[n].va + |runs[n].data| == End(es[i]);
    OnlyLast(es, e, i, relro);
    if AddSection(runs, e, relro).Ok? {
      PadAllExtended(runs, AddSection(runs, e, relro).value[n].data);
    }
  }

  lemma OpenAfter(es: seq<ElfSection>, e: ElfSection, relro: Option<nat>, runs: seq<Run>)
    requires OpenRun(es, relro, runs) && AddSection(runs, e, relro).Ok?
    requires Retained(e) ==> U32(e.addr) == e.addr
    ensures OpenRun(es + [e], relro, AddSection(runs, e, relro).value)
  {
    hide Retained, KnownType, Permissions, U32;
    var all, n := es + [e], |es|;
    assert all[n] == e && forall k | 0 <= k < n :: all[k] == es[k];
    if Retained(e) {
      assert LastRetained(all, n);
    } else if runs != [] {
      var i :| 0 <= i < |es| && LastRetained(es, i) && runs[|runs| - 1].perms == Permissions(es[i], relro) &&
               runs[|runs| - 1].va + |runs[|runs| - 1].data| == End(es[i]);
      assert LastRetained(all, i);
    }
  }

  lemma OpenRunFits(es: seq<ElfSection>, relro: Option<nat>, runs: seq<Run>)
    requires OpenRun(es, relro, runs) && Below4G(es)
    ensures runs != [] ==> runs[|runs| - 1].va + |runs[|runs| - 1].data| < TWO_32
  {
    hide Retained;
  }

  lemma FitsAlone(es: seq<ElfSection>, i: nat)
    requires Below4G(es) && i < |es| && Retained(es[i])
    ensures es[i].addr < TWO_32 && U32(es[i].addr) == es[i].addr
  {
    hide Retained;
  }

  /** Merging and padding succeed exactly on known types in order. */
  lemma {:induction false} MergesExactly(es: seq<ElfSection>, relro: Option<nat>)
    requires Below4G(es)
    ensures Merges(es, relro) <==> Fine(es, relro)
    ensures Merges(es, relro) ==> OpenRun(es, relro, Runs(es, relro).value)
  {
    hide Retained, KnownType, Permissions, PadAll, Fine, OpenRun, NextFine, U32;
    if es == [] {
      NothingPadded();
      NothingFine(relro);
    } else {
      var n := |es| - 1;
      var p, e := es[..n], es[n];
      assert p + [e] == es;
      MergesExactly(p, relro);
      if Merges(p, relro) {
        MergesNext(p, e, relro, Runs(p, relro).value);
      }
      if Merges(es, relro) && Runs(p, relro).Ok? {
        StaysBad(Runs(p, relro).value, e, relro);
      }
      if Fine(es, relro) {
        FinePrefix(p, e, relro);
      } else if Fine(p, relro) && NextFine(p, e, relro) {
        FineLonger(p, e, relro);
      }
    }
  }

  lemma NothingFine(relro: Option<nat>)
    ensures Fine([], relro) && OpenRun([], relro, [])
  {
  }

  lemma MergesNext(es: seq<ElfSection>, e: ElfSection, relro: Option<nat>, runs: seq<Run>)
    requires PadAll(runs).Ok? && OpenRun(es, relro, runs) && Below4G(es + [e])
    ensures AddSection(runs, e, relro).Ok? && PadAll(AddSection(runs, e, relro).value).Ok? <==>
            NextFine(es, e, relro)
    ensures AddSection(runs, e, relro).Ok? ==> OpenRun(es + [e], relro, AddSection(runs, e, relro).value)
  {
    hide Retained, KnownType, Permissions, PadAll, Fine, OpenRun, U32, PairInOrder, LastRetained;
    assert forall i | 0 <= i < |es| :: (es + [e])[i] == es[i];
    OpenRunFits(es, relro, runs);
    if Retained(e) {
      assert (es + [e])[|es|] == e;
      FitsAlone(es + [e], |es|);
      if KnownType(e.shType) {
        if runs != [] && runs[|runs| - 1].perms == Permissions(e, relro) {
          Joined(es, e, relro, runs);
        } else {
          Opened(es, e, relro, runs);
        }
      }
    }
    if AddSection(runs, e, relro).Ok? {
      OpenAfter(es, e, relro, runs);
    }
  }

  /** The eleven section types that are skipped. */
  predicate SkippedType(shType: string) {
    shType in ["SHT_DYNAMIC", "SHT_DYNSYM", "SHT_GNU_ATTRIBUTES", "SHT_GNU_HASH", "SHT_HASH", "SHT_NOTE", "SHT_REL",
               "SHT_RELA", "SHT_RELR", "SHT_STRTAB", "SHT_SYMTAB"]
  }

  /** A section that is neither copied nor skipped is refused. */
  predicate Understood(e: ElfSection) {
    !Bit(e.flags, 2) || e.data == [] || e.name in [".eh_frame", ".eh_frame_hdr", ".ARM.exidx", ".relro_padding"] ||
    SkippedType(e.shType) || Copied(e)
  }

  predicate SameAccess(segs: seq<ElfSegment>, d: ElfSection, e: ElfSection) {
    MayWrite(d, InRelro(segs, d)) == MayWrite(e, InRelro(segs, e)) &&
    MayExecute(d, InRelro(segs, d)) == MayExecute(e, InRelro(segs, e))
  }

  /** The next copied section. */
  predicate Follows(es: seq<ElfSection>, i: nat, j: nat) {
    i < j < |es| && Copied(es[i]) && Copied(es[j]) && forall k | i < k < j :: !Copied(es[k])
  }

  /** Where a section may start at the latest end of the section before it: anywhere behind it
      if both are merged, in a later page otherwise. */
  predicate Ordered(segs: seq<ElfSegment>, d: ElfSection, e: ElfSection) {
    d.addr + |d.data| <= if SameAccess(segs, d, e) then e.addr else e.addr / 4096 * 4096
  }

  lemma UnderstoodIsKnown(e: ElfSection)
    ensures Understood(e) <==> (Retained(e) ==> KnownType(e.shType))
    ensures Understood(e) ==> (Copied(e) <==> Retained(e))
  {
  }

  lemma SamePermissions(segs: seq<ElfSegment>, d: ElfSection, e: ElfSection)
    requires FindRelro(segs).Ok?
    ensures SameAccess(segs, d, e) <==> Permissions(d, FindRelro(segs).value) == Permissions(e, FindRelro(segs).value)
  {
    hide InRelro, FindRelro;
    RelroIs(segs, d);
    RelroIs(segs, e);
  }

  lemma PageDownIs(a: nat)
    ensures PageDown(a) == a / 4096 * 4096
  {
    hide PageDown;
  }

  lemma OrderedIs(segs: seq<ElfSegment>, d: ElfSection, e: ElfSection)
    requires FindRelro(segs).Ok?
    ensures Ordered(segs, d, e) <==> PairInOrder(d, e, FindRelro(segs).value)
  {
    hide SameAccess, Permissions, PageDown, FindRelro;
    SamePermissions(segs, d, e);
    PageDownIs(e.addr);
  }

  lemma FollowsIs(es: seq<ElfSection>, i: nat, j: nat)
    requires forall k | 0 <= k < |es| :: Copied(es[k]) <==> Retained(es[k])
    ensures Follows(es, i, j) <==> Neighbours(es, i, j)
  {
    hide Copied, Retained;
  }

  /** The exact conditions for the section loops of iter_copy_sections and convert_sections to
      raise no error. */
  predicate SectionsAcceptable(elf: Elf) {
    (forall i | 0 <= i < |elf.segments| && elf.segments[i].pType == "PT_LOAD" :: elf.segments[i].pAlign % 4096 == 0) &&
    (forall i | 0 <= i < |elf.sections| :: Understood(elf.sections[i])) &&
    forall i, j | 0 <= i < j < |elf.sections| && Follows(elf.sections, i, j) ::
      Ordered(elf.segments, elf.sections[i], elf.sections[j])
  }

  lemma FineIs(elf: Elf)
    requires FindRelro(elf.segments).Ok?
    ensures Fine(elf.sections, FindRelro(elf.segments).value) <==>
            (forall i | 0 <= i < |elf.sections| :: Understood(elf.sections[i])) &&
            forall i, j | 0 <= i < j < |elf.sections| && Follows(elf.sections, i, j) ::
              Ordered(elf.segments, elf.sections[i], elf.sections[j])
  {
    hide Retained, KnownType, Copied, Understood, Neighbours, Follows, Ordered, PairInOrder, FindRelro, InOrder;
    var es, relro := elf.sections, FindRelro(elf.segments).value;
    forall i | 0 <= i < |es|
      ensures Understood(es[i]) <==> (Retained(es[i]) ==> KnownType(es[i].shType))
      ensures Understood(es[i]) ==> (Copied(es[i]) <==> Retained(es[i]))
    {
      UnderstoodIsKnown(es[i]);
    }
    if forall i | 0 <= i < |es| :: Understood(es[i]) {
      InOrderIs(elf);
    }
  }

  lemma InOrderIs(elf: Elf)
    requires FindRelro(elf.segments).Ok?
    requires forall k | 0 <= k < |elf.sections| :: Copied(elf.sections[k]) <==> Retained(elf.sections[k])
    ensures InOrder(elf.sections, FindRelro(elf.segments).value) <==>
            forall i, j | 0 <= i < j < |elf.sections| && Follows(elf.sections, i, j) ::
              Ordered(elf.segments, elf.sections[i], elf.sections[j])
  {
    hide Retained, Copied, Neighbours, Follows, Ordered, PairInOrder, FindRelro;
    forall i, j | 0 <= i < j < |elf.sections|
      ensures Follows(elf.sections, i, j) <==> Neighbours(elf.sections, i, j)
      ensures Ordered(elf.segments, elf.sections[i], elf.sections[j]) <==>
              PairInOrder(elf.sections[i], elf.sections[j], FindRelro(elf.segments).value)
    {
      FollowsIs(elf.sections, i, j);
      OrderedIs(elf.segments, elf.sections[i], elf.sections[j]);
    }
  }

  lemma ConvertMerges(elf: Elf)
    requires FindRelro(elf.segments).Ok?
    ensures Convert(elf).Ok? <==> Merges(elf.sections, FindRelro(elf.segments).value)
  {
    hide Runs, PadAll, FindRelro;
  }

  /** Sections below 4 GiB are converted exactly when every loadable segment is page-aligned,
      every section is understood, and each copied section starts behind the one before it, in
      another page if its access differs. */
  lemma ConvertedExactly(elf: Elf)
    requires Below4G(elf.sections)
    ensures Convert(elf).Ok? <==> SectionsAcceptable(elf)
  {
    hide Runs, PadAll, FindRelro, Convert, Merges, Fine, Understood, Follows, Ordered, Below4G;
    AlignedSegments(elf.segments);
    if FindRelro(elf.segments).Ok? {
      MergesExactly(elf.sections, FindRelro(elf.segments).value);
      FineIs(elf);
      ConvertMerges(elf);
    } else {
      NoSegments(elf);
    }
  }

  lemma NoSegments(elf: Elf)
    requires FindRelro(elf.segments).Err?
    ensures Convert(elf).Err?
  {
  }
}
