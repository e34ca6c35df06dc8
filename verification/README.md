# A verified model of loli

loli is a small UEFI boot loader, together with the build tools that turn an ELF file into the PE
file a firmware can start. This project models the four parts of it whose correctness is not
visible from any single function, and proves what each of them is for.

1. **From ELF to PE.** `tools/elf2efi.py` merges ELF sections into page-aligned PE sections, applies
   relative relocations in place, re-encodes them as PE base relocations, lays the file out and
   writes it. The central result, `LoadEquivalence.LoadEquivalence`, starts from the *bytes* of the
   written file: a PE loader (module `Loader`, after "Section Table" and "The .reloc Section (Image
   Only)" of the PE Format specification) that maps them at any base leaves every byte of every
   retained section as an ELF loader (RELATIVE means B + A, section 4.4 of the System V AMD64 psABI)
   would with bias `base + segment_offset`; `LoadLimits.LoadEquivalenceExactly` says for which accepted
   files that is so, and for which it is not. What a firmware finds in the headers of those bytes is
   stated against the ELF file as well: the entry point (`WrittenHeaders.EntryByteFollows`), the access
   of every section bit by bit (`WrittenHeaders.AccessInFile`), the counters and every other field. Which
   files are accepted at all is stated exactly, in terms of the file: `Acceptance.ConvertedExactly`,
   `RelocationsAccepted.AcceptedExactly`. The mutating Python code is modelled with classes and
   loops (`PeSections`, `PeConvert`), and the whole tool is one method, `PeConvert.Elf2EfiFile`,
   whose result is exactly the file the theorem speaks about. The second encoder, `tools/elf2efi.c`,
   fills block sizes in afterwards while its buffer grows; both encoders are shown to ask a loader
   for the same fixups in the same order.
2. **The framebuffer console.** `src/graphics.c` draws into a shadow buffer and copies a damage
   rectangle to the screen. Two refinements are stacked: after `graphics_write` every screen equals
   its shadow buffer, and the shadow buffer is the pixel rendering of an 80x24 text grid run over the
   characters written; the pixels of a character spell the bytes of the font
   (`GlyphPixels.WritePrintable`). The line editor of `src/interaction.c` is placed on top: what it echoes keeps
   the bottom row equal to prompt and line, and a typed string is the line returned.
3. **Configuration and menu.** `src/extlinux.c` scans one NUL-terminated string with raw pointers.
   The scans are shown to implement a grammar of words, lines and entries; printed configurations
   are read back, whatever blanks they are written with (`SpacedConfig.LayoutRoundTrip`); the menu's
   numbers agree with the entries later looked up; what an attempt does, by a typed number or by the
   timer, is stated in terms of the configuration itself (`PrintedBoot.TypedEntryBoots`,
   `PrintedBoot.TimeoutBootsDefault`); and over every run of selections and failures exactly the booted
   kernel image stays loaded.
4. **Numbers, text and paths.** `itoa_n`, the integer conversions of `vsprintf`, `atou` and
   `fix_path`, each in place, against what the text denotes.

## How the model is organised

A loop or an object of the source that changes state is a method or a class here, with the source's
fields, loops and branches; its contract ties the new state to a specification function or states
the promised property outright. The results about whole runs, round trips and meanings are lemmas
about those functions. Errors are results (`ElfModel.Result`), not preconditions.

| part | modules |
|---|---|
| ELF to PE | `Bytes`, `ElfModel`, `Coalesce`, `PeSections`, `RelocFormat`, `RelocBlocks`, `Relocate`, `PeImage`, `Layout`, `PeFile`, `Loader`, `LoadEquivalence`, `LoadExample`, `LayoutLimits`, `LoadLimits`, `SectionKinds`, `Acceptance`, `RelocationsAccepted`, `HeaderFields`, `WrittenHeaders`, `AddressOrder`, `PeConvert`, `AlignMacros`, `StreamReloc`, `EncodersAgree`, `ExecAlignment`, `ExecLayout` |
| console | `TextGrid`, `Pixels`, `Console`, `GlyphPixels`, `LineEditor`, `TypedLines` |
| configuration and menu | `Extlinux`, `ExtlinuxLines`, `SpacedLines`, `ConfigText`, `SpacedConfig`, `Menu`, `PrintedMenu`, `MenuExample`, `Boot`, `PrintedBoot` |
| text | `Strings` |

Conventions: a C string is a Dafny string without NUL and a pointer into it an index, the index one
past the end holding the terminator; a pointer that may be NULL is an `Option`. C and Python
integers are unbounded here and every 16-, 32- and 64-bit field is cut explicitly (`U32`, `% TWO_64`).
Firmware, file system, keyboard and timer answers are parameters: the runs are quantified over all of
them. The font is a parameter whose glyphs for backspace and space are empty, as those of the table
in `src/font.c` are.

## Where the code falls short of a promise

Each of these is proved as an exact condition or with a concrete input.

- Section addresses are cut to 32 bits without a check when sections are copied; they are kept there
  exactly for files below 4 GiB: `Coalesce.AddressesKeptExactlyBelow4G`, `Coalesce.SectionAt4GIsLost`.
- Addresses are cut again when sections move up, and SizeOfImage at the end. An accepted file loads as
  the ELF file does exactly when it lies below 4 GiB and its whole image does:
  `LoadLimits.LoadEquivalenceExactly`, `LayoutLimits.LaidOutExactly`; a file below 4 GiB whose image
  does not fit: `LoadLimits.HighFileIsCut`, `LoadLimits.HighFileIsLost`.
- A relocation in the last seven bytes of a section lengthens its data: `Relocate.StoreKeepsLength`,
  `Relocate.StoreLengthens`.
- `create_pe_reloc` emits no block header for page 0: its output is the table of one block per page
  exactly when the first relocation lies above page 0 (`StreamReloc.CreatePeReloc`,
  `StreamReloc.LoneLowRelocation`).
- The image alignment of `exec_address_alignment` wraps to 0 exactly when the product of powers of
  two reaches 2^32: `ExecAlignment.AlignmentOfPowers`, `ExecAlignment.AlignmentOverflows`.
- `relocate_exec` does not always make room for the headers (the comment at tools/elf2efi.c:726-729
  promises room): for any base, `ExecLayout.HeadersClear`; for a base that is a multiple of the
  segment's alignment room is missing when the first segment starts above the headers but below one
  alignment unit, `ExecLayout.HeadersClearAligned`, `ExecLayout.HeadersOverlap`; on another base also a
  segment that was moved can overlap them, `ExecLayout.MisalignedBaseOverlaps`.
- `relocate_exec` aligns segments down without an overlap check; they stay disjoint exactly when no
  aligned-down start is below the end of the segment before: `ExecLayout.MovedApart`,
  `ExecLayout.SharedPageOverlaps`.
- `strncmp` also compares the character after the first n, so a default with trailing blanks is not
  found, and may be found in a longer name: `Menu.CompareMeaning`, `Menu.ComparedNames`; exactly when
  the default is chosen by name: `Menu.DefaultIsByNameExactly`; concrete menus:
  `MenuExample.BlankAfterDefault`, `MenuExample.DefaultInLongerName`.
- A configuration that begins with a label line is taken for its first entry when a global key is
  looked up, unless that line is indented: `ConfigText.GlobalRoundTrip`, `SpacedConfig.GlobalsOfLayout`.
- AddressOfEntryPoint is cut to 32 bits; it designates the ELF entry point exactly when the moved address
  fits: `WrittenHeaders.EntryFollows`.
- An image that the firmware loads but refuses to start (a security violation) is never unloaded:
  `Boot.RoundMeaning`, `Boot.RunMeaning`, `Boot.RefusedImageStays`.
- A line that fills the row is no longer shown as one row: `LineEditor.FullRowWraps`.
- A typed number of 2^31 or more is not read as its value (`Strings.NumberIsValueExactly`); exactly when
  it selects an entry it should not: `Boot.NumbersSelectTheirEntry`, `Boot.HugeNumberSelectsFirst`.

## Model

| member | source | states |
|---|---|---|
| `Bytes.AlignDown` | tools/elf2efi.py:246-247 | the mask of a power of two rounds down: the largest multiple not above x |
| `Bytes.AlignTo` | tools/elf2efi.py:242-243 | the mask expression is the least multiple of a power of two not below x |
| `Coalesce.RetainedBytesKeepTheirAddress` | tools/elf2efi.py:259-355 | every byte of every retained section lies at its own address in exactly one output section, which has the permission word chosen for it; the bits of that word are the subject of `SectionKinds.CopiedWithItsAccess` |
| `Coalesce.OtherBytesAreZero` | tools/elf2efi.py:259-355 | every other byte of an output section is zero padding |
| `Coalesce.ConvertShape` | tools/elf2efi.py:317-355 | the output sections are nonempty, page-aligned, below 4 GiB, with exact header sizes, in order and disjoint |
| `Coalesce.AddressesKeptExactlyBelow4G` | tools/elf2efi.py:259-355 | of the accepted files, exactly those below 4 GiB have every retained section at its own address in an output section that 32-bit fields can describe |
| `Coalesce.LoneSectionKeepsItsAddress` | tools/elf2efi.py:309-311 | a lone section is at its own address if and only if the address fits the 32-bit field |
| `Coalesce.SectionAt4GIsLost` | tools/elf2efi.py:309-311 | a concrete accepted file whose section, at 4 GiB, is lost |
| `SectionKinds.SegmentsFound` | tools/elf2efi.py:266-273 | every loadable segment is page-aligned, and the segment in force is the last PT_GNU_RELRO of the list |
| `SectionKinds.RetainedAreCopied` | tools/elf2efi.py:275-286 | in an accepted file exactly the allocated, nonempty program or zero data not ignored by name is copied |
| `SectionKinds.SkippedSection` | tools/elf2efi.py:275-282 | a section that is not allocated, empty, or ignored by name or type makes no difference |
| `SectionKinds.CopiedWithItsAccess` | tools/elf2efi.py:288-311 | every byte of every copied section lies at its address in exactly one output section, readable, writable exactly if the ELF section is, is not executable and is not in the last PT_GNU_RELRO segment, executable exactly if it is and is not in that segment, and named after its access |
| `SectionKinds.SectionsAreFew` | tools/elf2efi.py:299-327 | neighbouring output sections differ in permissions, and each starts in the page in which a copied section starts |
| `Acceptance.ConvertedExactly` | tools/elf2efi.py:259-355 | a file below 4 GiB is converted if and only if loadable segments are page-aligned, every section is copied or skipped, and each copied section starts behind the one before it, in a later page if its access differs |
| `RelocationsAccepted.AllRelativesAreAll` | tools/elf2efi.py:430-436 | the relocations applied are exactly those of all tables that are not of the NONE type |
| `RelocationsAccepted.StoresExactly` | tools/elf2efi.py:384-402 | disjoint words inside sections are all stored if and only if every value, base plus original addend, is a 64-bit word |
| `RelocationsAccepted.TablesExactly` | tools/elf2efi.py:430-507 | the table loops succeed if and only if all kinds and types are known and every store succeeds |
| `RelocationsAccepted.AcceptedExactly` | tools/elf2efi.py:456-576 | a converted file that fits is accepted if and only if it has one DT_FLAGS_1 tag with the PIE bit, is linked at 0, has REL or RELA tables of the two known types, and every relocated word has a 64-bit value |
| `PeSections.ScanSegments` | tools/elf2efi.py:266-272 | the first misaligned PT_LOAD is an error, otherwise the last PT_GNU_RELRO is in force |
| `PeSections.ExtendOpen` | tools/elf2efi.py:302-305 | the open section object is extended in place with padding and data; negative padding fails |
| `PeSections.OpenSection` | tools/elf2efi.py:307-311 | a fresh section object with address, permissions and data is opened |
| `PeSections.TakeSection` | tools/elf2efi.py:321-353 | a section handed on is converted, counted and appended at once, or found to overlap the one before |
| `PeSections.FailureIsReported` | tools/elf2efi.py:284-304 | an error of the section loop is reported when nothing handed on before overlaps |
| `PeSections.OverlapIsReported` | tools/elf2efi.py:339-342 | an overlap among the sections handed on so far is reported, whatever comes later in the file |
| `PeSections.ConvertSection` | tools/elf2efi.py:326-351 | one object is rounded down to its page and filled in place, counted in the optional header, or rejected when it overlaps the one before |
| `PeSections.ConvertSections` | tools/elf2efi.py:259-355 | the generator and the loop that drives it, interleaved: the final objects and header counters are those of the value-level conversion, or its first error |
| `Relocate.ApplyBytes` | tools/elf2efi.py:384-402 | one relocation stores base plus addend (RELA, or the word in place) and changes no other byte |
| `Relocate.ApplyAllWord` | tools/elf2efi.py:430-438 | after all disjoint relocations each target word is base plus its original addend |
| `Relocate.ApplyAllElsewhere` | tools/elf2efi.py:430-438 | bytes outside all target words are unchanged |
| `Relocate.ConversionMeaning` | tools/elf2efi.py:405-507 | over any mix of REL and RELA tables: every relative relocation is applied in order and recorded under its page |
| `Relocate.StoreKeepsLength` | tools/elf2efi.py:401-402 | the slice assignment keeps the section's length if and only if the whole word is inside it |
| `Relocate.StoreLengthens` | tools/elf2efi.py:401-402 | a concrete relocation that lengthens its section |
| `PeConvert.ApplyElfRelativeRelocation` | tools/elf2efi.py:384-402 | the in-place store on section objects is the value-level one; no or several targets, or a value over 64 bits, is an error |
| `PeConvert.PageDict.Add` | tools/elf2efi.py:441-449 | an entry is appended to its page's block, which is created when missing |
| `PeConvert.ConvertElfRelocTable` | tools/elf2efi.py:430-453 | the table loop on objects and dictionary equals the value-level conversion; unsupported types fail |
| `PeConvert.ConvertAllTables` | tools/elf2efi.py:499-507 | the same for all tables in order; kinds other than REL and RELA fail |
| `PeConvert.RelocBytesOf` | tools/elf2efi.py:515-530 | the encoding loop produces exactly the encoded blocks, pages ascending, padded to even length |
| `PeConvert.MoveSections` | tools/elf2efi.py:509-510 | every address moves up by the segment offset, in 32 bits, and nothing else changes |
| `PeConvert.ConvertElfRelocations` | tools/elf2efi.py:456-543 | checks, header size, segment offset, relocation, moving, .reloc and the counters BaseOfCode and SizeOfInitializedData together equal the value-level step, with the same errors |
| `AddressOrder.OrderSorts` | tools/elf2efi.py:561 | sorting by address is a permutation in order of address, equal addresses in the order they had |
| `PeConvert.SortByAddress` | tools/elf2efi.py:561 | the sorted list holds the same objects in that order |
| `PeConvert.WriteTable` | tools/elf2efi.py:560-568 | pointers and section headers are written one after another; a section below SizeOfHeaders fails |
| `PeConvert.TableOfPlaced` | tools/elf2efi.py:560-568 | the section table of the placed list is the sorted list that was placed |
| `PeConvert.WriteData` | tools/elf2efi.py:572-574 | each section's data is written at its pointer |
| `PeConvert.WritePe` | tools/elf2efi.py:546-576 | for every section list the written file is the specified one: table in address order, data in list order; or the header-overlap or header-size error |
| `PeConvert.Elf2EfiFile` | tools/elf2efi.py:579-645 | the whole tool yields exactly the bytes of the specified file, or the specified error |
| `PeConvert.FittingImagesAreInOrder` | tools/elf2efi.py:561 | for every ELF file whose section addresses fit, sorting the section list changes nothing |
| `RelocFormat.BlocksRoundTrip` | tools/elf2efi.py:76-92 | walking encoded blocks by their sizes returns the blocks |
| `RelocBlocks.SortSorts` | tools/elf2efi.py:529 | sorting entries by offset gives a sorted permutation |
| `RelocBlocks.FixupsAreTheRelocations` | tools/elf2efi.py:515-530 | the non-padding entries are exactly the relocated addresses plus the segment offset, with multiplicity |
| `RelocBlocks.BlocksShape` | tools/elf2efi.py:515-530 | pages strictly increase; in each block offsets are sorted and below 4096 and the entry count is even |
| `RelocBlocks.BlocksStartAligned` | tools/elf2efi.py:520-524 | every block starts on a 4-byte boundary |
| `RelocBlocks.RelocDataMeaning` | tools/elf2efi.py:515-530 | the emitted bytes decode to those blocks: increasing pages, sorted offsets, 4-byte boundaries, exactly the relocations |
| `RelocBlocks.OneRelocation` | tools/elf2efi.py:441-530 | the bytes for one relocation: page, size 12, a type-10 entry with the offset in the page, and padding sorted in by its offset 0 |
| `PeImage.SegmentOffset` | tools/elf2efi.py:489-492 | the least page multiple that puts the first section past the headers, 0 when it is there already |
| `Layout.LayoutInvariant` | tools/elf2efi.py:477-576 | once relocation succeeds for a file whose image fits, the header-overlap error and the header-size assert are unreachable (the latter while the size of the headers fits its field), and addresses and 512-aligned raw ranges are in bounds, ordered and disjoint |
| `LayoutLimits.LaidOutExactly` | tools/elf2efi.py:509-628 | of the accepted files below 4 GiB exactly those whose whole image, .reloc included, ends below 4 GiB have that layout |
| `LayoutLimits.PlaceSortedKeeps` | tools/elf2efi.py:560-568 | placing fails if and only if some section starts inside the headers, and otherwise sets pointers only |
| `LayoutLimits.RelocDataLength` | tools/elf2efi.py:515-530 | the relocation data has at most two bytes for each relocation and ten for each page of a 4 GiB address space |
| `Layout.PlaceOk` | tools/elf2efi.py:560-570 | placing raw data cannot fail when the sections lie past the headers; pointers are aligned, contiguous and not ahead of addresses |
| `PeFile.FileContains` | tools/elf2efi.py:546-576 | whenever raw ranges do not overlap, the file starts with the headers and holds each section's data at its pointer, up to the truncated end |
| `PeFile.FileOtherwiseZero` | tools/elf2efi.py:570-576 | all other bytes are zero, and the file ends with the last section's data rounded up to 512 |
| `HeaderFields.DosFields` | tools/elf2efi.py:552-556 | the file starts with MZ, zeros, and the place 64 of the PE header at 0x3C |
| `HeaderFields.FixedFields` | tools/elf2efi.py:612-639 | every field of the COFF and optional headers that does not depend on the sections, as a reader of the bytes finds it |
| `HeaderFields.LoaderFields` | tools/elf2efi.py:600-643 | a reader finds ImageBase, the alignments 4096 and 512, SizeOfImage, sixteen directories and the base relocation directory |
| `WrittenHeaders.EntryFollows` | tools/elf2efi.py:494 | the entry point read from the file of a fitting image, seen from any base, is the ELF entry point seen from that base plus the segment offset, if and only if the moved address fits 32 bits |
| `WrittenHeaders.EntryByteFollows` | tools/elf2efi.py:494 | when e_entry lies in a copied section it always does, and the loaded byte there is the ELF file's byte at e_entry |
| `WrittenHeaders.HeaderRoom` | tools/elf2efi.py:477-482 | SizeOfHeaders in the file is the least multiple of 512 with room for one header more than there are sections and for the minimum asked for |
| `WrittenHeaders.CountersAgree` | tools/elf2efi.py:344-348 | SizeOfCode, SizeOfInitializedData and BaseOfCode in the file are the sizes of the executable sections, those of all others, and the last executable section's address, as the file's own section table gives them |
| `WrittenHeaders.AccessInFile` | tools/elf2efi.py:288-311 | every byte of a copied section lies, moved, in exactly one section of the file's table, whose characteristics are the access of the ELF section bit by bit and whose name says so |
| `WrittenHeaders.HeadersApart` | tools/elf2efi.py:560-568 | the sections of the file's table do not overlap and are in order |
| `WrittenHeaders.RelocInFile` | tools/elf2efi.py:532-543 | with relocations the last section of the table is .reloc, discardable and readable, and the directory points to it; without any the directory is empty |
| `Loader.ReadBackHeaders` | tools/elf2efi.py:552-558 | a reader of the file's bytes finds the PE signature, the section count, ImageBase, SizeOfImage, both alignments and, among sixteen directories, the relocation directory as set |
| `Loader.ReadBackSection` | tools/elf2efi.py:567 | a reader finds each section header's name, address, sizes, raw pointer and characteristics in the table |
| `LoadEquivalence.FixupsFound` | tools/elf2efi.py:515-543 | the loader finds the .reloc bytes in mapped memory and decodes the relocations from them |
| `LoadEquivalence.MappedWord` | tools/elf2efi.py:384-402 | before the loader's fixups a relocated word holds ImageBase plus segment offset plus addend |
| `LoadEquivalence.LoadEquivalence` | tools/elf2efi.py:579-645 | loading the written file at any base shows every retained byte as the ELF file loaded with bias base plus segment offset, when the image fits |
| `LoadLimits.LoadEquivalenceExactly` | tools/elf2efi.py:579-645 | for every accepted file and base: every retained byte is found so in the loaded memory if and only if the file and its whole image lie below 4 GiB |
| `LoadLimits.HighFileIsCut` | tools/elf2efi.py:628 | a concrete accepted file below 4 GiB: SizeOfImage is one page although the data lies near 4 GiB |
| `LoadLimits.HighFileIsLost` | tools/elf2efi.py:628 | loaded at any base, that file does not show its retained sections |
| `LoadExample.ExampleIsAccepted` | tools/elf2efi.py:579-645 | a file with a relocation meets every assumption of load equivalence |
| `LoadExample.ExampleLoads` | tools/elf2efi.py:579-645 | loaded at any base, the word of that file holds its own address |
| `StreamReloc.DynamicBuffer.Append` | tools/elf2efi.c:807-821 | the contents grow by the appended bytes and no write leaves the allocation |
| `StreamReloc.DynamicBuffer.SetSize` | tools/elf2efi.c:841-847 | only the size field of the block is written |
| `StreamReloc.FillCloses` | tools/elf2efi.c:841-847 | filling the size in turns an open block into an encoded one |
| `StreamReloc.CreatePeReloc` | tools/elf2efi.c:823-877 | on sorted relocations the buffer is the table with one block per page if and only if there is none or the first lies above page 0 |
| `StreamReloc.BlocksMeaning` | tools/elf2efi.c:831-864 | the blocks hold the relocations less the base, in order |
| `StreamReloc.TableMeaning` | tools/elf2efi.c:823-877 | decoding the table returns the relocations less the base, in order |
| `StreamReloc.LoneLowRelocation` | tools/elf2efi.c:832-836 | a lone relocation below 4096 leaves bytes that cannot be decoded |
| `EncodersAgree.SameFixups` | tools/elf2efi.c:823-877 | for the same relocations the Python and the C table ask for the same fixups in the same order |
| `EncodersAgree.SameHeaderSize` | tools/elf2efi.c:173-179 | both tools reckon with the same header size, 328 bytes and 40 for each section |
| `ExecAlignment.GcdMeaning` | tools/elf2efi.c:680-683 | gcd is a common divisor that every common divisor divides |
| `ExecAlignment.ExecAddressAlignment` | tools/elf2efi.c:685-698 | the 32-bit accumulation is the exact product modulo 2^32, and 0 without segments |
| `ExecAlignment.AlignmentIsCommonMultiple` | tools/elf2efi.c:685-698 | without overflow the result is a multiple of every segment alignment |
| `ExecAlignment.AlignmentOfPowers` | tools/elf2efi.c:685-698 | for powers of two it is a positive common multiple if and only if the product is below 2^32, and 0 otherwise |
| `ExecAlignment.AlignmentOverflows` | tools/elf2efi.c:685-698 | three concrete alignments whose image alignment is 0 |
| `ExecLayout.Segment.Relocate` | tools/elf2efi.c:741-765 | a segment object is moved, aligned down and extended with zeros in a fresh buffer |
| `ExecLayout.Executable.Relocate` | tools/elf2efi.c:723-772 | entry point, every segment and every relocation move by one displacement |
| `ExecLayout.MovedMeaning` | tools/elf2efi.c:741-765 | the start is a multiple of the alignment, every original byte has moved by exactly the displacement, all added bytes are zero |
| `ExecLayout.RelocFollowsSegment` | tools/elf2efi.c:768-771 | a relocation still designates the same byte of its segment |
| `ExecLayout.AddendFollowsSegment` | tools/elf2efi.c:768-771 | what a relocation stores still designates the same byte of its segment |
| `ExecLayout.HeadersClear` | tools/elf2efi.c:726-749 | for any base: the first segment ends up past the headers if and only if aligning its place, seen from the alignment unit the base lies in, does not reach below the headers |
| `ExecLayout.HeadersClearAligned` | tools/elf2efi.c:726-749 | for a base that is a multiple of the alignment: if and only if it was moved or stays above the headers when aligned down |
| `ExecLayout.HeadersOverlap` | tools/elf2efi.c:726-738 | a concrete first segment that ends up on the headers |
| `ExecLayout.MisalignedBaseOverlaps` | tools/elf2efi.c:726-749 | a concrete base on which a segment that was moved past the headers still overlaps them |
| `ExecLayout.MovedApart` | tools/elf2efi.c:741-749 | segments are disjoint once moved if and only if no aligned-down start lies below the end of the segment before |
| `ExecLayout.SharedPageOverlaps` | tools/elf2efi.c:741-749 | two concrete disjoint segments that overlap once moved |
| `ExecLayout.LayoutPeFile` | tools/elf2efi.c:956-993 | the layouts are the running 32-bit sums of rounded sizes, .reloc last |
| `ExecLayout.LayoutMeaning` | tools/elf2efi.c:956-993 | below 4 GiB the chunks are 512-aligned, contiguous from the headers on, and large enough |
| `TextGrid.RunConcat` | src/graphics.c:147-163 | running the text terminal over two strings is running it over their concatenation |
| `TextGrid.LineFeedKeepsColumn` | src/graphics.c:88-90 | a line feed alone keeps the column |
| `TextGrid.ReturnOverwrites` | src/graphics.c:85-87 | a carriage return lets the row be overwritten and moves nothing |
| `TextGrid.BackspaceUndoes` | src/graphics.c:91-99 | a backspace at the margin does nothing; after a character on a blank place it undoes it |
| `TextGrid.OtherCharacterIsBlank` | src/graphics.c:153-156 | a character outside ASCII is shown as a blank |
| `Pixels.ScrollShows` | src/graphics.c:42-54 | moving pixels one text line up renders the scrolled grid |
| `Pixels.PutShows` | src/graphics.c:106-111 | drawing one glyph cell renders the grid with that character |
| `Pixels.BackspaceDrawsBlank` | src/graphics.c:91-111 | drawing the backspace glyph renders the grid with a blank |
| `Pixels.BlackShowsBlank` | src/graphics.c:233 | a black buffer renders the blank grid |
| `Pixels.SameTextSamePixels` | src/graphics.c:106-111 | a grid has one rendering |
| `GlyphPixels.BufferSpellsFont` | src/graphics.c:107-111 | in a buffer that shows a grid the eight pixels of each glyph line, read left to right as binary digits, are the font's byte for that character and line |
| `GlyphPixels.ScreenSpellsFont` | src/graphics.c:107-111 | the same on the screen, when it is in sync |
| `GlyphPixels.WritePrintable` | src/graphics.c:147-163 | after one printable character is written, its sixteen glyph lines stand at the cursor's cell on every screen, as the font has them |
| `Console.MemMove` | src/string.c:202-216 | the forward copy is correct for an overlapping move towards the front |
| `Console.FrameBuffer.constructor` | src/graphics.c:210-240 | the framebuffer starts black, in sync and showing a blank grid |
| `Console.FrameBuffer.ScrollUp` | src/graphics.c:42-54 | the buffer shows the scrolled grid and damage covers everything |
| `Console.FrameBuffer.DrawPixel` | src/graphics.c:56-63 | exactly one pixel, inside the buffer, changes |
| `Console.FrameBuffer.UpdateDamagedRegion` | src/graphics.c:65-75 | old damage and the new rectangle stay inside the damaged rectangle |
| `Console.FrameBuffer.DrawGlyph` | src/graphics.c:106-111 | exactly the glyph's cell is redrawn |
| `Console.FrameBuffer.DrawChar` | src/graphics.c:79-117 | one character steps the grid (wrap at 80, CR, LF, BS) and every changed pixel is damaged |
| `Console.FrameBuffer.BlitBuffer` | src/graphics.c:128-145 | the console area of the screen equals the shadow buffer, the pixels outside it are untouched |
| `Console.GraphicsWrite` | src/graphics.c:147-163 | after a write every screen is in sync and shows the grid run over the string; outside the console area no screen has changed |
| `Console.WriteInTwoParts` | src/graphics.c:147-163 | writing a then b leaves the same text on every screen, in sync, as writing a + b, and nothing changed outside the console area |
| `LineEditor.ConvertLineEnds` | src/interaction.c:34-43 | the buffer holds the string with CR before every LF, terminated, within 1024 bytes |
| `LineEditor.Push` | src/interaction.c:161-170 | a character is appended and the buffer grows when full, so that the terminator always fits |
| `LineEditor.Terminal.Puts` | src/interaction.c:34-57 | every screen shows the text so far and the string with CR before every LF, in sync, and nothing changed outside the console area |
| `LineEditor.Terminal.GetlineTimeout` | src/interaction.c:139-176 | the returned line is the push and pop fold of the keystrokes, terminated at the end; every screen shows the echo of each keystroke, and nothing changed outside the console area |
| `TypedLines.TypedLine` | src/interaction.c:140-176 | typing a printable string and Enter returns that string, echoed with a line end |
| `TypedLines.ErasedText` | src/interaction.c:153-157 | n times backspace, as a character or as the scan code 8, removes the last n characters, and no more than there are |
| `TypedLines.CorrectionVanishes` | src/interaction.c:153-169 | a character that is erased at once makes no difference to the line, wherever it is typed |
| `TypedLines.IgnoredVanishes` | src/interaction.c:158-159 | nor does a key that is neither printable nor backspace nor Enter |
| `TypedLines.ExpiryEnds` | src/interaction.c:150-151 | when the timer expires there is no line, whatever comes after |
| `LineEditor.EchoShowsLine` | src/interaction.c:139-176 | while the text fits one row the echo leaves exactly prompt and line on the bottom row, cursor after it; Enter scrolls it up |
| `LineEditor.NewlineShowsNothing` | src/graphics.c:85-90 | a newline leaves an empty bottom row with the cursor at its start |
| `LineEditor.EnteredShowsNothing` | src/interaction.c:139-176 | after a line has been entered the bottom row is empty again |
| `LineEditor.PromptShows` | src/graphics.c:79-117 | a prompt written on an empty row is exactly what the row shows |
| `LineEditor.PromptFits` | src/loli.c:203 | the prompt of the selection loop is printable and 20 columns wide |
| `LineEditor.PromptForLine` | src/loli.c:200-213 | prompting and reading on an empty row: every screen is in sync and shows exactly prompt and line, one row up once the line has ended, with nothing changed outside the console area |
| `LineEditor.FullRowWraps` | src/graphics.c:101-104 | on a full row the next character starts a new row, so the condition above is needed |
| `Strings.TextMeaning` | src/string.c:106-131 | the digits denote the number, are valid in the base, and have no leading zero |
| `Strings.WordTextLength` | src/string.c:106-131 | a 64-bit number has at most 20 decimal or 16 hexadecimal digits |
| `Strings.TextIsReversedDigits` | src/string.c:117-128 | generating from the right and reversing gives the text |
| `Strings.ReverseRange` | src/string.c:123-128 | the swaps reverse exactly the given range |
| `Strings.GenerateDigits` | src/string.c:117-121 | the first loop writes the digits from the least significant on |
| `Strings.ItoaN` | src/string.c:106-131 | the text is written in place and nothing before it changes |
| `Strings.FormatInteger` | src/string.c:155-193 | sign or 0x and digits of a conversion are written at the cursor |
| `Strings.IntegerTextMeaning` | src/string.c:155-193 | signed conversions read back as the argument, unsigned ones as the argument modulo its width, the pointer conversion behind 0x |
| `Strings.DigitTexts` | src/string.c:106-131 | the texts of the one-digit numbers |
| `Strings.Atou` | src/string.c:227-247 | the decimal value in a 32-bit int that wraps around, or -1 for an empty string or a non-digit |
| `Strings.NumberMeaning` | src/string.c:227-247 | where nothing overflows: the decimal value, or -1 exactly when the string is empty or has a non-digit |
| `Strings.NumberIsValueExactly` | src/string.c:227-247 | for a string of digits the answer is its decimal value if and only if that is below 2^31 |
| `Strings.AtouOfItoa` | src/string.c:106-131 | atou reads back every nonnegative int that itoa_n prints |
| `Strings.ShortTextFits` | src/string.c:106-131 | below 10^9 it does so without any overflow |
| `Strings.FixPath` | src/file.c:41-51 | the in-place rewrite leaves the fixed path, terminated, and touches nothing behind the old one |
| `Strings.FixedIsCollapsed` | src/file.c:41-51 | the two-cursor loop is translating slashes and then collapsing runs of backslashes |
| `Strings.FixedIsClean` | src/file.c:41-51 | a fixed path has no slash and no two adjacent backslashes |
| `Strings.FixingIsIdempotent` | src/file.c:41-51 | fixing twice is fixing once |
| `Extlinux.SkipSpace` | src/extlinux.c:26-37 | the pointer moves to the first non-blank |
| `Extlinux.MatchKey` | src/extlinux.c:46-98 | the two-cursor loop computes the specified match |
| `Extlinux.NextLine` | src/extlinux.c:103-119 | the start of the next line, or NULL when none follows |
| `Extlinux.NextEntry` | src/extlinux.c:130-149 | the first label line from the given point on, past its blanks |
| `Extlinux.GetValue` | src/extlinux.c:158-226 | the scan computes the specified lookup and the value's trimmed length |
| `ExtlinuxLines.MatchIsWords` | src/extlinux.c:46-98 | match_key succeeds exactly on the key's words, each followed by a positive run of blanks, then a nonempty value |
| `ExtlinuxLines.MatchOnLine` | src/extlinux.c:46-98 | the answer does not depend on text past the line's newline |
| `ExtlinuxLines.LookupIsInScope` | src/extlinux.c:183-223 | the pointer scan is the search over lines up to the next label line |
| `ExtlinuxLines.InScopeMeaning` | src/extlinux.c:183-223 | the search gives the first binding in scope, and nothing exactly when there is none |
| `ExtlinuxLines.GetIsInScope` | src/extlinux.c:158-226 | a lookup searches from the pointer, or after its own line when that is a label line |
| `ExtlinuxLines.LookupIsMaximal` | src/extlinux.c:206-219 | the slice reported is the maximal trimmed value: nonempty, on one line, non-blank at both ends |
| `ExtlinuxLines.EntriesAreLabelLines` | src/extlinux.c:130-149 | the enumeration is exactly the label lines, each once, in order |
| `ExtlinuxLines.EntriesIncrease` | src/extlinux.c:130-149 | the pointers strictly increase, so the remaining text shrinks |
| `SpacedLines.SpacedBinding` | src/extlinux.c:13-98 | indented by any spaces and tabs, with any run of them between words and before and after the value, a line binds its own key to its value and no other key |
| `ConfigText.PrintedBinding` | src/extlinux.c:46-98 | a printed line binds its own key to its value and no other key |
| `ConfigText.PrintedEntries` | src/extlinux.c:130-149 | the enumeration of a printed configuration finds each entry where it was printed |
| `ConfigText.EntryRoundTrip` | src/extlinux.c:158-226 | from the n-th entry, label gives its name and every other key its first binding in that entry, or nothing |
| `ConfigText.GlobalRoundTrip` | src/extlinux.c:168-179 | a global lookup gives the first global binding, except that a configuration beginning with a label line gives that entry's |
| `SpacedConfig.EntryIsLines` | src/extlinux.c:130-226 | which entries are enumerated, and every value found at them, is determined by the lines of the text |
| `SpacedConfig.EntriesOfLayout` | src/extlinux.c:130-226 | in a text laid out with any blanks and blank lines the entries are the label bindings in order, and a lookup at one gives the first binding of the key in it |
| `SpacedConfig.GlobalsOfLayout` | src/extlinux.c:168-179 | a global lookup gives the first binding before the first label, or behind it exactly when the text starts with a label line that is not indented |
| `SpacedConfig.WrittenLayout` | src/extlinux.c:103-119 | lines written one after another, each with its newline, are a text laid out that way |
| `SpacedConfig.LayoutRoundTrip` | src/extlinux.c:130-226 | a configuration is read back from any layout of its bindings |
| `SpacedConfig.LayoutGlobals` | src/extlinux.c:168-179 | so are its global values, but for a configuration that starts with a label line that is not indented |
| `Menu.StrScpy` | src/string.c:249-261 | at most dstlen - 1 characters and a terminator are written, nothing beyond |
| `Menu.MenuGetPair` | src/menu.c:15-28 | a fresh, exactly fitting, terminated copy of the looked-up value, or NULL exactly when there is none |
| `Menu.MenuGetTimeout` | src/menu.c:30-47 | the decimal timeout, 0 when missing or malformed |
| `Menu.MenuGetNthEntry` | src/menu.c:49-58 | the entry of that number in the enumeration, NULL past the last |
| `Menu.StrNCmp` | src/string.c:32-45 | the loop computes the specified difference |
| `Menu.CompareMeaning` | src/string.c:32-45 | 0 if and only if the first n characters and the one after them agree |
| `Menu.ComparedNames` | src/loli.c:245-247 | the default matches a name if and only if they are equal and followed by the same character, or the name continues with the blank after the default |
| `Menu.DefaultIsByNameExactly` | src/loli.c:221-260 | the default is the last entry of exactly that name, or entry 0, if and only if the last entry that has the name or continues it, if any, is entry 0 or has exactly it, followed by the same character |
| `Menu.DefaultIsLastOfThatName` | src/loli.c:221-260 | with the default's value and the label values directly followed by newlines it always is |
| `Menu.ListEntries` | src/loli.c:219-260 | one line per entry with its number and title, in order, and the default entry |
| `MenuExample.BlankAfterDefault` | src/string.c:32-45 | a concrete menu whose default, followed by a blank, is not found |
| `MenuExample.DefaultInLongerName` | src/string.c:32-45 | a concrete menu whose default, followed by a blank, is found in a longer name |
| `PrintedMenu.PrintIsClean` | src/extlinux.c:206-219 | a printed configuration has no trailing blanks and ends with a newline |
| `PrintedMenu.PrintedListing` | src/loli.c:229-243 | the menu of a printed configuration has one line per entry, its number, a colon and its menu title or else its name |
| `PrintedMenu.PrintedDefault` | src/loli.c:221-260 | its default is the last entry of that name, or entry 0 |
| `Boot.Firmware.LoadImage` | src/loli.c:49-68 | a new handle for a loaded image; a refused image stays loaded and counts as failure |
| `Boot.PlaceKernel` | src/loli.c:74-102 | an image is attempted exactly when path, size, memory and reading succeed |
| `Boot.PlaceFdt` | src/loli.c:106-131 | the device tree is installed exactly when it can be read and is no smaller than its header |
| `Boot.PlaceInitrd` | src/loli.c:133-158 | initrd_setup is called exactly when the initrd can be read |
| `Boot.PlaceAppend` | src/loli.c:160-164 | the image gets the terminated command line, or none |
| `Boot.LoadAndValidateEntry` | src/loli.c:70-180 | the new firmware state is that of the attempt; `PrintedBoot.TypedEntryBoots` says what that is |
| `Boot.WaitForBootEntry` | src/loli.c:200-213 | -2 for a timeout, -1 for a line that is no number, else the number |
| `Boot.NumbersSelectTheirEntry` | src/loli.c:200-278 | a line that is no number selects nothing; a number selects the entry of its decimal value, or nothing if there is none, if and only if the value is an entry's number or is not cut to one |
| `Boot.ShownNumberSelects` | src/loli.c:219-278 | the number read off a printed line, when typed, selects the entry of that line |
| `Boot.HugeNumberSelectsFirst` | src/loli.c:200-278 | typing 4294967296 selects entry 0 of any menu |
| `Boot.CmdlineLoop` | src/loli.c:215-281 | over any rounds the loop's outcome is that of the specified run |
| `PrintedBoot.TypedEntryBoots` | src/loli.c:70-281 | typing the n-th number of a printed configuration boots its n-th entry exactly when its first `kernel` can be read and starts, its first `fdt`, or else `devicetree`, can be read and has 28 bytes, and its first `initrd` can be read; the command line is its first `append` and NUL, the initrd has the byte count read, the device tree is installed, and nothing else changes |
| `PrintedBoot.TimeoutBootsDefault` | src/loli.c:215-281 | when the timer expires the same happens to the last entry of the default's name, or to entry 0 when there is no default or no such entry |
| `PrintedBoot.SomeDefault` | src/loli.c:221-260 | there is such an entry whenever there are entries |
| `PrintedBoot.TimeoutWithoutEntries` | src/loli.c:262-278 | without entries a timeout attempts nothing |
| `PrintedBoot.MistypedLine` | src/loli.c:200-278 | a line that is no number, or the number of no entry, attempts nothing |
| `PrintedBoot.PrintedTimeout` | src/menu.c:30-47 | the timeout of a printed configuration is the number its first `timeout` denotes, and 0 when there is none or it is no number |
| `Boot.RoundMeaning` | src/loli.c:70-180 | a round that boots adds one image; one that does not adds none, unless the firmware refused a loaded image, and sets nothing up |
| `Boot.RunFindsFirst` | src/loli.c:262-278 | the loop returns exactly when some attempt succeeds, with the first that does |
| `Boot.RunMeaning` | src/loli.c:262-278 | at the end exactly the booted image is loaded besides refused ones; initrd_setup was called at most once, by the booting entry |
| `Boot.RefusedImageStays` | src/loli.c:102-105 | a concrete run in which the firmware refuses the image and it stays loaded |

## Left out

- LoadLimits.LoadEquivalenceExactly: takes relocation targets to be disjoint words inside one retained section, and fewer than 2^16 sections, whose number a 16-bit field holds.
- LoadEquivalence.LoadEquivalence: the same, for files whose image fits.
- LayoutLimits.LaidOutExactly: takes the file to lie below 4 GiB; other files may have a layout of that shape, at wrong addresses.
- Layout.LayoutInvariant: the part of `LayoutLimits.LaidOutExactly` about files whose image fits.
- ExecLayout.HeadersClear: takes the moved addresses to stay below 2^64, where the code wraps around.
- ExecLayout.MovedApart: the same.
- WrittenHeaders.EntryFollows: like the other results about the written headers, for files whose image fits, with relocation targets as above and fewer than 2^16 sections.
- Acceptance.ConvertedExactly: takes the sections to lie below 4 GiB.
- RelocationsAccepted.AcceptedExactly: takes relocation targets to be disjoint words inside one retained section, and the image and its headers to fit.
- GlyphPixels.WritePrintable: for font bytes below 256, as the table in src/font.c holds.
- PrintedBoot.TypedEntryBoots: takes at most 2^31 entries, over the configurations of ConfigText.EntryRoundTrip.
- PrintedBoot.PrintedTimeout: over the same configurations; a number of 2^31 or more is the subject of Strings.NumberIsValueExactly.
- SpacedLines.SpacedBinding: over the same keys and values.
- Boot.NumbersSelectTheirEntry: takes at most 2^31 entries, as the source counts them in an int.
- StreamReloc.CreatePeReloc: takes relocations sorted by address, as load_relocs leaves them.
- StreamReloc.TableMeaning: takes addresses to lie at 32-bit distances above the base, and fewer than 2^31 relocations.
- ExecAlignment.ExecAddressAlignment: takes some alignment to be nonzero when there are segments, as the source divides by their common divisor.
- ExecLayout.Executable.Relocate: takes at least one segment and nonzero alignments, by which the source divides.
- ExecLayout.MovedMeaning: takes the moved addresses to stay below 2^64, where the code wraps around.
- ExecLayout.LayoutMeaning: takes the file to stay below 4 GiB, where the 32-bit offsets wrap around.
- Menu.CompareMeaning: takes the first operand's n characters to lie inside the text, as a looked-up value does.
- ConfigText.EntryRoundTrip: over configurations whose keys are one word other than `menu`, or `menu title`, and whose values are one trimmed line; a key `menu` would also be found in `menu title` lines.
- ConfigText.GlobalRoundTrip: over the same configurations.
- Strings.Atou: takes a signed 32-bit overflow to wrap around, which C leaves undefined; `Strings.NumberMeaning` is the part free of overflow.
- Boot.CmdlineLoop: any round may time out, although the source sets a timer for the first only.
- LineEditor.ConvertLineEnds: takes the converted string to fit the 1024-byte global buffer, which the source does not check.
- Console.FrameBuffer.ScrollUp: the pixel buffer is an array of 32-bit pixels, not of bytes.
- Boot.LoadAndValidateEntry: counts images, device trees, initrds and command lines; memory that is allocated and freed on the way, and the fact that some of it is not freed, are not modelled.
- The 32-bit PE and ELF variants, and `copy_sections`: more cases of the same kind.
- Machine, time stamp, image and subsystem versions and subsystem are parameters of the written file; every other header field is written as the tool writes it.
- ELF parsing (pyelftools, and load_segment, the dynamic tags, load_rela_relocs, data_at_vaddr and apply_relocs of tools/elf2efi.c): sections, segments and sorted relocations are given.
- That the file written by tools/elf2efi.c, once loaded, equals the loaded ELF file: moving, relocation table and file layout of that tool are proved separately.
- The headers written by tools/elf2efi.c, and 4-byte alignment of its relocation blocks, which it does not provide.
- UEFI calls, handles, GUIDs, events and timers: answers are parameters; the timer only decides whether a round has a line.
- Serial output, the initrd protocol, the device-tree copy, allocation, panic and logging: short, and only easy members.
- `memcmp` of src/string.c, which skips every other byte, and plain string copies beyond `strscpy`.
