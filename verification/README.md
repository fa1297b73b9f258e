# Elfex: a verified model of the ELF image container

Elfex keeps an ELF object as one `ElfImage` value: an identity, a file header, segments, sections and a runtime
base. This project models that value and the transformations over it, and proves what they keep:

- **The file layout** (`FileLayout`, `Layout`, `Build`): a moving cursor places the header tables, the segments, the
  sections, a generated name table and the section header table in one buffer; tables and header are written late, the
  arithmetic saturates, and the file is capped at 256 MiB. `FileLayout.Built` is the closed form of the file;
  `Build.TryBuild` is the algorithm, and is proved to compute it.
- **Its inverse** (`Parse`, `RoundTrip`, `FixedPoint`, `ElfFiles`): the parser recovers an explicit normal form of what
  was built, whatever follows it; rebuilding is a fixed point under an exact condition, and always after one round;
  trailing bytes are lossless.
- **The loader image** (`Mapped`, `ParseMapped`, `MappedLaws`, `Rebase`, `Overlap`, `RebaseLaws`, `FileMapped`): loads
  are copied in order into an array, the headers are written over them, and an in-place loop moves every Relative
  pointer by the base change. The mapped fixed point has its exact condition, and mapping converges after one round;
  rebasing is a group action, for a pair of slots exactly when they are compatible; and serializing and reparsing does
  not change what is loaded.
- **Two views of one image** (`Edit`, `Patches`, `EditMapped`, `Inspect`): editing through an image-relative offset
  commutes with building and with mapping, and address translation agrees with the bytes.
- **The record codecs** (`Headers`, `Strings`, `Notes`, `Reloc`, `Dynamic`) and the **builder** on top of them
  (`Builder`, `BuilderLaws`), whose additions are read back from the image it returns.
- **Geometry and validation** (`Images`, `GeometryLaws`, `Validate`). `Witness` bounds the file length from the sizes
  of the parts and gives an image that meets the hypotheses of the laws; `Failures` gives those on which an
  expectation fails.
- **The formats themselves** (`Format`, `FormatMapped`, `Records`, `Survival`, `Placement`, `LoaderLaws`,
  `PointerLaws`, `EditLaws`, `BuilderParts`, `Findings`): each operation once more, in byte positions, field values and
  numbers, without the functions that define it. The two parsers return an image if and only if the bytes describe it;
  what a build keeps of every field and where it places every part; which pointers move, how wide and by how much;
  which bytes an edit changes; what each table decodes to; which findings are reported.

## How to read it

Each module follows one source file or one group of laws. Values are datatypes; bytes are `u8` in `seq<u8>` or, where
the source overwrites a buffer in place, `array<u8>`. Every loop of the modelled code is a method that is proved against
a function, and the laws are lemmas about that function. `Result` and `Option` stand for the source's errors; messages
are not modelled. `u64` arithmetic is written out: `SatAdd` and `Sat` saturate, checked additions are tests against
`MAX_U64`, wrapping ones are remainders. UTF-8 validity is the concrete well-formedness table of the Unicode standard.

Conditions that recur in the statements:

- `OneIdent`: the header carries the identity of the image. The source writes the header's identity but lays the file
  out by the image's; parsers and builder always leave them equal. `RoundTrip.RoundTripExactly` shows the round trip
  needs it.
- `header.ident.cls == ident.cls` is the weaker demand the source itself makes: otherwise it panics when it copies the
  header into its room (src/elf/build.rs:115-117).
- `TextNames`: section names are Rust strings, hence UTF-8. They may contain NULs.
- `KeepsPlaces`: the class's width moves no written item. `Fits`, that fields fit the class, implies it.
- `LoadsStartInside` and `NoSlotWraps`: the loader-image writer panics when a load starts past the end of the image
  (src/elf/build.rs:172-173; `Failures.EmptyLoadFallsOutside` gives such an image) or a slot's end passes 2^64
  (src/elf/build.rs:221). `Maps` and `MapsAt` say that the writer returns an image; the laws of the loader image are
  about such images. `EditMapped.EditedMapsExactly` says exactly which edits keep an image so.

Where the code does less than its documentation or its purpose suggests, the code is followed:

- `Note::parse_all` is documented to stop at the first record that does not fit. When a complete record lacks its
  padding, the cursor can end past the data and the length test underflows instead, which the model takes as the error
  an optimized build reports. `Notes.RunsFailExactly` says exactly when a run fails, for any data; a last note without
  its descriptor padding takes the notes before it with it (`Notes.UnpaddedNote`).
- `write_at_ioff` edits the covering load, while `read_ioff` reads the first covering segment of any type, so an earlier
  segment of another type hides the edit from a reader (`Edit.ReadAfterWrite`, `Failures.CoverHidesEdit`); a later
  serialization sees it.
- The overlap check also reports loads without addresses inside other loads, and misses two loads that share only the
  last address (`Validate.OrdinaryIsNeeded`).
- `try_build` keeps `p_offset` congruent to `p_vaddr`, but what ELF32 stores of the address and the alignment need
  not stay congruent (`Validate.ReparsedBuildIsSound`, `Failures.TruncationMovesLoad`).
- Relative slots that overlap without being the same do not rebase back (`Failures.OverlapBreaksUndo`).

## Model

| member | source | states |
|---|---|---|
| `Build.TryBuild` | src/elf/build.rs:29-119 | the loops with a saturating cursor and late writes into one buffer produce, for every image, exactly the closed-form file, and fail exactly when that file passes 256 MiB or a table passes 65535 entries |
| `Witness.SmallImagesBuild` | src/elf/build.rs:29-119 | building succeeds whenever contents, alignments and table sizes add up to at most 256 MiB, the tables have room, and header and image agree on the class |
| `Safety.LayoutSafety` | src/elf/build.rs:29-119 | in every built file the header, the tables, the segments and the sections are ordered, pairwise disjoint and inside the file, each holds exactly its bytes although tables are written late, every other byte is zero, and the length is at most 256 MiB |
| `Safety.OffsetsAreExact` | src/elf/build.rs:45-111 | nothing saturated in a successful build: recorded offsets are the places of the bytes, each written load has `p_offset` congruent to `p_vaddr` modulo `p_align`, sections and the section table are aligned |
| `Placement.PlacesExist` | src/elf/build.rs:45-113 | every image has places: the tables, then each written segment and section at the least suitable offset after the one before, then the section header table at the next multiple of 8 |
| `Placement.BuildsExactly` | src/elf/build.rs:29-119 | building succeeds if and only if the last of these places ends within 256 MiB and neither table passes 65535 entries, and the file is that long |
| `Placement.OffsetsOfBuilt` | src/elf/build.rs:45-111 | the offsets the parsed file records are those places |
| `Placement.GapsOfBuilt` | src/elf/build.rs:305-320 | every byte of a built file that its own headers do not claim is zero |
| `Survival.HeaderOfBuilt` | src/elf/build.rs:91-111 | the parsed header of any built file, whatever follows it: type as its number reads back, machine, version, flags and entry (modulo 2^32 in ELF32) of the image, and sizes, counts and offsets that describe the tables |
| `Survival.SegmentOfBuilt` | src/elf/build.rs:45-63 | every segment of a built file: type, flags, addresses, memory size and alignment kept at the width of the class, and exactly the first min(file size, data) bytes, in the file at the recorded offset and in the parsed image |
| `Survival.SectionOfBuilt` | src/elf/build.rs:65-83 | every section of a built file: type, flags, address, links, alignment and entry size kept at the width of the class, the name up to its first NUL, and the data, unless it has none or is a name table; a name table is added only when there is none |
| `Survival.NamesOfBuilt` | src/elf/build.rs:287-303 | every section name stands in the table the header names, at that section's own name index |
| `Survival.FirstNameTable` | src/elf/build.rs:261-284 | the header names the first section called `.shstrtab` of type 3 |
| `Layout.CongruentIsLeast` | src/elf/build.rs:247-258 | `congruent` finds the least offset at or after the cursor with the wanted residue |
| `Build.AlignUpIsCongruent` | src/elf.rs:124-134 | `align_up` is `congruent` to zero, including where both saturate |
| `Layout.BodyHolds` | src/elf/build.rs:45-83 | every item a moving cursor placed is found at its offset, whatever was placed after it |
| `Layout.BodyGaps` | src/elf/build.rs:45-83 | bytes no item covers are zero |
| `Build.WriteAt` | src/elf/build.rs:305-320 | growing with zeros and overwriting, refused past the cap |
| `Build.PlaceSegments` | src/elf/build.rs:45-63 | the segment loop places what the closed form says and records each offset and written size |
| `Build.PlaceSections` | src/elf/build.rs:69-82 | the section loop does the same for sections, skipping `NOBITS` and empty ones |
| `Build.WriteShdrTable` | src/elf/build.rs:102-113 | the section header table lands at the next multiple of 8 |
| `Build.EnsureShstrtab` | src/elf/build.rs:261-284 | returns the sections with a name table among them and the index of the first such table |
| `Build.AssignNameOffsets` | src/elf/build.rs:287-303 | every section gets its name offset and every name table the blob, although offsets are recorded while the blob grows |
| `RoundTrip.NameTableSection` | src/elf/build.rs:261-303 | the index stored in the header names a string table that holds the blob of all names |
| `Strings.BlobResolves` | src/strtab.rs:25-32 | looking up any recorded offset in the blob returns that name, duplicates and empty names included |
| `Strings.CStrIsName` | src/strtab.rs:25-32 | a lookup returns the name up to its first NUL: the name itself if and only if it has none, and text if the name is text |
| `Strings.Utf8Prefix` | src/strtab.rs:31 | cutting well-formed UTF-8 at an ASCII byte leaves well-formed UTF-8 |
| `Strings.LookupIs` | src/strtab.rs:25-32 | a lookup at any offset of any table yields a name if and only if it is text without NULs that stands there up to a NUL or the end, shared suffixes included |
| `Strings.Utf8Exactly` | src/strtab.rs:31 | a byte sequence is accepted as text if and only if it is a concatenation of UTF-8 encodings of Unicode scalar values |
| `Headers.IdentRoundTrip` | src/ident.rs:215-240 | a written identification array parses back |
| `Headers.EhdrRoundTrip` | src/header.rs:145-209 | a written ELF header, read at its absolute field offsets, parses back with ELF32 addresses cut to 32 bits |
| `Headers.PhdrRoundTrip` | src/program.rs:120-174 | the same for program headers, whose field order differs between the classes |
| `Headers.ShdrRoundTrip` | src/section.rs:148-210 | the same for section headers |
| `Bytes.DecEnc` | src/ident.rs:88-166 | decoding inverts encoding in both byte orders for every value the width holds |
| `Bytes.EncDec` | src/ident.rs:88-166 | encoding inverts decoding, so equal values mean equal bytes |
| `Bytes.ByteOrder` | src/ident.rs:88-166 | the first byte is the lowest digit in one byte order, the last byte in the other |
| `Parse.ParseFile` | src/elf/parse.rs:100-124 | the reading loops compute the parser function on every input, errors included |
| `Parse.ReadFileSections` | src/elf/parse.rs:173-194 | the section loop, the name table lookup and their error cases |
| `Format.ParserIsExact` | src/elf/parse.rs:100-283 | for every byte sequence and every image: the parser returns the image if and only if the bytes describe it, field by field at the offsets of the format, with every header table entry, segment and section inside the file and at most 256 MiB, contents equal to the bytes the header points at, and names looked up in the section the header names |
| `RoundTrip.ParseInvertsBuild` | src/elf/parse.rs:63-124 | whatever was built, and whatever bytes follow it, the parser succeeds and returns the explicit normal form of the image: data cut to what was written, offsets reassigned, a name table added, names cut at NULs, ELF32 fields cut, runtime base equal to image base |
| `RoundTrip.RoundTripExactly` | src/elf/build.rs:115-117 | that round trip holds if and only if the image and its header carry the same identity |
| `FixedPoint.RebuildFixedPoint` | src/elf/build.rs:29-119 | for every image with one identity and text names, rebuilding the parsed file gives the same bytes if and only if no `PT_NULL` header carries written bytes, no section name contains a NUL, and every written item is placed where the address and alignment the class stores put it |
| `FixedPoint.FittingKeepsPlaces` | src/lib.rs:63-65 | that last condition holds whenever fields fit the class, so always in ELF64 |
| `FixedPoint.PowersOfTwoKeepPlaces` | src/lib.rs:63-65 | in ELF32 it also holds for power-of-two alignments below 2^32, however large the addresses |
| `FixedPoint.SecondRebuildIsFixed` | src/elf/build.rs:29-119 | for every image, canonical or not and of any field width, what is built from a reparsed file is a fixed point |
| `ElfFiles.LastStructureEnd` | src/elf_file.rs:126-172 | the maximum over headers, segments and sections, overflow cases included |
| `ElfFiles.LastEndIsLength` | src/elf_file.rs:126-172 | on a reparsed build the last structural byte is the last byte of the built file |
| `ElfFiles.LastEndIsGreatest` | src/elf_file.rs:126-172 | for any image, the last structural byte is the greatest end of the headers, the tables and the segments and sections with file bytes, ends past 2^64 aside |
| `ElfFiles.SplitsExactly` | src/elf_file.rs:42-54 | for any bytes, splitting returns an image and trailing bytes if and only if the bytes describe the image and the trailing bytes follow that end |
| `ElfFiles.ReadFile` | src/elf_file.rs:42-54 | reading a file splits it into image and trailing bytes |
| `ElfFiles.WriteFile` | src/elf_file.rs:104-108 | writing a file is the built image followed by the trailing bytes |
| `ElfFiles.TrailingIsLossless` | src/elf_file.rs:42-54 | for every built file and any suffix, parsing recovers the image and exactly the suffix, and building the result gives back every byte under exactly the condition of the rebuild fixed point |
| `Witness.HypothesesAreMet` | src/elf/build.rs:29-201 | one ELF32 image with a load, a section and two relocation slots meets the hypotheses of the round trips, both fixed points, the loader view, the rebasing laws at every base, the edits in file and loader image at every base, and loading from the file |
| `Reader.ReadExactAt` | src/reader.rs:39-58 | however short the individual reads are, the loop succeeds exactly when the range exists and then holds its bytes |
| `Reader.ReadAt` | src/reader.rs:151-161 | a read fills the buffer with the source bytes from the offset on and leaves the rest alone |
| `Reader.ReadLenient` | src/elf/parse.rs:285-296 | the buffer ends up with what the source supplies, then zeros |
| `Edit.ImageObject.WriteAtIoff` | src/elf/edit.rs:14-40 | the in-place edit updates the covering load and every covering section, or leaves the whole image unchanged |
| `Edit.ImageObject.EditEverySection` | src/elf/edit.rs:25-38 | each section is overwritten exactly when it is allocated, has file bytes, covers the address and holds the range |
| `EditLaws.EditsExactly` | src/elf/edit.rs:14-24 | an edit succeeds if and only if its address does not overflow and the data of the first load whose memory holds it holds the whole range |
| `EditLaws.SegmentsOfEdit` | src/elf/edit.rs:16-24 | after an edit the bytes of the range in that load are the new ones, and every other byte, segment and field is unchanged |
| `EditLaws.SectionOfEdit` | src/elf/edit.rs:25-38 | each section keeps header, name and length, and its bytes change if and only if it is allocated, not NOBITS, its memory holds the address and its data the whole range |
| `Edit.EditCommutesWithBuild` | src/elf/edit.rs:14-40 | the file of the edited image is the original file with the edit patched at the load's offset and at the offset of each updated section, and no other byte changed |
| `EditMapped.EditCommutesWithMapping` | src/elf/edit.rs:14-40 | for every image and every position: the loader image of the edited image holds the written byte inside the range, unless the headers or a later load cover it, and the old byte elsewhere |
| `EditMapped.MappedEditIsPatch` | src/elf/build.rs:150-174 | at the preferred base, for loads whose memory is disjoint and holds their data, past the headers, the edit is one overwrite of the loader image at its own offset |
| `EditMapped.MappedEditAtBase` | src/elf/build.rs:150-201 | the same at every base, when the edit also reaches no relocation table and no slot |
| `EditMapped.EditedMapsExactly` | src/elf/edit.rs:25-38 | an image that maps at a base still does after an edit if and only if that is the preferred base, or the entries decoded from the patched bytes of every relocation table the edit reaches have their slots end below 2^64; no table stops decoding |
| `EditMapped.EditKeepsRelocations` | src/elf/edit.rs:25-38 | so an edit that reaches no relocation table keeps the tables, and the edited image maps at every base at which the image does |
| `Failures.EditCanOverflow` | src/elf/edit.rs:25-38 | the condition can fail: a page that maps at every base, and overflows a slot end at every other base after an edit of its table |
| `Edit.ReadVaddr` | src/elf/inspect.rs:316-327 | the buffer-filling read computes the covering segment's bytes extended with zeros |
| `EditLaws.ReadsExactly` | src/elf/inspect.rs:107-110 | a read succeeds if and only if some segment of any type covers the address |
| `EditLaws.BytesRead` | src/elf/inspect.rs:316-327 | it returns the bytes of the first such segment from there on, then zeros |
| `Edit.ReadAfterWrite` | src/elf/inspect.rs:107-110 | what was written is read back, unless an earlier segment of another type covers the address, and then the reader sees what it saw before |
| `Failures.CoverHidesEdit` | src/elf/inspect.rs:95-110 | such an image: writing 0x90 succeeds behind a covering note segment and reading the byte back yields zero |
| `Mapped.ToMappedImage` | src/elf/build.rs:150-195 | placing the loads in order and the headers over them, in one zeroed buffer, computes the loader image |
| `Mapped.ToMappedImageAt` | src/elf/build.rs:150-201 | the same with the relocation loop when the base differs |
| `PointerLaws.LoaderAtExactly` | src/elf/build.rs:150-201 | there is a loader image at a base if and only if the span is at most 256 MiB and, away from the preferred base, every relocation table decodes |
| `Mapped.ApplyRelative` | src/elf/build.rs:203-240 | the relocation loops rebase exactly the listed slots in place; an undecodable table fails |
| `Mapped.RebaseTable` | src/elf/build.rs:208-237 | one table: entries of other kinds, below the base or past the end are skipped |
| `Mapped.BumpInPlace` | src/elf/build.rs:224-235 | read, wrapping addition and write of 4 or 8 bytes in place is one step of the rebasing function |
| `Mapped.ReadRelocations` | src/elf/inspect.rs:178-195 | every `RELA` and `REL` section in order, or an error |
| `MappedLaws.MappedByte` | src/elf/build.rs:161-195 | each byte of the loader image is the headers', else the last writing load's, else zero |
| `LoaderLaws.HeadersOfLoader` | src/elf/build.rs:176-195 | the headers of a loader image parse as the image's own type, machine, version, entry and flags, with the program headers right behind them, each kept whole at the width of the class |
| `LoaderLaws.HeaderRoom` | src/elf/build.rs:176-195 | the headers take 52 or 64 bytes and 32 or 56 for each segment |
| `LoaderLaws.LoaderByte` | src/elf/build.rs:161-174 | past the headers a position holds the byte of the last load that has one for its address |
| `LoaderLaws.LoaderZero` | src/elf/build.rs:159-174 | and zero where no load has one |
| `MappedLaws.LoaderView` | src/elf/build.rs:161-174 | for disjoint loads whose data fits memory every byte past the headers is the covering load's data extended with zeros, and zero where no load is |
| `MappedLaws.ReaderAgrees` | src/elf/inspect.rs:316-327 | the address reader returns what the loader image holds |
| `ParseMapped.ParseMappedImage` | src/elf/parse.rs:126-159 | the mapped reader loop, with its size limits |
| `ParseMapped.ReadMappedSections` | src/elf/parse.rs:196-242 | the mapped section loop, which drops sections it cannot allocate |
| `FormatMapped.MappedParserIsExact` | src/elf/parse.rs:126-267 | for every byte sequence and every image: the mapped parser returns the image if and only if the bytes describe it, segments found by address, allocated sections by address and other sections by file offset, zero past the end, sections of impossible size dropped, names from the table found the same way |
| `FormatMapped.SectionInLoad` | src/elf/parse.rs:219-241 | an allocated section inside the memory of a load holds what the parsed load holds there |
| `MappedLaws.MappedParses` | src/elf/parse.rs:126-159 | a loader image parses if and only if every mapped length fits it, and then yields the same headers |
| `MappedLaws.MappedFixedPoint` | src/elf/build.rs:150-201 | when the memory of the loads fits the class, the loader image parses exactly when every mapped length fits, and the parsed image can be mapped again, to the same bytes if and only if the loads leave no non-zero byte outside the loads' memory, overlapping or not |
| `MappedLaws.SecondMappingIsFixed` | src/elf/build.rs:150-201 | of any bytes that parse as a loader image, the parsed image's own loader image is a fixed point whenever it exists, has room for its headers and parses |
| `MappedLaws.SecondRoundIsFixed` | src/elf/build.rs:150-201 | in particular an image whose headers can be read back converges after one round, whatever its loads leave outside their memory |
| `MappedLaws.MappedImagesAreFixed` | src/elf/build.rs:150-201 | so the mapped fixed point holds whenever headers fit the span, no load starts past it, load data fits memory and other file sizes fit the span |
| `FileMapped.FilesLoadAlike` | src/elf/build.rs:29-201 | whenever every load goes into the file whole, the image parsed from the file maps at every base at which the original does, to the same bytes past the headers; away from the preferred base no slot may cross the end of the headers |
| `Rebase.RebaseTwice` | src/elf/build.rs:203-240 | for slots pairwise the same or disjoint, rebasing by d1 and then by d2 is rebasing by d1 + d2, wrapping |
| `Rebase.RebaseUndone` | src/elf/build.rs:203-240 | rebasing by d and then by -d restores every byte |
| `Rebase.RebaseZero` | src/elf/build.rs:197-199 | rebasing by zero changes nothing, for any slots |
| `Rebase.OrderIrrelevant` | src/elf/build.rs:208-209 | the order of the slots does not matter |
| `Rebase.SlotEffect` | src/elf/build.rs:224-235 | a slot listed n times moves by n times the delta at its width |
| `Rebase.PointerMoves` | src/elf/build.rs:224-235 | a slot that stands alone decodes to its old value plus the delta modulo 2^32 or 2^64 |
| `Rebase.RebaseFrame` | src/elf/build.rs:203-240 | bytes outside every slot are unchanged |
| `Overlap.PairLawIsExact` | src/elf/build.rs:203-240 | for two slots of one width, in either byte order, rebases compose on every image, and are undone on every image, if and only if the slots are the same or disjoint |
| `Overlap.ReverseUndoes` | src/elf/build.rs:203-240 | rebasing through any list of slots is undone by rebasing back through the reversed list, overlapping or not |
| `Overlap.PalindromeUndoes` | src/elf/build.rs:203-240 | so for longer lists undoing alone does not need compatible slots: every list that reads the same backwards is undone |
| `Failures.OverlapBreaksUndo` | src/elf/build.rs:203-240 | an i386 page with Relative entries at offsets 0x800 and 0x802 maps at every base, and rebasing its loader image by one and back does not restore it |
| `RebaseLaws.RebaseEffect` | src/elf/build.rs:150-201 | mapping at another base differs from mapping at home only inside in-range Relative slots, each lone slot moves by the base change, and any other place, indirect-function slots included, decodes as before |
| `PointerLaws.PointersAre` | src/reloc.rs:167-210 | the slots are exactly the places of listed entries of type 8 at or above the base that end inside the image: eight bytes wide on x86-64, four on i386, none on other machines |
| `PointerLaws.PointerMovesBy` | src/elf/build.rs:203-237 | a pointer that one entry alone moves changes by base minus preferred base, modulo 2^64 on x86-64 and modulo 2^32 on i386 |
| `PointerLaws.UnmovedStays` | src/elf/build.rs:208-237 | bytes no such entry touches are those of the image at its preferred base |
| `PointerLaws.OtherTypesStay` | src/reloc.rs:167-210 | in particular places listed for symbol, copy, thread-local and indirect-function types keep their bytes |
| `PointerLaws.WrapsExactly` | src/elf/build.rs:215-221 | the end of a slot overflows if and only if some listed entry of type 8 lies less than its width below 2^64 from the base |
| `Witness.PointersApart` | src/elf/build.rs:203-240 | the page of two pointers meets the hypotheses of these laws |
| `RebaseLaws.SkippingIsSound` | src/elf/build.rs:197-199 | skipping the loop at the preferred base is sound |
| `RebaseLaws.RebasesCompose` | src/elf/build.rs:203-207 | moving an image to one base and then on is one move |
| `RebaseLaws.RebaseIsInvertible` | src/elf/build.rs:203-207 | every move can be undone |
| `RebaseLaws.EntryOrderIsIrrelevant` | src/elf/build.rs:208-209 | images that list the same entries in any tables and any order rebase alike, and overflow no slot end alike |
| `Inspect.OffsetsPointAtData` | src/elf/inspect.rs:80-91 | for every parsed file, a translated offset is inside the file and the byte there is the covering load's byte for that address |
| `EditLaws.TranslatesExactly` | src/elf/inspect.rs:80-91 | an offset is translated if and only if a load has file bytes for its address, and then through the first such load |
| `Inspect.SliceIsPrefix` | src/elf/inspect.rs:117-121 | the borrowing reader returns the owned reader's bytes without the zero-filled tail |
| `EditLaws.SlicesExactly` | src/elf/inspect.rs:117-121 | the borrowing reader returns a slice if and only if the first covering segment's data reaches the address, and then as much of the range as the data holds |
| `Inspect.ReadNotes` | src/elf/inspect.rs:207-227 | notes come from the note segments, or from the note sections when there are none |
| `Records.NoteSourcesAre` | src/elf/inspect.rs:207-227 | the notes are those of the segments of type 4, joined in order, whenever there is one, and otherwise those of the sections of type 7 |
| `Reloc.ParseTable` | src/reloc.rs:68-105 | the table loop computes the decoding function, errors included |
| `Reloc.TableParses` | src/reloc.rs:75-79 | a table decodes if and only if it is a whole number of entries |
| `Records.TableExactly` | src/reloc.rs:68-132 | for any bytes, RELA or REL: decoding returns a table if and only if its entries are the whole of the bytes, field by field, with the symbol and type split of the class and a two's complement addend or none |
| `Records.RelocationsExactly` | src/elf/inspect.rs:178-195 | `relocations` returns exactly the tables of the sections of type 4 and 9, in order |
| `Reloc.SerializeRela` | src/builder.rs:356-376 | the serializer loop writes the entries one after the other |
| `Reloc.RelaRoundTrip` | src/builder.rs:356-376 | parsing a serialized table returns every entry in order, absent addends as zero, in both classes and byte orders |
| `Reloc.KeptExactly` | src/builder.rs:365-372 | an entry is kept unchanged if and only if its class has room: ELF64, or a 32-bit offset, 24-bit symbol, 8-bit type and `i32` addend |
| `Reloc.KeptFields` | src/builder.rs:356-376 | what each class keeps of an entry: all of it, or the offset modulo 2^32, the low 24 bits of the symbol, the low 8 of the type, and the addend if it fits `i32`, else zero |
| `Reloc.InfoRoundTrip` | src/reloc.rs:120-132 | splitting a joined `r_info` returns symbol and type, cut to 24 and 8 bits in ELF32 |
| `Notes.ParseAll` | src/notes.rs:67-98 | the note loop computes the reading function, including where it stops and where it fails |
| `Records.NotesExactly` | src/notes.rs:67-98 | for any data: reading returns a list if and only if complete records with those notes stand one after the other, each padded part at the next multiple of four, and no complete record follows |
| `Notes.RunsFailExactly` | src/notes.rs:67-98 | over any data a whole run fails if and only if a complete record it reaches has a name that is not UTF-8, or its cursor ends past the data, where the length test underflows |
| `Notes.AlignedRuns` | src/notes.rs:67-98 | over data of a multiple of four bytes every cursor position of the whole run is aligned and in range, so the length test never underflows and only a bad name fails the run |
| `Notes.CursorStaysInRange` | src/notes.rs:70-95 | one turn of such a run advances by at least 12 and stays aligned and in range |
| `Notes.UnpaddedNote` | src/notes.rs:70-95 | after any notes, a last note without descriptor padding is read with them if and only if it needs none; otherwise the cursor overruns and all of them are lost to an error |
| `Notes.SerializeNote` | src/builder.rs:336-354 | the serializer with its padding loops writes the padded record |
| `Notes.NotesRoundTrip` | src/builder.rs:336-354 | parsing the concatenation of any serialized notes returns the list in order |
| `Dynamic.ParseDynamic` | src/dynamic.rs:146-174 | the table loop with its break computes the entries before the first `DT_NULL` |
| `Records.DynamicExactly` | src/dynamic.rs:146-174 | for any bytes: decoding returns a list if and only if the bytes are whole entries and the list is those before the first zero tag |
| `Records.NeededExactly` | src/dynamic.rs:193-199 | the needed names are, in order, those of the entries of tag 1 whose value names a string of the table |
| `Records.NeededLibrariesAre` | src/elf/inspect.rs:261-272 | they come from the first segment of type 2 and the first section named `.dynstr` |
| `Records.NoDynamicSegment` | src/elf/inspect.rs:261-264 | without such a segment no library is needed |
| `Records.FindExactly` | src/dynamic.rs:184-189 | `find` returns the value of the first entry with the tag |
| `Records.TlsExactly` | src/elf/inspect.rs:244-250 | `tls` returns the fields of the first segment of type 7 |
| `Dynamic.EmitDynamic` | src/builder.rs:463-493 | the string blob and the table, with offsets recorded while the blob grows |
| `Dynamic.NeededRoundTrip` | src/dynamic.rs:193-199 | resolving `DT_NEEDED` of the parsed emitted table through the emitted strings yields the names in order, cut at their first NUL, in both classes and byte orders |
| `Dynamic.NamesKept` | src/builder.rs:466-470 | the list is unchanged if and only if no name contains a NUL |
| `Dynamic.BlobSizeIsFound` | src/dynamic.rs:184-189 | `find` of the size tag in the parsed table returns the length of the string blob |
| `Builder.ElfBuilder.TryBuild` | src/builder.rs:219-304 | the builder assembles, serializes and reparses its plan |
| `Builder.AppendNotes` | src/builder.rs:378-418 | one note segment and one note section per note, in order |
| `Builder.AppendDynamic` | src/builder.rs:452-551 | the dynamic segment, `.dynstr` and `.dynamic`, or nothing when no library is needed |
| `Builder.AppendRela` | src/builder.rs:420-450 | `.rela.dyn`, or nothing when there are no relocations |
| `BuilderLaws.BuilderReturnsNormal` | src/builder.rs:302-303 | the builder fails exactly when the layout does, and otherwise returns the normal form of what it assembled |
| `BuilderLaws.EndToEnd` | src/builder.rs:219-304 | for every plan that builds, the returned image reads back the identity, type, machine, entry and flags, the loads (bytes, permissions, both sizes, address and alignment, and no further load), notes, needed libraries, relocations and thread-local storage that were added, in order, across serialization and reparsing |
| `BuilderParts.SegmentsOfResult` | src/builder.rs:250-300 | every segment a builder generates comes back behind the loads: thread-local storage, one readable segment per note, and the writable dynamic table with the name offsets and the length of the strings |
| `BuilderParts.SectionsOfResult` | src/builder.rs:378-551 | every section a builder generates comes back: null section, one per note with that note's bytes and name, dynamic strings and table, relocations, and the name table, each with its type, flags, alignment and entry size |
| `Validate.RunChecks` | src/elf/validate.rs:20-120 | the checks push every finding in order |
| `Findings.ReportsExactly` | src/elf/validate.rs:20-120 | for every image and finding: it is reported if and only if the image has it, entry point outside the window, more file bytes than memory, misaligned load, no load, missing name table, or two loads next to each other in address order of which the first reaches into the second, each with the load numbers or address it names |
| `Validate.SortAscends` | src/elf/validate.rs:65 | sorting the distinct ranges puts them in strictly ascending order |
| `Validate.OverlapCheckIsExact` | src/elf/validate.rs:54-78 | for every image, comparing neighbours reports an overlap if and only if two loads share an address as `contains_vaddr` decides it, or a load without addresses lies strictly inside another |
| `Validate.OverlapMeansShared` | src/elf/validate.rs:54-78 | for loads that are not empty and end inside the address space, an overlap is reported if and only if two loads share an address |
| `Validate.OrdinaryIsNeeded` | src/elf/validate.rs:54-78 | both conditions are needed: `validate` reports an image with an empty load inside another, and does not report one with two loads that share only the last address |
| `Validate.NeighboursClash` | src/elf/validate.rs:66-78 | the two load numbers a finding names are distinct loads that clash |
| `Validate.ReparsedBuildIsSound` | src/elf/validate.rs:91-118 | `validate` of the image parsed from a built file never reports the string-table index, and reports a misaligned load if and only if the class cut a written load's congruence, never in ELF64 |
| `Validate.FittingIsCongruent` | src/elf/validate.rs:91-101 | fields that fit the class keep the congruence |
| `Validate.PowerOfTwoIsCongruent` | src/elf/validate.rs:91-101 | in ELF32 a power-of-two alignment keeps it even when the address is cut |
| `Failures.TruncationMovesLoad` | src/lib.rs:63-65 | an ELF32 image that builds and is canonical, whose reparsed file `validate` reports as misaligned and whose rebuild gives other bytes |
| `Images.ComputeGeometry` | src/elf.rs:94-119 | the one-pass loop computes page, base and span |
| `GeometryLaws.OrderDoesNotMatter` | src/elf.rs:94-119 | the geometry is the same for every order of the loads |
| `GeometryLaws.WindowIsTightest` | src/elf.rs:94-119 | the window encloses every non-empty load and is the tightest page-aligned one; its end is a multiple of the page unless rounding up saturated |
| `LoaderLaws.WindowOfImage` | src/elf.rs:94-119 | in addresses: the base is the lowest load address rounded down to the greatest load alignment, at least 0x1000, and base plus span is the highest load end rounded up to it, at most the last address |
| `LoaderLaws.NoWindow` | src/elf.rs:94-119 | without a load that has memory, base and span are zero |
| `GeometryLaws.BaseSuitsEveryLoad` | src/elf.rs:94-119 | when every alignment above 1 is a power of two the base is a multiple of each |
| `GeometryLaws.LoadInsideImage` | src/elf/build.rs:167-172 | a load with memory starts inside the image, and fits it when its end does not saturate |
| `GeometryLaws.OnlyEmptyLoadsFallOutside` | src/elf/build.rs:167-173 | the loader-image writer slices out of range only for loads without memory: its precondition holds if and only if those start inside the span |
| `Failures.EmptyLoadFallsOutside` | src/elf/build.rs:172-173 | such an image: a page of data, with a load without memory at 0x900000 |

## Left out

- RebaseLaws.RebasesCompose: stated for slots that are pairwise the same or disjoint, which for two slots is also necessary (`Overlap.PairLawIsExact`); for longer lists necessity is not stated, and for undoing alone it fails (`Overlap.PalindromeUndoes`).
- FileMapped.FilesLoadAlike: away from the preferred base it asks that no slot crosses the end of the headers, whose offsets the file reassigns.
- MappedLaws.MappedFixedPoint: an ELF32 load whose address, memory size or alignment does not fit 32 bits is mapped where the headers it stores do not say; what parsing such an image yields is covered by `MappedLaws.SecondMappingIsFixed`.
- Mapped.ToMappedImageAt: the two panics of the source (a load that starts past the image, a slot end past 2^64) are preconditions, not outcomes; `GeometryLaws.OnlyEmptyLoadsFallOutside` says when the first can happen.
- Notes.ParseAll: models the underflow of the length test as the error an optimized build reports, not as the panic of a debug build.
- Validate.RunChecks: the library sort is modelled by insertion sort; the order is total on distinct tuples, so the result is the same. Severity and message strings are left out; the context strings are numbers.
- Builder.ElfBuilder.TryBuild: the class, byte order, type, machine, entry, ABI and flags setters and `add_load` with its default alignment only store one field and are left out.
- `Parse` and `ParseMapped` read from byte sequences; that the readers' loops deliver those bytes from a source with short reads is proved in `Reader`, and reading at a base offset is parsing the bytes from there on. Sources that fail, or whose size is unknown, are not modelled.
- `read_mapped_from` and `parse_mapped_at` differ from the mapped parser only in the stored runtime base.
- Lengths of data are assumed to be below 2^64, as on a 64-bit host; `usize` narrower than 64 bits and failing allocations are left out.
- `FileReader`, `from_file` and other file system access: foreign I/O.
- Error values, `Display`, `ErrorContext` and the panicking `build` wrappers.
- Symbol tables, `exports`, `soname`, `rpath`, `runpath`, `build_id`, `contains_ioff_range`: decoders and accessors without a writer in the repository, which would only add easy members.
- Tag, flag and machine constants that no modelled function reads.
