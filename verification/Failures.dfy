/** Images on which an expectation fails: each is one the code accepts. */
module Failures {
  import opened Arith
  import opened Bytes
  import opened Headers
  import opened Images
  import opened Layout
  import opened FileLayout
  import opened RoundTrip
  import opened FixedPoint
  import opened Reloc
  import opened Rebase
  import opened Overlap
  import opened Edit
  import opened Mapped
  import opened MappedLaws
  import opened FileMapped
  import opened GeometryLaws
  import opened Parse
  import opened Validate
  import RebaseLaws
  import opened Witness

  // ---------------------------------------------------------------- overlapping slots in an image

  lemma OverlapBrims(home: seq<u8>)
    requires |home| == 0x1000 && forall p :: 0x800 <= p < 0x80C ==> home[p] == POINTERS[p - 0x800]
    ensures Brimming(home, Slot(0x800, 4), Slot(0x802, 4), Little, 2)
  {
  }

  /** Moving up by one and back down does not restore this loader image. */
  lemma HomeIsNotRestored(home: seq<u8>)
    requires |home| == 0x1000 && forall p :: 0x800 <= p < 0x80C ==> home[p] == POINTERS[p - 0x800]
    ensures AllInside([Slot(0x800, 4), Slot(0x802, 4)], |home|)
    ensures !UndoneAt(home, [Slot(0x800, 4), Slot(0x802, 4)], Little, 1)
  {
    hide Bump, Apply, Brimming;
    var a, b := Slot(0x800, 4), Slot(0x802, 4);
    OverlapBrims(home);
    TurnsDiffer(home, a, b, Little, 2);
    OppositeOfOne();
    if UndoneAt(home, [a, b], Little, 1) {
      UndoneCommutes(home, a, b, Little);
    }
  }

  lemma DeltasOfOne(img: ElfImage)
    requires ImageBase(img) == 0x40_0000
    ensures Delta(img, 0x40_0001) == 1 && Delta(img, RebaseLaws.Opposite(img, 0x40_0001)) == TWO_64 - 1
  {
    hide ImageBase;
    ModIs(0x40_0001 + TWO_64 - 0x40_0000, TWO_64, 1, 1);
    ModIs(2 * 0x40_0000 + TWO_64 - 0x40_0001, TWO_64, 1, 0x3F_FFFF);
    ModIs(0x3F_FFFF + TWO_64 - 0x40_0000, TWO_64, 0, TWO_64 - 1);
  }

  /**
   * Overlapping slots break the group law in an image the writer accepts: with pointers at `0x800` and `0x802` this
   * page maps at every base, its slots overlap, and rebasing its loader image by one and back does not restore it.
   */
  lemma OverlapBreaksUndo(base: u64)
    ensures var img := Page(0x802);
            && Readable(img) && MapsAt(img, base) && NoSlotWraps(img)
            && HasSlots(img, [Slot(0x800, 4), Slot(0x802, 4)]) && !Compatible(Slot(0x800, 4), Slot(0x802, 4))
    ensures var img := Page(0x802);
            var home := MappedAtHome(img).value;
            var there := Rebased(img, home, 0x40_0001);
            there.Ok? && Rebased(img, there.value, RebaseLaws.Opposite(img, 0x40_0001)) != Ok(home)
  {
    hide Readable, LoadsStartInside, Geometry, Rela, HeaderBlock, Relocations, TableSlots, MappedAtHome, NoSlotWraps,
         Apply, Delta, RebaseLaws.Opposite;
    var img := Page(0x802);
    PageMaps(0x802);
    PageGeometry(0x802);
    PageSlots(0x802);
    SpanIsLength(img);
    var home := MappedAtHome(img).value;
    forall p | 0x800 <= p < 0x80C ensures home[p] == POINTERS[p - 0x800] {
      PageByte(0x802, p);
    }
    HomeIsNotRestored(home);
    DeltasOfOne(img);
    OppositeOfOne();
  }

  // ---------------------------------------------------------------- a load past the end of the image

  /** A load without memory, far past the page. */
  const EMPTY: Segment := Segment(ProgramHeader(PT_LOAD, 6, 0, 0x90_0000, 0x90_0000, 0, 0, 0x1000), [])

  /** The page and that load. */
  const OUTSIDE: ElfImage := Page(0x808).(segments := [LOAD, EMPTY])

  /** The geometry ignores a load without memory. */
  lemma EmptyIgnored(loads: seq<Load>, l: Load)
    requires l.memsz == 0
    ensures GeometryOf(loads + [l]) == GeometryOf(loads)
  {
    hide AlignUp;
    assert (loads + [l])[..|loads|] == loads;
  }

  /** The span is within the cap, yet the writer slices the image at an offset past its end. */
  lemma EmptyLoadFallsOutside()
    ensures ImageBase(OUTSIDE) == 0x40_0000 && ImageSpan(OUTSIDE) == 0x1000 && MappedAtHome(OUTSIDE).Ok?
    ensures !LoadsStartInside(OUTSIDE)
  {
    hide GeometryOf, Rela, HeaderBlock, PlaceLoads, LoadsStartInside;
    var hs := HeadersOf([LOAD, EMPTY]);
    assert hs == [LOAD.header, EMPTY.header] && hs[..1] == [LOAD.header] && [LOAD.header][..0] == [];
    assert LoadsOf([]) == [] && LoadsOf([LOAD.header]) == [Load(0x40_0000, 0x1000, 0x1000)];
    assert LoadsOf(hs) == [Load(0x40_0000, 0x1000, 0x1000)] + [Load(0x90_0000, 0, 0x1000)];
    EmptyIgnored([Load(0x40_0000, 0x1000, 0x1000)], Load(0x90_0000, 0, 0x1000));
    OnePage([Load(0x40_0000, 0x1000, 0x1000)], 0x400);
    assert OUTSIDE.segments[1] == EMPTY;
    OnlyEmptyLoadsFallOutside(OUTSIDE);
  }

  // ---------------------------------------------------------------- an edit the reader does not see

  /** A note segment without data that covers the page. */
  const COVER: Segment := Segment(ProgramHeader(PT_NOTE, 4, 0, 0x40_0000, 0x40_0000, 0, 0x1000, 4), [])

  /** The page behind a segment of another type. */
  const COVERED: ElfImage := Page(0x808).(segments := [COVER, LOAD])

  lemma CoveredGeometry()
    ensures ImageBase(COVERED) == 0x40_0000
  {
    hide GeometryOf, Rela;
    var hs := HeadersOf([COVER, LOAD]);
    assert hs == [COVER.header, LOAD.header] && hs[..1] == [COVER.header] && [COVER.header][..0] == [];
    assert LoadsOf([]) == [] && LoadsOf([COVER.header]) == [];
    assert LoadsOf(hs) == [Load(0x40_0000, 0x1000, 0x1000)];
    OnePage(LoadsOf(hs), 0x400);
  }

  /** Writing `0x90` succeeds, and reading the byte back still yields zero. */
  lemma CoverHidesEdit()
    ensures Edited(COVERED, 0x801, [0x90]).Some? && Shadowed(COVERED, ImageBase(COVERED) + 0x801)
    ensures ReadIoff(Edited(COVERED, 0x801, [0x90]).value, 0x801, 1) == Some([0])
  {
    hide Geometry, CoveringLoad, CoveringSegment, Rela, EditSections;
    CoveredGeometry();
    assert COVER.ContainsVaddr(0x40_0801) && LOAD.ContainsVaddr(0x40_0801);
    assert COVERED.segments[0] == COVER && COVERED.segments[1] == LOAD;
    assert CoveringLoad(COVERED.segments, 0x40_0801) == Some(1);
    assert CoveringSegment(COVERED.segments, 0x40_0801) == Some(0);
    ReadAfterWrite(COVERED, 0x801, [0x90]);
    assert [] + Zeros(1) == [0];
  }

  // ---------------------------------------------------------------- a width that moves a load

  /** An ELF32 load at 2^32 aligned to 3: the file keeps the address zero. */
  const WIDE: Segment := Segment(ProgramHeader(PT_LOAD, 5, 0, TWO_32, 0, 1, 1, 3), [0xF4])

  const WIDE_IMAGE: ElfImage :=
    ElfImage(IDENT, ElfHeader(IDENT, Exec, EM_386, 1, 0, 0, 0, 0, 0, 0, 0, 0, 0, 0), [WIDE], [], 0)

  lemma WideBuilds()
    ensures Built(WIDE_IMAGE).Ok? && OneIdent(WIDE_IMAGE) && TextNames(WIDE_IMAGE) && Canonical(WIDE_IMAGE)
  {
    hide FileBytes, Congruent, Cursor, Room;
    var segs := SegItems(WIDE_IMAGE.segments);
    assert segs[0].align == 3 && |segs[0].bytes| == 1;
    RoomOfOne(segs);
    assert Room(SecItems([]), 0) == 0 by { RoomOfNone(SecItems([])); }
    SmallImagesBuild(WIDE_IMAGE);
  }

  lemma RoomOfNone(items: seq<Item>)
    ensures Room(items, 0) == 0
  {
  }

  lemma WidePlaces()
    ensures Cursor(SegItems(WIDE_IMAGE.segments), SegStart(WIDE_IMAGE), 0) == 84
    ensures !SegmentKeepsPlace(Elf32, WIDE, 84) && !StoredCongruent(Elf32, WIDE.header)
  {
    ModIs(84, 3, 28, 0);
    ModIs(TWO_32, 3, 0x5555_5555, 1);
    ModIs(TWO_32, TWO_32, 1, 0);
    ModIs(3, TWO_32, 0, 3);
    ModIs(0, 3, 0, 0);
  }

  /**
   * ELF32 can cut the address a load is placed by: this image builds and is canonical, yet `validate` of the
   * reparsed file reports a misaligned load, and building that file again gives other bytes.
   */
  lemma TruncationMovesLoad()
    ensures Built(WIDE_IMAGE).Ok? && OneIdent(WIDE_IMAGE) && TextNames(WIDE_IMAGE) && Canonical(WIDE_IMAGE)
    ensures LosesCongruence(WIDE_IMAGE) && !KeepsPlaces(WIDE_IMAGE) && Parsed(Built(WIDE_IMAGE).value).Ok?
    ensures Reports(Issues(Parsed(Built(WIDE_IMAGE).value).value), SegmentVaddrMisaligned)
    ensures Built(Parsed(Built(WIDE_IMAGE).value).value) != Built(WIDE_IMAGE)
  {
    hide Built, Parsed, Issues, Reports, TextNames, Canonical, Cursor, SegStart, StoredCongruent, SegmentKeepsPlace,
         SectionKeepsPlace, SegItems, OneIdent;
    WideBuilds();
    WidePlaces();
    assert WIDE_IMAGE.segments[0] == WIDE && Writable(WIDE) == 1 && WIDE.IsLoad();
    assert LosesCongruence(WIDE_IMAGE);
    assert !KeepsPlaces(WIDE_IMAGE);
    ReparsedBuildIsSound(WIDE_IMAGE);
    RebuildFixedPoint(WIDE_IMAGE);
  }

  // ---------------------------------------------------------------- an edit of a relocation table

  const WIDE_IDENT: ElfIdent := ElfIdent(Elf64, Little, 1, 0, 0)

  /** A Relative entry of an x86-64 image. */
  function Pointer(offset: u64): RelocationEntry { RelocationEntry(offset, 0, 8, Some(0)) }

  /** A table of one such entry. */
  function Table(offset: u64): seq<u8> { Flat(EntryParts([Pointer(offset)], Little, Elf64)) }

  /** A page at address zero that holds its own relocation table. */
  function SelfRelocating(offset: u64): ElfImage {
    ElfImage(WIDE_IDENT, ElfHeader(WIDE_IDENT, Dyn, EM_X86_64, 1, 0, 0, 0, 0, 0, 0, 0, 0, 0, 0),
             [Segment(ProgramHeader(PT_LOAD, 6, 0, 0, 0, 24, 0x1000, 0x1000), Table(offset))],
             [Section(SectionHeader(0, SHT_RELA, 2, 0, 0, 24, 0, 0, 8, 24), [], Table(offset))], 0)
  }

  /** What follows the offset in the table. */
  function AfterOffset(): seq<u8> { U64Bytes(Little, JoinInfo(Elf64, 0, 8)) + U64Bytes(Little, 0) }

  /** Overwriting the first eight bytes of the table rewrites the entry's offset. */
  lemma TableEdited(offset: u64, other: u64)
    ensures |Table(offset)| == 24
    ensures Patch(Table(offset), 0, U64Bytes(Little, other)) == Table(other)
  {
    hide U64Bytes, Table, Patch, AfterOffset;
    TableIs(offset);
    TableIs(other);
    var a, b := U64Bytes(Little, offset), U64Bytes(Little, other);
    assert |a| == |b| == 8;
    PatchedFront(a, b, AfterOffset());
    assert Table(offset) == a + AfterOffset();
    assert Table(other) == b + AfterOffset();
  }

  lemma PatchedFront(a: seq<u8>, b: seq<u8>, rest: seq<u8>)
    requires |a| == |b|
    ensures Patch(a + rest, 0, b) == b + rest
  {
  }

  lemma TableIs(offset: u64)
    ensures |Table(offset)| == 24 && Table(offset) == U64Bytes(Little, offset) + AfterOffset()
  {
    hide EntryBytes, Flat, U64Bytes, AfterOffset, EntryParts;
    EntryIs(offset);
    FlatOne(EntryParts([Pointer(offset)], Little, Elf64));
  }

  lemma FlatOne(parts: seq<seq<u8>>)
    requires |parts| == 1
    ensures Flat(parts) == parts[0]
  {
    assert parts[..0] == [] && [] + parts[0] == parts[0];
  }

  lemma EntryIs(offset: u64)
    ensures EntryBytes(Pointer(offset), Little, Elf64) == U64Bytes(Little, offset) + AfterOffset()
  {
    hide U64Bytes, JoinInfo;
    assert Pointer(offset).addend.GetOr(0) == 0 && FromI64(0) == 0;
    var a, b, c := U64Bytes(Little, offset), U64Bytes(Little, JoinInfo(Elf64, 0, 8)), U64Bytes(Little, 0);
    assert a + b + c == a + (b + c);
  }

  lemma SelfGeometry(offset: u64)
    ensures ImageBase(SelfRelocating(offset)) == 0 && ImageSpan(SelfRelocating(offset)) == 0x1000
  {
    hide Table, GeometryOf;
    var img := SelfRelocating(offset);
    var hs := HeadersOf(img.segments);
    assert hs == [img.segments[0].header] && hs[..0] == [];
    assert LoadsOf([]) == [];
    assert LoadsOf(hs) == [Load(0, 0x1000, 0x1000)];
    OnePage(LoadsOf(hs), 0);
  }

  lemma SelfRelocations(offset: u64)
    ensures Relocations(SelfRelocating(offset)) == Ok([RelocationSection([Pointer(offset)], true)])
  {
    hide TableParsed, Flat, EntryParts, KeptEntry;
    RelaRoundTrip([Pointer(offset)], Little, Elf64);
    KeptExactly(Elf64, Pointer(offset));
    assert KeptEntries(Elf64, [Pointer(offset)]) == [Pointer(offset)];
    assert RelocTables(SelfRelocating(offset), 0) == Ok([]);
    assert [] + [RelocationSection([Pointer(offset)], true)] == [RelocationSection([Pointer(offset)], true)];
  }

  lemma SelfWraps(offset: u64)
    ensures NoSlotWraps(SelfRelocating(offset)) <==> offset + 8 <= MAX_U64
  {
    hide Relocations, Geometry, Table;
    SelfRelocations(offset);
    SelfGeometry(offset);
    assert Relocations(SelfRelocating(offset)).value[0].entries[0] == Pointer(offset);
  }

  lemma SelfEdit(offset: u64, other: u64)
    ensures Edited(SelfRelocating(offset), 0, U64Bytes(Little, other)) == Some(SelfRelocating(other))
  {
    hide Table, Geometry, CoveringLoad, U64Bytes;
    var img, d := SelfRelocating(offset), U64Bytes(Little, other);
    TableEdited(offset, other);
    SelfGeometry(offset);
    assert img.segments[0].IsLoad() && img.segments[0].ContainsVaddr(0);
    assert CoveringLoad(img.segments, 0) == Some(0);
    assert EditSections(img.sections, 0, d) == SelfRelocating(other).sections;
    assert img.segments[0 := img.segments[0].(data := Table(other))] == SelfRelocating(other).segments;
  }

  /**
   * That no slot's end overflows is not kept by edits of a relocation table: this page maps at every base, and
   * after an edit of its table the writer overflows away from the preferred base.
   */
  lemma EditCanOverflow(base: u64)
    ensures MapsAt(SelfRelocating(0x10), base)
    ensures Edited(SelfRelocating(0x10), 0, U64Bytes(Little, MAX_U64)) == Some(SelfRelocating(MAX_U64))
    ensures base != 0 ==> !MapsAt(SelfRelocating(MAX_U64), base)
  {
    hide Table, Geometry, U64Bytes, Relocations, NoSlotWraps, HeaderBlock, PlaceLoads;
    SelfGeometry(0x10);
    SelfGeometry(MAX_U64);
    SelfWraps(0x10);
    SelfWraps(MAX_U64);
    SelfRelocations(0x10);
    SelfEdit(0x10, MAX_U64);
  }
}
