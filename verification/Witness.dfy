/** When building succeeds, and one image that meets the hypotheses of all the laws at once. */
module Witness {
  import opened Arith
  import opened Bytes
  import opened Strings
  import opened Headers
  import opened Images
  import opened Layout
  import opened FileLayout
  import opened RoundTrip
  import opened FixedPoint
  import opened Reloc
  import opened Rebase
  import opened Edit
  import opened Mapped
  import opened MappedLaws
  import opened EditMapped
  import opened FileMapped
  import opened PointerLaws

  // ---------------------------------------------------------------- when building succeeds

  /** The most room the first `k` items can take: their bytes, and an alignment gap before each. */
  function Room(items: seq<Item>, k: nat): nat
    requires k <= |items|
  {
    if k == 0 then 0 else Room(items, k - 1) + items[k - 1].align + |items[k - 1].bytes|
  }

  lemma GapIsShort(cursor: nat, vaddr: nat, alignment: nat)
    ensures Congruent(cursor, vaddr, alignment) <= cursor + alignment
  {
  }

  lemma {:induction false} CursorInRoom(items: seq<Item>, start: nat, k: nat)
    requires k <= |items|
    ensures Cursor(items, start, k) <= start + Room(items, k)
  {
    hide Congruent;
    if k > 0 {
      CursorInRoom(items, start, k - 1);
      GapIsShort(Cursor(items, start, k - 1), items[k - 1].residue, items[k - 1].align);
    }
  }

  /** An upper bound on the length of the file, from sizes and alignments alone. */
  function Bound(img: ElfImage): nat {
    MulNonNeg(|Secs(img)|, ShdrSize(img.ident.cls));
    SegStart(img) + Room(SegItems(img.segments), |img.segments|) + Room(SecItems(Secs(img)), |Secs(img)|)
    + 8 + |Secs(img)| * ShdrSize(img.ident.cls)
  }

  /** Building succeeds whenever contents and alignments are small enough and the tables have room. */
  lemma SmallImagesBuild(img: ElfImage)
    requires img.header.ident.cls == img.ident.cls
    requires Bound(img) <= MAX_IMAGE && |img.segments| <= MAX_U16 && |Secs(img)| <= MAX_U16
    ensures Built(img).Ok? && FileEnd(img) <= Bound(img)
  {
    hide FileBytes, Congruent, Cursor, Room, Secs;
    CursorInRoom(SegItems(img.segments), SegStart(img), |img.segments|);
    CursorInRoom(SecItems(Secs(img)), SegEnd(img), |Secs(img)|);
    GapIsShort(SecEnd(img), 0, 8);
  }

  // ---------------------------------------------------------------- a page with two pointers

  const IDENT: ElfIdent := ElfIdent(Elf32, Little, 1, 0, 0)
  const POINTERS: seq<u8> := [0xFF, 0xFF, 0xFF, 0xFF, 0, 0, 0, 0, 0, 0, 0, 0]
  const PAGE: seq<u8> := Zeros(0x800) + POINTERS

  const LOAD: Segment :=
    Segment(ProgramHeader(PT_LOAD, 6, 0, 0x40_0000, 0x40_0000, 0x80C, 0x1000, 0x1000), PAGE)
  const DATA: Section := Section(SectionHeader(0, 1, 3, 0x40_0800, 0, 12, 0, 0, 4, 0), Ascii(".data"), POINTERS)

  /** Relative entries for the pointers at `0x800` and at `second`. */
  function Entries(second: nat): seq<RelocationEntry>
    requires second < 0x1000
  {
    [RelocationEntry(0x40_0800, 0, 8, Some(0)), RelocationEntry(0x40_0000 + second, 0, 8, Some(0))]
  }

  function Rela(second: nat): Section
    requires second < 0x1000
  {
    Section(SectionHeader(0, SHT_RELA, 0, 0, 0, 24, 0, 0, 4, 12), Ascii(".rela.dyn"),
            Flat(EntryParts(Entries(second), Little, Elf32)))
  }

  /** A 32-bit page of data, seen as a load and as a section, with two Relative pointers. */
  function Page(second: nat): ElfImage
    requires second < 0x1000
  {
    ElfImage(IDENT, ElfHeader(IDENT, Dyn, EM_386, 1, 0x40_0000, 0, 0, 0, 0, 0, 0, 0, 0, 0), [LOAD],
             [DATA, Rela(second)], 0)
  }

  // ---------------------------------------------------------------- it builds

  lemma RelaLength(second: nat)
    requires second < 0x1000
    ensures |Rela(second).data| == 24
  {
    hide EntryBytes;
    FlatLength(EntryParts(Entries(second), Little, Elf32), 12);
  }

  lemma BlobOfThree(a: seq<u8>, b: seq<u8>, c: seq<u8>)
    ensures |Blob([a, b, c])| == 4 + |a| + |b| + |c|
  {
    assert [a, b, c][..2] == [a, b] && [a, b][..1] == [a] && [a][..0] == [];
    assert Blob([]) == [0];
    assert Blob([a]) == [0] + a + [0];
    assert |Blob([a, b])| == 3 + |a| + |b|;
  }

  lemma PageSections(second: nat)
    requires second < 0x1000
    ensures var secs := Secs(Page(second));
            && |secs| == 3
            && SecItem(secs[0]) == Item(0, 4, POINTERS) && SecItem(secs[1]) == Item(0, 4, Rela(second).data)
            && SecItem(secs[2]).align == 1 && |SecItem(secs[2]).bytes| == 27
  {
    hide Blob, NameOffset, Rela, Flat;
    var rela := Rela(second);
    RelaIs(second);
    assert DATA.header.kind != SHT_STRTAB;
    var all := [DATA, rela, NEW_SHSTRTAB];
    assert Ensured([DATA, rela]) == all;
    assert Secs(Page(second)) == Named(all);
    assert Names(all) == [Ascii(".data"), Ascii(".rela.dyn"), SHSTRTAB];
    BlobOfThree(Ascii(".data"), Ascii(".rela.dyn"), SHSTRTAB);
  }

  lemma RelaIs(second: nat)
    requires second < 0x1000
    ensures Rela(second).header == SectionHeader(0, SHT_RELA, 0, 0, 0, 24, 0, 0, 4, 12)
    ensures Rela(second).name == Ascii(".rela.dyn")
  {
    hide Flat, EntryParts;
  }

  lemma RoomOfOne(items: seq<Item>)
    requires |items| == 1
    ensures Room(items, 1) == items[0].align + |items[0].bytes|
  {
    assert Room(items, 0) == 0;
  }

  lemma RoomOfThree(items: seq<Item>)
    requires |items| == 3
    ensures Room(items, 3) == items[0].align + |items[0].bytes| + items[1].align + |items[1].bytes|
                              + items[2].align + |items[2].bytes|
  {
    assert Room(items, 0) == 0;
    assert Room(items, 1) == items[0].align + |items[0].bytes|;
    assert Room(items, 2) == Room(items, 1) + items[1].align + |items[1].bytes|;
  }

  lemma PageBuilds(second: nat)
    requires second < 0x1000
    ensures Built(Page(second)).Ok?
  {
    hide FileBytes, Congruent, Cursor, Secs, SecItem, Room, Rela, Flat;
    PageSections(second);
    RelaLength(second);
    var img := Page(second);
    var segs, secs := SegItems(img.segments), SecItems(Secs(img));
    assert segs[0].align == 0x1000 && |segs[0].bytes| == 0x80C;
    RoomOfOne(segs);
    RoomOfThree(secs);
    SmallImagesBuild(img);
  }

  lemma PageIsText(second: nat)
    requires second < 0x1000
    ensures var img := Page(second); OneIdent(img) && TextNames(img) && Fits(img) && Canonical(img)
  {
    hide Flat, EntryParts, Rela, ValidUtf8, NulFree;
    RelaIs(second);
    AsciiIsUtf8(Ascii(".data"));
    AsciiIsUtf8(Ascii(".rela.dyn"));
    AsciiNulFree(".data");
    AsciiNulFree(".rela.dyn");
  }

  lemma AsciiNulFree(s: string)
    requires forall i :: 0 <= i < |s| ==> 0 < s[i] as int < 0x80
    ensures NulFree(Ascii(s))
  {
  }

  // ---------------------------------------------------------------- it maps

  lemma OneLoad(l: Load)
    requires l.memsz > 0 && l.align == 0x1000
    ensures PageOf([l]) == 0x1000 && MinVaddr([l]) == Some(l.vaddr) && MaxEnd([l]) == l.End()
  {
    assert [l][..0] == [];
    assert PageOf([]) == 0x1000 && MinVaddr([]) == None && MaxEnd([]) == 0;
  }

  lemma Aligned(v: u64, page: u64)
    requires page > 1 && v % page == 0
    ensures AlignUp(v, page) == v
  {
  }

  /** The geometry of one page-sized load at page `q`. */
  lemma OnePage(loads: seq<Load>, q: nat)
    requires q < 0x1000 && loads == [Load(q * 0x1000, 0x1000, 0x1000)]
    ensures GeometryOf(loads) == ImageGeometry(q * 0x1000, 0x1000, 0x1000)
  {
    hide AlignUp;
    OneLoad(loads[0]);
    ModIs(q * 0x1000, 0x1000, q, 0);
    ModIs(q * 0x1000 + 0x1000, 0x1000, q + 1, 0);
    Aligned(q * 0x1000 + 0x1000, 0x1000);
  }

  lemma PageGeometry(second: nat)
    requires second < 0x1000
    ensures ImageBase(Page(second)) == 0x40_0000 && ImageSpan(Page(second)) == 0x1000
  {
    hide GeometryOf, Rela;
    var hs := HeadersOf([LOAD]);
    assert hs == [LOAD.header] && hs[..0] == [];
    assert LoadsOf([]) == [];
    OnePage(LoadsOf(hs), 0x400);
  }

  lemma PageMaps(second: nat)
    requires second < 0x1000
    ensures var img := Page(second); Readable(img) && Maps(img) && |HeaderBlock(img)| == 84
  {
    hide FileBytes, EhdrBytes, Flat, Geometry, PlaceLoads, HeaderBlock, Rela;
    PageGeometry(second);
    BlockLength(Page(second));
  }

  /** The pointers in the loader image. */
  lemma PageByte(second: nat, p: nat)
    requires second < 0x1000 && 0x800 <= p < 0x80C
    ensures Maps(Page(second)) && |MappedAtHome(Page(second)).value| == 0x1000
    ensures MappedAtHome(Page(second)).value[p] == POINTERS[p - 0x800]
  {
    hide HeaderBlock, PlaceLoads, Geometry, MappedAtHome, Rela;
    var img := Page(second);
    PageMaps(second);
    PageGeometry(second);
    SpanIsLength(img);
    MappedByte(img, p);
    assert img.segments == [LOAD];
    assert Writes(LOAD, 0x40_0000, p);
    assert LOAD.data[p] == POINTERS[p - 0x800];
  }

  // ---------------------------------------------------------------- its relocations

  lemma PageRelocations(second: nat)
    requires second < 0x1000
    ensures Relocations(Page(second)) == Ok([RelocationSection(Entries(second), true)])
  {
    hide TableParsed, Flat, EntryParts, KeptEntry, Entries, Rela;
    var img := Page(second);
    RelaIs(second);
    RelaTable(second);
    assert RelocTables(img, 0) == Ok([]) && RelocTables(img, 1) == Ok([]);
    assert [] + [RelocationSection(Entries(second), true)] == [RelocationSection(Entries(second), true)];
  }

  lemma RelaTable(second: nat)
    requires second < 0x1000
    ensures TableParsed(Rela(second).data, true, Little, Elf32) == Ok(RelocationSection(Entries(second), true))
  {
    hide TableParsed, Flat, EntryParts, KeptEntry;
    var entries := Entries(second);
    RelaRoundTrip(entries, Little, Elf32);
    KeptExactly(Elf32, entries[0]);
    KeptExactly(Elf32, entries[1]);
    assert KeptEntries(Elf32, entries) == entries;
  }

  lemma PageSlots(second: nat)
    requires second <= 0xFFC
    ensures Relocations(Page(second)).Ok?
    ensures Slots(Page(second), Relocations(Page(second)).value, 0x1000) == [Slot(0x800, 4), Slot(second, 4)]
    ensures NoSlotWraps(Page(second))
  {
    hide Relocations, Geometry, Rela;
    PageRelocations(second);
    PageGeometry(second);
    var entries := Entries(second);
    assert EntrySlots(entries, EM_386, 0x40_0000, 0x1000, 0) == [];
    assert EntrySlots(entries, EM_386, 0x40_0000, 0x1000, 1) == [Slot(0x800, 4)];
    assert EntrySlots(entries, EM_386, 0x40_0000, 0x1000, 2) == [Slot(0x800, 4), Slot(second, 4)];
    var tables := [RelocationSection(entries, true)];
    assert TableSlots(tables, EM_386, 0x40_0000, 0x1000, 0) == [];
    assert [] + [Slot(0x800, 4), Slot(second, 4)] == [Slot(0x800, 4), Slot(second, 4)];
  }

  lemma PageMoves(second: nat, i: nat, j: nat, s: Slot)
    requires second <= 0xFFC
    ensures MovesAt(Page(second), [RelocationSection(Entries(second), true)], 0x1000, i, j, s)
            <==> i == 0 && ((j == 0 && s == Slot(0x800, 4)) || (j == 1 && s == Slot(second, 4)))
  {
    hide Geometry, Rela;
    PageGeometry(second);
  }

  /** The page's first pointer is moved by its entry alone, and between the pointers nothing is moved. */
  lemma PointersApart()
    ensures Relocations(Page(0x808)).Ok?
    ensures var img, tables := Page(0x808), Relocations(Page(0x808)).value;
            && OnlyMover(img, tables, 0x1000, 0, 0, Slot(0x800, 4)) && Unmoved(img, tables, 0x1000, 0x804, 4)
  {
    hide MovesAt, Relocations, Entries;
    PageRelocations(0x808);
    forall i: nat, j: nat, s
      ensures MovesAt(Page(0x808), [RelocationSection(Entries(0x808), true)], 0x1000, i, j, s)
              <==> i == 0 && ((j == 0 && s == Slot(0x800, 4)) || (j == 1 && s == Slot(0x808, 4)))
    {
      PageMoves(0x808, i, j, s);
    }
  }

  // ---------------------------------------------------------------- the hypotheses

  /** The image has exactly these relocation slots. */
  ghost predicate HasSlots(img: ElfImage, slots: seq<Slot>) {
    Relocations(img).Ok? && Slots(img, Relocations(img).value, ImageSpan(img)) == slots
  }

  /** The edit reaches a load and a section past the headers, and no relocation table. */
  ghost predicate EditsBothViews(img: ElfImage, ioff: u64, d: seq<u8>) {
    && Edited(img, ioff, d).Some? && ioff >= |HeaderBlock(img)|
    && var vaddr := Target(img, ioff, d).value.0;
       SparesTables(img, vaddr, d)
       && exists i :: 0 <= i < |img.sections| && SectionStart(img.sections[i], vaddr, d).Some?
  }

  /**
   * One image meets the hypotheses of the laws together: the round trips and fixed points, the loader view, the
   * rebasing laws with two slots, the edit laws with an edit that reaches a load and a section past the headers
   * and no slot, and loading from the file.
   */
  lemma HypothesesAreMet(base: u64)
    ensures var img := Page(0x808);
            && Built(img).Ok? && OneIdent(img) && TextNames(img) && Fits(img) && Canonical(img)
            && Readable(img) && MapsAt(img, base) && LoadsGoWhole(img) && SlotsClearHeaders(img)
            && DataWithinMemory(img.segments) && LoadsDisjoint(img.segments) && LoadsEnd(img) && OthersInside(img)
            && HasSlots(img, [Slot(0x800, 4), Slot(0x808, 4)]) && AllCompatible([Slot(0x800, 4), Slot(0x808, 4)])
    ensures EditsBothViews(Page(0x808), 0x804, [0x90]) && SlotsClear([Slot(0x800, 4), Slot(0x808, 4)], 0x804, 1)
  {
    hide Built, Readable, LoadsStartInside, Geometry, TextNames, Fits, Canonical, Rela, HeaderBlock,
         Relocations, TableSlots, MappedAtHome, NoSlotWraps, EditsBothViews;
    PageBuilds(0x808);
    PageIsText(0x808);
    PageMaps(0x808);
    PageGeometry(0x808);
    PageSlots(0x808);
    PageEdit(0x808);
  }

  lemma PageEdit(second: nat)
    requires second < 0x1000
    ensures EditsBothViews(Page(second), 0x804, [0x90])
  {
    hide Geometry, CoveringLoad, Rela, HeaderBlock;
    PageGeometry(second);
    PageMaps(second);
    RelaIs(second);
    var img := Page(second);
    assert img.segments[0].IsLoad() && img.segments[0].ContainsVaddr(0x40_0804);
    assert CoveringLoad(img.segments, 0x40_0804) == Some(0);
    assert SectionStart(img.sections[0], 0x40_0804, [0x90]).Some?;
  }
}
