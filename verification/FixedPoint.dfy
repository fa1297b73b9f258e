/** Rebuilding what was parsed from a built file: exactly when it reproduces the file byte for byte. */
module FixedPoint {
  import opened Arith
  import opened Bytes
  import opened Strings
  import opened Headers
  import opened Images
  import opened Layout
  import opened FileLayout
  import opened Parse
  import opened RoundTrip

  /** Every field that building keeps fits the width the class gives it. */
  ghost predicate Fits(img: ElfImage) {
    img.ident.cls.Elf64?
    || (&& img.header.entry < TWO_32
        && (forall i :: 0 <= i < |img.segments| ==>
              var h := img.segments[i].header;
              h.vaddr < TWO_32 && h.paddr < TWO_32 && h.memsz < TWO_32 && h.align < TWO_32)
        && (forall i :: 0 <= i < |img.sections| ==> FitsSection(img.sections[i])))
  }

  predicate FitsSection(s: Section) {
    var h := s.header;
    h.flags < TWO_32 && h.addr < TWO_32 && h.addralign < TWO_32 && h.entsize < TWO_32
    && (h.IsNobits() ==> h.size < TWO_32)
    && (h.IsNobits() || s.data == [] ==> h.offset < TWO_32)
  }

  /** No unused header carries bytes to the file, and no section name hides bytes behind a NUL. */
  ghost predicate Canonical(img: ElfImage) {
    && (forall i :: 0 <= i < |img.segments| ==>
          img.segments[i].header.kind == PT_NULL ==> Writable(img.segments[i]) == 0)
    && (forall i :: 0 <= i < |img.sections| ==> NulFree(img.sections[i].name))
  }

  /**
   * The class's width moves nothing: every written segment and section is placed where the stored address and
   * alignment put it as well.
   */
  ghost predicate KeepsPlaces(img: ElfImage) {
    && (forall i :: 0 <= i < |img.segments| && Writable(img.segments[i]) > 0 ==>
          SegmentKeepsPlace(img.ident.cls, img.segments[i], Cursor(SegItems(img.segments), SegStart(img), i)))
    && (forall i :: 0 <= i < |Secs(img)| && SecItem(Secs(img)[i]).bytes != [] ==>
          SectionKeepsPlace(img.ident.cls, Secs(img)[i], Cursor(SecItems(Secs(img)), SegEnd(img), i)))
  }

  predicate SegmentKeepsPlace(c: ElfClass, s: Segment, cursor: nat) {
    s.IsLoad() ==>
      Congruent(cursor, Stored(c, s.header.vaddr), Max(Stored(c, s.header.align), 1))
      == Congruent(cursor, s.header.vaddr, Max(s.header.align, 1))
  }

  predicate SectionKeepsPlace(c: ElfClass, s: Section, cursor: nat) {
    Congruent(cursor, 0, Max(Stored(c, s.header.addralign), 1)) == Congruent(cursor, 0, Max(s.header.addralign, 1))
  }

  // ---------------------------------------------------------------- layouts with the same places

  /** `ys` are the bytes of `xs`, perhaps with other addresses and alignments. */
  ghost predicate SameBytes(xs: seq<Item>, ys: seq<Item>) {
    |xs| == |ys| && forall i :: 0 <= i < |xs| ==> ys[i].bytes == xs[i].bytes
  }

  /** The items of `ys` go where those of `xs` go. */
  ghost predicate SamePlaces(xs: seq<Item>, ys: seq<Item>, start: nat) {
    SameBytes(xs, ys)
    && forall i :: 0 <= i < |xs| && xs[i].bytes != [] ==>
         Place(Cursor(xs, start, i), ys[i]) == Place(Cursor(xs, start, i), xs[i])
  }

  lemma {:induction false} SameLayout(xs: seq<Item>, ys: seq<Item>, start: nat, k: nat)
    requires SamePlaces(xs, ys, start) && k <= |xs|
    ensures Cursor(ys, start, k) == Cursor(xs, start, k) && Body(ys, start, k) == Body(xs, start, k)
  {
    hide Place;
    if k > 0 {
      SameLayout(xs, ys, start, k - 1);
    }
  }

  /** Equal offsets mean equal places. */
  lemma {:induction false} PlacesFromOffsets(xs: seq<Item>, ys: seq<Item>, start: nat, k: nat)
    requires SameBytes(xs, ys) && k <= |xs|
    requires forall i :: 0 <= i < |xs| && xs[i].bytes != [] ==> OffsetOf(ys, start, i) == OffsetOf(xs, start, i)
    ensures Cursor(ys, start, k) == Cursor(xs, start, k)
  {
    hide Place, OffsetOf, Body, Cursor;
    if k == 0 {
      CursorZero(xs, start);
      CursorZero(ys, start);
    } else {
      PlacesFromOffsets(xs, ys, start, k - 1);
      Step(xs, start, k - 1);
      Step(ys, start, k - 1);
    }
  }

  lemma OffsetsAreSame(xs: seq<Item>, ys: seq<Item>, start: nat)
    requires SameBytes(xs, ys)
    requires forall i :: 0 <= i < |xs| && xs[i].bytes != [] ==> OffsetOf(ys, start, i) == OffsetOf(xs, start, i)
    ensures SamePlaces(xs, ys, start)
  {
    hide Place, Cursor, OffsetOf;
    forall i | 0 <= i < |xs| && xs[i].bytes != []
      ensures Place(Cursor(xs, start, i), ys[i]) == Place(Cursor(xs, start, i), xs[i])
    {
      PlacesFromOffsets(xs, ys, start, i);
      OffsetIsPlace(xs, start, i);
      OffsetIsPlace(ys, start, i);
    }
  }

  // ---------------------------------------------------------------- stored headers are written alike

  lemma StoredWord(c: ElfClass, e: Endian, v: u64)
    ensures WordBytes(c, e, Stored(c, v)) == WordBytes(c, e, v)
    ensures c.Elf32? ==> Low32(Stored(c, v)) == Low32(v)
  {
    hide U32Bytes, U64Bytes, Low32;
    LowTwice(v);
  }

  lemma LowTwice(v: nat)
    ensures Low32(Low32(v)) == Low32(v)
  {
    ModIs(v % TWO_32, TWO_32, 0, v % TWO_32);
  }

  lemma StoredPhdrBytes(h: ProgramHeader, e: Endian, c: ElfClass)
    ensures PhdrBytes(StoredPhdr(c, h), e, c) == PhdrBytes(h, e, c)
  {
    hide U32Bytes, U64Bytes, Low32, Stored;
    StoredWord(c, e, h.offset);
    StoredWord(c, e, h.vaddr);
    StoredWord(c, e, h.paddr);
    StoredWord(c, e, h.filesz);
    StoredWord(c, e, h.memsz);
    StoredWord(c, e, h.align);
    StoredWide(c, h);
  }

  lemma StoredWide(c: ElfClass, h: ProgramHeader)
    ensures c.Elf64? ==> StoredPhdr(c, h) == h
  {
  }

  lemma StoredShdrBytes(h: SectionHeader, e: Endian, c: ElfClass)
    ensures ShdrBytes(StoredShdr(c, h), e, c) == ShdrBytes(h, e, c)
  {
    hide U32Bytes, WordBytes, Stored;
    StoredWord(c, e, h.flags);
    StoredWord(c, e, h.addr);
    StoredWord(c, e, h.offset);
    StoredWord(c, e, h.size);
    StoredWord(c, e, h.addralign);
    StoredWord(c, e, h.entsize);
  }

  // ---------------------------------------------------------------- segments of the normal form

  /** A segment of the normal form carries the same bytes, under the stored address and alignment. */
  lemma NormalSegItem(img: ElfImage, i: nat)
    requires FileEnd(img) <= MAX_IMAGE && Canonical(img) && i < |img.segments|
    ensures Writable(NormalSegments(img)[i]) == Writable(img.segments[i])
    ensures SegItem(NormalSegments(img)[i]).bytes == SegItem(img.segments[i]).bytes
  {
    hide FileEnd, Congruent, Cursor, SegStart;
    PhdrFields(img, i);
  }

  lemma NormalPlace(img: ElfImage, i: nat, c: nat)
    requires i < |img.segments|
    ensures Place(c, SegItem(NormalSegments(img)[i])) == Place(c, SegItem(img.segments[i]))
            <==> SegmentKeepsPlace(img.ident.cls, img.segments[i], c)
  {
    hide Congruent, Cursor, SegStart, Stored;
    UnalignedPlace(c, NormalPhdrs(img)[i].vaddr);
    UnalignedPlace(c, img.segments[i].header.vaddr);
  }

  lemma UnalignedPlace(c: nat, vaddr: u64)
    ensures Congruent(c, vaddr, 1) == c
  {
  }

  lemma SegmentBytesKept(img: ElfImage)
    requires FileEnd(img) <= MAX_IMAGE && Canonical(img)
    ensures SameBytes(SegItems(img.segments), SegItems(Normal(img).segments))
    ensures SegStart(Normal(img)) == SegStart(img)
  {
    hide FileEnd, Canonical, SegItem, BuiltHeader, NormalSections, Geometry;
    forall i | 0 <= i < |img.segments|
      ensures SegItem(Normal(img).segments[i]).bytes == SegItem(img.segments[i]).bytes
    {
      NormalSegItem(img, i);
    }
  }

  /** The segments are placed alike exactly when the class's width moves none of them. */
  lemma SegmentPlaces(img: ElfImage)
    requires FileEnd(img) <= MAX_IMAGE && Canonical(img)
    ensures SamePlaces(SegItems(img.segments), SegItems(Normal(img).segments), SegStart(img))
            <==> forall i :: 0 <= i < |img.segments| && Writable(img.segments[i]) > 0 ==>
                   SegmentKeepsPlace(img.ident.cls, img.segments[i], Cursor(SegItems(img.segments), SegStart(img), i))
  {
    hide FileEnd, Canonical, BuiltHeader, NormalSections, Geometry, Place, Cursor, SegmentKeepsPlace, SegStart, SegItem,
         NormalPhdrs;
    SegmentBytesKept(img);
    var xs := SegItems(img.segments);
    forall i | 0 <= i < |img.segments|
      ensures var c := Cursor(xs, SegStart(img), i);
              Place(c, SegItem(Normal(img).segments[i])) == Place(c, xs[i])
              <==> SegmentKeepsPlace(img.ident.cls, img.segments[i], c)
      ensures xs[i].bytes != [] <==> Writable(img.segments[i]) > 0
    {
      NormalPlace(img, i, Cursor(xs, SegStart(img), i));
      WrittenIs(img.segments[i]);
    }
  }

  /** A program header of the normal form is placed as the stored form of the image's. */
  lemma PhdrRebuilt(img: ElfImage, i: nat)
    requires FileEnd(img) <= MAX_IMAGE && Canonical(img) && i < |img.segments|
    requires SamePlaces(SegItems(img.segments), SegItems(Normal(img).segments), SegStart(img))
    ensures Phdrs(Normal(img))[i] == StoredPhdr(img.ident.cls, Phdrs(img)[i])
  {
    hide FileEnd, Canonical, BuiltHeader, NormalSections, Geometry, Place, Cursor, SegStart, Body;
    SegmentBytesKept(img);
    NormalSegItem(img, i);
    PhdrFields(img, i);
    SameLayout(SegItems(img.segments), SegItems(Normal(img).segments), SegStart(img), i);
    if Writable(img.segments[i]) > 0 {
      OffsetIsPlace(SegItems(img.segments), SegStart(img), i);
      SmallIsStored(img.ident.cls, OffsetOf(SegItems(img.segments), SegStart(img), i));
    }
  }

  lemma PhdrTableRebuilt(img: ElfImage)
    requires FileEnd(img) <= MAX_IMAGE && Canonical(img)
    requires SamePlaces(SegItems(img.segments), SegItems(Normal(img).segments), SegStart(img))
    ensures PhdrTable(Normal(img)) == PhdrTable(img)
  {
    hide FileEnd, Canonical, BuiltHeader, NormalSegments, NormalSections, Geometry, SamePlaces, Phdrs, PhdrBytes,
         StoredPhdr, SegStart, Flat;
    var n, c, e := Normal(img), img.ident.cls, img.ident.data;
    assert |n.segments| == |img.segments|;
    forall i | 0 <= i < |img.segments| ensures PhdrBytes(Phdrs(n)[i], e, c) == PhdrBytes(Phdrs(img)[i], e, c) {
      PhdrRebuilt(img, i);
      StoredPhdrBytes(Phdrs(img)[i], e, c);
    }
    assert PhdrParts(Phdrs(n), e, c) == PhdrParts(Phdrs(img), e, c);
  }

  // ---------------------------------------------------------------- sections of the normal form

  lemma {:induction false} SameIndex(xs: seq<Section>, ys: seq<Section>)
    requires |xs| == |ys| && forall i :: 0 <= i < |xs| ==> IsShstrtab(xs[i]) == IsShstrtab(ys[i])
    ensures ShstrtabIndex(xs) == ShstrtabIndex(ys)
  {
    hide IsShstrtab;
    if xs != [] && !IsShstrtab(xs[0]) {
      SameIndex(xs[1..], ys[1..]);
    }
  }

  /** The names of the normal form are those of the image cut at NULs, and its name table is where it was. */
  lemma NormalNames(img: ElfImage)
    requires img.sections != []
    ensures var n := Normal(img);
            && |n.sections| == |Secs(img)| > 0 && Ensured(n.sections) == n.sections && |Secs(n)| == |Secs(img)|
            && Names(Secs(n)) == Names(n.sections)
            && (forall i :: 0 <= i < |n.sections| ==> Names(n.sections)[i] == CStr(Names(Secs(img))[i]))
    ensures var k := ShstrtabIndex(Ensured(img.sections));
            k.Some? && k.value < |Normal(img).sections| && IsShstrtab(Normal(img).sections[k.value])
  {
    hide Blob, CStr, NulFree, NamedSection, PlacedShdr, Cursor, BuiltHeader, Geometry, NormalPhdrs, NormalSegments;
    var n := Normal(img);
    NameTableSection(img);
    ShoffPositive(img);
    var k := ShstrtabIndex(Ensured(img.sections)).value;
    SecIs(img, k);
    ShstrtabIsText();
    KindKept(img, k);
    assert IsShstrtab(n.sections[k]);
    SecIs(n, 0);
  }

  lemma ShstrtabIsText()
    ensures CStr(SHSTRTAB) == SHSTRTAB
  {
    hide CStr, Ascii;
    AsciiIsText(".shstrtab");
  }

  lemma KindKept(img: ElfImage, i: nat)
    requires i < |Secs(img)|
    ensures NormalSections(img)[i].header.kind == Ensured(img.sections)[i].header.kind
    ensures NormalSections(img)[i].name == CStr(Ensured(img.sections)[i].name)
  {
    hide Blob, CStr, Secs, Cursor, Ensured, Place;
    SecIs(img, i);
  }

  lemma NameRebuilt(img: ElfImage, i: nat)
    requires Canonical(img) && img.sections != [] && i < |Secs(img)|
    ensures |Ensured(img.sections)| == |Secs(img)|
    ensures NormalSections(img)[i].name == Secs(img)[i].name == Ensured(img.sections)[i].name
    ensures IsShstrtab(NormalSections(img)[i]) == IsShstrtab(Ensured(img.sections)[i])
  {
    hide Blob, CStr, Secs, Ensured, NameOffset, NormalSections, Canonical;
    SecIs(img, i);
    KindKept(img, i);
    EnsuredNulFree(img, i);
    CStrIsName(Ensured(img.sections)[i].name);
  }

  /** With NUL-free names nothing about the names changes. */
  lemma NamesRebuilt(img: ElfImage)
    requires Canonical(img) && img.sections != []
    ensures var n := Normal(img);
            && Names(Secs(n)) == Names(Secs(img))
            && ShstrtabIndex(n.sections) == ShstrtabIndex(Ensured(img.sections))
    ensures forall i :: 0 <= i < |Secs(img)| ==>
              IsShstrtab(Normal(img).sections[i]) == IsShstrtab(Ensured(img.sections)[i])
              && Normal(img).sections[i].name == Secs(img)[i].name
  {
    hide Blob, CStr, BuiltHeader, Geometry, NormalPhdrs, NormalSegments, Secs, NormalSections, Ensured,
         IsShstrtab, Canonical, ShstrtabIndex;
    NormalNames(img);
    var n := Normal(img);
    SecIs(img, 0);
    forall i | 0 <= i < |Secs(img)|
      ensures n.sections[i].name == Secs(img)[i].name
      ensures IsShstrtab(n.sections[i]) == IsShstrtab(Ensured(img.sections)[i])
    {
      NameRebuilt(img, i);
    }
    SameIndex(n.sections, Ensured(img.sections));
    assert Names(Secs(n)) == Names(Secs(img));
  }

  lemma EnsuredNulFree(img: ElfImage, i: nat)
    requires Canonical(img) && i < |Ensured(img.sections)|
    ensures NulFree(Ensured(img.sections)[i].name)
  {
    hide ShstrtabIndex;
  }

  /** Section `i` of the normal form is prepared with the same bytes and the stored header. */
  lemma SectionRebuilt(img: ElfImage, i: nat)
    requires FileEnd(img) <= MAX_IMAGE && Canonical(img) && img.sections != [] && i < |Secs(img)|
    requires |Secs(Normal(img))| == |Secs(img)|
    ensures var n, s := Secs(Normal(img))[i], Secs(img)[i];
            && n.data == (if s.header.IsNobits() then [] else s.data)
            && n.header.(size := 0, offset := 0) == StoredShdr(img.ident.cls, s.header).(size := 0, offset := 0)
            && (s.header.IsNobits() || s.data == [] ==>
                  n.header.offset == StoredShdr(img.ident.cls, s.header).offset)
            && (s.header.IsNobits() ==> n.header.size == StoredShdr(img.ident.cls, s.header).size)
  {
    hide FileEnd, Cursor, SegEnd, Secs, Blob, Canonical, BuiltHeader, Geometry, NormalPhdrs, NormalSegments,
         Congruent, Ensured, NameOffset, CStr, IsShstrtab, ShstrtabIndex, Low32;
    var n := Normal(img);
    NormalNames(img);
    NamesRebuilt(img);
    SecIs(img, i);
    SecIs(n, i);
    ShdrFields(img, i);
    TablesHaveBytes(Ensured(img.sections)[i]);
  }

  lemma TablesHaveBytes(s: Section)
    ensures IsShstrtab(s) ==> !s.header.IsNobits()
  {
  }

  lemma NormalSecItem(img: ElfImage, i: nat)
    requires FileEnd(img) <= MAX_IMAGE && Canonical(img) && img.sections != [] && i < |Secs(img)|
    requires |Secs(Normal(img))| == |Secs(img)|
    ensures SecItem(Secs(Normal(img))[i]).bytes == SecItem(Secs(img)[i]).bytes
    ensures forall c: nat :: Place(c, SecItem(Secs(Normal(img))[i])) == Place(c, SecItem(Secs(img)[i]))
                             <==> SectionKeepsPlace(img.ident.cls, Secs(img)[i], c)
  {
    hide FileEnd, Secs, Canonical, Normal, Congruent, Stored;
    SectionRebuilt(img, i);
  }

  lemma SectionBytesKept(img: ElfImage)
    requires FileEnd(img) <= MAX_IMAGE && Canonical(img) && img.sections != []
    ensures SameBytes(SecItems(Secs(img)), SecItems(Secs(Normal(img))))
  {
    hide FileEnd, Secs, Canonical, Normal, SecItem, Ensured, ShstrtabIndex;
    NormalNames(img);
    forall i | 0 <= i < |Secs(img)| ensures SecItem(Secs(Normal(img))[i]).bytes == SecItem(Secs(img)[i]).bytes {
      NormalSecItem(img, i);
    }
  }

  lemma SectionPlaces(img: ElfImage)
    requires FileEnd(img) <= MAX_IMAGE && Canonical(img) && img.sections != []
    ensures SamePlaces(SecItems(Secs(img)), SecItems(Secs(Normal(img))), SegEnd(img))
            <==> forall i :: 0 <= i < |Secs(img)| && SecItem(Secs(img)[i]).bytes != [] ==>
                   SectionKeepsPlace(img.ident.cls, Secs(img)[i], Cursor(SecItems(Secs(img)), SegEnd(img), i))
  {
    hide FileEnd, Secs, Canonical, Normal, SecItem, Ensured, ShstrtabIndex, Place, Cursor, SectionKeepsPlace, SegEnd;
    SectionBytesKept(img);
    var xs := SecItems(Secs(img));
    forall i | 0 <= i < |Secs(img)|
      ensures var c := Cursor(xs, SegEnd(img), i);
              Place(c, SecItem(Secs(Normal(img))[i])) == Place(c, xs[i])
              <==> SectionKeepsPlace(img.ident.cls, Secs(img)[i], c)
    {
      NormalSecItem(img, i);
    }
  }

  /** A section header of the normal form is placed as the stored form of the image's. */
  lemma ShdrRebuilt(img: ElfImage, i: nat)
    requires FileEnd(img) <= MAX_IMAGE && Canonical(img) && img.sections != [] && i < |Secs(img)|
    requires SegEnd(Normal(img)) == SegEnd(img) && |Secs(Normal(img))| == |Secs(img)|
    requires SamePlaces(SecItems(Secs(img)), SecItems(Secs(Normal(img))), SegEnd(img))
    ensures Shdrs(Normal(img))[i] == StoredShdr(img.ident.cls, Shdrs(img)[i])
  {
    hide FileEnd, Secs, Canonical, Normal, Cursor, SegEnd, Place, Body;
    var xs, ys := SecItems(Secs(img)), SecItems(Secs(Normal(img)));
    SectionRebuilt(img, i);
    ShdrFields(img, i);
    SameLayout(xs, ys, SegEnd(img), i);
    if xs[i].bytes != [] {
      OffsetIsPlace(xs, SegEnd(img), i);
      SmallIsStored(img.ident.cls, OffsetOf(xs, SegEnd(img), i));
      SmallIsStored(img.ident.cls, |Secs(img)[i].data|);
    }
  }

  lemma ShdrTableRebuilt(img: ElfImage)
    requires FileEnd(img) <= MAX_IMAGE && Canonical(img) && img.sections != []
    requires SegEnd(Normal(img)) == SegEnd(img) && |Secs(Normal(img))| == |Secs(img)|
    requires SamePlaces(SecItems(Secs(img)), SecItems(Secs(Normal(img))), SegEnd(img))
    ensures ShdrTable(Normal(img)) == ShdrTable(img)
  {
    hide FileEnd, Canonical, BuiltHeader, NormalSegments, NormalSections, Geometry, SamePlaces, Shdrs, ShdrBytes,
         StoredShdr, SegEnd, Secs, Flat;
    var n, c, e := Normal(img), img.ident.cls, img.ident.data;
    forall i | 0 <= i < |Secs(img)| ensures ShdrBytes(Shdrs(n)[i], e, c) == ShdrBytes(Shdrs(img)[i], e, c) {
      ShdrRebuilt(img, i);
      StoredShdrBytes(Shdrs(img)[i], e, c);
    }
    assert ShdrParts(Shdrs(n), e, c) == ShdrParts(Shdrs(img), e, c);
  }

  // ---------------------------------------------------------------- the whole file

  /** The file header of the normal form is written with the same bytes. */
  lemma HeaderRebuilt(img: ElfImage, n: ElfImage)
    requires OneIdent(img) && n.ident == img.ident && n.header == StoredEhdr(BuiltHeader(img))
    requires |n.segments| == |img.segments| && |Secs(n)| == |Secs(img)|
    requires Shoff(n) == Shoff(img) && (n.sections == [] <==> img.sections == [])
    requires img.sections != [] ==> ShstrtabIndex(Ensured(n.sections)) == ShstrtabIndex(Ensured(img.sections))
    ensures EhdrBytes(BuiltHeader(n)) == EhdrBytes(BuiltHeader(img))
  {
    hide Secs, Shoff, Ensured, ShstrtabIndex, EhdrBytes, ElfTypeToU16, ElfTypeFromU16, U16OrZero, Sat, Stored,
         WordBytes;
    var a, b := BuiltHeader(n), BuiltHeader(img);
    TypeCode(b.elfType);
    StoredWord(img.ident.cls, img.ident.data, b.entry);
    SameHeaderBytes(a, b);
  }

  /** Decoding a type code and encoding it again changes nothing, whatever constructor held it. */
  lemma TypeCode(t: ElfType)
    ensures ElfTypeToU16(ElfTypeFromU16(ElfTypeToU16(t))) == ElfTypeToU16(t)
  {
  }

  /** Headers that differ in how they name the type and in what the class drops of two fields are written alike. */
  lemma SameHeaderBytes(a: ElfHeader, b: ElfHeader)
    requires a == b.(elfType := a.elfType, entry := a.entry, shoff := a.shoff)
    requires ElfTypeToU16(a.elfType) == ElfTypeToU16(b.elfType)
    requires WordBytes(b.ident.cls, b.ident.data, a.entry) == WordBytes(b.ident.cls, b.ident.data, b.entry)
    requires WordBytes(b.ident.cls, b.ident.data, a.shoff) == WordBytes(b.ident.cls, b.ident.data, b.shoff)
    ensures EhdrBytes(a) == EhdrBytes(b)
  {
    hide ElfTypeToU16, U16Bytes, U32Bytes, U64Bytes, WordBytes, IdentBytes;
  }

  lemma FileFromParts(a: ElfImage, b: ElfImage)
    requires a.ident == b.ident && |a.segments| == |b.segments|
    requires (a.sections == [] <==> b.sections == []) && |Secs(a)| == |Secs(b)|
    requires SegBody(a) == SegBody(b) && SecBody(a) == SecBody(b)
    requires SegEnd(a) == SegEnd(b) && SecEnd(a) == SecEnd(b)
    requires PhdrTable(a) == PhdrTable(b) && ShdrTable(a) == ShdrTable(b)
    requires EhdrBytes(BuiltHeader(a)) == EhdrBytes(BuiltHeader(b))
    ensures FileBytes(a) == FileBytes(b) && FileEnd(a) == FileEnd(b)
  {
    hide EhdrBytes, BuiltHeader, Secs, Congruent, SegBody, SecBody, PhdrTable, ShdrTable, SegEnd, SecEnd;
  }

  lemma SectionlessRebuilt(img: ElfImage)
    requires img.sections == []
    ensures Normal(img).sections == [] && Secs(Normal(img)) == [] && Secs(img) == []
    ensures ShdrTable(Normal(img)) == ShdrTable(img)
  {
    hide Cursor, NormalPhdrs, NormalSegments, BuiltHeader, Geometry;
  }

  /** The places of both views are kept. */
  ghost predicate BothKept(img: ElfImage) {
    && SamePlaces(SegItems(img.segments), SegItems(Normal(img).segments), SegStart(img))
    && SamePlaces(SecItems(Secs(img)), SecItems(Secs(Normal(img))), SegEnd(img))
  }

  lemma BothKeptIs(img: ElfImage)
    requires FileEnd(img) <= MAX_IMAGE && Canonical(img)
    ensures BothKept(img) <==> KeepsPlaces(img)
  {
    hide FileEnd, Canonical, Normal, SegStart, SegEnd, Secs, SegItems, SecItems, Cursor, Place, SegmentKeepsPlace,
         SectionKeepsPlace, Writable, SecItem;
    SegmentPlaces(img);
    if img.sections == [] {
      SectionlessRebuilt(img);
    } else {
      SectionPlaces(img);
    }
  }

  lemma SegmentsRebuilt(img: ElfImage)
    requires FileEnd(img) <= MAX_IMAGE && Canonical(img) && BothKept(img)
    ensures var n := Normal(img);
            && SegStart(n) == SegStart(img) && SegEnd(n) == SegEnd(img) && SegBody(n) == SegBody(img)
            && PhdrTable(n) == PhdrTable(img) && |n.segments| == |img.segments| && n.ident == img.ident
  {
    hide FileEnd, Canonical, SegStart, Secs, SegItems, SecItems, Cursor, Place, Body, PhdrTable, Geometry, BuiltHeader,
         NormalSections, NormalPhdrs;
    SegmentBytesKept(img);
    SameLayout(SegItems(img.segments), SegItems(Normal(img).segments), SegStart(img), |img.segments|);
    PhdrTableRebuilt(img);
  }

  lemma SectionsRebuilt(img: ElfImage)
    requires FileEnd(img) <= MAX_IMAGE && Canonical(img) && BothKept(img) && SegEnd(Normal(img)) == SegEnd(img)
    ensures var n := Normal(img);
            && |Secs(n)| == |Secs(img)| && (n.sections == [] <==> img.sections == [])
            && SecEnd(n) == SecEnd(img) && SecBody(n) == SecBody(img) && ShdrTable(n) == ShdrTable(img)
            && (img.sections != [] ==> ShstrtabIndex(Ensured(n.sections)) == ShstrtabIndex(Ensured(img.sections)))
  {
    hide FileEnd, Canonical, SegEnd, Secs, SegItems, Cursor, Place, Body, ShdrTable, Normal, Ensured, ShstrtabIndex,
         SecItem;
    if img.sections == [] {
      SectionlessRebuilt(img);
    } else {
      NormalNames(img);
      NamesRebuilt(img);
      SameLayout(SecItems(Secs(img)), SecItems(Secs(Normal(img))), SegEnd(img), |Secs(img)|);
      ShdrTableRebuilt(img);
    }
  }

  lemma NormalHeaderIs(img: ElfImage)
    ensures Normal(img).header == StoredEhdr(BuiltHeader(img))
  {
    hide BuiltHeader, NormalSegments, NormalSections, NormalPhdrs, Geometry, StoredEhdr;
  }

  /** A canonical image whose places are kept is built again from its normal form. */
  lemma CanonicalRebuilds(img: ElfImage)
    requires OneIdent(img) && Canonical(img) && KeepsPlaces(img) && Built(img).Ok?
    ensures Built(Normal(img)) == Built(img)
  {
    hide FileEnd, FileBytes, Canonical, Geometry, Secs, EhdrBytes, KeepsPlaces, BothKept, SegBody, SecBody, PhdrTable,
         ShdrTable, SegStart, SegEnd, SecEnd, BuiltHeader, Ensured, ShstrtabIndex, Normal;
    BothKeptIs(img);
    SegmentsRebuilt(img);
    SectionsRebuilt(img);
    NormalHeaderIs(img);
    HeaderRebuilt(img, Normal(img));
    FileFromParts(Normal(img), img);
  }

  /** Equal normal forms record equal offsets, so the places were kept. */
  lemma OffsetsRecorded(img: ElfImage)
    requires Built(img).Ok? && Built(Normal(img)).Ok? && Canonical(img) && Normal(Normal(img)) == Normal(img)
    ensures KeepsPlaces(img)
  {
    hide FileEnd, FileBytes, Canonical, Normal, Secs, SegItems, SecItems, SegStart, SegEnd, SamePlaces, KeepsPlaces,
         Built;
    BuiltIs(img);
    BuiltIs(Normal(img));
    SegmentOffsetsSame(img);
    SegmentsEndSame(img);
    if img.sections == [] {
      SectionlessRebuilt(img);
      assert SamePlaces(SecItems(Secs(img)), SecItems(Secs(Normal(img))), SegEnd(img)) by {
        NothingPlaced(SegEnd(img));
      }
    } else {
      SectionOffsetsSame(img);
    }
    BothKeptIs(img);
  }

  lemma NothingPlaced(start: nat)
    ensures SamePlaces(SecItems([]), SecItems([]), start)
  {
  }

  lemma SegmentOffsetsSame(img: ElfImage)
    requires FileEnd(img) <= MAX_IMAGE && FileEnd(Normal(img)) <= MAX_IMAGE
    requires Canonical(img) && Normal(Normal(img)) == Normal(img)
    ensures SamePlaces(SegItems(img.segments), SegItems(Normal(img).segments), SegStart(img))
  {
    hide FileEnd, Canonical, BuiltHeader, NormalSections, Geometry, NormalPhdrs, Cursor, SegStart, Place, SegItem,
         OffsetOf;
    var n := Normal(img);
    var xs, ys := SegItems(img.segments), SegItems(n.segments);
    SegmentBytesKept(img);
    forall i | 0 <= i < |xs| && xs[i].bytes != []
      ensures OffsetOf(ys, SegStart(img), i) == OffsetOf(xs, SegStart(img), i)
    {
      WrittenIs(img.segments[i]);
      NormalSegItem(img, i);
      PhdrFields(img, i);
      PhdrFields(n, i);
      assert Normal(n).segments[i].header == n.segments[i].header;
    }
    OffsetsAreSame(xs, ys, SegStart(img));
  }

  lemma WrittenIs(s: Segment)
    ensures SegItem(s).bytes != [] <==> Writable(s) > 0
  {
  }

  lemma SegmentsEndSame(img: ElfImage)
    requires FileEnd(img) <= MAX_IMAGE && Canonical(img)
    requires SamePlaces(SegItems(img.segments), SegItems(Normal(img).segments), SegStart(img))
    ensures SegEnd(Normal(img)) == SegEnd(img)
  {
    hide FileEnd, Canonical, BuiltHeader, NormalSections, Geometry, NormalPhdrs, Cursor, SegStart, SegItem,
         SamePlaces, Body;
    SegmentBytesKept(img);
    SameLayout(SegItems(img.segments), SegItems(Normal(img).segments), SegStart(img), |img.segments|);
  }

  lemma SectionOffsetsSame(img: ElfImage)
    requires FileEnd(img) <= MAX_IMAGE && FileEnd(Normal(img)) <= MAX_IMAGE && img.sections != []
    requires Canonical(img) && Normal(Normal(img)) == Normal(img) && SegEnd(Normal(img)) == SegEnd(img)
    ensures SamePlaces(SecItems(Secs(img)), SecItems(Secs(Normal(img))), SegEnd(img))
  {
    hide FileEnd, Canonical, Cursor, SegEnd, Place, OffsetOf, Secs, Normal;
    var n := Normal(img);
    var xs, ys := SecItems(Secs(img)), SecItems(Secs(n));
    SectionBytesKept(img);
    forall i | 0 <= i < |xs| && xs[i].bytes != []
      ensures OffsetOf(ys, SegEnd(img), i) == OffsetOf(xs, SegEnd(img), i)
    {
      ShdrFields(img, i);
      ShdrFields(n, i);
      SectionRebuilt(img, i);
      SectionHeadersAre(img, n, i);
    }
    OffsetsAreSame(xs, ys, SegEnd(img));
  }

  lemma SectionHeadersAre(img: ElfImage, n: ElfImage, i: nat)
    requires Normal(img) == Normal(n) && i < |Secs(img)|
    ensures |Secs(img)| == |Secs(n)| && NormalShdrs(img)[i] == NormalShdrs(n)[i]
  {
    hide Secs, NormalShdrs, NormalSegments, NormalPhdrs, BuiltHeader, Geometry, CStr;
    assert NormalSections(img)[i].header == NormalShdrs(img)[i];
    assert NormalSections(n)[i].header == NormalShdrs(n)[i];
  }

  // ---------------------------------------------------------------- the exact condition

  /** The normal form again has one identity and text names, so it too is recovered from what it builds. */
  lemma NormalIsWellFormed(img: ElfImage)
    requires OneIdent(img) && TextNames(img)
    ensures OneIdent(Normal(img)) && TextNames(Normal(img))
  {
    hide NormalPhdrs, NormalSegments, Geometry, Secs, ValidUtf8, CStr, NormalShdrs;
    forall i | 0 <= i < |Secs(img)| ensures ValidUtf8(Normal(img).sections[i].name) {
      SectionNameIsText(img, i);
      CStrIsName(Secs(img)[i].name);
    }
  }

  /** An unused header that carried bytes loses them, and the rebuilt header says so. */
  lemma NullLoses(img: ElfImage, i: nat)
    requires FileEnd(img) <= MAX_IMAGE && FileEnd(Normal(img)) <= MAX_IMAGE
    requires i < |img.segments| && img.segments[i].header.kind == PT_NULL && Writable(img.segments[i]) > 0
    ensures Normal(Normal(img)) != Normal(img)
  {
    hide FileEnd, Geometry, NormalPhdrs, NormalSections, BuiltHeader;
    PhdrFields(img, i);
    PhdrFields(Normal(img), i);
    assert NormalSegments(img)[i].data == [];
    assert NormalSegments(Normal(img))[i].header.filesz == 0;
    assert Normal(img).segments[i].header.filesz > 0;
  }

  /** A name with a NUL comes back shorter, and the rebuilt name table with it. */
  lemma NulLoses(img: ElfImage, i: nat)
    requires FileEnd(img) <= MAX_IMAGE && FileEnd(Normal(img)) <= MAX_IMAGE
    requires i < |img.sections| && !NulFree(img.sections[i].name)
    ensures Normal(Normal(img)) != Normal(img)
  {
    hide FileEnd, Geometry, NormalPhdrs, NormalSegments, BuiltHeader, NormalShdrs, Blob, Secs, CStr, NulFree,
         ShstrtabIndex;
    var n := Normal(img);
    NormalNames(img);
    NameTableSection(img);
    NameTableSection(n);
    var k := ShstrtabIndex(Ensured(img.sections)).value;
    ShstrtabSize(img, k);
    ShstrtabSize(n, k);
    BlobShrinks(Names(Secs(img)), Names(Secs(n)));
    SecIs(img, i);
    CStrIsName(img.sections[i].name);
    assert Names(Secs(img))[i] == img.sections[i].name;
    assert Normal(n).sections[k].header.size < n.sections[k].header.size;
  }

  /** A name table's recorded size is the blob's. */
  lemma ShstrtabSize(img: ElfImage, k: nat)
    requires FileEnd(img) <= MAX_IMAGE && k < |Secs(img)| && IsShstrtab(Ensured(img.sections)[k])
    ensures NormalSections(img)[k].header.size == |Blob(Names(Secs(img)))|
  {
    hide FileEnd, Blob, Secs, NormalShdrs, ShstrtabIndex, Ensured;
    SecIs(img, k);
    ShdrFields(img, k);
  }

  /**
   * The rebuild fixed point, exactly, for every image with one identity and text names: parsing its file and building
   * again gives the same bytes if and only if the image is canonical and the class's width moves nothing.
   */
  lemma RebuildFixedPoint(img: ElfImage)
    requires OneIdent(img) && TextNames(img) && Built(img).Ok?
    ensures Parsed(Built(img).value).Ok?
    ensures Built(Parsed(Built(img).value).value) == Built(img) <==> Canonical(img) && KeepsPlaces(img)
  {
    hide *;
    ParseInvertsBuild(img, []);
    assert Built(img).value + [] == Built(img).value;
    var n := Normal(img);
    if Built(n) == Built(img) {
      NormalIsWellFormed(img);
      ParseInvertsBuild(n, []);
      assert Normal(n) == n;
      if !Canonical(img) {
        NotCanonical(img);
      }
      OffsetsRecorded(img);
    } else if Canonical(img) && KeepsPlaces(img) {
      CanonicalRebuilds(img);
    }
  }

  /** Fields that fit the class move nothing; in ELF64 all do. */
  lemma FittingKeepsPlaces(img: ElfImage)
    requires Fits(img)
    ensures KeepsPlaces(img)
  {
    hide Congruent, Cursor, SegStart, SegEnd, Secs, Blob, Writable;
    forall i | 0 <= i < |Secs(img)|
      ensures Stored(img.ident.cls, Secs(img)[i].header.addralign) == Secs(img)[i].header.addralign
    {
      AlignFits(img, i);
    }
  }

  lemma AlignFits(img: ElfImage, i: nat)
    requires Fits(img) && i < |Secs(img)|
    ensures Stored(img.ident.cls, Secs(img)[i].header.addralign) == Secs(img)[i].header.addralign
  {
    hide Blob, ShstrtabIndex, Names;
    if img.ident.cls.Elf32? {
      assert FitsSection(Ensured(img.sections)[i]);
    }
  }

  /** An alignment that divides 2^32, as a power of two below it does. */
  predicate DividesWord(align: u64) { align <= 1 || (align < TWO_32 && TWO_32 % align == 0) }

  /** Alignments of this kind move nothing in ELF32, however large the addresses. */
  lemma PowersOfTwoKeepPlaces(img: ElfImage)
    requires forall i :: 0 <= i < |img.segments| && img.segments[i].IsLoad() ==>
               DividesWord(img.segments[i].header.align)
    requires forall i :: 0 <= i < |img.sections| ==> img.sections[i].header.addralign < TWO_32
    ensures KeepsPlaces(img)
  {
    hide Congruent, Cursor, SegStart, SegEnd, Secs, Blob, Writable, DividesWord, SegmentKeepsPlace;
    forall i | 0 <= i < |img.segments| && img.segments[i].IsLoad()
      ensures SegmentKeepsPlace(img.ident.cls, img.segments[i], Cursor(SegItems(img.segments), SegStart(img), i))
    {
      DividingKeepsPlace(img.ident.cls, img.segments[i], Cursor(SegItems(img.segments), SegStart(img), i));
    }
    forall i | 0 <= i < |img.segments| && !img.segments[i].IsLoad()
      ensures SegmentKeepsPlace(img.ident.cls, img.segments[i], Cursor(SegItems(img.segments), SegStart(img), i))
    {
      OthersKeepPlace(img.ident.cls, img.segments[i], Cursor(SegItems(img.segments), SegStart(img), i));
    }
    forall i | 0 <= i < |Secs(img)|
      ensures Stored(img.ident.cls, Secs(img)[i].header.addralign) == Secs(img)[i].header.addralign
    {
      AlignSmall(img, i);
    }
  }

  lemma OthersKeepPlace(c: ElfClass, s: Segment, cursor: nat)
    requires !s.IsLoad()
    ensures SegmentKeepsPlace(c, s, cursor)
  {
  }

  lemma AlignSmall(img: ElfImage, i: nat)
    requires i < |Secs(img)| && forall i :: 0 <= i < |img.sections| ==> img.sections[i].header.addralign < TWO_32
    ensures Stored(img.ident.cls, Secs(img)[i].header.addralign) == Secs(img)[i].header.addralign
  {
    hide Blob, ShstrtabIndex, Names;
    assert Ensured(img.sections)[i].header.addralign < TWO_32;
  }

  lemma DividingKeepsPlace(c: ElfClass, s: Segment, cursor: nat)
    requires DividesWord(s.header.align)
    ensures SegmentKeepsPlace(c, s, cursor)
  {
    hide Congruent;
    if c.Elf32? && s.header.align > 1 {
      TruncationKeepsResidue(s.header.vaddr, s.header.align);
      CongruentByResidue(cursor, Stored(c, s.header.vaddr), s.header.vaddr, s.header.align);
    } else {
      UnalignedPlace(cursor, Stored(c, s.header.vaddr));
      UnalignedPlace(cursor, s.header.vaddr);
    }
  }

  lemma CongruentByResidue(cursor: nat, v: nat, w: nat, align: nat)
    requires align > 0 && v % align == w % align
    ensures Congruent(cursor, v, align) == Congruent(cursor, w, align)
  {
  }

  lemma TruncationKeepsResidue(v: u64, align: u64)
    requires 1 < align < TWO_32 && TWO_32 % align == 0
    ensures Low32(v) % align == v % align
  {
    var q, k := v / TWO_32, TWO_32 / align;
    Euclid(TWO_32, align);
    assert v == Low32(v) + align * (k * q) by {
      assert align * (k * q) == (align * k) * q;
    }
    MulNonNeg(k, q);
    ModAddMultiple(Low32(v), align, k * q);
  }

  lemma NotCanonical(img: ElfImage)
    requires !Canonical(img) && Built(img).Ok? && Built(Normal(img)).Ok?
    ensures Normal(Normal(img)) != Normal(img)
  {
    hide Normal, FileEnd, FileBytes, Secs, Writable, NulFree;
    BuiltIs(img);
    BuiltIs(Normal(img));
    if exists i :: 0 <= i < |img.segments| && img.segments[i].header.kind == PT_NULL && Writable(img.segments[i]) != 0 {
      var i :| 0 <= i < |img.segments| && img.segments[i].header.kind == PT_NULL && Writable(img.segments[i]) != 0;
      NullLoses(img, i);
    } else {
      var i :| 0 <= i < |img.sections| && !NulFree(img.sections[i].name);
      NulLoses(img, i);
    }
  }

  lemma NormalFitsSection(img: ElfImage, i: nat)
    requires img.ident.cls.Elf32? && i < |Secs(img)|
    ensures FitsSection(NormalSections(img)[i])
  {
    hide Secs, Shdrs;
  }

  lemma NormalFits(img: ElfImage)
    requires OneIdent(img)
    ensures Fits(Normal(img))
  {
    hide BuiltHeader, Geometry, Secs, Phdrs, Shdrs, NormalSections, FitsSection;
    if img.ident.cls.Elf32? {
      forall i | 0 <= i < |Secs(img)| ensures FitsSection(NormalSections(img)[i]) {
        NormalFitsSection(img, i);
      }
    }
  }

  lemma NormalIsCanonical(img: ElfImage)
    ensures Canonical(Normal(img))
  {
    hide BuiltHeader, Geometry, Secs, Phdrs, NormalShdrs, CStr, NulFree;
    forall i | 0 <= i < |Secs(img)| ensures NulFree(NormalSections(img)[i].name) {
      CStrIsName(Secs(img)[i].name);
    }
  }

  /**
   * Rebuilding converges after one round for every image, canonical or not and whatever its field widths: what is
   * built from a reparsed file is a fixed point.
   */
  lemma SecondRebuildIsFixed(img: ElfImage)
    requires OneIdent(img) && TextNames(img) && Built(img).Ok?
    ensures Parsed(Built(img).value) == Ok(Normal(img))
    ensures Built(Normal(img)).Ok? ==>
              var again := Parsed(Built(Normal(img)).value);
              again.Ok? && Built(again.value) == Built(Normal(img))
  {
    hide *;
    ParseInvertsBuild(img, []);
    assert Built(img).value + [] == Built(img).value;
    if Built(Normal(img)).Ok? {
      NormalIsWellFormed(img);
      NormalFits(img);
      FittingKeepsPlaces(Normal(img));
      NormalIsCanonical(img);
      RebuildFixedPoint(Normal(img));
    }
  }
}
