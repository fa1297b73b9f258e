/** What of an image survives building and parsing, field by field, and where its parts are placed. */
module Survival {
  import opened Bytes
  import opened Strings
  import opened Headers
  import opened Images
  import opened Layout
  import opened FileLayout
  import opened Parse
  import opened RoundTrip
  import opened Format

  // ---------------------------------------------------------------- fields

  /** What an address-sized field keeps: everything in ELF64, the low 32 bits in ELF32. */
  function Cut(c: ElfClass, v: u64): u64 { match c case Elf64 => v case Elf32 => v % 0x1_0000_0000 }

  /** The number of an object type. */
  function TypeNumber(t: ElfType): u16 {
    match t
    case NoType => 0
    case Rel => 1
    case Exec => 2
    case Dyn => 3
    case Core => 4
    case Other(raw) => raw
  }

  /** The header fields that layout does not decide. */
  ghost predicate HeaderKept(h: ElfHeader, g: ElfHeader) {
    && g.ident == h.ident && TypeReads(g.elfType, TypeNumber(h.elfType)) && g.machine == h.machine
    && g.version == h.version && g.flags == h.flags && g.entry == Cut(h.ident.cls, h.entry)
  }

  /** The header fields that say where the program header table is. */
  predicate PhdrTableIs(c: ElfClass, count: nat, g: ElfHeader) {
    && g.ehsize == HeaderSize(c) && g.phoff == HeaderSize(c) && g.phentsize == SegmentEntry(c) && g.phnum == count
  }

  /** The program header fields that layout does not decide. */
  predicate PhdrKept(c: ElfClass, h: ProgramHeader, g: ProgramHeader) {
    && g.kind == h.kind && g.flags == h.flags && g.vaddr == Cut(c, h.vaddr) && g.paddr == Cut(c, h.paddr)
    && g.memsz == Cut(c, h.memsz) && g.align == Cut(c, h.align)
  }

  /** The section header fields that layout does not decide. */
  predicate ShdrKept(c: ElfClass, h: SectionHeader, g: SectionHeader) {
    && g.kind == h.kind && g.flags == Cut(c, h.flags) && g.addr == Cut(c, h.addr) && g.link == h.link
    && g.info == h.info && g.addralign == Cut(c, h.addralign) && g.entsize == Cut(c, h.entsize)
  }

  /** The name up to its first NUL. */
  predicate NameCut(name: seq<u8>, cut: seq<u8>) {
    && |cut| <= |name| && cut == name[..|cut|] && (forall i :: 0 <= i < |cut| ==> cut[i] != 0)
    && (|cut| < |name| ==> name[|cut|] == 0)
  }

  // ---------------------------------------------------------------- contents

  /** How many bytes of a segment reach the file. */
  function SegmentWritten(s: Segment): nat { if s.header.filesz < |s.data| then s.header.filesz else |s.data| }

  /** Segment `s` as `g` in the file `b`. */
  predicate SegmentKept(c: ElfClass, b: seq<u8>, s: Segment, g: Segment) {
    && PhdrKept(c, s.header, g.header) && g.header.filesz == SegmentWritten(s)
    && g.data == (if s.header.kind == 0 then [] else s.data[..SegmentWritten(s)])
    && (SegmentWritten(s) == 0 ==> g.header.offset == 0)
    && (SegmentWritten(s) > 0 ==>
          && g.header.offset + SegmentWritten(s) <= |b|
          && b[g.header.offset..g.header.offset + SegmentWritten(s)] == s.data[..SegmentWritten(s)])
  }

  /** A section-name table. */
  predicate IsNames(s: Section) { s.name == Ascii(".shstrtab") && s.header.kind == 3 }

  /** The sections that are written: with a name table, appended when there is none. */
  function Listed(sections: seq<Section>): seq<Section> {
    if sections == [] || exists i :: 0 <= i < |sections| && IsNames(sections[i]) then sections
    else sections + [Section(SectionHeader(0, 3, 0, 0, 0, 0, 0, 0, 1, 0), Ascii(".shstrtab"), [])]
  }

  /** A leading NUL, and every name with its terminator. */
  function NamesLength(sections: seq<Section>): nat {
    if sections == [] then 1 else NamesLength(sections[..|sections| - 1]) + |sections[|sections| - 1].name| + 1
  }

  /** How many bytes of section `s`, one of `all`, reach the file. */
  function SectionWritten(s: Section, all: seq<Section>): nat {
    if s.header.kind == 8 then 0 else if IsNames(s) then NamesLength(all) else |s.data|
  }

  /** Section `s` of `all` as `g`. */
  predicate SectionKept(c: ElfClass, s: Section, all: seq<Section>, g: Section) {
    && ShdrKept(c, s.header, g.header) && NameCut(s.name, g.name) && |g.data| == SectionWritten(s, all)
    && (s.header.kind == 8 ==> g.header.size == Cut(c, s.header.size))
    && (s.header.kind != 8 ==> g.header.size == |g.data|)
    && (|g.data| == 0 ==> g.header.offset == Cut(c, s.header.offset))
    && (s.header.kind != 8 && !IsNames(s) ==> g.data == s.data)
  }

  lemma CutIs(c: ElfClass, v: u64)
    ensures Stored(c, v) == Cut(c, v)
  {
  }

  lemma HeaderSurvives(h: ElfHeader, h': ElfHeader)
    requires h' == h.(phoff := h'.phoff, shoff := h'.shoff, ehsize := h'.ehsize, phentsize := h'.phentsize,
                      phnum := h'.phnum, shentsize := h'.shentsize, shnum := h'.shnum, shstrndx := h'.shstrndx)
    ensures HeaderKept(h, StoredEhdr(h'))
  {
  }

  lemma PhdrSurvives(c: ElfClass, h: ProgramHeader, h': ProgramHeader)
    requires h' == h.(offset := h'.offset, filesz := h'.filesz)
    ensures PhdrKept(c, h, StoredPhdr(c, h'))
  {
  }

  lemma ShdrSurvives(c: ElfClass, h: SectionHeader, h': SectionHeader)
    requires h' == h.(nameIndex := h'.nameIndex, offset := h'.offset, size := h'.size)
    ensures ShdrKept(c, h, StoredShdr(c, h'))
  {
  }

  /** The reparsed file, in one place. */
  lemma Reparsed(img: ElfImage, t: seq<u8>)
    requires OneIdent(img) && TextNames(img) && Built(img).Ok?
    ensures Parsed(Built(img).value + t) == Ok(Normal(img)) && Built(img).value == FileBytes(img)
    ensures FileEnd(img) <= MAX_IMAGE && |img.segments| <= MAX_U16 && |Secs(img)| <= MAX_U16
    ensures |Built(img).value| == FileEnd(img)
  {
    hide Built, Parsed, Normal, TextNames, FileBytes, FileEnd, Secs;
    ParseInvertsBuild(img, t);
    BuiltIs(img);
    FileLength(img);
  }

  /** The file header of a built file: what layout does not decide is kept, and the rest describes the tables. */
  lemma HeaderOfBuilt(img: ElfImage, t: seq<u8>)
    requires OneIdent(img) && TextNames(img) && Built(img).Ok?
    ensures Parsed(Built(img).value + t).Ok?
    ensures var n, c := Parsed(Built(img).value + t).value, img.ident.cls;
            && n.ident == img.ident && HeaderKept(img.header, n.header) && PhdrTableIs(c, |img.segments|, n.header)
            && n.header.shentsize == SectionEntry(c) && n.header.shnum == |n.sections|
            && (img.sections == [] ==> n.header.shoff == 0 && n.header.shstrndx == 0)
            && (img.sections != [] ==> n.header.shstrndx < |n.sections| && n.header.shoff % 8 == 0)
  {
    hide Built, Parsed, TextNames, FileEnd, FileBytes, Secs, NormalSegments, NormalSections, Geometry, HeaderKept,
         Ensured, ShstrtabIndex, Congruent, SecEnd;
    Reparsed(img, t);
    HeaderFields(img);
    HeaderSurvives(img.header, BuiltHeader(img));
    if img.sections != [] {
      NameTableSection(img);
      CongruentIsLeast(SecEnd(img), 0, 8);
    }
  }

  /** Every segment of a built file: its fields, its bytes in the file, and its bytes in the parsed image. */
  lemma SegmentOfBuilt(img: ElfImage, t: seq<u8>, i: nat)
    requires OneIdent(img) && TextNames(img) && Built(img).Ok? && i < |img.segments|
    ensures Parsed(Built(img).value + t).Ok? && |Parsed(Built(img).value + t).value.segments| == |img.segments|
    ensures SegmentKept(img.ident.cls, Built(img).value, img.segments[i],
                        Parsed(Built(img).value + t).value.segments[i])
  {
    hide Built, Parsed, TextNames, FileEnd, FileBytes, Secs, NormalSections, Geometry, BuiltHeader, Congruent, Cursor,
         PhdrKept, At, SegStart;
    Reparsed(img, t);
    var s, c, b := img.segments[i], img.ident.cls, Built(img).value;
    PhdrSurvives(c, s.header, Phdrs(img)[i]);
    PhdrFields(img, i);
    if SegmentWritten(s) > 0 {
      assert b + [] == b;
      SegmentLocated(img, [], b, i);
      assert At(b, Normal(img).segments[i].header.offset, s.data[..SegmentWritten(s)]);
      HeldAt(b, Normal(img).segments[i].header.offset, s.data[..SegmentWritten(s)]);
    }
  }

  lemma HeldAt(b: seq<u8>, off: nat, w: seq<u8>)
    requires At(b, off, w)
    ensures off + |w| <= |b| && b[off..off + |w|] == w
  {
  }

  // ---------------------------------------------------------------- sections

  lemma ListedIs(sections: seq<Section>)
    requires sections != []
    ensures Listed(sections) == Ensured(sections)
  {
    hide Ascii;
  }

  lemma {:induction false} NamesLengthIs(sections: seq<Section>)
    ensures |Blob(Names(sections))| == NamesLength(sections)
    decreases |sections|
  {
    if sections != [] {
      var k := |sections| - 1;
      NamesLengthIs(sections[..k]);
      assert Names(sections)[..k] == Names(sections[..k]);
    }
  }

  lemma ListedLength(img: ElfImage)
    ensures |Listed(img.sections)| == |Secs(img)|
  {
    hide Blob, Ensured, Listed;
    if img.sections != [] {
      ListedIs(img.sections);
    } else {
      ListedNone();
    }
  }

  lemma ListedNone()
    ensures Listed([]) == []
  {
  }

  /** A prepared section: header fields kept, name kept, data kept or replaced by the names. */
  lemma PreparedSection(img: ElfImage, i: nat)
    requires img.sections != [] && i < |Secs(img)|
    ensures |Listed(img.sections)| == |Secs(img)|
    ensures var s, p, all := Listed(img.sections)[i], Secs(img)[i], Listed(img.sections);
            && p.header == s.header.(nameIndex := p.header.nameIndex, size := p.header.size) && p.name == s.name
            && (IsNames(s) ==> |p.data| == NamesLength(all))
            && (!IsNames(s) ==> p.data == s.data && p.header.size == s.header.size)
  {
    hide Blob, Ensured, Listed, ShstrtabIndex, Names, NamesLength, Secs, NameOffset, Ascii;
    ListedIs(img.sections);
    SecIs(img, i);
    NamesLengthIs(Listed(img.sections));
  }

  lemma NameCutIs(name: seq<u8>)
    ensures NameCut(name, CStr(name))
  {
    hide NulAt;
  }

  /** Every section of a built file. */
  lemma SectionOfBuilt(img: ElfImage, t: seq<u8>, i: nat)
    requires OneIdent(img) && TextNames(img) && Built(img).Ok? && i < |Listed(img.sections)|
    ensures Parsed(Built(img).value + t).Ok?
    ensures var n := Parsed(Built(img).value + t).value;
            && |n.sections| == |Listed(img.sections)|
            && SectionKept(img.ident.cls, Listed(img.sections)[i], Listed(img.sections), n.sections[i])
  {
    hide Built, Parsed, TextNames, FileEnd, FileBytes, Secs, NormalSegments, Geometry, BuiltHeader, Congruent, Cursor,
         Listed, NamesLength, NameCut, CStr, Ascii, NormalSections, NormalShdrs;
    Reparsed(img, t);
    ListedLength(img);
    ListedNone();
    var c := img.ident.cls;
    PreparedSection(img, i);
    ShdrFields(img, i);
    NameCutIs(Secs(img)[i].name);
    PlacedSection(img, i);
  }

  /** A placed section header: what it keeps of the prepared one. */
  lemma PlacedSection(img: ElfImage, i: nat)
    requires i < |Secs(img)|
    ensures var p, g, c := Secs(img)[i], Normal(img).sections[i], img.ident.cls;
            && ShdrKept(c, p.header, g.header) && g.header == NormalShdrs(img)[i]
            && g.name == CStr(p.name) && g.data == (if p.header.kind == 8 then [] else p.data)
            && (p.header.kind == 8 ==> g.header.size == Cut(c, p.header.size))
            && (p.header.kind == 8 || p.data == [] ==> g.header.offset == Cut(c, p.header.offset))
  {
    hide Secs, NormalSegments, Geometry, BuiltHeader, Congruent, Cursor, CStr, ShdrKept;
    ShdrSurvives(img.ident.cls, Secs(img)[i].header, Shdrs(img)[i]);
  }

  /** Every section's name stands in the table the header names, at the section's own index. */
  lemma NamesOfBuilt(img: ElfImage, t: seq<u8>, i: nat)
    requires OneIdent(img) && TextNames(img) && Built(img).Ok? && i < |Listed(img.sections)|
    ensures Parsed(Built(img).value + t).Ok?
    ensures var n := Parsed(Built(img).value + t).value;
            && i < |n.sections| && n.header.shstrndx < |n.sections|
            && n.sections[n.header.shstrndx].header.kind == 3
            && IsNameAt(n.sections[n.header.shstrndx].data, n.sections[i].header.nameIndex, n.sections[i].name)
  {
    hide Built, Parsed, TextNames, FileEnd, FileBytes, Secs, NormalSegments, Geometry, BuiltHeader, Blob, Listed,
         NormalSections, NormalShdrs, IsNameAt, NameOffset, CStr, Names, Ensured, ShstrtabIndex;
    Reparsed(img, t);
    ListedLength(img);
    ListedNone();
    HeaderOfBuilt(img, t);
    NameTableSection(img);
    NameTableIndex(img);
    var k, blob := Normal(img).header.shstrndx, Blob(Names(Secs(img)));
    PlacedSection(img, k);
    PlacedSection(img, i);
    assert Built(img).value + [] == FileBytes(img) + [];
    NameTableParses(img, [], Built(img).value + []);
    NameIndexIs(img, i);
    SectionNameIsText(img, i);
    BlobResolves(Names(Secs(img)), i);
    ShdrFields(img, i);
    ShdrFields(img, k);
    assert Names(Secs(img))[i] == Secs(img)[i].name;
    LookupIs(blob, NameOffset(Names(Secs(img)), i), CStr(Secs(img)[i].name));
  }

  /** The header names the first section-name table. */
  lemma FirstNameTable(img: ElfImage, t: seq<u8>)
    requires OneIdent(img) && TextNames(img) && Built(img).Ok? && img.sections != []
    ensures Parsed(Built(img).value + t).Ok?
    ensures var k, all := Parsed(Built(img).value + t).value.header.shstrndx, Listed(img.sections);
            k < |all| && IsNames(all[k]) && forall j :: 0 <= j < k ==> !IsNames(all[j])
  {
    hide Built, Parsed, TextNames, FileEnd, FileBytes, Secs, Normal, Ensured, Listed, Ascii;
    Reparsed(img, t);
    ListedIs(img.sections);
    NameTableIndex(img);
    NameTableSection(img);
  }

  lemma NameTableIndex(img: ElfImage)
    requires img.sections != [] && |Secs(img)| <= MAX_U16
    ensures var k := ShstrtabIndex(Ensured(img.sections));
            k.Some? && k.value < |Secs(img)| && Normal(img).header.shstrndx == k.value
  {
    hide Ensured, ShstrtabIndex, Secs, NormalSegments, NormalSections, Geometry, Shoff;
    NameTableSection(img);
  }
}
