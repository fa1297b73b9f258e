/** What a file says, in bytes and numbers, and that the parser returns exactly that. */
module Format {
  import opened Arith
  import opened Bytes
  import opened Strings
  import opened Headers
  import opened Images
  import opened Parse

  // ---------------------------------------------------------------- the fixed-size records

  /** The identification array holds `id`. */
  ghost predicate IdentIs(b: seq<u8>, id: ElfIdent) {
    && |b| >= 16 && b[0] == 0x7F && b[1] == 0x45 && b[2] == 0x4C && b[3] == 0x46
    && ((b[4] == 1 && id.cls == Elf32) || (b[4] == 2 && id.cls == Elf64))
    && ((b[5] == 1 && id.data == Little) || (b[5] == 2 && id.data == Big))
    && id.version == b[6] && id.osAbi == b[7] && id.abiVersion == b[8]
  }

  /** The number `v` reads as the object type `t`. */
  predicate TypeReads(t: ElfType, v: nat) {
    match t
    case NoType => v == 0
    case Rel => v == 1
    case Exec => v == 2
    case Dyn => v == 3
    case Core => v == 4
    case Other(raw) => v == raw && v > 4
  }

  /** The bytes of an address-sized field. */
  function Word(c: ElfClass): nat { match c case Elf32 => 4 case Elf64 => 8 }

  function HeaderSize(c: ElfClass): nat { match c case Elf32 => 52 case Elf64 => 64 }

  function SegmentEntry(c: ElfClass): nat { match c case Elf32 => 32 case Elf64 => 56 }

  function SectionEntry(c: ElfClass): nat { match c case Elf32 => 40 case Elf64 => 64 }

  /** The file header at the front of `b` is `h`. */
  ghost predicate HeaderIs(b: seq<u8>, h: ElfHeader) {
    var e, w := h.ident.data, Word(h.ident.cls);
    && |b| >= HeaderSize(h.ident.cls)
    && TypeReads(h.elfType, Field(b, 16, 2, e)) && h.machine == Field(b, 18, 2, e) && h.version == Field(b, 20, 4, e)
    && h.entry == Field(b, 24, w, e) && h.phoff == Field(b, 24 + w, w, e) && h.shoff == Field(b, 24 + 2 * w, w, e)
    && h.flags == Field(b, 24 + 3 * w, 4, e) && h.ehsize == Field(b, 28 + 3 * w, 2, e)
    && h.phentsize == Field(b, 30 + 3 * w, 2, e) && h.phnum == Field(b, 32 + 3 * w, 2, e)
    && h.shentsize == Field(b, 34 + 3 * w, 2, e) && h.shnum == Field(b, 36 + 3 * w, 2, e)
    && h.shstrndx == Field(b, 38 + 3 * w, 2, e)
  }

  /** The program header at `off` is `h`; the flags stand second in ELF64 and seventh in ELF32. */
  ghost predicate PhdrIs(b: seq<u8>, off: nat, e: Endian, c: ElfClass, h: ProgramHeader) {
    && off + SegmentEntry(c) <= |b| && h.kind == Field(b, off, 4, e)
    && match c
       case Elf64 =>
         && h.flags == Field(b, off + 4, 4, e) && h.offset == Field(b, off + 8, 8, e)
         && h.vaddr == Field(b, off + 16, 8, e) && h.paddr == Field(b, off + 24, 8, e)
         && h.filesz == Field(b, off + 32, 8, e) && h.memsz == Field(b, off + 40, 8, e)
         && h.align == Field(b, off + 48, 8, e)
       case Elf32 =>
         && h.offset == Field(b, off + 4, 4, e) && h.vaddr == Field(b, off + 8, 4, e)
         && h.paddr == Field(b, off + 12, 4, e) && h.filesz == Field(b, off + 16, 4, e)
         && h.memsz == Field(b, off + 20, 4, e) && h.flags == Field(b, off + 24, 4, e)
         && h.align == Field(b, off + 28, 4, e)
  }

  /** The section header at `off` is `h`. */
  ghost predicate ShdrIs(b: seq<u8>, off: nat, e: Endian, c: ElfClass, h: SectionHeader) {
    var w := Word(c);
    && off + SectionEntry(c) <= |b|
    && h.nameIndex == Field(b, off, 4, e) && h.kind == Field(b, off + 4, 4, e) && h.flags == Field(b, off + 8, w, e)
    && h.addr == Field(b, off + 8 + w, w, e) && h.offset == Field(b, off + 8 + 2 * w, w, e)
    && h.size == Field(b, off + 8 + 3 * w, w, e) && h.link == Field(b, off + 8 + 4 * w, 4, e)
    && h.info == Field(b, off + 12 + 4 * w, 4, e) && h.addralign == Field(b, off + 16 + 4 * w, w, e)
    && h.entsize == Field(b, off + 16 + 5 * w, w, e)
  }

  lemma IdentReads(b: seq<u8>, id: ElfIdent)
    ensures (ReadBytes(b, 0, EI_NIDENT).Ok? && ParseIdent(b[0..EI_NIDENT]) == Ok(id)) <==> IdentIs(b, id)
  {
    if |b| >= 16 {
      assert b[0..16][0..4] == [b[0], b[1], b[2], b[3]];
    }
  }

  lemma EhdrReads(b: seq<u8>, id: ElfIdent, h: ElfHeader)
    ensures ParseEhdr(b, id) == Ok(h) <==> h.ident == id && HeaderIs(b, h)
  {
    hide Dec;
  }

  lemma PhdrReads(b: seq<u8>, off: nat, e: Endian, c: ElfClass, h: ProgramHeader)
    ensures ParsePhdr(b, off, e, c) == Ok(h) <==> PhdrIs(b, off, e, c, h)
  {
    hide Dec;
  }

  lemma ShdrReads(b: seq<u8>, off: nat, e: Endian, c: ElfClass, h: SectionHeader)
    ensures ParseShdr(b, off, e, c) == Ok(h) <==> ShdrIs(b, off, e, c, h)
  {
    hide Dec;
  }

  // ---------------------------------------------------------------- the header tables

  /** Program headers stand one after the other from `phoff` on, at the class's own entry size. */
  function PhdrPlace(h: ElfHeader, i: nat): nat {
    MulNonNeg(i, SegmentEntry(h.ident.cls));
    h.phoff + i * SegmentEntry(h.ident.cls)
  }

  /** Section headers stand `shentsize` apart, or the class's entry size when that is larger. */
  function ShdrPlace(h: ElfHeader, i: nat): nat {
    var entry := Max(h.shentsize, SectionEntry(h.ident.cls));
    MulNonNeg(i, entry);
    Min(h.shoff + i * entry, MAX_U64)
  }

  ghost predicate HeadersAre(b: seq<u8>, id: ElfIdent, h: ElfHeader, phdrs: seq<ProgramHeader>) {
    && IdentIs(b, id) && h.ident == id && HeaderIs(b, h) && |phdrs| == h.phnum
    && forall i :: 0 <= i < |phdrs| ==>
         PhdrPlace(h, i) <= MAX_U64 && PhdrIs(b, PhdrPlace(h, i), id.data, id.cls, phdrs[i])
  }

  lemma PhdrNoReads(b: seq<u8>, h: ElfHeader, i: nat, p: ProgramHeader)
    ensures PhdrNo(b, h, i) == Ok(p)
            <==> PhdrPlace(h, i) <= MAX_U64 && PhdrIs(b, PhdrPlace(h, i), h.ident.data, h.ident.cls, p)
  {
    hide ParsePhdr, PhdrIs;
    PhdrReads(b, PhdrPlace(h, i), h.ident.data, h.ident.cls, p);
  }

  lemma ShdrNoReads(b: seq<u8>, h: ElfHeader, i: nat, s: SectionHeader)
    ensures ShdrNo(b, h, i) == Ok(s) <==> ShdrIs(b, ShdrPlace(h, i), h.ident.data, h.ident.cls, s)
  {
    hide ParseShdr, ShdrIs;
    ShdrReads(b, ShdrPlace(h, i), h.ident.data, h.ident.cls, s);
  }

  /** A list of readings, member by member. */
  lemma CollectEach<T>(n: nat, f: nat -> Result<T>, items: seq<T>)
    ensures Collect(n, f) == Ok(items) <==> |items| == n && forall i :: 0 <= i < n ==> f(i) == Ok(items[i])
  {
    hide Collect;
    CollectAll(n, f);
    if |items| == n && forall i :: 0 <= i < n ==> f(i) == Ok(items[i]) {
      CollectOk(n, f, items);
    }
  }

  lemma PhdrsRead(b: seq<u8>, h: ElfHeader, phdrs: seq<ProgramHeader>)
    ensures Collect(h.phnum, PhdrAt(b, h)) == Ok(phdrs)
            <==> |phdrs| == h.phnum && forall i :: 0 <= i < |phdrs| ==>
                   PhdrPlace(h, i) <= MAX_U64 && PhdrIs(b, PhdrPlace(h, i), h.ident.data, h.ident.cls, phdrs[i])
  {
    hide PhdrNo, PhdrIs, Collect, PhdrPlace;
    CollectEach(h.phnum, PhdrAt(b, h), phdrs);
    forall i | 0 <= i < |phdrs|
      ensures PhdrAt(b, h)(i) == Ok(phdrs[i])
              <==> PhdrPlace(h, i) <= MAX_U64 && PhdrIs(b, PhdrPlace(h, i), h.ident.data, h.ident.cls, phdrs[i])
    {
      PhdrNoReads(b, h, i, phdrs[i]);
    }
  }

  lemma HeadersRead(b: seq<u8>, hs: FileHeaders)
    ensures ParseHeaders(b) == Ok(hs) <==> HeadersAre(b, hs.ident, hs.header, hs.phdrs)
  {
    hide ParseIdent, ParseEhdr, IdentIs, HeaderIs, PhdrIs, PhdrAt, PhdrPlace, Collect;
    IdentReads(b, hs.ident);
    EhdrReads(b, hs.ident, hs.header);
    PhdrsRead(b, hs.header, hs.phdrs);
  }

  // ---------------------------------------------------------------- contents

  /** The contents a header with this offset and length names; lengths above 256 MiB are refused. */
  predicate DataIs(b: seq<u8>, none: bool, off: nat, len: nat, data: seq<u8>) {
    if none || len == 0 then data == []
    else len <= 0x1000_0000 && off + len <= |b| && data == b[off..off + len]
  }

  /** The section-name table: the contents of the section the header names, when that is a string table. */
  function NamesIn(shstrndx: nat, sections: seq<Section>): Option<seq<u8>> {
    if shstrndx < |sections| && sections[shstrndx].header.kind == 3 then Some(sections[shstrndx].data) else None
  }

  /** A section's name stands at its name index; it is empty when no name stands there, or there is no table. */
  ghost predicate NameIs(names: Option<seq<u8>>, index: nat, name: seq<u8>) {
    match names
    case None => name == []
    case Some(t) => IsNameAt(t, index, name) || (name == [] && forall n :: !IsNameAt(t, index, n))
  }

  ghost predicate SectionIs(b: seq<u8>, h: ElfHeader, names: Option<seq<u8>>, i: nat, s: Section) {
    && ShdrIs(b, ShdrPlace(h, i), h.ident.data, h.ident.cls, s.header)
    && DataIs(b, s.header.kind == 8, s.header.offset, s.header.size, s.data)
    && NameIs(names, s.header.nameIndex, s.name)
  }

  ghost predicate SectionsAre(b: seq<u8>, h: ElfHeader, sections: seq<Section>) {
    if h.shoff == 0 || h.shnum == 0 then sections == []
    else
      && |sections| == h.shnum
      && forall i :: 0 <= i < |sections| ==> SectionIs(b, h, NamesIn(h.shstrndx, sections), i, sections[i])
  }

  /** The file `b` describes the image `img`. */
  ghost predicate FileSays(b: seq<u8>, img: ElfImage) {
    && HeadersAre(b, img.ident, img.header, HeadersOf(img.segments))
    && (forall i :: 0 <= i < |img.segments| ==>
          var s := img.segments[i];
          DataIs(b, s.header.kind == 0, s.header.offset, s.header.filesz, s.data))
    && SectionsAre(b, img.header, img.sections)
    && img.runtimeBase == ImageBase(img)
  }

  lemma DataReads(b: seq<u8>, off: nat, len: nat, data: seq<u8>)
    ensures (CheckedLen(len, |b|) && ReadBytes(b, off, len) == Ok(data)) <==> DataIs(b, false, off, len, data)
  {
  }

  lemma SegmentReads(b: seq<u8>, h: ProgramHeader, s: Segment)
    ensures FileSegment(b, h) == Ok(s) <==> s.header == h && DataIs(b, h.kind == 0, h.offset, h.filesz, s.data)
  {
    hide ReadBytes, CheckedLen;
    DataReads(b, h.offset, h.filesz, s.data);
  }

  lemma SegmentsRead(b: seq<u8>, phdrs: seq<ProgramHeader>, segments: seq<Segment>)
    ensures Collect(|phdrs|, SegmentAt(b, phdrs)) == Ok(segments)
            <==> phdrs == HeadersOf(segments)
                 && forall i :: 0 <= i < |segments| ==>
                      var s := segments[i]; DataIs(b, s.header.kind == 0, s.header.offset, s.header.filesz, s.data)
  {
    hide FileSegment, DataIs, Collect;
    CollectEach(|phdrs|, SegmentAt(b, phdrs), segments);
    forall i | 0 <= i < |phdrs| && |segments| == |phdrs|
      ensures SegmentAt(b, phdrs)(i) == Ok(segments[i])
              <==> segments[i].header == phdrs[i]
                   && DataIs(b, phdrs[i].kind == 0, phdrs[i].offset, phdrs[i].filesz, segments[i].data)
    {
      SegmentReads(b, phdrs[i], segments[i]);
    }
  }

  lemma NameReads(names: Option<seq<u8>>, h: SectionHeader, name: seq<u8>)
    ensures NameOf(names, h) == name <==> NameIs(names, h.nameIndex, name)
  {
    hide TableGet, IsNameAt;
    if names.Some? {
      var r := TableGet(names.value, h.nameIndex);
      LookupIs(names.value, h.nameIndex, name);
      forall n ensures r == Some(n) <==> IsNameAt(names.value, h.nameIndex, n) {
        LookupIs(names.value, h.nameIndex, n);
      }
      if r.Some? {
        assert IsNameAt(names.value, h.nameIndex, r.value);
      }
    }
  }

  lemma SectionReads(b: seq<u8>, names: Option<seq<u8>>, h: SectionHeader, s: Section)
    ensures FileSection(b, names, h) == Ok(s)
            <==> s.header == h && DataIs(b, h.kind == 8, h.offset, h.size, s.data) && NameIs(names, h.nameIndex, s.name)
  {
    hide ReadBytes, CheckedLen, NameOf, NameIs;
    DataReads(b, h.offset, h.size, s.data);
    NameReads(names, h, s.name);
  }

  /** The headers of the sections. */
  function ShdrsOf(sections: seq<Section>): (hs: seq<SectionHeader>)
    ensures |hs| == |sections| && forall i :: 0 <= i < |hs| ==> hs[i] == sections[i].header
  {
    seq(|sections|, i requires 0 <= i < |sections| => sections[i].header)
  }

  /** The name table the parser looks for is the contents of the section it names. */
  lemma NamesRead(b: seq<u8>, h: ElfHeader, sections: seq<Section>)
    requires forall i :: 0 <= i < |sections| ==>
               var s := sections[i]; DataIs(b, s.header.kind == 8, s.header.offset, s.header.size, s.data)
    ensures NameTable(b, h, ShdrsOf(sections)) == NamesIn(h.shstrndx, sections)
  {
    hide ReadBytes, CheckedLen;
    if h.shstrndx < |sections| {
      var s := sections[h.shstrndx];
      DataReads(b, s.header.offset, s.header.size, s.data);
    }
  }

  lemma ContentsRead(b: seq<u8>, names: Option<seq<u8>>, sections: seq<Section>, raw: seq<SectionHeader>)
    ensures Collect(|raw|, SectionAt(b, names, raw)) == Ok(sections)
            <==> raw == ShdrsOf(sections)
                 && forall i :: 0 <= i < |sections| ==>
                      var s := sections[i];
                      DataIs(b, s.header.kind == 8, s.header.offset, s.header.size, s.data)
                      && NameIs(names, s.header.nameIndex, s.name)
  {
    hide FileSection, DataIs, NameIs, Collect;
    CollectEach(|raw|, SectionAt(b, names, raw), sections);
    forall i | 0 <= i < |raw| && |sections| == |raw|
      ensures SectionAt(b, names, raw)(i) == Ok(sections[i])
              <==> sections[i].header == raw[i]
                   && DataIs(b, raw[i].kind == 8, raw[i].offset, raw[i].size, sections[i].data)
                   && NameIs(names, raw[i].nameIndex, sections[i].name)
    {
      SectionReads(b, names, raw[i], sections[i]);
    }
  }

  lemma ShdrsRead(b: seq<u8>, h: ElfHeader, raw: seq<SectionHeader>)
    ensures Collect(h.shnum, ShdrAt(b, h)) == Ok(raw)
            <==> |raw| == h.shnum
                 && forall i :: 0 <= i < |raw| ==> ShdrIs(b, ShdrPlace(h, i), h.ident.data, h.ident.cls, raw[i])
  {
    hide ShdrNo, ShdrIs, Collect, ShdrPlace;
    CollectEach(h.shnum, ShdrAt(b, h), raw);
    forall i | 0 <= i < |raw|
      ensures ShdrAt(b, h)(i) == Ok(raw[i]) <==> ShdrIs(b, ShdrPlace(h, i), h.ident.data, h.ident.cls, raw[i])
    {
      ShdrNoReads(b, h, i, raw[i]);
    }
  }

  lemma SectionsRead(b: seq<u8>, h: ElfHeader, sections: seq<Section>)
    ensures FileSections(b, h) == Ok(sections) <==> SectionsAre(b, h, sections)
  {
    hide ShdrAt, SectionAt, DataIs, NameIs, Collect, ShdrPlace, ShdrIs, NameTable, NamesIn;
    if h.shoff != 0 && h.shnum != 0 {
      var raw := ShdrsOf(sections);
      ShdrsRead(b, h, raw);
      if SectionsAre(b, h, sections) {
        NamesRead(b, h, sections);
        ContentsRead(b, NamesIn(h.shstrndx, sections), sections, raw);
      }
      if FileSections(b, h) == Ok(sections) {
        var read := Collect(h.shnum, ShdrAt(b, h)).value;
        ContentsRead(b, NameTable(b, h, read), sections, read);
        NamesRead(b, h, sections);
      }
    }
  }

  /**
   * The parser, exactly: it returns an image if and only if the file describes it, field by field and byte by byte,
   * and so it fails if and only if the file describes none.
   */
  lemma ParserIsExact(b: seq<u8>, img: ElfImage)
    ensures Parsed(b) == Ok(img) <==> FileSays(b, img)
  {
    hide ParseHeaders, FileSections, SegmentAt, HeadersAre, DataIs, SectionsAre, Geometry, Collect;
    var hs := FileHeaders(img.ident, img.header, HeadersOf(img.segments));
    HeadersRead(b, hs);
    SegmentsRead(b, hs.phdrs, img.segments);
    SectionsRead(b, img.header, img.sections);
    if Parsed(b) == Ok(img) {
      var read := ParseHeaders(b).value;
      SegmentsRead(b, read.phdrs, img.segments);
      assert read == hs;
    }
  }
}
