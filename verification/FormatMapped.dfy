/** What loader-mapped bytes say, and that the mapped parser returns exactly that. */
module FormatMapped {
  import opened Bytes
  import opened Headers
  import opened Images
  import opened Parse
  import opened Reader
  import opened ParseMapped
  import opened Format
  import opened Selection
  import opened GeometryLaws

  // ---------------------------------------------------------------- segments

  /** Sizes above the length of the source or 256 MiB are refused. */
  function Room(m: seq<u8>): nat { Min(|m|, 0x1000_0000) }

  /** A segment lies at its address from the base; loads have their memory size, other segments their file size. */
  predicate MappedSegmentIs(m: seq<u8>, base: u64, s: Segment) {
    var h := s.header;
    var len := if h.kind == 1 then h.memsz else h.filesz;
    if h.kind == 0 || len == 0 then s.data == []
    else len <= Room(m) && s.data == BytesFrom(m, if h.vaddr <= base then 0 else h.vaddr - base, len)
  }

  lemma LenientIs(m: seq<u8>, off: nat, len: nat)
    ensures Lenient(m, off, len) == BytesFrom(m, off, len)
  {
  }

  lemma MappedSegmentReads(m: seq<u8>, h: ProgramHeader, base: u64, s: Segment)
    ensures MappedSegment(m, h, base) == Ok(s) <==> s.header == h && MappedSegmentIs(m, base, s)
  {
    hide Lenient, BytesFrom;
    LenientIs(m, SatSub(h.vaddr, base), MappedLength(h));
  }

  lemma MappedSegmentsRead(m: seq<u8>, phdrs: seq<ProgramHeader>, base: u64, segments: seq<Segment>)
    ensures Collect(|phdrs|, MappedSegmentAt(m, phdrs, base)) == Ok(segments)
            <==> phdrs == HeadersOf(segments)
                 && forall i :: 0 <= i < |segments| ==> MappedSegmentIs(m, base, segments[i])
  {
    hide MappedSegment, MappedSegmentIs, Collect;
    CollectEach(|phdrs|, MappedSegmentAt(m, phdrs, base), segments);
    forall i | 0 <= i < |phdrs| && |segments| == |phdrs|
      ensures MappedSegmentAt(m, phdrs, base)(i) == Ok(segments[i])
              <==> segments[i].header == phdrs[i] && MappedSegmentIs(m, base, segments[i])
    {
      MappedSegmentReads(m, phdrs[i], base, segments[i]);
    }
  }

  // ---------------------------------------------------------------- sections

  /** Where a section lies: an allocated one at its address from the base, any other at its file offset. */
  function SectionPlace(h: SectionHeader, base: u64): nat {
    if h.flags / 2 % 2 == 1 then (if h.addr <= base then 0 else h.addr - base) else h.offset
  }

  /** The section header table lies inside the bytes. */
  ghost predicate TableInside(m: seq<u8>, h: ElfHeader) {
    forall i :: 0 <= i < h.shnum ==> ShdrPlace(h, i) + SectionEntry(h.ident.cls) <= |m|
  }

  /** The section headers in the bytes. */
  ghost predicate RawTable(m: seq<u8>, h: ElfHeader, raw: seq<SectionHeader>) {
    && |raw| == h.shnum
    && forall i :: 0 <= i < |raw| ==> ShdrIs(m, ShdrPlace(h, i), h.ident.data, h.ident.cls, raw[i])
  }

  /** The sections that are kept: those without file bytes, and those whose size can be right. */
  function Fitting(m: seq<u8>, raw: seq<SectionHeader>): nat -> bool {
    (i: nat) => i < |raw| && (raw[i].kind == 8 || raw[i].size <= Room(m))
  }

  /** The section-name table, empty when it cannot be found. */
  function NamesMapped(m: seq<u8>, shstrndx: nat, raw: seq<SectionHeader>, base: u64): seq<u8> {
    if shstrndx < |raw| && raw[shstrndx].kind == 3 && raw[shstrndx].size <= Room(m)
    then BytesFrom(m, SectionPlace(raw[shstrndx], base), raw[shstrndx].size)
    else []
  }

  ghost predicate MappedSectionIs(m: seq<u8>, base: u64, names: seq<u8>, h: SectionHeader, s: Section) {
    && s.header == h && s.data == BytesFrom(m, SectionPlace(h, base), if h.kind == 8 then 0 else h.size)
    && NameIs(Some(names), h.nameIndex, s.name)
  }

  /** In order, exactly the kept sections of the table. */
  ghost predicate KeptSections(m: seq<u8>, h: ElfHeader, base: u64, raw: seq<SectionHeader>, sections: seq<Section>) {
    var f := Chosen(|raw|, Fitting(m, raw));
    && |sections| == |f|
    && forall j :: 0 <= j < |f| ==>
         f[j] in f && MappedSectionIs(m, base, NamesMapped(m, h.shstrndx, raw, base), raw[f[j]], sections[j])
  }

  ghost predicate MappedSectionsAre(m: seq<u8>, h: ElfHeader, base: u64, sections: seq<Section>) {
    if TableInside(m, h) then exists raw :: RawTable(m, h, raw) && KeptSections(m, h, base, raw, sections)
    else sections == []
  }

  /** One section, from its header. */
  function OneSection(m: seq<u8>, names: seq<u8>, base: u64, h: SectionHeader): Section {
    Section(h, NameOf(Some(names), h), Lenient(m, SectionBase(h, base), if h.IsNobits() then 0 else h.size))
  }

  lemma OneSectionIs(m: seq<u8>, names: seq<u8>, base: u64, h: SectionHeader, s: Section)
    ensures OneSection(m, names, base, h) == s <==> MappedSectionIs(m, base, names, h, s)
  {
    hide Lenient, BytesFrom, NameOf, NameIs;
    LenientIs(m, SectionPlace(h, base), if h.kind == 8 then 0 else h.size);
    NameReads(Some(names), h, s.name);
  }

  lemma FittingIs(m: seq<u8>, raw: seq<SectionHeader>, i: nat)
    requires i < |raw|
    ensures Fitting(m, raw)(i) <==> CheckedLen(if raw[i].IsNobits() then 0 else raw[i].size, |m|)
  {
  }

  lemma {:induction false} SectionsChosen(m: seq<u8>, raw: seq<SectionHeader>, names: seq<u8>, base: u64, k: nat)
    requires k <= |raw|
    ensures var f, r := Chosen(k, Fitting(m, raw)), MappedSections(m, raw, names, base, k);
            |r| == |f| && forall j :: 0 <= j < |f| ==> f[j] in f && r[j] == OneSection(m, names, base, raw[f[j]])
  {
    hide OneSection, Fitting, CheckedLen, MappedSections;
    if k > 0 {
      SectionsChosen(m, raw, names, base, k - 1);
      SectionStep(m, raw, names, base, k);
    } else {
      NoSections(m, raw, names, base);
    }
  }

  lemma NoSections(m: seq<u8>, raw: seq<SectionHeader>, names: seq<u8>, base: u64)
    ensures MappedSections(m, raw, names, base, 0) == []
  {
  }

  /** One turn of the section loop. */
  lemma SectionStep(m: seq<u8>, raw: seq<SectionHeader>, names: seq<u8>, base: u64, k: nat)
    requires 0 < k <= |raw|
    ensures MappedSections(m, raw, names, base, k)
            == MappedSections(m, raw, names, base, k - 1)
               + if Fitting(m, raw)(k - 1) then [OneSection(m, names, base, raw[k - 1])] else []
  {
    hide OneSection, Fitting, CheckedLen;
    FittingIs(m, raw, k - 1);
    OneSectionOf(m, names, base, raw[k - 1]);
  }

  lemma OneSectionOf(m: seq<u8>, names: seq<u8>, base: u64, h: SectionHeader)
    ensures OneSection(m, names, base, h)
            == Section(h, NameOf(Some(names), h), Lenient(m, SectionBase(h, base), if h.IsNobits() then 0 else h.size))
  {
    hide Lenient, NameOf, SectionBase;
  }

  lemma NamesMappedAre(m: seq<u8>, h: ElfHeader, raw: seq<SectionHeader>, base: u64)
    ensures MappedNames(m, h, raw, base) == NamesMapped(m, h.shstrndx, raw, base)
  {
    hide Lenient, BytesFrom;
    if h.shstrndx < |raw| {
      LenientIs(m, SectionPlace(raw[h.shstrndx], base), raw[h.shstrndx].size);
    }
  }

  lemma KeptReads(m: seq<u8>, h: ElfHeader, base: u64, raw: seq<SectionHeader>, sections: seq<Section>)
    ensures MappedSections(m, raw, MappedNames(m, h, raw, base), base, |raw|) == sections
            <==> KeptSections(m, h, base, raw, sections)
  {
    hide MappedSections, MappedNames, NamesMapped, OneSection, MappedSectionIs, Fitting;
    var names := MappedNames(m, h, raw, base);
    var f, r := Chosen(|raw|, Fitting(m, raw)), MappedSections(m, raw, names, base, |raw|);
    NamesMappedAre(m, h, raw, base);
    SectionsChosen(m, raw, names, base, |raw|);
    forall j | 0 <= j < |f| && |sections| == |f|
      ensures r[j] == sections[j] <==> MappedSectionIs(m, base, names, raw[f[j]], sections[j])
    {
      OneSectionIs(m, names, base, raw[f[j]], sections[j]);
    }
    if KeptSections(m, h, base, raw, sections) {
      assert r == sections;
    }
  }

  lemma ShdrFits(m: seq<u8>, off: nat, e: Endian, c: ElfClass)
    ensures ParseShdr(m, off, e, c).Ok? <==> off + SectionEntry(c) <= |m|
  {
    hide U32, U64;
  }

  lemma TableReads(m: seq<u8>, h: ElfHeader)
    ensures Collect(h.shnum, ShdrAt(m, h)).Ok? <==> TableInside(m, h)
  {
    hide ParseShdr, Collect, ShdrPlace, SectionEntry;
    CollectAll(h.shnum, ShdrAt(m, h));
    forall i | 0 <= i < h.shnum
      ensures ShdrAt(m, h)(i).Ok? <==> ShdrPlace(h, i) + SectionEntry(h.ident.cls) <= |m|
    {
      ShdrNoAt(m, h, i);
      ShdrFits(m, ShdrPlace(h, i), h.ident.data, h.ident.cls);
    }
  }

  lemma ShdrNoAt(m: seq<u8>, h: ElfHeader, i: nat)
    ensures ShdrNo(m, h, i) == ParseShdr(m, ShdrPlace(h, i), h.ident.data, h.ident.cls)
  {
    hide ParseShdr;
  }

  lemma MappedSectionsRead(m: seq<u8>, h: ElfHeader, base: u64, sections: seq<Section>)
    ensures AllMappedSections(m, h, base) == sections <==> MappedSectionsAre(m, h, base, sections)
  {
    hide ShdrAt, MappedSections, MappedNames, KeptSections, TableInside, RawTable, Collect;
    TableReads(m, h);
    var read := Collect(h.shnum, ShdrAt(m, h));
    if read.Ok? {
      forall raw: seq<SectionHeader> ensures RawTable(m, h, raw) <==> raw == read.value {
        RawReads(m, h, raw);
      }
      KeptReads(m, h, base, read.value, sections);
      assert RawTable(m, h, read.value);
    }
  }

  lemma RawReads(m: seq<u8>, h: ElfHeader, raw: seq<SectionHeader>)
    ensures RawTable(m, h, raw) <==> Collect(h.shnum, ShdrAt(m, h)) == Ok(raw)
  {
    hide ShdrAt, ShdrIs, Collect, ShdrPlace;
    ShdrsRead(m, h, raw);
  }

  // ---------------------------------------------------------------- the theorem

  /** The loader-mapped bytes `m` describe the image `img`. */
  ghost predicate MappedSays(m: seq<u8>, img: ElfImage) {
    && HeadersAre(m, img.ident, img.header, HeadersOf(img.segments))
    && (forall i :: 0 <= i < |img.segments| ==> MappedSegmentIs(m, ImageBase(img), img.segments[i]))
    && MappedSectionsAre(m, img.header, ImageBase(img), img.sections)
    && img.runtimeBase == ImageBase(img)
  }

  /**
   * The mapped parser, exactly: it returns an image if and only if the bytes describe it, with segments and
   * allocated sections found by address and other sections by file offset.
   */
  lemma MappedParserIsExact(m: seq<u8>, img: ElfImage)
    ensures MappedParsed(m) == Ok(img) <==> MappedSays(m, img)
  {
    hide ParseHeaders, AllMappedSections, MappedSegmentAt, HeadersAre, MappedSegmentIs, MappedSectionsAre, Geometry,
         Collect;
    var hs, base := FileHeaders(img.ident, img.header, HeadersOf(img.segments)), ImageBase(img);
    HeadersRead(m, hs);
    MappedSegmentsRead(m, hs.phdrs, base, img.segments);
    MappedSectionsRead(m, img.header, base, img.sections);
    if MappedParsed(m) == Ok(img) {
      var read := ParseHeaders(m).value;
      MappedSegmentsRead(m, read.phdrs, Geometry(read.phdrs).base, img.segments);
      assert read == hs;
    }
  }

  /** An allocated section inside the memory of a load holds what the load holds there. */
  lemma SectionInLoad(m: seq<u8>, img: ElfImage, i: nat, k: nat)
    requires MappedParsed(m) == Ok(img) && i < |img.sections| && k < |img.segments|
    requires var h, l := img.sections[i].header, img.segments[k].header;
             && h.flags / 2 % 2 == 1 && h.kind != 8 && l.kind == 1
             && l.vaddr <= h.addr && h.addr + h.size <= l.vaddr + l.memsz
    ensures var s, l := img.sections[i], img.segments[k];
            && |l.data| == l.header.memsz && |s.data| == s.header.size
            && s.data == l.data[s.header.addr - l.header.vaddr..][..s.header.size]
  {
    hide MappedParsed, Geometry, HeadersAre, MappedSectionsAre, BytesFrom;
    MappedParserIsExact(m, img);
    SectionBytes(m, img, i);
    var s, l, base := img.sections[i], img.segments[k], ImageBase(img);
    assert MappedSegmentIs(m, base, l);
    if l.header.memsz > 0 {
      LoadInsideImage(img, k);
      PartOf(m, l.header.vaddr - base, l.header.memsz, s.header.addr - l.header.vaddr, s.header.size);
    }
  }

  /** A part of what is read. */
  lemma PartOf(m: seq<u8>, off: nat, len: nat, from: nat, n: nat)
    requires from + n <= len
    ensures BytesFrom(m, off, len)[from..][..n] == BytesFrom(m, off + from, n)
  {
  }

  /** What a mapped section holds. */
  lemma SectionBytes(m: seq<u8>, img: ElfImage, i: nat)
    requires MappedSays(m, img) && i < |img.sections|
    ensures var s := img.sections[i];
            s.data == BytesFrom(m, SectionPlace(s.header, ImageBase(img)),
                                if s.header.kind == 8 then 0 else s.header.size)
  {
    hide Geometry, HeadersAre, RawTable, TableInside, NameIs, BytesFrom, SectionPlace, NamesMapped;
    var base := ImageBase(img);
    var raw :| RawTable(m, img.header, raw) && KeptSections(m, img.header, base, raw, img.sections);
    var f := Chosen(|raw|, Fitting(m, raw));
    assert MappedSectionIs(m, base, NamesMapped(m, img.header.shstrndx, raw, base), raw[f[i]], img.sections[i]);
  }
}
