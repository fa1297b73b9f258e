/** Parsing a built file yields an explicit normal form of the image, whatever follows the file. */
module RoundTrip {
  import opened Arith
  import opened Bytes
  import opened Strings
  import opened Headers
  import opened Images
  import opened Layout
  import opened FileLayout
  import opened Parse
  import Build

  /** Section names are Rust strings. */
  ghost predicate TextNames(img: ElfImage) {
    forall i :: 0 <= i < |img.sections| ==> ValidUtf8(img.sections[i].name)
  }

  // ---------------------------------------------------------------- the normal form

  function NormalSegment(s: Segment, h: ProgramHeader): Segment {
    Segment(h, if h.kind == PT_NULL then [] else s.data[..Writable(s)])
  }

  function NormalPhdrs(img: ElfImage): (hs: seq<ProgramHeader>)
    ensures |hs| == |img.segments|
    ensures forall i :: 0 <= i < |hs| ==> hs[i] == StoredPhdr(img.ident.cls, Phdrs(img)[i])
  {
    seq(|img.segments|, i requires 0 <= i < |img.segments| => StoredPhdr(img.ident.cls, Phdrs(img)[i]))
  }

  function NormalSegments(img: ElfImage): (r: seq<Segment>)
    ensures |r| == |img.segments|
    ensures forall i :: 0 <= i < |r| ==> r[i] == NormalSegment(img.segments[i], NormalPhdrs(img)[i])
  {
    seq(|img.segments|, i requires 0 <= i < |img.segments| => NormalSegment(img.segments[i], NormalPhdrs(img)[i]))
  }

  function NormalShdrs(img: ElfImage): (hs: seq<SectionHeader>)
    ensures |hs| == |Secs(img)|
    ensures forall i :: 0 <= i < |hs| ==> hs[i] == StoredShdr(img.ident.cls, Shdrs(img)[i])
  {
    seq(|Secs(img)|, i requires 0 <= i < |Secs(img)| => StoredShdr(img.ident.cls, Shdrs(img)[i]))
  }

  function NormalSection(s: Section, h: SectionHeader): Section {
    Section(h, CStr(s.name), if s.header.IsNobits() then [] else s.data)
  }

  function NormalSections(img: ElfImage): (r: seq<Section>)
    ensures |r| == |Secs(img)|
    ensures forall i :: 0 <= i < |r| ==> r[i] == NormalSection(Secs(img)[i], NormalShdrs(img)[i])
  {
    seq(|Secs(img)|, i requires 0 <= i < |Secs(img)| => NormalSection(Secs(img)[i], NormalShdrs(img)[i]))
  }

  /**
   * The image a reader recovers: the same segments with their data cut to what was written and their offsets
   * reassigned, the same sections with a name table among them, no data in `NOBITS` sections, names cut at
   * their first NUL, fields cut to the class's width, and the preferred base as the runtime base.
   */
  function Normal(img: ElfImage): ElfImage {
    ElfImage(img.ident, StoredEhdr(BuiltHeader(img)), NormalSegments(img), NormalSections(img),
             Geometry(NormalPhdrs(img)).base)
  }

  // ---------------------------------------------------------------- small offsets survive

  lemma SmallIsStored(c: ElfClass, n: nat)
    requires n <= MAX_IMAGE
    ensures Stored(c, Sat(n)) == n && Sat(n) == n && Low32(n) == n
  {
  }

  /** What building succeeded says about every offset. */
  lemma OffsetsAreSmall(img: ElfImage)
    requires FileEnd(img) <= MAX_IMAGE
    ensures SegEnd(img) <= SecEnd(img) <= FileEnd(img) && Shoff(img) <= FileEnd(img)
    ensures forall i :: 0 <= i < |img.segments| && SegItem(img.segments[i]).bytes != [] ==>
              OffsetOf(SegItems(img.segments), SegStart(img), i) + |SegItem(img.segments[i]).bytes| <= SegEnd(img)
    ensures forall i :: 0 <= i < |Secs(img)| && SecItem(Secs(img)[i]).bytes != [] ==>
              OffsetOf(SecItems(Secs(img)), SegEnd(img), i) + |SecItem(Secs(img)[i]).bytes| <= SecEnd(img)
  {
    hide Congruent, Cursor, Prepared, SegItem, SecItem;
    forall i | 0 <= i < |img.segments| && SegItem(img.segments[i]).bytes != []
      ensures OffsetOf(SegItems(img.segments), SegStart(img), i) + |SegItem(img.segments[i]).bytes| <= SegEnd(img)
    {
      ItemExtent(SegItems(img.segments), SegStart(img), i);
      CursorMonotone(SegItems(img.segments), SegStart(img), i + 1, |img.segments|);
    }
    var secs := Secs(img);
    forall i | 0 <= i < |secs| && SecItem(secs[i]).bytes != []
      ensures OffsetOf(SecItems(secs), SegEnd(img), i) + |SecItem(secs[i]).bytes| <= SecEnd(img)
    {
      ItemExtent(SecItems(secs), SegEnd(img), i);
      CursorMonotone(SecItems(secs), SegEnd(img), i + 1, |secs|);
    }
  }

  // ---------------------------------------------------------------- locating the parts

  /** Every part of a built file, found in the file with anything appended. */
  lemma Located(img: ElfImage, t: seq<u8>, b: seq<u8>)
    requires img.header.ident.cls == img.ident.cls && b == FileBytes(img) + t
    ensures |b| == FileEnd(img) + |t|
    ensures At(b, 0, EhdrBytes(BuiltHeader(img)))
    ensures At(b, EhdrSize(img.ident.cls), PhdrTable(img))
    ensures At(b, SegStart(img), SegBody(img))
    ensures At(b, SegEnd(img), SecBody(img))
    ensures At(b, SecEnd(img), TableBody(img))
  {
    hide *;
    FileParts(img);
    var f := FileBytes(img);
    AtAppend(f, t, 0, EhdrBytes(BuiltHeader(img)));
    AtAppend(f, t, EhdrSize(img.ident.cls), PhdrTable(img));
    AtAppend(f, t, SegStart(img), SegBody(img));
    AtAppend(f, t, SegEnd(img), SecBody(img));
    AtAppend(f, t, SecEnd(img), TableBody(img));
  }

  lemma FileLong(img: ElfImage, t: seq<u8>, b: seq<u8>)
    requires img.header.ident.cls == img.ident.cls && b == FileBytes(img) + t
    ensures |b| >= FileEnd(img)
  {
    hide *;
    FileParts(img);
  }

  /** The section header table, past its alignment gap. */
  lemma TableLocated(img: ElfImage, t: seq<u8>, b: seq<u8>)
    requires img.header.ident.cls == img.ident.cls && b == FileBytes(img) + t && img.sections != []
    ensures At(b, Shoff(img), ShdrTable(img))
  {
    hide FileBytes, EhdrBytes, PhdrTable, SegBody, SecBody, ShdrTable, BuiltHeader, Congruent, At,
         SegStart, SegEnd, SecEnd, FileEnd;
    Located(img, t, b);
    var gap := Zeros(Congruent(SecEnd(img), 0, 8) - SecEnd(img));
    AtConcat(b, SecEnd(img), gap, ShdrTable(img));
  }

  /** An item placed in a body that sits in a file. */
  lemma ItemLocated(b: seq<u8>, items: seq<Item>, start: nat, i: nat)
    requires At(b, start, Body(items, start, |items|)) && i < |items| && items[i].bytes != []
    ensures At(b, OffsetOf(items, start, i), items[i].bytes)
  {
    hide *;
    BodyHolds(items, start, |items|, i);
    AtWithin(b, start, Body(items, start, |items|), OffsetOf(items, start, i) - start, items[i].bytes);
  }

  /** A written segment's bytes, at the offset its header records. */
  lemma SegmentLocated(img: ElfImage, t: seq<u8>, b: seq<u8>, i: nat)
    requires img.header.ident.cls == img.ident.cls && b == FileBytes(img) + t
    requires i < |img.segments| && SegItem(img.segments[i]).bytes != []
    ensures At(b, OffsetOf(SegItems(img.segments), SegStart(img), i), SegItem(img.segments[i]).bytes)
  {
    assert At(b, SegStart(img), Body(SegItems(img.segments), SegStart(img), |img.segments|)) by {
      hide At, FileBytes, Body, SegStart;
      Located(img, t, b);
    }
    hide *;
    ItemLocated(b, SegItems(img.segments), SegStart(img), i);
  }

  /** A written section's bytes, at the offset its header records. */
  lemma SectionLocated(img: ElfImage, t: seq<u8>, b: seq<u8>, i: nat)
    requires img.header.ident.cls == img.ident.cls && b == FileBytes(img) + t
    requires i < |Secs(img)| && SecItem(Secs(img)[i]).bytes != []
    ensures At(b, OffsetOf(SecItems(Secs(img)), SegEnd(img), i), SecItem(Secs(img)[i]).bytes)
  {
    assert At(b, SegEnd(img), Body(SecItems(Secs(img)), SegEnd(img), |Secs(img)|)) by {
      hide At, FileBytes, Body, SegEnd, Secs;
      Located(img, t, b);
    }
    hide *;
    ItemLocated(b, SecItems(Secs(img)), SegEnd(img), i);
  }

  /** Record `i` of a table that sits in a file. */
  lemma RecordLocated(b: seq<u8>, off: nat, parts: seq<seq<u8>>, size: nat, i: nat)
    requires At(b, off, Flat(parts)) && i < |parts| && forall j :: 0 <= j < |parts| ==> |parts[j]| == size
    ensures i * size >= 0 && i * size + size <= |Flat(parts)| && At(b, off + i * size, parts[i])
  {
    hide *;
    FlatHolds(parts, size);
    assert At(Flat(parts), i * size, parts[i]);
    AtWithin(b, off, Flat(parts), i * size, parts[i]);
    assert |Flat(parts)| == i * size + (|parts| - i) * size;
    MulMono(size, 1, |parts| - i);
  }

  // ---------------------------------------------------------------- headers

  /** The file header a reader sees. */
  function NormalHeader(img: ElfImage): ElfHeader { StoredEhdr(BuiltHeader(img)) }

  lemma HeaderFields(img: ElfImage)
    requires OneIdent(img) && FileEnd(img) <= MAX_IMAGE && |img.segments| <= MAX_U16 && |Secs(img)| <= MAX_U16
    ensures var h := NormalHeader(img);
            && h.ident == img.ident && h.phoff == EhdrSize(img.ident.cls) && h.phnum == |img.segments|
            && h.shoff == Shoff(img) && h.shnum == |Secs(img)| && h.shentsize == ShdrSize(img.ident.cls)
  {
    hide FileEnd, Secs, Ensured, Congruent;
    OffsetsAreSmall(img);
    SmallIsStored(img.ident.cls, Shoff(img));
  }

  /** Where program header `i` was written. */
  lemma PhdrLocated(img: ElfImage, t: seq<u8>, b: seq<u8>, i: nat)
    requires OneIdent(img) && b == FileBytes(img) + t && i < |img.segments|
    ensures i * PhdrSize(img.ident.cls) >= 0
    ensures At(b, EhdrSize(img.ident.cls) + i * PhdrSize(img.ident.cls),
               PhdrBytes(Phdrs(img)[i], img.ident.data, img.ident.cls))
    ensures EhdrSize(img.ident.cls) + i * PhdrSize(img.ident.cls) <= FileEnd(img)
  {
    hide FileBytes, Phdrs, At, PhdrBytes, FileEnd, Secs, Flat;
    var parts := PhdrParts(Phdrs(img), img.ident.data, img.ident.cls);
    PhdrTableLocated(img, t, b);
    RecordLocated(b, EhdrSize(img.ident.cls), parts, PhdrSize(img.ident.cls), i);
  }

  lemma PhdrTableLocated(img: ElfImage, t: seq<u8>, b: seq<u8>)
    requires img.header.ident.cls == img.ident.cls && b == FileBytes(img) + t
    ensures At(b, EhdrSize(img.ident.cls), Flat(PhdrParts(Phdrs(img), img.ident.data, img.ident.cls)))
    ensures EhdrSize(img.ident.cls) + |Flat(PhdrParts(Phdrs(img), img.ident.data, img.ident.cls))| <= FileEnd(img)
  {
    hide FileBytes, Phdrs, At, PhdrParts, FileEnd, Flat, EhdrBytes, SegBody, SecBody, TableBody, SegEnd, SecEnd;
    Located(img, t, b);
    TableLengths(img);
  }

  lemma PhdrParses(img: ElfImage, t: seq<u8>, b: seq<u8>, i: nat)
    requires OneIdent(img) && b == FileBytes(img) + t && i < |img.segments|
    requires FileEnd(img) <= MAX_IMAGE && |img.segments| <= MAX_U16 && |Secs(img)| <= MAX_U16
    ensures PhdrNo(b, NormalHeader(img), i) == Ok(NormalPhdrs(img)[i])
  {
    hide FileBytes, FileEnd, Secs, At, NormalHeader, PhdrBytes, ParsePhdr, PhdrNo, Phdrs, StoredPhdr;
    var c := img.ident.cls;
    PhdrLocated(img, t, b, i);
    HeaderFields(img);
    PhdrRoundTrip(b, EhdrSize(c) + i * PhdrSize(c), Phdrs(img)[i], img.ident.data, c);
    PhdrNoIs(b, NormalHeader(img), i);
  }

  lemma PhdrNoIs(b: seq<u8>, h: ElfHeader, i: nat)
    ensures i * PhdrSize(h.ident.cls) >= 0
    ensures h.phoff + i * PhdrSize(h.ident.cls) <= MAX_U64 ==>
              PhdrNo(b, h, i) == ParsePhdr(b, h.phoff + i * PhdrSize(h.ident.cls), h.ident.data, h.ident.cls)
  {
    hide ParsePhdr;
    MulNonNeg(i, PhdrSize(h.ident.cls));
  }

  lemma PhdrsParse(img: ElfImage, t: seq<u8>, b: seq<u8>)
    requires OneIdent(img) && b == FileBytes(img) + t
    requires FileEnd(img) <= MAX_IMAGE && |img.segments| <= MAX_U16 && |Secs(img)| <= MAX_U16
    ensures CollectIs(NormalHeader(img).phnum, PhdrAt(b, NormalHeader(img)), NormalPhdrs(img))
  {
    hide FileBytes, PhdrNo, FileEnd, Secs, NormalHeader;
    var h := NormalHeader(img);
    HeaderFields(img);
    forall i | 0 <= i < h.phnum ensures PhdrAt(b, h)(i) == Ok(NormalPhdrs(img)[i]) {
      PhdrParses(img, t, b, i);
    }
    CollectOk(h.phnum, PhdrAt(b, h), NormalPhdrs(img));
  }

  lemma IdentAtFront(b: seq<u8>, h: ElfHeader)
    requires At(b, 0, EhdrBytes(h))
    ensures ReadBytes(b, 0, EI_NIDENT) == Ok(IdentBytes(h.ident)) && ParseEhdr(b, h.ident) == Ok(StoredEhdr(h))
  {
    hide EhdrBytes, ParseEhdr, IdentBytes;
    EhdrRoundTrip(b, h);
  }

  lemma EhdrLocated(img: ElfImage, t: seq<u8>, b: seq<u8>)
    requires img.header.ident.cls == img.ident.cls && b == FileBytes(img) + t
    ensures At(b, 0, EhdrBytes(BuiltHeader(img)))
  {
    hide *;
    Located(img, t, b);
  }

  lemma HeadersParse(img: ElfImage, t: seq<u8>, b: seq<u8>)
    requires OneIdent(img) && b == FileBytes(img) + t
    requires FileEnd(img) <= MAX_IMAGE && |img.segments| <= MAX_U16 && |Secs(img)| <= MAX_U16
    ensures ParseHeaders(b) == Ok(FileHeaders(img.ident, NormalHeader(img), NormalPhdrs(img)))
  {
    hide FileBytes, EhdrBytes, ParseIdent, ParseEhdr, PhdrAt, BuiltHeader, FileEnd, Secs, At, ReadBytes, IdentBytes;
    PhdrsParse(img, t, b);
    EhdrLocated(img, t, b);
    IdentAtFront(b, BuiltHeader(img));
    IdentRoundTrip(img.ident);
  }

  // ---------------------------------------------------------------- segments

  lemma PhdrFields(img: ElfImage, i: nat)
    requires FileEnd(img) <= MAX_IMAGE && i < |img.segments|
    ensures var h, s := NormalPhdrs(img)[i], img.segments[i];
            && h.kind == s.header.kind && h.filesz == Writable(s) <= FileEnd(img)
            && (Writable(s) > 0 ==> h.offset == OffsetOf(SegItems(img.segments), SegStart(img), i) <= FileEnd(img))
  {
    hide Congruent, Cursor, FileEnd, SegEnd, SecEnd;
    OffsetsAreSmall(img);
    var s := img.segments[i];
    if Writable(s) > 0 {
      var at := OffsetOf(SegItems(img.segments), SegStart(img), i);
      assert SegItem(s).bytes != [] && at + Writable(s) <= MAX_IMAGE;
      SmallIsStored(img.ident.cls, at);
      SmallIsStored(img.ident.cls, Writable(s));
    }
  }

  /** The bytes a placed segment's header points at. */
  lemma SegmentBytes(img: ElfImage, t: seq<u8>, b: seq<u8>, i: nat)
    requires OneIdent(img) && b == FileBytes(img) + t && i < |img.segments| && FileEnd(img) <= MAX_IMAGE
    requires Writable(img.segments[i]) > 0
    ensures CheckedLen(NormalPhdrs(img)[i].filesz, |b|)
    ensures ReadBytes(b, NormalPhdrs(img)[i].offset, NormalPhdrs(img)[i].filesz)
            == Ok(img.segments[i].data[..Writable(img.segments[i])])
  {
    hide Congruent, Cursor, FileEnd, FileBytes, NormalPhdrs, SegStart, OffsetOf;
    FileLong(img, t, b);
    PhdrFields(img, i);
    SegmentLocated(img, t, b, i);
  }

  lemma SegmentParses(img: ElfImage, t: seq<u8>, b: seq<u8>, i: nat)
    requires OneIdent(img) && b == FileBytes(img) + t && i < |img.segments| && FileEnd(img) <= MAX_IMAGE
    ensures FileSegment(b, NormalPhdrs(img)[i]) == Ok(NormalSegments(img)[i])
  {
    hide Congruent, Cursor, FileEnd, FileBytes, NormalPhdrs, SegStart, OffsetOf, CheckedLen, ReadBytes;
    PhdrFields(img, i);
    if Writable(img.segments[i]) > 0 {
      SegmentBytes(img, t, b, i);
    }
  }

  lemma SegmentsParse(img: ElfImage, t: seq<u8>, b: seq<u8>)
    requires OneIdent(img) && b == FileBytes(img) + t && FileEnd(img) <= MAX_IMAGE
    ensures CollectIs(|img.segments|, SegmentAt(b, NormalPhdrs(img)), NormalSegments(img))
  {
    hide FileBytes, FileEnd, FileSegment, NormalSegment;
    forall i | 0 <= i < |img.segments|
      ensures SegmentAt(b, NormalPhdrs(img))(i) == Ok(NormalSegments(img)[i])
    {
      SegmentParses(img, t, b, i);
    }
    CollectOk(|img.segments|, SegmentAt(b, NormalPhdrs(img)), NormalSegments(img));
  }

  // ---------------------------------------------------------------- sections

  /** The index `ensure_shstrtab` returns names a section that holds the blob of all names. */
  lemma NameTableSection(img: ElfImage)
    requires img.sections != []
    ensures var k := ShstrtabIndex(Ensured(img.sections));
            && k.Some? && k.value < |Secs(img)| && Secs(img)[k.value].header.kind == SHT_STRTAB
            && Secs(img)[k.value].data == Blob(Names(Secs(img)))
    ensures Names(Secs(img)) == Names(Ensured(img.sections))
  {
    if ShstrtabIndex(img.sections).None? {
      Build.AppendedIsFirst(img.sections);
    }
    assert Names(Secs(img)) == Names(Ensured(img.sections));
  }

  lemma ShdrFields(img: ElfImage, i: nat)
    requires FileEnd(img) <= MAX_IMAGE && i < |Secs(img)|
    ensures var h, s := NormalShdrs(img)[i], Secs(img)[i];
            && h.kind == s.header.kind && h.nameIndex == s.header.nameIndex
            && (!s.header.IsNobits() ==> h.size == |s.data| <= FileEnd(img))
            && (!s.header.IsNobits() && s.data != [] ==>
                  h.offset == OffsetOf(SecItems(Secs(img)), SegEnd(img), i) <= FileEnd(img))
  {
    hide Congruent, Cursor, FileEnd, SegEnd, SecEnd, Prepared;
    OffsetsAreSmall(img);
    var s := Secs(img)[i];
    if !s.header.IsNobits() && s.data != [] {
      var at := OffsetOf(SecItems(Secs(img)), SegEnd(img), i);
      assert SecItem(s).bytes != [] && at + |s.data| <= MAX_IMAGE;
      SmallIsStored(img.ident.cls, at);
      SmallIsStored(img.ident.cls, |s.data|);
    }
  }

  /** The bytes a placed section's header points at. */
  lemma SectionBytes(img: ElfImage, t: seq<u8>, b: seq<u8>, i: nat)
    requires OneIdent(img) && b == FileBytes(img) + t && i < |Secs(img)| && FileEnd(img) <= MAX_IMAGE
    requires !Secs(img)[i].header.IsNobits()
    ensures CheckedLen(NormalShdrs(img)[i].size, |b|)
    ensures ReadBytes(b, NormalShdrs(img)[i].offset, NormalShdrs(img)[i].size) == Ok(Secs(img)[i].data)
  {
    hide Congruent, Cursor, FileEnd, FileBytes, NormalShdrs, SegEnd, Prepared, OffsetOf;
    FileLong(img, t, b);
    ShdrFields(img, i);
    if Secs(img)[i].data != [] {
      SectionLocated(img, t, b, i);
    }
  }

  lemma NameTableParses(img: ElfImage, t: seq<u8>, b: seq<u8>)
    requires OneIdent(img) && b == FileBytes(img) + t && FileEnd(img) <= MAX_IMAGE
    requires img.sections != [] && |img.segments| <= MAX_U16 && |Secs(img)| <= MAX_U16
    ensures NameTable(b, NormalHeader(img), NormalShdrs(img)) == Some(Blob(Names(Secs(img))))
    ensures |Blob(Names(Secs(img)))| <= FileEnd(img)
  {
    hide Congruent, Cursor, FileEnd, FileBytes, NormalShdrs, SegEnd, Prepared, Blob;
    NameTableSection(img);
    var k := ShstrtabIndex(Ensured(img.sections)).value;
    SectionBytes(img, t, b, k);
    ShdrFields(img, k);
  }

  lemma {:induction false} SectionNameIsText(img: ElfImage, i: nat)
    requires TextNames(img) && i < |Secs(img)|
    ensures ValidUtf8(Secs(img)[i].name)
  {
    hide ValidUtf8, Blob;
    AsciiIsUtf8(SHSTRTAB);
    assert Secs(img)[i].name == Ensured(img.sections)[i].name;
  }

  lemma SecIs(img: ElfImage, i: nat)
    requires i < |Secs(img)|
    ensures |Ensured(img.sections)| == |Secs(img)| && Names(Ensured(img.sections)) == Names(Secs(img))
    ensures Secs(img)[i] == NamedSection(Ensured(img.sections)[i], Names(Secs(img)), i)
  {
    hide Blob, ShstrtabIndex, Ensured, NameOffset;
    assert Names(Ensured(img.sections)) == Names(Secs(img));
  }

  /** No name offset was truncated. */
  lemma NameIndexIs(img: ElfImage, i: nat)
    requires FileEnd(img) <= MAX_IMAGE && img.sections != [] && i < |Secs(img)|
    requires |Blob(Names(Secs(img)))| <= FileEnd(img)
    ensures Secs(img)[i].header.nameIndex == NameOffset(Names(Secs(img)), i)
  {
    hide FileEnd, Blob, ShstrtabIndex, Secs, Ensured, NameOffset, Low32;
    SecIs(img, i);
    BlobAt(Names(Secs(img)), i);
    SmallIsStored(Elf32, NameOffset(Names(Secs(img)), i));
  }

  /** Every section gets its own name back. */
  lemma NameParses(img: ElfImage, i: nat)
    requires FileEnd(img) <= MAX_IMAGE && img.sections != [] && i < |Secs(img)| && TextNames(img)
    requires |Blob(Names(Secs(img)))| <= FileEnd(img)
    ensures NameOf(Some(Blob(Names(Secs(img)))), NormalShdrs(img)[i]) == CStr(Secs(img)[i].name)
  {
    hide FileEnd, Blob, ValidUtf8, TableGet, CStr, Secs, NormalShdrs, TextNames;
    NameIndexIs(img, i);
    SectionNameIsText(img, i);
    BlobResolves(Names(Secs(img)), i);
    ShdrFields(img, i);
  }

  lemma SectionParses(img: ElfImage, t: seq<u8>, b: seq<u8>, i: nat)
    requires OneIdent(img) && b == FileBytes(img) + t && FileEnd(img) <= MAX_IMAGE && TextNames(img)
    requires img.sections != [] && |img.segments| <= MAX_U16 && |Secs(img)| <= MAX_U16 && i < |Secs(img)|
    ensures FileSection(b, Some(Blob(Names(Secs(img)))), NormalShdrs(img)[i]) == Ok(NormalSections(img)[i])
  {
    hide FileBytes, FileEnd, Secs, Blob, NormalShdrs, CheckedLen, ReadBytes, NameOf, CStr, TextNames, Names,
         FileSection, NormalSection;
    NameTableParses(img, t, b);
    NameParses(img, i);
    ShdrFields(img, i);
    if !Secs(img)[i].header.IsNobits() {
      SectionBytes(img, t, b, i);
    }
    SectionFrom(b, Some(Blob(Names(Secs(img)))), Secs(img)[i], NormalShdrs(img)[i]);
  }

  /** A section from its header, its name and its bytes. */
  lemma SectionFrom(b: seq<u8>, table: Option<seq<u8>>, s: Section, h: SectionHeader)
    requires h.kind == s.header.kind && NameOf(table, h) == CStr(s.name)
    requires !h.IsNobits() ==> h.size == |s.data| && CheckedLen(h.size, |b|)
                               && ReadBytes(b, h.offset, h.size) == Ok(s.data)
    ensures FileSection(b, table, h) == Ok(NormalSection(s, h))
  {
    hide ReadBytes, CheckedLen, NameOf, CStr;
  }

  lemma SectionsParse(img: ElfImage, t: seq<u8>, b: seq<u8>)
    requires OneIdent(img) && b == FileBytes(img) + t && FileEnd(img) <= MAX_IMAGE && TextNames(img)
    requires |img.segments| <= MAX_U16 && |Secs(img)| <= MAX_U16
    ensures FileSections(b, NormalHeader(img)) == Ok(NormalSections(img))
  {
    hide FileBytes, FileEnd, FileSection, NormalSection, ShdrNo, NameTable, TextNames, NormalHeader, Shoff;
    var h, raw, table := NormalHeader(img), NormalShdrs(img), Some(Blob(Names(Secs(img))));
    HeaderFields(img);
    ShoffPositive(img);
    if img.sections != [] {
      NameTableParses(img, t, b);
      forall i | 0 <= i < h.shnum ensures ShdrAt(b, h)(i) == Ok(raw[i]) {
        ShdrParses(img, t, b, i);
      }
      CollectOk(h.shnum, ShdrAt(b, h), raw);
      forall i | 0 <= i < |raw| ensures SectionAt(b, table, raw)(i) == Ok(NormalSections(img)[i]) {
        SectionParses(img, t, b, i);
      }
      CollectOk(|raw|, SectionAt(b, table, raw), NormalSections(img));
    }
  }

  /** A table offset of zero means no table, so no table is ever written at offset zero. */
  lemma ShoffPositive(img: ElfImage)
    ensures img.sections == [] ==> Shoff(img) == 0 && Secs(img) == []
    ensures img.sections != [] ==> Shoff(img) > 0 && |Secs(img)| > 0
  {
    hide Congruent, Cursor;
  }

  lemma TableEnds(img: ElfImage)
    requires img.sections != []
    ensures Shoff(img) + |ShdrTable(img)| == FileEnd(img)
  {
    hide Congruent, SecEnd, Secs, ShdrTable;
    TableLengths(img);
  }

  /** Where section header `i` was written. */
  lemma ShdrLocated(img: ElfImage, t: seq<u8>, b: seq<u8>, i: nat)
    requires OneIdent(img) && b == FileBytes(img) + t && i < |Secs(img)| && img.sections != []
    ensures i * ShdrSize(img.ident.cls) >= 0
    ensures At(b, Shoff(img) + i * ShdrSize(img.ident.cls),
               ShdrBytes(Shdrs(img)[i], img.ident.data, img.ident.cls))
    ensures Shoff(img) + i * ShdrSize(img.ident.cls) <= FileEnd(img)
  {
    hide FileBytes, Shdrs, At, ShdrBytes, Shoff, FileEnd, Secs, Flat;
    var parts := ShdrParts(Shdrs(img), img.ident.data, img.ident.cls);
    TableLocated(img, t, b);
    TableEnds(img);
    RecordLocated(b, Shoff(img), parts, ShdrSize(img.ident.cls), i);
  }

  lemma ShdrNoIs(b: seq<u8>, h: ElfHeader, i: nat)
    requires h.shentsize == ShdrSize(h.ident.cls)
    ensures i * ShdrSize(h.ident.cls) >= 0
    ensures h.shoff + i * ShdrSize(h.ident.cls) <= MAX_U64 ==>
              ShdrNo(b, h, i) == ParseShdr(b, h.shoff + i * ShdrSize(h.ident.cls), h.ident.data, h.ident.cls)
  {
    hide ParseShdr;
    MulNonNeg(i, ShdrSize(h.ident.cls));
  }

  lemma ShdrParses(img: ElfImage, t: seq<u8>, b: seq<u8>, i: nat)
    requires OneIdent(img) && b == FileBytes(img) + t && i < |Secs(img)| && img.sections != []
    requires FileEnd(img) <= MAX_IMAGE && |img.segments| <= MAX_U16 && |Secs(img)| <= MAX_U16
    ensures ShdrNo(b, NormalHeader(img), i) == Ok(NormalShdrs(img)[i])
  {
    hide FileBytes, FileEnd, Secs, At, NormalHeader, ShdrBytes, ParseShdr, ShdrNo, Shdrs, StoredShdr, Shoff;
    var c := img.ident.cls;
    ShdrLocated(img, t, b, i);
    HeaderFields(img);
    ShdrRoundTrip(b, Shoff(img) + i * ShdrSize(c), Shdrs(img)[i], img.ident.data, c);
    ShdrNoIs(b, NormalHeader(img), i);
  }

  // ---------------------------------------------------------------- the theorem

  lemma BuiltIs(img: ElfImage)
    requires Built(img).Ok?
    ensures Built(img).value == FileBytes(img)
    ensures FileEnd(img) <= MAX_IMAGE && |img.segments| <= MAX_U16 && |Secs(img)| <= MAX_U16
  {
    hide FileBytes, FileEnd, Secs;
  }

  lemma ParsedFrom(b: seq<u8>, hs: FileHeaders, segments: seq<Segment>, sections: seq<Section>)
    requires ParseHeaders(b) == Ok(hs) && FileSections(b, hs.header) == Ok(sections)
    requires CollectIs(|hs.phdrs|, SegmentAt(b, hs.phdrs), segments)
    ensures Parsed(b) == Ok(ElfImage(hs.ident, hs.header, segments, sections, Geometry(HeadersOf(segments)).base))
  {
    hide ParseHeaders, FileSections, SegmentAt, Geometry;
  }

  lemma NormalIs(img: ElfImage)
    ensures Normal(img) == ElfImage(img.ident, NormalHeader(img), NormalSegments(img), NormalSections(img),
                                    Geometry(HeadersOf(NormalSegments(img))).base)
  {
    hide BuiltHeader, Geometry, NormalSections;
    assert HeadersOf(NormalSegments(img)) == NormalPhdrs(img);
  }

  /**
   * Parsing inverts building. Whatever was built, and whatever follows it, the parser succeeds and returns
   * the normal form.
   */
  lemma ParseInvertsBuild(img: ElfImage, t: seq<u8>)
    requires OneIdent(img) && TextNames(img) && Built(img).Ok?
    ensures Parsed(Built(img).value + t) == Ok(Normal(img))
  {
    hide *;
    BuiltIs(img);
    var b := FileBytes(img) + t;
    HeadersParse(img, t, b);
    SegmentsParse(img, t, b);
    SectionsParse(img, t, b);
    NormalIs(img);
    ParsedFrom(b, FileHeaders(img.ident, NormalHeader(img), NormalPhdrs(img)),
               NormalSegments(img), NormalSections(img));
  }

  /** A reader takes the identity from the header that was written. */
  lemma IdentIsTheHeaders(img: ElfImage, t: seq<u8>, b: seq<u8>)
    requires img.header.ident.cls == img.ident.cls && b == FileBytes(img) + t && Parsed(b).Ok?
    ensures Parsed(b).value.ident == img.header.ident
  {
    hide FileBytes, EhdrBytes, ParseIdent, ParseEhdr, PhdrAt, At, ReadBytes, IdentBytes, FileSections, SegmentAt,
         ImageBase;
    EhdrLocated(img, t, b);
    IdentAtFront(b, BuiltHeader(img));
    IdentRoundTrip(img.header.ident);
  }

  /** The round trip holds exactly when the image and its header carry the same identity. */
  lemma RoundTripExactly(img: ElfImage, t: seq<u8>)
    requires img.header.ident.cls == img.ident.cls && TextNames(img) && Built(img).Ok?
    ensures Parsed(Built(img).value + t) == Ok(Normal(img)) <==> OneIdent(img)
  {
    hide Built, Parsed, TextNames, FileBytes, NormalSegments, NormalSections, BuiltHeader, Geometry;
    if OneIdent(img) {
      ParseInvertsBuild(img, t);
    } else if Parsed(Built(img).value + t).Ok? {
      BuiltIs(img);
      IdentIsTheHeaders(img, t, Built(img).value + t);
    }
  }
}
