/** `src/elf_file.rs`: the file container that keeps the bytes after the last structure. */
module ElfFiles {
  import opened Reader
  import opened Bytes
  import opened Headers
  import opened Images
  import opened Layout
  import opened FileLayout
  import opened Parse
  import opened RoundTrip
  import opened FixedPoint
  import opened Format
  import Build

  datatype ElfFile = ElfFile(image: ElfImage, trailing: seq<u8>)

  /** `checked_add(..).unwrap_or(end)`. */
  function AddOr(a: nat, b: nat, end: nat): nat { if a + b <= MAX_U64 then a + b else end }

  /** The highest end among `end` and the file ranges of the first `k` segments. */
  function SegmentsEnd(segments: seq<Segment>, end: nat, k: nat): nat
    requires k <= |segments|
  {
    if k == 0 then end
    else
      var e, h := SegmentsEnd(segments, end, k - 1), segments[k - 1].header;
      if h.filesz > 0 then Max(e, AddOr(h.offset, h.filesz, e)) else e
  }

  /** The highest end among `end` and the file ranges of the first `k` sections. */
  function SectionsEnd(sections: seq<Section>, end: nat, k: nat): nat
    requires k <= |sections|
  {
    if k == 0 then end
    else
      var e, h := SectionsEnd(sections, end, k - 1), sections[k - 1].header;
      if !h.IsNobits() && h.size > 0 then Max(e, AddOr(h.offset, h.size, e)) else e
  }

  /** `last_structure_end`. */
  function LastEnd(img: ElfImage): nat {
    var c, h := img.ident.cls, img.header;
    var first := Max(EhdrSize(c), AddOr(h.phoff, h.phnum * PhdrSize(c), EhdrSize(c)));
    var second := SegmentsEnd(img.segments, first, |img.segments|);
    var third := SectionsEnd(img.sections, second, |img.sections|);
    Max(third, AddOr(h.shoff, h.shnum * ShdrSize(c), third))
  }

  method LastStructureEnd(img: ElfImage) returns (end: nat)
    ensures end == LastEnd(img)
  {
    var c, h := img.ident.cls, img.header;
    end := EhdrSize(c);
    end := Max(end, AddOr(h.phoff, h.phnum * PhdrSize(c), end));
    ghost var first := end;
    for i := 0 to |img.segments|
      invariant end == SegmentsEnd(img.segments, first, i)
    {
      var s := img.segments[i].header;
      if s.filesz > 0 {
        end := Max(end, AddOr(s.offset, s.filesz, end));
      }
    }
    ghost var second := end;
    for i := 0 to |img.sections|
      invariant end == SectionsEnd(img.sections, second, i)
    {
      var s := img.sections[i].header;
      if !s.IsNobits() && s.size > 0 {
        end := Max(end, AddOr(s.offset, s.size, end));
      }
    }
    end := Max(end, AddOr(h.shoff, h.shnum * ShdrSize(c), end));
  }

  /** `ElfFile::parse`. */
  function FileParsed(data: seq<u8>): Result<ElfFile> {
    var img :- Parsed(data);
    Ok(ElfFile(img, if LastEnd(img) <= |data| then data[LastEnd(img)..] else []))
  }

  /** `ElfFile::try_build`. */
  function FileBuilt(f: ElfFile): Result<seq<u8>> {
    var bytes :- Built(f.image);
    Ok(bytes + f.trailing)
  }

  method ReadFile(data: seq<u8>) returns (r: Result<ElfFile>)
    ensures r == FileParsed(data)
  {
    var img := ParseFile(data);
    if img.Err? {
      return Err;
    }
    var end := LastStructureEnd(img.value);
    return Ok(ElfFile(img.value, if end <= |data| then data[end..] else []));
  }

  method WriteFile(f: ElfFile) returns (r: Result<seq<u8>>)
    requires f.image.header.ident.cls == f.image.ident.cls
    ensures r == FileBuilt(f)
  {
    var bytes := Build.TryBuild(f.image);
    if bytes.Err? {
      return Err;
    }
    return Ok(bytes.value + f.trailing);
  }

  // ---------------------------------------------------------------- the end is the built length

  /** The recorded file range of a segment ends at the cursor after it. */
  lemma SegmentEnds(img: ElfImage, i: nat)
    requires FileEnd(img) <= MAX_IMAGE && i < |img.segments|
    ensures var h, items := NormalSegments(img)[i].header, SegItems(img.segments);
            && Cursor(items, SegStart(img), i) <= Cursor(items, SegStart(img), i + 1)
            && (h.filesz == 0 ==> Cursor(items, SegStart(img), i + 1) == Cursor(items, SegStart(img), i))
            && (h.filesz > 0 ==> h.offset + h.filesz == Cursor(items, SegStart(img), i + 1) <= MAX_U64)
  {
    hide FileEnd, NormalPhdrs, SegStart, OffsetOf, Cursor, Body;
    PhdrFields(img, i);
    Step(SegItems(img.segments), SegStart(img), i);
  }

  lemma SegmentsEndZero(segments: seq<Segment>, end: nat)
    ensures SegmentsEnd(segments, end, 0) == end
  {
  }

  lemma SegmentsEndStep(segments: seq<Segment>, end: nat, k: nat)
    requires k < |segments|
    ensures var e, h := SegmentsEnd(segments, end, k), segments[k].header;
            && (h.filesz == 0 ==> SegmentsEnd(segments, end, k + 1) == e)
            && (h.filesz > 0 && e <= h.offset + h.filesz <= MAX_U64 ==>
                  SegmentsEnd(segments, end, k + 1) == h.offset + h.filesz)
  {
  }

  lemma {:induction false} SegmentsEndIsCursor(img: ElfImage, k: nat)
    requires FileEnd(img) <= MAX_IMAGE && k <= |img.segments|
    ensures SegmentsEnd(NormalSegments(img), SegStart(img), k) == Cursor(SegItems(img.segments), SegStart(img), k)
  {
    hide *;
    CursorZero(SegItems(img.segments), SegStart(img));
    if k == 0 {
      SegmentsEndZero(NormalSegments(img), SegStart(img));
    } else {
      SegmentsEndStep(NormalSegments(img), SegStart(img), k - 1);
      SegmentsEndIsCursor(img, k - 1);
      SegmentEnds(img, k - 1);
    }
  }

  /** The recorded file range of a section ends at the cursor after it. */
  lemma SectionEnds(img: ElfImage, i: nat)
    requires FileEnd(img) <= MAX_IMAGE && i < |Secs(img)|
    ensures var h, items := NormalSections(img)[i].header, SecItems(Secs(img));
            && Cursor(items, SegEnd(img), i) <= Cursor(items, SegEnd(img), i + 1)
            && (h.IsNobits() || h.size == 0 ==> Cursor(items, SegEnd(img), i + 1) == Cursor(items, SegEnd(img), i))
            && (!h.IsNobits() && h.size > 0 ==> h.offset + h.size == Cursor(items, SegEnd(img), i + 1) <= MAX_U64)
  {
    hide FileEnd, NormalShdrs, SegEnd, OffsetOf, Cursor, Body, Secs;
    ShdrFields(img, i);
    Step(SecItems(Secs(img)), SegEnd(img), i);
  }

  lemma SectionsEndZero(sections: seq<Section>, end: nat)
    ensures SectionsEnd(sections, end, 0) == end
  {
  }

  lemma SectionsEndStep(sections: seq<Section>, end: nat, k: nat)
    requires k < |sections|
    ensures var e, h := SectionsEnd(sections, end, k), sections[k].header;
            && (h.IsNobits() || h.size == 0 ==> SectionsEnd(sections, end, k + 1) == e)
            && (!h.IsNobits() && h.size > 0 && e <= h.offset + h.size <= MAX_U64 ==>
                  SectionsEnd(sections, end, k + 1) == h.offset + h.size)
  {
  }

  lemma {:induction false} SectionsEndIsCursor(img: ElfImage, k: nat)
    requires FileEnd(img) <= MAX_IMAGE && k <= |Secs(img)|
    ensures SectionsEnd(NormalSections(img), SegEnd(img), k) == Cursor(SecItems(Secs(img)), SegEnd(img), k)
  {
    hide *;
    CursorZero(SecItems(Secs(img)), SegEnd(img));
    if k == 0 {
      SectionsEndZero(NormalSections(img), SegEnd(img));
    } else {
      SectionsEndStep(NormalSections(img), SegEnd(img), k - 1);
      SectionsEndIsCursor(img, k - 1);
      SectionEnds(img, k - 1);
    }
  }

  /** For what a build produced, the last structure ends where the file ends. */
  lemma LastEndIsLength(img: ElfImage)
    requires OneIdent(img) && Built(img).Ok?
    ensures LastEnd(Normal(img)) == |Built(img).value|
  {
    hide FileBytes, FileEnd, Secs, SegmentsEnd, SectionsEnd, Congruent, NormalSegments, NormalSections,
         NormalHeader, Geometry, Cursor;
    BuiltIs(img);
    HeaderFields(img);
    NormalIs(img);
    SegmentsEndIsCursor(img, |img.segments|);
    SectionsEndIsCursor(img, |Secs(img)|);
    FileLength(img);
    EndIs(img);
  }

  lemma EndIs(img: ElfImage)
    ensures SegStart(img) == EhdrSize(img.ident.cls) + |img.segments| * PhdrSize(img.ident.cls)
    ensures img.sections == [] ==> FileEnd(img) == SecEnd(img) && Shoff(img) == 0 && |Secs(img)| == 0
    ensures img.sections != [] ==> FileEnd(img) == Shoff(img) + |Secs(img)| * ShdrSize(img.ident.cls)
    ensures SecEnd(img) <= FileEnd(img)
  {
    hide Congruent, Cursor;
  }

  /**
   * Trailing bytes are lossless: whatever follows a built file is kept verbatim, and the container rebuilds the
   * whole input if and only if the image is canonical and the class's width moves nothing.
   */
  lemma TrailingIsLossless(img: ElfImage, t: seq<u8>)
    requires OneIdent(img) && TextNames(img) && Built(img).Ok?
    ensures FileParsed(Built(img).value + t) == Ok(ElfFile(Normal(img), t))
    ensures FileBuilt(ElfFile(Normal(img), t)) == Ok(Built(img).value + t) <==> Canonical(img) && KeepsPlaces(img)
  {
    hide *;
    TrailingIsKept(img, t);
    RebuildFixedPoint(img);
    ParseInvertsBuild(img, []);
    assert Built(img).value + [] == Built(img).value;
    WithTrailing(Normal(img), Built(img).value, t);
  }

  lemma TrailingIsKept(img: ElfImage, t: seq<u8>)
    requires OneIdent(img) && TextNames(img) && Built(img).Ok?
    ensures FileParsed(Built(img).value + t) == Ok(ElfFile(Normal(img), t))
  {
    hide Built, Parsed, Normal, LastEnd, TextNames;
    ParseInvertsBuild(img, t);
    LastEndIsLength(img);
    var b := Built(img).value;
    assert (b + t)[|b|..] == t;
  }

  lemma WithTrailing(img: ElfImage, b: seq<u8>, t: seq<u8>)
    ensures FileBuilt(ElfFile(img, t)) == Ok(b + t) <==> Built(img) == Ok(b)
  {
    hide Built;
    SuffixCancels(Built(img), b, t);
  }

  lemma SuffixCancels(r: Result<seq<u8>>, b: seq<u8>, t: seq<u8>)
    ensures r.Ok? ==> (r.value + t == b + t <==> r.value == b)
  {
    if r.Ok? && r.value + t == b + t {
      assert |r.value| == |b|;
      assert r.value == (r.value + t)[..|b|] == b;
    }
  }

  // ---------------------------------------------------------------- the end of any file

  /** `x` is where some structure ends: the headers, a segment with file bytes, a section with file bytes, a table. */
  ghost predicate EndsAt(img: ElfImage, x: nat) {
    var c, h := img.ident.cls, img.header;
    || x == HeaderSize(c)
    || (x <= 0xFFFF_FFFF_FFFF_FFFF
        && (|| x == h.phoff + h.phnum * SegmentEntry(c)
            || x == h.shoff + h.shnum * SectionEntry(c)
            || SegmentEndsAt(img.segments, |img.segments|, x)
            || SectionEndsAt(img.sections, |img.sections|, x)))
  }

  /** One of the first `k` segments has file bytes that end at `x`. */
  ghost predicate SegmentEndsAt(segments: seq<Segment>, k: nat, x: nat)
    requires k <= |segments|
  {
    exists i :: 0 <= i < k && segments[i].header.filesz > 0
                && x == segments[i].header.offset + segments[i].header.filesz
  }

  /** One of the first `k` sections has file bytes that end at `x`. */
  ghost predicate SectionEndsAt(sections: seq<Section>, k: nat, x: nat)
    requires k <= |sections|
  {
    exists i :: 0 <= i < k && sections[i].header.kind != 8 && sections[i].header.size > 0
                && x == sections[i].header.offset + sections[i].header.size
  }

  lemma {:induction false} SegmentsEndIs(segments: seq<Segment>, end: nat, k: nat)
    requires k <= |segments| && end <= MAX_U64
    ensures var top := SegmentsEnd(segments, end, k);
            && end <= top <= MAX_U64 && (top == end || SegmentEndsAt(segments, k, top))
            && forall x: nat :: SegmentEndsAt(segments, k, x) && x <= MAX_U64 ==> x <= top
  {
    hide SegmentEndsAt;
    SegmentEndsNone(segments);
    if k > 0 {
      SegmentsEndIs(segments, end, k - 1);
      forall x: nat
        ensures SegmentEndsAt(segments, k, x)
                <==> SegmentEndsAt(segments, k - 1, x) || SegmentEndsAtLast(segments[k - 1], x)
      {
        SegmentEndsLast(segments, k, x);
      }
    }
  }

  predicate SegmentEndsAtLast(s: Segment, x: nat) {
    var h := s.header;
    h.filesz > 0 && x == h.offset + h.filesz
  }

  lemma SegmentEndsNone(segments: seq<Segment>)
    ensures forall x: nat :: !SegmentEndsAt(segments, 0, x)
  {
  }

  lemma SegmentEndsLast(segments: seq<Segment>, k: nat, x: nat)
    requires 0 < k <= |segments|
    ensures SegmentEndsAt(segments, k, x)
            <==> SegmentEndsAt(segments, k - 1, x) || SegmentEndsAtLast(segments[k - 1], x)
  {
  }

  lemma {:induction false} SectionsEndIs(sections: seq<Section>, end: nat, k: nat)
    requires k <= |sections| && end <= MAX_U64
    ensures var top := SectionsEnd(sections, end, k);
            && end <= top <= MAX_U64 && (top == end || SectionEndsAt(sections, k, top))
            && forall x: nat :: SectionEndsAt(sections, k, x) && x <= MAX_U64 ==> x <= top
  {
    hide SectionEndsAt;
    SectionEndsNone(sections);
    if k > 0 {
      SectionsEndIs(sections, end, k - 1);
      forall x: nat
        ensures SectionEndsAt(sections, k, x)
                <==> SectionEndsAt(sections, k - 1, x) || SectionEndsAtLast(sections[k - 1], x)
      {
        SectionEndsLast(sections, k, x);
      }
    }
  }

  predicate SectionEndsAtLast(s: Section, x: nat) {
    var h := s.header;
    h.kind != 8 && h.size > 0 && x == h.offset + h.size
  }

  lemma SectionEndsNone(sections: seq<Section>)
    ensures forall x: nat :: !SectionEndsAt(sections, 0, x)
  {
  }

  lemma SectionEndsLast(sections: seq<Section>, k: nat, x: nat)
    requires 0 < k <= |sections|
    ensures SectionEndsAt(sections, k, x)
            <==> SectionEndsAt(sections, k - 1, x) || SectionEndsAtLast(sections[k - 1], x)
  {
  }

  /** The last structural byte of any image: the greatest end of a structure, those past the address space aside. */
  lemma LastEndIsGreatest(img: ElfImage)
    ensures EndsAt(img, LastEnd(img)) && forall x: nat :: EndsAt(img, x) ==> x <= LastEnd(img)
  {
    hide SegmentsEnd, SectionsEnd, SegmentEndsAt, SectionEndsAt;
    var c, h := img.ident.cls, img.header;
    var first := Max(EhdrSize(c), AddOr(h.phoff, h.phnum * PhdrSize(c), EhdrSize(c)));
    SegmentsEndIs(img.segments, first, |img.segments|);
    SectionsEndIs(img.sections, SegmentsEnd(img.segments, first, |img.segments|), |img.sections|);
  }

  /** Splitting a file, exactly: the image it describes, and what follows the greatest end of a structure. */
  lemma SplitsExactly(b: seq<u8>, f: ElfFile, end: nat)
    requires EndsAt(f.image, end) && forall x: nat :: EndsAt(f.image, x) ==> x <= end
    ensures FileParsed(b) == Ok(f) <==> FileSays(b, f.image) && f.trailing == if end <= |b| then b[end..] else []
  {
    hide Parsed, FileSays, LastEnd, EndsAt;
    ParserIsExact(b, f.image);
    LastEndIsGreatest(f.image);
  }

  // ---------------------------------------------------------------- embedded images

  /** `ElfImage::read_from` in file layout: the image whose header lies at `base` of a source. */
  function ReadFrom(src: Source, base: nat): Result<ElfImage> { Parsed(Shifted(src, base).data) }

  /** A built image embedded anywhere in a source reads as if it stood alone. */
  lemma EmbeddedImage(img: ElfImage, before: seq<u8>, after: seq<u8>)
    requires OneIdent(img) && TextNames(img) && Built(img).Ok?
    ensures ReadFrom(SliceSource(before + Built(img).value + after), |before|) == Ok(Normal(img))
  {
    hide Built, Parsed, Normal, TextNames, OneIdent;
    var b := Built(img).value;
    assert (before + b + after)[|before|..] == b + after;
    ParseInvertsBuild(img, after);
  }
}
