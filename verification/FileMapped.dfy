/** Serializing and reparsing commutes with mapping: a file is loaded as the image it was built from. */
module FileMapped {
  import opened Bytes
  import opened Strings
  import opened Headers
  import opened Images
  import opened Layout
  import opened FileLayout
  import opened Parse
  import opened RoundTrip
  import opened Reloc
  import opened Rebase
  import opened Mapped
  import opened GeometryLaws
  import opened MappedLaws
  import FixedPoint

  /** Every load's data is within its file size, and its address fields fit the class, as in ELF64 all do. */
  ghost predicate LoadsGoWhole(img: ElfImage) {
    forall i :: 0 <= i < |img.segments| && img.segments[i].IsLoad() ==>
      GoesWhole(img.ident.cls, img.segments[i])
  }

  predicate GoesWhole(c: ElfClass, s: Segment) { |s.data| <= s.header.filesz && MemoryFits(c, s.header) }

  // ---------------------------------------------------------------- the same loads

  /** Two segments are loaded alike. */
  predicate LoadAlike(s: Segment, t: Segment) { SameMemory(s.header, t.header) && (s.IsLoad() ==> s.data == t.data) }

  ghost predicate AllAlike(xs: seq<Segment>, ys: seq<Segment>) {
    |xs| == |ys| && forall i :: 0 <= i < |xs| ==> LoadAlike(xs[i], ys[i])
  }

  lemma NormalLoadsAlike(img: ElfImage)
    requires Built(img).Ok? && LoadsGoWhole(img)
    ensures AllAlike(img.segments, Normal(img).segments)
  {
    hide FileEnd, FileBytes, Cursor, Congruent, SegStart, NormalSections, BuiltHeader, Geometry, Built;
    BuiltIs(img);
    forall i | 0 <= i < |img.segments| ensures LoadAlike(img.segments[i], NormalSegments(img)[i]) {
      PhdrFields(img, i);
      var s := img.segments[i];
      assert s.data[..|s.data|] == s.data;
      if s.IsLoad() {
        assert GoesWhole(img.ident.cls, s);
      }
    }
  }

  lemma {:induction false} AlikeByte(xs: seq<Segment>, ys: seq<Segment>, base: u64, k: nat, p: nat)
    requires AllAlike(xs, ys) && k <= |xs|
    ensures LoadedByte(xs, base, k, p) == LoadedByte(ys, base, k, p)
  {
    if k > 0 {
      AlikeByte(xs, ys, base, k - 1, p);
      assert LoadAlike(xs[k - 1], ys[k - 1]);
    }
  }

  lemma AlikeMaps(a: ElfImage, b: ElfImage)
    requires AllAlike(a.segments, b.segments)
    ensures ImageBase(a) == ImageBase(b) && ImageSpan(a) == ImageSpan(b)
    ensures MappedAtHome(a).Ok? <==> MappedAtHome(b).Ok?
    ensures LoadsStartInside(a) <==> LoadsStartInside(b)
  {
    hide ImageBase, ImageSpan, MappedAtHome, LoadsStartInside, SameMemory;
    forall i | 0 <= i < |a.segments| ensures SameMemory(HeadersOf(a.segments)[i], HeadersOf(b.segments)[i]) {
      assert LoadAlike(a.segments[i], b.segments[i]);
    }
    SameMemoryMaps(a, b);
  }

  // ---------------------------------------------------------------- the same relocations

  /** A relocation table keeps its type and bytes; the added name table is none. */
  lemma TableSection(img: ElfImage, i: nat)
    requires i < |Secs(img)|
    ensures i < |img.sections| ==>
              var n, s := NormalSections(img)[i], img.sections[i];
              n.header.kind == s.header.kind && (s.header.kind in {SHT_RELA, SHT_REL} ==> n.data == s.data)
    ensures i >= |img.sections| ==> NormalSections(img)[i].header.kind == SHT_STRTAB
    ensures |Secs(img)| >= |img.sections|
  {
    hide Cursor, Congruent, CStr, NameOffset, Place, ShstrtabIndex;
    SecIs(img, i);
    FixedPoint.KindKept(img, i);
  }

  /** The relocation tables of `n` are those of `img`. */
  ghost predicate TablesAlike(img: ElfImage, n: ElfImage) {
    && n.ident == img.ident && |img.sections| <= |n.sections|
    && (forall i :: 0 <= i < |img.sections| ==> TableAlike(img.sections[i], n.sections[i]))
    && (forall i :: |img.sections| <= i < |n.sections| ==> n.sections[i].header.kind == SHT_STRTAB)
  }

  predicate TableAlike(s: Section, t: Section) {
    t.header.kind == s.header.kind && (s.header.kind in {SHT_RELA, SHT_REL} ==> t.data == s.data)
  }

  lemma {:induction false} SameTables(img: ElfImage, n: ElfImage, k: nat)
    requires TablesAlike(img, n) && k <= |n.sections|
    ensures RelocTables(n, k) == RelocTables(img, Min(k, |img.sections|))
  {
    hide TableParsed;
    if k > 0 {
      SameTables(img, n, k - 1);
      assert k <= |img.sections| ==> TableAlike(img.sections[k - 1], n.sections[k - 1]);
    }
  }

  lemma NormalTablesAlike(img: ElfImage)
    ensures TablesAlike(img, Normal(img))
  {
    hide BuiltHeader, Geometry, NormalSegments, Secs;
    SectionCount(img);
    forall i | 0 <= i < |Secs(img)|
      ensures i < |img.sections| ==> TableAlike(img.sections[i], NormalSections(img)[i])
      ensures i >= |img.sections| ==> NormalSections(img)[i].header.kind == SHT_STRTAB
    {
      TableSection(img, i);
    }
  }

  lemma SectionCount(img: ElfImage)
    ensures |Secs(img)| >= |img.sections|
  {
    hide Blob, NameOffset, ShstrtabIndex;
  }

  lemma RelocationsSurvive(img: ElfImage)
    ensures Relocations(Normal(img)) == Relocations(img)
  {
    hide RelocTables, Normal, TableAlike;
    NormalTablesAlike(img);
    SameTables(img, Normal(img), |Normal(img).sections|);
  }

  // ---------------------------------------------------------------- rebasing past the headers

  /** The images agree from `lo` on. */
  ghost predicate AgreeFrom(a: seq<u8>, b: seq<u8>, lo: nat) {
    |a| == |b| && forall p :: lo <= p < |a| ==> a[p] == b[p]
  }

  /** The slot does not cross `lo`. */
  predicate OneSide(s: Slot, lo: nat) { lo <= s.at || s.End() <= lo }

  lemma BumpAgrees(a: seq<u8>, b: seq<u8>, s: Slot, e: Endian, d: nat, lo: nat)
    requires AgreeFrom(a, b, lo) && Inside(s, |a|) && OneSide(s, lo)
    ensures AgreeFrom(Bump(a, s, e, d), Bump(b, s, e, d), lo)
  {
    hide Enc, Dec;
    if lo <= s.at {
      assert a[s.at..s.End()] == b[s.at..s.End()];
    }
  }

  lemma {:induction false} ApplyAgrees(a: seq<u8>, b: seq<u8>, slots: seq<Slot>, e: Endian, d: nat, lo: nat)
    requires AgreeFrom(a, b, lo) && AllInside(slots, |a|) && forall i :: 0 <= i < |slots| ==> OneSide(slots[i], lo)
    ensures AgreeFrom(Apply(a, slots, e, d), Apply(b, slots, e, d), lo)
    decreases |slots|
  {
    hide Bump, AgreeFrom, OneSide;
    SameLength(a, b, lo);
    if slots != [] {
      var init, last := slots[..|slots| - 1], slots[|slots| - 1];
      ApplyAgrees(a, b, init, e, d, lo);
      BumpAgrees(Apply(a, init, e, d), Apply(b, init, e, d), last, e, d, lo);
    }
  }

  lemma SameLength(a: seq<u8>, b: seq<u8>, lo: nat)
    requires AgreeFrom(a, b, lo)
    ensures |a| == |b|
  {
  }

  // ---------------------------------------------------------------- the theorem

  lemma HomeSurvives(img: ElfImage)
    requires OneIdent(img) && Built(img).Ok? && LoadsGoWhole(img) && Maps(img)
    ensures var n := Normal(img);
            && Maps(n) && ImageBase(n) == ImageBase(img) && |HeaderBlock(n)| == |HeaderBlock(img)|
            && AgreeFrom(MappedAtHome(img).value, MappedAtHome(n).value, |HeaderBlock(img)|)
  {
    hide Built, Normal, LoadsGoWhole, MappedAtHome, HeaderBlock, LoadsStartInside, AllAlike, LoadedByte, ImageBase,
         ImageSpan;
    var n := Normal(img);
    NormalLoadsAlike(img);
    AlikeMaps(img, n);
    BlocksMatch(img);
    AlikeCount(img.segments, n.segments);
    forall p | |HeaderBlock(img)| <= p < ImageSpan(img)
      ensures MappedAtHome(img).value[p] == MappedAtHome(n).value[p]
    {
      MappedByte(img, p);
      MappedByte(n, p);
      AlikeByte(img.segments, n.segments, ImageBase(img), |img.segments|, p);
    }
  }

  lemma AlikeCount(xs: seq<Segment>, ys: seq<Segment>)
    requires AllAlike(xs, ys)
    ensures |xs| == |ys|
  {
  }

  lemma BlocksMatch(img: ElfImage)
    requires OneIdent(img)
    ensures |HeaderBlock(Normal(img))| == |HeaderBlock(img)|
  {
    hide HeaderBlock, BuiltHeader, NormalPhdrs, NormalSections, Geometry;
    assert OneIdent(Normal(img));
    BlockLength(img);
    BlockLength(Normal(img));
  }

  /** No relocation slot of the image crosses the end of the headers. */
  ghost predicate SlotsClearHeaders(img: ElfImage) {
    Relocations(img).Ok? && forall i :: 0 <= i < |Slots(img, Relocations(img).value, ImageSpan(img))| ==>
      OneSide(Slots(img, Relocations(img).value, ImageSpan(img))[i], |HeaderBlock(img)|)
  }

  lemma NormalMachine(img: ElfImage)
    ensures Normal(img).header.machine == img.header.machine && Normal(img).ident == img.ident
  {
    hide NormalSegments, NormalSections, Geometry, NormalPhdrs, Secs, Shoff, Ensured, ShstrtabIndex;
  }

  lemma RebasedSurvives(img: ElfImage, base: u64)
    requires OneIdent(img) && Built(img).Ok? && LoadsGoWhole(img) && MapsAt(img, base)
    requires base != ImageBase(img) && SlotsClearHeaders(img)
    ensures var n := Normal(img);
            && MapsAt(n, base) && MappedAt(img, base).Ok? && MappedAt(n, base).Ok?
            && AgreeFrom(MappedAt(img, base).value, MappedAt(n, base).value, |HeaderBlock(img)|)
  {
    hide Built, Normal, LoadsGoWhole, MappedAtHome, HeaderBlock, LoadsStartInside, ImageBase, Relocations, Apply,
         TableSlots, AgreeFrom, EntryInRange, ImageSpan;
    var n := Normal(img);
    HomeSurvives(img);
    RelocationsSurvive(img);
    NormalMachine(img);
    var home := MappedAtHome(img).value;
    SameLength(home, MappedAtHome(n).value, |HeaderBlock(img)|);
    SpanIsLength(img);
    ApplyAgrees(home, MappedAtHome(n).value, Slots(img, Relocations(img).value, |home|), img.ident.data,
                Delta(img, base), |HeaderBlock(img)|);
  }

  lemma SpanIsLength(img: ElfImage)
    requires MappedAtHome(img).Ok?
    ensures |MappedAtHome(img).value| == ImageSpan(img)
  {
    hide HeaderBlock, PlaceLoads, Geometry;
  }

  /**
   * Serializing and reparsing commutes with mapping: whenever every load goes into the file whole, the image parsed
   * from the file maps at every base at which the original maps, to the same bytes past the headers. Away from the
   * preferred base this asks that no relocation slot crosses the end of the headers, whose offsets the file reassigns.
   */
  lemma FilesLoadAlike(img: ElfImage, base: u64)
    requires OneIdent(img) && TextNames(img) && Built(img).Ok? && LoadsGoWhole(img) && MapsAt(img, base)
    requires base != ImageBase(img) ==> SlotsClearHeaders(img)
    ensures Parsed(Built(img).value).Ok? && MappedAt(img, base).Ok?
    ensures var n := Parsed(Built(img).value).value;
            && MapsAt(n, base) && MappedAt(n, base).Ok?
            && AgreeFrom(MappedAt(img, base).value, MappedAt(n, base).value, |HeaderBlock(img)|)
  {
    hide Built, Parsed, Normal, TextNames, LoadsGoWhole, MappedAtHome, Rebased, HeaderBlock, AgreeFrom,
         SlotsClearHeaders, LoadsStartInside, ImageBase;
    ParseInvertsBuild(img, []);
    assert Built(img).value + [] == Built(img).value;
    HomeSurvives(img);
    if base != ImageBase(img) {
      RebasedSurvives(img, base);
    }
  }
}
