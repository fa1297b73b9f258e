/** What the loader image holds, and when parsing it and mapping again gives it back. */
module MappedLaws {
  import opened Bytes
  import opened Headers
  import opened Images
  import opened Layout
  import opened FileLayout
  import opened Parse
  import opened Reader
  import opened ParseMapped
  import opened Mapped
  import opened RoundTrip
  import opened FixedPoint
  import opened Edit
  import opened GeometryLaws

  // ---------------------------------------------------------------- one byte of the image

  /** Segment `s` has a byte of data for position `p` of the image. */
  predicate Writes(s: Segment, base: u64, p: nat) {
    LoadStart(s, base).Some? && LoadStart(s, base).value <= p < LoadStart(s, base).value + |s.data|
  }

  /** Position `p` lies in the memory of the loadable segment `s`. */
  predicate Covers(s: Segment, base: u64, p: nat) {
    LoadStart(s, base).Some? && LoadStart(s, base).value <= p < LoadStart(s, base).value + s.header.memsz
  }

  /** The loads leave at `p` the byte of the last load that writes there, or zero. */
  function LoadedByte(segments: seq<Segment>, base: u64, k: nat, p: nat): u8
    requires k <= |segments|
  {
    if k == 0 then 0
    else if Writes(segments[k - 1], base, p) then segments[k - 1].data[p - LoadStart(segments[k - 1], base).value]
    else LoadedByte(segments, base, k - 1, p)
  }

  lemma {:induction false} LoadedByteIs(segments: seq<Segment>, base: u64, span: nat, k: nat, p: nat)
    requires k <= |segments| && p < span
    ensures PlaceLoads(segments, base, span, k)[p] == LoadedByte(segments, base, k, p)
  {
    hide Patch, LoadStart;
    if k > 0 {
      LoadedByteIs(segments, base, span, k - 1, p);
    }
  }

  /** Every byte of the loader image: the headers, then the last load that writes it, then zero. */
  lemma MappedByte(img: ElfImage, p: nat)
    requires Maps(img) && p < ImageSpan(img)
    ensures MappedAtHome(img).value[p]
            == if p < |HeaderBlock(img)| then HeaderBlock(img)[p]
               else LoadedByte(img.segments, ImageBase(img), |img.segments|, p)
  {
    hide HeaderBlock, PlaceLoads, LoadedByte, Geometry;
    LoadedByteIs(img.segments, ImageBase(img), ImageSpan(img), |img.segments|, p);
  }

  // ---------------------------------------------------------------- the loader's view

  /** No load holds more data than memory. */
  ghost predicate DataWithinMemory(segments: seq<Segment>) {
    forall i :: 0 <= i < |segments| && segments[i].IsLoad() ==> |segments[i].data| <= segments[i].header.memsz
  }

  /** The memory ranges of the loads that have memory are pairwise disjoint. */
  ghost predicate LoadsDisjoint(segments: seq<Segment>) {
    forall i, j :: 0 <= i < j < |segments| && segments[i].IsLoad() && segments[j].IsLoad()
                   && segments[i].header.memsz > 0 && segments[j].header.memsz > 0 ==>
      segments[i].header.vaddr + segments[i].header.memsz <= segments[j].header.vaddr
      || segments[j].header.vaddr + segments[j].header.memsz <= segments[i].header.vaddr
  }

  /** A load's data, extended with zeros to its memory. */
  function LoadByte(s: Segment, at: nat): u8 { if at < |s.data| then s.data[at] else 0 }

  lemma {:induction false} OneCover(segments: seq<Segment>, base: u64, k: nat, i: nat, p: nat)
    requires DataWithinMemory(segments) && LoadsDisjoint(segments)
    requires k <= |segments| && i < |segments| && Covers(segments[i], base, p)
    ensures LoadedByte(segments, base, k, p)
            == if i < k then LoadByte(segments[i], p - LoadStart(segments[i], base).value) else 0
  {
    if k > 0 {
      OneCover(segments, base, k - 1, i, p);
      if Writes(segments[k - 1], base, p) {
        assert Covers(segments[k - 1], base, p);
        assert i == k - 1;
      }
    }
  }

  lemma {:induction false} NoCover(segments: seq<Segment>, base: u64, k: nat, p: nat)
    requires DataWithinMemory(segments) && k <= |segments|
    requires forall i :: 0 <= i < k ==> !Covers(segments[i], base, p)
    ensures LoadedByte(segments, base, k, p) == 0
  {
    if k > 0 {
      NoCover(segments, base, k - 1, p);
      assert !Covers(segments[k - 1], base, p);
    }
  }

  /**
   * The loader's view: past the headers, every byte is the covering load's data extended with zeros to its memory
   * size, and zero where no load covers it.
   */
  lemma LoaderView(img: ElfImage, p: nat)
    requires Maps(img) && |HeaderBlock(img)| <= p < ImageSpan(img)
    requires DataWithinMemory(img.segments) && LoadsDisjoint(img.segments)
    ensures forall i :: 0 <= i < |img.segments| && Covers(img.segments[i], ImageBase(img), p) ==>
              MappedAtHome(img).value[p]
              == LoadByte(img.segments[i], p - LoadStart(img.segments[i], ImageBase(img)).value)
    ensures (forall i :: 0 <= i < |img.segments| ==> !Covers(img.segments[i], ImageBase(img), p)) ==>
              MappedAtHome(img).value[p] == 0
  {
    hide HeaderBlock, MappedAtHome, LoadedByte, Geometry, DataWithinMemory, LoadsDisjoint, LoadStart;
    MappedByte(img, p);
    var n := |img.segments|;
    forall i | 0 <= i < n && Covers(img.segments[i], ImageBase(img), p)
      ensures MappedAtHome(img).value[p]
              == LoadByte(img.segments[i], p - LoadStart(img.segments[i], ImageBase(img)).value)
    {
      OneCover(img.segments, ImageBase(img), n, i, p);
    }
    if forall i :: 0 <= i < n ==> !Covers(img.segments[i], ImageBase(img), p) {
      NoCover(img.segments, ImageBase(img), n, p);
    }
  }

  /**
   * The address reader agrees with the loader image: what `read_at_vaddr` returns for a range inside the load it
   * finds is what the image holds there.
   */
  lemma ReaderAgrees(img: ElfImage, p: nat, len: nat)
    requires Maps(img) && DataWithinMemory(img.segments) && LoadsDisjoint(img.segments)
    requires |HeaderBlock(img)| <= p && p + len <= ImageSpan(img) && ImageBase(img) + p <= MAX_U64
    requires var k := CoveringSegment(img.segments, ImageBase(img) + p);
             k.Some? && img.segments[k.value].IsLoad()
             && ImageBase(img) + p + len <= img.segments[k.value].header.vaddr + img.segments[k.value].header.memsz
    ensures ReadAtVaddr(img, ImageBase(img) + p, len) == Some(MappedAtHome(img).value[p..p + len])
  {
    hide HeaderBlock, MappedAtHome, ImageBase, ImageSpan, DataWithinMemory, LoadsDisjoint, CoveringSegment;
    var m, base := MappedAtHome(img).value, ImageBase(img);
    var k := CoveringSegment(img.segments, base + p).value;
    var r := ReadAtVaddr(img, base + p, len).value;
    LoadInsideImage(img, k);
    forall i | 0 <= i < len ensures m[p + i] == r[i] {
      LoaderView(img, p + i);
      ReadByte(img, base, p, len, i);
    }
    assert r == m[p..p + len];
  }

  /** Byte `i` of what the address reader returns. */
  lemma ReadByte(img: ElfImage, base: u64, p: nat, len: nat, i: nat)
    requires base + p <= MAX_U64 && i < len
    requires var k := CoveringSegment(img.segments, base + p);
             k.Some? && img.segments[k.value].IsLoad() && img.segments[k.value].header.vaddr >= base
             && base + p + len <= img.segments[k.value].header.vaddr + img.segments[k.value].header.memsz
    ensures var s := img.segments[CoveringSegment(img.segments, base + p).value];
            && ReadAtVaddr(img, base + p, len).Some? && Covers(s, base, p + i)
            && ReadAtVaddr(img, base + p, len).value[i] == LoadByte(s, p + i - LoadStart(s, base).value)
  {
    hide CoveringSegment;
  }

  // ---------------------------------------------------------------- parsing the loader image

  /** The memory every load describes fits the class; in ELF64 it always does. */
  ghost predicate LoadsFitClass(img: ElfImage) {
    forall i :: 0 <= i < |img.segments| ==> MemoryFits(img.ident.cls, img.segments[i].header)
  }

  predicate MemoryFits(c: ElfClass, h: ProgramHeader) { SameMemory(StoredPhdr(c, h), h) }

  /** The program headers as the loader image stores them. */
  function StoredHeaders(img: ElfImage): (hs: seq<ProgramHeader>)
    ensures |hs| == |img.segments|
    ensures forall i :: 0 <= i < |hs| ==> hs[i] == StoredPhdr(img.ident.cls, img.segments[i].header)
  {
    seq(|img.segments|, i requires 0 <= i < |img.segments| => StoredPhdr(img.ident.cls, img.segments[i].header))
  }

  /** The loader image has room for the headers. */
  ghost predicate HeadersInside(img: ElfImage) {
    OneIdent(img) && |img.segments| <= MAX_U16 && Maps(img) && |HeaderBlock(img)| <= ImageSpan(img)
  }

  /** An image whose loads can be read back from its loader image. */
  ghost predicate Readable(img: ElfImage) { HeadersInside(img) && LoadsFitClass(img) }

  lemma BlockLength(img: ElfImage)
    requires OneIdent(img)
    ensures |HeaderBlock(img)| == SegStart(img)
  {
    hide EhdrBytes, Flat;
    FlatHolds(PhdrParts(HeadersOf(img.segments), img.ident.data, img.ident.cls), PhdrSize(img.ident.cls));
  }

  lemma BlockLocated(img: ElfImage, m: seq<u8>)
    requires HeadersInside(img) && m == MappedAtHome(img).value
    ensures At(m, 0, EhdrBytes(MappedHeader(img)))
    ensures At(m, EhdrSize(img.ident.cls), Flat(PhdrParts(HeadersOf(img.segments), img.ident.data, img.ident.cls)))
  {
    hide EhdrBytes, Flat, PlaceLoads, Geometry, MappedHeader;
    var block := HeaderBlock(img);
    assert block[..|block|] == block;
    assert m[0..|block|] == block;
    AtConcat(m, 0, EhdrBytes(MappedHeader(img)),
             Flat(PhdrParts(HeadersOf(img.segments), img.ident.data, img.ident.cls)));
  }

  lemma MappedPhdrParses(img: ElfImage, m: seq<u8>, i: nat)
    requires HeadersInside(img) && m == MappedAtHome(img).value && i < |img.segments|
    ensures PhdrNo(m, StoredEhdr(MappedHeader(img)), i) == Ok(StoredHeaders(img)[i])
  {
    hide EhdrBytes, PhdrBytes, ParsePhdr, Flat, MappedAtHome, Geometry, At, PhdrNo, StoredPhdr, HeaderBlock;
    var c, e := img.ident.cls, img.ident.data;
    var parts := PhdrParts(HeadersOf(img.segments), e, c);
    BlockLocated(img, m);
    RecordLocated(m, EhdrSize(c), parts, PhdrSize(c), i);
    PhdrRoundTrip(m, EhdrSize(c) + i * PhdrSize(c), img.segments[i].header, e, c);
    PhdrNoIs(m, StoredEhdr(MappedHeader(img)), i);
    SpanBound(img, i, m);
  }

  lemma SpanBound(img: ElfImage, i: nat, m: seq<u8>)
    requires HeadersInside(img) && m == MappedAtHome(img).value && i < |img.segments|
    ensures i * PhdrSize(img.ident.cls) >= 0
    ensures EhdrSize(img.ident.cls) + i * PhdrSize(img.ident.cls) <= |m| <= MAX_IMAGE
  {
    hide HeaderBlock, PlaceLoads, Geometry;
    BlockLength(img);
    Arith.MulMono(PhdrSize(img.ident.cls), i, |img.segments|);
    Arith.MulNonNeg(i, PhdrSize(img.ident.cls));
  }

  lemma MappedHeadersParse(img: ElfImage, m: seq<u8>)
    requires HeadersInside(img) && m == MappedAtHome(img).value
    ensures ParseHeaders(m)
            == Ok(FileHeaders(img.ident, StoredEhdr(MappedHeader(img)), StoredHeaders(img)))
  {
    hide EhdrBytes, ParseIdent, ParseEhdr, ParsePhdr, PhdrNo, MappedAtHome, Geometry, At, HeaderBlock;
    var h := StoredEhdr(MappedHeader(img));
    BlockLocated(img, m);
    EhdrRoundTrip(m, MappedHeader(img));
    IdentRoundTrip(img.ident);
    IdentRead(m, img.ident);
    forall i | 0 <= i < h.phnum ensures PhdrAt(m, h)(i) == Ok(StoredHeaders(img)[i]) {
      MappedPhdrParses(img, m, i);
    }
    CollectOk(h.phnum, PhdrAt(m, h), StoredHeaders(img));
  }

  lemma IdentRead(m: seq<u8>, id: ElfIdent)
    requires At(m, 0, IdentBytes(id))
    ensures ReadBytes(m, 0, EI_NIDENT) == Ok(IdentBytes(id))
  {
    hide IdentBytes;
  }

  /** Every segment's mapped length fits the image. */
  ghost predicate LengthsInside(img: ElfImage) {
    forall i :: 0 <= i < |img.segments| && img.segments[i].header.kind != PT_NULL ==>
      MappedLength(StoredPhdr(img.ident.cls, img.segments[i].header)) <= ImageSpan(img)
  }

  lemma StoredMemory(img: ElfImage)
    requires LoadsFitClass(img)
    ensures AllSameMemory(StoredHeaders(img), HeadersOf(img.segments))
    ensures Geometry(StoredHeaders(img)) == Geometry(HeadersOf(img.segments))
  {
    hide GeometryOf, SameMemory, StoredPhdr;
    var hs, ks := StoredHeaders(img), HeadersOf(img.segments);
    forall i | 0 <= i < |hs| ensures SameMemory(hs[i], ks[i]) {
      assert MemoryFits(img.ident.cls, img.segments[i].header);
    }
    SameMemoryLoads(hs, ks);
  }

  /** The loader image parses if and only if every segment's mapped length fits it. */
  lemma MappedParses(img: ElfImage, m: seq<u8>)
    requires Readable(img) && m == MappedAtHome(img).value
    ensures MappedParsed(m).Ok? <==> LengthsInside(img)
    ensures MappedParsed(m).Ok? ==>
              var n := MappedParsed(m).value;
              && n.ident == img.ident && n.header == StoredEhdr(MappedHeader(img))
              && HeadersOf(n.segments) == StoredHeaders(img)
              && (forall i :: 0 <= i < |img.segments| ==>
                    MappedSegment(m, StoredHeaders(img)[i], ImageBase(img)) == Ok(n.segments[i]))
  {
    hide EhdrBytes, MappedAtHome, Geometry, LoadsFitClass, HeaderBlock, ParseHeaders, AllMappedSections, Lenient;
    MappedHeadersParse(img, m);
    StoredMemory(img);
    var phdrs := StoredHeaders(img);
    var f := MappedSegmentAt(m, phdrs, Geometry(phdrs).base);
    CollectAll(|phdrs|, f);
    MappedCap(img, m);
    forall i | 0 <= i < |phdrs|
      ensures f(i) == MappedSegment(m, phdrs[i], ImageBase(img))
      ensures f(i).Ok? <==> phdrs[i].kind == PT_NULL || MappedLength(phdrs[i]) <= ImageSpan(img)
      ensures f(i).Ok? ==> f(i).value.header == phdrs[i]
    {
    }
    if MappedParsed(m).Ok? {
      assert HeadersOf(MappedParsed(m).value.segments) == phdrs;
    }
  }

  lemma MappedCap(img: ElfImage, m: seq<u8>)
    requires MappedAtHome(img).Ok? && m == MappedAtHome(img).value
    ensures |m| == ImageSpan(img) <= MAX_IMAGE
  {
    hide HeaderBlock, PlaceLoads, Geometry;
  }

  // ---------------------------------------------------------------- mapping again

  /** Some load among the first `k` covers `p`. */
  ghost predicate CoveredBy(segments: seq<Segment>, base: u64, k: nat, p: nat)
    requires k <= |segments|
  {
    exists i :: 0 <= i < k && Covers(segments[i], base, p)
  }

  /** Past the headers, the loads write nothing but zeros where no load's memory is. */
  ghost predicate GapsBlank(img: ElfImage) {
    forall p :: |HeaderBlock(img)| <= p < ImageSpan(img)
                && !CoveredBy(img.segments, ImageBase(img), |img.segments|, p) ==>
      LoadedByte(img.segments, ImageBase(img), |img.segments|, p) == 0
  }

  /** A parsed load holds the image's bytes over the memory its header describes, zero past the end. */
  lemma ParsedLoad(m: seq<u8>, s: Segment, n: Segment, h: ProgramHeader, base: u64, p: nat)
    requires MappedSegment(m, h, base) == Ok(n) && SameMemory(h, s.header) && p < |m|
    ensures Writes(n, base, p) <==> Covers(s, base, p)
    ensures Writes(n, base, p) ==> n.data[p - LoadStart(n, base).value] == m[p]
  {
  }

  /** Mapping the parsed image reproduces every covered byte, even where loads overlap. */
  lemma {:induction false} Remapped(m: seq<u8>, xs: seq<Segment>, ns: seq<Segment>, hs: seq<ProgramHeader>, base: u64,
      k: nat, p: nat)
    requires |xs| == |ns| == |hs| && k <= |xs| && p < |m| && AllSameMemory(hs, HeadersOf(xs))
    requires forall i :: 0 <= i < k ==> MappedSegment(m, hs[i], base) == Ok(ns[i])
    ensures LoadedByte(ns, base, k, p) == if CoveredBy(xs, base, k, p) then m[p] else 0
  {
    hide MappedSegment, LoadStart, Covers, Writes, SameMemory;
    if k > 0 {
      Remapped(m, xs, ns, hs, base, k - 1, p);
      assert SameMemory(hs[k - 1], HeadersOf(xs)[k - 1]);
      ParsedLoad(m, xs[k - 1], ns[k - 1], hs[k - 1], base, p);
      LoadedByteStep(ns, base, k, p);
      if CoveredBy(xs, base, k, p) && !Covers(xs[k - 1], base, p) {
        assert CoveredBy(xs, base, k - 1, p);
      }
    }
  }

  lemma LoadedByteStep(segments: seq<Segment>, base: u64, k: nat, p: nat)
    requires 0 < k <= |segments|
    ensures LoadedByte(segments, base, k, p)
            == if Writes(segments[k - 1], base, p)
               then segments[k - 1].data[p - LoadStart(segments[k - 1], base).value]
               else LoadedByte(segments, base, k - 1, p)
  {
  }

  lemma BlockRebuilt(img: ElfImage, n: ElfImage)
    requires OneIdent(img) && |img.segments| <= MAX_U16
    requires n.ident == img.ident && n.header == StoredEhdr(MappedHeader(img))
    requires HeadersOf(n.segments) == StoredHeaders(img)
    ensures HeaderBlock(n) == HeaderBlock(img)
  {
    hide EhdrBytes, ElfTypeToU16, ElfTypeFromU16, Flat, WordBytes, PhdrBytes, StoredPhdr;
    var c, e, h := img.ident.cls, img.ident.data, MappedHeader(img);
    assert |n.segments| == |HeadersOf(n.segments)| == |img.segments|;
    TypeCode(img.header.elfType);
    StoredWord(c, e, h.entry);
    StoredWord(c, e, h.shoff);
    SameHeaderBytes(MappedHeader(n), h);
    forall i | 0 <= i < |img.segments|
      ensures PhdrBytes(HeadersOf(n.segments)[i], e, c) == PhdrBytes(HeadersOf(img.segments)[i], e, c)
    {
      StoredPhdrBytes(img.segments[i].header, e, c);
    }
    assert PhdrParts(HeadersOf(n.segments), e, c) == PhdrParts(HeadersOf(img.segments), e, c);
  }

  /** Position `p` of the image mapped again. */
  lemma RemappedByte(img: ElfImage, n: ElfImage, m: seq<u8>, p: nat)
    requires Readable(img) && m == MappedAtHome(img).value && LengthsInside(img)
    requires MappedParsed(m) == Ok(n) && p < |m|
    ensures Maps(n) && |MappedAtHome(n).value| == |m|
    ensures MappedAtHome(n).value[p]
            == if p < |HeaderBlock(img)| || CoveredBy(img.segments, ImageBase(img), |img.segments|, p) then m[p] else 0
  {
    hide HeaderBlock, LoadedByte, Geometry, LoadsFitClass, MappedSegment, MappedParsed, EhdrBytes, MappedHeader,
         PlaceLoads, CoveredBy, StoredEhdr;
    MappedParses(img, m);
    MappedCap(img, m);
    BlockRebuilt(img, n);
    StoredMemory(img);
    SameMemoryMaps(n, img);
    MappedByte(n, p);
    MappedByte(img, p);
    Remapped(m, img.segments, n.segments, StoredHeaders(img), ImageBase(img), |img.segments|, p);
  }

  /**
   * The mapped fixed point, exactly: the loader image of a readable image parses if and only if every segment's
   * mapped length fits, and then mapping the parsed image gives the same bytes if and only if no load leaves a
   * non-zero byte outside the loads' memory.
   */
  lemma MappedFixedPoint(img: ElfImage)
    requires Readable(img)
    ensures MappedParsed(MappedAtHome(img).value).Ok? <==> LengthsInside(img)
    ensures LengthsInside(img) ==> Maps(MappedParsed(MappedAtHome(img).value).value)
    ensures LengthsInside(img) ==>
              (MappedAtHome(MappedParsed(MappedAtHome(img).value).value) == MappedAtHome(img) <==> GapsBlank(img))
  {
    hide HeaderBlock, LoadedByte, Geometry, Readable, MappedParsed, LengthsInside, MappedAtHome, CoveredBy;
    var m := ReadableImage(img);
    MappedParses(img, m);
    if LengthsInside(img) {
      var n := MappedParsed(m).value;
      var again := MappedAtHome(n);
      forall p | 0 <= p < |m|
        ensures again.Ok? && |again.value| == |m|
        ensures again.value[p]
                == if p < |HeaderBlock(img)| || CoveredBy(img.segments, ImageBase(img), |img.segments|, p) then m[p]
                   else 0
        ensures p >= |HeaderBlock(img)| ==> m[p] == LoadedByte(img.segments, ImageBase(img), |img.segments|, p)
      {
        RemappedByte(img, n, m, p);
        MappedByte(img, p);
      }
      RemappedByte(img, n, m, 0);
      if GapsBlank(img) {
        assert again.value == m;
      } else {
        var p :| |HeaderBlock(img)| <= p < ImageSpan(img)
                 && !CoveredBy(img.segments, ImageBase(img), |img.segments|, p)
                 && LoadedByte(img.segments, ImageBase(img), |img.segments|, p) != 0;
        assert again.value[p] != m[p];
      }
    }
  }

  lemma ReadableImage(img: ElfImage) returns (m: seq<u8>)
    requires Readable(img)
    ensures MappedAtHome(img) == Ok(m) && Maps(img) && 0 < |m| == ImageSpan(img)
  {
    hide HeaderBlock, Geometry, MappedAtHome, LoadsFitClass;
    BlockLength(img);
    m := MappedAtHome(img).value;
  }

  /** Data that stays within memory leaves no such byte, so such images are fixed points, overlapping or not. */
  lemma WithinMemoryIsBlank(img: ElfImage)
    requires DataWithinMemory(img.segments)
    ensures GapsBlank(img)
  {
    hide HeaderBlock, LoadedByte, Geometry, Covers, DataWithinMemory;
    var n := |img.segments|;
    forall p | |HeaderBlock(img)| <= p < ImageSpan(img) && !CoveredBy(img.segments, ImageBase(img), n, p)
      ensures LoadedByte(img.segments, ImageBase(img), n, p) == 0
    {
      NoCover(img.segments, ImageBase(img), n, p);
    }
  }

  /** Every load ends inside the address space. */
  ghost predicate LoadsEnd(img: ElfImage) {
    forall i :: 0 <= i < |img.segments| && img.segments[i].IsLoad() ==>
      img.segments[i].header.vaddr + img.segments[i].header.memsz <= MAX_U64
  }

  /** The other segments declare no more file bytes than the image has. */
  ghost predicate OthersInside(img: ElfImage) {
    forall i :: 0 <= i < |img.segments| && !img.segments[i].IsLoad() && img.segments[i].header.kind != PT_NULL ==>
      img.segments[i].header.filesz <= ImageSpan(img)
  }

  /**
   * The mapped fixed point from conditions on the segments alone: headers that fit the span, load data no longer
   * than memory, other file sizes within the span. Overlapping loads are allowed.
   */
  lemma MappedImagesAreFixed(img: ElfImage)
    requires Readable(img) && DataWithinMemory(img.segments) && LoadsEnd(img) && OthersInside(img)
    ensures var m := MappedAtHome(img).value;
            MappedParsed(m).Ok? && Maps(MappedParsed(m).value) && MappedAtHome(MappedParsed(m).value) == Ok(m)
  {
    hide Readable, DataWithinMemory, ImageSpan, ImageBase, MappedAtHome, MappedParsed, GapsBlank;
    forall i | 0 <= i < |img.segments| && img.segments[i].header.kind != PT_NULL
      ensures MappedLength(StoredPhdr(img.ident.cls, img.segments[i].header)) <= ImageSpan(img)
    {
      ReadableFits(img, i);
      if img.segments[i].IsLoad() && img.segments[i].header.memsz > 0 {
        LoadInsideImage(img, i);
      }
    }
    MappedFixedPoint(img);
    WithinMemoryIsBlank(img);
    var m := ReadableImage(img);
  }

  lemma ReadableFits(img: ElfImage, i: nat)
    requires Readable(img) && i < |img.segments|
    ensures MemoryFits(img.ident.cls, img.segments[i].header)
  {
    hide Maps, HeaderBlock, ImageSpan, MemoryFits;
  }

  // ---------------------------------------------------------------- the second round

  lemma ParsedPhdrFits(data: seq<u8>, off: nat, e: Endian, c: ElfClass)
    requires ParsePhdr(data, off, e, c).Ok?
    ensures StoredPhdr(c, ParsePhdr(data, off, e, c).value) == ParsePhdr(data, off, e, c).value
  {
    hide U32, U64;
  }

  lemma ParsedIdent(data: seq<u8>, ident: ElfIdent)
    requires ParseEhdr(data, ident).Ok?
    ensures ParseEhdr(data, ident).value.ident == ident
  {
    hide U16, U32, U64;
  }

  /** What parsing loader-mapped bytes always yields: one identity, fields of the class, and data within memory. */
  lemma ParsedIsRegular(m: seq<u8>, n: ElfImage)
    requires MappedParsed(m) == Ok(n)
    ensures OneIdent(n) && LoadsFitClass(n) && |n.segments| <= MAX_U16 && DataWithinMemory(n.segments)
  {
    hide Geometry, ParseEhdr, ParsePhdr, AllMappedSections, Lenient, CheckedLen, ReadBytes, ParseIdent, SatSub;
    var headers := ParseHeaders(m).value;
    var base := Geometry(headers.phdrs).base;
    ParsedIdent(m, headers.ident);
    CollectAll(headers.header.phnum, PhdrAt(m, headers.header));
    CollectAll(|headers.phdrs|, MappedSegmentAt(m, headers.phdrs, base));
    forall i | 0 <= i < |n.segments|
      ensures MemoryFits(n.ident.cls, n.segments[i].header)
      ensures n.segments[i].IsLoad() ==> |n.segments[i].data| <= n.segments[i].header.memsz
    {
      assert PhdrAt(m, headers.header)(i) == Ok(headers.phdrs[i]);
      assert MappedSegmentAt(m, headers.phdrs, base)(i) == Ok(n.segments[i]);
      PhdrNoFits(m, headers.header, i);
    }
  }

  lemma PhdrNoFits(m: seq<u8>, h: ElfHeader, i: nat)
    requires PhdrNo(m, h, i).Ok?
    ensures StoredPhdr(h.ident.cls, PhdrNo(m, h, i).value) == PhdrNo(m, h, i).value
  {
    hide ParsePhdr, StoredPhdr;
    Arith.MulNonNeg(i, PhdrSize(h.ident.cls));
    ParsedPhdrFits(m, h.phoff + i * PhdrSize(h.ident.cls), h.ident.data, h.ident.cls);
  }

  /**
   * Mapping converges after one round for every image and whatever its field widths: of any bytes that parse as a
   * loader image, the parsed image's own loader image is a fixed point, when it exists, has room for its headers and
   * can be parsed.
   */
  lemma SecondMappingIsFixed(m: seq<u8>, n: ElfImage)
    requires MappedParsed(m) == Ok(n) && Maps(n) && |HeaderBlock(n)| <= ImageSpan(n)
    ensures MappedParsed(MappedAtHome(n).value).Ok? <==> LengthsInside(n)
    ensures LengthsInside(n) ==>
              var again := MappedParsed(MappedAtHome(n).value).value;
              Maps(again) && MappedAtHome(again) == MappedAtHome(n)
  {
    hide MappedParsed, MappedAtHome, HeaderBlock, ImageSpan, LengthsInside, GapsBlank, LoadsFitClass, DataWithinMemory,
         LoadsStartInside;
    ParsedIsRegular(m, n);
    MappedFixedPoint(n);
    WithinMemoryIsBlank(n);
  }

  /** In particular, whatever a readable image leaves outside its loads' memory, its second loader image is fixed. */
  lemma SecondRoundIsFixed(img: ElfImage)
    requires Readable(img) && LengthsInside(img)
    ensures MappedParsed(MappedAtHome(img).value).Ok?
    ensures var n := MappedParsed(MappedAtHome(img).value).value;
            && Maps(n) && MappedParsed(MappedAtHome(n).value).Ok?
            && MappedAtHome(MappedParsed(MappedAtHome(n).value).value) == MappedAtHome(n)
  {
    hide MappedParsed, MappedAtHome, HeaderBlock, ImageSpan, ImageBase, GapsBlank, LoadsStartInside, MappedHeader,
         MappedSegment, StoredPhdr, StoredEhdr;
    var m := ReadableImage(img);
    MappedFixedPoint(img);
    MappedParses(img, m);
    var n := MappedParsed(m).value;
    BlockRebuilt(img, n);
    StoredMemory(img);
    SameMemoryMaps(n, img);
    assert |n.segments| == |HeadersOf(n.segments)| == |img.segments|;
    forall i | 0 <= i < |n.segments| && n.segments[i].header.kind != PT_NULL
      ensures MappedLength(StoredPhdr(n.ident.cls, n.segments[i].header)) <= ImageSpan(n)
    {
      assert HeadersOf(n.segments)[i] == StoredHeaders(img)[i];
      StoredTwice(img.ident.cls, img.segments[i].header);
    }
    SecondMappingIsFixed(m, n);
  }

  lemma StoredTwice(c: ElfClass, h: ProgramHeader)
    ensures StoredPhdr(c, StoredPhdr(c, h)) == StoredPhdr(c, h) && StoredPhdr(c, h).kind == h.kind
  {
    hide Low32;
    LowTwice(h.offset);
    LowTwice(h.vaddr);
    LowTwice(h.paddr);
    LowTwice(h.filesz);
    LowTwice(h.memsz);
    LowTwice(h.align);
  }
}
