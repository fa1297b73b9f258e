/** The loader image in addresses and bytes: its window, its headers, and every byte the loads leave in it. */
module LoaderLaws {
  import opened Bytes
  import opened Headers
  import opened Images
  import opened FileLayout
  import opened Parse
  import opened Mapped
  import opened MappedLaws
  import opened GeometryLaws
  import opened Format
  import opened Survival

  // ---------------------------------------------------------------- the window

  /** A load with memory. */
  predicate Loads(s: Segment) { s.header.kind == 1 && s.header.memsz > 0 }

  /** Where a load ends; past the address space, at its last address. */
  function LoadEnd(s: Segment): u64 { Min(s.header.vaddr + s.header.memsz, 0xFFFF_FFFF_FFFF_FFFF) }

  /** `page` is the greatest alignment of the loads, and at least `0x1000`. */
  ghost predicate GreatestPage(segments: seq<Segment>, page: nat) {
    && page >= 0x1000 && (forall s :: s in segments && Loads(s) ==> s.header.align <= page)
    && (page == 0x1000 || exists s :: s in segments && Loads(s) && s.header.align == page)
  }

  ghost predicate LowestLoad(segments: seq<Segment>, low: nat) {
    && (forall s :: s in segments && Loads(s) ==> low <= s.header.vaddr)
    && exists s :: s in segments && Loads(s) && s.header.vaddr == low
  }

  ghost predicate HighestEnd(segments: seq<Segment>, top: nat) {
    && (forall s :: s in segments && Loads(s) ==> LoadEnd(s) <= top)
    && exists s :: s in segments && Loads(s) && LoadEnd(s) == top
  }

  /** `end` is the least multiple of the page at or above `top`, or the last address when that passes it. */
  ghost predicate RoundedUp(top: nat, page: nat, end: nat)
    requires page > 0
  {
    && top <= end <= 0xFFFF_FFFF_FFFF_FFFF && (end < 0xFFFF_FFFF_FFFF_FFFF ==> end % page == 0)
    && forall m :: top <= m < end ==> m % page != 0
  }

  lemma {:induction false} LoadFrom(hs: seq<ProgramHeader>, l: Load)
    requires l in LoadsOf(hs)
    ensures exists h :: h in hs && h.kind == 1 && l == Load(h.vaddr, h.memsz, h.align)
    decreases |hs|
  {
    var h := hs[|hs| - 1];
    if l in LoadsOf(hs[..|hs| - 1]) {
      LoadFrom(hs[..|hs| - 1], l);
    } else {
      assert h in hs && h.kind == 1 && l == Load(h.vaddr, h.memsz, h.align);
    }
  }

  /** The records of the loads, and the loads themselves. */
  lemma LoadsAre(segments: seq<Segment>)
    ensures forall s :: s in segments && Loads(s) ==>
              var l := Load(s.header.vaddr, s.header.memsz, s.header.align);
              l in LoadsOf(HeadersOf(segments)) && NonEmpty(l) && l.End() == LoadEnd(s)
    ensures forall l :: l in LoadsOf(HeadersOf(segments)) && NonEmpty(l) ==>
              exists s :: s in segments && Loads(s) && l == Load(s.header.vaddr, s.header.memsz, s.header.align)
  {
    hide LoadsOf;
    var hs := HeadersOf(segments);
    forall s | s in segments && Loads(s)
      ensures Load(s.header.vaddr, s.header.memsz, s.header.align) in LoadsOf(hs)
    {
      var i :| 0 <= i < |segments| && segments[i] == s;
      LoadIn(hs, i);
    }
    forall l | l in LoadsOf(hs) && NonEmpty(l)
      ensures exists s :: s in segments && Loads(s) && l == Load(s.header.vaddr, s.header.memsz, s.header.align)
    {
      LoadFrom(hs, l);
      var h :| h in hs && h.kind == 1 && l == Load(h.vaddr, h.memsz, h.align);
      var i :| 0 <= i < |hs| && hs[i] == h;
      assert segments[i] in segments && Loads(segments[i]);
    }
  }

  /** Without loads there is no window. */
  lemma NoWindow(img: ElfImage)
    requires forall s :: s in img.segments ==> !Loads(s)
    ensures ImageBase(img) == 0 && ImageSpan(img) == 0
  {
    hide LoadsOf, MaxEnd, PageOf;
    LoadsAre(img.segments);
    LowIsLeast(LoadsOf(HeadersOf(img.segments)));
  }

  /**
   * The window, in addresses: the base is the lowest load address rounded down to the page, and base plus span is
   * the highest load end rounded up to it, where the page is the greatest alignment and at least `0x1000`.
   */
  lemma WindowOfImage(img: ElfImage, page: nat, low: nat, top: nat)
    requires GreatestPage(img.segments, page) && LowestLoad(img.segments, low) && HighestEnd(img.segments, top)
    ensures ImageBase(img) == low - low % page
    ensures RoundedUp(top, page, ImageBase(img) + ImageSpan(img))
  {
    hide LoadsOf, MaxEnd, PageOf, MinVaddr, AlignUp, CeilTo, IsPage, IsLow, IsHigh, GeometryOf;
    var loads := LoadsOf(HeadersOf(img.segments));
    LoadsAre(img.segments);
    var s :| s in img.segments && Loads(s) && s.header.vaddr == low;
    assert !AllEmpty(loads);
    GeometryParts(loads);
    ExtremaAre(img.segments, page, low, top);
    AlignUpSaturates(top, page);
    NoneBelowCeil(top, page);
  }

  lemma NoneBelowCeil(top: nat, page: nat)
    requires page > 0
    ensures CeilTo(top, page) % page == 0 && forall m :: top <= m < CeilTo(top, page) ==> m % page != 0
  {
    hide CeilTo;
    CeilIsLeast(top, page);
    forall m | top <= m && m % page == 0 ensures CeilTo(top, page) <= m {
      assert MultipleOf(m, page);
    }
  }

  lemma ExtremaAre(segments: seq<Segment>, page: nat, low: nat, top: nat)
    requires GreatestPage(segments, page) && LowestLoad(segments, low) && HighestEnd(segments, top)
    ensures var loads := LoadsOf(HeadersOf(segments));
            GeometryOf(loads).page == page && MinVaddr(loads) == Some(low) && MaxEnd(loads) == top
  {
    hide LoadsOf, MaxEnd, PageOf, MinVaddr, AlignUp, FloorTo;
    var loads := LoadsOf(HeadersOf(segments));
    LoadsAre(segments);
    PageIsGreatest(loads);
    LowIsLeast(loads);
    HighIsGreatest(loads);
  }

  // ---------------------------------------------------------------- the headers

  /** The header fields that say where the section headers are; the loader image keeps the image's own. */
  predicate ShdrTableKept(c: ElfClass, h: ElfHeader, g: ElfHeader) {
    && g.shoff == Cut(c, h.shoff) && g.shentsize == h.shentsize && g.shnum == h.shnum && g.shstrndx == h.shstrndx
  }

  /**
   * The headers at the front of a loader image: the image's own fields, a program header table right behind the file
   * header, and every program header whole.
   */
  lemma HeadersOfLoader(img: ElfImage)
    requires HeadersInside(img)
    ensures ParseHeaders(MappedAtHome(img).value).Ok?
    ensures var hs, c := ParseHeaders(MappedAtHome(img).value).value, img.ident.cls;
            && HeadersAre(MappedAtHome(img).value, img.ident, hs.header, hs.phdrs) && hs.ident == img.ident
            && HeaderKept(img.header, hs.header) && PhdrTableIs(c, |img.segments|, hs.header)
            && ShdrTableKept(c, img.header, hs.header) && |hs.phdrs| == |img.segments|
            && forall i :: 0 <= i < |hs.phdrs| ==>
                 var h, g := img.segments[i].header, hs.phdrs[i];
                 PhdrKept(c, h, g) && g.offset == Cut(c, h.offset) && g.filesz == Cut(c, h.filesz)
  {
    hide ParseHeaders, MappedAtHome, HeadersAre, HeaderBlock, LoadsStartInside, ImageSpan, HeaderKept;
    var m := MappedAtHome(img).value;
    MappedHeadersParse(img, m);
    HeadersRead(m, ParseHeaders(m).value);
    HeaderSurvives(img.header, MappedHeader(img));
    TableFields(img);
    forall i | 0 <= i < |img.segments|
      ensures var h, g := img.segments[i].header, StoredHeaders(img)[i];
              PhdrKept(img.ident.cls, h, g) && g.offset == Cut(img.ident.cls, h.offset)
              && g.filesz == Cut(img.ident.cls, h.filesz)
    {
      PhdrSurvives(img.ident.cls, img.segments[i].header, img.segments[i].header);
    }
  }

  lemma TableFields(img: ElfImage)
    requires OneIdent(img) && |img.segments| <= MAX_U16
    ensures PhdrTableIs(img.ident.cls, |img.segments|, StoredEhdr(MappedHeader(img)))
    ensures ShdrTableKept(img.ident.cls, img.header, StoredEhdr(MappedHeader(img)))
  {
  }

  /** The headers take what their counts and sizes say. */
  lemma HeaderRoom(img: ElfImage)
    requires OneIdent(img)
    ensures |HeaderBlock(img)| == HeaderSize(img.ident.cls) + |img.segments| * SegmentEntry(img.ident.cls)
  {
    hide HeaderBlock;
    BlockLength(img);
  }

  // ---------------------------------------------------------------- the bytes of the loads

  /** The loadable segment has a byte of data at address `base + p`. */
  predicate HasByte(s: Segment, base: u64, p: nat) {
    s.header.kind == 1 && base <= s.header.vaddr <= base + p < s.header.vaddr + |s.data|
  }

  /** Segment `k` is the last with a byte at `base + p`. */
  ghost predicate LastWriter(segments: seq<Segment>, base: u64, k: nat, p: nat) {
    k < |segments| && HasByte(segments[k], base, p) && forall j :: k < j < |segments| ==> !HasByte(segments[j], base, p)
  }

  lemma {:induction false} LoadedByteOf(segments: seq<Segment>, base: u64, k: nat, n: nat, p: nat)
    requires LastWriter(segments, base, k, p) && k < n <= |segments|
    ensures LoadedByte(segments, base, n, p) == segments[k].data[base + p - segments[k].header.vaddr]
  {
    hide HasByte;
    if n - 1 > k {
      LoadedByteOf(segments, base, k, n - 1, p);
    }
    HasByteIs(segments[n - 1], base, p);
    HasByteIs(segments[k], base, p);
  }

  lemma {:induction false} NothingLoaded(segments: seq<Segment>, base: u64, n: nat, p: nat)
    requires n <= |segments| && forall j :: 0 <= j < n ==> !HasByte(segments[j], base, p)
    ensures LoadedByte(segments, base, n, p) == 0
  {
    hide HasByte;
    if n > 0 {
      NothingLoaded(segments, base, n - 1, p);
      HasByteIs(segments[n - 1], base, p);
    }
  }

  lemma HasByteIs(s: Segment, base: u64, p: nat)
    ensures HasByte(s, base, p) <==> Writes(s, base, p)
    ensures HasByte(s, base, p) ==>
              LoadStart(s, base).Some? && p - LoadStart(s, base).value == base + p - s.header.vaddr
  {
  }

  /** The loader image exists if and only if its span is at most 256 MiB, and it is that long. */
  lemma LoaderLength(img: ElfImage)
    ensures MappedAtHome(img).Ok? <==> ImageSpan(img) <= 0x1000_0000
    ensures MappedAtHome(img).Ok? ==> |MappedAtHome(img).value| == ImageSpan(img)
  {
    hide HeaderBlock, PlaceLoads, Geometry;
  }

  /** Past the headers each position holds the byte of the last load that has one for its address. */
  lemma LoaderByte(img: ElfImage, k: nat, p: nat)
    requires Maps(img) && |HeaderBlock(img)| <= p < ImageSpan(img) && LastWriter(img.segments, ImageBase(img), k, p)
    ensures |MappedAtHome(img).value| == ImageSpan(img)
    ensures var s := img.segments[k]; MappedAtHome(img).value[p] == s.data[ImageBase(img) + p - s.header.vaddr]
  {
    hide HeaderBlock, MappedAtHome, Geometry, LoadsStartInside, LoadedByte;
    LoaderLength(img);
    MappedByte(img, p);
    LoadedByteOf(img.segments, ImageBase(img), k, |img.segments|, p);
  }

  /** It is zero where no load has one. */
  lemma LoaderZero(img: ElfImage, p: nat)
    requires Maps(img) && |HeaderBlock(img)| <= p < ImageSpan(img)
    requires forall j :: 0 <= j < |img.segments| ==> !HasByte(img.segments[j], ImageBase(img), p)
    ensures |MappedAtHome(img).value| == ImageSpan(img) && MappedAtHome(img).value[p] == 0
  {
    hide HeaderBlock, MappedAtHome, Geometry, LoadsStartInside, LoadedByte, HasByte;
    LoaderLength(img);
    MappedByte(img, p);
    NothingLoaded(img.segments, ImageBase(img), |img.segments|, p);
  }
}
