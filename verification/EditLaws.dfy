/** Editing, reading and translating in addresses and bytes. */
module EditLaws {
  import opened Bytes
  import opened Images
  import opened Edit
  import opened Inspect

  // ---------------------------------------------------------------- covering segments

  /** The segment's memory holds the address; an end past the address space stops at its last address. */
  predicate InMemory(s: Segment, v: nat) {
    s.header.vaddr <= v < Min(s.header.vaddr + s.header.memsz, 0xFFFF_FFFF_FFFF_FFFF)
  }

  /** Segment `k` is the first load whose memory holds `v`. */
  ghost predicate FirstLoadAt(segments: seq<Segment>, v: nat, k: nat) {
    && k < |segments| && segments[k].header.kind == 1 && InMemory(segments[k], v)
    && forall j :: 0 <= j < k ==> !(segments[j].header.kind == 1 && InMemory(segments[j], v))
  }

  /** Segment `k` is the first of any type whose memory holds `v`. */
  ghost predicate FirstAt(segments: seq<Segment>, v: nat, k: nat) {
    k < |segments| && InMemory(segments[k], v) && forall j :: 0 <= j < k ==> !InMemory(segments[j], v)
  }

  ghost predicate SomeAt(segments: seq<Segment>, v: nat) { exists k: nat :: FirstAt(segments, v, k) }

  lemma InMemoryIs(s: Segment, v: u64)
    ensures s.ContainsVaddr(v) <==> InMemory(s, v)
  {
  }

  lemma CoveringLoadIs(segments: seq<Segment>, v: u64, k: nat)
    ensures CoveringLoad(segments, v) == Some(k) <==> FirstLoadAt(segments, v, k)
  {
    hide CoveringLoad, InMemory;
    forall s: Segment ensures s.ContainsVaddr(v) <==> InMemory(s, v) {
      InMemoryIs(s, v);
    }
  }

  lemma CoveringSegmentIs(segments: seq<Segment>, v: u64, k: nat)
    ensures CoveringSegment(segments, v) == Some(k) <==> FirstAt(segments, v, k)
  {
    hide CoveringSegment, InMemory;
    forall s: Segment ensures s.ContainsVaddr(v) <==> InMemory(s, v) {
      InMemoryIs(s, v);
    }
  }

  // ---------------------------------------------------------------- editing

  /** The edit at `v` can be made in segment `k`: the data of the first load there holds the whole range. */
  ghost predicate Editable(img: ElfImage, v: nat, d: seq<u8>, k: nat) {
    FirstLoadAt(img.segments, v, k) && v - img.segments[k].header.vaddr + |d| <= |img.segments[k].data|
  }

  ghost predicate SomeEditable(img: ElfImage, v: nat, d: seq<u8>) { exists k: nat :: Editable(img, v, d, k) }

  /** When an edit succeeds. */
  lemma EditsExactly(img: ElfImage, ioff: u64, d: seq<u8>)
    ensures Edited(img, ioff, d).Some?
            <==> ImageBase(img) + ioff <= 0xFFFF_FFFF_FFFF_FFFF && SomeEditable(img, ImageBase(img) + ioff, d)
  {
    hide Geometry, CoveringLoad, FirstLoadAt, EditSections, Patch;
    var v := ImageBase(img) + ioff;
    if v <= MAX_U64 {
      forall k: nat ensures CoveringLoad(img.segments, v) == Some(k) <==> FirstLoadAt(img.segments, v, k) {
        CoveringLoadIs(img.segments, v, k);
      }
      if Edited(img, ioff, d).Some? {
        assert Editable(img, v, d, CoveringLoad(img.segments, v).value);
      }
    }
  }

  /** Byte `p` of `before` after `d` is written at position `at`. */
  function Overwritten(before: seq<u8>, at: int, d: seq<u8>, p: nat): u8
    requires p < |before|
  {
    if at <= p < at + |d| then d[p - at] else before[p]
  }

  /** What an edit does to the segments: the bytes of the covering load change, and nothing else. */
  lemma SegmentsOfEdit(img: ElfImage, ioff: u64, d: seq<u8>, k: nat)
    requires Edited(img, ioff, d).Some? && Editable(img, ImageBase(img) + ioff, d, k)
    ensures var e, at := Edited(img, ioff, d).value, ImageBase(img) + ioff - img.segments[k].header.vaddr;
            && e.ident == img.ident && e.header == img.header && e.runtimeBase == img.runtimeBase
            && |e.segments| == |img.segments| && |e.sections| == |img.sections|
            && (forall i :: 0 <= i < |img.segments| && i != k ==> e.segments[i] == img.segments[i])
            && e.segments[k].header == img.segments[k].header
            && |e.segments[k].data| == |img.segments[k].data|
            && (forall p :: 0 <= p < |img.segments[k].data| ==>
                  e.segments[k].data[p] == Overwritten(img.segments[k].data, at, d, p))
  {
    hide Geometry, CoveringLoad, FirstLoadAt;
    CoveringLoadIs(img.segments, ImageBase(img) + ioff, k);
  }

  /**
   * The edit at `v` reaches the section: it is allocated, has file bytes, its memory holds `v`, and its data holds
   * the whole range.
   */
  predicate SectionReached(s: Section, v: nat, d: seq<u8>) {
    && s.header.flags / 2 % 2 == 1 && s.header.kind != 8
    && s.header.addr <= v < Min(s.header.addr + s.header.size, 0xFFFF_FFFF_FFFF_FFFF)
    && v - s.header.addr + |d| <= |s.data|
  }

  /** What an edit does to each section. */
  lemma SectionOfEdit(img: ElfImage, ioff: u64, d: seq<u8>, i: nat)
    requires Edited(img, ioff, d).Some? && i < |img.sections|
    ensures |Edited(img, ioff, d).value.sections| == |img.sections|
    ensures var s, t, v := img.sections[i], Edited(img, ioff, d).value.sections[i], ImageBase(img) + ioff;
            && t.header == s.header && t.name == s.name && |t.data| == |s.data|
            && forall p :: 0 <= p < |s.data| ==>
                 t.data[p]
                 == if SectionReached(s, v, d) then Overwritten(s.data, v - s.header.addr, d, p) else s.data[p]
  {
    hide Geometry, CoveringLoad;
    TargetIs(img, ioff, d);
  }

  lemma TargetIs(img: ElfImage, ioff: u64, d: seq<u8>)
    requires Edited(img, ioff, d).Some?
    ensures Target(img, ioff, d).Some? && Target(img, ioff, d).value.0 == ImageBase(img) + ioff
  {
    hide Geometry, CoveringLoad, EditSections, Patch;
  }

  // ---------------------------------------------------------------- reading

  /** Byte `i` from address `v` on, in the segment's data or past it. */
  function ByteFrom(s: Segment, v: nat, i: nat): u8
    requires s.header.vaddr <= v
  {
    var at := v - s.header.vaddr + i;
    if at < |s.data| then s.data[at] else 0
  }

  /** Reading through an offset succeeds if and only if some segment of any type is there. */
  lemma ReadsExactly(img: ElfImage, ioff: u64, len: nat)
    ensures ReadIoff(img, ioff, len).Some?
            <==> ImageBase(img) + ioff <= 0xFFFF_FFFF_FFFF_FFFF && SomeAt(img.segments, ImageBase(img) + ioff)
  {
    hide Geometry, CoveringSegment, FirstAt;
    var v := ImageBase(img) + ioff;
    if v <= MAX_U64 {
      forall k: nat ensures CoveringSegment(img.segments, v) == Some(k) <==> FirstAt(img.segments, v, k) {
        CoveringSegmentIs(img.segments, v, k);
      }
      var c := CoveringSegment(img.segments, v);
      if c.Some? {
        assert FirstAt(img.segments, v, c.value);
      }
    }
  }

  /** What is read: the bytes of the first segment there, then zeros. */
  lemma BytesRead(img: ElfImage, ioff: u64, len: nat, k: nat)
    requires ImageBase(img) + ioff <= 0xFFFF_FFFF_FFFF_FFFF && FirstAt(img.segments, ImageBase(img) + ioff, k)
    ensures ReadIoff(img, ioff, len).Some? && |ReadIoff(img, ioff, len).value| == len
    ensures forall i :: 0 <= i < len ==>
              ReadIoff(img, ioff, len).value[i] == ByteFrom(img.segments[k], ImageBase(img) + ioff, i)
  {
    hide Geometry, CoveringSegment;
    CoveringSegmentIs(img.segments, ImageBase(img) + ioff, k);
  }

  /** The borrowing reader, exactly: the same segment, as much of the range as its data holds. */
  lemma SlicesExactly(img: ElfImage, ioff: u64, len: nat, s: seq<u8>)
    ensures ReadAtIoff(img, ioff, len) == Some(s)
            <==> && ImageBase(img) + ioff <= 0xFFFF_FFFF_FFFF_FFFF
                 && exists k: nat :: FirstAt(img.segments, ImageBase(img) + ioff, k)
                                     && IsSlice(img.segments[k], ImageBase(img) + ioff, len, s)
  {
    hide Geometry, CoveringSegment, FirstAt;
    var v := ImageBase(img) + ioff;
    if v <= MAX_U64 {
      forall k: nat ensures CoveringSegment(img.segments, v) == Some(k) <==> FirstAt(img.segments, v, k) {
        CoveringSegmentIs(img.segments, v, k);
      }
      var c := CoveringSegment(img.segments, v);
      if c.Some? {
        SliceIs(img.segments[c.value], v, len, s);
        assert FirstAt(img.segments, v, c.value);
      }
    }
  }

  /** `s` is what the segment's data holds from address `v` on, at most `len` bytes. */
  predicate IsSlice(g: Segment, v: nat, len: nat, s: seq<u8>) {
    && g.header.vaddr <= v && v - g.header.vaddr <= |g.data|
    && |s| == Min(len, |g.data| - (v - g.header.vaddr))
    && s == g.data[v - g.header.vaddr..v - g.header.vaddr + |s|]
  }

  lemma SliceIs(g: Segment, v: u64, len: nat, s: seq<u8>)
    requires g.ContainsVaddr(v)
    ensures DataAtVaddr(g, v, len) == Some(s) <==> IsSlice(g, v, len, s)
  {
    var at := v - g.header.vaddr;
    if at <= |g.data| {
      var n := Min(len, |g.data| - at);
      assert g.data[at..][..n] == g.data[at..at + n];
    }
  }

  // ---------------------------------------------------------------- translating

  /** The segment has file bytes at address `v`. */
  predicate InFileRange(s: Segment, v: nat) {
    && s.header.kind == 1
    && s.header.vaddr <= v < Min(s.header.vaddr + s.header.filesz, 0xFFFF_FFFF_FFFF_FFFF)
  }

  ghost predicate FirstInFile(segments: seq<Segment>, v: nat, k: nat) {
    k < |segments| && InFileRange(segments[k], v) && forall j :: 0 <= j < k ==> !InFileRange(segments[j], v)
  }

  lemma FileCoveringIs(segments: seq<Segment>, v: u64, k: nat)
    ensures FileCovering(segments, v) == Some(k) <==> FirstInFile(segments, v, k)
  {
    hide FileCovering, InFileRange;
    forall s: Segment ensures FileCovers(s, v) <==> InFileRange(s, v) {
      InFileRangeIs(s, v);
    }
  }

  lemma InFileRangeIs(s: Segment, v: u64)
    ensures FileCovers(s, v) <==> InFileRange(s, v)
  {
  }

  /** Translating an offset, exactly: through the first load with file bytes there. */
  lemma TranslatesExactly(img: ElfImage, ioff: u64, x: u64)
    ensures IoffToOffset(img, ioff) == Some(x)
            <==> && ImageBase(img) + ioff <= 0xFFFF_FFFF_FFFF_FFFF
                 && exists k: nat :: FirstInFile(img.segments, ImageBase(img) + ioff, k)
                                     && x == ImageBase(img) + ioff - img.segments[k].header.vaddr
                                             + img.segments[k].header.offset
  {
    hide Geometry, FileCovering, FirstInFile;
    var v := ImageBase(img) + ioff;
    if v <= MAX_U64 {
      forall k: nat ensures FileCovering(img.segments, v) == Some(k) <==> FirstInFile(img.segments, v, k) {
        FileCoveringIs(img.segments, v, k);
      }
      var c := FileCovering(img.segments, v);
      if c.Some? {
        assert FirstInFile(img.segments, v, c.value);
      }
    }
  }
}
