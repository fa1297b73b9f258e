/** Layout safety: the structures of a built file are disjoint, intact, aligned, and surrounded by zeros. */
module Safety {
  import opened Arith
  import opened Bytes
  import opened Headers
  import opened Images
  import opened Layout
  import opened FileLayout
  import opened RoundTrip

  function ItemExtents(items: seq<Item>, start: nat): (es: seq<Extent>)
    ensures |es| == |items|
    ensures forall i :: 0 <= i < |items| ==>
              es[i] == Extent(if items[i].bytes == [] then Cursor(items, start, i) else OffsetOf(items, start, i),
                              items[i].bytes)
  {
    seq(|items|, i requires 0 <= i < |items| =>
      Extent(if items[i].bytes == [] then Cursor(items, start, i) else OffsetOf(items, start, i), items[i].bytes))
  }

  function TableExtent(img: ElfImage): Extent {
    if img.sections == [] then Extent(SecEnd(img), []) else Extent(Shoff(img), ShdrTable(img))
  }

  /** Header, program header table, segments, sections, section header table. */
  function Extents(img: ElfImage): seq<Extent> {
    [Extent(0, EhdrBytes(BuiltHeader(img))), Extent(EhdrSize(img.ident.cls), PhdrTable(img))]
    + ItemExtents(SegItems(img.segments), SegStart(img))
    + ItemExtents(SecItems(Secs(img)), SegEnd(img))
    + [TableExtent(img)]
  }

  /** The extents lie in `lo..hi`, each one before the next. */
  ghost predicate Ordered(es: seq<Extent>, lo: nat, hi: nat) {
    && lo <= hi
    && (forall i :: 0 <= i < |es| ==> lo <= es[i].at && es[i].End() <= hi)
    && (forall i, j :: 0 <= i < j < |es| ==> es[i].End() <= es[j].at)
  }

  lemma OrderedConcat(xs: seq<Extent>, ys: seq<Extent>, lo: nat, mid: nat, hi: nat)
    requires Ordered(xs, lo, mid) && Ordered(ys, mid, hi)
    ensures Ordered(xs + ys, lo, hi)
  {
  }

  lemma ItemsOrdered(items: seq<Item>, start: nat)
    ensures Ordered(ItemExtents(items, start), start, Cursor(items, start, |items|))
  {
    hide Cursor, Body, OffsetOf;
    var es := ItemExtents(items, start);
    forall i | 0 <= i < |es| ensures Cursor(items, start, i) <= es[i].at && es[i].End() == Cursor(items, start, i + 1) {
      Step(items, start, i);
    }
    CursorZero(items, start);
    forall i | 0 <= i < |es| ensures start <= es[i].at && es[i].End() <= Cursor(items, start, |items|) {
      CursorMonotone(items, start, i + 1, |items|);
    }
    forall i, j | 0 <= i < j < |es| ensures es[i].End() <= es[j].at {
      CursorMonotone(items, start, i + 1, j);
    }
  }

  lemma ExtentsOrdered(img: ElfImage)
    requires img.header.ident.cls == img.ident.cls
    ensures Ordered(Extents(img), 0, FileEnd(img))
  {
    hide Congruent, Cursor, SegItems, SecItems, Secs, EhdrBytes, BuiltHeader, PhdrTable, ShdrTable, ItemExtents;
    TableLengths(img);
    var front := [Extent(0, EhdrBytes(BuiltHeader(img))), Extent(EhdrSize(img.ident.cls), PhdrTable(img))];
    var segs, secs := ItemExtents(SegItems(img.segments), SegStart(img)), ItemExtents(SecItems(Secs(img)), SegEnd(img));
    ItemsOrdered(SegItems(img.segments), SegStart(img));
    ItemsOrdered(SecItems(Secs(img)), SegEnd(img));
    assert Ordered(front, 0, SegStart(img));
    assert Ordered([TableExtent(img)], SecEnd(img), FileEnd(img));
    OrderedConcat(front, segs, 0, SegStart(img), SegEnd(img));
    OrderedConcat(front + segs, secs, 0, SegEnd(img), SecEnd(img));
    OrderedConcat(front + segs + secs, [TableExtent(img)], 0, SecEnd(img), FileEnd(img));
  }

  /** The file holds an extent's bytes. */
  predicate Holds(b: seq<u8>, e: Extent) { e.bytes == [] || At(b, e.at, e.bytes) }

  lemma ExtentsHold(img: ElfImage, i: nat)
    requires img.header.ident.cls == img.ident.cls && i < |Extents(img)|
    ensures Holds(FileBytes(img), Extents(img)[i])
  {
    hide FileBytes, Cursor, SegItem, SecItem, EhdrBytes, BuiltHeader, PhdrTable, ShdrTable, At, OffsetOf, Secs,
         SegBody, SecBody, TableBody, Shoff, SegStart, SegEnd, SecEnd;
    var f, n := FileBytes(img), |img.segments|;
    assert f + [] == f;
    Located(img, [], f);
    if 2 <= i < 2 + n {
      if SegItem(img.segments[i - 2]).bytes != [] {
        SegmentLocated(img, [], f, i - 2);
      }
    } else if 2 + n <= i < 2 + n + |Secs(img)| {
      if SecItem(Secs(img)[i - 2 - n]).bytes != [] {
        SectionLocated(img, [], f, i - 2 - n);
      }
    } else if i >= 2 + n + |Secs(img)| && img.sections != [] {
      TableLocated(img, [], f);
    }
  }

  /** `p` lies in some extent. */
  ghost predicate Covered(es: seq<Extent>, p: nat) { exists i :: 0 <= i < |es| && es[i].at <= p < es[i].End() }

  lemma ByteAt(b: seq<u8>, off: nat, w: seq<u8>, p: nat)
    requires At(b, off, w) && off <= p < off + |w|
    ensures b[p] == w[p - off]
  {
    assert b[off..off + |w|][p - off] == b[p];
  }

  /** Inside a body, a byte no item covers is zero. */
  lemma BodyByte(b: seq<u8>, items: seq<Item>, start: nat, p: nat)
    requires At(b, start, Body(items, start, |items|)) && start <= p < Cursor(items, start, |items|)
    requires forall i :: 0 <= i < |items| ==>
               !(ItemExtents(items, start)[i].at <= p < ItemExtents(items, start)[i].End())
    ensures b[p] == 0
  {
    hide Congruent, Cursor, OffsetOf, Body, At;
    forall i | 0 <= i < |items| ensures !InItem(items, start, i, p) {
      var e := ItemExtents(items, start)[i];
    }
    BodyGaps(items, start, |items|, p);
    ByteAt(b, start, Body(items, start, |items|), p);
  }

  lemma GapsAreZero(img: ElfImage, p: nat)
    requires img.header.ident.cls == img.ident.cls && p < FileEnd(img) == |FileBytes(img)|
    requires !Covered(Extents(img), p)
    ensures FileBytes(img)[p] == 0
  {
    hide FileBytes, EhdrBytes, BuiltHeader, PhdrTable, ShdrTable, Cursor, Secs, SegItems, SecItems, ItemExtents,
         Congruent;
    var f, es, n := FileBytes(img), Extents(img), |img.segments|;
    assert f + [] == f;
    Located(img, [], f);
    TableLengths(img);
    assert !(es[0].at <= p < es[0].End()) && !(es[1].at <= p < es[1].End());
    assert p >= SegStart(img);
    if p < SegEnd(img) {
      SegGap(img, p);
    } else if p < SecEnd(img) {
      SecGap(img, p);
    } else {
      ByteAt(f, SecEnd(img), TableBody(img), p);
      var last := es[|es| - 1];
      assert !(last.at <= p < last.End());
    }
  }

  lemma SegGap(img: ElfImage, p: nat)
    requires img.header.ident.cls == img.ident.cls && |FileBytes(img)| == FileEnd(img)
    requires SegStart(img) <= p < SegEnd(img) && p < FileEnd(img) && !Covered(Extents(img), p)
    ensures FileBytes(img)[p] == 0
  {
    hide FileBytes, EhdrBytes, BuiltHeader, PhdrTable, ShdrTable, Cursor, Secs, SegItems, SecItems, ItemExtents, At,
         SegStart, Body, TableExtent, FileEnd;
    var f, items := FileBytes(img), SegItems(img.segments);
    assert f + [] == f;
    Located(img, [], f);
    forall i | 0 <= i < |items|
      ensures !(ItemExtents(items, SegStart(img))[i].at <= p < ItemExtents(items, SegStart(img))[i].End())
    {
      assert Extents(img)[2 + i] == ItemExtents(items, SegStart(img))[i];
    }
    BodyByte(f, items, SegStart(img), p);
  }

  lemma SecGap(img: ElfImage, p: nat)
    requires img.header.ident.cls == img.ident.cls && |FileBytes(img)| == FileEnd(img)
    requires SegEnd(img) <= p < SecEnd(img) && p < FileEnd(img) && !Covered(Extents(img), p)
    ensures FileBytes(img)[p] == 0
  {
    hide FileBytes, EhdrBytes, BuiltHeader, PhdrTable, ShdrTable, Cursor, Secs, SegItems, SecItems, ItemExtents, At,
         SegStart, SegEnd, Body, TableExtent, FileEnd;
    var f, items := FileBytes(img), SecItems(Secs(img));
    assert f + [] == f;
    Located(img, [], f);
    forall i | 0 <= i < |items|
      ensures !(ItemExtents(items, SegEnd(img))[i].at <= p < ItemExtents(items, SegEnd(img))[i].End())
    {
      assert Extents(img)[2 + |img.segments| + i] == ItemExtents(items, SegEnd(img))[i];
    }
    BodyByte(f, items, SegEnd(img), p);
  }

  /**
   * Layout safety: in every built file the structures are pairwise disjoint and inside the file, each holds
   * exactly its bytes although the tables are written out of order, every other byte is zero, and the file
   * stays under the cap.
   */
  lemma LayoutSafety(img: ElfImage)
    requires img.header.ident.cls == img.ident.cls && Built(img).Ok?
    ensures var b, es := Built(img).value, Extents(img);
            && |b| <= MAX_IMAGE
            && Ordered(es, 0, |b|)
            && (forall i :: 0 <= i < |es| ==> Holds(b, es[i]))
            && (forall p :: 0 <= p < |b| && !Covered(es, p) ==> b[p] == 0)
  {
    hide *;
    BuiltIs(img);
    FileLength(img);
    ExtentsOrdered(img);
    forall i | 0 <= i < |Extents(img)| ensures Holds(FileBytes(img), Extents(img)[i]) {
      ExtentsHold(img, i);
    }
    forall p | 0 <= p < |FileBytes(img)| && !Covered(Extents(img), p) ensures FileBytes(img)[p] == 0 {
      GapsAreZero(img, p);
    }
  }

  /**
   * No offset saturated, so each header records where its bytes are, a loadable segment's offset is congruent
   * to its address modulo its alignment, and sections and the section table are aligned.
   */
  lemma OffsetsAreExact(img: ElfImage)
    requires img.header.ident.cls == img.ident.cls && Built(img).Ok?
    ensures forall i :: 0 <= i < |img.segments| && Writable(img.segments[i]) > 0 ==>
              var h := Phdrs(img)[i];
              && h.offset == OffsetOf(SegItems(img.segments), SegStart(img), i)
              && (img.segments[i].IsLoad() && h.align > 0 ==> h.offset % h.align == h.vaddr % h.align)
    ensures forall i :: 0 <= i < |Secs(img)| && SecItem(Secs(img)[i]).bytes != [] ==>
              var h := Shdrs(img)[i];
              && h.offset == OffsetOf(SecItems(Secs(img)), SegEnd(img), i)
              && (h.addralign > 0 ==> h.offset % h.addralign == 0)
    ensures Shoff(img) % 8 == 0 && BuiltHeader(img).shoff == Shoff(img)
  {
    hide FileBytes, FileEnd, Secs, Congruent, Cursor, SegStart, SegEnd, SecEnd, Ensured, ShstrtabIndex;
    BuiltIs(img);
    OffsetsAreSmall(img);
    forall i | 0 <= i < |img.segments| && Writable(img.segments[i]) > 0
      ensures var h := Phdrs(img)[i];
              && h.offset == OffsetOf(SegItems(img.segments), SegStart(img), i)
              && (img.segments[i].IsLoad() && h.align > 0 ==> h.offset % h.align == h.vaddr % h.align)
    {
      var s := img.segments[i];
      assert SegItem(s).bytes != [];
      if s.IsLoad() && s.header.align > 0 {
        CongruentIsLeast(Cursor(SegItems(img.segments), SegStart(img), i), s.header.vaddr, s.header.align);
      }
    }
    forall i | 0 <= i < |Secs(img)| && SecItem(Secs(img)[i]).bytes != []
      ensures var h := Shdrs(img)[i];
              && h.offset == OffsetOf(SecItems(Secs(img)), SegEnd(img), i)
              && (h.addralign > 0 ==> h.offset % h.addralign == 0)
    {
      var s := Secs(img)[i];
      if s.header.addralign > 0 {
        CongruentIsLeast(Cursor(SecItems(Secs(img)), SegEnd(img), i), 0, s.header.addralign);
        ModIs(0, s.header.addralign, 0, 0);
      }
    }
    CongruentIsLeast(SecEnd(img), 0, 8);
  }
}
