/** Where a built file places its parts: each at the least offset that suits it, and zeros between them. */
module Placement {
  import opened Arith
  import opened Bytes
  import opened Strings
  import opened Headers
  import opened Images
  import opened Layout
  import opened FileLayout
  import opened Parse
  import opened RoundTrip
  import opened Format
  import opened Safety
  import opened Survival

  /** Something to place: its size, and the residue its offset must have. */
  datatype Part = Part(size: nat, residue: nat, align: nat)

  /** `o` is the least offset at or after `from` with the part's residue. */
  ghost predicate Least(o: nat, from: nat, p: Part) {
    && o >= from && (p.align <= 1 ==> o == from)
    && (p.align > 1 ==>
          o % p.align == p.residue % p.align
          && forall x :: from <= x < o ==> x % p.align != p.residue % p.align)
  }

  /** The parts stand one after the other from `start` on; `ends` are the ends so far, `at` the offsets. */
  ghost predicate InOrder(parts: seq<Part>, start: nat, ends: seq<nat>, at: seq<nat>) {
    && |ends| == |parts| + 1 && |at| == |parts| && ends[0] == start
    && forall i :: 0 <= i < |parts| ==> Follows(parts[i], ends[i], at[i], ends[i + 1])
  }

  /** A part placed from `from` on stands at `o` and ends at `end`; an empty one takes no place. */
  ghost predicate Follows(p: Part, from: nat, o: nat, end: nat) {
    if p.size == 0 then end == from else Least(o, from, p) && end == o + p.size
  }

  /** Loadable segments are congruent to their address, the others follow directly. */
  function SegmentParts(segments: seq<Segment>): (parts: seq<Part>)
    ensures |parts| == |segments|
    ensures forall i :: 0 <= i < |parts| ==>
              var s := segments[i];
              parts[i] == Part(SegmentWritten(s), s.header.vaddr, if s.header.kind == 1 then s.header.align else 1)
  {
    seq(|segments|, i requires 0 <= i < |segments| =>
      var s := segments[i];
      Part(SegmentWritten(s), s.header.vaddr, if s.header.kind == 1 then s.header.align else 1))
  }

  /** Sections are aligned. */
  function SectionParts(all: seq<Section>): (parts: seq<Part>)
    ensures |parts| == |all|
    ensures forall i :: 0 <= i < |parts| ==> parts[i] == Part(SectionWritten(all[i], all), 0, all[i].header.addralign)
  {
    seq(|all|, i requires 0 <= i < |all| => Part(SectionWritten(all[i], all), 0, all[i].header.addralign))
  }

  /** The ends and offsets of the segments and of the sections, the section header table, and the end of the file. */
  datatype Places =
    Places(segEnds: seq<nat>, segAt: seq<nat>, secEnds: seq<nat>, secAt: seq<nat>, shoff: nat, end: nat)

  /** The places of an image: tables, then segments, then sections, then the section header table. */
  ghost predicate PlacesAre(img: ElfImage, p: Places) {
    var c, all := img.ident.cls, Listed(img.sections);
    && InOrder(SegmentParts(img.segments), HeaderSize(c) + |img.segments| * SegmentEntry(c), p.segEnds, p.segAt)
    && InOrder(SectionParts(all), p.segEnds[|img.segments|], p.secEnds, p.secAt)
    && if img.sections == [] then p.shoff == 0 && p.end == p.secEnds[|all|]
       else Least(p.shoff, p.secEnds[|all|], Part(1, 0, 8)) && p.end == p.shoff + |all| * SectionEntry(c)
  }

  // ---------------------------------------------------------------- the cursor finds the places

  lemma CongruentIs(from: nat, p: Part, o: nat)
    ensures Least(o, from, p) <==> o == Congruent(from, p.residue, if p.align > 0 then p.align else 1)
  {
    if p.align > 1 {
      CongruentIsLeast(from, p.residue, p.align);
    }
  }

  /** Item `i` is what part `i` describes. */
  ghost predicate Describes(parts: seq<Part>, items: seq<Item>) {
    && |parts| == |items|
    && forall i :: 0 <= i < |parts| ==>
         && parts[i].size == |items[i].bytes| && parts[i].residue == items[i].residue
         && items[i].align == if parts[i].align > 0 then parts[i].align else 1
  }

  /** One step of the cursor. */
  lemma OneStep(parts: seq<Part>, items: seq<Item>, start: nat, i: nat, o: nat)
    requires Describes(parts, items) && i < |parts|
    ensures parts[i].size == 0 ==> Cursor(items, start, i + 1) == Cursor(items, start, i)
    ensures parts[i].size > 0 ==>
              && (Least(o, Cursor(items, start, i), parts[i]) <==> o == OffsetOf(items, start, i))
              && Cursor(items, start, i + 1) == OffsetOf(items, start, i) + parts[i].size
  {
    hide Congruent, Least, Body, Cursor;
    Step(items, start, i);
    CongruentIs(Cursor(items, start, i), parts[i], o);
  }

  lemma {:induction false} EndsAreCursors(parts: seq<Part>, items: seq<Item>, start: nat, ends: seq<nat>, at: seq<nat>,
      k: nat)
    requires Describes(parts, items) && InOrder(parts, start, ends, at) && k <= |parts|
    ensures ends[k] == Cursor(items, start, k)
    ensures forall i :: 0 <= i < k && parts[i].size > 0 ==> at[i] == OffsetOf(items, start, i)
  {
    hide Least, Cursor, OffsetOf, Describes;
    if k > 0 {
      EndsAreCursors(parts, items, start, ends, at, k - 1);
      OneStep(parts, items, start, k - 1, at[k - 1]);
    } else {
      CursorZero(items, start);
    }
  }

  /** The places exist. */
  lemma CursorsInOrder(parts: seq<Part>, items: seq<Item>, start: nat) returns (ends: seq<nat>, at: seq<nat>)
    requires Describes(parts, items)
    ensures InOrder(parts, start, ends, at)
  {
    hide Least, Cursor, OffsetOf, Describes;
    DescribedCount(parts, items);
    ends := seq(|parts| + 1, i requires 0 <= i <= |parts| => Cursor(items, start, i));
    at := seq(|parts|, i requires 0 <= i < |parts| => OffsetOf(items, start, i));
    CursorZero(items, start);
    forall i | 0 <= i < |parts|
      ensures Follows(parts[i], ends[i], at[i], ends[i + 1])
    {
      OneStep(parts, items, start, i, at[i]);
    }
  }

  lemma DescribedCount(parts: seq<Part>, items: seq<Item>)
    requires Describes(parts, items)
    ensures |parts| == |items|
  {
  }

  lemma SegmentsDescribed(img: ElfImage)
    ensures Describes(SegmentParts(img.segments), SegItems(img.segments))
  {
  }

  lemma SectionsDescribed(img: ElfImage)
    ensures |Listed(img.sections)| == |Secs(img)|
    ensures Describes(SectionParts(Listed(img.sections)), SecItems(Secs(img)))
  {
    hide Secs, Listed, NamesLength, Ascii;
    ListedLength(img);
    ListedNone();
    forall i | 0 <= i < |Secs(img)|
      ensures var p, it := SectionParts(Listed(img.sections))[i], SecItem(Secs(img)[i]);
              p.size == |it.bytes| && p.residue == it.residue && it.align == if p.align > 0 then p.align else 1
    {
      PreparedSection(img, i);
    }
  }

  /** What the places are, in the terms of the layout. */
  lemma PlacesFound(img: ElfImage, p: Places)
    requires PlacesAre(img, p)
    ensures |Listed(img.sections)| == |Secs(img)| == |p.secAt| && |img.segments| == |p.segAt|
    ensures p.shoff == Shoff(img) && p.end == FileEnd(img)
    ensures forall i :: 0 <= i < |img.segments| && SegmentWritten(img.segments[i]) > 0 ==>
              p.segAt[i] == OffsetOf(SegItems(img.segments), SegStart(img), i)
    ensures forall i :: 0 <= i < |Secs(img)| && SectionParts(Listed(img.sections))[i].size > 0 ==>
              p.secAt[i] == OffsetOf(SecItems(Secs(img)), SegEnd(img), i)
  {
    hide Least, Congruent, Cursor, Secs, Listed, OffsetOf, Describes, SectionWritten, SegmentWritten, SegItems,
         SecItems;
    SegmentsDescribed(img);
    SectionsDescribed(img);
    var n, m := |img.segments|, |Secs(img)|;
    EndsAreCursors(SegmentParts(img.segments), SegItems(img.segments), SegStart(img), p.segEnds, p.segAt, n);
    EndsAreCursors(SectionParts(Listed(img.sections)), SecItems(Secs(img)), SegEnd(img), p.secEnds, p.secAt, m);
    CongruentIs(SecEnd(img), Part(1, 0, 8), p.shoff);
  }

  /** Every image has places. */
  lemma PlacesExist(img: ElfImage) returns (p: Places)
    ensures PlacesAre(img, p)
  {
    hide Congruent, Cursor, Secs, Listed, Describes, SectionWritten, SegmentWritten, SegItems, SecItems, InOrder,
         SegEnd;
    SegmentsDescribed(img);
    SectionsDescribed(img);
    var c, all := img.ident.cls, Listed(img.sections);
    var segEnds, segAt := CursorsInOrder(SegmentParts(img.segments), SegItems(img.segments), SegStart(img));
    LastEnd(SegmentParts(img.segments), SegStart(img), segEnds, segAt);
    var secEnds, secAt := CursorsInOrder(SectionParts(all), SecItems(Secs(img)), segEnds[|img.segments|]);
    LastEnd(SectionParts(all), segEnds[|img.segments|], secEnds, secAt);
    var last := secEnds[|all|];
    var shoff := Congruent(last, 0, 8);
    CongruentIs(last, Part(1, 0, 8), shoff);
    MulNonNeg(|all|, SectionEntry(c));
    p := Places(segEnds, segAt, secEnds, secAt, if img.sections == [] then 0 else shoff,
                if img.sections == [] then last else shoff + |all| * SectionEntry(c));
  }

  lemma LastEnd(parts: seq<Part>, start: nat, ends: seq<nat>, at: seq<nat>)
    requires InOrder(parts, start, ends, at)
    ensures |ends| == |parts| + 1
  {
  }

  // ---------------------------------------------------------------- the theorems

  /**
   * Building, exactly: it succeeds if and only if the file ends within 256 MiB and neither table has more than 65535
   * entries, and then the file is that long.
   */
  lemma BuildsExactly(img: ElfImage, p: Places)
    requires img.header.ident.cls == img.ident.cls && PlacesAre(img, p)
    ensures Built(img).Ok?
            <==> p.end <= 0x1000_0000 && |img.segments| <= 65535 && |Listed(img.sections)| <= 65535
    ensures Built(img).Ok? ==> |Built(img).value| == p.end
  {
    hide PlacesAre, FileBytes, FileEnd, Secs, Listed, Shoff;
    PlacesFound(img, p);
    FileLength(img);
  }

  /** The offsets a built file records are the places. */
  lemma OffsetsOfBuilt(img: ElfImage, p: Places, t: seq<u8>)
    requires OneIdent(img) && TextNames(img) && Built(img).Ok? && PlacesAre(img, p)
    ensures Parsed(Built(img).value + t).Ok? && |p.segAt| == |img.segments| && |p.secAt| == |Listed(img.sections)|
    ensures var n := Parsed(Built(img).value + t).value;
            && n.header.shoff == p.shoff
            && |n.segments| == |img.segments| && |n.sections| == |Listed(img.sections)|
            && (forall i :: 0 <= i < |img.segments| && SegmentWritten(img.segments[i]) > 0 ==>
                  n.segments[i].header.offset == p.segAt[i])
            && (forall i :: 0 <= i < |n.sections| && SectionParts(Listed(img.sections))[i].size > 0 ==>
                  n.sections[i].header.offset == p.secAt[i])
  {
    hide PlacesAre, Built, Parsed, TextNames, FileEnd, FileBytes, Secs, Listed, OffsetOf, Geometry, BuiltHeader, Shoff,
         SectionWritten, NormalPhdrs, NormalShdrs, SegStart, SegEnd;
    Reparsed(img, t);
    PlacesFound(img, p);
    HeaderPlace(img);
    forall i | 0 <= i < |img.segments| && SegmentWritten(img.segments[i]) > 0
      ensures Normal(img).segments[i].header.offset == p.segAt[i]
    {
      PhdrFields(img, i);
    }
    forall i | 0 <= i < |Secs(img)| && SectionParts(Listed(img.sections))[i].size > 0
      ensures Normal(img).sections[i].header.offset == p.secAt[i]
    {
      ShdrFields(img, i);
      SectionSize(img, i);
    }
  }

  lemma HeaderPlace(img: ElfImage)
    requires OneIdent(img) && FileEnd(img) <= MAX_IMAGE && |img.segments| <= MAX_U16 && |Secs(img)| <= MAX_U16
    ensures Normal(img).header.shoff == Shoff(img)
  {
    hide FileEnd, Secs, Shoff, NormalSegments, NormalSections, Geometry, BuiltHeader;
    HeaderFields(img);
  }

  lemma SectionSize(img: ElfImage, i: nat)
    requires i < |Secs(img)|
    ensures |Listed(img.sections)| == |Secs(img)|
    ensures SectionParts(Listed(img.sections))[i].size > 0 ==>
              !Secs(img)[i].header.IsNobits() && Secs(img)[i].data != []
  {
    hide Secs, Listed, SectionWritten;
    SectionsDescribed(img);
    assert SecItems(Secs(img))[i] == SecItem(Secs(img)[i]);
  }

  // ---------------------------------------------------------------- the gaps

  /** Position `p` belongs to the headers, to a segment, to a section or to the section header table of `n`. */
  ghost predicate Occupied(n: ElfImage, p: nat) {
    var c := n.ident.cls;
    || p < HeaderSize(c) + |n.segments| * SegmentEntry(c)
    || (exists i :: 0 <= i < |n.segments| && InFile(n.segments[i].header.offset, n.segments[i].header.filesz, p))
    || (exists i :: 0 <= i < |n.sections| && n.sections[i].header.kind != 8
                    && InFile(n.sections[i].header.offset, n.sections[i].header.size, p))
    || (n.header.shoff > 0 && InFile(n.header.shoff, |n.sections| * SectionEntry(c), p))
  }

  predicate InFile(off: nat, size: int, p: nat) { off <= p < off + size }

  lemma CoveredIsOccupied(img: ElfImage, p: nat)
    requires OneIdent(img) && FileEnd(img) <= MAX_IMAGE && |img.segments| <= MAX_U16 && |Secs(img)| <= MAX_U16
    requires Covered(Extents(img), p)
    ensures Occupied(Normal(img), p)
  {
    hide FileEnd, Secs, Shoff, Geometry, BuiltHeader, EhdrBytes, PhdrTable, ShdrTable, NormalPhdrs, NormalShdrs,
         OffsetOf, Cursor, SegStart, SegEnd, SecEnd, InFile;
    var es, n, k := Extents(img), Normal(img), |img.segments|;
    var i :| 0 <= i < |es| && es[i].at <= p < es[i].End();
    TableLengths(img);
    if i < 2 {
      StartIs(img);
    } else if i < 2 + k {
      SegmentOccupies(img, i - 2, p);
    } else if i < 2 + k + |Secs(img)| {
      SectionOccupies(img, i - 2 - k, p);
    } else {
      TableOccupies(img, p);
    }
  }

  lemma StartIs(img: ElfImage)
    ensures SegStart(img) == HeaderSize(img.ident.cls) + |img.segments| * SegmentEntry(img.ident.cls)
    ensures SegStart(img) == EhdrSize(img.ident.cls) + |img.segments| * PhdrSize(img.ident.cls)
  {
  }

  lemma SegmentOccupies(img: ElfImage, i: nat, p: nat)
    requires FileEnd(img) <= MAX_IMAGE && i < |img.segments|
    requires var e := ItemExtents(SegItems(img.segments), SegStart(img))[i]; e.at <= p < e.End()
    ensures Normal(img).segments[i].header == NormalPhdrs(img)[i]
    ensures InFile(Normal(img).segments[i].header.offset, Normal(img).segments[i].header.filesz, p)
  {
    hide FileEnd, Secs, Shoff, Geometry, BuiltHeader, NormalPhdrs, NormalSections, OffsetOf, Cursor, SegStart;
    PhdrFields(img, i);
    assert |SegItem(img.segments[i]).bytes| == Writable(img.segments[i]);
  }

  lemma SectionOccupies(img: ElfImage, i: nat, p: nat)
    requires FileEnd(img) <= MAX_IMAGE && i < |Secs(img)|
    requires var e := ItemExtents(SecItems(Secs(img)), SegEnd(img))[i]; e.at <= p < e.End()
    ensures Normal(img).sections[i].header.kind != 8
    ensures InFile(Normal(img).sections[i].header.offset, Normal(img).sections[i].header.size, p)
  {
    hide FileEnd, Secs, Shoff, Geometry, BuiltHeader, NormalShdrs, NormalSegments, OffsetOf, Cursor, SegEnd, CStr;
    ShdrFields(img, i);
    assert SecItem(Secs(img)[i]).bytes != [];
  }

  lemma TableOccupies(img: ElfImage, p: nat)
    requires OneIdent(img) && FileEnd(img) <= MAX_IMAGE && |img.segments| <= MAX_U16 && |Secs(img)| <= MAX_U16
    requires TableExtent(img).at <= p < TableExtent(img).End()
    ensures var n := Normal(img);
            n.header.shoff > 0 && InFile(n.header.shoff, |n.sections| * SectionEntry(img.ident.cls), p)
  {
    hide FileEnd, Secs, Shoff, Geometry, BuiltHeader, NormalSegments, ShdrTable;
    HeaderPlace(img);
    TableLengths(img);
    ShoffPositive(img);
  }

  /** Whatever a built file's own headers do not claim is zero. */
  lemma GapsOfBuilt(img: ElfImage, p: nat)
    requires OneIdent(img) && TextNames(img) && Built(img).Ok? && p < |Built(img).value|
    ensures Parsed(Built(img).value).Ok?
    ensures !Occupied(Parsed(Built(img).value).value, p) ==> Built(img).value[p] == 0
  {
    hide Built, Parsed, TextNames, FileEnd, FileBytes, Secs, Normal, Occupied, Extents, Ordered, Covered, Holds;
    Reparsed(img, []);
    assert Built(img).value + [] == Built(img).value;
    LayoutSafety(img);
    if Covered(Extents(img), p) {
      CoveredIsOccupied(img, p);
    }
  }
}
