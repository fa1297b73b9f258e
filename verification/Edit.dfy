/** `src/elf/edit.rs`: overwriting bytes through an image-relative offset, in both views of the image. */
module Edit {
  import opened Bytes
  import opened Strings
  import opened Headers
  import opened Images
  import opened Layout
  import opened FileLayout
  import opened RoundTrip
  import opened Patches
  import FixedPoint

  // ---------------------------------------------------------------- the edit as a function

  /** The first loadable segment that covers `vaddr`. */
  function CoveringLoad(segments: seq<Segment>, vaddr: u64): (r: Option<nat>)
    ensures r.Some? ==> r.value < |segments| && segments[r.value].IsLoad() && segments[r.value].ContainsVaddr(vaddr)
    ensures r.Some? ==> forall i :: 0 <= i < r.value ==> !(segments[i].IsLoad() && segments[i].ContainsVaddr(vaddr))
    ensures r.None? ==> forall i :: 0 <= i < |segments| ==> !(segments[i].IsLoad() && segments[i].ContainsVaddr(vaddr))
  {
    if segments == [] then None
    else if segments[0].IsLoad() && segments[0].ContainsVaddr(vaddr) then Some(0)
    else
      var i :- CoveringLoad(segments[1..], vaddr);
      Some(i + 1)
  }

  /** Where an edit at `vaddr` lands: the covering load and the position inside its data. */
  function Target(img: ElfImage, ioff: u64, d: seq<u8>): (r: Option<(u64, nat, nat)>)
    ensures r.Some? ==> r.value.1 < |img.segments| && r.value.2 + |d| <= |img.segments[r.value.1].data|
  {
    var vaddr := ImageBase(img) + ioff;
    if vaddr > MAX_U64 then None
    else
      var k :- CoveringLoad(img.segments, vaddr);
      var start := vaddr - img.segments[k].header.vaddr;
      if start + |d| <= |img.segments[k].data| then Some((vaddr, k, start)) else None
  }

  /** The position inside a section's data that an edit at `vaddr` overwrites, if it does. */
  function SectionStart(s: Section, vaddr: u64, d: seq<u8>): (r: Option<nat>)
    ensures r.Some? ==> r.value + |d| <= |s.data|
  {
    if s.ContainsVaddr(vaddr) && !s.header.IsNobits() && vaddr - s.header.addr + |d| <= |s.data|
    then Some(vaddr - s.header.addr)
    else None
  }

  function EditSection(s: Section, vaddr: u64, d: seq<u8>): Section {
    var start := SectionStart(s, vaddr, d);
    if start.Some? then s.(data := Patch(s.data, start.value, d)) else s
  }

  function EditSections(sections: seq<Section>, vaddr: u64, d: seq<u8>): (r: seq<Section>)
    ensures |r| == |sections| && forall i :: 0 <= i < |r| ==> r[i] == EditSection(sections[i], vaddr, d)
  {
    seq(|sections|, i requires 0 <= i < |sections| => EditSection(sections[i], vaddr, d))
  }

  /** `write_at_ioff`: the image after the edit, or nothing when the range has no file bytes. */
  function Edited(img: ElfImage, ioff: u64, d: seq<u8>): Option<ElfImage> {
    var (vaddr, k, start) :- Target(img, ioff, d);
    var s := img.segments[k];
    Some(img.(segments := img.segments[k := s.(data := Patch(s.data, start, d))],
              sections := EditSections(img.sections, vaddr, d)))
  }

  // ---------------------------------------------------------------- the mutable image

  /** The image as the source holds it, updated in place. */
  class ImageObject {
    var ident: ElfIdent
    var header: ElfHeader
    var segments: seq<Segment>
    var sections: seq<Section>
    var runtimeBase: u64

    function Image(): ElfImage
      reads this
    {
      ElfImage(ident, header, segments, sections, runtimeBase)
    }

    constructor (img: ElfImage)
      ensures Image() == img
    {
      ident, header, segments, sections := img.ident, img.header, img.segments, img.sections;
      runtimeBase := img.runtimeBase;
    }

    /** Overwrites the covering segment and every allocated section at the same address, or changes nothing. */
    method WriteAtIoff(ioff: u64, d: seq<u8>) returns (ok: bool)
      modifies this`segments, this`sections
      ensures ok == old(Edited(Image(), ioff, d)).Some?
      ensures Image() == if ok then old(Edited(Image(), ioff, d)).value else old(Image())
    {
      var g := ComputeGeometry(LoadsOf(HeadersOf(segments)));
      var vaddr := g.base + ioff;
      if vaddr > MAX_U64 {
        return false;
      }
      var k := CoveringLoad(segments, vaddr);
      if k.None? {
        return false;
      }
      var segment := segments[k.value];
      var start := vaddr - segment.header.vaddr;
      if start + |d| > |segment.data| {
        return false;
      }
      segments := segments[k.value := segment.(data := Patch(segment.data, start, d))];
      EditEverySection(vaddr, d);
      return true;
    }

    /** The section loop: allocated sections at the address that hold the whole range. */
    method EditEverySection(vaddr: u64, d: seq<u8>)
      modifies this`sections
      ensures sections == EditSections(old(sections), vaddr, d)
    {
      ghost var before := sections;
      for i := 0 to |sections|
        invariant |sections| == |before|
        invariant forall j :: 0 <= j < i ==> sections[j] == EditSection(before[j], vaddr, d)
        invariant forall j :: i <= j < |before| ==> sections[j] == before[j]
      {
        var section := sections[i];
        if !section.ContainsVaddr(vaddr) || section.header.IsNobits() {
          continue;
        }
        var from := vaddr - section.header.addr;
        if from + |d| <= |section.data| {
          sections := sections[i := section.(data := Patch(section.data, from, d))];
        }
      }
      assert sections == EditSections(before, vaddr, d);
    }
  }

  // ---------------------------------------------------------------- the edit in the file

  /** The part of a segment edit that reaches the file. */
  function SegmentEdit(s: Segment, start: nat, d: seq<u8>): Edit {
    if d != [] && start < Writable(s) then Some(Extent(start, d[..Min(|d|, Writable(s) - start)])) else None
  }

  function SegmentEdits(img: ElfImage, ioff: u64, d: seq<u8>): (es: seq<Edit>)
    requires Target(img, ioff, d).Some?
    ensures |es| == |img.segments|
    ensures var t := Target(img, ioff, d).value;
            forall i :: 0 <= i < |es| ==> es[i] == if i == t.1 then SegmentEdit(img.segments[i], t.2, d) else None
  {
    var t := Target(img, ioff, d).value;
    seq(|img.segments|, i requires 0 <= i < |img.segments| =>
      if i == t.1 then SegmentEdit(img.segments[i], t.2, d) else None)
  }

  /** The part of a section edit that reaches the file; a name table is regenerated, so an edit of it does not. */
  function SectionEdit(s: Section, vaddr: u64, d: seq<u8>): Edit {
    var start := SectionStart(s, vaddr, d);
    if d != [] && start.Some? && !IsShstrtab(s) then Some(Extent(start.value, d)) else None
  }

  function SectionEdits(img: ElfImage, vaddr: u64, d: seq<u8>): (es: seq<Edit>)
    ensures |es| == |Secs(img)|
    ensures forall i :: 0 <= i < |es| ==>
              es[i] == if i < |img.sections| then SectionEdit(img.sections[i], vaddr, d) else None
  {
    seq(|Secs(img)|, i requires 0 <= i < |Secs(img)| =>
      if i < |img.sections| then SectionEdit(img.sections[i], vaddr, d) else None)
  }

  /** The overwrites of the built file: at the load's file offset, and at each edited section's file offset. */
  function FileEdits(img: ElfImage, ioff: u64, d: seq<u8>): seq<Extent>
    requires Target(img, ioff, d).Some?
  {
    Overwrites(SegItems(img.segments), SegStart(img), SegmentEdits(img, ioff, d), |img.segments|)
    + Overwrites(SecItems(Secs(img)), SegEnd(img), SectionEdits(img, Target(img, ioff, d).value.0, d), |Secs(img)|)
  }

  lemma PatchClipped(s: seq<u8>, w: nat, start: nat, d: seq<u8>)
    requires w <= |s| && start + |d| <= |s|
    ensures start < w ==> Patch(s, start, d)[..w] == Patch(s[..w], start, d[..Min(|d|, w - start)])
    ensures start >= w || d == [] ==> Patch(s, start, d)[..w] == s[..w]
  {
  }

  lemma SegItemsEdited(img: ElfImage, ioff: u64, d: seq<u8>)
    requires Edited(img, ioff, d).Some?
    ensures EditedItems(SegItems(img.segments), SegItems(Edited(img, ioff, d).value.segments),
                        SegmentEdits(img, ioff, d))
    ensures PlacedPhdrs(img.segments, SegStart(img)) == PlacedPhdrs(Edited(img, ioff, d).value.segments, SegStart(img))
  {
    hide Congruent, Cursor, Target, EditSections, SegStart, Patch;
    var xs, ys := img.segments, Edited(img, ioff, d).value.segments;
    var (_, k, start) := Target(img, ioff, d).value;
    PatchClipped(xs[k].data, Writable(xs[k]), start, d);
    assert EditedItems(SegItems(xs), SegItems(ys), SegmentEdits(img, ioff, d));
    forall i | 0 <= i < |xs| ensures PlacedPhdrs(ys, SegStart(img))[i] == PlacedPhdrs(xs, SegStart(img))[i] {
      EditedBody(SegItems(xs), SegItems(ys), SegmentEdits(img, ioff, d), SegStart(img), i);
    }
  }

  // ---------------------------------------------------------------- sections

  lemma {:induction false} EnsuredEdited(sections: seq<Section>, vaddr: u64, d: seq<u8>)
    ensures Ensured(EditSections(sections, vaddr, d))
            == EditSections(sections, vaddr, d) + Ensured(sections)[|sections|..]
    ensures Names(Ensured(EditSections(sections, vaddr, d))) == Names(Ensured(sections))
    ensures ShstrtabIndex(Ensured(EditSections(sections, vaddr, d))) == ShstrtabIndex(Ensured(sections))
    ensures |Ensured(sections)| >= |sections|
    ensures forall i :: 0 <= i < |sections| ==> Ensured(sections)[i] == sections[i]
    ensures forall i :: |sections| <= i < |Ensured(sections)| ==> IsShstrtab(Ensured(sections)[i])
  {
    hide EditSection, IsShstrtab;
    var edited := EditSections(sections, vaddr, d);
    forall i | 0 <= i < |sections|
      ensures edited[i].name == sections[i].name && IsShstrtab(edited[i]) == IsShstrtab(sections[i])
    {
      NameKept(sections[i], vaddr, d);
    }
    NewTableIsTable();
    FixedPoint.SameIndex(sections, edited);
    FixedPoint.SameIndex(Ensured(sections), Ensured(edited));
    assert Names(Ensured(edited)) == Names(Ensured(sections));
  }

  lemma NameKept(s: Section, vaddr: u64, d: seq<u8>)
    ensures EditSection(s, vaddr, d).name == s.name && EditSection(s, vaddr, d).header == s.header
    ensures IsShstrtab(EditSection(s, vaddr, d)) == IsShstrtab(s)
  {
    hide Patch, SectionStart;
  }

  lemma NewTableIsTable()
    ensures IsShstrtab(NEW_SHSTRTAB)
  {
  }

  /** A prepared section after the edit: only the data of ordinary sections changed. */
  lemma SecEdited(img: ElfImage, vaddr: u64, d: seq<u8>, i: nat)
    requires i < |Secs(img)|
    ensures var img' := img.(sections := EditSections(img.sections, vaddr, d));
            && |Secs(img')| == |Secs(img)| && Secs(img')[i].header == Secs(img)[i].header
            && Secs(img')[i].data
               == (if i < |img.sections| && !IsShstrtab(img.sections[i])
                   then EditSection(img.sections[i], vaddr, d).data else Secs(img)[i].data)
            && (i < |img.sections| && !IsShstrtab(img.sections[i]) ==>
                  Secs(img)[i].data == img.sections[i].data
                  && Secs(img)[i].header.kind == img.sections[i].header.kind)
  {
    hide Blob, Ensured, ShstrtabIndex, Patch, NameOffset, SectionStart, Secs, Low32;
    var img' := img.(sections := EditSections(img.sections, vaddr, d));
    EnsuredEdited(img.sections, vaddr, d);
    SecsLength(img);
    SecsLength(img');
    SecIs(img, i);
    SecIs(img', i);
  }

  lemma SecsLength(img: ElfImage)
    ensures |Secs(img)| == if img.sections == [] then 0 else |Ensured(img.sections)|
  {
  }

  lemma SecItemsEdited(img: ElfImage, vaddr: u64, d: seq<u8>)
    ensures var img' := img.(sections := EditSections(img.sections, vaddr, d));
            && EditedItems(SecItems(Secs(img)), SecItems(Secs(img')), SectionEdits(img, vaddr, d))
  {
    hide Secs, Patch, IsShstrtab;
    var img' := img.(sections := EditSections(img.sections, vaddr, d));
    if |Secs(img)| > 0 {
      SecEdited(img, vaddr, d, 0);
    } else {
      SecsLength(img);
      SecsLength(img');
      EnsuredEdited(img.sections, vaddr, d);
    }
    var xs, ys, edits := SecItems(Secs(img)), SecItems(Secs(img')), SectionEdits(img, vaddr, d);
    forall i | 0 <= i < |xs|
      ensures ys[i].residue == xs[i].residue && ys[i].align == xs[i].align
      ensures match edits[i] {
                case None => ys[i].bytes == xs[i].bytes
                case Some(e) =>
                  e.bytes != [] && e.End() <= |xs[i].bytes| && ys[i].bytes == Patch(xs[i].bytes, e.at, e.bytes)
              }
    {
      SecEdited(img, vaddr, d, i);
      if i < |img.sections| && SectionStart(img.sections[i], vaddr, d).Some? && d == [] {
        PatchEmpty(img.sections[i].data, SectionStart(img.sections[i], vaddr, d).value);
      }
    }
  }

  lemma PatchEmpty(s: seq<u8>, at: nat)
    requires at <= |s|
    ensures Patch(s, at, []) == s
  {
  }

  // ---------------------------------------------------------------- the theorem

  lemma SectionLayoutEdited(img: ElfImage, vaddr: u64, d: seq<u8>, start: nat)
    ensures var img' := img.(sections := EditSections(img.sections, vaddr, d));
            && |Secs(img')| == |Secs(img)|
            && PlacedShdrs(Secs(img'), start) == PlacedShdrs(Secs(img), start)
            && (img'.sections == [] <==> img.sections == [])
            && ShstrtabIndex(Ensured(img'.sections)) == ShstrtabIndex(Ensured(img.sections))
  {
    hide Secs, Congruent, Cursor, Ensured, ShstrtabIndex;
    var img' := img.(sections := EditSections(img.sections, vaddr, d));
    SecsLength(img);
    SecsLength(img');
    EnsuredEdited(img.sections, vaddr, d);
    SecItemsEdited(img, vaddr, d);
    forall i | 0 <= i < |Secs(img)|
      ensures PlacedShdrs(Secs(img'), start)[i] == PlacedShdrs(Secs(img), start)[i]
    {
      EditedBody(SecItems(Secs(img)), SecItems(Secs(img')), SectionEdits(img, vaddr, d), start, i);
      ShdrEdited(img, vaddr, d, i, Cursor(SecItems(Secs(img)), start, i));
    }
  }

  lemma ShdrEdited(img: ElfImage, vaddr: u64, d: seq<u8>, i: nat, c: nat)
    requires i < |Secs(img)|
    ensures var img' := img.(sections := EditSections(img.sections, vaddr, d));
            |Secs(img')| == |Secs(img)| && PlacedShdr(Secs(img')[i], c) == PlacedShdr(Secs(img)[i], c)
  {
    hide Secs, Congruent, Patch, SectionStart;
    SecEdited(img, vaddr, d, i);
  }

  /** The parts of the file that the edit leaves alone, and the bodies it overwrites. */
  lemma PartsEdited(img: ElfImage, ioff: u64, d: seq<u8>)
    requires Edited(img, ioff, d).Some?
    ensures var img', segs, secs :=
              Edited(img, ioff, d).value,
              Overwrites(SegItems(img.segments), SegStart(img), SegmentEdits(img, ioff, d), |img.segments|),
              Overwrites(SecItems(Secs(img)), SegEnd(img), SectionEdits(img, Target(img, ioff, d).value.0, d),
                         |Secs(img)|);
            && img'.ident == img.ident && img'.header == img.header && |img'.segments| == |img.segments|
            && |Secs(img')| == |Secs(img)| && (img'.sections == [] <==> img.sections == [])
            && ShstrtabIndex(Ensured(img'.sections)) == ShstrtabIndex(Ensured(img.sections))
            && Phdrs(img') == Phdrs(img) && Shdrs(img') == Shdrs(img)
            && SegEnd(img') == SegEnd(img) && SecEnd(img') == SecEnd(img)
            && Within(segs, SegStart(img), |SegBody(img)|) && Within(secs, SegEnd(img), |SecBody(img)|)
            && SegBody(img') == PatchAll(SegBody(img), segs, SegStart(img))
            && SecBody(img') == PatchAll(SecBody(img), secs, SegEnd(img))
  {
    hide Congruent, Cursor, Body, Prepared, PatchAll, EditSections, SegItems, SecItems, SegmentEdits, SectionEdits,
         Overwrites, Ensured, ShstrtabIndex, PlacedPhdrs, PlacedShdrs;
    var img', vaddr := Edited(img, ioff, d).value, Target(img, ioff, d).value.0;
    var mid := img.(sections := EditSections(img.sections, vaddr, d));
    assert Secs(img') == Secs(mid);
    SegItemsEdited(img, ioff, d);
    EditedBody(SegItems(img.segments), SegItems(img'.segments), SegmentEdits(img, ioff, d), SegStart(img),
               |img.segments|);
    SectionLayoutEdited(img, vaddr, d, SegEnd(img));
    SecItemsEdited(img, vaddr, d);
    EditedBody(SecItems(Secs(img)), SecItems(Secs(img')), SectionEdits(img, vaddr, d), SegEnd(img), |Secs(img)|);
  }

  lemma TablesEdited(img: ElfImage, img': ElfImage)
    requires img'.ident == img.ident && img'.header == img.header && |img'.segments| == |img.segments|
    requires |Secs(img')| == |Secs(img)| && (img'.sections == [] <==> img.sections == [])
    requires ShstrtabIndex(Ensured(img'.sections)) == ShstrtabIndex(Ensured(img.sections))
    requires Phdrs(img') == Phdrs(img) && Shdrs(img') == Shdrs(img) && SecEnd(img') == SecEnd(img)
    ensures BuiltHeader(img') == BuiltHeader(img) && PhdrTable(img') == PhdrTable(img)
    ensures TableBody(img') == TableBody(img) && FileEnd(img') == FileEnd(img) && SegStart(img') == SegStart(img)
  {
    hide Secs, Phdrs, Shdrs, SecEnd, Congruent, Flat, Ensured, ShstrtabIndex;
  }

  lemma FileEdited(img: ElfImage, img': ElfImage, segs: seq<Extent>, secs: seq<Extent>)
    requires img.header.ident.cls == img.ident.cls
    requires img'.ident == img.ident && img'.header == img.header && |img'.segments| == |img.segments|
    requires |Secs(img')| == |Secs(img)| && (img'.sections == [] <==> img.sections == [])
    requires ShstrtabIndex(Ensured(img'.sections)) == ShstrtabIndex(Ensured(img.sections))
    requires Phdrs(img') == Phdrs(img) && Shdrs(img') == Shdrs(img) && SecEnd(img') == SecEnd(img)
    requires Within(segs, SegStart(img), |SegBody(img)|) && Within(secs, SegEnd(img), |SecBody(img)|)
    requires SegBody(img') == PatchAll(SegBody(img), segs, SegStart(img))
    requires SecBody(img') == PatchAll(SecBody(img), secs, SegEnd(img))
    ensures FileEnd(img') == FileEnd(img)
    ensures Within(segs + secs, 0, |FileBytes(img)|)
    ensures FileBytes(img') == PatchAll(FileBytes(img), segs + secs, 0)
  {
    hide *;
    TablesEdited(img, img');
    FileBytesAre(img);
    FileBytesAre(img');
    PatchTwoParts(EhdrBytes(BuiltHeader(img)) + PhdrTable(img), SegBody(img), SecBody(img), TableBody(img), segs, secs);
  }

  /**
   * Editing commutes with building: the file of the edited image is the file of the image with the edit range
   * overwritten, at the covering load's file offset and at the file offset of every section the edit reached,
   * and with no other byte changed.
   */
  lemma EditCommutesWithBuild(img: ElfImage, ioff: u64, d: seq<u8>)
    requires img.header.ident.cls == img.ident.cls && Built(img).Ok? && Edited(img, ioff, d).Some?
    ensures Within(FileEdits(img, ioff, d), 0, |Built(img).value|)
    ensures Built(Edited(img, ioff, d).value) == Ok(PatchAll(Built(img).value, FileEdits(img, ioff, d), 0))
  {
    hide Secs, FileEnd, FileBytes, PatchAll, SegItems, SecItems, Overwrites, Phdrs, Shdrs, SegBody, SecBody, Ensured,
         ShstrtabIndex, SegEnd, SecEnd, SegStart, SegmentEdits, SectionEdits;
    PartsEdited(img, ioff, d);
    FileEdited(img, Edited(img, ioff, d).value,
               Overwrites(SegItems(img.segments), SegStart(img), SegmentEdits(img, ioff, d), |img.segments|),
               Overwrites(SecItems(Secs(img)), SegEnd(img), SectionEdits(img, Target(img, ioff, d).value.0, d),
                          |Secs(img)|));
  }

  // ---------------------------------------------------------------- reading back

  /** The first segment of any type that covers `vaddr`. */
  function CoveringSegment(segments: seq<Segment>, vaddr: u64): (r: Option<nat>)
    ensures r.Some? ==> r.value < |segments| && segments[r.value].ContainsVaddr(vaddr)
    ensures r.Some? ==> forall i :: 0 <= i < r.value ==> !segments[i].ContainsVaddr(vaddr)
    ensures r.None? ==> forall i :: 0 <= i < |segments| ==> !segments[i].ContainsVaddr(vaddr)
  {
    if segments == [] then None
    else if segments[0].ContainsVaddr(vaddr) then Some(0)
    else
      var i :- CoveringSegment(segments[1..], vaddr);
      Some(i + 1)
  }

  /** `read_at_vaddr`: `len` bytes, zero past the covering segment's data. */
  function ReadAtVaddr(img: ElfImage, vaddr: u64, len: nat): (r: Option<seq<u8>>)
    ensures r.Some? ==> |r.value| == len
  {
    var k :- CoveringSegment(img.segments, vaddr);
    var s, at := img.segments[k], vaddr - img.segments[k].header.vaddr;
    var available := if at <= |s.data| then s.data[at..] else [];
    var n := Min(|available|, len);
    Some(available[..n] + Zeros(len - n))
  }

  /** `read_ioff`. */
  function ReadIoff(img: ElfImage, ioff: u64, len: nat): Option<seq<u8>> {
    if ImageBase(img) + ioff > MAX_U64 then None else ReadAtVaddr(img, ImageBase(img) + ioff, len)
  }

  method ReadVaddr(img: ElfImage, vaddr: u64, out: array<u8>) returns (ok: bool)
    modifies out
    ensures ok == ReadAtVaddr(img, vaddr, out.Length).Some?
    ensures ok ==> out[..] == ReadAtVaddr(img, vaddr, out.Length).value
  {
    var k := CoveringSegment(img.segments, vaddr);
    if k.None? {
      return false;
    }
    var s := img.segments[k.value];
    var at := vaddr - s.header.vaddr;
    var available := if at <= |s.data| then s.data[at..] else [];
    for i := 0 to out.Length
      invariant forall j :: 0 <= j < i ==> out[j] == if j < |available| then available[j] else 0
    {
      out[i] := if i < |available| then available[i] else 0;
    }
    assert out[..] == ReadAtVaddr(img, vaddr, out.Length).value;
    return true;
  }

  lemma BaseKept(img: ElfImage, ioff: u64, d: seq<u8>)
    requires Edited(img, ioff, d).Some?
    ensures ImageBase(Edited(img, ioff, d).value) == ImageBase(img)
  {
    hide Geometry, Patch;
    assert HeadersOf(Edited(img, ioff, d).value.segments) == HeadersOf(img.segments);
  }

  /** A segment of any type that shadows the loads at `vaddr`: the reader stops there, the writer does not. */
  predicate Shadowed(img: ElfImage, vaddr: u64) {
    CoveringSegment(img.segments, vaddr) != CoveringLoad(img.segments, vaddr)
  }

  lemma CoverKept(img: ElfImage, ioff: u64, d: seq<u8>, vaddr: u64)
    requires Edited(img, ioff, d).Some?
    ensures CoveringSegment(Edited(img, ioff, d).value.segments, vaddr) == CoveringSegment(img.segments, vaddr)
  {
    hide Target, EditSections, Patch;
    var xs, ys := img.segments, Edited(img, ioff, d).value.segments;
    assert forall i :: 0 <= i < |xs| ==> ys[i].header == xs[i].header;
    var a, b := CoveringSegment(xs, vaddr), CoveringSegment(ys, vaddr);
    assert forall i :: 0 <= i < |xs| ==> ys[i].ContainsVaddr(vaddr) == xs[i].ContainsVaddr(vaddr);
  }

  /**
   * Reading after writing: what was written is read back, unless an earlier segment of another type covers the
   * address, and then the reader sees what it saw before.
   */
  lemma ReadAfterWrite(img: ElfImage, ioff: u64, d: seq<u8>)
    requires Edited(img, ioff, d).Some?
    ensures ReadIoff(Edited(img, ioff, d).value, ioff, |d|)
            == if Shadowed(img, ImageBase(img) + ioff) then ReadIoff(img, ioff, |d|) else Some(d)
  {
    hide EditSections, CoveringLoad, CoveringSegment, Geometry, ReadAtVaddr, Patch;
    var img' := Edited(img, ioff, d).value;
    var (vaddr, k, start) := Target(img, ioff, d).value;
    BaseKept(img, ioff, d);
    CoverKept(img, ioff, d, vaddr);
    if Shadowed(img, vaddr) {
      ReadElsewhere(img, img', vaddr, k, |d|);
    } else {
      ReadPatched(img', vaddr, img.segments[k], start, d);
    }
  }

  /** The reader's result depends on the segment it finds only. */
  lemma ReadElsewhere(img: ElfImage, img': ElfImage, vaddr: u64, k: nat, len: nat)
    requires CoveringSegment(img.segments, vaddr) == CoveringSegment(img'.segments, vaddr) != Some(k)
    requires |img.segments| == |img'.segments|
    requires forall i :: 0 <= i < |img.segments| && i != k ==> img.segments[i] == img'.segments[i]
    ensures ReadAtVaddr(img, vaddr, len) == ReadAtVaddr(img', vaddr, len)
  {
    hide CoveringSegment;
  }

  /** The reader finds a patched segment. */
  lemma ReadPatched(img: ElfImage, vaddr: u64, s: Segment, start: nat, d: seq<u8>)
    requires start + |d| <= |s.data| && vaddr == s.header.vaddr + start
    requires var k := CoveringSegment(img.segments, vaddr);
             k.Some? && img.segments[k.value] == s.(data := Patch(s.data, start, d))
    ensures ReadAtVaddr(img, vaddr, |d|) == Some(d)
  {
    hide CoveringSegment;
    var s' := img.segments[CoveringSegment(img.segments, vaddr).value];
    assert s'.data[start..][..|d|] == d;
    assert d + Zeros(0) == d;
  }
}
