/** `src/elf/inspect.rs`: the tables and translations derived from an image. */
module Inspect {
  import opened Bytes
  import opened Strings
  import opened Headers
  import opened Images
  import opened Parse
  import opened Notes
  import opened Dynamic
  import opened Edit

  // ---------------------------------------------------------------- notes

  function NoteSegments(img: ElfImage, k: nat): Result<seq<Note>>
    requires k <= |img.segments|
  {
    if k == 0 then Ok([])
    else
      var before :- NoteSegments(img, k - 1);
      var s := img.segments[k - 1];
      if s.header.kind != PT_NOTE then Ok(before)
      else
        var notes :- NotesFrom(s.data, 0, img.ident.data);
        Ok(before + notes)
  }

  function NoteSections(img: ElfImage, k: nat): Result<seq<Note>>
    requires k <= |img.sections|
  {
    if k == 0 then Ok([])
    else
      var before :- NoteSections(img, k - 1);
      var s := img.sections[k - 1];
      if s.header.kind != SHT_NOTE then Ok(before)
      else
        var notes :- NotesFrom(s.data, 0, img.ident.data);
        Ok(before + notes)
  }

  predicate HasNoteSegment(segments: seq<Segment>) {
    exists i :: 0 <= i < |segments| && segments[i].header.kind == PT_NOTE
  }

  /** `notes`: from the note segments, or from the note sections when there are no note segments. */
  function NotesOf(img: ElfImage): Result<seq<Note>> {
    if HasNoteSegment(img.segments) then NoteSegments(img, |img.segments|) else NoteSections(img, |img.sections|)
  }

  lemma {:induction false} NoteSegmentsStop(img: ElfImage, j: nat, k: nat)
    requires j <= k <= |img.segments| && NoteSegments(img, j).Err?
    ensures NoteSegments(img, k).Err?
  {
    hide NotesFrom;
    if j < k {
      NoteSegmentsStop(img, j, k - 1);
    }
  }

  lemma {:induction false} NoteSectionsStop(img: ElfImage, j: nat, k: nat)
    requires j <= k <= |img.sections| && NoteSections(img, j).Err?
    ensures NoteSections(img, k).Err?
  {
    hide NotesFrom;
    if j < k {
      NoteSectionsStop(img, j, k - 1);
    }
  }

  method ReadNotes(img: ElfImage) returns (r: Result<seq<Note>>)
    ensures r == NotesOf(img)
  {
    hide NotesFrom;
    var notes: seq<Note> := [];
    if HasNoteSegment(img.segments) {
      for i := 0 to |img.segments|
        invariant NoteSegments(img, i) == Ok(notes)
      {
        if img.segments[i].header.kind == PT_NOTE {
          var more := ParseAll(img.segments[i].data, img.ident.data);
          if more.Err? {
            NoteSegmentsStop(img, i + 1, |img.segments|);
            return Err;
          }
          notes := notes + more.value;
        }
      }
    } else {
      for i := 0 to |img.sections|
        invariant NoteSections(img, i) == Ok(notes)
      {
        if img.sections[i].header.kind == SHT_NOTE {
          var more := ParseAll(img.sections[i].data, img.ident.data);
          if more.Err? {
            NoteSectionsStop(img, i + 1, |img.sections|);
            return Err;
          }
          notes := notes + more.value;
        }
      }
    }
    return Ok(notes);
  }

  // ---------------------------------------------------------------- dynamic table and thread-local storage

  /** The first segment of a type. */
  function FirstOfKind(segments: seq<Segment>, kind: u32): (r: Option<nat>)
    ensures r.Some? ==> r.value < |segments| && segments[r.value].header.kind == kind
    ensures r.Some? ==> forall i :: 0 <= i < r.value ==> segments[i].header.kind != kind
    ensures r.None? ==> forall i :: 0 <= i < |segments| ==> segments[i].header.kind != kind
  {
    if segments == [] then None
    else if segments[0].header.kind == kind then Some(0)
    else
      var i :- FirstOfKind(segments[1..], kind);
      Some(i + 1)
  }

  /** `section_by_name`. */
  function SectionByName(sections: seq<Section>, name: seq<u8>): (r: Option<nat>)
    ensures r.Some? ==> r.value < |sections| && sections[r.value].name == name
    ensures r.Some? ==> forall i :: 0 <= i < r.value ==> sections[i].name != name
    ensures r.None? ==> forall i :: 0 <= i < |sections| ==> sections[i].name != name
  {
    if sections == [] then None
    else if sections[0].name == name then Some(0)
    else
      var i :- SectionByName(sections[1..], name);
      Some(i + 1)
  }

  /** `needed_libraries`. */
  function NeededLibraries(img: ElfImage): Result<seq<seq<u8>>> {
    var k := FirstOfKind(img.segments, PT_DYNAMIC);
    if k.None? then Ok([])
    else
      var entries :- DynParsed(img.segments[k.value].data, img.ident.data, img.ident.cls);
      var s := SectionByName(img.sections, DYNSTR);
      Ok(Needed(entries, if s.Some? then img.sections[s.value].data else []))
  }

  datatype TlsInfo = TlsInfo(templateVaddr: u64, fileSize: u64, memSize: u64, align: u64)

  /** `tls`. */
  function TlsOf(img: ElfImage): Option<TlsInfo> {
    var k :- FirstOfKind(img.segments, PT_TLS);
    var h := img.segments[k].header;
    Some(TlsInfo(h.vaddr, h.filesz, h.memsz, h.align))
  }

  // ---------------------------------------------------------------- file offsets

  /** The loadable segment has a file byte for `vaddr`. */
  predicate FileCovers(s: Segment, vaddr: u64) {
    s.IsLoad() && s.header.vaddr <= vaddr < SatAdd(s.header.vaddr, s.header.filesz)
  }

  function FileCovering(segments: seq<Segment>, vaddr: u64): (r: Option<nat>)
    ensures r.Some? ==> r.value < |segments| && FileCovers(segments[r.value], vaddr)
    ensures r.Some? ==> forall i :: 0 <= i < r.value ==> !FileCovers(segments[i], vaddr)
    ensures r.None? ==> forall i :: 0 <= i < |segments| ==> !FileCovers(segments[i], vaddr)
  {
    if segments == [] then None
    else if FileCovers(segments[0], vaddr) then Some(0)
    else
      var i :- FileCovering(segments[1..], vaddr);
      Some(i + 1)
  }

  /** `ioff_to_offset`. */
  function IoffToOffset(img: ElfImage, ioff: u64): Option<u64> {
    var vaddr := ImageBase(img) + ioff;
    if vaddr > MAX_U64 then None
    else
      var k :- FileCovering(img.segments, vaddr);
      var h := img.segments[k].header;
      if h.offset + (vaddr - h.vaddr) > MAX_U64 then None else Some(h.offset + (vaddr - h.vaddr))
  }

  /** Every segment of a parsed file holds the bytes its header points at. */
  lemma ParsedSegment(b: seq<u8>, img: ElfImage, k: nat)
    requires Parsed(b) == Ok(img) && k < |img.segments|
    ensures FileSegment(b, img.segments[k].header) == Ok(img.segments[k])
  {
    hide Geometry, ParseHeaders, FileSections, ReadBytes, CheckedLen;
    var headers := ParseHeaders(b).value;
    CollectAll(|headers.phdrs|, SegmentAt(b, headers.phdrs));
    assert SegmentAt(b, headers.phdrs)(k) == Ok(img.segments[k]);
  }

  /** The load and the position inside it that an image-relative offset is translated through. */
  function FileSpot(img: ElfImage, ioff: u64): (r: Option<(nat, nat)>)
    ensures r.Some? ==> r.value.0 < |img.segments|
  {
    var vaddr := ImageBase(img) + ioff;
    if vaddr > MAX_U64 then None
    else
      var k :- FileCovering(img.segments, vaddr);
      Some((k, vaddr - img.segments[k].header.vaddr))
  }

  /**
   * For every parsed file, a translated offset is inside the file and the byte there is the byte the covering
   * load holds for that address.
   */
  lemma OffsetsPointAtData(b: seq<u8>, img: ElfImage, ioff: u64)
    requires Parsed(b) == Ok(img) && IoffToOffset(img, ioff).Some?
    ensures FileSpot(img, ioff).Some?
    ensures var (k, at) := FileSpot(img, ioff).value;
            && at < |img.segments[k].data| && IoffToOffset(img, ioff).value < |b|
            && b[IoffToOffset(img, ioff).value] == img.segments[k].data[at]
  {
    hide ImageBase, Parsed, FileCovering;
    ParsedSegment(b, img, FileSpot(img, ioff).value.0);
  }

  // ---------------------------------------------------------------- slices

  /** `data_at_vaddr`. */
  function DataAtVaddr(s: Segment, vaddr: u64, len: nat): Option<seq<u8>> {
    if !s.ContainsVaddr(vaddr) || vaddr - s.header.vaddr > |s.data| then None
    else
      var available := s.data[vaddr - s.header.vaddr..];
      Some(available[..Min(len, |available|)])
  }

  /** `read_at_ioff`. */
  function ReadAtIoff(img: ElfImage, ioff: u64, len: nat): Option<seq<u8>> {
    var vaddr := ImageBase(img) + ioff;
    if vaddr > MAX_U64 then None
    else
      var k :- CoveringSegment(img.segments, vaddr);
      DataAtVaddr(img.segments[k], vaddr, len)
  }

  /**
   * The borrowing reader returns the owned reader's bytes without the zero-filled tail, and returns nothing only
   * where the owned reader has nothing or nothing but zeros.
   */
  lemma SliceIsPrefix(img: ElfImage, ioff: u64, len: nat)
    ensures match ReadAtIoff(img, ioff, len) {
              case Some(s) => |s| <= len && ReadIoff(img, ioff, len) == Some(s + Zeros(len - |s|))
              case None => ReadIoff(img, ioff, len).None? || ReadIoff(img, ioff, len) == Some(Zeros(len))
            }
  {
    hide ImageBase, CoveringSegment;
    assert [] + Zeros(len) == Zeros(len);
  }
}
