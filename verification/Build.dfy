/** `src/elf/build.rs`: the serializer, with its saturating cursor and its out-of-order writes. */
module Build {
  import opened Bytes
  import opened Strings
  import opened Headers
  import opened Images
  import opened Layout
  import opened FileLayout

  /** The source's `congruent`, saturation included. */
  function SatCongruent(cursor: nat, vaddr: u64, alignment: u64): (r: u64)
    ensures r == Sat(Congruent(cursor, vaddr, alignment))
  {
    if alignment <= 1 then Sat(cursor)
    else
      var target, current := vaddr % alignment, cursor % alignment;
      if current == target then Sat(cursor)
      else if current < target then SatAdd(cursor, target - current)
      else SatAdd(cursor, alignment - (current - target))
  }

  /** The source aligns sections with `align_up`, which is `congruent` to address zero. */
  lemma AlignUpIsCongruent(value: u64, alignment: u64)
    ensures AlignUp(value, alignment) == Sat(Congruent(value, 0, alignment))
  {
    if alignment > 1 {
      assert 0 % alignment == 0;
    }
  }

  method WriteAt(out: seq<u8>, offset: u64, bytes: seq<u8>) returns (r: Result<seq<u8>>)
    ensures r == if offset + |bytes| > MAX_IMAGE then Err else Ok(Written(out, offset, bytes))
  {
    var end := offset + |bytes|;
    if end > MAX_IMAGE {
      return Err;
    }
    var grown := if |out| < end then out + Zeros(end - |out|) else out;
    GrowThenPatch(out, offset, bytes);
    return Ok(Patch(grown, offset, bytes));
  }

  method EnsureShstrtab(sections: seq<Section>) returns (r: seq<Section>, index: u16)
    ensures r == Ensured(sections)
    ensures index == U16OrZero(ShstrtabIndex(r).GetOr(0))
  {
    var i := ShstrtabIndex(sections);
    if i.Some? {
      return sections, U16OrZero(i.value);
    }
    r := sections + [NEW_SHSTRTAB];
    AppendedIsFirst(sections);
    index := U16OrZero(|r| - 1);
  }

  lemma {:induction false} AppendedIsFirst(sections: seq<Section>)
    requires ShstrtabIndex(sections).None?
    ensures ShstrtabIndex(sections + [NEW_SHSTRTAB]) == Some(|sections|)
  {
    var all := sections + [NEW_SHSTRTAB];
    assert IsShstrtab(all[|sections|]);
    assert forall i :: 0 <= i < |sections| ==> all[i] == sections[i];
  }

  method AssignNameOffsets(sections: seq<Section>) returns (r: seq<Section>)
    ensures r == Named(sections)
  {
    var names := Names(sections);
    var blob: seq<u8> := [0];
    var offsets: seq<u32> := [];
    for i := 0 to |sections|
      invariant blob == Blob(names[..i])
      invariant |offsets| == i && forall j :: 0 <= j < i ==> offsets[j] == Low32(NameOffset(names, j))
    {
      offsets := offsets + [Low32(|blob|)];
      blob := blob + sections[i].name + [0];
      assert names[..i + 1][..i] == names[..i];
    }
    assert names[..|sections|] == names;
    r := sections;
    for i := 0 to |sections|
      invariant |r| == |sections|
      invariant forall j :: 0 <= j < i ==> r[j] == NamedSection(sections[j], names, j)
      invariant forall j :: i <= j < |r| ==> r[j] == sections[j]
    {
      var s := sections[i];
      s := s.(header := s.header.(nameIndex := offsets[i]));
      if s.header.kind == SHT_STRTAB && s.name == SHSTRTAB {
        s := s.(data := blob, header := s.header.(size := Sat(|blob|)));
      }
      r := r[i := s];
    }
    assert r == Named(sections);
  }

  // ---------------------------------------------------------------- the writer

  /** The output while items are being placed: only the header room before the first write. */
  ghost predicate Front(out: seq<u8>, room: nat, start: nat, body: seq<u8>) {
    out == if body == [] then Zeros(room) else Zeros(start) + body
  }

  lemma FrontGrows(out: seq<u8>, room: nat, start: nat, body: seq<u8>, at: nat, bytes: seq<u8>)
    requires Front(out, room, start, body) && room <= start
    requires start + |body| <= at && bytes != []
    ensures Front(Written(out, at, bytes), room, start, body + (Zeros(at - start - |body|) + bytes))
  {
    var gap := Zeros(at - start - |body|);
    assert out + Zeros(at - |out|) == Zeros(start) + body + gap;
  }

  /** The cursors of both loops stay below the end of the file. */
  lemma CursorsBelowEnd(img: ElfImage, i: nat, j: nat)
    requires i <= |img.segments| && j <= |Secs(img)|
    ensures Cursor(SegItems(img.segments), SegStart(img), i) <= FileEnd(img)
    ensures Cursor(SecItems(Secs(img)), SegEnd(img), j) <= FileEnd(img)
  {
    hide Congruent, Prepared;
    CursorMonotone(SegItems(img.segments), SegStart(img), i, |img.segments|);
    CursorMonotone(SecItems(Secs(img)), SegEnd(img), j, |Secs(img)|);
  }

  /** Writes one item where the saturating cursor puts it, or fails because the file passes the cap. */
  method PlaceItem(out: seq<u8>, ghost items: seq<Item>, ghost room: nat, ghost start: nat, ghost i: nat,
                   ghost before: seq<u8>, cursor: nat, residue: u64, align: u64, bytes: seq<u8>)
    returns (r: Result<(u64, seq<u8>)>)
    requires i < |items| && items[i] == Item(residue, align, bytes) && bytes != []
    requires cursor == Cursor(items, start + |before|, i)
    requires room <= start && Front(out, room, start, before + Body(items, start + |before|, i))
    ensures r.Err? ==> Cursor(items, start + |before|, i + 1) > MAX_IMAGE
    ensures r.Ok? ==> r.value.0 == OffsetOf(items, start + |before|, i)
    ensures r.Ok? ==> r.value.0 + |bytes| == Cursor(items, start + |before|, i + 1) <= MAX_IMAGE
    ensures r.Ok? ==> Front(r.value.1, room, start, before + Body(items, start + |before|, i + 1))
  {
    hide Congruent, SatCongruent, Cursor, Body, Front, Written, Zeros;
    Step(items, start + |before|, i);
    var at := SatCongruent(cursor, residue, align);
    var written := WriteAt(out, at, bytes);
    if written.Err? {
      return Err;
    }
    ghost var body := Body(items, start + |before|, i);
    FrontGrows(out, room, start, before + body, at, bytes);
    assert before + body + (Zeros(at - cursor) + bytes) == before + (body + (Zeros(at - cursor) + bytes));
    return Ok((at, written.value));
  }

  /** One turn of the segment loop. */
  method PlaceSegment(img: ElfImage, i: nat, out: seq<u8>, cursor: nat)
    returns (r: Result<(ProgramHeader, nat, seq<u8>)>)
    requires i < |img.segments| && cursor == Cursor(SegItems(img.segments), SegStart(img), i)
    requires Front(out, EhdrSize(img.ident.cls), SegStart(img), Body(SegItems(img.segments), SegStart(img), i))
    ensures r.Err? ==> FileEnd(img) > MAX_IMAGE
    ensures r.Ok? ==> r.value.0 == PlacedPhdr(img.segments[i], cursor)
    ensures r.Ok? ==> r.value.1 == Cursor(SegItems(img.segments), SegStart(img), i + 1) <= Max(cursor, MAX_IMAGE)
    ensures r.Ok? ==> Front(r.value.2, EhdrSize(img.ident.cls), SegStart(img),
                            Body(SegItems(img.segments), SegStart(img), i + 1))
  {
    hide Congruent, Prepared, Cursor, Body, FileEnd, Front;
    ghost var items, start := SegItems(img.segments), SegStart(img);
    var segment := img.segments[i];
    var writable := Min(segment.header.filesz, |segment.data|);
    Step(items, start, i);
    if writable == 0 {
      return Ok((segment.header.(offset := 0, filesz := 0), cursor, out));
    }
    CursorsBelowEnd(img, i + 1, 0);
    var alignment := if segment.IsLoad() then Max(segment.header.align, 1) else 1;
    assert [] + Body(items, start, i) == Body(items, start, i);
    var placed := PlaceItem(out, items, EhdrSize(img.ident.cls), start, i, [], cursor,
                            segment.header.vaddr, alignment, segment.data[..writable]);
    if placed.Err? {
      return Err;
    }
    assert [] + Body(items, start, i + 1) == Body(items, start, i + 1);
    var (at, written) := placed.value;
    return Ok((segment.header.(offset := at, filesz := writable), at + writable, written));
  }

  /** Places every segment; the cursor and the patched headers are those of the closed form. */
  method PlaceSegments(img: ElfImage, room: seq<u8>)
    returns (r: Result<(seq<ProgramHeader>, nat, seq<u8>)>)
    requires room == Zeros(EhdrSize(img.ident.cls))
    ensures r.Err? ==> FileEnd(img) > MAX_IMAGE
    ensures r.Ok? ==> r.value.0 == Phdrs(img) && r.value.1 == SegEnd(img) <= Max(SegStart(img), MAX_IMAGE)
    ensures r.Ok? ==> Front(r.value.2, EhdrSize(img.ident.cls), SegStart(img), SegBody(img))
  {
    hide Congruent, Prepared, Cursor, Body, FileEnd, PlacedPhdr;
    ghost var items, start := SegItems(img.segments), SegStart(img);
    var phdrs, out := HeadersOf(img.segments), room;
    var cursor := EhdrSize(img.ident.cls) + |phdrs| * PhdrSize(img.ident.cls);
    CursorZero(items, start);
    for i := 0 to |img.segments|
      invariant |phdrs| == |img.segments|
      invariant cursor == Cursor(items, start, i) <= Max(start, MAX_IMAGE)
      invariant Front(out, |room|, start, Body(items, start, i))
      invariant forall j :: 0 <= j < i ==> phdrs[j] == PlacedPhdr(img.segments[j], Cursor(items, start, j))
    {
      var placed := PlaceSegment(img, i, out, cursor);
      if placed.Err? {
        return Err;
      }
      phdrs := phdrs[i := placed.value.0];
      cursor, out := placed.value.1, placed.value.2;
    }
    assert phdrs == Phdrs(img);
    return Ok((phdrs, cursor, out));
  }

  /** One turn of the section loop. */
  method PlaceSection(ghost img: ElfImage, ghost i: nat, section: Section, out: seq<u8>, cursor: nat)
    returns (r: Result<(SectionHeader, nat, seq<u8>)>)
    requires i < |Secs(img)| && section == Secs(img)[i] && cursor == Cursor(SecItems(Secs(img)), SegEnd(img), i)
    requires Front(out, EhdrSize(img.ident.cls), SegStart(img),
                   SegBody(img) + Body(SecItems(Secs(img)), SegEnd(img), i))
    ensures r.Err? ==> FileEnd(img) > MAX_IMAGE
    ensures r.Ok? ==> r.value.0 == PlacedShdr(section, cursor)
    ensures r.Ok? ==> r.value.1 == Cursor(SecItems(Secs(img)), SegEnd(img), i + 1) <= Max(cursor, MAX_IMAGE)
    ensures r.Ok? ==> Front(r.value.2, EhdrSize(img.ident.cls), SegStart(img),
                            SegBody(img) + Body(SecItems(Secs(img)), SegEnd(img), i + 1))
  {
    hide Congruent, Prepared, Cursor, Body, FileEnd, Front;
    ghost var items, start := SecItems(Secs(img)), SegEnd(img);
    Step(items, start, i);
    if section.header.IsNobits() {
      return Ok((section.header, cursor, out));
    }
    if section.data == [] {
      return Ok((section.header.(size := 0), cursor, out));
    }
    CursorsBelowEnd(img, 0, i + 1);
    var placed := PlaceItem(out, items, EhdrSize(img.ident.cls), SegStart(img), i, SegBody(img), cursor,
                            0, Max(section.header.addralign, 1), section.data);
    if placed.Err? {
      return Err;
    }
    var (at, written) := placed.value;
    return Ok((section.header.(offset := at, size := Sat(|section.data|)), at + |section.data|, written));
  }

  /** Places every section after the segments. */
  method PlaceSections(ghost img: ElfImage, sections: seq<Section>, first: nat, front: seq<u8>)
    returns (r: Result<(seq<SectionHeader>, nat, seq<u8>)>)
    requires sections == Secs(img) && first == SegEnd(img)
    requires Front(front, EhdrSize(img.ident.cls), SegStart(img), SegBody(img))
    ensures r.Err? ==> FileEnd(img) > MAX_IMAGE
    ensures r.Ok? ==> r.value.0 == Shdrs(img) && r.value.1 == SecEnd(img) <= Max(first, MAX_IMAGE)
    ensures r.Ok? ==> Front(r.value.2, EhdrSize(img.ident.cls), SegStart(img), SegBody(img) + SecBody(img))
  {
    hide Congruent, Prepared, Cursor, Body, FileEnd, PlacedShdr, Front;
    ghost var items, start := SecItems(sections), SegEnd(img);
    var shdrs: seq<SectionHeader>, cursor, out := [], first, front;
    CursorZero(items, start);
    assert SegBody(img) + [] == SegBody(img);
    for i := 0 to |sections|
      invariant |shdrs| == i
      invariant cursor == Cursor(items, start, i) <= Max(first, MAX_IMAGE)
      invariant Front(out, EhdrSize(img.ident.cls), SegStart(img), SegBody(img) + Body(items, start, i))
      invariant forall j :: 0 <= j < i ==> shdrs[j] == PlacedShdr(sections[j], Cursor(items, start, j))
    {
      var placed := PlaceSection(img, i, sections[i], out, cursor);
      if placed.Err? {
        return Err;
      }
      shdrs := shdrs + [placed.value.0];
      cursor, out := placed.value.1, placed.value.2;
    }
    assert shdrs == Shdrs(img);
    return Ok((shdrs, cursor, out));
  }

  /** The program header table is written late, into room the items left alone. */
  lemma TableIntoFront(out: seq<u8>, room: nat, start: nat, body: seq<u8>, table: seq<u8>)
    requires Front(out, room, start, body) && room + |table| == start
    ensures Written(out, room, table) == Zeros(room) + table + body
  {
    if body == [] {
      assert out + Zeros(0) == out;
    } else {
      assert out[..room] == Zeros(room);
      assert out[start..] == body;
    }
  }

  method WritePhdrs(hs: seq<ProgramHeader>, e: Endian, c: ElfClass) returns (table: seq<u8>)
    ensures table == Flat(PhdrParts(hs, e, c))
  {
    hide Flat, PhdrBytes;
    table := [];
    ghost var parts := PhdrParts(hs, e, c);
    FlatEnds(parts);
    for i := 0 to |hs|
      invariant table == Flat(parts[..i])
    {
      FlatNext(parts, i);
      table := table + PhdrBytes(hs[i], e, c);
    }
  }

  method WriteShdrs(hs: seq<SectionHeader>, e: Endian, c: ElfClass) returns (table: seq<u8>)
    ensures table == Flat(ShdrParts(hs, e, c))
  {
    hide Flat, ShdrBytes;
    table := [];
    ghost var parts := ShdrParts(hs, e, c);
    FlatEnds(parts);
    for i := 0 to |hs|
      invariant table == Flat(parts[..i])
    {
      FlatNext(parts, i);
      table := table + ShdrBytes(hs[i], e, c);
    }
  }

  /** The buffer once every table is in place, before the file header is copied over its room. */
  ghost predicate Assembled(out: seq<u8>, img: ElfImage, tail: seq<u8>) {
    out == Zeros(EhdrSize(img.ident.cls)) + PhdrTable(img) + (SegBody(img) + SecBody(img)) + tail
  }

  lemma TableAssembled(body: seq<u8>, img: ElfImage)
    requires Front(body, EhdrSize(img.ident.cls), SegStart(img), SegBody(img) + SecBody(img))
    ensures Assembled(Written(body, EhdrSize(img.ident.cls), PhdrTable(img)), img, [])
    ensures SegStart(img) <= FileEnd(img)
  {
    hide PhdrTable, SegBody, SecBody, Written;
    TableLengths(img);
    TableIntoFront(body, EhdrSize(img.ident.cls), SegStart(img), SegBody(img) + SecBody(img), PhdrTable(img));
    var out := Written(body, EhdrSize(img.ident.cls), PhdrTable(img));
    assert out + [] == out;
  }

  lemma HeaderLast(out: seq<u8>, img: ElfImage)
    requires img.header.ident.cls == img.ident.cls && Assembled(out, img, TableBody(img))
    ensures Patch(out, 0, EhdrBytes(BuiltHeader(img))) == FileBytes(img)
  {
    hide EhdrBytes, PhdrTable, SegBody, SecBody, TableBody, BuiltHeader;
    var rest := PhdrTable(img) + SegBody(img) + SecBody(img) + TableBody(img);
    var room := Zeros(EhdrSize(img.ident.cls));
    assert out == room + rest;
    assert out[|room|..] == rest;
    var h := EhdrBytes(BuiltHeader(img));
    assert Patch(out, 0, h) == h + rest;
  }

  /** The section step: an object without sections gets none, any other gets a name table and name offsets. */
  method PlaceNamedSections(img: ElfImage, first: nat, front: seq<u8>)
    returns (r: Result<(seq<SectionHeader>, u16, nat, seq<u8>)>)
    requires first == SegEnd(img)
    requires Front(front, EhdrSize(img.ident.cls), SegStart(img), SegBody(img))
    ensures r.Err? ==> FileEnd(img) > MAX_IMAGE
    ensures r.Ok? ==> r.value.0 == Shdrs(img) && r.value.1 == BuiltHeader(img).shstrndx
    ensures r.Ok? ==> r.value.2 == SecEnd(img) <= Max(first, MAX_IMAGE)
    ensures r.Ok? ==> Front(r.value.3, EhdrSize(img.ident.cls), SegStart(img), SegBody(img) + SecBody(img))
  {
    hide Congruent, FileEnd, Front;
    if img.sections == [] {
      CursorZero([], SegEnd(img));
      assert SegBody(img) + [] == SegBody(img);
      assert Shdrs(img) == [];
      return Ok(([], 0, first, front));
    }
    var sections, shstrndx := EnsureShstrtab(img.sections);
    sections := AssignNameOffsets(sections);
    var placed := PlaceSections(img, sections, first, front);
    if placed.Err? {
      return Err;
    }
    return Ok((placed.value.0, shstrndx, placed.value.1, placed.value.2));
  }

  /** Writes the section header table after everything else. */
  method WriteShdrTable(img: ElfImage, shdrs: seq<SectionHeader>, cursor: nat, out: seq<u8>)
    returns (r: Result<(u64, seq<u8>)>)
    requires shdrs == Shdrs(img) && cursor == SecEnd(img) && Assembled(out, img, [])
    ensures r.Err? ==> FileEnd(img) > MAX_IMAGE
    ensures r.Ok? ==> FileEnd(img) <= Max(cursor, MAX_IMAGE)
    ensures r.Ok? ==> r.value.0 == Sat(Shoff(img)) && Assembled(r.value.1, img, TableBody(img))
  {
    hide Congruent, PhdrTable, ShdrTable, SegBody, SecBody, Written;
    TableLengths(img);
    if img.sections == [] {
      return Ok((0, out));
    }
    var shoff := SatCongruent(cursor, 0, 8);
    var table := WriteShdrs(shdrs, img.ident.data, img.ident.cls);
    assert table == ShdrTable(img) by { ShdrTableIs(img); }
    var written := WriteAt(out, shoff, table);
    if written.Err? {
      return Err;
    }
    BodyLengths(img);
    WrittenPastEnd(out, shoff, table);
    var front := Zeros(EhdrSize(img.ident.cls)) + PhdrTable(img) + (SegBody(img) + SecBody(img));
    assert out == front && front + TableBody(img) == written.value;
    return Ok((shoff, written.value));
  }

  lemma ShdrTableIs(img: ElfImage)
    ensures ShdrTable(img) == Flat(ShdrParts(Shdrs(img), img.ident.data, img.ident.cls))
    ensures PhdrTable(img) == Flat(PhdrParts(Phdrs(img), img.ident.data, img.ident.cls))
  {
  }

  lemma BodyLengths(img: ElfImage)
    ensures |SegBody(img)| == SegEnd(img) - SegStart(img) && |SecBody(img)| == SecEnd(img) - SegEnd(img)
  {
  }

  /** The tables and the file header, written into the buffer that holds the segments and sections. */
  method Finish(img: ElfImage, phdrs: seq<ProgramHeader>, shdrs: seq<SectionHeader>, shstrndx: u16,
                cursor: nat, body: seq<u8>)
    returns (r: Result<seq<u8>>)
    requires img.header.ident.cls == img.ident.cls
    requires phdrs == Phdrs(img) && shdrs == Shdrs(img) && shstrndx == BuiltHeader(img).shstrndx
    requires cursor == SecEnd(img) <= Max(SegStart(img), MAX_IMAGE)
    requires Front(body, EhdrSize(img.ident.cls), SegStart(img), SegBody(img) + SecBody(img))
    ensures r == Built(img)
  {
    hide Congruent, FileBytes, PhdrTable, ShdrTable, EhdrBytes, Written, SegBody, SecBody, TableBody,
         Shdrs, Phdrs, SecEnd, SegEnd, Front, Prepared, Assembled, FileEnd;
    var c := img.ident.cls;
    TableLengths(img);
    var table := WritePhdrs(phdrs, img.ident.data, c);
    assert table == PhdrTable(img) by { ShdrTableIs(img); }
    var written := WriteAt(body, EhdrSize(c), table);
    if written.Err? || |phdrs| > MAX_U16 || |shdrs| > MAX_U16 {
      return Err;
    }
    TableAssembled(body, img);
    var tail := WriteShdrTable(img, shdrs, cursor, written.value);
    if tail.Err? {
      return Err;
    }
    var header := img.header.(phoff := EhdrSize(c), ehsize := EhdrSize(c), phentsize := PhdrSize(c),
                              phnum := |phdrs|, shnum := |shdrs|, shstrndx := shstrndx,
                              shentsize := ShdrSize(c), shoff := tail.value.0);
    assert header == BuiltHeader(img);
    HeaderLast(tail.value.1, img);
    return Ok(Patch(tail.value.1, 0, EhdrBytes(header)));
  }

  /**
   * `try_build`: places segments, then sections, then writes the program header table, the section header
   * table and the file header into the same buffer. The result is the closed form, whatever the input.
   * The source copies the header into room sized by the image's own class, so the classes must agree.
   */
  method TryBuild(img: ElfImage) returns (r: Result<seq<u8>>)
    requires img.header.ident.cls == img.ident.cls
    ensures r == Built(img)
  {
    var segments := PlaceSegments(img, Zeros(EhdrSize(img.ident.cls)));
    if segments.Err? {
      return Err;
    }
    var sections := PlaceNamedSections(img, segments.value.1, segments.value.2);
    if sections.Err? {
      return Err;
    }
    r := Finish(img, segments.value.0, sections.value.0, sections.value.1, sections.value.2, sections.value.3);
  }
}
