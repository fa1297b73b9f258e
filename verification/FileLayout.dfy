/** The file layout of an image, in closed form: what `try_build` must produce. */
module FileLayout {
  import opened Bytes
  import opened Strings
  import opened Headers
  import opened Images
  import opened Layout

  /** The 256 MiB cap on serialized and mapped images. */
  const MAX_IMAGE: nat := 256 * 1024 * 1024

  // ---------------------------------------------------------------- segments

  /** How many bytes of a segment reach the file. */
  function Writable(s: Segment): (n: nat)
    ensures n <= |s.data| && n <= s.header.filesz
  {
    Min(s.header.filesz, |s.data|)
  }

  function SegItem(s: Segment): Item {
    Item(s.header.vaddr, if s.IsLoad() then Max(s.header.align, 1) else 1, s.data[..Writable(s)])
  }

  function SegItems(segments: seq<Segment>): (items: seq<Item>)
    ensures |items| == |segments| && forall i :: 0 <= i < |items| ==> items[i] == SegItem(segments[i])
  {
    seq(|segments|, i requires 0 <= i < |segments| => SegItem(segments[i]))
  }

  /** Offsets beyond 64 bits saturate. */
  function Sat(n: nat): u64 { Min(n, MAX_U64) }

  /** The program header of a segment reached with the cursor at `c`. */
  function PlacedPhdr(s: Segment, c: nat): ProgramHeader {
    if Writable(s) == 0 then s.header.(offset := 0, filesz := 0)
    else s.header.(offset := Sat(Place(c, SegItem(s))), filesz := Writable(s))
  }

  function PlacedPhdrs(segments: seq<Segment>, start: nat): (hs: seq<ProgramHeader>)
    ensures |hs| == |segments|
    ensures forall i :: 0 <= i < |hs| ==>
              hs[i] == PlacedPhdr(segments[i], Cursor(SegItems(segments), start, i))
  {
    seq(|segments|, i requires 0 <= i < |segments| =>
      PlacedPhdr(segments[i], Cursor(SegItems(segments), start, i)))
  }

  function PhdrParts(hs: seq<ProgramHeader>, e: Endian, c: ElfClass): (parts: seq<seq<u8>>)
    ensures |parts| == |hs| && forall i :: 0 <= i < |parts| ==> parts[i] == PhdrBytes(hs[i], e, c)
  {
    seq(|hs|, i requires 0 <= i < |hs| => PhdrBytes(hs[i], e, c))
  }

  // ---------------------------------------------------------------- sections

  predicate IsShstrtab(s: Section) { s.name == SHSTRTAB && s.header.kind == SHT_STRTAB }

  /** The first section-name table. */
  function ShstrtabIndex(sections: seq<Section>): (r: Option<nat>)
    ensures r.Some? ==> r.value < |sections| && IsShstrtab(sections[r.value])
    ensures r.Some? ==> forall i :: 0 <= i < r.value ==> !IsShstrtab(sections[i])
    ensures r.None? ==> forall i :: 0 <= i < |sections| ==> !IsShstrtab(sections[i])
  {
    if sections == [] then None
    else if IsShstrtab(sections[0]) then Some(0)
    else
      var i :- ShstrtabIndex(sections[1..]);
      Some(i + 1)
  }

  const NEW_SHSTRTAB: Section :=
    Section(SectionHeader(0, SHT_STRTAB, 0, 0, 0, 0, 0, 0, 1, 0), SHSTRTAB, [])

  /** The sections with a name table among them. */
  function Ensured(sections: seq<Section>): seq<Section> {
    if ShstrtabIndex(sections).Some? then sections else sections + [NEW_SHSTRTAB]
  }

  function Names(sections: seq<Section>): (names: seq<seq<u8>>)
    ensures |names| == |sections| && forall i :: 0 <= i < |names| ==> names[i] == sections[i].name
  {
    seq(|sections|, i requires 0 <= i < |sections| => sections[i].name)
  }

  /** Section `i` with its name offset; every name table receives the blob. */
  function NamedSection(s: Section, names: seq<seq<u8>>, i: nat): Section
    requires i < |names|
  {
    var h := s.header.(nameIndex := Low32(NameOffset(names, i)));
    if IsShstrtab(s) then Section(h.(size := Sat(|Blob(names)|)), s.name, Blob(names))
    else Section(h, s.name, s.data)
  }

  function Named(sections: seq<Section>): (r: seq<Section>)
    ensures |r| == |sections|
    ensures forall i :: 0 <= i < |r| ==> r[i] == NamedSection(sections[i], Names(sections), i)
  {
    seq(|sections|, i requires 0 <= i < |sections| => NamedSection(sections[i], Names(sections), i))
  }

  /** The sections as they are about to be placed. */
  function Prepared(sections: seq<Section>): seq<Section> {
    if sections == [] then [] else Named(Ensured(sections))
  }

  function SecItem(s: Section): Item {
    Item(0, Max(s.header.addralign, 1), if s.header.IsNobits() then [] else s.data)
  }

  function SecItems(sections: seq<Section>): (items: seq<Item>)
    ensures |items| == |sections| && forall i :: 0 <= i < |items| ==> items[i] == SecItem(sections[i])
  {
    seq(|sections|, i requires 0 <= i < |sections| => SecItem(sections[i]))
  }

  /** The section header of a prepared section reached with the cursor at `c`. */
  function PlacedShdr(s: Section, c: nat): SectionHeader {
    if s.header.IsNobits() then s.header
    else if s.data == [] then s.header.(size := 0)
    else s.header.(offset := Sat(Place(c, SecItem(s))), size := Sat(|s.data|))
  }

  function PlacedShdrs(sections: seq<Section>, start: nat): (hs: seq<SectionHeader>)
    ensures |hs| == |sections|
    ensures forall i :: 0 <= i < |hs| ==>
              hs[i] == PlacedShdr(sections[i], Cursor(SecItems(sections), start, i))
  {
    seq(|sections|, i requires 0 <= i < |sections| =>
      PlacedShdr(sections[i], Cursor(SecItems(sections), start, i)))
  }

  function ShdrParts(hs: seq<SectionHeader>, e: Endian, c: ElfClass): (parts: seq<seq<u8>>)
    ensures |parts| == |hs| && forall i :: 0 <= i < |parts| ==> parts[i] == ShdrBytes(hs[i], e, c)
  {
    seq(|hs|, i requires 0 <= i < |hs| => ShdrBytes(hs[i], e, c))
  }

  // ---------------------------------------------------------------- the whole file

  /** Where the program header table ends and the first segment may begin. */
  function SegStart(img: ElfImage): nat { EhdrSize(img.ident.cls) + |img.segments| * PhdrSize(img.ident.cls) }

  function SegEnd(img: ElfImage): (n: nat)
    ensures n >= SegStart(img)
  {
    Cursor(SegItems(img.segments), SegStart(img), |img.segments|)
  }

  function Secs(img: ElfImage): seq<Section> { Prepared(img.sections) }

  function SecEnd(img: ElfImage): (n: nat)
    ensures n >= SegEnd(img)
  {
    Cursor(SecItems(Secs(img)), SegEnd(img), |Secs(img)|)
  }

  function Shoff(img: ElfImage): nat { if img.sections == [] then 0 else Congruent(SecEnd(img), 0, 8) }

  function FileEnd(img: ElfImage): (n: nat)
    ensures n >= SecEnd(img)
  {
    if img.sections == [] then SecEnd(img)
    else Congruent(SecEnd(img), 0, 8) + |Secs(img)| * ShdrSize(img.ident.cls)
  }

  function Phdrs(img: ElfImage): (hs: seq<ProgramHeader>)
    ensures |hs| == |img.segments|
  {
    PlacedPhdrs(img.segments, SegStart(img))
  }

  function Shdrs(img: ElfImage): (hs: seq<SectionHeader>)
    ensures |hs| == |Secs(img)|
  {
    PlacedShdrs(Secs(img), SegEnd(img))
  }

  /** `u16::try_from(..).unwrap_or(0)`. */
  function U16OrZero(n: nat): u16 { if n <= MAX_U16 then n else 0 }

  /** The file header `try_build` writes. */
  function BuiltHeader(img: ElfImage): (h: ElfHeader)
    ensures h.ident == img.header.ident
  {
    var c := img.ident.cls;
    img.header.(
      phoff := EhdrSize(c), ehsize := EhdrSize(c), phentsize := PhdrSize(c), phnum := U16OrZero(|img.segments|),
      shnum := U16OrZero(|Secs(img)|), shentsize := ShdrSize(c), shoff := Sat(Shoff(img)),
      shstrndx := if img.sections == [] then 0 else U16OrZero(ShstrtabIndex(Ensured(img.sections)).GetOr(0)))
  }

  function PhdrTable(img: ElfImage): seq<u8> { Flat(PhdrParts(Phdrs(img), img.ident.data, img.ident.cls)) }

  function ShdrTable(img: ElfImage): seq<u8> { Flat(ShdrParts(Shdrs(img), img.ident.data, img.ident.cls)) }

  function SegBody(img: ElfImage): seq<u8> { Body(SegItems(img.segments), SegStart(img), |img.segments|) }

  function SecBody(img: ElfImage): seq<u8> { Body(SecItems(Secs(img)), SegEnd(img), |Secs(img)|) }

  /** The end of the file: the gap before the section header table, and the table. */
  function TableBody(img: ElfImage): seq<u8> {
    if img.sections == [] then []
    else Zeros(Congruent(SecEnd(img), 0, 8) - SecEnd(img)) + ShdrTable(img)
  }

  function FileBytes(img: ElfImage): seq<u8> {
    EhdrBytes(BuiltHeader(img)) + PhdrTable(img) + SegBody(img) + SecBody(img) + TableBody(img)
  }

  /** What `try_build` returns. */
  function Built(img: ElfImage): Result<seq<u8>> {
    if FileEnd(img) <= MAX_IMAGE && |img.segments| <= MAX_U16 && |Secs(img)| <= MAX_U16
    then Ok(FileBytes(img))
    else Err
  }

  /** The identity in the header is the identity of the image, as every parser and the builder leave it. */
  predicate OneIdent(img: ElfImage) { img.header.ident == img.ident }

  // ---------------------------------------------------------------- lengths

  lemma TableLengths(img: ElfImage)
    ensures |PhdrTable(img)| == |img.segments| * PhdrSize(img.ident.cls)
    ensures |ShdrTable(img)| == |Secs(img)| * ShdrSize(img.ident.cls)
  {
    FlatHolds(PhdrParts(Phdrs(img), img.ident.data, img.ident.cls), PhdrSize(img.ident.cls));
    FlatHolds(ShdrParts(Shdrs(img), img.ident.data, img.ident.cls), ShdrSize(img.ident.cls));
  }

  lemma FileLength(img: ElfImage)
    requires img.header.ident.cls == img.ident.cls
    ensures |FileBytes(img)| == FileEnd(img)
  {
    TableLengths(img);
  }

  /** The file as four consecutive parts. */
  lemma FileBytesAre(img: ElfImage)
    requires img.header.ident.cls == img.ident.cls
    ensures var front := EhdrBytes(BuiltHeader(img)) + PhdrTable(img);
            && |front| == SegStart(img) && |front| + |SegBody(img)| == SegEnd(img)
            && FileBytes(img) == front + SegBody(img) + SecBody(img) + TableBody(img)
  {
    hide EhdrBytes, PhdrTable, ShdrTable, SegItems, SecItems, Congruent, Body, Cursor, Prepared, BuiltHeader, TableBody;
    TableLengths(img);
  }

  /** The five parts of the file, each found where the cursor left it. */
  lemma FileParts(img: ElfImage)
    requires img.header.ident.cls == img.ident.cls
    ensures |FileBytes(img)| == FileEnd(img)
    ensures At(FileBytes(img), 0, EhdrBytes(BuiltHeader(img)))
    ensures At(FileBytes(img), EhdrSize(img.ident.cls), PhdrTable(img))
    ensures At(FileBytes(img), SegStart(img), SegBody(img))
    ensures At(FileBytes(img), SegEnd(img), SecBody(img))
    ensures At(FileBytes(img), SecEnd(img), TableBody(img))
  {
    hide EhdrBytes, PhdrTable, ShdrTable, SegItems, SecItems, Congruent, Body, Cursor, Prepared, BuiltHeader;
    TableLengths(img);
    FileLength(img);
    var b := FileBytes(img);
    assert b[0..|b|] == b;
    assert At(b, 0, b);
    AtFields(b);
  }
}
