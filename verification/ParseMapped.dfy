/** `src/elf/parse.rs`: reading an image from loader-mapped bytes. */
module ParseMapped {
  import opened Bytes
  import opened Headers
  import opened Images
  import opened Parse
  import opened Reader

  /** The bytes a segment occupies in memory: its memory size when loadable, else its file size. */
  function MappedLength(h: ProgramHeader): u64 { if h.kind == PT_LOAD then h.memsz else h.filesz }

  function MappedSegment(data: seq<u8>, h: ProgramHeader, base: u64): Result<Segment> {
    var length := MappedLength(h);
    if h.kind == PT_NULL || length == 0 then Ok(Segment(h, []))
    else if !CheckedLen(length, |data|) then Err
    else Ok(Segment(h, Lenient(data, SatSub(h.vaddr, base), length)))
  }

  function MappedSegmentAt(data: seq<u8>, phdrs: seq<ProgramHeader>, base: u64): nat -> Result<Segment> {
    (i: nat) => if i < |phdrs| then MappedSegment(data, phdrs[i], base) else Err
  }

  /** Allocated sections are found by address, the others by file offset. */
  function SectionBase(h: SectionHeader, base: u64): nat {
    if h.IsAlloc() then SatSub(h.addr, base) else h.offset
  }

  /** The name table of a mapped image, empty when it cannot be found. */
  function MappedNames(data: seq<u8>, h: ElfHeader, raw: seq<SectionHeader>, base: u64): seq<u8> {
    if h.shstrndx < |raw| && raw[h.shstrndx].kind == SHT_STRTAB && CheckedLen(raw[h.shstrndx].size, |data|)
    then Lenient(data, SectionBase(raw[h.shstrndx], base), raw[h.shstrndx].size)
    else []
  }

  /** The first `k` sections; a section whose size cannot be right is skipped. */
  function MappedSections(data: seq<u8>, raw: seq<SectionHeader>, names: seq<u8>, base: u64, k: nat): seq<Section>
    requires k <= |raw|
  {
    if k == 0 then []
    else
      var before, h := MappedSections(data, raw, names, base, k - 1), raw[k - 1];
      var length := if h.IsNobits() then 0 else h.size;
      if !CheckedLen(length, |data|) then before
      else before + [Section(h, NameOf(Some(names), h), Lenient(data, SectionBase(h, base), length))]
  }

  function AllMappedSections(data: seq<u8>, h: ElfHeader, base: u64): seq<Section> {
    var raw := Collect(h.shnum, ShdrAt(data, h));
    if raw.Err? then [] else MappedSections(data, raw.value, MappedNames(data, h, raw.value, base), base, |raw.value|)
  }

  /** `ElfImage::parse_mapped`. */
  function MappedParsed(data: seq<u8>): Result<ElfImage> {
    var headers :- ParseHeaders(data);
    var base := Geometry(headers.phdrs).base;
    var segments :- Collect(|headers.phdrs|, MappedSegmentAt(data, headers.phdrs, base));
    var img := ElfImage(headers.ident, headers.header, segments, AllMappedSections(data, headers.header, base), 0);
    Ok(img.(runtimeBase := ImageBase(img)))
  }

  method ReadMappedSections(data: seq<u8>, h: ElfHeader, base: u64) returns (sections: seq<Section>)
    ensures sections == AllMappedSections(data, h, base)
  {
    hide NameOf, SectionBase, Lenient, MappedNames, ShdrAt;
    sections := [];
    var raw := ReadAll(h.shnum, ShdrAt(data, h));
    if raw.Err? {
      return;
    }
    var names := MappedNames(data, h, raw.value, base);
    for i := 0 to |raw.value|
      invariant sections == MappedSections(data, raw.value, names, base, i)
    {
      var header := raw.value[i];
      var length := if header.IsNobits() then 0 else header.size;
      if !CheckedLen(length, |data|) {
        continue;
      }
      var bytes := LenientBytes(SliceSource(data), SectionBase(header, base), length);
      sections := sections + [Section(header, NameOf(Some(names), header), bytes)];
    }
  }

  /** `read_mapped_layout`, loop by loop. */
  method ParseMappedImage(data: seq<u8>) returns (r: Result<ElfImage>)
    ensures r == MappedParsed(data)
  {
    var bytes :- ReadBytes(data, 0, EI_NIDENT);
    var ident :- ParseIdent(bytes);
    var header :- ParseEhdr(data, ident);
    var phdrs := ReadAll(header.phnum, PhdrAt(data, header));
    if phdrs.Err? {
      return Err;
    }
    var g := ComputeGeometry(LoadsOf(phdrs.value));
    var segments := ReadAll(|phdrs.value|, MappedSegmentAt(data, phdrs.value, g.base));
    if segments.Err? {
      return Err;
    }
    var sections := ReadMappedSections(data, header, g.base);
    var img := ElfImage(ident, header, segments.value, sections, 0);
    g := ComputeGeometry(LoadsOf(HeadersOf(img.segments)));
    return Ok(img.(runtimeBase := g.base));
  }
}
