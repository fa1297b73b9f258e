/** `src/elf/parse.rs` and `src/header.rs`: reading the file layout. */
module Parse {
  import opened Arith
  import opened Bytes
  import opened Strings
  import opened Headers
  import opened Images

  /** The cap on one allocation made for an untrusted size. */
  const MAX_ALLOC: nat := 256 * 1024 * 1024

  /** `ElfHeaders`: the identity, the file header and the program headers. */
  datatype FileHeaders = FileHeaders(ident: ElfIdent, header: ElfHeader, phdrs: seq<ProgramHeader>)

  /** `checked_len` accepts `length`. */
  predicate CheckedLen(length: nat, size: nat) { length <= Min(size, MAX_ALLOC) }

  /** `read_bytes_at`: reading nothing succeeds anywhere. */
  function ReadBytes(data: seq<u8>, off: nat, len: nat): Result<seq<u8>> {
    if len == 0 then Ok([])
    else if off + len <= |data| then Ok(data[off..off + len])
    else Err
  }

  // ---------------------------------------------------------------- headers

  /** The checked addition of the source: an offset past 64 bits is an error. */
  function PhdrNo(data: seq<u8>, h: ElfHeader, i: nat): Result<ProgramHeader> {
    MulNonNeg(i, PhdrSize(h.ident.cls));
    var off := h.phoff + i * PhdrSize(h.ident.cls);
    if off > MAX_U64 then Err else ParsePhdr(data, off, h.ident.data, h.ident.cls)
  }

  function PhdrAt(data: seq<u8>, h: ElfHeader): nat -> Result<ProgramHeader> {
    (i: nat) => PhdrNo(data, h, i)
  }

  function ParseHeaders(data: seq<u8>): Result<FileHeaders> {
    var bytes :- ReadBytes(data, 0, EI_NIDENT);
    var ident :- ParseIdent(bytes);
    var header :- ParseEhdr(data, ident);
    var phdrs :- Collect(header.phnum, PhdrAt(data, header));
    Ok(FileHeaders(ident, header, phdrs))
  }

  // ---------------------------------------------------------------- segments

  function FileSegment(data: seq<u8>, h: ProgramHeader): Result<Segment> {
    if h.kind == PT_NULL || h.filesz == 0 then Ok(Segment(h, []))
    else if !CheckedLen(h.filesz, |data|) then Err
    else
      var bytes :- ReadBytes(data, h.offset, h.filesz);
      Ok(Segment(h, bytes))
  }

  function SegmentAt(data: seq<u8>, phdrs: seq<ProgramHeader>): nat -> Result<Segment> {
    (i: nat) => if i < |phdrs| then FileSegment(data, phdrs[i]) else Err
  }

  // ---------------------------------------------------------------- sections

  /** Entry `i` of the section header table; the offset arithmetic saturates. */
  function ShdrNo(data: seq<u8>, h: ElfHeader, i: nat): Result<SectionHeader> {
    var entry := Max(h.shentsize, ShdrSize(h.ident.cls));
    MulNonNeg(i, entry);
    ParseShdr(data, SatAdd(h.shoff, Min(i * entry, MAX_U64)), h.ident.data, h.ident.cls)
  }

  function ShdrAt(data: seq<u8>, h: ElfHeader): nat -> Result<SectionHeader> {
    (i: nat) => ShdrNo(data, h, i)
  }

  /** The section-name table's bytes, when the header names a string table that can be read. */
  function NameTable(data: seq<u8>, h: ElfHeader, raw: seq<SectionHeader>): Option<seq<u8>> {
    if h.shstrndx < |raw| && raw[h.shstrndx].kind == SHT_STRTAB && CheckedLen(raw[h.shstrndx].size, |data|) then
      var bytes := ReadBytes(data, raw[h.shstrndx].offset, raw[h.shstrndx].size);
      if bytes.Ok? then Some(bytes.value) else None
    else None
  }

  /** The name of a section; unresolvable names are empty. */
  function NameOf(table: Option<seq<u8>>, h: SectionHeader): seq<u8> {
    if table.None? then [] else TableGet(table.value, h.nameIndex).GetOr([])
  }

  function FileSection(data: seq<u8>, table: Option<seq<u8>>, h: SectionHeader): Result<Section> {
    if h.IsNobits() || h.size == 0 then Ok(Section(h, NameOf(table, h), []))
    else if !CheckedLen(h.size, |data|) then Err
    else
      var bytes :- ReadBytes(data, h.offset, h.size);
      Ok(Section(h, NameOf(table, h), bytes))
  }

  function SectionAt(data: seq<u8>, table: Option<seq<u8>>, raw: seq<SectionHeader>): nat -> Result<Section> {
    (i: nat) => if i < |raw| then FileSection(data, table, raw[i]) else Err
  }

  function FileSections(data: seq<u8>, h: ElfHeader): Result<seq<Section>> {
    if h.shoff == 0 || h.shnum == 0 then Ok([])
    else
      var raw :- Collect(h.shnum, ShdrAt(data, h));
      Collect(|raw|, SectionAt(data, NameTable(data, h, raw), raw))
  }

  // ---------------------------------------------------------------- the image

  /** `ElfImage::parse`. */
  function Parsed(data: seq<u8>): Result<ElfImage> {
    var headers :- ParseHeaders(data);
    var segments :- Collect(|headers.phdrs|, SegmentAt(data, headers.phdrs));
    var sections :- FileSections(data, headers.header);
    var img := ElfImage(headers.ident, headers.header, segments, sections, 0);
    Ok(img.(runtimeBase := ImageBase(img)))
  }

  /** The shape of every reading loop: push results until one fails. */
  method ReadAll<T>(n: nat, f: nat -> Result<T>) returns (r: Result<seq<T>>)
    ensures r == Collect(n, f)
  {
    var items: seq<T> := [];
    for i := 0 to n
      invariant Collect(i, f) == Ok(items)
    {
      var item := f(i);
      if item.Err? {
        CollectStops(i + 1, n, f);
        return Err;
      }
      items := items + [item.value];
    }
    return Ok(items);
  }

  method ReadFileSections(data: seq<u8>, h: ElfHeader) returns (r: Result<seq<Section>>)
    ensures r == FileSections(data, h)
  {
    if h.shoff == 0 || h.shnum == 0 {
      return Ok([]);
    }
    var raw := ReadAll(h.shnum, ShdrAt(data, h));
    if raw.Err? {
      return Err;
    }
    r := ReadAll(|raw.value|, SectionAt(data, NameTable(data, h, raw.value), raw.value));
  }

  /** `ElfImage::parse`, loop by loop. */
  method ParseFile(data: seq<u8>) returns (r: Result<ElfImage>)
    ensures r == Parsed(data)
  {
    var bytes :- ReadBytes(data, 0, EI_NIDENT);
    var ident :- ParseIdent(bytes);
    var header :- ParseEhdr(data, ident);
    var phdrs := ReadAll(header.phnum, PhdrAt(data, header));
    if phdrs.Err? {
      return Err;
    }
    var segments := ReadAll(|phdrs.value|, SegmentAt(data, phdrs.value));
    if segments.Err? {
      return Err;
    }
    var sections := ReadFileSections(data, header);
    if sections.Err? {
      return Err;
    }
    var img := ElfImage(ident, header, segments.value, sections.value, 0);
    var g := ComputeGeometry(LoadsOf(HeadersOf(img.segments)));
    return Ok(img.(runtimeBase := g.base));
  }
}
