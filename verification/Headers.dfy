/** The identification array and the three fixed-size headers, in both classes and both byte orders. */
module Headers {
  import opened Bytes

  datatype ElfClass = Elf32 | Elf64

  const ELF_MAGIC: seq<u8> := [0x7f, 0x45, 0x4c, 0x46]
  const EI_NIDENT: nat := 16

  /** `e_ident` without its padding. */
  datatype ElfIdent = ElfIdent(cls: ElfClass, data: Endian, version: u8, osAbi: u8, abiVersion: u8)

  datatype ElfType = NoType | Rel | Exec | Dyn | Core | Other(raw: u16)

  datatype ElfHeader = ElfHeader(
    ident: ElfIdent, elfType: ElfType, machine: u16, version: u32,
    entry: u64, phoff: u64, shoff: u64, flags: u32,
    ehsize: u16, phentsize: u16, phnum: u16, shentsize: u16, shnum: u16, shstrndx: u16)

  const PT_NULL: u32 := 0
  const PT_LOAD: u32 := 1
  const PT_DYNAMIC: u32 := 2
  const PT_NOTE: u32 := 4
  const PT_TLS: u32 := 7

  datatype ProgramHeader = ProgramHeader(
    kind: u32, flags: u32, offset: u64, vaddr: u64, paddr: u64, filesz: u64, memsz: u64, align: u64)

  const SHT_NULL: u32 := 0
  const SHT_STRTAB: u32 := 3
  const SHT_RELA: u32 := 4
  const SHT_DYNAMIC: u32 := 6
  const SHT_NOTE: u32 := 7
  const SHT_NOBITS: u32 := 8
  const SHT_REL: u32 := 9

  const SHF_WRITE: u64 := 1
  const SHF_ALLOC: u64 := 2

  datatype SectionHeader = SectionHeader(
    nameIndex: u32, kind: u32, flags: u64, addr: u64, offset: u64, size: u64,
    link: u32, info: u32, addralign: u64, entsize: u64)
  {
    predicate IsNobits() { kind == SHT_NOBITS }

    /** Bit 1 of `sh_flags`. */
    predicate IsAlloc() { (flags / 2) % 2 == 1 }
  }

  function EhdrSize(cls: ElfClass): nat { if cls.Elf32? then 52 else 64 }

  function PhdrSize(cls: ElfClass): nat { if cls.Elf32? then 32 else 56 }

  function ShdrSize(cls: ElfClass): nat { if cls.Elf32? then 40 else 64 }

  // ---------------------------------------------------------------- reading

  function ReadU16(data: seq<u8>, off: nat, e: Endian): Result<u16> {
    if off + 2 <= |data| then Ok(U16(e, data[off..off + 2])) else Err
  }

  function ReadU32(data: seq<u8>, off: nat, e: Endian): Result<u32> {
    if off + 4 <= |data| then Ok(U32(e, data[off..off + 4])) else Err
  }

  function ReadU64(data: seq<u8>, off: nat, e: Endian): Result<u64> {
    if off + 8 <= |data| then Ok(U64(e, data[off..off + 8])) else Err
  }

  // ---------------------------------------------------------------- identification

  function ClassByte(cls: ElfClass): u8 { if cls.Elf32? then 1 else 2 }

  function ClassFromByte(b: u8): Result<ElfClass> {
    if b == 1 then Ok(Elf32) else if b == 2 then Ok(Elf64) else Err
  }

  function EndianByte(e: Endian): u8 { if e.Little? then 1 else 2 }

  function EndianFromByte(b: u8): Result<Endian> {
    if b == 1 then Ok(Little) else if b == 2 then Ok(Big) else Err
  }

  function IdentBytes(id: ElfIdent): (bs: seq<u8>)
    ensures |bs| == EI_NIDENT
  {
    ELF_MAGIC + [ClassByte(id.cls), EndianByte(id.data), id.version, id.osAbi, id.abiVersion] + Zeros(7)
  }

  function ParseIdent(bs: seq<u8>): Result<ElfIdent>
    requires |bs| == EI_NIDENT
  {
    if bs[0..4] != ELF_MAGIC then Err
    else
      var cls :- ClassFromByte(bs[4]);
      var data :- EndianFromByte(bs[5]);
      Ok(ElfIdent(cls, data, bs[6], bs[7], bs[8]))
  }

  /** The identification array survives a write and a parse. */
  lemma IdentRoundTrip(id: ElfIdent)
    ensures ParseIdent(IdentBytes(id)) == Ok(id)
  {
    assert IdentBytes(id)[0..4] == ELF_MAGIC;
  }

  function ElfTypeFromU16(v: u16): ElfType {
    if v == 0 then NoType else if v == 1 then Rel else if v == 2 then Exec
    else if v == 3 then Dyn else if v == 4 then Core else Other(v)
  }

  function ElfTypeToU16(t: ElfType): u16 {
    match t
    case NoType => 0
    case Rel => 1
    case Exec => 2
    case Dyn => 3
    case Core => 4
    case Other(v) => v
  }

  // ---------------------------------------------------------------- field widths

  /** An address-sized field: 8 bytes in ELF64, the truncated low 4 bytes in ELF32. */
  function WordBytes(cls: ElfClass, e: Endian, v: u64): (bs: seq<u8>)
    ensures |bs| == if cls.Elf32? then 4 else 8
  {
    if cls.Elf32? then U32Bytes(e, Low32(v)) else U64Bytes(e, v)
  }

  /** What an address-sized field holds after it is stored in a file of class `cls`. */
  function Stored(cls: ElfClass, v: u64): u64 { if cls.Elf32? then Low32(v) else v }

  function StoredEhdr(h: ElfHeader): ElfHeader {
    var c := h.ident.cls;
    h.(elfType := ElfTypeFromU16(ElfTypeToU16(h.elfType)),
       entry := Stored(c, h.entry), phoff := Stored(c, h.phoff), shoff := Stored(c, h.shoff))
  }

  function StoredPhdr(c: ElfClass, h: ProgramHeader): ProgramHeader {
    h.(offset := Stored(c, h.offset), vaddr := Stored(c, h.vaddr), paddr := Stored(c, h.paddr),
       filesz := Stored(c, h.filesz), memsz := Stored(c, h.memsz), align := Stored(c, h.align))
  }

  function StoredShdr(c: ElfClass, h: SectionHeader): SectionHeader {
    h.(flags := Stored(c, h.flags), addr := Stored(c, h.addr), offset := Stored(c, h.offset),
       size := Stored(c, h.size), addralign := Stored(c, h.addralign), entsize := Stored(c, h.entsize))
  }

  // ---------------------------------------------------------------- ELF header

  function EhdrBytes(h: ElfHeader): (bs: seq<u8>)
    ensures |bs| == EhdrSize(h.ident.cls)
  {
    var e, c := h.ident.data, h.ident.cls;
    IdentBytes(h.ident) + U16Bytes(e, ElfTypeToU16(h.elfType)) + U16Bytes(e, h.machine) + U32Bytes(e, h.version)
    + WordBytes(c, e, h.entry) + WordBytes(c, e, h.phoff) + WordBytes(c, e, h.shoff)
    + U32Bytes(e, h.flags) + U16Bytes(e, h.ehsize) + U16Bytes(e, h.phentsize) + U16Bytes(e, h.phnum)
    + U16Bytes(e, h.shentsize) + U16Bytes(e, h.shnum) + U16Bytes(e, h.shstrndx)
  }

  /** The three address fields and the offset of `e_flags`. */
  function ReadEhdrAddrs(data: seq<u8>, ident: ElfIdent): Result<(u64, u64, u64, nat)> {
    var e := ident.data;
    if ident.cls.Elf64? then
      var entry: u64 :- ReadU64(data, 24, e);
      var phoff: u64 :- ReadU64(data, 32, e);
      var shoff: u64 :- ReadU64(data, 40, e);
      Ok((entry, phoff, shoff, 48))
    else
      var entry: u64 :- ReadU32(data, 24, e);
      var phoff: u64 :- ReadU32(data, 28, e);
      var shoff: u64 :- ReadU32(data, 32, e);
      Ok((entry, phoff, shoff, 36))
  }

  function ParseEhdr(data: seq<u8>, ident: ElfIdent): Result<ElfHeader> {
    var e := ident.data;
    var machine :- ReadU16(data, 18, e);
    var addrs :- ReadEhdrAddrs(data, ident);
    var tail := addrs.3;
    var kind :- ReadU16(data, 16, e);
    var version :- ReadU32(data, 20, e);
    var flags :- ReadU32(data, tail, e);
    var ehsize :- ReadU16(data, tail + 4, e);
    var phentsize :- ReadU16(data, tail + 6, e);
    var phnum :- ReadU16(data, tail + 8, e);
    var shentsize :- ReadU16(data, tail + 10, e);
    var shnum :- ReadU16(data, tail + 12, e);
    var shstrndx :- ReadU16(data, tail + 14, e);
    Ok(ElfHeader(ident, ElfTypeFromU16(kind), machine, version, addrs.0, addrs.1, addrs.2, flags,
                 ehsize, phentsize, phnum, shentsize, shnum, shstrndx))
  }

  /** A written ELF header parses back, up to the truncation of ELF32 fields. */
  lemma EhdrRoundTrip(data: seq<u8>, h: ElfHeader)
    requires At(data, 0, EhdrBytes(h))
    ensures ParseEhdr(data, h.ident) == Ok(StoredEhdr(h))
    ensures At(data, 0, IdentBytes(h.ident))
  {
    hide Enc, Dec, U16, U32, U64, U16Bytes, U32Bytes, U64Bytes;
    AtFields(data);
  }

  // ---------------------------------------------------------------- program header

  function PhdrBytes(h: ProgramHeader, e: Endian, c: ElfClass): (bs: seq<u8>)
    ensures |bs| == PhdrSize(c)
  {
    match c
    case Elf64 =>
      U32Bytes(e, h.kind) + U32Bytes(e, h.flags) + U64Bytes(e, h.offset) + U64Bytes(e, h.vaddr)
      + U64Bytes(e, h.paddr) + U64Bytes(e, h.filesz) + U64Bytes(e, h.memsz) + U64Bytes(e, h.align)
    case Elf32 =>
      U32Bytes(e, h.kind) + U32Bytes(e, Low32(h.offset)) + U32Bytes(e, Low32(h.vaddr))
      + U32Bytes(e, Low32(h.paddr)) + U32Bytes(e, Low32(h.filesz)) + U32Bytes(e, Low32(h.memsz))
      + U32Bytes(e, h.flags) + U32Bytes(e, Low32(h.align))
  }

  function ParsePhdr(data: seq<u8>, off: nat, e: Endian, c: ElfClass): Result<ProgramHeader> {
    match c
    case Elf64 =>
      var kind :- ReadU32(data, off, e);
      var flags :- ReadU32(data, off + 4, e);
      var offset :- ReadU64(data, off + 8, e);
      var vaddr :- ReadU64(data, off + 16, e);
      var paddr :- ReadU64(data, off + 24, e);
      var filesz :- ReadU64(data, off + 32, e);
      var memsz :- ReadU64(data, off + 40, e);
      var align :- ReadU64(data, off + 48, e);
      Ok(ProgramHeader(kind, flags, offset, vaddr, paddr, filesz, memsz, align))
    case Elf32 =>
      var kind :- ReadU32(data, off, e);
      var offset :- ReadU32(data, off + 4, e);
      var vaddr :- ReadU32(data, off + 8, e);
      var paddr :- ReadU32(data, off + 12, e);
      var filesz :- ReadU32(data, off + 16, e);
      var memsz :- ReadU32(data, off + 20, e);
      var flags :- ReadU32(data, off + 24, e);
      var align :- ReadU32(data, off + 28, e);
      Ok(ProgramHeader(kind, flags, offset, vaddr, paddr, filesz, memsz, align))
  }

  /** A written program header parses back, up to the truncation of ELF32 fields. */
  lemma PhdrRoundTrip(data: seq<u8>, off: nat, h: ProgramHeader, e: Endian, c: ElfClass)
    requires At(data, off, PhdrBytes(h, e, c))
    ensures ParsePhdr(data, off, e, c) == Ok(StoredPhdr(c, h))
  {
    hide Enc, Dec, U16, U32, U64, U16Bytes, U32Bytes, U64Bytes;
    AtFields(data);
  }

  // ---------------------------------------------------------------- section header

  function ShdrBytes(h: SectionHeader, e: Endian, c: ElfClass): (bs: seq<u8>)
    ensures |bs| == ShdrSize(c)
  {
    U32Bytes(e, h.nameIndex) + U32Bytes(e, h.kind) + WordBytes(c, e, h.flags) + WordBytes(c, e, h.addr)
    + WordBytes(c, e, h.offset) + WordBytes(c, e, h.size) + U32Bytes(e, h.link) + U32Bytes(e, h.info)
    + WordBytes(c, e, h.addralign) + WordBytes(c, e, h.entsize)
  }

  function ParseShdr(data: seq<u8>, off: nat, e: Endian, c: ElfClass): Result<SectionHeader> {
    match c
    case Elf64 =>
      var nameIndex :- ReadU32(data, off, e);
      var kind :- ReadU32(data, off + 4, e);
      var flags :- ReadU64(data, off + 8, e);
      var addr :- ReadU64(data, off + 16, e);
      var offset :- ReadU64(data, off + 24, e);
      var size :- ReadU64(data, off + 32, e);
      var link :- ReadU32(data, off + 40, e);
      var info :- ReadU32(data, off + 44, e);
      var addralign :- ReadU64(data, off + 48, e);
      var entsize :- ReadU64(data, off + 56, e);
      Ok(SectionHeader(nameIndex, kind, flags, addr, offset, size, link, info, addralign, entsize))
    case Elf32 =>
      var nameIndex :- ReadU32(data, off, e);
      var kind :- ReadU32(data, off + 4, e);
      var flags :- ReadU32(data, off + 8, e);
      var addr :- ReadU32(data, off + 12, e);
      var offset :- ReadU32(data, off + 16, e);
      var size :- ReadU32(data, off + 20, e);
      var link :- ReadU32(data, off + 24, e);
      var info :- ReadU32(data, off + 28, e);
      var addralign :- ReadU32(data, off + 32, e);
      var entsize :- ReadU32(data, off + 36, e);
      Ok(SectionHeader(nameIndex, kind, flags, addr, offset, size, link, info, addralign, entsize))
  }

  /** A written section header parses back, up to the truncation of ELF32 fields. */
  lemma ShdrRoundTrip(data: seq<u8>, off: nat, h: SectionHeader, e: Endian, c: ElfClass)
    requires At(data, off, ShdrBytes(h, e, c))
    ensures ParseShdr(data, off, e, c) == Ok(StoredShdr(c, h))
  {
    hide Enc, Dec, U16, U32, U64, U16Bytes, U32Bytes, U64Bytes;
    AtFields(data);
  }
}
