/** `src/reloc.rs`: relocation tables, their `RELA` serialization, and the classification of relocation types. */
module Reloc {
  import opened Arith
  import opened Bytes
  import opened Headers
  import opened Layout
  import opened Parse

  datatype RelocationEntry = RelocationEntry(offset: u64, symbol: u32, rType: u32, addend: Option<i64>)

  datatype RelocationSection = RelocationSection(entries: seq<RelocationEntry>, isRela: bool)

  function EntrySize(c: ElfClass, isRela: bool): (n: nat)
    ensures n > 0
  {
    match (c, isRela)
    case (Elf64, false) => 16
    case (Elf64, true) => 24
    case (Elf32, false) => 8
    case (Elf32, true) => 12
  }

  const TWO_31: nat := 0x8000_0000
  const TWO_63: nat := 0x8000_0000_0000_0000

  /** Two's complement readings. */
  function AsI64(v: u64): i64 { if v < TWO_63 then v else v - TWO_64 }

  function AsI32(v: u32): i64 { if v < TWO_31 then v else v - TWO_32 }

  function FromI64(v: i64): u64 { if v >= 0 then v else v + TWO_64 }

  predicate FitsI32(v: i64) { 0 <= v + TWO_31 < TWO_32 }

  function FromI32(v: i64): u32
    requires FitsI32(v)
  {
    if v >= 0 then v else v + TWO_32
  }

  /** `r_info` holds the symbol above 32 bits of type in ELF64 and above 8 bits in ELF32. */
  function SplitSymbol(c: ElfClass, info: u64): u32 {
    if c.Elf64? then Low32(info / TWO_32) else Low32(info / 256)
  }

  function SplitType(c: ElfClass, info: u64): u32 {
    if c.Elf64? then Low32(info) else info % 256
  }

  function JoinInfo(c: ElfClass, symbol: u32, rType: u32): u64 {
    if c.Elf64? then symbol * TWO_32 + rType else Low32(symbol * 256) + rType % 256
  }

  /** A number with `low` below `unit` splits into its parts. */
  lemma SplitParts(unit: nat, high: nat, low: nat)
    requires low < unit
    ensures (high * unit + low) / unit == high && (high * unit + low) % unit == low
  {
    ModIs(high * unit + low, unit, high, low);
  }

  /** Joining and splitting `r_info` keeps the fields, cut to 24 and 8 bits in ELF32. */
  lemma InfoRoundTrip(c: ElfClass, symbol: u32, rType: u32)
    ensures c.Elf64? ==> SplitSymbol(c, JoinInfo(c, symbol, rType)) == symbol
                         && SplitType(c, JoinInfo(c, symbol, rType)) == rType
    ensures c.Elf32? ==> JoinInfo(c, symbol, rType) < TWO_32
    ensures c.Elf32? ==> SplitSymbol(c, JoinInfo(c, symbol, rType)) == symbol % 0x100_0000
                         && SplitType(c, JoinInfo(c, symbol, rType)) == rType % 256
  {
    if c.Elf64? {
      SplitParts(TWO_32, symbol, rType);
      SmallMod(symbol);
    } else {
      ShiftedSymbol(symbol);
      SplitParts(256, symbol % 0x100_0000, rType % 256);
      SmallMod(symbol % 0x100_0000);
    }
  }

  lemma SmallMod(v: u32)
    ensures Low32(v) == v
  {
  }

  /** `symbol << 8` in 32 bits keeps the low 24 bits of the symbol. */
  lemma ShiftedSymbol(symbol: u32)
    ensures Low32(symbol * 256) == symbol % 0x100_0000 * 256
  {
    ModIs(symbol * 256, TWO_32, symbol / 0x100_0000, symbol % 0x100_0000 * 256);
  }

  // ---------------------------------------------------------------- parsing

  function ReadAddend(data: seq<u8>, at: nat, e: Endian, c: ElfClass): Result<i64> {
    if c.Elf64? then
      var v :- ReadU64(data, at + 16, e);
      Ok(AsI64(v))
    else
      var v :- ReadU32(data, at + 8, e);
      Ok(AsI32(v))
  }

  function ReadWords(data: seq<u8>, at: nat, e: Endian, c: ElfClass): Result<(u64, u64)> {
    if c.Elf64? then
      var offset: u64 :- ReadU64(data, at, e);
      var info: u64 :- ReadU64(data, at + 8, e);
      Ok((offset, info))
    else
      var offset: u64 :- ReadU32(data, at, e);
      var info: u64 :- ReadU32(data, at + 4, e);
      Ok((offset, info))
  }

  function ParseEntry(data: seq<u8>, at: nat, isRela: bool, e: Endian, c: ElfClass): Result<RelocationEntry> {
    var words :- ReadWords(data, at, e, c);
    if isRela then
      var addend :- ReadAddend(data, at, e, c);
      Ok(RelocationEntry(words.0, SplitSymbol(c, words.1), SplitType(c, words.1), Some(addend)))
    else Ok(RelocationEntry(words.0, SplitSymbol(c, words.1), SplitType(c, words.1), None))
  }

  function EntryNo(data: seq<u8>, isRela: bool, e: Endian, c: ElfClass, i: nat): Result<RelocationEntry> {
    MulNonNeg(i, EntrySize(c, isRela));
    ParseEntry(data, i * EntrySize(c, isRela), isRela, e, c)
  }

  function EntryAt(data: seq<u8>, isRela: bool, e: Endian, c: ElfClass): nat -> Result<RelocationEntry> {
    (i: nat) => EntryNo(data, isRela, e, c, i)
  }

  /** `RelocationSection::parse`. */
  function TableParsed(data: seq<u8>, isRela: bool, e: Endian, c: ElfClass): Result<RelocationSection> {
    if |data| % EntrySize(c, isRela) != 0 then Err
    else
      var entries :- Collect(|data| / EntrySize(c, isRela), EntryAt(data, isRela, e, c));
      Ok(RelocationSection(entries, isRela))
  }

  method ParseTable(data: seq<u8>, isRela: bool, e: Endian, c: ElfClass) returns (r: Result<RelocationSection>)
    ensures r == TableParsed(data, isRela, e, c)
  {
    if |data| % EntrySize(c, isRela) != 0 {
      return Err;
    }
    var entries := ReadAll(|data| / EntrySize(c, isRela), EntryAt(data, isRela, e, c));
    if entries.Err? {
      return Err;
    }
    return Ok(RelocationSection(entries.value, isRela));
  }

  /** A table decodes if and only if it is a whole number of entries. */
  lemma TableParses(data: seq<u8>, isRela: bool, e: Endian, c: ElfClass)
    ensures TableParsed(data, isRela, e, c).Ok? <==> |data| % EntrySize(c, isRela) == 0
  {
    hide U32, U64;
    var size := EntrySize(c, isRela);
    var n := |data| / size;
    if |data| % size == 0 {
      Euclid(|data|, size);
      CollectAll(n, EntryAt(data, isRela, e, c));
      forall i | 0 <= i < n ensures EntryAt(data, isRela, e, c)(i).Ok? {
        MulNonNeg(i, size);
        MulMono(size, i + 1, n);
        assert i * size + size <= |data|;
      }
    }
  }

  // ---------------------------------------------------------------- serializing

  function EntryBytes(en: RelocationEntry, e: Endian, c: ElfClass): (bs: seq<u8>)
    ensures |bs| == EntrySize(c, true)
  {
    var info, addend := JoinInfo(c, en.symbol, en.rType), en.addend.GetOr(0);
    if c.Elf64? then
      U64Bytes(e, en.offset) + U64Bytes(e, info) + U64Bytes(e, FromI64(addend))
    else
      InfoRoundTrip(c, en.symbol, en.rType);
      U32Bytes(e, Low32(en.offset)) + U32Bytes(e, info) + U32Bytes(e, FromI32(if FitsI32(addend) then addend else 0))
  }

  function EntryParts(entries: seq<RelocationEntry>, e: Endian, c: ElfClass): (parts: seq<seq<u8>>)
    ensures |parts| == |entries| && forall i :: 0 <= i < |parts| ==> parts[i] == EntryBytes(entries[i], e, c)
  {
    seq(|entries|, i requires 0 <= i < |entries| => EntryBytes(entries[i], e, c))
  }

  /** What a `RELA` table keeps of an entry: an absent addend reads as zero, ELF32 fields are cut. */
  function KeptEntry(c: ElfClass, en: RelocationEntry): RelocationEntry {
    var addend := en.addend.GetOr(0);
    if c.Elf64? then en.(addend := Some(addend))
    else RelocationEntry(Low32(en.offset), en.symbol % 0x100_0000, en.rType % 256,
                         Some(if FitsI32(addend) then addend else 0))
  }

  function KeptEntries(c: ElfClass, entries: seq<RelocationEntry>): (r: seq<RelocationEntry>)
    ensures |r| == |entries| && forall i :: 0 <= i < |r| ==> r[i] == KeptEntry(c, entries[i])
  {
    seq(|entries|, i requires 0 <= i < |entries| => KeptEntry(c, entries[i]))
  }

  /** `serialize_rela`. */
  method SerializeRela(entries: seq<RelocationEntry>, e: Endian, c: ElfClass) returns (out: seq<u8>)
    ensures out == Flat(EntryParts(entries, e, c))
  {
    hide EntryBytes, Flat;
    out := [];
    ghost var parts := EntryParts(entries, e, c);
    FlatEnds(parts);
    for i := 0 to |entries|
      invariant out == Flat(parts[..i])
    {
      FlatNext(parts, i);
      out := out + EntryBytes(entries[i], e, c);
    }
  }

  lemma EntryRoundTrip(data: seq<u8>, at: nat, en: RelocationEntry, e: Endian, c: ElfClass)
    requires At(data, at, EntryBytes(en, e, c))
    ensures ParseEntry(data, at, true, e, c) == Ok(KeptEntry(c, en))
  {
    hide Enc, Dec, U32, U64, U32Bytes, U64Bytes, JoinInfo, SplitSymbol, SplitType;
    InfoRoundTrip(c, en.symbol, en.rType);
    AtFields(data);
  }

  /** The `RELA` round trip, for every list of entries, both classes and both byte orders. */
  lemma RelaRoundTrip(entries: seq<RelocationEntry>, e: Endian, c: ElfClass)
    ensures TableParsed(Flat(EntryParts(entries, e, c)), true, e, c)
            == Ok(RelocationSection(KeptEntries(c, entries), true))
  {
    hide EntryBytes, ParseEntry, KeptEntry, At, Flat;
    var parts, size, n := EntryParts(entries, e, c), EntrySize(c, true), |entries|;
    var data := Flat(parts);
    FlatHolds(parts, size);
    ModIs(|data|, size, n, 0);
    forall i | 0 <= i < n ensures EntryAt(data, true, e, c)(i) == Ok(KeptEntries(c, entries)[i]) {
      assert At(data, i * size, parts[i]);
      EntryRoundTrip(data, i * size, entries[i], e, c);
    }
    CollectOk(n, EntryAt(data, true, e, c), KeptEntries(c, entries));
  }

  /** What the two classes keep, in numbers. */
  lemma KeptFields(c: ElfClass, en: RelocationEntry)
    ensures var k, addend := KeptEntry(c, en), en.addend.GetOr(0);
            match c
            case Elf64 =>
              k == RelocationEntry(en.offset, en.symbol, en.rType, Some(addend))
            case Elf32 =>
              && k.offset == en.offset % 0x1_0000_0000 && k.symbol == en.symbol % 0x100_0000
              && k.rType == en.rType % 0x100
              && k.addend == Some(if -0x8000_0000 <= addend <= 0x7FFF_FFFF then addend else 0)
  {
  }

  /** The entry is kept exactly when the class has room for its fields. */
  lemma KeptExactly(c: ElfClass, en: RelocationEntry)
    ensures KeptEntry(c, en) == en.(addend := Some(en.addend.GetOr(0)))
            <==> c.Elf64? || (en.offset < TWO_32 && en.symbol < 0x100_0000 && en.rType < 256
                              && FitsI32(en.addend.GetOr(0)))
  {
  }

  // ---------------------------------------------------------------- classification

  datatype RelocKind = Relative | GlobalData | JumpSlot | Absolute | Copy | Tls | IndirectFunction | OtherKind

  const EM_386: u16 := 3
  const EM_X86_64: u16 := 62

  function RelocationKind(machine: u16, r: u32): RelocKind {
    if machine == EM_X86_64 then
      if r == 8 then Relative
      else if r == 6 then GlobalData
      else if r == 7 then JumpSlot
      else if r == 1 then Absolute
      else if r == 5 then Copy
      else if 16 <= r <= 18 then Tls
      else if r == 37 then IndirectFunction
      else OtherKind
    else if machine == EM_386 then
      if r == 8 then Relative
      else if r == 6 then GlobalData
      else if r == 7 then JumpSlot
      else if r == 1 then Absolute
      else if r == 5 then Copy
      else if r in {14, 15, 35, 36, 37} then Tls
      else if r == 42 then IndirectFunction
      else OtherKind
    else OtherKind
  }

  function RelocationWidth(machine: u16, r: u32): Option<nat> {
    if machine == EM_X86_64 then
      if r in {8, 6, 7, 1, 5, 16, 17, 18, 37} then Some(8)
      else if r in {2, 10, 11} then Some(4)
      else None
    else if machine == EM_386 then
      if r in {8, 6, 7, 1, 5, 42} then Some(4) else None
    else None
  }
}
