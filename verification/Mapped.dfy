/** `src/elf/build.rs`: the loader image, written in place, and its rebasing. */
module Mapped {
  import opened Bytes
  import opened Headers
  import opened Images
  import opened Layout
  import opened FileLayout
  import opened Reloc
  import opened Rebase
  import Build

  // ---------------------------------------------------------------- loads and headers

  /** Where a load is placed: its offset from the image base, unless it starts below the base. */
  function LoadStart(s: Segment, base: u64): Option<nat> {
    if s.IsLoad() && s.header.vaddr >= base then Some(s.header.vaddr - base) else None
  }

  /** The image after a load is copied into it, cut at the end of the image. */
  function PlaceLoad(image: seq<u8>, s: Segment, base: u64): (r: seq<u8>)
    ensures |r| == |image|
  {
    var start := LoadStart(s, base);
    if start.None? || start.value > |image| then image
    else Patch(image, start.value, s.data[..Min(|s.data|, |image| - start.value)])
  }

  /** The zeroed image after the first `k` segments. */
  function PlaceLoads(segments: seq<Segment>, base: u64, span: nat, k: nat): (r: seq<u8>)
    requires k <= |segments|
    ensures |r| == span
  {
    if k == 0 then Zeros(span) else PlaceLoad(PlaceLoads(segments, base, span, k - 1), segments[k - 1], base)
  }

  function MappedHeader(img: ElfImage): (h: ElfHeader)
    ensures h.ident == img.header.ident
  {
    var c := img.ident.cls;
    img.header.(ehsize := EhdrSize(c), phentsize := PhdrSize(c), phnum := U16OrZero(|img.segments|),
                phoff := EhdrSize(c))
  }

  /** The headers a mapped image starts with. */
  function HeaderBlock(img: ElfImage): seq<u8> {
    EhdrBytes(MappedHeader(img)) + Flat(PhdrParts(HeadersOf(img.segments), img.ident.data, img.ident.cls))
  }

  /** `to_mapped_image`. */
  function MappedAtHome(img: ElfImage): (r: Result<seq<u8>>)
    ensures r.Ok? ==> |r.value| == ImageSpan(img)
  {
    var span := ImageSpan(img);
    if span > MAX_IMAGE then Err
    else
      var block := HeaderBlock(img);
      Ok(Patch(PlaceLoads(img.segments, ImageBase(img), span, |img.segments|), 0, block[..Min(|block|, span)]))
  }

  // ---------------------------------------------------------------- relocations

  /** The relocation tables among the first `k` sections. */
  function RelocTables(img: ElfImage, k: nat): Result<seq<RelocationSection>>
    requires k <= |img.sections|
  {
    if k == 0 then Ok([])
    else
      var before :- RelocTables(img, k - 1);
      var s := img.sections[k - 1];
      if s.header.kind != SHT_RELA && s.header.kind != SHT_REL then Ok(before)
      else
        var table :- TableParsed(s.data, s.header.kind == SHT_RELA, img.ident.data, img.ident.cls);
        Ok(before + [table])
  }

  /** `ElfImage::relocations`. */
  function Relocations(img: ElfImage): Result<seq<RelocationSection>> { RelocTables(img, |img.sections|) }

  lemma {:induction false} RelocTablesStop(img: ElfImage, j: nat, k: nat)
    requires j <= k <= |img.sections| && RelocTables(img, j).Err?
    ensures RelocTables(img, k).Err?
  {
    if j < k {
      RelocTablesStop(img, j, k - 1);
    }
  }

  method ReadRelocations(img: ElfImage) returns (r: Result<seq<RelocationSection>>)
    ensures r == Relocations(img)
  {
    var tables: seq<RelocationSection> := [];
    for i := 0 to |img.sections|
      invariant RelocTables(img, i) == Ok(tables)
    {
      var s := img.sections[i];
      if s.header.kind != SHT_RELA && s.header.kind != SHT_REL {
        continue;
      }
      var table := ParseTable(s.data, s.header.kind == SHT_RELA, img.ident.data, img.ident.cls);
      if table.Err? {
        RelocTablesStop(img, i + 1, |img.sections|);
        return Err;
      }
      tables := tables + [table.value];
    }
    return Ok(tables);
  }

  /** The slot an entry rebases: a Relative entry whose pointer lies inside the image. */
  function SlotOf(en: RelocationEntry, machine: u16, base: u64, n: nat): (r: Option<Slot>)
    ensures r.Some? ==> Inside(r.value, n) && RelocationKind(machine, en.rType) == Relative
  {
    var width := RelocationWidth(machine, en.rType);
    if RelocationKind(machine, en.rType) != Relative || width.None? || en.offset < base then None
    else if en.offset - base + width.value > n then None
    else Some(Slot(en.offset - base, width.value))
  }

  /** The slots of the first `k` entries of a table. */
  function EntrySlots(entries: seq<RelocationEntry>, machine: u16, base: u64, n: nat, k: nat): (r: seq<Slot>)
    requires k <= |entries|
    ensures AllInside(r, n)
  {
    if k == 0 then []
    else
      var before, slot := EntrySlots(entries, machine, base, n, k - 1), SlotOf(entries[k - 1], machine, base, n);
      if slot.None? then before else before + [slot.value]
  }

  /** The slots of the first `k` tables. */
  function TableSlots(tables: seq<RelocationSection>, machine: u16, base: u64, n: nat, k: nat): (r: seq<Slot>)
    requires k <= |tables|
    ensures AllInside(r, n)
  {
    if k == 0 then []
    else
      TableSlots(tables, machine, base, n, k - 1)
      + EntrySlots(tables[k - 1].entries, machine, base, n, |tables[k - 1].entries|)
  }

  /** Every slot that rebasing an `n`-byte image touches, in order. */
  function Slots(img: ElfImage, tables: seq<RelocationSection>, n: nat): (r: seq<Slot>)
    ensures AllInside(r, n)
  {
    TableSlots(tables, img.header.machine, ImageBase(img), n, |tables|)
  }

  /** `base.wrapping_sub(image_base)`. */
  function Delta(img: ElfImage, base: u64): u64 { (base + TWO_64 - ImageBase(img)) % TWO_64 }

  /** `apply_relative_relocations`. */
  function Rebased(img: ElfImage, image: seq<u8>, base: u64): (r: Result<seq<u8>>)
    ensures r.Ok? ==> |r.value| == |image|
  {
    var tables :- Relocations(img);
    Ok(Apply(image, Slots(img, tables, |image|), img.ident.data, Delta(img, base)))
  }

  /** `to_mapped_image_at`. */
  function MappedAt(img: ElfImage, base: u64): Result<seq<u8>> {
    var image :- MappedAtHome(img);
    if base == ImageBase(img) then Ok(image) else Rebased(img, image, base)
  }

  // ---------------------------------------------------------------- the writers

  /** The source slices the image at every load's start, so a load must not start past the end of the image. */
  ghost predicate LoadsStartInside(img: ElfImage) {
    forall i :: 0 <= i < |img.segments| && LoadStart(img.segments[i], ImageBase(img)).Some? ==>
      LoadStart(img.segments[i], ImageBase(img)).value <= ImageSpan(img)
  }

  /** The writer returns an image: the span is within the cap, and no load makes the source slice out of range. */
  ghost predicate Maps(img: ElfImage) { MappedAtHome(img).Ok? && LoadsStartInside(img) }

  /** Copies `d` over the array at `at`. */
  method CopyInto(image: array<u8>, at: nat, d: seq<u8>)
    requires at + |d| <= image.Length
    modifies image
    ensures image[..] == Patch(old(image[..]), at, d)
  {
    for i := 0 to |d|
      invariant forall p :: 0 <= p < image.Length ==>
                  image[p] == if at <= p < at + i then d[p - at] else old(image[p])
    {
      image[at + i] := d[i];
    }
    assert image[..] == Patch(old(image[..]), at, d);
  }

  /** The read-modify-write of one slot. */
  method BumpInPlace(image: array<u8>, s: Slot, e: Endian, delta: u64)
    requires Inside(s, image.Length)
    modifies image
    ensures image[..] == Bump(old(image[..]), s, e, delta)
  {
    hide Enc, Dec, Patch;
    var bytes := image[s.at..s.End()];
    assert bytes == image[..][s.at..s.End()];
    var stored: u64 := if s.width == 4 then U32(e, bytes) else U64(e, bytes);
    var relocated := (stored + delta) % TWO_64;
    LowOfWrapped(stored + delta);
    CopyInto(image, s.at, if s.width == 4 then U32Bytes(e, Low32(relocated)) else U64Bytes(e, relocated));
  }

  /** Wrapping at 64 bits and then truncating to 32 is wrapping at 32. */
  lemma LowOfWrapped(v: nat)
    ensures Low32(v % TWO_64) == v % TWO_32
  {
    Arith.Euclid(v, TWO_64);
    assert v == v % TWO_64 + TWO_32 * (TWO_32 * (v / TWO_64));
    Arith.ModAddMultiple(v % TWO_64, TWO_32, TWO_32 * (v / TWO_64));
  }

  /** No Relative entry's slot ends past the 64-bit address space; the source's addition would overflow there. */
  ghost predicate NoSlotWraps(img: ElfImage) {
    Relocations(img).Ok? ==>
      forall i, j :: 0 <= i < |Relocations(img).value| && 0 <= j < |Relocations(img).value[i].entries| ==>
        EntryInRange(Relocations(img).value[i].entries[j], img.header.machine, ImageBase(img))
  }

  /** The writer returns an image at `base`: home maps, the tables decode, and no slot's end overflows. */
  ghost predicate MapsAt(img: ElfImage, base: u64) {
    Maps(img) && (base != ImageBase(img) ==> Relocations(img).Ok? && NoSlotWraps(img))
  }

  predicate EntryInRange(en: RelocationEntry, machine: u16, base: u64) {
    RelocationKind(machine, en.rType) == Relative && en.offset >= base ==>
      en.offset - base + RelocationWidth(machine, en.rType).GetOr(0) <= MAX_U64
  }

  /** The relocation loops over one table. */
  method RebaseTable(image: array<u8>, entries: seq<RelocationEntry>, machine: u16, base: u64, e: Endian, delta: u64)
    modifies image
    ensures image[..] == Apply(old(image[..]), EntrySlots(entries, machine, base, image.Length, |entries|), e, delta)
  {
    hide Bump;
    ghost var before := image[..];
    ApplyNone(before, e, delta);
    for i := 0 to |entries|
      invariant image[..] == Apply(before, EntrySlots(entries, machine, base, image.Length, i), e, delta)
    {
      var en := entries[i];
      if RelocationKind(machine, en.rType) != Relative {
        continue;
      }
      var width := RelocationWidth(machine, en.rType);
      if width.None? || en.offset < base {
        continue;
      }
      var start := en.offset - base;
      if start + width.value > image.Length {
        continue;
      }
      var slot := Slot(start, width.value);
      assert SlotOf(en, machine, base, image.Length) == Some(slot);
      ApplyLast(before, EntrySlots(entries, machine, base, image.Length, i), slot, e, delta);
      BumpInPlace(image, slot, e, delta);
    }
  }

  /** `apply_relative_relocations`, in place; a table that does not decode leaves the image alone. */
  method ApplyRelative(img: ElfImage, image: array<u8>, base: u64) returns (ok: bool)
    requires NoSlotWraps(img)
    modifies image
    ensures ok == Rebased(img, old(image[..]), base).Ok?
    ensures image[..] == if ok then Rebased(img, old(image[..]), base).value else old(image[..])
  {
    hide Apply, TableParsed;
    var delta := Delta(img, base);
    var tables := ReadRelocations(img);
    if tables.Err? {
      return false;
    }
    var machine, home, e := img.header.machine, ImageBase(img), img.ident.data;
    ghost var before := image[..];
    ApplyNone(before, e, delta);
    for i := 0 to |tables.value|
      invariant image[..] == Apply(before, TableSlots(tables.value, machine, home, image.Length, i), e, delta)
    {
      ghost var n := image.Length;
      var entries := tables.value[i].entries;
      RebaseTable(image, entries, machine, home, e, delta);
      ApplyConcat(before, TableSlots(tables.value, machine, home, n, i),
                  EntrySlots(entries, machine, home, n, |entries|), e, delta);
    }
    return true;
  }

  /** `to_mapped_image_at`: loads, then headers over them, then the relocation loop, all in one buffer. */
  method ToMappedImageAt(img: ElfImage, base: u64) returns (r: Result<seq<u8>>)
    requires ImageSpan(img) <= MAX_IMAGE ==> LoadsStartInside(img)
    requires base != ImageBase(img) ==> NoSlotWraps(img)
    ensures r == MappedAt(img, base)
  {
    hide Rebased, MappedAtHome, ImageBase, ImageSpan, LoadsStartInside, NoSlotWraps;
    var home := ToMappedImage(img);
    if home == null {
      return Err;
    }
    if base != ImageBase(img) {
      var ok := ApplyRelative(img, home, base);
      if !ok {
        return Err;
      }
    }
    return Ok(home[..]);
  }

  /** The image at its preferred base: loads in order, then the headers over them. */
  method ToMappedImage(img: ElfImage) returns (image: array?<u8>)
    requires ImageSpan(img) <= MAX_IMAGE ==> LoadsStartInside(img)
    ensures image == null <==> MappedAtHome(img).Err?
    ensures image != null ==> fresh(image) && Ok(image[..]) == MappedAtHome(img)
  {
    hide HeaderBlock, Geometry, PlaceLoads, Flat, EhdrBytes, GeometryOf, LoadsStartInside;
    var g := ComputeGeometry(LoadsOf(HeadersOf(img.segments)));
    GeometryIs(img, g);
    if g.span > MAX_IMAGE {
      return null;
    }
    var buffer := PlaceSegments(img, g.base, g.span);
    var block := WriteHeaderBlock(img);
    CopyInto(buffer, 0, block[..Min(|block|, buffer.Length)]);
    return buffer;
  }

  /** The load loop, into a zeroed buffer. */
  method PlaceSegments(img: ElfImage, base: u64, span: nat) returns (buffer: array<u8>)
    requires LoadsStartInside(img) && base == ImageBase(img) && span == ImageSpan(img)
    ensures fresh(buffer) && buffer[..] == PlaceLoads(img.segments, base, span, |img.segments|)
  {
    hide PlaceLoad, Geometry;
    buffer := new u8[span](_ => 0);
    assert buffer[..] == Zeros(span);
    for i := 0 to |img.segments|
      invariant buffer[..] == PlaceLoads(img.segments, base, span, i)
    {
      PlaceInto(buffer, img.segments[i], base);
    }
  }

  method WriteHeaderBlock(img: ElfImage) returns (block: seq<u8>)
    ensures block == HeaderBlock(img)
  {
    hide EhdrBytes, Flat, MappedHeader;
    var table := Build.WritePhdrs(HeadersOf(img.segments), img.ident.data, img.ident.cls);
    block := EhdrBytes(MappedHeader(img)) + table;
  }

  lemma GeometryIs(img: ElfImage, g: ImageGeometry)
    requires g == GeometryOf(LoadsOf(HeadersOf(img.segments)))
    ensures ImageBase(img) == g.base && ImageSpan(img) == g.span
  {
  }

  /** One turn of the load loop. */
  method PlaceInto(image: array<u8>, s: Segment, base: u64)
    requires LoadStart(s, base).Some? ==> LoadStart(s, base).value <= image.Length
    modifies image
    ensures image[..] == PlaceLoad(old(image[..]), s, base)
  {
    if !s.IsLoad() || s.header.vaddr < base {
      return;
    }
    var start := s.header.vaddr - base;
    var count := Min(|s.data|, SatSub(image.Length, start));
    CopyInto(image, start, s.data[..count]);
  }
}
