/** The image container, its segments and sections, and the address geometry of its loadable segments. */
module Images {
  import opened Arith
  import opened Bytes
  import opened Headers

  datatype Segment = Segment(header: ProgramHeader, data: seq<u8>) {
    predicate IsLoad() { header.kind == PT_LOAD }

    predicate ContainsVaddr(vaddr: u64) {
      header.vaddr <= vaddr < SatAdd(header.vaddr, header.memsz)
    }
  }

  datatype Section = Section(header: SectionHeader, name: seq<u8>, data: seq<u8>) {
    predicate ContainsVaddr(vaddr: u64) {
      header.IsAlloc() && header.addr <= vaddr < SatAdd(header.addr, header.size)
    }
  }

  datatype ElfImage = ElfImage(
    ident: ElfIdent, header: ElfHeader, segments: seq<Segment>, sections: seq<Section>, runtimeBase: u64)

  function HeadersOf(segments: seq<Segment>): (hs: seq<ProgramHeader>)
    ensures |hs| == |segments| && forall i :: 0 <= i < |hs| ==> hs[i] == segments[i].header
  {
    seq(|segments|, i requires 0 <= i < |segments| => segments[i].header)
  }

  // ---------------------------------------------------------------- geometry

  datatype Load = Load(vaddr: u64, memsz: u64, align: u64) {
    /** The end address, which the source saturates. */
    function End(): u64 { SatAdd(vaddr, memsz) }
  }

  datatype ImageGeometry = ImageGeometry(base: u64, page: u64, span: u64)

  /** The `(vaddr, memsz, align)` records of the loadable headers, in table order. */
  function LoadsOf(headers: seq<ProgramHeader>): seq<Load> {
    if headers == [] then []
    else
      var h := headers[|headers| - 1];
      LoadsOf(headers[..|headers| - 1])
      + if h.kind == PT_LOAD then [Load(h.vaddr, h.memsz, h.align)] else []
  }

  function PageOf(loads: seq<Load>): (page: u64)
    ensures page >= 0x1000
  {
    if loads == [] then 0x1000
    else
      var page, l := PageOf(loads[..|loads| - 1]), loads[|loads| - 1];
      if l.memsz != 0 && l.align > 1 then Max(page, l.align) else page
  }

  function MinVaddr(loads: seq<Load>): Option<u64> {
    if loads == [] then None
    else
      var low, l := MinVaddr(loads[..|loads| - 1]), loads[|loads| - 1];
      if l.memsz == 0 then low
      else if low.None? then Some(l.vaddr)
      else Some(Min(low.value, l.vaddr))
  }

  function MaxEnd(loads: seq<Load>): u64 {
    if loads == [] then 0
    else
      var high, l := MaxEnd(loads[..|loads| - 1]), loads[|loads| - 1];
      if l.memsz == 0 then high else Max(high, l.End())
  }

  /** `align_up`: saturates instead of overflowing. */
  function AlignUp(value: u64, alignment: u64): (r: u64)
    ensures r >= value
  {
    if alignment <= 1 then value
    else
      var remainder := value % alignment;
      if remainder == 0 then value else SatAdd(value, alignment - remainder)
  }

  /** The greatest multiple of `page` that is at most `v`. */
  function FloorTo(v: u64, page: u64): (base: u64)
    requires page > 0
    ensures base <= v
  {
    Euclid(v, page);
    v - v % page
  }

  function GeometryOf(loads: seq<Load>): ImageGeometry {
    var page, low := PageOf(loads), MinVaddr(loads);
    if low.None? then ImageGeometry(0, page, 0)
    else
      var base := FloorTo(low.value, page);
      ImageGeometry(base, page, SatSub(AlignUp(MaxEnd(loads), page), base))
  }

  function Geometry(headers: seq<ProgramHeader>): ImageGeometry { GeometryOf(LoadsOf(headers)) }

  function ImageBase(img: ElfImage): u64 { Geometry(HeadersOf(img.segments)).base }

  function ImageSpan(img: ElfImage): u64 { Geometry(HeadersOf(img.segments)).span }

  /** The one-pass computation of the geometry. */
  method ComputeGeometry(loads: seq<Load>) returns (g: ImageGeometry)
    ensures g == GeometryOf(loads)
  {
    var page: u64, minVaddr: Option<u64>, maxEnd: u64 := 0x1000, None, 0;
    for i := 0 to |loads|
      invariant page == PageOf(loads[..i]) && minVaddr == MinVaddr(loads[..i]) && maxEnd == MaxEnd(loads[..i])
    {
      assert loads[..i + 1][..i] == loads[..i];
      var l := loads[i];
      if l.memsz == 0 {
        continue;
      }
      minVaddr := Some(if minVaddr.None? then l.vaddr else Min(minVaddr.value, l.vaddr));
      maxEnd := Max(maxEnd, SatAdd(l.vaddr, l.memsz));
      if l.align > 1 {
        page := Max(page, l.align);
      }
    }
    assert loads[..|loads|] == loads;
    if minVaddr.None? {
      return ImageGeometry(0, page, 0);
    }
    var base := FloorTo(minVaddr.value, page);
    return ImageGeometry(base, page, SatSub(AlignUp(maxEnd, page), base));
  }
}
