/** Editing commutes with mapping: the loader image of an edited image is the edited loader image. */
module EditMapped {
  import opened Bytes
  import opened Headers
  import opened Images
  import opened Layout
  import opened Reloc
  import opened Rebase
  import opened Mapped
  import opened MappedLaws
  import opened Edit
  import opened GeometryLaws

  /** A later load writes position `p` over load `k`. */
  ghost predicate Overwritten(segments: seq<Segment>, base: u64, k: nat, n: nat, p: nat)
    requires n <= |segments|
  {
    exists j :: k < j < n && Writes(segments[j], base, p)
  }

  /** One segment's data changes inside `at..at + |d|`. */
  ghost predicate OneChanged(xs: seq<Segment>, ys: seq<Segment>, k: nat, start: nat, d: seq<u8>) {
    && |xs| == |ys| && k < |xs| && start + |d| <= |xs[k].data|
    && ys == xs[k := xs[k].(data := Patch(xs[k].data, start, d))]
  }

  lemma WritesKept(xs: seq<Segment>, ys: seq<Segment>, k: nat, start: nat, d: seq<u8>, base: u64, j: nat, p: nat)
    requires OneChanged(xs, ys, k, start, d) && j < |xs|
    ensures LoadStart(ys[j], base) == LoadStart(xs[j], base)
    ensures Writes(ys[j], base, p) == Writes(xs[j], base, p)
    ensures Writes(xs[j], base, p) ==>
              var at := p - LoadStart(xs[j], base).value;
              ys[j].data[at] == if j == k && start <= at < start + |d| then d[at - start] else xs[j].data[at]
  {
  }

  lemma {:induction false} LoadedByteEdited(xs: seq<Segment>, ys: seq<Segment>, k: nat, start: nat, d: seq<u8>,
      base: u64, n: nat, p: nat)
    requires OneChanged(xs, ys, k, start, d) && n <= |xs| && LoadStart(xs[k], base).Some?
    ensures var at := LoadStart(xs[k], base).value + start;
            LoadedByte(ys, base, n, p)
            == if k < n && at <= p < at + |d| && !Overwritten(xs, base, k, n, p) then d[p - at]
               else LoadedByte(xs, base, n, p)
  {
    hide LoadStart, Patch, OneChanged;
    if n > 0 {
      OneChangedBounds(xs, ys, k, start, d);
      LoadedByteEdited(xs, ys, k, start, d, base, n - 1, p);
      WritesKept(xs, ys, k, start, d, base, n - 1, p);
      WritesKept(xs, ys, k, start, d, base, k, p);
      InLoad(xs[k], base, start, d, p);
      assert Overwritten(xs, base, k, n, p)
             <==> Overwritten(xs, base, k, n - 1, p) || (k < n - 1 && Writes(xs[n - 1], base, p));
    }
  }

  lemma OneChangedBounds(xs: seq<Segment>, ys: seq<Segment>, k: nat, start: nat, d: seq<u8>)
    requires OneChanged(xs, ys, k, start, d)
    ensures |xs| == |ys| && k < |xs| && start + |d| <= |xs[k].data|
  {
  }

  lemma InLoad(s: Segment, base: u64, start: nat, d: seq<u8>, p: nat)
    requires LoadStart(s, base).Some? && start + |d| <= |s.data|
    ensures LoadStart(s, base).value + start <= p < LoadStart(s, base).value + start + |d| ==> Writes(s, base, p)
  {
  }

  /** Where an edit lands in the loader image: at its own image-relative offset. */
  lemma TargetInImage(img: ElfImage, ioff: u64, d: seq<u8>)
    requires Target(img, ioff, d).Some?
    ensures var (_, k, start) := Target(img, ioff, d).value;
            && LoadStart(img.segments[k], ImageBase(img)).Some?
            && LoadStart(img.segments[k], ImageBase(img)).value + start == ioff
  {
    hide ImageBase, ImageSpan, CoveringLoad;
    var (vaddr, k, start) := Target(img, ioff, d).value;
    LoadInsideImage(img, k);
  }

  lemma EditedIs(img: ElfImage, ioff: u64, d: seq<u8>)
    requires Edited(img, ioff, d).Some?
    ensures Target(img, ioff, d).Some?
    ensures var (_, k, start) := Target(img, ioff, d).value; var e := Edited(img, ioff, d).value;
            && OneChanged(img.segments, e.segments, k, start, d)
            && ImageBase(e) == ImageBase(img) && ImageSpan(e) == ImageSpan(img) && HeaderBlock(e) == HeaderBlock(img)
            && HeadersOf(e.segments) == HeadersOf(img.segments)
  {
    hide Geometry, Patch, Target, Flat, EhdrBytes, EditSections;
    assert HeadersOf(Edited(img, ioff, d).value.segments) == HeadersOf(img.segments);
  }

  /**
   * Editing commutes with mapping, byte by byte and for every image: inside the edit range the loader image of the
   * edited image holds the written bytes, except under the headers and where a later load lies on top, and
   * everywhere else it is unchanged.
   */
  lemma EditCommutesWithMapping(img: ElfImage, ioff: u64, d: seq<u8>, p: nat)
    requires Maps(img) && Edited(img, ioff, d).Some? && p < ImageSpan(img)
    ensures Target(img, ioff, d).Some? && Maps(Edited(img, ioff, d).value)
    ensures ImageSpan(Edited(img, ioff, d).value) == ImageSpan(img)
    ensures MappedAtHome(Edited(img, ioff, d).value).value[p]
            == if ioff <= p < ioff + |d| && p >= |HeaderBlock(img)|
                  && !Overwritten(img.segments, ImageBase(img), Target(img, ioff, d).value.1, |img.segments|, p)
               then d[p - ioff] else MappedAtHome(img).value[p]
  {
    hide HeaderBlock, PlaceLoads, Geometry, LoadedByte, Overwritten, OneChanged, Target, Edited, LoadStart;
    EditedIs(img, ioff, d);
    EditedMaps(img, ioff, d);
    var (_, k, start) := Target(img, ioff, d).value;
    var e := Edited(img, ioff, d).value;
    TargetInImage(img, ioff, d);
    MappedByte(img, p);
    MappedByte(e, p);
    OneChangedBounds(img.segments, e.segments, k, start, d);
    LoadedByteEdited(img.segments, e.segments, k, start, d, ImageBase(img), |img.segments|, p);
  }

  /** The loader image of the edited image exists whenever the image's does. */
  lemma EditedMaps(img: ElfImage, ioff: u64, d: seq<u8>)
    requires Maps(img) && Edited(img, ioff, d).Some?
    ensures Maps(Edited(img, ioff, d).value)
    ensures |MappedAtHome(Edited(img, ioff, d).value).value| == |MappedAtHome(img).value|
  {
    hide HeaderBlock, PlaceLoads, Geometry, OneChanged, Edited, Target, LoadsStartInside;
    EditedIs(img, ioff, d);
    SameMemoryMaps(img, Edited(img, ioff, d).value);
  }

  /** With loads that stay apart and past the headers, the edit is one overwrite of the loader image. */
  lemma MappedEditIsPatch(img: ElfImage, ioff: u64, d: seq<u8>)
    requires Maps(img) && Edited(img, ioff, d).Some?
    requires DataWithinMemory(img.segments) && LoadsDisjoint(img.segments) && LoadsEnd(img)
    requires ioff >= |HeaderBlock(img)|
    ensures ioff + |d| <= |MappedAtHome(img).value|
    ensures MappedAtHome(Edited(img, ioff, d).value) == Ok(Patch(MappedAtHome(img).value, ioff, d))
  {
    hide HeaderBlock, PlaceLoads, Geometry, MappedAtHome, Overwritten, Edited, DataWithinMemory, LoadsDisjoint,
         LoadsEnd, Target;
    EditFits(img, ioff, d);
    var m, e := MappedAtHome(img).value, Edited(img, ioff, d).value;
    forall p | 0 <= p < |m|
      ensures MappedAtHome(e).Ok? && |MappedAtHome(e).value| == |m| && MappedAtHome(e).value[p] == Patch(m, ioff, d)[p]
    {
      EditCommutesWithMapping(img, ioff, d, p);
      if ioff <= p < ioff + |d| {
        NotOverwritten(img, ioff, d, p);
      }
    }
    EditedMaps(img, ioff, d);
    assert MappedAtHome(e).value == Patch(m, ioff, d);
  }

  lemma EditFits(img: ElfImage, ioff: u64, d: seq<u8>)
    requires Maps(img) && Edited(img, ioff, d).Some? && DataWithinMemory(img.segments) && LoadsEnd(img)
    ensures ioff + |d| <= |MappedAtHome(img).value| == ImageSpan(img)
  {
    hide HeaderBlock, PlaceLoads, ImageBase, ImageSpan, MappedAtHome, CoveringLoad;
    LoadInsideImage(img, Target(img, ioff, d).value.1);
  }

  lemma NotOverwritten(img: ElfImage, ioff: u64, d: seq<u8>, p: nat)
    requires Target(img, ioff, d).Some? && DataWithinMemory(img.segments) && LoadsDisjoint(img.segments)
    requires ioff <= p < ioff + |d|
    ensures !Overwritten(img.segments, ImageBase(img), Target(img, ioff, d).value.1, |img.segments|, p)
  {
    hide ImageBase, CoveringLoad;
    TargetInImage(img, ioff, d);
  }

  // ---------------------------------------------------------------- relocations of an edited image

  predicate IsTable(s: Section) { s.header.kind == SHT_RELA || s.header.kind == SHT_REL }

  /** The table that `data` decodes to in the place of section `s`. */
  function TableOf(img: ElfImage, s: Section, data: seq<u8>): Result<RelocationSection> {
    TableParsed(data, s.header.kind == SHT_RELA, img.ident.data, img.ident.cls)
  }

  /** No slot of a table ends past the address space. */
  ghost predicate InRange(img: ElfImage, table: RelocationSection) {
    forall j :: 0 <= j < |table.entries| ==> EntryInRange(table.entries[j], img.header.machine, ImageBase(img))
  }

  /** The edit reaches section `s`, a relocation table. */
  predicate Reaches(s: Section, vaddr: u64, d: seq<u8>) { IsTable(s) && SectionStart(s, vaddr, d).Some? }

  /** In every table the edit reaches, the entries decoded from the patched bytes have their slots in range. */
  ghost predicate PatchedEntriesInRange(img: ElfImage, vaddr: u64, d: seq<u8>) {
    forall i :: 0 <= i < |img.sections| && Reaches(img.sections[i], vaddr, d) ==>
      var s := img.sections[i];
      var table := TableOf(img, s, Patch(s.data, SectionStart(s, vaddr, d).value, d));
      table.Ok? ==> InRange(img, table.value)
  }

  /** Every table among the first `k` sections decodes. */
  ghost predicate TablesDecode(img: ElfImage, k: nat)
    requires k <= |img.sections|
  {
    forall i :: 0 <= i < k && IsTable(img.sections[i]) ==> TableOf(img, img.sections[i], img.sections[i].data).Ok?
  }

  /** The tables among the first `k` sections have their slots in range. */
  ghost predicate TablesInRange(img: ElfImage, k: nat)
    requires k <= |img.sections|
  {
    forall i :: 0 <= i < k && IsTable(img.sections[i]) ==>
      var table := TableOf(img, img.sections[i], img.sections[i].data);
      table.Ok? ==> InRange(img, table.value)
  }

  ghost predicate AllInRange(img: ElfImage, tables: seq<RelocationSection>) {
    forall i :: 0 <= i < |tables| ==> InRange(img, tables[i])
  }

  lemma NoneInRange(img: ElfImage)
    ensures AllInRange(img, [])
  {
  }

  lemma AllInRangeLast(img: ElfImage, tables: seq<RelocationSection>, last: RelocationSection)
    ensures AllInRange(img, tables + [last]) <==> AllInRange(img, tables) && InRange(img, last)
  {
    hide InRange;
    var all := tables + [last];
    assert all[|tables|] == last && forall i :: 0 <= i < |tables| ==> all[i] == tables[i];
  }

  /** The tables in order, and each section's own table, say the same. */
  lemma {:induction false} TablesBySection(img: ElfImage, k: nat)
    requires k <= |img.sections|
    ensures RelocTables(img, k).Ok? <==> TablesDecode(img, k)
    ensures RelocTables(img, k).Ok? ==> (AllInRange(img, RelocTables(img, k).value) <==> TablesInRange(img, k))
  {
    hide TableParsed, InRange, AllInRange;
    if k == 0 {
      NoneInRange(img);
    } else {
      TablesBySection(img, k - 1);
      var s := img.sections[k - 1];
      var table := TableOf(img, s, s.data);
      if RelocTables(img, k - 1).Ok? && table.Ok? {
        AllInRangeLast(img, RelocTables(img, k - 1).value, table.value);
      }
    }
  }

  /** No slot wraps if and only if every section's table is in range. */
  lemma WrapsBySection(img: ElfImage)
    requires Relocations(img).Ok?
    ensures NoSlotWraps(img) <==> TablesInRange(img, |img.sections|)
  {
    hide RelocTables, TablesInRange, EntryInRange, Geometry;
    TablesBySection(img, |img.sections|);
  }

  /** What an edit keeps of every section, and where it changes one. */
  lemma EditedSections(img: ElfImage, ioff: u64, d: seq<u8>, i: nat)
    requires Edited(img, ioff, d).Some? && i < |img.sections|
    ensures var e := Edited(img, ioff, d).value; var (s, t) := (img.sections[i], e.sections[i]);
            var start := SectionStart(s, Target(img, ioff, d).value.0, d);
            && |e.sections| == |img.sections| && e.ident == img.ident && e.header == img.header
            && t.header == s.header && |t.data| == |s.data|
            && t.data == if start.Some? then Patch(s.data, start.value, d) else s.data
  {
    hide Target, SectionStart, Patch;
  }

  /** An edit changes no length, so a table decodes after it if and only if it did before. */
  lemma EditedDecode(img: ElfImage, ioff: u64, d: seq<u8>)
    requires Edited(img, ioff, d).Some?
    ensures var e := Edited(img, ioff, d).value;
            |e.sections| == |img.sections| && (Relocations(e).Ok? <==> Relocations(img).Ok?)
  {
    hide TableParsed, RelocTables, Edited;
    EditKeepsCount(img, ioff, d);
    var e := Edited(img, ioff, d).value;
    TablesBySection(img, |img.sections|);
    TablesBySection(e, |img.sections|);
    forall i | 0 <= i < |img.sections|
      ensures IsTable(e.sections[i]) == IsTable(img.sections[i])
      ensures TableOf(e, e.sections[i], e.sections[i].data).Ok?
              == TableOf(img, img.sections[i], img.sections[i].data).Ok?
    {
      SectionDecodes(img, ioff, d, i);
    }
  }

  lemma EditKeepsCount(img: ElfImage, ioff: u64, d: seq<u8>)
    requires Edited(img, ioff, d).Some?
    ensures Target(img, ioff, d).Some? && |Edited(img, ioff, d).value.sections| == |img.sections|
  {
    hide Target, Patch;
  }

  lemma SectionDecodes(img: ElfImage, ioff: u64, d: seq<u8>, i: nat)
    requires Edited(img, ioff, d).Some? && i < |img.sections|
    ensures var e := Edited(img, ioff, d).value; var (s, t) := (img.sections[i], e.sections[i]);
            IsTable(t) == IsTable(s) && TableOf(e, t, t.data).Ok? == TableOf(img, s, s.data).Ok?
  {
    hide TableParsed, Edited;
    EditedSections(img, ioff, d, i);
    var e := Edited(img, ioff, d).value;
    var s, t := img.sections[i], e.sections[i];
    TableParses(s.data, s.header.kind == SHT_RELA, img.ident.data, img.ident.cls);
    TableParses(t.data, s.header.kind == SHT_RELA, img.ident.data, img.ident.cls);
  }

  /** If all slots were in range, they are after the edit if and only if those of the patched tables are. */
  lemma EditedInRange(img: ElfImage, ioff: u64, d: seq<u8>)
    requires Edited(img, ioff, d).Some? && TablesInRange(img, |img.sections|)
    ensures var e := Edited(img, ioff, d).value;
            && |e.sections| == |img.sections|
            && (TablesInRange(e, |e.sections|) <==> PatchedEntriesInRange(img, Target(img, ioff, d).value.0, d))
  {
    hide TableParsed, Edited, Target, InRange, SectionStart, Patch;
    EditKeepsCount(img, ioff, d);
    var e, vaddr := Edited(img, ioff, d).value, Target(img, ioff, d).value.0;
    forall i | 0 <= i < |img.sections|
      ensures IsTable(e.sections[i]) == IsTable(img.sections[i])
      ensures var s := img.sections[i]; var start := SectionStart(s, vaddr, d);
              TableOf(e, e.sections[i], e.sections[i].data)
              == TableOf(img, s, if start.Some? then Patch(s.data, start.value, d) else s.data)
    {
      EditedSections(img, ioff, d, i);
    }
    forall table: RelocationSection ensures InRange(e, table) == InRange(img, table) {
      SameRange(img, ioff, d, table);
    }
  }

  lemma SameRange(img: ElfImage, ioff: u64, d: seq<u8>, table: RelocationSection)
    requires Edited(img, ioff, d).Some?
    ensures InRange(Edited(img, ioff, d).value, table) == InRange(img, table)
  {
    hide Target, Patch, Geometry, EntryInRange, EditSections;
    BaseKept(img, ioff, d);
  }

  /**
   * Exactly when an edit keeps an image mappable: at the preferred base always, and at another base if and only if
   * the entries decoded from the patched bytes of the tables it reaches have their slots in range. A table never
   * stops decoding.
   */
  lemma EditedMapsExactly(img: ElfImage, ioff: u64, d: seq<u8>, base: u64)
    requires MapsAt(img, base) && Edited(img, ioff, d).Some?
    ensures MapsAt(Edited(img, ioff, d).value, base)
            <==> base == ImageBase(img) || PatchedEntriesInRange(img, Target(img, ioff, d).value.0, d)
    ensures Relocations(Edited(img, ioff, d).value).Ok? <==> Relocations(img).Ok?
  {
    hide Geometry, Maps, Relocations, NoSlotWraps, Edited, Target, PatchedEntriesInRange, TablesInRange;
    var e := Edited(img, ioff, d).value;
    EditedMaps(img, ioff, d);
    BaseKept(img, ioff, d);
    EditedDecode(img, ioff, d);
    if base != ImageBase(img) {
      WrapsBySection(img);
      WrapsBySection(e);
      EditedInRange(img, ioff, d);
    }
  }

  // ---------------------------------------------------------------- edits that reach no table

  /** The edit reaches no relocation table. */
  ghost predicate SparesTables(img: ElfImage, vaddr: u64, d: seq<u8>) {
    forall i :: 0 <= i < |img.sections| ==> !Reaches(img.sections[i], vaddr, d)
  }

  lemma {:induction false} TablesKept(img: ElfImage, e: ElfImage, vaddr: u64, d: seq<u8>, k: nat)
    requires SparesTables(img, vaddr, d) && e.sections == EditSections(img.sections, vaddr, d) && e.ident == img.ident
    requires k <= |img.sections|
    ensures RelocTables(e, k) == RelocTables(img, k)
  {
    hide TableParsed, SectionStart, Patch;
    if k > 0 {
      TablesKept(img, e, vaddr, d, k - 1);
      assert e.sections[k - 1] == EditSection(img.sections[k - 1], vaddr, d);
    }
  }

  /**
   * An edit that reaches no relocation table keeps the tables, so the edited image can be mapped at every base at
   * which the image can.
   */
  lemma EditKeepsRelocations(img: ElfImage, ioff: u64, d: seq<u8>, base: u64)
    requires Edited(img, ioff, d).Some? && SparesTables(img, Target(img, ioff, d).value.0, d)
    ensures Relocations(Edited(img, ioff, d).value) == Relocations(img)
    ensures MapsAt(img, base) ==> MapsAt(Edited(img, ioff, d).value, base)
  {
    hide RelocTables, Target, EditSections, Reaches, Geometry, MapsAt;
    var e := Edited(img, ioff, d).value;
    TablesKept(img, e, Target(img, ioff, d).value.0, d, |img.sections|);
    if MapsAt(img, base) {
      EditedMapsExactly(img, ioff, d, base);
    }
  }

  // ---------------------------------------------------------------- editing and rebasing

  /** No slot touches the range. */
  ghost predicate SlotsClear(slots: seq<Slot>, at: nat, len: nat) {
    forall i :: 0 <= i < |slots| ==> slots[i].End() <= at || at + len <= slots[i].at
  }

  /** One turn of the rebasing loop can move past an overwrite it does not touch. */
  lemma BumpPastPatch(image: seq<u8>, s: Slot, at: nat, d: seq<u8>, e: Endian, delta: nat)
    requires Inside(s, |image|) && at + |d| <= |image| && (s.End() <= at || at + |d| <= s.at)
    ensures Bump(Patch(image, at, d), s, e, delta) == Patch(Bump(image, s, e, delta), at, d)
  {
    hide Enc, Dec;
    assert Patch(image, at, d)[s.at..s.End()] == image[s.at..s.End()];
  }

  /** So can the whole loop. */
  lemma {:induction false} ApplyPastPatch(image: seq<u8>, slots: seq<Slot>, at: nat, d: seq<u8>, e: Endian, delta: nat)
    requires AllInside(slots, |image|) && at + |d| <= |image| && SlotsClear(slots, at, |d|)
    ensures Apply(Patch(image, at, d), slots, e, delta) == Patch(Apply(image, slots, e, delta), at, d)
    decreases |slots|
  {
    hide Bump, Patch;
    if slots != [] {
      var init, last := slots[..|slots| - 1], slots[|slots| - 1];
      ApplyPastPatch(image, init, at, d, e, delta);
      BumpPastPatch(Apply(image, init, e, delta), last, at, d, e, delta);
    }
  }

  /** An edit that reaches no table keeps every slot and the base change. */
  lemma SlotsKept(img: ElfImage, ioff: u64, d: seq<u8>, base: u64, n: nat)
    requires Relocations(img).Ok? && Edited(img, ioff, d).Some? && SparesTables(img, Target(img, ioff, d).value.0, d)
    ensures var e := Edited(img, ioff, d).value;
            && Relocations(e) == Relocations(img) && Delta(e, base) == Delta(img, base)
            && e.ident == img.ident && Slots(e, Relocations(img).value, n) == Slots(img, Relocations(img).value, n)
  {
    hide Relocations, Target, EditSections, SparesTables, Geometry, TableSlots, MapsAt;
    BaseKept(img, ioff, d);
    EditKeepsRelocations(img, ioff, d, base);
  }

  /**
   * Editing commutes with mapping at every base: with loads that stay apart and past the headers, an edit that
   * reaches no relocation table and no slot is one overwrite of the image at that base.
   */
  lemma MappedEditAtBase(img: ElfImage, ioff: u64, d: seq<u8>, base: u64)
    requires MapsAt(img, base) && Edited(img, ioff, d).Some?
    requires DataWithinMemory(img.segments) && LoadsDisjoint(img.segments) && LoadsEnd(img)
    requires ioff >= |HeaderBlock(img)|
    requires base != ImageBase(img) ==>
               && SparesTables(img, Target(img, ioff, d).value.0, d)
               && SlotsClear(Slots(img, Relocations(img).value, ImageSpan(img)), ioff, |d|)
    ensures MapsAt(Edited(img, ioff, d).value, base) && MappedAt(img, base).Ok?
    ensures ioff + |d| <= |MappedAt(img, base).value|
    ensures MappedAt(Edited(img, ioff, d).value, base) == Ok(Patch(MappedAt(img, base).value, ioff, d))
  {
    hide HeaderBlock, Geometry, MappedAtHome, Relocations, Edited, Target, SparesTables, SlotsClear, Slots, Delta,
         DataWithinMemory, LoadsDisjoint, LoadsEnd, Apply, Patch, NoSlotWraps, LoadsStartInside;
    MappedEditIsPatch(img, ioff, d);
    BaseKept(img, ioff, d);
    EditedMapsExactly(img, ioff, d, base);
    if base != ImageBase(img) {
      var home := MappedAtHome(img).value;
      EditKeepsRelocations(img, ioff, d, base);
      SlotsKept(img, ioff, d, base, |home|);
      ApplyPastPatch(home, Slots(img, Relocations(img).value, |home|), ioff, d, img.ident.data, Delta(img, base));
    }
  }
}
