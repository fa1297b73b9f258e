/** Rebasing in numbers: which entries move a pointer, how wide it is, by how much it moves, and what stays. */
module PointerLaws {
  import opened Bytes
  import opened Images
  import opened Reloc
  import opened Rebase
  import opened Mapped
  import opened RebaseLaws

  // ---------------------------------------------------------------- pointers

  /**
   * The entry moves the pointer in slot `s` of an `n`-byte image at `base`: type 8, at or above the base, eight bytes
   * wide on machine 62 and four on machine 3, and inside the image.
   */
  predicate Moves(en: RelocationEntry, machine: u16, base: u64, n: nat, s: Slot) {
    && en.rType == 8 && en.offset >= base && s.at == en.offset - base && s.at + s.width <= n
    && ((machine == 62 && s.width == 8) || (machine == 3 && s.width == 4))
  }

  lemma SlotIs(en: RelocationEntry, machine: u16, base: u64, n: nat, s: Slot)
    ensures SlotOf(en, machine, base, n) == Some(s) <==> Moves(en, machine, base, n, s)
  {
  }

  /** The slots the loop touches, exactly. */
  lemma PointersAre(img: ElfImage, tables: seq<RelocationSection>, n: nat, s: Slot)
    ensures s in Slots(img, tables, n)
            <==> exists en :: Listed(tables, en) && Moves(en, img.header.machine, ImageBase(img), n, s)
  {
    hide Slots, Listed, Geometry, SlotOf, Moves;
    SlotsAreRelative(img, tables, n, s);
    forall en
      ensures SlotOf(en, img.header.machine, ImageBase(img), n) == Some(s)
              <==> Moves(en, img.header.machine, ImageBase(img), n, s)
    {
      SlotIs(en, img.header.machine, ImageBase(img), n, s);
    }
  }

  /** When a slot's end would pass the address space, exactly; the source's addition overflows there. */
  predicate EndsInside(en: RelocationEntry, machine: u16, base: u64) {
    en.rType == 8 && en.offset >= base ==>
      && (machine == 62 ==> en.offset - base + 8 <= 0xFFFF_FFFF_FFFF_FFFF)
      && (machine == 3 ==> en.offset - base + 4 <= 0xFFFF_FFFF_FFFF_FFFF)
  }

  lemma WrapsExactly(img: ElfImage)
    requires Relocations(img).Ok?
    ensures NoSlotWraps(img)
            <==> forall en :: Listed(Relocations(img).value, en) ==> EndsInside(en, img.header.machine, ImageBase(img))
  {
    hide Relocations, Listed, Geometry, NoSlotWraps, Flattened;
    WrapsByEntry(img);
    var tables := Relocations(img).value;
    forall en ensures en in Flattened(tables) <==> Listed(tables, en) {
      InFlattened(tables, en);
    }
    forall en
      ensures EntryInRange(en, img.header.machine, ImageBase(img))
              <==> EndsInside(en, img.header.machine, ImageBase(img))
    {
      InRangeIs(en, img.header.machine, ImageBase(img));
    }
  }

  lemma InRangeIs(en: RelocationEntry, machine: u16, base: u64)
    ensures EntryInRange(en, machine, base) <==> EndsInside(en, machine, base)
  {
  }

  /** When there is a loader image at a base, and that the preferred base needs no relocations. */
  lemma LoaderAtExactly(img: ElfImage, base: u64)
    ensures MappedAt(img, base).Ok?
            <==> ImageSpan(img) <= 0x1000_0000 && (base == ImageBase(img) || Relocations(img).Ok?)
    ensures MappedAt(img, ImageBase(img)) == MappedAtHome(img)
  {
    hide HeaderBlock, PlaceLoads, Relocations, Geometry, Apply, Slots;
  }

  // ---------------------------------------------------------------- listed once

  lemma {:induction false} EntryCount(entries: seq<RelocationEntry>, machine: u16, base: u64, n: nat, k: nat, s: Slot,
      j: nat)
    requires k <= |entries|
    requires forall i :: 0 <= i < k && SlotOf(entries[i], machine, base, n) == Some(s) ==> i == j
    ensures multiset(EntrySlots(entries, machine, base, n, k))[s]
            == if j < k && SlotOf(entries[j], machine, base, n) == Some(s) then 1 else 0
  {
    hide SlotOf, EntrySlots;
    EntrySlotsLast(entries, machine, base, n, k);
    if k > 0 {
      EntryCount(entries, machine, base, n, k - 1, s, j);
    }
  }

  /** One more entry. */
  lemma EntrySlotsLast(entries: seq<RelocationEntry>, machine: u16, base: u64, n: nat, k: nat)
    requires k <= |entries|
    ensures k == 0 ==> EntrySlots(entries, machine, base, n, k) == []
    ensures k > 0 ==>
              var slot := SlotOf(entries[k - 1], machine, base, n);
              EntrySlots(entries, machine, base, n, k)
              == EntrySlots(entries, machine, base, n, k - 1) + if slot.Some? then [slot.value] else []
  {
    hide SlotOf;
  }

  lemma {:induction false} TableCount(tables: seq<RelocationSection>, machine: u16, base: u64, n: nat, k: nat, s: Slot,
      i: nat, j: nat)
    requires k <= |tables| && i < |tables| && j < |tables[i].entries|
    requires SlotOf(tables[i].entries[j], machine, base, n) == Some(s)
    requires forall a, b :: 0 <= a < |tables| && 0 <= b < |tables[a].entries| && (a != i || b != j) ==>
               SlotOf(tables[a].entries[b], machine, base, n) != Some(s)
    ensures multiset(TableSlots(tables, machine, base, n, k))[s] == if i < k then 1 else 0
  {
    hide SlotOf, EntrySlots;
    if k > 0 {
      TableCount(tables, machine, base, n, k - 1, s, i, j);
      var entries := tables[k - 1].entries;
      EntryCount(entries, machine, base, n, |entries|, s, if k - 1 == i then j else |entries|);
    }
  }

  // ---------------------------------------------------------------- the effect

  /** Entry `j` of table `i` moves the pointer in `s`. */
  predicate MovesAt(img: ElfImage, tables: seq<RelocationSection>, n: nat, i: nat, j: nat, s: Slot) {
    && i < |tables| && j < |tables[i].entries|
    && Moves(tables[i].entries[j], img.header.machine, ImageBase(img), n, s)
  }

  /** No entry but the one at `i`, `j` moves a pointer that touches `s`. */
  ghost predicate OnlyMover(img: ElfImage, tables: seq<RelocationSection>, n: nat, i: nat, j: nat, s: Slot) {
    && MovesAt(img, tables, n, i, j, s)
    && forall a: nat, b: nat, other :: MovesAt(img, tables, n, a, b, other) && (a, b) != (i, j) ==> Disjoint(other, s)
  }

  /** No entry moves a pointer that touches the `w` bytes at `at`. */
  ghost predicate Unmoved(img: ElfImage, tables: seq<RelocationSection>, n: nat, at: nat, w: nat) {
    forall a: nat, b: nat, s :: MovesAt(img, tables, n, a, b, s) ==> s.at + s.width <= at || at + w <= s.at
  }

  lemma SlotHasMover(img: ElfImage, tables: seq<RelocationSection>, n: nat, s: Slot)
    ensures s in Slots(img, tables, n) <==> exists i: nat, j: nat :: MovesAt(img, tables, n, i, j, s)
  {
    hide Slots, Geometry, Moves;
    PointersAre(img, tables, n, s);
    if s in Slots(img, tables, n) {
      var en :| Listed(tables, en) && Moves(en, img.header.machine, ImageBase(img), n, s);
      var i, j :| 0 <= i < |tables| && 0 <= j < |tables[i].entries| && tables[i].entries[j] == en;
      assert MovesAt(img, tables, n, i, j, s);
    }
    if i: nat, j: nat :| MovesAt(img, tables, n, i, j, s) {
      assert Listed(tables, tables[i].entries[j]);
    }
  }

  /** Bytes that no listed entry moves are those of the image at its preferred base. */
  lemma UnmovedStays(img: ElfImage, base: u64, at: nat, w: nat)
    requires MapsAt(img, base) && Relocations(img).Ok? && at + w <= ImageSpan(img)
    requires Unmoved(img, Relocations(img).value, ImageSpan(img), at, w)
    ensures MappedAt(img, base).Ok? && |MappedAt(img, base).value| == |MappedAtHome(img).value| == ImageSpan(img)
    ensures MappedAt(img, base).value[at..at + w] == MappedAtHome(img).value[at..at + w]
  {
    hide MappedAtHome, MappedAt, Relocations, Apply, Slots, Geometry, Delta, LoadsStartInside, NoSlotWraps, MovesAt;
    HomeLength(img);
    MovedIsApply(img, base);
    var home, tables, n := MappedAtHome(img).value, Relocations(img).value, ImageSpan(img);
    var slots := Slots(img, tables, n);
    forall p | at <= p < at + w
      ensures Apply(home, slots, img.ident.data, Delta(img, base))[p] == home[p]
    {
      forall i | 0 <= i < |slots| ensures !(slots[i].at <= p < slots[i].End()) {
        SlotHasMover(img, tables, n, slots[i]);
      }
      RebaseFrame(home, slots, img.ident.data, Delta(img, base), p);
    }
  }

  lemma HomeLength(img: ElfImage)
    requires MappedAtHome(img).Ok?
    ensures |MappedAtHome(img).value| == ImageSpan(img)
  {
    hide HeaderBlock, PlaceLoads, Geometry;
  }

  lemma SlotOnce(img: ElfImage, tables: seq<RelocationSection>, n: nat, i: nat, j: nat, s: Slot)
    requires OnlyMover(img, tables, n, i, j, s)
    ensures multiset(Slots(img, tables, n))[s] == 1
    ensures forall k :: 0 <= k < |Slots(img, tables, n)| ==> Compatible(Slots(img, tables, n)[k], s)
  {
    hide TableSlots, Geometry, Moves, SlotOf;
    var m, b := img.header.machine, ImageBase(img);
    forall x, y | 0 <= x < |tables| && 0 <= y < |tables[x].entries|
      ensures SlotOf(tables[x].entries[y], m, b, n) == Some(s) <==> MovesAt(img, tables, n, x, y, s)
    {
      SlotIs(tables[x].entries[y], m, b, n, s);
    }
    MoverIsWide(img, tables, n, i, j, s);
    TableCount(tables, m, b, n, |tables|, s, i, j);
    var slots := Slots(img, tables, n);
    forall k | 0 <= k < |slots| ensures Compatible(slots[k], s) {
      SlotHasMover(img, tables, n, slots[k]);
      var x: nat, y: nat :| MovesAt(img, tables, n, x, y, slots[k]);
      if (x, y) == (i, j) {
        SameMover(img, tables, n, i, j, s, slots[k]);
      }
    }
  }

  lemma MoverIsWide(img: ElfImage, tables: seq<RelocationSection>, n: nat, i: nat, j: nat, s: Slot)
    requires MovesAt(img, tables, n, i, j, s)
    ensures s.width in {4, 8} && Inside(s, n) && !Disjoint(s, s)
  {
  }

  lemma SameMover(img: ElfImage, tables: seq<RelocationSection>, n: nat, i: nat, j: nat, s: Slot, t: Slot)
    requires MovesAt(img, tables, n, i, j, s) && MovesAt(img, tables, n, i, j, t)
    ensures s == t
  {
  }

  lemma OnceMoves(v: nat, d: nat, m: nat)
    requires m > 0
    ensures Times(v, 1, d, m) == (v + d) % m
  {
  }

  /** The base change, wrapping at the width of a pointer. */
  lemma ChangeIs(img: ElfImage, base: u64, v: nat, width: nat)
    requires width == 4 || width == 8
    ensures (v + Delta(img, base)) % Modulus(width)
            == (v + base - ImageBase(img)) % (if width == 8 then 0x1_0000_0000_0000_0000 else 0x1_0000_0000)
  {
    hide ImageBase;
    var home := ImageBase(img);
    var away: int := v + base - home;
    DeltasWrap(v, base + TWO_64 - home, width);
    WholeTurn(away);
  }

  lemma WholeTurn(v: int)
    ensures (v + TWO_64) % TWO_64 == v % TWO_64 && (v + TWO_64) % TWO_32 == v % TWO_32
  {
  }

  /**
   * A pointer listed once and touched by no other moves by exactly the base change: modulo 2^64 in eight bytes on
   * machine 62, modulo 2^32 in four bytes on machine 3.
   */
  lemma PointerMovesBy(img: ElfImage, base: u64, i: nat, j: nat, s: Slot)
    requires MapsAt(img, base) && Relocations(img).Ok?
    requires OnlyMover(img, Relocations(img).value, ImageSpan(img), i, j, s)
    ensures MappedAt(img, base).Ok? && |MappedAt(img, base).value| == |MappedAtHome(img).value| == ImageSpan(img)
    ensures s.at + s.width <= ImageSpan(img) && (s.width == if img.header.machine == 62 then 8 else 4)
    ensures Field(MappedAt(img, base).value, s.at, s.width, img.ident.data)
            == (Field(MappedAtHome(img).value, s.at, s.width, img.ident.data) + base - ImageBase(img))
               % (if img.header.machine == 62 then 0x1_0000_0000_0000_0000 else 0x1_0000_0000)
  {
    hide MappedAtHome, MappedAt, Relocations, Apply, Slots, Geometry, Delta, LoadsStartInside, NoSlotWraps, OnlyMover;
    HomeLength(img);
    MovedIsApply(img, base);
    MoverFacts(img, Relocations(img).value, ImageSpan(img), i, j, s);
    var home, tables, n := MappedAtHome(img).value, Relocations(img).value, ImageSpan(img);
    var slots, e, d := Slots(img, tables, n), img.ident.data, Delta(img, base);
    SlotOnce(img, tables, n, i, j, s);
    SlotEffect(home, slots, s, e, d);
    var v := Rebase.Stored(home, s, e);
    OnceMoves(v, d, Modulus(s.width));
    ChangeIs(img, base, v, s.width);
  }

  lemma MoverFacts(img: ElfImage, tables: seq<RelocationSection>, n: nat, i: nat, j: nat, s: Slot)
    requires OnlyMover(img, tables, n, i, j, s)
    ensures Inside(s, n) && (s.width == if img.header.machine == 62 then 8 else 4)
  {
  }

  /** The types that resolve symbols, copy, or call a resolver; they hold no pointer to move. */
  predicate OtherType(machine: u16, rType: u32) {
    (machine == 62 && rType in {1, 5, 6, 7, 16, 17, 18, 37}) || (machine == 3 && rType in {1, 5, 6, 7, 42})
  }

  /** Places listed for those types keep their bytes, unless a moved pointer touches them. */
  lemma OtherTypesStay(img: ElfImage, base: u64, en: RelocationEntry)
    requires MapsAt(img, base) && Relocations(img).Ok? && Listed(Relocations(img).value, en)
    requires OtherType(img.header.machine, en.rType) && en.offset >= ImageBase(img)
    requires var w := if img.header.machine == 62 then 8 else 4;
             && en.offset - ImageBase(img) + w <= ImageSpan(img)
             && Unmoved(img, Relocations(img).value, ImageSpan(img), en.offset - ImageBase(img), w)
    ensures forall s :: !Moves(en, img.header.machine, ImageBase(img), ImageSpan(img), s)
    ensures MappedAt(img, base).Ok? && |MappedAt(img, base).value| == |MappedAtHome(img).value| == ImageSpan(img)
    ensures var at, w := en.offset - ImageBase(img), if img.header.machine == 62 then 8 else 4;
            MappedAt(img, base).value[at..at + w] == MappedAtHome(img).value[at..at + w]
  {
    hide MappedAtHome, MappedAt, Relocations, Geometry, MapsAt, Unmoved, Listed;
    UnmovedStays(img, base, en.offset - ImageBase(img), if img.header.machine == 62 then 8 else 4);
  }
}
