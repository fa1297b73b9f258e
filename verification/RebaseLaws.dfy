/** The rebasing laws of whole images: which bytes move, by how much, and how rebases compose. */
module RebaseLaws {
  import opened Arith
  import opened Bytes
  import opened Images
  import opened Reloc
  import opened Rebase
  import opened Mapped

  // ---------------------------------------------------------------- which slots there are

  lemma {:induction false} EntrySlotsAre(entries: seq<RelocationEntry>, machine: u16, base: u64, n: nat, k: nat,
      s: Slot)
    requires k <= |entries|
    ensures s in EntrySlots(entries, machine, base, n, k)
            <==> exists j :: 0 <= j < k && SlotOf(entries[j], machine, base, n) == Some(s)
  {
    hide SlotOf;
    if k > 0 {
      EntrySlotsAre(entries, machine, base, n, k - 1, s);
    }
  }

  lemma {:induction false} TableSlotsAre(tables: seq<RelocationSection>, machine: u16, base: u64, n: nat, k: nat,
      s: Slot)
    requires k <= |tables|
    ensures s in TableSlots(tables, machine, base, n, k)
            <==> exists i, j :: 0 <= i < k && 0 <= j < |tables[i].entries|
                                && SlotOf(tables[i].entries[j], machine, base, n) == Some(s)
  {
    hide SlotOf;
    if k > 0 {
      TableSlotsAre(tables, machine, base, n, k - 1, s);
      EntrySlotsAre(tables[k - 1].entries, machine, base, n, |tables[k - 1].entries|, s);
    }
  }

  /** Entry `en` is listed in one of the tables. */
  ghost predicate Listed(tables: seq<RelocationSection>, en: RelocationEntry) {
    exists i, j :: 0 <= i < |tables| && 0 <= j < |tables[i].entries| && tables[i].entries[j] == en
  }

  /** The slots are exactly those of the listed Relative entries whose pointers lie inside the image. */
  lemma SlotsAreRelative(img: ElfImage, tables: seq<RelocationSection>, n: nat, s: Slot)
    ensures s in Slots(img, tables, n)
            <==> exists en :: Listed(tables, en) && SlotOf(en, img.header.machine, ImageBase(img), n) == Some(s)
  {
    hide SlotOf, Geometry;
    var m, b := img.header.machine, ImageBase(img);
    TableSlotsAre(tables, m, b, n, |tables|, s);
    if s in Slots(img, tables, n) {
      var i, j :| 0 <= i < |tables| && 0 <= j < |tables[i].entries| && SlotOf(tables[i].entries[j], m, b, n) == Some(s);
      assert Listed(tables, tables[i].entries[j]);
    }
  }

  // ---------------------------------------------------------------- effect and frame

  /** `p` lies in a slot. */
  ghost predicate InSlot(slots: seq<Slot>, p: nat) { exists i :: 0 <= i < |slots| && slots[i].at <= p < slots[i].End() }

  /** Slot `i` touches no other entry of the list. */
  ghost predicate Alone(slots: seq<Slot>, i: nat)
    requires i < |slots|
  {
    forall j :: 0 <= j < |slots| && j != i ==> Disjoint(slots[j], slots[i])
  }

  /**
   * Rebasing at image level: mapping at `base` differs from mapping at the preferred base only inside slots, a
   * slot that stands alone decodes to its old pointer plus the base change, wrapped at the pointer's width, and
   * any place the slots do not touch decodes as before.
   */
  lemma RebaseEffect(img: ElfImage, base: u64)
    requires MapsAt(img, base) && Relocations(img).Ok?
    ensures MappedAtHome(img).Ok? && MappedAt(img, base).Ok?
    ensures var home, moved := MappedAtHome(img).value, MappedAt(img, base).value;
            var slots := Slots(img, Relocations(img).value, |home|);
            && |moved| == |home|
            && (forall p :: 0 <= p < |home| && !InSlot(slots, p) ==> moved[p] == home[p])
            && (forall i :: 0 <= i < |slots| && Alone(slots, i) ==>
                  Rebase.Stored(moved, slots[i], img.ident.data)
                  == (Rebase.Stored(home, slots[i], img.ident.data) + Delta(img, base)) % Modulus(slots[i].width))
            && (forall s :: Inside(s, |home|) && (forall i :: 0 <= i < |slots| ==> Disjoint(slots[i], s)) ==>
                  Rebase.Stored(moved, s, img.ident.data) == Rebase.Stored(home, s, img.ident.data))
  {
    hide MappedAtHome, MappedAt, Relocations, Rebase.Stored, Apply, Slots, ImageBase, Delta, InSlot, Alone, Modulus,
         LoadsStartInside, NoSlotWraps;
    MovedIsApply(img, base);
    var home := MappedAtHome(img).value;
    ApplyEffect(home, Slots(img, Relocations(img).value, |home|), img.ident.data, Delta(img, base));
  }

  lemma ApplyEffect(home: seq<u8>, slots: seq<Slot>, e: Endian, d: nat)
    requires AllInside(slots, |home|)
    ensures var moved := Apply(home, slots, e, d);
            && (forall p :: 0 <= p < |home| && !InSlot(slots, p) ==> moved[p] == home[p])
            && (forall i :: 0 <= i < |slots| && Alone(slots, i) ==>
                  Rebase.Stored(moved, slots[i], e)
                  == (Rebase.Stored(home, slots[i], e) + d) % Modulus(slots[i].width))
            && (forall s :: Inside(s, |home|) && (forall i :: 0 <= i < |slots| ==> Disjoint(slots[i], s)) ==>
                  Rebase.Stored(moved, s, e) == Rebase.Stored(home, s, e))
  {
    hide Rebase.Stored, Apply, Modulus;
    forall p | 0 <= p < |home| && !InSlot(slots, p) ensures Apply(home, slots, e, d)[p] == home[p] {
      RebaseFrame(home, slots, e, d, p);
    }
    forall i | 0 <= i < |slots| && Alone(slots, i)
      ensures Rebase.Stored(Apply(home, slots, e, d), slots[i], e)
              == (Rebase.Stored(home, slots[i], e) + d) % Modulus(slots[i].width)
    {
      PointerMoves(home, slots, i, e, d);
    }
    forall s | Inside(s, |home|) && (forall i :: 0 <= i < |slots| ==> Disjoint(slots[i], s))
      ensures Rebase.Stored(Apply(home, slots, e, d), s, e) == Rebase.Stored(home, s, e)
    {
      SlotFrame(home, slots, s, e, d);
    }
  }

  /** The base change from the preferred base to itself is zero, so the loop the source skips would do nothing. */
  lemma SkippingIsSound(img: ElfImage, image: seq<u8>)
    requires Relocations(img).Ok?
    ensures Rebased(img, image, ImageBase(img)) == Ok(image)
  {
    hide Relocations, Apply, Slots, Geometry;
    assert Delta(img, ImageBase(img)) == 0;
    RebaseZero(image, Slots(img, Relocations(img).value, |image|), img.ident.data);
  }

  lemma MovedIsApply(img: ElfImage, base: u64)
    requires MappedAtHome(img).Ok? && Relocations(img).Ok?
    ensures var home := MappedAtHome(img).value;
            MappedAt(img, base)
            == Ok(Apply(home, Slots(img, Relocations(img).value, |home|), img.ident.data, Delta(img, base)))
  {
    hide MappedAtHome, Relocations, Apply, Slots, Geometry, Delta;
    if base == ImageBase(img) {
      SkippingIsSound(img, MappedAtHome(img).value);
    }
  }

  // ---------------------------------------------------------------- composition

  /** The base reached from the preferred one by moving to `b1` and then by as much as `b2` lies from it. */
  function Composed(img: ElfImage, b1: u64, b2: u64): u64 {
    (ImageBase(img) + Delta(img, b1) + Delta(img, b2)) % TWO_64
  }

  lemma ComposedDelta(img: ElfImage, b1: u64, b2: u64)
    ensures Delta(img, Composed(img, b1, b2)) == (Delta(img, b1) + Delta(img, b2)) % TWO_64
  {
    hide ImageBase;
    WrapSum(ImageBase(img), Delta(img, b1), Delta(img, b2));
  }

  lemma WrapSum(h: u64, d1: u64, d2: u64)
    ensures ((h + d1 + d2) % TWO_64 + TWO_64 - h) % TWO_64 == (d1 + d2) % TWO_64
  {
  }

  /** Wrapping lands on the one representative below 2^64. */
  lemma WrapIs(v: nat, q: nat, r: u64)
    requires v == TWO_64 * q + r
    ensures v % TWO_64 == r
  {
    ModIs(v, TWO_64, q, r);
  }

  lemma WrapOpposite(h: u64, b: u64)
    ensures ((2 * h + TWO_64 - b) % TWO_64 + TWO_64 - h) % TWO_64 == (TWO_64 - (b + TWO_64 - h) % TWO_64) % TWO_64
  {
    var back := if h >= b then h - b else h + TWO_64 - b;
    var away := if b >= h then b - h else b + TWO_64 - h;
    WrapIs(b + TWO_64 - h, if b >= h then 1 else 0, away);
    WrapIs(TWO_64 - away, if away == 0 then 1 else 0, back);
    var sum := 2 * h + TWO_64 - b;
    var q := if sum >= 2 * TWO_64 then 2 else if sum >= TWO_64 then 1 else 0;
    WrapIs(sum, q, sum - TWO_64 * q);
    var far := sum - TWO_64 * q + TWO_64 - h;
    WrapIs(far, if far == back then 0 else 1, back);
  }

  /**
   * Rebasing is a group action on loader images: moving to `b1` and then moving on is one move, when the slots
   * are pairwise the same or disjoint.
   */
  lemma RebasesCompose(img: ElfImage, image: seq<u8>, b1: u64, b2: u64)
    requires Relocations(img).Ok? && NoSlotWraps(img) && AllCompatible(Slots(img, Relocations(img).value, |image|))
    ensures Rebased(img, image, b1).Ok?
    ensures Rebased(img, Rebased(img, image, b1).value, b2) == Rebased(img, image, Composed(img, b1, b2))
  {
    hide Relocations, Apply, Slots, Geometry, Delta, Composed, NoSlotWraps;
    ComposedDelta(img, b1, b2);
    RebaseTwice(image, Slots(img, Relocations(img).value, |image|), img.ident.data, Delta(img, b1), Delta(img, b2));
  }

  /** The base that undoes a move to `b`. */
  function Opposite(img: ElfImage, b: u64): u64 { (2 * ImageBase(img) + TWO_64 - b) % TWO_64 }

  lemma OppositeDelta(img: ElfImage, b: u64)
    ensures Delta(img, Opposite(img, b)) == (TWO_64 - Delta(img, b)) % TWO_64
  {
    hide ImageBase;
    WrapOpposite(ImageBase(img), b);
  }

  /** Every rebase can be undone. */
  lemma RebaseIsInvertible(img: ElfImage, image: seq<u8>, b: u64)
    requires Relocations(img).Ok? && NoSlotWraps(img) && AllCompatible(Slots(img, Relocations(img).value, |image|))
    ensures Rebased(img, image, b).Ok?
    ensures Rebased(img, Rebased(img, image, b).value, Opposite(img, b)) == Ok(image)
  {
    hide Relocations, Apply, Slots, ImageBase, Delta, Opposite, AllCompatible, NoSlotWraps;
    OppositeDelta(img, b);
    RebaseUndone(image, Slots(img, Relocations(img).value, |image|), img.ident.data, Delta(img, b));
  }

  // ---------------------------------------------------------------- order

  /** The entries of all tables, one after the other. */
  function Flattened(tables: seq<RelocationSection>): seq<RelocationEntry> {
    if tables == [] then [] else Flattened(tables[..|tables| - 1]) + tables[|tables| - 1].entries
  }

  lemma {:induction false} EntrySlotsConcat(xs: seq<RelocationEntry>, ys: seq<RelocationEntry>, machine: u16, base: u64,
      n: nat, k: nat)
    requires k <= |ys|
    ensures EntrySlots(xs + ys, machine, base, n, |xs| + k)
            == EntrySlots(xs, machine, base, n, |xs|) + EntrySlots(ys, machine, base, n, k)
    decreases k
  {
    hide SlotOf;
    if k > 0 {
      EntrySlotsConcat(xs, ys, machine, base, n, k - 1);
      assert (xs + ys)[|xs| + k - 1] == ys[k - 1];
    } else {
      EntrySlotsPrefix(xs, xs + ys, machine, base, n, |xs|);
    }
  }

  lemma {:induction false} EntrySlotsPrefix(xs: seq<RelocationEntry>, ys: seq<RelocationEntry>, machine: u16, base: u64,
      n: nat, k: nat)
    requires k <= |xs| && k <= |ys| && forall i :: 0 <= i < k ==> xs[i] == ys[i]
    ensures EntrySlots(xs, machine, base, n, k) == EntrySlots(ys, machine, base, n, k)
  {
    hide SlotOf;
    if k > 0 {
      EntrySlotsPrefix(xs, ys, machine, base, n, k - 1);
    }
  }

  lemma {:induction false} TableSlotsFlat(tables: seq<RelocationSection>, all: seq<RelocationSection>, machine: u16,
      base: u64, n: nat)
    requires |tables| <= |all| && tables == all[..|tables|]
    ensures TableSlots(all, machine, base, n, |tables|)
            == EntrySlots(Flattened(tables), machine, base, n, |Flattened(tables)|)
    decreases |tables|
  {
    hide SlotOf, EntrySlots;
    if tables != [] {
      var k := |tables| - 1;
      TableSlotsFlat(tables[..k], all, machine, base, n);
      EntrySlotsConcat(Flattened(tables[..k]), tables[k].entries, machine, base, n, |tables[k].entries|);
    } else {
      assert EntrySlots([], machine, base, n, 0) == [] by { EntrySlotsNone([], machine, base, n); }
    }
  }

  lemma EntrySlotsNone(xs: seq<RelocationEntry>, machine: u16, base: u64, n: nat)
    ensures EntrySlots(xs, machine, base, n, 0) == []
  {
  }

  /** The slots of a list with one entry moved to its end. */
  lemma MovedLast(a: seq<RelocationEntry>, x: RelocationEntry, b: seq<RelocationEntry>, machine: u16, base: u64, n: nat)
    ensures multiset(AllSlots(a + [x] + b, machine, base, n)) == multiset(AllSlots(a + b + [x], machine, base, n))
  {
    hide EntrySlots;
    EntrySlotsConcat(a + [x], b, machine, base, n, |b|);
    EntrySlotsConcat(a, [x], machine, base, n, 1);
    EntrySlotsConcat(a + b, [x], machine, base, n, 1);
    EntrySlotsConcat(a, b, machine, base, n, |b|);
  }

  function AllSlots(entries: seq<RelocationEntry>, machine: u16, base: u64, n: nat): seq<Slot> {
    EntrySlots(entries, machine, base, n, |entries|)
  }

  lemma {:induction false} SlotsPermute(xs: seq<RelocationEntry>, ys: seq<RelocationEntry>, machine: u16, base: u64,
      n: nat)
    requires multiset(xs) == multiset(ys)
    ensures multiset(AllSlots(xs, machine, base, n)) == multiset(AllSlots(ys, machine, base, n))
    decreases |xs|
  {
    hide EntrySlots, AllSlots;
    assert |ys| == |multiset(ys)| == |multiset(xs)| == |xs|;
    if xs != [] {
      var init, x := xs[..|xs| - 1], xs[|xs| - 1];
      assert xs == init + [x];
      assert x in multiset(ys);
      var i :| 0 <= i < |ys| && ys[i] == x;
      var a, b := ys[..i], ys[i + 1..];
      assert ys == a + [x] + b;
      assert multiset(init) + multiset{x} == multiset(a + b) + multiset{x};
      assert multiset(init) == multiset(init) + multiset{x} - multiset{x};
      assert multiset(a + b) == multiset(a + b) + multiset{x} - multiset{x};
      SlotsPermute(init, a + b, machine, base, n);
      MovedLast(a, x, b, machine, base, n);
      SlotsAppend(init, x, machine, base, n);
      SlotsAppend(a + b, x, machine, base, n);
    } else {
      assert ys == [];
    }
  }

  lemma SlotsAppend(init: seq<RelocationEntry>, x: RelocationEntry, machine: u16, base: u64, n: nat)
    ensures AllSlots(init + [x], machine, base, n) == AllSlots(init, machine, base, n) + AllSlots([x], machine, base, n)
  {
    hide EntrySlots;
    EntrySlotsConcat(init, [x], machine, base, n, 1);
  }

  lemma ListedLast(tables: seq<RelocationSection>, en: RelocationEntry)
    requires tables != []
    ensures var k := |tables| - 1; Listed(tables, en) <==> Listed(tables[..k], en) || en in tables[k].entries
  {
    var k := |tables| - 1;
    var init := tables[..k];
    if Listed(init, en) {
      var i, j :| 0 <= i < k && 0 <= j < |init[i].entries| && init[i].entries[j] == en;
      assert tables[i].entries[j] == en;
    }
    if Listed(tables, en) && en !in tables[k].entries {
      var i, j :| 0 <= i < |tables| && 0 <= j < |tables[i].entries| && tables[i].entries[j] == en;
      assert init[i].entries[j] == en;
    }
  }

  lemma {:induction false} InFlattened(tables: seq<RelocationSection>, en: RelocationEntry)
    ensures en in Flattened(tables) <==> Listed(tables, en)
    decreases |tables|
  {
    if tables != [] {
      hide Listed;
      InFlattened(tables[..|tables| - 1], en);
      ListedLast(tables, en);
    }
  }

  /** Every listed entry is in range. */
  lemma WrapsByEntry(img: ElfImage)
    requires Relocations(img).Ok?
    ensures NoSlotWraps(img)
            <==> forall en :: en in Flattened(Relocations(img).value) ==>
                   EntryInRange(en, img.header.machine, ImageBase(img))
  {
    hide Relocations, EntryInRange, ImageBase, Flattened;
    var tables := Relocations(img).value;
    forall en ensures en in Flattened(tables) <==> Listed(tables, en) {
      InFlattened(tables, en);
    }
    forall i, j | 0 <= i < |tables| && 0 <= j < |tables[i].entries| ensures Listed(tables, tables[i].entries[j]) {
    }
  }

  lemma SameEntriesWrap(a: ElfImage, b: ElfImage)
    requires Relocations(a).Ok? && Relocations(b).Ok? && NoSlotWraps(a)
    requires ImageBase(a) == ImageBase(b) && a.header.machine == b.header.machine
    requires multiset(Flattened(Relocations(a).value)) == multiset(Flattened(Relocations(b).value))
    ensures NoSlotWraps(b)
  {
    hide Relocations, EntryInRange, ImageBase, Flattened, NoSlotWraps;
    WrapsByEntry(a);
    WrapsByEntry(b);
    var xs, ys := Flattened(Relocations(a).value), Flattened(Relocations(b).value);
    forall en | en in ys ensures EntryInRange(en, a.header.machine, ImageBase(a)) {
      assert en in multiset(ys);
      assert en in xs;
    }
  }

  /**
   * Table and entry order do not matter: two images that agree on base, machine and byte order and list the same
   * entries, in whatever tables and order, rebase alike when the slots are pairwise the same or disjoint.
   */
  lemma EntryOrderIsIrrelevant(a: ElfImage, b: ElfImage, image: seq<u8>, base: u64)
    requires Relocations(a).Ok? && Relocations(b).Ok? && AllCompatible(Slots(a, Relocations(a).value, |image|))
    requires ImageBase(a) == ImageBase(b) && a.header.machine == b.header.machine && a.ident.data == b.ident.data
    requires NoSlotWraps(a)
    requires multiset(Flattened(Relocations(a).value)) == multiset(Flattened(Relocations(b).value))
    ensures NoSlotWraps(b) && Rebased(a, image, base) == Rebased(b, image, base)
  {
    hide Relocations, Apply, EntrySlots, ImageBase, Flattened, TableSlots, NoSlotWraps;
    SameEntriesWrap(a, b);
    var xs, ys, n := Relocations(a).value, Relocations(b).value, |image|;
    var m, h := a.header.machine, ImageBase(a);
    assert xs[..|xs|] == xs && ys[..|ys|] == ys;
    TableSlotsFlat(xs, xs, m, h, n);
    TableSlotsFlat(ys, ys, m, h, n);
    SlotsPermute(Flattened(xs), Flattened(ys), m, h, n);
    OrderIrrelevant(image, Slots(a, xs, n), Slots(b, ys, n), a.ident.data, Delta(a, base));
  }
}
