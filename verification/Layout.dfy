/** Where a moving cursor places aligned items, and the bytes that result. */
module Layout {
  import opened Arith
  import opened Bytes

  /** Bytes to be placed at the next offset congruent to `residue` modulo `align`; empty items take no place. */
  datatype Item = Item(residue: nat, align: nat, bytes: seq<u8>)

  /** Bytes at a file offset. */
  datatype Extent = Extent(at: nat, bytes: seq<u8>) {
    function End(): nat { at + |bytes| }
  }

  /** The source's `congruent` without its saturation. `align_up` is the case `vaddr == 0`. */
  function Congruent(cursor: nat, vaddr: nat, alignment: nat): (r: nat)
    ensures r >= cursor
  {
    if alignment <= 1 then cursor
    else
      var target, current := vaddr % alignment, cursor % alignment;
      if current == target then cursor
      else if current < target then cursor + (target - current)
      else cursor + (alignment - (current - target))
  }

  /** `Congruent` yields the least offset at or after the cursor with the wanted residue. */
  lemma CongruentIsLeast(cursor: nat, vaddr: nat, alignment: nat)
    requires alignment > 0
    ensures Congruent(cursor, vaddr, alignment) % alignment == vaddr % alignment
    ensures forall x :: cursor <= x < Congruent(cursor, vaddr, alignment) ==> x % alignment != vaddr % alignment
  {
    var r := Congruent(cursor, vaddr, alignment);
    var target, current, q := vaddr % alignment, cursor % alignment, cursor / alignment;
    Euclid(cursor, alignment);
    Euclid(vaddr, alignment);
    if current <= target {
      ModIs(r, alignment, q, target);
    } else {
      assert r == alignment * (q + 1) + target;
      ModIs(r, alignment, q + 1, target);
    }
    forall x | cursor <= x < r ensures x % alignment != target {
      if x % alignment == target {
        MultiplesApart(x, r, alignment);
      }
    }
  }

  function Place(c: nat, it: Item): nat { Congruent(c, it.residue, it.align) }

  function After(c: nat, it: Item): (r: nat)
    ensures r >= c
  {
    if it.bytes == [] then c else Place(c, it) + |it.bytes|
  }

  /** The cursor after the first `k` items. */
  function Cursor(items: seq<Item>, start: nat, k: nat): (c: nat)
    requires k <= |items|
    ensures c >= start
  {
    if k == 0 then start else After(Cursor(items, start, k - 1), items[k - 1])
  }

  /** The offset given to item `i` when it is not empty. */
  function OffsetOf(items: seq<Item>, start: nat, i: nat): (at: nat)
    requires i < |items|
    ensures at >= Cursor(items, start, i)
  {
    Place(Cursor(items, start, i), items[i])
  }

  /** The bytes between `start` and the cursor after `k` items. */
  function Body(items: seq<Item>, start: nat, k: nat): (b: seq<u8>)
    requires k <= |items|
    ensures |b| == Cursor(items, start, k) - start
  {
    if k == 0 then []
    else
      var it, c := items[k - 1], Cursor(items, start, k - 1);
      Body(items, start, k - 1)
      + if it.bytes == [] then [] else Zeros(Place(c, it) - c) + it.bytes
  }

  lemma {:induction false} CursorMonotone(items: seq<Item>, start: nat, j: nat, k: nat)
    requires j <= k <= |items|
    ensures Cursor(items, start, j) <= Cursor(items, start, k)
  {
    if j < k {
      CursorMonotone(items, start, j, k - 1);
    }
  }

  lemma CursorZero(items: seq<Item>, start: nat)
    ensures Cursor(items, start, 0) == start && Body(items, start, 0) == []
  {
  }

  /** One turn of a placing loop. */
  lemma Step(items: seq<Item>, start: nat, i: nat)
    requires i < |items|
    ensures items[i].bytes == [] ==>
              && Cursor(items, start, i + 1) == Cursor(items, start, i)
              && Body(items, start, i + 1) == Body(items, start, i)
    ensures items[i].bytes != [] ==>
              var c, at := Cursor(items, start, i), OffsetOf(items, start, i);
              c <= at && Cursor(items, start, i + 1) == at + |items[i].bytes|
              && Body(items, start, i + 1) == Body(items, start, i) + (Zeros(at - c) + items[i].bytes)
  {
    hide Congruent;
  }

  /** A non-empty item lies between the cursors around it. */
  lemma ItemExtent(items: seq<Item>, start: nat, i: nat)
    requires i < |items| && items[i].bytes != []
    ensures Cursor(items, start, i) <= OffsetOf(items, start, i)
    ensures OffsetOf(items, start, i) + |items[i].bytes| == Cursor(items, start, i + 1)
  {
  }

  /** Every placed item is found at its offset. */
  lemma {:induction false} BodyHolds(items: seq<Item>, start: nat, k: nat, i: nat)
    requires i < k <= |items| && items[i].bytes != []
    ensures At(Body(items, start, k), OffsetOf(items, start, i) - start, items[i].bytes)
  {
    hide Congruent, At, OffsetOf, Cursor;
    var b, it := Body(items, start, k - 1), items[k - 1];
    var gap := Zeros(Place(Cursor(items, start, k - 1), it) - Cursor(items, start, k - 1));
    if i < k - 1 {
      BodyHolds(items, start, k - 1, i);
      var tail := if it.bytes == [] then [] else gap + it.bytes;
      AtAppend(b, tail, OffsetOf(items, start, i) - start, items[i].bytes);
    } else {
      assert b + (gap + it.bytes) == b + gap + it.bytes;
      FoundAtEnd(b + gap, it.bytes);
      OffsetIsPlace(items, start, i);
    }
  }

  lemma OffsetIsPlace(items: seq<Item>, start: nat, i: nat)
    requires i < |items|
    ensures OffsetOf(items, start, i) == Place(Cursor(items, start, i), items[i])
  {
  }

  /** `p` lies in item `i`. */
  predicate InItem(items: seq<Item>, start: nat, i: nat, p: nat)
    requires i < |items|
  {
    items[i].bytes != [] && OffsetOf(items, start, i) <= p < OffsetOf(items, start, i) + |items[i].bytes|
  }

  /** Bytes between items are zero. */
  lemma {:induction false} BodyGaps(items: seq<Item>, start: nat, k: nat, p: nat)
    requires k <= |items| && start <= p < Cursor(items, start, k)
    requires forall i :: 0 <= i < k ==> !InItem(items, start, i, p)
    ensures Body(items, start, k)[p - start] == 0
  {
    hide Congruent;
    if p < Cursor(items, start, k - 1) {
      BodyGaps(items, start, k - 1, p);
    } else {
      assert !InItem(items, start, k - 1, p);
    }
  }

  // ---------------------------------------------------------------- tables of equal records

  function Flat(parts: seq<seq<u8>>): seq<u8> {
    if parts == [] then [] else Flat(parts[..|parts| - 1]) + parts[|parts| - 1]
  }

  /** One turn of a loop that writes a table. */
  lemma FlatNext(parts: seq<seq<u8>>, i: nat)
    requires i < |parts|
    ensures Flat(parts[..i + 1]) == Flat(parts[..i]) + parts[i]
  {
    assert parts[..i + 1][..i] == parts[..i];
  }

  lemma FlatEnds(parts: seq<seq<u8>>)
    ensures Flat(parts[..0]) == [] && Flat(parts[..|parts|]) == Flat(parts)
  {
    assert parts[..|parts|] == parts;
  }

  lemma {:induction false} FlatLength(parts: seq<seq<u8>>, size: nat)
    requires forall i :: 0 <= i < |parts| ==> |parts[i]| == size
    ensures |Flat(parts)| == |parts| * size
    decreases |parts|
  {
    if parts != [] {
      FlatLength(parts[..|parts| - 1], size);
      MulNext(|parts| - 1, size);
    }
  }

  lemma {:induction false} FlatHoldsOne(parts: seq<seq<u8>>, size: nat, i: nat)
    requires i < |parts| && forall j :: 0 <= j < |parts| ==> |parts[j]| == size
    ensures i * size >= 0 && At(Flat(parts), i * size, parts[i])
    decreases |parts|
  {
    hide At;
    var k := |parts| - 1;
    if i < k {
      FlatHoldsOne(parts[..k], size, i);
      AtAppend(Flat(parts[..k]), parts[k], i * size, parts[i]);
    } else {
      FlatLength(parts[..k], size);
      FoundAtEnd(Flat(parts[..k]), parts[k]);
    }
  }

  lemma FoundAtEnd(a: seq<u8>, b: seq<u8>)
    ensures At(a + b, |a|, b)
  {
  }

  /** Record `i` of a table of `size`-byte records sits at `i * size`. */
  lemma FlatHolds(parts: seq<seq<u8>>, size: nat)
    requires forall i :: 0 <= i < |parts| ==> |parts[i]| == size
    ensures |Flat(parts)| == |parts| * size
    ensures forall i {:trigger parts[i]} :: 0 <= i < |parts| ==> i * size >= 0 && At(Flat(parts), i * size, parts[i])
  {
    hide Flat, At;
    FlatLength(parts, size);
    forall i | 0 <= i < |parts| ensures i * size >= 0 && At(Flat(parts), i * size, parts[i]) {
      FlatHoldsOne(parts, size, i);
    }
  }

  /** `write_at`: grows `out` with zeros when needed, then overwrites. */
  function Written(out: seq<u8>, at: nat, bytes: seq<u8>): (r: seq<u8>)
    ensures |r| == Max(|out|, at + |bytes|)
  {
    if |out| <= at then out + Zeros(at - |out|) + bytes
    else out[..at] + bytes + if at + |bytes| < |out| then out[at + |bytes|..] else []
  }

  /** Growing and overwriting, as the source does it. */
  lemma GrowThenPatch(out: seq<u8>, at: nat, bytes: seq<u8>)
    ensures |out| < at + |bytes| ==>
              Patch(out + Zeros(at + |bytes| - |out|), at, bytes) == Written(out, at, bytes)
    ensures at + |bytes| <= |out| ==> Patch(out, at, bytes) == Written(out, at, bytes)
  {
    var end := at + |bytes|;
    if |out| < end {
      var grown := out + Zeros(end - |out|);
      assert grown[end..] == [];
      if |out| <= at {
        assert grown[..at] == out + Zeros(at - |out|);
      } else {
        assert grown[..at] == out[..at];
      }
    } else if |out| == end {
      assert out[end..] == [];
      assert |out| <= at ==> out[..at] == out + Zeros(0) && bytes == [];
    }
  }

  lemma WrittenPastEnd(out: seq<u8>, at: nat, bytes: seq<u8>)
    requires |out| <= at
    ensures Written(out, at, bytes) == out + (Zeros(at - |out|) + bytes)
  {
  }
}
