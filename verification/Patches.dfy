/** Lists of overwrites, and how they act on laid-out items. */
module Patches {
  import opened Bytes
  import opened Layout

  /** The overwrites lie inside `n` bytes that start at `base`. */
  ghost predicate Within(ps: seq<Extent>, base: nat, n: nat) {
    forall i :: 0 <= i < |ps| ==> base <= ps[i].at && ps[i].End() <= base + n
  }

  /** Applies the overwrites, in order, to bytes that start at offset `base`. */
  function PatchAll(s: seq<u8>, ps: seq<Extent>, base: nat): (r: seq<u8>)
    requires Within(ps, base, |s|)
    ensures |r| == |s|
    decreases |ps|
  {
    if ps == [] then s
    else
      var k := |ps| - 1;
      assert forall i :: 0 <= i < k ==> ps[..k][i] == ps[i];
      Patch(PatchAll(s, ps[..k], base), ps[k].at - base, ps[k].bytes)
  }

  lemma PatchLast(s: seq<u8>, ps: seq<Extent>, base: nat)
    requires Within(ps, base, |s|) && ps != []
    ensures var k := |ps| - 1;
            && Within(ps[..k], base, |s|) && base <= ps[k].at && ps[k].End() <= base + |s|
            && PatchAll(s, ps, base) == Patch(PatchAll(s, ps[..k], base), ps[k].at - base, ps[k].bytes)
  {
    assert forall i :: 0 <= i < |ps| - 1 ==> ps[..|ps| - 1][i] == ps[i];
  }

  lemma {:induction false} PatchPrefix(a: seq<u8>, b: seq<u8>, ps: seq<Extent>, base: nat)
    requires Within(ps, base, |a|)
    ensures Within(ps, base, |a + b|) && PatchAll(a + b, ps, base) == PatchAll(a, ps, base) + b
    decreases |ps|
  {
    hide PatchAll, Patch;
    if ps == [] {
      PatchNone(a, base);
      PatchNone(a + b, base);
    } else {
      var k := |ps| - 1;
      PatchLast(a, ps, base);
      PatchPrefix(a, b, ps[..k], base);
      PatchLast(a + b, ps, base);
      PatchFront(PatchAll(a, ps[..k], base), b, ps[k].at - base, ps[k].bytes);
    }
  }

  lemma PatchFront(a: seq<u8>, b: seq<u8>, at: nat, d: seq<u8>)
    requires at + |d| <= |a|
    ensures Patch(a + b, at, d) == Patch(a, at, d) + b
  {
  }

  lemma PatchBack(a: seq<u8>, b: seq<u8>, at: nat, d: seq<u8>)
    requires at + |d| <= |b|
    ensures Patch(a + b, |a| + at, d) == a + Patch(b, at, d)
  {
  }

  lemma {:induction false} PatchSuffix(a: seq<u8>, b: seq<u8>, ps: seq<Extent>, base: nat)
    requires Within(ps, base + |a|, |b|)
    ensures Within(ps, base, |a + b|) && PatchAll(a + b, ps, base) == a + PatchAll(b, ps, base + |a|)
    decreases |ps|
  {
    hide PatchAll, Patch;
    if ps == [] {
      PatchNone(b, base + |a|);
      PatchNone(a + b, base);
    } else {
      var k := |ps| - 1;
      PatchLast(b, ps, base + |a|);
      PatchSuffix(a, b, ps[..k], base);
      PatchLast(a + b, ps, base);
      PatchBack(a, PatchAll(b, ps[..k], base + |a|), ps[k].at - base - |a|, ps[k].bytes);
    }
  }

  lemma {:induction false} PatchConcat(s: seq<u8>, ps: seq<Extent>, qs: seq<Extent>, base: nat)
    requires Within(ps, base, |s|) && Within(qs, base, |s|)
    ensures Within(ps + qs, base, |s|) && PatchAll(s, ps + qs, base) == PatchAll(PatchAll(s, ps, base), qs, base)
    decreases |qs|
  {
    hide PatchAll, Patch;
    var t := PatchAll(s, ps, base);
    if qs == [] {
      assert ps + qs == ps;
      PatchNone(t, base);
    } else {
      var k := |qs| - 1;
      PatchLast(t, qs, base);
      PatchConcat(s, ps, qs[..k], base);
      PatchLast(s, ps + qs, base);
      assert (ps + qs)[..|ps + qs| - 1] == ps + qs[..k];
    }
  }

  lemma PatchMiddle(a: seq<u8>, m: seq<u8>, z: seq<u8>, ps: seq<Extent>, base: nat)
    requires Within(ps, base + |a|, |m|)
    ensures Within(ps, base, |a + m + z|) && PatchAll(a + m + z, ps, base) == a + PatchAll(m, ps, base + |a|) + z
  {
    hide PatchAll;
    PatchSuffix(a, m, ps, base);
    PatchPrefix(a + m, z, ps, base);
  }

  /** Overwrites of two neighbouring parts of a file. */
  lemma PatchTwoParts(a: seq<u8>, s: seq<u8>, x: seq<u8>, z: seq<u8>, segs: seq<Extent>, secs: seq<Extent>)
    requires Within(segs, |a|, |s|) && Within(secs, |a| + |s|, |x|)
    ensures Within(segs + secs, 0, |a + s + x + z|)
    ensures PatchAll(a + s + x + z, segs + secs, 0)
            == a + PatchAll(s, segs, |a|) + PatchAll(x, secs, |a| + |s|) + z
  {
    hide PatchAll;
    var s' := PatchAll(s, segs, |a|);
    PatchMiddle(a, s, x + z, segs, 0);
    assert a + s + (x + z) == a + s + x + z;
    PatchMiddle(a + s', x, z, secs, 0);
    assert a + s' + (x + z) == a + s' + x + z;
    PatchConcat(a + s + x + z, segs, secs, 0);
  }

  // ---------------------------------------------------------------- edits of items

  /** An edit of one item: the position inside the item and the new bytes, or nothing. */
  type Edit = Option<Extent>

  /** `ys` is `xs` with edit `i` applied to item `i`. */
  ghost predicate EditedItems(xs: seq<Item>, ys: seq<Item>, edits: seq<Edit>) {
    |xs| == |ys| == |edits|
    && forall i :: 0 <= i < |xs| ==>
         ys[i].residue == xs[i].residue && ys[i].align == xs[i].align
         && match edits[i] {
              case None => ys[i].bytes == xs[i].bytes
              case Some(e) =>
                e.bytes != [] && e.End() <= |xs[i].bytes| && ys[i].bytes == Patch(xs[i].bytes, e.at, e.bytes)
            }
  }

  /** The edits of the first `k` items as overwrites at file offsets. */
  function Overwrites(items: seq<Item>, start: nat, edits: seq<Edit>, k: nat): seq<Extent>
    requires k <= |items| == |edits|
  {
    if k == 0 then []
    else
      Overwrites(items, start, edits, k - 1)
      + match edits[k - 1] {
          case None => []
          case Some(e) => [Extent(OffsetOf(items, start, k - 1) + e.at, e.bytes)]
        }
  }

  /** What is known before item `i` of two layouts, one the other overwritten. */
  ghost predicate SameSoFar(xs: seq<Item>, ys: seq<Item>, edits: seq<Edit>, start: nat, i: nat) {
    && EditedItems(xs, ys, edits) && i <= |xs|
    && Cursor(ys, start, i) == Cursor(xs, start, i)
    && Within(Overwrites(xs, start, edits, i), start, |Body(xs, start, i)|)
    && Body(ys, start, i) == PatchAll(Body(xs, start, i), Overwrites(xs, start, edits, i), start)
  }

  /** Laying out edited items is laying out the items and overwriting the file. */
  lemma {:induction false} EditedBody(xs: seq<Item>, ys: seq<Item>, edits: seq<Edit>, start: nat, k: nat)
    requires EditedItems(xs, ys, edits) && k <= |xs|
    ensures SameSoFar(xs, ys, edits, start, k)
  {
    hide Congruent, Cursor, Body, PatchAll;
    if k == 0 {
      CursorZero(xs, start);
      CursorZero(ys, start);
      PatchNone([], start);
    } else {
      EditedBody(xs, ys, edits, start, k - 1);
      if edits[k - 1].None? {
        KeptItem(xs, ys, edits, start, k - 1);
      } else {
        ChangedItem(xs, ys, edits, start, k - 1);
      }
    }
  }

  lemma PatchNone(s: seq<u8>, base: nat)
    ensures PatchAll(s, [], base) == s
  {
  }

  lemma PatchOne(s: seq<u8>, e: Extent, base: nat)
    requires base <= e.at && e.End() <= base + |s|
    ensures Within([e], base, |s|) && PatchAll(s, [e], base) == Patch(s, e.at - base, e.bytes)
  {
    assert [e][..0] == [];
  }

  /** An overwrite inside bytes that were appended after a gap. */
  lemma PatchTail(prev: seq<u8>, ps: seq<Extent>, gap: seq<u8>, bytes: seq<u8>, e: Extent, base: nat)
    requires Within(ps, base, |prev|) && e.End() <= |bytes|
    ensures var q := Extent(base + |prev| + |gap| + e.at, e.bytes);
            && Within(ps + [q], base, |prev + (gap + bytes)|)
            && PatchAll(prev + (gap + bytes), ps + [q], base)
               == PatchAll(prev, ps, base) + (gap + Patch(bytes, e.at, e.bytes))
  {
    hide PatchAll, Patch;
    var q, t := Extent(base + |prev| + |gap| + e.at, e.bytes), PatchAll(prev, ps, base);
    PatchPrefix(prev, gap + bytes, ps, base);
    PatchOne(t + (gap + bytes), q, base);
    PatchConcat(prev + (gap + bytes), ps, [q], base);
    PatchBack(gap, bytes, e.at, e.bytes);
    PatchBack(t, gap + bytes, |gap| + e.at, e.bytes);
  }

  lemma OverwritesNext(items: seq<Item>, start: nat, edits: seq<Edit>, i: nat)
    requires i < |items| == |edits|
    ensures edits[i].None? ==> Overwrites(items, start, edits, i + 1) == Overwrites(items, start, edits, i)
    ensures edits[i].Some? ==>
              Overwrites(items, start, edits, i + 1)
              == Overwrites(items, start, edits, i)
                 + [Extent(OffsetOf(items, start, i) + edits[i].value.at, edits[i].value.bytes)]
  {
    hide OffsetOf;
  }

  lemma KeptItem(xs: seq<Item>, ys: seq<Item>, edits: seq<Edit>, start: nat, i: nat)
    requires SameSoFar(xs, ys, edits, start, i) && i < |xs| && edits[i].None?
    ensures SameSoFar(xs, ys, edits, start, i + 1)
  {
    hide Congruent, Cursor, Body, PatchAll, Patch, OffsetOf, Overwrites;
    Step(xs, start, i);
    Step(ys, start, i);
    SamePlace(xs, ys, start, i);
    OverwritesNext(xs, start, edits, i);
    if xs[i].bytes != [] {
      PatchPrefix(Body(xs, start, i), Zeros(OffsetOf(xs, start, i) - Cursor(xs, start, i)) + xs[i].bytes,
                  Overwrites(xs, start, edits, i), start);
    }
  }

  lemma ChangedItem(xs: seq<Item>, ys: seq<Item>, edits: seq<Edit>, start: nat, i: nat)
    requires SameSoFar(xs, ys, edits, start, i) && i < |xs| && edits[i].Some?
    ensures SameSoFar(xs, ys, edits, start, i + 1)
  {
    hide Congruent, Cursor, Body, PatchAll, Patch, OffsetOf, Overwrites;
    Step(xs, start, i);
    Step(ys, start, i);
    SamePlace(xs, ys, start, i);
    OverwritesNext(xs, start, edits, i);
    PatchTail(Body(xs, start, i), Overwrites(xs, start, edits, i),
              Zeros(OffsetOf(xs, start, i) - Cursor(xs, start, i)), xs[i].bytes, edits[i].value, start);
  }

  lemma SamePlace(xs: seq<Item>, ys: seq<Item>, start: nat, i: nat)
    requires i < |xs| == |ys| && Cursor(ys, start, i) == Cursor(xs, start, i)
    requires ys[i].residue == xs[i].residue && ys[i].align == xs[i].align
    ensures OffsetOf(ys, start, i) == OffsetOf(xs, start, i)
  {
    hide Congruent, Cursor;
  }
}
