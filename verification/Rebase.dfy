/** The rebasing loop: slots of a mapped image whose stored pointers move by the base change. */
module Rebase {
  import opened Arith
  import opened Bytes

  /** A pointer-sized slot of a mapped image. */
  datatype Slot = Slot(at: nat, width: nat) {
    function End(): nat { at + width }
  }

  predicate Inside(s: Slot, n: nat) { (s.width == 4 || s.width == 8) && s.End() <= n }

  ghost predicate AllInside(slots: seq<Slot>, n: nat) { forall i :: 0 <= i < |slots| ==> Inside(slots[i], n) }

  function Modulus(width: nat): (m: nat)
    ensures m > 0
  {
    if width == 4 then TWO_32 else TWO_64
  }

  /** The value stored in a slot. */
  function Stored(image: seq<u8>, s: Slot, e: Endian): (v: nat)
    requires Inside(s, |image|)
    ensures v < Modulus(s.width)
  {
    EncDec(e, image[s.at..s.End()]);
    Widths();
    Dec(e, image[s.at..s.End()])
  }

  /** The image with `v` stored in a slot. */
  function Store(image: seq<u8>, s: Slot, e: Endian, v: nat): (r: seq<u8>)
    requires Inside(s, |image|)
    ensures |r| == |image|
  {
    Patch(image, s.at, Enc(e, s.width, v))
  }

  /** One turn of the loop: adds `delta` to a slot, wrapping at its width. */
  function Bump(image: seq<u8>, s: Slot, e: Endian, delta: nat): (r: seq<u8>)
    requires Inside(s, |image|)
    ensures |r| == |image|
  {
    Store(image, s, e, (Stored(image, s, e) + delta) % Modulus(s.width))
  }

  /** The whole loop. */
  function Apply(image: seq<u8>, slots: seq<Slot>, e: Endian, delta: nat): (r: seq<u8>)
    requires AllInside(slots, |image|)
    ensures |r| == |image|
  {
    if slots == [] then image
    else Bump(Apply(image, slots[..|slots| - 1], e, delta), slots[|slots| - 1], e, delta)
  }

  predicate Disjoint(a: Slot, b: Slot) { a.End() <= b.at || b.End() <= a.at }

  /** Two slots are the same slot or do not touch. */
  predicate Compatible(a: Slot, b: Slot) { a == b || Disjoint(a, b) }

  ghost predicate AllCompatible(slots: seq<Slot>) {
    forall i, j :: 0 <= i < |slots| && 0 <= j < |slots| ==> Compatible(slots[i], slots[j])
  }

  // ---------------------------------------------------------------- one slot

  lemma StoredStore(image: seq<u8>, s: Slot, e: Endian, v: nat)
    requires Inside(s, |image|) && v < Modulus(s.width)
    ensures Stored(Store(image, s, e, v), s, e) == v
  {
    Widths();
    DecEnc(e, s.width, v);
    assert Store(image, s, e, v)[s.at..s.End()] == Enc(e, s.width, v);
  }

  lemma StoreStored(image: seq<u8>, s: Slot, e: Endian)
    requires Inside(s, |image|)
    ensures Store(image, s, e, Stored(image, s, e)) == image
  {
    EncDec(e, image[s.at..s.End()]);
    assert Enc(e, s.width, Stored(image, s, e)) == image[s.at..s.End()];
  }

  lemma StoreStore(image: seq<u8>, s: Slot, e: Endian, v: nat, w: nat)
    requires Inside(s, |image|)
    ensures Store(Store(image, s, e, v), s, e, w) == Store(image, s, e, w)
  {
    hide Enc;
  }

  lemma StoreApart(image: seq<u8>, a: Slot, b: Slot, e: Endian, v: nat, w: nat)
    requires Inside(a, |image|) && Inside(b, |image|) && Disjoint(a, b)
    ensures Stored(Store(image, a, e, v), b, e) == Stored(image, b, e)
    ensures Store(Store(image, a, e, v), b, e, w) == Store(Store(image, b, e, w), a, e, v)
  {
    hide Enc, Dec;
    assert Store(image, a, e, v)[b.at..b.End()] == image[b.at..b.End()];
  }

  lemma AddTwice(v: nat, d1: nat, d2: nat, m: nat)
    requires m > 0
    ensures ((v + d1) % m + d2) % m == (v + d1 + d2) % m
  {
    var q, r := (v + d1) / m, (v + d1) % m;
    Euclid(v + d1, m);
    ModAddMultiple(r + d2, m, q);
    assert r + d2 + m * q == v + d1 + d2;
  }

  /** Deltas add up in 64 bits, which every slot width divides. */
  lemma DeltasWrap(v: nat, d: nat, width: nat)
    requires width == 4 || width == 8
    ensures (v + d % TWO_64) % Modulus(width) == (v + d) % Modulus(width)
  {
    Euclid(d, TWO_64);
    var q := d / TWO_64;
    if width == 4 {
      assert v + d == (v + d % TWO_64) + TWO_32 * (TWO_32 * q);
      ModAddMultiple(v + d % TWO_64, TWO_32, TWO_32 * q);
    } else {
      ModAddMultiple(v + d % TWO_64, TWO_64, q);
    }
  }

  lemma BumpTwice(image: seq<u8>, s: Slot, e: Endian, d1: nat, d2: nat)
    requires Inside(s, |image|)
    ensures Bump(Bump(image, s, e, d1), s, e, d2) == Bump(image, s, e, (d1 + d2) % TWO_64)
  {
    hide Stored, Store, Modulus;
    var v, m := Stored(image, s, e), Modulus(s.width);
    StoredStore(image, s, e, (v + d1) % m);
    AddTwice(v, d1, d2, m);
    DeltasWrap(v, d1 + d2, s.width);
    StoreStore(image, s, e, (v + d1) % m, (v + d1 + d2) % m);
  }

  lemma BumpsCommute(image: seq<u8>, a: Slot, b: Slot, e: Endian, d1: nat, d2: nat)
    requires Inside(a, |image|) && Inside(b, |image|) && Compatible(a, b)
    ensures Bump(Bump(image, a, e, d1), b, e, d2) == Bump(Bump(image, b, e, d2), a, e, d1)
  {
    hide Stored, Store;
    if a == b {
      BumpTwice(image, a, e, d1, d2);
      BumpTwice(image, a, e, d2, d1);
    } else {
      var v, w := (Stored(image, a, e) + d1) % Modulus(a.width), (Stored(image, b, e) + d2) % Modulus(b.width);
      StoreApart(image, a, b, e, v, w);
      StoreApart(image, b, a, e, w, v);
    }
  }

  // ---------------------------------------------------------------- the loop

  lemma ApplyLast(image: seq<u8>, slots: seq<Slot>, s: Slot, e: Endian, d: nat)
    requires AllInside(slots, |image|) && Inside(s, |image|)
    ensures AllInside(slots + [s], |image|)
    ensures Apply(image, slots + [s], e, d) == Bump(Apply(image, slots, e, d), s, e, d)
  {
    assert (slots + [s])[..|slots|] == slots;
  }

  /** A turn of the loop can move past the whole loop. */
  lemma {:induction false} BumpPastApply(image: seq<u8>, slots: seq<Slot>, s: Slot, e: Endian, d: nat, ds: nat)
    requires AllInside(slots, |image|) && Inside(s, |image|)
    requires forall i :: 0 <= i < |slots| ==> Compatible(slots[i], s)
    ensures Bump(Apply(image, slots, e, d), s, e, ds) == Apply(Bump(image, s, e, ds), slots, e, d)
    decreases |slots|
  {
    hide Bump;
    if slots != [] {
      var init, last := slots[..|slots| - 1], slots[|slots| - 1];
      BumpPastApply(image, init, s, e, d, ds);
      BumpsCommute(Apply(image, init, e, d), last, s, e, d, ds);
    }
  }

  /** Rebasing is a group action: two rebases are one rebase by the wrapped sum. */
  lemma {:induction false} RebaseTwice(image: seq<u8>, slots: seq<Slot>, e: Endian, d1: nat, d2: nat)
    requires AllInside(slots, |image|) && AllCompatible(slots)
    ensures Apply(Apply(image, slots, e, d1), slots, e, d2) == Apply(image, slots, e, (d1 + d2) % TWO_64)
    decreases |slots|
  {
    hide Bump;
    if slots != [] {
      var k := |slots| - 1;
      var init, last := slots[..k], slots[k];
      var one := Apply(image, init, e, d1);
      assert forall i :: 0 <= i < k ==> Compatible(init[i], last);
      RebaseTwice(image, init, e, d1, d2);
      BumpPastApply(one, init, last, e, d2, d1);
      BumpTwice(Apply(one, init, e, d2), last, e, d1, d2);
    }
  }

  /** Rebasing by nothing is the identity, even for slots that overlap. */
  lemma {:induction false} RebaseZero(image: seq<u8>, slots: seq<Slot>, e: Endian)
    requires AllInside(slots, |image|)
    ensures Apply(image, slots, e, 0) == image
    decreases |slots|
  {
    if slots != [] {
      var init, last := slots[..|slots| - 1], slots[|slots| - 1];
      RebaseZero(image, init, e);
      hide Apply, Stored, Store;
      StoreStored(image, last, e);
      Euclid(Stored(image, last, e), Modulus(last.width));
      ModIs(Stored(image, last, e), Modulus(last.width), 0, Stored(image, last, e));
    }
  }

  /** Rebasing back undoes rebasing. */
  lemma RebaseUndone(image: seq<u8>, slots: seq<Slot>, e: Endian, d: u64)
    requires AllInside(slots, |image|) && AllCompatible(slots)
    ensures Apply(Apply(image, slots, e, d), slots, e, (TWO_64 - d) % TWO_64) == image
  {
    hide Apply;
    RebaseTwice(image, slots, e, d, (TWO_64 - d) % TWO_64);
    RebaseZero(image, slots, e);
  }

  /** The list without entry `i`. */
  function Without(slots: seq<Slot>, i: nat): seq<Slot>
    requires i < |slots|
  {
    slots[..i] + slots[i + 1..]
  }

  lemma WithoutMembers(slots: seq<Slot>, i: nat, n: nat)
    requires AllInside(slots, n) && AllCompatible(slots) && i < |slots|
    ensures AllInside(Without(slots, i), n) && AllCompatible(Without(slots, i))
    ensures multiset(Without(slots, i)) == multiset(slots) - multiset{slots[i]}
  {
    assert slots == slots[..i] + [slots[i]] + slots[i + 1..];
  }

  lemma WithoutEarlier(slots: seq<Slot>, i: nat)
    requires i < |slots| - 1
    ensures Without(slots, i) == Without(slots[..|slots| - 1], i) + [slots[|slots| - 1]]
    ensures slots[..|slots| - 1][i] == slots[i]
  {
  }

  lemma WithoutLast(slots: seq<Slot>)
    requires slots != []
    ensures Without(slots, |slots| - 1) == slots[..|slots| - 1]
  {
  }

  /** Any one slot may as well be applied last. */
  lemma {:induction false} AnyIsLast(image: seq<u8>, slots: seq<Slot>, i: nat, e: Endian, d: nat)
    requires AllInside(slots, |image|) && AllCompatible(slots) && i < |slots|
    ensures AllInside(Without(slots, i), |image|)
    ensures Apply(image, slots, e, d) == Bump(Apply(image, Without(slots, i), e, d), slots[i], e, d)
    decreases |slots|
  {
    hide Bump, Without, Apply;
    WithoutMembers(slots, i, |image|);
    var k := |slots| - 1;
    var init, last := slots[..k], slots[k];
    assert slots == init + [last];
    ApplyLast(image, init, last, e, d);
    if i < k {
      WithoutEarlier(slots, i);
      AnyIsLast(image, init, i, e, d);
      ApplyLast(image, Without(init, i), last, e, d);
      BumpsCommute(Apply(image, Without(init, i), e, d), slots[i], last, e, d, d);
    } else {
      WithoutLast(slots);
    }
  }

  /** Table and entry order do not matter. */
  lemma {:induction false} OrderIrrelevant(image: seq<u8>, xs: seq<Slot>, ys: seq<Slot>, e: Endian, d: nat)
    requires AllInside(xs, |image|) && AllInside(ys, |image|) && AllCompatible(xs) && multiset(xs) == multiset(ys)
    ensures Apply(image, xs, e, d) == Apply(image, ys, e, d)
    decreases |xs|
  {
    hide Bump, Without, Apply;
    assert |ys| == |multiset(ys)| == |multiset(xs)| == |xs|;
    if xs == [] {
      assert ys == [];
    } else {
      var k := |xs| - 1;
      assert xs[k] in multiset(ys);
      var i :| 0 <= i < |ys| && ys[i] == xs[k];
      SameMembers(xs, ys);
      WithoutMembers(xs, k, |image|);
      WithoutMembers(ys, i, |image|);
      AnyIsLast(image, xs, k, e, d);
      AnyIsLast(image, ys, i, e, d);
      OrderIrrelevant(image, Without(xs, k), Without(ys, i), e, d);
    }
  }

  lemma SameMembers(xs: seq<Slot>, ys: seq<Slot>)
    requires multiset(xs) == multiset(ys) && AllCompatible(xs)
    ensures AllCompatible(ys)
  {
    forall i, j | 0 <= i < |ys| && 0 <= j < |ys| ensures Compatible(ys[i], ys[j]) {
      assert ys[i] in multiset(ys) && ys[j] in multiset(ys);
      assert ys[i] in xs && ys[j] in xs;
    }
  }

  // ---------------------------------------------------------------- effect and frame

  /** Bytes outside every slot keep their values. */
  lemma {:induction false} RebaseFrame(image: seq<u8>, slots: seq<Slot>, e: Endian, d: nat, p: nat)
    requires AllInside(slots, |image|) && p < |image|
    requires forall i :: 0 <= i < |slots| ==> !(slots[i].at <= p < slots[i].End())
    ensures Apply(image, slots, e, d)[p] == image[p]
    decreases |slots|
  {
    hide Enc, Stored;
    if slots != [] {
      var k := |slots| - 1;
      RebaseFrame(image, slots[..k], e, d, p);
      assert !(slots[k].at <= p < slots[k].End());
    }
  }

  /** A slot disjoint from all others in the list keeps its value. */
  lemma {:induction false} SlotFrame(image: seq<u8>, slots: seq<Slot>, s: Slot, e: Endian, d: nat)
    requires AllInside(slots, |image|) && Inside(s, |image|)
    requires forall i :: 0 <= i < |slots| ==> Disjoint(slots[i], s)
    ensures Stored(Apply(image, slots, e, d), s, e) == Stored(image, s, e)
    decreases |slots|
  {
    hide Stored, Store;
    if slots != [] {
      var k := |slots| - 1;
      var before := Apply(image, slots[..k], e, d);
      SlotFrame(image, slots[..k], s, e, d);
      StoreApart(before, slots[k], s, e, (Stored(before, slots[k], e) + d) % Modulus(slots[k].width), 0);
    }
  }

  /** A slot moves by the base change once for every time it is listed. */
  lemma {:induction false} SlotEffect(image: seq<u8>, slots: seq<Slot>, s: Slot, e: Endian, d: nat)
    requires AllInside(slots, |image|) && Inside(s, |image|)
    requires forall i :: 0 <= i < |slots| ==> Compatible(slots[i], s)
    ensures Stored(Apply(image, slots, e, d), s, e)
            == Times(Stored(image, s, e), multiset(slots)[s], d, Modulus(s.width))
    decreases |slots|
  {
    hide Stored, Store, Times, Apply;
    var m, v := Modulus(s.width), Stored(image, s, e);
    if slots == [] {
      ApplyNone(image, e, d);
      TimesZero(v, d, m);
    } else {
      var k := |slots| - 1;
      var init, last := slots[..k], slots[k];
      assert slots == init + [last];
      ApplyLast(image, init, last, e, d);
      SlotEffect(image, init, s, e, d);
      var before, n := Apply(image, init, e, d), multiset(init)[s];
      if last == s {
        StoredStore(before, s, e, (Stored(before, s, e) + d) % m);
        TimesNext(v, n, d, m);
        assert multiset(slots)[s] == n + 1;
      } else {
        StoreApart(before, last, s, e, (Stored(before, last, e) + d) % Modulus(last.width), 0);
        assert multiset(slots)[s] == n;
      }
    }
  }

  /** `v` moved `n` times by `d`, wrapping at `m`. */
  function Times(v: nat, n: nat, d: nat, m: nat): nat
    requires m > 0
  {
    MulNonNeg(n, d);
    (v + n * d) % m
  }

  lemma TimesZero(v: nat, d: nat, m: nat)
    requires v < m
    ensures Times(v, 0, d, m) == v
  {
    ModIs(v, m, 0, v);
  }

  lemma TimesNext(v: nat, n: nat, d: nat, m: nat)
    requires m > 0
    ensures Times(v, n + 1, d, m) == (Times(v, n, d, m) + d) % m
  {
    MulNext(n, d);
    AddProduct(v, n * d, (n + 1) * d, d, m);
  }

  lemma AddProduct(v: nat, p: nat, q: nat, d: nat, m: nat)
    requires m > 0 && q == p + d
    ensures (v + q) % m == ((v + p) % m + d) % m
  {
    AddTwice(v, p, d, m);
    assert v + p + d == v + q;
  }

  lemma ApplyNone(image: seq<u8>, e: Endian, d: nat)
    ensures Apply(image, [], e, d) == image
  {
  }

  /** A list applied in two parts. */
  lemma {:induction false} ApplyConcat(image: seq<u8>, xs: seq<Slot>, ys: seq<Slot>, e: Endian, d: nat)
    requires AllInside(xs, |image|) && AllInside(ys, |image|)
    ensures AllInside(xs + ys, |image|)
    ensures Apply(image, xs + ys, e, d) == Apply(Apply(image, xs, e, d), ys, e, d)
    decreases |ys|
  {
    hide Bump, Apply;
    if ys == [] {
      assert xs + ys == xs;
      ApplyNone(Apply(image, xs, e, d), e, d);
    } else {
      var k := |ys| - 1;
      var init, last := ys[..k], ys[k];
      assert ys == init + [last] && xs + ys == (xs + init) + [last];
      ApplyConcat(image, xs, init, e, d);
      ApplyLast(image, xs + init, last, e, d);
      ApplyLast(Apply(image, xs, e, d), init, last, e, d);
    }
  }

  /** A slot listed once and apart from all others: its pointer moves by exactly the base change. */
  lemma PointerMoves(image: seq<u8>, slots: seq<Slot>, i: nat, e: Endian, d: nat)
    requires AllInside(slots, |image|) && i < |slots|
    requires forall j :: 0 <= j < |slots| && j != i ==> Disjoint(slots[j], slots[i])
    ensures Stored(Apply(image, slots, e, d), slots[i], e)
            == (Stored(image, slots[i], e) + d) % Modulus(slots[i].width)
  {
    hide Stored, Apply;
    var s := slots[i];
    SlotEffect(image, slots, s, e, d);
    assert slots == slots[..i] + [s] + slots[i + 1..];
    assert s !in slots[..i] && s !in slots[i + 1..];
    assert multiset(slots)[s] == 1;
  }

  lemma ApplyTwo(image: seq<u8>, a: Slot, b: Slot, e: Endian, d: nat)
    requires Inside(a, |image|) && Inside(b, |image|)
    ensures AllInside([a, b], |image|)
    ensures Apply(image, [a, b], e, d) == Bump(Bump(image, a, e, d), b, e, d)
  {
    hide Bump, Apply;
    ApplyNone(image, e, d);
    ApplyLast(image, [], a, e, d);
    ApplyLast(image, [a], b, e, d);
    assert [] + [a] == [a] && [a] + [b] == [a, b];
  }
}
