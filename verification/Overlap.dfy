/** Slots that overlap without being the same: the group law holds for a pair exactly when it is compatible. */
module Overlap {
  import opened Arith
  import opened Bytes
  import opened Rebase

  // ---------------------------------------------------------------- digits of a slot

  /** Where digit `j` of a slot is stored, counted from the least significant. */
  function DigitAt(s: Slot, e: Endian, j: nat): (p: nat)
    requires j < s.width
    ensures s.at <= p < s.End()
  {
    if e.Little? then s.at + j else s.End() - 1 - j
  }

  function Ones(n: nat): (r: seq<u8>)
    ensures |r| == n && forall i :: 0 <= i < n ==> r[i] == 0xFF
  {
    seq(n, _ => 0xFF)
  }

  lemma {:induction false} ValueOfZeros(k: nat)
    ensures LeValue(Zeros(k)) == 0
  {
    if k > 0 {
      ValueOfZeros(k - 1);
      assert Zeros(k)[1..] == Zeros(k - 1);
    }
  }

  /** `m` low digits of 255 are one short of the next power. */
  lemma {:induction false} ValueOfOnes(m: nat, k: nat)
    ensures LeValue(Ones(m) + Zeros(k)) + 1 == Pow256(m)
  {
    if m == 0 {
      ValueOfZeros(k);
      assert Ones(0) + Zeros(k) == Zeros(k);
    } else {
      ValueOfOnes(m - 1, k);
      assert (Ones(m) + Zeros(k))[1..] == Ones(m - 1) + Zeros(k);
    }
  }

  lemma {:induction false} DigitsOfZero(n: nat)
    ensures LeBytes(n, 0) == Zeros(n)
  {
    if n > 0 {
      DigitsOfZero(n - 1);
    }
  }

  /** Digit `m` of the `m`-th power is one. */
  lemma {:induction false} DigitOfPower(n: nat, m: nat)
    requires m < n
    ensures LeBytes(n, Pow256(m))[m] == 1
  {
    if m > 0 {
      DigitOfPower(n - 1, m - 1);
    }
  }

  lemma DigitOfOne(n: nat, m: nat)
    requires 0 < m < n
    ensures LeBytes(n, 1)[m] == 0
  {
    DigitsOfZero(n - 1);
  }

  lemma {:induction false} PowersGrow(m: nat, n: nat)
    requires m < n
    ensures 0 < Pow256(m) < Pow256(n)
  {
    if m > 0 {
      PowersGrow(m - 1, n - 1);
    } else if n > 1 {
      PowersGrow(0, n - 1);
    }
  }

  lemma ModulusIs(s: Slot, n: nat)
    requires Inside(s, n)
    ensures Modulus(s.width) == Pow256(s.width)
  {
    Widths();
  }

  /** Storing writes the digits of the value and nothing else. */
  lemma StoredDigits(image: seq<u8>, s: Slot, e: Endian, v: nat)
    requires Inside(s, |image|)
    ensures forall j :: 0 <= j < s.width ==> Store(image, s, e, v)[DigitAt(s, e, j)] == LeBytes(s.width, v)[j]
    ensures forall p :: 0 <= p < |image| && !(s.at <= p < s.End()) ==> Store(image, s, e, v)[p] == image[p]
  {
    hide LeBytes, Reversed;
  }

  /** The slot holds `m` low digits of 255 below zeros. */
  ghost predicate Filled(image: seq<u8>, s: Slot, e: Endian, m: nat)
    requires Inside(s, |image|)
  {
    forall j :: 0 <= j < s.width ==> image[DigitAt(s, e, j)] == if j < m then 0xFF else 0
  }

  lemma FilledValue(image: seq<u8>, s: Slot, e: Endian, m: nat)
    requires Inside(s, |image|) && m <= s.width && Filled(image, s, e, m)
    ensures Stored(image, s, e) + 1 == Pow256(m)
  {
    hide LeValue, Pow256;
    var bytes := image[s.at..s.End()];
    var low := if e.Little? then bytes else Reversed(bytes);
    forall j | 0 <= j < s.width ensures low[j] == (Ones(m) + Zeros(s.width - m))[j] {
      assert image[DigitAt(s, e, j)] == if j < m then 0xFF else 0;
    }
    assert low == Ones(m) + Zeros(s.width - m);
    ValueOfOnes(m, s.width - m);
  }

  // ---------------------------------------------------------------- overlapping turns do not commute

  /** The high digits of `x` are the low digits of `y`, `k` places down. */
  predicate CarriesInto(x: Slot, y: Slot, e: Endian, k: nat) {
    x.width == y.width && 0 < k < x.width && if e.Little? then y.at == x.at + k else x.at == y.at + k
  }

  lemma SharedDigits(x: Slot, y: Slot, e: Endian, k: nat)
    requires CarriesInto(x, y, e, k)
    ensures forall j :: 0 <= j < x.width - k ==> DigitAt(y, e, j) == DigitAt(x, e, j + k)
    ensures forall j :: x.width - k <= j < x.width ==> !(x.at <= DigitAt(y, e, j) < x.End())
  {
  }

  /** Every digit of `x` is 255, and so `y` is 255 where they share digits and zero elsewhere. */
  ghost predicate Brimming(image: seq<u8>, x: Slot, y: Slot, e: Endian, k: nat)
    requires Inside(x, |image|) && Inside(y, |image|) && CarriesInto(x, y, e, k)
  {
    Filled(image, x, e, x.width) && Filled(image, y, e, x.width - k)
  }

  /** A full slot wraps to zero. */
  lemma FullWraps(image: seq<u8>, x: Slot, e: Endian)
    requires Inside(x, |image|) && Filled(image, x, e, x.width)
    ensures Bump(image, x, e, 1) == Store(image, x, e, 0)
  {
    hide Stored, Store, DigitAt, Filled;
    FilledValue(image, x, e, x.width);
    ModulusIs(x, |image|);
    ModIs(Stored(image, x, e) + 1, Modulus(x.width), 1, 0);
  }

  /** A slot whose low `m` digits are full and whose others are zero becomes the `m`-th power. */
  lemma PartCarries(image: seq<u8>, y: Slot, e: Endian, m: nat)
    requires Inside(y, |image|) && m < y.width && Filled(image, y, e, m)
    ensures Bump(image, y, e, 1) == Store(image, y, e, Pow256(m))
  {
    hide Stored, Store, DigitAt, Filled;
    FilledValue(image, y, e, m);
    ModulusIs(y, |image|);
    PowersGrow(m, y.width);
    ModIs(Stored(image, y, e) + 1, Modulus(y.width), 0, Pow256(m));
  }

  lemma ClearedDigits(image: seq<u8>, x: Slot, e: Endian)
    requires Inside(x, |image|)
    ensures var cleared := Store(image, x, e, 0);
            && (forall j :: 0 <= j < x.width ==> cleared[DigitAt(x, e, j)] == 0)
            && (forall p :: 0 <= p < |image| && !(x.at <= p < x.End()) ==> cleared[p] == image[p])
  {
    hide Store, DigitAt, LeBytes;
    StoredDigits(image, x, e, 0);
    DigitsOfZero(x.width);
  }

  /** Bumping `x` first clears what `y` shares, so `y` becomes one and its digit `width - k` zero. */
  lemma LowFirst(image: seq<u8>, x: Slot, y: Slot, e: Endian, k: nat)
    requires Inside(x, |image|) && Inside(y, |image|) && CarriesInto(x, y, e, k) && Brimming(image, x, y, e, k)
    ensures Bump(Bump(image, x, e, 1), y, e, 1)[DigitAt(y, e, x.width - k)] == 0
  {
    hide Bump, Store, LeBytes, DigitAt, Filled;
    var cleared := Store(image, x, e, 0);
    FullWraps(image, x, e);
    ClearedDigits(image, x, e);
    ClearedShare(image, cleared, x, y, e, k);
    PartCarries(cleared, y, e, 0);
    StoredDigits(cleared, y, e, 1);
    DigitOfOne(x.width, x.width - k);
  }

  lemma ClearedShare(image: seq<u8>, cleared: seq<u8>, x: Slot, y: Slot, e: Endian, k: nat)
    requires Inside(x, |image|) && Inside(y, |image|) && CarriesInto(x, y, e, k) && Brimming(image, x, y, e, k)
    requires |cleared| == |image| && forall j :: 0 <= j < x.width ==> cleared[DigitAt(x, e, j)] == 0
    requires forall p :: 0 <= p < |image| && !(x.at <= p < x.End()) ==> cleared[p] == image[p]
    ensures Filled(cleared, y, e, 0)
  {
    hide DigitAt;
    SharedDigits(x, y, e, k);
    forall j | 0 <= j < y.width ensures cleared[DigitAt(y, e, j)] == 0 {
      if j < x.width - k {
        assert DigitAt(y, e, j) == DigitAt(x, e, j + k);
      } else {
        assert image[DigitAt(y, e, j)] == 0;
      }
    }
  }

  /** Bumping `y` first carries out of what it shares, into its digit `width - k`, which `x` does not touch. */
  lemma HighFirst(image: seq<u8>, x: Slot, y: Slot, e: Endian, k: nat)
    requires Inside(x, |image|) && Inside(y, |image|) && CarriesInto(x, y, e, k) && Brimming(image, x, y, e, k)
    ensures Bump(Bump(image, y, e, 1), x, e, 1)[DigitAt(y, e, x.width - k)] == 1
  {
    hide Stored, Store, LeBytes, DigitAt, Filled;
    var w := x.width;
    PartCarries(image, y, e, w - k);
    var carried := Bump(image, y, e, 1);
    StoredDigits(image, y, e, Pow256(w - k));
    DigitOfPower(w, w - k);
    SharedDigits(x, y, e, k);
    StoredDigits(carried, x, e, (Stored(carried, x, e) + 1) % Modulus(w));
  }

  lemma TurnsDiffer(image: seq<u8>, x: Slot, y: Slot, e: Endian, k: nat)
    requires Inside(x, |image|) && Inside(y, |image|) && CarriesInto(x, y, e, k) && Brimming(image, x, y, e, k)
    ensures Bump(Bump(image, x, e, 1), y, e, 1) != Bump(Bump(image, y, e, 1), x, e, 1)
  {
    hide Bump, DigitAt, Brimming;
    LowFirst(image, x, y, e, k);
    HighFirst(image, x, y, e, k);
  }

  // ---------------------------------------------------------------- the law of a pair

  /** Undoing a rebase by one puts the two turns in the other order. */
  lemma UndoneCommutes(image: seq<u8>, a: Slot, b: Slot, e: Endian)
    requires Inside(a, |image|) && Inside(b, |image|) && AllInside([a, b], |image|)
    requires Apply(Apply(image, [a, b], e, 1), [a, b], e, TWO_64 - 1) == image
    ensures Bump(Bump(image, a, e, 1), b, e, 1) == Bump(Bump(image, b, e, 1), a, e, 1)
  {
    hide Bump, Apply;
    var moved := Bump(Bump(image, a, e, 1), b, e, 1);
    ApplyTwo(image, a, b, e, 1);
    ApplyTwo(moved, a, b, e, TWO_64 - 1);
    var back := Bump(moved, a, e, TWO_64 - 1);
    BackAndForth(back, b, e);
    BackAndForth(moved, a, e);
  }

  lemma BackAndForth(image: seq<u8>, s: Slot, e: Endian)
    requires Inside(s, |image|)
    ensures Bump(Bump(image, s, e, TWO_64 - 1), s, e, 1) == image
  {
    hide Stored, Store;
    BumpTwice(image, s, e, TWO_64 - 1, 1);
    StoreStored(image, s, e);
    ModIs(Stored(image, s, e), Modulus(s.width), 0, Stored(image, s, e));
  }

  /** On this image two rebases are one. */
  predicate ComposesAt(image: seq<u8>, slots: seq<Slot>, e: Endian, d1: u64, d2: u64)
    requires AllInside(slots, |image|)
  {
    Apply(Apply(image, slots, e, d1), slots, e, d2) == Apply(image, slots, e, (d1 + d2) % TWO_64)
  }

  /** On this image a rebase is undone by the opposite one. */
  predicate UndoneAt(image: seq<u8>, slots: seq<Slot>, e: Endian, d: u64)
    requires AllInside(slots, |image|)
  {
    Apply(Apply(image, slots, e, d), slots, e, (TWO_64 - d) % TWO_64) == image
  }

  /** Two rebases of an `n`-byte image are one, whatever the image and the deltas. */
  ghost predicate Composes(n: nat, slots: seq<Slot>, e: Endian)
    requires AllInside(slots, n)
  {
    forall image: seq<u8>, d1: u64, d2: u64 :: |image| == n ==> ComposesAt(image, slots, e, d1, d2)
  }

  /** Every rebase of an `n`-byte image is undone by the opposite one. */
  ghost predicate Undoes(n: nat, slots: seq<Slot>, e: Endian)
    requires AllInside(slots, n)
  {
    forall image: seq<u8>, d: u64 :: |image| == n ==> UndoneAt(image, slots, e, d)
  }

  /** An image on which an overlapping pair misbehaves. */
  function Brim(n: nat, x: Slot): (image: seq<u8>)
    ensures |image| == n
  {
    seq(n, p => if x.at <= p < x.End() then 0xFF else 0)
  }

  lemma BrimIsBrimming(n: nat, x: Slot, y: Slot, e: Endian, k: nat)
    requires Inside(x, n) && Inside(y, n) && CarriesInto(x, y, e, k)
    ensures Brimming(Brim(n, x), x, y, e, k)
  {
    hide DigitAt;
    SharedDigits(x, y, e, k);
    forall j | 0 <= j < y.width ensures Brim(n, x)[DigitAt(y, e, j)] == if j < x.width - k then 0xFF else 0 {
      if j < x.width - k {
        assert DigitAt(y, e, j) == DigitAt(x, e, j + k);
      }
    }
  }

  /** One of two overlapping slots carries into the other. */
  lemma OverlapCarries(a: Slot, b: Slot, e: Endian) returns (k: nat)
    requires a.width == b.width && !Compatible(a, b)
    ensures CarriesInto(a, b, e, k) || CarriesInto(b, a, e, k)
  {
    k := if a.at < b.at then b.at - a.at else a.at - b.at;
  }

  lemma OverlapCannotUndo(n: nat, a: Slot, b: Slot, e: Endian)
    requires Inside(a, n) && Inside(b, n) && a.width == b.width && !Compatible(a, b) && AllInside([a, b], n)
    ensures !Undoes(n, [a, b], e)
  {
    hide Bump, Apply, CarriesInto, Brimming, Compatible;
    var k := OverlapCarries(a, b, e);
    var (x, y) := if CarriesInto(a, b, e, k) then (a, b) else (b, a);
    var image := Brim(n, x);
    BrimIsBrimming(n, x, y, e, k);
    TurnsDiffer(image, x, y, e, k);
    OppositeOfOne();
    if UndoneAt(image, [a, b], e, 1) {
      UndoneCommutes(image, a, b, e);
    }
  }

  lemma OppositeOfOne()
    ensures (TWO_64 - 1) % TWO_64 == TWO_64 - 1
  {
  }

  lemma ComposingUndoes(n: nat, slots: seq<Slot>, e: Endian)
    requires AllInside(slots, n) && Composes(n, slots, e)
    ensures Undoes(n, slots, e)
  {
    hide Apply;
    forall image: seq<u8>, d: u64 | |image| == n ensures UndoneAt(image, slots, e, d) {
      var back: u64 := (TWO_64 - d) % TWO_64;
      assert (d + back) % TWO_64 == 0;
      assert ComposesAt(image, slots, e, d, back);
      RebaseZero(image, slots, e);
    }
  }

  lemma CompatibleComposes(n: nat, slots: seq<Slot>, e: Endian)
    requires AllInside(slots, n) && AllCompatible(slots)
    ensures Composes(n, slots, e)
  {
    hide Apply;
    forall image: seq<u8>, d1: u64, d2: u64 | |image| == n ensures ComposesAt(image, slots, e, d1, d2) {
      RebaseTwice(image, slots, e, d1, d2);
    }
  }

  /**
   * The law of a pair, exactly: for two slots of one width, in either byte order, rebases compose on every image,
   * and are undone on every image, if and only if the slots are the same or disjoint.
   */
  lemma PairLawIsExact(n: nat, a: Slot, b: Slot, e: Endian)
    requires Inside(a, n) && Inside(b, n) && a.width == b.width
    ensures AllInside([a, b], n)
    ensures Composes(n, [a, b], e) <==> Compatible(a, b)
    ensures Undoes(n, [a, b], e) <==> Compatible(a, b)
  {
    hide Composes, Undoes;
    assert AllInside([a, b], n);
    if Compatible(a, b) {
      assert AllCompatible([a, b]);
      CompatibleComposes(n, [a, b], e);
      ComposingUndoes(n, [a, b], e);
    } else {
      OverlapCannotUndo(n, a, b, e);
      if Composes(n, [a, b], e) {
        ComposingUndoes(n, [a, b], e);
      }
    }
  }

  // ---------------------------------------------------------------- longer lists

  lemma BumpBack(image: seq<u8>, s: Slot, e: Endian, d: u64)
    requires Inside(s, |image|)
    ensures Bump(Bump(image, s, e, d), s, e, (TWO_64 - d) % TWO_64) == image
  {
    hide Stored, Store;
    var back: u64 := (TWO_64 - d) % TWO_64;
    BumpTwice(image, s, e, d, back);
    assert (d + back) % TWO_64 == 0;
    StoreStored(image, s, e);
    ModIs(Stored(image, s, e), Modulus(s.width), 0, Stored(image, s, e));
  }

  lemma ApplyOne(image: seq<u8>, s: Slot, e: Endian, d: nat)
    requires Inside(s, |image|)
    ensures AllInside([s], |image|) && Apply(image, [s], e, d) == Bump(image, s, e, d)
  {
    hide Bump, Apply;
    ApplyNone(image, e, d);
    ApplyLast(image, [], s, e, d);
    assert [] + [s] == [s];
  }

  lemma ReversedLast<T>(s: seq<T>, last: T)
    ensures Reversed(s + [last]) == [last] + Reversed(s)
  {
  }

  /** Every rebase is undone by rebasing back through the slots in reverse order, whether or not they overlap. */
  lemma {:induction false} ReverseUndoes(image: seq<u8>, slots: seq<Slot>, e: Endian, d: u64)
    requires AllInside(slots, |image|)
    ensures AllInside(Reversed(slots), |image|)
    ensures Apply(Apply(image, slots, e, d), Reversed(slots), e, (TWO_64 - d) % TWO_64) == image
    decreases |slots|
  {
    hide Bump, Apply, Reversed;
    var back: u64 := (TWO_64 - d) % TWO_64;
    if slots == [] {
      ApplyNone(image, e, d);
      ApplyNone(image, e, back);
      assert Reversed(slots) == [];
    } else {
      var init, last := slots[..|slots| - 1], slots[|slots| - 1];
      assert slots == init + [last];
      var one := Apply(image, init, e, d);
      ReverseUndoes(image, init, e, d);
      ReversedLast(init, last);
      ApplyLast(image, init, last, e, d);
      ApplyOne(Bump(one, last, e, d), last, e, back);
      ApplyConcat(Bump(one, last, e, d), [last], Reversed(init), e, back);
      BumpBack(one, last, e, d);
    }
  }

  /**
   * For longer lists undoing does not need compatible slots: a list that reads the same backwards is undone on every
   * image, whether or not its slots overlap.
   */
  lemma PalindromeUndoes(n: nat, slots: seq<Slot>, e: Endian)
    requires AllInside(slots, n) && Reversed(slots) == slots
    ensures Undoes(n, slots, e)
  {
    hide Apply, Reversed;
    forall image: seq<u8>, d: u64 | |image| == n ensures UndoneAt(image, slots, e, d) {
      ReverseUndoes(image, slots, e, d);
    }
  }
}
