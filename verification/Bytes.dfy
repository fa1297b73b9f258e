/** Machine integers, byte order, failure values and the sequence operations every layout is described with. */
module Bytes {

  type u8 = x: int | 0 <= x < 0x100
  type u16 = x: int | 0 <= x < 0x1_0000
  type u32 = x: int | 0 <= x < 0x1_0000_0000
  type u64 = x: int | 0 <= x < 0x1_0000_0000_0000_0000
  type i64 = x: int | -0x8000_0000_0000_0000 <= x < 0x8000_0000_0000_0000

  const MAX_U16: u16 := 0xFFFF
  const MAX_U64: u64 := 0xFFFF_FFFF_FFFF_FFFF
  const TWO_32: nat := 0x1_0000_0000
  const TWO_64: nat := 0x1_0000_0000_0000_0000

  datatype Option<+T> = None | Some(value: T) {
    predicate IsFailure() { None? }
    function PropagateFailure<U>(): Option<U> requires None? { None }
    function Extract(): T requires Some? { value }
    function GetOr(default: T): T { if Some? then value else default }
  }

  /** The source's `Result`; what an error says is not modelled, only that it happened. */
  datatype Result<+T> = Ok(value: T) | Err {
    predicate IsFailure() { Err? }
    function PropagateFailure<U>(): Result<U> requires Err? { Err }
    function Extract(): T requires Ok? { value }
  }

  function Min(a: nat, b: nat): nat { if a <= b then a else b }

  function Max(a: nat, b: nat): nat { if a <= b then b else a }

  /** `u64::saturating_add`. */
  function SatAdd(a: nat, b: nat): u64 { Min(a + b, MAX_U64) }

  /** `u64::saturating_sub`. */
  function SatSub(a: nat, b: nat): nat { if a <= b then 0 else a - b }

  /** `low32`: truncates a field to its ELF32 width. */
  function Low32(v: nat): u32 { v % TWO_32 }

  // ---------------------------------------------------------------- byte order

  datatype Endian = Little | Big

  function Pow256(n: nat): nat { if n == 0 then 1 else 256 * Pow256(n - 1) }

  function LeBytes(n: nat, v: nat): (bs: seq<u8>)
    ensures |bs| == n
  {
    if n == 0 then [] else [v % 256] + LeBytes(n - 1, v / 256)
  }

  function LeValue(bs: seq<u8>): nat {
    if bs == [] then 0 else bs[0] + 256 * LeValue(bs[1..])
  }

  function Reversed<T>(s: seq<T>): (r: seq<T>)
    ensures |r| == |s|
    ensures forall i :: 0 <= i < |s| ==> r[i] == s[|s| - 1 - i]
  {
    if s == [] then [] else Reversed(s[1..]) + [s[0]]
  }

  /** The low `n` bytes of `v` in byte order `e`. */
  function Enc(e: Endian, n: nat, v: nat): (bs: seq<u8>)
    ensures |bs| == n
  {
    if e.Little? then LeBytes(n, v) else Reversed(LeBytes(n, v))
  }

  function Dec(e: Endian, bs: seq<u8>): nat {
    LeValue(if e.Little? then bs else Reversed(bs))
  }

  lemma {:induction false} LeValueOfBytes(n: nat, v: nat)
    requires v < Pow256(n)
    ensures LeValue(LeBytes(n, v)) == v
  {
    if n > 0 {
      LeValueOfBytes(n - 1, v / 256);
      assert LeBytes(n, v)[1..] == LeBytes(n - 1, v / 256);
    }
  }

  lemma {:induction false} LeBytesOfValue(bs: seq<u8>)
    ensures LeBytes(|bs|, LeValue(bs)) == bs
    ensures LeValue(bs) < Pow256(|bs|)
  {
    if bs != [] {
      LeBytesOfValue(bs[1..]);
    }
  }

  lemma ReversedTwice<T>(s: seq<T>)
    ensures Reversed(Reversed(s)) == s
  {
  }

  /** Decoding inverts encoding for every value the width can hold. */
  lemma DecEnc(e: Endian, n: nat, v: nat)
    requires v < Pow256(n)
    ensures Dec(e, Enc(e, n, v)) == v
  {
    LeValueOfBytes(n, v);
    ReversedTwice(LeBytes(n, v));
  }

  /** Encoding inverts decoding, so equal values mean equal bytes. */
  lemma EncDec(e: Endian, bs: seq<u8>)
    ensures Enc(e, |bs|, Dec(e, bs)) == bs
    ensures Dec(e, bs) < Pow256(|bs|)
  {
    LeBytesOfValue(if e.Little? then bs else Reversed(bs));
    ReversedTwice(bs);
  }

  /** Byte order in digits: the first byte is the lowest in one order, the last byte in the other. */
  lemma ByteOrder(bs: seq<u8>)
    ensures Dec(Little, []) == 0 && Dec(Big, []) == 0
    ensures bs != [] ==> Dec(Little, bs) == bs[0] + 256 * Dec(Little, bs[1..])
    ensures bs != [] ==> Dec(Big, bs) == 256 * Dec(Big, bs[..|bs| - 1]) + bs[|bs| - 1]
  {
    if bs != [] {
      var init := bs[..|bs| - 1];
      assert Reversed(bs)[1..] == Reversed(init);
    }
  }

  lemma Widths()
    ensures Pow256(1) == 0x100 && Pow256(2) == 0x1_0000
    ensures Pow256(4) == TWO_32 && Pow256(8) == TWO_64
  {
    assert Pow256(2) == 256 * Pow256(1);
    assert Pow256(4) == 256 * (256 * Pow256(2));
    assert Pow256(6) == 256 * (256 * Pow256(4));
    assert Pow256(8) == 256 * (256 * Pow256(6));
  }

  function U16(e: Endian, bs: seq<u8>): u16
    requires |bs| == 2
  {
    EncDec(e, bs); Widths(); Dec(e, bs)
  }

  function U32(e: Endian, bs: seq<u8>): u32
    requires |bs| == 4
  {
    EncDec(e, bs); Widths(); Dec(e, bs)
  }

  function U64(e: Endian, bs: seq<u8>): u64
    requires |bs| == 8
  {
    EncDec(e, bs); Widths(); Dec(e, bs)
  }

  function U16Bytes(e: Endian, v: u16): (bs: seq<u8>)
    ensures |bs| == 2 && U16(e, bs) == v
  {
    Widths(); DecEnc(e, 2, v); Enc(e, 2, v)
  }

  function U32Bytes(e: Endian, v: u32): (bs: seq<u8>)
    ensures |bs| == 4 && U32(e, bs) == v
  {
    Widths(); DecEnc(e, 4, v); Enc(e, 4, v)
  }

  function U64Bytes(e: Endian, v: u64): (bs: seq<u8>)
    ensures |bs| == 8 && U64(e, bs) == v
  {
    Widths(); DecEnc(e, 8, v); Enc(e, 8, v)
  }

  // ---------------------------------------------------------------- sequences

  function Zeros(n: nat): (z: seq<u8>)
    ensures |z| == n
    ensures forall i :: 0 <= i < n ==> z[i] == 0
  {
    seq(n, _ => 0)
  }

  /** The number stored in the `w` bytes at `off`. */
  function Field(s: seq<u8>, off: nat, w: nat, e: Endian): nat
    requires off + w <= |s|
  {
    Dec(e, s[off..off + w])
  }

  /** `len` bytes from `off` on, zeros past the end. */
  function BytesFrom(s: seq<u8>, off: nat, len: nat): (r: seq<u8>)
    ensures |r| == len
    ensures forall p :: 0 <= p < len ==> r[p] == if off + p < |s| then s[off + p] else 0
  {
    seq(len, p requires 0 <= p < len => if off + p < |s| then s[off + p] else 0)
  }

  /** Overwrites `s` with `d` at `at`. */
  function Patch(s: seq<u8>, at: nat, d: seq<u8>): (r: seq<u8>)
    requires at + |d| <= |s|
    ensures |r| == |s|
    ensures forall p :: 0 <= p < |s| ==> r[p] == if at <= p < at + |d| then d[p - at] else s[p]
  {
    s[..at] + d + s[at + |d|..]
  }

  /** A slice of a slice. */
  lemma SubSlice(s: seq<u8>, a: nat, b: nat, c: nat, d: nat)
    requires a <= b <= |s| && c <= d <= b - a
    ensures s[a..b][c..d] == s[a + c..a + d]
  {
    forall i | 0 <= i < d - c
      ensures s[a..b][c..d][i] == s[a + c..a + d][i]
    {
    }
  }

  /** `data` holds `w` at offset `off`. */
  predicate At(data: seq<u8>, off: nat, w: seq<u8>) {
    off + |w| <= |data| && data[off..off + |w|] == w
  }

  lemma AtConcat(data: seq<u8>, off: nat, a: seq<u8>, b: seq<u8>)
    ensures At(data, off, a + b) <==> At(data, off, a) && At(data, off + |a|, b)
  {
    if At(data, off, a + b) {
      SubSlice(data, off, off + |a + b|, 0, |a|);
      SubSlice(data, off, off + |a + b|, |a|, |a + b|);
      assert (a + b)[0..|a|] == a && (a + b)[|a|..|a + b|] == b;
    }
    if At(data, off, a) && At(data, off + |a|, b) {
      assert data[off..off + |a + b|] == data[off..off + |a|] + data[off + |a|..off + |a| + |b|];
    }
  }

  /** What is found inside a part is found in the whole. */
  lemma AtWithin(data: seq<u8>, off: nat, w: seq<u8>, o: nat, x: seq<u8>)
    requires At(data, off, w) && At(w, o, x)
    ensures At(data, off + o, x)
  {
    SubSlice(data, off, off + |w|, o, o + |x|);
  }

  /** Appending bytes moves nothing. */
  lemma AtAppend(data: seq<u8>, t: seq<u8>, off: nat, w: seq<u8>)
    requires At(data, off, w)
    ensures At(data + t, off, w)
  {
    assert (data + t)[off..off + |w|] == data[off..off + |w|];
  }

  /** Splits a record found in `data` into its fields. */
  lemma AtFields(data: seq<u8>)
    ensures forall off: nat, a: seq<u8>, b: seq<u8> {:trigger At(data, off, a + b)} ::
              At(data, off, a + b) ==> At(data, off, a) && At(data, off + |a|, b)
  {
    forall off: nat, a: seq<u8>, b: seq<u8> | At(data, off, a + b)
      ensures At(data, off, a) && At(data, off + |a|, b)
    {
      AtConcat(data, off, a, b);
    }
  }

  // ---------------------------------------------------------------- fallible lists

  /** The first `n` results of `f`, or an error when one of them is an error. */
  function Collect<T>(n: nat, f: nat -> Result<T>): (r: Result<seq<T>>)
    ensures r.Ok? ==> |r.value| == n
  {
    if n == 0 then Ok([])
    else
      var init :- Collect(n - 1, f);
      var last :- f(n - 1);
      Ok(init + [last])
  }

  lemma {:induction false} CollectStops<T>(k: nat, n: nat, f: nat -> Result<T>)
    requires k <= n && Collect(k, f).Err?
    ensures Collect(n, f).Err?
  {
    if k < n {
      CollectStops(k, n - 1, f);
    }
  }

  lemma {:induction false} CollectAll<T>(n: nat, f: nat -> Result<T>)
    ensures Collect(n, f).Ok? <==> forall i :: 0 <= i < n ==> f(i).Ok?
    ensures Collect(n, f).Ok? ==> forall i :: 0 <= i < n ==> f(i) == Ok(Collect(n, f).value[i])
  {
    if n > 0 {
      CollectAll(n - 1, f);
    }
  }

  /** `f` yields exactly `items`. */
  ghost predicate CollectIs<T>(n: nat, f: nat -> Result<T>, items: seq<T>) { Collect(n, f) == Ok(items) }

  lemma CollectOk<T>(n: nat, f: nat -> Result<T>, items: seq<T>)
    requires |items| == n && forall i :: 0 <= i < n ==> f(i) == Ok(items[i])
    ensures CollectIs(n, f, items)
  {
    CollectAll(n, f);
    assert Collect(n, f).value == items;
  }
}
