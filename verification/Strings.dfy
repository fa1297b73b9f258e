/** UTF-8 validity, NUL-terminated names, string tables, and the name blob that the builders write. */
module Strings {
  import opened Arith
  import opened Bytes

  /** The bytes of an ASCII literal. */
  function Ascii(s: string): (bs: seq<u8>)
    requires forall i :: 0 <= i < |s| ==> s[i] as int < 0x80
    ensures |bs| == |s| && forall i :: 0 <= i < |s| ==> bs[i] == s[i] as int
  {
    seq(|s|, i requires 0 <= i < |s| => s[i] as int)
  }

  const SHSTRTAB: seq<u8> := Ascii(".shstrtab")
  const DYNSTR: seq<u8> := Ascii(".dynstr")
  const DYNAMIC: seq<u8> := Ascii(".dynamic")
  const RELA_DYN: seq<u8> := Ascii(".rela.dyn")
  const NOTE_PREFIX: seq<u8> := Ascii(".note.")

  // ---------------------------------------------------------------- UTF-8

  predicate Tail(b: u8) { 0x80 <= b <= 0xBF }

  /** The length of the well-formed character at the front of `s`, or 0 when there is none. */
  function CharLen(s: seq<u8>): (n: nat)
    ensures n <= |s|
    ensures forall i :: 1 <= i < n ==> s[i] >= 0x80
    ensures n > 1 ==> s[0] >= 0x80
  {
    if |s| >= 1 && s[0] < 0x80 then 1
    else if |s| >= 2 && 0xC2 <= s[0] <= 0xDF && Tail(s[1]) then 2
    else if |s| >= 3 && 0xE0 <= s[0] <= 0xEF && Tail(s[1]) && Tail(s[2])
            && (s[0] == 0xE0 ==> s[1] >= 0xA0) && (s[0] == 0xED ==> s[1] <= 0x9F) then 3
    else if |s| >= 4 && 0xF0 <= s[0] <= 0xF4 && Tail(s[1]) && Tail(s[2]) && Tail(s[3])
            && (s[0] == 0xF0 ==> s[1] >= 0x90) && (s[0] == 0xF4 ==> s[1] <= 0x8F) then 4
    else 0
  }

  /** `core::str::from_utf8` accepts `s`. */
  predicate ValidUtf8(s: seq<u8>) {
    s == [] || (CharLen(s) > 0 && ValidUtf8(s[CharLen(s)..]))
  }

  lemma {:induction false} AsciiIsUtf8(s: seq<u8>)
    requires forall i :: 0 <= i < |s| ==> s[i] < 0x80
    ensures ValidUtf8(s)
  {
    if s != [] {
      AsciiIsUtf8(s[1..]);
    }
  }

  lemma {:induction false} Utf8Concat(a: seq<u8>, b: seq<u8>)
    requires ValidUtf8(a) && ValidUtf8(b)
    ensures ValidUtf8(a + b)
  {
    if a == [] {
      assert a + b == b;
    } else {
      var n := CharLen(a);
      assert CharLen(a + b) == n;
      assert (a + b)[n..] == a[n..] + b;
      Utf8Concat(a[n..], b);
    }
  }

  /** Cutting valid text at an ASCII byte leaves valid text. */
  lemma {:induction false} Utf8Prefix(s: seq<u8>, k: nat)
    requires ValidUtf8(s) && k < |s| && s[k] < 0x80
    ensures ValidUtf8(s[..k])
    decreases k
  {
    if k > 0 {
      var n := CharLen(s);
      assert n <= k;
      Utf8Prefix(s[n..], k - n);
      assert s[..k][n..] == s[n..][..k - n];
      assert CharLen(s[..k]) == n;
    }
  }

  /** A Unicode scalar value. */
  predicate Scalar(c: nat) { c <= 0x10FFFF && !(0xD800 <= c <= 0xDFFF) }

  /** The UTF-8 encoding of a scalar value. */
  function Utf8Of(c: nat): (bs: seq<u8>)
    requires Scalar(c)
    ensures bs != []
  {
    if c < 0x80 then [c]
    else if c < 0x800 then [0xC0 + c / 0x40, 0x80 + c % 0x40]
    else if c < 0x1_0000 then [0xE0 + c / 0x1000, 0x80 + c / 0x40 % 0x40, 0x80 + c % 0x40]
    else [0xF0 + c / 0x4_0000, 0x80 + c / 0x1000 % 0x40, 0x80 + c / 0x40 % 0x40, 0x80 + c % 0x40]
  }

  /** The scalar value that the well-formed character at the front of `s` stands for. */
  function FrontScalar(s: seq<u8>): (c: nat)
    requires CharLen(s) > 0
  {
    var lead: int := s[0];
    match CharLen(s)
    case 1 => lead
    case 2 => (lead - 0xC0) * 0x40 + Low(s[1])
    case 3 => (lead - 0xE0) * 0x1000 + Low(s[1]) * 0x40 + Low(s[2])
    case _ => (lead - 0xF0) * 0x4_0000 + Low(s[1]) * 0x1000 + Low(s[2]) * 0x40 + Low(s[3])
  }

  /** The six bits a continuation byte carries. */
  function Low(b: u8): (v: nat)
    ensures Tail(b) ==> v < 0x40 && b == 0x80 + v
  {
    b % 0x40
  }

  /** The digits of a number in base 64. */
  lemma TwoDigits(a: nat, b: nat)
    requires b < 0x40
    ensures var v := a * 0x40 + b; v / 0x40 == a && v % 0x40 == b
  {
    ModIs(a * 0x40 + b, 0x40, a, b);
  }

  lemma ThreeDigits(a: nat, b: nat, c: nat)
    requires b < 0x40 && c < 0x40
    ensures var v := a * 0x1000 + b * 0x40 + c; v / 0x1000 == a && v / 0x40 % 0x40 == b && v % 0x40 == c
  {
    var v := a * 0x1000 + b * 0x40 + c;
    ModIs(v, 0x1000, a, b * 0x40 + c);
    ModIs(v, 0x40, a * 0x40 + b, c);
    TwoDigits(a, b);
  }

  lemma FourDigits(a: nat, b: nat, c: nat, d: nat)
    requires b < 0x40 && c < 0x40 && d < 0x40
    ensures var v := a * 0x4_0000 + b * 0x1000 + c * 0x40 + d;
            v / 0x4_0000 == a && v / 0x1000 % 0x40 == b && v / 0x40 % 0x40 == c && v % 0x40 == d
  {
    var v := a * 0x4_0000 + b * 0x1000 + c * 0x40 + d;
    ModIs(v, 0x4_0000, a, b * 0x1000 + c * 0x40 + d);
    ModIs(v, 0x40, a * 0x1000 + b * 0x40 + c, d);
    ThreeDigits(a, b, c);
    ModIs(v, 0x1000, a * 0x40 + b, c * 0x40 + d);
    TwoDigits(a, b);
  }

  lemma TwoBytes(lead: u8, a: u8)
    requires 0xC2 <= lead <= 0xDF && Tail(a)
    ensures var c := (lead as int - 0xC0) * 0x40 + Low(a); Scalar(c) && Utf8Of(c) == [lead, a]
  {
    hide Low;
    TwoDigits(lead as int - 0xC0, Low(a));
  }

  lemma ThreeBytes(lead: u8, a: u8, b: u8)
    requires 0xE0 <= lead <= 0xEF && Tail(a) && Tail(b)
    requires (lead == 0xE0 ==> a >= 0xA0) && (lead == 0xED ==> a <= 0x9F)
    ensures var c := (lead as int - 0xE0) * 0x1000 + Low(a) * 0x40 + Low(b); Scalar(c) && Utf8Of(c) == [lead, a, b]
  {
    hide Low;
    ThreeDigits(lead as int - 0xE0, Low(a), Low(b));
  }

  lemma FourBytes(lead: u8, a: u8, b: u8, d: u8)
    requires 0xF0 <= lead <= 0xF4 && Tail(a) && Tail(b) && Tail(d)
    requires (lead == 0xF0 ==> a >= 0x90) && (lead == 0xF4 ==> a <= 0x8F)
    ensures var c := (lead as int - 0xF0) * 0x4_0000 + Low(a) * 0x1000 + Low(b) * 0x40 + Low(d);
            Scalar(c) && Utf8Of(c) == [lead, a, b, d]
  {
    hide Low;
    FourDigits(lead as int - 0xF0, Low(a), Low(b), Low(d));
  }

  lemma FrontIsEncoded(s: seq<u8>)
    requires CharLen(s) > 0
    ensures Scalar(FrontScalar(s)) && Utf8Of(FrontScalar(s)) == s[..CharLen(s)]
  {
    hide Low, Scalar, Utf8Of;
    match CharLen(s) {
      case 1 => OneByte(s[0]);
      case 2 => TwoBytes(s[0], s[1]);
      case 3 => ThreeBytes(s[0], s[1], s[2]);
      case _ => FourBytes(s[0], s[1], s[2], s[3]);
    }
  }

  lemma OneByte(lead: u8)
    requires lead < 0x80
    ensures Scalar(lead) && Utf8Of(lead) == [lead]
  {
  }

  lemma TwoInFront(c: nat, rest: seq<u8>)
    requires 0x80 <= c < 0x800
    ensures CharLen([0xC0 + c / 0x40, 0x80 + c % 0x40] + rest) == 2
  {
  }

  lemma ThreeInFront(c: nat, rest: seq<u8>)
    requires 0x800 <= c < 0x1_0000 && Scalar(c)
    ensures CharLen([0xE0 + c / 0x1000, 0x80 + c / 0x40 % 0x40, 0x80 + c % 0x40] + rest) == 3
  {
  }

  lemma FourInFront(c: nat, rest: seq<u8>)
    requires 0x1_0000 <= c && Scalar(c)
    ensures CharLen([0xF0 + c / 0x4_0000, 0x80 + c / 0x1000 % 0x40, 0x80 + c / 0x40 % 0x40, 0x80 + c % 0x40] + rest)
            == 4
  {
  }

  lemma EncodedIsFront(c: nat, rest: seq<u8>)
    requires Scalar(c)
    ensures CharLen(Utf8Of(c) + rest) == |Utf8Of(c)|
  {
    hide CharLen;
    if c < 0x80 {
      OneInFront(c, rest);
    } else if c < 0x800 {
      TwoInFront(c, rest);
    } else if c < 0x1_0000 {
      ThreeInFront(c, rest);
    } else {
      FourInFront(c, rest);
    }
  }

  lemma OneInFront(c: u8, rest: seq<u8>)
    requires c < 0x80
    ensures CharLen([c] + rest) == 1
  {
  }

  /** The encodings of scalar values, one after the other. */
  function Utf8All(cs: seq<nat>): seq<u8>
    requires forall i :: 0 <= i < |cs| ==> Scalar(cs[i])
  {
    if cs == [] then [] else Utf8Of(cs[0]) + Utf8All(cs[1..])
  }

  /** `s` encodes some scalar values. */
  ghost predicate IsUtf8(s: seq<u8>) {
    exists cs: seq<nat> :: (forall i :: 0 <= i < |cs| ==> Scalar(cs[i])) && s == Utf8All(cs)
  }

  lemma {:induction false} EncodedIsValid(cs: seq<nat>)
    requires forall i :: 0 <= i < |cs| ==> Scalar(cs[i])
    ensures ValidUtf8(Utf8All(cs))
  {
    hide CharLen, Utf8Of;
    if cs != [] {
      EncodedIsValid(cs[1..]);
      EncodedIsFront(cs[0], Utf8All(cs[1..]));
      assert Utf8All(cs)[|Utf8Of(cs[0])|..] == Utf8All(cs[1..]);
    }
  }

  lemma {:induction false} ValidIsEncoded(s: seq<u8>) returns (cs: seq<nat>)
    requires ValidUtf8(s)
    ensures (forall i :: 0 <= i < |cs| ==> Scalar(cs[i])) && s == Utf8All(cs)
  {
    hide CharLen, Utf8Of, FrontScalar, Scalar;
    if s == [] {
      cs := [];
    } else {
      var n, c := CharLen(s), FrontScalar(s);
      FrontIsEncoded(s);
      var rest := ValidIsEncoded(s[n..]);
      cs := [c] + rest;
      assert cs[1..] == rest;
      assert s == s[..n] + s[n..];
    }
  }

  /** The well-formedness table accepts exactly the concatenated encodings of Unicode scalar values. */
  lemma Utf8Exactly(s: seq<u8>)
    ensures ValidUtf8(s) <==> IsUtf8(s)
  {
    hide CharLen, Utf8Of, FrontScalar, Scalar, ValidUtf8, Utf8All;
    if ValidUtf8(s) {
      var cs := ValidIsEncoded(s);
    }
    if IsUtf8(s) {
      var cs: seq<nat> :| (forall i :: 0 <= i < |cs| ==> Scalar(cs[i])) && s == Utf8All(cs);
      EncodedIsValid(cs);
    }
  }

  // ---------------------------------------------------------------- NUL-terminated names

  predicate NulFree(s: seq<u8>) { forall i :: 0 <= i < |s| ==> s[i] != 0 }

  /** The position of the first NUL, or the length. */
  function NulAt(s: seq<u8>): (n: nat)
    ensures n <= |s| && NulFree(s[..n])
    ensures n < |s| ==> s[n] == 0
  {
    if s == [] || s[0] == 0 then 0 else 1 + NulAt(s[1..])
  }

  /** What a reader of a NUL-terminated name sees. */
  function CStr(s: seq<u8>): seq<u8> { s[..NulAt(s)] }

  lemma {:induction false} NulAtUnique(s: seq<u8>, n: nat)
    requires n <= |s| && NulFree(s[..n]) && (n < |s| ==> s[n] == 0)
    ensures NulAt(s) == n
  {
    if s != [] && s[0] != 0 {
      assert s[..n][1..] == s[1..][..n - 1];
      NulAtUnique(s[1..], n - 1);
    }
  }

  /** Reading a name stops exactly where the name has its first NUL. */
  lemma CStrIsName(s: seq<u8>)
    ensures CStr(s) == s <==> NulFree(s)
    ensures |CStr(s)| <= |s| && NulFree(CStr(s)) && CStr(CStr(s)) == CStr(s)
    ensures CStr(s) != s ==> |CStr(s)| < |s|
    ensures ValidUtf8(s) ==> ValidUtf8(CStr(s))
  {
    if NulFree(s) {
      NulAtUnique(s, |s|);
    } else if ValidUtf8(s) {
      Utf8Prefix(s, NulAt(s));
    }
    NulAtUnique(CStr(s), |CStr(s)|);
    if CStr(s) == s && ValidUtf8(s) && NulAt(s) < |s| {
      Utf8Prefix(s, NulAt(s));
    }
  }

  lemma AsciiIsText(s: string)
    requires forall i :: 0 <= i < |s| ==> 0 < s[i] as int < 0x80
    ensures CStr(Ascii(s)) == Ascii(s)
  {
    CStrIsName(Ascii(s));
  }

  /** `StringTable::get`. */
  function TableGet(data: seq<u8>, offset: nat): Option<seq<u8>> {
    if offset > |data| then None
    else if ValidUtf8(CStr(data[offset..])) then Some(CStr(data[offset..]))
    else None
  }

  /** The table holds the name `n` at `off`: text without NUL bytes, up to a NUL or the end of the table. */
  predicate IsNameAt(data: seq<u8>, off: nat, n: seq<u8>) {
    && off + |n| <= |data| && n == data[off..off + |n|]
    && (forall i :: 0 <= i < |n| ==> n[i] != 0)
    && (off + |n| == |data| || data[off + |n|] == 0)
    && ValidUtf8(n)
  }

  /** A lookup, exactly: at any offset of any table, shared suffixes included. */
  lemma LookupIs(data: seq<u8>, off: nat, n: seq<u8>)
    ensures TableGet(data, off) == Some(n) <==> IsNameAt(data, off, n)
  {
    hide ValidUtf8, NulAt;
    if off <= |data| {
      var rest := data[off..];
      if IsNameAt(data, off, n) {
        assert rest[..|n|] == n;
        NulAtUnique(rest, |n|);
      }
      var k := NulAt(rest);
      assert rest[..k] == data[off..off + k];
    }
  }

  // ---------------------------------------------------------------- the name blob

  /** A leading NUL, then every name with its terminator. */
  function Blob(names: seq<seq<u8>>): seq<u8> {
    if names == [] then [0]
    else Blob(names[..|names| - 1]) + names[|names| - 1] + [0]
  }

  /** The blob offset recorded for name `i`: the blob's length before the name is appended. */
  function NameOffset(names: seq<seq<u8>>, i: nat): nat
    requires i <= |names|
  {
    |Blob(names[..i])|
  }

  lemma {:induction false} BlobAt(names: seq<seq<u8>>, i: nat)
    requires i < |names|
    ensures 1 <= NameOffset(names, i) && NameOffset(names, i) + |names[i]| < |Blob(names)|
    ensures Blob(names)[NameOffset(names, i)..NameOffset(names, i) + |names[i]| + 1] == names[i] + [0]
    decreases |names|
  {
    var init := names[..|names| - 1];
    if i < |init| {
      BlobAt(init, i);
      assert init[..i] == names[..i];
      var a, b := NameOffset(names, i), NameOffset(names, i) + |names[i]| + 1;
      assert Blob(names)[a..b] == Blob(init)[a..b];
    } else {
      assert names[..i] == init;
      BlobPositive(init);
    }
  }

  lemma {:induction false} BlobPositive(names: seq<seq<u8>>)
    ensures |Blob(names)| >= 1 + |names| && Blob(names)[0] == 0
    decreases |names|
  {
    if names != [] {
      BlobPositive(names[..|names| - 1]);
    }
  }

  lemma CStrOfPrefix(s: seq<u8>, name: seq<u8>)
    requires |name| < |s| && s[..|name| + 1] == name + [0]
    ensures CStr(s) == CStr(name)
  {
    var n := NulAt(name);
    assert s[..n] == name[..n];
    assert s[n] == (name + [0])[n];
    NulAtUnique(s, n);
  }

  /** What follows a recorded offset starts with the name and its terminator. */
  lemma BlobFrom(names: seq<seq<u8>>, i: nat)
    requires i < |names|
    ensures NameOffset(names, i) <= |Blob(names)|
    ensures var rest := Blob(names)[NameOffset(names, i)..];
            |names[i]| < |rest| && rest[..|names[i]| + 1] == names[i] + [0]
  {
    hide Blob, NameOffset;
    BlobAt(names, i);
    var blob, o, n := Blob(names), NameOffset(names, i), |names[i]| + 1;
    SubSlice(blob, o, |blob|, 0, n);
    assert blob[o..|blob|] == blob[o..] && blob[o..][0..n] == blob[o..][..n];
  }

  /** Every recorded offset resolves to its own name, duplicates and empty names included. */
  lemma BlobResolves(names: seq<seq<u8>>, i: nat)
    requires i < |names| && ValidUtf8(names[i])
    ensures TableGet(Blob(names), NameOffset(names, i)) == Some(CStr(names[i]))
  {
    hide Blob, NameOffset, CStr, ValidUtf8;
    BlobFrom(names, i);
    CStrOfPrefix(Blob(names)[NameOffset(names, i)..], names[i]);
    CStrIsName(names[i]);
  }

  /** Truncating names at a NUL shortens the blob unless no name has one. */
  lemma {:induction false} BlobShrinks(names: seq<seq<u8>>, cut: seq<seq<u8>>)
    requires |cut| == |names| && forall i :: 0 <= i < |names| ==> cut[i] == CStr(names[i])
    ensures |Blob(cut)| <= |Blob(names)|
    ensures |Blob(cut)| == |Blob(names)| <==> cut == names
    decreases |names|
  {
    hide CStr;
    if names != [] {
      var k := |names| - 1;
      BlobShrinks(names[..k], cut[..k]);
      CStrIsName(names[k]);
      assert names == names[..k] + [names[k]] && cut == cut[..k] + [cut[k]];
    }
  }
}
