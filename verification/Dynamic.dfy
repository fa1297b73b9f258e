/** `src/dynamic.rs` and the dynamic-table writer of `src/builder.rs`. */
module Dynamic {
  import opened Arith
  import opened Bytes
  import opened Strings
  import opened Headers
  import opened Layout
  import opened FileLayout

  const DT_NULL: u64 := 0
  const DT_NEEDED: u64 := 1
  const DT_STRTAB: u64 := 5
  const DT_STRSZ: u64 := 10

  datatype DynamicEntry = DynamicEntry(tag: u64, value: u64)

  function DynSize(c: ElfClass): (n: nat)
    ensures n > 0
  {
    if c.Elf64? then 16 else 8
  }

  // ---------------------------------------------------------------- reading

  function DynRead(data: seq<u8>, at: nat, e: Endian, c: ElfClass): DynamicEntry
    requires at + DynSize(c) <= |data|
  {
    if c.Elf64? then DynamicEntry(U64(e, data[at..at + 8]), U64(e, data[at + 8..at + 16]))
    else DynamicEntry(U32(e, data[at..at + 4]), U32(e, data[at + 4..at + 8]))
  }

  /** The entries from offset `at` up to the first `DT_NULL` or the end. */
  function EntriesFrom(data: seq<u8>, at: nat, e: Endian, c: ElfClass): seq<DynamicEntry>
    decreases |data| - at
  {
    if at + DynSize(c) > |data| then []
    else
      var entry := DynRead(data, at, e, c);
      if entry.tag == DT_NULL then [] else [entry] + EntriesFrom(data, at + DynSize(c), e, c)
  }

  /** `DynamicTable::parse`. */
  function DynParsed(data: seq<u8>, e: Endian, c: ElfClass): Result<seq<DynamicEntry>> {
    if |data| % DynSize(c) != 0 then Err else Ok(EntriesFrom(data, 0, e, c))
  }

  method ParseDynamic(data: seq<u8>, e: Endian, c: ElfClass) returns (r: Result<seq<DynamicEntry>>)
    ensures r == DynParsed(data, e, c)
  {
    hide DynRead, EntriesFrom;
    if |data| % DynSize(c) != 0 {
      return Err;
    }
    var entries: seq<DynamicEntry>, at := [], 0;
    assert [] + EntriesFrom(data, 0, e, c) == EntriesFrom(data, 0, e, c);
    while at + DynSize(c) <= |data|
      invariant EntriesFrom(data, 0, e, c) == entries + EntriesFrom(data, at, e, c)
      decreases |data| - at
    {
      var entry := DynRead(data, at, e, c);
      EntriesStep(data, at, e, c);
      if entry.tag == DT_NULL {
        break;
      }
      assert entries + ([entry] + EntriesFrom(data, at + DynSize(c), e, c))
             == entries + [entry] + EntriesFrom(data, at + DynSize(c), e, c);
      entries := entries + [entry];
      at := at + DynSize(c);
    }
    EntriesStep(data, at, e, c);
    assert entries + [] == entries;
    return Ok(entries);
  }

  lemma EntriesStep(data: seq<u8>, at: nat, e: Endian, c: ElfClass)
    ensures at + DynSize(c) > |data| ==> EntriesFrom(data, at, e, c) == []
    ensures at + DynSize(c) <= |data| ==>
              EntriesFrom(data, at, e, c)
              == if DynRead(data, at, e, c).tag == DT_NULL then []
                 else [DynRead(data, at, e, c)] + EntriesFrom(data, at + DynSize(c), e, c)
  {
    hide DynRead;
  }

  /** The first value stored for a tag. */
  function Find(entries: seq<DynamicEntry>, tag: u64): Option<u64> {
    if entries == [] then None
    else if entries[0].tag == tag then Some(entries[0].value)
    else Find(entries[1..], tag)
  }

  /** The names the `DT_NEEDED` entries resolve to; entries that do not resolve are dropped. */
  function Needed(entries: seq<DynamicEntry>, table: seq<u8>): seq<seq<u8>> {
    if entries == [] then []
    else
      var name := TableGet(table, entries[0].value);
      (if entries[0].tag == DT_NEEDED && name.Some? then [name.value] else []) + Needed(entries[1..], table)
  }

  // ---------------------------------------------------------------- writing

  function DynBytes(entry: DynamicEntry, e: Endian, c: ElfClass): (bs: seq<u8>)
    ensures |bs| == DynSize(c)
  {
    WordBytes(c, e, entry.tag) + WordBytes(c, e, entry.value)
  }

  function DynParts(entries: seq<DynamicEntry>, e: Endian, c: ElfClass): (parts: seq<seq<u8>>)
    ensures |parts| == |entries| && forall i :: 0 <= i < |parts| ==> parts[i] == DynBytes(entries[i], e, c)
  {
    seq(|entries|, i requires 0 <= i < |entries| => DynBytes(entries[i], e, c))
  }

  /** One `DT_NEEDED` entry per name, at the name's offset in the string blob. */
  function NeededEntries(names: seq<seq<u8>>): (r: seq<DynamicEntry>)
    ensures |r| == |names|
    ensures forall i :: 0 <= i < |r| ==> r[i] == DynamicEntry(DT_NEEDED, Sat(NameOffset(names, i)))
  {
    seq(|names|, i requires 0 <= i < |names| => DynamicEntry(DT_NEEDED, Sat(NameOffset(names, i))))
  }

  /** The table the builder emits: the needed names, a placeholder, the blob's size, and the terminator. */
  function EmittedEntries(names: seq<seq<u8>>): seq<DynamicEntry> {
    NeededEntries(names)
    + [DynamicEntry(DT_STRTAB, 0), DynamicEntry(DT_STRSZ, Sat(|Blob(names)|)), DynamicEntry(DT_NULL, 0)]
  }

  /** The string blob and the table, built as the source builds them: offsets are recorded while the blob grows. */
  method EmitDynamic(names: seq<seq<u8>>, e: Endian, c: ElfClass) returns (dynstr: seq<u8>, data: seq<u8>)
    ensures dynstr == Blob(names) && data == Flat(DynParts(EmittedEntries(names), e, c))
  {
    hide DynBytes, Flat, Blob, NameOffset;
    var offsets: seq<u64>;
    dynstr, offsets := CollectNames(names);
    ghost var parts := DynParts(EmittedEntries(names), e, c);
    FlatEnds(parts);
    data := [];
    for i := 0 to |offsets|
      invariant data == Flat(parts[..i])
    {
      assert EmittedEntries(names)[i] == NeededEntries(names)[i];
      data := PushEntry(data, parts, i, DynamicEntry(DT_NEEDED, offsets[i]), e, c);
    }
    data := PushEntry(data, parts, |names|, DynamicEntry(DT_STRTAB, 0), e, c);
    data := PushEntry(data, parts, |names| + 1, DynamicEntry(DT_STRSZ, Sat(|dynstr|)), e, c);
    data := PushEntry(data, parts, |names| + 2, DynamicEntry(DT_NULL, 0), e, c);
  }

  /** The string blob, with each name's offset recorded while the blob grows. */
  method CollectNames(names: seq<seq<u8>>) returns (dynstr: seq<u8>, offsets: seq<u64>)
    ensures dynstr == Blob(names)
    ensures |offsets| == |names| && forall j :: 0 <= j < |names| ==> offsets[j] == Sat(NameOffset(names, j))
  {
    dynstr := [0];
    offsets := [];
    for i := 0 to |names|
      invariant dynstr == Blob(names[..i])
      invariant |offsets| == i && forall j :: 0 <= j < i ==> offsets[j] == Sat(NameOffset(names, j))
    {
      assert names[..i + 1][..i] == names[..i];
      offsets := offsets + [Sat(|dynstr|)];
      dynstr := dynstr + names[i] + [0];
    }
    assert names[..|names|] == names;
  }

  method PushEntry(data: seq<u8>, ghost parts: seq<seq<u8>>, ghost k: nat, entry: DynamicEntry, e: Endian, c: ElfClass)
    returns (r: seq<u8>)
    requires k < |parts| && parts[k] == DynBytes(entry, e, c) && data == Flat(parts[..k])
    ensures r == Flat(parts[..k + 1])
    ensures k + 1 == |parts| ==> r == Flat(parts)
  {
    hide DynBytes, Flat;
    FlatNext(parts, k);
    FlatEnds(parts);
    r := data + DynBytes(entry, e, c);
  }

  // ---------------------------------------------------------------- the round trip

  /** An entry as a table of class `c` keeps it. */
  function KeptDyn(c: ElfClass, entry: DynamicEntry): DynamicEntry {
    DynamicEntry(Stored(c, entry.tag), Stored(c, entry.value))
  }

  function KeptDyns(c: ElfClass, entries: seq<DynamicEntry>): (r: seq<DynamicEntry>)
    ensures |r| == |entries| && forall i :: 0 <= i < |r| ==> r[i] == KeptDyn(c, entries[i])
  {
    seq(|entries|, i requires 0 <= i < |entries| => KeptDyn(c, entries[i]))
  }

  lemma DynEntryReads(data: seq<u8>, at: nat, entry: DynamicEntry, e: Endian, c: ElfClass)
    requires At(data, at, DynBytes(entry, e, c))
    ensures DynRead(data, at, e, c) == KeptDyn(c, entry)
  {
    hide Enc, Dec, U32, U64, U32Bytes, U64Bytes;
    AtFields(data);
  }

  /** Reading a written table from entry `i` on, up to its terminator. */
  lemma {:induction false} DynReadsFrom(entries: seq<DynamicEntry>, i: nat, e: Endian, c: ElfClass, data: seq<u8>)
    requires data == Flat(DynParts(entries, e, c)) && i < |entries|
    requires entries[|entries| - 1].tag == DT_NULL
    requires forall j :: 0 <= j < |entries| - 1 ==> Stored(c, entries[j].tag) != DT_NULL
    ensures i * DynSize(c) >= 0
    ensures EntriesFrom(data, i * DynSize(c), e, c) == KeptDyns(c, entries)[i..|entries| - 1]
    decreases |entries| - i
  {
    hide DynBytes, DynRead, At, Flat;
    var size, parts := DynSize(c), DynParts(entries, e, c);
    FlatHolds(parts, size);
    MulNonNeg(i, size);
    assert At(data, i * size, parts[i]);
    DynEntryReads(data, i * size, entries[i], e, c);
    InTable(i, |entries|, size);
    if i < |entries| - 1 {
      DynReadsFrom(entries, i + 1, e, c, data);
      assert (i + 1) * size == i * size + size;
      var kept := KeptDyns(c, entries);
      assert [kept[i]] + kept[i + 1..|entries| - 1] == kept[i..|entries| - 1];
    }
  }

  lemma InTable(i: nat, n: nat, size: nat)
    requires i < n
    ensures i * size >= 0 && i * size + size <= n * size
  {
    MulNonNeg(i, size);
    MulMono(size, i + 1, n);
    assert (i + 1) * size == i * size + size;
  }

  /** The emitted table parses to its entries without the terminator. */
  lemma EmittedParses(names: seq<seq<u8>>, e: Endian, c: ElfClass)
    ensures var entries := EmittedEntries(names);
            DynParsed(Flat(DynParts(entries, e, c)), e, c) == Ok(KeptDyns(c, entries)[..|entries| - 1])
  {
    hide DynBytes, EntriesFrom, Flat, NeededEntries, Blob;
    var entries := EmittedEntries(names);
    var data := Flat(DynParts(entries, e, c));
    FlatHolds(DynParts(entries, e, c), DynSize(c));
    ModIs(|data|, DynSize(c), |entries|, 0);
    forall j | 0 <= j < |entries| - 1 ensures Stored(c, entries[j].tag) != DT_NULL {
      assert entries[j].tag in {DT_NEEDED, DT_STRTAB, DT_STRSZ};
    }
    DynReadsFrom(entries, 0, e, c, data);
    assert 0 * DynSize(c) == 0;
  }

  /** Names as a reader sees them. */
  function CStrs(names: seq<seq<u8>>): (r: seq<seq<u8>>)
    ensures |r| == |names| && forall i :: 0 <= i < |r| ==> r[i] == CStr(names[i])
  {
    seq(|names|, i requires 0 <= i < |names| => CStr(names[i]))
  }

  /** The needed names of entries `i..` of an emitted table. */
  lemma {:induction false} NeededFrom(names: seq<seq<u8>>, entries: seq<DynamicEntry>, i: nat)
    requires |entries| == |names| + 2 && i <= |names|
    requires forall j :: 0 <= j < |names| ==> ValidUtf8(names[j])
    requires forall j :: 0 <= j < |names| ==> entries[j].tag == DT_NEEDED && entries[j].value == NameOffset(names, j)
    requires entries[|names|].tag != DT_NEEDED && entries[|names| + 1].tag != DT_NEEDED
    ensures Needed(entries[i..], Blob(names)) == CStrs(names)[i..]
    decreases |names| - i
  {
    hide TableGet, Blob, CStr, ValidUtf8, NameOffset;
    if i < |names| {
      BlobResolves(names, i);
      NeededFrom(names, entries, i + 1);
      assert entries[i..][1..] == entries[i + 1..];
      assert [CStrs(names)[i]] + CStrs(names)[i + 1..] == CStrs(names)[i..];
    } else {
      assert entries[i..][1..] == entries[i + 1..] && entries[i + 1..][1..] == [];
      assert Needed(entries[i + 1..], Blob(names)) == [];
    }
  }

  lemma NeededEntryKept(names: seq<seq<u8>>, c: ElfClass, j: nat)
    requires j < |names| && |Blob(names)| <= if c.Elf32? then TWO_32 else TWO_64
    ensures var kept := KeptDyns(c, EmittedEntries(names))[j];
            kept.tag == DT_NEEDED && kept.value == NameOffset(names, j)
  {
    hide Blob, NameOffset;
    BlobAt(names, j);
    assert EmittedEntries(names)[j] == NeededEntries(names)[j];
  }

  /**
   * The dynamic strings round trip: parsing the emitted table and resolving its `DT_NEEDED` entries through the
   * emitted strings yields the names in order, cut at their first NUL, in both classes and byte orders.
   */
  lemma NeededRoundTrip(names: seq<seq<u8>>, e: Endian, c: ElfClass)
    requires forall j :: 0 <= j < |names| ==> ValidUtf8(names[j])
    requires |Blob(names)| <= if c.Elf32? then TWO_32 else TWO_64
    ensures var entries := DynParsed(Flat(DynParts(EmittedEntries(names), e, c)), e, c);
            entries.Ok? && Needed(entries.value, Blob(names)) == CStrs(names)
  {
    hide DynParsed, Blob, ValidUtf8, Flat, NameOffset, Needed, NeededEntries, DynParts, CStrs;
    EmittedParses(names, e, c);
    var all := EmittedEntries(names);
    var kept := KeptDyns(c, all)[..|all| - 1];
    forall j | 0 <= j < |names| ensures kept[j].tag == DT_NEEDED && kept[j].value == NameOffset(names, j) {
      NeededEntryKept(names, c, j);
    }
    assert kept[|names|].tag == DT_STRTAB && kept[|names| + 1].tag == DT_STRSZ;
    NeededFrom(names, kept, 0);
    assert kept[0..] == kept && CStrs(names)[0..] == CStrs(names) && |CStrs(names)| == |names|;
  }

  /** The list is returned unchanged if and only if no name contains a NUL. */
  lemma NamesKept(names: seq<seq<u8>>)
    ensures CStrs(names) == names <==> forall i :: 0 <= i < |names| ==> NulFree(names[i])
  {
    hide CStr, NulFree;
    forall i | 0 <= i < |names| ensures CStrs(names)[i] == names[i] <==> NulFree(names[i]) {
      CStrIsName(names[i]);
    }
    if forall i :: 0 <= i < |names| ==> NulFree(names[i]) {
      assert CStrs(names) == names;
    }
  }

  lemma {:induction false} FindSkips(entries: seq<DynamicEntry>, i: nat, tag: u64)
    requires i < |entries| && entries[i].tag == tag && forall j :: 0 <= j < i ==> entries[j].tag != tag
    ensures Find(entries, tag) == Some(entries[i].value)
  {
    if i > 0 {
      FindSkips(entries[1..], i - 1, tag);
    }
  }

  /** The entry of the emitted table that records the blob's size, and those before it. */
  lemma EmittedTags(names: seq<seq<u8>>, c: ElfClass, j: nat)
    requires j <= |names| + 1
    ensures |EmittedEntries(names)| == |names| + 3
    ensures KeptDyns(c, EmittedEntries(names))[j].tag == DT_STRSZ <==> j == |names| + 1
    ensures j == |names| + 1 ==> KeptDyns(c, EmittedEntries(names))[j].value == Stored(c, Sat(|Blob(names)|))
  {
    hide Blob, NameOffset, Sat;
    if j < |names| {
      assert EmittedEntries(names)[j] == NeededEntries(names)[j];
    }
  }

  lemma SizeIsStored(c: ElfClass, n: nat)
    requires n < if c.Elf32? then TWO_32 else TWO_64
    ensures Stored(c, Sat(n)) == n
  {
  }

  /** `find`: the emitted table records the length of its string blob. */
  lemma BlobSizeIsFound(names: seq<seq<u8>>, e: Endian, c: ElfClass)
    requires |Blob(names)| < if c.Elf32? then TWO_32 else TWO_64
    ensures var entries := DynParsed(Flat(DynParts(EmittedEntries(names), e, c)), e, c);
            entries.Ok? && Find(entries.value, DT_STRSZ) == Some(|Blob(names)|)
  {
    hide *;
    EmittedParses(names, e, c);
    SizeIsStored(c, |Blob(names)|);
    var k := |names| + 1;
    EmittedTags(names, c, k);
    var kept := KeptDyns(c, EmittedEntries(names))[..|EmittedEntries(names)| - 1];
    forall j | 0 <= j < k ensures kept[j].tag != DT_STRSZ {
      EmittedTags(names, c, j);
    }
    FindSkips(kept, k, DT_STRSZ);
  }
}
