/** What relocation tables, notes and dynamic tables say, in bytes and numbers, whoever wrote them. */
module Records {
  import opened Arith
  import opened Bytes
  import opened Strings
  import opened Headers
  import opened Images
  import opened Reloc
  import opened Notes
  import opened Dynamic
  import opened Mapped
  import opened Inspect
  import opened Format
  import opened Selection

  // ---------------------------------------------------------------- relocation tables

  /** The two's complement reading of `v` below `modulus`. */
  function Signed(v: nat, modulus: nat): int { if v < modulus / 2 then v else v - modulus }

  /** The bytes of one entry: two words, and a third with an addend. */
  function EntryBytesOf(isRela: bool, c: ElfClass): (n: nat)
    ensures n > 0
  {
    match c
    case Elf64 => if isRela then 24 else 16
    case Elf32 => if isRela then 12 else 8
  }

  /** The entry at `at` is `en`; the addend stands in the entry or not at all. */
  ghost predicate EntryIs(data: seq<u8>, at: nat, isRela: bool, e: Endian, c: ElfClass, en: RelocationEntry) {
    && at + EntryBytesOf(isRela, c) <= |data|
    && (isRela <==> en.addend.Some?)
    && match c
       case Elf64 =>
         && en.offset == Field(data, at, 8, e) && en.symbol == Field(data, at + 8, 8, e) / 0x1_0000_0000
         && en.rType == Field(data, at + 8, 8, e) % 0x1_0000_0000
         && (isRela ==> en.addend.value == Signed(Field(data, at + 16, 8, e), 0x1_0000_0000_0000_0000))
       case Elf32 =>
         && en.offset == Field(data, at, 4, e) && en.symbol == Field(data, at + 4, 4, e) / 0x100
         && en.rType == Field(data, at + 4, 4, e) % 0x100
         && (isRela ==> en.addend.value == Signed(Field(data, at + 8, 4, e), 0x1_0000_0000))
  }

  /** The table in `data`: whole entries, one after the other. */
  ghost predicate TableIs(data: seq<u8>, isRela: bool, e: Endian, c: ElfClass, t: RelocationSection) {
    && t.isRela == isRela && |t.entries| * EntryBytesOf(isRela, c) == |data|
    && forall i :: 0 <= i < |t.entries| ==>
         i * EntryBytesOf(isRela, c) >= 0 && EntryIs(data, i * EntryBytesOf(isRela, c), isRela, e, c, t.entries[i])
  }

  lemma SmallInfo(v: nat)
    ensures v < TWO_64 ==> v / TWO_32 < TWO_32 && v / TWO_32 % TWO_32 == v / TWO_32
    ensures v < TWO_32 ==> v / 256 < TWO_32 && v / 256 % TWO_32 == v / 256 && v % 256 % TWO_32 == v % 256
    ensures v % TWO_32 % TWO_32 == v % TWO_32
  {
  }

  lemma EntryReads(data: seq<u8>, at: nat, isRela: bool, e: Endian, c: ElfClass, en: RelocationEntry)
    requires at + EntryBytesOf(isRela, c) <= |data|
    ensures ParseEntry(data, at, isRela, e, c) == Ok(en) <==> EntryIs(data, at, isRela, e, c, en)
  {
    hide Dec;
    if c.Elf64? {
      SmallInfo(Field(data, at + 8, 8, e));
    } else {
      SmallInfo(Field(data, at + 4, 4, e));
    }
  }

  lemma WholeEntries(n: nat, size: nat, length: nat)
    requires size > 0
    ensures n * size == length <==> length % size == 0 && n == length / size
  {
    if n * size == length {
      ModIs(length, size, n, 0);
    }
    Euclid(length, size);
  }

  lemma EntryInside(i: nat, n: nat, size: nat)
    requires i < n
    ensures i * size >= 0 && i * size + size <= n * size
  {
    MulNonNeg(i, size);
    MulMono(size, i + 1, n);
    assert (i + 1) * size == i * size + size;
  }

  /** Decoding a table, exactly, in both forms and both classes. */
  lemma TableExactly(data: seq<u8>, isRela: bool, e: Endian, c: ElfClass, t: RelocationSection)
    ensures TableParsed(data, isRela, e, c) == Ok(t) <==> TableIs(data, isRela, e, c, t)
  {
    hide ParseEntry, EntryIs, Collect;
    var size, n := EntryBytesOf(isRela, c), |t.entries|;
    WholeEntries(n, size, |data|);
    CollectEach(|data| / size, EntryAt(data, isRela, e, c), t.entries);
    if n * size == |data| {
      forall i | 0 <= i < n
        ensures i * size >= 0
        ensures EntryAt(data, isRela, e, c)(i) == Ok(t.entries[i])
                <==> EntryIs(data, i * size, isRela, e, c, t.entries[i])
      {
        EntryInside(i, n, size);
        EntryReads(data, i * size, isRela, e, c, t.entries[i]);
      }
    }
  }

  /** Sections of type RELA or REL. */
  function AreTables(sections: seq<Section>): nat -> bool {
    (i: nat) => i < |sections| && (sections[i].header.kind == 4 || sections[i].header.kind == 9)
  }

  /** The tables of the first `k` sections, in order. */
  ghost predicate TablesAre(img: ElfImage, k: nat, tables: seq<RelocationSection>) {
    var f := Chosen(k, AreTables(img.sections));
    && |tables| == |f|
    && forall j :: 0 <= j < |f| ==>
         && f[j] in f
         && var s := img.sections[f[j]];
            TableIs(s.data, s.header.kind == 4, img.ident.data, img.ident.cls, tables[j])
  }

  lemma {:induction false} TablesExactly(img: ElfImage, k: nat, tables: seq<RelocationSection>)
    requires k <= |img.sections|
    ensures RelocTables(img, k) == Ok(tables) <==> TablesAre(img, k, tables)
  {
    hide TableParsed, TableIs;
    var keep := AreTables(img.sections);
    if k > 0 {
      var s := img.sections[k - 1];
      if keep(k - 1) {
        if tables != [] {
          var init, last := tables[..|tables| - 1], tables[|tables| - 1];
          assert tables == init + [last];
          TablesExactly(img, k - 1, init);
          TableExactly(s.data, s.header.kind == 4, img.ident.data, img.ident.cls, last);
          TablesLast(img, k, init, last);
        }
      } else {
        TablesExactly(img, k - 1, tables);
      }
    }
  }

  lemma TablesLast(img: ElfImage, k: nat, init: seq<RelocationSection>, last: RelocationSection)
    requires 0 < k <= |img.sections| && AreTables(img.sections)(k - 1)
    ensures var s := img.sections[k - 1];
            TablesAre(img, k, init + [last])
            <==> TablesAre(img, k - 1, init)
                 && TableIs(s.data, s.header.kind == 4, img.ident.data, img.ident.cls, last)
  {
    hide TableIs;
    var keep := AreTables(img.sections);
    var f, g := Chosen(k, keep), Chosen(k - 1, keep);
    assert f == g + [k - 1];
    if TablesAre(img, k, init + [last]) {
      forall j | 0 <= j < |g|
        ensures g[j] in g
        ensures var s := img.sections[g[j]];
                TableIs(s.data, s.header.kind == 4, img.ident.data, img.ident.cls, init[j])
      {
        assert f[j] == g[j] && (init + [last])[j] == init[j];
      }
      assert f[|g|] == k - 1 && (init + [last])[|g|] == last;
    }
  }

  /** `relocations`, exactly: every RELA and REL section, in order, each decoded whole. */
  lemma RelocationsExactly(img: ElfImage, tables: seq<RelocationSection>)
    ensures Relocations(img) == Ok(tables) <==> TablesAre(img, |img.sections|, tables)
  {
    hide RelocTables, TablesAre;
    TablesExactly(img, |img.sections|, tables);
  }

  // ---------------------------------------------------------------- notes

  /** The next multiple of four. */
  function Pad4(n: nat): nat { (n + 3) / 4 * 4 }

  /** Where the descriptor of the record at `o` ends. */
  function DescriptorEnd(data: seq<u8>, o: nat, e: Endian): nat
    requires o + 12 <= |data|
  {
    o + 12 + Pad4(Field(data, o, 4, e)) + Field(data, o + 4, 4, e)
  }

  /** The record at `o` is complete, holds `note`, and the next one would start at `next`. */
  ghost predicate RecordIs(data: seq<u8>, o: nat, next: nat, note: Note, e: Endian) {
    && o + 12 <= |data| && DescriptorEnd(data, o, e) <= |data|
    && var namesz, descsz, start := Field(data, o, 4, e), Field(data, o + 4, 4, e), o + 12 + Pad4(Field(data, o, 4, e));
       && note.noteType == Field(data, o + 8, 4, e) && note.descriptor == data[start..start + descsz]
       && next == start + Pad4(descsz) && ValidUtf8(note.name) && Trimmed(data[o + 12..o + 12 + namesz], note.name)
  }

  /** The stored name without its terminator; one NUL at most is cut. */
  predicate Trimmed(stored: seq<u8>, name: seq<u8>) {
    if |stored| > 0 && stored[|stored| - 1] == 0 then name == stored[..|stored| - 1] else name == stored
  }

  lemma TrimmedIs(stored: seq<u8>, name: seq<u8>)
    ensures Trimmed(stored, name) <==> name == Unterminated(stored)
  {
  }

  /** Reading stops at `o`: what is left has no complete record. */
  ghost predicate NotesStop(data: seq<u8>, o: nat, e: Endian) {
    o <= |data| && (o + 12 > |data| || DescriptorEnd(data, o, e) > |data|)
  }

  /** Records from `offs[0]` on, each starting where the one before it ends, and then a stop. */
  ghost predicate NoteChain(data: seq<u8>, offs: seq<nat>, notes: seq<Note>, e: Endian) {
    && |offs| == |notes| + 1 && NotesStop(data, offs[|notes|], e)
    && forall i :: 0 <= i < |notes| ==> RecordIs(data, offs[i], offs[i + 1], notes[i], e)
  }

  ghost predicate NotesAt(data: seq<u8>, off: nat, notes: seq<Note>, e: Endian) {
    exists offs: seq<nat> :: NoteChain(data, offs, notes, e) && offs[0] == off
  }

  lemma PadIs(n: nat)
    ensures n + Padding4(n) == Pad4(n)
  {
  }

  /** One turn of the reading loop. */
  lemma TurnReads(data: seq<u8>, off: nat, e: Endian)
    ensures off > |data| ==> NotesFrom(data, off, e).Err?
    ensures NotesStop(data, off, e) ==> NotesFrom(data, off, e) == Ok([])
  {
    hide Dec, ValidUtf8, Padding4, Pad4, Prepend;
    if off + 12 <= |data| {
      PadIs(Field(data, off, 4, e));
    }
  }

  /** A turn that reads a record. */
  lemma RecordReads(data: seq<u8>, off: nat, next: nat, note: Note, e: Endian)
    requires RecordIs(data, off, next, note, e)
    ensures NotesFrom(data, off, e) == Prepend([note], NotesFrom(data, next, e))
  {
    hide Dec, ValidUtf8, Padding4, Pad4, Prepend, Unterminated, Trimmed;
    var namesz, descsz := Field(data, off, 4, e), Field(data, off + 4, 4, e);
    PadIs(namesz);
    PadIs(descsz);
    TrimmedIs(data[off + 12..off + 12 + namesz], note.name);
    assert NextOffset(off, namesz, descsz) == next;
  }

  /** A run that neither stops nor fails at `off` finds a complete record there, whose name is text. */
  lemma RunContinues(data: seq<u8>, off: nat, e: Endian)
    requires NotesFrom(data, off, e).Ok? && !NotesStop(data, off, e)
    ensures off + 12 <= |data| && DescriptorEnd(data, off, e) <= |data|
    ensures ValidUtf8(Unterminated(data[off + 12..off + 12 + Field(data, off, 4, e)]))
  {
    hide Dec, ValidUtf8, Padding4, Pad4, Prepend, Unterminated;
    PadIs(Field(data, off, 4, e));
  }

  /** What that record holds. */
  lemma RecordFound(data: seq<u8>, off: nat, e: Endian) returns (next: nat, note: Note)
    requires NotesFrom(data, off, e).Ok? && !NotesStop(data, off, e)
    ensures RecordIs(data, off, next, note, e)
  {
    hide Dec, ValidUtf8, Padding4, Pad4, NotesFrom, NotesStop, Unterminated, Trimmed;
    RunContinues(data, off, e);
    var namesz, descsz := Field(data, off, 4, e), Field(data, off + 4, 4, e);
    PadIs(namesz);
    var start := off + 12 + Pad4(namesz);
    var name := Unterminated(data[off + 12..off + 12 + namesz]);
    TrimmedIs(data[off + 12..off + 12 + namesz], name);
    FieldFits(data, off + 8, e);
    note := Note(name, Field(data, off + 8, 4, e), data[start..start + descsz]);
    next := start + Pad4(descsz);
  }

  lemma FieldFits(data: seq<u8>, off: nat, e: Endian)
    requires off + 4 <= |data|
    ensures Field(data, off, 4, e) < TWO_32
  {
    hide Dec;
    EncDec(e, data[off..off + 4]);
    Widths();
  }

  lemma {:induction false} NotesHaveChain(data: seq<u8>, off: nat, e: Endian)
    requires NotesFrom(data, off, e).Ok?
    ensures NotesAt(data, off, NotesFrom(data, off, e).value, e)
    decreases if off <= |data| then |data| - off else 0
  {
    hide NotesFrom, RecordIs, NotesStop;
    TurnReads(data, off, e);
    if NotesStop(data, off, e) {
      assert NoteChain(data, [off], [], e);
    } else {
      var next, note := RecordFound(data, off, e);
      NotesInside(data, off, next, note, e);
      RecordReads(data, off, next, note, e);
      NotesHaveChain(data, next, e);
      var rest := NotesFrom(data, next, e).value;
      var offs: seq<nat> :| NoteChain(data, offs, rest, e) && offs[0] == next;
      ChainGrows(data, off, note, offs, rest, e);
    }
  }

  lemma NotesInside(data: seq<u8>, off: nat, next: nat, note: Note, e: Endian)
    requires RecordIs(data, off, next, note, e)
    ensures off + 12 <= |data| && next > off
  {
    hide Dec;
  }

  lemma ChainGrows(data: seq<u8>, off: nat, note: Note, offs: seq<nat>, rest: seq<Note>, e: Endian)
    requires NoteChain(data, offs, rest, e) && RecordIs(data, off, offs[0], note, e)
    ensures NoteChain(data, [off] + offs, [note] + rest, e)
    ensures NotesAt(data, off, [note] + rest, e)
  {
    hide RecordIs, NotesStop;
    var all, notes := [off] + offs, [note] + rest;
    forall i | 0 <= i < |notes| ensures RecordIs(data, all[i], all[i + 1], notes[i], e) {
      if i > 0 {
        assert all[i] == offs[i - 1] && all[i + 1] == offs[i] && notes[i] == rest[i - 1];
      }
    }
  }

  lemma {:induction false} ChainIsRead(data: seq<u8>, offs: seq<nat>, notes: seq<Note>, e: Endian)
    requires NoteChain(data, offs, notes, e)
    ensures NotesFrom(data, offs[0], e) == Ok(notes)
    decreases |notes|
  {
    hide NotesFrom, RecordIs, NotesStop;
    TurnReads(data, offs[0], e);
    if notes != [] {
      assert NoteChain(data, offs[1..], notes[1..], e);
      ChainIsRead(data, offs[1..], notes[1..], e);
      RecordReads(data, offs[0], offs[1], notes[0], e);
      assert [notes[0]] + notes[1..] == notes;
    }
  }

  /**
   * Reading notes, exactly and for any data: the result is `notes` if and only if complete records with these notes
   * stand one after the other and no complete record follows.
   */
  lemma NotesExactly(data: seq<u8>, notes: seq<Note>, e: Endian)
    ensures NotesFrom(data, 0, e) == Ok(notes) <==> NotesAt(data, 0, notes, e)
  {
    hide NotesFrom, RecordIs, NotesStop;
    if NotesFrom(data, 0, e) == Ok(notes) {
      NotesHaveChain(data, 0, e);
    }
    if NotesAt(data, 0, notes, e) {
      var offs: seq<nat> :| NoteChain(data, offs, notes, e) && offs[0] == 0;
      ChainIsRead(data, offs, notes, e);
    }
  }

  function NoteSegmentsOf(segments: seq<Segment>): nat -> bool {
    (i: nat) => i < |segments| && segments[i].header.kind == 4
  }

  function NoteSectionsOf(sections: seq<Section>): nat -> bool {
    (i: nat) => i < |sections| && sections[i].header.kind == 7
  }

  /** The notes of several blocks, or an error when one has none. */
  function Joined(blocks: seq<seq<u8>>, e: Endian): Result<seq<Note>> {
    if blocks == [] then Ok([])
    else
      var before :- Joined(blocks[..|blocks| - 1], e);
      var last :- NotesFrom(blocks[|blocks| - 1], 0, e);
      Ok(before + last)
  }

  /** The contents of the chosen segments. */
  function SegmentBlocks(segments: seq<Segment>, k: nat): (blocks: seq<seq<u8>>)
    requires k <= |segments|
    ensures var f := Chosen(k, NoteSegmentsOf(segments));
            |blocks| == |f| && forall j :: 0 <= j < |f| ==> f[j] in f && blocks[j] == segments[f[j]].data
  {
    var f := Chosen(k, NoteSegmentsOf(segments));
    assert forall j :: 0 <= j < |f| ==> f[j] in f;
    seq(|f|, j requires 0 <= j < |f| => segments[f[j]].data)
  }

  function SectionBlocks(sections: seq<Section>, k: nat): (blocks: seq<seq<u8>>)
    requires k <= |sections|
    ensures var f := Chosen(k, NoteSectionsOf(sections));
            |blocks| == |f| && forall j :: 0 <= j < |f| ==> f[j] in f && blocks[j] == sections[f[j]].data
  {
    var f := Chosen(k, NoteSectionsOf(sections));
    assert forall j :: 0 <= j < |f| ==> f[j] in f;
    seq(|f|, j requires 0 <= j < |f| => sections[f[j]].data)
  }

  lemma JoinedLast(blocks: seq<seq<u8>>, last: seq<u8>, e: Endian)
    ensures Joined(blocks + [last], e)
            == if Joined(blocks, e).Err? || NotesFrom(last, 0, e).Err? then Err
               else Ok(Joined(blocks, e).value + NotesFrom(last, 0, e).value)
  {
    hide NotesFrom;
    assert (blocks + [last])[..|blocks|] == blocks;
  }

  lemma {:induction false} SegmentsJoined(img: ElfImage, k: nat)
    requires k <= |img.segments|
    ensures NoteSegments(img, k) == Joined(SegmentBlocks(img.segments, k), img.ident.data)
  {
    hide NotesFrom, Joined, SegmentBlocks, NoteSegments;
    SegmentBlocksStep(img.segments, k);
    NoteSegmentsStep(img, k);
    NoneJoined(img.ident.data);
    if k > 0 {
      SegmentsJoined(img, k - 1);
      JoinedLast(SegmentBlocks(img.segments, k - 1), img.segments[k - 1].data, img.ident.data);
    }
  }

  lemma NoteSegmentsStep(img: ElfImage, k: nat)
    requires k <= |img.segments|
    ensures k == 0 ==> NoteSegments(img, k) == Ok([])
    ensures k > 0 ==>
              var before, last := NoteSegments(img, k - 1), NotesFrom(img.segments[k - 1].data, 0, img.ident.data);
              NoteSegments(img, k)
              == if img.segments[k - 1].header.kind != PT_NOTE then before
                 else if before.Err? || last.Err? then Err
                 else Ok(before.value + last.value)
  {
    hide NotesFrom;
  }

  lemma SegmentBlocksStep(segments: seq<Segment>, k: nat)
    requires k <= |segments|
    ensures k == 0 ==> SegmentBlocks(segments, k) == []
    ensures k > 0 ==>
              var before := SegmentBlocks(segments, k - 1);
              SegmentBlocks(segments, k)
              == if NoteSegmentsOf(segments)(k - 1) then before + [segments[k - 1].data] else before
  {
  }

  lemma NoneJoined(e: Endian)
    ensures Joined([], e) == Ok([])
  {
  }

  lemma {:induction false} SectionsJoined(img: ElfImage, k: nat)
    requires k <= |img.sections|
    ensures NoteSections(img, k) == Joined(SectionBlocks(img.sections, k), img.ident.data)
  {
    hide NotesFrom, Joined, SectionBlocks, NoteSections;
    SectionBlocksStep(img.sections, k);
    NoteSectionsStep(img, k);
    NoneJoined(img.ident.data);
    if k > 0 {
      SectionsJoined(img, k - 1);
      JoinedLast(SectionBlocks(img.sections, k - 1), img.sections[k - 1].data, img.ident.data);
    }
  }

  lemma NoteSectionsStep(img: ElfImage, k: nat)
    requires k <= |img.sections|
    ensures k == 0 ==> NoteSections(img, k) == Ok([])
    ensures k > 0 ==>
              var before, last := NoteSections(img, k - 1), NotesFrom(img.sections[k - 1].data, 0, img.ident.data);
              NoteSections(img, k)
              == if img.sections[k - 1].header.kind != SHT_NOTE then before
                 else if before.Err? || last.Err? then Err
                 else Ok(before.value + last.value)
  {
    hide NotesFrom;
  }

  lemma SectionBlocksStep(sections: seq<Section>, k: nat)
    requires k <= |sections|
    ensures k == 0 ==> SectionBlocks(sections, k) == []
    ensures k > 0 ==>
              var before := SectionBlocks(sections, k - 1);
              SectionBlocks(sections, k)
              == if NoteSectionsOf(sections)(k - 1) then before + [sections[k - 1].data] else before
  {
  }

  /**
   * Where notes come from: the note segments when there is one, whatever the sections hold, and otherwise the note
   * sections, in order and joined.
   */
  lemma NoteSourcesAre(img: ElfImage)
    ensures NotesOf(img)
            == if exists s :: s in img.segments && s.header.kind == 4
               then Joined(SegmentBlocks(img.segments, |img.segments|), img.ident.data)
               else Joined(SectionBlocks(img.sections, |img.sections|), img.ident.data)
  {
    hide NoteSegments, NoteSections, Joined;
    SegmentsJoined(img, |img.segments|);
    SectionsJoined(img, |img.sections|);
  }

  // ---------------------------------------------------------------- dynamic tables

  /** The entry at `at`: a tag and a value. */
  ghost predicate DynIs(data: seq<u8>, at: nat, e: Endian, c: ElfClass, entry: DynamicEntry) {
    at + 2 * Word(c) <= |data| && entry.tag == Field(data, at, Word(c), e)
    && entry.value == Field(data, at + Word(c), Word(c), e)
  }

  /** Entries with a tag other than zero from `at` on, and then the end or a zero tag. */
  ghost predicate DynamicAt(data: seq<u8>, at: nat, e: Endian, c: ElfClass, entries: seq<DynamicEntry>) {
    var size := 2 * Word(c);
    && (forall i :: 0 <= i < |entries| ==> entries[i].tag != 0 && DynIs(data, at + i * size, e, c, entries[i]))
    && var end := at + |entries| * size;
       end + size > |data| || Field(data, end, Word(c), e) == 0
  }

  lemma {:induction false} EntriesExactly(data: seq<u8>, at: nat, e: Endian, c: ElfClass, entries: seq<DynamicEntry>)
    ensures EntriesFrom(data, at, e, c) == entries <==> DynamicAt(data, at, e, c, entries)
    decreases |data| - at
  {
    hide Dec, EntriesFrom;
    EntriesStep(data, at, e, c);
    var size := 2 * Word(c);
    if at + size <= |data| && Field(data, at, Word(c), e) != 0 {
      var first := DynRead(data, at, e, c);
      if entries != [] {
        EntriesExactly(data, at + size, e, c, entries[1..]);
        DynamicGrows(data, at, e, c, entries);
        assert entries == [entries[0]] + entries[1..];
      }
    } else if entries != [] {
      DynamicFirst(data, at, e, c, entries);
    }
  }

  lemma DynamicFirst(data: seq<u8>, at: nat, e: Endian, c: ElfClass, entries: seq<DynamicEntry>)
    requires entries != []
    ensures DynamicAt(data, at, e, c, entries) ==> entries[0].tag != 0 && DynIs(data, at, e, c, entries[0])
  {
    hide DynIs;
    var size := 2 * Word(c);
    assert DynamicAt(data, at, e, c, entries) ==> DynIs(data, at + 0 * size, e, c, entries[0]);
  }

  lemma DynamicGrows(data: seq<u8>, at: nat, e: Endian, c: ElfClass, entries: seq<DynamicEntry>)
    requires entries != []
    ensures DynamicAt(data, at, e, c, entries)
            <==> entries[0].tag != 0 && DynIs(data, at, e, c, entries[0])
                 && DynamicAt(data, at + 2 * Word(c), e, c, entries[1..])
  {
    hide DynIs, DynamicAt;
    if DynamicAt(data, at, e, c, entries) {
      DynamicTail(data, at, e, c, entries);
    }
    if entries[0].tag != 0 && DynIs(data, at, e, c, entries[0])
       && DynamicAt(data, at + 2 * Word(c), e, c, entries[1..]) {
      DynamicJoins(data, at, e, c, entries);
    }
  }

  /** The place of an entry seen from the next one. */
  lemma OnePlace(at: nat, i: nat, size: nat)
    requires i > 0
    ensures at + size + (i - 1) * size == at + i * size && (i - 1) * size >= 0
  {
    MulNonNeg(i - 1, size);
  }

  lemma DynamicTail(data: seq<u8>, at: nat, e: Endian, c: ElfClass, entries: seq<DynamicEntry>)
    requires entries != [] && DynamicAt(data, at, e, c, entries)
    ensures entries[0].tag != 0 && DynIs(data, at, e, c, entries[0])
    ensures DynamicAt(data, at + 2 * Word(c), e, c, entries[1..])
  {
    hide DynIs, Dec, Word;
    var size, rest := 2 * Word(c), entries[1..];
    DynamicFirst(data, at, e, c, entries);
    OnePlace(at, |entries|, size);
    forall i | 0 <= i < |rest| ensures rest[i].tag != 0 && DynIs(data, at + size + i * size, e, c, rest[i]) {
      OnePlace(at, i + 1, size);
      assert DynIs(data, at + (i + 1) * size, e, c, entries[i + 1]);
    }
  }

  lemma DynamicJoins(data: seq<u8>, at: nat, e: Endian, c: ElfClass, entries: seq<DynamicEntry>)
    requires entries != [] && entries[0].tag != 0 && DynIs(data, at, e, c, entries[0])
    requires DynamicAt(data, at + 2 * Word(c), e, c, entries[1..])
    ensures DynamicAt(data, at, e, c, entries)
  {
    hide DynIs, Dec, Word;
    var size, rest := 2 * Word(c), entries[1..];
    OnePlace(at, |entries|, size);
    forall i | 0 <= i < |entries| ensures entries[i].tag != 0 && DynIs(data, at + i * size, e, c, entries[i]) {
      if i > 0 {
        OnePlace(at, i, size);
        assert DynIs(data, at + size + (i - 1) * size, e, c, rest[i - 1]);
      } else {
        assert at + 0 * size == at;
      }
    }
  }

  /** Decoding a dynamic table, exactly: whole entries, up to the first zero tag. */
  lemma DynamicExactly(data: seq<u8>, e: Endian, c: ElfClass, entries: seq<DynamicEntry>)
    ensures DynParsed(data, e, c) == Ok(entries)
            <==> |data| % (2 * Word(c)) == 0 && DynamicAt(data, 0, e, c, entries)
  {
    hide EntriesFrom, DynamicAt;
    EntriesExactly(data, 0, e, c, entries);
  }

  /** The entries that name a library the string table has. */
  ghost function NamesLibrary(entries: seq<DynamicEntry>, table: seq<u8>): nat -> bool {
    (i: nat) => i < |entries| && entries[i].tag == 1 && exists n :: IsNameAt(table, entries[i].value, n)
  }

  ghost predicate LibrariesAre(entries: seq<DynamicEntry>, table: seq<u8>, k: nat, names: seq<seq<u8>>) {
    var f := Chosen(k, NamesLibrary(entries, table));
    && |names| == |f|
    && forall j :: 0 <= j < |f| ==> f[j] in f && IsNameAt(table, entries[f[j]].value, names[j])
  }

  lemma {:induction false} NeededSplit(xs: seq<DynamicEntry>, y: DynamicEntry, table: seq<u8>)
    ensures Needed(xs + [y], table) == Needed(xs, table) + Needed([y], table)
    decreases |xs|
  {
    hide TableGet;
    if xs == [] {
      assert xs + [y] == [y];
    } else {
      NeededSplit(xs[1..], y, table);
      assert (xs + [y])[1..] == xs[1..] + [y];
    }
  }

  lemma NeededOne(y: DynamicEntry, table: seq<u8>)
    ensures (y.tag == 1 && exists n :: IsNameAt(table, y.value, n)) <==> |Needed([y], table)| == 1
    ensures |Needed([y], table)| <= 1
    ensures |Needed([y], table)| == 1 ==> IsNameAt(table, y.value, Needed([y], table)[0])
  {
    hide TableGet, IsNameAt;
    var r := TableGet(table, y.value);
    if r.Some? {
      LookupIs(table, y.value, r.value);
    }
    forall n ensures r == Some(n) <==> IsNameAt(table, y.value, n) {
      LookupIs(table, y.value, n);
    }
    assert [y][1..] == [] && Needed([], table) == [];
  }

  lemma {:induction false} NeededIs(entries: seq<DynamicEntry>, table: seq<u8>, k: nat)
    requires k <= |entries|
    ensures LibrariesAre(entries, table, k, Needed(entries[..k], table))
  {
    hide Needed, IsNameAt;
    if k > 0 {
      NeededIs(entries, table, k - 1);
      var y := entries[k - 1];
      assert entries[..k] == entries[..k - 1] + [y];
      NeededSplit(entries[..k - 1], y, table);
      NeededOne(y, table);
      assert NamesLibrary(entries, table)(k - 1) <==> |Needed([y], table)| == 1;
    } else {
      NeededNone(table);
      assert entries[..0] == [];
    }
  }

  lemma NeededNone(table: seq<u8>)
    ensures Needed([], table) == []
  {
  }

  /** The needed names: in order, those of the entries with tag 1 whose value names a string of the table. */
  lemma NeededExactly(entries: seq<DynamicEntry>, table: seq<u8>)
    ensures LibrariesAre(entries, table, |entries|, Needed(entries, table))
  {
    hide Needed, LibrariesAre;
    NeededIs(entries, table, |entries|);
    assert entries[..|entries|] == entries;
  }

  /** Section `i` is the first with this name. */
  ghost predicate FirstNamed(sections: seq<Section>, i: nat, name: seq<u8>)
    requires i < |sections|
  {
    sections[i].name == name && forall j :: 0 <= j < i ==> sections[j].name != name
  }

  /** The names come from the first section named `.dynstr`, or from an empty table when there is none. */
  ghost predicate NamedIn(sections: seq<Section>, entries: seq<DynamicEntry>, names: seq<seq<u8>>) {
    var dynstr := Ascii(".dynstr");
    && (forall i :: 0 <= i < |sections| && FirstNamed(sections, i, dynstr) ==>
          LibrariesAre(entries, sections[i].data, |entries|, names))
    && ((forall i :: 0 <= i < |sections| ==> sections[i].name != dynstr) ==>
          LibrariesAre(entries, [], |entries|, names))
  }

  /** The first dynamic segment and the first section named `.dynstr` decide the needed libraries. */
  lemma NeededLibrariesAre(img: ElfImage, k: nat)
    requires k < |img.segments| && img.segments[k].header.kind == 2
    requires forall j :: 0 <= j < k ==> img.segments[j].header.kind != 2
    ensures NeededLibraries(img).Ok?
            <==> DynParsed(img.segments[k].data, img.ident.data, img.ident.cls).Ok?
    ensures NeededLibraries(img).Ok? ==>
              var entries := DynParsed(img.segments[k].data, img.ident.data, img.ident.cls).value;
              NamedIn(img.sections, entries, NeededLibraries(img).value)
  {
    hide DynParsed, Needed, LibrariesAre, FirstOfKind, SectionByName, Ascii;
    var first, s := FirstOfKind(img.segments, PT_DYNAMIC), SectionByName(img.sections, DYNSTR);
    assert first == Some(k);
    var parsed := DynParsed(img.segments[k].data, img.ident.data, img.ident.cls);
    if parsed.Ok? {
      NeededExactly(parsed.value, if s.Some? then img.sections[s.value].data else []);
    }
  }

  /** Without a dynamic segment no library is needed. */
  lemma NoDynamicSegment(img: ElfImage)
    requires forall j :: 0 <= j < |img.segments| ==> img.segments[j].header.kind != 2
    ensures NeededLibraries(img) == Ok([])
  {
    hide FirstOfKind;
    assert FirstOfKind(img.segments, PT_DYNAMIC) == None;
  }

  /** `tls`, exactly: the fields of the first segment of type 7. */
  lemma TlsExactly(img: ElfImage, t: TlsInfo)
    ensures TlsOf(img) == Some(t)
            <==> exists k :: && 0 <= k < |img.segments| && img.segments[k].header.kind == 7
                             && (forall j :: 0 <= j < k ==> img.segments[j].header.kind != 7)
                             && t == TlsInfo(img.segments[k].header.vaddr, img.segments[k].header.filesz,
                                             img.segments[k].header.memsz, img.segments[k].header.align)
  {
    hide FirstOfKind;
    var first := FirstOfKind(img.segments, PT_TLS);
    if first.Some? {
      assert img.segments[first.value].header.kind == 7;
    }
  }

  /** `find`, exactly: the value of the first entry with the tag. */
  lemma {:induction false} FindExactly(entries: seq<DynamicEntry>, tag: u64, v: u64)
    ensures Find(entries, tag) == Some(v)
            <==> exists i :: 0 <= i < |entries| && entries[i] == DynamicEntry(tag, v)
                             && forall j :: 0 <= j < i ==> entries[j].tag != tag
  {
    if i :| 0 <= i < |entries| && entries[i].tag == tag && forall j :: 0 <= j < i ==> entries[j].tag != tag {
      FindSkips(entries, i, tag);
      if Find(entries, tag) == Some(v) {
        assert entries[i] == DynamicEntry(tag, v);
      }
    } else {
      FindNothing(entries, tag);
    }
  }

  lemma {:induction false} FindNothing(entries: seq<DynamicEntry>, tag: u64)
    requires !exists i :: 0 <= i < |entries| && entries[i].tag == tag
                          && forall j :: 0 <= j < i ==> entries[j].tag != tag
    ensures Find(entries, tag) == None
  {
    if entries != [] {
      assert entries[0].tag != tag;
      forall i | 0 <= i < |entries| - 1 ensures entries[1..][i] == entries[i + 1] {
      }
      FindNothing(entries[1..], tag);
    }
  }
}
