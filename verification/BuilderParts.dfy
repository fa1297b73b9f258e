/** The segments and sections of the image a builder returns, one by one. */
module BuilderParts {
  import opened Bytes
  import opened Strings
  import opened Headers
  import opened Images
  import opened FileLayout
  import opened Parse
  import opened RoundTrip
  import opened Notes
  import opened Dynamic
  import opened Builder
  import opened BuilderLaws
  import opened Format
  import opened Survival

  /** The result is the reparsed file. */
  lemma ResultIs(plan: Plan, n: ElfImage)
    requires TextPlan(plan) && BuilderResult(plan) == Ok(n)
    ensures Built(PlanImage(plan)).Ok? && TextNames(PlanImage(plan)) && OneIdent(PlanImage(plan))
    ensures Parsed(Built(PlanImage(plan)).value + []) == Ok(n)
  {
    hide Built, Parsed, TextPlan, TextNames, PlanSegments, PlanSections;
    PlanNames(plan);
    var b := Built(PlanImage(plan)).value;
    assert b + [] == b;
  }

  // ---------------------------------------------------------------- segments

  /** A generated segment: its type and flags, no address, all of its bytes in memory. */
  predicate Generated(s: Segment, kind: u32, flags: u32, align: u64) {
    var h := s.header;
    && h.kind == kind && h.flags == flags && h.vaddr == h.paddr == 0 && h.filesz == h.memsz == |s.data|
    && h.align == align
  }

  /** Where the notes begin among the segments. */
  function NotesStart(plan: Plan): nat { |plan.loads| + if plan.tls.Some? then 1 else 0 }

  /** The thread-local storage, the notes and the dynamic table, behind the loads. */
  ghost predicate SegmentsAre(plan: Plan, n: ElfImage) {
    var k := NotesStart(plan);
    && |n.segments| == k + |plan.notes| + (if plan.needed == [] then 0 else 1)
    && (plan.tls.Some? ==> TlsSegmentKept(plan.cls, plan.tls.value, n.segments[|plan.loads|]))
    && (forall i :: k <= i < k + |plan.notes| ==> NoteSegmentKept(plan, i - k, n.segments[i]))
    && (plan.needed != [] ==> DynamicSegmentKept(plan, n.segments[k + |plan.notes|]))
  }

  /** The dynamic segment. */
  ghost predicate DynamicSegmentKept(plan: Plan, s: Segment) {
    Generated(s, 2, 6, 8) && DynParsed(s.data, plan.endian, plan.cls) == Ok(DynamicEntries(plan))
  }

  /** The thread-local storage. */
  predicate TlsSegmentKept(c: ElfClass, t: TlsSpec, s: Segment) {
    var h := s.header;
    && s.data == t.data && h.kind == 7 && h.flags == 4 && h.vaddr == h.paddr == Cut(c, t.vaddr)
    && h.filesz == |t.data| && h.memsz == Cut(c, t.memsz) && h.align == Cut(c, t.align)
  }

  /** The segment of note `j`. */
  ghost predicate NoteSegmentKept(plan: Plan, j: nat, s: Segment)
    requires j < |plan.notes|
  {
    Generated(s, 4, 4, 4) && NotesFrom(s.data, 0, plan.endian) == Ok([plan.notes[j]])
  }

  /** One entry per needed library at its name's offset, a placeholder for the table, and the table's length. */
  function DynamicEntries(plan: Plan): seq<DynamicEntry> {
    seq(|plan.needed|, i requires 0 <= i < |plan.needed| =>
      DynamicEntry(1, Cut(plan.cls, Sat(NameOffset(plan.needed, i)))))
    + [DynamicEntry(5, 0), DynamicEntry(10, Cut(plan.cls, Sat(|Blob(plan.needed)|)))]
  }

  /** A kept segment that declares all of its data. */
  lemma WholeKept(c: ElfClass, b: seq<u8>, s: Segment, g: Segment)
    requires SegmentKept(c, b, s, g) && s.header.kind != 0 && s.header.filesz == Sat(|s.data|) && |b| <= MAX_IMAGE
    ensures g.data == s.data && g.header.filesz == |s.data| <= MAX_IMAGE && PhdrKept(c, s.header, g.header)
  {
    assert s.data[..|s.data|] == s.data;
  }

  lemma GeneratedKept(c: ElfClass, b: seq<u8>, s: Segment, g: Segment)
    requires SegmentKept(c, b, s, g) && s.header.kind != 0 && |b| <= MAX_IMAGE && s.header.align < 0x1000
    requires var h := s.header;
             h == ProgramHeader(h.kind, h.flags, 0, 0, 0, Sat(|s.data|), Sat(|s.data|), h.align)
    ensures g.data == s.data && Generated(g, s.header.kind, s.header.flags, s.header.align) && |s.data| <= MAX_IMAGE
  {
    WholeKept(c, b, s, g);
  }

  lemma FileIsShort(plan: Plan, n: ElfImage)
    requires TextPlan(plan) && BuilderResult(plan) == Ok(n)
    ensures Built(PlanImage(plan)).Ok? && |Built(PlanImage(plan)).value| <= MAX_IMAGE
  {
    hide Built, Parsed, TextNames, PlanSegments, PlanSections, FileBytes, FileEnd, TextPlan;
    ResultIs(plan, n);
    Reparsed(PlanImage(plan), []);
  }

  /** Segment `i` of the result, as the plan has it. */
  lemma SegmentOfResult(plan: Plan, n: ElfImage, i: nat)
    requires TextPlan(plan) && BuilderResult(plan) == Ok(n) && i < |PlanSegments(plan)|
    ensures Built(PlanImage(plan)).Ok? && |Built(PlanImage(plan)).value| <= MAX_IMAGE
    ensures |n.segments| == |PlanSegments(plan)|
    ensures SegmentKept(plan.cls, Built(PlanImage(plan)).value, PlanSegments(plan)[i],
                        n.segments[i])
  {
    hide Built, Parsed, TextNames, PlanSegments, PlanSections, SegmentKept, TextPlan;
    ResultIs(plan, n);
    FileIsShort(plan, n);
    SegmentOfBuilt(PlanImage(plan), [], i);
  }

  lemma NotePart(plan: Plan, j: nat)
    requires j < |plan.notes|
    ensures NotesStart(plan) + j < |PlanSegments(plan)|
    ensures PlanSegments(plan)[NotesStart(plan) + j] == NoteSegment(plan.notes[j], plan.endian)
  {
    hide NoteBytes, DynamicSegment;
  }

  lemma OtherParts(plan: Plan)
    ensures |PlanSegments(plan)| == NotesStart(plan) + |plan.notes| + if plan.needed == [] then 0 else 1
    ensures plan.tls.Some? ==> PlanSegments(plan)[|plan.loads|] == TlsSegment(plan.tls.value)
    ensures plan.needed != [] ==> PlanSegments(plan)[NotesStart(plan) + |plan.notes|] == DynamicSegment(plan)
  {
    hide NoteBytes, DynamicSegment;
  }

  lemma NoteKept(plan: Plan, n: ElfImage, j: nat)
    requires TextPlan(plan) && BuilderResult(plan) == Ok(n) && j < |plan.notes|
    ensures var i := NotesStart(plan) + j;
            i < |n.segments| && NoteSegmentKept(plan, j, n.segments[i])
            && n.segments[i].data == NoteBytes(plan.notes[j], plan.endian)
  {
    hide Built, PlanSegments, BuilderResult, NoteBytes, NotesFrom, ValidUtf8, SegmentKept, Sat;
    var i := NotesStart(plan) + j;
    NotePart(plan, j);
    SegmentOfResult(plan, n, i);
    GeneratedKept(plan.cls, Built(PlanImage(plan)).value, NoteSegment(plan.notes[j], plan.endian),
                  n.segments[i]);
    WrittenNote(plan.notes[j], plan.endian);
  }

  lemma TlsKept(plan: Plan, n: ElfImage)
    requires TextPlan(plan) && BuilderResult(plan) == Ok(n) && plan.tls.Some?
    ensures |plan.loads| < |n.segments|
    ensures TlsSegmentKept(plan.cls, plan.tls.value, n.segments[|plan.loads|])
  {
    hide Built, PlanSegments, BuilderResult, SegmentKept, Sat, Cut, TextPlan;
    OtherParts(plan);
    SegmentOfResult(plan, n, |plan.loads|);
    WholeKept(plan.cls, Built(PlanImage(plan)).value, TlsSegment(plan.tls.value),
              n.segments[|plan.loads|]);
  }

  lemma DynamicKept(plan: Plan, n: ElfImage)
    requires TextPlan(plan) && BuilderResult(plan) == Ok(n) && plan.needed != []
    ensures var i := NotesStart(plan) + |plan.notes|;
            i < |n.segments| && DynamicSegmentKept(plan, n.segments[i]) && n.segments[i].data == DynamicData(plan)
  {
    hide Built, PlanSegments, BuilderResult, DynamicData, DynParsed, SegmentKept, Sat, TextPlan, DynamicEntries;
    var i := NotesStart(plan) + |plan.notes|;
    OtherParts(plan);
    SegmentOfResult(plan, n, i);
    GeneratedKept(plan.cls, Built(PlanImage(plan)).value, DynamicSegment(plan), n.segments[i]);
    DynamicDataIs(plan);
    EmittedParses(plan.needed, plan.endian, plan.cls);
    EntriesKept(plan);
  }

  lemma EntriesKept(plan: Plan)
    ensures var all := EmittedEntries(plan.needed);
            KeptDyns(plan.cls, all)[..|all| - 1] == DynamicEntries(plan)
  {
    hide Blob, NameOffset, Sat;
    var all := EmittedEntries(plan.needed);
    forall i | 0 <= i < |plan.needed|
      ensures KeptDyns(plan.cls, all)[i] == DynamicEntry(1, Cut(plan.cls, Sat(NameOffset(plan.needed, i))))
    {
      assert all[i] == NeededEntries(plan.needed)[i];
    }
  }

  /** Every segment a builder generates comes back with its type, flags, addresses, alignment and contents. */
  lemma SegmentsOfResult(plan: Plan, n: ElfImage)
    requires TextPlan(plan) && BuilderResult(plan) == Ok(n)
    ensures SegmentsAre(plan, n)
  {
    hide PlanSegments, BuilderResult, DynamicSegmentKept, NoteSegmentKept, TlsSegmentKept, TextPlan, DynamicData,
         NoteBytes, SegmentKept, Built;
    OtherParts(plan);
    var k := NotesStart(plan);
    forall i | k <= i < k + |plan.notes| ensures i < |n.segments| && NoteSegmentKept(plan, i - k, n.segments[i]) {
      NoteKept(plan, n, i - k);
    }
    if plan.tls.Some? {
      TlsKept(plan, n);
    }
    if plan.needed != [] {
      DynamicKept(plan, n);
    }
    if |PlanSegments(plan)| > 0 {
      SegmentOfResult(plan, n, 0);
    } else {
      NoSegments(plan, n);
    }
  }

  lemma NoSegments(plan: Plan, n: ElfImage)
    requires TextPlan(plan) && BuilderResult(plan) == Ok(n) && |PlanSegments(plan)| == 0
    ensures |n.segments| == 0
  {
    hide Built, Parsed, TextNames, PlanSections, FileBytes, FileEnd, TextPlan, PlanSegments, NormalSections,
         BuiltHeader, Geometry;
    ResultIs(plan, n);
    Reparsed(PlanImage(plan), []);
  }

  // ---------------------------------------------------------------- sections

  /** A generated section: its type, flags, alignment and entry size, its name, no address, links or info. */
  ghost predicate Made(s: Section, kind: u32, flags: u64, align: u64, entsize: u64, name: seq<u8>, data: seq<u8>) {
    var h := s.header;
    && h.kind == kind && h.flags == flags && h.addr == 0 && h.size == |data| && h.link == h.info == 0
    && h.addralign == align && h.entsize == entsize && NameCut(name, s.name) && s.data == data
  }

  /** Section `i` holds the note before it in the plan, and the bytes of that note's segment. */
  ghost predicate NoteMade(plan: Plan, n: ElfImage, i: nat)
    requires 1 <= i <= |plan.notes|
  {
    && i < |n.sections| && NotesStart(plan) + i - 1 < |n.segments|
    && Made(n.sections[i], 7, 0, 4, 0, Ascii(".note.") + plan.notes[i - 1].name,
            n.segments[NotesStart(plan) + i - 1].data)
  }

  /** A null section, one section per note, the dynamic strings and table, and the relocations. */
  ghost predicate SectionsAreMade(plan: Plan, n: ElfImage) {
    var m := |plan.notes|;
    var r := 1 + m + if plan.needed == [] then 0 else 2;
    && |n.sections| == r + (if plan.relocations == [] then 0 else 1) + 1
    && Made(n.sections[0], 0, 0, 0, 0, [], [])
    && (forall i :: 1 <= i <= m ==> NoteMade(plan, n, i))
    && (plan.needed != [] ==> DynamicSectionsMade(plan, n))
    && (plan.relocations != [] ==> RelaSectionMade(plan, n, r))
    && NamesMade(n.sections[|n.sections| - 1])
  }

  /** The dynamic strings, and the section with the bytes of the dynamic segment. */
  ghost predicate DynamicSectionsMade(plan: Plan, n: ElfImage) {
    var m, k := |plan.notes|, NotesStart(plan);
    && 2 + m < |n.sections| && k + m < |n.segments|
    && Made(n.sections[1 + m], 3, 2, 1, 0, Ascii(".dynstr"), Blob(plan.needed))
    && Made(n.sections[2 + m], 6, 3, 8, 2 * Word(plan.cls), Ascii(".dynamic"), n.segments[k + m].data)
  }

  /** Section `r` is the relocation table. */
  ghost predicate RelaSectionMade(plan: Plan, n: ElfImage, r: nat) {
    && r < |n.sections|
    && Made(n.sections[r], 4, 0, 8, if plan.cls.Elf64? then 24 else 12, Ascii(".rela.dyn"), n.sections[r].data)
  }

  /** The section-name table. */
  predicate NamesMade(s: Section) { s.header.kind == 3 && NameCut(Ascii(".shstrtab"), s.name) }

  /** The sections a plan generates carry no name table, so one is appended. */
  lemma ListedPlan(plan: Plan)
    ensures |Listed(PlanSections(plan))| == |PlanSections(plan)| + 1
    ensures forall i :: 0 <= i < |PlanSections(plan)| ==> Listed(PlanSections(plan))[i] == PlanSections(plan)[i]
    ensures var s := Listed(PlanSections(plan))[|PlanSections(plan)|];
            s.header.kind == 3 && s.name == Ascii(".shstrtab")
    ensures forall i :: 0 <= i < |PlanSections(plan)| ==> !IsNames(PlanSections(plan)[i])
  {
    hide PlanSections, Ascii;
    FirstSection(plan);
    forall i | 0 <= i < |PlanSections(plan)| ensures !IsNames(PlanSections(plan)[i]) {
      PlanSectionsPlain(plan, i);
    }
  }

  lemma FirstSection(plan: Plan)
    ensures |PlanSections(plan)| > 0 && PlanSections(plan)[0] == NULL_SECTION
  {
  }

  lemma SectionOfResult(plan: Plan, n: ElfImage, i: nat)
    requires TextPlan(plan) && BuilderResult(plan) == Ok(n) && i < |Listed(PlanSections(plan))|
    ensures |n.sections| == |Listed(PlanSections(plan))|
    ensures SectionKept(plan.cls, Listed(PlanSections(plan))[i], Listed(PlanSections(plan)),
                        n.sections[i])
  {
    hide Built, Parsed, TextNames, PlanSegments, PlanSections, SectionKept, TextPlan, Listed;
    ResultIs(plan, n);
    SectionOfBuilt(PlanImage(plan), [], i);
  }

  /** A section a plan generates, in the result. */
  lemma PartMade(plan: Plan, n: ElfImage, i: nat, s: Section)
    requires TextPlan(plan) && BuilderResult(plan) == Ok(n) && i < |PlanSections(plan)| && s == PlanSections(plan)[i]
    requires var h := s.header;
             && h == SectionHeader(0, h.kind, h.flags, 0, 0, Sat(|s.data|), 0, 0, h.addralign, h.entsize)
             && h.kind != 8 && h.flags < 0x1000 && h.addralign < 0x1000 && h.entsize < 0x1000
    ensures i < |n.sections|
    ensures Made(n.sections[i], s.header.kind, s.header.flags, s.header.addralign,
                 s.header.entsize, s.name, s.data)
  {
    hide PlanSections, BuilderResult, Listed, TextPlan, IsNames, NamesLength, NameCut, Sat;
    ListedPlan(plan);
    SectionOfResult(plan, n, i);
  }

  lemma NoteSectionPart(plan: Plan, j: nat)
    requires j < |plan.notes|
    ensures 1 + j < |PlanSections(plan)| && PlanSections(plan)[1 + j] == NoteSection(plan.notes[j], plan.endian)
  {
    hide NoteBytes, DynstrSection, DynamicSection, RelaSection;
  }

  lemma OtherSectionParts(plan: Plan)
    ensures var m, s := |plan.notes|, PlanSections(plan);
            var r := 1 + m + if plan.needed == [] then 0 else 2;
            && |s| == r + (if plan.relocations == [] then 0 else 1)
            && (plan.needed != [] ==> s[1 + m] == DynstrSection(plan) && s[2 + m] == DynamicSection(plan))
            && (plan.relocations != [] ==> s[r] == RelaSection(plan))
  {
    hide NoteBytes, DynstrSection, DynamicSection, RelaSection;
  }

  lemma NotesMade(plan: Plan, n: ElfImage, j: nat)
    requires TextPlan(plan) && BuilderResult(plan) == Ok(n) && j < |plan.notes|
    ensures NoteMade(plan, n, 1 + j)
  {
    hide PlanSections, BuilderResult, NoteBytes, TextPlan, Made, NoteSegmentKept, Ascii, Sat;
    NoteSectionPart(plan, j);
    NoteKept(plan, n, j);
    PartMade(plan, n, 1 + j, NoteSection(plan.notes[j], plan.endian));
  }

  lemma DynamicMade(plan: Plan, n: ElfImage)
    requires TextPlan(plan) && BuilderResult(plan) == Ok(n) && plan.needed != []
    ensures DynamicSectionsMade(plan, n)
  {
    hide PlanSections, BuilderResult, DynamicData, TextPlan, Made, Ascii, Sat, Blob, DynamicSegmentKept;
    OtherSectionParts(plan);
    DynamicKept(plan, n);
    PartMade(plan, n, 1 + |plan.notes|, DynstrSection(plan));
    PartMade(plan, n, 2 + |plan.notes|, DynamicSection(plan));
  }

  lemma RelaMade(plan: Plan, n: ElfImage)
    requires TextPlan(plan) && BuilderResult(plan) == Ok(n) && plan.relocations != []
    ensures RelaSectionMade(plan, n, 1 + |plan.notes| + if plan.needed == [] then 0 else 2)
  {
    hide PlanSections, BuilderResult, RelaData, TextPlan, NameCut, Ascii, Sat;
    var r := 1 + |plan.notes| + if plan.needed == [] then 0 else 2;
    OtherSectionParts(plan);
    PartMade(plan, n, r, RelaSection(plan));
  }

  lemma EndsMade(plan: Plan, n: ElfImage)
    requires TextPlan(plan) && BuilderResult(plan) == Ok(n)
    ensures |n.sections| == |PlanSections(plan)| + 1
    ensures Made(n.sections[0], 0, 0, 0, 0, [], []) && NamesMade(n.sections[|n.sections| - 1])
  {
    hide PlanSections, BuilderResult, Listed, TextPlan, NamesLength, NameCut, Ascii;
    FirstSection(plan);
    PartMade(plan, n, 0, NULL_SECTION);
    ListedPlan(plan);
    SectionOfResult(plan, n, |PlanSections(plan)|);
  }

  /** Every section a builder generates comes back with its type, flags, alignment, entry size, name and contents. */
  lemma SectionsOfResult(plan: Plan, n: ElfImage)
    requires TextPlan(plan) && BuilderResult(plan) == Ok(n)
    ensures SectionsAreMade(plan, n)
  {
    hide PlanSections, BuilderResult, TextPlan, Made, NamesMade, NoteMade, DynamicSectionsMade, RelaSectionMade,
         SegmentsAre;
    OtherSectionParts(plan);
    EndsMade(plan, n);
    forall i | 1 <= i <= |plan.notes| ensures NoteMade(plan, n, i) {
      NotesMade(plan, n, i - 1);
    }
    if plan.needed != [] {
      DynamicMade(plan, n);
    }
    if plan.relocations != [] {
      RelaMade(plan, n);
    }
  }
}
