/** What a builder was told can be read back from the image it returns. */
module BuilderLaws {
  import opened Bytes
  import opened Strings
  import opened Headers
  import opened Images
  import opened Layout
  import opened FileLayout
  import opened Parse
  import opened RoundTrip
  import opened Notes
  import opened Reloc
  import opened Mapped
  import opened Dynamic
  import opened Inspect
  import opened Builder
  import opened Format
  import opened Survival
  import FixedPoint

  /** Note names and library names are Rust strings. */
  ghost predicate TextPlan(plan: Plan) {
    && (forall i :: 0 <= i < |plan.notes| ==> ValidUtf8(plan.notes[i].name))
    && (forall i :: 0 <= i < |plan.needed| ==> ValidUtf8(plan.needed[i]))
  }

  // ---------------------------------------------------------------- the serialization round trip

  lemma PlanNames(plan: Plan)
    requires TextPlan(plan)
    ensures TextNames(PlanImage(plan))
  {
    hide ValidUtf8, NoteBytes, Blob, DynamicData, RelaData, Ascii;
    AsciiIsUtf8([]);
    AsciiIsUtf8(DYNSTR);
    AsciiIsUtf8(DYNAMIC);
    AsciiIsUtf8(RELA_DYN);
    AsciiIsUtf8(NOTE_PREFIX);
    var sections := PlanSections(plan);
    forall i | 0 <= i < |sections| ensures ValidUtf8(sections[i].name) {
      if 1 <= i <= |plan.notes| {
        assert sections[i] == NoteSection(plan.notes[i - 1], plan.endian);
        Utf8Concat(NOTE_PREFIX, plan.notes[i - 1].name);
      }
    }
  }

  /** The builder fails only when the layout does, and returns the normal form of the image it assembled. */
  lemma BuilderReturnsNormal(plan: Plan)
    requires TextPlan(plan)
    ensures BuilderResult(plan)
            == if Built(PlanImage(plan)).Ok? then Ok(Normal(PlanImage(plan))) else Err
  {
    hide Built, Normal, PlanSegments, PlanSections, Parsed, TextNames, TextPlan;
    var img := PlanImage(plan);
    PlanNames(plan);
    if Built(img).Ok? {
      ParseInvertsBuild(img, []);
      assert Built(img).value + [] == Built(img).value;
    }
  }

  // ---------------------------------------------------------------- segments and sections survive

  /** The segment declares all of its data as file bytes. */
  predicate Declared(s: Segment) { s.header.filesz == Sat(|s.data|) && s.header.kind != PT_NULL }

  lemma SegmentSurvives(img: ElfImage, i: nat)
    requires Built(img).Ok? && i < |img.segments| && Declared(img.segments[i])
    ensures var s, n := img.segments[i], Normal(img).segments[i];
            && n.data == s.data && |s.data| <= MAX_IMAGE
            && n.header.kind == s.header.kind && n.header.filesz == |s.data|
            && n.header.vaddr == Stored(img.ident.cls, s.header.vaddr) && n.header.flags == s.header.flags
            && n.header.paddr == Stored(img.ident.cls, s.header.paddr)
            && n.header.memsz == Stored(img.ident.cls, s.header.memsz)
            && n.header.align == Stored(img.ident.cls, s.header.align)
  {
    hide FileBytes, FileEnd, SegStart, Cursor, Congruent, BuiltHeader, NormalSections, Geometry;
    BuiltIs(img);
    PhdrFields(img, i);
    var s := img.segments[i];
    assert s.data[..|s.data|] == s.data;
  }

  lemma PlanSegmentsDeclared(plan: Plan, i: nat)
    requires i < |PlanSegments(plan)|
    ensures Declared(PlanSegments(plan)[i])
  {
    hide NoteBytes, DynamicData, Sat;
    var segments := PlanSegments(plan);
    var p := PlainSegments(plan);
    if i < |plan.loads| {
      assert segments[i] == LoadSegment(plan.loads[i]);
    } else if |p| <= i < |p| + |plan.notes| {
      assert segments[i] == NoteSegment(plan.notes[i - |p|], plan.endian);
    }
  }

  /** Sections of a plan are neither name tables nor empty of file bytes by type. */
  predicate Plain(s: Section) { !IsShstrtab(s) && !s.header.IsNobits() }

  lemma SectionSurvives(img: ElfImage, i: nat)
    requires Built(img).Ok? && i < |img.sections| && (forall j :: 0 <= j < |img.sections| ==> Plain(img.sections[j]))
    ensures |Normal(img).sections| == |img.sections| + 1
    ensures var s, n := img.sections[i], Normal(img).sections[i];
            n.data == s.data && |s.data| <= MAX_IMAGE && n.header.kind == s.header.kind && n.name == CStr(s.name)
  {
    hide FileBytes, FileEnd, SegStart, SegEnd, Cursor, Congruent, BuiltHeader, NormalSegments, Geometry, CStr, Blob,
         NameOffset;
    BuiltIs(img);
    assert Ensured(img.sections)[i] == img.sections[i];
    SecIs(img, i);
    ShdrFields(img, i);
  }

  lemma TableAdded(img: ElfImage)
    requires img.sections != [] && (forall j :: 0 <= j < |img.sections| ==> Plain(img.sections[j]))
    ensures |Normal(img).sections| == |img.sections| + 1
    ensures var n := Normal(img).sections[|img.sections|]; n.header.kind == SHT_STRTAB && n.name == SHSTRTAB
  {
    hide Cursor, Congruent, BuiltHeader, NormalSegments, Geometry, Blob, NameOffset, CStr, Secs;
    FixedPoint.ShstrtabIsText();
    ShoffPositive(img);
    assert Ensured(img.sections)[|img.sections|] == NEW_SHSTRTAB;
    SecIs(img, 0);
    FixedPoint.KindKept(img, |img.sections|);
  }

  lemma PlanSectionsPlain(plan: Plan, i: nat)
    requires i < |PlanSections(plan)|
    ensures Plain(PlanSections(plan)[i])
  {
    hide NoteBytes, DynamicData, RelaData, Blob;
    assert DYNSTR[1] != SHSTRTAB[1];
    if 1 <= i <= |plan.notes| {
      assert PlanSections(plan)[i] == NoteSection(plan.notes[i - 1], plan.endian);
    }
  }

  predicate KeptSegment(s: Segment, n: Segment) {
    n.data == s.data && |s.data| <= MAX_IMAGE && n.header.kind == s.header.kind
  }

  predicate KeptSection(s: Section, n: Section) {
    n.data == s.data && |s.data| <= MAX_IMAGE && n.header.kind == s.header.kind && n.name == CStr(s.name)
  }

  /** The header carries what the plan says, and the identity its class, byte order and ABI. */
  ghost predicate HeaderReadsBack(plan: Plan, n: ElfImage) {
    && n.ident == n.header.ident == ElfIdent(plan.cls, plan.endian, 1, plan.osAbi, 0)
    && TypeReads(n.header.elfType, TypeNumber(plan.elfType)) && n.header.machine == plan.machine
    && n.header.version == 1 && n.header.entry == Cut(plan.cls, plan.entry) && n.header.flags == plan.flags
  }

  lemma HeaderSurvived(plan: Plan)
    requires TextPlan(plan) && Built(PlanImage(plan)).Ok?
    ensures HeaderReadsBack(plan, Normal(PlanImage(plan)))
  {
    hide Built, Parsed, Normal, TextNames, TextPlan, PlanSegments, PlanSections, TypeReads;
    var img := PlanImage(plan);
    PlanNames(plan);
    ParseInvertsBuild(img, []);
    HeaderOfBuilt(img, []);
  }

  /** What a successful build leaves of a plan's segments and sections. */
  ghost predicate Survives(plan: Plan, n: ElfImage) {
    && n.ident.cls == plan.cls && n.ident.data == plan.endian
    && |n.segments| == |PlanSegments(plan)| && |n.sections| == |PlanSections(plan)| + 1
    && (forall i :: 0 <= i < |n.segments| ==> KeptSegment(PlanSegments(plan)[i], n.segments[i]))
    && (forall i :: 0 <= i < |PlanSections(plan)| ==> KeptSection(PlanSections(plan)[i], n.sections[i]))
    && n.sections[|PlanSections(plan)|].header.kind == SHT_STRTAB && n.sections[|PlanSections(plan)|].name == SHSTRTAB
  }

  lemma PlanSegmentSurvives(plan: Plan, i: nat)
    requires Built(PlanImage(plan)).Ok? && i < |PlanSegments(plan)|
    ensures KeptSegment(PlanSegments(plan)[i], Normal(PlanImage(plan)).segments[i])
  {
    hide Built, NormalSegments, NormalSections, PlanSegments, Declared, Geometry, BuiltHeader, PlanSections;
    PlanSegmentsDeclared(plan, i);
    SegmentSurvives(PlanImage(plan), i);
  }

  lemma PlanSectionSurvives(plan: Plan, i: nat)
    requires Built(PlanImage(plan)).Ok? && i < |PlanSections(plan)|
    ensures i < |Normal(PlanImage(plan)).sections|
    ensures KeptSection(PlanSections(plan)[i], Normal(PlanImage(plan)).sections[i])
  {
    hide Built, NormalSegments, NormalSections, PlanSegments, Plain, Geometry, BuiltHeader, PlanSections, CStr;
    AllPlain(plan);
    SectionSurvives(PlanImage(plan), i);
  }

  lemma AllPlain(plan: Plan)
    ensures forall j :: 0 <= j < |PlanImage(plan).sections| ==> Plain(PlanImage(plan).sections[j])
  {
    hide Plain, PlanSections, PlanSegments;
    forall j | 0 <= j < |PlanSections(plan)| ensures Plain(PlanSections(plan)[j]) {
      PlanSectionsPlain(plan, j);
    }
  }

  lemma AllSegmentsSurvive(plan: Plan)
    requires Built(PlanImage(plan)).Ok?
    ensures var n := Normal(PlanImage(plan)).segments;
            |n| == |PlanSegments(plan)|
            && forall i :: 0 <= i < |n| ==> KeptSegment(PlanSegments(plan)[i], n[i])
  {
    hide Built, NormalSections, PlanSegments, PlanSections, Geometry, BuiltHeader, KeptSegment;
    forall i | 0 <= i < |PlanSegments(plan)|
      ensures KeptSegment(PlanSegments(plan)[i], Normal(PlanImage(plan)).segments[i])
    {
      PlanSegmentSurvives(plan, i);
    }
  }

  lemma PlanSurvives(plan: Plan)
    requires Built(PlanImage(plan)).Ok?
    ensures Survives(plan, Normal(PlanImage(plan)))
  {
    hide Built, NormalSegments, NormalSections, PlanSegments, Plain, Geometry, BuiltHeader, KeptSegment, KeptSection;
    var img := PlanImage(plan);
    AllSegmentsSurvive(plan);
    AllPlain(plan);
    TableAdded(img);
    forall i | 0 <= i < |PlanSections(plan)| ensures KeptSection(PlanSections(plan)[i], Normal(img).sections[i]) {
      PlanSectionSurvives(plan, i);
    }
  }

  // ---------------------------------------------------------------- notes

  /** A note that was written whole has sizes that fit their fields. */
  lemma WrittenNote(note: Note, e: Endian)
    requires |NoteBytes(note, e)| <= MAX_IMAGE && ValidUtf8(note.name)
    ensures NotesFrom(NoteBytes(note, e), 0, e) == Ok([note])
  {
    hide ValidUtf8, HeaderBytes, NotesFrom;
    assert Notes.Writable(note);
    NotesRoundTrip([note], e);
    assert AllNoteBytes([note], e) == NoteBytes(note, e) + [] == NoteBytes(note, e);
  }

  lemma SegmentKinds(plan: Plan, i: nat)
    requires i < |PlanSegments(plan)|
    ensures var k, p := PlanSegments(plan)[i].header.kind, |PlainSegments(plan)|;
            && (k == PT_NOTE <==> p <= i < p + |plan.notes|)
            && (k == PT_DYNAMIC <==> i == p + |plan.notes|)
            && (k == PT_TLS <==> |plan.loads| <= i < p)
    ensures |PlanSegments(plan)|
            == |PlainSegments(plan)| + |plan.notes| + if plan.needed == [] then 0 else 1
  {
    hide NoteBytes, DynamicData, Sat;
    var p := PlainSegments(plan);
    if i < |plan.loads| {
      assert PlanSegments(plan)[i] == LoadSegment(plan.loads[i]);
    } else if |p| <= i < |p| + |plan.notes| {
      assert PlanSegments(plan)[i] == NoteSegment(plan.notes[i - |p|], plan.endian);
    }
  }

  /** What segment `i` contributes to the notes. */
  lemma NoteStep(plan: Plan, n: ElfImage, i: nat)
    requires TextPlan(plan) && Survives(plan, n) && i < |n.segments|
    ensures var p := |PlainSegments(plan)|;
            if p <= i < p + |plan.notes| then
              n.segments[i].header.kind == PT_NOTE
              && NotesFrom(n.segments[i].data, 0, n.ident.data) == Ok([plan.notes[i - p]])
            else n.segments[i].header.kind != PT_NOTE
  {
    hide NoteBytes, NotesFrom, PlainSegments, PlanSections, PlanSegments, CStr, ValidUtf8;
    var p := |PlainSegments(plan)|;
    SegmentKinds(plan, i);
    if p <= i < p + |plan.notes| {
      NoteSegmentIs(plan, i - p);
      WrittenNote(plan.notes[i - p], plan.endian);
    }
  }

  /** The notes among the first `k` segments. */
  lemma {:induction false} NotesSoFar(plan: Plan, n: ElfImage, k: nat)
    requires TextPlan(plan) && Survives(plan, n) && k <= |n.segments|
    ensures var p := |PlainSegments(plan)|;
            NoteSegments(n, k) == Ok(if k <= p then [] else plan.notes[..Min(k - p, |plan.notes|)])
  {
    hide NotesFrom, PlainSegments, Survives, TextPlan;
    var p := |PlainSegments(plan)|;
    if k > 0 {
      NotesSoFar(plan, n, k - 1);
      NoteStep(plan, n, k - 1);
      if p < k <= p + |plan.notes| {
        var j := k - 1 - p;
        assert plan.notes[..j] + [plan.notes[j]] == plan.notes[..j + 1];
      }
    }
  }

  lemma NoteSegmentIs(plan: Plan, j: nat)
    requires j < |plan.notes|
    ensures |PlainSegments(plan)| + j < |PlanSegments(plan)|
    ensures PlanSegments(plan)[|PlainSegments(plan)| + j].data == NoteBytes(plan.notes[j], plan.endian)
  {
    hide NoteBytes, PlainSegments;
    var p := |PlainSegments(plan)|;
    assert PlanSegments(plan)[p + j] == NoteSegment(plan.notes[j], plan.endian);
  }

  lemma SectionKinds(plan: Plan, i: nat)
    requires i < |PlanSections(plan)|
    ensures var k := PlanSections(plan)[i].header.kind;
            && (k == SHT_NOTE <==> 1 <= i <= |plan.notes|)
            && (k == SHT_RELA <==> i == |PlainSections(plan)|) && k != SHT_REL
    ensures |PlanSections(plan)| == |PlainSections(plan)| + if plan.relocations == [] then 0 else 1
  {
    hide NoteBytes, DynamicData, RelaData, Blob;
    if 1 <= i <= |plan.notes| {
      assert PlanSections(plan)[i] == NoteSection(plan.notes[i - 1], plan.endian);
    }
  }

  lemma {:induction false} NoNoteSections(plan: Plan, n: ElfImage, k: nat)
    requires Survives(plan, n) && plan.notes == [] && k <= |n.sections|
    ensures NoteSections(n, k) == Ok([])
  {
    hide NotesFrom, PlanSections, PlanSegments, CStr;
    if k > 0 {
      NoNoteSections(plan, n, k - 1);
      if k - 1 < |PlanSections(plan)| {
        SectionKinds(plan, k - 1);
      }
    }
  }

  lemma NoteKinds(plan: Plan, n: ElfImage, i: nat)
    requires Survives(plan, n) && i < |n.segments|
    ensures n.segments[i].header.kind == PT_NOTE
            <==> |PlainSegments(plan)| <= i < |PlainSegments(plan)| + |plan.notes|
  {
    hide Survives, PlanSegments, PlainSegments;
    SurvivorCount(plan, n);
    SurvivingSegment(plan, n, i);
    SegmentKinds(plan, i);
  }

  lemma NoteSegmentExists(plan: Plan, n: ElfImage)
    requires Survives(plan, n)
    ensures HasNoteSegment(n.segments) <==> plan.notes != []
    ensures plan.notes != [] ==> |n.segments| >= |PlainSegments(plan)| + |plan.notes|
  {
    hide Survives, PlanSegments, PlainSegments;
    SurvivorCount(plan, n);
    if plan.notes != [] {
      var k := |PlainSegments(plan)|;
      NoteSegmentIs(plan, |plan.notes| - 1);
      NoteSegmentIs(plan, 0);
      NoteKinds(plan, n, k);
      assert n.segments[k].header.kind == PT_NOTE;
    }
    if i :| 0 <= i < |n.segments| && n.segments[i].header.kind == PT_NOTE {
      NoteKinds(plan, n, i);
    }
  }

  /** `notes` returns the added notes in order. */
  lemma NotesReadBack(plan: Plan, n: ElfImage)
    requires TextPlan(plan) && Survives(plan, n)
    ensures NotesOf(n) == Ok(plan.notes)
  {
    hide Survives, PlainSegments, TextPlan, NoteSegments, NoteSections, HasNoteSegment;
    NoteSegmentExists(plan, n);
    if plan.notes == [] {
      NoNoteSections(plan, n, |n.sections|);
    } else {
      NotesSoFar(plan, n, |n.segments|);
      assert plan.notes[..|plan.notes|] == plan.notes;
    }
  }

  // ---------------------------------------------------------------- needed libraries

  /** The second byte tells a note section's name from the string table's. */
  lemma NoteNameIsNotDynstr(note: Note, e: Endian)
    ensures CStr(NoteSection(note, e).name) != DYNSTR
  {
    hide NoteBytes;
    var name := NOTE_PREFIX + note.name;
    assert name[0] == '.' as int && name[1] == 'n' as int && DYNSTR[1] == 'd' as int;
    if NulAt(name) >= 2 {
      assert CStr(name)[1] == name[1];
    }
  }

  lemma NameBeforeDynstr(plan: Plan, n: ElfImage, i: nat)
    requires Survives(plan, n) && i <= |plan.notes| < |PlanSections(plan)|
    ensures i < |n.sections| && n.sections[i].name != DYNSTR
  {
    hide NoteBytes, DynamicData, RelaData, Blob, CStr, Survives, NoteSection, Ascii;
    SurvivingSection(plan, n, i);
    if i == 0 {
      CStrIsName([]);
    } else {
      assert PlanSections(plan)[i] == NoteSection(plan.notes[i - 1], plan.endian);
      NoteNameIsNotDynstr(plan.notes[i - 1], plan.endian);
    }
  }

  lemma DynstrIsNext(plan: Plan, n: ElfImage)
    requires Survives(plan, n) && plan.needed != []
    ensures 1 + |plan.notes| < |PlanSections(plan)| && 1 + |plan.notes| < |n.sections|
    ensures n.sections[1 + |plan.notes|].name == DYNSTR
    ensures n.sections[1 + |plan.notes|].data == Blob(plan.needed) && |Blob(plan.needed)| <= MAX_IMAGE
  {
    hide NoteBytes, DynamicData, RelaData, Blob, CStr, Survives, NoteSection;
    hide Ascii;
    var k := 1 + |plan.notes|;
    assert PlanSections(plan)[k] == DynstrSection(plan);
    SurvivingSection(plan, n, k);
    AsciiIsText(".dynstr");
  }

  lemma DynstrIsFound(plan: Plan, n: ElfImage)
    requires Survives(plan, n) && plan.needed != []
    ensures SectionByName(n.sections, DYNSTR) == Some(1 + |plan.notes|)
    ensures n.sections[1 + |plan.notes|].data == Blob(plan.needed) && |Blob(plan.needed)| <= MAX_IMAGE
  {
    hide *;
    DynstrIsNext(plan, n);
    forall i | 0 <= i < 1 + |plan.notes| ensures n.sections[i].name != DYNSTR {
      NameBeforeDynstr(plan, n, i);
    }
  }

  lemma SurvivingSection(plan: Plan, n: ElfImage, i: nat)
    requires Survives(plan, n) && i < |PlanSections(plan)|
    ensures i < |n.sections| && KeptSection(PlanSections(plan)[i], n.sections[i])
  {
    hide PlanSections, PlanSegments, KeptSection;
  }

  lemma SurvivingSegment(plan: Plan, n: ElfImage, i: nat)
    requires Survives(plan, n) && i < |PlanSegments(plan)|
    ensures |n.segments| == |PlanSegments(plan)| && KeptSegment(PlanSegments(plan)[i], n.segments[i])
  {
    hide PlanSections, PlanSegments, KeptSegment;
  }

  lemma DynamicIsFound(plan: Plan, n: ElfImage)
    requires Survives(plan, n)
    ensures FirstOfKind(n.segments, PT_DYNAMIC)
            == if plan.needed == [] then None else Some(|PlainSegments(plan)| + |plan.notes|)
    ensures plan.needed != [] ==>
              |PlainSegments(plan)| + |plan.notes| < |n.segments|
              && n.segments[|PlainSegments(plan)| + |plan.notes|].data == DynamicData(plan)
  {
    hide NoteBytes, DynamicData, Sat, PlainSegments, Survives, NoteSegs, PlanSections, FirstOfKind;
    var k := |PlainSegments(plan)| + |plan.notes|;
    assert |n.segments| == |PlanSegments(plan)| by { hide *; SurvivorCount(plan, n); }
    forall i | 0 <= i < |n.segments| ensures n.segments[i].header.kind == PT_DYNAMIC <==> i == k {
      SurvivingSegment(plan, n, i);
      SegmentKinds(plan, i);
    }
    if plan.needed != [] {
      SurvivingSegment(plan, n, k);
      assert PlanSegments(plan)[k] == DynamicSegment(plan);
    }
  }

  lemma SurvivorCount(plan: Plan, n: ElfImage)
    requires Survives(plan, n)
    ensures |n.segments| == |PlanSegments(plan)|
  {
    hide PlanSections, PlanSegments;
  }

  /** `needed_libraries` returns the added names in order, cut at their first NUL. */
  lemma NeededReadBack(plan: Plan, n: ElfImage)
    requires TextPlan(plan) && Survives(plan, n)
    ensures NeededLibraries(n) == Ok(CStrs(plan.needed))
  {
    hide DynamicData, PlainSegments, PlanSegments, PlanSections, FirstOfKind, SectionByName, DynParsed, Needed, Blob,
         CStr, ValidUtf8, EmittedEntries, DynParts, Flat;
    DynamicIsFound(plan, n);
    if plan.needed != [] {
      DynstrIsFound(plan, n);
      NeededRoundTrip(plan.needed, plan.endian, plan.cls);
      DynamicDataIs(plan);
    }
  }

  lemma DynamicDataIs(plan: Plan)
    ensures DynamicData(plan) == Flat(DynParts(EmittedEntries(plan.needed), plan.endian, plan.cls))
  {
    hide Flat, DynParts, EmittedEntries;
  }

  // ---------------------------------------------------------------- relocations

  function ExpectedTables(plan: Plan): seq<RelocationSection> {
    if plan.relocations == [] then [] else [RelocationSection(KeptEntries(plan.cls, plan.relocations), true)]
  }

  /** What section `i` contributes to the relocation tables. */
  lemma RelaStep(plan: Plan, n: ElfImage, i: nat)
    requires Survives(plan, n) && i < |n.sections|
    ensures var h := n.sections[i].header;
            if i == |PlainSections(plan)| && plan.relocations != [] then
              && h.kind == SHT_RELA
              && TableParsed(n.sections[i].data, true, n.ident.data, n.ident.cls) == Ok(ExpectedTables(plan)[0])
            else h.kind != SHT_RELA && h.kind != SHT_REL
  {
    hide TableParsed, PlanSections, PlanSegments, PlainSections, KeptEntries, CStr, RelaData;
    if i < |PlanSections(plan)| {
      SectionKinds(plan, i);
      if plan.relocations != [] {
        RelaTableParses(plan);
      }
    } else {
      ExpectedNone(plan);
    }
  }

  lemma RelaTableParses(plan: Plan)
    requires plan.relocations != []
    ensures |PlainSections(plan)| < |PlanSections(plan)|
    ensures var s := PlanSections(plan)[|PlainSections(plan)|];
            s.header.kind == SHT_RELA && TableParsed(s.data, true, plan.endian, plan.cls) == Ok(ExpectedTables(plan)[0])
  {
    hide TableParsed, PlainSections, KeptEntries, Flat, EntryParts;
    RelaRoundTrip(plan.relocations, plan.endian, plan.cls);
  }

  lemma {:induction false} TablesSoFar(plan: Plan, n: ElfImage, k: nat)
    requires Survives(plan, n) && k <= |n.sections|
    ensures RelocTables(n, k) == Ok(if k <= |PlainSections(plan)| then [] else ExpectedTables(plan))
  {
    hide TableParsed, PlainSections, KeptEntries, Survives;
    if k > 0 {
      TablesSoFar(plan, n, k - 1);
      RelaStep(plan, n, k - 1);
      if k - 1 == |PlainSections(plan)| && plan.relocations != [] {
        assert [] + [ExpectedTables(plan)[0]] == ExpectedTables(plan);
      }
    }
  }

  lemma ExpectedNone(plan: Plan)
    ensures plan.relocations == [] ==> ExpectedTables(plan) == [] && |PlanSections(plan)| == |PlainSections(plan)|
    ensures plan.relocations != [] ==> |PlanSections(plan)| == |PlainSections(plan)| + 1
  {
    hide PlainSections, KeptEntries, RelaData;
  }

  /** `relocations` returns the added entries in order, as their class keeps them. */
  lemma RelocationsReadBack(plan: Plan, n: ElfImage)
    requires Survives(plan, n)
    ensures Relocations(n) == Ok(ExpectedTables(plan))
  {
    hide RelocTables, ExpectedTables, PlainSections, PlanSegments, KeptSegment, KeptSection, PlanSections;
    TablesSoFar(plan, n, |n.sections|);
    ExpectedNone(plan);
  }

  // ---------------------------------------------------------------- thread-local storage and loads

  /** The thread-local storage a reader of class `c` sees. */
  function ExpectedTls(c: ElfClass, tls: Option<TlsSpec>): Option<TlsInfo> {
    if tls.None? then None
    else Some(TlsInfo(Cut(c, tls.value.vaddr), Sat(|tls.value.data|), Cut(c, tls.value.memsz), Cut(c, tls.value.align)))
  }

  lemma TlsIsFound(plan: Plan, n: ElfImage)
    requires Survives(plan, n)
    ensures FirstOfKind(n.segments, PT_TLS) == if plan.tls.None? then None else Some(|plan.loads|)
    ensures plan.tls.Some? ==> |plan.loads| < |PlanSegments(plan)|
                               && PlanSegments(plan)[|plan.loads|] == TlsSegment(plan.tls.value)
  {
    hide NoteBytes, DynamicData, Sat, Survives, PlanSections, FirstOfKind;
    SurvivorCount(plan, n);
    forall i | 0 <= i < |n.segments|
      ensures n.segments[i].header.kind == PT_TLS <==> |plan.loads| <= i < |PlainSegments(plan)|
    {
      SurvivingSegment(plan, n, i);
      SegmentKinds(plan, i);
    }
    if plan.tls.Some? {
      assert |plan.loads| < |n.segments| && n.segments[|plan.loads|].header.kind == PT_TLS;
    }
  }

  lemma TlsReadBack(plan: Plan)
    requires Built(PlanImage(plan)).Ok?
    ensures TlsOf(Normal(PlanImage(plan))) == ExpectedTls(plan.cls, plan.tls)
  {
    hide Built, Survives, PlanSegments, PlanSections, FirstOfKind, NormalSegments, NormalSections, BuiltHeader,
         Geometry;
    var img := PlanImage(plan);
    PlanSurvives(plan);
    TlsIsFound(plan, Normal(img));
    if plan.tls.Some? {
      PlanSegmentsDeclared(plan, |plan.loads|);
      SegmentSurvives(img, |plan.loads|);
    }
  }

  /** Load `l` comes back with its bytes, permissions, sizes, address and alignment. */
  predicate LoadKept(c: ElfClass, l: LoadSpec, s: Segment) {
    && s.header.kind == 1 && s.data == l.data && s.header.flags == l.flags
    && s.header.filesz == s.header.memsz == |l.data|
    && s.header.vaddr == s.header.paddr == Cut(c, l.vaddr) && s.header.align == Cut(c, l.align)
  }

  /** The loads come back first, in order, and no other segment is a load. */
  ghost predicate LoadsReadBack(plan: Plan, n: ElfImage) {
    && |plan.loads| <= |n.segments|
    && (forall i :: 0 <= i < |plan.loads| ==> LoadKept(plan.cls, plan.loads[i], n.segments[i]))
    && (forall i :: |plan.loads| <= i < |n.segments| ==> n.segments[i].header.kind != 1)
  }

  lemma LoadIs(plan: Plan, i: nat)
    requires i < |plan.loads|
    ensures i < |PlanSegments(plan)| && PlanSegments(plan)[i] == LoadSegment(plan.loads[i])
  {
    hide NoteSegs, DynamicSegment;
  }

  lemma LoadSurvives(plan: Plan, i: nat)
    requires Built(PlanImage(plan)).Ok? && i < |plan.loads|
    ensures i < |Normal(PlanImage(plan)).segments|
    ensures LoadKept(plan.cls, plan.loads[i], Normal(PlanImage(plan)).segments[i])
  {
    hide Built, NormalSegments, NormalSections, BuiltHeader, Geometry, PlanSegments, PlanSections, Stored, Cut;
    var img := PlanImage(plan);
    LoadIs(plan, i);
    PlanSegmentsDeclared(plan, i);
    SegmentSurvives(img, i);
    SmallIsStored(plan.cls, |plan.loads[i].data|);
    CutIs(plan.cls, plan.loads[i].vaddr);
    CutIs(plan.cls, plan.loads[i].align);
  }

  lemma OtherIsNoLoad(plan: Plan, i: nat)
    requires |plan.loads| <= i < |PlanSegments(plan)|
    ensures PlanSegments(plan)[i].header.kind != PT_LOAD
  {
    hide PlanSegments, NoteSegs;
    SegmentKinds(plan, i);
  }

  lemma LoadsSurvive(plan: Plan)
    requires Built(PlanImage(plan)).Ok?
    ensures LoadsReadBack(plan, Normal(PlanImage(plan)))
  {
    hide Built, Normal, PlanSegments, PlanSections, LoadKept, Survives, KeptSegment;
    var n := Normal(PlanImage(plan));
    PlanSurvives(plan);
    SurvivorCount(plan, n);
    forall i | 0 <= i < |plan.loads| ensures i < |n.segments| && LoadKept(plan.cls, plan.loads[i], n.segments[i]) {
      LoadSurvives(plan, i);
    }
    forall i | |plan.loads| <= i < |n.segments| ensures n.segments[i].header.kind != PT_LOAD {
      OtherIsNoLoad(plan, i);
      KindSurvives(plan, n, i);
    }
    if plan.loads != [] {
      LoadSurvives(plan, |plan.loads| - 1);
    }
  }

  lemma KindSurvives(plan: Plan, n: ElfImage, i: nat)
    requires Survives(plan, n) && i < |n.segments|
    ensures |n.segments| == |PlanSegments(plan)| && n.segments[i].header.kind == PlanSegments(plan)[i].header.kind
  {
    hide Survives, PlanSegments;
    SurvivorCount(plan, n);
    SurvivingSegment(plan, n, i);
  }

  // ---------------------------------------------------------------- the theorem

  /**
   * The builder end to end, for every plan of text names: it succeeds exactly when the layout does, and then the
   * image it returns, which went through serialization and parsing, reads back the header, the loads, the notes, the
   * needed libraries (cut at their first NUL), the relocations (as their class keeps them) and the thread-local
   * storage, each in the order in which they were added.
   */
  lemma EndToEnd(plan: Plan)
    requires TextPlan(plan)
    ensures BuilderResult(plan).Ok? <==> Built(PlanImage(plan)).Ok?
    ensures BuilderResult(plan).Ok? ==>
              var n := BuilderResult(plan).value;
              && HeaderReadsBack(plan, n)
              && LoadsReadBack(plan, n)
              && NotesOf(n) == Ok(plan.notes)
              && NeededLibraries(n) == Ok(CStrs(plan.needed))
              && Relocations(n) == Ok(ExpectedTables(plan))
              && TlsOf(n) == ExpectedTls(plan.cls, plan.tls)
  {
    hide *;
    BuilderReturnsNormal(plan);
    if Built(PlanImage(plan)).Ok? {
      var n := Normal(PlanImage(plan));
      PlanSurvives(plan);
      HeaderSurvived(plan);
      LoadsSurvive(plan);
      NotesReadBack(plan, n);
      NeededReadBack(plan, n);
      RelocationsReadBack(plan, n);
      TlsReadBack(plan);
    }
  }
}
