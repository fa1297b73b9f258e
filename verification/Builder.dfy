/** `src/builder.rs`: assembling an image from parts, serializing it and parsing it back. */
module Builder {
  import opened Bytes
  import opened Strings
  import opened Headers
  import opened Images
  import opened Layout
  import opened FileLayout
  import opened Parse
  import opened Notes
  import opened Reloc
  import opened Dynamic
  import Build

  datatype LoadSpec = LoadSpec(vaddr: u64, flags: u32, align: u64, data: seq<u8>)

  datatype TlsSpec = TlsSpec(vaddr: u64, data: seq<u8>, memsz: u64, align: u64)

  /** Everything a builder has been told. */
  datatype Plan = Plan(
    cls: ElfClass, endian: Endian, elfType: ElfType, machine: u16, entry: u64, osAbi: u8, flags: u32,
    loads: seq<LoadSpec>, notes: seq<Note>, relocations: seq<RelocationEntry>, tls: Option<TlsSpec>,
    needed: seq<seq<u8>>)

  const PF_W: u32 := 2
  const PF_R: u32 := 4

  // ---------------------------------------------------------------- the parts

  function LoadSegment(l: LoadSpec): Segment {
    Segment(ProgramHeader(PT_LOAD, l.flags, 0, l.vaddr, l.vaddr, Sat(|l.data|), Sat(|l.data|), l.align), l.data)
  }

  function TlsSegment(t: TlsSpec): Segment {
    Segment(ProgramHeader(PT_TLS, PF_R, 0, t.vaddr, t.vaddr, Sat(|t.data|), t.memsz, t.align), t.data)
  }

  function NoteSegment(note: Note, e: Endian): Segment {
    var bytes := NoteBytes(note, e);
    Segment(ProgramHeader(PT_NOTE, PF_R, 0, 0, 0, Sat(|bytes|), Sat(|bytes|), 4), bytes)
  }

  function NoteSection(note: Note, e: Endian): Section {
    var bytes := NoteBytes(note, e);
    Section(SectionHeader(0, SHT_NOTE, 0, 0, 0, Sat(|bytes|), 0, 0, 4, 0), NOTE_PREFIX + note.name, bytes)
  }

  function DynamicData(plan: Plan): seq<u8> { Flat(DynParts(EmittedEntries(plan.needed), plan.endian, plan.cls)) }

  function DynamicSegment(plan: Plan): Segment {
    var n := Sat(|DynamicData(plan)|);
    Segment(ProgramHeader(PT_DYNAMIC, PF_R + PF_W, 0, 0, 0, n, n, 8), DynamicData(plan))
  }

  function DynstrSection(plan: Plan): Section {
    var blob := Blob(plan.needed);
    Section(SectionHeader(0, SHT_STRTAB, SHF_ALLOC, 0, 0, Sat(|blob|), 0, 0, 1, 0), DYNSTR, blob)
  }

  function DynamicSection(plan: Plan): Section {
    var data := DynamicData(plan);
    Section(SectionHeader(0, SHT_DYNAMIC, SHF_ALLOC + SHF_WRITE, 0, 0, Sat(|data|), 0, 0, 8, DynSize(plan.cls)),
            DYNAMIC, data)
  }

  function RelaData(plan: Plan): seq<u8> { Flat(EntryParts(plan.relocations, plan.endian, plan.cls)) }

  function RelaSection(plan: Plan): Section {
    var data := RelaData(plan);
    Section(SectionHeader(0, SHT_RELA, 0, 0, 0, Sat(|data|), 0, 0, 8, EntrySize(plan.cls, true)), RELA_DYN, data)
  }

  const NULL_SECTION: Section := Section(SectionHeader(0, SHT_NULL, 0, 0, 0, 0, 0, 0, 0, 0), [], [])

  // ---------------------------------------------------------------- the image

  function LoadSegments(plan: Plan): (r: seq<Segment>)
    ensures |r| == |plan.loads| && forall i :: 0 <= i < |r| ==> r[i] == LoadSegment(plan.loads[i])
  {
    seq(|plan.loads|, i requires 0 <= i < |plan.loads| => LoadSegment(plan.loads[i]))
  }

  function NoteSegs(plan: Plan): (r: seq<Segment>)
    ensures |r| == |plan.notes| && forall i :: 0 <= i < |r| ==> r[i] == NoteSegment(plan.notes[i], plan.endian)
  {
    seq(|plan.notes|, i requires 0 <= i < |plan.notes| => NoteSegment(plan.notes[i], plan.endian))
  }

  function NoteSecs(plan: Plan): (r: seq<Section>)
    ensures |r| == |plan.notes| && forall i :: 0 <= i < |r| ==> r[i] == NoteSection(plan.notes[i], plan.endian)
  {
    seq(|plan.notes|, i requires 0 <= i < |plan.notes| => NoteSection(plan.notes[i], plan.endian))
  }

  /** The segments before the notes. */
  function PlainSegments(plan: Plan): seq<Segment> {
    LoadSegments(plan) + if plan.tls.Some? then [TlsSegment(plan.tls.value)] else []
  }

  function PlanSegments(plan: Plan): seq<Segment> {
    PlainSegments(plan) + NoteSegs(plan) + if plan.needed == [] then [] else [DynamicSegment(plan)]
  }

  /** The sections up to the dynamic ones. */
  function PlainSections(plan: Plan): seq<Section> {
    [NULL_SECTION] + NoteSecs(plan) + if plan.needed == [] then [] else [DynstrSection(plan), DynamicSection(plan)]
  }

  function PlanSections(plan: Plan): seq<Section> {
    PlainSections(plan) + if plan.relocations == [] then [] else [RelaSection(plan)]
  }

  function PlanImage(plan: Plan): ElfImage {
    var ident := ElfIdent(plan.cls, plan.endian, 1, plan.osAbi, 0);
    var header := ElfHeader(ident, plan.elfType, plan.machine, 1, plan.entry, 0, 0, plan.flags, 0, 0, 0, 0, 0, 0);
    ElfImage(ident, header, PlanSegments(plan), PlanSections(plan), 0)
  }

  /** `ElfBuilder::try_build`. */
  function BuilderResult(plan: Plan): Result<ElfImage> {
    var bytes :- Built(PlanImage(plan));
    Parsed(bytes)
  }

  // ---------------------------------------------------------------- the builder

  /** The builder as the source holds it; every setter updates one field. */
  class ElfBuilder {
    var cls: ElfClass
    var endian: Endian
    var elfType: ElfType
    var machine: u16
    var entry: u64
    var osAbi: u8
    var flags: u32
    var loads: seq<LoadSpec>
    var notes: seq<Note>
    var relocations: seq<RelocationEntry>
    var tls: Option<TlsSpec>
    var needed: seq<seq<u8>>

    function State(): Plan
      reads this
    {
      Plan(cls, endian, elfType, machine, entry, osAbi, flags, loads, notes, relocations, tls, needed)
    }

    constructor ()
      ensures State() == Plan(Elf64, Little, Exec, EM_X86_64, 0, 0, 0, [], [], [], None, [])
    {
      cls, endian, elfType, machine, entry, osAbi, flags := Elf64, Little, Exec, EM_X86_64, 0, 0, 0;
      loads, notes, relocations, tls, needed := [], [], [], None, [];
    }

    method AddLoadAligned(vaddr: u64, segmentFlags: u32, align: u64, data: seq<u8>)
      modifies this`loads
      ensures State() == old(State()).(loads := old(loads) + [LoadSpec(vaddr, segmentFlags, align, data)])
    {
      loads := loads + [LoadSpec(vaddr, segmentFlags, align, data)];
    }

    method AddNote(note: Note)
      modifies this`notes
      ensures State() == old(State()).(notes := old(notes) + [note])
    {
      notes := notes + [note];
    }

    method AddRelocations(entries: seq<RelocationEntry>)
      modifies this`relocations
      ensures State() == old(State()).(relocations := entries)
    {
      relocations := entries;
    }

    method AddTls(vaddr: u64, data: seq<u8>, memsz: u64, align: u64)
      modifies this`tls
      ensures State() == old(State()).(tls := Some(TlsSpec(vaddr, data, memsz, align)))
    {
      tls := Some(TlsSpec(vaddr, data, memsz, align));
    }

    method AddDynamicNeeded(name: seq<u8>)
      modifies this`needed
      ensures State() == old(State()).(needed := old(needed) + [name])
    {
      needed := needed + [name];
    }

    /** Assembles the image, serializes it, and returns what the parser recovers. */
    method TryBuild() returns (r: Result<ElfImage>)
      ensures r == BuilderResult(State())
    {
      hide Built, Parsed, LoadSegment, TlsSegment, NoteSegs, NoteSecs, DynamicSegment, DynstrSection, DynamicSection,
           RelaSection;
      var plan := State();
      var segments := AppendLoads(plan);
      if plan.tls.Some? {
        segments := segments + [TlsSegment(plan.tls.value)];
      }
      assert segments == PlainSegments(plan);
      var sections := [NULL_SECTION];
      segments, sections := AppendNotes(plan, segments, sections);
      segments, sections := AppendDynamic(plan, segments, sections);
      sections := AppendRela(plan, sections);
      var ident := ElfIdent(plan.cls, plan.endian, 1, plan.osAbi, 0);
      var header := ElfHeader(ident, plan.elfType, plan.machine, 1, plan.entry, 0, 0, plan.flags, 0, 0, 0, 0, 0, 0);
      var image := ElfImage(ident, header, segments, sections, 0);
      assert image == PlanImage(plan);
      var bytes := Build.TryBuild(image);
      if bytes.Err? {
        return Err;
      }
      r := ParseFile(bytes.value);
    }
  }

  /** The load loop. */
  method AppendLoads(plan: Plan) returns (segments: seq<Segment>)
    ensures segments == LoadSegments(plan)
  {
    hide LoadSegment;
    segments := [];
    for i := 0 to |plan.loads|
      invariant segments == LoadSegments(plan)[..i]
    {
      segments := segments + [LoadSegment(plan.loads[i])];
    }
  }

  /** `add_notes`: one segment and one section per note. */
  method AppendNotes(plan: Plan, segments0: seq<Segment>, sections0: seq<Section>)
    returns (segments: seq<Segment>, sections: seq<Section>)
    ensures segments == segments0 + NoteSegs(plan) && sections == sections0 + NoteSecs(plan)
  {
    hide NoteBytes;
    segments, sections := segments0, sections0;
    for i := 0 to |plan.notes|
      invariant segments == segments0 + NoteSegs(plan)[..i] && sections == sections0 + NoteSecs(plan)[..i]
    {
      var bytes := SerializeNote(plan.notes[i], plan.endian);
      var n := Sat(|bytes|);
      segments := segments + [Segment(ProgramHeader(PT_NOTE, PF_R, 0, 0, 0, n, n, 4), bytes)];
      sections := sections
                  + [Section(SectionHeader(0, SHT_NOTE, 0, 0, 0, n, 0, 0, 4, 0),
                             NOTE_PREFIX + plan.notes[i].name, bytes)];
    }
  }

  /** `add_dynamic`: the dynamic segment and the two dynamic sections, when libraries are needed. */
  method AppendDynamic(plan: Plan, segments0: seq<Segment>, sections0: seq<Section>)
    returns (segments: seq<Segment>, sections: seq<Section>)
    ensures segments == segments0 + if plan.needed == [] then [] else [DynamicSegment(plan)]
    ensures sections == sections0 + if plan.needed == [] then [] else [DynstrSection(plan), DynamicSection(plan)]
  {
    if plan.needed == [] {
      return segments0 + [], sections0 + [];
    }
    var dynstr, data := EmitDynamic(plan.needed, plan.endian, plan.cls);
    var n := Sat(|data|);
    segments := segments0 + [Segment(ProgramHeader(PT_DYNAMIC, PF_R + PF_W, 0, 0, 0, n, n, 8), data)];
    sections := sections0
                + [Section(SectionHeader(0, SHT_STRTAB, SHF_ALLOC, 0, 0, Sat(|dynstr|), 0, 0, 1, 0), DYNSTR, dynstr),
                   Section(SectionHeader(0, SHT_DYNAMIC, SHF_ALLOC + SHF_WRITE, 0, 0, n, 0, 0, 8, DynSize(plan.cls)),
                           DYNAMIC, data)];
  }

  /** `add_rela`: one relocation section, when there are relocations. */
  method AppendRela(plan: Plan, sections0: seq<Section>) returns (sections: seq<Section>)
    ensures sections == sections0 + if plan.relocations == [] then [] else [RelaSection(plan)]
  {
    if plan.relocations == [] {
      return sections0 + [];
    }
    var data := SerializeRela(plan.relocations, plan.endian, plan.cls);
    var header := SectionHeader(0, SHT_RELA, 0, 0, 0, Sat(|data|), 0, 0, 8, EntrySize(plan.cls, true));
    sections := sections0 + [Section(header, RELA_DYN, data)];
  }
}
