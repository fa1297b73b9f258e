/** `src/notes.rs` and the note writer of `src/builder.rs`. */
module Notes {
  import opened Bytes
  import opened Strings
  import opened Headers
  import opened Layout

  datatype Note = Note(name: seq<u8>, noteType: u32, descriptor: seq<u8>)

  function Padding4(length: nat): (p: nat)
    ensures p < 4
  {
    (4 - length % 4) % 4
  }

  lemma PaddingAligns(length: nat)
    ensures (length + Padding4(length)) % 4 == 0
  {
  }

  // ---------------------------------------------------------------- reading

  /** The sizes and type a note header holds at `off`. */
  function ReadHeader(data: seq<u8>, off: nat, e: Endian): Result<(u32, u32, u32)> {
    var namesz :- ReadU32(data, off, e);
    var descsz :- ReadU32(data, off + 4, e);
    var noteType :- ReadU32(data, off + 8, e);
    Ok((namesz, descsz, noteType))
  }

  function DescStart(off: nat, namesz: nat): (n: nat)
    ensures n >= off + 12 + namesz
  {
    off + 12 + namesz + Padding4(namesz)
  }

  /** Where the next note would start. */
  function NextOffset(off: nat, namesz: nat, descsz: nat): (n: nat)
    ensures n >= off + 12
  {
    DescStart(off, namesz) + descsz + Padding4(descsz)
  }

  /** A name without its one terminator. */
  function Unterminated(name: seq<u8>): seq<u8> {
    if name != [] && name[|name| - 1] == 0 then name[..|name| - 1] else name
  }

  /**
   * `Note::parse_all` from offset `off` on. The source's `data.len() - offset` wraps when the padding of the last
   * descriptor ran past the data; the wrapped value is large, and reading the next header then fails.
   */
  function NotesFrom(data: seq<u8>, off: nat, e: Endian): Result<seq<Note>>
    decreases if off <= |data| then |data| - off else 0
  {
    if off > |data| then Err
    else if |data| - off < 12 then Ok([])
    else
      var (namesz, descsz, noteType) :- ReadHeader(data, off, e);
      var start := DescStart(off, namesz);
      if start + descsz > |data| then Ok([])
      else
        var name := Unterminated(data[off + 12..off + 12 + namesz]);
        if !ValidUtf8(name) then Err
        else
          Prepend([Note(name, noteType, data[start..start + descsz])],
                  NotesFrom(data, NextOffset(off, namesz, descsz), e))
  }

  /** The notes read so far, followed by what is left. */
  function Prepend(notes: seq<Note>, rest: Result<seq<Note>>): Result<seq<Note>> {
    if rest.Err? then Err else Ok(notes + rest.value)
  }

  lemma PrependOne(notes: seq<Note>, note: Note, rest: Result<seq<Note>>)
    ensures Prepend(notes, Prepend([note], rest)) == Prepend(notes + [note], rest)
  {
    if rest.Ok? {
      assert notes + ([note] + rest.value) == notes + [note] + rest.value;
    }
  }

  lemma PrependNone(rest: Result<seq<Note>>)
    ensures Prepend([], rest) == rest
  {
    if rest.Ok? {
      assert [] + rest.value == rest.value;
    }
  }

  method ParseAll(data: seq<u8>, e: Endian) returns (r: Result<seq<Note>>)
    ensures r == NotesFrom(data, 0, e)
  {
    hide ValidUtf8, U32, ReadHeader, Unterminated, Padding4;
    var notes: seq<Note>, off := [], 0;
    PrependNone(NotesFrom(data, 0, e));
    while off <= |data| && |data| - off >= 12
      invariant NotesFrom(data, 0, e) == Prepend(notes, NotesFrom(data, off, e))
      decreases if off <= |data| then |data| - off else 0
    {
      var header := ReadHeader(data, off, e);
      if header.Err? {
        return Err;
      }
      var (namesz, descsz, noteType) := header.value;
      var start := DescStart(off, namesz);
      if start + descsz > |data| {
        return Ok(notes);
      }
      var name := Unterminated(data[off + 12..off + 12 + namesz]);
      if !ValidUtf8(name) {
        return Err;
      }
      PrependOne(notes, Note(name, noteType, data[start..start + descsz]),
                 NotesFrom(data, NextOffset(off, namesz, descsz), e));
      notes := notes + [Note(name, noteType, data[start..start + descsz])];
      off := NextOffset(off, namesz, descsz);
    }
    assert notes + [] == notes;
    return if off <= |data| then Ok(notes) else Err;
  }

  lemma SumOfFours(a: nat, b: nat)
    requires a % 4 == 0 && b % 4 == 0
    ensures (a + b) % 4 == 0
  {
  }

  /** Padding stops at the next multiple of four. */
  lemma PaddingIsLeast(length: nat, room: nat)
    requires room % 4 == 0 && length <= room
    ensures length + Padding4(length) <= room
  {
  }

  lemma DifferenceOfFours(a: nat, b: nat)
    requires a % 4 == 0 && b % 4 == 0 && a <= b
    ensures (b - a) % 4 == 0
  {
  }

  /** The two cursor moves of one note keep multiples of four. */
  lemma OffsetsAligned(off: nat, namesz: nat, descsz: nat, n: nat)
    requires off % 4 == 0 && n % 4 == 0 && DescStart(off, namesz) + descsz <= n
    ensures NextOffset(off, namesz, descsz) % 4 == 0 && NextOffset(off, namesz, descsz) <= n
  {
    hide Padding4;
    var start := DescStart(off, namesz);
    PaddingAligns(namesz);
    PaddingAligns(descsz);
    SumOfFours(off, 12);
    SumOfFours(off + 12, namesz + Padding4(namesz));
    SumOfFours(start, descsz + Padding4(descsz));
    DifferenceOfFours(start, n);
    PaddingIsLeast(descsz, n - start);
  }

  /**
   * Over data of a multiple of four bytes the cursor stays aligned and in range and advances by at least twelve
   * at every note, so the length test never underflows.
   */
  lemma CursorStaysInRange(data: seq<u8>, off: nat, e: Endian)
    requires |data| % 4 == 0 && off % 4 == 0 && off + 12 <= |data|
    ensures ReadHeader(data, off, e).Ok?
    ensures var (namesz, descsz, _) := ReadHeader(data, off, e).value;
            DescStart(off, namesz) + descsz <= |data| ==>
              NextOffset(off, namesz, descsz) <= |data| && NextOffset(off, namesz, descsz) % 4 == 0
              && NextOffset(off, namesz, descsz) >= off + 12
  {
    hide U32, DescStart, NextOffset;
    var (namesz, descsz, _) := ReadHeader(data, off, e).value;
    if DescStart(off, namesz) + descsz <= |data| {
      OffsetsAligned(off, namesz, descsz, |data|);
    }
  }

  // ---------------------------------------------------------------- writing

  /** `u32::try_from(..).unwrap_or(0)`. */
  function U32OrZero(n: nat): u32 { if n < TWO_32 then n else 0 }

  /** Bytes padded with zeros to a multiple of four. */
  function Padded(bs: seq<u8>): (r: seq<u8>)
    ensures |r| == |bs| + Padding4(|bs|)
  {
    bs + Zeros(Padding4(|bs|))
  }

  function HeaderBytes(note: Note, e: Endian): (bs: seq<u8>)
    ensures |bs| == 12
  {
    U32Bytes(e, U32OrZero(|note.name| + 1)) + U32Bytes(e, U32OrZero(|note.descriptor|)) + U32Bytes(e, note.noteType)
  }

  /** One note as the builder writes it: sizes, type, terminated name and descriptor, each padded to four bytes. */
  function NoteBytes(note: Note, e: Endian): (bs: seq<u8>)
    ensures |bs| >= 13
  {
    HeaderBytes(note, e) + Padded(note.name + [0]) + Padded(note.descriptor)
  }

  method SerializeNote(note: Note, e: Endian) returns (out: seq<u8>)
    ensures out == NoteBytes(note, e)
  {
    hide U32Bytes, Padding4, Padded;
    var namesz, descsz := |note.name| + 1, |note.descriptor|;
    out := U32Bytes(e, U32OrZero(namesz)) + U32Bytes(e, U32OrZero(descsz)) + U32Bytes(e, note.noteType);
    out := PadTo4(out, note.name + [0]);
    PaddingAligns(namesz);
    SumOfFours(12, namesz + Padding4(namesz));
    out := PadTo4(out, note.descriptor);
  }

  lemma OneMoreZero(n: nat)
    ensures Zeros(n) + [0] == Zeros(n + 1)
  {
  }

  /** A multiple of four is reached with the last padding byte and not before. */
  lemma PadNotYet(before: nat, length: nat, n: nat)
    requires before % 4 == 0 && n <= Padding4(length)
    ensures (before + length + n) % 4 == 0 <==> n == Padding4(length)
  {
    PaddingAligns(length);
  }

  /** Appends a part and pads the whole; what precedes the part is a multiple of four bytes long. */
  method PadTo4(out: seq<u8>, part: seq<u8>) returns (padded: seq<u8>)
    requires |out| % 4 == 0
    ensures padded == out + Padded(part)
  {
    hide Padding4, Zeros;
    padded := out + part;
    ghost var n := 0;
    assert Zeros(0) == [] && part + [] == part;
    while |padded| % 4 != 0
      invariant n <= Padding4(|part|) && padded == out + (part + Zeros(n))
      decreases Padding4(|part|) - n
    {
      PadNotYet(|out|, |part|, n);
      padded := padded + [0];
      OneMoreZero(n);
      n := n + 1;
      assert padded == out + (part + Zeros(n));
    }
    PadNotYet(|out|, |part|, n);
  }

  /** A note whose sizes fit their 32-bit fields and whose name is text. */
  predicate Writable(note: Note) {
    |note.name| + 1 < TWO_32 && |note.descriptor| < TWO_32 && ValidUtf8(note.name)
  }

  lemma HeaderReads(data: seq<u8>, off: nat, note: Note, e: Endian)
    requires Writable(note) && At(data, off, HeaderBytes(note, e))
    ensures ReadHeader(data, off, e) == Ok((|note.name| + 1, |note.descriptor|, note.noteType))
  {
    hide U32, U32Bytes, ValidUtf8;
    AtFields(data);
  }

  /** The name field, and where it ends. */
  lemma NameReads(data: seq<u8>, at: nat, name: seq<u8>)
    requires At(data, at, Padded(name + [0]))
    ensures at + |name| + 1 <= |data| && Unterminated(data[at..at + |name| + 1]) == name
  {
    hide Padding4;
    AtConcat(data, at, name + [0], Zeros(Padding4(|name| + 1)));
    assert (name + [0])[..|name|] == name;
  }

  /** One written note is read back, and the cursor lands right after its padding, present or not. */
  lemma NoteReads(data: seq<u8>, off: nat, note: Note, e: Endian)
    requires Writable(note) && At(data, off, HeaderBytes(note, e) + Padded(note.name + [0]) + note.descriptor)
    ensures var namesz, descsz := |note.name| + 1, |note.descriptor|;
            && ReadHeader(data, off, e) == Ok((namesz, descsz, note.noteType))
            && DescStart(off, namesz) + descsz <= |data|
            && Unterminated(data[off + 12..off + 12 + namesz]) == note.name
            && data[DescStart(off, namesz)..DescStart(off, namesz) + descsz] == note.descriptor
            && NextOffset(off, namesz, descsz) == off + |NoteBytes(note, e)|
  {
    hide ReadHeader, HeaderBytes, Unterminated, Writable, Padding4, Padded;
    var header, name := HeaderBytes(note, e), Padded(note.name + [0]);
    AtConcat(data, off, header + name, note.descriptor);
    AtConcat(data, off, header, name);
    HeaderReads(data, off, note, e);
    NameReads(data, off + 12, note.name);
  }

  /** Notes written one after the other. */
  function AllNoteBytes(notes: seq<Note>, e: Endian): seq<u8> {
    if notes == [] then [] else NoteBytes(notes[0], e) + AllNoteBytes(notes[1..], e)
  }

  lemma NoteStart(data: seq<u8>, off: nat, note: Note, e: Endian)
    requires At(data, off, NoteBytes(note, e))
    ensures At(data, off, HeaderBytes(note, e) + Padded(note.name + [0]) + note.descriptor)
  {
    hide HeaderBytes, Padding4, At;
    var lead, pad := HeaderBytes(note, e) + Padded(note.name + [0]), Zeros(Padding4(|note.descriptor|));
    assert NoteBytes(note, e) == (lead + note.descriptor) + pad;
    AtConcat(data, off, lead + note.descriptor, pad);
  }

  /** Reading one written note, and what is left to read. */
  lemma NoteTurn(data: seq<u8>, off: nat, note: Note, e: Endian)
    requires Writable(note) && At(data, off, NoteBytes(note, e))
    ensures NotesFrom(data, off, e) == Prepend([note], NotesFrom(data, off + |NoteBytes(note, e)|, e))
  {
    hide NoteBytes, ReadHeader, At, Unterminated, NextOffset, ValidUtf8, Prepend, DescStart, Writable, Padded,
         HeaderBytes;
    NoteStart(data, off, note, e);
    NoteReads(data, off, note, e);
    NameIsText(note);
  }

  lemma NameIsText(note: Note)
    requires Writable(note)
    ensures ValidUtf8(note.name)
  {
  }

  lemma NotesEnd(data: seq<u8>, e: Endian)
    ensures NotesFrom(data, |data|, e) == Ok([])
  {
  }

  /** Written notes, and whatever can be read after them. */
  lemma {:induction false} NotesThen(data: seq<u8>, off: nat, notes: seq<Note>, e: Endian)
    requires forall i :: 0 <= i < |notes| ==> Writable(notes[i])
    requires At(data, off, AllNoteBytes(notes, e))
    ensures NotesFrom(data, off, e) == Prepend(notes, NotesFrom(data, off + |AllNoteBytes(notes, e)|, e))
    decreases |notes|
  {
    hide NoteBytes, NotesFrom, At, Writable, Prepend;
    if notes == [] {
      PrependNone(NotesFrom(data, off, e));
    } else {
      var first, rest := NoteBytes(notes[0], e), AllNoteBytes(notes[1..], e);
      AtConcat(data, off, first, rest);
      NoteTurn(data, off, notes[0], e);
      NotesThen(data, off + |first|, notes[1..], e);
      PrependMany([notes[0]], notes[1..], NotesFrom(data, off + |first| + |rest|, e));
      assert [notes[0]] + notes[1..] == notes;
    }
  }

  lemma PrependMany(a: seq<Note>, b: seq<Note>, rest: Result<seq<Note>>)
    ensures Prepend(a, Prepend(b, rest)) == Prepend(a + b, rest)
  {
    if rest.Ok? {
      assert a + (b + rest.value) == a + b + rest.value;
    }
  }

  /** The notes round trip: any list of notes is read back from its serialization, in order. */
  lemma NotesRoundTrip(notes: seq<Note>, e: Endian)
    requires forall i :: 0 <= i < |notes| ==> Writable(notes[i])
    ensures NotesFrom(AllNoteBytes(notes, e), 0, e) == Ok(notes)
  {
    hide NotesFrom, AllNoteBytes, Writable;
    var data := AllNoteBytes(notes, e);
    assert data[0..|data|] == data;
    NotesThen(data, 0, notes, e);
    NotesEnd(data, e);
    assert notes + [] == notes;
  }

  // ---------------------------------------------------------------- a last note without padding

  /** A note written without the padding of its descriptor. */
  function Unpadded(note: Note, e: Endian): seq<u8> {
    HeaderBytes(note, e) + Padded(note.name + [0]) + note.descriptor
  }

  /** An unpadded note at the end of the data is read if and only if it needs no padding. */
  lemma LastUnpadded(data: seq<u8>, off: nat, note: Note, e: Endian)
    requires Writable(note) && At(data, off, Unpadded(note, e)) && off + |Unpadded(note, e)| == |data|
    ensures NotesFrom(data, off, e) == if |note.descriptor| % 4 == 0 then Ok([note]) else Err
  {
    hide HeaderBytes, ReadHeader, Unterminated, ValidUtf8, At, Padding4, Padded;
    NoteReads(data, off, note, e);
    NameIsText(note);
    PaddingIsNone(|note.descriptor|);
    var next := NextOffset(off, |note.name| + 1, |note.descriptor|);
    assert NotesFrom(data, next, e) == if |note.descriptor| % 4 == 0 then Ok([]) else Err;
    assert [note] + [] == [note];
  }

  lemma PaddingIsNone(length: nat)
    ensures Padding4(length) == 0 <==> length % 4 == 0
  {
  }

  /**
   * A last note whose descriptor is not padded, after any notes: all are read if and only if it needs no padding.
   * Otherwise the cursor overruns the data, and the complete notes before it are lost to the error as well.
   */
  lemma UnpaddedNote(before: seq<Note>, note: Note, e: Endian)
    requires Writable(note) && forall i :: 0 <= i < |before| ==> Writable(before[i])
    ensures NotesFrom(AllNoteBytes(before, e) + Unpadded(note, e), 0, e)
            == if |note.descriptor| % 4 == 0 then Ok(before + [note]) else Err
  {
    hide NotesFrom, AllNoteBytes, Unpadded, Writable;
    var front, last := AllNoteBytes(before, e), Unpadded(note, e);
    var data := front + last;
    FoundAtEnd([], data);
    assert [] + data == data;
    AtConcat(data, 0, front, last);
    NotesThen(data, 0, before, e);
    LastUnpadded(data, |front|, note, e);
  }

  // ---------------------------------------------------------------- whole runs over aligned data

  /** Where a complete record at `off` leads: its name is text, and the next record starts there. */
  function NextRecord(data: seq<u8>, off: nat, e: Endian): (r: Option<nat>)
    ensures r.Some? ==> off + 12 <= r.value
  {
    if off + 12 > |data| then None
    else
      var header := ReadHeader(data, off, e);
      if header.Err? then None
      else
        var (namesz, descsz, _) := header.value;
        if DescStart(off, namesz) + descsz > |data| then None
        else if !ValidUtf8(Unterminated(data[off + 12..off + 12 + namesz])) then None
        else Some(NextOffset(off, namesz, descsz))
  }

  /** A complete record whose name is not text. */
  predicate BadName(data: seq<u8>, off: nat, e: Endian) {
    off + 12 <= |data| && ReadHeader(data, off, e).Ok?
    && var (namesz, descsz, _) := ReadHeader(data, off, e).value;
       DescStart(off, namesz) + descsz <= |data| && !ValidUtf8(Unterminated(data[off + 12..off + 12 + namesz]))
  }

  /** The cursor positions of a run from `off`. */
  function Positions(data: seq<u8>, off: nat, e: Endian): (ps: seq<nat>)
    ensures |ps| > 0 && ps[0] == off
    decreases if off <= |data| then |data| - off else 0
  {
    var next := NextRecord(data, off, e);
    if next.None? then [off] else [off] + Positions(data, next.value, e)
  }

  /** One turn of any run. */
  lemma TurnIs(data: seq<u8>, off: nat, e: Endian)
    ensures var next := NextRecord(data, off, e);
            && (next.Some? ==> off + 12 <= |data| && !BadName(data, off, e)
                               && (NotesFrom(data, off, e).Err? <==> NotesFrom(data, next.value, e).Err?))
            && (next.None? ==> (NotesFrom(data, off, e).Err? <==> BadName(data, off, e) || off > |data|))
  {
    hide DescStart, NextOffset, ValidUtf8, Unterminated, U32;
  }

  /** One turn over data of a multiple of four bytes. */
  lemma AlignedTurn(data: seq<u8>, off: nat, e: Endian)
    requires |data| % 4 == 0 && off % 4 == 0 && off <= |data|
    ensures var next := NextRecord(data, off, e); next.Some? ==> next.value % 4 == 0 && next.value <= |data|
  {
    hide ReadHeader, DescStart, NextOffset, ValidUtf8, Unterminated;
    if off + 12 <= |data| {
      CursorStaysInRange(data, off, e);
    }
  }

  /** Some position holds a complete record whose name is not text. */
  ghost predicate AnyBadName(data: seq<u8>, ps: seq<nat>, e: Endian) {
    exists i :: 0 <= i < |ps| && BadName(data, ps[i], e)
  }

  lemma AnyBadFirst(data: seq<u8>, off: nat, rest: seq<nat>, e: Endian)
    ensures AnyBadName(data, [off] + rest, e) <==> BadName(data, off, e) || AnyBadName(data, rest, e)
  {
    hide BadName;
    var all := [off] + rest;
    if BadName(data, off, e) {
      assert BadName(data, all[0], e);
    }
    if i :| 0 <= i < |rest| && BadName(data, rest[i], e) {
      assert BadName(data, all[i + 1], e);
    }
    if i :| 0 <= i < |all| && BadName(data, all[i], e) {
      assert i > 0 ==> BadName(data, rest[i - 1], e);
    }
  }

  /** Where a run ends. */
  function LastPosition(data: seq<u8>, off: nat, e: Endian): nat {
    Positions(data, off, e)[|Positions(data, off, e)| - 1]
  }

  lemma PositionsNext(data: seq<u8>, off: nat, e: Endian)
    ensures var next := NextRecord(data, off, e);
            && (next.Some? ==> Positions(data, off, e) == [off] + Positions(data, next.value, e)
                               && LastPosition(data, off, e) == LastPosition(data, next.value, e))
            && (next.None? ==> Positions(data, off, e) == [off] + [] && LastPosition(data, off, e) == off)
  {
    hide NextRecord;
  }

  lemma NoneBad(data: seq<u8>, e: Endian)
    ensures !AnyBadName(data, [], e)
  {
  }

  /**
   * Whole runs, over any data: the run fails if and only if some complete record it reaches has a name that is not
   * text, or its cursor ends past the data, where the length test underflows. Otherwise it stops at the first record
   * that does not fit, as documented.
   */
  lemma {:induction false} RunsFailExactly(data: seq<u8>, off: nat, e: Endian)
    ensures NotesFrom(data, off, e).Err?
            <==> AnyBadName(data, Positions(data, off, e), e) || LastPosition(data, off, e) > |data|
    decreases if off <= |data| then |data| - off else 0
  {
    hide NotesFrom, BadName, NextRecord, AnyBadName, Positions;
    TurnIs(data, off, e);
    PositionsNext(data, off, e);
    var next := NextRecord(data, off, e);
    if next.Some? {
      RunsFailExactly(data, next.value, e);
      AnyBadFirst(data, off, Positions(data, next.value, e), e);
    } else {
      AnyBadFirst(data, off, [], e);
      NoneBad(data, e);
    }
  }

  lemma {:induction false} AlignedPositions(data: seq<u8>, off: nat, e: Endian)
    requires |data| % 4 == 0 && off % 4 == 0 && off <= |data|
    ensures forall i :: 0 <= i < |Positions(data, off, e)| ==>
              Positions(data, off, e)[i] % 4 == 0 && Positions(data, off, e)[i] <= |data|
    decreases |data| - off
  {
    hide NextRecord;
    AlignedTurn(data, off, e);
    if NextRecord(data, off, e).Some? {
      AlignedPositions(data, NextRecord(data, off, e).value, e);
    }
  }

  /**
   * Whole runs over data of a multiple of four bytes: every position of the cursor is aligned and in range, so the
   * length test never underflows, and the run fails if and only if some complete record it reaches has a name that
   * is not text.
   */
  lemma AlignedRuns(data: seq<u8>, off: nat, e: Endian)
    requires |data| % 4 == 0 && off % 4 == 0 && off <= |data|
    ensures forall i :: 0 <= i < |Positions(data, off, e)| ==>
              Positions(data, off, e)[i] % 4 == 0 && Positions(data, off, e)[i] <= |data|
    ensures NotesFrom(data, off, e).Err? <==> AnyBadName(data, Positions(data, off, e), e)
  {
    hide NotesFrom, AnyBadName, Positions;
    AlignedPositions(data, off, e);
    RunsFailExactly(data, off, e);
  }
}
