/** `src/elf/validate.rs`: the structural checks, and what they do and do not report. */
module Validate {
  import opened Arith
  import opened Bytes
  import opened Headers
  import opened Strings
  import opened Images
  import opened Layout
  import opened FileLayout
  import opened Parse
  import opened RoundTrip
  import FixedPoint
  import Safety

  datatype Code =
    NoLoadSegments | EntryPointOutOfImage | OverlappingSegments | SegmentFileRangeOutOfBounds
    | SegmentVaddrMisaligned | InvalidStringTableIndex

  /** A finding and the load numbers or the address it names. */
  datatype Issue = Issue(code: Code, context: seq<nat>)

  // ---------------------------------------------------------------- load ranges in address order

  function LoadHeaders(hs: seq<ProgramHeader>): (r: seq<ProgramHeader>)
    ensures forall i :: 0 <= i < |r| ==> r[i].kind == PT_LOAD && r[i] in hs
  {
    if hs == [] then []
    else (if hs[0].kind == PT_LOAD then [hs[0]] else []) + LoadHeaders(hs[1..])
  }

  /** The addresses of load number `index`. */
  datatype Range = Range(start: u64, end: u64, index: nat)

  function RangesOf(loads: seq<ProgramHeader>): (r: seq<Range>)
    ensures |r| == |loads|
    ensures forall i :: 0 <= i < |r| ==> r[i] == Range(loads[i].vaddr, SatAdd(loads[i].vaddr, loads[i].memsz), i)
  {
    seq(|loads|, i requires 0 <= i < |loads| => Range(loads[i].vaddr, SatAdd(loads[i].vaddr, loads[i].memsz), i))
  }

  /** The order of the tuples. */
  predicate AtMost(a: Range, b: Range) {
    a.start < b.start || (a.start == b.start && (a.end < b.end || (a.end == b.end && a.index <= b.index)))
  }

  ghost predicate Ascending(s: seq<Range>) {
    forall i, j :: 0 <= i < j < |s| ==> AtMost(s[i], s[j]) && s[i] != s[j]
  }

  ghost predicate Distinct(s: seq<Range>) { forall i, j :: 0 <= i < j < |s| ==> s[i] != s[j] }

  function Insert(r: Range, s: seq<Range>): (t: seq<Range>)
    ensures multiset(t) == multiset(s) + multiset{r}
  {
    if s == [] then [r]
    else if AtMost(r, s[0]) then [r] + s
    else
      assert s == [s[0]] + s[1..];
      [s[0]] + Insert(r, s[1..])
  }

  function SortRanges(s: seq<Range>): (t: seq<Range>)
    ensures multiset(t) == multiset(s)
  {
    if s == [] then []
    else
      assert s == [s[0]] + s[1..];
      Insert(s[0], SortRanges(s[1..]))
  }

  lemma Members(s: seq<Range>, t: seq<Range>)
    requires multiset(s) == multiset(t)
    ensures forall x :: x in s <==> x in t
  {
    forall x ensures x in s <==> x in t {
      assert x in s <==> x in multiset(s);
      assert x in t <==> x in multiset(t);
    }
  }

  lemma PrependAscends(x: Range, rest: seq<Range>)
    requires Ascending(rest) && forall j :: 0 <= j < |rest| ==> AtMost(x, rest[j]) && x != rest[j]
    ensures Ascending([x] + rest)
  {
    hide AtMost;
  }

  lemma {:induction false} InsertAscends(r: Range, s: seq<Range>)
    requires Ascending(s) && r !in s
    ensures Ascending(Insert(r, s))
  {
    hide AtMost;
    if s != [] {
      if AtMost(r, s[0]) {
        forall j | 0 <= j < |s| ensures AtMost(r, s[j]) && r != s[j] {
          OrderFacts(r, s[0], s[j]);
        }
        PrependAscends(r, s);
      } else {
        OrderFacts(s[0], r, r);
        InsertAscends(r, s[1..]);
        InsertBounded(s[0], r, s[1..]);
        PrependAscends(s[0], Insert(r, s[1..]));
      }
    }
  }

  /** The order is total and transitive. */
  lemma OrderFacts(a: Range, b: Range, c: Range)
    ensures AtMost(a, b) || AtMost(b, a)
    ensures AtMost(a, b) && AtMost(b, c) ==> AtMost(a, c)
  {
  }

  lemma {:induction false} InsertBounded(x: Range, r: Range, s: seq<Range>)
    requires AtMost(x, r) && x != r && forall j :: 0 <= j < |s| ==> AtMost(x, s[j]) && x != s[j]
    ensures forall j :: 0 <= j < |Insert(r, s)| ==> AtMost(x, Insert(r, s)[j]) && x != Insert(r, s)[j]
  {
    hide AtMost;
    if s != [] && !AtMost(r, s[0]) {
      InsertBounded(x, r, s[1..]);
    }
  }

  /** Sorting distinct ranges puts them in strictly ascending order. */
  lemma {:induction false} SortAscends(s: seq<Range>)
    requires Distinct(s)
    ensures Ascending(SortRanges(s))
  {
    if s != [] {
      SortAscends(s[1..]);
      Members(SortRanges(s[1..]), s[1..]);
      assert s[0] !in s[1..];
      InsertAscends(s[0], SortRanges(s[1..]));
    }
  }

  // ---------------------------------------------------------------- the checks

  function NoLoadIssues(loads: seq<ProgramHeader>): seq<Issue> {
    if loads == [] then [Issue(NoLoadSegments, [])] else []
  }

  predicate EntryOutside(img: ElfImage) {
    var base, span, entry := ImageBase(img), ImageSpan(img), img.header.entry;
    entry != 0 && (base + span > MAX_U64 || entry < base || entry >= base + span)
  }

  function EntryIssues(img: ElfImage): seq<Issue> {
    if EntryOutside(img) then [Issue(EntryPointOutOfImage, [img.header.entry])] else []
  }

  /** The findings in the first `k` pairs of neighbours. */
  function OverlapIssues(s: seq<Range>, k: nat): seq<Issue>
    requires k == 0 || k < |s|
  {
    if k == 0 then []
    else OverlapIssues(s, k - 1)
         + if s[k - 1].end > s[k].start then [Issue(OverlappingSegments, [s[k - 1].index, s[k].index])] else []
  }

  predicate Misaligned(h: ProgramHeader) {
    h.align > 1 && h.offset % h.align != h.vaddr % h.align && h.filesz > 0
  }

  /** The findings of the first `k` loads. */
  function SegmentIssues(loads: seq<ProgramHeader>, k: nat): seq<Issue>
    requires k <= |loads|
  {
    if k == 0 then []
    else SegmentIssues(loads, k - 1)
         + (if loads[k - 1].filesz > loads[k - 1].memsz then [Issue(SegmentFileRangeOutOfBounds, [k - 1])] else [])
         + if Misaligned(loads[k - 1]) then [Issue(SegmentVaddrMisaligned, [k - 1])] else []
  }

  predicate NamesNoTable(img: ElfImage) {
    img.header.shnum != 0
    && (img.header.shstrndx >= |img.sections| || img.sections[img.header.shstrndx].header.kind != SHT_STRTAB)
  }

  function TableIssues(img: ElfImage): seq<Issue> {
    if NamesNoTable(img) then [Issue(InvalidStringTableIndex, [])] else []
  }

  function Loads(img: ElfImage): seq<ProgramHeader> { LoadHeaders(HeadersOf(img.segments)) }

  function Pairs(s: seq<Range>): (n: nat)
    ensures n == 0 || n < |s|
  {
    if s == [] then 0 else |s| - 1
  }

  /** `validate`: every finding, in check order. */
  function Issues(img: ElfImage): seq<Issue> {
    var loads := Loads(img);
    var sorted := SortRanges(RangesOf(loads));
    NoLoadIssues(loads) + EntryIssues(img) + OverlapIssues(sorted, Pairs(sorted))
    + SegmentIssues(loads, |loads|) + TableIssues(img)
  }

  method RunChecks(img: ElfImage) returns (issues: seq<Issue>)
    ensures issues == Issues(img)
  {
    hide Geometry, SortRanges, LoadHeaders, Misaligned;
    var loads := LoadHeaders(HeadersOf(img.segments));
    issues := [];
    if loads == [] {
      issues := issues + [Issue(NoLoadSegments, [])];
    }
    issues := CheckEntry(img, issues);
    var ranges := SortRanges(RangesOf(loads));
    issues := CheckOverlaps(ranges, issues);
    issues := CheckSegments(loads, issues);
    if img.header.shnum != 0 {
      var valid := img.header.shstrndx < |img.sections| && img.sections[img.header.shstrndx].header.kind == SHT_STRTAB;
      if !valid {
        issues := issues + [Issue(InvalidStringTableIndex, [])];
      }
    }
  }

  method CheckEntry(img: ElfImage, before: seq<Issue>) returns (issues: seq<Issue>)
    ensures issues == before + EntryIssues(img)
  {
    hide Geometry;
    var base, span, entry := ImageBase(img), ImageSpan(img), img.header.entry;
    issues := before;
    if entry != 0 {
      var outside := if base + span <= MAX_U64 then entry < base || entry >= base + span else true;
      if outside {
        issues := issues + [Issue(EntryPointOutOfImage, [entry])];
      }
    }
  }

  /** The window loop. */
  method CheckOverlaps(ranges: seq<Range>, before: seq<Issue>) returns (issues: seq<Issue>)
    ensures issues == before + OverlapIssues(ranges, Pairs(ranges))
  {
    issues := before;
    for k := 0 to Pairs(ranges)
      invariant issues == before + OverlapIssues(ranges, k)
    {
      if ranges[k].end > ranges[k + 1].start {
        issues := issues + [Issue(OverlappingSegments, [ranges[k].index, ranges[k + 1].index])];
      }
    }
  }

  method CheckSegments(loads: seq<ProgramHeader>, before: seq<Issue>) returns (issues: seq<Issue>)
    ensures issues == before + SegmentIssues(loads, |loads|)
  {
    issues := before;
    for k := 0 to |loads|
      invariant issues == before + SegmentIssues(loads, k)
    {
      var h := loads[k];
      if h.filesz > h.memsz {
        issues := issues + [Issue(SegmentFileRangeOutOfBounds, [k])];
      }
      if h.align > 1 && h.offset % h.align != h.vaddr % h.align && h.filesz > 0 {
        issues := issues + [Issue(SegmentVaddrMisaligned, [k])];
      }
    }
  }

  // ---------------------------------------------------------------- what is reported

  predicate Reports(issues: seq<Issue>, code: Code) { exists i :: 0 <= i < |issues| && issues[i].code == code }

  lemma {:induction false} OverlapsAre(s: seq<Range>, k: nat, x: Issue)
    requires k == 0 || k < |s|
    ensures x in OverlapIssues(s, k)
            <==> exists j {:trigger s[j]} :: 0 <= j < k && s[j].end > s[j + 1].start
                             && x == Issue(OverlappingSegments, [s[j].index, s[j + 1].index])
  {
    if k > 0 {
      OverlapsAre(s, k - 1, x);
    }
  }

  lemma {:induction false} SegmentIssuesAre(loads: seq<ProgramHeader>, k: nat)
    requires k <= |loads|
    ensures Reports(SegmentIssues(loads, k), SegmentVaddrMisaligned) <==> exists i :: 0 <= i < k && Misaligned(loads[i])
    ensures !Reports(SegmentIssues(loads, k), OverlappingSegments)
    ensures !Reports(SegmentIssues(loads, k), InvalidStringTableIndex)
  {
    hide Misaligned;
    if k > 0 {
      SegmentIssuesAre(loads, k - 1);
      var a := SegmentIssues(loads, k - 1);
      var b := if loads[k - 1].filesz > loads[k - 1].memsz then [Issue(SegmentFileRangeOutOfBounds, [k - 1])] else [];
      var c := if Misaligned(loads[k - 1]) then [Issue(SegmentVaddrMisaligned, [k - 1])] else [];
      forall code
        ensures Reports(SegmentIssues(loads, k), code) <==> Reports(a, code) || Reports(b, code) || Reports(c, code)
      {
        ReportsConcat(a + b, c, code);
        ReportsConcat(a, b, code);
      }
      if Misaligned(loads[k - 1]) {
        assert c[0].code == SegmentVaddrMisaligned;
      }
    }
  }

  lemma ReportsConcat(xs: seq<Issue>, ys: seq<Issue>, code: Code)
    ensures Reports(xs + ys, code) <==> Reports(xs, code) || Reports(ys, code)
  {
    var all := xs + ys;
    if Reports(xs, code) {
      var i :| 0 <= i < |xs| && xs[i].code == code;
      assert all[i].code == code;
    }
    if Reports(ys, code) {
      var i :| 0 <= i < |ys| && ys[i].code == code;
      assert all[|xs| + i].code == code;
    }
    if Reports(all, code) {
      var i :| 0 <= i < |all| && all[i].code == code;
      if i >= |xs| {
        assert ys[i - |xs|].code == code;
      } else {
        assert xs[i].code == code;
      }
    }
  }

  // ---------------------------------------------------------------- the overlap check is exact

  /** `contains_vaddr`, on a range. */
  predicate Holds(a: Range, v: u64) { a.start <= v < a.end }

  /** A range of no addresses strictly inside another. */
  predicate Pierces(a: Range, b: Range) { a.start == a.end && b.start < a.start < b.end }

  ghost predicate ShareAddress(a: Range, b: Range) { exists v: u64 :: Holds(a, v) && Holds(b, v) }

  ghost predicate Clash(a: Range, b: Range) { ShareAddress(a, b) || Pierces(a, b) || Pierces(b, a) }

  lemma ClashIsOverlap(a: Range, b: Range)
    requires AtMost(a, b) && a.start <= a.end && b.start <= b.end
    ensures a.end > b.start <==> Clash(a, b)
    ensures Clash(a, b) <==> Clash(b, a)
  {
    if a.end > b.start && b.end > b.start {
      assert Holds(a, b.start) && Holds(b, b.start);
    }
  }

  lemma RangesDistinct(loads: seq<ProgramHeader>)
    ensures Distinct(RangesOf(loads))
    ensures Ascending(SortRanges(RangesOf(loads)))
    ensures forall x :: x in SortRanges(RangesOf(loads)) <==> x in RangesOf(loads)
  {
    SortAscends(RangesOf(loads));
    Members(SortRanges(RangesOf(loads)), RangesOf(loads));
  }

  lemma RangeAt(loads: seq<ProgramHeader>, x: Range)
    requires x in RangesOf(loads)
    ensures x.index < |loads| && RangesOf(loads)[x.index] == x && x.start <= x.end
  {
  }

  /** A finding in neighbouring ranges names two loads that clash. */
  lemma NeighboursClash(loads: seq<ProgramHeader>, j: nat)
    requires var s := SortRanges(RangesOf(loads)); j + 1 < |s| && s[j].end > s[j + 1].start
    ensures var s := SortRanges(RangesOf(loads));
            && s[j].index < |loads| && s[j + 1].index < |loads| && s[j].index != s[j + 1].index
            && Clash(RangesOf(loads)[s[j].index], RangesOf(loads)[s[j + 1].index])
  {
    hide Clash, SortRanges, AtMost;
    var s := SortRanges(RangesOf(loads));
    RangesDistinct(loads);
    assert s[j] in s && s[j + 1] in s;
    RangeAt(loads, s[j]);
    RangeAt(loads, s[j + 1]);
    assert AtMost(s[j], s[j + 1]) && s[j] != s[j + 1];
    ClashIsOverlap(s[j], s[j + 1]);
  }

  /** Two clashing loads make some neighbouring ranges overlap: those that start at the earlier of the two. */
  lemma ClashIsSeen(loads: seq<ProgramHeader>, a: nat, b: nat) returns (j: nat)
    requires a < b < |loads| && Clash(RangesOf(loads)[a], RangesOf(loads)[b])
    ensures var s := SortRanges(RangesOf(loads)); j + 1 < |s| && s[j].end > s[j + 1].start
  {
    hide Clash, SortRanges, AtMost;
    var r, s := RangesOf(loads), SortRanges(RangesOf(loads));
    RangesDistinct(loads);
    assert r[a] in s && r[b] in s;
    var p :| 0 <= p < |s| && s[p] == r[a];
    var q :| 0 <= q < |s| && s[q] == r[b];
    var lo, hi := Min(p, q), Max(p, q);
    assert p != q;
    RangeAt(loads, r[a]);
    RangeAt(loads, r[b]);
    assert AtMost(s[lo], s[hi]);
    ClashIsOverlap(s[lo], s[hi]);
    StartsAscend(s, lo + 1, hi);
    j := lo;
  }

  lemma StartsAscend(s: seq<Range>, i: nat, j: nat)
    requires Ascending(s) && i <= j < |s|
    ensures s[i].start <= s[j].start
  {
    assert i < j ==> AtMost(s[i], s[j]);
  }

  /** Which check each finding comes from. */
  lemma IssueSources(img: ElfImage)
    ensures var s := SortRanges(RangesOf(Loads(img)));
            Reports(Issues(img), OverlappingSegments) <==> Reports(OverlapIssues(s, Pairs(s)), OverlappingSegments)
    ensures Reports(Issues(img), SegmentVaddrMisaligned)
            <==> Reports(SegmentIssues(Loads(img), |Loads(img)|), SegmentVaddrMisaligned)
    ensures Reports(Issues(img), InvalidStringTableIndex) <==> NamesNoTable(img)
  {
    hide Loads, SortRanges, RangesOf, Geometry, EntryOutside, NamesNoTable, Misaligned, Reports, SegmentIssues,
         OverlapIssues;
    var loads := Loads(img);
    var s := SortRanges(RangesOf(loads));
    var a, b, c, d, t := NoLoadIssues(loads), EntryIssues(img), OverlapIssues(s, Pairs(s)),
                         SegmentIssues(loads, |loads|), TableIssues(img);
    SegmentIssuesAre(loads, |loads|);
    OnlyOverlaps(s, Pairs(s));
    forall code | code in {OverlappingSegments, SegmentVaddrMisaligned, InvalidStringTableIndex}
      ensures Reports(Issues(img), code) <==> Reports(c, code) || Reports(d, code) || Reports(t, code)
    {
      ReportsConcat(a + b + c + d, t, code);
      ReportsConcat(a + b + c, d, code);
      ReportsConcat(a + b, c, code);
      ReportsConcat(a, b, code);
      ShortReports(a, code);
      ShortReports(b, code);
    }
    ShortReports(t, OverlappingSegments);
    ShortReports(t, SegmentVaddrMisaligned);
    ShortReports(t, InvalidStringTableIndex);
  }

  lemma ShortReports(xs: seq<Issue>, code: Code)
    requires |xs| <= 1
    ensures Reports(xs, code) <==> |xs| == 1 && xs[0].code == code
  {
  }

  lemma OnlyOverlaps(s: seq<Range>, k: nat)
    requires k == 0 || k < |s|
    ensures Reports(OverlapIssues(s, k), OverlappingSegments) <==> OverlapIssues(s, k) != []
    ensures forall code :: Reports(OverlapIssues(s, k), code) ==> code == OverlappingSegments
  {
    var xs := OverlapIssues(s, k);
    forall i | 0 <= i < |xs| ensures xs[i].code == OverlappingSegments {
      OverlapsAre(s, k, xs[i]);
      assert xs[i] in xs;
    }
    assert xs != [] ==> xs[0].code == OverlappingSegments;
  }

  /** Loads `a` and `b` clash in memory. */
  ghost predicate LoadsClash(loads: seq<ProgramHeader>, a: nat, b: nat)
    requires a < |loads| && b < |loads|
  {
    Clash(RangesOf(loads)[a], RangesOf(loads)[b])
  }

  ghost predicate SomeClash(loads: seq<ProgramHeader>) {
    exists a: nat, b: nat :: a < b < |loads| && LoadsClash(loads, a, b)
  }

  /**
   * The overlap check is exact for every image: looking at neighbours in address order reports an overlap if and
   * only if some pair of loads shares an address, as `contains_vaddr` decides it, or a load without addresses lies
   * strictly inside another.
   */
  lemma OverlapCheckIsExact(img: ElfImage)
    ensures Reports(Issues(img), OverlappingSegments) <==> SomeClash(Loads(img))
  {
    hide Loads, Clash, SortRanges, RangesOf, Issues, Reports, AtMost;
    var loads := Loads(img);
    var s := SortRanges(RangesOf(loads));
    IssueSources(img);
    OnlyOverlaps(s, Pairs(s));
    if OverlapIssues(s, Pairs(s)) != [] {
      var x := OverlapIssues(s, Pairs(s))[0];
      OverlapsAre(s, Pairs(s), x);
      var j :| 0 <= j < Pairs(s) && s[j].end > s[j + 1].start
               && x == Issue(OverlappingSegments, [s[j].index, s[j + 1].index]);
      NeighboursClash(loads, j);
      ClashTwice(loads, s[j].index, s[j + 1].index);
    }
    if SomeClash(loads) {
      var a: nat, b: nat :| a < b < |loads| && LoadsClash(loads, a, b);
      var j := ClashIsSeen(loads, a, b);
      OverlapsAre(s, Pairs(s), Issue(OverlappingSegments, [s[j].index, s[j + 1].index]));
    }
  }

  lemma ClashTwice(loads: seq<ProgramHeader>, a: nat, b: nat)
    requires a < |loads| && b < |loads| && a != b && LoadsClash(loads, a, b)
    ensures SomeClash(loads)
  {
    assert LoadsClash(loads, b, a);
    assert if a < b then LoadsClash(loads, a, b) else LoadsClash(loads, b, a);
  }

  /** The address, unbounded, belongs to the load. */
  predicate Occupies(h: ProgramHeader, v: nat) { h.vaddr <= v < h.vaddr + h.memsz }

  ghost predicate SomeShared(loads: seq<ProgramHeader>) {
    exists a: nat, b: nat, v: nat :: a < b < |loads| && Occupies(loads[a], v) && Occupies(loads[b], v)
  }

  /** Loads that have addresses and end inside the address space. */
  ghost predicate Ordinary(loads: seq<ProgramHeader>) {
    forall i :: 0 <= i < |loads| ==> loads[i].memsz > 0 && loads[i].vaddr + loads[i].memsz <= MAX_U64
  }

  /** For ordinary loads, an overlap is reported if and only if some pair of loads shares an address. */
  lemma OverlapMeansShared(img: ElfImage)
    requires Ordinary(Loads(img))
    ensures Reports(Issues(img), OverlappingSegments) <==> SomeShared(Loads(img))
  {
    hide Loads, Issues, Reports, Occupies;
    OverlapCheckIsExact(img);
    var loads := Loads(img);
    if SomeShared(loads) {
      var a: nat, b: nat, v: nat :| a < b < |loads| && Occupies(loads[a], v) && Occupies(loads[b], v);
      SharedIsClash(loads, a, b, v);
      assert LoadsClash(loads, a, b);
    }
    if SomeClash(loads) {
      var a: nat, b: nat :| a < b < |loads| && LoadsClash(loads, a, b);
      var v := ClashIsShared(loads, a, b);
      assert Occupies(loads[a], v) && Occupies(loads[b], v);
    }
  }

  lemma SharedIsClash(loads: seq<ProgramHeader>, a: nat, b: nat, v: nat)
    requires a < |loads| && b < |loads| && Occupies(loads[a], v) && Occupies(loads[b], v)
    requires Ordinary(loads)
    ensures LoadsClash(loads, a, b)
  {
    assert Holds(RangesOf(loads)[a], v) && Holds(RangesOf(loads)[b], v);
  }

  lemma ClashIsShared(loads: seq<ProgramHeader>, a: nat, b: nat) returns (v: nat)
    requires a < |loads| && b < |loads| && Ordinary(loads) && LoadsClash(loads, a, b)
    ensures Occupies(loads[a], v) && Occupies(loads[b], v)
  {
    v :| v <= MAX_U64 && Holds(RangesOf(loads)[a], v) && Holds(RangesOf(loads)[b], v);
  }

  /** An image of two loads and nothing else. */
  function TwoLoads(a: ProgramHeader, b: ProgramHeader): ElfImage {
    var ident := ElfIdent(Elf64, Little, 1, 0, 0);
    ElfImage(ident, ElfHeader(ident, Exec, 62, 1, 0, 0, 0, 0, 0, 0, 0, 0, 0, 0),
             [Segment(a, []), Segment(b, [])], [], 0)
  }

  lemma LoadsOfTwo(a: ProgramHeader, b: ProgramHeader)
    requires a.kind == PT_LOAD && b.kind == PT_LOAD
    ensures Loads(TwoLoads(a, b)) == [a, b]
  {
    assert HeadersOf(TwoLoads(a, b).segments) == [a, b];
    assert [a, b][1..] == [b] && [b][1..] == [];
    assert LoadHeaders([b]) == [b];
  }

  /**
   * Both halves of `Ordinary` are needed. For an image with an empty load inside another `validate` reports an
   * overlap although nothing is shared, and for an image with two loads that share only the last address it
   * reports none.
   */
  lemma OrdinaryIsNeeded(a: ProgramHeader, hole: ProgramHeader, p: ProgramHeader, q: ProgramHeader)
    requires a.kind == hole.kind == p.kind == q.kind == PT_LOAD
    requires a.vaddr == 0x1000 && a.memsz == 0x1000 && hole.vaddr == 0x1800 && hole.memsz == 0
    requires p.vaddr == MAX_U64 - 1 && p.memsz == 2 && q.vaddr == MAX_U64 && q.memsz == 1
    ensures Reports(Issues(TwoLoads(a, hole)), OverlappingSegments) && !SomeShared(Loads(TwoLoads(a, hole)))
    ensures !Reports(Issues(TwoLoads(p, q)), OverlappingSegments) && SomeShared(Loads(TwoLoads(p, q)))
  {
    hide Issues, Reports, TwoLoads, Loads;
    LoadsOfTwo(a, hole);
    LoadsOfTwo(p, q);
    OverlapCheckIsExact(TwoLoads(a, hole));
    OverlapCheckIsExact(TwoLoads(p, q));
    assert LoadsClash([a, hole], 0, 1);
    assert Occupies([p, q][0], MAX_U64) && Occupies([p, q][1], MAX_U64);
  }

  // ---------------------------------------------------------------- a reparsed build

  lemma {:induction false} LoadHeadersAre(hs: seq<ProgramHeader>, h: ProgramHeader)
    ensures h in LoadHeaders(hs) <==> h.kind == PT_LOAD && h in hs
  {
    if hs != [] {
      LoadHeadersAre(hs[1..], h);
      assert h in hs <==> h == hs[0] || h in hs[1..];
    }
  }

  /**
   * How a load's congruence fares in a reparsed build. The file offset is congruent to the address modulo the
   * alignment; what the check compares are the address and the alignment as the class stores them.
   */
  predicate StoredCongruent(c: ElfClass, h: ProgramHeader) {
    var a := Stored(c, h.align);
    a > 1 ==> (h.vaddr % h.align) % a == Stored(c, h.vaddr) % a
  }

  /** Fields that fit the class lose nothing; in ELF64 all do. */
  lemma FittingIsCongruent(c: ElfClass, h: ProgramHeader)
    requires Stored(c, h.vaddr) == h.vaddr && Stored(c, h.align) == h.align
    ensures StoredCongruent(c, h)
  {
    if h.align > 1 {
      Euclid(h.vaddr, h.align);
      ModIs(h.vaddr % h.align, h.align, 0, h.vaddr % h.align);
    }
  }

  /** In ELF32, power-of-two alignments survive the truncation of the address as well. */
  lemma PowerOfTwoIsCongruent(h: ProgramHeader)
    requires FixedPoint.DividesWord(h.align)
    ensures StoredCongruent(Elf32, h)
  {
    if h.align > 1 {
      FixedPoint.TruncationKeepsResidue(h.vaddr, h.align);
      Euclid(h.vaddr, h.align);
      ModIs(h.vaddr % h.align, h.align, 0, h.vaddr % h.align);
    }
  }

  lemma ModOfMod(offset: nat, vaddr: nat, align: nat, a: nat)
    requires a > 1 && align > 0 && offset % align == vaddr % align && (a == align || offset < align)
    ensures offset % a == (vaddr % align) % a
  {
    Euclid(vaddr, align);
    if a == align {
      ModIs(vaddr % align, align, 0, vaddr % align);
    } else {
      ModIs(offset, align, 0, offset);
    }
  }

  lemma WrittenOffset(img: ElfImage, i: nat)
    requires img.header.ident.cls == img.ident.cls && Built(img).Ok?
    requires i < |img.segments| && img.segments[i].IsLoad() && Writable(img.segments[i]) > 0
    ensures var h, n := img.segments[i].header, NormalPhdrs(img)[i];
            && n.offset <= MAX_IMAGE && n.filesz > 0 && (h.align > 0 ==> n.offset % h.align == h.vaddr % h.align)
  {
    hide FileBytes, FileEnd, Congruent, Cursor, SegStart, SecEnd, SegEnd, OffsetOf, Secs;
    BuiltIs(img);
    PhdrFields(img, i);
    Safety.OffsetsAreExact(img);
    SmallIsStored(img.ident.cls, Phdrs(img)[i].offset);
  }

  /** When a reparsed load fails the congruence check. */
  lemma BuiltMisaligned(img: ElfImage, i: nat)
    requires img.header.ident.cls == img.ident.cls && Built(img).Ok? && i < |img.segments| && img.segments[i].IsLoad()
    ensures Misaligned(NormalPhdrs(img)[i])
            <==> Writable(img.segments[i]) > 0 && !StoredCongruent(img.ident.cls, img.segments[i].header)
  {
    hide Built, Congruent, Cursor, SegStart, Place;
    var s, n, a := img.segments[i], NormalPhdrs(img)[i], Stored(img.ident.cls, img.segments[i].header.align);
    assert n.align == a && n.vaddr == Stored(img.ident.cls, s.header.vaddr);
    if Writable(s) > 0 {
      WrittenOffset(img, i);
      if a > 1 {
        ModOfMod(n.offset, s.header.vaddr, s.header.align, a);
      }
    }
  }

  /** Some written load whose congruence the class does not keep. */
  ghost predicate LosesCongruence(img: ElfImage) {
    exists i :: 0 <= i < |img.segments| && img.segments[i].IsLoad() && Writable(img.segments[i]) > 0
                && !StoredCongruent(img.ident.cls, img.segments[i].header)
  }

  predicate MisalignedLoad(h: ProgramHeader) { h.kind == PT_LOAD && Misaligned(h) }

  lemma SomeMisalignedLoad(hs: seq<ProgramHeader>)
    ensures (exists j :: 0 <= j < |LoadHeaders(hs)| && Misaligned(LoadHeaders(hs)[j]))
            <==> exists i :: 0 <= i < |hs| && MisalignedLoad(hs[i])
  {
    hide Misaligned, LoadHeaders;
    var loads := LoadHeaders(hs);
    forall j | 0 <= j < |loads| ensures loads[j] in hs && loads[j].kind == PT_LOAD {
      LoadHeadersAre(hs, loads[j]);
    }
    if i :| 0 <= i < |hs| && MisalignedLoad(hs[i]) {
      LoadHeadersAre(hs, hs[i]);
      var j :| 0 <= j < |loads| && loads[j] == hs[i];
    }
  }

  lemma MisalignedBuilds(img: ElfImage, i: nat)
    requires img.header.ident.cls == img.ident.cls && Built(img).Ok? && i < |img.segments|
    ensures MisalignedLoad(NormalPhdrs(img)[i])
            <==> img.segments[i].IsLoad() && Writable(img.segments[i]) > 0
                 && !StoredCongruent(img.ident.cls, img.segments[i].header)
  {
    hide Built, NormalPhdrs, Misaligned, StoredCongruent, Writable;
    KindIs(img, i);
    if img.segments[i].IsLoad() {
      BuiltMisaligned(img, i);
    }
  }

  lemma SomeMisaligned(img: ElfImage)
    requires img.header.ident.cls == img.ident.cls && Built(img).Ok?
    ensures LosesCongruence(img) <==> exists i :: 0 <= i < |Loads(Normal(img))| && Misaligned(Loads(Normal(img))[i])
  {
    hide Built, NormalPhdrs, MisalignedLoad, StoredCongruent, LoadHeaders, Writable, Misaligned;
    NormalHeaders(img);
    SomeMisalignedLoad(NormalPhdrs(img));
    forall i | 0 <= i < |img.segments|
      ensures MisalignedLoad(NormalPhdrs(img)[i])
              <==> img.segments[i].IsLoad() && Writable(img.segments[i]) > 0
                   && !StoredCongruent(img.ident.cls, img.segments[i].header)
    {
      MisalignedBuilds(img, i);
    }
  }

  lemma NormalHeaders(img: ElfImage)
    ensures Loads(Normal(img)) == LoadHeaders(NormalPhdrs(img)) && |NormalPhdrs(img)| == |img.segments|
  {
    hide NormalPhdrs, Geometry, BuiltHeader, NormalSections, LoadHeaders;
    assert HeadersOf(Normal(img).segments) == NormalPhdrs(img);
  }

  lemma KindIs(img: ElfImage, i: nat)
    requires i < |img.segments|
    ensures NormalPhdrs(img)[i].kind == img.segments[i].header.kind
  {
    hide Congruent, Cursor, Place;
  }

  /** The header of a reparsed build names a string table. */
  lemma TableIsNamed(img: ElfImage)
    requires Built(img).Ok?
    ensures !NamesNoTable(Normal(img))
  {
    hide FileBytes, FileEnd, Congruent, Cursor, Geometry, Blob, NormalSegments, NameOffset, Prepared;
    BuiltIs(img);
    ShoffPositive(img);
    if img.sections != [] {
      NameTableSection(img);
      ShdrFields(img, ShstrtabIndex(Ensured(img.sections)).value);
    }
  }

  /**
   * `validate` of a reparsed build never reports the string-table index, and reports a misaligned load if and
   * only if truncation to the class's width broke a written load's congruence, which ELF64 never does.
   */
  lemma ReparsedBuildIsSound(img: ElfImage)
    requires OneIdent(img) && TextNames(img) && Built(img).Ok?
    ensures Parsed(Built(img).value).Ok?
    ensures var issues := Issues(Parsed(Built(img).value).value);
            && !Reports(issues, InvalidStringTableIndex)
            && (Reports(issues, SegmentVaddrMisaligned) <==> LosesCongruence(img))
    ensures img.ident.cls.Elf64? ==> !LosesCongruence(img)
  {
    hide Built, Normal, Issues, Reports, Loads, Misaligned, StoredCongruent, NamesNoTable, TextNames, Parsed;
    var n := Normal(img);
    ParseInvertsBuild(img, []);
    assert Built(img).value + [] == Built(img).value;
    IssueSources(n);
    TableIsNamed(img);
    SegmentIssuesAre(Loads(n), |Loads(n)|);
    SomeMisaligned(img);
    if img.ident.cls.Elf64? {
      forall i | 0 <= i < |img.segments| ensures StoredCongruent(Elf64, img.segments[i].header) {
        FittingIsCongruent(Elf64, img.segments[i].header);
      }
    }
  }
}
