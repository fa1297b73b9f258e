/** What `validate` reports, finding by finding, in the fields of the image. */
module Findings {
  import opened Bytes
  import opened Headers
  import opened Images
  import opened Selection
  import opened Validate

  // ---------------------------------------------------------------- load numbers

  function AreLoads(segments: seq<Segment>): nat -> bool {
    (i: nat) => i < |segments| && segments[i].header.kind == 1
  }

  /** Load number `k` is the segment at position `LoadNumbers(img)[k]`. */
  function LoadNumbers(img: ElfImage): (f: seq<nat>)
    ensures forall k :: 0 <= k < |f| ==> f[k] < |img.segments|
  {
    var f := Chosen(|img.segments|, AreLoads(img.segments));
    assert forall k :: 0 <= k < |f| ==> f[k] in f;
    f
  }

  /** The program header of load number `k`. */
  function LoadHeader(img: ElfImage, k: nat): ProgramHeader
    requires k < |LoadNumbers(img)|
  {
    img.segments[LoadNumbers(img)[k]].header
  }

  lemma {:induction false} LoadHeadersLast(hs: seq<ProgramHeader>, h: ProgramHeader)
    ensures LoadHeaders(hs + [h]) == LoadHeaders(hs) + if h.kind == PT_LOAD then [h] else []
    decreases |hs|
  {
    if hs == [] {
      assert hs + [h] == [h] && [h][1..] == [];
    } else {
      LoadHeadersLast(hs[1..], h);
      assert (hs + [h])[1..] == hs[1..] + [h];
    }
  }

  lemma {:induction false} LoadsChosen(segments: seq<Segment>, k: nat)
    requires k <= |segments|
    ensures var f, r := Chosen(k, AreLoads(segments)), LoadHeaders(HeadersOf(segments)[..k]);
            |r| == |f| && forall j :: 0 <= j < |f| ==> f[j] in f && r[j] == segments[f[j]].header
  {
    hide LoadHeaders;
    var hs := HeadersOf(segments);
    if k > 0 {
      LoadsChosen(segments, k - 1);
      assert hs[..k] == hs[..k - 1] + [hs[k - 1]];
      LoadHeadersLast(hs[..k - 1], hs[k - 1]);
    } else {
      NoHeaders();
      assert hs[..0] == [];
    }
  }

  lemma NoHeaders()
    ensures LoadHeaders([]) == []
  {
  }

  lemma LoadsAre(img: ElfImage)
    ensures |Loads(img)| == |LoadNumbers(img)|
    ensures forall k :: 0 <= k < |Loads(img)| ==> Loads(img)[k] == LoadHeader(img, k)
  {
    hide LoadHeaders;
    LoadsChosen(img.segments, |img.segments|);
    assert HeadersOf(img.segments)[..|img.segments|] == HeadersOf(img.segments);
  }

  // ---------------------------------------------------------------- overlaps

  /** The end of a load's range; past the address space, its last address. */
  function RangeEnd(h: ProgramHeader): nat { Min(h.vaddr + h.memsz, 0xFFFF_FFFF_FFFF_FFFF) }

  /** Load `a` comes before load `b` by address, then by end, then by number. */
  predicate Earlier(img: ElfImage, a: nat, b: nat)
    requires a < |LoadNumbers(img)| && b < |LoadNumbers(img)|
  {
    var g, h := LoadHeader(img, a), LoadHeader(img, b);
    || g.vaddr < h.vaddr
    || (g.vaddr == h.vaddr && (RangeEnd(g) < RangeEnd(h) || (RangeEnd(g) == RangeEnd(h) && a < b)))
  }

  /** Load `b` is the next after load `a`. */
  ghost predicate Neighbours(img: ElfImage, a: nat, b: nat) {
    && a < |LoadNumbers(img)| && b < |LoadNumbers(img)| && Earlier(img, a, b)
    && forall c :: 0 <= c < |LoadNumbers(img)| ==> !(Earlier(img, a, c) && Earlier(img, c, b))
  }

  /** The address range of load `k`. */
  function RangeOf(img: ElfImage, k: nat): (x: Range)
    requires k < |LoadNumbers(img)|
    ensures x.index == k && x.start == LoadHeader(img, k).vaddr && x.end == RangeEnd(LoadHeader(img, k))
  {
    Range(LoadHeader(img, k).vaddr, RangeEnd(LoadHeader(img, k)), k)
  }

  lemma RangesAre(img: ElfImage)
    ensures |RangesOf(Loads(img))| == |LoadNumbers(img)|
    ensures forall k :: 0 <= k < |LoadNumbers(img)| ==> RangesOf(Loads(img))[k] == RangeOf(img, k)
  {
    hide LoadNumbers, Loads;
    LoadsAre(img);
  }

  predicate Precedes(x: Range, y: Range) { AtMost(x, y) && x != y }

  lemma EarlierIs(img: ElfImage, a: nat, b: nat)
    requires a < |LoadNumbers(img)| && b < |LoadNumbers(img)|
    ensures Earlier(img, a, b) <==> Precedes(RangeOf(img, a), RangeOf(img, b))
  {
    hide LoadNumbers;
  }

  /** Members of an ascending list stand next to each other if and only if none lies between. */
  lemma NextInOrder(s: seq<Range>, x: Range, y: Range)
    requires Ascending(s) && x in s && y in s
    ensures (exists j {:trigger s[j]} :: 0 <= j < |s| - 1 && s[j] == x && s[j + 1] == y)
            <==> Precedes(x, y) && forall z :: z in s ==> !(Precedes(x, z) && Precedes(z, y))
  {
    hide AtMost;
    var p :| 0 <= p < |s| && s[p] == x;
    var q :| 0 <= q < |s| && s[q] == y;
    forall k | 0 <= k < |s| ensures (Precedes(x, s[k]) <==> p < k) && (Precedes(s[k], y) <==> k < q) {
      PlaceDecides(s, p, k);
      PlaceDecides(s, k, q);
    }
    if p < q - 1 {
      assert s[p + 1] in s;
    }
  }

  lemma PlaceDecides(s: seq<Range>, i: nat, j: nat)
    requires Ascending(s) && i < |s| && j < |s|
    ensures Precedes(s[i], s[j]) <==> i < j
  {
    hide AtMost;
    if j < i && AtMost(s[i], s[j]) {
      NotBoth(s[j], s[i]);
    }
  }

  lemma NotBoth(x: Range, y: Range)
    requires AtMost(x, y) && AtMost(y, x)
    ensures x == y
  {
  }

  /** A reported overlap names two loads next to each other in address order, the first reaching into the second. */
  ghost predicate OverlapFound(img: ElfImage, context: seq<nat>) {
    && |context| == 2 && Neighbours(img, context[0], context[1])
    && RangeEnd(LoadHeader(img, context[0])) > LoadHeader(img, context[1]).vaddr
  }

  /** The sorted ranges of the loads. */
  function Sorted(img: ElfImage): seq<Range> { SortRanges(RangesOf(Loads(img))) }

  lemma SortedAre(img: ElfImage)
    ensures Ascending(Sorted(img))
    ensures forall k :: 0 <= k < |LoadNumbers(img)| ==> RangeOf(img, k) in Sorted(img)
    ensures forall z :: z in Sorted(img) ==> z.index < |LoadNumbers(img)| && z == RangeOf(img, z.index)
  {
    hide LoadNumbers, Loads, SortRanges, AtMost, RangesOf, RangeOf;
    RangesDistinct(Loads(img));
    RangesAre(img);
    forall z | z in Sorted(img) ensures z.index < |LoadNumbers(img)| && z == RangeOf(img, z.index) {
      RangeAt(Loads(img), z);
    }
  }

  lemma OverlapIsFound(img: ElfImage, x: Issue)
    requires x in OverlapIssues(Sorted(img), Pairs(Sorted(img)))
    ensures x.code == OverlappingSegments && OverlapFound(img, x.context)
  {
    hide Sorted, OverlapFound, OverlapIssues;
    var s := Sorted(img);
    OverlapsAre(s, Pairs(s), x);
    var j :| 0 <= j < Pairs(s) && s[j].end > s[j + 1].start
             && x == Issue(OverlappingSegments, [s[j].index, s[j + 1].index]);
    OverlapAt(img, j);
  }

  lemma OverlapAt(img: ElfImage, j: nat)
    requires j < |Sorted(img)| - 1 && Sorted(img)[j].end > Sorted(img)[j + 1].start
    ensures OverlapFound(img, [Sorted(img)[j].index, Sorted(img)[j + 1].index])
  {
    hide LoadNumbers, Sorted, AtMost, Earlier, LoadHeader, RangeEnd, Neighbours;
    var s := Sorted(img);
    SortedAre(img);
    assert s[j] in s && s[j + 1] in s;
    NeighboursAre(img, s, s[j].index, s[j + 1].index);
  }

  lemma OverlapIsReported(img: ElfImage, context: seq<nat>)
    requires OverlapFound(img, context)
    ensures Issue(OverlappingSegments, context) in OverlapIssues(Sorted(img), Pairs(Sorted(img)))
  {
    hide LoadNumbers, Sorted, AtMost, Earlier, LoadHeader, RangeEnd, OverlapIssues;
    var s, a, b := Sorted(img), context[0], context[1];
    assert context == [a, b];
    SortedAre(img);
    NeighboursAre(img, s, a, b);
    var j :| 0 <= j < |s| - 1 && s[j] == RangeOf(img, a) && s[j + 1] == RangeOf(img, b);
    OverlapsAre(s, Pairs(s), Issue(OverlappingSegments, context));
  }

  lemma OverlapsFound(img: ElfImage, x: Issue)
    ensures x in OverlapIssues(Sorted(img), Pairs(Sorted(img)))
            <==> x.code == OverlappingSegments && OverlapFound(img, x.context)
  {
    hide Sorted, OverlapFound, OverlapIssues;
    if x in OverlapIssues(Sorted(img), Pairs(Sorted(img))) {
      OverlapIsFound(img, x);
    }
    if x.code == OverlappingSegments && OverlapFound(img, x.context) {
      OverlapIsReported(img, x.context);
    }
  }

  lemma NeighboursAre(img: ElfImage, s: seq<Range>, a: nat, b: nat)
    requires a < |LoadNumbers(img)| && b < |LoadNumbers(img)| && Ascending(s)
    requires forall k :: 0 <= k < |LoadNumbers(img)| ==> RangeOf(img, k) in s
    requires forall z :: z in s ==> z.index < |LoadNumbers(img)| && z == RangeOf(img, z.index)
    ensures Neighbours(img, a, b)
            <==> exists j {:trigger s[j]} :: 0 <= j < |s| - 1 && s[j] == RangeOf(img, a) && s[j + 1] == RangeOf(img, b)
  {
    hide LoadNumbers, Earlier, LoadHeader, AtMost;
    NextInOrder(s, RangeOf(img, a), RangeOf(img, b));
    forall c, d | 0 <= c < |LoadNumbers(img)| && 0 <= d < |LoadNumbers(img)|
      ensures Earlier(img, c, d) <==> Precedes(RangeOf(img, c), RangeOf(img, d))
    {
      EarlierIs(img, c, d);
    }
  }

  // ---------------------------------------------------------------- the other findings

  predicate NoLoadFound(img: ElfImage, context: seq<nat>) {
    context == [] && forall i :: 0 <= i < |img.segments| ==> img.segments[i].header.kind != 1
  }

  /** The entry point, unless zero, outside the window of the loads; a window past the address space holds nothing. */
  predicate EntryFound(img: ElfImage, context: seq<nat>) {
    var base, end, entry := ImageBase(img), ImageBase(img) + ImageSpan(img), img.header.entry;
    context == [entry] && entry != 0 && (end > 0xFFFF_FFFF_FFFF_FFFF || entry < base || entry >= end)
  }

  predicate FileRangeFound(img: ElfImage, context: seq<nat>) {
    && |context| == 1 && context[0] < |LoadNumbers(img)|
    && LoadHeader(img, context[0]).filesz > LoadHeader(img, context[0]).memsz
  }

  predicate MisalignedFound(img: ElfImage, context: seq<nat>) {
    && |context| == 1 && context[0] < |LoadNumbers(img)|
    && var h := LoadHeader(img, context[0]);
       h.filesz > 0 && h.align > 1 && h.offset % h.align != h.vaddr % h.align
  }

  predicate TableFound(img: ElfImage, context: seq<nat>) {
    && context == [] && img.header.shnum > 0
    && !(img.header.shstrndx < |img.sections| && img.sections[img.header.shstrndx].header.kind == 3)
  }

  ghost predicate Found(img: ElfImage, x: Issue) {
    match x.code
    case NoLoadSegments => NoLoadFound(img, x.context)
    case EntryPointOutOfImage => EntryFound(img, x.context)
    case OverlappingSegments => OverlapFound(img, x.context)
    case SegmentFileRangeOutOfBounds => FileRangeFound(img, x.context)
    case SegmentVaddrMisaligned => MisalignedFound(img, x.context)
    case InvalidStringTableIndex => TableFound(img, x.context)
  }

  lemma {:induction false} SegmentsFound(loads: seq<ProgramHeader>, k: nat, x: Issue)
    requires k <= |loads|
    ensures x in SegmentIssues(loads, k)
            <==> |x.context| == 1 && x.context[0] < k
                 && var h := loads[x.context[0]];
                    || (x.code == SegmentFileRangeOutOfBounds && h.filesz > h.memsz)
                    || (x.code == SegmentVaddrMisaligned && Misaligned(h))
  {
    hide Misaligned;
    if k > 0 {
      SegmentsFound(loads, k - 1, x);
      if |x.context| == 1 {
        assert x.context == [x.context[0]];
      }
    }
  }

  lemma NoLoadsFound(img: ElfImage, x: Issue)
    ensures x in NoLoadIssues(Loads(img)) <==> x.code == NoLoadSegments && NoLoadFound(img, x.context)
  {
    hide Loads;
    LoadsAre(img);
    var f := LoadNumbers(img);
    if |f| == 0 {
      forall i: nat | i < |img.segments| ensures img.segments[i].header.kind != 1 {
        assert i !in f;
      }
    } else {
      assert f[0] in f;
    }
  }

  lemma LoadFindings(img: ElfImage, x: Issue)
    ensures x in SegmentIssues(Loads(img), |Loads(img)|)
            <==> || (x.code == SegmentFileRangeOutOfBounds && FileRangeFound(img, x.context))
                 || (x.code == SegmentVaddrMisaligned && MisalignedFound(img, x.context))
  {
    hide Loads, LoadNumbers, SegmentIssues;
    LoadsAre(img);
    SegmentsFound(Loads(img), |Loads(img)|, x);
  }

  lemma EntryIs(img: ElfImage, x: Issue)
    ensures x in EntryIssues(img) <==> x.code == EntryPointOutOfImage && EntryFound(img, x.context)
    ensures x in TableIssues(img) <==> x.code == InvalidStringTableIndex && TableFound(img, x.context)
  {
    hide Geometry;
  }

  /** Validation, exactly: a finding with its context is reported if and only if the image has it. */
  lemma ReportsExactly(img: ElfImage, x: Issue)
    ensures x in Issues(img) <==> Found(img, x)
  {
    hide Loads, SortRanges, RangesOf, OverlapIssues, SegmentIssues, EntryIssues, TableIssues, NoLoadIssues,
         OverlapFound, NoLoadFound, EntryFound, FileRangeFound, MisalignedFound, TableFound;
    NoLoadsFound(img, x);
    EntryIs(img, x);
    OverlapsFound(img, x);
    LoadFindings(img, x);
  }
}
