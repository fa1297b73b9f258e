/** What the geometry means: the tightest page-aligned window around the non-empty loads. */
module GeometryLaws {
  import opened Arith
  import opened Bytes
  import opened Headers
  import opened Images
  import opened Mapped

  predicate NonEmpty(l: Load) { l.memsz != 0 }

  /** Every non-empty load starts at or above `v`. */
  ghost predicate Below(loads: seq<Load>, v: nat) { forall l :: l in loads && NonEmpty(l) ==> v <= l.vaddr }

  /** Every non-empty load ends at or below `e`. */
  ghost predicate Above(loads: seq<Load>, e: nat) { forall l :: l in loads && NonEmpty(l) ==> l.End() <= e }

  /** Every non-empty load is aligned to at most `p`. */
  ghost predicate Coarse(loads: seq<Load>, p: nat) { forall l :: l in loads && NonEmpty(l) ==> l.align <= p }

  /** `v` is the least load address. */
  ghost predicate IsLow(loads: seq<Load>, v: nat) {
    Below(loads, v) && exists l :: l in loads && NonEmpty(l) && l.vaddr == v
  }

  /** `e` is the greatest load end. */
  ghost predicate IsHigh(loads: seq<Load>, e: nat) {
    Above(loads, e) && exists l :: l in loads && NonEmpty(l) && l.End() == e
  }

  /** `p` is the greatest of the default page and the alignments of the non-empty loads. */
  ghost predicate IsPage(loads: seq<Load>, p: nat) {
    Coarse(loads, p) && p >= 0x1000 && (p == 0x1000 || exists l :: l in loads && NonEmpty(l) && l.align == p)
  }

  ghost predicate AllEmpty(loads: seq<Load>) { forall l :: l in loads ==> !NonEmpty(l) }

  // ---------------------------------------------------------------- the folds are extrema

  lemma InAppended(init: seq<Load>, last: Load)
    ensures forall l :: l in init + [last] <==> l in init || l == last
    ensures AllEmpty(init + [last]) <==> AllEmpty(init) && !NonEmpty(last)
  {
    var all := init + [last];
    assert all[|init|] == last;
    forall l | l in init ensures l in all {
      var i :| 0 <= i < |init| && init[i] == l;
      assert all[i] == l;
    }
  }

  lemma {:induction false} PageIsGreatest(loads: seq<Load>)
    ensures IsPage(loads, PageOf(loads))
    decreases |loads|
  {
    if loads != [] {
      var k := |loads| - 1;
      PageIsGreatest(loads[..k]);
      assert loads == loads[..k] + [loads[k]];
      InAppended(loads[..k], loads[k]);
    }
  }

  lemma {:induction false} LowIsLeast(loads: seq<Load>)
    ensures MinVaddr(loads).None? <==> AllEmpty(loads)
    ensures MinVaddr(loads).Some? ==> IsLow(loads, MinVaddr(loads).value)
    decreases |loads|
  {
    if loads != [] {
      var k := |loads| - 1;
      LowIsLeast(loads[..k]);
      assert loads == loads[..k] + [loads[k]];
      InAppended(loads[..k], loads[k]);
    }
  }

  lemma {:induction false} HighIsGreatest(loads: seq<Load>)
    ensures AllEmpty(loads) ==> MaxEnd(loads) == 0
    ensures !AllEmpty(loads) ==> IsHigh(loads, MaxEnd(loads))
    decreases |loads|
  {
    if loads != [] {
      var k := |loads| - 1;
      HighIsGreatest(loads[..k]);
      assert loads == loads[..k] + [loads[k]];
      InAppended(loads[..k], loads[k]);
    }
  }

  // ---------------------------------------------------------------- order does not matter

  lemma SameLoads(xs: seq<Load>, ys: seq<Load>)
    requires multiset(xs) == multiset(ys)
    ensures forall l :: l in xs <==> l in ys
  {
    forall l ensures l in xs <==> l in ys {
      assert l in xs <==> l in multiset(xs);
      assert l in ys <==> l in multiset(ys);
    }
  }

  lemma ExtremaAgree(xs: seq<Load>, ys: seq<Load>)
    requires forall l :: l in xs <==> l in ys
    ensures PageOf(xs) == PageOf(ys) && MinVaddr(xs) == MinVaddr(ys) && MaxEnd(xs) == MaxEnd(ys)
  {
    hide PageOf, MinVaddr, MaxEnd;
    PageIsGreatest(xs);
    PageIsGreatest(ys);
    LowIsLeast(xs);
    LowIsLeast(ys);
    HighIsGreatest(xs);
    HighIsGreatest(ys);
  }

  /** The geometry does not depend on the order of the loads, or on their multiplicity. */
  lemma OrderDoesNotMatter(xs: seq<Load>, ys: seq<Load>)
    requires multiset(xs) == multiset(ys)
    ensures GeometryOf(xs) == GeometryOf(ys)
  {
    hide PageOf, MinVaddr, MaxEnd, AlignUp, FloorTo;
    SameLoads(xs, ys);
    ExtremaAgree(xs, ys);
  }

  // ---------------------------------------------------------------- the window

  predicate MultipleOf(v: nat, page: nat) { page > 0 && v % page == 0 }

  lemma FloorIsGreatest(v: u64, page: u64)
    requires page > 0
    ensures MultipleOf(FloorTo(v, page), page) && FloorTo(v, page) <= v
    ensures forall m: nat :: MultipleOf(m, page) && m <= v ==> m <= FloorTo(v, page)
  {
    Euclid(v, page);
    var base := FloorTo(v, page);
    ModIs(base, page, v / page, 0);
    forall m: nat | MultipleOf(m, page) && m <= v ensures m <= base {
      if base < m {
        MultiplesApart(base, m, page);
      }
    }
  }

  /** The least multiple of the page at or above `v`, without saturation. */
  function CeilTo(v: nat, page: nat): (r: nat)
    requires page > 0
    ensures r >= v
  {
    if v % page == 0 then v else v + (page - v % page)
  }

  lemma CeilIsLeast(v: nat, page: nat)
    requires page > 0
    ensures MultipleOf(CeilTo(v, page), page)
    ensures forall m: nat :: MultipleOf(m, page) && v <= m ==> CeilTo(v, page) <= m
  {
    Euclid(v, page);
    var top := CeilTo(v, page);
    if v % page != 0 {
      assert top == page * (v / page + 1);
      ModIs(top, page, v / page + 1, 0);
    }
    forall m: nat | MultipleOf(m, page) && v <= m ensures top <= m {
      if m < top {
        MultiplesApart(m, top, page);
      }
    }
  }

  /** `align_up` is the least multiple, except that it saturates. */
  lemma AlignUpSaturates(v: u64, page: u64)
    requires page > 1
    ensures AlignUp(v, page) == Min(CeilTo(v, page), MAX_U64)
  {
  }

  /** The window of a geometry that has loads, and where its parts come from. */
  lemma GeometryParts(loads: seq<Load>)
    requires !AllEmpty(loads)
    ensures MinVaddr(loads).Some?
    ensures var g, low, top := GeometryOf(loads), MinVaddr(loads).value, MaxEnd(loads);
            && IsLow(loads, low) && IsHigh(loads, top) && IsPage(loads, g.page) && low <= top
            && g.base == FloorTo(low, g.page) && g.base + g.span == AlignUp(top, g.page)
  {
    hide PageOf, MinVaddr, MaxEnd, AlignUp, FloorTo;
    PageIsGreatest(loads);
    LowIsLeast(loads);
    HighIsGreatest(loads);
  }

  /**
   * The window `base..base + span` encloses every non-empty load, its base is the highest multiple of the page
   * below them all, and no multiple of the page above them all is below its end. The end is itself a multiple,
   * and so the window the tightest, unless rounding up saturated. The page is at least every alignment.
   */
  lemma WindowIsTightest(loads: seq<Load>)
    requires !AllEmpty(loads)
    ensures var g := GeometryOf(loads);
            && IsPage(loads, g.page)
            && Below(loads, g.base) && Above(loads, g.base + g.span)
            && MultipleOf(g.base, g.page)
            && (forall m: nat :: MultipleOf(m, g.page) && Below(loads, m) ==> m <= g.base)
            && (forall m: nat :: MultipleOf(m, g.page) && Above(loads, m) ==> g.base + g.span <= m)
            && (MultipleOf(g.base + g.span, g.page) <==>
                  g.base + g.span < MAX_U64 || MultipleOf(MAX_U64, g.page))
  {
    hide PageOf, MinVaddr, MaxEnd, AlignUp, FloorTo, GeometryOf, CeilTo;
    GeometryParts(loads);
    var g, low, top := GeometryOf(loads), MinVaddr(loads).value, MaxEnd(loads);
    FloorIsGreatest(low, g.page);
    CeilIsLeast(top, g.page);
    AlignUpSaturates(top, g.page);
  }

  // ---------------------------------------------------------------- power-of-two alignments

  function Pow2(k: nat): (p: nat)
    ensures p > 0
  {
    if k == 0 then 1 else 2 * Pow2(k - 1)
  }

  ghost predicate IsPow2(n: nat) { exists k: nat :: n == Pow2(k) }

  lemma {:induction false} Pow2Splits(k: nat, m: nat)
    requires k <= m
    ensures Pow2(m) == Pow2(k) * Pow2(m - k)
  {
    if k < m {
      Pow2Splits(k, m - 1);
      TwiceProduct(Pow2(k), Pow2(m - 1 - k));
    }
  }

  lemma TwiceProduct(a: nat, b: nat)
    ensures 2 * (a * b) == a * (2 * b)
  {
  }

  lemma {:induction false} Pow2Grows(k: nat, m: nat)
    requires k < m
    ensures Pow2(k) < Pow2(m)
  {
    if k < m - 1 {
      Pow2Grows(k, m - 1);
    }
  }

  /** A multiple of a power of two is a multiple of every smaller one. */
  lemma SmallerPowerDivides(a: nat, page: nat, v: nat)
    requires IsPow2(a) && IsPow2(page) && a <= page && MultipleOf(v, page)
    ensures MultipleOf(v, a)
  {
    hide Pow2;
    var k: nat :| a == Pow2(k);
    var m: nat :| page == Pow2(m);
    if m < k {
      Pow2Grows(m, k);
    }
    Pow2Splits(k, m);
    MultipleOfFactor(v, a, Pow2(m - k));
  }

  lemma MultipleOfFactor(v: nat, a: nat, b: nat)
    requires a > 0 && a * b > 0 && v % (a * b) == 0
    ensures v % a == 0
  {
    var q := v / (a * b);
    Euclid(v, a * b);
    assert v == a * (b * q) by {
      assert (a * b) * q == a * (b * q);
    }
    MulNonNeg(b, q);
    ModIs(v, a, b * q, 0);
  }

  /** When every alignment above one is a power of two, the base is a multiple of each of them. */
  lemma BaseSuitsEveryLoad(loads: seq<Load>, l: Load)
    requires !AllEmpty(loads) && l in loads && NonEmpty(l) && l.align > 1
    requires forall x :: x in loads && NonEmpty(x) && x.align > 1 ==> IsPow2(x.align)
    ensures MultipleOf(GeometryOf(loads).base, l.align)
  {
    hide GeometryOf, Pow2;
    WindowIsTightest(loads);
    var g := GeometryOf(loads);
    DefaultPageIsPow2();
    if g.page != 0x1000 {
      var x :| x in loads && NonEmpty(x) && x.align == g.page;
    }
    SmallerPowerDivides(l.align, g.page, g.base);
  }

  lemma DefaultPageIsPow2()
    ensures IsPow2(0x1000)
  {
    assert Pow2(4) == 16;
    Pow2Splits(4, 8);
    Pow2Splits(4, 12);
    assert 0x1000 == Pow2(12);
  }

  // ---------------------------------------------------------------- what the window means for the loader image

  lemma {:induction false} LoadIn(hs: seq<ProgramHeader>, i: nat)
    requires i < |hs| && hs[i].kind == PT_LOAD
    ensures Load(hs[i].vaddr, hs[i].memsz, hs[i].align) in LoadsOf(hs)
    decreases |hs|
  {
    if i < |hs| - 1 {
      LoadIn(hs[..|hs| - 1], i);
    }
  }

  /** A load with memory starts inside the image, and fits it when its end does not saturate. */
  lemma LoadInsideImage(img: ElfImage, i: nat)
    requires i < |img.segments| && img.segments[i].IsLoad() && img.segments[i].header.memsz > 0
    ensures var h := img.segments[i].header;
            && ImageBase(img) <= h.vaddr <= ImageBase(img) + ImageSpan(img)
            && (h.vaddr + h.memsz <= MAX_U64 ==>
                  h.vaddr + h.memsz <= ImageBase(img) + ImageSpan(img) && h.memsz <= ImageSpan(img))
  {
    hide GeometryOf, LoadsOf;
    var h, loads := img.segments[i].header, LoadsOf(HeadersOf(img.segments));
    var l := Load(h.vaddr, h.memsz, h.align);
    LoadIn(HeadersOf(img.segments), i);
    assert l in loads && NonEmpty(l);
    WindowIsTightest(loads);
  }

  /**
   * The precondition of the loader-image writer, exactly: only a load without memory can start outside the image,
   * since the geometry ignores such loads.
   */
  lemma OnlyEmptyLoadsFallOutside(img: ElfImage)
    ensures LoadsStartInside(img)
            <==> forall i :: 0 <= i < |img.segments| && img.segments[i].IsLoad()
                             && img.segments[i].header.memsz == 0 ==>
                   img.segments[i].header.vaddr <= ImageBase(img) + ImageSpan(img)
  {
    hide ImageBase, ImageSpan;
    forall i | 0 <= i < |img.segments| && img.segments[i].IsLoad() && img.segments[i].header.memsz > 0
      ensures ImageBase(img) <= img.segments[i].header.vaddr <= ImageBase(img) + ImageSpan(img)
    {
      LoadInsideImage(img, i);
    }
  }

  // ---------------------------------------------------------------- headers with the same memory

  /** Two headers describe the same memory. */
  predicate SameMemory(h: ProgramHeader, k: ProgramHeader) {
    h.kind == k.kind && (h.kind == PT_LOAD ==> h.vaddr == k.vaddr && h.memsz == k.memsz && h.align == k.align)
  }

  ghost predicate AllSameMemory(hs: seq<ProgramHeader>, ks: seq<ProgramHeader>) {
    |hs| == |ks| && forall i :: 0 <= i < |hs| ==> SameMemory(hs[i], ks[i])
  }

  lemma {:induction false} SameMemoryLoads(hs: seq<ProgramHeader>, ks: seq<ProgramHeader>)
    requires AllSameMemory(hs, ks)
    ensures LoadsOf(hs) == LoadsOf(ks)
    decreases |hs|
  {
    if hs != [] {
      SameMemoryLoads(hs[..|hs| - 1], ks[..|ks| - 1]);
      assert SameMemory(hs[|hs| - 1], ks[|ks| - 1]);
    }
  }

  /** The geometry, and whether the loader image can be written, depend on the memory headers describe. */
  lemma SameMemoryMaps(a: ElfImage, b: ElfImage)
    requires AllSameMemory(HeadersOf(a.segments), HeadersOf(b.segments))
    ensures |a.segments| == |b.segments|
    ensures ImageBase(a) == ImageBase(b) && ImageSpan(a) == ImageSpan(b)
    ensures MappedAtHome(a).Ok? <==> MappedAtHome(b).Ok?
    ensures LoadsStartInside(a) <==> LoadsStartInside(b)
  {
    hide GeometryOf, HeaderBlock, PlaceLoads;
    var hs, ks := HeadersOf(a.segments), HeadersOf(b.segments);
    SameMemoryLoads(hs, ks);
    assert |a.segments| == |hs| == |ks| == |b.segments|;
    forall i | 0 <= i < |a.segments|
      ensures LoadStart(a.segments[i], ImageBase(a)) == LoadStart(b.segments[i], ImageBase(b))
    {
      assert SameMemory(hs[i], ks[i]);
    }
  }
}
