/** Page-aligned unions of segments (the regions of elf_load_common). */
module ElfRegions {
  import opened Layout
  import opened ElfImage
  import opened SegmentOrder

  datatype Region = Region(lo: nat, hi: nat)

  predicate Spans(r: Region, page: nat) {
    r.lo / PAGE_SIZE <= page < r.hi / PAGE_SIZE
  }

  ghost predicate InRegions(regions: seq<Region>, page: nat) {
    exists i :: 0 <= i < |regions| && Spans(regions[i], page)
  }

  /** Nonempty page-aligned ranges, in order, with a hole between any two. */
  ghost predicate Separated(regions: seq<Region>) {
    && (forall i | 0 <= i < |regions| :: regions[i].lo < regions[i].hi <= IMAGE_END
                                         && regions[i].lo % PAGE_SIZE == 0 && regions[i].hi % PAGE_SIZE == 0)
    && (forall i, j | 0 <= i < j < |regions| :: regions[i].hi < regions[j].lo)
  }

  /** The regions are exactly the pages of the segments, each page in one region only. */
  ghost predicate Cover(regions: seq<Region>, segs: seq<Seg>) {
    && Separated(regions)
    && forall p: nat :: InRegions(regions, p) <==> InImage(segs, p)
  }

  /** A segment's region, rounded outwards to pages. */
  function RegionOf(s: Seg): Region {
    Region(AlignDown(s.vaddr), AlignUp(s.vaddr + s.memsz))
  }

  function Union(a: Region, b: Region): Region {
    Region(a.lo, if b.hi > a.hi then b.hi else a.hi)
  }

  lemma RegionOfFacts(s: Seg)
    requires Validated(s, WORD)
    ensures var r := RegionOf(s);
            r.lo < r.hi <= IMAGE_END && r.lo % PAGE_SIZE == 0 && r.hi % PAGE_SIZE == 0
    ensures forall p: nat :: Touches(s, p) <==> Spans(RegionOf(s), p)
  {
  }

  lemma UnionSpans(a: Region, b: Region)
    requires a.lo % PAGE_SIZE == 0 && a.hi % PAGE_SIZE == 0 && b.lo % PAGE_SIZE == 0 && b.hi % PAGE_SIZE == 0
    requires a.lo <= b.lo <= a.hi
    ensures forall p: nat :: Spans(Union(a, b), p) <==> Spans(a, p) || Spans(b, p)
  {
  }

  lemma ImageOfOneMore(segs: seq<Seg>, i: nat, p: nat)
    requires i < |segs|
    ensures InImage(segs[..i + 1], p) <==> InImage(segs[..i], p) || Touches(segs[i], p)
  {
    var a, b := segs[..i], segs[..i + 1];
    if InImage(a, p) {
      var k :| 0 <= k < |a| && Touches(a[k], p);
      assert b[k] == a[k];
    }
    assert b[i] == segs[i];
    if InImage(b, p) {
      var k :| 0 <= k < |b| && Touches(b[k], p);
      assert k < i ==> a[k] == b[k];
    }
  }

  /** A segment that starts inside or right after the last region extends it. */
  lemma ExtendLast(regions: seq<Region>, segs: seq<Seg>, i: nat, r: Region)
    requires i < |segs| && |regions| > 0 && Cover(regions, segs[..i])
    requires Validated(segs[i], WORD) && r == RegionOf(segs[i])
    requires regions[|regions| - 1].lo <= r.lo <= regions[|regions| - 1].hi
    ensures Cover(regions[|regions| - 1 := Union(regions[|regions| - 1], r)], segs[..i + 1])
  {
    var n := |regions| - 1;
    var last := regions[n];
    var after := regions[n := Union(last, r)];
    RegionOfFacts(segs[i]);
    UnionSpans(last, r);
    forall p: nat
      ensures InRegions(after, p) <==> InImage(segs[..i + 1], p)
    {
      ImageOfOneMore(segs, i, p);
      assert Spans(after[n], p) <==> Spans(last, p) || Touches(segs[i], p);
      if InRegions(regions, p) {
        var k :| 0 <= k < |regions| && Spans(regions[k], p);
        assert Spans(after[k], p);
      }
      if InRegions(after, p) {
        var k :| 0 <= k < |after| && Spans(after[k], p);
        assert k < n ==> Spans(regions[k], p);
      }
    }
  }

  /** A segment that starts beyond the last region opens a new one. */
  lemma AppendRegion(regions: seq<Region>, segs: seq<Seg>, i: nat, r: Region)
    requires i < |segs| && Cover(regions, segs[..i])
    requires Validated(segs[i], WORD) && r == RegionOf(segs[i])
    requires |regions| > 0 ==> regions[|regions| - 1].hi < r.lo
    ensures Cover(regions + [r], segs[..i + 1])
  {
    var after := regions + [r];
    var n := |regions|;
    assert after[n] == r;
    RegionOfFacts(segs[i]);
    forall p: nat
      ensures InRegions(after, p) <==> InImage(segs[..i + 1], p)
    {
      ImageOfOneMore(segs, i, p);
      assert Spans(after[n], p) <==> Touches(segs[i], p);
      if InRegions(regions, p) {
        var k :| 0 <= k < |regions| && Spans(regions[k], p);
        assert Spans(after[k], p);
      }
      if InRegions(after, p) {
        var k :| 0 <= k < |after| && Spans(after[k], p);
        assert k < n ==> Spans(regions[k], p);
      }
    }
    forall k | 0 <= k < n
      ensures after[k].hi < r.lo
    {
      assert k < n - 1 ==> regions[k].hi < regions[n - 1].lo;
    }
  }

  /** The body of the merging loop for segment i. */
  method AddSegment(segs: seq<Seg>, i: nat, regions: array<Region>, n: nat) returns (m: nat)
    requires i < |segs| && Validated(segs[i], WORD) && n <= i < regions.Length
    requires Cover(regions[..n], segs[..i]) && (n > 0 ==> regions[n - 1].lo <= AlignDown(segs[i].vaddr))
    modifies regions
    ensures 0 < m <= i + 1 && Cover(regions[..m], segs[..i + 1])
    ensures regions[m - 1].lo <= AlignDown(segs[i].vaddr)
  {
    var lo := AlignDown(segs[i].vaddr);
    var hi := AlignUp(segs[i].vaddr + segs[i].memsz);
    ghost var was, r := regions[..n], Region(lo, hi);
    if n > 0 && lo <= regions[n - 1].hi {
      ExtendLast(was, segs, i, r);
      if hi > regions[n - 1].hi {
        regions[n - 1] := regions[n - 1].(hi := hi);
      }
      m := n;
      assert regions[..m] == was[n - 1 := Union(was[n - 1], r)];
    } else {
      AppendRegion(was, segs, i, r);
      regions[n] := Region(lo, hi);
      m := n + 1;
      assert regions[..m] == was + [r];
    }
  }

  lemma AlignDownMonotone(a: nat, b: nat)
    requires a <= b
    ensures AlignDown(a) <= AlignDown(b)
  {
  }

  /** The merging loop: regions has room for one region per segment. */
  method MergeRegions(segs: seq<Seg>, regions: array<Region>) returns (n: nat)
    requires ByAddress(segs) && AllValidated(segs, WORD) && regions.Length == |segs|
    modifies regions
    ensures n <= |segs| && (segs != [] ==> n > 0)
    ensures Cover(regions[..n], segs)
  {
    n := 0;
    assert segs[..0] == [];
    for i := 0 to |segs|
      invariant n <= i && (i > 0 ==> n > 0)
      invariant Cover(regions[..n], segs[..i])
      invariant n > 0 ==> regions[n - 1].lo <= AlignDown(segs[i - 1].vaddr)
    {
      if i > 0 {
        AlignDownMonotone(segs[i - 1].vaddr, segs[i].vaddr);
      }
      n := AddSegment(segs, i, regions, n);
    }
    assert segs[..|segs|] == segs;
  }
}
