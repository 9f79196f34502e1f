/** What the loadable segments of an executable mean (System V gABI, chapter 5, Program Header). */
module ElfImage {
  import opened Layout
  import opened Ram

  datatype SegFlags = SegFlags(read: bool, write: bool, exec: bool)

  /** One PT_LOAD segment. */
  datatype Seg = Seg(vaddr: Word, filesz: Word, memsz: Word, offset: Word, flags: SegFlags)

  /** Segments must end below the reserved stack. */
  const IMAGE_END := USER_STACK_TOP - USER_STACK_SIZE

  /** The checks elf32_load makes on each segment it keeps. */
  predicate Validated(s: Seg, fileSize: nat) {
    && s.memsz != 0
    && s.filesz <= s.memsz
    && s.vaddr + s.memsz <= IMAGE_END
    && s.offset + s.filesz <= fileSize
  }

  predicate AllValidated(segs: seq<Seg>, fileSize: nat) {
    forall i | 0 <= i < |segs| :: Validated(segs[i], fileSize)
  }

  function FirstPage(s: Seg): nat {
    s.vaddr / PAGE_SIZE
  }

  /** One past the last page. */
  function LastPage(s: Seg): nat {
    AlignUp(s.vaddr + s.memsz) / PAGE_SIZE
  }

  /** The page lies in the segment rounded outwards to pages. */
  predicate Touches(s: Seg, page: nat) {
    FirstPage(s) <= page < LastPage(s)
  }

  /** The page belongs to the image. */
  ghost predicate InImage(segs: seq<Seg>, page: nat) {
    exists i :: 0 <= i < |segs| && Touches(segs[i], page)
  }

  /** Some writable segment touches the page. */
  ghost predicate Writable(segs: seq<Seg>, page: nat) {
    exists i :: 0 <= i < |segs| && Touches(segs[i], page) && segs[i].flags.write
  }

  /** The address is backed by the file through this segment. */
  predicate Backed(s: Seg, addr: nat) {
    s.vaddr <= addr < s.vaddr + s.filesz
  }

  /** The byte of the image: that of the last segment backing the address, zero when there is none. */
  function ByteAt(segs: seq<Seg>, file: seq<byte>, addr: nat): byte
    requires AllValidated(segs, |file|)
  {
    if segs == [] then 0
    else
      var last := segs[|segs| - 1];
      if Backed(last, addr) then file[last.offset + (addr - last.vaddr)]
      else ByteAt(segs[..|segs| - 1], file, addr)
  }

  /** ByteAt names the last covering segment outright. */
  lemma {:induction false} ByteOfLastCovering(segs: seq<Seg>, file: seq<byte>, addr: nat, i: nat)
    requires AllValidated(segs, |file|)
    requires i < |segs| && Backed(segs[i], addr) && forall j | i < j < |segs| :: !Backed(segs[j], addr)
    ensures ByteAt(segs, file, addr) == file[segs[i].offset + (addr - segs[i].vaddr)]
  {
    var n := |segs| - 1;
    if i < n {
      assert segs[..n][i] == segs[i];
      ByteOfLastCovering(segs[..n], file, addr, i);
    }
  }

  /** Addresses no segment backs by the file (gaps and .bss) read as zero. */
  lemma {:induction false} ByteOutsideFile(segs: seq<Seg>, file: seq<byte>, addr: nat)
    requires AllValidated(segs, |file|)
    requires forall j | 0 <= j < |segs| :: !Backed(segs[j], addr)
    ensures ByteAt(segs, file, addr) == 0
  {
    if segs != [] {
      ByteOutsideFile(segs[..|segs| - 1], file, addr);
    }
  }

  /** Touching a page, in addresses: the tests of the loader agree with the rounded segment. */
  lemma TouchesInAddresses(s: Seg, page: nat)
    requires s.memsz != 0
    ensures Touches(s, page) <==> s.vaddr < page * PAGE_SIZE + PAGE_SIZE && s.vaddr + s.memsz > page * PAGE_SIZE
  {
  }
}

/** The order of segments: insertion sort by address, as a function. */
module SegmentOrder {
  import opened ElfImage

  function InsertSeg(sorted: seq<Seg>, key: Seg): seq<Seg> {
    if sorted == [] || sorted[|sorted| - 1].vaddr <= key.vaddr then sorted + [key]
    else InsertSeg(sorted[..|sorted| - 1], key) + [sorted[|sorted| - 1]]
  }

  function SortSegs(segs: seq<Seg>): seq<Seg> {
    if segs == [] then [] else InsertSeg(SortSegs(segs[..|segs| - 1]), segs[|segs| - 1])
  }

  ghost predicate ByAddress(segs: seq<Seg>) {
    forall i, j | 0 <= i < j < |segs| :: segs[i].vaddr <= segs[j].vaddr
  }

  /** The segments that load at one address, in order. */
  function LoadedAt(segs: seq<Seg>, vaddr: nat): seq<Seg> {
    if segs == [] then []
    else
      var last := segs[|segs| - 1];
      LoadedAt(segs[..|segs| - 1], vaddr) + if last.vaddr == vaddr then [last] else []
  }

  lemma {:induction false} InsertSegPermutes(sorted: seq<Seg>, key: Seg)
    ensures multiset(InsertSeg(sorted, key)) == multiset(sorted) + multiset{key}
  {
    var n := |sorted| - 1;
    if sorted != [] && sorted[n].vaddr > key.vaddr {
      InsertSegPermutes(sorted[..n], key);
      assert sorted == sorted[..n] + [sorted[n]];
    }
  }

  lemma {:induction false} InsertSegSorts(sorted: seq<Seg>, key: Seg)
    requires ByAddress(sorted)
    ensures ByAddress(InsertSeg(sorted, key))
  {
    var n := |sorted| - 1;
    if sorted != [] && sorted[n].vaddr > key.vaddr {
      InsertSegSorts(sorted[..n], key);
      InsertSegPermutes(sorted[..n], key);
      var front := InsertSeg(sorted[..n], key);
      forall i | 0 <= i < |front|
        ensures front[i].vaddr <= sorted[n].vaddr
      {
        assert front[i] in multiset(front);
        assert front[i] == key || front[i] in sorted[..n];
      }
    }
  }

  lemma {:induction false} InsertSegStable(sorted: seq<Seg>, key: Seg, v: nat)
    requires ByAddress(sorted)
    ensures LoadedAt(InsertSeg(sorted, key), v) == LoadedAt(sorted, v) + if key.vaddr == v then [key] else []
  {
    var n := |sorted| - 1;
    var r := InsertSeg(sorted, key);
    if sorted == [] || sorted[n].vaddr <= key.vaddr {
      assert r[..|sorted|] == sorted;
    } else {
      InsertSegStable(sorted[..n], key, v);
      assert r[..|r| - 1] == InsertSeg(sorted[..n], key);
      if key.vaddr == v {
        assert LoadedAt(sorted[..n], v) + [] == LoadedAt(sorted, v);
      }
    }
  }

  lemma {:induction false} SortSegsSorts(segs: seq<Seg>)
    ensures ByAddress(SortSegs(segs)) && multiset(SortSegs(segs)) == multiset(segs)
  {
    if segs != [] {
      var n := |segs| - 1;
      SortSegsSorts(segs[..n]);
      InsertSegSorts(SortSegs(segs[..n]), segs[n]);
      InsertSegPermutes(SortSegs(segs[..n]), segs[n]);
      assert segs == segs[..n] + [segs[n]];
    }
  }

  /** Segments that load at one address keep their order. */
  lemma {:induction false} SortSegsStable(segs: seq<Seg>, v: nat)
    ensures LoadedAt(SortSegs(segs), v) == LoadedAt(segs, v)
  {
    if segs != [] {
      var n := |segs| - 1;
      SortSegsStable(segs[..n], v);
      SortSegsSorts(segs[..n]);
      InsertSegStable(SortSegs(segs[..n]), segs[n], v);
    }
  }

  /** Validation and the image's extent do not depend on the order. */
  lemma SortKeepsImage(segs: seq<Seg>, fileSize: nat, page: nat)
    ensures |SortSegs(segs)| == |segs|
    ensures AllValidated(segs, fileSize) ==> AllValidated(SortSegs(segs), fileSize)
    ensures InImage(SortSegs(segs), page) <==> InImage(segs, page)
    ensures Writable(SortSegs(segs), page) <==> Writable(segs, page)
  {
    SortSegsSorts(segs);
    var r := SortSegs(segs);
    assert |multiset(r)| == |r| && |multiset(segs)| == |segs|;
    forall s
      ensures s in r <==> s in segs
    {
      assert s in r <==> s in multiset(r);
      assert s in segs <==> s in multiset(segs);
    }
    assert forall i | 0 <= i < |r| :: r[i] in segs;
    assert forall i | 0 <= i < |segs| :: segs[i] in r;
  }

  /** Where the key ends up: below every larger element at the end. */
  lemma {:induction false} InsertSegAt(sorted: seq<Seg>, key: Seg, j: nat)
    requires j <= |sorted|
    requires forall k | j <= k < |sorted| :: sorted[k].vaddr > key.vaddr
    requires j > 0 ==> sorted[j - 1].vaddr <= key.vaddr
    ensures InsertSeg(sorted, key) == sorted[..j] + [key] + sorted[j..]
  {
    var n := |sorted| - 1;
    if j <= n {
      InsertSegAt(sorted[..n], key, j);
      assert sorted[..n][..j] == sorted[..j] && sorted[..n][j..] + [sorted[n]] == sorted[j..];
    }
  }

  /** The inner loop: slide larger segments up by one and drop the key into the hole. */
  method InsertInPlace(segs: array<Seg>, i: nat)
    requires i < segs.Length
    modifies segs
    ensures segs[..i + 1] == InsertSeg(old(segs[..i]), old(segs[i]))
    ensures segs[i + 1..] == old(segs[i + 1..])
  {
    var key := segs[i];
    var j := i;
    ghost var was := segs[..];
    while j > 0 && segs[j - 1].vaddr > key.vaddr
      invariant 0 <= j <= i
      invariant forall k | 0 <= k < j || i < k < segs.Length :: segs[k] == was[k]
      invariant forall k | j < k <= i :: segs[k] == was[k - 1] && was[k - 1].vaddr > key.vaddr
    {
      segs[j] := segs[j - 1];
      j := j - 1;
    }
    ghost var sorted := was[..i];
    forall k | j <= k < i
      ensures sorted[k].vaddr > key.vaddr
    {
      assert segs[k + 1] == was[k];
    }
    segs[j] := key;
    InsertSegAt(sorted, key, j);
    assert segs[..i + 1] == sorted[..j] + [key] + sorted[j..];
  }

  /** The in-place insertion sort of elf_load_common. */
  method SortInPlace(segs: array<Seg>, n: nat)
    requires n <= segs.Length
    modifies segs
    ensures segs[..n] == SortSegs(old(segs[..n]))
    ensures segs[n..] == old(segs[n..])
  {
    ghost var was := segs[..];
    if n == 0 {
      return;
    }
    var i := 1;
    assert segs[..1][..0] == [] && segs[..1] == [segs[0]];
    while i < n
      invariant 1 <= i <= n
      invariant segs[..i] == SortSegs(was[..i])
      invariant segs[i..] == was[i..]
    {
      InsertInPlace(segs, i);
      assert was[..i + 1][..i] == was[..i] && was[..i + 1][i] == was[i];
      i := i + 1;
    }
    assert was[n..] == old(segs[n..]) && was[..n] == old(segs[..n]);
  }
}
