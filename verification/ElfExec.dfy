/** The loader as a whole, and the teardown that undoes it
    (kernel/elf.c, kernel/process.c, arch/i386/paging.c, mm/buddy.c). */
module ElfExec {
  import opened Layout
  import opened Ram
  import opened PageTables
  import opened AddressSpace
  import opened ForkCopy
  import opened VmaList
  import opened ElfImage
  import opened SegmentOrder
  import opened ElfHeaders
  import opened ElfRegions
  import opened ElfPages
  import opened ElfLoader

  const ENOEXEC := 8
  /** The bounds the loader reports (exec_image_t without the entry point). */
  datatype Image = Image(codeStart: nat, codeEnd: nat, brkStart: nat)

  /** The segment loop of elf32_load: keeps the nonempty PT_LOAD headers and rejects the file when one
      of them is out of range. segs has room for every header. */
  method CollectSegments(phdrs: seq<Phdr>, fileSize: nat, segs: array<Seg>) returns (ok: bool, n: nat)
    requires segs.Length == |phdrs|
    modifies segs
    ensures ok <==> forall i | 0 <= i < |phdrs| && Loadable(phdrs[i]) :: Validated(SegOf(phdrs[i]), fileSize)
    ensures ok ==> n <= segs.Length && segs[..n] == SegsOf(phdrs)
  {
    n := 0;
    assert phdrs[..0] == [];
    for i := 0 to |phdrs|
      invariant n <= i && segs[..n] == SegsOf(phdrs[..i])
      invariant forall k | 0 <= k < i && Loadable(phdrs[k]) :: Validated(SegOf(phdrs[k]), fileSize)
    {
      var ph := phdrs[i];
      assert phdrs[..i + 1][..i] == phdrs[..i] && phdrs[..i + 1][i] == ph;
      if ph.pType != PT_LOAD || ph.memsz == 0 {
        continue;
      }
      if ph.filesz > ph.memsz || ph.vaddr + ph.memsz > USER_STACK_TOP - USER_STACK_SIZE || ph.offset + ph.filesz > fileSize {
        return false, n;
      }
      ghost var kept := segs[..n];
      segs[n] := SegOf(ph);
      n := n + 1;
      assert segs[..n] == kept + [SegOf(ph)];
    }
    assert phdrs[..|phdrs|] == phdrs;
    ok := true;
  }

  /** The area that stands for one segment. */
  function VmaOf(s: Seg): Vma
    requires Validated(s, WORD)
  {
    Create(s.vaddr, s.vaddr + s.memsz, VmFlags(true, s.flags.write, s.flags.exec, false, false), Code)
  }

  function VmasOf(segs: seq<Seg>): (r: seq<Vma>)
    requires AllValidated(segs, WORD)
    ensures |r| == |segs|
  {
    seq(|segs|, i requires 0 <= i < |segs| => assert Validated(segs[i], WORD); VmaOf(segs[i]))
  }

  /** The areas of the first segments. */
  ghost predicate FirstAreas(areas: seq<Vma>, segs: seq<Seg>) {
    AllValidated(segs, WORD) && |areas| <= |segs| && areas == VmasOf(segs)[..|areas|]
  }

  lemma NoAreas(segs: seq<Seg>)
    requires AllValidated(segs, WORD)
    ensures FirstAreas([], segs)
  {
    assert VmasOf(segs)[..0] == [];
  }

  /** One area per segment. memory says how many areas kalloc can provide; those made before it runs out stay. */
  method CreateVmas(vmas: VmaList, segs: seq<Seg>, memory: nat) returns (ok: bool)
    requires AllValidated(segs, WORD) && ByAddress(segs) && vmas.areas == []
    modifies vmas
    ensures ok <==> |segs| <= memory
    ensures FirstAreas(vmas.areas, segs) && |vmas.areas| == if ok then |segs| else memory
    ensures ok ==> vmas.areas == VmasOf(segs)
  {
    for i := 0 to |segs|
      invariant i <= memory && |vmas.areas| == i
      invariant forall k | 0 <= k < i :: vmas.areas[k] == VmasOf(segs)[k]
    {
      if i == memory {
        return false;
      }
      var s := segs[i];
      assert Validated(s, WORD);
      var vma := Create(s.vaddr, s.vaddr + s.memsz, VmFlags(true, s.flags.write, s.flags.exec, false, false), Code);
      forall k | 0 <= k < i
        ensures vmas.areas[k].start <= vma.start
      {
        assert Validated(segs[k], WORD);
        AlignDownMonotone(segs[k].vaddr, s.vaddr);
      }
      ghost var was := vmas.areas;
      ghost var at := vmas.Insert(vma);
      assert at == i;
      assert vmas.areas == was + [vma];
    }
    ok := true;
  }

  /** The image starts on its lowest page and ends after its highest; the heap follows it. */
  ghost predicate Bounds(segs: seq<Seg>, img: Image) {
    && img.codeStart % PAGE_SIZE == 0 && img.codeEnd % PAGE_SIZE == 0 && img.codeStart < img.codeEnd
    && InImage(segs, img.codeStart / PAGE_SIZE) && InImage(segs, img.codeEnd / PAGE_SIZE - 1)
    && (forall p: nat | InImage(segs, p) :: img.codeStart / PAGE_SIZE <= p < img.codeEnd / PAGE_SIZE)
    && img.brkStart == if img.codeEnd < USER_HEAP_START then USER_HEAP_START else img.codeEnd
  }

  lemma RegionBounds(regions: seq<Region>, segs: seq<Seg>)
    requires Cover(regions, segs) && |regions| > 0
    ensures var (lo, hi) := (regions[0].lo, regions[|regions| - 1].hi);
            && lo < hi
            && InImage(segs, lo / PAGE_SIZE) && InImage(segs, hi / PAGE_SIZE - 1)
            && forall p: nat | InImage(segs, p) :: lo / PAGE_SIZE <= p < hi / PAGE_SIZE
  {
    var n := |regions| - 1;
    assert n > 0 ==> regions[0].hi < regions[n].lo;
    assert Spans(regions[0], regions[0].lo / PAGE_SIZE) && Spans(regions[n], regions[n].hi / PAGE_SIZE - 1);
    assert InRegions(regions, regions[0].lo / PAGE_SIZE) && InRegions(regions, regions[n].hi / PAGE_SIZE - 1);
    forall p: nat | InImage(segs, p)
      ensures regions[0].lo / PAGE_SIZE <= p < regions[n].hi / PAGE_SIZE
    {
      assert InRegions(regions, p);
      var k :| 0 <= k <= n && Spans(regions[k], p);
      assert k > 0 ==> regions[0].hi < regions[k].lo;
      assert k < n ==> regions[k].hi < regions[n].lo;
    }
  }

  /** The running minimum and maximum over the regions. */
  method ImageBounds(segs: seq<Seg>, regions: seq<Region>) returns (img: Image)
    requires Cover(regions, segs) && |regions| > 0
    ensures Bounds(segs, img)
  {
    var minVaddr, maxEnd := WORD - 1, 0;
    for r := 0 to |regions|
      invariant r > 0 ==> minVaddr == regions[0].lo && maxEnd == regions[r - 1].hi
      invariant r == 0 ==> minVaddr == WORD - 1 && maxEnd == 0
    {
      assert r > 0 ==> regions[r - 1].hi < regions[r].lo && (r > 1 ==> regions[0].hi < regions[r].lo);
      if regions[r].lo < minVaddr {
        minVaddr := regions[r].lo;
      }
      if regions[r].hi > maxEnd {
        maxEnd := regions[r].hi;
      }
    }
    RegionBounds(regions, segs);
    img := Image(minVaddr, maxEnd, if maxEnd < USER_HEAP_START then USER_HEAP_START else maxEnd);
  }

  /** The region table that elf_load_common allocates and fills. */
  method RegionTable(segs: seq<Seg>) returns (table: seq<Region>)
    requires segs != [] && ByAddress(segs) && AllValidated(segs, WORD)
    ensures Cover(table, segs) && table != []
  {
    var regions := new Region[|segs|];
    var n := MergeRegions(segs, regions);
    table := regions[..n];
  }

  /** The mapped part of elf_load_common: regions, pages, bounds. */
  method MapImage(space: AddressSpace, file: File, segs: seq<Seg>) returns (errno: nat, img: Image)
    requires space.Valid() && space.Owns() && space.Flat() == map[] && space.TableFrames() == {}
    requires segs != [] && ByAddress(segs) && AllValidated(segs, |file.data|) && |file.data| < WORD
    modifies space.pgdir, space.tables, space.ram, space.ram.Repr()
    ensures space.Valid() && space.Owns() && TookOnly(space, old(space.ram.Frames()))
    ensures if errno == 0 then Bounds(segs, img) && LoadedBelow(space.Flat(), space.ram.bytes, segs, file.data, USER_PAGES)
            else Starved(errno, space, file)
  {
    ValidatedForWords(segs, |file.data|);
    var table := RegionTable(segs);
    img := ImageBounds(segs, table);
    ghost var limit;
    errno, limit := LoadRegions(space, file, segs, table);
  }

  /** The area list is an object of its own. */
  lemma NoOverlap(space: AddressSpace, vmas: VmaList)
    ensures (vmas as object) !in space.Repr() && (vmas as object) !in space.ram.Repr()
  {
  }

  /** The per-segment areas, once the image is mapped. */
  method AddAreas(space: AddressSpace, vmas: VmaList, file: File, segs: seq<Seg>, memory: nat) returns (ok: bool)
    requires space.Valid() && vmas.areas == [] && ByAddress(segs)
    requires AllValidated(segs, |file.data|) && |file.data| < WORD
    requires LoadedBelow(space.Flat(), space.ram.bytes, segs, file.data, USER_PAGES)
    modifies vmas
    ensures space.Valid() && FirstAreas(vmas.areas, segs)
    ensures ok ==> LoadedImage(space, vmas, file, segs)
    ensures ok <==> |segs| <= memory
  {
    NoOverlap(space, vmas);
    ValidatedForWords(segs, |file.data|);
    ok := CreateVmas(vmas, segs, memory);
  }

  /** The rest of elf_load_common, when there is a segment. */
  method LoadPages(space: AddressSpace, vmas: VmaList, file: File, segs: seq<Seg>, memory: nat) returns (errno: nat, img: Image)
    requires space.Valid() && space.Owns() && space.Flat() == map[] && space.TableFrames() == {} && vmas.areas == []
    requires segs != [] && ByAddress(segs) && AllValidated(segs, |file.data|) && |file.data| < WORD
    modifies space.pgdir, space.tables, space.ram, space.ram.Repr(), vmas
    ensures space.Valid() && space.Owns() && TookOnly(space, old(space.ram.Frames())) && FirstAreas(vmas.areas, segs)
    ensures if errno == 0 then |segs| <= memory && LoadedImage(space, vmas, file, segs) && Bounds(segs, img)
            else (errno == ENOMEM && memory < |segs|) || Starved(errno, space, file)
  {
    NoOverlap(space, vmas);
    ValidatedForWords(segs, |file.data|);
    NoAreas(segs);
    errno, img := MapImage(space, file, segs);
    if errno == 0 {
      // the test for an image without pages cannot succeed here: there is a segment
      var ok := AddAreas(space, vmas, file, segs, memory);
      errno := if ok then 0 else ENOMEM;
    }
  }

  /** elf_load_common after its sort. table and memory say whether kalloc provides the region table
      and how many areas. */
  method LoadSorted(space: AddressSpace, vmas: VmaList, file: File, segs: seq<Seg>, table: bool, memory: nat)
    returns (errno: nat, img: Image)
    requires space.Valid() && space.Owns() && space.Flat() == map[] && space.TableFrames() == {} && vmas.areas == []
    requires ByAddress(segs) && AllValidated(segs, |file.data|) && |file.data| < WORD
    modifies space.pgdir, space.tables, space.ram, space.ram.Repr(), vmas
    ensures space.Valid() && space.Owns() && TookOnly(space, old(space.ram.Frames()))
    ensures segs == [] || !table ==> errno == ENOMEM && space.Flat() == map[] && vmas.areas == []
    ensures FirstAreas(vmas.areas, segs)
    ensures if errno == 0 then |segs| <= memory && LoadedImage(space, vmas, file, segs) && Bounds(segs, img)
            else (errno == ENOMEM && (segs == [] || !table || memory < |segs|)) || Starved(errno, space, file)
  {
    NoOverlap(space, vmas);
    ValidatedForWords(segs, |file.data|);
    NoAreas(segs);
    img := Image(0, 0, 0);
    errno := ENOMEM;
    if segs != [] && table {
      errno, img := LoadPages(space, vmas, file, segs, memory);
    }
  }

  /** The sort of elf_load_common. */
  method SortFirst(segs: array<Seg>, n: nat, fileSize: nat) returns (sorted: seq<Seg>)
    requires n <= segs.Length && AllValidated(segs[..n], fileSize)
    modifies segs
    ensures segs[..n] == sorted == SortSegs(old(segs[..n])) && |sorted| == n
    ensures ByAddress(sorted) && AllValidated(sorted, fileSize)
  {
    ghost var given := segs[..n];
    SortInPlace(segs, n);
    SortKeepsImage(given, fileSize, 0);
    SortSegsSorts(given);
    sorted := segs[..n];
  }

  /** elf_load_common. On success the pages, bytes, permissions and areas are those of the sorted
      segments; on failure every frame taken is held by the address space. */
  method LoadCommon(space: AddressSpace, vmas: VmaList, file: File, segs: array<Seg>, n: nat, table: bool, memory: nat)
    returns (errno: nat, img: Image)
    requires space.Valid() && space.Owns() && space.Flat() == map[] && space.TableFrames() == {} && vmas.areas == []
    requires n <= segs.Length && AllValidated(segs[..n], |file.data|) && |file.data| < WORD
    modifies space.pgdir, space.tables, space.ram, space.ram.Repr(), vmas, segs
    ensures segs[..n] == SortSegs(old(segs[..n]))
    ensures space.Valid() && space.Owns() && TookOnly(space, old(space.ram.Frames()))
    ensures n == 0 || !table ==> errno == ENOMEM && space.Flat() == map[] && vmas.areas == []
    ensures FirstAreas(vmas.areas, segs[..n])
    ensures if errno == 0 then n <= memory && LoadedImage(space, vmas, file, segs[..n]) && Bounds(segs[..n], img)
            else (errno == ENOMEM && (n == 0 || !table || memory < n)) || Starved(errno, space, file)
  {
    assert (segs as object) !in space.Repr() && (segs as object) !in space.ram.Repr();
    var sorted := SortFirst(segs, n, |file.data|);
    errno, img := LoadSorted(space, vmas, file, sorted, table, memory);
    assert segs[..n] == sorted;
  }

  /** The state a successful load leaves. */
  ghost predicate LoadedImage(space: AddressSpace, vmas: VmaList, file: File, segs: seq<Seg>)
    reads space.Repr(), space.ram, space.ram.Repr(), vmas
  {
    && space.Valid()
    && AllValidated(segs, |file.data|) && AllValidated(segs, WORD)
    && LoadedBelow(space.Flat(), space.ram.bytes, segs, file.data, USER_PAGES)
    && vmas.areas == VmasOf(segs)
  }

  /** The area of a header: its pages, readable, with its permissions. */
  ghost predicate IsAreaOf(a: Vma, ph: Phdr) {
    && ph.pType == 1 && ph.memsz != 0
    && a.start == AlignDown(ph.vaddr) && a.end == AlignUp(ph.vaddr + ph.memsz)
    && a.flags == VmFlags(true, ph.flags.write, ph.flags.exec, false, false) && a.vmType == Code
  }

  /** Each header of a segment has its area, and there are no others. */
  ghost predicate AreasOfHeaders(areas: seq<Vma>, phdrs: seq<Phdr>) {
    && (forall k | 0 <= k < |areas| :: exists i :: 0 <= i < |phdrs| && IsAreaOf(areas[k], phdrs[i]))
    && (forall i | 0 <= i < |phdrs| && phdrs[i].pType == 1 && phdrs[i].memsz != 0 :: exists k :: 0 <= k < |areas| && IsAreaOf(areas[k], phdrs[i]))
  }

  /** What the program headers alone say of the memory: its pages, their permissions and every byte. */
  ghost predicate HeadersMapped(m: FlatMap, bytes: Contents, phdrs: seq<Phdr>, file: seq<byte>)
    requires AllInRange(phdrs, |file|)
  {
    && (forall p: nat :: p in m <==> SomeOn(phdrs, p, false))
    && (forall p | p in m :: m[p].flags == Flags(true, SomeOn(phdrs, p, true), true))
    && AllFrames(m) <= bytes.Keys
    && (forall p | p in m :: PageOfHeaders(bytes[m[p].frame], phdrs, file, p))
  }

  /** Every byte of page p. */
  ghost predicate PageOfHeaders(page: seq<byte>, phdrs: seq<Phdr>, file: seq<byte>, p: nat)
    requires AllInRange(phdrs, |file|)
  {
    |page| == PAGE_SIZE && forall b | 0 <= b < PAGE_SIZE :: ByteOf(phdrs, file, p * PAGE_SIZE + b, page[b])
  }

  /** The image runs from the lowest page of a header to the highest. */
  ghost predicate HeaderBounds(phdrs: seq<Phdr>, img: Image) {
    && img.codeStart % PAGE_SIZE == 0 && img.codeEnd % PAGE_SIZE == 0 && img.codeStart < img.codeEnd
    && SomeOn(phdrs, img.codeStart / PAGE_SIZE, false) && SomeOn(phdrs, img.codeEnd / PAGE_SIZE - 1, false)
    && (forall p: nat | SomeOn(phdrs, p, false) :: img.codeStart / PAGE_SIZE <= p < img.codeEnd / PAGE_SIZE)
    && img.brkStart == if img.codeEnd < USER_HEAP_START then USER_HEAP_START else img.codeEnd
  }

  lemma BoundsOfHeaders(phdrs: seq<Phdr>, img: Image)
    requires Bounds(SortSegs(SegsOf(phdrs)), img)
    ensures HeaderBounds(phdrs, img)
  {
    forall p: nat
      ensures InImage(SortSegs(SegsOf(phdrs)), p) <==> SomeOn(phdrs, p, false)
    {
      PagesOfHeaders(phdrs, p);
    }
  }

  lemma AreasAreOfHeaders(phdrs: seq<Phdr>)
    requires AllValidated(SortSegs(SegsOf(phdrs)), WORD)
    ensures AreasOfHeaders(VmasOf(SortSegs(SegsOf(phdrs))), phdrs)
  {
    var sorted := SortSegs(SegsOf(phdrs));
    forall k: nat | k < |sorted|
      ensures exists i :: 0 <= i < |phdrs| && IsAreaOf(VmasOf(sorted)[k], phdrs[i])
    {
      var i := HeaderOfSeg(phdrs, k);
      AreaIsOf(sorted[k], phdrs[i]);
    }
    forall i | 0 <= i < |phdrs| && phdrs[i].pType == 1 && phdrs[i].memsz != 0
      ensures exists k :: 0 <= k < |sorted| && IsAreaOf(VmasOf(sorted)[k], phdrs[i])
    {
      SortedAreOfHeaders(phdrs, SegOf(phdrs[i]));
      var k :| 0 <= k < |sorted| && sorted[k] == SegOf(phdrs[i]);
      AreaIsOf(sorted[k], phdrs[i]);
      assert IsAreaOf(VmasOf(sorted)[k], phdrs[i]);
    }
  }

  lemma AreaIsOf(s: Seg, ph: Phdr)
    requires Loadable(ph) && SegOf(ph) == s && Validated(s, WORD)
    ensures IsAreaOf(VmaOf(s), ph)
  {
  }

  /** A mapped page holds the bytes of the headers. */
  lemma BytesOfHeaders(phdrs: seq<Phdr>, file: seq<byte>, p: nat, page: seq<byte>)
    requires AllInRange(phdrs, |file|) && AllValidated(SortSegs(SegsOf(phdrs)), |file|)
    requires Holds(page, SortSegs(SegsOf(phdrs)), file, p * PAGE_SIZE)
    ensures PageOfHeaders(page, phdrs, file, p)
  {
    forall b | 0 <= b < PAGE_SIZE
      ensures ByteOf(phdrs, file, p * PAGE_SIZE + b, page[b])
    {
      ByteOfHeaders(phdrs, file, p * PAGE_SIZE + b);
    }
  }

  lemma PagesMapped(m: FlatMap, bytes: Contents, phdrs: seq<Phdr>, file: seq<byte>)
    requires AllValidated(SortSegs(SegsOf(phdrs)), |file|)
    requires LoadedBelow(m, bytes, SortSegs(SegsOf(phdrs)), file, USER_PAGES)
    ensures forall p: nat :: p in m <==> SomeOn(phdrs, p, false)
    ensures forall p | p in m :: m[p].flags == Flags(true, SomeOn(phdrs, p, true), true)
  {
    forall p: nat
      ensures p in m <==> SomeOn(phdrs, p, false)
      ensures p in m ==> m[p].flags == Flags(true, SomeOn(phdrs, p, true), true)
    {
      PagesOfHeaders(phdrs, p);
      ImageIsLow(SortSegs(SegsOf(phdrs)), |file|, p);
    }
  }

  lemma MappedOfHeaders(m: FlatMap, bytes: Contents, phdrs: seq<Phdr>, file: seq<byte>)
    requires AllInRange(phdrs, |file|) && AllValidated(SortSegs(SegsOf(phdrs)), |file|)
    requires LoadedBelow(m, bytes, SortSegs(SegsOf(phdrs)), file, USER_PAGES)
    ensures HeadersMapped(m, bytes, phdrs, file)
  {
    PagesMapped(m, bytes, phdrs, file);
    forall p | p in m
      ensures PageOfHeaders(bytes[m[p].frame], phdrs, file, p)
    {
      BytesOfHeaders(phdrs, file, p, bytes[m[p].frame]);
    }
  }

  lemma ImageIsLow(segs: seq<Seg>, fileSize: nat, page: nat)
    requires AllValidated(segs, fileSize)
    ensures InImage(segs, page) ==> page < USER_PAGES
  {
    if i :| 0 <= i < |segs| && Touches(segs[i], page) {
      assert Validated(segs[i], fileSize);
    }
  }

  /** A successful load, from the segments to the headers. */
  lemma LoadedIsOfHeaders(space: AddressSpace, vmas: VmaList, file: File, phdrs: seq<Phdr>)
    requires LoadedImage(space, vmas, file, SortSegs(SegsOf(phdrs))) && AllInRange(phdrs, |file.data|)
    ensures HeadersMapped(space.Flat(), space.ram.bytes, phdrs, file.data) && AreasOfHeaders(vmas.areas, phdrs)
  {
    MappedOfHeaders(space.Flat(), space.ram.bytes, phdrs, file.data);
    AreasAreOfHeaders(phdrs);
  }

  /** elf32_load after its header checks: a table with a segment out of range is refused before anything is mapped. After a
      successful load the memory, the areas and the bounds are what the headers say. */
  method Elf32Load(space: AddressSpace, vmas: VmaList, file: File, phdrs: seq<Phdr>, table: bool, memory: nat)
    returns (errno: nat, img: Image)
    requires space.Valid() && space.Owns() && space.Flat() == map[] && space.TableFrames() == {} && vmas.areas == []
    requires |file.data| < WORD
    modifies space.pgdir, space.tables, space.ram, space.ram.Repr(), vmas
    ensures space.Valid() && space.Owns() && TookOnly(space, old(space.ram.Frames()))
    ensures !AllInRange(phdrs, |file.data|) ==> errno == ENOEXEC && space.Flat() == map[] && vmas.areas == []
    ensures errno == 0 ==> AllInRange(phdrs, |file.data|) && HeadersMapped(space.Flat(), space.ram.bytes, phdrs, file.data)
    ensures errno == 0 ==> AreasOfHeaders(vmas.areas, phdrs) && |vmas.areas| == |SegsOf(phdrs)| && HeaderBounds(phdrs, img)
    ensures errno == 0 ==> SegsOf(phdrs) != [] && table && |SegsOf(phdrs)| <= memory
    ensures errno != 0 && AllInRange(phdrs, |file.data|) ==>
              (errno == ENOMEM && (SegsOf(phdrs) == [] || !table || memory < |SegsOf(phdrs)|)) || Starved(errno, space, file)
  {
    var segs := new Seg[|phdrs|];
    var ok, n := CollectSegments(phdrs, |file.data|, segs);
    RangeIsValidated(phdrs, |file.data|);
    SegsOfMembers(phdrs, |file.data|);
    if !ok {
      return ENOEXEC, Image(0, 0, 0);
    }
    errno, img := LoadCommon(space, vmas, file, segs, n, table, memory);
    if errno == 0 {
      LoadedIsOfHeaders(space, vmas, file, phdrs);
      BoundsOfHeaders(phdrs, img);
    }
  }

  /** The pages of some area. */
  ghost predicate InAreas(areas: seq<Vma>, page: nat) {
    exists k :: 0 <= k < |areas| && areas[k].start / PAGE_SIZE <= page < EndPage(areas[k].end)
  }

  /** Cutting the pages of one area after another. */
  ghost function CutAreas(m: FlatMap, areas: seq<Vma>): FlatMap {
    if areas == [] then m
    else
      var last := areas[|areas| - 1];
      Cut(CutAreas(m, areas[..|areas| - 1]), last.start / PAGE_SIZE, EndPage(last.end))
  }

  lemma {:induction false} CutAreasFacts(m: FlatMap, areas: seq<Vma>)
    ensures forall v :: v in CutAreas(m, areas) <==> v in m && !InAreas(areas, v)
    ensures forall v | v in CutAreas(m, areas) :: CutAreas(m, areas)[v] == m[v]
  {
    if areas != [] {
      var n := |areas| - 1;
      CutAreasFacts(m, areas[..n]);
      forall v: nat
        ensures InAreas(areas, v) <==> InAreas(areas[..n], v) || areas[n].start / PAGE_SIZE <= v < EndPage(areas[n].end)
      {
        if InAreas(areas[..n], v) {
          var k :| 0 <= k < n && areas[..n][k].start / PAGE_SIZE <= v < EndPage(areas[..n][k].end);
          assert areas[k].start / PAGE_SIZE <= v < EndPage(areas[k].end);
        }
        if InAreas(areas, v) {
          var k :| 0 <= k <= n && areas[k].start / PAGE_SIZE <= v < EndPage(areas[k].end);
          assert k < n ==> areas[..n][k].start / PAGE_SIZE <= v < EndPage(areas[..n][k].end);
        }
      }
    }
  }

  /** The teardown loops of do_exec and do_exit: the pages of every area, then the page tables.
      Whatever the overlaps between areas, no frame is freed twice; what is freed is exactly the
      frames of the pages in some area, and the tables. */
  method Teardown(space: AddressSpace, vmas: VmaList)
    requires space.Valid() && space.Owns()
    requires forall k | 0 <= k < |vmas.areas| :: vmas.areas[k].end <= USER_STACK_TOP
    modifies space.pgdir, space.tables, space.ram, space.ram.Repr(), vmas
    ensures space.Valid() && space.Owns() && space.Flat() == map[] && space.TableFrames() == {} && vmas.areas == []
    ensures var kept := CutAreas(old(space.Flat()), old(vmas.areas));
            space.ram.Frames() == old(space.ram.Frames()) - old(space.TableFrames())
                                  - (AllFrames(old(space.Flat())) - AllFrames(kept))
  {
    NoOverlap(space, vmas);
    ghost var was, areas, frames := space.Flat(), vmas.areas, space.ram.Frames();
    ghost var k := 0;
    assert areas[..0] == [];
    while vmas.areas != []
      invariant k <= |areas| && vmas.areas == areas[k..]
      invariant space.Valid() && space.Owns() && space.TableFrames() == old(space.TableFrames())
      invariant space.Flat() == CutAreas(was, areas[..k])
      invariant AllFrames(space.Flat()) <= AllFrames(was)
      invariant space.ram.Frames() == frames - (AllFrames(was) - AllFrames(space.Flat()))
      decreases |areas| - k
    {
      var vma := vmas.areas[0];
      ghost var m := space.Flat();
      CutOwns(m, vma.start / PAGE_SIZE, EndPage(vma.end));
      space.FreeUserPages(vma.start, vma.end);
      vmas.areas := vmas.areas[1..];
      assert areas[..k + 1][..k] == areas[..k] && areas[..k + 1][k] == vma;
      k := k + 1;
    }
    assert areas[..k] == areas;
    space.FreeUserTables();
  }

  /** The areas of an image cover its pages. */
  lemma AreasCoverImage(segs: seq<Seg>, page: nat)
    requires AllValidated(segs, WORD)
    ensures InAreas(VmasOf(segs), page) <==> InImage(segs, page)
  {
    forall i | 0 <= i < |segs|
      ensures Touches(segs[i], page) <==> VmasOf(segs)[i].start / PAGE_SIZE <= page < EndPage(VmasOf(segs)[i].end)
    {
      AreaCoversSegment(segs, i, page);
    }
  }

  lemma AreaCoversSegment(segs: seq<Seg>, i: nat, page: nat)
    requires AllValidated(segs, WORD) && i < |segs|
    ensures Touches(segs[i], page) <==> VmasOf(segs)[i].start / PAGE_SIZE <= page < EndPage(VmasOf(segs)[i].end)
  {
    assert Validated(segs[i], WORD);
    assert VmasOf(segs)[i] == VmaOf(segs[i]);
    RegionOfFacts(segs[i]);
  }

  lemma AreasCoverAll(m: FlatMap, bytes: Contents, segs: seq<Seg>, file: seq<byte>)
    requires AllValidated(segs, |file|) && AllValidated(segs, WORD) && LoadedBelow(m, bytes, segs, file, USER_PAGES)
    ensures CutAreas(m, VmasOf(segs)) == map[]
    ensures forall k | 0 <= k < |segs| :: VmasOf(segs)[k].end <= USER_STACK_TOP
  {
    CutAreasFacts(m, VmasOf(segs));
    forall p | p in m
      ensures InAreas(VmasOf(segs), p)
    {
      AreasCoverImage(segs, p);
    }
    forall k | 0 <= k < |segs|
      ensures VmasOf(segs)[k].end <= USER_STACK_TOP
    {
      assert Validated(segs[k], WORD);
      RegionOfFacts(segs[k]);
    }
  }

  lemma AreaEnds(areas: seq<Vma>, segs: seq<Seg>)
    requires FirstAreas(areas, segs)
    ensures forall k | 0 <= k < |areas| :: areas[k].end <= USER_STACK_TOP
  {
    forall k | 0 <= k < |areas|
      ensures areas[k].end <= USER_STACK_TOP
    {
      assert Validated(segs[k], WORD) && areas[k] == VmasOf(segs)[k];
      RegionOfFacts(segs[k]);
    }
  }

  /** Every mapped page is in some area. */
  ghost predicate Covered(m: FlatMap, areas: seq<Vma>) {
    forall v | v in m :: InAreas(areas, v)
  }

  /** No frame is left over exactly if every page was in some area. */
  lemma LeftOver(m: FlatMap, areas: seq<Vma>)
    ensures AllFrames(CutAreas(m, areas)) == {} <==> Covered(m, areas)
  {
    CutAreasFacts(m, areas);
    var kept := CutAreas(m, areas);
    forall v | v in kept
      ensures kept[v].frame in AllFrames(kept)
    {
    }
  }

  /** Teardown of whatever a load left, complete or not: of the frames taken since frames was measured, those of mapped pages
      outside the areas stay in use, and so nothing is lost if and only if every mapped page is in some area. */
  method TeardownLeaves(space: AddressSpace, vmas: VmaList, ghost segs: seq<Seg>, ghost frames: set<nat>)
    requires space.Valid() && space.Owns() && TookOnly(space, frames) && FirstAreas(vmas.areas, segs)
    modifies space.pgdir, space.tables, space.ram, space.ram.Repr(), vmas
    ensures space.Valid() && space.Flat() == map[] && space.TableFrames() == {} && vmas.areas == []
    ensures space.ram.Frames() == frames + AllFrames(CutAreas(old(space.Flat()), old(vmas.areas)))
    ensures space.ram.Frames() == frames <==> Covered(old(space.Flat()), old(vmas.areas))
  {
    ghost var m, areas := space.Flat(), vmas.areas;
    AreaEnds(vmas.areas, segs);
    LeftOver(m, areas);
    KeptFrames(m, areas);
    Teardown(space, vmas);
  }

  lemma KeptFrames(m: FlatMap, areas: seq<Vma>)
    ensures AllFrames(CutAreas(m, areas)) <= AllFrames(m)
  {
    CutAreasFacts(m, areas);
  }

  /** Tearing a loaded image down gives back every frame taken since frames was measured. */
  method TeardownImage(space: AddressSpace, vmas: VmaList, ghost file: File, ghost segs: seq<Seg>, ghost frames: set<nat>)
    requires LoadedImage(space, vmas, file, segs) && space.Owns() && TookOnly(space, frames)
    modifies space.pgdir, space.tables, space.ram, space.ram.Repr(), vmas
    ensures space.Valid() && space.Flat() == map[] && space.TableFrames() == {} && vmas.areas == []
    ensures space.ram.Frames() == frames
  {
    AreasCoverAll(space.Flat(), space.ram.bytes, segs, file.data);
    Teardown(space, vmas);
  }

  /** The same in terms of the page allocator, with the mapping m, the areas and the free pages there were before. */
  method TeardownAccounts(space: AddressSpace, vmas: VmaList, ghost segs: seq<Seg>, ghost frames: set<nat>, ghost used: set<nat>)
    returns (ghost m: FlatMap, ghost areas: seq<Vma>, ghost left: nat)
    requires space.Valid() && space.Owns() && TookOnly(space, frames) && FirstAreas(vmas.areas, segs)
    requires frames == space.ram.FramesOf(used)
    modifies space.pgdir, space.tables, space.ram, space.ram.Repr(), vmas
    ensures space.Valid() && space.Flat() == map[] && space.TableFrames() == {} && vmas.areas == []
    ensures m == old(space.Flat()) && areas == old(vmas.areas) && left == old(space.ram.alloc.freePages)
    ensures AllFrames(m) !! frames && space.ram.Frames() == frames + AllFrames(CutAreas(m, areas))
    ensures space.ram.alloc.Used() == used <==> Covered(m, areas)
    ensures space.ram.alloc.Used() == used ==> space.ram.alloc.freePages == space.ram.alloc.totalPages - |used|
  {
    m, areas, left := space.Flat(), vmas.areas, space.ram.alloc.freePages;
    TeardownLeaves(space, vmas, segs, frames);
    if space.ram.Frames() == frames {
      space.ram.SameFramesSameUse(used);
    }
  }

  lemma LoadedIsCovered(space: AddressSpace, vmas: VmaList, file: File, segs: seq<Seg>)
    requires LoadedImage(space, vmas, file, segs)
    ensures Covered(space.Flat(), vmas.areas)
  {
    AreasCoverAll(space.Flat(), space.ram.bytes, segs, file.data);
    LeftOver(space.Flat(), vmas.areas);
  }

  /** Teardown after a load. If the load succeeded every data frame and every page table it took goes back to the allocator,
      so its set of used pages and its counter are what they were. If it failed, the frames of the pages m that it had mapped
      stay in use unless they are in the areas it had made; left is how many pages were free then. */
  method LoadThenTeardown(space: AddressSpace, vmas: VmaList, file: File, segs: array<Seg>, n: nat, table: bool, memory: nat)
    returns (loaded: bool, ghost m: FlatMap, ghost areas: seq<Vma>, ghost left: nat)
    requires space.Valid() && space.Owns() && space.Flat() == map[] && space.TableFrames() == {} && vmas.areas == []
    requires n <= segs.Length && AllValidated(segs[..n], |file.data|) && |file.data| < WORD
    modifies space.pgdir, space.tables, space.ram, space.ram.Repr(), vmas, segs
    ensures space.Valid() && space.Flat() == map[] && space.TableFrames() == {} && vmas.areas == []
    ensures FirstAreas(areas, SortSegs(old(segs[..n])))
    ensures AllFrames(m) !! old(space.ram.Frames())
    ensures space.ram.Frames() == old(space.ram.Frames()) + AllFrames(CutAreas(m, areas))
    ensures space.ram.alloc.Used() == old(space.ram.alloc.Used()) <==> Covered(m, areas)
    ensures loaded ==> Covered(m, areas)
    ensures loaded ==> space.ram.alloc.freePages == old(space.ram.alloc.freePages)
    ensures !loaded ==> n == 0 || !table || memory < n || !file.readable || left <= 1
  {
    ghost var used := space.ram.alloc.Used();
    assert space.ram.alloc.freePages == space.ram.alloc.totalPages - |used|;
    var errno, _ := LoadCommon(space, vmas, file, segs, n, table, memory);
    loaded := errno == 0;
    if loaded {
      LoadedIsCovered(space, vmas, file, segs[..n]);
    }
    m, areas, left := TeardownAccounts(space, vmas, segs[..n], old(space.ram.Frames()), used);
  }
}
