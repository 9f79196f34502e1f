/** Loading an ELF image into an empty address space (kernel/elf.c). */
module ElfLoader {
  import opened Layout
  import opened Ram
  import opened PageTables
  import opened AddressSpace
  import opened ForkCopy
  import opened ElfImage
  import opened ElfRegions
  import opened ElfPages

  /** The pages of the image below limit are mapped, and no others: each with the bytes the segments
      say and writable exactly when a writable segment touches it. */
  ghost predicate LoadedBelow(m: FlatMap, bytes: Contents, segs: seq<Seg>, file: seq<byte>, limit: nat)
    requires AllValidated(segs, |file|)
  {
    && (forall p: nat :: p in m <==> InImage(segs, p) && p < limit)
    && (forall p | p in m :: m[p].flags == Flags(true, Writable(segs, p), true))
    && AllFrames(m) <= bytes.Keys
    && (forall p | p in m :: Holds(bytes[m[p].frame], segs, file, p * PAGE_SIZE))
  }

  /** Why a load can fail half way: a read that does not make progress, or no page left for a frame with its table. */
  ghost predicate Starved(errno: nat, space: AddressSpace, file: File)
    reads space, space.ram, space.ram.alloc
  {
    (errno == EIO && !file.readable) || (errno == ENOMEM && space.ram.alloc.freePages <= 1)
  }

  /** Every frame taken since frames was measured belongs to the address space. */
  ghost predicate TookOnly(space: AddressSpace, frames: set<nat>)
    requires space.Valid()
    reads space.Repr(), space.ram, space.ram.Repr()
  {
    space.Owned() !! frames && space.ram.Frames() == frames + space.Owned()
  }

  /** Mapping a frame that is allocated, filled and not yet mapped anywhere here. */
  method MapOwnPage(space: AddressSpace, cur: nat, page: nat, writable: bool) returns (ok: bool)
    requires space.Valid() && space.Owns()
    requires cur < USER_STACK_TOP && cur / PAGE_SIZE !in space.Flat()
    requires page in space.ram.Frames() && page !in space.Owned() && page in space.ram.bytes
    modifies space.pgdir, space.tables, space.ram, space.ram.Repr()
    ensures space.Valid() && space.Owns() && space.ram.bytes == old(space.ram.bytes)
    ensures space.Flat() == if ok then old(space.Flat())[cur / PAGE_SIZE := Pte(page, Flags(true, writable, true))] else old(space.Flat())
    ensures AllFrames(space.Flat()) == old(AllFrames(space.Flat())) + (if ok then {page} else {})
    ensures old(space.TableFrames()) <= space.TableFrames()
    ensures (space.TableFrames() - old(space.TableFrames())) !! old(space.ram.Frames())
    ensures space.ram.Frames() == old(space.ram.Frames()) + space.TableFrames()
    ensures !ok ==> space.ram.alloc.freePages == 0
  {
    space.ram.FrameBound(page);
    var flags := Flags(true, writable, true);
    ghost var flat := space.Flat();
    assert page !in AllFrames(flat) && page !in space.TableFrames();
    NewPage(flat, cur / PAGE_SIZE, Pte(page, flags));
    var phys: Word := page * PAGE_SIZE;
    assert phys / PAGE_SIZE == page;
    ok := space.MapUser(cur, phys, flags);
    assert AllFrames(space.Flat()) == AllFrames(flat) + (if ok then {page} else {});
    assert space.TableFrames() <= old(space.TableFrames()) + (space.TableFrames() - old(space.TableFrames()));
  }

  lemma ValidatedForWords(segs: seq<Seg>, fileSize: nat)
    requires AllValidated(segs, fileSize) && fileSize < WORD
    ensures AllValidated(segs, WORD)
  {
    forall i | 0 <= i < |segs|
      ensures Validated(segs[i], WORD)
    {
      assert Validated(segs[i], fileSize);
    }
  }

  /** The first half of the loop body: a frame of its own for the page, holding the page's bytes. */
  method NewFilledPage(ram: Ram, file: File, segs: seq<Seg>, cur: nat) returns (page: nat, errno: nat)
    requires ram.Valid() && AllValidated(segs, |file.data|) && cur % PAGE_SIZE == 0
    modifies ram`bytes, ram.alloc, ram.alloc.bitmap, ram.alloc.bitmap.words
    ensures ram.Valid()
    ensures errno != 0 ==> ram.Frames() == old(ram.Frames())
    ensures errno == 0 ==> page !in old(ram.Frames()) && ram.Frames() == old(ram.Frames()) + {page}
                           && page in ram.bytes && Holds(ram.bytes[page], segs, file.data, cur)
    ensures old(ram.bytes.Keys) <= ram.bytes.Keys && KeepsBytes(old(ram.bytes), ram.bytes, old(ram.Frames()))
    ensures errno != 0 ==> (errno == EIO && !file.readable) || (errno == ENOMEM && ram.alloc.freePages == 0)
  {
    page := ram.AllocPage();
    if page == 0 {
      return 0, ENOMEM;
    }
    ram.FrameBound(page);
    var ok := FillPage(ram, page, cur, segs, file);
    if !ok {
      ram.FreePage(page);
      return 0, EIO;
    }
    errno := 0;
  }

  /** A filled frame beside the address space, which stays as it was. */
  method TakePage(space: AddressSpace, file: File, segs: seq<Seg>, cur: nat) returns (page: nat, errno: nat)
    requires space.Valid() && space.Owns() && AllValidated(segs, |file.data|) && cur % PAGE_SIZE == 0
    modifies space.ram`bytes, space.ram.alloc, space.ram.alloc.bitmap, space.ram.alloc.bitmap.words
    ensures space.Valid() && space.Owns() && space.Flat() == old(space.Flat()) && space.TableFrames() == old(space.TableFrames())
    ensures errno != 0 ==> space.ram.Frames() == old(space.ram.Frames())
    ensures errno == 0 ==> page !in old(space.ram.Frames()) && space.ram.Frames() == old(space.ram.Frames()) + {page}
                           && page in space.ram.bytes && Holds(space.ram.bytes[page], segs, file.data, cur)
    ensures KeepsBytes(old(space.ram.bytes), space.ram.bytes, old(space.ram.Frames()))
    ensures errno != 0 ==> Starved(errno, space, file)
  {
    page, errno := NewFilledPage(space.ram, file, segs, cur);
  }

  /** The failure path gives the frame back. */
  method DropPage(space: AddressSpace, page: nat)
    requires space.Valid() && space.Owns() && page in space.ram.Frames() && page !in space.Owned()
    modifies space.ram.alloc, space.ram.alloc.bitmap, space.ram.alloc.bitmap.words
    ensures space.Valid() && space.Owns() && space.Flat() == old(space.Flat()) && space.TableFrames() == old(space.TableFrames())
    ensures space.ram.Frames() == old(space.ram.Frames()) - {page} && space.ram.bytes == old(space.ram.bytes)
    ensures space.ram.alloc.freePages <= old(space.ram.alloc.freePages) + 1
  {
    space.ram.FrameBound(page);
    space.ram.FreePage(page);
  }

  /** Mapping the frame, or giving it back when there is no memory for a page table. */
  method MapOrDrop(space: AddressSpace, cur: nat, page: nat, writable: bool) returns (ok: bool)
    requires space.Valid() && space.Owns()
    requires cur < USER_STACK_TOP && cur / PAGE_SIZE !in space.Flat()
    requires page in space.ram.Frames() && page !in space.Owned() && page in space.ram.bytes
    modifies space.pgdir, space.tables, space.ram, space.ram.Repr()
    ensures space.Valid() && space.Owns() && space.ram.bytes == old(space.ram.bytes)
    ensures space.Flat() == if ok then old(space.Flat())[cur / PAGE_SIZE := Pte(page, Flags(true, writable, true))] else old(space.Flat())
    ensures old(space.Owned()) <= space.Owned()
    ensures (space.Owned() - old(space.Owned())) !! (old(space.ram.Frames()) - {page})
    ensures space.ram.Frames() == (old(space.ram.Frames()) - {page}) + space.Owned()
    ensures !ok ==> space.ram.alloc.freePages <= 1
  {
    ok := MapOwnPage(space, cur, page, writable);
    if !ok {
      DropPage(space, page);
    }
  }

  /** The body of the page loop: one frame, filled and mapped, or nothing kept on failure. */
  method LoadPage(space: AddressSpace, file: File, segs: seq<Seg>, cur: nat) returns (errno: nat)
    requires space.Valid() && space.Owns() && AllValidated(segs, |file.data|) && |file.data| < WORD
    requires cur % PAGE_SIZE == 0 && cur < USER_STACK_TOP && cur / PAGE_SIZE !in space.Flat()
    modifies space.pgdir, space.tables, space.ram, space.ram.Repr()
    ensures space.Valid() && space.Owns()
    ensures old(space.Owned()) <= space.Owned() && (space.Owned() - old(space.Owned())) !! old(space.ram.Frames())
    ensures space.ram.Frames() == old(space.ram.Frames()) + space.Owned()
    ensures KeepsBytes(old(space.ram.bytes), space.ram.bytes, old(space.ram.Frames()))
    ensures errno != 0 ==> space.Flat() == old(space.Flat()) && Starved(errno, space, file)
    ensures errno == 0 ==> var p := cur / PAGE_SIZE;
              p in space.Flat() && space.Flat() == old(space.Flat())[p := space.Flat()[p]]
              && space.Flat()[p].flags == Flags(true, Writable(segs, p), true)
              && space.Flat()[p].frame !in old(space.ram.Frames())
              && space.Flat()[p].frame in space.ram.bytes
              && Holds(space.ram.bytes[space.Flat()[p].frame], segs, file.data, cur)
  {
    ghost var before := space.ram.Frames();
    var page;
    page, errno := TakePage(space, file, segs, cur);
    if errno == 0 {
      ValidatedForWords(segs, |file.data|);
      var writable := PageWritable(segs, cur);
      assert before == space.ram.Frames() - {page};
      var ok := MapOrDrop(space, cur, page, writable);
      errno := if ok then 0 else ENOMEM;
    }
  }

  /** The state of the load when every image page below limit has been treated. */
  ghost predicate Loading(space: AddressSpace, segs: seq<Seg>, file: File, frames: set<nat>, bytes: Contents, limit: nat)
    requires AllValidated(segs, |file.data|)
    reads space.Repr(), space.ram, space.ram.Repr()
  {
    && space.Valid() && space.Owns() && TookOnly(space, frames)
    && LoadedBelow(space.Flat(), space.ram.bytes, segs, file.data, limit)
    && KeepsBytes(bytes, space.ram.bytes, frames)
  }

  lemma LoadStep(m: FlatMap, bytes: Contents, m': FlatMap, bytes': Contents, segs: seq<Seg>, file: seq<byte>,
                 p: nat, frames: set<nat>)
    requires AllValidated(segs, |file|) && LoadedBelow(m, bytes, segs, file, p) && InImage(segs, p)
    requires AllFrames(m) <= frames && KeepsBytes(bytes, bytes', frames)
    requires p in m' && m' == m[p := m'[p]] && m'[p].flags == Flags(true, Writable(segs, p), true)
    requires m'[p].frame in bytes' && Holds(bytes'[m'[p].frame], segs, file, p * PAGE_SIZE)
    ensures LoadedBelow(m', bytes', segs, file, p + 1)
  {
    forall q | q in m
      ensures m[q].frame in bytes' && bytes'[m[q].frame] == bytes[m[q].frame]
    {
      assert m[q].frame in AllFrames(m);
    }
    forall f | f in AllFrames(m')
      ensures f in bytes'
    {
      var q :| q in m' && m'[q].frame == f;
    }
  }

  /** No image page between the two limits. */
  lemma RaiseLimit(m: FlatMap, bytes: Contents, segs: seq<Seg>, file: seq<byte>, a: nat, b: nat)
    requires AllValidated(segs, |file|) && LoadedBelow(m, bytes, segs, file, a)
    requires forall p: nat | InImage(segs, p) :: p < a <==> p < b
    ensures LoadedBelow(m, bytes, segs, file, b)
  {
  }

  lemma TookMore(frames: set<nat>, owned: set<nat>, before: set<nat>, owned': set<nat>, after: set<nat>)
    requires owned !! frames && before == frames + owned
    requires owned <= owned' && (owned' - owned) !! before && after == before + owned'
    ensures owned' !! frames && after == frames + owned'
  {
  }

  lemma KeepsBytesOnward(a: Contents, b: Contents, c: Contents, frames: set<nat>, more: set<nat>)
    requires KeepsBytes(a, b, frames) && KeepsBytes(b, c, more) && frames <= more
    ensures KeepsBytes(a, c, frames)
  {
  }

  method LoadNext(space: AddressSpace, file: File, segs: seq<Seg>, cur: nat, ghost frames: set<nat>, ghost bytes: Contents)
    returns (errno: nat, ghost limit: nat)
    requires AllValidated(segs, |file.data|) && |file.data| < WORD
    requires cur % PAGE_SIZE == 0 && cur < USER_STACK_TOP && InImage(segs, cur / PAGE_SIZE)
    requires Loading(space, segs, file, frames, bytes, cur / PAGE_SIZE)
    modifies space.pgdir, space.tables, space.ram, space.ram.Repr()
    ensures Loading(space, segs, file, frames, bytes, limit)
    ensures if errno == 0 then limit == cur / PAGE_SIZE + 1 else Starved(errno, space, file)
  {
    ghost var m, was, before, owned := space.Flat(), space.ram.bytes, space.ram.Frames(), space.Owned();
    errno := LoadPage(space, file, segs, cur);
    TookMore(frames, owned, before, space.Owned(), space.ram.Frames());
    KeepsBytesOnward(bytes, was, space.ram.bytes, frames, before);
    if errno == 0 {
      LoadStep(m, was, space.Flat(), space.ram.bytes, segs, file.data, cur / PAGE_SIZE, before);
      limit := cur / PAGE_SIZE + 1;
    } else {
      limit := cur / PAGE_SIZE;
      KeepLoaded(m, was, space.ram.bytes, segs, file.data, cur / PAGE_SIZE, before);
    }
  }

  lemma KeepLoaded(m: FlatMap, bytes: Contents, bytes': Contents, segs: seq<Seg>, file: seq<byte>, p: nat, frames: set<nat>)
    requires AllValidated(segs, |file|) && LoadedBelow(m, bytes, segs, file, p)
    requires AllFrames(m) <= frames && KeepsBytes(bytes, bytes', frames)
    ensures LoadedBelow(m, bytes', segs, file, p)
  {
    forall q | q in m
      ensures m[q].frame in bytes' && bytes'[m[q].frame] == bytes[m[q].frame]
    {
      assert m[q].frame in AllFrames(m);
    }
  }

  /** The pages of one region. */
  method LoadRegion(space: AddressSpace, file: File, segs: seq<Seg>, r: Region, ghost frames: set<nat>, ghost bytes: Contents)
    returns (errno: nat, ghost limit: nat)
    requires AllValidated(segs, |file.data|) && |file.data| < WORD
    requires r.lo % PAGE_SIZE == 0 && r.hi % PAGE_SIZE == 0 && r.lo <= r.hi <= IMAGE_END
    requires forall p: nat | Spans(r, p) :: InImage(segs, p)
    requires Loading(space, segs, file, frames, bytes, r.lo / PAGE_SIZE)
    modifies space.pgdir, space.tables, space.ram, space.ram.Repr()
    ensures Loading(space, segs, file, frames, bytes, limit)
    ensures if errno == 0 then limit == r.hi / PAGE_SIZE else Starved(errno, space, file)
  {
    var cur := r.lo;
    limit := r.lo / PAGE_SIZE;
    errno := 0;
    while cur < r.hi
      invariant cur == limit * PAGE_SIZE && r.lo <= cur <= r.hi
      invariant Loading(space, segs, file, frames, bytes, limit)
    {
      assert cur / PAGE_SIZE == limit && Spans(r, limit);
      errno, limit := LoadNext(space, file, segs, cur, frames, bytes);
      if errno != 0 {
        return;
      }
      cur := cur + PAGE_SIZE;
    }
  }

  lemma HoleBetween(regions: seq<Region>, segs: seq<Seg>, r: nat, p: nat)
    requires Cover(regions, segs) && r <= |regions| && InImage(segs, p)
    ensures var end := if r == 0 then 0 else regions[r - 1].hi / PAGE_SIZE;
            var next := if r == |regions| then USER_PAGES else regions[r].lo / PAGE_SIZE;
            p < end <==> p < next
  {
    assert InRegions(regions, p);
    var k :| 0 <= k < |regions| && Spans(regions[k], p);
    if k < r {
      assert k < r - 1 ==> regions[k].hi < regions[r - 1].lo;
      assert r < |regions| ==> regions[r - 1].hi < regions[r].lo;
    } else {
      assert r < k ==> regions[r].hi < regions[k].lo;
      assert r > 0 ==> regions[r - 1].hi < regions[k].lo;
    }
  }

  /** The limit once the regions below r are loaded. */
  function LimitAfter(regions: seq<Region>, r: nat): nat
    requires r <= |regions|
  {
    if r == 0 then 0 else regions[r - 1].hi / PAGE_SIZE
  }

  /** The body of the region loop. */
  method LoadRegionAt(space: AddressSpace, file: File, segs: seq<Seg>, regions: seq<Region>, r: nat,
                      ghost frames: set<nat>, ghost bytes: Contents)
    returns (errno: nat, ghost limit: nat)
    requires AllValidated(segs, |file.data|) && |file.data| < WORD && Cover(regions, segs) && r < |regions|
    requires Loading(space, segs, file, frames, bytes, LimitAfter(regions, r))
    modifies space.pgdir, space.tables, space.ram, space.ram.Repr()
    ensures Loading(space, segs, file, frames, bytes, limit)
    ensures if errno == 0 then limit == LimitAfter(regions, r + 1) else Starved(errno, space, file)
  {
    forall p: nat | InImage(segs, p)
      ensures p < LimitAfter(regions, r) <==> p < regions[r].lo / PAGE_SIZE
    {
      HoleBetween(regions, segs, r, p);
    }
    RaiseLimit(space.Flat(), space.ram.bytes, segs, file.data, LimitAfter(regions, r), regions[r].lo / PAGE_SIZE);
    assert forall p: nat | Spans(regions[r], p) :: InRegions(regions, p);
    errno, limit := LoadRegion(space, file, segs, regions[r], frames, bytes);
  }

  lemma NothingLoaded(space: AddressSpace, segs: seq<Seg>, file: File)
    requires AllValidated(segs, |file.data|)
    requires space.Valid() && space.Owns() && space.Flat() == map[] && space.TableFrames() == {}
    ensures Loading(space, segs, file, space.ram.Frames(), space.ram.bytes, 0)
  {
  }

  /** Past the last region there is nothing left to load. */
  lemma AllLoaded(space: AddressSpace, segs: seq<Seg>, file: File, regions: seq<Region>, frames: set<nat>, bytes: Contents)
    requires AllValidated(segs, |file.data|) && Cover(regions, segs)
    requires Loading(space, segs, file, frames, bytes, LimitAfter(regions, |regions|))
    ensures Loading(space, segs, file, frames, bytes, USER_PAGES)
  {
    forall p: nat | InImage(segs, p)
      ensures p < LimitAfter(regions, |regions|) <==> p < USER_PAGES
    {
      HoleBetween(regions, segs, |regions|, p);
    }
    RaiseLimit(space.Flat(), space.ram.bytes, segs, file.data, LimitAfter(regions, |regions|), USER_PAGES);
  }

  /** The region loop: on success exactly the image is mapped; on failure what was taken stays accounted for. */
  method LoadRegions(space: AddressSpace, file: File, segs: seq<Seg>, regions: seq<Region>) returns (errno: nat, ghost limit: nat)
    requires space.Valid() && space.Owns() && space.Flat() == map[] && space.TableFrames() == {}
    requires AllValidated(segs, |file.data|) && |file.data| < WORD && Cover(regions, segs)
    modifies space.pgdir, space.tables, space.ram, space.ram.Repr()
    ensures Loading(space, segs, file, old(space.ram.Frames()), old(space.ram.bytes), limit)
    ensures if errno == 0 then limit == USER_PAGES else Starved(errno, space, file)
  {
    ghost var frames, bytes := space.ram.Frames(), space.ram.bytes;
    limit := 0;
    errno := 0;
    NothingLoaded(space, segs, file);
    for r := 0 to |regions|
      invariant limit == LimitAfter(regions, r) && errno == 0
      invariant Loading(space, segs, file, frames, bytes, limit)
    {
      errno, limit := LoadRegionAt(space, file, segs, regions, r, frames, bytes);
      if errno != 0 {
        return;
      }
    }
    AllLoaded(space, segs, file, regions, frames, bytes);
    limit := USER_PAGES;
  }
}
