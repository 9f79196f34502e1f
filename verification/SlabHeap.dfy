/** The small-object heap on top of the page allocator (mm/slab.c over mm/buddy.c). */
module SlabHeap {
  import opened Layout
  import opened PageAllocator
  import opened SlabLayout
  import opened Slab

  class SlabHeap {
    const pages: PageAllocator
    var state: State
    /** The objects that callers hold. */
    ghost var live: set<nat>

    /** The slab invariant, and the pages of the slabs are allocated. */
    ghost predicate Valid()
      reads this, pages, pages.bitmap, pages.bitmap.words
    {
      && pages.Valid() && Sound(state, live)
      && forall p {:trigger Backed(p)} | p in state.slabs :: Backed(p)
    }

    /** p is the address of an allocated page. */
    ghost predicate Backed(p: nat)
      reads pages.bitmap
    {
      p < WORD && pages.PageOf(p) >= 0 && pages.PageOf(p) in pages.Used() && p == pages.VirtOf(pages.PageOf(p))
    }

    /** slab_init */
    constructor (pages: PageAllocator)
      requires pages.Valid()
      ensures Valid() && this.pages == pages && live == {} && state.slabs == map[]
    {
      this.pages := pages;
      var s := Init();
      state, live := s, {};
      assert Ok(s, View({}, map[]));
    }

    method TakePage() returns (page: nat)
      requires pages.Valid()
      modifies pages, pages.bitmap, pages.bitmap.words
      ensures pages.Valid() && pages.freePages == old(pages.freePages) - (if page != 0 then 1 else 0)
      ensures page == 0 <==> old(pages.freePages) == 0
      ensures page != 0 ==> page % PAGE_SIZE == 0 && Backed(page) && !old(Backed(page))
      ensures forall p {:trigger Backed(p)} | old(Backed(p)) :: Backed(p)
    {
      ghost var no;
      page, no := pages.AllocPage();
      if page != 0 {
        pages.AddressRoundTrip(no);
      }
    }

    method ReturnPage(page: nat)
      requires pages.Valid() && Backed(page)
      modifies pages, pages.bitmap, pages.bitmap.words
      ensures pages.Valid() && pages.freePages == old(pages.freePages) + 1
      ensures forall p {:trigger Backed(p)} | old(Backed(p)) && p != page :: Backed(p)
    {
      pages.Free(page);
    }

    method Commit(s: State, ghost l: set<nat>)
      requires pages.Valid() && Sound(s, l) && forall p {:trigger Backed(p)} | p in s.slabs :: Backed(p)
      modifies this`state, this`live
      ensures Valid() && state == s && live == l
    {
      state, live := s, l;
    }

    lemma OneSlabMore(keys: set<nat>, p: nat)
      requires p !in keys
      ensures |keys + {p}| == |keys| + 1
    {
    }

    /** The second attempt of kalloc, when no slab of the size has room: a page is taken for a new slab. */
    method AllocFresh(size: nat) returns (addr: nat)
      requires Valid() && 0 < size <= MAX_OBJECT && Exhausted(state, SizeClass(size))
      modifies this`state, this`live, pages, pages.bitmap, pages.bitmap.words
      ensures Valid()
      ensures addr == 0 <==> old(pages.freePages) == 0
      ensures addr == 0 ==> live == old(live) && state == old(state) && pages.freePages == old(pages.freePages)
      ensures addr != 0 ==> addr !in old(live) && live == old(live) + {addr}
      ensures addr != 0 ==> KallocGives(old(state), size, state, addr)
      ensures addr != 0 ==> PageOf(addr) in state.slabs && state.slabs[PageOf(addr)].objSize == SizeClass(size)
      ensures addr != 0 ==> pages.freePages == old(pages.freePages) - 1
      ensures |state.slabs.Keys| + pages.freePages == old(|state.slabs.Keys| + pages.freePages)
    {
      addr := 0;
      var page := TakePage();
      if page != 0 {
        assert page !in state.slabs;
        OneSlabMore(state.slabs.Keys, page);
        var s;
        s, addr := AllocObject(state, live, size, page);
        Commit(s, live + {addr});
      }
    }

    /** kalloc above 2048 bytes: a run of free pages from the page allocator, or NULL when there is none that is long enough. */
    method AllocLarge(size: Word) returns (addr: nat, ghost start: nat)
      requires Valid() && size > MAX_OBJECT
      modifies pages, pages.bitmap, pages.bitmap.words
      ensures Valid()
      ensures var n, used := PagesNeeded(size), old(pages.Used());
              && (addr == 0 <==> n == 0 || FirstFit(used, pages.totalPages, n, -1))
              && (addr == 0 ==> pages.Used() == used)
              && (addr != 0 ==> FirstFit(used, pages.totalPages, n, start) && pages.Used() == used + Run(start, n)
                                && addr == pages.VirtOf(start))
    {
      addr, start := pages.AllocFlags(size, false);
      forall p {:trigger Backed(p)} | p in state.slabs
        ensures Backed(p)
      {
        assert old(Backed(p));
      }
    }

    /** kalloc: requests of up to 2048 bytes get a slab object, larger ones whole pages. */
    method Kalloc(size: Word) returns (addr: nat)
      requires Valid()
      modifies this`state, this`live, pages, pages.bitmap, pages.bitmap.words
      ensures Valid()
      ensures size <= MAX_OBJECT ==> (addr == 0 <==> size == 0 || (Exhausted(old(state), SizeClass(size)) && old(pages.freePages) == 0))
      ensures size <= MAX_OBJECT ==> live == if addr == 0 then old(live) else old(live) + {addr}
      ensures size <= MAX_OBJECT && addr != 0 ==>
                addr !in old(live) && PageOf(addr) in state.slabs && state.slabs[PageOf(addr)].objSize == SizeClass(size)
      ensures size > MAX_OBJECT ==> live == old(live) && state == old(state)
      ensures size > MAX_OBJECT ==>
                (addr == 0 <==> PagesNeeded(size) == 0 || FirstFit(old(pages.Used()), pages.totalPages, PagesNeeded(size), -1))
      ensures size > MAX_OBJECT && addr == 0 ==> pages.Used() == old(pages.Used())
      ensures size > MAX_OBJECT && addr != 0 ==>
                exists start :: FirstFit(old(pages.Used()), pages.totalPages, PagesNeeded(size), start) && addr == pages.VirtOf(start)
                                && pages.Used() == old(pages.Used()) + Run(start, PagesNeeded(size))
    {
      if size > MAX_OBJECT {
        ghost var start;
        addr, start := AllocLarge(size);
      } else {
        addr := Alloc(size);
      }
    }

    /** kalloc of an object: it is new and disjoint from all others; one page is taken exactly when no slab of the size has
        room. */
    method Alloc(size: nat) returns (addr: nat)
      requires Valid() && size <= MAX_OBJECT
      modifies this`state, this`live, pages, pages.bitmap, pages.bitmap.words
      ensures Valid()
      ensures addr == 0 <==> size == 0 || (Exhausted(old(state), SizeClass(size)) && old(pages.freePages) == 0)
      ensures addr == 0 ==> live == old(live) && state == old(state)
      ensures addr != 0 ==> addr !in old(live) && live == old(live) + {addr}
      ensures addr != 0 ==> KallocGives(old(state), size, state, addr)
      ensures addr != 0 ==> PageOf(addr) in state.slabs && state.slabs[PageOf(addr)].objSize == SizeClass(size)
      ensures pages.freePages == old(pages.freePages) - (if addr != 0 && Exhausted(old(state), SizeClass(size)) then 1 else 0)
      ensures |state.slabs.Keys| + pages.freePages == old(|state.slabs.Keys| + pages.freePages)
    {
      addr := AllocExisting(size);
      if addr == 0 && size != 0 {
        addr := AllocFresh(size);
      }
    }

    /** The first attempt of kalloc, from the slabs that there are. */
    method AllocExisting(size: nat) returns (addr: nat)
      requires Valid() && size <= MAX_OBJECT
      modifies this`state, this`live
      ensures Valid() && state.slabs.Keys == old(state.slabs.Keys)
      ensures addr == 0 <==> size == 0 || Exhausted(old(state), SizeClass(size))
      ensures addr == 0 ==> live == old(live) && state == old(state)
      ensures addr != 0 ==> addr !in old(live) && live == old(live) + {addr} && KallocGives(old(state), size, state, addr)
      ensures addr != 0 ==> PageOf(addr) in state.slabs && state.slabs[PageOf(addr)].objSize == SizeClass(size)
    {
      var s;
      s, addr := AllocObject(state, live, size, 0);
      if addr != 0 {
        assert KallocStep(state, size, 0, s, addr);
        Commit(s, live + {addr});
      }
    }

    /** The new state, with the page of the released slab given back. */
    method CommitWithout(s: State, ghost l: set<nat>, freed: nat)
      requires pages.Valid() && Sound(s, l) && Backed(freed) && freed !in s.slabs
      requires forall p {:trigger Backed(p)} | p in s.slabs :: Backed(p)
      modifies this`state, this`live, pages, pages.bitmap, pages.bitmap.words
      ensures Valid() && state == s && live == l && pages.freePages == old(pages.freePages) + 1
    {
      ReturnPage(freed);
      Commit(s, l);
    }

    lemma OneSlabLess(keys: set<nat>, p: nat)
      requires p in keys
      ensures |keys - {p}| == |keys| - 1
    {
    }

    /** The new state after an object went back; freed is the released slab, or 0. */
    method Finish(s: State, ghost l: set<nat>, freed: nat)
      requires Valid() && Sound(s, l)
      requires freed != 0 ==> freed in state.slabs
      requires s.slabs.Keys == if freed == 0 then state.slabs.Keys else state.slabs.Keys - {freed}
      modifies this`state, this`live, pages, pages.bitmap, pages.bitmap.words
      ensures Valid() && live == l && state == s
      ensures pages.freePages == old(pages.freePages) + if freed == 0 then 0 else 1
      ensures |state.slabs.Keys| + pages.freePages == old(|state.slabs.Keys| + pages.freePages)
    {
      if freed == 0 {
        Commit(s, l);
      } else {
        OneSlabLess(state.slabs.Keys, freed);
        CommitWithout(s, l, freed);
      }
    }

    method FreeLive(addr: nat)
      requires Valid() && addr in live
      modifies this`state, this`live, pages, pages.bitmap, pages.bitmap.words
      ensures Valid() && live == old(live) - {addr} && KfreeGives(old(state), addr, state, pages.freePages - old(pages.freePages))
      ensures |state.slabs.Keys| + pages.freePages == old(|state.slabs.Keys| + pages.freePages)
    {
      var s, freed := FreeObject(state, live, addr);
      Finish(s, live - {addr}, freed);
    }

    /** kfree of a small object: its page goes back to the page allocator when the slab is released. */
    method Free(addr: nat)
      requires Valid() && (addr == 0 || addr in live)
      modifies this`state, this`live, pages, pages.bitmap, pages.bitmap.words
      ensures Valid() && live == old(live) - {addr}
      ensures if addr == 0 then state == old(state) && pages.freePages == old(pages.freePages)
              else KfreeGives(old(state), addr, state, pages.freePages - old(pages.freePages))
      ensures |state.slabs.Keys| + pages.freePages == old(|state.slabs.Keys| + pages.freePages)
    {
      if addr != 0 {
        FreeLive(addr);
      } else {
        LiveIsNotNull(state, live);
      }
    }
  }
}
