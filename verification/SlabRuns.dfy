/** Runs of kalloc and kfree (mm/slab.c over mm/buddy.c). */
module SlabRuns {
  import opened Layout
  import opened Lists
  import opened Runs
  import opened SlabLayout
  import opened Slab
  import opened SlabHeap

  /** KfreeCall gives back one of the objects that are held, by position. */
  datatype Call = KallocCall(size: nat) | KfreeCall(index: nat)

  /** Without live objects every slab is wholly free. */
  lemma IdleIsWhollyFree(s: State, g: View, p: nat)
    requires Ok(s, g) && g.live == {} && p in s.slabs
    ensures WhollyFree(s.slabs, p) && p != 0 && HasCache(s.slabs[p].objSize)
  {
    var size, list := s.slabs[p].objSize, g.lists[p];
    assert SlabOk(p, s.slabs[p], list, s.words);
    ObjectsAreFew(p, size, list);
    AllAddresses(p, size);
    var all := AddressesFrom(p, size, 0);
    forall a | a in all
      ensures a in list
    {
      assert IsObject(p, s.slabs[p].objSize, a);
    }
    SizeOfList(list);
    SizeOfList(all);
    SubsetIsSmaller(Elements(all), Elements(list));
  }

  /** The slabs of the first k sizes. */
  ghost function OfSizes(s: State, k: nat): set<nat>
    requires k <= |SIZES|
  {
    set p | p in s.slabs && exists i :: 0 <= i < k && SIZES[i] == s.slabs[p].objSize
  }

  ghost function OfSize(s: State, size: nat): set<nat> {
    set p | p in s.slabs && s.slabs[p].objSize == size
  }

  lemma AtMostOne(a: set<nat>)
    requires forall p, q | p in a && q in a :: p == q
    ensures |a| <= 1
  {
    if a != {} {
      var p :| p in a;
      assert a == {p};
    }
  }

  lemma OneMoreSize(s: State, k: nat)
    requires 0 < k <= |SIZES| && |OfSize(s, SIZES[k - 1])| <= 1
    ensures |OfSizes(s, k)| <= |OfSizes(s, k - 1)| + 1
  {
    var same := OfSize(s, SIZES[k - 1]);
    assert OfSizes(s, k) <= OfSizes(s, k - 1) + same;
    SubsetIsSmaller(OfSizes(s, k), OfSizes(s, k - 1) + same);
  }

  lemma IdleOfSize(s: State, g: View, size: nat)
    requires Ok(s, g) && g.live == {}
    ensures |OfSize(s, size)| <= 1
  {
    var same := OfSize(s, size);
    forall p, q | p in same && q in same
      ensures p == q
    {
      IdleIsWhollyFree(s, g, p);
      IdleIsWhollyFree(s, g, q);
    }
    AtMostOne(same);
  }

  lemma {:induction false} IdleOfSizes(s: State, g: View, k: nat)
    requires Ok(s, g) && g.live == {} && k <= |SIZES|
    ensures |OfSizes(s, k)| <= k
  {
    if k > 0 {
      IdleOfSizes(s, g, k - 1);
      IdleOfSize(s, g, SIZES[k - 1]);
      OneMoreSize(s, k);
    }
  }

  lemma AllOfSizes(s: State, g: View)
    requires Ok(s, g) && g.live == {}
    ensures s.slabs.Keys == OfSizes(s, |SIZES|)
  {
    forall p | p in s.slabs
      ensures p in OfSizes(s, |SIZES|)
    {
      IdleIsWhollyFree(s, g, p);
    }
  }

  /** When everything was given back, at most one slab of each size is kept. */
  lemma IdleKeepsFewSlabs(s: State)
    requires Sound(s, {})
    ensures |s.slabs.Keys| <= |SIZES|
  {
    var lists :| Ok(s, View({}, lists));
    var g := View({}, lists);
    IdleOfSizes(s, g, |SIZES|);
    AllOfSizes(s, g);
  }

  /** The held objects do not overlap each other or a page header. */
  ghost predicate Apart(s: State, held: seq<nat>) {
    && (forall i {:trigger held[i]} | 0 <= i < |held| ::
          var p := PageOf(held[i]);
          p in s.slabs && p + HEADER <= held[i] && held[i] + s.slabs[p].objSize <= p + PAGE_SIZE)
    && (forall i, j {:trigger held[i], held[j]} | 0 <= i < |held| && 0 <= j < |held| && i != j ::
          held[i] + s.slabs[PageOf(held[i])].objSize <= held[j] || held[j] + s.slabs[PageOf(held[j])].objSize <= held[i])
  }

  lemma HeldApart(s: State, held: seq<nat>)
    requires NoDuplicates(held) && Sound(s, Elements(held))
    ensures Apart(s, held)
  {
    var lists :| Ok(s, View(Elements(held), lists));
    forall i, j | 0 <= i < |held| && 0 <= j < |held|
      ensures var p, q := PageOf(held[i]), PageOf(held[j]);
              && p in s.slabs && q in s.slabs && p + HEADER <= held[i] && held[i] + s.slabs[p].objSize <= p + PAGE_SIZE
              && (i == j || held[i] + s.slabs[p].objSize <= held[j] || held[j] + s.slabs[q].objSize <= held[i])
    {
      assert held[i] in Elements(held) && held[j] in Elements(held);
      LiveObjectsDisjoint(s, View(Elements(held), lists), held[i], held[j]);
    }
  }

  lemma HeldPlus(held: seq<nat>, a: nat)
    requires NoDuplicates(held) && a !in Elements(held)
    ensures NoDuplicates(held + [a]) && Elements(held + [a]) == Elements(held) + {a}
  {
    assert forall i | 0 <= i < |held| :: held[i] in Elements(held);
  }

  lemma HeldMinus(held: seq<nat>, i: nat)
    requires NoDuplicates(held) && i < |held|
    ensures NoDuplicates(Without(held, held[i])) && Elements(Without(held, held[i])) == Elements(held) - {held[i]}
  {
    WithoutFacts(held, held[i]);
  }

  /** The slabs, the objects that callers hold, and the free pages. */
  datatype World = World(state: State, held: seq<nat>, freePages: int)

  /** The slabs are sound for the objects that are held. */
  ghost predicate Good(w: World) {
    NoDuplicates(w.held) && Sound(w.state, Elements(w.held))
  }

  /** The pages that the slabs and the free pages are together. */
  ghost function Pages(w: World): int {
    |w.state.slabs.Keys| + w.freePages
  }

  /** What holds in every world of a run: held objects are disjoint and miss the page headers, each size has at most one
      wholly free slab, and when nothing is held there is at most one slab of each size. */
  ghost predicate Tidy(w: World) {
    && NoDuplicates(w.held) && Apart(w.state, w.held) && OneSpare(w.state.slabs, 0)
    && (w.held == [] ==> |w.state.slabs.Keys| <= |SIZES|)
  }

  lemma GoodIsTidy(w: World)
    requires Good(w)
    ensures Tidy(w)
  {
    HeldApart(w.state, w.held);
    var lists :| Ok(w.state, View(Elements(w.held), lists));
    if w.held == [] {
      assert Elements(w.held) == {};
      IdleKeepsFewSlabs(w.state);
    }
  }

  /** What a call does: kalloc takes an object, with a free page exactly if no slab has room, and gives NULL only when there
      is no page either; kfree puts the object back. A position that does not exist stands for kfree(NULL), and sizes above
      2048 do not come here. */
  ghost predicate Next(w: World, c: Call, w': World) {
    match c
    case KallocCall(size) =>
      if size == 0 || size > 2048 || (Exhausted(w.state, SizeClass(size)) && w.freePages == 0) then w' == w
      else
        && w'.freePages == w.freePages - (if Exhausted(w.state, SizeClass(size)) then 1 else 0)
        && exists a :: KallocGives(w.state, size, w'.state, a) && w'.held == w.held + [a]
    case KfreeCall(i) =>
      if i < |w.held| then
        KfreeGives(w.state, w.held[i], w'.state, w'.freePages - w.freePages) && w'.held == Without(w.held, w.held[i])
      else w' == w
  }

  /** A call keeps the slabs sound for what is held; no page is lost or used twice, and what kalloc gives is new. */
  lemma NextKeeps(w: World, c: Call, w': World)
    requires Good(w) && Next(w, c, w')
    ensures Good(w') && Pages(w') == Pages(w)
    ensures c.KallocCall? && w' != w ==>
              && w.held < w'.held && w'.held[|w.held|] !in w.held
              && var p := PageOf(w'.held[|w.held|]); p in w'.state.slabs && w'.state.slabs[p].objSize == SizeClass(c.size)
  {
    match c
    case KallocCall(size) =>
      if !(size == 0 || size > 2048 || (Exhausted(w.state, SizeClass(size)) && w.freePages == 0)) {
        var a :| KallocGives(w.state, size, w'.state, a) && w'.held == w.held + [a];
        var page :| KallocStep(w.state, size, page, w'.state, a);
        MoreKeeps(w, size, page, a, w');
      }
    case KfreeCall(i) =>
      if i < |w.held| {
        var freed :| KfreeStep(w.state, w.held[i], w'.state, freed) && w'.freePages - w.freePages == if freed == 0 then 0 else 1;
        FewerKeeps(w, i, freed, w');
      }
  }

  lemma MoreKeeps(w: World, size: nat, page: nat, a: nat, w': World)
    requires Good(w) && KallocStep(w.state, size, page, w'.state, a) && w'.held == w.held + [a]
    requires w'.freePages == w.freePages - if Exhausted(w.state, SizeClass(size)) then 1 else 0
    ensures Good(w') && Pages(w') == Pages(w) && a !in w.held
    ensures PageOf(a) in w'.state.slabs && w'.state.slabs[PageOf(a)].objSize == SizeClass(size)
  {
    KallocKeeps(w.state, Elements(w.held), size, page, w'.state, a);
    assert a !in w.held;
    HeldPlus(w.held, a);
    OneMore(w.state.slabs.Keys, page);
    SameKeys(w.state.slabs.Keys);
  }

  lemma FewerKeeps(w: World, i: nat, freed: nat, w': World)
    requires Good(w) && i < |w.held| && KfreeStep(w.state, w.held[i], w'.state, freed) && w'.held == Without(w.held, w.held[i])
    requires w'.freePages == w.freePages + if freed == 0 then 0 else 1
    ensures Good(w') && Pages(w') == Pages(w)
  {
    KfreeKeeps(w.state, Elements(w.held), w.held[i], w'.state, freed);
    HeldMinus(w.held, i);
    OneLess(w.state.slabs.Keys, freed);
  }

  lemma SameKeys(keys: set<nat>)
    ensures keys + {} == keys
  {
  }

  lemma OneMore(keys: set<nat>, p: nat)
    ensures |keys + {p}| == |keys| + if p in keys then 0 else 1
  {
    assert p in keys ==> keys + {p} == keys;
  }

  lemma OneLess(keys: set<nat>, p: nat)
    ensures |keys - {p}| == |keys| - if p in keys then 1 else 0
  {
    assert p !in keys ==> keys - {p} == keys;
  }

  /** Every world of a run is tidy, and the pages are conserved. */
  lemma {:induction false} RunKeeps(worlds: seq<World>, calls: seq<Call>, i: nat)
    requires IsRun(Next, worlds, calls) && Good(worlds[0]) && i < |worlds|
    ensures Good(worlds[i]) && Tidy(worlds[i]) && Pages(worlds[i]) == Pages(worlds[0])
  {
    if i > 0 {
      RunKeeps(worlds, calls, i - 1);
      assert IsStep(Next, worlds, calls, i - 1);
      NextKeeps(worlds[i - 1], calls[i - 1], worlds[i]);
    }
    GoodIsTidy(worlds[i]);
  }

  ghost function Now(heap: SlabHeap, held: seq<nat>): World
    reads heap, heap.pages
  {
    World(heap.state, held, heap.pages.freePages)
  }

  /** One call. */
  method Do(heap: SlabHeap, held: seq<nat>, c: Call) returns (held': seq<nat>)
    requires heap.Valid() && NoDuplicates(held) && heap.live == Elements(held)
    modifies heap, heap.pages, heap.pages.bitmap, heap.pages.bitmap.words
    ensures heap.Valid() && NoDuplicates(held') && heap.live == Elements(held')
    ensures Next(old(Now(heap, held)), c, Now(heap, held'))
  {
    match c
    case KallocCall(size) =>
      held' := DoKalloc(heap, held, size);
    case KfreeCall(i) =>
      held' := DoKfree(heap, held, i);
  }

  method DoKalloc(heap: SlabHeap, held: seq<nat>, size: nat) returns (held': seq<nat>)
    requires heap.Valid() && NoDuplicates(held) && heap.live == Elements(held)
    modifies heap, heap.pages, heap.pages.bitmap, heap.pages.bitmap.words
    ensures heap.Valid() && NoDuplicates(held') && heap.live == Elements(held')
    ensures Next(old(Now(heap, held)), KallocCall(size), Now(heap, held'))
  {
    held' := held;
    if size <= MAX_OBJECT {
      var addr := heap.Alloc(size);
      if addr != 0 {
        HeldPlus(held, addr);
        held' := held + [addr];
      }
    }
  }

  method DoKfree(heap: SlabHeap, held: seq<nat>, i: nat) returns (held': seq<nat>)
    requires heap.Valid() && NoDuplicates(held) && heap.live == Elements(held)
    modifies heap, heap.pages, heap.pages.bitmap, heap.pages.bitmap.words
    ensures heap.Valid() && NoDuplicates(held') && heap.live == Elements(held')
    ensures Next(old(Now(heap, held)), KfreeCall(i), Now(heap, held'))
  {
    if i < |held| {
      HeldMinus(held, i);
      HeldIsLive(heap, held, i);
      heap.Free(held[i]);
      held' := Without(held, held[i]);
    } else {
      heap.Free(0);
      held' := held;
    }
  }

  /** What is held is not NULL. */
  lemma HeldIsLive(heap: SlabHeap, held: seq<nat>, i: nat)
    requires heap.Valid() && heap.live == Elements(held) && i < |held|
    ensures held[i] in heap.live && held[i] != 0
  {
    LiveIsNotNull(heap.state, heap.live);
  }

  /** Every run, by its worlds: they follow from each other as the calls say, all of them are tidy, and no page is lost or
      used twice. */
  method Run(heap: SlabHeap, calls: seq<Call>) returns (held: seq<nat>, ghost worlds: seq<World>)
    requires heap.Valid() && heap.live == {}
    modifies heap, heap.pages, heap.pages.bitmap, heap.pages.bitmap.words
    ensures heap.Valid() && heap.live == Elements(held)
    ensures IsRun(Next, worlds, calls) && worlds[0] == old(Now(heap, [])) && worlds[|calls|] == Now(heap, held)
    ensures forall i {:trigger worlds[i]} | 0 <= i <= |calls| :: Tidy(worlds[i]) && Pages(worlds[i]) == Pages(worlds[0])
  {
    held, worlds := [], [Now(heap, [])];
    assert Elements(held) == {} && Good(worlds[0]);
    for i := 0 to |calls|
      invariant heap.Valid() && NoDuplicates(held) && heap.live == Elements(held)
      invariant IsRun(Next, worlds, calls[..i]) && Good(worlds[0]) && worlds[0] == old(Now(heap, [])) && worlds[i] == Now(heap, held)
    {
      held := Do(heap, held, calls[i]);
      ghost var now := Now(heap, held);
      assert calls[..i + 1] == calls[..i] + [calls[i]];
      ExtendRun(Next, worlds, calls[..i], calls[i], now);
      worlds := worlds + [now];
    }
    assert calls[..|calls|] == calls;
    forall i | 0 <= i <= |calls|
      ensures Tidy(worlds[i]) && Pages(worlds[i]) == Pages(worlds[0])
    {
      RunKeeps(worlds, calls, i);
    }
  }
}
