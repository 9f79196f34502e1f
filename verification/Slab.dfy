/** kalloc and kfree of small objects (mm/slab.c). */
module Slab {
  import opened Layout
  import opened Lists
  import opened SlabLayout

  const MAX_SLAB_CACHES := 16

  /** The header of a slab page. */
  datatype Slab = Slab(objSize: nat, numObjs: nat, freeCount: nat, freeList: nat)

  datatype Cache = Cache(objSize: nat, partial: seq<nat>, full: seq<nat>)

  /** The slab pages by address, the words stored in objects, and the caches. */
  datatype State = State(slabs: map<nat, Slab>, words: map<nat, nat>, caches: seq<Cache>)

  /** What callers hold, and the free list of each slab page. */
  datatype View = View(live: set<nat>, lists: map<nat, seq<nat>>)

  ghost predicate SlabOk(p: nat, slab: Slab, list: seq<nat>, words: map<nat, nat>) {
    && 0 < p && p % PAGE_SIZE == 0
    && 0 < slab.objSize <= MAX_OBJECT && slab.numObjs == Objects(slab.objSize)
    && slab.freeCount == |list| && NoDuplicates(list)
    && (forall a | a in list :: IsObject(p, slab.objSize, a))
    && Chain(words, slab.freeList, list)
  }

  /** A cache lists exactly the slabs of its size: those with a free object as partial, the others as full. */
  ghost predicate CacheOk(c: Cache, slabs: map<nat, Slab>) {
    && NoDuplicates(c.partial) && NoDuplicates(c.full)
    && (forall p :: p in c.partial <==> p in slabs && slabs[p].objSize == c.objSize && slabs[p].freeCount > 0)
    && (forall p :: p in c.full <==> p in slabs && slabs[p].objSize == c.objSize && slabs[p].freeCount == 0)
  }

  /** Each object of a slab page is either free or live. */
  ghost predicate LiveOk(slabs: map<nat, Slab>, g: View) {
    && (forall a | a in g.live :: PageOf(a) in slabs && PageOf(a) in g.lists
          && slabs[PageOf(a)].objSize > 0 && IsObject(PageOf(a), slabs[PageOf(a)].objSize, a) && a !in g.lists[PageOf(a)])
    && (forall p, a {:trigger IsObject(p, slabs[p].objSize, a)} |
          p in slabs && p in g.lists && slabs[p].objSize > 0 && IsObject(p, slabs[p].objSize, a) :: a in g.lists[p] || a in g.live)
  }

  ghost predicate WhollyFree(slabs: map<nat, Slab>, p: nat)
    requires p in slabs
  {
    slabs[p].freeCount == slabs[p].numObjs
  }

  /** Apart from the given page, each size has at most one slab without live objects. */
  ghost predicate OneSpare(slabs: map<nat, Slab>, except: nat) {
    forall p, q | p in slabs && q in slabs && p != except && q != except && slabs[p].objSize == slabs[q].objSize
                  && WhollyFree(slabs, p) && WhollyFree(slabs, q) :: p == q
  }

  ghost predicate HasCache(size: nat) {
    exists k: nat :: k < |SIZES| && SIZES[k] == size
  }

  ghost predicate SlabsOk(slabs: map<nat, Slab>, lists: map<nat, seq<nat>>, words: map<nat, nat>) {
    && lists.Keys == slabs.Keys
    && (forall p {:trigger SlabOk(p, slabs[p], lists[p], words)} | p in slabs :: SlabOk(p, slabs[p], lists[p], words) && HasCache(slabs[p].objSize))
  }

  ghost predicate CachesOk(caches: seq<Cache>, slabs: map<nat, Slab>) {
    && |caches| == |SIZES|
    && (forall i {:trigger caches[i]} | 0 <= i < |caches| :: caches[i].objSize == SIZES[i] && CacheOk(caches[i], slabs))
  }

  ghost predicate OkBut(s: State, g: View, except: nat) {
    && SlabsOk(s.slabs, g.lists, s.words)
    && CachesOk(s.caches, s.slabs)
    && LiveOk(s.slabs, g)
    && OneSpare(s.slabs, except)
  }

  ghost predicate Ok(s: State, g: View) {
    OkBut(s, g, 0)
  }

  /** Live objects lie behind the page headers and are pairwise disjoint. */
  lemma LiveObjectsDisjoint(s: State, g: View, a: nat, b: nat)
    requires Ok(s, g) && a in g.live && b in g.live
    ensures var r := s.slabs[PageOf(a)].objSize;
            && PageOf(a) + HEADER <= a && a + r <= PageOf(a) + PAGE_SIZE
            && (a != b ==> a + r <= b || b + s.slabs[PageOf(b)].objSize <= a)
  {
    var p, q := PageOf(a), PageOf(b);
    assert SlabOk(p, s.slabs[p], g.lists[p], s.words) && SlabOk(q, s.slabs[q], g.lists[q], s.words);
    ObjectIsInside(p, s.slabs[p].objSize, a);
    if a != b {
      DistinctObjectsApart(p, s.slabs[p].objSize, a, q, s.slabs[q].objSize, b);
    }
  }

  /** The smallest cache size that holds a request. */
  function SizeClass(size: nat): (r: nat)
    requires size <= MAX_OBJECT
    ensures size <= r <= MAX_OBJECT
  {
    SmallestFrom(0, size)
  }

  function SmallestFrom(k: nat, size: nat): (r: nat)
    requires k < |SIZES| && size <= MAX_OBJECT
    ensures size <= r <= MAX_OBJECT
    decreases |SIZES| - k
  {
    if size <= SIZES[k] || k == |SIZES| - 1 then SIZES[k] else SmallestFrom(k + 1, size)
  }

  /** No smaller cache size would do. */
  lemma {:induction false} ClassIsSmallest(k: nat, size: nat)
    requires k < |SIZES| && size <= MAX_OBJECT
    ensures forall j | k <= j < |SIZES| && size <= SIZES[j] :: SmallestFrom(k, size) <= SIZES[j]
    decreases |SIZES| - k
  {
    if !(size <= SIZES[k] || k == |SIZES| - 1) {
      ClassIsSmallest(k + 1, size);
    }
  }

  /** round_up_pow2 up to 2048: the smallest cache size that is large enough. */
  method RoundUpPow2(size: nat) returns (r: nat, ghost k: nat)
    requires size <= MAX_OBJECT
    ensures k < |SIZES| && r == SIZES[k] && r == SizeClass(size)
    ensures size <= r && forall j | 0 <= j < |SIZES| && size <= SIZES[j] :: r <= SIZES[j]
  {
    ClassIsSmallest(0, size);
    r, k := 8, 0;
    if size > 8 {
      while r < size && r < 2048
        invariant k < |SIZES| && r == SIZES[k] && SizeClass(size) == SmallestFrom(k, size)
        decreases 2048 - r
      {
        r := r * 2;
        k := k + 1;
      }
    }
  }

  /** get_cache: the index of the cache for a size, made at the end of the table when there is none;
      -1 when the table is full. */
  method GetCache(caches: seq<Cache>, objSize: nat) returns (caches': seq<Cache>, i: int)
    ensures i < |caches'|
    ensures 0 <= i ==> caches'[i].objSize == objSize
    ensures (exists k :: 0 <= k < |caches| && caches[k].objSize == objSize) ==> 0 <= i && caches' == caches
    ensures (forall k | 0 <= k < |caches| :: caches[k].objSize != objSize) ==>
              if |caches| < MAX_SLAB_CACHES then i == |caches| && caches' == caches + [Cache(objSize, [], [])]
              else i == -1 && caches' == caches
  {
    caches' := caches;
    i := 0;
    while i < |caches|
      invariant 0 <= i <= |caches|
      invariant forall k | 0 <= k < i :: caches[k].objSize != objSize
    {
      if caches[i].objSize == objSize {
        return;
      }
      i := i + 1;
    }
    if |caches| >= MAX_SLAB_CACHES {
      i := -1;
    } else {
      caches' := caches + [Cache(objSize, [], [])];
    }
  }

  /** slab_init: one empty cache for each size. */
  method Init() returns (s: State)
    ensures Ok(s, View({}, map[])) && s.slabs == map[]
  {
    var caches: seq<Cache> := [];
    for k := 0 to |SIZES|
      invariant |caches| == k && forall j | 0 <= j < k :: caches[j] == Cache(SIZES[j], [], [])
    {
      var r, n := RoundUpPow2(SIZES[k]);
      assert r == SIZES[k];
      var i;
      caches, i := GetCache(caches, r);
    }
    s := State(map[], map[], caches);
  }

  lemma {:induction false} AddressesAreLater(page: nat, size: nat, i: nat, a: nat)
    requires size > 0 && i <= Objects(size) && a in AddressesFrom(page, size, i)
    ensures a >= Address(page, size, i)
    decreases Objects(size) - i
  {
    if a != Address(page, size, i) {
      AddressesAreLater(page, size, i + 1, a);
      ObjectsApart(page, size, i, i + 1);
    }
  }

  lemma LinkStep(words: map<nat, nat>, page: nat, objSize: nat, i: nat, freeList: nat)
    requires page > 0 && objSize > 0 && i < Objects(objSize)
    requires Chain(words, freeList, AddressesFrom(page, objSize, i + 1))
    ensures var obj := Address(page, objSize, i);
            && Chain(words[obj := freeList], obj, AddressesFrom(page, objSize, i))
            && IsObject(page, objSize, obj)
  {
    var obj, list := Address(page, objSize, i), AddressesFrom(page, objSize, i + 1);
    forall a | a in list
      ensures a != obj
    {
      AddressesAreLater(page, objSize, i + 1, a);
      ObjectsApart(page, objSize, i, i + 1);
    }
    ChainFrame(words, words[obj := freeList], freeList, list);
    assert AddressesFrom(page, objSize, i)[1..] == list;
  }

  /** create_slab on the page that the page allocator gave: the free list has every object, first to last. */
  method CreateSlab(words: map<nat, nat>, page: nat, objSize: nat) returns (slab: Slab, words': map<nat, nat>)
    requires page > 0 && page % PAGE_SIZE == 0 && 0 < objSize <= MAX_OBJECT
    ensures SlabOk(page, slab, AddressesFrom(page, objSize, 0), words')
    ensures slab.objSize == objSize && slab.freeCount == slab.numObjs > 0
    ensures forall x | x in words && !IsObject(page, objSize, x) :: x in words' && words'[x] == words[x]
  {
    var n := Objects(objSize);
    var freeList := 0;
    words' := words;
    var i: int := n - 1;
    while i >= 0
      invariant -1 <= i < n
      invariant Chain(words', freeList, AddressesFrom(page, objSize, i + 1))
      invariant forall x | x in words && !IsObject(page, objSize, x) :: x in words' && words'[x] == words[x]
    {
      LinkStep(words', page, objSize, i, freeList);
      var obj := Address(page, objSize, i);
      words' := words'[obj := freeList];
      freeList := obj;
      i := i - 1;
    }
    AllAddresses(page, objSize);
    slab := Slab(objSize, n, n, freeList);
  }

  /** A slab does not notice changes to words that are not its free objects. */
  lemma SlabFrame(p: nat, slab: Slab, list: seq<nat>, words: map<nat, nat>, words': map<nat, nat>)
    requires SlabOk(p, slab, list, words)
    requires forall a | a in list && a in words :: a in words' && words'[a] == words[a]
    ensures SlabOk(p, slab, list, words')
  {
    ChainFrame(words, words', slab.freeList, list);
  }

  lemma OtherPage(p: nat, s: nat, q: nat, r: nat, a: nat)
    requires p % PAGE_SIZE == 0 && q % PAGE_SIZE == 0 && s > 0 && r > 0 && p != q && IsObject(p, s, a)
    ensures !IsObject(q, r, a)
  {
    ObjectIsInside(p, s, a);
    if IsObject(q, r, a) {
      ObjectIsInside(q, r, a);
    }
  }

  /** The state with a new, wholly free slab in a cache that had no partial slab. */
  function Grown(s: State, i: nat, page: nat, slab: Slab, words: map<nat, nat>): State
    requires i < |s.caches|
  {
    State(s.slabs[page := slab], words, s.caches[i := s.caches[i].(partial := [page] + s.caches[i].partial)])
  }

  lemma GrowSlabs(slabs: map<nat, Slab>, lists: map<nat, seq<nat>>, words: map<nat, nat>, page: nat, slab: Slab, words': map<nat, nat>)
    requires SlabsOk(slabs, lists, words) && page !in slabs && HasCache(slab.objSize)
    requires 0 < slab.objSize && SlabOk(page, slab, AddressesFrom(page, slab.objSize, 0), words')
    requires forall x | x in words && !IsObject(page, slab.objSize, x) :: x in words' && words'[x] == words[x]
    ensures SlabsOk(slabs[page := slab], lists[page := AddressesFrom(page, slab.objSize, 0)], words')
  {
    forall p | p in slabs
      ensures SlabOk(p, slabs[p], lists[p], words') && HasCache(slabs[p].objSize)
    {
      assert SlabOk(p, slabs[p], lists[p], words);
      forall a | a in lists[p]
        ensures !IsObject(page, slab.objSize, a)
      {
        OtherPage(p, slabs[p].objSize, page, slab.objSize, a);
      }
      SlabFrame(p, slabs[p], lists[p], words, words');
    }
  }

  lemma SizesDiffer(i: nat, k: nat)
    requires i < |SIZES| && k < |SIZES| && SIZES[i] == SIZES[k]
    ensures i == k
  {
  }

  /** Putting a slab that was in no list at the head of a partial list. */
  lemma CachesWithSlab(caches: seq<Cache>, slabs: map<nat, Slab>, i: nat, page: nat, slab: Slab)
    requires CachesOk(caches, slabs) && i < |caches| && page !in slabs && slab.objSize == SIZES[i] && slab.freeCount > 0
    ensures CachesOk(caches[i := caches[i].(partial := [page] + caches[i].partial)], slabs[page := slab])
  {
    var caches', slabs' := caches[i := caches[i].(partial := [page] + caches[i].partial)], slabs[page := slab];
    forall k | 0 <= k < |caches'|
      ensures CacheOk(caches'[k], slabs')
    {
      assert CacheOk(caches[k], slabs);
      if k != i && SIZES[k] == SIZES[i] {
        SizesDiffer(i, k);
      }
    }
  }

  lemma GrowLive(slabs: map<nat, Slab>, g: View, page: nat, slab: Slab)
    requires LiveOk(slabs, g) && page !in slabs && 0 < slab.objSize <= MAX_OBJECT && page % PAGE_SIZE == 0
    ensures LiveOk(slabs[page := slab], g.(lists := g.lists[page := AddressesFrom(page, slab.objSize, 0)]))
  {
    AllAddresses(page, slab.objSize);
  }

  /** A cache without partial slabs gets a new one. */
  lemma GrowKeeps(s: State, g: View, i: nat, page: nat, slab: Slab, words': map<nat, nat>)
    requires Ok(s, g) && i < |s.caches| && s.caches[i].partial == [] && page !in s.slabs
    requires slab.objSize == SIZES[i] && slab.freeCount == slab.numObjs > 0
    requires SlabOk(page, slab, AddressesFrom(page, slab.objSize, 0), words')
    requires forall x | x in s.words && !IsObject(page, slab.objSize, x) :: x in words' && words'[x] == s.words[x]
    ensures Ok(Grown(s, i, page, slab, words'), g.(lists := g.lists[page := AddressesFrom(page, slab.objSize, 0)]))
  {
    assert HasCache(slab.objSize);
    GrowSlabs(s.slabs, g.lists, s.words, page, slab, words');
    CachesWithSlab(s.caches, s.slabs, i, page, slab);
    GrowLive(s.slabs, g, page, slab);
    var slabs' := s.slabs[page := slab];
    forall p | p in s.slabs && s.slabs[p].objSize == slab.objSize
      ensures s.slabs[p].freeCount == 0 && !WhollyFree(slabs', p)
    {
      assert p !in s.caches[i].partial;
      assert SlabOk(p, s.slabs[p], g.lists[p], s.words);
      AllAddresses(p, slab.objSize);
    }
    assert forall p | p in s.slabs :: WhollyFree(slabs', p) == WhollyFree(s.slabs, p);
    assert OneSpare(slabs', 0);
  }

  /** The slab after its first free object was taken. */
  function Taken(slab: Slab, words: map<nat, nat>): Slab
    requires slab.freeList in words && slab.freeCount > 0
  {
    slab.(freeList := words[slab.freeList], freeCount := slab.freeCount - 1)
  }

  lemma TakeSlabs(slabs: map<nat, Slab>, lists: map<nat, seq<nat>>, words: map<nat, nat>, p: nat)
    requires SlabsOk(slabs, lists, words) && p in slabs && slabs[p].freeCount > 0
    ensures slabs[p].freeList in words && lists[p] != [] && slabs[p].freeList == lists[p][0] != 0
    ensures SlabsOk(slabs[p := Taken(slabs[p], words)], lists[p := lists[p][1..]], words)
  {
    var slab, list := slabs[p], lists[p];
    assert SlabOk(p, slab, list, words);
    assert NoDuplicates(list[1..]);
    assert SlabOk(p, Taken(slab, words), list[1..], words);
    assert HasCache(slab.objSize);
  }

  lemma TakeLive(slabs: map<nat, Slab>, g: View, words: map<nat, nat>, p: nat)
    requires SlabsOk(slabs, g.lists, words) && LiveOk(slabs, g) && p in slabs && slabs[p].freeCount > 0
    requires slabs[p].freeList in words && g.lists[p] != [] && slabs[p].freeList == g.lists[p][0]
    ensures var a := slabs[p].freeList;
            && a !in g.live && PageOf(a) == p && slabs[p].objSize > 0 && IsObject(p, slabs[p].objSize, a)
            && LiveOk(slabs[p := Taken(slabs[p], words)], View(g.live + {a}, g.lists[p := g.lists[p][1..]]))
  {
    var list := g.lists[p];
    var a := list[0];
    assert SlabOk(p, slabs[p], list, words);
    assert a in list;
    ObjectIsInside(p, slabs[p].objSize, a);
    assert a !in list[1..];
    assert forall x :: x in list <==> x == a || x in list[1..];
  }

  /** list_move of a slab to the head of the full list of its cache. */
  function MovedToFull(c: Cache, p: nat): Cache {
    c.(partial := Without(c.partial, p), full := [p] + Without(c.full, p))
  }

  lemma TakeCaches(caches: seq<Cache>, slabs: map<nat, Slab>, i: nat, p: nat, slab: Slab)
    requires CachesOk(caches, slabs) && i < |caches| && p in slabs && slabs[p].objSize == slab.objSize == SIZES[i]
    requires slabs[p].freeCount > 0
    ensures CachesOk(if slab.freeCount == 0 then caches[i := MovedToFull(caches[i], p)] else caches, slabs[p := slab])
  {
    var slabs' := slabs[p := slab];
    var caches' := if slab.freeCount == 0 then caches[i := MovedToFull(caches[i], p)] else caches;
    assert CacheOk(caches[i], slabs);
    WithoutFacts(caches[i].partial, p);
    WithoutFacts(caches[i].full, p);
    forall k | 0 <= k < |caches'|
      ensures CacheOk(caches'[k], slabs')
    {
      assert CacheOk(caches[k], slabs);
      if k != i && SIZES[k] == SIZES[i] {
        SizesDiffer(i, k);
      }
    }
  }

  lemma TakeSpare(slabs: map<nat, Slab>, lists: map<nat, seq<nat>>, words: map<nat, nat>, p: nat)
    requires SlabsOk(slabs, lists, words) && p in slabs && slabs[p].freeCount > 0 && slabs[p].freeList in words
    requires OneSpare(slabs, 0)
    ensures OneSpare(slabs[p := Taken(slabs[p], words)], 0)
  {
    var slabs' := slabs[p := Taken(slabs[p], words)];
    assert SlabOk(p, slabs[p], lists[p], words);
    ObjectsAreFew(p, slabs[p].objSize, lists[p]);
    assert !WhollyFree(slabs', p);
    assert forall q | q in slabs && q != p :: WhollyFree(slabs', q) == WhollyFree(slabs, q);
  }

  /** The state after the first free object of p was handed out. */
  function TakenFrom(s: State, i: nat, p: nat): State
    requires i < |s.caches| && p in s.slabs && s.slabs[p].freeList in s.words && s.slabs[p].freeCount > 0
  {
    var slab := Taken(s.slabs[p], s.words);
    State(s.slabs[p := slab], s.words, if slab.freeCount == 0 then s.caches[i := MovedToFull(s.caches[i], p)] else s.caches)
  }

  lemma TakeKeeps(s: State, g: View, i: nat, p: nat)
    requires Ok(s, g) && i < |s.caches| && p in s.slabs && s.slabs[p].objSize == SIZES[i] && s.slabs[p].freeCount > 0
    ensures s.slabs[p].freeList in s.words && g.lists[p] != [] && s.slabs[p].freeList == g.lists[p][0] != 0
    ensures var a := s.slabs[p].freeList;
            && a !in g.live && PageOf(a) == p && s.slabs[p].objSize > 0 && IsObject(p, s.slabs[p].objSize, a)
            && Ok(TakenFrom(s, i, p), View(g.live + {a}, g.lists[p := g.lists[p][1..]]))
  {
    TakeSlabs(s.slabs, g.lists, s.words, p);
    TakeLive(s.slabs, g, s.words, p);
    TakeCaches(s.caches, s.slabs, i, p, Taken(s.slabs[p], s.words));
    TakeSpare(s.slabs, g.lists, s.words, p);
  }

  /** The slab after object a was put at the head of its free list. */
  function Given(slab: Slab, a: nat): Slab {
    slab.(freeList := a, freeCount := slab.freeCount + 1)
  }

  lemma GiveSlabs(slabs: map<nat, Slab>, lists: map<nat, seq<nat>>, words: map<nat, nat>, p: nat, a: nat)
    requires SlabsOk(slabs, lists, words) && p in slabs
    requires slabs[p].objSize > 0 && IsObject(p, slabs[p].objSize, a) && a !in lists[p] && a > 0
    ensures SlabsOk(slabs[p := Given(slabs[p], a)], lists[p := [a] + lists[p]], words[a := slabs[p].freeList])
  {
    var words' := words[a := slabs[p].freeList];
    assert SlabOk(p, slabs[p], lists[p], words);
    forall q | q in slabs
      ensures SlabOk(q, slabs[q], lists[q], words') && HasCache(slabs[q].objSize)
    {
      assert SlabOk(q, slabs[q], lists[q], words);
      if q != p {
        OtherPage(p, slabs[p].objSize, q, slabs[q].objSize, a);
      }
      SlabFrame(q, slabs[q], lists[q], words, words');
    }
    assert ([a] + lists[p])[1..] == lists[p];
    assert SlabOk(p, Given(slabs[p], a), [a] + lists[p], words');
    assert HasCache(slabs[p].objSize);
  }

  lemma GiveLive(slabs: map<nat, Slab>, g: View, p: nat, a: nat)
    requires LiveOk(slabs, g) && a in g.live && PageOf(a) == p
    requires forall q | q in slabs :: q % PAGE_SIZE == 0
    ensures p in slabs && p in g.lists
    ensures LiveOk(slabs[p := Given(slabs[p], a)], View(g.live - {a}, g.lists[p := [a] + g.lists[p]]))
  {
    var slabs', g' := slabs[p := Given(slabs[p], a)], View(g.live - {a}, g.lists[p := [a] + g.lists[p]]);
    var list' := [a] + g.lists[p];
    assert forall x :: x in list' <==> x == a || x in g.lists[p];
    assert slabs'[p].objSize == slabs[p].objSize;
    forall x | x in g'.live
      ensures x in g.live && x != a && (PageOf(x) == p ==> x !in list')
    {
    }
    forall q, x {:trigger IsObject(q, slabs'[q].objSize, x)} |
      q in slabs' && q in g'.lists && slabs'[q].objSize > 0 && IsObject(q, slabs'[q].objSize, x)
      ensures x in g'.lists[q] || x in g'.live
    {
      assert IsObject(q, slabs[q].objSize, x);
      ObjectIsInside(q, slabs[q].objSize, x);
    }
  }

  /** list_move of a slab to the head of the partial list of its cache. */
  function MovedToPartial(c: Cache, p: nat): Cache {
    c.(full := Without(c.full, p), partial := [p] + Without(c.partial, p))
  }

  lemma GiveCaches(caches: seq<Cache>, slabs: map<nat, Slab>, i: nat, p: nat, slab: Slab)
    requires CachesOk(caches, slabs) && i < |caches| && p in slabs && slabs[p].objSize == slab.objSize == SIZES[i]
    requires slab.freeCount > 0
    ensures CachesOk(if slabs[p].freeCount == 0 then caches[i := MovedToPartial(caches[i], p)] else caches, slabs[p := slab])
  {
    var slabs' := slabs[p := slab];
    var caches' := if slabs[p].freeCount == 0 then caches[i := MovedToPartial(caches[i], p)] else caches;
    assert CacheOk(caches[i], slabs);
    WithoutFacts(caches[i].partial, p);
    WithoutFacts(caches[i].full, p);
    forall k | 0 <= k < |caches'|
      ensures CacheOk(caches'[k], slabs')
    {
      assert CacheOk(caches[k], slabs);
      if k != i && SIZES[k] == SIZES[i] {
        SizesDiffer(i, k);
      }
    }
  }

  /** The state after the live object a of p was put back, before the slab is possibly released. */
  function GivenBack(s: State, i: nat, p: nat, a: nat): State
    requires i < |s.caches| && p in s.slabs
  {
    State(s.slabs[p := Given(s.slabs[p], a)], s.words[a := s.slabs[p].freeList],
          if s.slabs[p].freeCount == 0 then s.caches[i := MovedToPartial(s.caches[i], p)] else s.caches)
  }

  ghost function GivenView(g: View, p: nat, a: nat): View
    requires p in g.lists
  {
    View(g.live - {a}, g.lists[p := [a] + g.lists[p]])
  }

  lemma GiveKeeps(s: State, g: View, i: nat, a: nat)
    requires Ok(s, g) && a in g.live && i < |s.caches| && PageOf(a) in s.slabs && s.slabs[PageOf(a)].objSize == SIZES[i]
    ensures OkBut(GivenBack(s, i, PageOf(a), a), GivenView(g, PageOf(a), a), PageOf(a))
  {
    var p := PageOf(a);
    ObjectIsInside(p, s.slabs[p].objSize, a);
    GiveSlabs(s.slabs, g.lists, s.words, p, a);
    assert forall q | q in s.slabs :: SlabOk(q, s.slabs[q], g.lists[q], s.words);
    GiveLive(s.slabs, g, p, a);
    GiveCaches(s.caches, s.slabs, i, p, Given(s.slabs[p], a));
    GiveSpare(s.slabs, p, Given(s.slabs[p], a));
  }

  lemma GiveSpare(slabs: map<nat, Slab>, p: nat, slab: Slab)
    requires OneSpare(slabs, 0) && p in slabs && 0 !in slabs
    ensures OneSpare(slabs[p := slab], p)
  {
    assert forall q | q in slabs && q != p :: WhollyFree(slabs[p := slab], q) == WhollyFree(slabs, q);
  }

  /** The state after the wholly free slab p left its cache and its page was freed. */
  function Shrunk(s: State, i: nat, p: nat): State
    requires i < |s.caches|
  {
    State(s.slabs - {p}, s.words, s.caches[i := s.caches[i].(partial := Without(s.caches[i].partial, p))])
  }

  ghost function ShrunkView(g: View, p: nat): View {
    View(g.live, g.lists - {p})
  }

  lemma ShrinkCaches(caches: seq<Cache>, slabs: map<nat, Slab>, i: nat, p: nat)
    requires CachesOk(caches, slabs) && i < |caches| && p in slabs && slabs[p].objSize == SIZES[i] && slabs[p].freeCount > 0
    ensures CachesOk(caches[i := caches[i].(partial := Without(caches[i].partial, p))], slabs - {p})
  {
    var caches', slabs' := caches[i := caches[i].(partial := Without(caches[i].partial, p))], slabs - {p};
    assert CacheOk(caches[i], slabs);
    WithoutFacts(caches[i].partial, p);
    forall k | 0 <= k < |caches'|
      ensures CacheOk(caches'[k], slabs')
    {
      assert CacheOk(caches[k], slabs);
      if k != i && SIZES[k] == SIZES[i] {
        SizesDiffer(i, k);
      }
    }
  }

  /** No live object is lost with the page: a wholly free slab has none. */
  lemma WhollyFreeHasNoLive(s: State, g: View, p: nat, a: nat)
    requires SlabsOk(s.slabs, g.lists, s.words) && LiveOk(s.slabs, g) && p in s.slabs && WhollyFree(s.slabs, p) && a in g.live
    ensures PageOf(a) != p
  {
    if PageOf(a) == p {
      assert SlabOk(p, s.slabs[p], g.lists[p], s.words);
      FullListHasAll(p, s.slabs[p].objSize, g.lists[p]);
    }
  }

  lemma ShrinkKeeps(s: State, g: View, i: nat, p: nat)
    requires OkBut(s, g, p) && i < |s.caches| && p in s.slabs && s.slabs[p].objSize == SIZES[i] && WhollyFree(s.slabs, p)
    ensures Ok(Shrunk(s, i, p), ShrunkView(g, p))
  {
    assert SlabOk(p, s.slabs[p], g.lists[p], s.words);
    AllAddresses(p, s.slabs[p].objSize);
    ShrinkCaches(s.caches, s.slabs, i, p);
    var slabs', g' := s.slabs - {p}, ShrunkView(g, p);
    assert SlabsOk(slabs', g'.lists, s.words) by {
      forall q | q in slabs'
        ensures SlabOk(q, slabs'[q], g'.lists[q], s.words) && HasCache(slabs'[q].objSize)
      {
        assert SlabOk(q, s.slabs[q], g.lists[q], s.words);
      }
    }
    forall a | a in g.live
      ensures PageOf(a) != p
    {
      WhollyFreeHasNoLive(s, g, p, a);
    }
    assert LiveOk(slabs', g');
    assert forall q | q in slabs' :: WhollyFree(slabs', q) == WhollyFree(s.slabs, q);
    assert OneSpare(slabs', 0);
  }

  /** A slab that is alone in its partial list may stay wholly free. */
  lemma OnlySlabIsSpare(s: State, g: View, i: nat, p: nat)
    requires OkBut(s, g, p) && i < |s.caches| && p in s.slabs && s.slabs[p].objSize == SIZES[i]
    requires !WhollyFree(s.slabs, p) || s.caches[i].partial == [p]
    ensures Ok(s, g)
  {
    assert CacheOk(s.caches[i], s.slabs);
    forall q | q in s.slabs && s.slabs[q].objSize == s.slabs[p].objSize && WhollyFree(s.slabs, q) && WhollyFree(s.slabs, p)
      ensures q == p
    {
      assert SlabOk(q, s.slabs[q], g.lists[q], s.words);
      AllAddresses(q, s.slabs[q].objSize);
      assert q in s.caches[i].partial;
    }
  }

  /** page becomes a new slab of the cache, with all its objects free; other words stay. */
  ghost predicate Grows(s: State, i: nat, page: nat, s': State) {
    && i < |s.caches| && i < |SIZES|
    && exists slab: Slab, words' :: NewSlab(s.words, page, SIZES[i], slab, words') && s' == Grown(s, i, page, slab, words')
  }

  ghost predicate NewSlab(words: map<nat, nat>, page: nat, size: nat, slab: Slab, words': map<nat, nat>) {
    && slab.objSize == size && slab.freeCount == slab.numObjs > 0
    && 0 < size <= MAX_OBJECT && page > 0 && page % PAGE_SIZE == 0 && SlabOk(page, slab, AddressesFrom(page, size, 0), words')
    && forall x | x in words && !IsObject(page, size, x) :: x in words' && words'[x] == words[x]
  }

  /** The first free object of the cache's first partial slab is taken. */
  ghost predicate Takes(s: State, i: nat, s': State, addr: nat) {
    && i < |s.caches| && s.caches[i].partial != []
    && var p := s.caches[i].partial[0];
       && p in s.slabs && s.slabs[p].freeList in s.words && s.slabs[p].freeCount > 0
       && addr == s.slabs[p].freeList && s' == TakenFrom(s, i, p)
  }

  /** What kalloc of a small object does: it takes from a partial slab, or from a new one on the given page. */
  ghost predicate KallocStep(s: State, size: nat, page: nat, s': State, addr: nat) {
    size <= MAX_OBJECT && exists i: nat :: i < |s.caches| && i < |SIZES| && SIZES[i] == SizeClass(size) && KallocIn(s, i, page, s', addr)
  }

  ghost predicate KallocIn(s: State, i: nat, page: nat, s': State, addr: nat)
    requires i < |s.caches|
  {
    if s.caches[i].partial != [] then Takes(s, i, s', addr)
    else page !in s.slabs && exists grown :: Grows(s, i, page, grown) && Takes(grown, i, s', addr)
  }

  /** kalloc with some page, if it needs one. */
  ghost predicate KallocGives(s: State, size: nat, s': State, addr: nat) {
    exists page :: KallocStep(s, size, page, s', addr)
  }

  /** What kfree of a small object does: the object goes to the head of its slab's free list, and a wholly free slab is
      released unless it is alone in its partial list. */
  ghost predicate KfreeStep(s: State, addr: nat, s': State, freed: nat) {
    exists i: nat :: i < |s.caches| && i < |SIZES| && KfreeIn(s, i, addr, s', freed)
  }

  ghost predicate KfreeIn(s: State, i: nat, addr: nat, s': State, freed: nat)
    requires i < |s.caches| && i < |SIZES|
  {
    var p := PageOf(addr);
    && p in s.slabs && s.slabs[p].objSize == SIZES[i]
    && var given := GivenBack(s, i, p, addr);
       if WhollyFree(given.slabs, p) && given.caches[i].partial != [p] then freed == p && s' == Shrunk(given, i, p)
       else freed == 0 && s' == given
  }

  /** kfree with the number of pages that it gives back. */
  ghost predicate KfreeGives(s: State, addr: nat, s': State, pages: int) {
    exists freed :: KfreeStep(s, addr, s', freed) && pages == if freed == 0 then 0 else 1
  }

  /** create_slab and list_add. */
  method Grow(s: State, ghost g: View, i: nat, page: nat) returns (s': State, ghost g': View)
    requires Ok(s, g) && i < |s.caches| && s.caches[i].partial == [] && page !in s.slabs && page % PAGE_SIZE == 0 && page != 0
    ensures Ok(s', g') && g'.live == g.live && |s'.caches| == |s.caches| && s'.caches[i].partial == [page]
    ensures Grows(s, i, page, s') && s'.slabs.Keys == s.slabs.Keys + {page}
    ensures forall x | x in s.words && PageOf(x) != page :: x in s'.words && s'.words[x] == s.words[x]
  {
    assert s.caches[i].objSize == SIZES[i];
    var slab, words := CreateSlab(s.words, page, s.caches[i].objSize);
    forall x | x in s.words && PageOf(x) != page
      ensures !IsObject(page, slab.objSize, x)
    {
      if IsObject(page, slab.objSize, x) {
        ObjectIsInside(page, slab.objSize, x);
      }
    }
    GrowKeeps(s, g, i, page, slab, words);
    s' := Grown(s, i, page, slab, words);
    assert NewSlab(s.words, page, SIZES[i], slab, words);
    g' := g.(lists := g.lists[page := AddressesFrom(page, slab.objSize, 0)]);
  }

  /** get_cache never has to make a cache after slab_init. */
  method FindCache(caches: seq<Cache>, ghost slabs: map<nat, Slab>, objSize: nat) returns (i: nat)
    requires CachesOk(caches, slabs) && HasCache(objSize)
    ensures i < |caches| && SIZES[i] == objSize && caches[i].objSize == objSize
  {
    ghost var k: nat :| k < |SIZES| && SIZES[k] == objSize;
    assert caches[k].objSize == SIZES[k];
    var caches', j := GetCache(caches, objSize);
    i := j;
    assert caches[i].objSize == SIZES[i];
  }

  /** Take the first free object of the first partial slab. */
  method Take(s: State, ghost g: View, i: nat) returns (s': State, ghost g': View, addr: nat)
    requires Ok(s, g) && i < |s.caches| && s.caches[i].partial != []
    ensures Ok(s', g') && addr != 0 && addr !in g.live && g'.live == g.live + {addr}
    ensures PageOf(addr) == s.caches[i].partial[0] && s'.slabs.Keys == s.slabs.Keys && PageOf(addr) in s'.slabs
    ensures s'.slabs[PageOf(addr)].objSize == SIZES[i] && s'.words == s.words && Takes(s, i, s', addr)
  {
    var p := s.caches[i].partial[0];
    assert CacheOk(s.caches[i], s.slabs) && p in s.caches[i].partial;
    TakeKeeps(s, g, i, p);
    addr := s.slabs[p].freeList;
    g' := View(g.live + {addr}, g.lists[p := g.lists[p][1..]]);
    s' := TakenFrom(s, i, p);
  }

  /** No slab of the size has a free object. */
  ghost predicate Exhausted(s: State, objSize: nat) {
    forall p | p in s.slabs && s.slabs[p].objSize == objSize :: s.slabs[p].freeCount == 0
  }

  lemma ExhaustedIsNoPartial(s: State, i: nat)
    requires CachesOk(s.caches, s.slabs) && i < |s.caches|
    ensures Exhausted(s, SIZES[i]) <==> s.caches[i].partial == []
  {
    assert CacheOk(s.caches[i], s.slabs);
    if s.caches[i].partial != [] {
      assert s.caches[i].partial[0] in s.caches[i].partial;
    }
  }

  /** kalloc for sizes up to 2048: 0 stands for NULL. page is what the page allocator would hand out, 0 if nothing.
      It fails only for size 0, or when a page is needed and there is none; it takes the page only when needed. */
  method KallocObject(s: State, ghost g: View, size: nat, page: nat)
    returns (s': State, ghost g': View, addr: nat)
    requires Ok(s, g) && size <= MAX_OBJECT
    requires page != 0 ==> page % PAGE_SIZE == 0 && page !in s.slabs
    ensures Ok(s', g')
    ensures addr == 0 <==> size == 0 || (page == 0 && Exhausted(s, SizeClass(size)))
    ensures addr == 0 ==> s' == s && g' == g
    ensures addr != 0 ==> addr !in g.live && g'.live == g.live + {addr}
    ensures addr != 0 ==> PageOf(addr) in s'.slabs && s'.slabs[PageOf(addr)].objSize == SizeClass(size)
    ensures addr != 0 ==> KallocStep(s, size, page, s', addr)
    ensures s'.slabs.Keys == s.slabs.Keys + if addr != 0 && Exhausted(s, SizeClass(size)) then {page} else {}
    ensures forall x | x in s.words && PageOf(x) != page :: x in s'.words && s'.words[x] == s.words[x]
  {
    s', g', addr := s, g, 0;
    if size != 0 {
      ghost var k;
      var r;
      r, k := RoundUpPow2(size);
      assert HasCache(r);
      var i := FindCache(s.caches, s.slabs, r);
      ExhaustedIsNoPartial(s, i);
      if s.caches[i].partial == [] && page != 0 {
        s', g' := Grow(s, g, i, page);
      }
      if s'.caches[i].partial != [] {
        s', g', addr := Take(s', g', i);
      }
    }
  }

  /** The last step of kfree: a wholly free slab is released unless it is alone in its partial list. */
  method ReleaseSpare(s: State, ghost g: View, i: nat, p: nat) returns (s': State, ghost g': View, freed: nat)
    requires OkBut(s, g, p) && i < |s.caches| && p in s.slabs && s.slabs[p].objSize == SIZES[i] && p != 0
    ensures Ok(s', g') && g'.live == g.live && s'.words == s.words
    ensures freed == 0 || freed == p
    ensures freed != 0 <==> WhollyFree(s.slabs, p) && s.caches[i].partial != [p]
    ensures s' == if freed == 0 then s else Shrunk(s, i, p)
    ensures s'.slabs.Keys == if freed == 0 then s.slabs.Keys else s.slabs.Keys - {p}
  {
    s', g', freed := s, g, 0;
    if s.slabs[p].freeCount == s.slabs[p].numObjs && s.caches[i].partial != [p] {
      ShrinkKeeps(s, g, i, p);
      s', g', freed := Shrunk(s, i, p), ShrunkView(g, p), p;
    } else {
      OnlySlabIsSpare(s, g, i, p);
    }
  }

  /** Put the object back at the head of its slab's free list. */
  method Give(s: State, ghost g: View, i: nat, p: nat, addr: nat) returns (s': State, ghost g': View)
    requires Ok(s, g) && addr in g.live && p == PageOf(addr) && i < |s.caches| && p in s.slabs && s.slabs[p].objSize == SIZES[i]
    ensures OkBut(s', g', p) && g'.live == g.live - {addr} && |s'.caches| == |s.caches|
    ensures s'.slabs.Keys == s.slabs.Keys && s'.slabs[p].objSize == SIZES[i]
    ensures s' == GivenBack(s, i, p, addr)
    ensures s'.words == s.words[addr := s.slabs[p].freeList]
  {
    GiveKeeps(s, g, i, addr);
    s', g' := GivenBack(s, i, p, addr), GivenView(g, p, addr);
  }

  /** addr_to_slab, and get_cache for its object size. */
  method SlabOf(s: State, ghost g: View, addr: nat) returns (p: nat, i: nat)
    requires Ok(s, g) && addr in g.live
    ensures p == PageOf(addr) && p in s.slabs && p != 0 && i < |s.caches| && s.slabs[p].objSize == SIZES[i]
  {
    p := PageOf(addr);
    assert SlabOk(p, s.slabs[p], g.lists[p], s.words) && HasCache(s.slabs[p].objSize);
    i := FindCache(s.caches, s.slabs, s.slabs[p].objSize);
  }

  /** Give the object back, and release its slab if that leaves one too many wholly free. */
  method GiveAndRelease(s: State, ghost g: View, i: nat, p: nat, addr: nat) returns (s': State, ghost g': View, freed: nat)
    requires Ok(s, g) && addr in g.live && p == PageOf(addr) != 0 && i < |s.caches| && p in s.slabs && s.slabs[p].objSize == SIZES[i]
    ensures Ok(s', g') && g'.live == g.live - {addr}
    ensures freed == 0 || freed == p
    ensures i < |SIZES| && KfreeIn(s, i, addr, s', freed)
    ensures s'.slabs.Keys == if freed == 0 then s.slabs.Keys else s.slabs.Keys - {p}
    ensures s'.words == s.words[addr := s.slabs[p].freeList]
  {
    s', g' := Give(s, g, i, p, addr);
    s', g', freed := ReleaseSpare(s', g', i, p);
  }

  /** kfree of a live small object. freed is the page given back to the page allocator, or 0. */
  method KfreeObject(s: State, ghost g: View, addr: nat) returns (s': State, ghost g': View, freed: nat)
    requires Ok(s, g) && addr in g.live
    ensures Ok(s', g') && g'.live == g.live - {addr}
    ensures freed != 0 ==> freed == PageOf(addr)
    ensures KfreeStep(s, addr, s', freed)
    ensures s'.slabs.Keys == if freed == 0 then s.slabs.Keys else s.slabs.Keys - {freed}
    ensures forall x | x in s.words && x != addr :: x in s'.words && s'.words[x] == s.words[x]
  {
    var p, i := SlabOf(s, g, addr);
    s', g', freed := GiveAndRelease(s, g, i, p, addr);
  }

  lemma StartInsideObject(p: nat, s: nat, x: nat, q: nat, r: nat, a: nat)
    requires p % PAGE_SIZE == 0 && q % PAGE_SIZE == 0 && s > 0 && r > 0 && (p == q ==> s == r)
    requires IsObject(p, s, x) && IsObject(q, r, a) && a <= x < a + r
    ensures x == a && p == q
  {
    if x != a {
      DistinctObjectsApart(p, s, x, q, r, a);
    }
    ObjectIsInside(p, s, x);
    ObjectIsInside(q, r, a);
  }

  /** A caller may write anywhere inside its own objects. */
  lemma OwnerMayWrite(s: State, g: View, a: nat, x: nat, v: nat)
    requires Ok(s, g) && a in g.live && PageOf(a) in s.slabs && a <= x < a + s.slabs[PageOf(a)].objSize
    ensures Ok(s.(words := s.words[x := v]), g)
  {
    forall p | p in s.slabs
      ensures SlabOk(p, s.slabs[p], g.lists[p], s.words[x := v]) && HasCache(s.slabs[p].objSize)
    {
      WriteMissesList(s, g, a, x, p);
      assert SlabOk(p, s.slabs[p], g.lists[p], s.words);
      SlabFrame(p, s.slabs[p], g.lists[p], s.words, s.words[x := v]);
    }
  }

  /** No free object starts inside a live one. */
  lemma WriteMissesList(s: State, g: View, a: nat, x: nat, p: nat)
    requires Ok(s, g) && a in g.live && PageOf(a) in s.slabs && a <= x < a + s.slabs[PageOf(a)].objSize && p in s.slabs
    ensures x !in g.lists[p]
  {
    var q := PageOf(a);
    assert SlabOk(p, s.slabs[p], g.lists[p], s.words) && SlabOk(q, s.slabs[q], g.lists[q], s.words);
    if x in g.lists[p] {
      StartInsideObject(p, s.slabs[p].objSize, x, q, s.slabs[q].objSize, a);
    }
  }

  /** The slab state is sound for these live objects. */
  ghost predicate Sound(s: State, live: set<nat>) {
    exists lists :: Ok(s, View(live, lists))
  }

  lemma LiveIsNotNull(s: State, live: set<nat>)
    requires Sound(s, live)
    ensures 0 !in live
  {
    var lists :| Ok(s, View(live, lists));
    if 0 in live {
      ObjectIsInside(PageOf(0), s.slabs[PageOf(0)].objSize, 0);
    }
  }

  /** A new slab keeps a sound state sound, and with it one more page belongs to slabs. */
  lemma GrowsKeeps(s: State, live: set<nat>, i: nat, page: nat, s': State)
    requires Sound(s, live) && Grows(s, i, page, s') && s.caches[i].partial == [] && page !in s.slabs
    ensures Sound(s', live) && s'.slabs.Keys == s.slabs.Keys + {page}
  {
    var lists :| Ok(s, View(live, lists));
    var g := View(live, lists);
    var slab: Slab, words' :| NewSlab(s.words, page, SIZES[i], slab, words') && s' == Grown(s, i, page, slab, words');
    GrowKeeps(s, g, i, page, slab, words');
    assert Ok(s', View(live, g.lists[page := AddressesFrom(page, slab.objSize, 0)]));
  }

  lemma TakesKeeps(s: State, live: set<nat>, i: nat, s': State, addr: nat)
    requires Sound(s, live) && i < |SIZES| && Takes(s, i, s', addr)
    ensures addr != 0 && addr !in live && Sound(s', live + {addr}) && s'.slabs.Keys == s.slabs.Keys
    ensures PageOf(addr) in s'.slabs && s'.slabs[PageOf(addr)].objSize == SIZES[i]
  {
    var lists :| Ok(s, View(live, lists));
    var g, p := View(live, lists), s.caches[i].partial[0];
    assert CacheOk(s.caches[i], s.slabs) && p in s.caches[i].partial;
    TakeKeeps(s, g, i, p);
    assert Ok(s', View(live + {addr}, lists[p := lists[p][1..]]));
  }

  /** kalloc keeps a sound state sound. The object is new and of the class of the size, and a page is taken exactly if no slab
      of the size has room. */
  lemma KallocKeeps(s: State, live: set<nat>, size: nat, page: nat, s': State, addr: nat)
    requires Sound(s, live) && KallocStep(s, size, page, s', addr)
    ensures addr != 0 && addr !in live && Sound(s', live + {addr})
    ensures PageOf(addr) in s'.slabs && s'.slabs[PageOf(addr)].objSize == SizeClass(size)
    ensures s'.slabs.Keys == s.slabs.Keys + if Exhausted(s, SizeClass(size)) then {page} else {}
    ensures Exhausted(s, SizeClass(size)) ==> page !in s.slabs
  {
    var i: nat :| i < |s.caches| && i < |SIZES| && SIZES[i] == SizeClass(size) && KallocIn(s, i, page, s', addr);
    SoundExhausted(s, live, i);
    KallocInKeeps(s, live, i, page, s', addr);
  }

  lemma SoundExhausted(s: State, live: set<nat>, i: nat)
    requires Sound(s, live) && i < |s.caches|
    ensures i < |SIZES| && (Exhausted(s, SIZES[i]) <==> s.caches[i].partial == [])
  {
    var lists :| Ok(s, View(live, lists));
    ExhaustedIsNoPartial(s, i);
  }

  lemma KallocInKeeps(s: State, live: set<nat>, i: nat, page: nat, s': State, addr: nat)
    requires Sound(s, live) && i < |s.caches| && i < |SIZES| && KallocIn(s, i, page, s', addr)
    ensures addr != 0 && addr !in live && Sound(s', live + {addr})
    ensures PageOf(addr) in s'.slabs && s'.slabs[PageOf(addr)].objSize == SIZES[i]
    ensures s'.slabs.Keys == s.slabs.Keys + if s.caches[i].partial == [] then {page} else {}
    ensures s.caches[i].partial == [] ==> page !in s.slabs
  {
    if s.caches[i].partial != [] {
      TakesKeeps(s, live, i, s', addr);
    } else {
      var grown :| Grows(s, i, page, grown) && Takes(grown, i, s', addr);
      GrowsKeeps(s, live, i, page, grown);
      TakesKeeps(grown, live, i, s', addr);
    }
  }

  lemma SlabIsNotNull(s: State, g: View, p: nat)
    requires Ok(s, g) && p in s.slabs
    ensures p != 0
  {
    assert SlabOk(p, s.slabs[p], g.lists[p], s.words);
  }

  /** kfree keeps a sound state sound. */
  lemma KfreeKeeps(s: State, live: set<nat>, addr: nat, s': State, freed: nat)
    requires Sound(s, live) && addr in live && KfreeStep(s, addr, s', freed)
    ensures Sound(s', live - {addr}) && (freed != 0 ==> freed in s.slabs)
    ensures s'.slabs.Keys == if freed == 0 then s.slabs.Keys else s.slabs.Keys - {freed}
  {
    var i: nat :| i < |s.caches| && i < |SIZES| && KfreeIn(s, i, addr, s', freed);
    var lists :| Ok(s, View(live, lists));
    KfreeInKeeps(s, View(live, lists), i, addr, s', freed);
  }

  lemma KfreeInKeeps(s: State, g: View, i: nat, addr: nat, s': State, freed: nat)
    requires Ok(s, g) && addr in g.live && i < |s.caches| && i < |SIZES| && KfreeIn(s, i, addr, s', freed)
    ensures Sound(s', g.live - {addr}) && (freed != 0 ==> freed in s.slabs)
    ensures s'.slabs.Keys == if freed == 0 then s.slabs.Keys else s.slabs.Keys - {freed}
  {
    var p := PageOf(addr);
    GiveKeeps(s, g, i, addr);
    var given, view := GivenBack(s, i, p, addr), GivenView(g, p, addr);
    SlabIsNotNull(s, g, p);
    if WhollyFree(given.slabs, p) && given.caches[i].partial != [p] {
      ShrunkIsSound(given, view, i, p);
    } else {
      SpareIsSound(given, view, i, p);
    }
  }

  lemma ShrunkIsSound(s: State, g: View, i: nat, p: nat)
    requires OkBut(s, g, p) && i < |s.caches| && p in s.slabs && s.slabs[p].objSize == SIZES[i] && WhollyFree(s.slabs, p)
    ensures Sound(Shrunk(s, i, p), g.live)
  {
    ShrinkKeeps(s, g, i, p);
    assert Ok(Shrunk(s, i, p), View(g.live, ShrunkView(g, p).lists));
  }

  lemma SpareIsSound(s: State, g: View, i: nat, p: nat)
    requires OkBut(s, g, p) && i < |s.caches| && p in s.slabs && s.slabs[p].objSize == SIZES[i]
    requires !WhollyFree(s.slabs, p) || s.caches[i].partial == [p]
    ensures Sound(s, g.live)
  {
    OnlySlabIsSpare(s, g, i, p);
    assert Ok(s, View(g.live, g.lists));
  }

  method AllocObject(s: State, ghost live: set<nat>, size: nat, page: nat) returns (s': State, addr: nat)
    requires Sound(s, live) && size <= MAX_OBJECT
    requires page != 0 ==> page % PAGE_SIZE == 0 && page !in s.slabs
    ensures addr == 0 <==> size == 0 || (page == 0 && Exhausted(s, SizeClass(size)))
    ensures addr == 0 ==> s' == s
    ensures addr != 0 ==> addr !in live && Sound(s', live + {addr}) && KallocStep(s, size, page, s', addr)
    ensures addr != 0 ==> PageOf(addr) in s'.slabs && s'.slabs[PageOf(addr)].objSize == SizeClass(size)
    ensures s'.slabs.Keys == s.slabs.Keys + if addr != 0 && Exhausted(s, SizeClass(size)) then {page} else {}
  {
    ghost var lists :| Ok(s, View(live, lists));
    ghost var g';
    s', g', addr := KallocObject(s, View(live, lists), size, page);
    assert Ok(s', View(g'.live, g'.lists));
  }

  method FreeObject(s: State, ghost live: set<nat>, addr: nat) returns (s': State, freed: nat)
    requires Sound(s, live) && addr in live
    ensures Sound(s', live - {addr}) && KfreeStep(s, addr, s', freed)
    ensures freed != 0 ==> freed in s.slabs
    ensures s'.slabs.Keys == if freed == 0 then s.slabs.Keys else s.slabs.Keys - {freed}
  {
    ghost var lists :| Ok(s, View(live, lists));
    ghost var g';
    s', g', freed := KfreeObject(s, View(live, lists), addr);
    assert Ok(s', View(g'.live, g'.lists));
  }
}
