/** Where the objects of a slab page are, and its free list (mm/slab.c). */
module SlabLayout {
  import opened Layout
  import opened Lists

  /** sizeof(slab_t) on i386 */
  const HEADER := 24
  const MAX_OBJECT := 2048

  /** The object sizes of the caches that slab_init makes. */
  const SIZES := [8, 16, 32, 64, 128, 256, 512, 1024, 2048]

  function Objects(size: nat): (n: nat)
    requires size > 0
  {
    (PAGE_SIZE - HEADER) / size
  }

  /** A slab has as many objects as fit behind the header. */
  lemma ObjectsFill(size: nat)
    requires size > 0
    ensures Objects(size) * size <= PAGE_SIZE - HEADER < (Objects(size) + 1) * size
  {
    var room := PAGE_SIZE - HEADER;
    assert room == (room / size) * size + room % size;
  }

  function Address(page: nat, size: nat, i: nat): nat {
    page + HEADER + i * size
  }

  /** addr_to_slab */
  function PageOf(addr: nat): nat {
    AlignDown(addr)
  }

  /** a is where an object of a slab page starts. */
  ghost predicate IsObject(page: nat, size: nat, a: nat)
    requires size > 0
  {
    exists i: nat :: i < Objects(size) && a == Address(page, size, i)
  }

  lemma ObjectFits(page: nat, size: nat, i: nat)
    requires page % PAGE_SIZE == 0 && size > 0 && i < Objects(size)
    ensures page + HEADER <= Address(page, size, i) && Address(page, size, i) + size <= page + PAGE_SIZE
    ensures PageOf(Address(page, size, i)) == page
  {
    var n := Objects(size);
    assert n * size <= PAGE_SIZE - HEADER;
    assert (i + 1) * size <= n * size;
    assert (i + 1) * size == i * size + size;
  }

  lemma ObjectsApart(page: nat, size: nat, i: nat, j: nat)
    requires i < j
    ensures Address(page, size, i) + size <= Address(page, size, j)
  {
    assert (i + 1) * size <= j * size;
    assert (i + 1) * size == i * size + size;
  }

  lemma ObjectIsInside(page: nat, size: nat, a: nat)
    requires page % PAGE_SIZE == 0 && size > 0 && IsObject(page, size, a)
    ensures page + HEADER <= a && a + size <= page + PAGE_SIZE && PageOf(a) == page
  {
    var i: nat :| i < Objects(size) && a == Address(page, size, i);
    ObjectFits(page, size, i);
  }

  lemma SamePageApart(page: nat, size: nat, a: nat, b: nat)
    requires size > 0 && IsObject(page, size, a) && IsObject(page, size, b) && a != b
    ensures a + size <= b || b + size <= a
  {
    var i: nat :| i < Objects(size) && a == Address(page, size, i);
    var j: nat :| j < Objects(size) && b == Address(page, size, j);
    if i < j {
      ObjectsApart(page, size, i, j);
    } else if j < i {
      ObjectsApart(page, size, j, i);
    }
  }

  lemma PagesApart(p: nat, q: nat)
    requires p % PAGE_SIZE == 0 && q % PAGE_SIZE == 0 && p < q
    ensures p + PAGE_SIZE <= q
  {
  }

  /** Distinct objects of slab pages, whatever their sizes, do not overlap. */
  lemma DistinctObjectsApart(p: nat, s: nat, a: nat, q: nat, r: nat, b: nat)
    requires p % PAGE_SIZE == 0 && q % PAGE_SIZE == 0 && s > 0 && r > 0 && (p == q ==> s == r)
    requires IsObject(p, s, a) && IsObject(q, r, b) && a != b
    ensures a + s <= b || b + r <= a
  {
    if p == q {
      SamePageApart(p, s, a, b);
    } else {
      ObjectIsInside(p, s, a);
      ObjectIsInside(q, r, b);
      if p < q {
        PagesApart(p, q);
      } else {
        PagesApart(q, p);
      }
    }
  }

  /** The free list from head is exactly this sequence of objects, linked through their first words; 0 ends it. */
  ghost predicate Chain(words: map<nat, nat>, head: nat, list: seq<nat>)
    decreases list
  {
    if list == [] then head == 0
    else head == list[0] && head != 0 && head in words && Chain(words, words[head], list[1..])
  }

  /** Words outside the list do not matter. */
  lemma {:induction false} ChainFrame(words: map<nat, nat>, words': map<nat, nat>, head: nat, list: seq<nat>)
    requires Chain(words, head, list)
    requires forall a | a in list && a in words :: a in words' && words'[a] == words[a]
    ensures Chain(words', head, list)
    decreases list
  {
    if list != [] {
      ChainFrame(words, words', words[head], list[1..]);
    }
  }

  /** The addresses of the objects i, i + 1, ..., of a page. */
  ghost function AddressesFrom(page: nat, size: nat, i: nat): (s: seq<nat>)
    requires size > 0 && i <= Objects(size)
    decreases Objects(size) - i
  {
    if i == Objects(size) then [] else [Address(page, size, i)] + AddressesFrom(page, size, i + 1)
  }

  lemma {:induction false} AddressesAt(page: nat, size: nat, i: nat, k: nat)
    requires size > 0 && i + k < Objects(size)
    ensures |AddressesFrom(page, size, i)| == Objects(size) - i
    ensures AddressesFrom(page, size, i)[k] == Address(page, size, i + k)
    decreases Objects(size) - i
  {
    if i + 1 < Objects(size) {
      AddressesAt(page, size, i + 1, if k > 0 then k - 1 else 0);
    }
  }

  /** The list a new slab starts with: every object once. */
  lemma AllAddresses(page: nat, size: nat)
    requires 0 < size <= MAX_OBJECT
    ensures var list := AddressesFrom(page, size, 0);
            && |list| == Objects(size) > 0 && NoDuplicates(list)
            && forall a :: a in list <==> IsObject(page, size, a)
  {
    var list := AddressesFrom(page, size, 0);
    AddressesAt(page, size, 0, 0);
    forall i, j | 0 <= i < j < |list|
      ensures list[i] != list[j]
    {
      AddressesAt(page, size, 0, i);
      AddressesAt(page, size, 0, j);
      ObjectsApart(page, size, i, j);
    }
    forall a
      ensures a in list <==> IsObject(page, size, a)
    {
      if a in list {
        var i :| 0 <= i < |list| && list[i] == a;
        AddressesAt(page, size, 0, i);
      }
      if IsObject(page, size, a) {
        var i: nat :| i < Objects(size) && a == Address(page, size, i);
        AddressesAt(page, size, 0, i);
        assert list[i] == a;
      }
    }
  }

  ghost function Elements(list: seq<nat>): set<nat> {
    set a | a in list
  }

  lemma {:induction false} SizeOfList(list: seq<nat>)
    requires NoDuplicates(list)
    ensures |Elements(list)| == |list|
  {
    if list == [] {
      assert Elements(list) == {};
    } else {
      assert NoDuplicates(list[1..]);
      SizeOfList(list[1..]);
      assert Elements(list) == Elements(list[1..]) + {list[0]};
      assert list[0] !in list[1..];
    }
  }

  lemma SubsetOfSameSize(a: set<nat>, b: set<nat>)
    requires a <= b && |a| == |b|
    ensures a == b
  {
    assert b == a + (b - a);
  }

  /** A duplicate-free list of objects that is as long as the slab has objects holds all of them. */
  lemma FullListHasAll(page: nat, size: nat, list: seq<nat>)
    requires 0 < size <= MAX_OBJECT && NoDuplicates(list) && |list| == Objects(size)
    requires forall a | a in list :: IsObject(page, size, a)
    ensures forall a | IsObject(page, size, a) :: a in list
  {
    AllAddresses(page, size);
    var all := AddressesFrom(page, size, 0);
    SizeOfList(list);
    SizeOfList(all);
    SubsetOfSameSize(Elements(list), Elements(all));
    forall a | IsObject(page, size, a)
      ensures a in list
    {
      assert a in Elements(all);
    }
  }

  /** A duplicate-free list of objects is not longer than the slab has objects. */
  lemma ObjectsAreFew(page: nat, size: nat, list: seq<nat>)
    requires 0 < size <= MAX_OBJECT && NoDuplicates(list)
    requires forall a | a in list :: IsObject(page, size, a)
    ensures |list| <= Objects(size)
  {
    AllAddresses(page, size);
    SizeOfList(list);
    SizeOfList(AddressesFrom(page, size, 0));
    SubsetIsSmaller(Elements(list), Elements(AddressesFrom(page, size, 0)));
  }

  lemma SubsetIsSmaller(a: set<nat>, b: set<nat>)
    requires a <= b
    ensures |a| <= |b|
  {
    assert b == a + (b - a);
  }
}
