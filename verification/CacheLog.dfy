/** What happens to the block cache, as a log, and the order of use that the log tells (driver/block/cache.c). */
module CacheLog {
  import opened Lists

  /** Device ids and block number. */
  datatype Key = Key(prim: int, scnd: int, offset: int)

  /** What became of the block of an entry that leaves the cache: it was clean, or its last write-back succeeded or failed. */
  datatype Fate = Clean | Saved | Lost

  /** A device read and a device write for a client; a client's use of a block, which stays in the cache unless there is
      no memory for a new entry; a write-back of a cached block by a flush; and the two ways of leaving the cache. */
  datatype Event =
    | Get(key: Key, ok: bool)
    | Put(key: Key, ok: bool)
    | Use(key: Key, kept: bool)
    | Back(key: Key, ok: bool)
    | Evict(key: Key, fate: Fate)
    | Drop(key: Key, fate: Fate)

  type Log = seq<Event>

  /** For each position of a log, whether the device, or the allocator, does what it is asked for there. */
  type World = nat -> bool

  /** The outcomes of the events, logged from position at on, are those of the world. */
  ghost predicate Obeys(world: World, at: nat, ev: Log) {
    forall i {:trigger ev[i]} | 0 <= i < |ev| ::
      match ev[i]
      case Get(_, ok) => ok == world(at + i)
      case Put(_, ok) => ok == world(at + i)
      case Use(_, kept) => kept || !world(at + i)
      case Back(_, ok) => ok == world(at + i)
      case Evict(_, fate) => (fate == Saved ==> world(at + i)) && (fate == Lost ==> !world(at + i))
      case Drop(_, fate) => (fate == Saved ==> world(at + i)) && (fate == Lost ==> !world(at + i))
  }

  lemma ObeysConcat(world: World, at: nat, a: Log, b: Log)
    requires Obeys(world, at, a) && Obeys(world, at + |a|, b)
    ensures Obeys(world, at, a + b)
  {
    forall i | 0 <= i < |a + b|
      ensures i < |a| ==> (a + b)[i] == a[i]
      ensures i >= |a| ==> (a + b)[i] == b[i - |a|] && at + |a| + (i - |a|) == at + i
    {
    }
  }

  lemma ObeysPush(world: World, at: nat, ev: Log, e: Event)
    requires Obeys(world, at, ev)
    requires match e
             case Get(_, ok) => ok == world(at + |ev|)
             case Put(_, ok) => ok == world(at + |ev|)
             case Back(_, ok) => ok == world(at + |ev|)
             case _ => false
    ensures Obeys(world, at, ev + [e])
  {
  }

  /** The blocks that clients used, in order. */
  function Accesses(ev: Log): seq<Key> {
    if ev == [] then []
    else Accesses(ev[..|ev| - 1]) + if ev[|ev| - 1].Use? then [ev[|ev| - 1].key] else []
  }

  lemma {:induction false} AccessesConcat(a: Log, b: Log)
    ensures Accesses(a + b) == Accesses(a) + Accesses(b)
  {
    if b == [] {
      assert a + b == a;
    } else {
      assert (a + b)[..|a + b| - 1] == a + b[..|b| - 1];
      AccessesConcat(a, b[..|b| - 1]);
    }
  }

  predicate IsLoss(e: Event) {
    (e.Evict? || e.Drop?) && e.fate == Lost
  }

  /** The blocks that were dirty, could not be written back, and are gone. */
  ghost function LostIn(ev: Log): set<Key> {
    set e | e in ev && IsLoss(e) :: e.key
  }

  lemma LostConcat(a: Log, b: Log)
    ensures LostIn(a + b) == LostIn(a) + LostIn(b)
  {
    forall k | k in LostIn(a) + LostIn(b)
      ensures k in LostIn(a + b)
    {
      var e :| (e in a || e in b) && IsLoss(e) && e.key == k;
      assert e in a + b;
    }
  }

  /** The entry is at the head of the list afterwards. */
  predicate Promotes(e: Event) {
    (e.Use? && e.kept) || (e.Back? && e.ok)
  }

  predicate Removes(e: Event) {
    e.Evict? || e.Drop?
  }

  function Effect(order: seq<Key>, e: Event): seq<Key> {
    if Promotes(e) then [e.key] + Without(order, e.key) else if Removes(e) then Without(order, e.key) else order
  }

  /** The keys in the cache after what the log tells, most recently used first, when it starts with these. */
  function After(order: seq<Key>, h: Log): seq<Key> {
    if h == [] then order else Effect(After(order, h[..|h| - 1]), h[|h| - 1])
  }

  /** The same for an empty cache. */
  function Order(h: Log): seq<Key> {
    After([], h)
  }

  lemma AfterPush(order: seq<Key>, h: Log, e: Event)
    ensures After(order, h + [e]) == Effect(After(order, h), e)
  {
    assert (h + [e])[..|h|] == h;
  }

  lemma {:induction false} AfterConcat(order: seq<Key>, a: Log, b: Log)
    ensures After(order, a + b) == After(After(order, a), b)
  {
    if b == [] {
      assert a + b == a;
    } else {
      assert (a + b)[..|a + b| - 1] == a + b[..|b| - 1];
      AfterConcat(order, a, b[..|b| - 1]);
    }
  }

  /** The position of the last use of a key, or -1. */
  function LastUse(h: Log, k: Key): (p: int)
    ensures -1 <= p < |h|
    ensures p >= 0 ==> h[p] == Use(k, true) || h[p] == Back(k, true)
    ensures forall q | p < q < |h| :: h[q] != Use(k, true) && h[q] != Back(k, true)
  {
    if h == [] then -1
    else if Promotes(h[|h| - 1]) && h[|h| - 1].key == k then |h| - 1
    else LastUse(h[..|h| - 1], k)
  }

  /** The key was used and has not left since. */
  ghost predicate Held(h: Log, k: Key) {
    LastUse(h, k) >= 0 && forall q | LastUse(h, k) < q < |h| :: h[q].key == k ==> !h[q].Evict? && !h[q].Drop?
  }

  lemma LastUsePush(h: Log, e: Event, k: Key)
    ensures LastUse(h + [e], k) == if Promotes(e) && e.key == k then |h| else LastUse(h, k)
  {
    assert (h + [e])[..|h|] == h;
  }

  lemma HeldPush(h: Log, e: Event, k: Key)
    ensures Held(h + [e], k) <==> if e.key != k then Held(h, k) else Promotes(e) || (Held(h, k) && !Removes(e))
  {
    LastUsePush(h, e, k);
    var after := h + [e];
    forall q | 0 <= q < |h|
      ensures after[q] == h[q]
    {
    }
    assert after[|h|] == e;
  }

  /** The keys are there once each, most recently used first. */
  ghost predicate ByLastUse(h: Log, order: seq<Key>) {
    && NoDuplicates(order) && (forall k :: k in order <==> Held(h, k))
    && forall i, j {:trigger order[i], order[j]} | 0 <= i < j < |order| :: LastUse(h, order[i]) > LastUse(h, order[j])
  }

  lemma CutKeepsOrder(h: Log, order: seq<Key>, p: nat)
    requires ByLastUse(h, order) && p < |order|
    ensures forall i, j {:trigger (order[..p] + order[p + 1..])[i], (order[..p] + order[p + 1..])[j]} | 0 <= i < j < |order| - 1 ::
              LastUse(h, (order[..p] + order[p + 1..])[i]) > LastUse(h, (order[..p] + order[p + 1..])[j])
  {
    var rest := order[..p] + order[p + 1..];
    forall i, j {:trigger rest[i], rest[j]} | 0 <= i < j < |order| - 1
      ensures LastUse(h, rest[i]) > LastUse(h, rest[j])
    {
      assert rest[i] == order[if i < p then i else i + 1] && rest[j] == order[if j < p then j else j + 1];
    }
  }

  /** The keys that stay keep their order. */
  lemma WithoutKeepsOrder(h: Log, order: seq<Key>, k: Key)
    requires ByLastUse(h, order)
    ensures forall i, j {:trigger Without(order, k)[i], Without(order, k)[j]} | 0 <= i < j < |Without(order, k)| ::
              LastUse(h, Without(order, k)[i]) > LastUse(h, Without(order, k)[j])
  {
    WithoutFacts(order, k);
    if k in order {
      var p :| 0 <= p < |order| && order[p] == k;
      WithoutAt(order, p);
      CutKeepsOrder(h, order, p);
    }
  }

  lemma EffectHolds(h: Log, order: seq<Key>, e: Event, k: Key)
    requires ByLastUse(h, order)
    ensures k in Effect(order, e) <==> Held(h + [e], k)
  {
    WithoutFacts(order, e.key);
    HeldPush(h, e, k);
  }

  /** A key that is put at the head of a list without it. */
  lemma PushSorted(h: Log, rest: seq<Key>, e: Event)
    requires Promotes(e) && e.key !in rest
    requires forall i, j {:trigger rest[i], rest[j]} | 0 <= i < j < |rest| :: LastUse(h, rest[i]) > LastUse(h, rest[j])
    ensures var after := [e.key] + rest;
            forall i, j {:trigger after[i], after[j]} | 0 <= i < j < |after| :: LastUse(h + [e], after[i]) > LastUse(h + [e], after[j])
  {
    var after := [e.key] + rest;
    forall i, j | 0 <= i < j < |after|
      ensures LastUse(h + [e], after[i]) > LastUse(h + [e], after[j])
    {
      LastUsePush(h, e, after[i]);
      LastUsePush(h, e, after[j]);
      assert after[j] == rest[j - 1] && (i > 0 ==> after[i] == rest[i - 1]);
    }
  }

  lemma EffectSorted(h: Log, order: seq<Key>, e: Event)
    requires ByLastUse(h, order)
    ensures var after := Effect(order, e);
            forall i, j {:trigger after[i], after[j]} | 0 <= i < j < |after| :: LastUse(h + [e], after[i]) > LastUse(h + [e], after[j])
  {
    WithoutFacts(order, e.key);
    WithoutKeepsOrder(h, order, e.key);
    if Promotes(e) {
      PushSorted(h, Without(order, e.key), e);
    } else {
      forall k
        ensures LastUse(h + [e], k) == LastUse(h, k)
      {
        LastUsePush(h, e, k);
      }
    }
  }

  lemma EffectKeeps(h: Log, order: seq<Key>, e: Event)
    requires ByLastUse(h, order)
    ensures ByLastUse(h + [e], Effect(order, e))
  {
    WithoutFacts(order, e.key);
    EffectSorted(h, order, e);
    forall k
      ensures k in Effect(order, e) <==> Held(h + [e], k)
    {
      EffectHolds(h, order, e, k);
    }
  }

  /** The order that the log tells is the order of last use of the keys that are held. */
  lemma {:induction false} OrderIsByLastUse(h: Log)
    ensures ByLastUse(h, Order(h))
  {
    if h != [] {
      var front := h[..|h| - 1];
      OrderIsByLastUse(front);
      EffectKeeps(front, Order(front), h[|h| - 1]);
      assert front + [h[|h| - 1]] == h;
    }
  }

  predicate IsLast(order: seq<Key>, k: Key) {
    order != [] && order[|order| - 1] == k
  }

  predicate IsEviction(h: Log, p: int) {
    0 <= p < |h| && h[p].Evict?
  }

  /** Each eviction takes the last key. */
  ghost predicate EvictsLast(order: seq<Key>, h: Log) {
    forall p {:trigger IsEviction(h, p)} | IsEviction(h, p) :: IsLast(After(order, h[..p]), h[p].key)
  }

  /** The log leads from one order of the keys to the other, and each eviction in it takes the last key. */
  ghost predicate Leads(before: seq<Key>, ev: Log, after: seq<Key>) {
    after == After(before, ev) && EvictsLast(before, ev)
  }

  lemma LeadsConcat(before: seq<Key>, a: Log, between: seq<Key>, b: Log, after: seq<Key>)
    requires Leads(before, a, between) && Leads(between, b, after)
    ensures Leads(before, a + b, after)
  {
    AfterConcat(before, a, b);
    var ab := a + b;
    forall p | IsEviction(ab, p)
      ensures IsLast(After(before, ab[..p]), ab[p].key)
    {
      if p < |a| {
        assert ab[..p] == a[..p] && IsEviction(a, p);
      } else {
        var q := p - |a|;
        assert ab[..p] == a + b[..q] && IsEviction(b, q);
        AfterConcat(before, a, b[..q]);
      }
    }
  }

  lemma LeadsNowhere(order: seq<Key>)
    ensures Leads(order, [], order)
  {
  }

  lemma LeadsStep(before: seq<Key>, e: Event)
    requires e.Evict? ==> IsLast(before, e.key)
    ensures Leads(before, [e], Effect(before, e))
  {
    AfterPush(before, [], e);
    assert [] + [e] == [e];
    var ev := [e];
    forall p | IsEviction(ev, p)
      ensures IsLast(After(before, ev[..p]), ev[p].key)
    {
      assert ev[..p] == [];
    }
  }

  /** Every evicted block was held, and each other block that was held had been used later. */
  ghost predicate EvictsOldest(h: Log) {
    forall p {:trigger IsEviction(h, p)} | IsEviction(h, p) ::
      && Held(h[..p], h[p].key)
      && forall k | Held(h[..p], k) && k != h[p].key :: LastUse(h[..p], k) > LastUse(h[..p], h[p].key)
  }

  /** The last key is the one that was used the longest time ago. */
  lemma LastIsOldest(h: Log, v: Key)
    requires IsLast(Order(h), v)
    ensures Held(h, v) && forall k | Held(h, k) && k != v :: LastUse(h, k) > LastUse(h, v)
  {
    var order := Order(h);
    OrderIsByLastUse(h);
    assert v in order;
    forall k | Held(h, k) && k != v
      ensures LastUse(h, k) > LastUse(h, v)
    {
      var i :| 0 <= i < |order| && order[i] == k;
    }
  }

  lemma VictimIsOldest(h: Log)
    requires EvictsLast([], h)
    ensures EvictsOldest(h)
  {
    forall p | IsEviction(h, p)
      ensures Held(h[..p], h[p].key)
      ensures forall k | Held(h[..p], k) && k != h[p].key :: LastUse(h[..p], k) > LastUse(h[..p], h[p].key)
    {
      LastIsOldest(h[..p], h[p].key);
    }
  }
}
