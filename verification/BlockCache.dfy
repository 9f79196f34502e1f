/** The LRU block cache and block I/O through it (driver/block/cache.c, driver/block/block.c). */
module BlockCache {
  import opened CacheLog
  import opened CacheList

  const CACHE_MAX_ENTRIES := 64
  const WORD := 0x1_0000_0000

  /** The list, the entry counter, and the device. */
  datatype State = State(lru: seq<Entry>, numEntries: int, disk: Disk)

  /** No key is there twice, the counter is the length of the list, and clean entries other than those of the given keys
      agree with the device. */
  ghost predicate Ok(s: State, except: set<Key>) {
    && Distinct(s.lru) && s.numEntries == |s.lru| <= CACHE_MAX_ENTRIES
    && Coherent(s.lru, s.disk, except)
  }

  /** The log tells how the list changed, and each eviction in it took the last entry. */
  ghost predicate Moves(s: State, ev: Log, s': State) {
    Leads(KeysOf(s.lru), ev, KeysOf(s'.lru))
  }

  ghost function Sees(s: State, k: Key): Block {
    Seen(s.lru, s.disk, k)
  }

  /** Outside the changed keys nothing new appears: what is seen, and what the device holds, is what was seen or
      what the device held; and only at lost keys may the device's old block show again. */
  ghost predicate Steady(s: State, s': State, changed: set<Key>, lost: set<Key>) {
    forall k {:trigger Sees(s', k)} {:trigger At(s'.disk, k)} | k !in changed ::
      && (Sees(s', k) == Sees(s, k) || Sees(s', k) == At(s.disk, k))
      && (At(s'.disk, k) == Sees(s, k) || At(s'.disk, k) == At(s.disk, k))
      && (k !in lost ==> Sees(s', k) == Sees(s, k))
  }

  lemma SteadyTrans(a: State, b: State, c: State, c1: set<Key>, c2: set<Key>, l1: set<Key>, l2: set<Key>)
    requires Steady(a, b, c1, l1) && Steady(b, c, c2, l2)
    ensures Steady(a, c, c1 + c2, l1 + l2)
  {
    forall k | k !in c1 + c2
      ensures Sees(c, k) == Sees(a, k) || Sees(c, k) == At(a.disk, k)
      ensures At(c.disk, k) == Sees(a, k) || At(c.disk, k) == At(a.disk, k)
      ensures k !in l1 + l2 ==> Sees(c, k) == Sees(a, k)
    {
      assert Sees(b, k) == Sees(a, k) || Sees(b, k) == At(a.disk, k);
    }
  }

  /** One change after another. */
  lemma StepTrans(a: State, b: State, c: State, x: Log, y: Log, c1: set<Key>, c2: set<Key>, both: set<Key>)
    requires Steady(a, b, c1, LostIn(x)) && Moves(a, x, b) && Steady(b, c, c2, LostIn(y)) && Moves(b, y, c)
    requires c1 <= both && c2 <= both
    ensures Steady(a, c, both, LostIn(x + y)) && Moves(a, x + y, c)
  {
    SteadyTrans(a, b, c, c1, c2, LostIn(x), LostIn(y));
    LostConcat(x, y);
    LeadsConcat(KeysOf(a.lru), x, KeysOf(b.lru), y, KeysOf(c.lru));
  }

  /** find_entry */
  method FindEntry(lru: seq<Entry>, k: Key) returns (i: int)
    ensures i == Position(lru, k)
  {
    i := 0;
    while i < |lru|
      invariant 0 <= i <= |lru|
      invariant forall j | 0 <= j < i :: lru[j].key != k
    {
      if lru[i].key == k {
        FirstPosition(lru, k, i);
        return;
      }
      i := i + 1;
    }
    i := -1;
  }

  lemma {:induction false} FirstPosition(lru: seq<Entry>, k: Key, i: nat)
    requires i < |lru| && lru[i].key == k && forall j | 0 <= j < i :: lru[j].key != k
    ensures Position(lru, k) == i
  {
    if i > 0 {
      assert lru[0].key != k;
      forall j | 0 <= j < i - 1
        ensures lru[1..][j].key != k
      {
        assert lru[j + 1].key != k;
      }
      FirstPosition(lru[1..], k, i - 1);
    }
  }

  /** The device's write operation, with the device's answer; a failure changes nothing. */
  method DeviceWrite(disk: Disk, k: Key, data: Block, answer: bool) returns (disk': Disk, ok: bool)
    ensures ok == answer && disk' == if ok then disk[k := data] else disk
  {
    ok := answer;
    disk' := if ok then disk[k := data] else disk;
  }

  /** The device's read operation, with the device's answer. */
  method DeviceRead(disk: Disk, k: Key, answer: bool) returns (data: Block, ok: bool)
    ensures ok == answer && (ok ==> data == At(disk, k))
  {
    ok := answer;
    data := if ok then At(disk, k) else [];
  }

  /** A successful write-back of entry i: the device has its block and it is clean and most recent. */
  function WrittenBack(s: State, i: nat): State
    requires i < |s.lru|
  {
    State(Promoted(s.lru, i, s.lru[i].(dirty := false)), s.numEntries, s.disk[s.lru[i].key := s.lru[i].data])
  }

  /** Entry i is used, with this content now. */
  function UsedAt(s: State, i: nat, e: Entry): State
    requires i < |s.lru|
  {
    s.(lru := Promoted(s.lru, i, e))
  }

  lemma WriteBackKeeps(s: State, i: nat)
    requires Ok(s, {}) && i < |s.lru|
    ensures Ok(WrittenBack(s, i), {}) && Moves(s, [Back(s.lru[i].key, true)], WrittenBack(s, i))
    ensures Steady(s, WrittenBack(s, i), {}, {})
  {
    var s', e := WrittenBack(s, i), s.lru[i].(dirty := false);
    PromoteKeepsOrder(s.lru, i, e, Back(e.key, true));
    PositionIs(s.lru, i);
    forall j | 0 <= j < |s'.lru| && !s'.lru[j].dirty
      ensures s'.lru[j].data == At(s'.disk, s'.lru[j].key)
    {
      var l := if j == 0 then i else if j <= i then j - 1 else j;
      if j > 0 {
        KeysDiffer(s.lru, i, l);
      }
    }
    forall k
      ensures Sees(s', k) == Sees(s, k)
      ensures At(s'.disk, k) == Sees(s, k) || At(s'.disk, k) == At(s.disk, k)
    {
      SeenAfterPromote(s.lru, s.disk, i, e, k);
      SeenAfterPromote(s.lru, s'.disk, i, e, k);
    }
  }

  /** What becomes of the block of an entry that leaves, with the device's answer if it is asked. */
  function FateOf(e: Entry, answer: bool): Fate {
    if !e.dirty then Clean else if answer then Saved else Lost
  }

  /** The state without entry i, whose block is written back if it is dirty and the device takes it. */
  function TakenOut(s: State, i: nat, answer: bool): State
    requires i < |s.lru|
  {
    var e := s.lru[i];
    State(Deleted(s.lru, i), s.numEntries - 1, if FateOf(e, answer) == Saved then s.disk[e.key := e.data] else s.disk)
  }

  /** What is logged when a block is put into the cache from position at on: its use, which needs memory if it is new,
      after the eviction of the last entry if the cache is full. */
  function InsertEvents(lru: seq<Entry>, k: Key, at: nat, world: World): Log {
    if Position(lru, k) >= 0 then [Use(k, true)]
    else if |lru| < CACHE_MAX_ENTRIES then [Use(k, world(at))]
    else
      var victim := lru[|lru| - 1];
      [Evict(victim.key, FateOf(victim, world(at))), Use(k, world(at + 1))]
  }

  lemma InsertEventsFacts(lru: seq<Entry>, k: Key, at: nat, world: World)
    ensures Obeys(world, at, InsertEvents(lru, k, at, world)) && Accesses(InsertEvents(lru, k, at, world)) == [k]
    ensures forall e | e in InsertEvents(lru, k, at, world) :: e.Use? || e.Evict?
  {
    var ev := InsertEvents(lru, k, at, world);
    if |ev| == 2 {
      assert ev[..1] == [ev[0]];
      assert Accesses([ev[0]]) == [];
    }
  }

  /** The new entry was kept. */
  predicate Kept(ev: Log) {
    ev != [] && Promotes(ev[|ev| - 1])
  }

  /** The state after cache_insert, whose memory request has the given answers: the entry is at the head with the data;
      a new one is clean, and a full cache gave up its last entry for it, even if there is no memory then. */
  ghost predicate Inserted(s: State, k: Key, data: Block, ev: Log, s': State) {
    var i := Position(s.lru, k);
    if i >= 0 then s' == UsedAt(s, i, s.lru[i].(data := data))
    else
      var full := s.numEntries >= CACHE_MAX_ENTRIES && s.lru != [];
      var room := if full then TakenOut(s, |s.lru| - 1, |ev| > 0 && ev[0].Evict? && ev[0].fate == Saved) else s;
      s' == if Kept(ev) then State([Entry(k, data, false)] + room.lru, room.numEntries + 1, room.disk) else room
  }

  /** What is logged when one block is written from position at on. */
  function WriteEvents(lru: seq<Entry>, k: Key, at: nat, world: World): Log {
    if world(at) then [Put(k, true)] + InsertEvents(lru, k, at + 1, world) else [Put(k, false)]
  }

  /** bwrite of one block: to the device first, then into the cache. */
  method WriteOne(s: State, at: nat, k: Key, data: Block, world: World) returns (s': State, ev: Log, ok: bool)
    requires Ok(s, {})
    ensures ok == world(at)
    ensures ev == WriteEvents(s.lru, k, at, world)
    ensures Moves(s, ev, s') && Ok(s', {}) && Steady(s, s', {k}, LostIn(ev))
    ensures if ok then Inserted(s.(disk := s.disk[k := data]), k, data, ev[1..], s') else s' == s
    ensures ok ==> At(s'.disk, k) == data && Sees(s', k) == data
    decreases if Position(s.lru, k) >= 0 then 0 else 1, 4
  {
    var disk;
    disk, ok := DeviceWrite(s.disk, k, data, world(at));
    var put := Put(k, ok);
    OtherKeepsOrder(s.lru, put);
    s', ev := s, [put];
    if ok {
      var more;
      DiskWrite(s, k, data);
      s', more := Insert(s.(disk := disk), at + 1, k, data, world);
      ev := [put] + more;
      assert ev[1..] == more;
      StepTrans(s, s.(disk := disk), s', [put], more, {k}, {k}, {k});
    }
  }

  /** Writing the device under a cached block. */
  lemma DiskWrite(s: State, k: Key, data: Block)
    requires Ok(s, {})
    ensures Ok(s.(disk := s.disk[k := data]), {k})
    ensures Steady(s, s.(disk := s.disk[k := data]), {k}, {})
  {
  }

  /** cache_insert; memory may run out when a new entry is needed. */
  method Insert(s: State, at: nat, k: Key, data: Block, world: World) returns (s': State, ev: Log)
    requires Ok(s, {k})
    ensures ev == InsertEvents(s.lru, k, at, world) && Inserted(s, k, data, ev, s')
    ensures Moves(s, ev, s') && Ok(s', if At(s.disk, k) == data then {} else {k})
    ensures At(s'.disk, k) == At(s.disk, k) && Sees(s', k) == if Kept(ev) then data else At(s.disk, k)
    ensures Steady(s, s', {k}, LostIn(ev))
    ensures Position(s.lru, k) == -1 ==>
              s'.lru == (if ev[|ev| - 1] == Use(k, true) then [Entry(k, data, false)] else [])
                        + if |s.lru| < CACHE_MAX_ENTRIES then s.lru else s.lru[..|s.lru| - 1]
    decreases if Position(s.lru, k) >= 0 then 0 else 1, 3
  {
    var i := FindEntry(s.lru, k);
    if i >= 0 {
      var e := s.lru[i].(data := data);
      ev := [Use(k, true)];
      InsertExisting(s, i, e);
      s' := UsedAt(s, i, e);
    } else {
      AbsentIsNoException(s, k);
      s', ev := InsertNew(s, at, k, data, world);
    }
  }

  /** The second half of cache_insert: make room, and put the new entry at the head. */
  method InsertNew(s: State, at: nat, k: Key, data: Block, world: World) returns (s': State, ev: Log)
    requires Ok(s, {}) && Position(s.lru, k) == -1
    ensures ev == InsertEvents(s.lru, k, at, world) && Inserted(s, k, data, ev, s')
    ensures Moves(s, ev, s') && Ok(s', if At(s.disk, k) == data then {} else {k})
    ensures At(s'.disk, k) == At(s.disk, k) && Sees(s', k) == if Kept(ev) then data else At(s.disk, k)
    ensures Steady(s, s', {k}, LostIn(ev))
    decreases 1, 2
  {
    s', ev := s, [];
    SteadyRefl(s);
    LeadsNowhere(KeysOf(s.lru));
    if s.numEntries >= CACHE_MAX_ENTRIES {
      s', ev := EvictLru(s, at, world);
      VictimIsOther(s, k, world(at));
    }
    var use := Use(k, world(at + |ev|));
    NewEntry(s, s', k, data, ev, use);
    NewEvents(s, s', k, data, at, ev, world);
    s' := if use.kept then State([Entry(k, data, false)] + s'.lru, s'.numEntries + 1, s'.disk) else s';
    ev := ev + [use];
  }

  /** The evicted block is not the new one. */
  lemma VictimIsOther(s: State, k: Key, answer: bool)
    requires s.lru != [] && Position(s.lru, k) == -1
    ensures Position(TakenOut(s, |s.lru| - 1, answer).lru, k) == -1 && At(TakenOut(s, |s.lru| - 1, answer).disk, k) == At(s.disk, k)
  {
  }

  /** The log and the state of an insertion of a new block. */
  lemma NewEvents(s: State, room: State, k: Key, data: Block, at: nat, first: Log, world: World)
    requires s.numEntries == |s.lru| && Position(s.lru, k) == -1
    requires if s.numEntries < CACHE_MAX_ENTRIES then room == s && first == []
             else room == TakenOut(s, |s.lru| - 1, world(at)) && first == [Evict(s.lru[|s.lru| - 1].key, FateOf(s.lru[|s.lru| - 1], world(at)))]
    ensures var use := Use(k, world(at + |first|));
            && InsertEvents(s.lru, k, at, world) == first + [use]
            && Inserted(s, k, data, first + [use],
                        if use.kept then State([Entry(k, data, false)] + room.lru, room.numEntries + 1, room.disk) else room)
  {
  }

  /** A new entry where there is room, unless there is no memory. */
  lemma NewEntry(s: State, room: State, k: Key, data: Block, first: Log, use: Event)
    requires Ok(room, {}) && Steady(s, room, {}, LostIn(first)) && Moves(s, first, room)
    requires Position(room.lru, k) == -1 && room.numEntries < CACHE_MAX_ENTRIES && use.Use? && use.key == k
    ensures var s' := if use.kept then State([Entry(k, data, false)] + room.lru, room.numEntries + 1, room.disk) else room;
            && Ok(s', if At(room.disk, k) == data then {} else {k}) && Moves(s, first + [use], s')
            && Steady(s, s', {k}, LostIn(first + [use])) && s'.disk == room.disk
            && Sees(s', k) == if use.kept then data else At(room.disk, k)
  {
    if use.kept {
      PushKeeps(room, k, data);
      StepTrans(s, room, State([Entry(k, data, false)] + room.lru, room.numEntries + 1, room.disk), first, [use], {}, {k}, {k});
    } else {
      OtherKeepsOrder(room.lru, use);
      SteadyRefl(room);
      StepTrans(s, room, room, first, [use], {}, {}, {k});
    }
  }

  lemma AbsentIsNoException(s: State, k: Key)
    requires Ok(s, {k}) && Position(s.lru, k) == -1
    ensures Ok(s, {})
  {
  }

  /** Replacing the data of a cached block makes it most recent. */
  lemma InsertExisting(s: State, i: nat, e: Entry)
    requires Ok(s, {e.key}) && i < |s.lru| && e == s.lru[i].(data := e.data)
    ensures var s' := UsedAt(s, i, e);
            && Moves(s, [Use(e.key, true)], s') && Ok(s', if At(s.disk, e.key) == e.data then {} else {e.key})
            && Sees(s', e.key) == e.data && Steady(s, s', {e.key}, {}) && Position(s.lru, e.key) == i
  {
    var s', except := UsedAt(s, i, e), if At(s.disk, e.key) == e.data then {} else {e.key};
    PromoteKeepsOrder(s.lru, i, e, Use(e.key, true));
    PositionIs(s.lru, i);
    forall j | 0 <= j < |s'.lru| && !s'.lru[j].dirty && s'.lru[j].key !in except
      ensures s'.lru[j].data == At(s'.disk, s'.lru[j].key)
    {
      var l := if j == 0 then i else if j <= i then j - 1 else j;
      if j > 0 {
        KeysDiffer(s.lru, i, l);
      }
    }
    forall k
      ensures Sees(s', k) == if k == e.key then e.data else Sees(s, k)
    {
      SeenAfterPromote(s.lru, s.disk, i, e, k);
    }
  }

  /** A new entry at the head. */
  lemma PushKeeps(s: State, k: Key, data: Block)
    requires Ok(s, {}) && Position(s.lru, k) == -1 && s.numEntries < CACHE_MAX_ENTRIES
    ensures var s' := State([Entry(k, data, false)] + s.lru, s.numEntries + 1, s.disk);
            && Moves(s, [Use(k, true)], s') && Ok(s', if At(s.disk, k) == data then {} else {k})
            && Sees(s', k) == data && Steady(s, s', {k}, {})
  {
    var e := Entry(k, data, false);
    var s' := State([e] + s.lru, s.numEntries + 1, s.disk);
    PushKeepsOrder(s.lru, e, Use(k, true));
    forall j | 0 <= j < |s'.lru| && !s'.lru[j].dirty && s'.lru[j].key != k
      ensures s'.lru[j].data == At(s'.disk, s'.lru[j].key)
    {
      assert s'.lru[j] == s.lru[j - 1];
    }
    forall x
      ensures Sees(s', x) == if x == k then data else Sees(s, x)
    {
      SeenAfterPush(s.lru, s.disk, e, x);
    }
  }

  /** What a write-back of the entry logs: it is only tried when the entry is dirty. */
  function BackEvents(e: Entry, ok: bool): Log {
    if e.dirty then [Back(e.key, ok)] else []
  }

  /** writeback_entry: a clean entry needs nothing; a failed write leaves the entry dirty. */
  method WriteBack(s: State, at: nat, i: nat, world: World) returns (s': State, ok: bool)
    requires Ok(s, {}) && i < |s.lru|
    ensures ok <==> !s.lru[i].dirty || world(at)
    ensures s' == if s.lru[i].dirty && ok then WrittenBack(s, i) else s
    ensures Ok(s', {}) && Moves(s, BackEvents(s.lru[i], ok), s') && Steady(s, s', {}, {})
    decreases 0, 5
  {
    s', ok := s, true;
    SteadyRefl(s);
    LeadsNowhere(KeysOf(s.lru));
    if s.lru[i].dirty {
      var e := s.lru[i];
      PositionIs(s.lru, i);
      WriteBackKeeps(s, i);
      OtherKeepsOrder(s.lru, Back(e.key, false));
      var ev;
      s', ev, ok := WriteOne(s, at, e.key, e.data, world);
      if ok {
        s' := s'.(lru := s'.lru[0 := s'.lru[0].(dirty := false)]);
        assert s'.lru == WrittenBack(s, i).lru;
      }
    }
  }

  /** The common part of evict_lru and cache_invalidate: an entry goes, written back if it is dirty. If that write fails
      its block is lost. */
  method TakeOut(s: State, at: nat, i: nat, world: World) returns (s': State, fate: Fate)
    requires Ok(s, {}) && i < |s.lru|
    ensures fate == FateOf(s.lru[i], world(at)) && s' == TakenOut(s, i, world(at))
    ensures Ok(s', {}) && Steady(s, s', {}, if fate == Lost then {s.lru[i].key} else {})
    decreases 1, 0
  {
    var e, ok := s.lru[i], true;
    s' := s;
    SteadyRefl(s);
    if e.dirty {
      s', ok := WriteBack(s, at, i, world);
    }
    fate := if !e.dirty then Clean else if ok then Saved else Lost;
    var place := if fate == Saved then 0 else i;
    DeletedAfterPromote(s.lru, i, e.(dirty := false));
    DeletedDistinct(s.lru, i);
    DeleteSteady(s', place);
    ghost var between := s';
    s' := State(Deleted(s'.lru, place), s'.numEntries - 1, s'.disk);
    SteadyThen(s, between, s', if fate == Lost then {e.key} else {});
  }

  /** evict_lru: the last entry goes. */
  method EvictLru(s: State, at: nat, world: World) returns (s': State, ev: Log)
    requires Ok(s, {}) && s.lru != []
    ensures var victim := s.lru[|s.lru| - 1];
            ev == [Evict(victim.key, FateOf(victim, world(at)))] && s' == TakenOut(s, |s.lru| - 1, world(at))
    ensures Moves(s, ev, s') && Ok(s', {}) && Steady(s, s', {}, LostIn(ev))
    decreases 1, 1
  {
    var n := |s.lru| - 1;
    var fate;
    s', fate := TakeOut(s, at, n, world);
    ev := [Evict(s.lru[n].key, fate)];
    DeleteKeepsOrder(s.lru, n, ev[0]);
    LostOne(ev[0]);
  }

  lemma LostOne(e: Event)
    ensures LostIn([e]) == if IsLoss(e) then {e.key} else {}
  {
    assert e in [e];
  }

  lemma SteadyThen(a: State, b: State, c: State, lost: set<Key>)
    requires Steady(a, b, {}, {}) && Steady(b, c, {}, lost)
    ensures Steady(a, c, {}, lost)
  {
    var none: set<Key> := {};
    SteadyTrans(a, b, c, none, none, none, lost);
    assert none + none == none && none + lost == lost;
  }

  /** Dropping an entry: a clean one is not missed. */
  lemma DeleteSteady(s: State, i: nat)
    requires Distinct(s.lru) && Coherent(s.lru, s.disk, {}) && i < |s.lru|
    ensures Coherent(Deleted(s.lru, i), s.disk, {})
    ensures Steady(s, State(Deleted(s.lru, i), s.numEntries - 1, s.disk), {}, if s.lru[i].dirty then {s.lru[i].key} else {})
  {
    var s' := State(Deleted(s.lru, i), s.numEntries - 1, s.disk);
    PositionIs(s.lru, i);
    forall k
      ensures Sees(s', k) == if k == s.lru[i].key then At(s.disk, k) else Sees(s, k)
    {
      SeenAfterDelete(s.lru, s.disk, i, k);
    }
  }

  lemma SteadyRefl(s: State)
    ensures Steady(s, s, {}, {})
  {
  }

  /** An entry's data is what is seen at its key. */
  lemma EntryIsSeen(s: State, i: nat)
    requires Distinct(s.lru) && i < |s.lru|
    ensures Sees(s, s.lru[i].key) == s.lru[i].data
  {
    PositionIs(s.lru, i);
  }

  /** In a transparent cache the device's block is seen everywhere. */
  lemma TransparentSees(s: State, k: Key)
    requires Transparent(s.lru, s.disk)
    ensures Sees(s, k) == At(s.disk, k)
  {
    var p := Position(s.lru, k);
    assert p >= 0 ==> s.lru[p].data == At(s.disk, s.lru[p].key);
  }

  /** A steady change of a transparent cache leaves it transparent and the device as it was, outside the changed keys. */
  lemma TransparentStays(s: State, s': State, changed: set<Key>, lost: set<Key>)
    requires Transparent(s.lru, s.disk) && Distinct(s'.lru) && Steady(s, s', changed, lost)
    requires forall k | k in changed :: Sees(s', k) == At(s'.disk, k)
    ensures Transparent(s'.lru, s'.disk)
    ensures forall k | k !in changed :: At(s'.disk, k) == At(s.disk, k)
  {
    forall k | k !in changed
      ensures At(s'.disk, k) == At(s.disk, k) && Sees(s', k) == At(s'.disk, k)
    {
      TransparentSees(s, k);
      assert Sees(s', k) == Sees(s, k) || Sees(s', k) == At(s.disk, k);
    }
    forall i | 0 <= i < |s'.lru|
      ensures s'.lru[i].data == At(s'.disk, s'.lru[i].key)
    {
      EntryIsSeen(s', i);
    }
  }

  function Sector(prim: int, scnd: int, offset: nat, i: nat): Key {
    Key(prim, scnd, (offset + i) % WORD)
  }

  /** The first n sectors of a request. */
  function Sectors(prim: int, scnd: int, offset: nat, n: nat): seq<Key> {
    seq(n, i requires i >= 0 => Sector(prim, scnd, offset, i))
  }

  lemma OneMoreSector(prim: int, scnd: int, offset: nat, n: nat)
    ensures Sectors(prim, scnd, offset, n + 1) == Sectors(prim, scnd, offset, n) + [Sector(prim, scnd, offset, n)]
  {
  }

  /** cache_lookup: a hit makes the entry most recent. */
  method Lookup(s: State, k: Key) returns (s': State, ev: Log, hit: bool, data: Block)
    requires Ok(s, {})
    ensures hit <==> Position(s.lru, k) >= 0
    ensures ev == if hit then [Use(k, true)] else []
    ensures s' == if hit then UsedAt(s, Position(s.lru, k), s.lru[Position(s.lru, k)]) else s
    ensures Moves(s, ev, s') && Ok(s', {}) && Steady(s, s', {}, {})
    ensures hit ==> data == Sees(s, k)
  {
    s', ev, hit, data := s, [], false, [];
    SteadyRefl(s);
    LeadsNowhere(KeysOf(s.lru));
    var i := FindEntry(s.lru, k);
    if i >= 0 {
      hit, data, ev := true, s.lru[i].data, [Use(k, true)];
      InsertExisting(s, i, s.lru[i]);
      s' := UsedAt(s, i, s.lru[i]);
      UsedIsCoherent(s, i);
    }
  }

  lemma UsedIsCoherent(s: State, i: nat)
    requires Coherent(s.lru, s.disk, {}) && i < |s.lru|
    ensures Coherent(UsedAt(s, i, s.lru[i]).lru, s.disk, {})
  {
    var s' := UsedAt(s, i, s.lru[i]);
    forall j | 0 <= j < |s'.lru| && !s'.lru[j].dirty
      ensures s'.lru[j].data == At(s'.disk, s'.lru[j].key)
    {
      var l := if j == 0 then i else if j <= i then j - 1 else j;
      assert s'.lru[j] == s.lru[l];
    }
  }

  /** What is logged when one block is read from position at on. */
  function ReadEvents(lru: seq<Entry>, k: Key, at: nat, world: World): Log {
    if Position(lru, k) >= 0 then [Use(k, true)]
    else if world(at) then [Get(k, true)] + InsertEvents(lru, k, at + 1, world)
    else [Get(k, false)]
  }

  /** One turn of the loop of bread. */
  method ReadOne(s: State, at: nat, k: Key, world: World) returns (s': State, ev: Log, ok: bool, data: Block)
    requires Ok(s, {})
    ensures ok <==> Position(s.lru, k) >= 0 || world(at)
    ensures ev == ReadEvents(s.lru, k, at, world)
    ensures Moves(s, ev, s') && Ok(s', {}) && Steady(s, s', {}, LostIn(ev))
    ensures ok ==> data == Sees(s, k)
    ensures ok && Position(s.lru, k) == -1 ==> Inserted(s, k, data, ev[1..], s')
  {
    s', ev, ok, data := Lookup(s, k);
    if ok {
      NothingLost([Use(k, true)]);
    } else {
      s', ev, ok, data := ReadMiss(s, at, k, world);
    }
  }

  lemma NothingLost(ev: Log)
    requires forall e | e in ev :: !IsLoss(e)
    ensures LostIn(ev) == {}
  {
  }

  /** The block is not cached: it is read from the device and inserted. */
  method ReadMiss(s: State, at: nat, k: Key, world: World) returns (s': State, ev: Log, ok: bool, data: Block)
    requires Ok(s, {}) && Position(s.lru, k) == -1
    ensures ok == world(at) && ev == ReadEvents(s.lru, k, at, world)
    ensures Moves(s, ev, s') && Ok(s', {}) && Steady(s, s', {}, LostIn(ev))
    ensures ok ==> data == Sees(s, k) && Inserted(s, k, data, ev[1..], s')
  {
    data, ok := DeviceRead(s.disk, k, world(at));
    OtherKeepsOrder(s.lru, Get(k, ok));
    SteadyRefl(s);
    s', ev := s, [Get(k, ok)];
    NothingLost(ev);
    if ok {
      var more;
      s', more := Insert(s, at + 1, k, data, world);
      ev := ev + more;
      assert ev[1..] == more;
      InsertedSees(s, s', k, LostIn(more));
      StepTrans(s, s, s', [Get(k, true)], more, {}, {}, {});
    }
  }

  lemma InsertedSees(s: State, s': State, k: Key, lost: set<Key>)
    requires Steady(s, s', {k}, lost) && Position(s.lru, k) == -1
    requires At(s'.disk, k) == At(s.disk, k) && Sees(s', k) == At(s.disk, k)
    ensures Steady(s, s', {}, lost)
  {
    assert Sees(s, k) == At(s.disk, k);
  }

  /** A device operation before other events. */
  lemma Preceded(e: Event, more: Log, at: nat, world: World)
    requires (e.Get? || e.Put?) && e.ok == world(at) && Obeys(world, at + 1, more)
    ensures Obeys(world, at, [e] + more) && Accesses([e] + more) == Accesses(more)
    ensures forall x | x in [e] + more :: x == e || x in more
  {
    AccessesConcat([e], more);
    ObeysConcat(world, at, [e], more);
    assert Accesses([e]) == [];
  }

  predicate IsRead(e: Event) {
    e.Get? || e.Use? || e.Evict?
  }

  lemma ReadEventsFacts(lru: seq<Entry>, k: Key, at: nat, world: World)
    ensures var ev, ok := ReadEvents(lru, k, at, world), Position(lru, k) >= 0 || world(at);
            && Obeys(world, at, ev) && Accesses(ev) == (if ok then [k] else [])
            && (forall e | e in ev :: IsRead(e) && (e.Get? ==> e.ok == ok)) && (!ok ==> ev == [Get(k, false)])
  {
    if Position(lru, k) == -1 && world(at) {
      InsertEventsFacts(lru, k, at + 1, world);
      Preceded(Get(k, true), InsertEvents(lru, k, at + 1, world), at, world);
    }
  }

  /** What is logged while a client reads: the blocks of the request in order, each used; the read stops early only when
      the device fails at the next block. */
  ghost predicate ReadLog(ev: Log, at: nat, world: World, prim: int, scnd: int, offset: nat, count: nat, n: nat) {
    && Obeys(world, at, ev) && Accesses(ev) == Sectors(prim, scnd, offset, n) && n <= count
    && (forall e | e in ev :: IsRead(e))
    && (n == count ==> forall e | e in ev && e.Get? :: e.ok)
    && (n < count ==> ev != [] && ev[|ev| - 1] == Get(Sector(prim, scnd, offset, n), false))
  }

  /** What is logged after n blocks without a failure. */
  ghost predicate Reading(ev: Log, at: nat, world: World, prim: int, scnd: int, offset: nat, n: nat) {
    && Obeys(world, at, ev) && Accesses(ev) == Sectors(prim, scnd, offset, n)
    && forall e | e in ev :: IsRead(e) && (e.Get? ==> e.ok)
  }

  lemma ReadingMore(s: State, ev: Log, at: nat, world: World, prim: int, scnd: int, offset: nat, n: nat)
    requires Reading(ev, at, world, prim, scnd, offset, n)
    ensures var k := Sector(prim, scnd, offset, n);
            var more := ReadEvents(s.lru, k, at + |ev|, world);
            if Position(s.lru, k) >= 0 || world(at + |ev|) then Reading(ev + more, at, world, prim, scnd, offset, n + 1)
            else forall count | n < count :: ReadLog(ev + more, at, world, prim, scnd, offset, count, n)
  {
    var k := Sector(prim, scnd, offset, n);
    var more, ok := ReadEvents(s.lru, k, at + |ev|, world), Position(s.lru, k) >= 0 || world(at + |ev|);
    ReadEventsFacts(s.lru, k, at + |ev|, world);
    ReadTurn(ev, more, at, world, prim, scnd, offset, n, ok);
  }

  lemma ReadTurn(ev: Log, more: Log, at: nat, world: World, prim: int, scnd: int, offset: nat, n: nat, ok: bool)
    requires Reading(ev, at, world, prim, scnd, offset, n) && Obeys(world, at + |ev|, more)
    requires Accesses(more) == if ok then [Sector(prim, scnd, offset, n)] else []
    requires forall e | e in more :: IsRead(e) && (e.Get? ==> e.ok == ok)
    requires !ok ==> more == [Get(Sector(prim, scnd, offset, n), false)]
    ensures ok ==> Reading(ev + more, at, world, prim, scnd, offset, n + 1)
    ensures !ok ==> forall count | n < count :: ReadLog(ev + more, at, world, prim, scnd, offset, count, n)
  {
    ObeysConcat(world, at, ev, more);
    AccessesConcat(ev, more);
    OneMoreSector(prim, scnd, offset, n);
    forall e | e in ev + more
      ensures IsRead(e) && (ok && e.Get? ==> e.ok)
    {
      assert e in ev || e in more;
    }
  }

  /** What was read so far. */
  ghost predicate ReadRight(s: State, out: seq<Block>, prim: int, scnd: int, offset: nat, lost: set<Key>) {
    forall i {:trigger out[i]} | 0 <= i < |out| ::
      var k := Sector(prim, scnd, offset, i);
      (out[i] == Sees(s, k) || out[i] == At(s.disk, k)) && (k !in lost ==> out[i] == Sees(s, k))
  }

  /** bread: the blocks that were read before the device failed, if it did. Each is what was seen at its sector; in a
      transparent cache it is what the device holds, and reading changes neither. */
  method Bread(s: State, at: nat, prim: int, scnd: int, offset: nat, count: nat, world: World)
    returns (s': State, ev: Log, out: seq<Block>)
    requires Ok(s, {})
    ensures Moves(s, ev, s') && Ok(s', {}) && Steady(s, s', {}, LostIn(ev))
    ensures ReadLog(ev, at, world, prim, scnd, offset, count, |out|)
    ensures forall i | 0 <= i < |out| && Key(prim, scnd, (offset + i) % WORD) !in LostIn(ev) ::
              out[i] == Sees(s, Key(prim, scnd, (offset + i) % WORD))
    ensures Transparent(s.lru, s.disk) ==>
              && Transparent(s'.lru, s'.disk) && (forall k :: At(s'.disk, k) == At(s.disk, k))
              && forall i | 0 <= i < |out| :: out[i] == At(s.disk, Key(prim, scnd, (offset + i) % WORD))
  {
    s', ev, out := s, [], [];
    SteadyRefl(s);
    LeadsNowhere(KeysOf(s.lru));
    var ok := true;
    while |out| < count && ok
      invariant InBread(s, s', at, ev, world, prim, scnd, offset, count, out, ok)
      decreases count - |out|, ok
    {
      s', ev, ok, out := ReadNext(s, s', at, ev, out, prim, scnd, offset, count, world);
    }
    if Transparent(s.lru, s.disk) {
      TransparentStays(s, s', {}, LostIn(ev));
      forall i | 0 <= i < |out|
        ensures out[i] == At(s.disk, Sector(prim, scnd, offset, i))
      {
        TransparentSees(s, Sector(prim, scnd, offset, i));
      }
    }
  }

  /** The state of bread between two turns; it goes on while ok. */
  ghost predicate InBread(s: State, now: State, at: nat, ev: Log, world: World, prim: int, scnd: int, offset: nat, count: nat,
                          out: seq<Block>, ok: bool) {
    && Ok(now, {}) && Moves(s, ev, now) && Steady(s, now, {}, LostIn(ev)) && ReadRight(s, out, prim, scnd, offset, LostIn(ev))
    && |out| <= count
    && if ok then Reading(ev, at, world, prim, scnd, offset, |out|) else ReadLog(ev, at, world, prim, scnd, offset, count, |out|)
  }

  /** One turn of the loop of bread. */
  method ReadNext(ghost s: State, now: State, at: nat, ev: Log, out: seq<Block>, prim: int, scnd: int, offset: nat,
                  ghost count: nat, world: World)
    returns (s': State, ev': Log, ok: bool, out': seq<Block>)
    requires InBread(s, now, at, ev, world, prim, scnd, offset, count, out, true) && |out| < count
    ensures InBread(s, s', at, ev', world, prim, scnd, offset, count, out', ok)
    ensures |out'| == |out| + if ok then 1 else 0
  {
    var more, data;
    s', more, ok, data := ReadOne(now, at + |ev|, Sector(prim, scnd, offset, |out|), world);
    ev' := ev + more;
    out' := if ok then out + [data] else out;
    ReadDone(s, now, s', at, ev, more, world, prim, scnd, offset, count, out, data, ok);
  }

  lemma ReadDone(s: State, now: State, s': State, at: nat, ev: Log, more: Log, world: World, prim: int, scnd: int, offset: nat,
                 count: nat, out: seq<Block>, data: Block, ok: bool)
    requires InBread(s, now, at, ev, world, prim, scnd, offset, count, out, true) && |out| < count
    requires var k := Sector(prim, scnd, offset, |out|);
             && (ok <==> Position(now.lru, k) >= 0 || world(at + |ev|)) && more == ReadEvents(now.lru, k, at + |ev|, world)
             && (ok ==> data == Sees(now, k))
    requires Ok(s', {}) && Moves(now, more, s') && Steady(now, s', {}, LostIn(more))
    ensures InBread(s, s', at, ev + more, world, prim, scnd, offset, count, if ok then out + [data] else out, ok)
  {
    var k := Sector(prim, scnd, offset, |out|);
    ReadingMore(now, ev, at, world, prim, scnd, offset, |out|);
    TurnRead(s, now, s', out, data, ok, k, prim, scnd, offset, ev, more);
  }

  lemma TurnRead(s: State, now: State, s': State, out: seq<Block>, data: Block, ok: bool, k: Key, prim: int, scnd: int, offset: nat,
                 ev: Log, more: Log)
    requires Moves(s, ev, now) && Steady(s, now, {}, LostIn(ev)) && ReadRight(s, out, prim, scnd, offset, LostIn(ev))
    requires Moves(now, more, s') && Steady(now, s', {}, LostIn(more))
    requires k == Sector(prim, scnd, offset, |out|) && (ok ==> data == Sees(now, k))
    ensures Moves(s, ev + more, s') && Steady(s, s', {}, LostIn(ev + more))
    ensures ReadRight(s, if ok then out + [data] else out, prim, scnd, offset, LostIn(ev + more))
  {
    StepTrans(s, now, s', ev, more, {}, {}, {});
    OneMoreRead(s, now, out, data, ok, k, prim, scnd, offset, ev, more);
  }

  lemma OneMoreRead(s: State, now: State, out: seq<Block>, data: Block, ok: bool, k: Key, prim: int, scnd: int, offset: nat,
                    ev: Log, more: Log)
    requires ReadRight(s, out, prim, scnd, offset, LostIn(ev)) && Steady(s, now, {}, LostIn(ev))
    requires k == Sector(prim, scnd, offset, |out|) && (ok ==> data == Sees(now, k))
    ensures ReadRight(s, if ok then out + [data] else out, prim, scnd, offset, LostIn(ev + more))
  {
    LostConcat(ev, more);
    assert Sees(now, k) == Sees(s, k) || Sees(now, k) == At(s.disk, k);
    var out', lost := if ok then out + [data] else out, LostIn(ev + more);
    forall i | 0 <= i < |out'|
      ensures var x := Sector(prim, scnd, offset, i);
              (out'[i] == Sees(s, x) || out'[i] == At(s.disk, x)) && (x !in lost ==> out'[i] == Sees(s, x))
    {
      if i < |out| {
        assert out'[i] == out[i];
      }
    }
  }

  /** Which sector of a request this is. */
  lemma SectorAt(offset: nat, sector: int, n: nat)
    ensures 0 <= sector < WORD && 0 < n <= WORD ==> ((offset + n - 1) % WORD == sector <==> (sector - offset) % WORD == n - 1)
  {
    if 0 <= sector < WORD && 0 < n <= WORD {
      var q := (offset + n - 1) / WORD;
      if (offset + n - 1) % WORD == sector {
        ModIs(sector - offset, -q, n - 1);
      } else if (sector - offset) % WORD == n - 1 {
        var p := (sector - offset) / WORD;
        ModIs(offset + n - 1, -p, sector);
      }
    }
  }

  lemma ModIs(a: int, q: int, r: int)
    requires a == q * WORD + r && 0 <= r < WORD
    ensures a % WORD == r
  {
  }

  /** What an uncached write of the first n blocks leaves at a sector that held b. */
  ghost function AfterWrite(b: Block, k: Key, prim: int, scnd: int, offset: nat, data: seq<Block>, n: nat): (after: Block)
    requires n <= |data|
    ensures n <= WORD && 0 <= k.offset < WORD ==>
              var i := (k.offset - offset) % WORD;
              after == if k.prim == prim && k.scnd == scnd && i < n then data[i] else b
  {
    SectorAt(offset, k.offset, n);
    if n == 0 then b
    else if Sector(prim, scnd, offset, n - 1) == k then data[n - 1]
    else AfterWrite(b, k, prim, scnd, offset, data, n - 1)
  }

  /** What is logged while a client writes: the blocks of the request in order, each used; the write stops early only
      when the device fails at the next block. */
  ghost predicate WriteLog(ev: Log, at: nat, world: World, prim: int, scnd: int, offset: nat, count: nat, n: nat) {
    && Obeys(world, at, ev) && Accesses(ev) == Sectors(prim, scnd, offset, n) && n <= count
    && (forall e | e in ev :: IsWrite(e))
    && (n == count ==> forall e | e in ev && e.Put? :: e.ok)
    && (n < count ==> ev != [] && ev[|ev| - 1] == Put(Sector(prim, scnd, offset, n), false))
  }

  predicate IsWrite(e: Event) {
    e.Put? || e.Use? || e.Evict?
  }

  /** What is logged after n blocks without a failure. */
  ghost predicate Writing(ev: Log, at: nat, world: World, prim: int, scnd: int, offset: nat, n: nat) {
    && Obeys(world, at, ev) && Accesses(ev) == Sectors(prim, scnd, offset, n)
    && forall e | e in ev :: IsWrite(e) && (e.Put? ==> e.ok)
  }

  lemma WritingMore(s: State, ev: Log, at: nat, world: World, prim: int, scnd: int, offset: nat, n: nat)
    requires Writing(ev, at, world, prim, scnd, offset, n)
    ensures var more := WriteEvents(s.lru, Sector(prim, scnd, offset, n), at + |ev|, world);
            if world(at + |ev|) then Writing(ev + more, at, world, prim, scnd, offset, n + 1)
            else forall count | n < count :: WriteLog(ev + more, at, world, prim, scnd, offset, count, n)
  {
    var k := Sector(prim, scnd, offset, n);
    var more := WriteEvents(s.lru, k, at + |ev|, world);
    WriteEventsFacts(s.lru, k, at + |ev|, world);
    ObeysConcat(world, at, ev, more);
    AccessesConcat(ev, more);
    OneMoreSector(prim, scnd, offset, n);
  }

  lemma WriteEventsFacts(lru: seq<Entry>, k: Key, at: nat, world: World)
    ensures var ev := WriteEvents(lru, k, at, world);
            && Obeys(world, at, ev) && Accesses(ev) == (if world(at) then [k] else [])
            && (forall e | e in ev :: IsWrite(e) && (e.Put? ==> e.ok == world(at))) && (!world(at) ==> ev == [Put(k, false)])
  {
    if world(at) {
      InsertEventsFacts(lru, k, at + 1, world);
      Preceded(Put(k, true), InsertEvents(lru, k, at + 1, world), at, world);
    }
  }

  /** What holds after n blocks of a bwrite. */
  ghost predicate Wrote(s: State, s': State, prim: int, scnd: int, offset: nat, data: seq<Block>, n: nat, lost: set<Key>)
    requires n <= |data|
  {
    && Distinct(s'.lru)
    && (forall k | k !in lost :: Sees(s', k) == AfterWrite(Sees(s, k), k, prim, scnd, offset, data, n))
    && (Transparent(s.lru, s.disk) ==>
          && Transparent(s'.lru, s'.disk)
          && forall k :: At(s'.disk, k) == AfterWrite(At(s.disk, k), k, prim, scnd, offset, data, n))
  }

  lemma WroteOneMore(s: State, now: State, s': State, prim: int, scnd: int, offset: nat, data: seq<Block>, n: nat,
                     lost: set<Key>, more: set<Key>)
    requires n < |data| && Wrote(s, now, prim, scnd, offset, data, n, lost)
    requires var k := Sector(prim, scnd, offset, n);
             Distinct(s'.lru) && At(s'.disk, k) == data[n] && Sees(s', k) == data[n] && Steady(now, s', {k}, more)
    ensures Wrote(s, s', prim, scnd, offset, data, n + 1, lost + more)
  {
    var key := Sector(prim, scnd, offset, n);
    if Transparent(s.lru, s.disk) {
      TransparentStays(now, s', {key}, more);
    }
    forall k | k !in lost + more
      ensures Sees(s', k) == AfterWrite(Sees(s, k), k, prim, scnd, offset, data, n + 1)
    {
      assert k != key ==> Sees(s', k) == Sees(now, k);
    }
  }

  /** bwrite: the first n blocks reach the device and are seen. In a transparent cache the device ends up exactly
      as without a cache, and the cache stays transparent. */
  method Bwrite(s: State, at: nat, prim: int, scnd: int, offset: nat, data: seq<Block>, world: World)
    returns (s': State, ev: Log, n: nat)
    requires Ok(s, {})
    ensures Moves(s, ev, s') && Ok(s', {}) && WriteLog(ev, at, world, prim, scnd, offset, |data|, n)
    ensures n <= |data|
    ensures forall k | k !in LostIn(ev) :: Sees(s', k) == AfterWrite(Sees(s, k), k, prim, scnd, offset, data, n)
    ensures |data| <= WORD ==> forall k: Key | k !in LostIn(ev) && 0 <= k.offset < WORD ::
              var i := (k.offset - offset) % WORD;
              Sees(s', k) == if k.prim == prim && k.scnd == scnd && i < n then data[i] else Sees(s, k)
    ensures Transparent(s.lru, s.disk) ==>
              && Transparent(s'.lru, s'.disk)
              && forall k :: At(s'.disk, k) == AfterWrite(At(s.disk, k), k, prim, scnd, offset, data, n)
  {
    s', ev, n := s, [], 0;
    LeadsNowhere(KeysOf(s.lru));
    var ok := true;
    while n < |data| && ok
      invariant Moves(s, ev, s') && n <= |data| && Ok(s', {}) && Wrote(s, s', prim, scnd, offset, data, n, LostIn(ev))
      invariant if ok then Writing(ev, at, world, prim, scnd, offset, n)
                else WriteLog(ev, at, world, prim, scnd, offset, |data|, n)
      decreases |data| - n, ok
    {
      WritingMore(s', ev, at, world, prim, scnd, offset, n);
      s', ev, ok := WriteNext(s, s', at, ev, prim, scnd, offset, data, n, world);
      n := if ok then n + 1 else n;
    }
  }

  /** One turn of the loop of bwrite. */
  method WriteNext(ghost s: State, now: State, at: nat, ev: Log, prim: int, scnd: int, offset: nat, data: seq<Block>, n: nat,
                   world: World)
    returns (s': State, ev': Log, ok: bool)
    requires n < |data| && Ok(now, {}) && Moves(s, ev, now) && Wrote(s, now, prim, scnd, offset, data, n, LostIn(ev))
    ensures ok == world(at + |ev|)
    ensures ev' == ev + WriteEvents(now.lru, Sector(prim, scnd, offset, n), at + |ev|, world)
    ensures Ok(s', {}) && Moves(s, ev', s')
    ensures Wrote(s, s', prim, scnd, offset, data, if ok then n + 1 else n, LostIn(ev'))
  {
    var more;
    s', more, ok := WriteOne(now, at + |ev|, Sector(prim, scnd, offset, n), data[n], world);
    ev' := ev + more;
    LeadsConcat(KeysOf(s.lru), ev, KeysOf(now.lru), more, KeysOf(s'.lru));
    LostConcat(ev, more);
    if ok {
      WroteOneMore(s, now, s', prim, scnd, offset, data, n, LostIn(ev), LostIn(more));
    }
  }

  /** cache_mark_dirty: the entry is dirty and most recent. */
  method MarkDirty(s: State, k: Key) returns (s': State, ev: Log, ok: bool)
    requires Ok(s, {k})
    ensures ok <==> Position(s.lru, k) >= 0
    ensures ev == if ok then [Use(k, true)] else []
    ensures s' == if ok then UsedAt(s, Position(s.lru, k), s.lru[Position(s.lru, k)].(dirty := true)) else s
    ensures Moves(s, ev, s') && Ok(s', {}) && forall x :: Sees(s', x) == Sees(s, x)
  {
    s', ev, ok := s, [], false;
    LeadsNowhere(KeysOf(s.lru));
    var i := FindEntry(s.lru, k);
    if i >= 0 {
      ok, ev := true, [Use(k, true)];
      var e := s.lru[i].(dirty := true);
      s' := UsedAt(s, i, e);
      PromoteKeepsOrder(s.lru, i, e, Use(k, true));
      forall j | 0 <= j < |s'.lru| && !s'.lru[j].dirty
        ensures s'.lru[j].data == At(s'.disk, s'.lru[j].key)
      {
        var l := if j == 0 then i else if j <= i then j - 1 else j;
        assert s'.lru[j] == s.lru[l];
        KeysDiffer(s.lru, i, l);
      }
      forall x
        ensures Sees(s', x) == Sees(s, x)
      {
        SeenAfterPromote(s.lru, s.disk, i, e, x);
        PositionIs(s.lru, i);
      }
    }
  }

  lemma SteadyOutside(s: State, s': State, k: Key, lost: set<Key>)
    requires Steady(s, s', {k}, lost)
    ensures forall x | x !in lost && x != k :: Sees(s', x) == Sees(s, x)
  {
  }

  /** A delayed write: cache_insert, then cache_mark_dirty. The block is seen at once, in a dirty entry, and the device
      keeps the old one. */
  method WriteLater(s: State, at: nat, k: Key, data: Block, world: World) returns (s': State, ev: Log, ok: bool)
    requires Ok(s, {})
    ensures var first := InsertEvents(s.lru, k, at, world);
            ok == Kept(first) && ev == first + if ok then [Use(k, true)] else []
    ensures Moves(s, ev, s') && Ok(s', {}) && At(s'.disk, k) == At(s.disk, k)
    ensures ok ==> Sees(s', k) == data && s'.lru != [] && s'.lru[0] == Entry(k, data, true)
    ensures forall x | x !in LostIn(ev) && x != k :: Sees(s', x) == Sees(s, x)
  {
    s', ev := Insert(s, at, k, data, world);
    SteadyOutside(s, s', k, LostIn(ev));
    ghost var first, between := ev, s';
    InsertedAtHead(s, k, data, ev, s');
    var more;
    s', more, ok := MarkDirty(s', k);
    ev := ev + more;
    LeadsConcat(KeysOf(s.lru), first, KeysOf(between.lru), more, KeysOf(s'.lru));
    LostConcat(first, more);
  }

  /** Where the entry is after cache_insert. */
  lemma InsertedAtHead(s: State, k: Key, data: Block, ev: Log, s': State)
    requires Inserted(s, k, data, ev, s') && (Position(s.lru, k) >= 0 ==> Kept(ev))
    ensures Kept(ev) ==> s'.lru != [] && s'.lru[0].key == k && s'.lru[0].data == data && Position(s'.lru, k) == 0
    ensures !Kept(ev) ==> Position(s'.lru, k) == -1
  {
  }

  /** What is logged when a block is invalidated, with the device's answer if it is asked. */
  function DropEvents(lru: seq<Entry>, k: Key, answer: bool): Log {
    if Position(lru, k) >= 0 then [Drop(k, FateOf(lru[Position(lru, k)], answer))] else []
  }

  /** cache_invalidate: the entry goes, written back first if it is dirty. */
  method Invalidate(s: State, at: nat, k: Key, world: World) returns (s': State, ev: Log)
    requires Ok(s, {})
    ensures var i := Position(s.lru, k);
            && ev == DropEvents(s.lru, k, world(at))
            && s' == if i >= 0 then TakenOut(s, i, world(at)) else s
    ensures Moves(s, ev, s') && Ok(s', {}) && Position(s'.lru, k) == -1 && Steady(s, s', {}, LostIn(ev))
  {
    s', ev := s, [];
    SteadyRefl(s);
    LeadsNowhere(KeysOf(s.lru));
    var i: int := FindEntry(s.lru, k);
    if i >= 0 {
      var fate;
      s', fate := TakeOut(s, at, i, world);
      ev := [Drop(k, fate)];
      DeleteKeepsOrder(s.lru, i, ev[0]);
      DeletedIsGone(s.lru, i);
      LostOne(ev[0]);
    }
  }

  lemma DeletedIsGone(lru: seq<Entry>, i: nat)
    requires Distinct(lru) && i < |lru|
    ensures Position(Deleted(lru, i), lru[i].key) == -1
  {
    forall j | 0 <= j < |Deleted(lru, i)|
      ensures Deleted(lru, i)[j].key != lru[i].key
    {
      KeysDiffer(lru, i, if j < i then j else j + 1);
    }
  }

  /** How many entries are dirty. */
  ghost function Dirty(lru: seq<Entry>): nat {
    if lru == [] then 0 else (if lru[0].dirty then 1 else 0) + Dirty(lru[1..])
  }

  lemma {:induction false} DirtyConcat(a: seq<Entry>, b: seq<Entry>)
    ensures Dirty(a + b) == Dirty(a) + Dirty(b)
  {
    if a == [] {
      assert a + b == b;
    } else {
      assert (a + b)[0] == a[0] && (a + b)[1..] == a[1..] + b;
      DirtyConcat(a[1..], b);
    }
  }

  function Count(e: Entry): nat {
    if e.dirty then 1 else 0
  }

  lemma DirtyCons(e: Entry, rest: seq<Entry>)
    ensures Dirty([e] + rest) == Count(e) + Dirty(rest)
  {
    assert ([e] + rest)[1..] == rest;
  }

  lemma DirtySplit(lru: seq<Entry>, i: nat)
    requires i < |lru|
    ensures Dirty(lru) == Dirty(lru[..i]) + Count(lru[i]) + Dirty(lru[i + 1..])
  {
    assert lru == lru[..i] + ([lru[i]] + lru[i + 1..]);
    DirtyConcat(lru[..i], [lru[i]] + lru[i + 1..]);
    DirtyCons(lru[i], lru[i + 1..]);
  }

  lemma DirtyPromoted(lru: seq<Entry>, i: nat, e: Entry)
    requires i < |lru|
    ensures Dirty(Promoted(lru, i, e)) == Count(e) + Dirty(lru[..i]) + Dirty(lru[i + 1..])
  {
    assert Promoted(lru, i, e) == [e] + (lru[..i] + lru[i + 1..]);
    DirtyCons(e, lru[..i] + lru[i + 1..]);
    DirtyConcat(lru[..i], lru[i + 1..]);
  }

  /** Writing entry i back makes one fewer dirty. */
  lemma DirtyAfterWriteBack(lru: seq<Entry>, i: nat)
    requires i < |lru| && lru[i].dirty
    ensures Dirty(Promoted(lru, i, lru[i].(dirty := false))) == Dirty(lru) - 1
  {
    DirtySplit(lru, i);
    DirtyPromoted(lru, i, lru[i].(dirty := false));
  }

  ghost function DirtyKeys(lru: seq<Entry>): set<Key> {
    set i | 0 <= i < |lru| && lru[i].dirty :: lru[i].key
  }

  /** The keys of the entries whose write-back was tried, and of those for which it succeeded. */
  ghost function TriedIn(ev: Log): set<Key> {
    set e | e in ev && e.Back? :: e.key
  }

  ghost function SavedIn(ev: Log): set<Key> {
    set e | e in ev && e.Back? && e.ok :: e.key
  }

  /** How many write-backs succeeded. */
  ghost function Successes(ev: Log): nat {
    if ev == [] then 0 else Successes(ev[..|ev| - 1]) + if ev[|ev| - 1].Back? && ev[|ev| - 1].ok then 1 else 0
  }

  lemma OneMoreBack(ev: Log, k: Key, ok: bool)
    ensures var ev' := ev + [Back(k, ok)];
            && TriedIn(ev') == TriedIn(ev) + {k} && SavedIn(ev') == SavedIn(ev) + (if ok then {k} else {})
            && Successes(ev') == Successes(ev) + if ok then 1 else 0
  {
    var last := Back(k, ok);
    var ev' := ev + [last];
    assert last in ev' && ev'[..|ev|] == ev;
    forall e
      ensures e in ev' <==> e in ev || e == last
    {
    }
  }

  lemma DirtyKeysAfter(lru: seq<Entry>, i: nat)
    requires Distinct(lru) && i < |lru| && lru[i].dirty
    ensures DirtyKeys(Promoted(lru, i, lru[i].(dirty := false))) == DirtyKeys(lru) - {lru[i].key}
  {
    var r := Promoted(lru, i, lru[i].(dirty := false));
    forall k | k in DirtyKeys(lru) && k != lru[i].key
      ensures k in DirtyKeys(r)
    {
      var j :| 0 <= j < |lru| && lru[j].dirty && lru[j].key == k;
      assert r[if j < i then j + 1 else j] == lru[j];
    }
    forall k | k in DirtyKeys(r)
      ensures k in DirtyKeys(lru) && k != lru[i].key
    {
      var j :| 0 <= j < |r| && r[j].dirty && r[j].key == k;
      KeysDiffer(lru, i, if j <= i then j - 1 else j);
    }
  }

  /** What the write-backs of a flush amount to: only dirty entries are tried, and those remain dirty for which no
      attempt succeeded. */
  ghost predicate Flushed(before: seq<Entry>, after: seq<Entry>, ev: Log, written: nat) {
    && (forall e | e in ev :: e.Back?) && TriedIn(ev) <= DirtyKeys(before)
    && DirtyKeys(after) == DirtyKeys(before) - SavedIn(ev)
    && written == Successes(ev) && written + Dirty(after) == Dirty(before)
  }

  lemma FlushedMore(before: seq<Entry>, now: seq<Entry>, ev: Log, written: nat, i: nat, ok: bool)
    requires Flushed(before, now, ev, written) && Distinct(now) && i < |now| && now[i].dirty
    ensures var after := if ok then Promoted(now, i, now[i].(dirty := false)) else now;
            Flushed(before, after, ev + [Back(now[i].key, ok)], written + if ok then 1 else 0)
  {
    OneMoreBack(ev, now[i].key, ok);
    assert now[i].key in DirtyKeys(now);
    if ok {
      DirtyAfterWriteBack(now, i);
      DirtyKeysAfter(now, i);
    }
  }

  /** What holds between two turns of the flush loop at position i. */
  ghost predicate Flushing(s: State, s': State, at: nat, ev: Log, world: World, i: nat, written: nat) {
    && i <= |s'.lru| == |s.lru| && Ok(s', {}) && Moves(s, ev, s') && Steady(s, s', {}, {}) && Obeys(world, at, ev)
    && Flushed(s.lru, s'.lru, ev, written)
    && forall j {:trigger s'.lru[j]} | 0 <= j < i && s'.lru[j].dirty :: s'.lru[j].key in TriedIn(ev)
  }

  /** A turn of the flush loop at a dirty entry. After a write the cursor is at the head, and the next node is the
      second. */
  method FlushTurn(s: State, now: State, at: nat, ev: Log, world: World, i: nat, written: nat)
    returns (s': State, ev': Log, i': nat, written': nat)
    requires Flushing(s, now, at, ev, world, i, written) && i < |now.lru| && now.lru[i].dirty
    ensures Flushing(s, s', at, ev', world, i', written')
    ensures ev' == ev + [Back(now.lru[i].key, world(at + |ev|))]
    ensures if world(at + |ev|) then s' == WrittenBack(now, i) && Dirty(s'.lru) < Dirty(now.lru) else s' == now && i' == i + 1
  {
    var ok;
    s', ok := WriteBack(now, at + |ev|, i, world);
    TurnDone(s, now, at, ev, world, i, written, ok, s');
    ev' := ev + [Back(now.lru[i].key, ok)];
    if ok {
      DirtyAfterWriteBack(now.lru, i);
      i', written' := 1, written + 1;
    } else {
      i', written' := i + 1, written;
    }
  }

  lemma TurnDone(s: State, now: State, at: nat, ev: Log, world: World, i: nat, written: nat, ok: bool, s': State)
    requires Flushing(s, now, at, ev, world, i, written) && i < |now.lru| && now.lru[i].dirty && ok == world(at + |ev|)
    requires s' == if ok then WrittenBack(now, i) else now
    requires Ok(s', {}) && Steady(now, s', {}, {}) && Moves(now, [Back(now.lru[i].key, ok)], s')
    ensures Flushing(s, s', at, ev + [Back(now.lru[i].key, ok)], world, if ok then 1 else i + 1, if ok then written + 1 else written)
  {
    var back := Back(now.lru[i].key, ok);
    LeadsConcat(KeysOf(s.lru), ev, KeysOf(now.lru), [back], KeysOf(s'.lru));
    SteadyThen(s, now, s', {});
    FlushedMore(s.lru, now.lru, ev, written, i, ok);
    OneMoreBack(ev, back.key, ok);
    ObeysPush(world, at, ev, back);
  }

  /** cache_flush. A write-back moves the entry under the cursor to the head of the list, and the walk goes on
      with what follows it there; it still ends, every dirty entry was tried, and an entry is dirty afterwards exactly if
      every attempt to write it failed. */
  method Flush(s: State, at: nat, world: World) returns (s': State, ev: Log, written: nat)
    requires Ok(s, {})
    ensures Moves(s, ev, s') && Ok(s', {}) && |s'.lru| == |s.lru| && Obeys(world, at, ev)
    ensures forall k :: Sees(s', k) == Sees(s, k)
    ensures Steady(s, s', {}, {})
    ensures Flushed(s.lru, s'.lru, ev, written) && TriedIn(ev) == DirtyKeys(s.lru)
    ensures SavedIn(ev) == DirtyKeys(s.lru) ==> Transparent(s'.lru, s'.disk) && forall k :: At(s'.disk, k) == Sees(s, k)
  {
    s', ev, written := s, [], 0;
    SteadyRefl(s);
    LeadsNowhere(KeysOf(s.lru));
    var i: nat := 0;
    while i < |s'.lru|
      invariant Flushing(s, s', at, ev, world, i, written)
      decreases Dirty(s'.lru), |s'.lru| - i
    {
      if s'.lru[i].dirty {
        s', ev, i, written := FlushTurn(s, s', at, ev, world, i, written);
      } else {
        i := i + 1;
      }
    }
    SeesSame(s, s');
    AllTried(s.lru, s'.lru, ev, written);
    if SavedIn(ev) == DirtyKeys(s.lru) {
      NoDirtyKeys(s'.lru);
      AllClean(s');
    }
  }

  lemma AllTried(before: seq<Entry>, after: seq<Entry>, ev: Log, written: nat)
    requires Flushed(before, after, ev, written)
    requires forall j {:trigger after[j]} | 0 <= j < |after| && after[j].dirty :: after[j].key in TriedIn(ev)
    ensures TriedIn(ev) == DirtyKeys(before)
  {
    forall k | k in DirtyKeys(before)
      ensures k in TriedIn(ev)
    {
      if k in SavedIn(ev) {
        var e :| e in ev && e.Back? && e.ok && e.key == k;
      } else {
        assert k in DirtyKeys(after);
      }
    }
  }

  lemma NoDirtyKeys(lru: seq<Entry>)
    requires DirtyKeys(lru) == {}
    ensures forall i {:trigger lru[i]} | 0 <= i < |lru| :: !lru[i].dirty
  {
    forall i | 0 <= i < |lru|
      ensures !lru[i].dirty
    {
      assert lru[i].key !in DirtyKeys(lru);
    }
  }

  /** The last attempt to write back an entry that is dirty after a flush failed. */
  lemma DirtyAfterFlush(before: seq<Entry>, after: seq<Entry>, ev: Log, written: nat, k: Key)
    requires Flushed(before, after, ev, written) && TriedIn(ev) == DirtyKeys(before) && k in DirtyKeys(after)
    ensures exists p :: 0 <= p < |ev| && ev[p] == Back(k, false) && forall q | p < q < |ev| :: ev[q].key != k
  {
    assert k in TriedIn(ev) && k !in SavedIn(ev);
    var e :| e in ev && e.Back? && e.key == k;
    var p := LastOf(ev, k);
    assert ev[p] in ev;
  }

  /** The last position of an event of the key. */
  function LastOf(ev: Log, k: Key): (p: nat)
    requires exists e :: e in ev && e.key == k
    ensures p < |ev| && ev[p].key == k && forall q | p < q < |ev| :: ev[q].key != k
  {
    if ev[|ev| - 1].key == k then |ev| - 1
    else
      assert forall e | e in ev && e.key == k :: e in ev[..|ev| - 1];
      LastOf(ev[..|ev| - 1], k)
  }

  lemma SeesSame(s: State, s': State)
    requires Steady(s, s', {}, {})
    ensures forall k :: Sees(s', k) == Sees(s, k)
  {
  }

  /** When every entry is clean the device holds all that is seen. */
  lemma AllClean(s: State)
    requires Ok(s, {}) && forall i {:trigger s.lru[i]} | 0 <= i < |s.lru| :: !s.lru[i].dirty
    ensures Transparent(s.lru, s.disk) && forall k :: At(s.disk, k) == Sees(s, k)
  {
    forall k
      ensures At(s.disk, k) == Sees(s, k)
    {
      TransparentSees(s, k);
    }
  }
}
