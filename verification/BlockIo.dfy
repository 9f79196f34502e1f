/** Runs of block I/O through the cache against a device without one (driver/block/block.c). */
module BlockIo {
  import opened CacheLog
  import opened CacheList
  import opened BlockCache

  /** The uncached device after the first n blocks were written. */
  ghost function PlainWrite(disk: Disk, prim: int, scnd: int, offset: nat, data: seq<Block>, n: nat): Disk
    requires n <= |data|
  {
    if n == 0 then disk
    else PlainWrite(disk, prim, scnd, offset, data, n - 1)[Sector(prim, scnd, offset, n - 1) := data[n - 1]]
  }

  lemma {:induction false} PlainWriteAt(disk: Disk, prim: int, scnd: int, offset: nat, data: seq<Block>, n: nat, k: Key)
    requires n <= |data|
    ensures At(PlainWrite(disk, prim, scnd, offset, data, n), k) == AfterWrite(At(disk, k), k, prim, scnd, offset, data, n)
  {
    if n > 0 {
      PlainWriteAt(disk, prim, scnd, offset, data, n - 1, k);
    }
  }

  datatype Call =
    | ReadCall(prim: int, scnd: int, offset: nat, count: nat)
    | WriteCall(prim: int, scnd: int, offset: nat, data: seq<Block>)
    | SyncCall
    | DropCall(prim: int, scnd: int, offset: nat)

  /** The blocks read, or the number of blocks written. */
  datatype Reply = Reply(out: seq<Block>, n: nat)

  /** The cache, what has happened so far, and the same device without a cache. */
  datatype Instant = Instant(state: State, log: Log, plain: Disk)

  /** The list has the blocks that are held, in the order of their last use; the blocks that were evicted were the least
      recently used; and the device is as it would be without a cache. */
  ghost predicate Sound(i: Instant) {
    && Ok(i.state, {}) && ByLastUse(i.log, KeysOf(i.state.lru)) && EvictsOldest(i.log)
    && Transparent(i.state.lru, i.state.disk) && forall k :: At(i.state.disk, k) == At(i.plain, k)
  }

  /** Blocks were read: those of the device without a cache, in order, up to where the device fails. */
  ghost predicate HasRead(world: World, was: Instant, prim: int, scnd: int, offset: nat, count: nat, out: seq<Block>, now: Instant) {
    && was.log <= now.log && now.plain == was.plain
    && ReadLog(now.log[|was.log|..], |was.log|, world, prim, scnd, offset, count, |out|)
    && forall i | 0 <= i < |out| :: out[i] == At(was.plain, Key(prim, scnd, (offset + i) % WORD))
  }

  /** The first n blocks were written to the device without a cache, up to where the device fails. */
  ghost predicate HasWritten(world: World, was: Instant, prim: int, scnd: int, offset: nat, data: seq<Block>, n: nat, now: Instant) {
    && was.log <= now.log && n <= |data| && now.plain == PlainWrite(was.plain, prim, scnd, offset, data, n)
    && WriteLog(now.log[|was.log|..], |was.log|, world, prim, scnd, offset, |data|, n)
    && (n <= WORD ==> WrittenAt(was.plain, prim, scnd, offset, data, n, now.plain))
  }

  /** Exactly the sectors of the request hold the blocks. */
  ghost predicate WrittenAt(disk: Disk, prim: int, scnd: int, offset: nat, data: seq<Block>, n: nat, disk': Disk)
    requires n <= |data|
  {
    forall k: Key | 0 <= k.offset < WORD ::
      var i := (k.offset - offset) % WORD;
      At(disk', k) == if k.prim == prim && k.scnd == scnd && i < n then data[i] else At(disk, k)
  }

  lemma PlainWriteIs(disk: Disk, prim: int, scnd: int, offset: nat, data: seq<Block>, n: nat)
    requires n <= |data| && n <= WORD
    ensures WrittenAt(disk, prim, scnd, offset, data, n, PlainWrite(disk, prim, scnd, offset, data, n))
  {
    var disk' := PlainWrite(disk, prim, scnd, offset, data, n);
    forall k: Key | 0 <= k.offset < WORD
      ensures var i := (k.offset - offset) % WORD;
              At(disk', k) == if k.prim == prim && k.scnd == scnd && i < n then data[i] else At(disk, k)
    {
      PlainWriteAt(disk, prim, scnd, offset, data, n, k);
    }
  }

  /** What the device without a cache answers to a call, and what the call makes of it. The call uses exactly its blocks,
      in order, and is cut short only when the device fails. */
  ghost predicate Answers(world: World, before: Instant, c: Call, r: Reply, after: Instant) {
    && before.log <= after.log
    && var at, ev := |before.log|, after.log[|before.log|..];
       match c
       case ReadCall(prim, scnd, offset, count) => HasRead(world, before, prim, scnd, offset, count, r.out, after)
       case WriteCall(prim, scnd, offset, data) => HasWritten(world, before, prim, scnd, offset, data, r.n, after)
       case SyncCall =>
         && after.plain == before.plain && Obeys(world, at, ev)
         && Flushed(before.state.lru, after.state.lru, ev, r.n) && TriedIn(ev) == DirtyKeys(before.state.lru)
       case DropCall(prim, scnd, offset) =>
         && after.plain == before.plain && Position(after.state.lru, Key(prim, scnd, offset % WORD)) == -1
         && ev == DropEvents(before.state.lru, Key(prim, scnd, offset % WORD), world(at))
  }

  class CachedDevice {
    const world: World
    var state: State
    /** What has happened so far. */
    var log: Log
    /** The same device without a cache. */
    ghost var plain: Disk

    ghost predicate Valid()
      reads this
    {
      && Ok(state, {}) && Leads([], log, KeysOf(state.lru)) && Transparent(state.lru, state.disk)
      && forall k :: At(state.disk, k) == At(plain, k)
    }

    ghost function Now(): Instant
      reads this
    {
      Instant(state, log, plain)
    }

    /** cache_init */
    constructor (disk: Disk, world: World)
      ensures Valid() && plain == disk && state.disk == disk && log == [] && this.world == world
    {
      state, log, plain := State([], 0, disk), [], disk;
      this.world := world;
      LeadsNowhere([]);
    }

    lemma ValidIsSound()
      requires Valid()
      ensures Sound(Now())
    {
      OrderIsByLastUse(log);
      VictimIsOldest(log);
    }

    /** What has happened now, and the state it leads to. */
    method Commit(s: State, ev: Log, ghost disk: Disk)
      requires Valid() && Moves(state, ev, s) && Ok(s, {}) && Transparent(s.lru, s.disk) && forall k :: At(s.disk, k) == At(disk, k)
      modifies this
      ensures Valid() && Now() == Instant(s, old(log) + ev, disk)
    {
      LeadsConcat([], log, KeysOf(state.lru), ev, KeysOf(s.lru));
      state, log, plain := s, log + ev, disk;
    }

    /** Reading through the cache gives the uncached device's blocks. */
    method Read(prim: int, scnd: int, offset: nat, count: nat) returns (out: seq<Block>)
      requires Valid()
      modifies this
      ensures Valid() && HasRead(world, old(Now()), prim, scnd, offset, count, out, Now())
    {
      var s, ev;
      s, ev, out := Bread(state, |log|, prim, scnd, offset, count, world);
      Commit(s, ev, plain);
      assert log[|old(log)|..] == ev;
    }

    /** Writing through the cache does to the device what writing without it does. */
    method Write(prim: int, scnd: int, offset: nat, data: seq<Block>) returns (n: nat)
      requires Valid()
      modifies this
      ensures Valid() && HasWritten(world, old(Now()), prim, scnd, offset, data, n, Now())
    {
      var s, ev;
      s, ev, n := Bwrite(state, |log|, prim, scnd, offset, data, world);
      forall k
        ensures At(PlainWrite(plain, prim, scnd, offset, data, n), k) == At(s.disk, k)
      {
        PlainWriteAt(plain, prim, scnd, offset, data, n, k);
      }
      if n <= WORD {
        PlainWriteIs(plain, prim, scnd, offset, data, n);
      }
      Commit(s, ev, PlainWrite(plain, prim, scnd, offset, data, n));
      assert log[|old(log)|..] == ev;
    }

    /** sync */
    method Sync() returns (written: nat)
      requires Valid()
      modifies this
      ensures Valid() && Answers(world, old(Now()), SyncCall, Reply([], written), Now())
    {
      var s, ev;
      s, ev, written := Flush(state, |log|, world);
      TransparentStays(state, s, {}, {});
      Commit(s, ev, plain);
      assert log[|old(log)|..] == ev;
    }

    method Drop(prim: int, scnd: int, offset: nat)
      requires Valid()
      modifies this
      ensures Valid() && Answers(world, old(Now()), DropCall(prim, scnd, offset), Reply([], 0), Now())
    {
      var k := Key(prim, scnd, offset % WORD);
      var s, ev := Invalidate(state, |log|, k, world);
      TransparentStays(state, s, {}, LostIn(ev));
      Commit(s, ev, plain);
      assert log[|old(log)|..] == ev;
    }

    method Do(c: Call) returns (r: Reply)
      requires Valid()
      modifies this
      ensures Valid() && Answers(world, old(Now()), c, r, Now())
    {
      match c
      case ReadCall(prim, scnd, offset, count) =>
        var out := Read(prim, scnd, offset, count);
        r := Reply(out, 0);
      case WriteCall(prim, scnd, offset, data) =>
        var n := Write(prim, scnd, offset, data);
        r := Reply([], n);
      case SyncCall =>
        var written := Sync();
        r := Reply([], written);
      case DropCall(prim, scnd, offset) =>
        Drop(prim, scnd, offset);
        r := Reply([], 0);
    }

    /** Any run of calls, by its states: each call is answered as by the device without a cache and uses its blocks; at
        every step the list is in the order of last use, and only least recently used blocks were evicted. */
    method Run(calls: seq<Call>) returns (replies: seq<Reply>, ghost trace: seq<Instant>)
      requires Valid()
      modifies this
      ensures Valid() && |replies| == |calls| && |trace| == |calls| + 1 && trace[0] == old(Now()) && trace[|calls|] == Now()
      ensures forall i {:trigger replies[i]} | 0 <= i < |calls| :: Answers(world, trace[i], calls[i], replies[i], trace[i + 1])
      ensures forall i {:trigger trace[i]} | 0 <= i <= |calls| :: Sound(trace[i])
    {
      replies, trace := [], [Now()];
      ValidIsSound();
      for i := 0 to |calls|
        invariant Valid() && |replies| == i && |trace| == i + 1 && trace[0] == old(Now()) && trace[i] == Now()
        invariant forall j {:trigger replies[j]} | 0 <= j < i :: Answers(world, trace[j], calls[j], replies[j], trace[j + 1])
        invariant forall j {:trigger trace[j]} | 0 <= j <= i :: Sound(trace[j])
      {
        var r := Do(calls[i]);
        ValidIsSound();
        replies, trace := replies + [r], trace + [Now()];
      }
    }
  }
}
