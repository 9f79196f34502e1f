/** The LRU list of the block cache as a sequence, and what a client sees through it (driver/block/cache.c). */
module CacheList {
  import opened Lists
  import opened CacheLog

  newtype byte = x: int | 0 <= x < 256

  type Block = seq<byte>

  datatype Entry = Entry(key: Key, data: Block, dirty: bool)

  /** Sectors by key; those never written hold the empty block. */
  type Disk = map<Key, Block>

  function At(disk: Disk, k: Key): Block {
    if k in disk then disk[k] else []
  }

  ghost predicate Distinct(lru: seq<Entry>) {
    forall i, j {:trigger lru[i], lru[j]} | 0 <= i < j < |lru| :: lru[i].key != lru[j].key
  }

  function KeysOf(lru: seq<Entry>): seq<Key> {
    seq(|lru|, i requires 0 <= i < |lru| => lru[i].key)
  }

  /** No entry but those of the given keys is clean and different from its sector. */
  ghost predicate Coherent(lru: seq<Entry>, disk: Disk, except: set<Key>) {
    forall i {:trigger lru[i]} | 0 <= i < |lru| && !lru[i].dirty && lru[i].key !in except :: lru[i].data == At(disk, lru[i].key)
  }

  /** Every entry has the contents of its sector. */
  ghost predicate Transparent(lru: seq<Entry>, disk: Disk) {
    forall i {:trigger lru[i]} | 0 <= i < |lru| :: lru[i].data == At(disk, lru[i].key)
  }

  /** The position of a key in the list, or -1. */
  function Position(lru: seq<Entry>, k: Key): (i: int)
    ensures -1 <= i < |lru|
    ensures i >= 0 ==> lru[i].key == k
    ensures i == -1 <==> forall j | 0 <= j < |lru| :: lru[j].key != k
  {
    if lru == [] then -1
    else if lru[0].key == k then 0
    else
      var r := Position(lru[1..], k);
      assert forall j | 1 <= j < |lru| :: lru[j] == lru[1..][j - 1];
      if r == -1 then -1 else r + 1
  }

  /** What a client sees: the cached block, or else the sector. */
  ghost function Seen(lru: seq<Entry>, disk: Disk, k: Key): Block {
    if Position(lru, k) >= 0 then lru[Position(lru, k)].data else At(disk, k)
  }

  /** list_move of entry i, possibly changed, to the head. */
  function Promoted(lru: seq<Entry>, i: nat, e: Entry): (r: seq<Entry>)
    requires i < |lru|
    ensures |r| == |lru| && r[0] == e
    ensures forall j | 0 < j <= i :: r[j] == lru[j - 1]
    ensures forall j | i < j < |r| :: r[j] == lru[j]
  {
    [e] + lru[..i] + lru[i + 1..]
  }

  /** list_del */
  function Deleted(lru: seq<Entry>, i: nat): (r: seq<Entry>)
    requires i < |lru|
    ensures |r| == |lru| - 1
    ensures forall j | 0 <= j < i :: r[j] == lru[j]
    ensures forall j | i <= j < |r| :: r[j] == lru[j + 1]
  {
    lru[..i] + lru[i + 1..]
  }

  lemma DeletedAfterPromote(lru: seq<Entry>, i: nat, e: Entry)
    requires i < |lru|
    ensures Deleted(Promoted(lru, i, e), 0) == Deleted(lru, i)
  {
  }

  /** A key has one position. */
  lemma PositionIs(lru: seq<Entry>, i: nat)
    requires Distinct(lru) && i < |lru|
    ensures Position(lru, lru[i].key) == i
  {
    var p := Position(lru, lru[i].key);
    assert lru[p].key == lru[i].key;
  }

  lemma KeysDiffer(lru: seq<Entry>, i: nat, j: nat)
    requires Distinct(lru) && i < |lru| && j < |lru| && i != j
    ensures lru[i].key != lru[j].key
  {
  }

  lemma KeysWithout(lru: seq<Entry>, i: nat)
    requires Distinct(lru) && i < |lru|
    ensures Without(KeysOf(lru), lru[i].key) == KeysOf(lru)[..i] + KeysOf(lru)[i + 1..]
  {
    assert NoDuplicates(KeysOf(lru));
    WithoutAt(KeysOf(lru), i);
  }

  lemma PromotedDistinct(lru: seq<Entry>, i: nat, e: Entry)
    requires Distinct(lru) && i < |lru| && e.key == lru[i].key
    ensures Distinct(Promoted(lru, i, e))
  {
    var r := Promoted(lru, i, e);
    forall j | 0 < j < |r|
      ensures r[j].key != e.key
    {
      KeysDiffer(lru, i, if j <= i then j - 1 else j);
    }
  }

  /** Moving an entry to the head follows its use. */
  lemma PromoteKeepsOrder(lru: seq<Entry>, i: nat, e: Entry, ev: Event)
    requires Distinct(lru) && i < |lru| && e.key == lru[i].key && Promotes(ev) && ev.key == e.key
    ensures Leads(KeysOf(lru), [ev], KeysOf(Promoted(lru, i, e)))
  {
    LeadsStep(KeysOf(lru), ev);
    KeysWithout(lru, i);
    var keys := KeysOf(lru);
    assert KeysOf(Promoted(lru, i, e)) == [e.key] + (keys[..i] + keys[i + 1..]);
  }

  lemma DeletedDistinct(lru: seq<Entry>, i: nat)
    requires Distinct(lru) && i < |lru|
    ensures Distinct(Deleted(lru, i))
  {
  }

  /** An entry leaves; it may be evicted only from the end. */
  lemma DeleteKeepsOrder(lru: seq<Entry>, i: nat, ev: Event)
    requires Distinct(lru) && i < |lru| && Removes(ev) && ev.key == lru[i].key && (ev.Evict? ==> i == |lru| - 1)
    ensures Leads(KeysOf(lru), [ev], KeysOf(Deleted(lru, i)))
  {
    LeadsStep(KeysOf(lru), ev);
    KeysWithout(lru, i);
    var keys := KeysOf(lru);
    assert KeysOf(Deleted(lru, i)) == keys[..i] + keys[i + 1..];
  }

  /** A new entry at the head. */
  lemma PushKeepsOrder(lru: seq<Entry>, e: Entry, ev: Event)
    requires Position(lru, e.key) == -1 && Promotes(ev) && ev.key == e.key
    ensures Leads(KeysOf(lru), [ev], KeysOf([e] + lru))
  {
    LeadsStep(KeysOf(lru), ev);
    NewKey(lru, e);
    WithoutFacts(KeysOf(lru), e.key);
  }

  lemma NewKey(lru: seq<Entry>, e: Entry)
    requires Position(lru, e.key) == -1
    ensures e.key !in KeysOf(lru) && KeysOf([e] + lru) == [e.key] + KeysOf(lru)
  {
  }

  /** What neither promotes nor removes leaves the order as it is. */
  lemma OtherKeepsOrder(lru: seq<Entry>, ev: Event)
    requires !Promotes(ev) && !Removes(ev)
    ensures Leads(KeysOf(lru), [ev], KeysOf(lru))
  {
    LeadsStep(KeysOf(lru), ev);
  }

  /** Promoting changes what is seen at the promoted key only. */
  lemma SeenAfterPromote(lru: seq<Entry>, disk: Disk, i: nat, e: Entry, k: Key)
    requires Distinct(lru) && i < |lru| && e.key == lru[i].key
    ensures Seen(Promoted(lru, i, e), disk, k) == if k == e.key then e.data else Seen(lru, disk, k)
  {
    var r := Promoted(lru, i, e);
    PromotedDistinct(lru, i, e);
    var p := Position(lru, k);
    if k == e.key {
      PositionIs(r, 0);
    } else if p >= 0 {
      var q := if p < i then p + 1 else p;
      assert r[q] == lru[p];
      PositionIs(r, q);
    } else {
      forall j | 0 <= j < |r|
        ensures r[j].key != k
      {
        assert j > 0 ==> r[j] == lru[if j <= i then j - 1 else j];
      }
    }
  }

  lemma SeenAfterDelete(lru: seq<Entry>, disk: Disk, i: nat, k: Key)
    requires Distinct(lru) && i < |lru|
    ensures Seen(Deleted(lru, i), disk, k) == if k == lru[i].key then At(disk, k) else Seen(lru, disk, k)
  {
    var r := Deleted(lru, i);
    DeletedDistinct(lru, i);
    var p := Position(lru, k);
    if k != lru[i].key && p >= 0 {
      var q := if p < i then p else p - 1;
      assert r[q] == lru[p];
      PositionIs(r, q);
    } else {
      forall j | 0 <= j < |r|
        ensures r[j].key != k
      {
        var l := if j < i then j else j + 1;
        assert r[j] == lru[l];
        if k == lru[i].key {
          KeysDiffer(lru, i, l);
        }
      }
    }
  }

  lemma PositionAfterPush(lru: seq<Entry>, e: Entry, k: Key)
    ensures Position([e] + lru, k) == if k == e.key then 0 else if Position(lru, k) == -1 then -1 else Position(lru, k) + 1
  {
    assert ([e] + lru)[1..] == lru;
  }

  lemma SeenAfterPush(lru: seq<Entry>, disk: Disk, e: Entry, k: Key)
    ensures Seen([e] + lru, disk, k) == if k == e.key then e.data else Seen(lru, disk, k)
  {
    PositionAfterPush(lru, e, k);
  }
}
