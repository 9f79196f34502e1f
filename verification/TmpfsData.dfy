/** The contents of a tmpfs file: a growable buffer (fs/tmpfs.c). */
module TmpfsData {
  newtype byte = x: int | 0 <= x < 256

  /** size bytes of the buffer are the contents; the buffer's length is the capacity. */
  datatype Body = Body(size: nat, buffer: seq<byte>)

  const EMPTY := Body(0, [])

  /** The capacities that doubling from 64 gives before a 32-bit count wraps. */
  predicate IsCapacity(c: nat) {
    c == 0 || IsPower(c)
  }

  predicate IsPower(c: nat) {
    c == 64 || (c > 64 && c % 2 == 0 && IsPower(c / 2))
  }

  predicate IsBody(b: Body) {
    b.size <= |b.buffer| && IsCapacity(|b.buffer|) && |b.buffer| <= MAX_CAPACITY
  }

  const MAX_CAPACITY := 0x8000_0000
  const WRAP := 0x1_0000_0000

  function Contents(b: Body): (s: seq<byte>)
    requires b.size <= |b.buffer|
  {
    b.buffer[..b.size]
  }

  lemma SliceOfPrefix(s: seq<byte>, n: nat, i: nat, j: nat)
    requires i <= j <= n <= |s|
    ensures s[..n][i..j] == s[i..j]
  {
  }

  /** A power of two times 64 that is below 2 to the 31st can be doubled without passing it. */
  lemma {:induction false} PowerGap(c: nat, d: nat)
    requires IsPower(c) && IsPower(d) && c < d
    ensures 2 * c <= d
  {
    if c > 64 && d > 64 {
      PowerGap(c / 2, d / 2);
    } else if d > 64 {
      PowerAtLeast(d / 2);
    }
  }

  lemma {:induction false} PowerAtLeast(c: nat)
    requires IsPower(c)
    ensures c >= 64
  {
  }

  lemma MaxIsPower()
    ensures IsPower(MAX_CAPACITY)
  {
    assert IsPower(64) && IsPower(128) && IsPower(256) && IsPower(512) && IsPower(1024) && IsPower(2048);
    assert IsPower(4096) && IsPower(8192) && IsPower(16384) && IsPower(32768) && IsPower(65536);
    assert IsPower(0x2_0000) && IsPower(0x4_0000) && IsPower(0x8_0000) && IsPower(0x10_0000) && IsPower(0x20_0000);
    assert IsPower(0x40_0000) && IsPower(0x80_0000) && IsPower(0x100_0000) && IsPower(0x200_0000) && IsPower(0x400_0000);
    assert IsPower(0x800_0000) && IsPower(0x1000_0000) && IsPower(0x2000_0000) && IsPower(0x4000_0000);
  }

  lemma Twice(c: nat)
    requires IsPower(c) && c < MAX_CAPACITY
    ensures c >= 64 && c * 2 <= MAX_CAPACITY && IsPower(c * 2) && c * 2 % WRAP == c * 2
  {
    MaxIsPower();
    PowerGap(c, MAX_CAPACITY);
    PowerAtLeast(c);
  }

  lemma DoubleOnce(c: nat)
    requires IsPower(c) && c <= MAX_CAPACITY
    ensures c >= 64 && c * 2 % WRAP == if c == MAX_CAPACITY then 0 else c * 2
    ensures c < MAX_CAPACITY ==> IsPower(c * 2) && c * 2 <= MAX_CAPACITY
  {
    if c < MAX_CAPACITY {
      Twice(c);
    }
  }

  /** The capacity after k doublings on 32-bit words. */
  function Doubled(c: nat, k: nat): nat {
    if k == 0 then c else Doubled(c, k - 1) * 2 % WRAP
  }

  /** Doubling gives powers up to 2 to the 31st, and then zero for ever. */
  lemma {:induction false} DoublingStays(c: nat, k: nat)
    requires IsPower(c) && c <= MAX_CAPACITY
    ensures Doubled(c, k) == 0 || (IsPower(Doubled(c, k)) && Doubled(c, k) <= MAX_CAPACITY)
  {
    if k > 0 {
      DoublingStays(c, k - 1);
      var d := Doubled(c, k - 1);
      if d != 0 {
        DoubleOnce(d);
      }
    }
  }

  lemma {:induction false} DoubledTwice(c: nat, k: nat)
    requires c * 2 < WRAP
    ensures Doubled(c * 2, k) == Doubled(c, k + 1)
  {
    if k > 0 {
      DoubledTwice(c, k - 1);
    }
  }

  /** How often to double to get to 2 to the 31st. */
  lemma {:induction false} DoublingReaches(c: nat) returns (k: nat)
    requires IsPower(c) && c <= MAX_CAPACITY
    ensures Doubled(c, k) == MAX_CAPACITY
    decreases MAX_CAPACITY - c
  {
    k := 0;
    if c < MAX_CAPACITY {
      Twice(c);
      k := DoublingReaches(c * 2);
      DoubledTwice(c, k);
      k := k + 1;
    }
  }

  /** The doubling loop of node_reserve ends exactly for requests of at most 2 to the 31st bytes: for a larger one the
      count wraps to zero and stays there. */
  lemma DoublingEndsIff(c: nat, need: nat)
    requires IsPower(c) && c <= MAX_CAPACITY
    ensures (exists k: nat :: Doubled(c, k) >= need) <==> need <= MAX_CAPACITY
  {
    if need <= MAX_CAPACITY {
      var k := DoublingReaches(c);
      assert Doubled(c, k) >= need;
    } else {
      forall k: nat
        ensures Doubled(c, k) < need
      {
        DoublingStays(c, k);
      }
    }
  }

  /** How a call on a file ends: as meant, refused, never, or outside the buffer. */
  datatype Outcome = Done | Refused | Stalls | Overruns

  /** A word of the machine. */
  type Word = x: int | 0 <= x < WRAP

  /** How many heap blocks a body holds. */
  function Held(b: Body): nat {
    if b.buffer == [] then 0 else 1
  }

  /** The doubling loop of node_reserve; a count of zero is one that never grows again. */
  method Grown(start: nat, need: nat) returns (capacity: nat)
    requires IsPower(start) && start <= MAX_CAPACITY
    ensures if need <= MAX_CAPACITY then need <= capacity <= MAX_CAPACITY && IsPower(capacity) else capacity == 0
    ensures exists k: nat :: Doubled(start, k) == capacity
  {
    capacity := start;
    MaxIsPower();
    ghost var k := 0;
    while capacity < need && capacity != 0
      invariant capacity == Doubled(start, k) && capacity <= MAX_CAPACITY
      invariant capacity == 0 || IsPower(capacity)
      invariant capacity == 0 ==> need > MAX_CAPACITY
      decreases if capacity == 0 then 0 else 1 + MAX_CAPACITY - capacity
    {
      DoubleOnce(capacity);
      capacity := capacity * 2 % WRAP;
      k := k + 1;
    }
  }

  /** node_reserve: room for at least need bytes; the contents stay, what lies behind them may be anything. heap counts
      the allocated blocks: growing a file that has a buffer but no contents loses the old block. */
  method Reserve(b: Body, need: Word, memory: bool, ghost heap: nat) returns (r: Body, result: Outcome, ghost heap': nat)
    requires IsBody(b) && Held(b) <= heap
    ensures IsBody(r) && r.size == b.size && Contents(r) == Contents(b)
    ensures result == if need <= |b.buffer| then Done else if need > MAX_CAPACITY then Stalls else if memory then Done else Refused
    ensures if result == Done then need <= |r.buffer| else r == b
    ensures need <= |b.buffer| ==> r == b
    ensures Held(r) <= heap'
    ensures heap' - Held(r) == heap - Held(b) <==> !(result == Done && b.buffer != [] && b.size == 0 && need > |b.buffer|)
  {
    r, result, heap' := b, Done, heap;
    if need > |b.buffer| {
      var capacity := Grown(if |b.buffer| > 0 then |b.buffer| else 64, need);
      if capacity < need {
        result := Stalls;
      } else if !memory {
        result := Refused;
      } else {
        var block := Kalloc(capacity);
        heap' := heap' + 1;
        if b.buffer != [] && b.size > 0 {
          block := b.buffer[..b.size] + block[b.size..];
          heap' := heap' - 1;
        }
        r := Body(b.size, block);
        assert Contents(r) == Contents(b);
      }
    }
  }

  /** A fresh block holds arbitrary bytes. */
  method Kalloc(n: nat) returns (block: seq<byte>)
    ensures |block| == n
  {
    var b: byte := *;
    block := seq(n, _ => b);
    var i := 0;
    while i < n
      invariant |block| == n
    {
      var x: byte := *;
      block := block[i := x];
      i := i + 1;
    }
  }

  /** The contents after count bytes were written at an offset, given what fills a gap behind the old contents. */
  function Overwritten(s: seq<byte>, gap: seq<byte>, offset: nat, data: seq<byte>): (r: seq<byte>)
    requires |gap| == if offset > |s| then offset - |s| else 0
  {
    if offset > |s| then s + gap + data
    else s[..offset] + data + (if offset + |data| < |s| then s[offset + |data|..] else [])
  }

  /** How a write of n bytes ends; memory says whether a larger buffer can be had. */
  function WriteOutcome(b: Body, offset: Word, n: Word, memory: bool): Outcome {
    var need := (offset + n) % WRAP;
    if need > |b.buffer| && need > MAX_CAPACITY then Stalls
    else if need > |b.buffer| && !memory then Refused
    else if offset + n >= WRAP then Overruns
    else Done
  }

  /** A write does what it should exactly if it ends at or below 2 to the 31st and there is room for it. */
  lemma WriteIsDoneIff(b: Body, offset: Word, n: Word, memory: bool)
    requires IsBody(b)
    ensures WriteOutcome(b, offset, n, memory) == Done <==> offset + n <= MAX_CAPACITY && (offset + n <= |b.buffer| || memory)
    ensures WriteOutcome(b, offset, n, memory) == Stalls <==> (offset + n) % WRAP > MAX_CAPACITY
    ensures WriteOutcome(b, offset, n, memory) == Refused <==> !memory && |b.buffer| < (offset + n) % WRAP <= MAX_CAPACITY
  {
  }

  /** The write path of tmpfs_write. Bytes between the old end and the offset are whatever the buffer held. */
  method Write(b: Body, offset: Word, data: seq<byte>, memory: bool) returns (r: Body, result: Outcome)
    requires IsBody(b) && data != [] && |data| < WRAP
    ensures IsBody(r)
    ensures result == WriteOutcome(b, offset, |data|, memory) && (result != Done ==> r == b)
    ensures result == Done ==> offset <= |r.buffer| && r.size == (if offset + |data| > b.size then offset + |data| else b.size)
    ensures result == Done ==>
              Contents(r) == Overwritten(Contents(b), if offset > b.size then r.buffer[b.size..offset] else [], offset, data)
    ensures result == Done && b.size < offset && offset + |data| <= |b.buffer| ==> r.buffer[b.size..offset] == b.buffer[b.size..offset]
  {
    ghost var heap;
    r, result, heap := Reserve(b, (offset + |data|) % WRAP, memory, Held(b));
    if result == Done {
      var end := offset + |data|;
      if end > |r.buffer| {
        // The sum wrapped to a small number, and the copy would leave the buffer.
        r, result := b, Overruns;
      } else {
        ghost var grown := r;
        r := Body(r.size, r.buffer[..offset] + data + r.buffer[end..]);
        if end > r.size {
          r := r.(size := end);
        }
        WriteContents(b, grown, offset, data, r);
      }
    }
  }

  lemma WriteContents(b: Body, g: Body, offset: nat, data: seq<byte>, r: Body)
    requires IsBody(b) && IsBody(g) && g.size == b.size && Contents(g) == Contents(b) && offset + |data| <= |g.buffer|
    requires r == Body(if offset + |data| > b.size then offset + |data| else b.size,
                       g.buffer[..offset] + data + g.buffer[offset + |data|..])
    ensures IsBody(r)
    ensures Contents(r) == Overwritten(Contents(b), if offset > b.size then r.buffer[b.size..offset] else [], offset, data)
    ensures b.size < offset ==> r.buffer[b.size..offset] == g.buffer[b.size..offset]
  {
    assert |r.buffer| == |g.buffer|;
    var s := Contents(b);
    assert s == g.buffer[..b.size];
    var end := offset + |data|;
    if offset > b.size {
      assert r.buffer[..offset] == g.buffer[..offset];
      assert Contents(r) == r.buffer[..b.size] + r.buffer[b.size..offset] + data;
    } else {
      assert g.buffer[..offset] == s[..offset];
      if end < b.size {
        assert r.buffer[end..] == g.buffer[end..];
        SliceOfPrefix(g.buffer, b.size, end, b.size);
        SliceOfPrefix(r.buffer, b.size, end, b.size);
        assert Contents(r) == r.buffer[..end] + s[end..];
      }
    }
  }

  /** The sum of offset and count wraps to a number within the contents, so that the count is not cut. */
  predicate ReadWraps(size: nat, offset: Word, count: Word) {
    offset < size && offset + count >= WRAP && (offset + count) % WRAP <= size
  }

  /** tmpfs_read: the bytes from the offset to the end, at most count; it leaves the buffer exactly if the sum wraps. */
  method Read(b: Body, offset: Word, count: Word) returns (data: seq<byte>, result: Outcome)
    requires IsBody(b)
    ensures result == if offset < b.size && offset + count >= WRAP && (offset + count) % WRAP <= b.size then Overruns else Done
    ensures var s := Contents(b);
            data == if result == Overruns || offset >= |s| then [] else s[offset..if offset + count > |s| then |s| else offset + count]
  {
    data, result := [], Done;
    if offset < b.size {
      var r := count;
      if (offset + r) % WRAP > b.size {
        r := b.size - offset;
      }
      if offset + r > b.size {
        result := Overruns;
      } else {
        data := b.buffer[offset..offset + r];
        SliceOfPrefix(b.buffer, b.size, offset, offset + r);
      }
    }
  }

  function Zeros(n: nat): (s: seq<byte>)
    ensures |s| == n && forall b | b in s :: b == 0
  {
    seq(n, _ => 0)
  }

  /** tmpfs_truncate: shorter, or longer with zero bytes; for a length above 2 to the 31st it never ends. */
  method Truncate(b: Body, length: Word, memory: bool) returns (r: Body, result: Outcome)
    requires IsBody(b)
    ensures IsBody(r)
    ensures result == if length <= |b.buffer| then Done else if length > MAX_CAPACITY then Stalls else if memory then Done else Refused
    ensures if result != Done then r == b
            else Contents(r) == if length <= b.size then Contents(b)[..length] else Contents(b) + Zeros(length - b.size)
  {
    r, result := b, Done;
    if length > b.size {
      ghost var heap;
      r, result, heap := Reserve(b, length, memory, Held(b));
      if result == Done {
        r := Body(r.size, r.buffer[..r.size] + Zeros(length - r.size) + r.buffer[length..]);
      }
    }
    if result == Done {
      r := r.(size := length);
    }
  }

  /** What was written is read back, and nothing else changed before the old end. */
  lemma WriteThenRead(s: seq<byte>, gap: seq<byte>, offset: nat, data: seq<byte>)
    requires |gap| == if offset > |s| then offset - |s| else 0
    ensures var r := Overwritten(s, gap, offset, data);
            && |r| == (if offset + |data| > |s| then offset + |data| else |s|) && r[offset..offset + |data|] == data
            && (forall i | 0 <= i < |s| && (i < offset || offset + |data| <= i) :: r[i] == s[i])
  {
  }
}
