/** The ring buffer of an anonymous pipe and its two wait queues (fs/pipe.c, kernel/sched.c). */
module PipeBuffer {
  import opened Lists

  newtype byte = x: int | 0 <= x < 256

  const PIPE_SIZE := 4096

  type Task = nat

  /** How a run of a blocking call ends: it returns, the other side is closed, or the task sleeps. */
  datatype Outcome = Done | Broken | Asleep

  function Min(a: nat, b: nat): nat { if a < b then a else b }

  /** The n bytes of a ring from a position on. */
  ghost function Ring(buf: seq<byte>, from: nat, n: nat): (s: seq<byte>)
    requires |buf| == PIPE_SIZE
    ensures |s| == n
  {
    seq(n, i requires 0 <= i < n => buf[(from + i) % PIPE_SIZE])
  }

  /** Dropping k bytes from the front moves the start. */
  lemma RingDrop(buf: seq<byte>, from: nat, n: nat, k: nat)
    requires |buf| == PIPE_SIZE && k <= n
    ensures Ring(buf, from, n)[..k] == Ring(buf, from, k)
    ensures Ring(buf, from, n)[k..] == Ring(buf, (from + k) % PIPE_SIZE, n - k)
  {
    forall i | 0 <= i < n - k
      ensures Ring(buf, from, n)[k..][i] == Ring(buf, (from + k) % PIPE_SIZE, n - k)[i]
    {
      ModAdd(from + k, i);
    }
  }

  lemma ModAdd(a: nat, b: nat)
    ensures (a % PIPE_SIZE + b) % PIPE_SIZE == (a + b) % PIPE_SIZE
  {
  }

  /** Positions less than the size apart are different slots. */
  lemma ModDiffers(from: nat, i: nat, j: nat)
    requires i < j < i + PIPE_SIZE
    ensures (from + i) % PIPE_SIZE != (from + j) % PIPE_SIZE
  {
  }

  /** Storing one more byte behind the n bytes of the ring. */
  lemma RingPush(buf: seq<byte>, from: nat, n: nat, b: byte)
    requires |buf| == PIPE_SIZE && n < PIPE_SIZE
    ensures Ring(buf[(from + n) % PIPE_SIZE := b], from, n + 1) == Ring(buf, from, n) + [b]
  {
    var buf' := buf[(from + n) % PIPE_SIZE := b];
    forall i | 0 <= i < n
      ensures Ring(buf', from, n + 1)[i] == Ring(buf, from, n)[i]
    {
      ModDiffers(from, i, n);
    }
  }

  class Pipe {
    const buf: array<byte>
    var head: nat
    var tail: nat
    var count: nat
    var readers: nat
    var writers: nat
    var readWq: seq<Task>
    var writeWq: seq<Task>
    /** All bytes ever written and read, in order. */
    ghost var written: seq<byte>
    ghost var taken: seq<byte>

    /** The bytes in the pipe. */
    ghost function Contents(): seq<byte>
      requires buf.Length == PIPE_SIZE
      reads this, buf
    {
      Ring(buf[..], tail, count)
    }

    /** What was read and what is buffered is what was written. A reader sleeps only while the pipe is empty with
        writers open, a writer only while it is full with readers open: no wakeup was missed. */
    ghost predicate Valid()
      reads this, buf
    {
      && buf.Length == PIPE_SIZE && head < PIPE_SIZE && tail < PIPE_SIZE && count <= PIPE_SIZE
      && head == (tail + count) % PIPE_SIZE
      && written == taken + Contents()
      && (readWq != [] ==> count == 0 && writers > 0)
      && (writeWq != [] ==> count == PIPE_SIZE && readers > 0)
    }

    /** pipe_create */
    constructor ()
      ensures Valid() && fresh(buf) && readers == 1 && writers == 1 && count == 0
      ensures readWq == [] && writeWq == [] && written == [] && taken == []
    {
      buf := new byte[PIPE_SIZE];
      head, tail, count, readers, writers := 0, 0, 0, 1, 1;
      readWq, writeWq, written, taken := [], [], [], [];
    }

    /** The copy loop of a read. */
    method CopyOut(take: nat) returns (data: seq<byte>)
      requires buf.Length == PIPE_SIZE && take <= count
      ensures data == Contents()[..take]
    {
      data := [];
      RingDrop(buf[..], tail, count, take);
      for i := 0 to take
        invariant data == Ring(buf[..], tail, i)
      {
        data := data + [buf[(tail + i) % PIPE_SIZE]];
      }
    }

    /** The copy loop of a write. */
    method CopyIn(data: seq<byte>)
      requires buf.Length == PIPE_SIZE && count + |data| <= PIPE_SIZE && head == (tail + count) % PIPE_SIZE
      modifies buf
      ensures Ring(buf[..], tail, count + |data|) == old(Contents()) + data
    {
      for i := 0 to |data|
        invariant Ring(buf[..], tail, count + i) == old(Contents()) + data[..i]
      {
        ModAdd(tail + count, i);
        RingPush(buf[..], tail, count + i, data[i]);
        ghost var before := buf[..];
        buf[(head + i) % PIPE_SIZE] := data[i];
        assert buf[..] == before[(head + i) % PIPE_SIZE := data[i]];
        assert data[..i + 1] == data[..i] + [data[i]];
      }
    }

    /** Take bytes from the front and wake the writers. */
    method Take(take: nat) returns (data: seq<byte>)
      requires Valid() && take <= count
      modifies this`tail, this`count, this`taken, this`writeWq
      ensures Valid() && data == old(Contents())[..take] && Contents() == old(Contents())[take..]
      ensures taken == old(taken) + data && count == old(count) - take && writeWq == []
    {
      data := CopyOut(take);
      RingDrop(buf[..], tail, count, take);
      ModAdd(tail + take, count - take);
      tail := (tail + take) % PIPE_SIZE;
      count := count - take;
      taken := taken + data;
      writeWq := [];
    }

    /** Put bytes at the end and wake the readers. */
    method Put(data: seq<byte>)
      requires Valid() && count + |data| <= PIPE_SIZE
      modifies buf, this`head, this`count, this`written, this`readWq
      ensures Valid() && Contents() == old(Contents()) + data
      ensures written == old(written) + data && count == old(count) + |data| && readWq == []
    {
      CopyIn(data);
      ModAdd(tail + count, |data|);
      head := (head + |data|) % PIPE_SIZE;
      count := count + |data|;
      written := written + data;
      readWq := [];
    }

    /** pipe_read by task t of want bytes, up to its return or its next sleep: it delivers what is there, in order,
        and sleeps exactly when that is not enough and a writer is left. */
    method Read(t: Task, want: nat) returns (data: seq<byte>, outcome: Outcome)
      requires Valid()
      modifies this`tail, this`count, this`taken, this`readWq, this`writeWq
      ensures Valid()
      ensures data == old(Contents())[..Min(want, old(count))] && Contents() == old(Contents())[|data|..]
      ensures taken == old(taken) + data
      ensures outcome == if |data| == want then Done else if writers == 0 then Broken else Asleep
      ensures readWq == if outcome == Asleep then old(readWq) + [t] else old(readWq)
      ensures writeWq == if data == [] then old(writeWq) else []
    {
      data, outcome := [], Done;
      while |data| < want && outcome == Done
        invariant Valid() && |data| <= want && |data| <= old(count)
        invariant data == old(Contents())[..|data|] && Contents() == old(Contents())[|data|..] && taken == old(taken) + data
        invariant data != [] ==> |data| == Min(want, old(count)) && writeWq == []
        invariant data == [] ==> writeWq == old(writeWq)
        invariant outcome != Done ==> |data| == old(count) < want && outcome == if writers == 0 then Broken else Asleep
        invariant readWq == if outcome == Asleep then old(readWq) + [t] else old(readWq)
        decreases outcome == Done, want - |data|
      {
        if count > 0 {
          var more := Take(Min(count, want - |data|));
          data := data + more;
        } else if writers == 0 {
          outcome := Broken;
        } else {
          outcome := Asleep;
          readWq := readWq + [t];
        }
      }
    }

    /** The body of the loop of pipe_write when there is room. */
    method PutSome(data: seq<byte>, n: nat) returns (m: nat)
      requires Valid() && n < |data| && count < PIPE_SIZE && readers > 0
      modifies buf, this`head, this`count, this`written, this`readWq
      ensures Valid() && m == n + Min(|data| - n, PIPE_SIZE - old(count)) && count == old(count) + (m - n)
      ensures Contents() == old(Contents()) + data[n..m] && written == old(written) + data[n..m] && readWq == []
      ensures data[..m] == data[..n] + data[n..m]
    {
      var put := Min(|data| - n, PIPE_SIZE - count);
      Put(data[n..n + put]);
      m := n + put;
    }

    /** pipe_write by task t, up to its return or its next sleep: n bytes went in. */
    method Write(t: Task, data: seq<byte>) returns (n: nat, outcome: Outcome)
      requires Valid()
      modifies buf, this`head, this`count, this`written, this`readWq, this`writeWq
      ensures Valid()
      ensures n == if readers == 0 then 0 else Min(|data|, PIPE_SIZE - old(count))
      ensures Contents() == old(Contents()) + data[..n] && written == old(written) + data[..n]
      ensures outcome == if n == |data| then Done else if readers == 0 then Broken else Asleep
      ensures writeWq == if outcome == Asleep then old(writeWq) + [t] else old(writeWq)
      ensures readWq == if n == 0 then old(readWq) else []
    {
      n, outcome := 0, Done;
      while n < |data| && outcome == Done
        invariant Valid() && n <= |data| && n <= PIPE_SIZE - old(count) && count == old(count) + n
        invariant Contents() == old(Contents()) + data[..n] && written == old(written) + data[..n]
        invariant n > 0 ==> readers > 0 && n == Min(|data|, PIPE_SIZE - old(count)) && readWq == []
        invariant n == 0 ==> readWq == old(readWq)
        invariant outcome == Broken ==> readers == 0 && n == 0 < |data|
        invariant outcome == Asleep ==> readers > 0 && n == PIPE_SIZE - old(count) < |data|
        invariant writeWq == if outcome == Asleep then old(writeWq) + [t] else old(writeWq)
        decreases outcome == Done, |data| - n
      {
        if readers == 0 {
          outcome := Broken;
        } else if count < PIPE_SIZE {
          n := PutSome(data, n);
        } else {
          outcome := Asleep;
          writeWq := writeWq + [t];
        }
      }
    }

    /** pipe_read_nonblock: Asleep stands for EAGAIN, Broken for the end of file. */
    method ReadNonblock(want: nat) returns (data: seq<byte>, outcome: Outcome)
      requires Valid()
      modifies this`tail, this`count, this`taken, this`writeWq
      ensures Valid()
      ensures data == old(Contents())[..Min(want, old(count))] && Contents() == old(Contents())[|data|..]
      ensures taken == old(taken) + data
      ensures outcome == if old(count) > 0 then Done else if writers == 0 then Broken else Asleep
      ensures writeWq == if old(count) > 0 then [] else old(writeWq)
    {
      data := [];
      if count > 0 {
        data := Take(Min(count, want));
        outcome := Done;
      } else {
        outcome := if writers == 0 then Broken else Asleep;
      }
    }

    /** pipe_write_nonblock: Asleep stands for EAGAIN, Broken for EPIPE. */
    method WriteNonblock(data: seq<byte>) returns (n: nat, outcome: Outcome)
      requires Valid()
      modifies buf, this`head, this`count, this`written, this`readWq
      ensures Valid()
      ensures outcome == if readers == 0 then Broken else if old(count) == PIPE_SIZE then Asleep else Done
      ensures n == if outcome == Done then Min(|data|, PIPE_SIZE - old(count)) else 0
      ensures Contents() == old(Contents()) + data[..n] && written == old(written) + data[..n]
      ensures readWq == if outcome == Done then [] else old(readWq)
    {
      n, outcome := 0, Done;
      if readers == 0 {
        outcome := Broken;
      } else if PIPE_SIZE - count == 0 {
        outcome := Asleep;
      } else {
        n := Min(|data|, PIPE_SIZE - count);
        Put(data[..n]);
      }
    }

    /** pipe_read_release: the last reader leaving wakes the writers. A freed pipe has no sleepers. */
    method ReleaseRead() returns (freed: bool)
      requires Valid()
      modifies this`readers, this`writeWq
      ensures Valid() && readers == (if old(readers) > 0 then old(readers) - 1 else 0)
      ensures writeWq == if readers == 0 then [] else old(writeWq)
      ensures freed <==> readers == 0 && writers == 0
      ensures freed ==> readWq == [] && writeWq == []
    {
      if readers > 0 {
        readers := readers - 1;
      }
      if readers == 0 {
        writeWq := [];
      }
      freed := readers == 0 && writers == 0;
    }

    /** pipe_write_release: the last writer leaving wakes the readers. A freed pipe has no sleepers. */
    method ReleaseWrite() returns (freed: bool)
      requires Valid()
      modifies this`writers, this`readWq
      ensures Valid() && writers == (if old(writers) > 0 then old(writers) - 1 else 0)
      ensures readWq == if writers == 0 then [] else old(readWq)
      ensures freed <==> readers == 0 && writers == 0
      ensures freed ==> readWq == [] && writeWq == []
    {
      if writers > 0 {
        writers := writers - 1;
      }
      if writers == 0 {
        readWq := [];
      }
      freed := readers == 0 && writers == 0;
    }

    /** A sleeper that runs again without wake_up takes itself off the queue. */
    method Leave(t: Task)
      requires Valid()
      modifies this`readWq, this`writeWq
      ensures Valid() && readWq == Without(old(readWq), t) && writeWq == Without(old(writeWq), t)
    {
      readWq, writeWq := Without(readWq, t), Without(writeWq, t);
    }
  }
}
