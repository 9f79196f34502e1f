/** Runs of any number of tasks reading and writing one pipe (fs/pipe.c, kernel/sched.c). Kernel paths are not
    interrupted, so what a task does between two sleeps is one step. */
module PipeRuns {
  import opened Lists
  import opened PipeBuffer

  /** A blocking call in progress: what is left to do. */
  datatype Call = ReadCall(want: nat) | WriteCall(data: seq<byte>)

  datatype Step =
    | Start(task: Task, call: Call)
    | Resume(task: Task, pending: bool)
    | Disturb(task: Task)
    | TryRead(count: nat)
    | TryWrite(bytes: seq<byte>)
    | CloseRead
    | CloseWrite

  /** The bytes that the steps of a run delivered, in order. */
  function Joined(parts: seq<seq<byte>>): seq<byte> {
    if parts == [] then [] else Joined(parts[..|parts| - 1]) + parts[|parts| - 1]
  }

  /** The pipe as a queue of bytes, with its ends, its sleepers, and the calls in progress. */
  datatype Queue = Queue(contents: seq<byte>, readers: nat, writers: nat, readWq: seq<Task>, writeWq: seq<Task>, inside: map<Task, Call>)

  /** A step's outcome: the queue after it, the bytes delivered, and the bytes accepted. */
  datatype Result = Result(queue: Queue, data: seq<byte>, sent: seq<byte>)

  /** Task t reads up to its return or its next sleep: whatever is there, and to sleep for the rest while there are
      writers. */
  function Reading(s: Queue, t: Task, want: nat): Result {
    var data := s.contents[..Min(want, |s.contents|)];
    var sleeps := |data| != want && s.writers != 0;
    Result(Queue(s.contents[|data|..], s.readers, s.writers,
                 if sleeps then s.readWq + [t] else s.readWq, if data == [] then s.writeWq else [],
                 if sleeps then s.inside[t := ReadCall(want - |data|)] else s.inside - {t}), data, [])
  }

  /** Task t writes up to its return or its next sleep: as much as fits, and to sleep for the rest while there are
      readers. */
  function Writing(s: Queue, t: Task, bytes: seq<byte>): Result {
    var n := if s.readers == 0 || |s.contents| > PIPE_SIZE then 0 else Min(|bytes|, PIPE_SIZE - |s.contents|);
    var sleeps := n != |bytes| && s.readers != 0;
    Result(Queue(s.contents + bytes[..n], s.readers, s.writers,
                 if n == 0 then s.readWq else [], if sleeps then s.writeWq + [t] else s.writeWq,
                 if sleeps then s.inside[t := WriteCall(bytes[n..])] else s.inside - {t}), [], bytes[..n])
  }

  function Going(s: Queue, t: Task, call: Call): Result {
    match call
    case ReadCall(want) => Reading(s, t, want)
    case WriteCall(bytes) => Writing(s, t, bytes)
  }

  function Trying(s: Queue, bytes: seq<byte>): Result {
    if s.readers == 0 || |s.contents| >= PIPE_SIZE then Result(s, [], [])
    else
      var n := Min(|bytes|, PIPE_SIZE - |s.contents|);
      Result(s.(contents := s.contents + bytes[..n], readWq := []), [], bytes[..n])
  }

  /** One step of the queue. A task inside a call takes part again only by being resumed; a signal makes a resumed reader
      return at once. The last reader to close wakes the writers, the last writer the readers. */
  function Next(s: Queue, step: Step): Result {
    match step
    case Start(t, call) => if t in s.inside then Result(s, [], []) else Going(s, t, call)
    case Resume(t, pending) =>
      if t !in s.inside || t in s.readWq || t in s.writeWq then Result(s, [], [])
      else if pending && s.inside[t].ReadCall? then Result(s.(inside := s.inside - {t}), [], [])
      else Going(s, t, s.inside[t])
    case Disturb(t) => Result(s.(readWq := Without(s.readWq, t), writeWq := Without(s.writeWq, t)), [], [])
    case TryRead(count) =>
      var data := s.contents[..Min(count, |s.contents|)];
      Result(s.(contents := s.contents[|data|..], writeWq := if s.contents == [] then s.writeWq else []), data, [])
    case TryWrite(bytes) => Trying(s, bytes)
    case CloseRead =>
      var readers := if s.readers > 0 then s.readers - 1 else 0;
      Result(s.(readers := readers, writeWq := if readers == 0 then [] else s.writeWq), [], [])
    case CloseWrite =>
      var writers := if s.writers > 0 then s.writers - 1 else 0;
      Result(s.(writers := writers, readWq := if writers == 0 then [] else s.readWq), [], [])
  }

  /** The queues lead to each other by the steps, with these results. */
  ghost predicate RunsAs(queues: seq<Queue>, steps: seq<Step>, read: seq<seq<byte>>, wrote: seq<seq<byte>>) {
    && |queues| == |read| + 1 && |wrote| == |read| <= |steps|
    && forall i {:trigger read[i]} | 0 <= i < |read| :: Result(queues[i + 1], read[i], wrote[i]) == Next(queues[i], steps[i])
  }

  lemma LongerRun(queues: seq<Queue>, steps: seq<Step>, read: seq<seq<byte>>, wrote: seq<seq<byte>>, q: Queue, data: seq<byte>, sent: seq<byte>)
    requires RunsAs(queues, steps, read, wrote) && |read| < |steps|
    requires Result(q, data, sent) == Next(queues[|read|], steps[|read|])
    ensures RunsAs(queues + [q], steps, read + [data], wrote + [sent])
  {
  }

  /** Task t is in the call that it starts in step i, up to the start of step j. */
  ghost predicate InCall(queues: seq<Queue>, steps: seq<Step>, t: Task, call: Call, i: nat, j: nat) {
    && i <= j < |steps| && j < |queues| && steps[i] == Start(t, call) && t !in queues[i].inside
    && forall k | i < k <= j :: t in queues[k].inside
  }

  /** What the steps i to j - 1 of task t moved. */
  function MovedBy(steps: seq<Step>, moved: seq<seq<byte>>, t: Task, i: nat, j: nat): seq<byte>
    requires i <= j <= |steps| && j <= |moved|
  {
    if i == j then []
    else MovedBy(steps, moved, t, i, j - 1) + if Acts(steps[j - 1], t) then moved[j - 1] else []
  }

  /** Of a write call of some data, all but the rest has been sent. */
  predicate WriteGoes(after: Queue, t: Task, data: seq<byte>, sent: seq<byte>) {
    if t in after.inside then after.inside[t].WriteCall? && sent + after.inside[t].data == data
    else sent <= data && (after.readers > 0 ==> sent == data)
  }

  /** Of a read call of so many bytes, all but the rest has been delivered. Only a signal or the last writer's leaving
      ends the call early. */
  predicate ReadGoes(after: Queue, t: Task, want: nat, got: seq<byte>, signal: bool) {
    if t in after.inside then after.inside[t].ReadCall? && |got| + after.inside[t].want == want
    else |got| <= want && (after.writers > 0 && !signal ==> |got| == want)
  }

  /** What a call moves in the steps between its start and its return is its data from the beginning, nothing twice and
      nothing left out. */
  ghost predicate CallsGoOn(queues: seq<Queue>, steps: seq<Step>, read: seq<seq<byte>>, wrote: seq<seq<byte>>)
    requires |queues| == |read| + 1 && |wrote| == |read| <= |steps|
  {
    && (forall t, data, i, j | 0 <= i <= j < |read| && InCall(queues, steps, t, WriteCall(data), i, j) ::
          WriteGoes(queues[j + 1], t, data, MovedBy(steps, wrote, t, i, j + 1)))
    && (forall t, want, i, j | 0 <= i <= j < |read| && InCall(queues, steps, t, ReadCall(want), i, j) ::
          ReadGoes(queues[j + 1], t, want, MovedBy(steps, read, t, i, j + 1), steps[j] == Resume(t, true)))
  }

  predicate Sleeps(q: Queue, t: Task) {
    t in q.readWq || t in q.writeWq
  }

  /** No reader sleeps while there are bytes or no writers, and no writer while there is room or no readers. */
  ghost predicate SleepsForCause(q: Queue) {
    && (forall t | t in q.readWq :: t in q.inside && q.inside[t].ReadCall?)
    && (forall t | t in q.writeWq :: t in q.inside && q.inside[t].WriteCall?)
    && (forall t | Sleeps(q, t) && q.inside[t].ReadCall? :: q.contents == [] && q.writers > 0)
    && (forall t | Sleeps(q, t) && q.inside[t].WriteCall? :: |q.contents| == PIPE_SIZE && q.readers > 0)
    && (q.readWq == [] || q.writeWq == [])
  }

  /** A task that starts a call, or goes on with one awake, returns or falls asleep. */
  ghost predicate CallsSettle(queues: seq<Queue>, steps: seq<Step>)
    requires |queues| <= |steps| + 1
  {
    forall i {:trigger steps[i]} | 0 <= i < |queues| - 1 && (steps[i].Start? || steps[i].Resume?) ::
      var t := steps[i].task;
      (if steps[i].Start? then t !in queues[i].inside else t in queues[i].inside && !Sleeps(queues[i], t))
      ==> t !in queues[i + 1].inside || Sleeps(queues[i + 1], t)
  }

  predicate Acts(step: Step, t: Task) {
    (step.Start? || step.Resume?) && step.task == t
  }

  /** One step of any task, while t is in a write call. */
  lemma WriteStep(q: Queue, step: Step, r: Result, t: Task, data: seq<byte>, sent: seq<byte>)
    requires r == Next(q, step) && t in q.inside && WriteGoes(q, t, data, sent)
    ensures WriteGoes(r.queue, t, data, sent + if Acts(step, t) then r.sent else [])
  {
    if Acts(step, t) && step.Resume? && r.sent <= q.inside[t].data {
      assert sent + r.sent + q.inside[t].data[|r.sent|..] == sent + q.inside[t].data;
    } else {
      assert sent + [] == sent;
    }
  }

  lemma WriteStarts(q: Queue, r: Result, t: Task, data: seq<byte>)
    requires r == Next(q, Start(t, WriteCall(data))) && t !in q.inside
    ensures WriteGoes(r.queue, t, data, r.sent)
  {
  }

  lemma ReadStep(q: Queue, step: Step, r: Result, t: Task, want: nat, got: seq<byte>)
    requires r == Next(q, step) && t in q.inside && q.inside[t].ReadCall? && |got| + q.inside[t].want == want
    ensures ReadGoes(r.queue, t, want, got + if Acts(step, t) then r.data else [], step == Resume(t, true))
  {
  }

  lemma ReadStarts(q: Queue, r: Result, t: Task, want: nat)
    requires r == Next(q, Start(t, ReadCall(want))) && t !in q.inside
    ensures ReadGoes(r.queue, t, want, r.data, false)
  {
  }

  lemma {:induction false} WriteGoesOn(queues: seq<Queue>, steps: seq<Step>, read: seq<seq<byte>>, wrote: seq<seq<byte>>, t: Task, data: seq<byte>, i: nat, j: nat)
    requires RunsAs(queues, steps, read, wrote) && j < |read| && InCall(queues, steps, t, WriteCall(data), i, j)
    ensures WriteGoes(queues[j + 1], t, data, MovedBy(steps, wrote, t, i, j + 1))
  {
    var r := Result(queues[j + 1], read[j], wrote[j]);
    if i < j {
      WriteGoesOn(queues, steps, read, wrote, t, data, i, j - 1);
      WriteStep(queues[j], steps[j], r, t, data, MovedBy(steps, wrote, t, i, j));
    } else {
      WriteStarts(queues[i], r, t, data);
      assert MovedBy(steps, wrote, t, i, i) + wrote[i] == wrote[i];
    }
  }

  lemma {:induction false} ReadGoesOn(queues: seq<Queue>, steps: seq<Step>, read: seq<seq<byte>>, wrote: seq<seq<byte>>, t: Task, want: nat, i: nat, j: nat)
    requires RunsAs(queues, steps, read, wrote) && j < |read| && InCall(queues, steps, t, ReadCall(want), i, j)
    ensures ReadGoes(queues[j + 1], t, want, MovedBy(steps, read, t, i, j + 1), steps[j] == Resume(t, true))
  {
    var r := Result(queues[j + 1], read[j], wrote[j]);
    if i < j {
      ReadGoesOn(queues, steps, read, wrote, t, want, i, j - 1);
      ReadStep(queues[j], steps[j], r, t, want, MovedBy(steps, read, t, i, j));
    } else {
      ReadStarts(queues[i], r, t, want);
      assert MovedBy(steps, read, t, i, i) + read[i] == read[i];
    }
  }

  lemma CallsOfRun(queues: seq<Queue>, steps: seq<Step>, read: seq<seq<byte>>, wrote: seq<seq<byte>>)
    requires RunsAs(queues, steps, read, wrote)
    ensures CallsGoOn(queues, steps, read, wrote) && CallsSettle(queues, steps)
  {
    forall i {:trigger steps[i]} | 0 <= i < |queues| - 1
      ensures Result(queues[i + 1], read[i], wrote[i]) == Next(queues[i], steps[i])
    {
    }
    forall t, data, i, j | 0 <= i <= j < |read| && InCall(queues, steps, t, WriteCall(data), i, j)
      ensures WriteGoes(queues[j + 1], t, data, MovedBy(steps, wrote, t, i, j + 1))
    {
      WriteGoesOn(queues, steps, read, wrote, t, data, i, j);
    }
    forall t, want, i, j | 0 <= i <= j < |read| && InCall(queues, steps, t, ReadCall(want), i, j)
      ensures ReadGoes(queues[j + 1], t, want, MovedBy(steps, read, t, i, j + 1), steps[j] == Resume(t, true))
    {
      ReadGoesOn(queues, steps, read, wrote, t, want, i, j);
    }
  }

  class PipeSystem {
    const pipe: Pipe
    /** The tasks inside a blocking call, asleep or made ready. */
    var inside: map<Task, Call>

    ghost predicate Valid()
      reads this, pipe, pipe.buf
    {
      && pipe.Valid()
      && NoDuplicates(pipe.readWq) && NoDuplicates(pipe.writeWq)
      && (forall t | t in pipe.readWq :: t in inside && inside[t].ReadCall?)
      && (forall t | t in pipe.writeWq :: t in inside && inside[t].WriteCall?)
    }

    /** The ring buffer and its queues as a queue of bytes. */
    ghost function Now(): Queue
      requires pipe.Valid()
      reads this, pipe, pipe.buf
    {
      Queue(pipe.Contents(), pipe.readers, pipe.writers, pipe.readWq, pipe.writeWq, inside)
    }

    predicate Sleeping(t: Task)
      reads pipe
    {
      t in pipe.readWq || t in pipe.writeWq
    }

    /** The step is the queue's, and the logs grow by what it delivered and accepted. */
    twostate predicate Stepped(r: Result, data: seq<byte>, sent: seq<byte>)
      reads this, pipe, pipe.buf
    {
      && Valid() && Now() == r.queue && data == r.data && sent == r.sent
      && pipe.taken == old(pipe.taken) + data && pipe.written == old(pipe.written) + sent
    }

    constructor ()
      ensures Valid() && fresh(pipe) && inside == map[] && pipe.written == [] && pipe.taken == []
    {
      var p := new Pipe();
      pipe, inside := p, map[];
    }

    method GoRead(t: Task, want: nat) returns (data: seq<byte>)
      requires Valid() && !Sleeping(t)
      modifies this, pipe, pipe.buf
      ensures Stepped(Reading(old(Now()), t, want), data, [])
    {
      var outcome;
      data, outcome := pipe.Read(t, want);
      inside := if outcome == Asleep then inside[t := ReadCall(want - |data|)] else inside - {t};
    }

    method GoWrite(t: Task, bytes: seq<byte>) returns (sent: seq<byte>)
      requires Valid() && !Sleeping(t)
      modifies this, pipe, pipe.buf
      ensures Stepped(Writing(old(Now()), t, bytes), [], sent)
    {
      var n, outcome := pipe.Write(t, bytes);
      sent := bytes[..n];
      inside := if outcome == Asleep then inside[t := WriteCall(bytes[n..])] else inside - {t};
    }

    /** Run task t's call until it returns or sleeps. */
    method Go(t: Task, call: Call) returns (data: seq<byte>, sent: seq<byte>)
      requires Valid() && !Sleeping(t)
      modifies this, pipe, pipe.buf
      ensures Stepped(Going(old(Now()), t, call), data, sent)
    {
      data, sent := [], [];
      match call
      case ReadCall(want) =>
        data := GoRead(t, want);
      case WriteCall(bytes) =>
        sent := GoWrite(t, bytes);
    }

    /** A resumed task goes on with its call; a signal makes a resumed reader return at once. */
    method GoOn(t: Task, pending: bool) returns (data: seq<byte>, sent: seq<byte>)
      requires Valid() && t in inside && !Sleeping(t)
      modifies this, pipe, pipe.buf
      ensures Stepped(Next(old(Now()), Resume(t, pending)), data, sent)
    {
      data, sent := [], [];
      if pending && inside[t].ReadCall? {
        inside := inside - {t};
      } else {
        data, sent := Go(t, inside[t]);
      }
    }

    method TryToRead(count: nat) returns (data: seq<byte>)
      requires Valid()
      modifies pipe
      ensures Stepped(Next(old(Now()), TryRead(count)), data, [])
    {
      var outcome;
      data, outcome := pipe.ReadNonblock(count);
    }

    method TryToWrite(bytes: seq<byte>) returns (sent: seq<byte>)
      requires Valid()
      modifies pipe, pipe.buf
      ensures Stepped(Trying(old(Now()), bytes), [], sent)
    {
      var n, outcome := pipe.WriteNonblock(bytes);
      sent := bytes[..n];
    }

    method DoNonblocking(step: Step) returns (data: seq<byte>, sent: seq<byte>)
      requires Valid() && !step.Start? && !step.Resume?
      modifies this, pipe, pipe.buf
      ensures Stepped(Next(old(Now()), step), data, sent)
    {
      data, sent := [], [];
      match step
      case Disturb(t) =>
        WithoutFacts(pipe.readWq, t);
        WithoutFacts(pipe.writeWq, t);
        pipe.Leave(t);
      case TryRead(count) =>
        data := TryToRead(count);
      case TryWrite(bytes) =>
        sent := TryToWrite(bytes);
      case CloseRead =>
        var freed := pipe.ReleaseRead();
      case CloseWrite =>
        var freed := pipe.ReleaseWrite();
    }

    /** One step of some task is a step of the queue. */
    method Do(step: Step) returns (data: seq<byte>, sent: seq<byte>)
      requires Valid()
      modifies this, pipe, pipe.buf
      ensures Stepped(Next(old(Now()), step), data, sent)
    {
      data, sent := [], [];
      match step
      case Start(t, call) =>
        if t !in inside {
          data, sent := Go(t, call);
        }
      case Resume(t, pending) =>
        if t in inside && !Sleeping(t) {
          data, sent := GoOn(t, pending);
        }
      case _ =>
        data, sent := DoNonblocking(step);
    }

    /** Every run is a run of the queue, and what was read, in order, followed by what is buffered is what was written, in
        order; every call moves its own data from the beginning; no task ever sleeps while it has something to do. */
    method Run(steps: seq<Step>) returns (read: seq<seq<byte>>, wrote: seq<seq<byte>>, ghost queues: seq<Queue>)
      requires Valid() && pipe.written == [] && pipe.taken == []
      modifies this, pipe, pipe.buf
      ensures Valid() && |read| == |wrote| == |steps| && |queues| == |steps| + 1
      ensures queues[0] == old(Now()) && queues[|steps|] == Now()
      ensures RunsAs(queues, steps, read, wrote) && CallsGoOn(queues, steps, read, wrote) && CallsSettle(queues, steps)
      ensures forall q | q in queues :: SleepsForCause(q)
      ensures Joined(wrote) == Joined(read) + pipe.Contents()
    {
      read, wrote, queues := [], [], [Now()];
      for i := 0 to |steps|
        invariant Valid() && |read| == |wrote| == i && |queues| == i + 1 && queues[0] == old(Now()) && queues[i] == Now()
        invariant RunsAs(queues, steps, read, wrote)
        invariant forall q | q in queues :: SleepsForCause(q)
        invariant pipe.taken == Joined(read) && pipe.written == Joined(wrote)
      {
        var data, sent := Do(steps[i]);
        assert (read + [data])[..i] == read && (wrote + [sent])[..i] == wrote;
        LongerRun(queues, steps, read, wrote, Now(), data, sent);
        read, wrote, queues := read + [data], wrote + [sent], queues + [Now()];
      }
      CallsOfRun(queues, steps, read, wrote);
    }
  }
}
