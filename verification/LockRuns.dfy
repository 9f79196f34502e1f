/** Runs of lock calls and descriptor calls by any number of tasks (fs/locks.c, fs/vfs.c). */
module LockRuns {
  import opened Runs
  import opened FdTables
  import opened OpenFiles
  import FdRuns
  import opened Locks

  /** A descriptor call, with the inodes of files it opens; or one attempt at a lock on an open file. */
  datatype LockCall =
    | Descriptor(call: FdRuns.Call, inode: map<FileId, int>)
    | FlockCall(fd: int, unlock: bool, kind: LockType)
    | SetLockCall(fd: int, unlock: bool, want: Record, memory: bool)

  /** The tables with the counts, and the locks. */
  datatype World = World(state: State, locks: LockState)

  ghost predicate Granted(l: LockState, file: FileId, unlock: bool, kind: LockType) {
    unlock || (file in l.flocks && l.flocks[file] == kind) || FlockFits(l, file, kind)
  }

  ghost predicate GrantedRecord(l: LockState, file: FileId, unlock: bool, want: Record) {
    unlock || RecordFits(l, file, want)
  }

  /** What flock makes of the locks. */
  ghost predicate Flocked(l: LockState, file: FileId, unlock: bool, kind: LockType, l': LockState) {
    l' == if !Granted(l, file, unlock, kind) then l
          else if unlock then l.(flocks := l.flocks - {file})
          else l.(flocks := l.flocks[file := kind])
  }

  /** What a record-lock call makes of the locks. */
  ghost predicate RecordSet(l: LockState, file: FileId, unlock: bool, want: Record, memory: bool, l': LockState) {
    l' == if !GrantedRecord(l, file, unlock, want) then l
          else l.(records := l.records[file := Others(RecordsOf(l, file), want.owner) + if unlock || !memory then [] else [want]])
  }

  /** What a call leads to. A lock call on a descriptor that is not open does nothing; a blocking call is a series of
      attempts. */
  ghost predicate Follows(w: World, p: Pid, c: LockCall, w': World) {
    match c
    case Descriptor(call, inode) =>
      if FdRuns.Allowed(w.state, p, call) then FdRuns.Follows(w.state, p, call, w'.state) && w'.locks == Settled(w.state, w'.state, w.locks, inode)
      else w' == w
    case FlockCall(fd, unlock, kind) =>
      && w'.state == w.state
      && (if p in w.state.tasks && HasFd(w.state.tasks[p], fd) then
            exists f :: Points(w.state, p, fd, f) && Flocked(w.locks, f, unlock, kind, w'.locks)
          else w'.locks == w.locks)
    case SetLockCall(fd, unlock, want, memory) =>
      && w'.state == w.state
      && (if p in w.state.tasks && HasFd(w.state.tasks[p], fd) then
            exists f :: Points(w.state, p, fd, f) && RecordSet(w.locks, f, unlock, want.(owner := p), memory, w'.locks)
          else w'.locks == w.locks)
  }

  /** A step from a sound world. */
  ghost predicate Next(w: World, c: (Pid, LockCall), w': World) {
    LocksOk(w.state, w.locks) && Follows(w, c.0, c.1, w')
  }

  class LockKernel {
    var state: State
    var tasks: seq<Pid>
    var locks: LockState

    ghost predicate Valid()
      reads this
    {
      LocksOk(state, locks) && TaskList(state, tasks)
    }

    ghost function Now(): World
      reads this
    {
      World(state, locks)
    }

    constructor (first: Pid, limit: int)
      ensures Valid()
    {
      state := State(map[first := Task([], 0, limit)], map[]);
      tasks := [first];
      locks := LockState(map[], map[], map[]);
    }

    method DoDescriptor(p: Pid, call: FdRuns.Call, inode: map<FileId, int>)
      requires Valid()
      modifies this
      ensures Valid() && Follows(old(Now()), p, Descriptor(call, inode), Now())
    {
      if FdRuns.Allowed(state, p, call) {
        var s := FdRuns.Step(state, p, call);
        SettleKeeps(state, locks, s, inode);
        var left := ReleaseAll(locks, state.refcount.Keys - s.refcount.Keys);
        locks := Enrolled(s, left, inode);
        if call.ForkCall? {
          tasks := tasks + [call.child];
        }
        state := s;
      }
    }

    method DoFlock(p: Pid, fd: int, unlock: bool, kind: LockType)
      requires Valid()
      modifies this`locks
      ensures Valid() && Follows(old(Now()), p, FlockCall(fd, unlock, kind), Now())
    {
      if p in state.tasks {
        var i := FindFdEntry(state.tasks[p].files, fd);
        if i >= 0 {
          FileIsAllocated(state, p, i);
          var granted;
          locks, granted := Flock(state, locks, tasks, state.tasks[p].files[i].file, unlock, kind);
          assert Points(state, p, fd, state.tasks[p].files[i].file);
        }
      }
    }

    method DoSetLock(p: Pid, fd: int, unlock: bool, want: Record, memory: bool)
      requires Valid()
      modifies this`locks
      ensures Valid() && Follows(old(Now()), p, SetLockCall(fd, unlock, want, memory), Now())
    {
      if p in state.tasks {
        var i := FindFdEntry(state.tasks[p].files, fd);
        if i >= 0 {
          FileIsAllocated(state, p, i);
          var granted;
          locks, granted := SetLock(state, locks, tasks, state.tasks[p].files[i].file, unlock, want.(owner := p), memory);
          assert Points(state, p, fd, state.tasks[p].files[i].file);
        }
      }
    }

    method Do(p: Pid, c: LockCall)
      requires Valid()
      modifies this
      ensures Valid() && Follows(old(Now()), p, c, Now())
    {
      match c
      case Descriptor(call, inode) => DoDescriptor(p, call, inode);
      case FlockCall(fd, unlock, kind) => DoFlock(p, fd, unlock, kind);
      case SetLockCall(fd, unlock, want, memory) => DoSetLock(p, fd, unlock, want, memory);
    }

    /** Exclusion in every run, by its states: whole-file locks of different open files on one file are all shared,
        overlapping record locks of different owners on different open files are read locks, and no lock outlives its
        open file. */
    method Run(calls: seq<(Pid, LockCall)>) returns (ghost worlds: seq<World>)
      requires Valid()
      modifies this
      ensures IsRun(Next, worlds, calls) && worlds[0] == old(Now()) && worlds[|calls|] == Now()
      ensures Valid() && FlockExclusion(locks) && RecordExclusion(locks) && SharedBytesAreRead(locks)
      ensures forall a, b {:trigger locks.flocks[a], locks.flocks[b]} | a in locks.flocks && b in locks.flocks && a != b
                && a in locks.inode && b in locks.inode && locks.inode[a] == locks.inode[b] ::
                locks.flocks[a] == Shared && locks.flocks[b] == Shared
      ensures forall f | f in locks.flocks || f in locks.records :: Refs(state.tasks, f) > 0
    {
      worlds := [Now()];
      for i := 0 to |calls|
        invariant Valid() && IsRun(Next, worlds, calls[..i]) && worlds[0] == old(Now()) && worlds[i] == Now()
      {
        Do(calls[i].0, calls[i].1);
        assert calls[..i + 1] == calls[..i] + [calls[i]];
        ExtendRun(Next, worlds, calls[..i], calls[i], Now());
        worlds := worlds + [Now()];
      }
      assert calls[..|calls|] == calls;
      ExclusionOfBytes(locks);
    }
  }

  lemma FileIsAllocated(s: State, p: Pid, i: nat)
    requires Ok(s) && p in s.tasks && i < |s.tasks[p].files|
    ensures s.tasks[p].files[i].file in s.refcount
  {
    assert TableOk(s.tasks[p]) && s.tasks[p].files[i] in s.tasks[p].files;
  }
}
