/** Runs of descriptor calls by any number of tasks (fs/vfs.c, kernel/process.c). */
module FdRuns {
  import opened Runs
  import opened FdTables
  import opened OpenFiles

  datatype Call =
    | OpenCall(file: FileId, cloexec: bool, memory: bool)
    | PipeCall(rfile: FileId, wfile: FileId, allocations: nat)
    | CloseCall(fd: int)
    | DupCall(oldfd: int, minfd: int, cloexec: bool, memory: bool)
    | Dup2Call(oldfd: int, newfd: int, cloexec: bool, memory: bool)
    | CloseRangeCall(first: nat, last: nat)
    | ExecCall
    | ForkCall(child: Pid)
    | ExitCall

  /** The calls a task can make: new files and children get unused addresses, and the fork does not fail half way. */
  predicate Allowed(s: State, p: Pid, c: Call) {
    && p in s.tasks
    && match c
       case OpenCall(file, _, _) => file !in s.refcount
       case PipeCall(r, w, _) => r !in s.refcount && w !in s.refcount && r != w
       case CloseRangeCall(first, last) => first < WORD && last < WORD
       case ForkCall(child) => child !in s.tasks
       case _ => true
  }

  /** A descriptor is closed: its entry goes, and its file with the last entry. */
  ghost predicate ClosedFd(s: State, p: Pid, fd: int, s': State)
    requires p in s.tasks
  {
    exists i: nat :: i < |s.tasks[p].files| && s.tasks[p].files[i].fd == fd && s.tasks[p].files[i].file in s.refcount && s' == Closed(s, p, i)
  }

  /** The lowest free descriptor from minfd on gets the file of oldfd. */
  ghost predicate Duplicated(s: State, p: Pid, oldfd: int, minfd: int, cloexec: bool, s': State)
    requires p in s.tasks
  {
    exists fd, f :: minfd <= fd && !HasFd(s.tasks[p], fd) && (forall x | minfd <= x < fd :: HasFd(s.tasks[p], x))
                    && f in s.refcount && Points(s, p, oldfd, f) && s' == Shared(s, p, FdEntry(fd, f, cloexec))
  }

  /** The two descriptors of a new pipe, or nothing but perhaps a used-up descriptor number. */
  ghost predicate Piped(s: State, p: Pid, r: FileId, w: FileId, allocations: nat, s': State)
    requires p in s.tasks
  {
    var t := s.tasks[p];
    if UnderLimit(t, 1) && allocations >= 5 then
      s' == Opened(Opened(s, p, FdEntry(t.nextFd, r, false)), p, FdEntry(t.nextFd + 1, w, false))
    else
      s' == s.(tasks := s.tasks[p := if UnderLimit(t, 1) && allocations >= 3 then t.(nextFd := t.nextFd + 1) else t])
  }

  /** What a call leads to. */
  ghost predicate Follows(s: State, p: Pid, c: Call, s': State)
    requires p in s.tasks
  {
    var t := s.tasks[p];
    match c
    case OpenCall(file, cloexec, memory) =>
      s' == if UnderLimit(t, 0) && memory then Opened(s, p, FdEntry(t.nextFd, file, cloexec)) else s
    case PipeCall(r, w, allocations) => Piped(s, p, r, w, allocations, s')
    case CloseCall(fd) => if HasFd(t, fd) then ClosedFd(s, p, fd, s') else s' == s
    case DupCall(oldfd, minfd, cloexec, memory) =>
      if HasFd(t, oldfd) && memory then Duplicated(s, p, oldfd, minfd, cloexec, s') else s' == s
    case Dup2Call(oldfd, newfd, cloexec, memory) => Dup2Done(s, p, oldfd, newfd, cloexec, memory, s')
    case CloseRangeCall(first, last) =>
      first < WORD && last < WORD && Elsewhere(s, s', p) && s'.tasks[p].files == Rest(t.files, Range(AsInt(first), AsInt(last)))
    case ExecCall => Elsewhere(s, s', p) && s'.tasks[p].files == Rest(t.files, OnExec)
    case ForkCall(child) => s'.tasks == s.tasks[child := t]
    case ExitCall => Elsewhere(s, s', p) && s'.tasks[p].files == []
  }

  lemma {:induction false} NothingRests(files: seq<FdEntry>)
    ensures Rest(files, All) == []
  {
    if files != [] {
      NothingRests(files[1..]);
    }
  }

  /** One call by task p. */
  method Step(s: State, p: Pid, c: Call) returns (s': State)
    requires Ok(s) && Allowed(s, p, c)
    ensures Ok(s') && Follows(s, p, c, s')
    ensures s'.tasks.Keys == s.tasks.Keys + if c.ForkCall? then {c.child} else {}
  {
    s' := Dispatch(s, p, c);
    TasksAfter(s, p, c, s');
  }

  method Dispatch(s: State, p: Pid, c: Call) returns (s': State)
    requires Ok(s) && Allowed(s, p, c)
    ensures Ok(s') && Follows(s, p, c, s')
  {
    match c
    case OpenCall(file, cloexec, memory) =>
      var fd;
      s', fd := Open(s, p, file, cloexec, memory);
    case PipeCall(rfile, wfile, allocations) =>
      s' := StepPipe(s, p, rfile, wfile, allocations);
    case CloseCall(_) =>
      s' := StepOne(s, p, c);
    case DupCall(_, _, _, _) =>
      s' := StepOne(s, p, c);
    case Dup2Call(_, _, _, _) =>
      s' := StepOne(s, p, c);
    case ForkCall(child) =>
      var ok;
      s', ok := Fork(s, p, child, -1);
    case _ =>
      s' := StepClosing(s, p, c);
  }

  /** The calls on one open descriptor. */
  method StepOne(s: State, p: Pid, c: Call) returns (s': State)
    requires Ok(s) && Allowed(s, p, c) && (c.CloseCall? || c.DupCall? || c.Dup2Call?)
    ensures Ok(s') && Follows(s, p, c, s')
  {
    match c
    case CloseCall(fd) =>
      var ok;
      s', ok := Close(s, p, fd);
    case DupCall(oldfd, minfd, cloexec, memory) =>
      var fd, ok;
      s', fd, ok := DupMin(s, p, oldfd, minfd, cloexec, memory);
    case Dup2Call(oldfd, newfd, cloexec, memory) =>
      var ok;
      s', ok := Dup2(s, p, oldfd, newfd, cloexec, memory);
  }

  /** Only fork adds a task. */
  lemma TasksAfter(s: State, p: Pid, c: Call, s': State)
    requires p in s.tasks && Follows(s, p, c, s')
    ensures s'.tasks.Keys == s.tasks.Keys + if c.ForkCall? then {c.child} else {}
  {
  }

  /** The calls that close several descriptors. */
  method StepClosing(s: State, p: Pid, c: Call) returns (s': State)
    requires Ok(s) && Allowed(s, p, c) && (c.CloseRangeCall? || c.ExecCall? || c.ExitCall?)
    ensures Ok(s') && Follows(s, p, c, s')
  {
    var closed;
    if c.CloseRangeCall? {
      s', closed := CloseRange(s, p, c.first, c.last);
    } else if c.ExecCall? {
      s', closed := CloseChosen(s, p, OnExec);
    } else {
      NothingRests(s.tasks[p].files);
      s', closed := CloseChosen(s, p, All);
    }
  }

  method StepPipe(s: State, p: Pid, r: FileId, w: FileId, allocations: nat) returns (s': State)
    requires Ok(s) && p in s.tasks && r !in s.refcount && w !in s.refcount && r != w
    ensures Ok(s') && Piped(s, p, r, w, allocations, s')
  {
    var pipe, ok;
    s', pipe, ok := PipeFds(s, p, r, w, allocations);
  }

  // ---- What the calls mean for the set of entries

  /** e is the entry of oldfd under the number fd. */
  ghost predicate CopyOf(files: seq<FdEntry>, oldfd: int, fd: int, cloexec: bool, e: FdEntry) {
    e.fd == fd && e.cloexec == cloexec && exists o :: o in files && o.fd == oldfd && o.file == e.file
  }

  /** n is the lowest number from minfd on that no entry has. */
  ghost predicate LowestUnused(t: Task, minfd: int, n: int) {
    && minfd <= n && (forall e | e in t.files :: e.fd != n)
    && (forall x | minfd <= x < n :: HasFd(t, x))
  }

  /** The entries of the calling task after a call, with the number that a dup found. */
  ghost predicate EntriesAfter(t: Task, c: Call, n: int, after: seq<FdEntry>) {
    match c
    case OpenCall(file, cloexec, memory) =>
      forall e :: e in after <==> e in t.files || ((t.limit == -1 || |t.files| < t.limit) && memory && e == FdEntry(t.nextFd, file, cloexec))
    case PipeCall(r, w, allocations) =>
      forall e :: e in after <==> e in t.files || ((t.limit == -1 || |t.files| + 1 < t.limit) && allocations >= 5
                                                  && (e == FdEntry(t.nextFd, r, false) || e == FdEntry(t.nextFd + 1, w, false)))
    case CloseCall(fd) => forall e :: e in after <==> e in t.files && e.fd != fd
    case DupCall(oldfd, minfd, cloexec, memory) =>
      && (memory && HasFd(t, oldfd) ==> LowestUnused(t, minfd, n))
      && forall e :: e in after <==> e in t.files || (memory && CopyOf(t.files, oldfd, n, cloexec, e))
    case Dup2Call(oldfd, newfd, cloexec, memory) =>
      forall e :: e in after <==>
        if newfd < 0 || (forall o | o in t.files :: o.fd != oldfd) then e in t.files
        else (e in t.files && e.fd != newfd) || ((memory || oldfd == newfd) && CopyOf(t.files, oldfd, newfd, cloexec, e))
    case CloseRangeCall(first, last) =>
      var lo, hi := if first < 0x8000_0000 then first else first - 0x1_0000_0000, if last < 0x8000_0000 then last else last - 0x1_0000_0000;
      forall e :: e in after <==> e in t.files && !(lo <= e.fd <= hi)
    case ExecCall => forall e :: e in after <==> e in t.files && !e.cloexec
    case ForkCall(child) => after == t.files
    case ExitCall => after == []
  }

  /** Only the caller's entries change, and a child has those of its parent. */
  ghost predicate OthersStay(s: State, p: Pid, c: Call, s': State)
    requires p in s.tasks
  {
    && s'.tasks.Keys == s.tasks.Keys + (if c.ForkCall? then {c.child} else {})
    && (forall q | q in s.tasks && q != p :: s'.tasks[q] == s.tasks[q])
    && (c.ForkCall? ==> s'.tasks[c.child] == s.tasks[p])
    && s'.tasks[p].limit == s.tasks[p].limit
    && NextAfter(s.tasks[p], c, s'.tasks[p])
  }

  /** next_fd changes only to follow a new entry, or when a pipe used up a number. */
  ghost predicate NextAfter(t: Task, c: Call, t': Task) {
    || t'.nextFd == t.nextFd
    || (t'.nextFd > t.nextFd && t'.files != [] && t'.files[|t'.files| - 1].fd + 1 == t'.nextFd)
    || (c.PipeCall? && t'.nextFd == t.nextFd + 1)
  }

  /** What a call means. */
  ghost predicate Means(s: State, p: Pid, c: Call, s': State)
    requires p in s.tasks
  {
    OthersStay(s, p, c, s') && exists n :: EntriesAfter(s.tasks[p], c, n, s'.tasks[p].files)
  }

  lemma FollowsElsewhere(s: State, p: Pid, c: Call, s': State)
    requires Allowed(s, p, c) && Follows(s, p, c, s')
    ensures OthersStay(s, p, c, s')
  {
  }

  lemma {:induction false} RestMembers(files: seq<FdEntry>, w: Which, e: FdEntry)
    ensures e in Rest(files, w) <==> e in files && !Chosen(w, e)
  {
    if files != [] {
      RestMembers(files[1..], w, e);
    }
  }

  lemma CloseMeans(s: State, p: Pid, fd: int, s': State)
    requires Ok(s) && p in s.tasks && Follows(s, p, CloseCall(fd), s')
    ensures EntriesAfter(s.tasks[p], CloseCall(fd), 0, s'.tasks[p].files)
  {
    var t := s.tasks[p];
    assert TableOk(t);
    if HasFd(t, fd) {
      var i: nat :| i < |t.files| && t.files[i].fd == fd && t.files[i].file in s.refcount && s' == Closed(s, p, i);
      CloseEntries(t, i);
    }
  }

  lemma CloseEntries(t: Task, i: nat)
    requires TableOk(t) && i < |t.files|
    ensures forall e :: e in WithoutEntry(t, i).files <==> e in t.files && e.fd != t.files[i].fd
  {
    forall e
      ensures e in WithoutEntry(t, i).files <==> e in t.files && e.fd != t.files[i].fd
    {
      WithoutEntryMembers(t, i, e);
    }
  }

  lemma OpenMeans(s: State, p: Pid, c: Call, s': State)
    requires Ok(s) && p in s.tasks && (c.OpenCall? || c.PipeCall?) && Follows(s, p, c, s')
    ensures EntriesAfter(s.tasks[p], c, 0, s'.tasks[p].files)
  {
  }

  lemma DupMeans(s: State, p: Pid, c: Call, s': State) returns (n: int)
    requires Ok(s) && p in s.tasks && c.DupCall? && Follows(s, p, c, s')
    ensures EntriesAfter(s.tasks[p], c, n, s'.tasks[p].files)
  {
    var t := s.tasks[p];
    n := 0;
    if HasFd(t, c.oldfd) && c.memory {
      var fd, f :| c.minfd <= fd && !HasFd(t, fd) && (forall x | c.minfd <= x < fd :: HasFd(t, x))
                   && f in s.refcount && Points(s, p, c.oldfd, f) && s' == Shared(s, p, FdEntry(fd, f, c.cloexec));
      n := fd;
      Copies(s, p, c.oldfd, f, fd, c.cloexec);
      NotUsed(t, fd);
      OneEntryMore(t.files, FdEntry(fd, f, c.cloexec));
      assert s'.tasks[p].files == t.files + [FdEntry(fd, f, c.cloexec)];
    } else if c.memory {
      NoCopies(t, c.oldfd, 0, c.cloexec);
    }
  }

  lemma NotUsed(t: Task, fd: int)
    ensures HasFd(t, fd) <==> exists e :: e in t.files && e.fd == fd
  {
    if e :| e in t.files && e.fd == fd {
      var i :| 0 <= i < |t.files| && t.files[i] == e;
    }
  }

  /** The one copy of an entry. */
  lemma Copies(s: State, p: Pid, oldfd: int, f: FileId, fd: int, cloexec: bool)
    requires Ok(s) && Points(s, p, oldfd, f)
    ensures forall e :: CopyOf(s.tasks[p].files, oldfd, fd, cloexec, e) <==> e == FdEntry(fd, f, cloexec)
  {
    assert TableOk(s.tasks[p]);
  }

  lemma NoCopies(t: Task, oldfd: int, fd: int, cloexec: bool)
    requires !HasFd(t, oldfd)
    ensures forall e :: !CopyOf(t.files, oldfd, fd, cloexec, e)
  {
    NotUsed(t, oldfd);
  }

  lemma RestEntries(files: seq<FdEntry>, w: Which)
    ensures forall e :: e in Rest(files, w) <==> e in files && !Chosen(w, e)
  {
    forall e
      ensures e in Rest(files, w) <==> e in files && !Chosen(w, e)
    {
      RestMembers(files, w, e);
    }
  }

  lemma ClosingMeans(s: State, p: Pid, c: Call, s': State)
    requires Ok(s) && Allowed(s, p, c) && (c.CloseRangeCall? || c.ExecCall? || c.ExitCall?) && Follows(s, p, c, s')
    ensures EntriesAfter(s.tasks[p], c, 0, s'.tasks[p].files)
  {
    if c.CloseRangeCall? {
      RestEntries(s.tasks[p].files, Range(AsInt(c.first), AsInt(c.last)));
    } else if c.ExecCall? {
      RestEntries(s.tasks[p].files, OnExec);
    }
  }

  lemma SameFdMeans(s: State, p: Pid, i: nat, cloexec: bool)
    requires Ok(s) && p in s.tasks && i < |s.tasks[p].files|
    ensures var files, fd := s.tasks[p].files, s.tasks[p].files[i].fd;
            forall e :: e in files[i := files[i].(cloexec := cloexec)] <==> (e in files && e.fd != fd) || CopyOf(files, fd, fd, cloexec, e)
  {
    var files := s.tasks[p].files;
    assert TableOk(s.tasks[p]) && files[i] in files;
    Copies(s, p, files[i].fd, files[i].file, files[i].fd, cloexec);
    ReplacedEntry(files, i, files[i].(cloexec := cloexec));
  }

  lemma ReplacedEntry(files: seq<FdEntry>, i: nat, x: FdEntry)
    requires i < |files| && forall j, k | 0 <= j < k < |files| :: files[j].fd != files[k].fd
    ensures forall e :: e in files[i := x] <==> (e in files && e.fd != files[i].fd) || e == x
  {
    forall e
      ensures e in files[i := x] <==> (e in files && e.fd != files[i].fd) || e == x
    {
      if e in files && e.fd != files[i].fd {
        var j :| 0 <= j < |files| && files[j] == e;
        assert files[i := x][j] == e;
      }
      if e in files[i := x] {
        var j :| 0 <= j < |files| && files[i := x][j] == e;
        assert j != i ==> files[j] == e;
      }
      assert files[i := x][i] == x;
    }
  }

  lemma Dup2Means(s: State, p: Pid, c: Call, s': State)
    requires Ok(s) && p in s.tasks && c.Dup2Call? && Follows(s, p, c, s')
    ensures EntriesAfter(s.tasks[p], c, 0, s'.tasks[p].files)
  {
    var t := s.tasks[p];
    NotUsed(t, c.oldfd);
    if c.newfd >= 0 && HasFd(t, c.oldfd) && c.oldfd == c.newfd {
      var i: nat :| i < |t.files| && t.files[i].fd == c.oldfd && s' == SetCloexec(s, p, i, c.cloexec);
      SameFdMeans(s, p, i, c.cloexec);
    } else if c.newfd >= 0 && HasFd(t, c.oldfd) {
      OtherFdMeans(s, p, c, s');
    }
  }

  lemma OtherFdMeans(s: State, p: Pid, c: Call, s': State)
    requires Ok(s) && p in s.tasks && c.Dup2Call? && Follows(s, p, c, s') && c.newfd >= 0 && HasFd(s.tasks[p], c.oldfd) && c.oldfd != c.newfd
    ensures forall e :: e in s'.tasks[p].files <==>
              (e in s.tasks[p].files && e.fd != c.newfd) || (c.memory && CopyOf(s.tasks[p].files, c.oldfd, c.newfd, c.cloexec, e))
  {
    var t := s.tasks[p];
    var f :| Points(s, p, c.oldfd, f)
             && s'.tasks == s.tasks[p := if c.memory then WithEntry(WithoutFd(t, c.newfd), FdEntry(c.newfd, f, c.cloexec)) else WithoutFd(t, c.newfd)];
    Copies(s, p, c.oldfd, f, c.newfd, c.cloexec);
    RestEntries(t.files, Range(c.newfd, c.newfd));
    OneEntryMore(WithoutFd(t, c.newfd).files, FdEntry(c.newfd, f, c.cloexec));
  }

  lemma OneEntryMore(files: seq<FdEntry>, x: FdEntry)
    ensures forall e :: e in files + [x] <==> e in files || e == x
  {
  }

  /** A call does what it means. */
  lemma CallMeans(s: State, p: Pid, c: Call, s': State)
    requires Ok(s) && Allowed(s, p, c) && Follows(s, p, c, s')
    ensures Means(s, p, c, s')
  {
    var n := EntriesFollow(s, p, c, s');
    FollowsElsewhere(s, p, c, s');
  }

  lemma EntriesFollow(s: State, p: Pid, c: Call, s': State) returns (n: int)
    requires Ok(s) && Allowed(s, p, c) && Follows(s, p, c, s')
    ensures EntriesAfter(s.tasks[p], c, n, s'.tasks[p].files)
  {
    n := 0;
    match c
    case OpenCall(_, _, _) => OpenMeans(s, p, c, s');
    case PipeCall(_, _, _) => OpenMeans(s, p, c, s');
    case CloseCall(fd) => CloseMeans(s, p, fd, s');
    case DupCall(_, _, _, _) => n := DupMeans(s, p, c, s');
    case Dup2Call(_, _, _, _) => Dup2Means(s, p, c, s');
    case ForkCall(child) =>
    case _ => ClosingMeans(s, p, c, s');
  }

  /** A call that is not allowed does not happen. */
  ghost predicate Next(s: State, c: (Pid, Call), s': State) {
    Ok(s) && if Allowed(s, c.0, c.1) then Follows(s, c.0, c.1, s') else s' == s
  }

  /** Every call of a run does what it means. */
  ghost predicate CallsMean(states: seq<State>, calls: seq<(Pid, Call)>)
    requires |states| == |calls| + 1
  {
    forall i {:trigger calls[i]} | 0 <= i < |calls| && calls[i].0 in states[i].tasks && CanHappen(states[i], calls[i].1) ::
      Means(states[i], calls[i].0, calls[i].1, states[i + 1])
  }

  /** New files and children are new, and bounds are words. */
  ghost predicate CanHappen(s: State, c: Call) {
    && (c.OpenCall? ==> c.file !in s.refcount)
    && (c.PipeCall? ==> c.rfile !in s.refcount && c.wfile !in s.refcount && c.rfile != c.wfile)
    && (c.CloseRangeCall? ==> c.first < 0x1_0000_0000 && c.last < 0x1_0000_0000)
    && (c.ForkCall? ==> c.child !in s.tasks)
  }

  lemma RunMeans(states: seq<State>, calls: seq<(Pid, Call)>)
    requires IsRun(Next, states, calls)
    ensures CallsMean(states, calls)
  {
    forall i {:trigger calls[i]} | 0 <= i < |calls| && calls[i].0 in states[i].tasks && CanHappen(states[i], calls[i].1)
      ensures Means(states[i], calls[i].0, calls[i].1, states[i + 1])
    {
      assert IsStep(Next, states, calls, i);
      CallMeans(states[i], calls[i].0, calls[i].1, states[i + 1]);
    }
  }

  class Kernel {
    var state: State

    ghost predicate Valid()
      reads this
    {
      Ok(state)
    }

    /** One task without open files. */
    constructor (first: Pid, limit: int)
      ensures Valid() && state == State(map[first := Task([], 0, limit)], map[])
    {
      state := State(map[first := Task([], 0, limit)], map[]);
    }

    /** Every run, by its states: each call does to the entries what it means, and in each state the counts equal the fd
        entries that point to each file, a file is allocated exactly while there is one, and descriptors are distinct and
        below next_fd. */
    method Run(calls: seq<(Pid, Call)>) returns (ghost states: seq<State>)
      requires Valid()
      modifies this
      ensures IsRun(Next, states, calls) && states[0] == old(state) && states[|calls|] == state && Valid()
      ensures CallsMean(states, calls) && forall f :: f in state.refcount <==> Refs(state.tasks, f) > 0
    {
      states := [state];
      for i := 0 to |calls|
        invariant Valid() && IsRun(Next, states, calls[..i]) && states[0] == old(state) && states[i] == state
      {
        var (p, c) := calls[i];
        if Allowed(state, p, c) {
          state := Step(state, p, c);
        }
        assert calls[..i + 1] == calls[..i] + [calls[i]];
        ExtendRun(Next, states, calls[..i], calls[i], state);
        states := states + [state];
      }
      assert calls[..|calls|] == calls;
      RunMeans(states, calls);
      CountedExactly(state);
    }
  }

  lemma CountedExactly(s: State)
    requires Ok(s)
    ensures forall f :: f in s.refcount <==> Refs(s.tasks, f) > 0
  {
    forall f
      ensures f in s.refcount <==> Refs(s.tasks, f) > 0
    {
      if f !in s.refcount {
        NoRefs(s, f);
      }
    }
  }
}
