/** Opening, duplicating and closing file descriptors (fs/vfs.c), and what fork and exit do to them
    (kernel/process.c). */
module OpenFiles {
  import opened FdTables

  const WORD := 0x1_0000_0000

  /** find_fd_entry: the index of the entry, or -1. */
  method FindFdEntry(files: seq<FdEntry>, fd: int) returns (i: int)
    ensures -1 <= i < |files|
    ensures if i >= 0 then files[i].fd == fd else forall j | 0 <= j < |files| :: files[j].fd != fd
  {
    i := 0;
    while i < |files|
      invariant 0 <= i <= |files|
      invariant forall j | 0 <= j < i :: files[j].fd != fd
    {
      if files[i].fd == fd {
        return;
      }
      i := i + 1;
    }
    i := -1;
  }

  /** The file of an open descriptor, or nothing. */
  ghost predicate Points(s: State, p: Pid, fd: int, f: FileId) {
    p in s.tasks && exists e :: e in s.tasks[p].files && e.fd == fd && e.file == f
  }

  predicate UnderLimit(t: Task, extra: int) {
    t.limit == RLIM_INFINITY || |t.files| + extra < t.limit
  }

  /** next_fd is never in use. */
  lemma NextFdIsFree(t: Task)
    requires TableOk(t)
    ensures !HasFd(t, t.nextFd)
  {
    forall i | 0 <= i < |t.files|
      ensures t.files[i].fd != t.nextFd
    {
      assert t.files[i] in t.files;
    }
  }

  /** fs_open once the file system has opened the file: the new open file is put back if there is no descriptor for it. */
  method Open(s: State, p: Pid, file: FileId, cloexec: bool, memory: bool) returns (s': State, fd: int)
    requires Ok(s) && p in s.tasks && file !in s.refcount
    ensures Ok(s')
    ensures if UnderLimit(s.tasks[p], 0) && memory
            then fd == s.tasks[p].nextFd && s' == Opened(s, p, FdEntry(fd, file, cloexec))
            else fd == -1 && s' == s
  {
    fd := -1;
    if UnderLimit(s.tasks[p], 0) && memory {
      TableIsOk(s, p);
      NextFdIsFree(s.tasks[p]);
      fd := s.tasks[p].nextFd;
      OpenKeeps(s, p, FdEntry(fd, file, cloexec));
      s' := Opened(s, p, FdEntry(fd, file, cloexec));
    } else {
      NewFilePut(s.refcount, file);
      s' := s.(refcount := Put(s.refcount[file := 1], file));
    }
  }

  /** Putting a new open file takes back what allocating it did. */
  lemma NewFilePut(refcount: map<FileId, int>, file: FileId)
    requires file !in refcount
    ensures Put(refcount[file := 1], file) == refcount
  {
  }

  /** fs_close: the file is released exactly when this was its last entry over all tasks. */
  method Close(s: State, p: Pid, fd: int) returns (s': State, ok: bool)
    requires Ok(s) && p in s.tasks
    ensures Ok(s') && (ok <==> HasFd(s.tasks[p], fd))
    ensures !ok ==> s' == s
    ensures ok ==> exists i: nat :: i < |s.tasks[p].files| && s.tasks[p].files[i].fd == fd && s.tasks[p].files[i].file in s.refcount
                                 && s' == Closed(s, p, i)
    ensures ok ==> s'.tasks.Keys == s.tasks.Keys && !HasFd(s'.tasks[p], fd)
  {
    var i := FindFdEntry(s.tasks[p].files, fd);
    ok := i >= 0;
    s' := s;
    if ok {
      CloseKeeps(s, p, i);
      EntryPoints(s, p, i);
      WithoutEntryKeepsTable(s.tasks[p], i);
      s' := Closed(s, p, i);
    }
  }

  /** The search of fs_dup_min restarts from the head of the list for each candidate; it finds the lowest free
      descriptor at or above its bound. */
  method LowestFree(t: Task, minfd: int) returns (fd: int)
    requires TableOk(t)
    ensures minfd <= fd && !HasFd(t, fd) && forall x | minfd <= x < fd :: HasFd(t, x)
  {
    fd := minfd;
    var found := false;
    while !found
      invariant minfd <= fd && (forall x | minfd <= x < fd :: HasFd(t, x))
      invariant found ==> !HasFd(t, fd)
      invariant fd > minfd ==> fd <= t.nextFd
      decreases !found, t.nextFd - fd
    {
      found := true;
      var i := FindFdEntry(t.files, fd);
      if i >= 0 {
        assert t.files[i] in t.files;
        fd := fd + 1;
        found := false;
      }
    }
  }

  lemma EntryPoints(s: State, p: Pid, i: nat)
    requires Ok(s) && p in s.tasks && i < |s.tasks[p].files|
    ensures Points(s, p, s.tasks[p].files[i].fd, s.tasks[p].files[i].file)
    ensures s.tasks[p].files[i].file in s.refcount && TableOk(s.tasks[p])
  {
    assert TableOk(s.tasks[p]) && s.tasks[p].files[i] in s.tasks[p].files;
  }

  /** fs_dup_min */
  method DupMin(s: State, p: Pid, oldfd: int, minfd: int, cloexec: bool, memory: bool) returns (s': State, fd: int, ok: bool)
    requires Ok(s) && p in s.tasks
    ensures Ok(s') && (ok <==> HasFd(s.tasks[p], oldfd) && memory)
    ensures !ok ==> s' == s && fd == -1
    ensures ok ==> minfd <= fd && !HasFd(s.tasks[p], fd) && forall x | minfd <= x < fd :: HasFd(s.tasks[p], x)
    ensures ok ==> exists f :: f in s.refcount && Points(s, p, oldfd, f) && s' == Shared(s, p, FdEntry(fd, f, cloexec))
  {
    s', fd, ok := s, -1, false;
    var t := s.tasks[p];
    var at := FindFdEntry(t.files, oldfd);
    if at >= 0 && memory {
      EntryPoints(s, p, at);
      fd := LowestFree(t, minfd);
      ok := true;
      ShareKeeps(s, p, FdEntry(fd, t.files[at].file, cloexec));
      s' := Shared(s, p, FdEntry(fd, t.files[at].file, cloexec));
    }
  }

  /** Setting the flag of one entry. */
  function SetCloexec(s: State, p: Pid, i: nat, cloexec: bool): State
    requires p in s.tasks && i < |s.tasks[p].files|
  {
    var t := s.tasks[p];
    s.(tasks := s.tasks[p := t.(files := t.files[i := t.files[i].(cloexec := cloexec)])])
  }

  lemma SetCloexecPoints(s: State, p: Pid, i: nat, cloexec: bool, fd: int, f: FileId)
    requires p in s.tasks && i < |s.tasks[p].files|
    ensures Points(SetCloexec(s, p, i, cloexec), p, fd, f) <==> Points(s, p, fd, f)
  {
    var old', new' := s.tasks[p].files, SetCloexec(s, p, i, cloexec).tasks[p].files;
    if Points(SetCloexec(s, p, i, cloexec), p, fd, f) {
      var k :| 0 <= k < |new'| && new'[k].fd == fd && new'[k].file == f;
      assert old'[k] in old';
    }
    if Points(s, p, fd, f) {
      var k :| 0 <= k < |old'| && old'[k].fd == fd && old'[k].file == f;
      assert new'[k] in new';
    }
  }

  lemma SetCloexecTable(t: Task, i: nat, e: FdEntry, x: FdEntry)
    requires TableOk(t) && i < |t.files| && e.fd == t.files[i].fd && e.file == t.files[i].file
    ensures TableOk(t.(files := t.files[i := e]))
    ensures x in t.files[i := e] ==> exists y :: y in t.files && y.file == x.file
  {
    var new' := t.files[i := e];
    forall k | 0 <= k < |new'|
      ensures new'[k].fd == t.files[k].fd && new'[k].file == t.files[k].file && t.files[k] in t.files
    {
    }
    if x in new' {
      var k :| 0 <= k < |new'| && new'[k] == x;
      assert t.files[k] in t.files;
    }
  }

  lemma SetCloexecKeeps(s: State, p: Pid, i: nat, cloexec: bool)
    requires Ok(s) && p in s.tasks && i < |s.tasks[p].files|
    ensures Ok(SetCloexec(s, p, i, cloexec))
    ensures forall fd, f :: Points(SetCloexec(s, p, i, cloexec), p, fd, f) <==> Points(s, p, fd, f)
  {
    var s' := SetCloexec(s, p, i, cloexec);
    forall fd, f
      ensures Points(s', p, fd, f) <==> Points(s, p, fd, f)
    {
      SetCloexecPoints(s, p, i, cloexec, fd, f);
    }
    forall f | f in s.refcount
      ensures Refs(s'.tasks, f) == Refs(s.tasks, f)
    {
      SameRefs(s, s', p, f);
    }
    forall t, x | t in s'.tasks
      ensures TableOk(s'.tasks[t]) && (x in s'.tasks[t].files ==> x.file in s'.refcount)
    {
      assert TableOk(s.tasks[t]);
      if t == p {
        SetCloexecTable(s.tasks[p], i, s.tasks[p].files[i].(cloexec := cloexec), x);
      }
    }
  }

  /** States whose tables point alike have the same references. */
  lemma SameRefs(s: State, s': State, p: Pid, f: FileId)
    requires s.tasks.Keys == s'.tasks.Keys && p in s.tasks
    requires forall q | q in s.tasks && q != p :: s'.tasks[q] == s.tasks[q]
    requires forall fd :: Points(s', p, fd, f) <==> Points(s, p, fd, f)
    ensures Refs(s'.tasks, f) == Refs(s.tasks, f)
  {
    forall t, fd {:trigger (t, fd)}
      ensures (t, fd) in RefSet(s.tasks, f) <==> t in s.tasks && Points(s, t, fd, f)
      ensures (t, fd) in RefSet(s'.tasks, f) <==> t in s.tasks && Points(s', t, fd, f)
    {
    }
    forall t, fd {:trigger (t, fd)}
      ensures (t, fd) in RefSet(s.tasks, f) <==> (t, fd) in RefSet(s'.tasks, f)
    {
      if t in s.tasks && t != p {
        assert Points(s, t, fd, f) <==> Points(s', t, fd, f);
      }
    }
    assert RefSet(s.tasks, f) == RefSet(s'.tasks, f);
  }

  lemma {:induction false} RestKeepsOthers(files: seq<FdEntry>, fd: int)
    requires forall i | 0 <= i < |files| :: files[i].fd != fd
    ensures Rest(files, Range(fd, fd)) == files
  {
    if files != [] {
      assert files[0].fd != fd;
      RestKeepsOthers(files[1..], fd);
    }
  }

  /** With distinct descriptors the entry of one is the only one that goes. */
  lemma {:induction false} RestOfOne(files: seq<FdEntry>, i: nat)
    requires i < |files| && forall j, k | 0 <= j < k < |files| :: files[j].fd != files[k].fd
    ensures Rest(files, Range(files[i].fd, files[i].fd)) == files[..i] + files[i + 1..]
  {
    if i == 0 {
      RestKeepsOthers(files[1..], files[0].fd);
    } else {
      assert files[0].fd != files[i].fd && files[1..][i - 1] == files[i];
      RestOfOne(files[1..], i - 1);
      TailWithout(files, i);
    }
  }

  lemma TailWithout(files: seq<FdEntry>, i: nat)
    requires 0 < i < |files|
    ensures [files[0]] + (files[1..][..i - 1] + files[1..][i..]) == files[..i] + files[i + 1..]
  {
  }

  /** The task's table without the entry of a descriptor, if it has one. */
  function WithoutFd(t: Task, fd: int): Task {
    t.(files := Rest(t.files, Range(fd, fd)))
  }

  /** What dup2 makes of the tables: newfd points to the file of oldfd, with the flag; all other descriptors, in all tasks,
      are as they were. Without memory newfd is closed and stays so. */
  ghost predicate Dup2Done(s: State, p: Pid, oldfd: int, newfd: int, cloexec: bool, memory: bool, s': State)
    requires p in s.tasks
  {
    var t := s.tasks[p];
    if newfd < 0 || !HasFd(t, oldfd) then s' == s
    else if oldfd == newfd then exists i: nat :: i < |t.files| && t.files[i].fd == oldfd && s' == SetCloexec(s, p, i, cloexec)
    else exists f :: Points(s, p, oldfd, f)
           && s'.tasks == s.tasks[p := if memory then WithEntry(WithoutFd(t, newfd), FdEntry(newfd, f, cloexec)) else WithoutFd(t, newfd)]
  }

  method CloseFirst(s: State, p: Pid, fd: int) returns (s': State)
    requires Ok(s) && p in s.tasks
    ensures Ok(s') && s'.tasks == s.tasks[p := WithoutFd(s.tasks[p], fd)] && !HasFd(s'.tasks[p], fd)
    ensures forall x, f | x != fd && Points(s, p, x, f) :: Points(s', p, x, f)
  {
    var t, closed := s.tasks[p], false;
    s', closed := Close(s, p, fd);
    assert TableOk(t);
    if closed {
      var i: nat :| i < |t.files| && t.files[i].fd == fd && t.files[i].file in s.refcount && s' == Closed(s, p, i);
      RestOfOne(t.files, i);
      forall x, f | x != fd && Points(s, p, x, f)
        ensures Points(s', p, x, f)
      {
        var e :| e in t.files && e.fd == x && e.file == f;
        WithoutEntryMembers(t, i, e);
      }
    } else {
      RestKeepsOthers(t.files, fd);
    }
  }

  /** fs_dup2_fd: newfd is closed first, and stays closed if there is no memory for its new entry. */
  method Dup2(s: State, p: Pid, oldfd: int, newfd: int, cloexec: bool, memory: bool) returns (s': State, ok: bool)
    requires Ok(s) && p in s.tasks
    ensures Ok(s') && Dup2Done(s, p, oldfd, newfd, cloexec, memory, s')
    ensures ok <==> newfd >= 0 && HasFd(s.tasks[p], oldfd) && (memory || oldfd == newfd)
  {
    s', ok := s, false;
    var at := FindFdEntry(s.tasks[p].files, oldfd);
    if newfd >= 0 && at >= 0 {
      if oldfd == newfd {
        SetCloexecKeeps(s, p, at, cloexec);
        s', ok := SetCloexec(s, p, at, cloexec), true;
      } else {
        s' := Replace(s, p, newfd, s.tasks[p].files[at], cloexec, memory);
        ok := memory;
      }
    }
  }

  /** The part of fs_dup2_fd for two different descriptors; source is the entry of the other one. */
  method Replace(s: State, p: Pid, newfd: int, source: FdEntry, cloexec: bool, memory: bool) returns (s': State)
    requires Ok(s) && p in s.tasks && source in s.tasks[p].files && source.fd != newfd
    ensures Ok(s') && Points(s, p, source.fd, source.file)
    ensures var t := WithoutFd(s.tasks[p], newfd);
            s'.tasks == s.tasks[p := if memory then WithEntry(t, FdEntry(newfd, source.file, cloexec)) else t]
  {
    assert Points(s, p, source.fd, source.file);
    s' := CloseFirst(s, p, newfd);
    if memory {
      var entry := FdEntry(newfd, source.file, cloexec);
      PointedIsAllocated(s', p, source.fd, source.file);
      ShareKeeps(s', p, entry);
      SetTwice(s.tasks, p, s'.tasks[p], WithEntry(s'.tasks[p], entry));
      s' := Shared(s', p, entry);
    }
  }

  lemma PointedIsAllocated(s: State, p: Pid, fd: int, f: FileId)
    requires Ok(s) && Points(s, p, fd, f)
    ensures f in s.refcount
  {
  }

  /** What a closing loop goes for. */
  datatype Which = Range(first: int, last: int) | OnExec | All

  predicate Chosen(w: Which, e: FdEntry) {
    match w
    case Range(first, last) => first <= e.fd <= last
    case OnExec => e.cloexec
    case All => true
  }

  /** The entries a closing loop leaves, in order. */
  function Rest(files: seq<FdEntry>, w: Which): seq<FdEntry> {
    if files == [] then []
    else (if Chosen(w, files[0]) then [] else [files[0]]) + Rest(files[1..], w)
  }

  lemma {:induction false} RestSplit(a: seq<FdEntry>, b: seq<FdEntry>, w: Which)
    ensures Rest(a + b, w) == Rest(a, w) + Rest(b, w)
  {
    if a == [] {
      assert a + b == b;
    } else {
      assert (a + b)[0] == a[0] && (a + b)[1..] == a[1..] + b;
      RestSplit(a[1..], b, w);
    }
  }

  /** fs_close of the entry at i removes that entry. */
  lemma ClosedHere(s: State, p: Pid, i: nat, s': State)
    requires Ok(s) && p in s.tasks && i < |s.tasks[p].files|
    requires exists j: nat :: j < |s.tasks[p].files| && s.tasks[p].files[j].fd == s.tasks[p].files[i].fd && s.tasks[p].files[j].file in s.refcount
                              && s' == Closed(s, p, j)
    ensures s'.tasks == s.tasks[p := WithoutEntry(s.tasks[p], i)]
  {
    var j: nat :| j < |s.tasks[p].files| && s.tasks[p].files[j].fd == s.tasks[p].files[i].fd && s.tasks[p].files[j].file in s.refcount
                  && s' == Closed(s, p, j);
    assert TableOk(s.tasks[p]);
  }

  /** Only the entries of task p differ. */
  ghost predicate Elsewhere(s: State, s': State, p: Pid) {
    && p in s.tasks && p in s'.tasks
    && s'.tasks == s.tasks[p := Task(s'.tasks[p].files, s.tasks[p].nextFd, s.tasks[p].limit)]
  }

  lemma ElsewhereTrans(a: State, b: State, c: State, p: Pid)
    requires Elsewhere(a, b, p) && Elsewhere(b, c, p)
    ensures Elsewhere(a, c, p)
  {
  }

  /** fs_close on the entry at i. */
  method CloseAt(s: State, p: Pid, i: nat) returns (s': State)
    requires Ok(s) && p in s.tasks && i < |s.tasks[p].files|
    ensures Ok(s') && s'.tasks == s.tasks[p := WithoutEntry(s.tasks[p], i)]
    ensures Elsewhere(s, s', p) && |s'.tasks[p].files| == |s.tasks[p].files| - 1
    ensures s'.tasks[p].files == s.tasks[p].files[..i] + s.tasks[p].files[i + 1..]
  {
    var ok;
    s', ok := Close(s, p, s.tasks[p].files[i].fd);
    assert HasFd(s.tasks[p], s.tasks[p].files[i].fd);
    ClosedHere(s, p, i, s');
  }

  /** Where a closing loop stands: the entries before n are dealt with. */
  ghost predicate Underway(files: seq<FdEntry>, all: seq<FdEntry>, w: Which, i: nat, n: nat) {
    n <= |all| && i == |Rest(all[..n], w)| && files == Rest(all[..n], w) + all[n..]
  }

  lemma LoopStep(files: seq<FdEntry>, all: seq<FdEntry>, w: Which, i: nat, n: nat)
    requires Underway(files, all, w, i, n) && i < |files|
    ensures n < |all| && files[i] == all[n]
    ensures if Chosen(w, files[i]) then Underway(files[..i] + files[i + 1..], all, w, i, n + 1) else Underway(files, all, w, i + 1, n + 1)
  {
    var e := files[i];
    assert e == all[n];
    RestSplit(all[..n], [e], w);
    assert all[..n + 1] == all[..n] + [e];
    assert [e][1..] == [];
    assert all[n..] == [e] + all[n + 1..];
    assert files[..i] == Rest(all[..n], w) && files[i + 1..] == all[n + 1..];
  }

  /** What holds between two turns of a closing loop at index i. */
  ghost predicate Closing(s: State, s': State, p: Pid, w: Which, i: nat, closed: nat) {
    && Elsewhere(s, s', p)
    && |s'.tasks[p].files| == |s.tasks[p].files| - closed
    && Underway(s'.tasks[p].files, s.tasks[p].files, w, i, i + closed)
  }

  lemma OneClosed(s: State, now: State, s': State, p: Pid, w: Which, i: nat, closed: nat)
    requires Closing(s, now, p, w, i, closed) && i < |now.tasks[p].files| && Chosen(w, now.tasks[p].files[i])
    requires Elsewhere(now, s', p) && s'.tasks[p].files == now.tasks[p].files[..i] + now.tasks[p].files[i + 1..]
    ensures Closing(s, s', p, w, i, closed + 1)
  {
    LoopStep(now.tasks[p].files, s.tasks[p].files, w, i, i + closed);
    ElsewhereTrans(s, now, s', p);
  }

  lemma OneKept(s: State, now: State, p: Pid, w: Which, i: nat, closed: nat)
    requires Closing(s, now, p, w, i, closed) && i < |now.tasks[p].files| && !Chosen(w, now.tasks[p].files[i])
    ensures Closing(s, now, p, w, i + 1, closed)
  {
    LoopStep(now.tasks[p].files, s.tasks[p].files, w, i, i + closed);
  }

  /** One turn of list_for_each_safe. */
  method CloseTurn(s: State, now: State, p: Pid, w: Which, i: nat, closed: nat) returns (s': State, i': nat, closed': nat)
    requires Ok(now) && Closing(s, now, p, w, i, closed) && i < |now.tasks[p].files|
    ensures Ok(s') && Closing(s, s', p, w, i', closed') && |s'.tasks[p].files| - i' < |now.tasks[p].files| - i
  {
    s', i', closed' := now, i, closed;
    if Chosen(w, now.tasks[p].files[i]) {
      s' := CloseAt(now, p, i);
      OneClosed(s, now, s', p, w, i, closed);
      closed' := closed + 1;
    } else {
      OneKept(s, now, p, w, i, closed);
      i' := i + 1;
    }
  }

  lemma ClosingEnds(s: State, s': State, p: Pid, w: Which, i: nat, closed: nat)
    requires Closing(s, s', p, w, i, closed) && i >= |s'.tasks[p].files|
    ensures Elsewhere(s, s', p) && s'.tasks[p].files == Rest(s.tasks[p].files, w)
    ensures closed == |s.tasks[p].files| - |s'.tasks[p].files|
  {
    var all := s.tasks[p].files;
    assert all[..|all|] == all;
  }

  /** list_for_each_safe with fs_close on the chosen entries (fs_close_range, fs_close_on_exec, do_exit): exactly they
      are closed, and each file that loses its last entry is released. */
  method CloseChosen(s: State, p: Pid, w: Which) returns (s': State, closed: nat)
    requires Ok(s) && p in s.tasks
    ensures Ok(s') && Elsewhere(s, s', p) && s'.tasks[p].files == Rest(s.tasks[p].files, w)
    ensures closed == |s.tasks[p].files| - |s'.tasks[p].files|
  {
    s', closed := s, 0;
    var i: nat := 0;
    assert s.tasks[p].files[..0] == [];
    while i < |s'.tasks[p].files|
      invariant Ok(s') && Closing(s, s', p, w, i, closed)
      decreases |s'.tasks[p].files| - i
    {
      s', i, closed := CloseTurn(s, s', p, w, i, closed);
    }
    ClosingEnds(s, s', p, w, i, closed);
  }

  /** The conversion of an unsigned argument to int. */
  function AsInt(u: nat): int
    requires u < WORD
  {
    if u >= WORD / 2 then u - WORD else u
  }

  /** fs_close_range */
  method CloseRange(s: State, p: Pid, first: nat, last: nat) returns (s': State, closed: nat)
    requires Ok(s) && p in s.tasks && first < WORD && last < WORD
    ensures Ok(s') && Elsewhere(s, s', p)
    ensures s'.tasks[p].files == Rest(s.tasks[p].files, Range(AsInt(first), AsInt(last)))
    ensures closed == |s.tasks[p].files| - |s'.tasks[p].files|
  {
    s', closed := CloseChosen(s, p, Range(AsInt(first), AsInt(last)));
  }

  /** fs_close_range compares as signed numbers: a range reaching 2 to the 31st or more closes nothing. It closes what
      it should exactly when the range ends below that or no descriptor is in it. */
  lemma CloseRangeIsExact(files: seq<FdEntry>, first: nat, last: nat)
    requires first <= last < WORD && forall e | e in files :: 0 <= e.fd < WORD / 2
    ensures (forall e | e in files :: Chosen(Range(AsInt(first), AsInt(last)), e) <==> first <= e.fd <= last)
            <==> last < WORD / 2 || forall e | e in files :: e.fd < first
  {
    if last >= WORD / 2 && !(forall e | e in files :: e.fd < first) {
      var e :| e in files && e.fd >= first;
      assert !Chosen(Range(AsInt(first), AsInt(last)), e) && first <= e.fd <= last;
    }
  }

  /** A range from 3 to the largest number leaves descriptor 3 open. */
  lemma OpenEndedRangeClosesNothing()
    ensures Rest([FdEntry(3, 5, false)], Range(AsInt(3), AsInt(WORD - 1))) == [FdEntry(3, 5, false)]
  {
    var files := [FdEntry(3, 5, false)];
    assert files[1..] == [];
  }

  /** The child has the first n entries, and their files one more reference each. */
  ghost predicate Copied(s: State, child: Pid, t: Task, n: nat, s': State) {
    && n <= |t.files| && Ok(s') && s'.tasks == s.tasks[child := Task(t.files[..n], t.nextFd, t.limit)]
    && s'.refcount.Keys == s.refcount.Keys && (n == 0 ==> s'.refcount == s.refcount)
  }

  /** The copying loop of fork: the child gets the first n entries. */
  method CopyEntries(s: State, child: Pid, t: Task, n: nat) returns (s': State)
    requires Ok(s) && child !in s.tasks && n <= |t.files| && TableOk(t) && forall e | e in t.files :: e.file in s.refcount
    ensures Copied(s, child, t, n, s')
  {
    s' := s.(tasks := s.tasks[child := Task([], t.nextFd, t.limit)]);
    NothingCopied(s, child, t);
    var i := 0;
    while i < n
      invariant i <= n && Copied(s, child, t, i, s')
    {
      s' := CopyEntry(s, s', child, t, i);
      i := i + 1;
    }
  }

  lemma NothingCopied(s: State, child: Pid, t: Task)
    requires Ok(s) && child !in s.tasks
    ensures Copied(s, child, t, 0, s.(tasks := s.tasks[child := Task([], t.nextFd, t.limit)]))
  {
    EmptyTaskKeeps(s, child, Task([], t.nextFd, t.limit));
    assert t.files[..0] == [];
  }

  /** One turn of that loop. */
  method CopyEntry(ghost s: State, now: State, child: Pid, t: Task, i: nat) returns (s': State)
    requires Copied(s, child, t, i, now) && i < |t.files| && TableOk(t) && t.files[i].file in s.refcount
    ensures Copied(s, child, t, i + 1, s')
  {
    PrefixTable(t, i);
    ShareKeeps(now, child, t.files[i]);
    SetTwice(s.tasks, child, Task(t.files[..i], t.nextFd, t.limit), Task(t.files[..i + 1], t.nextFd, t.limit));
    s' := Shared(now, child, t.files[i]);
  }

  lemma SetTwice(tasks: map<Pid, Task>, p: Pid, t: Task, u: Task)
    ensures tasks[p := t][p := u] == tasks[p := u]
  {
  }

  /** The entry at i is not in the table of those before it, and with it they are those up to i. */
  lemma PrefixTable(t: Task, i: nat)
    requires i < |t.files| && TableOk(t)
    ensures !HasFd(Task(t.files[..i], t.nextFd, t.limit), t.files[i].fd)
    ensures WithEntry(Task(t.files[..i], t.nextFd, t.limit), t.files[i]) == Task(t.files[..i + 1], t.nextFd, t.limit)
  {
    assert t.files[i] in t.files;
    assert t.files[..i + 1] == t.files[..i] + [t.files[i]];
  }

  /** The descriptor part of fork. failAt says after how many copied entries memory runs out, if it does; at the length of
      the list, a later step of fork fails. The failure path frees the child without putting its files. */
  method Fork(s: State, parent: Pid, child: Pid, failAt: int) returns (s': State, ok: bool)
    requires Ok(s) && parent in s.tasks && child !in s.tasks && failAt <= |s.tasks[parent].files|
    ensures ok <==> failAt < 0
    ensures ok ==> Ok(s') && s'.tasks == s.tasks[child := s.tasks[parent]]
    ensures !ok ==> s'.tasks == s.tasks && (Ok(s') <==> failAt == 0)
  {
    var t := s.tasks[parent];
    ok := failAt < 0;
    TableIsOk(s, parent);
    s' := CopyEntries(s, child, t, if ok then |t.files| else failAt);
    if ok {
      assert t.files[..|t.files|] == t.files;
    } else {
      ghost var full := s';
      s' := s'.(tasks := s'.tasks - {child});
      ChildDropped(s.tasks, child, full.tasks[child]);
      LeakedCounts(s, full, child, s');
    }
  }

  lemma TableIsOk(s: State, p: Pid)
    requires Ok(s) && p in s.tasks
    ensures TableOk(s.tasks[p]) && forall e | e in s.tasks[p].files :: e.file in s.refcount
  {
  }

  lemma ChildDropped(tasks: map<Pid, Task>, child: Pid, t: Task)
    requires child !in tasks
    ensures tasks[child := t] - {child} == tasks
  {
  }

  /** A task with one open file: a fork that fails after the entry was copied leaves a count of 2 for one entry. */
  lemma FailedForkLeaks()
    ensures var parent, child := Task([FdEntry(0, 5, false)], 1, RLIM_INFINITY), 2;
            var copied := State(map[1 := parent, child := parent], map[5 := 2]);
            && Ok(State(map[1 := parent], map[5 := 1])) && Ok(copied)
            && !Ok(State(copied.tasks - {child}, copied.refcount))
  {
    var e := FdEntry(0, 5, false);
    var parent := Task([e], 1, RLIM_INFINITY);
    var one, both := map[1 := parent], map[1 := parent, 2 := parent];
    assert e in parent.files;
    forall t, x {:trigger (t, x)}
      ensures (t, x) in RefSet(one, 5) <==> t == 1 && x == 0
      ensures (t, x) in RefSet(both, 5) <==> (t == 1 || t == 2) && x == 0
    {
      if t in both && x == 0 {
        assert e in both[t].files;
      }
    }
    assert RefSet(one, 5) == {(1, 0)} && RefSet(both, 5) == {(1, 0), (2, 0)};
    assert both - {2} == one;
    assert Refs(one, 5) == 1;
    assert 5 in State(one, map[5 := 2]).refcount;
  }

  lemma EmptyTaskKeeps(s: State, p: Pid, t: Task)
    requires Ok(s) && p !in s.tasks && t.files == []
    ensures Ok(s.(tasks := s.tasks[p := t]))
  {
    var s' := s.(tasks := s.tasks[p := t]);
    forall f | f in s.refcount
      ensures Refs(s'.tasks, f) == Refs(s.tasks, f)
    {
      forall q, x {:trigger (q, x)}
        ensures (q, x) in RefSet(s'.tasks, f) <==> (q, x) in RefSet(s.tasks, f)
      {
        if (q, x) in RefSet(s'.tasks, f) {
          var y :| q in s'.tasks && y in s'.tasks[q].files && y.file == f && y.fd == x;
          assert q in s.tasks && y in s.tasks[q].files;
        }
        if (q, x) in RefSet(s.tasks, f) {
          var y :| q in s.tasks && y in s.tasks[q].files && y.file == f && y.fd == x;
          assert q in s'.tasks && y in s'.tasks[q].files;
        }
      }
      assert RefSet(s'.tasks, f) == RefSet(s.tasks, f);
    }
    forall q | q in s'.tasks
      ensures TableOk(s'.tasks[q]) && forall e | e in s'.tasks[q].files :: e.file in s'.refcount
    {
      assert q != p ==> TableOk(s.tasks[q]);
    }
  }

  /** Dropping a child with entries leaves its references behind. */
  lemma LeakedCounts(s: State, full: State, child: Pid, s': State)
    requires Ok(s) && Ok(full) && child !in s.tasks && child in full.tasks
    requires full.tasks - {child} == s.tasks && s' == State(s.tasks, full.refcount)
    requires full.tasks[child].files == [] ==> full.refcount == s.refcount
    ensures Ok(s') <==> full.tasks[child].files == []
  {
    if full.tasks[child].files != [] {
      var e := full.tasks[child].files[0];
      assert TableOk(full.tasks[child]) && e in full.tasks[child].files;
      assert full.refcount[e.file] == Refs(full.tasks, e.file);
      assert (child, e.fd) in RefSet(full.tasks, e.file) && (child, e.fd) !in RefSet(s.tasks, e.file);
      forall t, x {:trigger (t, x)} | (t, x) in RefSet(s.tasks, e.file)
        ensures (t, x) in RefSet(full.tasks, e.file)
      {
        var y :| t in s.tasks && y in s.tasks[t].files && y.file == e.file && y.fd == x;
        assert full.tasks[t] == s.tasks[t];
      }
      SmallerSet(RefSet(s.tasks, e.file), RefSet(full.tasks, e.file), (child, e.fd));
      assert s'.refcount[e.file] != Refs(s'.tasks, e.file);
    }
  }

  lemma SmallerSet(a: set<(Pid, int)>, b: set<(Pid, int)>, x: (Pid, int))
    requires a <= b && x in b && x !in a
    ensures |a| < |b|
  {
    assert b == a + (b - a) && x in b - a;
  }

  /** Every task has the same entries. */
  ghost predicate SameTables(a: State, b: State) {
    && a.tasks.Keys == b.tasks.Keys
    && (forall p | p in a.tasks :: a.tasks[p].files == b.tasks[p].files)
  }

  /** The same tables hold the same references. */
  lemma SameTablesSameRefs(a: State, b: State, f: FileId)
    requires SameTables(a, b)
    ensures Refs(a.tasks, f) == Refs(b.tasks, f)
  {
    assert RefSet(a.tasks, f) == RefSet(b.tasks, f);
  }

  /** A file is allocated while it has references, and counts them. */
  lemma CountIsRefs(s: State, f: FileId)
    requires Ok(s)
    ensures f in s.refcount <==> Refs(s.tasks, f) > 0
    ensures f in s.refcount ==> s.refcount[f] == Refs(s.tasks, f)
  {
    if f !in s.refcount {
      NoRefs(s, f);
    }
  }

  /** A file is allocated with the same count where the tables are the same. */
  lemma SameCount(a: State, b: State, f: FileId)
    requires Ok(a) && Ok(b) && SameTables(a, b)
    ensures f in a.refcount <==> f in b.refcount
    ensures f in a.refcount ==> a.refcount[f] == b.refcount[f]
  {
    SameTablesSameRefs(a, b, f);
    CountIsRefs(a, f);
    CountIsRefs(b, f);
  }

  /** The tables determine the counts and which files are allocated. */
  lemma CountsAreDetermined(a: State, b: State)
    requires Ok(a) && Ok(b) && SameTables(a, b)
    ensures a.refcount == b.refcount
  {
    forall f: FileId
      ensures f in a.refcount <==> f in b.refcount
      ensures f in a.refcount ==> a.refcount[f] == b.refcount[f]
    {
      SameCount(a, b, f);
    }
  }

  /** The two counts of a pipe, while it is allocated. */
  datatype PipeEnds = NoPipe | Ends(readers: nat, writers: nat)

  /** pipe_read_release and pipe_write_release: the pipe goes when both counts are zero. */
  function ReadReleased(e: PipeEnds): PipeEnds {
    if e.NoPipe? then e
    else
      var readers := if e.readers > 0 then e.readers - 1 else 0;
      if readers == 0 && e.writers == 0 then NoPipe else Ends(readers, e.writers)
  }

  function WriteReleased(e: PipeEnds): PipeEnds {
    if e.NoPipe? then e
    else
      var writers := if e.writers > 0 then e.writers - 1 else 0;
      if e.readers == 0 && writers == 0 then NoPipe else Ends(e.readers, writers)
  }

  /** What a failed fs_pipe leaves of the task: perhaps the number of the read end is used up. */
  function AfterFailedPipe(t: Task, memory: nat): Task {
    if UnderLimit(t, 1) && memory >= 3 then t.(nextFd := t.nextFd + 1) else t
  }

  /** The descriptors of fs_pipe, and the pipe with its counts. memory is the number of allocations that succeed: the pipe,
      then file and entry of the read end, then those of the write end. A failure at the read end releases one end only, so
      the pipe stays allocated with a writer; a later one takes back everything but the number of the read end. */
  method PipeFds(s: State, p: Pid, rfile: FileId, wfile: FileId, memory: nat) returns (s': State, pipe: PipeEnds, ok: bool)
    requires Ok(s) && p in s.tasks && rfile !in s.refcount && wfile !in s.refcount && rfile != wfile
    ensures Ok(s') && (ok <==> UnderLimit(s.tasks[p], 1) && memory >= 5)
    ensures var t := s.tasks[p];
            if ok then s' == Opened(Opened(s, p, FdEntry(t.nextFd, rfile, false)), p, FdEntry(t.nextFd + 1, wfile, false))
            else s' == s.(tasks := s.tasks[p := AfterFailedPipe(t, memory)])
    ensures pipe == if !UnderLimit(s.tasks[p], 1) then NoPipe else if memory >= 5 then Ends(1, 1)
                    else if memory == 1 || memory == 2 then Ends(0, 1) else NoPipe
  {
    s', pipe, ok := s, NoPipe, false;
    if UnderLimit(s.tasks[p], 1) && memory >= 1 {
      pipe := Ends(1, 1);
      if memory < 3 {
        pipe := ReadReleased(pipe);
      } else {
        s' := PipeEntries(s, p, rfile, wfile, memory);
        ok := memory >= 5;
        if !ok {
          pipe := WriteReleased(ReadReleased(pipe));
        }
      }
    }
    assert s.tasks[p := s.tasks[p]] == s.tasks;
  }

  /** The part of fs_pipe once the entry of the read end can be had. */
  method PipeEntries(s: State, p: Pid, rfile: FileId, wfile: FileId, memory: nat) returns (s': State)
    requires Ok(s) && p in s.tasks && rfile !in s.refcount && wfile !in s.refcount && rfile != wfile && memory >= 3
    ensures Ok(s')
    ensures var t := s.tasks[p];
            s' == if memory >= 5 then Opened(Opened(s, p, FdEntry(t.nextFd, rfile, false)), p, FdEntry(t.nextFd + 1, wfile, false))
                  else s.(tasks := s.tasks[p := t.(nextFd := t.nextFd + 1)])
  {
    s' := OpenNext(s, p, rfile);
    if memory >= 5 {
      s' := OpenNext(s', p, wfile);
    } else {
      s' := DropLast(s, s', p, rfile);
    }
  }

  /** A new file at the next descriptor. */
  method OpenNext(s: State, p: Pid, file: FileId) returns (s': State)
    requires Ok(s) && p in s.tasks && file !in s.refcount
    ensures Ok(s') && s' == Opened(s, p, FdEntry(s.tasks[p].nextFd, file, false))
  {
    TableIsOk(s, p);
    NextFdIsFree(s.tasks[p]);
    OpenKeeps(s, p, FdEntry(s.tasks[p].nextFd, file, false));
    s' := Opened(s, p, FdEntry(s.tasks[p].nextFd, file, false));
  }

  /** fs_close of the descriptor that was just opened. */
  method DropLast(s: State, now: State, p: Pid, file: FileId) returns (s': State)
    requires Ok(s) && Ok(now) && p in s.tasks && file !in s.refcount
    requires now == Opened(s, p, FdEntry(s.tasks[p].nextFd, file, false))
    ensures Ok(s') && s' == s.(tasks := s.tasks[p := s.tasks[p].(nextFd := s.tasks[p].nextFd + 1)])
  {
    s' := CloseAt(now, p, |s.tasks[p].files|);
    LastEntryGone(s.tasks, p, FdEntry(s.tasks[p].nextFd, file, false));
    NextFdIsLast(s, p);
    TablesDetermine(s.(tasks := s.tasks[p := s.tasks[p].(nextFd := s.tasks[p].nextFd + 1)]), s');
  }

  lemma LastEntryGone(tasks: map<Pid, Task>, p: Pid, e: FdEntry)
    requires p in tasks && e.fd == tasks[p].nextFd
    ensures var t := WithEntry(tasks[p], e);
            tasks[p := t][p := WithoutEntry(t, |tasks[p].files|)] == tasks[p := tasks[p].(nextFd := e.fd + 1)]
  {
    assert WithoutEntry(WithEntry(tasks[p], e), |tasks[p].files|).files == tasks[p].files;
  }

  lemma TablesDetermine(a: State, b: State)
    requires Ok(a) && Ok(b) && a.tasks == b.tasks
    ensures a == b
  {
    CountsAreDetermined(a, b);
  }

  /** A used-up number matters to no count. */
  lemma NextFdIsLast(s: State, p: Pid)
    requires Ok(s) && p in s.tasks
    ensures Ok(s.(tasks := s.tasks[p := s.tasks[p].(nextFd := s.tasks[p].nextFd + 1)]))
  {
    var s' := s.(tasks := s.tasks[p := s.tasks[p].(nextFd := s.tasks[p].nextFd + 1)]);
    forall f
      ensures Refs(s'.tasks, f) == Refs(s.tasks, f)
    {
      SameRefs(s, s', p, f);
    }
    forall t | t in s'.tasks
      ensures TableOk(s'.tasks[t]) && forall e | e in s'.tasks[t].files :: e.file in s'.refcount
    {
      assert TableOk(s.tasks[t]);
    }
  }
}
