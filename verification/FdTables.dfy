/** Descriptor tables and the references to open files that they hold (fs/vfs.c, kernel/process.c). */
module FdTables {
  type Pid = int

  /** The address of an open_file_t. */
  type FileId = int

  datatype FdEntry = FdEntry(fd: int, file: FileId, cloexec: bool)

  const RLIM_INFINITY := -1

  /** files in list order, next_fd, and RLIMIT_NOFILE. */
  datatype Task = Task(files: seq<FdEntry>, nextFd: int, limit: int)

  /** The tasks, and the reference counts of the allocated open files. */
  datatype State = State(tasks: map<Pid, Task>, refcount: map<FileId, int>)

  /** The fd entries over all tasks that point to a file. */
  ghost function RefSet(tasks: map<Pid, Task>, f: FileId): set<(Pid, int)> {
    set t, e | t in tasks && e in tasks[t].files && e.file == f :: (t, e.fd)
  }

  ghost function Refs(tasks: map<Pid, Task>, f: FileId): nat {
    |RefSet(tasks, f)|
  }

  /** fds in a task are distinct and below next_fd. */
  ghost predicate TableOk(t: Task) {
    && (forall i, j | 0 <= i < j < |t.files| :: t.files[i].fd != t.files[j].fd)
    && (forall e | e in t.files :: e.fd < t.nextFd)
  }

  /** Each allocated file has as many references as fd entries point to it, and at least one. */
  ghost predicate Ok(s: State) {
    && (forall t {:trigger s.tasks[t]} | t in s.tasks :: TableOk(s.tasks[t]) && forall e | e in s.tasks[t].files :: e.file in s.refcount)
    && (forall f {:trigger s.refcount[f]} | f in s.refcount :: s.refcount[f] == Refs(s.tasks, f) && s.refcount[f] > 0)
  }

  /** The task's table with one more entry at the end. */
  function WithEntry(t: Task, e: FdEntry): Task {
    Task(t.files + [e], if e.fd >= t.nextFd then e.fd + 1 else t.nextFd, t.limit)
  }

  /** The task's table without the entry at an index. */
  function WithoutEntry(t: Task, i: nat): Task
    requires i < |t.files|
  {
    t.(files := t.files[..i] + t.files[i + 1..])
  }

  ghost predicate HasFd(t: Task, fd: int) {
    exists i :: 0 <= i < |t.files| && t.files[i].fd == fd
  }

  lemma RefSetPlus(tasks: map<Pid, Task>, p: Pid, e: FdEntry, f: FileId)
    requires p in tasks && !HasFd(tasks[p], e.fd)
    ensures var tasks' := tasks[p := WithEntry(tasks[p], e)];
            && RefSet(tasks', f) == RefSet(tasks, f) + (if e.file == f then {(p, e.fd)} else {})
            && (p, e.fd) !in RefSet(tasks, f)
  {
    var tasks' := tasks[p := WithEntry(tasks[p], e)];
    assert forall x :: x in tasks'[p].files <==> x in tasks[p].files || x == e;
    forall t, x {:trigger (t, x)} | (t, x) in RefSet(tasks, f)
      ensures (t, x) != (p, e.fd) && (t, x) in RefSet(tasks', f)
    {
      var y :| t in tasks && y in tasks[t].files && y.file == f && y.fd == x;
      assert y in tasks'[t].files;
    }
    if e.file == f {
      assert e in tasks'[p].files;
    }
  }

  lemma RefsPlus(tasks: map<Pid, Task>, p: Pid, e: FdEntry, f: FileId)
    requires p in tasks && !HasFd(tasks[p], e.fd)
    ensures Refs(tasks[p := WithEntry(tasks[p], e)], f) == Refs(tasks, f) + if e.file == f then 1 else 0
  {
    RefSetPlus(tasks, p, e, f);
  }

  lemma WithoutEntryMembers(t: Task, i: nat, x: FdEntry)
    requires TableOk(t) && i < |t.files|
    ensures x in WithoutEntry(t, i).files <==> x in t.files && x.fd != t.files[i].fd
  {
    var s := WithoutEntry(t, i).files;
    if x in s {
      var j :| 0 <= j < |s| && s[j] == x;
      assert x == t.files[if j < i then j else j + 1];
    }
    if x in t.files && x.fd != t.files[i].fd {
      var j :| 0 <= j < |t.files| && t.files[j] == x;
      assert s[if j < i then j else j - 1] == x;
    }
  }

  lemma RefsMinus(tasks: map<Pid, Task>, p: Pid, i: nat, f: FileId)
    requires p in tasks && TableOk(tasks[p]) && i < |tasks[p].files|
    ensures Refs(tasks[p := WithoutEntry(tasks[p], i)], f) == Refs(tasks, f) - if tasks[p].files[i].file == f then 1 else 0
  {
    var e := tasks[p].files[i];
    var tasks' := tasks[p := WithoutEntry(tasks[p], i)];
    forall x
      ensures x in tasks'[p].files <==> x in tasks[p].files && x.fd != e.fd
    {
      WithoutEntryMembers(tasks[p], i, x);
    }
    var before, after := RefSet(tasks, f), RefSet(tasks', f);
    forall t, x {:trigger (t, x)}
      ensures (t, x) in after <==> (t, x) in before && (t, x) != (p, e.fd)
    {
      if (t, x) in after {
        var y :| t in tasks' && y in tasks'[t].files && y.file == f && y.fd == x;
        assert y in tasks[t].files;
      }
      if (t, x) in before && (t, x) != (p, e.fd) {
        var y :| t in tasks && y in tasks[t].files && y.file == f && y.fd == x;
        assert y in tasks'[t].files;
      }
    }
    assert after == before - {(p, e.fd)};
    if e.file == f {
      assert e in tasks[p].files;
      assert (p, e.fd) in before;
    } else {
      assert forall y | y in tasks[p].files && y.fd == e.fd :: y == e;
    }
  }

  /** One more entry for a file that is already open. */
  ghost predicate Shares(s: State, p: Pid, e: FdEntry) {
    p in s.tasks && !HasFd(s.tasks[p], e.fd) && e.file in s.refcount
  }

  function Shared(s: State, p: Pid, e: FdEntry): State
    requires p in s.tasks && e.file in s.refcount
  {
    State(s.tasks[p := WithEntry(s.tasks[p], e)], s.refcount[e.file := s.refcount[e.file] + 1])
  }

  lemma ShareKeeps(s: State, p: Pid, e: FdEntry)
    requires Ok(s) && Shares(s, p, e)
    ensures Ok(Shared(s, p, e))
  {
    var s' := Shared(s, p, e);
    assert TableOk(s.tasks[p]);
    forall f | f in s'.refcount
      ensures s'.refcount[f] == Refs(s'.tasks, f) && s'.refcount[f] > 0
    {
      RefsPlus(s.tasks, p, e, f);
    }
    forall t | t in s'.tasks
      ensures TableOk(s'.tasks[t]) && forall x | x in s'.tasks[t].files :: x.file in s'.refcount
    {
      assert TableOk(s.tasks[t]);
    }
  }

  /** A new open file with its first entry. */
  function Opened(s: State, p: Pid, e: FdEntry): State
    requires p in s.tasks
  {
    State(s.tasks[p := WithEntry(s.tasks[p], e)], s.refcount[e.file := 1])
  }

  lemma OpenKeeps(s: State, p: Pid, e: FdEntry)
    requires Ok(s) && p in s.tasks && !HasFd(s.tasks[p], e.fd) && e.file !in s.refcount
    ensures Ok(Opened(s, p, e))
  {
    var s' := Opened(s, p, e);
    assert TableOk(s.tasks[p]);
    forall f | f in s'.refcount
      ensures s'.refcount[f] == Refs(s'.tasks, f) && s'.refcount[f] > 0
    {
      RefsPlus(s.tasks, p, e, f);
      if f == e.file {
        NoRefs(s, f);
      }
    }
    forall t | t in s'.tasks
      ensures TableOk(s'.tasks[t]) && forall x | x in s'.tasks[t].files :: x.file in s'.refcount
    {
      assert TableOk(s.tasks[t]);
    }
  }

  /** Nothing points to a file that is not allocated. */
  lemma NoRefs(s: State, f: FileId)
    requires Ok(s) && f !in s.refcount
    ensures Refs(s.tasks, f) == 0
  {
    forall t, e | t in s.tasks && e in s.tasks[t].files
      ensures e.file != f
    {
      assert TableOk(s.tasks[t]);
    }
    assert RefSet(s.tasks, f) == {};
  }

  /** open_file_put: the file goes with its last reference. */
  function Put(refcount: map<FileId, int>, f: FileId): map<FileId, int>
    requires f in refcount
  {
    if refcount[f] - 1 == 0 then refcount - {f} else refcount[f := refcount[f] - 1]
  }

  function Closed(s: State, p: Pid, i: nat): State
    requires p in s.tasks && i < |s.tasks[p].files| && s.tasks[p].files[i].file in s.refcount
  {
    State(s.tasks[p := WithoutEntry(s.tasks[p], i)], Put(s.refcount, s.tasks[p].files[i].file))
  }

  /** Closing an entry releases the file exactly when no other entry of any task points to it. */
  lemma CloseKeeps(s: State, p: Pid, i: nat)
    requires Ok(s) && p in s.tasks && i < |s.tasks[p].files|
    ensures s.tasks[p].files[i].file in s.refcount
    ensures Ok(Closed(s, p, i))
    ensures var f := s.tasks[p].files[i].file;
            f !in Closed(s, p, i).refcount <==> Refs(Closed(s, p, i).tasks, f) == 0
  {
    var e := s.tasks[p].files[i];
    assert TableOk(s.tasks[p]) && e in s.tasks[p].files;
    var s' := Closed(s, p, i);
    forall f | f in s.refcount
      ensures f in s'.refcount <==> Refs(s'.tasks, f) > 0
      ensures f in s'.refcount ==> s'.refcount[f] == Refs(s'.tasks, f)
    {
      RefsMinus(s.tasks, p, i, f);
    }
    forall t | t in s'.tasks
      ensures TableOk(s'.tasks[t]) && forall x | x in s'.tasks[t].files :: x.file in s'.refcount
    {
      assert TableOk(s.tasks[t]);
      forall x | x in s'.tasks[t].files
        ensures x in s.tasks[t].files && x.file in s'.refcount
      {
        if t == p {
          WithoutEntryMembers(s.tasks[p], i, x);
        }
        assert (t, x.fd) in RefSet(s'.tasks, x.file);
        assert x.file in s.refcount;
      }
      if t == p {
        WithoutEntryKeepsTable(s.tasks[p], i);
      }
    }
  }

  lemma WithoutEntryKeepsTable(t: Task, i: nat)
    requires TableOk(t) && i < |t.files|
    ensures TableOk(WithoutEntry(t, i)) && !HasFd(WithoutEntry(t, i), t.files[i].fd)
  {
    var t' := WithoutEntry(t, i);
    forall j | 0 <= j < |t'.files|
      ensures t'.files[j] == t.files[if j < i then j else j + 1]
    {
    }
  }
}
