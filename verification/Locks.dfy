/** Whole-file and record locks on open files (fs/locks.c). */
module Locks {
  import opened FdTables
  import opened OpenFiles

  datatype LockType = Shared | Exclusive

  /** A word of the machine. */
  type Word = x: int | 0 <= x < WORD

  /** A record lock: a read (Shared) or write (Exclusive) lock of a process on a byte range; length 0 means to the end. */
  datatype Record = Record(kind: LockType, start: Word, len: Word, owner: Pid)

  /** The open files' locks, and which underlying file each open file is for. */
  datatype LockState = LockState(flocks: map<FileId, LockType>, records: map<FileId, seq<Record>>, inode: map<FileId, int>)

  /** same_file, when the file system can stat both. */
  predicate SameFile(l: LockState, a: FileId, b: FileId) {
    a in l.inode && b in l.inode && l.inode[a] == l.inode[b]
  }

  /** ranges_overlap, on 32-bit words. */
  predicate RangesOverlap(aStart: Word, aLen: Word, bStart: Word, bLen: Word) {
    var aEnd := if aLen != 0 then (aStart + aLen) % WORD else WORD - 1;
    var bEnd := if bLen != 0 then (bStart + bLen) % WORD else WORD - 1;
    aStart < bEnd && bStart < aEnd
  }

  /** A byte of a range; a range to the end covers everything but the last offset. */
  predicate Covers(start: Word, len: Word, x: int) {
    start <= x && (if len != 0 then x < start + len else x < WORD - 1)
  }

  /** The range does not wrap around, or its end, as a word, is behind t all the same. */
  predicate EndsBehind(start: Word, len: Word, t: Word) {
    len == 0 || start + len < WORD || t < start + len - WORD
  }

  /** Two ranges are found to overlap exactly when they share a byte and neither wraps to an end before the other's start. */
  lemma OverlapIsSharedByte(aStart: Word, aLen: Word, bStart: Word, bLen: Word)
    ensures RangesOverlap(aStart, aLen, bStart, bLen) <==>
              (exists x :: Covers(aStart, aLen, x) && Covers(bStart, bLen, x))
              && EndsBehind(aStart, aLen, bStart) && EndsBehind(bStart, bLen, aStart)
  {
    var x := if aStart < bStart then bStart else aStart;
    if RangesOverlap(aStart, aLen, bStart, bLen) {
      assert Covers(aStart, aLen, x) && Covers(bStart, bLen, x);
    }
  }

  /** A range that wraps is missed by one that starts behind its end, and found by one that starts before it. */
  lemma WrappedRangeIsMissed()
    ensures Covers(10, WORD - 5, 20) && Covers(20, 1, 20) && !RangesOverlap(10, WORD - 5, 20, 1)
    ensures Covers(10, WORD - 5, 10) && Covers(0, 20, 10) && RangesOverlap(10, WORD - 5, 0, 20)
  {
  }

  ghost predicate Conflict(a: LockType, b: LockType) {
    a == Exclusive || b == Exclusive
  }

  /** Two open files on one file hold whole-file locks only if both are shared. */
  ghost predicate FlockExclusion(l: LockState) {
    forall a, b {:trigger l.flocks[a], l.flocks[b]} | a in l.flocks && b in l.flocks && a != b && SameFile(l, a, b) ::
      !Conflict(l.flocks[a], l.flocks[b])
  }

  /** Overlapping record locks of different owners on different open files of one file are read locks. */
  ghost predicate RecordExclusion(l: LockState) {
    forall a, b, r, q {:trigger r in l.records[a], q in l.records[b]} |
      a in l.records && b in l.records && a != b && SameFile(l, a, b) && r in l.records[a] && q in l.records[b]
      && r.owner != q.owner && RangesOverlap(r.start, r.len, q.start, q.len) :: !Conflict(r.kind, q.kind)
  }

  /** A byte that records of different owners on different open files of one file share is read-locked by both, unless one of
      the ranges wraps to an end before the other's start. */
  ghost predicate SharedBytesAreRead(l: LockState) {
    forall a, b, r, q, x {:trigger r in l.records[a], q in l.records[b], Covers(r.start, r.len, x)} |
      a in l.records && b in l.records && a != b && a in l.inode && b in l.inode && l.inode[a] == l.inode[b]
      && r in l.records[a] && q in l.records[b] && r.owner != q.owner
      && Covers(r.start, r.len, x) && Covers(q.start, q.len, x)
      && EndsBehind(r.start, r.len, q.start) && EndsBehind(q.start, q.len, r.start) :: r.kind == Shared && q.kind == Shared
  }

  lemma ExclusionOfBytes(l: LockState)
    requires RecordExclusion(l)
    ensures SharedBytesAreRead(l)
  {
    forall a, b, r, q, x {:trigger r in l.records[a], q in l.records[b], Covers(r.start, r.len, x)} |
      a in l.records && b in l.records && a != b && a in l.inode && b in l.inode && l.inode[a] == l.inode[b]
      && r in l.records[a] && q in l.records[b] && r.owner != q.owner
      && Covers(r.start, r.len, x) && Covers(q.start, q.len, x)
      && EndsBehind(r.start, r.len, q.start) && EndsBehind(q.start, q.len, r.start)
      ensures r.kind == Shared && q.kind == Shared
    {
      OverlapIsSharedByte(r.start, r.len, q.start, q.len);
    }
  }

  /** Locks exclude each other, and every holder is an allocated open file, so some descriptor points to it. */
  ghost predicate LocksOk(s: State, l: LockState) {
    && Ok(s) && FlockExclusion(l) && RecordExclusion(l)
    && l.flocks.Keys <= s.refcount.Keys && l.records.Keys <= s.refcount.Keys && l.inode.Keys == s.refcount.Keys
  }

  /** Every allocated open file is in some table: the scans over all tables see every lock. */
  lemma HolderIsReachable(s: State, f: FileId)
    requires Ok(s) && f in s.refcount
    ensures exists p, e :: p in s.tasks && e in s.tasks[p].files && e.file == f
  {
    assert s.refcount[f] == Refs(s.tasks, f) > 0;
    assert RefSet(s.tasks, f) != {};
    var x :| x in RefSet(s.tasks, f);
  }

  /** The task list has exactly the tasks. */
  ghost predicate TaskList(s: State, tasks: seq<Pid>) {
    && (forall p | p in tasks :: p in s.tasks)
    && (forall p | p in s.tasks :: p in tasks)
  }

  lemma Listed(s: State, tasks: seq<Pid>)
    requires TaskList(s, tasks)
    ensures forall k | 0 <= k < |tasks| :: tasks[k] in s.tasks
  {
    forall k | 0 <= k < |tasks|
      ensures tasks[k] in s.tasks
    {
      var p := tasks[k];
      assert p in tasks;
    }
  }

  /** The condition that the scan of flock_conflict looks for. */
  ghost predicate FlockBlocks(l: LockState, me: FileId, kind: LockType, f: FileId) {
    f != me && f in l.flocks && SameFile(l, me, f) && Conflict(kind, l.flocks[f])
  }

  /** The inner loop of flock_conflict, over one task's table. */
  method FlockConflictIn(l: LockState, files: seq<FdEntry>, me: FileId, kind: LockType) returns (b: bool)
    ensures b <==> exists e :: e in files && FlockBlocks(l, me, kind, e.file)
  {
    b := false;
    var i := 0;
    while i < |files| && !b
      invariant i <= |files|
      invariant b <==> exists k :: 0 <= k < i && FlockBlocks(l, me, kind, files[k].file)
    {
      var f := files[i].file;
      if f != me && f in l.flocks && SameFile(l, me, f) && (kind == Exclusive || l.flocks[f] == Exclusive) {
        b := true;
      }
      i := i + 1;
    }
  }

  /** The outer loop of flock_conflict. */
  method ScanFlocks(tables: map<Pid, Task>, l: LockState, tasks: seq<Pid>, me: FileId, kind: LockType) returns (b: bool)
    requires forall k | 0 <= k < |tasks| :: tasks[k] in tables
    ensures b <==> exists p, e :: p in tasks && p in tables && e in tables[p].files && FlockBlocks(l, me, kind, e.file)
  {
    b := false;
    var i := 0;
    while i < |tasks| && !b
      invariant i <= |tasks|
      invariant b ==> exists p, e :: p in tasks && p in tables && e in tables[p].files && FlockBlocks(l, me, kind, e.file)
      invariant !b ==> forall k, e | 0 <= k < i && e in tables[tasks[k]].files :: !FlockBlocks(l, me, kind, e.file)
    {
      var p := tasks[i];
      assert p in tasks;
      b := FlockConflictIn(l, tables[p].files, me, kind);
      i := i + 1;
    }
  }

  /** flock_conflict, over the task list: some other open file on the same file holds a conflicting lock. */
  method FlockConflict(s: State, l: LockState, tasks: seq<Pid>, me: FileId, kind: LockType) returns (b: bool)
    requires LocksOk(s, l) && TaskList(s, tasks)
    ensures b <==> exists f :: FlockBlocks(l, me, kind, f)
  {
    Listed(s, tasks);
    b := ScanFlocks(s.tasks, l, tasks, me, kind);
    forall f | FlockBlocks(l, me, kind, f)
      ensures exists p, e :: p in tasks && p in s.tasks && e in s.tasks[p].files && e.file == f
    {
      HolderIsReachable(s, f);
    }
  }

  datatype Outcome = Granted | WouldBlock | Invalid

  /** fs_flock on an open file, up to its return or its next sleep: LOCK_UN, or a lock of a kind. */
  method Flock(s: State, l: LockState, tasks: seq<Pid>, file: FileId, unlock: bool, kind: LockType) returns (l': LockState, granted: bool)
    requires LocksOk(s, l) && file in s.refcount && TaskList(s, tasks)
    ensures LocksOk(s, l')
    ensures granted <==> unlock || (file in l.flocks && l.flocks[file] == kind) || FlockFits(l, file, kind)
    ensures l' == if !granted then l else if unlock then l.(flocks := l.flocks - {file}) else l.(flocks := l.flocks[file := kind])
  {
    l', granted := l, true;
    if unlock {
      l' := l.(flocks := l.flocks - {file});
    } else if file in l.flocks && l.flocks[file] == kind {
      assert l.flocks[file := kind] == l.flocks;
    } else {
      var blocked := FlockConflict(s, l, tasks, file, kind);
      granted := !blocked;
      if granted {
        l' := l.(flocks := l.flocks[file := kind]);
        FlockGranted(l, file, kind);
      }
      NoFlockBlocks(l, file, kind);
    }
  }

  /** Every lock of another open file on the same file is shared, and so is the new one. */
  ghost predicate FlockFits(l: LockState, file: FileId, kind: LockType) {
    forall f | f in l.flocks && f != file && f in l.inode && file in l.inode && l.inode[f] == l.inode[file] ::
      kind == Shared && l.flocks[f] == Shared
  }

  lemma NoFlockBlocks(l: LockState, file: FileId, kind: LockType)
    ensures (forall f :: !FlockBlocks(l, file, kind, f)) <==> FlockFits(l, file, kind)
  {
    forall f | f in l.flocks && f != file && f in l.inode && file in l.inode && l.inode[f] == l.inode[file]
      ensures FlockBlocks(l, file, kind, f) <==> !(kind == Shared && l.flocks[f] == Shared)
    {
    }
  }

  lemma FlockGranted(l: LockState, file: FileId, kind: LockType)
    requires FlockExclusion(l) && !exists f :: FlockBlocks(l, file, kind, f)
    ensures FlockExclusion(l.(flocks := l.flocks[file := kind]))
  {
    var l' := l.(flocks := l.flocks[file := kind]);
    forall a, b {:trigger l'.flocks[a], l'.flocks[b]} | a in l'.flocks && b in l'.flocks && a != b && SameFile(l', a, b)
      ensures !Conflict(l'.flocks[a], l'.flocks[b])
    {
      assert a == file ==> !FlockBlocks(l, file, kind, b);
      assert b == file ==> !FlockBlocks(l, file, kind, a);
    }
  }

  // ---- Record locks

  /** The condition that the scan of rec_conflict looks for. */
  ghost predicate RecordBlocks(l: LockState, me: FileId, want: Record, f: FileId, r: Record) {
    && f != me && f in l.records && SameFile(l, me, f) && r in l.records[f]
    && r.owner != want.owner && RangesOverlap(want.start, want.len, r.start, r.len) && Conflict(want.kind, r.kind)
  }

  /** The scan of one open file's records. */
  method ConflictInRecords(records: seq<Record>, want: Record) returns (b: bool)
    ensures b <==> exists r :: r in records && r.owner != want.owner
                               && RangesOverlap(want.start, want.len, r.start, r.len) && Conflict(want.kind, r.kind)
  {
    b := false;
    var i := 0;
    while i < |records| && !b
      invariant i <= |records|
      invariant b <==> exists k :: 0 <= k < i && records[k].owner != want.owner
                                   && RangesOverlap(want.start, want.len, records[k].start, records[k].len) && Conflict(want.kind, records[k].kind)
    {
      var r := records[i];
      if r.owner != want.owner && RangesOverlap(want.start, want.len, r.start, r.len) && (want.kind == Exclusive || r.kind == Exclusive) {
        b := true;
      }
      i := i + 1;
    }
  }

  /** The scan of one task's table. */
  method RecordConflictIn(l: LockState, files: seq<FdEntry>, me: FileId, want: Record) returns (b: bool)
    ensures b <==> exists e, r :: e in files && RecordBlocks(l, me, want, e.file, r)
  {
    b := false;
    var i := 0;
    while i < |files| && !b
      invariant i <= |files|
      invariant b ==> exists e, r :: e in files && RecordBlocks(l, me, want, e.file, r)
      invariant !b ==> forall k, r | 0 <= k < i :: !RecordBlocks(l, me, want, files[k].file, r)
    {
      var f := files[i].file;
      assert files[i] in files;
      if f != me && f in l.records && SameFile(l, me, f) {
        b := ConflictInRecords(l.records[f], want);
        if b {
          ghost var r :| r in l.records[f] && r.owner != want.owner && RangesOverlap(want.start, want.len, r.start, r.len)
                         && Conflict(want.kind, r.kind);
          assert RecordBlocks(l, me, want, files[i].file, r);
        }
      }
      i := i + 1;
    }
  }

  /** The outer loops of rec_conflict. */
  method ScanRecords(tables: map<Pid, Task>, l: LockState, tasks: seq<Pid>, me: FileId, want: Record) returns (b: bool)
    requires forall k | 0 <= k < |tasks| :: tasks[k] in tables
    ensures b <==> exists p, e, r :: p in tasks && p in tables && e in tables[p].files && RecordBlocks(l, me, want, e.file, r)
  {
    b := false;
    var i := 0;
    while i < |tasks| && !b
      invariant i <= |tasks|
      invariant b ==> exists p, e, r :: p in tasks && p in tables && e in tables[p].files && RecordBlocks(l, me, want, e.file, r)
      invariant !b ==> forall k, e, r | 0 <= k < i && e in tables[tasks[k]].files ::
                  !RecordBlocks(l, me, want, e.file, r)
    {
      var p := tasks[i];
      assert p in tasks;
      b := RecordConflictIn(l, tables[p].files, me, want);
      i := i + 1;
    }
  }

  /** rec_conflict, over the task list: another process has a conflicting record on another open file of the same file. */
  method RecordConflict(s: State, l: LockState, tasks: seq<Pid>, me: FileId, want: Record) returns (b: bool)
    requires LocksOk(s, l) && TaskList(s, tasks)
    ensures b <==> exists f, r :: RecordBlocks(l, me, want, f, r)
  {
    Listed(s, tasks);
    b := ScanRecords(s.tasks, l, tasks, me, want);
    forall f, r | RecordBlocks(l, me, want, f, r)
      ensures exists p, e :: p in tasks && p in s.tasks && e in s.tasks[p].files && e.file == f
    {
      HolderIsReachable(s, f);
    }
  }

  /** rec_remove_owner: the records of other owners, in order. */
  function Others(records: seq<Record>, owner: Pid): seq<Record> {
    if records == [] then []
    else (if records[0].owner == owner then [] else [records[0]]) + Others(records[1..], owner)
  }

  lemma {:induction false} OthersMembers(records: seq<Record>, owner: Pid)
    ensures forall r :: r in Others(records, owner) <==> r in records && r.owner != owner
  {
    if records != [] {
      OthersMembers(records[1..], owner);
    }
  }

  function RecordsOf(l: LockState, f: FileId): seq<Record> {
    if f in l.records then l.records[f] else []
  }

  /** fs_fcntl_lock with F_SETLK or F_SETLKW, up to its return or its next sleep: unlocking, or replacing the process's
      records on the open file by a new one. Without memory for it the old ones are gone all the same. */
  method SetLock(s: State, l: LockState, tasks: seq<Pid>, file: FileId, unlock: bool, want: Record, memory: bool)
    returns (l': LockState, granted: bool)
    requires LocksOk(s, l) && file in s.refcount && TaskList(s, tasks)
    ensures LocksOk(s, l')
    ensures granted <==> unlock || RecordFits(l, file, want)
    ensures l' == if !granted then l
                  else l.(records := l.records[file := Others(RecordsOf(l, file), want.owner) + if unlock || !memory then [] else [want]])
    ensures granted ==> forall r :: r in l'.records[file] <==>
              (file in l.records && r in l.records[file] && r.owner != want.owner) || (!unlock && memory && r == want)
  {
    NoRecordBlocks(l, file, want);
    OthersMembers(RecordsOf(l, file), want.owner);
    l', granted := l, true;
    if !unlock {
      var blocked := RecordConflict(s, l, tasks, file, want);
      granted := !blocked;
    }
    if granted {
      var add := if unlock || !memory then [] else [want];
      l' := l.(records := l.records[file := Others(RecordsOf(l, file), want.owner) + add]);
      RecordGranted(l, file, want, add);
    }
  }

  /** Every overlapping record of another process on another open file of the same file is a read lock, and so is the new one. */
  ghost predicate RecordFits(l: LockState, file: FileId, want: Record) {
    forall f, r | f in l.records && r in l.records[f] && f != file && f in l.inode && file in l.inode && l.inode[f] == l.inode[file]
      && r.owner != want.owner && RangesOverlap(want.start, want.len, r.start, r.len) :: want.kind == Shared && r.kind == Shared
  }

  lemma NoRecordBlocks(l: LockState, file: FileId, want: Record)
    ensures (forall f, r :: !RecordBlocks(l, file, want, f, r)) <==> RecordFits(l, file, want)
  {
    forall f, r | f in l.records && r in l.records[f] && f != file && f in l.inode && file in l.inode && l.inode[f] == l.inode[file]
      && r.owner != want.owner && RangesOverlap(want.start, want.len, r.start, r.len)
      ensures RecordBlocks(l, file, want, f, r) <==> !(want.kind == Shared && r.kind == Shared)
    {
    }
  }

  lemma RecordGranted(l: LockState, file: FileId, want: Record, add: seq<Record>)
    requires RecordExclusion(l) && (add == [] || (add == [want] && !exists f, r :: RecordBlocks(l, file, want, f, r)))
    ensures RecordExclusion(l.(records := l.records[file := Others(RecordsOf(l, file), want.owner) + add]))
  {
    var l' := l.(records := l.records[file := Others(RecordsOf(l, file), want.owner) + add]);
    OthersMembers(RecordsOf(l, file), want.owner);
    forall a, b, r, q {:trigger r in l'.records[a], q in l'.records[b]} |
      a in l'.records && b in l'.records && a != b && SameFile(l', a, b) && r in l'.records[a] && q in l'.records[b]
      && r.owner != q.owner && RangesOverlap(r.start, r.len, q.start, q.len)
      ensures !Conflict(r.kind, q.kind)
    {
      if a == file && r !in RecordsOf(l, file) {
        assert r == want && !RecordBlocks(l, file, want, b, q);
      } else if b == file && q !in RecordsOf(l, file) {
        assert q == want && !RecordBlocks(l, file, want, a, r);
      }
    }
  }

  /** The open file holds no lock. */
  predicate HoldsNothing(l: LockState, f: FileId) {
    f !in l.flocks && RecordsOf(l, f) == []
  }

  /** locks_release_file, for the last reference to an open file: its records go one by one, then its whole-file lock.
      woken says whether waiting tasks are woken. */
  method ReleaseFile(l: LockState, f: FileId) returns (l': LockState, woken: bool)
    ensures f !in l'.flocks && (f in l'.records ==> l'.records[f] == []) && l'.inode == l.inode
    ensures woken <==> f in l.flocks || (f in l.records && l.records[f] != [])
    ensures l'.flocks == l.flocks - {f} && l'.records - {f} == l.records - {f}
  {
    l', woken := l, false;
    if RecordsOf(l, f) != [] {
      while l'.records[f] != []
        invariant f in l'.records && l'.records - {f} == l.records - {f} && l'.flocks == l.flocks && l'.inode == l.inode
        decreases |l'.records[f]|
      {
        l' := l'.(records := l'.records[f := l'.records[f][1..]]);
      }
      woken := true;
    }
    if f in l'.flocks {
      l' := l'.(flocks := l'.flocks - {f});
      woken := true;
    }
  }

  /** The open file itself is freed; by then it must hold nothing. */
  function Forgotten(l: LockState, f: FileId): LockState
    requires HoldsNothing(l, f)
  {
    l.(records := l.records - {f}, inode := l.inode - {f})
  }

  /** The locks without those of some open files. */
  function Dropped(l: LockState, gone: set<FileId>): LockState {
    LockState(l.flocks - gone, l.records - gone, l.inode - gone)
  }

  method AnyOf(files: set<FileId>) returns (f: FileId)
    requires files != {}
    ensures f in files
  {
    assert (forall x :: x !in files) ==> files == {};
    f :| f in files;
  }

  /** open_file_put for the last reference to an open file, as far as locks are concerned. */
  method ReleaseOne(l: LockState, f: FileId) returns (l': LockState)
    ensures l' == Dropped(l, {f})
  {
    var woken;
    l', woken := ReleaseFile(l, f);
    l' := Forgotten(l', f);
  }

  lemma DroppedMore(l: LockState, done: set<FileId>, f: FileId)
    ensures Dropped(Dropped(l, done), {f}) == Dropped(l, done + {f})
  {
  }

  /** open_file_put for each open file whose last reference went, as far as locks are concerned. */
  method ReleaseAll(l: LockState, gone: set<FileId>) returns (l': LockState)
    ensures l' == Dropped(l, gone)
  {
    l' := l;
    var rest: set<FileId> := gone;
    var done: set<FileId> := {};
    while rest != {}
      invariant rest + done == gone && l' == Dropped(l, done)
      decreases |rest|
    {
      var f := AnyOf(rest);
      l' := ReleaseOne(l', f);
      DroppedMore(l, done, f);
      rest, done := rest - {f}, done + {f};
    }
  }

  /** The identity of the files behind new open files, which hold no lock. */
  function Enrolled(s: State, l: LockState, inode: map<FileId, int>): LockState {
    l.(inode := map f | f in s.refcount :: if f in l.inode then l.inode[f] else if f in inode then inode[f] else f)
  }

  /** The locks after a descriptor call that led from s to s'. */
  function Settled(s: State, s': State, l: LockState, inode: map<FileId, int>): LockState {
    Enrolled(s', Dropped(l, s.refcount.Keys - s'.refcount.Keys), inode)
  }

  ghost predicate SameLocks(l: LockState, l': LockState, f: FileId) {
    && (f in l'.flocks <==> f in l.flocks) && (f in l.flocks ==> l'.flocks[f] == l.flocks[f])
    && (f in l'.records <==> f in l.records) && (f in l.records ==> l'.records[f] == l.records[f])
    && (f in l'.inode && f in l.inode ==> l'.inode[f] == l.inode[f])
  }

  lemma OthersStay(s: State, l: LockState, s': State, inode: map<FileId, int>)
    requires LocksOk(s, l)
    ensures forall f | f in s'.refcount :: SameLocks(l, Settled(s, s', l, inode), f)
  {
  }

  /** Descriptor calls keep the locks sound: whatever tables and counts they leave, the locks of the open files that are
      released go, and all others stay. */
  lemma SettleKeeps(s: State, l: LockState, s': State, inode: map<FileId, int>)
    requires LocksOk(s, l) && Ok(s')
    ensures LocksOk(s', Settled(s, s', l, inode))
    ensures forall f | f in s'.refcount :: SameLocks(l, Settled(s, s', l, inode), f)
  {
    OthersStay(s, l, s', inode);
    var l' := Settled(s, s', l, inode);
    forall a, b {:trigger l'.flocks[a], l'.flocks[b]} | a in l'.flocks && b in l'.flocks && a != b && SameFile(l', a, b)
      ensures !Conflict(l'.flocks[a], l'.flocks[b])
    {
      assert SameFile(l, a, b) && l.flocks[a] == l'.flocks[a] && l.flocks[b] == l'.flocks[b];
    }
    forall a, b, r, q {:trigger r in l'.records[a], q in l'.records[b]} |
      a in l'.records && b in l'.records && a != b && SameFile(l', a, b) && r in l'.records[a] && q in l'.records[b]
      && r.owner != q.owner && RangesOverlap(r.start, r.len, q.start, q.len)
      ensures !Conflict(r.kind, q.kind)
    {
      assert SameFile(l, a, b) && r in l.records[a] && q in l.records[b];
    }
  }
}
