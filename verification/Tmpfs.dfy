/** A mounted tmpfs and its runs (fs/tmpfs.c). */
module Tmpfs {
  import opened Runs
  import opened PathNames
  import opened TmpfsTree
  import opened TmpfsRename
  import opened TmpfsLinks
  import opened TmpfsRefs
  import opened TmpfsData
  import opened TmpfsOps

  /** A call, with how its allocations come out and where a file record is put. */
  datatype Call =
    | OpenCall(path: string, flags: OpenFlags, nodeMem: bool, fileMem: bool, handle: nat)
    | CloseCall(handle: nat)
    | MkdirCall(path: string, memory: bool)
    | RmdirCall(path: string)
    | UnlinkCall(path: string)
    | RenameCall(from: string, to: string)
    | ReadCall(handle: nat, count: nat)
    | WriteCall(handle: nat, data: seq<byte>, memory: bool)
    | TruncateCall(handle: nat, length: nat, memory: bool)

  /** What callers keep to: files in use are open, the allocator hands out unused addresses, files end at or below 2 to
      the 31st, sums of words that are read do not wrap, and nobody removes the mount root. */
  predicate Allowed(s: State, c: Call) {
    match c
    case OpenCall(_, _, _, _, h) => h !in s.files
    case CloseCall(h) => h in s.files
    case RmdirCall(path) => Components(path) != []
    case ReadCall(h, count) =>
      h in s.files && count < WRAP && (s.files[h].node in s.bodies ==> !ReadWraps(s.bodies[s.files[h].node].size, s.files[h].offset, count))
    case WriteCall(h, data, _) => h in s.files && s.files[h].offset + |data| <= MAX_CAPACITY
    case TruncateCall(h, length, _) => h in s.files && length <= MAX_CAPACITY
    case _ => true
  }

  /** A rename onto another node's path: the one way to get two siblings of the same name. */
  ghost predicate Clobbers(s: State, root: Ino, c: Call) {
    && c.RenameCall?
    && Walk(s.nodes, root, Components(c.to)) != NONE
    && Walk(s.nodes, root, Components(c.to)) != Walk(s.nodes, root, Components(c.from))
  }

  /** The mount root, the state, and the depths that witness its tree. */
  datatype World = World(root: Ino, state: State, depth: Depth)

  /** A directory entry is gone: the node with it, unless it is still open. */
  ghost predicate Removed(s: State, root: Ino, n: Ino, s': State)
    requires n in s.nodes && s.nodes[n].parent != NONE
  {
    s'.files == s.files && SameContents(s, s') && s'.nodes == Kept(Cut(s.nodes, n), root, s.files, n)
  }

  ghost predicate Made(s: State, root: Ino, path: seq<string>, memory: bool, s': State) {
    if Walk(s.nodes, root, path) == NONE && WalkParent(s.nodes, root, path) != NONE && memory then
      path != [] && s' == Linking(s, WalkParent(s.nodes, root, path), Last(path), true)
    else s' == s
  }

  ghost predicate MovedTo(w: World, from: seq<string>, to: seq<string>, s': State)
    requires Ok(w.state, w.root, w.depth)
  {
    var root := w.root;
    var t, n, q := w.state.nodes, Walk(w.state.nodes, root, from), WalkParent(w.state.nodes, root, to);
    if n in t && q in t && !InSubtree(t, root, w.depth, q, n) then
      && to != [] && t[n].parent != NONE && s' == w.state.(nodes := Moved(t, n, q, Last(to)))
      && (UniqueNames(t) && Walk(t, root, to) == NONE ==> SubtreeMoved(t, s'.nodes, root, from, to))
    else s' == w.state
  }

  ghost predicate Opened(s: State, root: Ino, path: seq<string>, flags: OpenFlags, nodeMem: bool, fileMem: bool, h: nat, s': State) {
    var (s1, n) := Found(s, root, path, flags.create, nodeMem);
    && s'.nodes == s1.nodes && s'.nextInode == s1.nextInode
    && s'.bodies == (if MayOpen(s1.nodes, n, flags) then Truncated(s1, n, flags) else s1.bodies)
    && s'.files == if MayOpen(s1.nodes, n, flags) && fileMem then s.files[h := File(n, 0)] else s.files
  }

  /** What a call on names leads to. */
  ghost predicate NamesFollow(w: World, c: Call, s': State)
    requires Ok(w.state, w.root, w.depth) && Allowed(w.state, c)
  {
    var s, root := w.state, w.root;
    match c
    case MkdirCall(path, memory) => Made(s, root, Components(path), memory, s')
    case RmdirCall(path) =>
      var n := Walk(s.nodes, root, Components(path));
      if n in s.nodes && s.nodes[n].isDir && s.nodes[n].children == [] then s.nodes[n].parent != NONE && Removed(s, root, n, s')
      else s' == s
    case UnlinkCall(path) =>
      var n := Walk(s.nodes, root, Components(path));
      if n in s.nodes && !s.nodes[n].isDir then s.nodes[n].parent != NONE && Removed(s, root, n, s')
      else s' == s
    case RenameCall(from, to) => MovedTo(w, Components(from), Components(to), s')
    case _ => true
  }

  /** The new contents, whatever fills a gap. */
  ghost predicate Wrote(before: seq<byte>, after: seq<byte>, offset: nat, data: seq<byte>) {
    if data == [] then after == before
    else exists gap :: |gap| == (if offset > |before| then offset - |before| else 0) && after == Overwritten(before, gap, offset, data)
  }

  /** What a call on open files leads to. */
  ghost predicate FilesFollow(s: State, root: Ino, c: Call, s': State)
    requires Allowed(s, c)
  {
    match c
    case OpenCall(path, flags, nodeMem, fileMem, h) => Opened(s, root, Components(path), flags, nodeMem, fileMem, h, s')
    case CloseCall(h) => Closes(s, root, h, s')
    case ReadCall(h, count) =>
      var File(n, offset) := s.files[h];
      if n in s.nodes && s.nodes[n].isDir then s' == s
      else OnlyContents(s, s', n, h, offset + Available(s, n, offset, count)) && s'.bodies == s.bodies
    case WriteCall(h, data, memory) =>
      var File(n, offset) := s.files[h];
      if n in s.nodes && n in s.bodies && !s.nodes[n].isDir && (data == [] || offset + |data| <= |s.bodies[n].buffer| || memory) then
        OnlyContents(s, s', n, h, offset + |data|) && Wrote(Bytes(s, n), Bytes(s', n), offset, data)
      else s' == s
    case TruncateCall(h, length, memory) =>
      var n := s.files[h].node;
      if n in s.nodes && n in s.bodies && !s.nodes[n].isDir && (length <= |s.bodies[n].buffer| || memory) then
        OnlyContents(s, s', n, h, s.files[h].offset)
        && Bytes(s', n) == if length <= |Bytes(s, n)| then Bytes(s, n)[..length] else Bytes(s, n) + Zeros(length - |Bytes(s, n)|)
      else s' == s
    case _ => true
  }

  /** How much a read of count bytes from an offset gets. */
  ghost function Available(s: State, n: Ino, offset: nat, count: nat): nat {
    var size := |Bytes(s, n)|;
    if offset >= size then 0 else if offset + count > size then size - offset else count
  }

  method StepNames(s: State, root: Ino, ghost depth: Depth, c: Call) returns (s': State, ghost depth': Depth)
    requires Ok(s, root, depth) && Allowed(s, c) && (c.MkdirCall? || c.RmdirCall? || c.UnlinkCall? || c.RenameCall?)
    ensures Ok(s', root, depth') && NamesFollow(World(root, s, depth), c, s')
    ensures UniqueNames(s.nodes) && !Clobbers(s, root, c) ==> UniqueNames(s'.nodes)
  {
    depth' := depth;
    match c
    case MkdirCall(path, memory) =>
      var ok;
      s', depth', ok := Mkdir(s, root, depth, path, memory);
    case RmdirCall(path) =>
      WalkedHasParent(s, root, depth, path);
      var ok;
      s', ok := Rmdir(s, root, depth, path);
    case UnlinkCall(path) =>
      WalkedHasParent(s, root, depth, path);
      var ok;
      s', ok := Unlink(s, root, depth, path);
    case RenameCall(from, to) =>
      var ok;
      s', depth', ok := Rename(s, root, depth, from, to);
  }

  /** What a path other than the root's leads to is in a directory. */
  lemma WalkedHasParent(s: State, root: Ino, depth: Depth, path: string)
    requires Ok(s, root, depth)
    ensures var n := Walk(s.nodes, root, Components(path)); n in s.nodes && (!s.nodes[n].isDir || Components(path) != []) ==> s.nodes[n].parent != NONE && n != root
  {
    if Walk(s.nodes, root, Components(path)) != NONE {
      WalkIsLinked(s.nodes, root, depth, Components(path));
    }
  }

  method StepFiles(s: State, root: Ino, ghost depth: Depth, c: Call) returns (s': State, ghost depth': Depth)
    requires Ok(s, root, depth) && Allowed(s, c)
    requires c.OpenCall? || c.CloseCall? || c.ReadCall? || c.WriteCall? || c.TruncateCall?
    ensures Ok(s', root, depth') && FilesFollow(s, root, c, s')
    ensures UniqueNames(s.nodes) ==> UniqueNames(s'.nodes)
  {
    depth' := depth;
    match c
    case OpenCall(path, flags, nodeMem, fileMem, h) =>
      var ok;
      s', depth', ok := Open(s, root, depth, path, flags, nodeMem, fileMem, h);
    case CloseCall(h) =>
      s' := Close(s, root, depth, h);
    case ReadCall(h, count) =>
      s' := StepRead(s, root, depth, h, count);
    case WriteCall(h, data, memory) =>
      s' := StepWrite(s, root, depth, h, data, memory);
    case TruncateCall(h, length, memory) =>
      s' := StepTruncate(s, root, depth, h, length, memory);
  }

  method StepRead(s: State, root: Ino, ghost depth: Depth, h: nat, count: nat) returns (s': State)
    requires Ok(s, root, depth) && Allowed(s, ReadCall(h, count))
    ensures Ok(s', root, depth) && FilesFollow(s, root, ReadCall(h, count), s') && s'.nodes == s.nodes
  {
    var data, result;
    s', data, result := ReadFile(s, root, depth, h, count);
    OpenHasBody(s, root, depth, h);
    ReadFollows(s, root, h, count, s', data, result);
  }

  lemma ReadFollows(s: State, root: Ino, h: nat, count: nat, s': State, data: seq<byte>, result: Outcome)
    requires Allowed(s, ReadCall(h, count)) && s.files[h].node in s.nodes && s.files[h].node in s.bodies
    requires IsBody(s.bodies[s.files[h].node]) && FileRead(s, h, count, s', data, result)
    ensures FilesFollow(s, root, ReadCall(h, count), s') && s'.nodes == s.nodes
  {
  }

  method StepTruncate(s: State, root: Ino, ghost depth: Depth, h: nat, length: nat, memory: bool) returns (s': State)
    requires Ok(s, root, depth) && Allowed(s, TruncateCall(h, length, memory))
    ensures Ok(s', root, depth) && FilesFollow(s, root, TruncateCall(h, length, memory), s') && s'.nodes == s.nodes
  {
    var result;
    s', result := TruncateFile(s, root, depth, h, length, memory);
    OpenHasBody(s, root, depth, h);
  }

  method StepWrite(s: State, root: Ino, ghost depth: Depth, h: nat, data: seq<byte>, memory: bool) returns (s': State)
    requires Ok(s, root, depth) && Allowed(s, WriteCall(h, data, memory))
    ensures Ok(s', root, depth) && FilesFollow(s, root, WriteCall(h, data, memory), s') && s'.nodes == s.nodes
  {
    ghost var gap;
    var result;
    s', result, gap := WriteFile(s, root, depth, h, data, memory);
    WroteFollows(s, root, depth, h, data, memory, s', result, gap);
  }

  lemma WroteFollows(s: State, root: Ino, depth: Depth, h: nat, data: seq<byte>, memory: bool, s': State, result: Outcome, gap: seq<byte>)
    requires Ok(s, root, depth) && Allowed(s, WriteCall(h, data, memory))
    requires var File(n, offset) := s.files[h];
             && result == (if s.nodes[n].isDir then Refused else if data == [] then Done
                           else WriteOutcome(s.bodies[n], offset, |data|, memory))
             && (if result == Done then ContentsWritten(s, s', h, data, gap) else s' == s)
    ensures FilesFollow(s, root, WriteCall(h, data, memory), s')
  {
    OpenHasBody(s, root, depth, h);
    WriteIsDoneIff(s.bodies[s.files[h].node], s.files[h].offset, |data|, memory);
  }

  /** A call in a sound file system; a call that is not allowed does not happen. Sibling names stay unique unless the
      call is a rename onto another path. */
  ghost predicate Next(w: World, c: Call, w': World) {
    && Ok(w.state, w.root, w.depth) && w'.root == w.root
    && (if Allowed(w.state, c) then NamesFollow(w, c, w'.state) && FilesFollow(w.state, w.root, c, w'.state) else w' == w)
    && (UniqueNames(w.state.nodes) && !Clobbers(w.state, w.root, c) ==> UniqueNames(w'.state.nodes))
  }

  class Fs {
    const root: Ino
    var state: State
    ghost var depth: Depth

    ghost predicate Valid()
      reads this
    {
      Ok(state, root, depth)
    }

    ghost function Now(): World
      reads this
    {
      World(root, state, depth)
    }

    constructor (nextInode: Ino)
      requires NONE < nextInode
      ensures Valid() && UniqueNames(state.nodes)
    {
      var s;
      ghost var d;
      s, d := Mount(nextInode);
      root, state, depth := nextInode, s, d;
    }

    method Do(c: Call)
      requires Valid() && Allowed(state, c)
      modifies this
      ensures Valid() && Next(old(Now()), c, Now())
    {
      var s;
      if c.MkdirCall? || c.RmdirCall? || c.UnlinkCall? || c.RenameCall? {
        s, depth := StepNames(state, root, depth, c);
      } else {
        s, depth := StepFiles(state, root, depth, c);
      }
      state := s;
    }

    method Step(c: Call)
      requires Valid()
      modifies this
      ensures Valid() && Next(old(Now()), c, Now())
    {
      if Allowed(state, c) {
        Do(c);
      }
    }

    /** A run goes on with one more call. */
    method StepOn(c: Call, ghost worlds: seq<World>, ghost done: seq<Call>) returns (ghost worlds': seq<World>)
      requires Valid() && IsRun(Next, worlds, done) && worlds[|done|] == Now()
      modifies this
      ensures Valid() && worlds' == worlds + [Now()] && IsRun(Next, worlds', done + [c])
    {
      Step(c);
      ExtendRun(Next, worlds, done, c, Now());
      worlds' := worlds + [Now()];
    }

    /** Every run of allowed calls, by its states: each is a tree with exact counts, and sibling names stay unique while
        no rename replaces another path. */
    method Run(calls: seq<Call>) returns (ghost worlds: seq<World>)
      requires Valid()
      modifies this
      ensures IsRun(Next, worlds, calls)
      ensures worlds[0] == old(Now()) && worlds[|calls|] == Now() && Valid()
    {
      worlds := [Now()];
      for i := 0 to |calls|
        invariant Valid() && IsRun(Next, worlds, calls[..i])
        invariant worlds[0] == old(Now()) && worlds[i] == Now()
      {
        assert calls[..i + 1] == calls[..i] + [calls[i]];
        worlds := StepOn(calls[i], worlds, calls[..i]);
      }
      assert calls[..|calls|] == calls;
    }
  }
}
