/** The tmpfs operations on the inode heap (fs/tmpfs.c). Inodes live in one map per field, keyed by inode
    number; kfree removes the key. */
module TmpfsOps {
  import opened PathNames
  import opened Lists
  import opened TmpfsTree
  import opened TmpfsRename
  import opened TmpfsLinks
  import opened TmpfsPaths
  import opened TmpfsRefs
  import opened TmpfsData

  type Depth = map<Ino, nat>

  datatype OpenFlags = OpenFlags(create: bool, directory: bool, truncate: bool)

  /** tmpfs_next_inode; name, type, parent and child list of the allocated nodes; their reference counts
      and contents; the open files. */
  datatype State = State(nextInode: Ino, nodes: Tree, refcount: map<Ino, int>, bodies: map<Ino, Body>, files: Files)

  /** Linked nodes form a tree, the reference count is one link plus the open files, and a node
      is allocated exactly while it is linked or open. */
  ghost predicate Ok(s: State, root: Ino, depth: Depth) {
    && IsTree(s.nodes, root, depth) && Counted(s.nodes, root, s.files, s.refcount)
    && s.bodies.Keys == s.nodes.Keys && (forall i {:trigger IsBody(s.bodies[i])} | i in s.bodies :: IsBody(s.bodies[i]))
    && NONE < s.nextInode && (forall i | i in s.nodes :: i < s.nextInode)
  }

  /** tmpfs_mount */
  method Mount(nextInode: Ino) returns (s: State, ghost depth: Depth)
    requires NONE < nextInode
    ensures Ok(s, nextInode, depth) && s.files == map[] && UniqueNames(s.nodes) && s.nextInode == nextInode + 1
    ensures s.nodes == map[nextInode := NodeVal("", true, NONE, [])]
  {
    s := State(nextInode + 1, map[nextInode := NodeVal("", true, NONE, [])], map[nextInode := 1],
               map[nextInode := EMPTY], map[]);
    depth := map[nextInode := 0];
    assert OpenOn(s.files, nextInode) == {};
  }

  /** lookup_child */
  method LookupChild(s: State, root: Ino, ghost depth: Depth, dir: Ino, name: string) returns (c: Ino)
    requires Ok(s, root, depth) && dir in s.nodes
    ensures c == Child(s.nodes, dir, name) && (c != NONE ==> c in s.nodes)
  {
    c := NONE;
    if s.nodes[dir].isDir {
      var list := s.nodes[dir].children;
      FirstNamedFacts(s.nodes, list, name);
      var i := 0;
      while i < |list|
        invariant i <= |list|
        invariant FirstNamed(s.nodes, list, name) == FirstNamed(s.nodes, list[i..], name)
      {
        assert list[i] in s.nodes[dir].children;
        assert list[i..][0] == list[i] && list[i..][1..] == list[i + 1..];
        if s.nodes[list[i]].name == name {
          return list[i];
        }
        i := i + 1;
      }
    }
  }

  /** lookup */
  method Lookup(s: State, root: Ino, ghost depth: Depth, path: string) returns (n: Ino)
    requires Ok(s, root, depth)
    ensures n == Walk(s.nodes, root, Components(path))
    ensures n != NONE ==> n in s.nodes && Linked(s.nodes, root, n) && (n == root <==> Components(path) == [])
  {
    var p := SkipSlashes(path, 0);
    assert path[0..] == path;
    ComponentsDropSlashes(path);
    n := root;
    while p < |path| && n != NONE
      invariant p <= |path| && (p < |path| ==> path[p] != '/')
      invariant n != NONE ==> n in s.nodes
      invariant Walk(s.nodes, root, Components(path)) == if n == NONE then NONE else Walk(s.nodes, n, Components(path[p..]))
    {
      n, p := LookupStep(s, root, depth, n, path, p);
    }
    if n != NONE {
      WalkIsLinked(s.nodes, root, depth, Components(path));
    }
  }

  /** One turn of the loop of lookup. */
  method LookupStep(s: State, root: Ino, ghost depth: Depth, from: Ino, path: string, start: nat) returns (n: Ino, p: nat)
    requires Ok(s, root, depth) && from in s.nodes && start < |path| && path[start] != '/'
    ensures start < p <= |path| && (p < |path| ==> path[p] != '/')
    ensures n != NONE ==> n in s.nodes
    ensures Walk(s.nodes, from, Components(path[start..])) ==
            if n == NONE then NONE else Walk(s.nodes, n, Components(path[p..]))
  {
    FirstComponent(path[start..]);
    HeadIsName(path[start..]);
    p := SkipName(path, start);
    var name := path[start..p];
    p := SkipSlashes(path, p);
    DropSlashesFacts(path[start..][|name|..]);
    n := NONE;
    if |name| < NAME_SIZE {
      n := LookupChild(s, root, depth, from, name);
    }
  }

  /** lookup_parent */
  method LookupParent(s: State, root: Ino, ghost depth: Depth, path: string) returns (parent: Ino, leaf: string)
    requires Ok(s, root, depth)
    ensures parent == WalkParent(s.nodes, root, Components(path))
    ensures parent != NONE ==>
              && Components(path) != [] && leaf == Last(Components(path)) && |leaf| < NAME_SIZE
              && parent in s.nodes && s.nodes[parent].isDir && Linked(s.nodes, root, parent)
              && parent == Walk(s.nodes, root, Front(Components(path)))
  {
    ghost var cs := Components(path);
    var p := SkipSlashes(path, 0);
    assert path[0..] == path;
    ComponentsDropSlashes(path);
    var last := false;
    leaf := "";
    parent := root;
    while p < |path| && parent != NONE && !last
      invariant p <= |path| && (p < |path| ==> path[p] != '/')
      invariant parent != NONE ==> parent in s.nodes && s.nodes[parent].isDir
      invariant last ==> parent != NONE && cs != [] && leaf == Last(cs) && |leaf| < NAME_SIZE && WalkParent(s.nodes, root, cs) == parent
      invariant !last ==> WalkParent(s.nodes, root, cs) == if parent == NONE then NONE else WalkParent(s.nodes, parent, Components(path[p..]))
      invariant !last && parent != NONE && p < |path| ==> cs != [] && Last(cs) == Last(Components(path[p..]))
    {
      parent, p, last, leaf := ParentStep(s, root, depth, parent, path, p);
    }
    if last {
      WalkParentIsWalk(s.nodes, root, cs);
      WalkIsLinked(s.nodes, root, depth, Front(cs));
    } else {
      // The path was empty or all slashes, or a component was missing.
      parent := NONE;
    }
  }

  /** One turn of the loop of lookup_parent: look ahead for the last component, else descend. */
  method ParentStep(s: State, root: Ino, ghost depth: Depth, from: Ino, path: string, start: nat) returns (n: Ino, p: nat, last: bool, leaf: string)
    requires Ok(s, root, depth) && from in s.nodes && s.nodes[from].isDir && start < |path| && path[start] != '/'
    ensures start < p <= |path| && (p < |path| ==> path[p] != '/')
    ensures n != NONE ==> n in s.nodes && s.nodes[n].isDir
    ensures Components(path[start..]) != []
    ensures last ==> n == from && WalkParent(s.nodes, from, Components(path[start..])) == from
                     && leaf == Last(Components(path[start..])) && |leaf| < NAME_SIZE
    ensures !last ==> WalkParent(s.nodes, from, Components(path[start..])) ==
                      if n == NONE then NONE else WalkParent(s.nodes, n, Components(path[p..]))
    ensures !last && n != NONE ==> p < |path| && Last(Components(path[start..])) == Last(Components(path[p..]))
  {
    FirstComponent(path[start..]);
    HeadIsName(path[start..]);
    p := SkipName(path, start);
    leaf := path[start..p];
    p := SkipSlashes(path, p);
    DropSlashesFacts(path[start..][|leaf|..]);
    NoComponents(path[p..]);
    n := NONE;
    last := false;
    if |leaf| < NAME_SIZE {
      if p == |path| {
        n := from;
        last := true;
      } else {
        n := LookupChild(s, root, depth, from, leaf);
        if n != NONE && !s.nodes[n].isDir {
          n := NONE;
        }
      }
    }
  }

  /** The state with a new node at the end of a directory. */
  ghost function Linking(s: State, parent: Ino, leaf: string, isDir: bool): State {
    var n := s.nextInode;
    State(n + 1, Added(s.nodes, parent, n, leaf, isDir), s.refcount[n := 1], s.bodies[n := EMPTY], s.files)
  }

  /** There is one node more, empty, and exactly its own path leads to it; all other paths and nodes are as before. */
  ghost predicate Created(s: State, s': State, root: Ino, path: seq<string>, isDir: bool) {
    var n := s.nextInode;
    && n !in s.nodes && s'.nextInode == n + 1 && s'.nodes.Keys == s.nodes.Keys + {n}
    && s'.nodes[n].isDir == isDir && s'.nodes[n].children == [] && n in s'.bodies && s'.bodies[n].size == 0
    && (forall x | x in s.nodes :: s'.nodes[x].isDir == s.nodes[x].isDir && s'.nodes[x].name == s.nodes[x].name)
    && (forall i | i in s.bodies :: i in s'.bodies && s'.bodies[i] == s.bodies[i])
    && (forall p :: Walk(s'.nodes, root, p) == if p == path then n else Walk(s.nodes, root, p))
  }

  lemma LinkingCreates(s: State, root: Ino, depth: Depth, path: seq<string>, isDir: bool)
    requires Ok(s, root, depth) && Walk(s.nodes, root, path) == NONE && WalkParent(s.nodes, root, path) != NONE
    ensures path != [] && Created(s, Linking(s, WalkParent(s.nodes, root, path), Last(path), isDir), root, path, isDir)
  {
    WalkIsParentThenChild(s.nodes, root, path);
    WalkParentIsWalk(s.nodes, root, path);
    LinkingAdds(s, root, depth, WalkParent(s.nodes, root, path), Last(path), isDir);
    MadePath(s.nodes, root, depth, path, s.nextInode, isDir);
  }

  lemma LinkingAdds(s: State, root: Ino, depth: Depth, dir: Ino, leaf: string, isDir: bool)
    requires Ok(s, root, depth) && dir in s.nodes
    ensures var n, s' := s.nextInode, Linking(s, dir, leaf, isDir);
            && n !in s.nodes && n != NONE && s'.nextInode == n + 1 && s'.nodes.Keys == s.nodes.Keys + {n}
            && s'.nodes[n].isDir == isDir && s'.nodes[n].children == [] && n in s'.bodies && s'.bodies[n].size == 0
            && (forall x | x in s.nodes :: s'.nodes[x].isDir == s.nodes[x].isDir && s'.nodes[x].name == s.nodes[x].name)
            && (forall i | i in s.bodies :: i in s'.bodies && s'.bodies[i] == s.bodies[i])
  {
  }

  /** node_alloc, setting the parent, list_add_tail. */
  method NewEntry(t: Tree, parent: Ino, n: Ino, leaf: string, isDir: bool) returns (t': Tree)
    requires parent in t && n !in t
    ensures t' == Added(t, parent, n, leaf, isDir)
  {
    AddedInSteps(t, parent, n, leaf, isDir);
    t' := t[n := NodeVal(leaf, isDir, NONE, [])];
    t' := t'[n := t'[n].(parent := parent)];
    t' := t'[parent := t'[parent].(children := t'[parent].children + [n])];
  }

  lemma LinkKeeps(s: State, root: Ino, depth: Depth, parent: Ino, leaf: string, isDir: bool)
    requires Ok(s, root, depth) && parent in s.nodes && s.nodes[parent].isDir && Linked(s.nodes, root, parent)
    ensures s.nextInode !in s.nodes && s.nextInode != NONE
    ensures Ok(Linking(s, parent, leaf, isDir), root, depth[s.nextInode := depth[parent] + 1])
  {
    var n := s.nextInode;
    AddKeepsTree(s.nodes, root, depth, parent, n, leaf, isDir);
    AddCounts(s.nodes, root, s.files, s.refcount, parent, n, leaf, isDir);
    assert IsBody(EMPTY);
  }

  method Link(s: State, ghost root: Ino, ghost depth: Depth, parent: Ino, leaf: string, isDir: bool)
    returns (s': State, ghost depth': Depth, n: Ino)
    requires Ok(s, root, depth) && parent in s.nodes && s.nodes[parent].isDir && Linked(s.nodes, root, parent)
    ensures Ok(s', root, depth') && n == s.nextInode && n !in s.nodes && n != NONE
    ensures s' == Linking(s, parent, leaf, isDir)
  {
    n := s.nextInode;
    LinkKeeps(s, root, depth, parent, leaf, isDir);
    depth' := depth[n := depth[parent] + 1];
    var nodes := NewEntry(s.nodes, parent, n, leaf, isDir);
    s' := State(n + 1, nodes, s.refcount[n := 1], s.bodies[n := EMPTY], s.files);
  }

  /** A node for a path that leads nowhere yet, in the directory it names. */
  method NewNode(s: State, ghost root: Ino, ghost depth: Depth, ghost path: seq<string>, parent: Ino, leaf: string, isDir: bool)
    returns (s': State, ghost depth': Depth, n: Ino)
    requires Ok(s, root, depth) && Walk(s.nodes, root, path) == NONE
    requires parent == WalkParent(s.nodes, root, path) != NONE && path != [] && leaf == Last(path)
    ensures Ok(s', root, depth') && n == s.nextInode && n !in s.nodes && n != NONE
    ensures s' == Linking(s, parent, leaf, isDir) && Created(s, s', root, path, isDir)
    ensures UniqueNames(s.nodes) ==> UniqueNames(s'.nodes)
  {
    WalkIsParentThenChild(s.nodes, root, path);
    ParentIsLinked(s, root, depth, path);
    LinkingCreates(s, root, depth, path, isDir);
    s', depth', n := Link(s, root, depth, parent, leaf, isDir);
    if UniqueNames(s.nodes) {
      AddKeepsUniqueNames(s.nodes, root, depth, parent, n, leaf, isDir);
    }
  }

  /** The directory that a path names is in the tree. */
  lemma ParentIsLinked(s: State, root: Ino, depth: Depth, path: seq<string>)
    requires Ok(s, root, depth) && path != [] && WalkParent(s.nodes, root, path) != NONE
    ensures var dir := WalkParent(s.nodes, root, path); dir in s.nodes && s.nodes[dir].isDir && Linked(s.nodes, root, dir)
  {
    WalkParentIsWalk(s.nodes, root, path);
    if Front(path) != [] {
      WalkLastStep(s.nodes, root, depth, Front(path));
    }
  }

  /** node_put */
  method NodePut(s: State, n: Ino) returns (s': State)
    requires n in s.nodes && s.nodes.Keys == s.refcount.Keys
    ensures s'.refcount == Released(s.refcount, n) && s'.files == s.files && s'.nextInode == s.nextInode
    ensures s'.nodes == (if s.refcount[n] > 1 then s.nodes else s.nodes - {n})
    ensures s'.bodies == (if s.refcount[n] > 1 then s.bodies else s.bodies - {n})
  {
    s' := s.(refcount := s.refcount[n := s.refcount[n] - 1]);
    if s'.refcount[n] <= 0 {
      s' := s'.(nodes := s.nodes - {n}, refcount := s.refcount - {n}, bodies := s.bodies - {n});
    }
  }

  /** The nodes that are left keep their contents. */
  ghost predicate SameContents(s: State, s': State) {
    s'.nextInode == s.nextInode && forall i | i in s'.bodies :: i in s.bodies && s'.bodies[i] == s.bodies[i]
  }

  ghost predicate Closes(s: State, root: Ino, h: nat, s': State) {
    && h in s.files && s'.files == s.files - {h} && s.files[h].node in s.nodes
    && s'.nodes == Kept(s.nodes, root, s'.files, s.files[h].node) && SameContents(s, s')
  }

  /** tmpfs_close: the node is freed exactly when it is in no directory and this was its last open file. */
  method Close(s: State, ghost root: Ino, ghost depth: Depth, h: nat) returns (s': State)
    requires Ok(s, root, depth) && h in s.files
    ensures Ok(s', root, depth) && Closes(s, root, h, s')
    ensures UniqueNames(s.nodes) ==> UniqueNames(s'.nodes)
  {
    CloseKeeps(s.nodes, root, depth, s.files, s.refcount, h);
    s' := NodePut(s, s.files[h].node);
    s' := s'.(files := s.files - {h});
  }

  /** What opening a path finds or makes: (the state, the node, or NONE). */
  ghost function Found(s: State, root: Ino, path: seq<string>, create: bool, memory: bool): (State, Ino) {
    var n := Walk(s.nodes, root, path);
    var p := WalkParent(s.nodes, root, path);
    if n == NONE && create && p != NONE && path != [] && memory then (Linking(s, p, Last(path), false), s.nextInode)
    else (s, n)
  }

  /** The first half of tmpfs_open: look the path up, and create the file if asked to. */
  method FindOrCreate(s: State, root: Ino, ghost depth: Depth, path: string, create: bool, memory: bool)
    returns (s': State, ghost depth': Depth, n: Ino)
    requires Ok(s, root, depth)
    ensures Ok(s', root, depth') && (s', n) == Found(s, root, Components(path), create, memory)
    ensures n != NONE ==> n in s'.nodes
    ensures var cs := Components(path);
            if Walk(s.nodes, root, cs) == NONE && create && WalkParent(s.nodes, root, cs) != NONE && memory then Created(s, s', root, cs, false)
            else s' == s
    ensures n == Walk(s'.nodes, root, Components(path))
    ensures UniqueNames(s.nodes) ==> UniqueNames(s'.nodes)
  {
    s', depth' := s, depth;
    n := Lookup(s, root, depth, path);
    if n == NONE && create {
      var parent, leaf := LookupParent(s, root, depth, path);
      if parent != NONE && memory {
        s', depth', n := NewNode(s, root, depth, Components(path), parent, leaf, false);
      }
    }
  }

  /** Whether a found node can be opened with these flags. */
  predicate MayOpen(t: Tree, n: Ino, flags: OpenFlags) {
    n in t && t[n].isDir == flags.directory
  }

  /** O_TRUNC on a regular file. */
  function Truncated(s: State, n: Ino, flags: OpenFlags): map<Ino, Body> {
    if flags.truncate && n in s.bodies && !flags.directory then s.bodies[n := s.bodies[n].(size := 0)] else s.bodies
  }

  /** An empty file is still a body. */
  lemma TruncatedIsBodies(s: State, root: Ino, depth: Depth, n: Ino, flags: OpenFlags)
    requires Ok(s, root, depth)
    ensures Ok(s.(bodies := Truncated(s, n, flags)), root, depth)
  {
    if n in s.bodies {
      assert IsBody(s.bodies[n]) && IsBody(s.bodies[n].(size := 0));
    }
  }

  /** One more open file on a node, and one more use of it. */
  lemma OpeningKeeps(s: State, root: Ino, depth: Depth, n: Ino, h: nat)
    requires Ok(s, root, depth) && h !in s.files && n in s.nodes
    ensures n in s.refcount
    ensures Ok(s.(files := s.files[h := File(n, 0)], refcount := s.refcount[n := s.refcount[n] + 1]), root, depth)
  {
    OpenCounts(s.nodes, root, s.files, s.refcount, h, File(n, 0));
  }

  /** The second half of tmpfs_open: check the type, truncate, and make the file record. */
  method OpenNode(s: State, ghost root: Ino, ghost depth: Depth, n: Ino, flags: OpenFlags, memory: bool, h: nat)
    returns (s': State, ok: bool)
    requires Ok(s, root, depth) && h !in s.files && n in s.nodes
    ensures Ok(s', root, depth) && s'.nodes == s.nodes && s'.nextInode == s.nextInode
    ensures s'.bodies == if MayOpen(s.nodes, n, flags) then Truncated(s, n, flags) else s.bodies
    ensures ok <==> MayOpen(s.nodes, n, flags) && memory
    ensures s'.files == if ok then s.files[h := File(n, 0)] else s.files
  {
    s', ok := s, false;
    if s.nodes[n].isDir == flags.directory {
      if flags.truncate && !s.nodes[n].isDir {
        TruncatedIsBodies(s, root, depth, n, flags);
        s' := s'.(bodies := s.bodies[n := s.bodies[n].(size := 0)]);
      }
      if memory {
        OpeningKeeps(s', root, depth, n, h);
        s' := s'.(files := s.files[h := File(n, 0)], refcount := s.refcount[n := s.refcount[n] + 1]);
        ok := true;
      }
    }
  }

  /** tmpfs_open. The parameters say whether each allocation succeeds and where the file record is put.
      A file created on the way stays even when the open fails, and truncation comes before the last allocation. */
  method Open(s: State, root: Ino, ghost depth: Depth, path: string, flags: OpenFlags, nodeMem: bool, fileMem: bool, h: nat)
    returns (s': State, ghost depth': Depth, ok: bool)
    requires Ok(s, root, depth) && h !in s.files
    ensures Ok(s', root, depth')
    ensures var (s1, n) := Found(s, root, Components(path), flags.create, nodeMem);
            && s'.nodes == s1.nodes && s'.nextInode == s1.nextInode
            && s'.bodies == (if MayOpen(s1.nodes, n, flags) then Truncated(s1, n, flags) else s1.bodies)
            && (ok <==> MayOpen(s1.nodes, n, flags) && fileMem)
            && s'.files == (if ok then s.files[h := File(n, 0)] else s.files)
    ensures var cs := Components(path);
            if Walk(s.nodes, root, cs) == NONE && flags.create && WalkParent(s.nodes, root, cs) != NONE && nodeMem
            then Created(s, s', root, cs, false) else s'.nodes == s.nodes && s'.nextInode == s.nextInode
    ensures var n := Walk(s'.nodes, root, Components(path));
            && (ok <==> n in s'.nodes && s'.nodes[n].isDir == flags.directory && fileMem)
            && s'.files == (if ok then s.files[h := File(n, 0)] else s.files)
            && forall i | i in s.bodies :: i in s'.bodies && s'.bodies[i] ==
                 if i == n && flags.truncate && !flags.directory && !s'.nodes[n].isDir then s.bodies[i].(size := 0) else s.bodies[i]
    ensures UniqueNames(s.nodes) ==> UniqueNames(s'.nodes)
  {
    var n: Ino;
    s', depth', n := FindOrCreate(s, root, depth, path, flags.create, nodeMem);
    ok := false;
    if n != NONE {
      ghost var found := s';
      s', ok := OpenNode(s', root, depth', n, flags, fileMem, h);
      OpenedBodies(s, found, s', root, depth, Components(path), flags, n);
      if found != s {
        StillCreated(s, found, s', root, depth', Components(path), flags, n);
      }
    }
  }

  /** Which contents an open cuts off. */
  lemma OpenedBodies(s: State, found: State, s': State, root: Ino, depth: Depth, path: seq<string>, flags: OpenFlags, n: Ino)
    requires Ok(s, root, depth) && (found == s || (Created(s, found, root, path, false) && n == s.nextInode))
    requires s'.bodies == if MayOpen(found.nodes, n, flags) then Truncated(found, n, flags) else found.bodies
    ensures forall i | i in s.bodies :: i in s'.bodies && s'.bodies[i] ==
              if i == n && flags.truncate && !flags.directory && n in found.nodes && !found.nodes[n].isDir then s.bodies[i].(size := 0) else s.bodies[i]
  {
  }

  /** Truncating the file that was just created changes nothing. */
  lemma StillCreated(s: State, found: State, s': State, root: Ino, depth: Depth, path: seq<string>, flags: OpenFlags, n: Ino)
    requires Ok(found, root, depth) && Created(s, found, root, path, false) && n == s.nextInode
    requires s'.nodes == found.nodes && s'.nextInode == found.nextInode
    requires s'.bodies == if MayOpen(found.nodes, n, flags) then Truncated(found, n, flags) else found.bodies
    requires forall i | i in s.bodies :: i in s.nodes
    ensures Created(s, s', root, path, false) && forall i | i in s.bodies :: i in s'.bodies && s'.bodies[i] == s.bodies[i]
  {
  }

  /** tmpfs_mkdir */
  method Mkdir(s: State, root: Ino, ghost depth: Depth, path: string, memory: bool)
    returns (s': State, ghost depth': Depth, ok: bool)
    requires Ok(s, root, depth)
    ensures Ok(s', root, depth')
    ensures var cs := Components(path);
            && (ok <==> Walk(s.nodes, root, cs) == NONE && WalkParent(s.nodes, root, cs) != NONE && memory)
            && (if ok then cs != [] && s' == Linking(s, WalkParent(s.nodes, root, cs), Last(cs), true) else s' == s)
    ensures ok ==> Created(s, s', root, Components(path), true)
    ensures UniqueNames(s.nodes) ==> UniqueNames(s'.nodes)
  {
    s', depth', ok := s, depth, false;
    var n := Lookup(s, root, depth, path);
    if n == NONE {
      var parent, leaf := LookupParent(s, root, depth, path);
      if parent != NONE && memory {
        s', depth', n := NewNode(s, root, depth, Components(path), parent, leaf, true);
        ok := true;
      }
    }
  }

  /** list_del and parent = NULL */
  method Detach(t: Tree, ghost root: Ino, ghost depth: Depth, n: Ino) returns (t': Tree)
    requires IsTree(t, root, depth) && n in t && t[n].parent != NONE
    ensures t' == Cut(t, n)
  {
    CutInSteps(t, root, depth, n);
    var p := t[n].parent;
    t' := t[p := t[p].(children := Without(t[p].children, n))];
    t' := t'[n := t'[n].(parent := NONE)];
  }

  /** The node is still allocated only if it is open; exactly its own path leads nowhere now, and all else is as before. */
  ghost predicate Gone(s: State, s': State, root: Ino, path: seq<string>) {
    var n := Walk(s.nodes, root, path);
    && s'.nodes.Keys == s.nodes.Keys - (if exists h :: h in s.files && s.files[h].node == n then {} else {n})
    && (forall x | x in s'.nodes :: s'.nodes[x].isDir == s.nodes[x].isDir && s'.nodes[x].name == s.nodes[x].name)
    && (forall p :: Walk(s'.nodes, root, p) == if p == path then NONE else Walk(s.nodes, root, p))
  }

  lemma RemovingLoses(s: State, s': State, root: Ino, depth: Depth, path: seq<string>)
    requires Ok(s, root, depth)
    requires var n := Walk(s.nodes, root, path);
             n in s.nodes && s.nodes[n].parent != NONE && s.nodes[n].children == [] && s'.nodes == Kept(Cut(s.nodes, n), root, s.files, n)
    ensures UniqueNames(s.nodes) ==> Gone(s, s', root, path)
  {
    var n := Walk(s.nodes, root, path);
    OpenIffOpens(s.files, n);
    if UniqueNames(s.nodes) {
      GonePath(s.nodes, root, depth, s'.nodes, path, n);
    }
  }

  lemma OpenIffOpens(files: Files, n: Ino)
    ensures Opens(files, n) > 0 <==> exists h :: h in files && files[h].node == n
  {
    if h :| h in files && files[h].node == n {
      assert h in OpenOn(files, n);
    }
    if Opens(files, n) > 0 {
      var h :| h in OpenOn(files, n);
    }
  }

  /** list_del, parent = NULL and node_put of a node in a directory. */
  method Remove(s: State, ghost root: Ino, ghost depth: Depth, n: Ino) returns (s': State)
    requires Ok(s, root, depth) && n in s.nodes && s.nodes[n].parent != NONE && s.nodes[n].children == []
    ensures Ok(s', root, depth) && s'.files == s.files && SameContents(s, s')
    ensures s'.nodes == Kept(Cut(s.nodes, n), root, s.files, n)
    ensures UniqueNames(s.nodes) ==> UniqueNames(s'.nodes)
  {
    CutKeeps(s.nodes, root, depth, s.files, s.refcount, n);
    var nodes := Detach(s.nodes, root, depth, n);
    s' := NodePut(s.(nodes := nodes), n);
  }

  /** tmpfs_unlink */
  method Unlink(s: State, root: Ino, ghost depth: Depth, path: string) returns (s': State, ok: bool)
    requires Ok(s, root, depth)
    ensures Ok(s', root, depth) && s'.files == s.files && SameContents(s, s')
    ensures var n := Walk(s.nodes, root, Components(path));
            && (ok <==> n != NONE && n in s.nodes && !s.nodes[n].isDir)
            && (!ok ==> s' == s)
            && s'.nodes == (if ok then Kept(Cut(s.nodes, n), root, s.files, n) else s.nodes)
            && (ok && UniqueNames(s.nodes) ==> Gone(s, s', root, Components(path)))
    ensures UniqueNames(s.nodes) ==> UniqueNames(s'.nodes)
  {
    s', ok := s, false;
    var n := Lookup(s, root, depth, path);
    if n != NONE && !s.nodes[n].isDir {
      s' := Remove(s, root, depth, n);
      ok := true;
      RemovingLoses(s, s', root, depth, Components(path));
    }
  }

  /** tmpfs_rmdir. The code does not exclude the mount root: then the root loses the use that keeps it allocated. */
  method Rmdir(s: State, root: Ino, ghost depth: Depth, path: string) returns (s': State, ok: bool)
    requires Ok(s, root, depth)
    ensures s'.files == s.files && SameContents(s, s')
    ensures var n := Walk(s.nodes, root, Components(path));
            && (ok <==> n != NONE && n in s.nodes && s.nodes[n].isDir && s.nodes[n].children == [])
            && (!ok ==> s' == s)
            && (ok && n != root ==> s'.nodes == Kept(Cut(s.nodes, n), root, s.files, n))
            && (ok && n != root && UniqueNames(s.nodes) ==> Gone(s, s', root, Components(path)))
    ensures Ok(s', root, depth) <==> !ok || Components(path) != []
    ensures UniqueNames(s.nodes) && Components(path) != [] ==> UniqueNames(s'.nodes)
  {
    s', ok := s, false;
    var n := Lookup(s, root, depth, path);
    if n != NONE && s.nodes[n].isDir && s.nodes[n].children == [] {
      ok := true;
      if n == root {
        // list_del on the root's empty link and parent = NULL change nothing.
        s' := NodePut(s, root);
        assert s.refcount[root] == 1 + Opens(s.files, root);
      } else {
        s' := Remove(s, root, depth, n);
        RemovingLoses(s, s', root, depth, Components(path));
      }
    }
  }

  /** The walk up from the new parent: does it pass n? */
  method PassesThrough(t: Tree, ghost root: Ino, ghost depth: Depth, from: Ino, n: Ino) returns (b: bool)
    requires IsTree(t, root, depth) && from in t && n in t
    ensures b <==> InSubtree(t, root, depth, from, n)
  {
    var walk := from;
    b := false;
    while walk != NONE && !b
      invariant walk != NONE ==> walk in t
      invariant b ==> InSubtree(t, root, depth, from, n)
      invariant !b ==> (InSubtree(t, root, depth, from, n) <==> walk != NONE && InSubtree(t, root, depth, walk, n))
      decreases if walk != NONE && walk in t then depth[walk] + 1 else 0, !b
    {
      if walk == n {
        b := true;
      } else {
        if t[walk].parent != NONE {
          Rises(t, root, depth, walk);
        }
        walk := t[walk].parent;
      }
    }
  }

  /** list_del, the new parent and name, then list_add_tail. */
  method Move(t: Tree, ghost root: Ino, ghost depth: Depth, n: Ino, q: Ino, leaf: string) returns (t': Tree)
    requires IsTree(t, root, depth) && n in t && t[n].parent != NONE && q in t && q != n
    ensures t' == Moved(t, n, q, leaf)
  {
    Rises(t, root, depth, n);
    var p := t[n].parent;
    MovedInSteps(t, p, n, q, leaf);
    t' := t[p := t[p].(children := Without(t[p].children, n))];
    t' := t'[n := t'[n].(parent := q)];
    t' := t'[n := t'[n].(name := leaf)];
    t' := t'[q := t'[q].(children := t'[q].children + [n])];
  }

  /** Every path below target leads where the same path below o led; other paths are as before; o is gone. */
  ghost predicate SubtreeMoved(t: Tree, t': Tree, root: Ino, o: seq<string>, target: seq<string>) {
    && (forall rest :: Walk(t', root, target + rest) == Walk(t, root, o + rest))
    && (forall path | !(o <= path) && !(target <= path) :: Walk(t', root, path) == Walk(t, root, path))
    && Walk(t', root, o) == NONE
  }

  lemma MoveIsSubtreeMove(t: Tree, root: Ino, depth: Depth, n: Ino, q: Ino, o: seq<string>, target: seq<string>)
    requires Movable(t, root, depth, n, q) && UniqueNames(t)
    requires Walk(t, root, o) == n
    requires target != [] && Walk(t, root, Front(target)) == q && |Last(target)| < NAME_SIZE
    requires Walk(t, root, target) == NONE
    ensures SubtreeMoved(t, Moved(t, n, q, Last(target)), root, o, target)
  {
    forall path: seq<string> {
      RenameMovesSubtree(t, root, depth, n, q, o, target, path);
    }
    RenameMovesSubtree(t, root, depth, n, q, o, target, []);
  }

  /** What the checks of rename come to: the node may be moved exactly when the new parent is not in its subtree;
      in particular never the root. */
  lemma RenameChecks(t: Tree, root: Ino, depth: Depth, n: Ino, q: Ino)
    requires IsTree(t, root, depth) && n in t && q in t && t[q].isDir && Linked(t, root, n) && Linked(t, root, q)
    ensures Movable(t, root, depth, n, q) <==> !InSubtree(t, root, depth, q, n)
    ensures !t[n].isDir ==> Movable(t, root, depth, n, q)
  {
    if n == root {
      AllBelowRoot(t, root, depth, q);
    }
    if !t[n].isDir {
      NothingBelowFile(t, root, depth, n, q);
    }
  }

  /** tmpfs_rename: it goes ahead unless a path does not resolve or the new parent is in the moved directory;
      then a whole subtree moves. Sibling names stay unique exactly when the target did not exist or was the
      node itself. */
  method Rename(s: State, root: Ino, ghost depth: Depth, from: string, to: string)
    returns (s': State, ghost depth': Depth, ok: bool)
    requires Ok(s, root, depth)
    ensures Ok(s', root, depth')
    ensures var t, n, q := s.nodes, Walk(s.nodes, root, Components(from)), WalkParent(s.nodes, root, Components(to));
            && (ok <==> n in t && q in t && !InSubtree(t, root, depth, q, n))
            && (if ok then s' == s.(nodes := s'.nodes) && Components(to) != [] && n in t && t[n].parent != NONE && s'.nodes == Moved(t, n, q, Last(Components(to)))
                else s' == s)
            && (ok && UniqueNames(t) ==>
                  (UniqueNames(s'.nodes) <==> Walk(t, root, Components(to)) == NONE || Walk(t, root, Components(to)) == n))
            && (ok && UniqueNames(t) && Walk(t, root, Components(to)) == NONE ==>
                  SubtreeMoved(t, s'.nodes, root, Components(from), Components(to)))
  {
    s', depth', ok := s, depth, false;
    var n := Lookup(s, root, depth, from);
    if n != NONE {
      var q, leaf := LookupParent(s, root, depth, to);
      if q != NONE {
        var below := false;
        if s.nodes[n].isDir {
          below := PassesThrough(s.nodes, root, depth, q, n);
        }
        RenameChecks(s.nodes, root, depth, n, q);
        if !below {
          ok := true;
          var nodes := Move(s.nodes, root, depth, n, q, leaf);
          depth' := RenameKeeps(s, root, depth, n, q, from, to);
          s' := s.(nodes := nodes);
        }
      }
    }
  }

  /** The facts rename's contract needs about the moved tree. */
  lemma RenameKeeps(s: State, root: Ino, depth: Depth, n: Ino, q: Ino, from: string, to: string) returns (depth': Depth)
    requires Ok(s, root, depth) && Movable(s.nodes, root, depth, n, q)
    requires n == Walk(s.nodes, root, Components(from)) && q == WalkParent(s.nodes, root, Components(to))
    requires Components(to) != [] && q == Walk(s.nodes, root, Front(Components(to))) && |Last(Components(to))| < NAME_SIZE
    ensures Ok(s.(nodes := Moved(s.nodes, n, q, Last(Components(to)))), root, depth')
    ensures UniqueNames(s.nodes) ==>
              (UniqueNames(Moved(s.nodes, n, q, Last(Components(to)))) <==>
               Walk(s.nodes, root, Components(to)) == NONE || Walk(s.nodes, root, Components(to)) == n)
    ensures UniqueNames(s.nodes) && Walk(s.nodes, root, Components(to)) == NONE ==>
              SubtreeMoved(s.nodes, Moved(s.nodes, n, q, Last(Components(to))), root, Components(from), Components(to))
  {
    var t, target := s.nodes, Components(to);
    WalkIsParentThenChild(t, root, target);
    depth' := NewDepth(t, root, depth, n, q);
    MoveKeepsTree(t, root, depth, n, q, Last(target));
    MoveCounts(t, root, s.files, s.refcount, n, q, Last(target));
    if UniqueNames(t) {
      MoveKeepsUniqueNames(t, root, depth, n, q, Last(target));
      if Walk(t, root, target) == NONE {
        MoveIsSubtreeMove(t, root, depth, n, q, Components(from), target);
      }
    }
  }

  /** The files a and b in the root. */
  function TwoFiles(): Tree {
    map[1 := NodeVal("", true, NONE, [2, 3]), 2 := NodeVal("a", false, 1, []), 3 := NodeVal("b", false, 1, [])]
  }

  lemma TwoFilesFacts()
    ensures IsTree(TwoFiles(), 1, map[1 := 0, 2 := 1, 3 := 1]) && UniqueNames(TwoFiles())
  {
    var t := TwoFiles();
    assert t[1].children == [2, 3] && t[2].name == "a" && t[3].name == "b" && "a"[0] != "b"[0];
    assert InParent(t, 2) && InParent(t, 3);
  }

  lemma TwoFilesWalk(name: string, n: Ino)
    requires (name == "a" && n == 2) || (name == "b" && n == 3)
    ensures Walk(TwoFiles(), 1, [name]) == n
  {
    var t := TwoFiles();
    assert t[1].children == [2, 3] && [2, 3][1..] == [3] && t[2].name == "a" && t[3].name == "b" && "a"[0] != "b"[0];
    assert FirstNamed(t, [3], "b") == 3;
    assert Child(t, 1, name) == n;
    assert [name][1..] == [];
  }

  /** Moving a onto the name b leaves two files of that name. */
  lemma RenameClobbers()
    ensures UniqueNames(TwoFiles()) && Walk(TwoFiles(), 1, ["a"]) == 2 && Walk(TwoFiles(), 1, ["b"]) == 3
    ensures !UniqueNames(Moved(TwoFiles(), 2, 1, "b"))
  {
    TwoFilesFacts();
    TwoFilesWalk("a", 2);
    TwoFilesWalk("b", 3);
    var t := TwoFiles();
    var t' := Moved(t, 2, 1, "b");
    WithoutFacts(t[1].children, 2);
    assert 2 in t'[1].children && 3 in t'[1].children && t'[2].name == t'[3].name;
  }

  /** rmdir of an empty mount root: the root's one reference goes, and the file system is left without a root. */
  lemma RmdirTakesRoot(depth: Depth)
    ensures Components("/") == [] && Walk(map[1 := NodeVal("", true, NONE, [])], 1, []) == 1
    ensures !Ok(State(2, map[], map[], map[], map[]), 1, depth)
  {
    NoComponents("/");
    assert "/"[1..] == "" && DropSlashes("/") == DropSlashes("/"[1..]);
  }

  lemma OffsetKeeps(s: State, root: Ino, depth: Depth, h: nat, offset: Word)
    requires Ok(s, root, depth) && h in s.files
    ensures Ok(s.(files := s.files[h := File(s.files[h].node, offset)]), root, depth)
  {
    var files' := s.files[h := File(s.files[h].node, offset)];
    forall n | n in s.nodes
      ensures Opens(files', n) == Opens(s.files, n)
    {
      OpensKeep(s.files, files', n);
    }
  }

  /** The contents of a node. */
  ghost function Bytes(s: State, n: Ino): seq<byte> {
    if n in s.bodies && IsBody(s.bodies[n]) then Contents(s.bodies[n]) else []
  }

  /** At most the contents of n and the offset of h changed. */
  ghost predicate OnlyContents(s: State, s': State, n: Ino, h: nat, offset: nat) {
    && offset < WRAP && s' == s.(bodies := s'.bodies, files := s'.files)
    && s'.bodies.Keys == s.bodies.Keys && (forall i | i in s.bodies && i != n :: s'.bodies[i] == s.bodies[i])
    && s'.files == s.files[h := File(n, offset)]
  }

  /** What a read of count bytes gets at the offset. */
  function PartAt(c: seq<byte>, offset: nat, count: nat): (part: seq<byte>)
    ensures |part| == if offset >= |c| then 0 else if offset + count > |c| then |c| - offset else count
    ensures forall k | 0 <= k < |part| :: part[k] == c[offset + k]
  {
    if offset >= |c| then [] else c[offset..if offset + count > |c| then |c| else offset + count]
  }

  /** How a read ends, what it gets, and that otherwise only the offset of h changes. */
  ghost predicate FileRead(s: State, h: nat, count: Word, s': State, data: seq<byte>, result: Outcome)
    requires h in s.files && s.files[h].node in s.nodes && s.files[h].node in s.bodies
  {
    var File(n, offset) := s.files[h];
    && result == (if s.nodes[n].isDir then Refused else if ReadWraps(s.bodies[n].size, offset, count) then Overruns else Done)
    && data == (if result == Done then PartAt(Bytes(s, n), offset, count) else [])
    && (if result == Done then OnlyContents(s, s', n, h, offset + |data|) && s'.bodies == s.bodies else s' == s)
  }

  /** tmpfs_read */
  method ReadFile(s: State, ghost root: Ino, ghost depth: Depth, h: nat, count: Word)
    returns (s': State, data: seq<byte>, result: Outcome)
    requires Ok(s, root, depth) && h in s.files
    ensures Ok(s', root, depth) && FileRead(s, h, count, s', data, result)
  {
    OpenHasBody(s, root, depth, h);
    s', data, result := ReadOpen(s, h, count);
    if result == Done {
      OffsetKeeps(s, root, depth, h, s.files[h].offset + |data|);
    }
  }

  /** The same without the rest of the file system. */
  method ReadOpen(s: State, h: nat, count: Word) returns (s': State, data: seq<byte>, result: Outcome)
    requires h in s.files && s.files[h].node in s.nodes && s.files[h].node in s.bodies && IsBody(s.bodies[s.files[h].node])
    ensures FileRead(s, h, count, s', data, result)
    ensures result == Done ==>
              s.files[h].offset + |data| < WRAP && s' == s.(files := s.files[h := File(s.files[h].node, s.files[h].offset + |data|)])
    ensures result != Done ==> s' == s
  {
    var File(n, offset) := s.files[h];
    s', data, result := s, [], Refused;
    if !s.nodes[n].isDir {
      data, result := Read(s.bodies[n], offset, count);
      if result == Done {
        s' := s.(files := s.files[h := File(n, offset + |data|)]);
      }
    }
  }

  /** An open file has contents. */
  lemma OpenHasBody(s: State, root: Ino, depth: Depth, h: nat)
    requires Ok(s, root, depth) && h in s.files
    ensures var n := s.files[h].node;
            n in s.nodes && n in s.bodies && IsBody(s.bodies[n]) && Bytes(s, n) == Contents(s.bodies[n])
  {
    assert h in OpenOn(s.files, s.files[h].node);
  }

  /** The state with a new body of the file that is open as h, and its new offset. */
  function WithBody(s: State, h: nat, b: Body, offset: Word): State
    requires h in s.files
  {
    s.(bodies := s.bodies[s.files[h].node := b], files := s.files[h := File(s.files[h].node, offset)])
  }

  lemma StoredKeeps(s: State, root: Ino, depth: Depth, h: nat, b: Body, offset: Word)
    requires Ok(s, root, depth) && h in s.files && IsBody(b)
    ensures Ok(WithBody(s, h, b, offset), root, depth)
  {
    OpenHasBody(s, root, depth, h);
    OffsetKeeps(s, root, depth, h, offset);
  }

  lemma StoredOnly(s: State, h: nat, b: Body, offset: Word)
    requires h in s.files && s.files[h].node in s.bodies && IsBody(b)
    ensures var n, s' := s.files[h].node, WithBody(s, h, b, offset);
            OnlyContents(s, s', n, h, offset) && Bytes(s', n) == Contents(b)
  {
  }

  /** The contents after a write that was done; the gap is what a write behind the end leaves between. */
  ghost predicate ContentsWritten(s: State, s': State, h: nat, data: seq<byte>, gap: seq<byte>)
    requires h in s.files
  {
    var File(n, offset) := s.files[h];
    && OnlyContents(s, s', n, h, offset + |data|)
    && (if data == [] then Bytes(s', n) == Bytes(s, n)
        else |gap| == (if offset > |Bytes(s, n)| then offset - |Bytes(s, n)| else 0)
             && Bytes(s', n) == Overwritten(Bytes(s, n), gap, offset, data))
  }

  /** tmpfs_write */
  method WriteFile(s: State, ghost root: Ino, ghost depth: Depth, h: nat, data: seq<byte>, memory: bool)
    returns (s': State, result: Outcome, ghost gap: seq<byte>)
    requires Ok(s, root, depth) && h in s.files && |data| < WRAP
    ensures Ok(s', root, depth)
    ensures var File(n, offset) := s.files[h];
            && result == (if s.nodes[n].isDir then Refused else if data == [] then Done
                          else WriteOutcome(s.bodies[n], offset, |data|, memory))
            && (if result == Done then ContentsWritten(s, s', h, data, gap) else s' == s)
  {
    OpenHasBody(s, root, depth, h);
    if s.nodes[s.files[h].node].isDir {
      s', result, gap := s, Refused, [];
    } else if data == [] {
      s', result, gap := s, Done, [];
      SameOffset(s, h);
    } else {
      ghost var b;
      s', result, gap, b := WriteOpen(s, h, data, memory);
      if result == Done {
        StoredKeeps(s, root, depth, h, b, s.files[h].offset + |data|);
      }
    }
  }

  /** The same for data to be written to a file that is no directory; b is its new body. */
  method WriteOpen(s: State, h: nat, data: seq<byte>, memory: bool)
    returns (s': State, result: Outcome, ghost gap: seq<byte>, ghost b: Body)
    requires h in s.files && data != [] && |data| < WRAP && s.files[h].node in s.bodies && IsBody(s.bodies[s.files[h].node])
    ensures result == WriteOutcome(s.bodies[s.files[h].node], s.files[h].offset, |data|, memory)
    ensures if result == Done then
              && s.files[h].offset + |data| < WRAP && IsBody(b) && s' == WithBody(s, h, b, s.files[h].offset + |data|)
              && ContentsWritten(s, s', h, data, gap)
            else s' == s
  {
    var File(n, offset) := s.files[h];
    s', gap := s, [];
    var next;
    next, result := Write(s.bodies[n], offset, data, memory);
    b := next;
    if result == Done {
      gap := if offset > s.bodies[n].size then next.buffer[s.bodies[n].size..offset] else [];
      WriteIsDoneIff(s.bodies[n], offset, |data|, memory);
      StoredOnly(s, h, next, offset + |data|);
      s' := WithBody(s, h, next, offset + |data|);
    }
  }

  lemma SameOffset(s: State, h: nat)
    requires h in s.files
    ensures s.files[h := File(s.files[h].node, s.files[h].offset)] == s.files
  {
  }

  /** tmpfs_truncate */
  method TruncateFile(s: State, ghost root: Ino, ghost depth: Depth, h: nat, length: Word, memory: bool)
    returns (s': State, result: Outcome)
    requires Ok(s, root, depth) && h in s.files
    ensures Ok(s', root, depth)
    ensures var n := s.files[h].node;
            && result == (if s.nodes[n].isDir then Refused else if length <= |s.bodies[n].buffer| then Done
                          else if length > MAX_CAPACITY then Stalls else if memory then Done else Refused)
            && (if result == Done then OnlyContents(s, s', n, h, s.files[h].offset) else s' == s)
            && Bytes(s', n) == if result != Done then Bytes(s, n)
                               else if length <= |Bytes(s, n)| then Bytes(s, n)[..length]
                               else Bytes(s, n) + Zeros(length - |Bytes(s, n)|)
  {
    var n := s.files[h].node;
    s', result := s, if s.nodes[n].isDir then Refused else Done;
    OpenHasBody(s, root, depth, h);
    if result == Done {
      var b;
      b, result := Truncate(s.bodies[n], length, memory);
      if result == Done {
        SameOffset(s, h);
        StoredKeeps(s, root, depth, h, b, s.files[h].offset);
        StoredOnly(s, h, b, s.files[h].offset);
        s' := s.(bodies := s.bodies[n := b]);
      }
    }
  }
}
