/** Where paths lead after a node was created or removed (fs/tmpfs.c). */
module TmpfsPaths {
  import opened Lists
  import opened TmpfsTree
  import opened TmpfsRename
  import opened TmpfsLinks

  /** The new node is found in its directory, and nothing else is found elsewhere. */
  lemma AddedChild(t: Tree, root: Ino, depth: map<Ino, nat>, p: Ino, n: Ino, leaf: string, isDir: bool, from: Ino, name: string)
    requires IsTree(t, root, depth) && p in t && t[p].isDir && n !in t && n != NONE && Child(t, p, leaf) == NONE && from in t
    ensures Child(Added(t, p, n, leaf, isDir), from, name) == if from == p && name == leaf then n else Child(t, from, name)
  {
    var t' := Added(t, p, n, leaf, isDir);
    assert n !in t[from].children;
    FirstNamedSame(t, t', t[from].children, name);
    if from == p {
      FirstNamedAppend(t', t[from].children, n, name);
    }
  }

  /** After adding a node to a directory under a free name exactly one more path leads somewhere. */
  lemma {:induction false} AddedPaths(t: Tree, root: Ino, depth: map<Ino, nat>, p: Ino, n: Ino, leaf: string, isDir: bool, from: Ino, path: seq<string>)
    requires IsTree(t, root, depth) && p in t && t[p].isDir && n !in t && n != NONE && |leaf| < NAME_SIZE
    requires Child(t, p, leaf) == NONE && from in t
    ensures Walk(Added(t, p, n, leaf, isDir), from, path) ==
            if path != [] && WalkParent(t, from, path) == p && Last(path) == leaf then n else Walk(t, from, path)
    decreases path
  {
    if path != [] && |path[0]| < NAME_SIZE {
      var t' := Added(t, p, n, leaf, isDir);
      AddedChild(t, root, depth, p, n, leaf, isDir, from, path[0]);
      FirstNamedFacts(t, t[from].children, path[0]);
      var c := Child(t, from, path[0]);
      if c != NONE {
        AddedPaths(t, root, depth, p, n, leaf, isDir, c, path[1..]);
        NoPathBelowFile(t, root, depth, c, path[1..]);
      } else if from == p && path[0] == leaf {
        NoPathBelowFile(t', root, depth, n, path[1..]);
      }
    }
  }

  /** Nothing is found below a node without children. */
  lemma NoPathBelowFile(t: Tree, root: Ino, depth: map<Ino, nat>, n: Ino, path: seq<string>)
    requires n in t
    ensures t[n].children == [] && path != [] ==> Walk(t, n, path) == NONE
    ensures !t[n].isDir && path != [] ==> Walk(t, n, path) == NONE
  {
  }

  /** The tree without n, which was cut off and perhaps freed. */
  ghost predicate IsWithout(t: Tree, t': Tree, n: Ino)
    requires n in t
  {
    t' == Cut(t, n) || t' == Cut(t, n) - {n}
  }

  /** Nobody finds n any more, and everything else is found as before. */
  lemma CutFinds(t: Tree, root: Ino, depth: map<Ino, nat>, t': Tree, n: Ino, from: Ino, name: string)
    requires IsTree(t, root, depth) && UniqueNames(t) && n in t && t[n].parent != NONE && IsWithout(t, t', n) && from in t && from != n
    ensures Child(t', from, name) == if Child(t, from, name) == n then NONE else Child(t, from, name)
  {
    var s, s' := t[from].children, t'[from].children;
    CutMembers(t, root, depth, n, from);
    FirstNamedSame(t, t', s', name);
    FirstNamedFacts(t, s, name);
    FirstNamedFacts(t, s', name);
    if from == t[n].parent {
      assert InParent(t, n);
      if Child(t, from, name) != n {
        FirstNamedWithout(t, s, n, name);
      }
    } else {
      assert n !in s;
    }
  }

  /** After removing a node without children exactly its path is gone. */
  lemma {:induction false} CutPaths(t: Tree, root: Ino, depth: map<Ino, nat>, t': Tree, n: Ino, from: Ino, path: seq<string>)
    requires IsTree(t, root, depth) && UniqueNames(t) && n in t && t[n].parent != NONE && t[n].children == []
    requires IsWithout(t, t', n) && from in t && from != n
    ensures Walk(t', from, path) == if Walk(t, from, path) == n then NONE else Walk(t, from, path)
    decreases path
  {
    if path != [] && |path[0]| < NAME_SIZE {
      CutFinds(t, root, depth, t', n, from, path[0]);
      FirstNamedFacts(t, t[from].children, path[0]);
      var c := Child(t, from, path[0]);
      if c == n {
        NoPathBelowFile(t, root, depth, n, path[1..]);
      } else if c != NONE {
        CutPaths(t, root, depth, t', n, c, path[1..]);
      }
    }
  }

  /** Creating a node makes its own path lead to it, and no other path lead anywhere else. */
  lemma MadePath(t: Tree, root: Ino, depth: map<Ino, nat>, path: seq<string>, n: Ino, isDir: bool)
    requires IsTree(t, root, depth) && path != [] && WalkParent(t, root, path) != NONE && Walk(t, root, path) == NONE
    requires n !in t && n != NONE && |Last(path)| < NAME_SIZE
    ensures forall p :: Walk(Added(t, WalkParent(t, root, path), n, Last(path), isDir), root, p) == if p == path then n else Walk(t, root, p)
  {
    var dir := WalkParent(t, root, path);
    WalkParentIsWalk(t, root, path);
    WalkIsParentThenChild(t, root, path);
    forall p
      ensures Walk(Added(t, dir, n, Last(path), isDir), root, p) == if p == path then n else Walk(t, root, p)
    {
      AddedPaths(t, root, depth, dir, n, Last(path), isDir, root, p);
      if p != [] && WalkParent(t, root, p) == dir && Last(p) == Last(path) {
        WalkParentIsWalk(t, root, p);
        PathIsUnique(t, root, depth, Front(p), Front(path));
        assert p == Front(p) + [Last(p)] && path == Front(path) + [Last(path)];
      }
    }
  }

  /** Removing a node makes its own path lead nowhere, and no other path lead anywhere else. */
  lemma GonePath(t: Tree, root: Ino, depth: map<Ino, nat>, t': Tree, path: seq<string>, n: Ino)
    requires IsTree(t, root, depth) && UniqueNames(t) && n in t && t[n].parent != NONE && t[n].children == []
    requires IsWithout(t, t', n) && n == Walk(t, root, path)
    ensures forall p :: Walk(t', root, p) == if p == path then NONE else Walk(t, root, p)
  {
    forall p
      ensures Walk(t', root, p) == if p == path then NONE else Walk(t, root, p)
    {
      CutPaths(t, root, depth, t', n, root, p);
      if Walk(t, root, p) == n {
        PathIsUnique(t, root, depth, p, path);
      }
    }
  }
}
