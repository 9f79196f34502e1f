/** tmpfs directory trees as values (fs/tmpfs.c): what path walking means, and what rename does to it. */
module TmpfsTree {
  import opened Lists

  /** An inode number; the counter they are drawn from starts at 1, and NONE stands for NULL. */
  type Ino = int

  const NONE: Ino := 0

  /** The linkage of one node. */
  datatype NodeVal = NodeVal(name: string, isDir: bool, parent: Ino, children: seq<Ino>)

  /** The linkage of all live nodes. */
  type Tree = map<Ino, NodeVal>

  /** Longest component a path may have, plus one. */
  const NAME_SIZE := 64

  /** The child list of the parent has n. */
  ghost predicate InParent(t: Tree, n: Ino)
    requires n in t
  {
    t[n].parent in t && n in t[t[n].parent].children
  }

  /** Parent pointers match the child lists, and depth witnesses that there is no cycle. A live node
      that is neither the root nor in a directory is an open file or directory that was unlinked. */
  ghost predicate IsTree(t: Tree, root: Ino, depth: map<Ino, nat>) {
    && NONE !in t && root in t && t[root].isDir && t[root].parent == NONE
    && t.Keys <= depth.Keys
    && (forall n {:trigger t[n].children} | n in t :: NoDuplicates(t[n].children) && (t[n].children != [] ==> t[n].isDir))
    && (forall n, c {:trigger c in t[n].children} | n in t && c in t[n].children :: c in t && t[c].parent == n && depth[c] == depth[n] + 1)
    && (forall n {:trigger InParent(t, n)} | n in t && t[n].parent != NONE :: InParent(t, n))
    && (forall n {:trigger t[n].parent} | n in t && t[n].parent == NONE && n != root :: t[n].children == [])
  }

  /** The node is the root or is in a directory. */
  ghost predicate Linked(t: Tree, root: Ino, n: Ino)
    requires n in t
  {
    n == root || t[n].parent != NONE
  }

  ghost predicate UniqueNames(t: Tree) {
    forall n, c, d {:trigger c in t[n].children, d in t[n].children} |
      n in t && c in t[n].children && d in t[n].children && c in t && d in t && t[c].name == t[d].name :: c == d
  }

  /** The first node of the list with the given name. */
  ghost function FirstNamed(t: Tree, list: seq<Ino>, name: string): Ino {
    if list == [] then NONE
    else if list[0] in t && t[list[0]].name == name then list[0]
    else FirstNamed(t, list[1..], name)
  }

  /** lookup_child */
  ghost function Child(t: Tree, dir: Ino, name: string): Ino
    requires dir in t
  {
    if t[dir].isDir then FirstNamed(t, t[dir].children, name) else NONE
  }

  /** Following components from a node; NONE when some component is too long or missing. */
  ghost function Walk(t: Tree, from: Ino, path: seq<string>): Ino
    decreases path
  {
    if path == [] then from
    else if |path[0]| >= NAME_SIZE || from !in t then NONE
    else
      var c := Child(t, from, path[0]);
      if c == NONE then NONE else Walk(t, c, path[1..])
  }

  /** The directory the last component would be in; every intermediate component must be a directory. */
  ghost function WalkParent(t: Tree, from: Ino, path: seq<string>): Ino
    decreases path
  {
    if path == [] || |path[0]| >= NAME_SIZE || from !in t then NONE
    else if |path| == 1 then from
    else
      var c := Child(t, from, path[0]);
      if c == NONE || c !in t || !t[c].isDir then NONE else WalkParent(t, c, path[1..])
  }

  function Last(path: seq<string>): string
    requires path != []
  {
    path[|path| - 1]
  }

  function Front(path: seq<string>): seq<string>
    requires path != []
  {
    path[..|path| - 1]
  }

  lemma {:induction false} FirstNamedFacts(t: Tree, list: seq<Ino>, name: string)
    requires NONE !in t
    ensures var c := FirstNamed(t, list, name);
            if c == NONE then forall d | d in list && d in t :: t[d].name != name
            else c in list && c in t && t[c].name == name
  {
    if list != [] {
      FirstNamedFacts(t, list[1..], name);
    }
  }

  /** Resolving a path is resolving its parent and looking the last component up there. */
  lemma {:induction false} WalkIsParentThenChild(t: Tree, from: Ino, path: seq<string>)
    requires path != [] && from in t && (forall n, c | n in t && c in t[n].children :: c in t)
    requires NONE !in t
    ensures WalkParent(t, from, path) != NONE ==> WalkParent(t, from, path) in t && |Last(path)| < NAME_SIZE
    ensures Walk(t, from, path) ==
            if WalkParent(t, from, path) == NONE then NONE else Child(t, WalkParent(t, from, path), Last(path))
    decreases path
  {
    if |path[0]| < NAME_SIZE {
      FirstNamedFacts(t, t[from].children, path[0]);
      var c := Child(t, from, path[0]);
      if |path| == 1 {
        assert path[1..] == [];
      } else if c != NONE {
        assert Last(path[1..]) == Last(path);
        WalkIsParentThenChild(t, c, path[1..]);
        if !t[c].isDir {
          assert Walk(t, c, path[1..]) == NONE;
        }
      }
    }
  }

  /** The walk to the parent ends in a directory, and is the walk along all but the last component. */
  lemma {:induction false} WalkParentIsWalk(t: Tree, from: Ino, path: seq<string>)
    requires path != [] && from in t && t[from].isDir && (forall n, c | n in t && c in t[n].children :: c in t)
    requires NONE !in t && WalkParent(t, from, path) != NONE
    ensures Walk(t, from, Front(path)) == WalkParent(t, from, path)
    ensures WalkParent(t, from, path) in t && t[WalkParent(t, from, path)].isDir
    decreases path
  {
    if |path| > 1 {
      FirstNamedFacts(t, t[from].children, path[0]);
      var c := Child(t, from, path[0]);
      WalkParentIsWalk(t, c, path[1..]);
      assert Front(path)[1..] == Front(path[1..]) && Front(path)[0] == path[0];
    }
  }

  lemma {:induction false} WalkConcat(t: Tree, from: Ino, a: seq<string>, b: seq<string>)
    requires from != NONE
    ensures Walk(t, from, a + b) == if Walk(t, from, a) == NONE then NONE else Walk(t, Walk(t, from, a), b)
    decreases a
  {
    if a == [] {
      assert a + b == b;
    } else if |a[0]| < NAME_SIZE && from in t {
      var c := Child(t, from, a[0]);
      assert (a + b)[0] == a[0] && (a + b)[1..] == a[1..] + b;
      if c != NONE {
        WalkConcat(t, c, a[1..], b);
      }
    } else {
      assert (a + b)[0] == a[0];
    }
  }

  /** The last step of a walk that gets somewhere. */
  lemma WalkLastStep(t: Tree, root: Ino, depth: map<Ino, nat>, path: seq<string>)
    requires IsTree(t, root, depth) && path != [] && Walk(t, root, path) != NONE
    ensures var m := Walk(t, root, path);
            && m in t && t[m].name == Last(path) && m != root
            && t[m].parent != NONE && Walk(t, root, Front(path)) == t[m].parent
  {
    assert path == Front(path) + [Last(path)];
    WalkConcat(t, root, Front(path), [Last(path)]);
    var p := Walk(t, root, Front(path));
    assert [Last(path)][1..] == [];
    assert p in t;
    FirstNamedFacts(t, t[p].children, Last(path));
  }

  /** A node has one path only. */
  lemma {:induction false} PathIsUnique(t: Tree, root: Ino, depth: map<Ino, nat>, a: seq<string>, b: seq<string>)
    requires IsTree(t, root, depth)
    requires Walk(t, root, a) != NONE && Walk(t, root, a) == Walk(t, root, b)
    ensures a == b
  {
    if a != [] {
      WalkLastStep(t, root, depth, a);
    }
    if b != [] {
      WalkLastStep(t, root, depth, b);
    }
    if a != [] && b != [] {
      PathIsUnique(t, root, depth, Front(a), Front(b));
      assert a == Front(a) + [Last(a)] && b == Front(b) + [Last(b)];
    }
  }
}
