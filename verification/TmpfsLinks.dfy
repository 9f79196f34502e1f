/** What creating, unlinking and freeing a node do to a tmpfs tree (fs/tmpfs.c). */
module TmpfsLinks {
  import opened Lists
  import opened TmpfsTree
  import opened TmpfsRename

  /** A new node n at the end of directory p. */
  ghost function Added(t: Tree, p: Ino, n: Ino, leaf: string, isDir: bool): Tree {
    map x | x in t.Keys + {n} ::
      if x == n then NodeVal(leaf, isDir, p, [])
      else NodeVal(t[x].name, t[x].isDir, t[x].parent, if x == p then t[x].children + [n] else t[x].children)
  }

  /** Who is in which directory once n was added. */
  lemma AddedMembers(t: Tree, root: Ino, depth: map<Ino, nat>, p: Ino, n: Ino, leaf: string, isDir: bool, x: Ino)
    requires IsTree(t, root, depth) && p in t && t[p].isDir && n !in t && n != NONE && x in t
    ensures var t' := Added(t, p, n, leaf, isDir);
            && (forall c {:trigger c in t'[x].children} :: c in t'[x].children <==> if c == n then x == p else c in t[x].children)
            && NoDuplicates(t'[x].children)
            && (t'[x].children != [] ==> t'[x].isDir)
  {
    assert n !in t[x].children;
    var s, s' := t[x].children, Added(t, p, n, leaf, isDir)[x].children;
    if x == p {
      assert s' == s + [n];
    }
  }

  lemma AddKeepsTree(t: Tree, root: Ino, depth: map<Ino, nat>, p: Ino, n: Ino, leaf: string, isDir: bool)
    requires IsTree(t, root, depth) && p in t && t[p].isDir && n !in t && n != NONE && Linked(t, root, p)
    ensures p in depth && IsTree(Added(t, p, n, leaf, isDir), root, depth[n := depth[p] + 1])
  {
    var t', d' := Added(t, p, n, leaf, isDir), depth[n := depth[p] + 1];
    forall x | x in t'
      ensures NoDuplicates(t'[x].children) && (t'[x].children != [] ==> t'[x].isDir)
      ensures if t'[x].parent == NONE then x != root ==> t'[x].children == []
              else InParent(t', x)
    {
      if x != n {
        AddedMembers(t, root, depth, p, n, leaf, isDir, x);
        if t[x].parent != NONE {
          assert InParent(t, x);
          AddedMembers(t, root, depth, p, n, leaf, isDir, t[x].parent);
        }
      }
    }
    forall x, c {:trigger c in t'[x].children} | x in t' && c in t'[x].children
      ensures c in t' && t'[c].parent == x && d'[c] == d'[x] + 1
    {
      if x != n {
        AddedMembers(t, root, depth, p, n, leaf, isDir, x);
        assert c != n ==> c in t[x].children;
      }
    }
  }

  /** Sibling names stay unique exactly when the name was free; then the new node is found under it. */
  lemma AddKeepsUniqueNames(t: Tree, root: Ino, depth: map<Ino, nat>, p: Ino, n: Ino, leaf: string, isDir: bool)
    requires IsTree(t, root, depth) && UniqueNames(t) && p in t && t[p].isDir && n !in t && n != NONE
    ensures UniqueNames(Added(t, p, n, leaf, isDir)) <==> Child(t, p, leaf) == NONE
    ensures Child(t, p, leaf) == NONE ==> Child(Added(t, p, n, leaf, isDir), p, leaf) == n
  {
    var t' := Added(t, p, n, leaf, isDir);
    var s := t[p].children;
    FirstNamedFacts(t, s, leaf);
    FirstNamedSame(t, t', s, leaf);
    FirstNamedAppend(t', s, n, leaf);
    AddedMembers(t, root, depth, p, n, leaf, isDir, p);
    var e := Child(t, p, leaf);
    if e == NONE {
      forall x, c, d {:trigger c in t'[x].children, d in t'[x].children} |
        x in t' && c in t'[x].children && d in t'[x].children && c in t' && d in t' && t'[c].name == t'[d].name
        ensures c == d
      {
        assert x != n;
        AddedMembers(t, root, depth, p, n, leaf, isDir, x);
        assert c != n ==> c in t[x].children;
        assert d != n ==> d in t[x].children;
      }
    } else {
      assert e in t'[p].children && n in t'[p].children && t'[e].name == t'[n].name;
    }
  }

  /** list_del and parent = NULL. */
  ghost function Cut(t: Tree, n: Ino): Tree
    requires n in t
  {
    map x | x in t ::
      NodeVal(t[x].name, t[x].isDir, if x == n then NONE else t[x].parent,
              if x == t[n].parent then Without(t[x].children, n) else t[x].children)
  }

  /** n is in no list any more, and nothing else changed. */
  lemma CutMembers(t: Tree, root: Ino, depth: map<Ino, nat>, n: Ino, x: Ino)
    requires IsTree(t, root, depth) && n in t && t[n].parent != NONE && x in t
    ensures var t' := Cut(t, n);
            && (forall c {:trigger c in t'[x].children} :: c in t'[x].children <==> c != n && c in t[x].children)
            && NoDuplicates(t'[x].children)
            && (t[x].children == [] ==> t'[x].children == [])
  {
    WithoutFacts(t[x].children, n);
    if x != t[n].parent {
      assert n !in t[x].children;
    }
  }

  /** Each remaining entry of a child list was there before. */
  lemma CutChild(t: Tree, root: Ino, depth: map<Ino, nat>, n: Ino, x: Ino, c: Ino)
    requires IsTree(t, root, depth) && n in t && t[n].parent != NONE && x in t && c in Cut(t, n)[x].children
    ensures c in Cut(t, n) && Cut(t, n)[c].parent == x && depth[c] == depth[x] + 1
    ensures c != n && c in t[x].children
  {
    CutMembers(t, root, depth, n, x);
  }

  lemma CutKeepsTree(t: Tree, root: Ino, depth: map<Ino, nat>, n: Ino)
    requires IsTree(t, root, depth) && n in t && t[n].parent != NONE && t[n].children == []
    ensures IsTree(Cut(t, n), root, depth)
  {
    var t' := Cut(t, n);
    forall x | x in t'
      ensures NoDuplicates(t'[x].children) && (t'[x].children != [] ==> t'[x].isDir)
      ensures if t'[x].parent == NONE then x != root ==> t'[x].children == []
              else InParent(t', x)
    {
      CutMembers(t, root, depth, n, x);
      assert t[x].isDir == t'[x].isDir;
      if t'[x].parent != NONE {
        assert InParent(t, x);
        CutMembers(t, root, depth, n, t[x].parent);
      }
    }
    forall x, c {:trigger c in t'[x].children} | x in t' && c in t'[x].children
      ensures c in t' && t'[c].parent == x && depth[c] == depth[x] + 1
    {
      CutChild(t, root, depth, n, x, c);
    }
  }

  lemma CutKeepsUniqueNames(t: Tree, root: Ino, depth: map<Ino, nat>, n: Ino)
    requires IsTree(t, root, depth) && n in t && t[n].parent != NONE && UniqueNames(t)
    ensures UniqueNames(Cut(t, n))
  {
    var t' := Cut(t, n);
    forall x, c, d {:trigger c in t'[x].children, d in t'[x].children} |
      x in t' && c in t'[x].children && d in t'[x].children && c in t' && d in t' && t'[c].name == t'[d].name
      ensures c == d
    {
      CutChild(t, root, depth, n, x, c);
      CutChild(t, root, depth, n, x, d);
    }
  }

  /** Freeing a node that is in no directory. */
  lemma DropKeepsTree(t: Tree, root: Ino, depth: map<Ino, nat>, n: Ino)
    requires IsTree(t, root, depth) && n in t && t[n].parent == NONE && n != root
    ensures IsTree(t - {n}, root, depth)
    ensures UniqueNames(t) ==> UniqueNames(t - {n})
  {
    var t' := t - {n};
    forall x, c {:trigger c in t'[x].children} | x in t' && c in t'[x].children
      ensures c in t' && c in t[x].children
    {
    }
    forall x | x in t' && t'[x].parent != NONE
      ensures InParent(t', x)
    {
      assert InParent(t, x);
      assert t[n].children == [];
    }
  }

  /** A file has nothing below it. */
  lemma {:induction false} NothingBelowFile(t: Tree, root: Ino, depth: map<Ino, nat>, n: Ino, x: Ino)
    requires IsTree(t, root, depth) && n in t && !t[n].isDir && x in t
    ensures InSubtree(t, root, depth, x, n) ==> x == n
    decreases depth[x]
  {
    if x != n && t[x].parent != NONE {
      Rises(t, root, depth, x);
      assert InParent(t, x);
      NothingBelowFile(t, root, depth, n, t[x].parent);
    }
  }

  /** Everything linked lies below the root. */
  lemma {:induction false} AllBelowRoot(t: Tree, root: Ino, depth: map<Ino, nat>, x: Ino)
    requires IsTree(t, root, depth) && x in t && Linked(t, root, x)
    ensures InSubtree(t, root, depth, x, root)
    decreases depth[x]
  {
    if x != root {
      Rises(t, root, depth, x);
      assert InParent(t, x) && Linked(t, root, t[x].parent);
      AllBelowRoot(t, root, depth, t[x].parent);
    }
  }

  /** What a path leads to is linked. */
  lemma WalkIsLinked(t: Tree, root: Ino, depth: map<Ino, nat>, path: seq<string>)
    requires IsTree(t, root, depth) && Walk(t, root, path) != NONE
    ensures Walk(t, root, path) in t && Linked(t, root, Walk(t, root, path))
    ensures path != [] <==> Walk(t, root, path) != root
  {
    if path != [] {
      WalkLastStep(t, root, depth, path);
    }
  }

  /** One field of one node changed. */
  ghost function WithChildren(t: Tree, x: Ino, children: seq<Ino>): Tree
    requires x in t
  {
    t[x := t[x].(children := children)]
  }

  ghost function WithParent(t: Tree, x: Ino, parent: Ino): Tree
    requires x in t
  {
    t[x := t[x].(parent := parent)]
  }

  ghost function WithName(t: Tree, x: Ino, name: string): Tree
    requires x in t
  {
    t[x := t[x].(name := name)]
  }

  /** node_alloc, setting the parent and list_add_tail together. */
  lemma AddedInSteps(t: Tree, p: Ino, n: Ino, leaf: string, isDir: bool)
    requires p in t && n !in t
    ensures var t2 := WithParent(t[n := NodeVal(leaf, isDir, NONE, [])], n, p);
            WithChildren(t2, p, t2[p].children + [n]) == Added(t, p, n, leaf, isDir)
  {
  }

  /** list_del, then parent = NULL. */
  lemma CutInSteps(t: Tree, root: Ino, depth: map<Ino, nat>, n: Ino)
    requires IsTree(t, root, depth) && n in t && t[n].parent != NONE
    ensures var p := t[n].parent;
            && p in t && p != n
            && WithParent(WithChildren(t, p, Without(t[p].children, n)), n, NONE) == Cut(t, n)
  {
    Rises(t, root, depth, n);
  }

  /** list_del, the new parent and name, then list_add_tail. */
  lemma MovedInSteps(t: Tree, p: Ino, n: Ino, q: Ino, leaf: string)
    requires n in t && t[n].parent == p != NONE && p in t && q in t && p != n && q != n
    ensures var t3 := WithName(WithParent(WithChildren(t, p, Without(t[p].children, n)), n, q), n, leaf);
            WithChildren(t3, q, t3[q].children + [n]) == Moved(t, n, q, leaf)
  {
    var t3 := WithName(WithParent(WithChildren(t, p, Without(t[p].children, n)), n, q), n, leaf);
    var t4 := WithChildren(t3, q, t3[q].children + [n]);
    var t' := Moved(t, n, q, leaf);
    forall x | x in t
      ensures t4[x] == t'[x]
    {
      var s := if x == p then Without(t[x].children, n) else t[x].children;
      assert t3[x] == NodeVal(if x == n then leaf else t[x].name, t[x].isDir, if x == n then q else t[x].parent, s);
      assert x != q ==> s + [] == s;
    }
  }
}
