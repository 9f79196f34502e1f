/** What rename does to a tmpfs tree (fs/tmpfs.c). */
module TmpfsRename {
  import opened Lists
  import opened TmpfsTree

  /** Taking a node out of a list does not change the first node of any other name. */
  lemma {:induction false} FirstNamedWithout(t: Tree, s: seq<Ino>, n: Ino, name: string)
    requires n in t && (t[n].name != name || FirstNamed(t, s, name) != n)
    requires forall c | c in s && c in t && t[c].name == t[n].name :: c == n
    ensures FirstNamed(t, Without(s, n), name) == FirstNamed(t, s, name)
  {
    if s != [] {
      if !(s[0] in t && t[s[0]].name == name) {
        FirstNamedWithout(t, s[1..], n, name);
      }
      if s[0] != n {
        assert Without(s, n)[0] == s[0] && Without(s, n)[1..] == Without(s[1..], n);
      } else {
        assert Without(s, n) == Without(s[1..], n);
      }
    }
  }

  /** Two trees that name the nodes of a list alike find the same node in it. */
  lemma {:induction false} FirstNamedSame(t: Tree, t': Tree, s: seq<Ino>, name: string)
    requires forall c | c in s :: (c in t <==> c in t') && (c in t ==> t[c].name == t'[c].name)
    ensures FirstNamed(t', s, name) == FirstNamed(t, s, name)
  {
    if s != [] {
      FirstNamedSame(t, t', s[1..], name);
    }
  }

  lemma {:induction false} FirstNamedAppend(t: Tree, s: seq<Ino>, n: Ino, name: string)
    requires NONE !in t
    ensures FirstNamed(t, s + [n], name) ==
            if FirstNamed(t, s, name) != NONE then FirstNamed(t, s, name)
            else if n in t && t[n].name == name then n else NONE
  {
    if s == [] {
      assert s + [n] == [n] && [n][1..] == [];
      assert FirstNamed(t, [], name) == NONE;
    } else {
      FirstNamedAppend(t, s[1..], n, name);
      assert (s + [n])[0] == s[0] && (s + [n])[1..] == s[1..] + [n];
    }
  }

  /** x is n or lies below it. */
  ghost predicate InSubtree(t: Tree, root: Ino, depth: map<Ino, nat>, x: Ino, n: Ino)
    requires IsTree(t, root, depth) && x in t
    decreases depth[x]
  {
    x == n || (t[x].parent != NONE && (Rises(t, root, depth, x); InSubtree(t, root, depth, t[x].parent, n)))
  }

  lemma Rises(t: Tree, root: Ino, depth: map<Ino, nat>, x: Ino)
    requires IsTree(t, root, depth) && x in t && t[x].parent != NONE
    ensures t[x].parent in t && depth[x] == depth[t[x].parent] + 1
  {
    assert InParent(t, x);
  }

  /** Below n the depth is at least n's. */
  lemma {:induction false} SubtreeDepth(t: Tree, root: Ino, depth: map<Ino, nat>, x: Ino, n: Ino)
    requires IsTree(t, root, depth) && x in t && n in t && InSubtree(t, root, depth, x, n)
    ensures depth[x] >= depth[n] && (depth[x] == depth[n] ==> x == n)
    decreases depth[x]
  {
    if x != n {
      Rises(t, root, depth, x);
      SubtreeDepth(t, root, depth, t[x].parent, n);
    }
  }

  /** The children of directory x once n has moved from directory p to the end of directory q. */
  ghost function MovedChildren(children: seq<Ino>, x: Ino, n: Ino, p: Ino, q: Ino): seq<Ino> {
    (if x == p then Without(children, n) else children) + (if x == q then [n] else [])
  }

  /** The tree after n was taken from its directory and put, as leaf, at the end of directory q. */
  ghost function Moved(t: Tree, n: Ino, q: Ino, leaf: string): Tree
    requires n in t && t[n].parent != NONE
  {
    map x | x in t ::
      NodeVal(if x == n then leaf else t[x].name, t[x].isDir, if x == n then q else t[x].parent,
              MovedChildren(t[x].children, x, n, t[n].parent, q))
  }

  /** What rename checks before it moves n into directory q. */
  ghost predicate Movable(t: Tree, root: Ino, depth: map<Ino, nat>, n: Ino, q: Ino) {
    && IsTree(t, root, depth)
    && n in t && q in t && t[n].parent != NONE && t[q].isDir
    && !InSubtree(t, root, depth, q, n)
    && Linked(t, root, q)
  }

  ghost function NewDepth(t: Tree, root: Ino, depth: map<Ino, nat>, n: Ino, q: Ino): map<Ino, nat>
    requires Movable(t, root, depth, n, q)
  {
    map x | x in t ::
      if InSubtree(t, root, depth, x, n) then (SubtreeDepth(t, root, depth, x, n); depth[x] - depth[n] + depth[q] + 1)
      else depth[x]
  }

  /** Who is in which directory after the move. */
  lemma MovedMembers(t: Tree, root: Ino, depth: map<Ino, nat>, n: Ino, q: Ino, leaf: string, x: Ino)
    requires Movable(t, root, depth, n, q) && x in t
    ensures var t' := Moved(t, n, q, leaf);
            && (forall c {:trigger c in t'[x].children} :: c in t'[x].children <==> if c == n then x == q else c in t[x].children)
            && NoDuplicates(t'[x].children)
            && (t'[x].children != [] ==> t'[x].isDir)
    ensures n != q && n != t[n].parent && InParent(t, n)
  {
    Rises(t, root, depth, n);
    WithoutFacts(t[x].children, n);
    if x != t[n].parent {
      assert n !in t[x].children;
    }
  }

  /** Each child list after the move agrees with the parent pointers and the new depths. */
  lemma MovedChild(t: Tree, root: Ino, depth: map<Ino, nat>, n: Ino, q: Ino, leaf: string, x: Ino, c: Ino)
    requires Movable(t, root, depth, n, q) && x in t && c in Moved(t, n, q, leaf)[x].children
    ensures var t', d' := Moved(t, n, q, leaf), NewDepth(t, root, depth, n, q);
            c in t' && t'[c].parent == x && d'[c] == d'[x] + 1
  {
    MovedMembers(t, root, depth, n, q, leaf, x);
    if c != n {
      assert c in t[x].children;
      assert InSubtree(t, root, depth, c, n) <==> InSubtree(t, root, depth, x, n);
    }
  }

  lemma MovedParent(t: Tree, root: Ino, depth: map<Ino, nat>, n: Ino, q: Ino, leaf: string, x: Ino)
    requires Movable(t, root, depth, n, q) && x in t
    ensures var t' := Moved(t, n, q, leaf);
            if t'[x].parent == NONE then x != root ==> t'[x].children == []
            else InParent(t', x)
  {
    var t' := Moved(t, n, q, leaf);
    MovedMembers(t, root, depth, n, q, leaf, x);
    if t'[x].parent == NONE {
      assert x != n && t[x].parent == NONE;
      if x != root {
        assert t[x].children == [];
        assert x != t[n].parent && x != q;
      }
    } else {
      if x != n {
        assert InParent(t, x);
      }
      MovedMembers(t, root, depth, n, q, leaf, t'[x].parent);
    }
  }

  /** A move keeps the tree: no cycle, and parent pointers and child lists agree. */
  lemma MoveKeepsTree(t: Tree, root: Ino, depth: map<Ino, nat>, n: Ino, q: Ino, leaf: string)
    requires Movable(t, root, depth, n, q)
    ensures IsTree(Moved(t, n, q, leaf), root, NewDepth(t, root, depth, n, q))
  {
    var t', d' := Moved(t, n, q, leaf), NewDepth(t, root, depth, n, q);
    forall x | x in t'
      ensures NoDuplicates(t'[x].children) && (t'[x].children != [] ==> t'[x].isDir)
      ensures if t'[x].parent == NONE then x != root ==> t'[x].children == []
              else InParent(t', x)
    {
      MovedMembers(t, root, depth, n, q, leaf, x);
      MovedParent(t, root, depth, n, q, leaf, x);
    }
    forall x, c {:trigger c in t'[x].children} | x in t' && c in t'[x].children
      ensures c in t' && t'[c].parent == x && d'[c] == d'[x] + 1
    {
      MovedChild(t, root, depth, n, q, leaf, x, c);
    }
  }

  /** One step of a walk is the same before and after the move, unless it enters n or looks for the new name. */
  lemma SameStep(t: Tree, root: Ino, depth: map<Ino, nat>, n: Ino, q: Ino, leaf: string, x: Ino, name: string)
    requires Movable(t, root, depth, n, q) && UniqueNames(t) && x in t
    requires Child(t, x, name) != n
    requires x != q || name != leaf
    ensures Child(Moved(t, n, q, leaf), x, name) == Child(t, x, name)
  {
    var t' := Moved(t, n, q, leaf);
    var p := t[n].parent;
    MovedMembers(t, root, depth, n, q, leaf, x);
    var s := t[x].children;
    var s' := if x == p then Without(s, n) else s;
    WithoutFacts(s, n);
    if x == p {
      FirstNamedFacts(t, s, name);
      assert n in s;
      FirstNamedWithout(t, s, n, name);
    }
    assert FirstNamed(t, s', name) == FirstNamed(t, s, name);
    assert n !in s';
    FirstNamedSame(t, t', s', name);
    if x == q {
      FirstNamedAppend(t', s', n, name);
    } else {
      assert s' + [] == s';
    }
  }

  /** The step that finds the moved node under its new name. */
  lemma NewStep(t: Tree, root: Ino, depth: map<Ino, nat>, n: Ino, q: Ino, leaf: string)
    requires Movable(t, root, depth, n, q) && UniqueNames(t)
    requires Child(t, q, leaf) == NONE
    ensures Child(Moved(t, n, q, leaf), q, leaf) == n
  {
    var t' := Moved(t, n, q, leaf);
    var p := t[n].parent;
    MovedMembers(t, root, depth, n, q, leaf, q);
    var s := t[q].children;
    var s' := if q == p then Without(s, n) else s;
    WithoutFacts(s, n);
    FirstNamedFacts(t, s, leaf);
    FirstNamedFacts(t', s', leaf);
    FirstNamedAppend(t', s', n, leaf);
  }

  /** A walk as its last step. */
  lemma WalkSnoc(t: Tree, root: Ino, path: seq<string>)
    requires root != NONE && NONE !in t && path != []
    ensures var x := Walk(t, root, Front(path));
            Walk(t, root, path) == if x !in t || |Last(path)| >= NAME_SIZE then NONE else Child(t, x, Last(path))
  {
    var front, name := Front(path), Last(path);
    assert path == front + [name] && [name][1..] == [];
    WalkConcat(t, root, front, [name]);
  }

  /** The last step of a path that is neither below o nor below the target. */
  lemma OtherStepKeeps(t: Tree, root: Ino, depth: map<Ino, nat>, n: Ino, q: Ino,
                       o: seq<string>, target: seq<string>, path: seq<string>)
    requires Movable(t, root, depth, n, q) && UniqueNames(t)
    requires Walk(t, root, o) == n
    requires target != [] && Walk(t, root, Front(target)) == q
    requires path != [] && o != path && target != path && |Last(path)| < NAME_SIZE && Walk(t, root, Front(path)) in t
    ensures var x := Walk(t, root, Front(path));
            Child(Moved(t, n, q, Last(target)), x, Last(path)) == Child(t, x, Last(path))
  {
    var x, name := Walk(t, root, Front(path)), Last(path);
    WalkSnoc(t, root, path);
    if Child(t, x, name) == n {
      PathIsUnique(t, root, depth, path, o);
    }
    if x == q && name == Last(target) {
      assert path == Front(path) + [name] && target == Front(target) + [name];
      PathIsUnique(t, root, depth, Front(path), Front(target));
    }
    SameStep(t, root, depth, n, q, Last(target), x, name);
  }

  /** A walk that does not pass through n's old path o or its new path is not affected by the move. */
  lemma {:induction false} OtherPathsKeep(t: Tree, root: Ino, depth: map<Ino, nat>, n: Ino, q: Ino,
                                          o: seq<string>, target: seq<string>, path: seq<string>)
    requires Movable(t, root, depth, n, q) && UniqueNames(t)
    requires Walk(t, root, o) == n
    requires target != [] && Walk(t, root, Front(target)) == q
    requires !(o <= path) && !(target <= path)
    ensures Walk(Moved(t, n, q, Last(target)), root, path) == Walk(t, root, path)
    decreases |path|
  {
    var t' := Moved(t, n, q, Last(target));
    if path != [] {
      OtherPathsKeep(t, root, depth, n, q, o, target, Front(path));
      WalkSnoc(t, root, path);
      WalkSnoc(t', root, path);
      if |Last(path)| < NAME_SIZE && Walk(t, root, Front(path)) in t {
        OtherStepKeeps(t, root, depth, n, q, o, target, path);
      }
    }
  }

  lemma {:induction false} WalkStaysIn(t: Tree, root: Ino, depth: map<Ino, nat>, path: seq<string>)
    requires IsTree(t, root, depth) && Walk(t, root, path) != NONE
    ensures Walk(t, root, path) in t
  {
    if path != [] {
      WalkLastStep(t, root, depth, path);
    }
  }

  /** A walk from inside the subtree of n stays inside. */
  lemma StepStaysBelow(t: Tree, root: Ino, depth: map<Ino, nat>, n: Ino, x: Ino, name: string)
    requires IsTree(t, root, depth) && x in t && InSubtree(t, root, depth, x, n) && Child(t, x, name) != NONE
    ensures Child(t, x, name) in t && InSubtree(t, root, depth, Child(t, x, name), n)
  {
    FirstNamedFacts(t, t[x].children, name);
  }

  /** Below the moved node nothing changes. */
  lemma {:induction false} SubtreeKeeps(t: Tree, root: Ino, depth: map<Ino, nat>, n: Ino, q: Ino, leaf: string,
                                        x: Ino, rest: seq<string>)
    requires Movable(t, root, depth, n, q) && UniqueNames(t)
    requires x in t && InSubtree(t, root, depth, x, n)
    ensures Walk(Moved(t, n, q, leaf), x, rest) == Walk(t, x, rest)
    decreases rest
  {
    if rest != [] && |rest[0]| < NAME_SIZE {
      SubtreeDepth(t, root, depth, x, n);
      var c := Child(t, x, rest[0]);
      if c != NONE {
        FirstNamedFacts(t, t[x].children, rest[0]);
        assert c != n;
        StepStaysBelow(t, root, depth, n, x, rest[0]);
        SubtreeKeeps(t, root, depth, n, q, leaf, c, rest[1..]);
      }
      SameStep(t, root, depth, n, q, leaf, x, rest[0]);
    }
  }

  /** A directory that a path leads to through n lies in the subtree of n. */
  lemma {:induction false} ThroughIsBelow(t: Tree, root: Ino, depth: map<Ino, nat>, o: seq<string>, path: seq<string>)
    requires IsTree(t, root, depth) && o <= path && Walk(t, root, path) != NONE
    ensures Walk(t, root, o) != NONE && Walk(t, root, path) in t
    ensures InSubtree(t, root, depth, Walk(t, root, path), Walk(t, root, o))
  {
    assert path == o + path[|o|..];
    WalkConcat(t, root, o, path[|o|..]);
    WalkStaysIn(t, root, depth, path);
    if o != path {
      WalkLastStep(t, root, depth, path);
      assert o <= Front(path);
      ThroughIsBelow(t, root, depth, o, Front(path));
    } else {
      assert path[|o|..] == [];
    }
  }

  /** Rename moves a whole subtree. Let o lead to n and let nothing exist at the target. After the move,
      target followed by s leads where o followed by s led; every path through neither leads where it
      led; and the old path leads nowhere. */
  lemma RenameMovesSubtree(t: Tree, root: Ino, depth: map<Ino, nat>, n: Ino, q: Ino,
                           o: seq<string>, target: seq<string>, path: seq<string>)
    requires Movable(t, root, depth, n, q) && UniqueNames(t)
    requires Walk(t, root, o) == n
    requires target != [] && Walk(t, root, Front(target)) == q && |Last(target)| < NAME_SIZE
    requires Walk(t, root, target) == NONE
    ensures var t' := Moved(t, n, q, Last(target));
            && Walk(t', root, target + path) == Walk(t, root, o + path)
            && (!(o <= path) && !(target <= path) ==> Walk(t', root, path) == Walk(t, root, path))
            && Walk(t', root, o) == NONE
            && UniqueNames(t')
  {
    var leaf := Last(target);
    TargetLeads(t, root, depth, n, q, o, target);
    WalkConcat(Moved(t, n, q, leaf), root, target, path);
    WalkConcat(t, root, o, path);
    SubtreeKeeps(t, root, depth, n, q, leaf, n, path);
    if !(o <= path) && !(target <= path) {
      OtherPathsKeep(t, root, depth, n, q, o, target, path);
    }
    MoveKeepsUniqueNames(t, root, depth, n, q, leaf);
    OldPathGone(t, root, depth, n, q, o, target);
  }

  /** The target path leads to the moved node. */
  lemma TargetLeads(t: Tree, root: Ino, depth: map<Ino, nat>, n: Ino, q: Ino, o: seq<string>, target: seq<string>)
    requires Movable(t, root, depth, n, q) && UniqueNames(t) && Walk(t, root, o) == n
    requires target != [] && Walk(t, root, Front(target)) == q && |Last(target)| < NAME_SIZE
    requires Walk(t, root, target) == NONE
    ensures Walk(Moved(t, n, q, Last(target)), root, target) == n && Child(t, q, Last(target)) == NONE
  {
    var leaf, front := Last(target), Front(target);
    LastStepOf(t, root, target);
    LastStepOf(Moved(t, n, q, leaf), root, target);
    FrontStays(t, root, depth, n, q, o, target);
    NewStep(t, root, depth, n, q, leaf);
  }

  /** The last step of a walk. */
  lemma LastStepOf(t: Tree, root: Ino, target: seq<string>)
    requires root != NONE && target != [] && |Last(target)| < NAME_SIZE
    ensures var q := Walk(t, root, Front(target));
            NONE !in t && q in t ==> Walk(t, root, target) == Child(t, q, Last(target))
  {
    var leaf, front := Last(target), Front(target);
    assert target == front + [leaf];
    WalkConcat(t, root, front, [leaf]);
    assert [leaf][1..] == [];
  }

  /** The way to the new parent does not change. */
  lemma FrontStays(t: Tree, root: Ino, depth: map<Ino, nat>, n: Ino, q: Ino, o: seq<string>, target: seq<string>)
    requires Movable(t, root, depth, n, q) && UniqueNames(t) && Walk(t, root, o) == n
    requires target != [] && Walk(t, root, Front(target)) == q && |Last(target)| < NAME_SIZE
    requires Walk(t, root, target) == NONE && Child(t, q, Last(target)) == NONE
    ensures Walk(Moved(t, n, q, Last(target)), root, Front(target)) == q
  {
    var front := Front(target);
    if o <= front {
      ThroughIsBelow(t, root, depth, o, front);
    }
    OtherPathsKeep(t, root, depth, n, q, o, target, front);
  }

  /** Sibling names stay unique exactly when nothing else has the new name in the target directory. */
  lemma MoveKeepsUniqueNames(t: Tree, root: Ino, depth: map<Ino, nat>, n: Ino, q: Ino, leaf: string)
    requires Movable(t, root, depth, n, q) && UniqueNames(t)
    ensures UniqueNames(Moved(t, n, q, leaf)) <==> Child(t, q, leaf) == NONE || Child(t, q, leaf) == n
  {
    var t' := Moved(t, n, q, leaf);
    FirstNamedFacts(t, t[q].children, leaf);
    MovedMembers(t, root, depth, n, q, leaf, q);
    var e := Child(t, q, leaf);
    if e == NONE || e == n {
      forall x, c, d {:trigger c in t'[x].children, d in t'[x].children} |
        x in t' && c in t'[x].children && d in t'[x].children && c in t' && d in t' && t'[c].name == t'[d].name
        ensures c == d
      {
        MovedMembers(t, root, depth, n, q, leaf, x);
        assert c != n ==> c in t[x].children;
        assert d != n ==> d in t[x].children;
        assert x == q && c != n ==> t[c].name != leaf || c == e;
        assert x == q && d != n ==> t[d].name != leaf || d == e;
      }
    } else {
      assert e in t'[q].children && n in t'[q].children && t'[e].name == t'[n].name;
    }
  }

  /** The old path leads nowhere after the move: it would be a second path to something. */
  lemma OldPathGone(t: Tree, root: Ino, depth: map<Ino, nat>, n: Ino, q: Ino, o: seq<string>, target: seq<string>)
    requires Movable(t, root, depth, n, q) && UniqueNames(t)
    requires Walk(t, root, o) == n
    requires target != [] && Walk(t, root, Front(target)) == q && Walk(t, root, target) == NONE
    requires Child(t, q, Last(target)) == NONE
    ensures Walk(Moved(t, n, q, Last(target)), root, o) == NONE
  {
    var t' := Moved(t, n, q, Last(target));
    WalkLastStep(t, root, depth, o);
    var front, name := Front(o), Last(o);
    assert o == front + [name];
    var p := t[n].parent;
    assert InParent(t, n);
    if target <= front {
      ThroughIsBelow(t, root, depth, target, front);
    }
    OtherPathsKeep(t, root, depth, n, q, o, target, front);
    WalkConcat(t', root, front, [name]);
    assert [name][1..] == [];
    MovedMembers(t, root, depth, n, q, Last(target), p);
    FirstNamedFacts(t, t[p].children, Last(target));
    assert n in t[p].children;
    forall d | d in t'[p].children && d in t'
      ensures t'[d].name != name
    {
      assert d != n ==> d in t[p].children;
    }
    FirstNamedFacts(t', t'[p].children, name);
  }
}
