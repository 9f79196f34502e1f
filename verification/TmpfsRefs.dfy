/** Reference counts of tmpfs nodes (fs/tmpfs.c): one for the directory link and one for each open file. */
module TmpfsRefs {
  import opened TmpfsData
  import opened TmpfsTree
  import opened TmpfsRename
  import opened TmpfsLinks

  /** Per-open-file state. */
  datatype File = File(node: Ino, offset: Word)

  /** The open files, by address. */
  type Files = map<nat, File>

  ghost function OpenOn(files: Files, n: Ino): set<nat> {
    set h | h in files && files[h].node == n
  }

  /** How many open files a node has. */
  ghost function Opens(files: Files, n: Ino): nat {
    |OpenOn(files, n)|
  }

  /** The links and open files that keep a node alive. */
  ghost function Uses(t: Tree, root: Ino, files: Files, n: Ino): nat
    requires n in t
  {
    (if Linked(t, root, n) then 1 else 0) + Opens(files, n)
  }

  /** The reference count of every allocated node is one link plus its open files, and not zero. */
  ghost predicate Counted(t: Tree, root: Ino, files: Files, counts: map<Ino, int>) {
    && counts.Keys == t.Keys
    && (forall h | h in files :: files[h].node in t)
    && (forall n {:trigger counts[n]} | n in t :: counts[n] == Uses(t, root, files, n) && counts[n] > 0)
  }

  lemma OpensPlus(files: Files, h: nat, f: File, n: Ino)
    requires h !in files
    ensures Opens(files[h := f], n) == Opens(files, n) + if f.node == n then 1 else 0
  {
    assert OpenOn(files[h := f], n) == if f.node == n then OpenOn(files, n) + {h} else OpenOn(files, n);
  }

  lemma OpensMinus(files: Files, h: nat, n: Ino)
    requires h in files
    ensures Opens(files - {h}, n) == Opens(files, n) - if files[h].node == n then 1 else 0
  {
    assert (files - {h})[h := files[h]] == files;
    OpensPlus(files - {h}, h, files[h], n);
  }

  lemma NoFile(files: Files, n: Ino)
    requires Opens(files, n) == 0
    ensures forall h | h in files :: files[h].node != n
  {
    forall h | h in files
      ensures files[h].node != n
    {
      assert files[h].node == n ==> h in OpenOn(files, n);
    }
  }

  lemma OpensKeep(files: Files, files': Files, n: Ino)
    requires files.Keys == files'.Keys && forall h | h in files :: files[h].node == files'[h].node
    ensures Opens(files', n) == Opens(files, n)
  {
    assert OpenOn(files', n) == OpenOn(files, n);
  }

  lemma AddCounts(t: Tree, root: Ino, files: Files, counts: map<Ino, int>, p: Ino, n: Ino, leaf: string, isDir: bool)
    requires Counted(t, root, files, counts) && root in t && p in t && NONE !in t && n !in t
    ensures Counted(Added(t, p, n, leaf, isDir), root, files, counts[n := 1])
  {
    assert OpenOn(files, n) == {};
    forall x | x in t
      ensures Linked(Added(t, p, n, leaf, isDir), root, x) == Linked(t, root, x)
    {
    }
  }

  lemma OpenCounts(t: Tree, root: Ino, files: Files, counts: map<Ino, int>, h: nat, f: File)
    requires Counted(t, root, files, counts) && h !in files && f.node in t
    ensures Counted(t, root, files[h := f], counts[f.node := counts[f.node] + 1])
  {
    forall x | x in t
      ensures Opens(files[h := f], x) == Opens(files, x) + if f.node == x then 1 else 0
    {
      OpensPlus(files, h, f, x);
    }
  }

  /** The counts after one use of n is gone: the node goes with its last use. */
  function Released(counts: map<Ino, int>, n: Ino): map<Ino, int>
    requires n in counts
  {
    if counts[n] > 1 then counts[n := counts[n] - 1] else counts - {n}
  }

  /** The tree when n lost a use: n stays while it is linked or open. */
  ghost function Kept(t: Tree, root: Ino, files: Files, n: Ino): Tree
    requires n in t
  {
    if Linked(t, root, n) || Opens(files, n) > 0 then t else t - {n}
  }

  lemma CloseCounts(t: Tree, root: Ino, files: Files, counts: map<Ino, int>, h: nat)
    requires Counted(t, root, files, counts) && h in files
    ensures var n := files[h].node;
            && Kept(t, root, files - {h}, n) == (if counts[n] > 1 then t else t - {n})
            && Counted(Kept(t, root, files - {h}, n), root, files - {h}, Released(counts, n))
  {
    var n := files[h].node;
    forall x | x in t
      ensures Opens(files - {h}, x) == Opens(files, x) - if n == x then 1 else 0
    {
      OpensMinus(files, h, x);
    }
    if counts[n] == 1 {
      NoFile(files - {h}, n);
    }
  }

  /** Closing a file frees its node exactly when the node is in no directory and has no other open file. */
  lemma CloseKeeps(t: Tree, root: Ino, depth: map<Ino, nat>, files: Files, counts: map<Ino, int>, h: nat)
    requires IsTree(t, root, depth) && Counted(t, root, files, counts) && h in files
    ensures var n := files[h].node;
            var t' := Kept(t, root, files - {h}, n);
            && t' == (if counts[n] > 1 then t else t - {n})
            && IsTree(t', root, depth) && Counted(t', root, files - {h}, Released(counts, n))
            && (UniqueNames(t) ==> UniqueNames(t'))
  {
    CloseCounts(t, root, files, counts, h);
    if !Linked(t, root, files[h].node) {
      DropKeepsTree(t, root, depth, files[h].node);
    }
  }

  lemma CutCounts(t: Tree, root: Ino, files: Files, counts: map<Ino, int>, n: Ino)
    requires Counted(t, root, files, counts) && n in t && n != root && t[n].parent != NONE
    ensures Kept(Cut(t, n), root, files, n) == (if counts[n] > 1 then Cut(t, n) else Cut(t, n) - {n})
    ensures Counted(Kept(Cut(t, n), root, files, n), root, files, Released(counts, n))
  {
    if counts[n] == 1 {
      NoFile(files, n);
    }
  }

  /** Taking a node out of its directory frees it exactly when it has no open file. */
  lemma CutKeeps(t: Tree, root: Ino, depth: map<Ino, nat>, files: Files, counts: map<Ino, int>, n: Ino)
    requires IsTree(t, root, depth) && Counted(t, root, files, counts)
    requires n in t && t[n].parent != NONE && t[n].children == []
    ensures var t' := Kept(Cut(t, n), root, files, n);
            && t' == (if counts[n] > 1 then Cut(t, n) else Cut(t, n) - {n})
            && IsTree(t', root, depth) && Counted(t', root, files, Released(counts, n))
            && (UniqueNames(t) ==> UniqueNames(t'))
  {
    CutCounts(t, root, files, counts, n);
    CutKeepsTree(t, root, depth, n);
    DropKeepsTree(Cut(t, n), root, depth, n);
    if UniqueNames(t) {
      CutKeepsUniqueNames(t, root, depth, n);
    }
  }

  lemma MoveCounts(t: Tree, root: Ino, files: Files, counts: map<Ino, int>, n: Ino, q: Ino, leaf: string)
    requires Counted(t, root, files, counts) && n in t && n != root && t[n].parent != NONE && q != NONE
    ensures Counted(Moved(t, n, q, leaf), root, files, counts)
  {
    forall x | x in t
      ensures Linked(Moved(t, n, q, leaf), root, x) == Linked(t, root, x)
    {
    }
  }
}
