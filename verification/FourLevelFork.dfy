/** The eager copy of a four-level address space at fork (arch/x86_64/paging.c). */
module FourLevelFork {
  import opened Ram
  import opened PageTables
  import opened ForkCopy
  import opened RadixTables
  import opened FourLevel

  /** The tables of an address space are as they were. */
  ghost predicate SameSpace(was: TableMemory, now: TableMemory, root: nat) {
    forall f | f in TableFrames(was, root) :: f in now && now[f] == was[f]
  }

  lemma {:induction false} SameAt(was: TableMemory, now: TableMemory, root: nat, q: Path)
    requires TreeOk(was, root) && SameSpace(was, now, root) && UserPath(q)
    ensures At(now, root, q) == At(was, root, q)
    decreases |q|
  {
    if q != [] {
      var front := q[..|q| - 1];
      FrontOf(q);
      SameAt(was, now, root, front);
      if At(was, root, front).Table? {
        assert IsTable(was, root, At(was, root, front).frame);
      }
    }
  }

  lemma SameSpaceReads(was: TableMemory, now: TableMemory, root: nat)
    requires TreeOk(was, root) && SameSpace(was, now, root)
    ensures TreeOk(now, root) && Flat(now, root) == Flat(was, root) && TableFrames(now, root) == TableFrames(was, root)
  {
    forall q | UserPath(q)
      ensures At(now, root, q) == At(was, root, q)
      ensures At(was, root, q).Table? ==> At(was, root, q).frame in TableFrames(was, root)
    {
      SameAt(was, now, root, q);
      if At(was, root, q).Table? {
        assert IsTable(was, root, At(was, root, q).frame);
      }
    }
    SameTables(was, now, root);
    forall v: nat | v < USER_SPAN
      ensures EntryOf(now, root, v) == EntryOf(was, root, v)
    {
      PathOfPage(v);
    }
    SameFlat(was, now, root);
  }

  /** The parent is as it was before the fork; none of its pages is free or the child's. */
  ghost predicate ParentKept(was: Memory, m: Memory, parent: nat, child: nat) {
    && SameSpace(was.tables, m.tables, parent)
    && TableFrames(was.tables, parent) !! m.free && TableFrames(was.tables, parent) !! TableFrames(m.tables, child)
    && AllFrames(Flat(was.tables, parent)) !! m.free && AllFrames(Flat(was.tables, parent)) !! Owned(m, child)
  }

  /** Pages that were in use before the fork hold what they held. */
  ghost predicate KeepsData(was: Memory, m: Memory) {
    forall f | f in was.bytes && f !in was.free :: f in m.bytes && m.bytes[f] == was.bytes[f]
  }

  /** The state of the copy when every page below n has been treated; the pages that were free are free or the child's. */
  ghost predicate Copying(was: Memory, m: Memory, parent: nat, child: nat, n: nat) {
    && TreeOk(was.tables, parent) && ParentKept(was, m, parent, child)
    && Valid(m, child) && Owns(m, child)
    && m.free + Owned(m, child) == was.free + Owned(was, child) && m.free <= was.free
    && KeepsData(was, m)
    && CopiedBelow(Flat(was.tables, parent), Flat(m.tables, child), m.bytes, n)
  }

  /** The copy of one present page: a frame of its own for it, with the same bytes. */
  method CopyPage(mach: Machine, child: nat, v: nat, e: Pte) returns (ok: bool)
    requires Valid(mach.m, child) && v < USER_SPAN && At(mach.m.tables, child, TablePath(v)).Table?
    requires e.flags.present && e.frame in mach.m.bytes
    modifies mach
    ensures Valid(mach.m, child) && TableFrames(mach.m.tables, child) == TableFrames(old(mach.m).tables, child)
    ensures OthersKeep(old(mach.m), mach.m, child)
    ensures At(mach.m.tables, child, TablePath(v)).Table?
    ensures if !ok then mach.m == old(mach.m) && old(mach.m).free == {}
            else exists f :: f in old(mach.m).free && mach.m.free == old(mach.m).free - {f}
                             && mach.m.bytes == old(mach.m).bytes[f := old(mach.m).bytes[e.frame]]
                             && Flat(mach.m.tables, child) == Flat(old(mach.m).tables, child)[v := Pte(f, e.flags)]
  {
    var f;
    f, ok := mach.TakePage();
    if ok {
      mach.m := mach.m.(bytes := mach.m.bytes[f := mach.m.bytes[e.frame]]);
      mach.StoreAt(child, v, Pte(f, e.flags));
    }
  }

  lemma PageCopied(was: Memory, m: Memory, m': Memory, parent: nat, child: nat, v: nat, f: nat)
    requires Copying(was, m, parent, child, v) && v in Flat(was.tables, parent)
    requires Valid(m', child) && TableFrames(m'.tables, child) == TableFrames(m.tables, child) && OthersKeep(m, m', child)
    requires f in m.free && m'.free == m.free - {f}
    requires var e := Flat(was.tables, parent)[v];
             e.frame in m.bytes && m'.bytes == m.bytes[f := m.bytes[e.frame]]
             && Flat(m'.tables, child) == Flat(m.tables, child)[v := Pte(f, e.flags)]
    ensures Copying(was, m', parent, child, v + 1)
  {
    var original, copy := Flat(was.tables, parent), Flat(m.tables, child);
    NewPage(copy, v, Pte(f, original[v].flags));
    FrameIsNew(original, copy, was, m, parent, child, f);
    CopyStep(original, copy, m.bytes, v, f);
    OneFrameMore(was, m, m', parent, child, v, f);
    DataStays(was, m, m', parent, v, f);
    ParentStays(was, m, m', parent, child, f);
  }

  lemma FrameIsNew(original: FlatMap, copy: FlatMap, was: Memory, m: Memory, parent: nat, child: nat, f: nat)
    requires original == Flat(was.tables, parent) && copy == Flat(m.tables, child)
    requires ParentKept(was, m, parent, child) && Owns(m, child) && f in m.free
    ensures f !in AllFrames(original) && f !in AllFrames(copy) && f !in TableFrames(was.tables, parent)
  {
  }

  lemma OneFrameMore(was: Memory, m: Memory, m': Memory, parent: nat, child: nat, v: nat, f: nat)
    requires Valid(m, child) && Owns(m, child) && v !in Flat(m.tables, child) && v in Flat(was.tables, parent)
    requires m.free + Owned(m, child) == was.free + Owned(was, child)
    requires TableFrames(m'.tables, child) == TableFrames(m.tables, child) && f in m.free && m'.free == m.free - {f}
    requires var e := Flat(was.tables, parent)[v];
             e.frame in m.bytes && m'.bytes == m.bytes[f := m.bytes[e.frame]]
             && Flat(m'.tables, child) == Flat(m.tables, child)[v := Pte(f, e.flags)]
    ensures Owns(m', child) && Owned(m', child) == Owned(m, child) + {f} && m'.free + Owned(m', child) == was.free + Owned(was, child)
  {
    NewPage(Flat(m.tables, child), v, Pte(f, Flat(was.tables, parent)[v].flags));
  }

  lemma DataStays(was: Memory, m: Memory, m': Memory, parent: nat, v: nat, f: nat)
    requires KeepsData(was, m) && f in was.free && v in Flat(was.tables, parent)
    requires var e := Flat(was.tables, parent)[v]; e.frame in m.bytes && m'.bytes == m.bytes[f := m.bytes[e.frame]]
    ensures KeepsData(was, m')
  {
  }

  lemma ParentStays(was: Memory, m: Memory, m': Memory, parent: nat, child: nat, f: nat)
    requires TreeOk(was.tables, parent) && ParentKept(was, m, parent, child) && OthersKeep(m, m', child)
    requires f in m.free && m'.free == m.free - {f} && Owned(m', child) == Owned(m, child) + {f}
    requires TableFrames(m'.tables, child) == TableFrames(m.tables, child)
    ensures ParentKept(was, m', parent, child)
  {
    forall g | g in TableFrames(was.tables, parent)
      ensures g in m'.tables && m'.tables[g] == was.tables[g]
    {
      assert m.tables[g] == was.tables[g];
    }
  }

  /** The innermost loop of arch_mm_copy_user: the pages of one table. */
  method CopyPages(ghost was: Memory, mach: Machine, parent: nat, child: nat, p: Path) returns (ok: bool, ghost n: nat)
    requires UserPath(p) && |p| == 3 && At(mach.m.tables, parent, p).Table? && At(mach.m.tables, child, p).Table?
    requires Copying(was, mach.m, parent, child, FirstPage(p))
    modifies mach
    ensures Copying(was, mach.m, parent, child, n)
    ensures if ok then n == FirstPage(p) + FANOUT else mach.m.free == {}
  {
    ok, n := true, FirstPage(p);
    NumberOfTable(p);
    for k := 0 to FANOUT
      invariant ok && n == FirstPage(p) + k && Copying(was, mach.m, parent, child, n)
      invariant At(mach.m.tables, parent, p).Table? && At(mach.m.tables, child, p).Table?
    {
      ok, n := CopyNext(was, mach, parent, child, p, k);
      if !ok {
        return;
      }
    }
  }

  method CopyNext(ghost was: Memory, mach: Machine, parent: nat, child: nat, p: Path, k: nat) returns (ok: bool, ghost n: nat)
    requires UserPath(p) && |p| == 3 && At(mach.m.tables, parent, p).Table? && At(mach.m.tables, child, p).Table? && k < FANOUT
    requires Copying(was, mach.m, parent, child, FirstPage(p) + k)
    modifies mach
    ensures Copying(was, mach.m, parent, child, n)
    ensures if ok then n == FirstPage(p) + k + 1 else mach.m.free == {}
    ensures ok ==> At(mach.m.tables, parent, p).Table? && At(mach.m.tables, child, p).Table?
  {
    EntryHere(was, mach.m, parent, child, p, k);
    var v := PageAt(p, k);
    var e := mach.m.tables[At(mach.m.tables, parent, p).frame][k];
    ok, n := true, v + 1;
    if e.flags.present {
      ok, n := CopyThis(was, mach, parent, child, v, e);
    } else {
      SkipPage(was, mach.m, parent, child, v);
    }
  }

  lemma SkipPage(was: Memory, m: Memory, parent: nat, child: nat, v: nat)
    requires Copying(was, m, parent, child, v) && v !in Flat(was.tables, parent)
    ensures Copying(was, m, parent, child, v + 1)
  {
    var original := Flat(was.tables, parent);
    forall w | v <= w < v + 1
      ensures w !in original
    {
      assert w == v;
    }
    NothingToCopy(original, Flat(m.tables, child), m.bytes, v, v + 1);
  }

  /** Pages that the parent does not have need no copy. */
  lemma SkipSubtree(was: Memory, m: Memory, parent: nat, child: nat, p: Path, from: nat, to: nat)
    requires UserPath(p) && At(m.tables, parent, p) == Nothing && from == FirstPage(p) && to == from + Span(|p|)
    requires Copying(was, m, parent, child, from)
    ensures Copying(was, m, parent, child, to)
  {
    SameSpaceReads(was.tables, m.tables, parent);
    forall v: nat | from <= v < to
      ensures v !in Flat(was.tables, parent)
    {
      NoPagesBelow(m.tables, parent, p, v);
    }
    NothingToCopy(Flat(was.tables, parent), Flat(m.tables, child), m.bytes, from, to);
  }

  lemma ParentAt(was: Memory, m: Memory, m': Memory, parent: nat, p: Path)
    requires TreeOk(was.tables, parent) && UserPath(p)
    requires SameSpace(was.tables, m.tables, parent) && SameSpace(was.tables, m'.tables, parent)
    ensures At(m'.tables, parent, p) == At(m.tables, parent, p)
  {
    SameAt(was.tables, m.tables, parent, p);
    SameAt(was.tables, m'.tables, parent, p);
  }

  /** What the parent has for the page with index k of a table. */
  lemma EntryHere(was: Memory, m: Memory, parent: nat, child: nat, p: Path, k: nat)
    requires UserPath(p) && |p| == 3 && At(m.tables, parent, p).Table? && k < FANOUT
    requires Copying(was, m, parent, child, FirstPage(p) + k)
    ensures var t, v, flat := At(m.tables, parent, p).frame, PageAt(p, k), Flat(was.tables, parent);
            && v == FirstPage(p) + k && v < USER_SPAN && TablePath(v) == p
            && t in m.tables && |m.tables[t]| == FANOUT
            && if m.tables[t][k].flags.present then v in flat && flat[v] == m.tables[t][k] else v !in flat
  {
    NumberOfTable(p);
    PageOfPath(p, k);
    SameSpaceReads(was.tables, m.tables, parent);
  }

  method CopyThis(ghost was: Memory, mach: Machine, parent: nat, child: nat, v: nat, e: Pte)
    returns (ok: bool, ghost n: nat)
    requires Copying(was, mach.m, parent, child, v) && v in Flat(was.tables, parent) && Flat(was.tables, parent)[v] == e
    requires At(mach.m.tables, child, TablePath(v)).Table? && v < USER_SPAN && e.flags.present
    modifies mach
    ensures Copying(was, mach.m, parent, child, n) && At(mach.m.tables, child, TablePath(v)).Table?
    ensures At(mach.m.tables, parent, TablePath(v)) == At(old(mach.m).tables, parent, TablePath(v))
    ensures if ok then n == v + 1 else mach.m.free == {}
  {
    assert e.frame in AllFrames(Flat(was.tables, parent));
    ok := CopyPage(mach, child, v, e);
    n := v;
    PathOfPage(v);
    if ok {
      n := v + 1;
      ghost var f :| f in old(mach.m).free && mach.m.free == old(mach.m).free - {f}
                     && mach.m.bytes == old(mach.m).bytes[f := old(mach.m).bytes[e.frame]]
                     && Flat(mach.m.tables, child) == Flat(old(mach.m).tables, child)[v := Pte(f, e.flags)];
      PageCopied(was, old(mach.m), mach.m, parent, child, v, f);
      ParentAt(was, old(mach.m), mach.m, parent, TablePath(v));
    }
  }

  /** The child's tables grow: the copy so far is what it was. */
  lemma TablesAdded(was: Memory, m: Memory, m': Memory, parent: nat, child: nat, n: nat)
    requires Copying(was, m, parent, child, n) && OnlyTablesAdded(m, m', child)
    ensures Copying(was, m', parent, child, n)
  {
    forall f | f in TableFrames(m'.tables, child)
      ensures f in m.free || f in TableFrames(m.tables, child)
    {
      assert f in m'.free + TableFrames(m'.tables, child);
    }
    forall f | f in TableFrames(was.tables, parent)
      ensures f in m'.tables && m'.tables[f] == was.tables[f]
    {
      assert m.tables[f] == was.tables[f];
    }
    assert AllFrames(Flat(m'.tables, child)) == AllFrames(Flat(m.tables, child));
  }

  /** A page of entries of the parent: the child gets the tables down to its own, then the pages. */
  method CopyTable(ghost was: Memory, mach: Machine, parent: nat, child: nat, p: Path) returns (ok: bool, ghost n: nat)
    requires UserPath(p) && |p| == 3 && At(was.tables, parent, p).Table?
    requires Copying(was, mach.m, parent, child, FirstPage(p))
    modifies mach
    ensures Copying(was, mach.m, parent, child, n)
    ensures if ok then n == FirstPage(p) + FANOUT else mach.m.free == {}
  {
    ok := mach.EnsurePath(child, p);
    n := FirstPage(p);
    TablesAdded(was, old(mach.m), mach.m, parent, child, n);
    if ok {
      SameAt(was.tables, mach.m.tables, parent, p);
      ok, n := CopyPages(was, mach, parent, child, p);
    }
  }

  /** The loops of arch_mm_copy_user, one per level: the entries before limit of the parent's table at p. */
  method CopyBelow(ghost was: Memory, mach: Machine, parent: nat, child: nat, p: Path, limit: nat)
    returns (ok: bool, ghost n: nat)
    requires UserPath(p) && |p| < 3 && At(was.tables, parent, p).Table? && limit == if p == [] then USER_SLOTS else FANOUT
    requires Copying(was, mach.m, parent, child, FirstPage(p))
    modifies mach
    ensures Copying(was, mach.m, parent, child, n)
    ensures if ok then n == FirstPage(p) + limit * Span(|p| + 1) else mach.m.free == {}
    decreases 3 - |p|
  {
    ok, n := true, FirstPage(p);
    for k := 0 to limit
      invariant ok && n == FirstPage(p) + k * Span(|p| + 1) && Copying(was, mach.m, parent, child, n)
    {
      LongerPath(p, k, limit);
      ok, n := CopyBehind(was, mach, parent, child, p, k);
      if !ok {
        return;
      }
    }
  }

  lemma LongerPath(p: Path, k: nat, limit: nat)
    requires UserPath(p) && |p| < 3 && limit == (if p == [] then USER_SLOTS else FANOUT) && k < limit
    ensures UserPath(p + [k])
  {
  }

  /** One turn of such a loop. */
  method CopyBehind(ghost was: Memory, mach: Machine, parent: nat, child: nat, p: Path, k: nat)
    returns (ok: bool, ghost n: nat)
    requires UserPath(p + [k]) && UserPath(p) && |p| < 3 && At(was.tables, parent, p).Table?
    requires Copying(was, mach.m, parent, child, FirstPage(p) + k * Span(|p| + 1))
    modifies mach
    ensures Copying(was, mach.m, parent, child, n)
    ensures if ok then n == FirstPage(p) + (k + 1) * Span(|p| + 1) else mach.m.free == {}
    decreases 3 - |p|, 0
  {
    PagesBehind(p, k);
    EntryAbove(was, mach.m, parent, child, p, k);
    var e := mach.m.tables[At(mach.m.tables, parent, p).frame][k];
    ok, n := true, FirstPage(p + [k]) + Span(|p| + 1);
    if !e.flags.present {
      SkipSubtree(was, mach.m, parent, child, p + [k], FirstPage(p + [k]), n);
    } else if |p| < 2 {
      ok, n := CopyBelow(was, mach, parent, child, p + [k], FANOUT);
    } else {
      ok, n := CopyTable(was, mach, parent, child, p + [k]);
    }
  }

  lemma PagesBehind(p: Path, k: nat)
    requires |p| < 3
    ensures FirstPage(p + [k]) == FirstPage(p) + k * Span(|p| + 1)
    ensures FirstPage(p + [k]) + Span(|p| + 1) == FirstPage(p) + (k + 1) * Span(|p| + 1)
    ensures Span(|p| + 1) == FANOUT * Span(|p| + 2)
  {
    NextSibling(p, k);
    NextSibling(p + [k], 0);
  }

  /** An entry of a table of the parent above those of pages. */
  lemma EntryAbove(was: Memory, m: Memory, parent: nat, child: nat, p: Path, k: nat)
    requires UserPath(p) && UserPath(p + [k]) && |p| < 3 && At(was.tables, parent, p).Table?
    requires TreeOk(was.tables, parent) && SameSpace(was.tables, m.tables, parent)
    ensures At(m.tables, parent, p).Table?
    ensures var t := At(m.tables, parent, p).frame;
            && t in m.tables && k < |m.tables[t]|
            && At(was.tables, parent, p + [k]) == At(m.tables, parent, p + [k])
            && (m.tables[t][k].flags.present <==> At(m.tables, parent, p + [k]).Table?)
  {
    SameAt(was.tables, m.tables, parent, p);
    SameAt(was.tables, m.tables, parent, p + [k]);
    AtPush(m.tables, parent, p, k);
    SameSpaceReads(was.tables, m.tables, parent);
    assert (p + [k])[|p|] == k;
  }

  /** arch_mm_copy_user into an empty child: same pages, flags and bytes in frames of its own, and the parent as it was. */
  method CopyUser(mach: Machine, parent: nat, child: nat) returns (ok: bool)
    requires Valid(mach.m, parent) && Owns(mach.m, parent) && Valid(mach.m, child) && Flat(mach.m.tables, child) == map[]
    requires Owned(mach.m, parent) !! Owned(mach.m, child)
    modifies mach
    ensures Valid(mach.m, parent) && Owns(mach.m, parent) && Valid(mach.m, child) && Owns(mach.m, child)
    ensures Owned(mach.m, parent) == Owned(old(mach.m), parent) && Owned(mach.m, parent) !! Owned(mach.m, child)
    ensures mach.m.free + Owned(mach.m, child) == old(mach.m).free + Owned(old(mach.m), child)
    ensures Flat(mach.m.tables, parent) == Flat(old(mach.m).tables, parent)
    ensures UserMemory(Flat(mach.m.tables, parent), mach.m.bytes) == UserMemory(Flat(old(mach.m).tables, parent), old(mach.m).bytes)
    ensures ok ==> CopiedBelow(Flat(mach.m.tables, parent), Flat(mach.m.tables, child), mach.m.bytes, USER_SPAN)
    ensures ok ==> UserMemory(Flat(mach.m.tables, child), mach.m.bytes) == UserMemory(Flat(mach.m.tables, parent), mach.m.bytes)
    ensures !ok ==> mach.m.free == {}
  {
    ghost var n;
    assert At(mach.m.tables, parent, []) == Table(parent);
    assert FirstPage([]) == 0;
    ok, n := CopyBelow(mach.m, mach, parent, child, [], USER_SLOTS);
    SameSpaceReads(old(mach.m).tables, mach.m.tables, parent);
    ParentWhole(old(mach.m), mach.m, parent, child, n);
    if ok {
      WholeCopy(Flat(mach.m.tables, parent), Flat(mach.m.tables, child), mach.m.bytes, USER_SPAN);
    }
  }

  lemma ParentWhole(was: Memory, m: Memory, parent: nat, child: nat, n: nat)
    requires Valid(was, parent) && Owns(was, parent) && Owned(was, parent) !! Owned(was, child)
    requires Copying(was, m, parent, child, n)
    ensures Valid(m, parent) && Owns(m, parent) && Flat(m.tables, parent) == Flat(was.tables, parent)
    ensures Owned(m, parent) == Owned(was, parent) && Owned(m, parent) !! Owned(m, child)
    ensures UserMemory(Flat(m.tables, parent), m.bytes) == UserMemory(Flat(was.tables, parent), was.bytes)
  {
    SameSpaceReads(was.tables, m.tables, parent);
    ParentsFrames(was, m, parent);
    assert Owned(m, child) <= was.free + Owned(was, child);
    assert Owned(m, parent) == Owned(was, parent) && Owned(was, parent) !! was.free;
  }

  lemma ParentsFrames(was: Memory, m: Memory, parent: nat)
    requires Owns(was, parent) && KeepsData(was, m)
    ensures AllFrames(Flat(was.tables, parent)) <= m.bytes.Keys
    ensures UserMemory(Flat(was.tables, parent), m.bytes) == UserMemory(Flat(was.tables, parent), was.bytes)
  {
    var frames := AllFrames(Flat(was.tables, parent));
    forall f | f in frames
      ensures f in was.bytes && f in m.bytes && m.bytes[f] == was.bytes[f]
    {
      assert f !in was.free;
    }
    SameMemory(Flat(was.tables, parent), was.bytes, m.bytes, frames);
  }
}
