/** The eager copy of an address space at fork (arch_mm_copy_user). */
module ForkCopy {
  import opened Ram
  import opened PageTables
  import opened AddressSpace

  type Contents = map<nat, seq<byte>>

  /** What user code sees: the bytes of each mapped page. */
  ghost function UserMemory(m: FlatMap, bytes: Contents): map<nat, seq<byte>> {
    map v | v in m && m[v].frame in bytes :: bytes[m[v].frame]
  }

  /** The copy has the pages of the original below page n, with the same flags and the same bytes. */
  ghost predicate CopiedBelow(original: FlatMap, copy: FlatMap, bytes: Contents, n: nat) {
    && (forall v :: v in copy <==> v in original && v < n)
    && AllFrames(original) <= bytes.Keys && AllFrames(copy) <= bytes.Keys
    && (forall v | v in copy :: copy[v].flags == original[v].flags && bytes[copy[v].frame] == bytes[original[v].frame])
  }

  /** A write through one address space lands on the page written. */
  lemma WriteShows(mine: FlatMap, bytes: Contents, v: nat, page: seq<byte>)
    requires Injective(mine) && AllFrames(mine) <= bytes.Keys && v in mine
    ensures UserMemory(mine, bytes[mine[v].frame := page]) == UserMemory(mine, bytes)[v := page]
  {
    var after := bytes[mine[v].frame := page];
    forall w | w in mine
      ensures mine[w].frame in bytes && after[mine[w].frame] == if w == v then page else bytes[mine[w].frame]
    {
      assert mine[w].frame in AllFrames(mine);
    }
  }

  /** Two address spaces that share no frame: a write through one never shows through the other. */
  lemma WritesStayPrivate(mine: FlatMap, other: FlatMap, bytes: Contents, v: nat, page: seq<byte>)
    requires AllFrames(mine) !! AllFrames(other)
    requires AllFrames(other) <= bytes.Keys && v in mine
    ensures UserMemory(other, bytes[mine[v].frame := page]) == UserMemory(other, bytes)
  {
    var after := bytes[mine[v].frame := page];
    assert mine[v].frame in AllFrames(mine);
    forall w | w in other
      ensures other[w].frame in bytes && after[other[w].frame] == bytes[other[w].frame]
    {
      assert other[w].frame in AllFrames(other);
    }
  }

  lemma CopyStep(original: FlatMap, copy: FlatMap, bytes: Contents, n: nat, f: nat)
    requires CopiedBelow(original, copy, bytes, n) && n in original
    requires f !in AllFrames(original) && f !in AllFrames(copy)
    ensures CopiedBelow(original, copy[n := Pte(f, original[n].flags)], bytes[f := bytes[original[n].frame]], n + 1)
  {
    var copy' := copy[n := Pte(f, original[n].flags)];
    var bytes' := bytes[f := bytes[original[n].frame]];
    forall v | v in copy'
      ensures copy'[v].flags == original[v].flags && bytes'[copy'[v].frame] == bytes'[original[v].frame]
    {
      assert original[v].frame in AllFrames(original);
      if v != n {
        assert copy[v].frame in AllFrames(copy);
      }
    }
    assert AllFrames(copy') <= AllFrames(copy) + {f};
  }

  lemma NewPage(m: FlatMap, v: nat, e: Pte)
    requires v !in m && e.frame !in AllFrames(m)
    ensures AllFrames(m[v := e]) == AllFrames(m) + {e.frame}
    ensures Injective(m) ==> Injective(m[v := e])
  {
    var m' := m[v := e];
    forall w | w in m
      ensures m[w].frame in AllFrames(m) && m'[w] == m[w]
    {
    }
    assert m'[v].frame == e.frame;
    forall f | f in AllFrames(m) + {e.frame}
      ensures f in AllFrames(m')
    {
      if f != e.frame {
        var w :| w in m && m[w].frame == f;
        assert m'[w].frame == f;
      }
    }
  }

  /** Everything a step of the copy leaves alone: tables that are neither new nor the child's. */
  ghost predicate KeepsTables(before: TableMemory, after: TableMemory, frames: set<nat>, own: set<nat>) {
    forall t | t in before && t in frames && t !in own :: t in after && after[t] == before[t]
  }

  /** The second half of the loop body: a frame for page v, filled from frame e.frame. */
  method PlaceCopy(child: AddressSpace, v: nat, e: Pte) returns (ok: bool)
    requires child.Valid() && child.Owns() && v < USER_PAGES && v !in child.Flat() && child.tables[v / 1024] != 0
    requires e.flags.present && e.frame in child.ram.bytes
    modifies child.ram, child.ram.Repr()
    ensures child.Valid() && child.Owns() && child.TableFrames() == old(child.TableFrames())
    ensures !ok ==> child.ram.alloc.freePages == 0
    ensures !ok ==> child.Flat() == old(child.Flat()) && child.ram.bytes == old(child.ram.bytes)
                    && child.ram.Frames() == old(child.ram.Frames())
    ensures ok ==> v in child.Flat() && child.Flat()[v].frame !in old(child.ram.Frames())
                   && child.Flat() == old(child.Flat())[v := Pte(child.Flat()[v].frame, e.flags)]
                   && AllFrames(child.Flat()) == old(AllFrames(child.Flat())) + {child.Flat()[v].frame}
                   && child.ram.bytes == old(child.ram.bytes)[child.Flat()[v].frame := old(child.ram.bytes[e.frame])]
                   && child.ram.Frames() == old(child.ram.Frames()) + {child.Flat()[v].frame}
    ensures KeepsTables(old(child.ram.tables), child.ram.tables, old(child.ram.Frames()), old(child.TableFrames()))
  {
    var ram := child.ram;
    var page := ram.AllocPage();
    if page == 0 {
      return false;
    }
    ram.bytes := ram.bytes[page := ram.bytes[e.frame]];
    NewPage(child.Flat(), v, Pte(page, e.flags));
    child.Store(v, Pte(page, e.flags));
    ok := true;
  }

  /** The body of the copy loop for one present entry e of page v. */
  method CopyPage(child: AddressSpace, v: nat, e: Pte) returns (ok: bool)
    requires child.Valid() && child.Owns() && v < USER_PAGES && v !in child.Flat()
    requires e.flags.present && e.frame in child.ram.bytes
    modifies child.pgdir, child.tables, child.ram, child.ram.Repr()
    ensures child.Valid() && child.Owns()
    ensures old(child.Owned()) <= child.Owned() && (child.Owned() - old(child.Owned())) !! old(child.ram.Frames())
    ensures child.ram.Frames() == old(child.ram.Frames()) + child.Owned()
    ensures !ok ==> child.Flat() == old(child.Flat()) && child.ram.bytes == old(child.ram.bytes) && child.ram.alloc.freePages == 0
    ensures ok ==> v in child.Flat() && child.Flat()[v].frame !in old(child.ram.Frames())
                   && child.Flat() == old(child.Flat())[v := Pte(child.Flat()[v].frame, e.flags)]
                   && child.ram.bytes == old(child.ram.bytes)[child.Flat()[v].frame := old(child.ram.bytes[e.frame])]
    ensures KeepsTables(old(child.ram.tables), child.ram.tables, old(child.ram.Frames()), old(child.TableFrames()))
  {
    ok := child.EnsureTable(v / 1024);
    if ok {
      ok := PlaceCopy(child, v, e);
    }
  }


  /** The two address spaces have arrays of their own. */
  ghost predicate Apart(parent: AddressSpace, child: AddressSpace) {
    && parent.tables != child.tables && parent.pgdir != child.pgdir
    && parent.tables as object != child.pgdir && parent.pgdir as object != child.tables
  }

  ghost predicate KeepsBytes(before: Contents, after: Contents, frames: set<nat>) {
    forall f | f in before && f in frames :: f in after && after[f] == before[f]
  }

  /** The state of the copy when every page below n has been treated. */
  ghost predicate Copying(parent: AddressSpace, child: AddressSpace, original: FlatMap, frames: set<nat>, bytes: Contents, n: nat)
    reads parent.Repr(), child.Repr(), parent.ram, parent.ram.Repr(), child.ram, child.ram.Repr()
  {
    && parent.ram == child.ram
    && parent.Valid() && parent.Owns() && parent.Flat() == original
    && child.Valid() && child.Owns()
    && parent.TableFrames() <= frames && AllFrames(original) <= frames
    && child.Owned() !! frames && child.ram.Frames() == frames + child.Owned()
    && CopiedBelow(original, child.Flat(), child.ram.bytes, n)
    && KeepsBytes(bytes, child.ram.bytes, frames)
  }

  lemma NothingToCopy(original: FlatMap, copy: FlatMap, bytes: Contents, from: nat, to: nat)
    requires CopiedBelow(original, copy, bytes, from) && from <= to
    requires forall v | from <= v < to :: v !in original
    ensures CopiedBelow(original, copy, bytes, to)
  {
  }

  /** The parent's own tables are not the child's. */
  lemma TablesApart(dir: Directory, mem: TableMemory, frames: set<nat>, owned: set<nat>, tables: set<nat>)
    requires WellFormed(dir, mem) && TablesOf(dir) <= frames && owned !! frames && tables <= owned
    ensures forall t | t in TablesOf(dir) :: t in mem && t !in tables
  {
  }

  /** The loop body of arch_mm_copy_user for a present entry. */
  method CopyPresent(parent: AddressSpace, child: AddressSpace, v: nat, e: Pte,
                     ghost original: FlatMap, ghost frames: set<nat>, ghost bytes: Contents)
    returns (ok: bool)
    requires v < USER_PAGES && Apart(parent, child)
    requires Copying(parent, child, original, frames, bytes, v) && v in original && original[v] == e
    modifies child.pgdir, child.tables, child.ram, child.ram.Repr()
    ensures Copying(parent, child, original, frames, bytes, if ok then v + 1 else v)
    ensures !ok ==> child.ram.alloc.freePages == 0
  {
    assert e.frame in AllFrames(original);
    label before:
    ghost var dir, mem := parent.tables[..], child.ram.tables;
    TablesApart(dir, mem, frames, child.Owned(), child.TableFrames());
    ok := CopyPage(child, v, e);
    assert parent.tables[..] == dir && parent.pgdir[..] == old@before(parent.pgdir[..]);
    OtherPages(dir, mem, child.ram.tables);
    if ok {
      ghost var f := child.Flat()[v].frame;
      assert f !in old@before(child.ram.Frames());
      CopyStep(original, old@before(child.Flat()), old@before(child.ram.bytes), v, f);
    }
  }

  /** The loop body of arch_mm_copy_user. */
  method CopyEntry(parent: AddressSpace, child: AddressSpace, v: nat,
                   ghost original: FlatMap, ghost frames: set<nat>, ghost bytes: Contents)
    returns (ok: bool)
    requires v < USER_PAGES && Apart(parent, child)
    requires Copying(parent, child, original, frames, bytes, v) && parent.tables[v / 1024] != 0
    modifies child.pgdir, child.tables, child.ram, child.ram.Repr()
    ensures Copying(parent, child, original, frames, bytes, if ok then v + 1 else v)
    ensures !ok ==> child.ram.alloc.freePages == 0
  {
    var e := child.ram.tables[parent.tables[v / 1024]][v % 1024];
    assert e == EntryAt(parent.tables[..], child.ram.tables, v);
    if e.flags.present {
      ok := CopyPresent(parent, child, v, e, original, frames, bytes);
    } else {
      NothingToCopy(original, child.Flat(), child.ram.bytes, v, v + 1);
      ok := true;
    }
  }

  /** The copy of one page table of the parent. */
  method CopyTable(parent: AddressSpace, child: AddressSpace, pdi: nat,
                   ghost original: FlatMap, ghost frames: set<nat>, ghost bytes: Contents)
    returns (ok: bool)
    requires pdi < USER_TABLES && Apart(parent, child)
    requires Copying(parent, child, original, frames, bytes, pdi * 1024)
    modifies child.pgdir, child.tables, child.ram, child.ram.Repr()
    ensures ok ==> Copying(parent, child, original, frames, bytes, (pdi + 1) * 1024)
    ensures !ok ==> exists n :: Copying(parent, child, original, frames, bytes, n)
    ensures !ok ==> child.ram.alloc.freePages == 0
  {
    if parent.tables[pdi] == 0 {
      assert forall v: nat | v / 1024 == pdi :: !EntryAt(parent.tables[..], parent.ram.tables, v).flags.present;
      NothingToCopy(original, child.Flat(), child.ram.bytes, pdi * 1024, (pdi + 1) * 1024);
      return true;
    }
    for pti := 0 to 1024
      invariant Copying(parent, child, original, frames, bytes, pdi * 1024 + pti)
      invariant parent.tables[pdi] != 0
    {
      ok := CopyEntry(parent, child, pdi * 1024 + pti, original, frames, bytes);
      if !ok {
        return;
      }
    }
    ok := true;
  }

  /** arch_mm_copy_user. On success the child is a page-for-page copy that shares no frame with anyone;
      on failure memory ran out, and every frame taken is the child's, so freeing the child returns it. */
  method CopyUser(parent: AddressSpace, child: AddressSpace) returns (ok: bool)
    requires parent.Valid() && parent.Owns() && child.Valid() && child.Owns()
    requires parent.ram == child.ram && Apart(parent, child)
    requires child.Flat() == map[] && child.TableFrames() == {}
    modifies child.pgdir, child.tables, child.ram, child.ram.Repr()
    ensures parent.Valid() && parent.Owns() && parent.Flat() == old(parent.Flat())
    ensures child.Valid() && child.Owns()
    ensures UserMemory(parent.Flat(), parent.ram.bytes) == old(UserMemory(parent.Flat(), parent.ram.bytes))
    ensures child.Owned() !! old(child.ram.Frames()) && child.ram.Frames() == old(child.ram.Frames()) + child.Owned()
    ensures ok ==> CopiedBelow(parent.Flat(), child.Flat(), child.ram.bytes, USER_PAGES)
    ensures ok ==> UserMemory(child.Flat(), child.ram.bytes) == UserMemory(parent.Flat(), child.ram.bytes)
    ensures !ok ==> child.ram.alloc.freePages == 0
  {
    ghost var original, frames, bytes := parent.Flat(), child.ram.Frames(), child.ram.bytes;
    for pdi := 0 to USER_TABLES
      invariant Copying(parent, child, original, frames, bytes, pdi * 1024)
    {
      ok := CopyTable(parent, child, pdi, original, frames, bytes);
      if !ok {
        SameMemory(original, bytes, child.ram.bytes, frames);
        return;
      }
    }
    ok := true;
    SameMemory(original, bytes, child.ram.bytes, frames);
    WholeCopy(original, child.Flat(), child.ram.bytes, USER_PAGES);
  }

  lemma SameMemory(m: FlatMap, before: Contents, after: Contents, frames: set<nat>)
    requires AllFrames(m) <= frames && AllFrames(m) <= before.Keys && KeepsBytes(before, after, frames)
    ensures UserMemory(m, after) == UserMemory(m, before)
  {
    forall v | v in m
      ensures m[v].frame in after && after[m[v].frame] == before[m[v].frame]
    {
      assert m[v].frame in AllFrames(m);
    }
  }

  lemma WholeCopy(original: FlatMap, copy: FlatMap, bytes: Contents, n: nat)
    requires CopiedBelow(original, copy, bytes, n)
    requires forall v | v in original :: v < n
    ensures UserMemory(copy, bytes) == UserMemory(original, bytes)
  {
    forall v | v in original
      ensures v in copy && original[v].frame in bytes && copy[v].frame in bytes
    {
      assert original[v].frame in AllFrames(original) && copy[v].frame in AllFrames(copy);
    }
  }
}
