/** Mapping, unmapping, freeing and copying with four-level page tables (arch/x86_64/paging.c). */
module FourLevel {
  import opened Layout
  import opened Ram
  import opened PageTables
  import opened ForkCopy
  import opened RadixTables

  const MAP_LIMIT := 0x4000_0000_0000

  /** The free pages, and what pages used as tables and as data hold, by frame number. */
  datatype Memory = Memory(free: set<nat>, tables: TableMemory, bytes: Contents)

  /** The tables of the address space are well formed and allocated. */
  ghost predicate Valid(m: Memory, root: nat) {
    TreeOk(m.tables, root) && TableFrames(m.tables, root) !! m.free
  }

  /** Each page has an allocated frame of its own, none of them a table. */
  ghost predicate Owns(m: Memory, root: nat) {
    var flat := Flat(m.tables, root);
    && Injective(flat) && AllFrames(flat) !! m.free && AllFrames(flat) !! TableFrames(m.tables, root)
    && AllFrames(flat) <= m.bytes.Keys
  }

  /** The pages that the address space holds. */
  ghost function Owned(m: Memory, root: nat): set<nat> {
    TableFrames(m.tables, root) + AllFrames(Flat(m.tables, root))
  }

  /** Table pages that are neither free nor this address space's are as they were. */
  ghost predicate OthersKeep(m: Memory, m': Memory, root: nat) {
    forall f {:trigger m.tables[f]} {:trigger m'.tables[f]} | f in m.tables && f !in m.free && f !in TableFrames(m.tables, root) ::
      f in m'.tables && m'.tables[f] == m.tables[f]
  }

  /** No table but those of the address space changed. */
  ghost predicate OutsideKept(m: Memory, m': Memory, root: nat) {
    forall f {:trigger m.tables[f]} {:trigger m'.tables[f]} | f in m.tables && f !in TableFrames(m.tables, root) ::
      f in m'.tables && m'.tables[f] == m.tables[f]
  }

  /** Some free pages became tables; no page is mapped or unmapped, and no data changes. */
  ghost predicate OnlyTablesAdded(m: Memory, m': Memory, root: nat) {
    && Valid(m', root) && Flat(m'.tables, root) == Flat(m.tables, root) && m'.bytes == m.bytes
    && TableFrames(m.tables, root) <= TableFrames(m'.tables, root)
    && m'.free <= m.free && m'.free + TableFrames(m'.tables, root) == m.free + TableFrames(m.tables, root)
    && OthersKeep(m, m', root)
  }

  lemma OnlyTablesRefl(m: Memory, root: nat)
    requires Valid(m, root)
    ensures OnlyTablesAdded(m, m, root)
  {
  }

  lemma OnlyTablesTrans(a: Memory, b: Memory, c: Memory, root: nat)
    requires OnlyTablesAdded(a, b, root) && OnlyTablesAdded(b, c, root)
    ensures OnlyTablesAdded(a, c, root)
  {
    forall f | f in a.tables && f !in a.free && f !in TableFrames(a.tables, root)
      ensures f in c.tables && c.tables[f] == a.tables[f]
    {
      assert f in b.tables && b.tables[f] == a.tables[f];
    }
  }

  lemma FreeIsNoTable(m: Memory, root: nat, n: nat)
    requires Valid(m, root) && n in m.free
    ensures !IsTable(m.tables, root, n)
  {
    assert n !in TableFrames(m.tables, root);
  }

  lemma UserPrefix(p: Path, i: nat)
    requires UserPath(p) && i <= |p|
    ensures UserPath(p[..i])
  {
  }

  /** A table that is reached has tables all the way down to it. */
  lemma TableAbove(mem: TableMemory, root: nat, p: Path, i: nat)
    requires i <= |p| && At(mem, root, p).Table?
    ensures At(mem, root, p[..i]).Table?
  {
    if At(mem, root, p[..i]) == Nothing {
      NothingBelow(mem, root, p[..i], p);
    }
  }

  /** The first i levels of the path have their tables, and if all of them were there nothing changed. */
  ghost predicate Ensured(was: Memory, now: Memory, root: nat, p: Path, i: nat)
    requires i <= |p|
  {
    OnlyTablesAdded(was, now, root) && At(now.tables, root, p[..i]).Table? && (At(was.tables, root, p).Table? ==> now == was)
  }

  /** One more index of a path. */
  lemma StepDown(mem: TableMemory, root: nat, p: Path, i: nat)
    requires UserPath(p) && i < |p|
    ensures p[..i + 1] == p[..i] + [p[i]] && UserPath(p[..i]) && UserPath(p[..i + 1])
    ensures At(mem, root, p).Table? ==> At(mem, root, p[..i + 1]).Table?
  {
    if At(mem, root, p).Table? {
      TableAbove(mem, root, p, i + 1);
    }
  }

  lemma StillKeep(a: Memory, b: Memory, c: Memory, root: nat)
    requires OnlyTablesAdded(a, b, root) && OthersKeep(b, c, root)
    ensures OthersKeep(a, c, root)
  {
    forall f | f in a.tables && f !in a.free && f !in TableFrames(a.tables, root)
      ensures f in c.tables && c.tables[f] == a.tables[f]
    {
      assert f in b.tables && b.tables[f] == a.tables[f];
    }
  }

  lemma EntryShows(mem: TableMemory, root: nat, v: nat)
    requires v < USER_SPAN
    ensures v in Flat(mem, root) <==> EntryOf(mem, root, v).flags.present
    ensures v in Flat(mem, root) ==> Flat(mem, root)[v] == EntryOf(mem, root, v)
    ensures v !in Flat(mem, root) ==> Flat(mem, root) - {v} == Flat(mem, root)
  {
  }

  lemma OnePageLess(flat: FlatMap, v: nat)
    requires Injective(flat)
    ensures Injective(flat - {v}) && AllFrames(flat - {v}) == AllFrames(flat) - (if v in flat then {flat[v].frame} else {})
    ensures v in flat ==> flat[v].frame in AllFrames(flat)
  {
    var less := flat - {v};
    forall f | f in AllFrames(flat) && (v !in flat || f != flat[v].frame)
      ensures f in AllFrames(less)
    {
      var w :| w in flat && flat[w].frame == f;
      assert w in less;
    }
    forall f | f in AllFrames(less)
      ensures f in AllFrames(flat) && (v in flat ==> f != flat[v].frame)
    {
      var w :| w in less && less[w].frame == f;
      assert flat[w].frame == f;
    }
  }

  /** What holds when the pages from first below p are freed. */
  ghost predicate Freeing(m: Memory, now: Memory, root: nat, first: nat, p: nat) {
    && Valid(now, root) && Owns(now, root) && now.bytes == m.bytes
    && TableFrames(now.tables, root) == TableFrames(m.tables, root) && OutsideKept(m, now, root)
    && Flat(now.tables, root) == Cut(Flat(m.tables, root), first, p)
    && now.free == m.free + FramesIn(Flat(m.tables, root), first, p)
  }

  lemma FreeingNone(m: Memory, root: nat, first: nat)
    requires Valid(m, root) && Owns(m, root)
    ensures Freeing(m, m, root, first, first)
  {
    LoopEnd(Flat(m.tables, root), first, first, first);
  }

  lemma FreeingAll(m: Memory, now: Memory, root: nat, first: nat, p: nat, last: nat)
    requires Freeing(m, now, root, first, p) && (p == last || (p == first && last <= first))
    ensures Freeing(m, now, root, first, last)
  {
    LoopEnd(Flat(m.tables, root), first, p, last);
  }

  /** What holds when the pages from first below p are unmapped. */
  ghost predicate Unmapping(m: Memory, now: Memory, root: nat, first: nat, p: nat) {
    && Valid(now, root) && now == m.(tables := now.tables)
    && TableFrames(now.tables, root) == TableFrames(m.tables, root) && OutsideKept(m, now, root)
    && Flat(now.tables, root) == Cut(Flat(m.tables, root), first, p)
  }

  lemma BelowGrows(mem: TableMemory, root: nat, p: Path, k: nat, limit: nat)
    requires k <= limit
    ensures Below(mem, root, p, k) <= Below(mem, root, p, limit)
  {
  }

  lemma NotBelowItself(mem: TableMemory, root: nat, p: Path, f: nat)
    requires TreeOk(mem, root) && UserPath(p) && At(mem, root, p) == Table(f)
    ensures f !in Below(mem, root, p, FANOUT)
  {
  }

  /** Physical memory, which the code below updates in place. */
  class Machine {
    var m: Memory

    /** page_alloc: any free page; NULL exactly when there is none. */
    method TakePage() returns (frame: nat, ok: bool)
      modifies this
      ensures ok <==> old(m).free != {}
      ensures if ok then frame in old(m).free && m == old(m).(free := old(m).free - {frame}) else m == old(m)
    {
      frame, ok := 0, m.free != {};
      if ok {
        frame :| frame in m.free;
        m := m.(free := m.free - {frame});
      }
    }

    /** One level of map_page: the table below entry k exists afterwards, unless no page is free. */
    method EnsureTable(root: nat, p: Path, k: nat) returns (ok: bool)
      requires Valid(m, root) && UserPath(p) && UserPath(p + [k]) && At(m.tables, root, p).Table?
      modifies this
      ensures OnlyTablesAdded(old(m), m, root)
      ensures ok <==> At(m.tables, root, p + [k]).Table?
      ensures !ok ==> m == old(m) && old(m).free == {}
      ensures At(old(m).tables, root, p + [k]).Table? ==> m == old(m)
    {
      var t := At(m.tables, root, p).frame;
      assert (p + [k])[|p|] == k;
      AtPush(old(m).tables, root, p, k);
      OnlyTablesRefl(old(m), root);
      ok := true;
      if !m.tables[t][k].flags.present {
        var n;
        n, ok := TakePage();
        if ok {
          FreeIsNoTable(old(m), root, n);
          HangTable(old(m).tables, root, p, t, k, n, USER_RW);
          var tables := m.tables[t := m.tables[t][k := Pte(n, USER_RW)]];
          m := m.(tables := tables[n := NO_ENTRIES]);
          assert IsTable(old(m).tables, root, t);
        }
      }
    }

    /** The three levels of map_page above the entry. */
    method EnsurePath(root: nat, p: Path) returns (ok: bool)
      requires Valid(m, root) && UserPath(p) && |p| == 3
      modifies this
      ensures OnlyTablesAdded(old(m), m, root)
      ensures ok <==> At(m.tables, root, p).Table?
      ensures !ok ==> m.free == {}
      ensures At(old(m).tables, root, p).Table? ==> m == old(m)
    {
      ghost var was := m;
      OnlyTablesRefl(was, root);
      ok := true;
      for i := 0 to 3
        invariant ok && Ensured(was, m, root, p, i)
      {
        ok := EnsureLevel(was, root, p, i);
        if !ok {
          return;
        }
      }
      assert p[..3] == p;
    }

    /** One level of it. */
    method EnsureLevel(ghost was: Memory, root: nat, p: Path, i: nat) returns (ok: bool)
      requires UserPath(p) && i < |p| == 3 && Ensured(was, m, root, p, i)
      modifies this
      ensures OnlyTablesAdded(was, m, root) && (At(was.tables, root, p).Table? ==> m == was)
      ensures if ok then Ensured(was, m, root, p, i + 1) else m.free == {} && At(m.tables, root, p) == Nothing
    {
      ghost var before := m;
      StepDown(was.tables, root, p, i);
      ok := EnsureTable(root, p[..i], p[i]);
      OnlyTablesTrans(was, before, m, root);
      StepDown(m.tables, root, p, i);
    }

    /** Storing the entry of a page whose table exists. */
    method StoreAt(root: nat, v: nat, e: Pte)
      requires Valid(m, root) && v < USER_SPAN && At(m.tables, root, TablePath(v)).Table?
      modifies this
      ensures Valid(m, root) && m == old(m).(tables := m.tables) && OutsideKept(old(m), m, root)
      ensures TableFrames(m.tables, root) == TableFrames(old(m).tables, root)
      ensures At(m.tables, root, TablePath(v)).Table?
      ensures Flat(m.tables, root) == if e.flags.present then Flat(old(m).tables, root)[v := e] else Flat(old(m).tables, root) - {v}
    {
      PathOfPage(v);
      var t := At(m.tables, root, TablePath(v)).frame;
      StoreLeaf(old(m).tables, root, TablePath(v), t, v % FANOUT, e);
      assert IsTable(old(m).tables, root, t);
      m := m.(tables := m.tables[t := m.tables[t][v % FANOUT := e]]);
    }

    /** arch_mm_map_user: the flat map gets exactly this entry; it fails only above the limit or when no page is free. */
    method MapUser(root: nat, vaddr: nat, phys: nat, flags: Flags) returns (ok: bool)
      requires Valid(m, root)
      modifies this
      ensures Valid(m, root) && m.bytes == old(m).bytes && OthersKeep(old(m), m, root)
      ensures TableFrames(old(m).tables, root) <= TableFrames(m.tables, root)
      ensures m.free + TableFrames(m.tables, root) == old(m).free + TableFrames(old(m).tables, root)
      ensures !ok ==> vaddr >= MAP_LIMIT || m.free == {}
      ensures vaddr >= MAP_LIMIT ==> !ok
      ensures var v := vaddr / PAGE_SIZE;
              Flat(m.tables, root) == if !ok then Flat(old(m).tables, root)
                                       else if flags.present then Flat(old(m).tables, root)[v := Pte(phys / PAGE_SIZE, flags)]
                                       else Flat(old(m).tables, root) - {v}
    {
      ok := false;
      if vaddr < MAP_LIMIT {
        var v := vaddr / PAGE_SIZE;
        PathOfPage(v);
        ok := EnsurePath(root, TablePath(v));
        if ok {
          ghost var between := m;
          StoreAt(root, v, Pte(phys / PAGE_SIZE, flags));
          StillKeep(old(m), between, m, root);
        }
      }
    }

    /** arch_mm_user_present */
    method UserPresent(root: nat, vaddr: nat) returns (present: bool)
      requires Valid(m, root) && vaddr / PAGE_SIZE < USER_SPAN
      ensures present <==> vaddr / PAGE_SIZE in Flat(m.tables, root)
    {
      var v := vaddr / PAGE_SIZE;
      PathOfPage(v);
      var t := At(m.tables, root, TablePath(v));
      present := t.Table? && m.tables[t.frame][v % FANOUT].flags.present;
    }

    /** arch_mm_set_user_writable: changes the R/W bit of a mapped page and maps nothing new. */
    method SetUserWritable(root: nat, vaddr: nat, writable: bool)
      requires Valid(m, root) && vaddr / PAGE_SIZE < USER_SPAN
      modifies this
      ensures Valid(m, root) && m == old(m).(tables := m.tables) && TableFrames(m.tables, root) == TableFrames(old(m).tables, root)
      ensures OutsideKept(old(m), m, root)
      ensures var v, flat := vaddr / PAGE_SIZE, Flat(old(m).tables, root);
              Flat(m.tables, root) == if v in flat then flat[v := Pte(flat[v].frame, flat[v].flags.(writable := writable))] else flat
    {
      var v := vaddr / PAGE_SIZE;
      PathOfPage(v);
      if At(m.tables, root, TablePath(v)).Table? {
        var e := EntryOf(m.tables, root, v);
        EntryShows(old(m).tables, root, v);
        StoreAt(root, v, Pte(e.frame, e.flags.(writable := writable)));
      }
    }

    /** Clearing the entry of one page, if it is present. */
    method ClearEntry(root: nat, v: nat) returns (present: bool, frame: nat)
      requires Valid(m, root) && v < USER_SPAN
      modifies this
      ensures Valid(m, root) && m == old(m).(tables := m.tables) && TableFrames(m.tables, root) == TableFrames(old(m).tables, root)
      ensures OutsideKept(old(m), m, root)
      ensures present <==> v in Flat(old(m).tables, root)
      ensures present ==> frame == Flat(old(m).tables, root)[v].frame
      ensures Flat(m.tables, root) == Flat(old(m).tables, root) - {v}
    {
      PathOfPage(v);
      var e := EntryOf(m.tables, root, v);
      present, frame := e.flags.present, e.frame;
      if present {
        StoreAt(root, v, EMPTY);
      }
    }

    /** page_free of a page that is in use. */
    method GiveBack(frame: nat)
      requires frame !in m.free
      modifies this
      ensures m == old(m).(free := old(m).free + {frame})
    {
      m := m.(free := m.free + {frame});
    }

    /** The body of the loop in arch_mm_free_user_pages. */
    method FreeUserPage(root: nat, v: nat)
      requires Valid(m, root) && Owns(m, root) && v < USER_SPAN
      modifies this
      ensures Valid(m, root) && Owns(m, root)
      ensures m.bytes == old(m).bytes && TableFrames(m.tables, root) == TableFrames(old(m).tables, root)
      ensures OutsideKept(old(m), m, root)
      ensures Flat(m.tables, root) == Flat(old(m).tables, root) - {v}
      ensures m.free == old(m).free + if v in Flat(old(m).tables, root) then {Flat(old(m).tables, root)[v].frame} else {}
    {
      ghost var flat := Flat(old(m).tables, root);
      var present, frame;
      present, frame := ClearEntry(root, v);
      OnePageLess(flat, v);
      if present {
        GiveBack(frame);
      }
    }

    method FreeNext(ghost was: Memory, root: nat, ghost first: nat, ghost p: nat, v: nat)
      requires Freeing(was, m, root, first, p) && first <= p < USER_SPAN && v == p
      modifies this
      ensures Freeing(was, m, root, first, p + 1)
    {
      CutStep(Flat(was.tables, root), first, p);
      FreeUserPage(root, v);
    }

    /** arch_mm_free_user_pages: exactly the pages of the range are unmapped and exactly their frames freed, once each. */
    method FreeUserPages(root: nat, start: nat, end: nat)
      requires Valid(m, root) && Owns(m, root) && end <= USER_SPAN * PAGE_SIZE
      modifies this
      ensures Valid(m, root) && Owns(m, root)
      ensures m.bytes == old(m).bytes && TableFrames(m.tables, root) == TableFrames(old(m).tables, root)
      ensures OutsideKept(old(m), m, root)
      ensures Flat(m.tables, root) == Cut(Flat(old(m).tables, root), start / PAGE_SIZE, EndPage(end))
      ensures m.free == old(m).free + FramesIn(Flat(old(m).tables, root), start / PAGE_SIZE, EndPage(end))
    {
      var a := AlignDown(start);
      ghost var first, p := start / PAGE_SIZE, start / PAGE_SIZE;
      ghost var was, last := m, EndPage(end);
      FreeingNone(was, root, first);
      while a < end
        invariant a == p * PAGE_SIZE && first <= p && (p <= last || p == first)
        invariant Freeing(was, m, root, first, p)
      {
        PageBeforeEnd(p, end);
        FreeNext(was, root, first, p, a / PAGE_SIZE);
        a := a + PAGE_SIZE;
        p := p + 1;
      }
      PageBeforeEnd(p, end);
      FreeingAll(was, m, root, first, p, last);
    }

    method UnmapNext(ghost was: Memory, root: nat, ghost first: nat, p: nat)
      requires Unmapping(was, m, root, first, p) && first <= p < USER_SPAN
      modifies this
      ensures Unmapping(was, m, root, first, p + 1)
    {
      CutStep(Flat(was.tables, root), first, p);
      var present, frame;
      present, frame := ClearEntry(root, p);
    }

    /** arch_mm_unmap_user_range: exactly the pages of the range are unmapped; their frames stay in use. */
    method UnmapUserRange(root: nat, start: nat, end: nat)
      requires Valid(m, root) && end <= USER_SPAN * PAGE_SIZE
      modifies this
      ensures Valid(m, root) && m == old(m).(tables := m.tables) && TableFrames(m.tables, root) == TableFrames(old(m).tables, root)
      ensures OutsideKept(old(m), m, root)
      ensures Flat(m.tables, root) == Cut(Flat(old(m).tables, root), start / PAGE_SIZE, EndPage(end))
    {
      var a := AlignDown(start);
      ghost var first, p := start / PAGE_SIZE, start / PAGE_SIZE;
      ghost var flat, last := Flat(old(m).tables, root), EndPage(end);
      LoopEnd(flat, first, first, first);
      while a < end
        invariant a == p * PAGE_SIZE && first <= p && (p <= last || p == first)
        invariant Unmapping(old(m), m, root, first, p)
      {
        PageBeforeEnd(p, end);
        UnmapNext(old(m), root, first, a / PAGE_SIZE);
        a := a + PAGE_SIZE;
        p := p + 1;
      }
      PageBeforeEnd(p, end);
      LoopEnd(flat, first, p, last);
    }

    /** The loops of arch_mm_free_user_tables, one per level: the tables below the one at p, from the entries before limit,
        each after those below it. */
    method FreeBelow(root: nat, p: Path, limit: nat)
      requires TreeOk(m.tables, root) && UserPath(p) && |p| < 3 && At(m.tables, root, p).Table?
      requires limit == if p == [] then USER_SLOTS else FANOUT
      requires Below(m.tables, root, p, limit) !! m.free
      modifies this
      ensures m == old(m).(free := old(m).free + Below(old(m).tables, root, p, limit))
      decreases 3 - |p|
    {
      BelowNothing(old(m).tables, root, p);
      for k := 0 to limit
        invariant m == old(m).(free := old(m).free + Below(old(m).tables, root, p, k))
        invariant Below(old(m).tables, root, p, k) <= Below(old(m).tables, root, p, limit)
      {
        BelowGrows(old(m).tables, root, p, k + 1, limit);
        BelowStep(old(m).tables, root, p, k);
        FreeBehind(root, p, k);
      }
    }

    /** One turn of such a loop: the tables below the entry first, then the one it points to. */
    method FreeBehind(root: nat, p: Path, k: nat)
      requires TreeOk(m.tables, root) && UserPath(p + [k]) && |p| < 3 && At(m.tables, root, p).Table?
      requires Behind(m.tables, root, p, k) !! m.free
      modifies this
      ensures m == old(m).(free := old(m).free + Behind(old(m).tables, root, p, k))
      decreases 3 - |p|, 0
    {
      AtPush(old(m).tables, root, p, k);
      UserPrefix(p + [k], |p|);
      assert (p + [k])[..|p|] == p && (p + [k])[|p|] == k;
      var e := m.tables[At(m.tables, root, p).frame][k];
      if e.flags.present {
        if |p| < 2 {
          FreeBelow(root, p + [k], FANOUT);
        } else {
          NothingBelowPages(old(m).tables, root, p + [k]);
        }
        NotBelowItself(old(m).tables, root, p + [k], e.frame);
        GiveBack(e.frame);
      }
    }

    /** arch_mm_free_user_tables: every table but the top-level one is freed, once each, and the user half is empty. */
    method FreeUserTables(root: nat)
      requires Valid(m, root)
      modifies this
      ensures Valid(m, root) && Flat(m.tables, root) == map[] && TableFrames(m.tables, root) == {root}
      ensures m.free == old(m).free + (TableFrames(old(m).tables, root) - {root})
      ensures m.bytes == old(m).bytes && OutsideKept(old(m), m, root)
    {
      AllBelow(old(m).tables, root);
      assert At(old(m).tables, root, []) == Table(root);
      FreeBelow(root, [], USER_SLOTS);
      var top := m.tables[root];
      for i := 0 to USER_SLOTS
        invariant |top| == FANOUT && forall j | 0 <= j < i :: !top[j].flags.present
      {
        top := top[i := EMPTY];
      }
      m := m.(tables := m.tables[root := top]);
      EmptyTree(m.tables, root);
    }
  }
}
