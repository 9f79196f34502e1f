/** Two-level page tables as values: how a directory of tables reads as one flat map. */
module PageTables {
  import opened Layout
  import opened Ram

  /** Page-directory slots and pages of the 3 GB user half. */
  const USER_TABLES := 768
  const USER_PAGES := USER_TABLES * 1024

  const USER_RW := Flags(true, true, true)
  const EMPTY_TABLE: seq<Pte> := seq(1024, _ => EMPTY)

  /** The frame of each user page table, 0 for none. */
  type Directory = seq<nat>
  /** The contents of table pages by frame. */
  type TableMemory = map<nat, seq<Pte>>
  /** Present entries by user page number. */
  type FlatMap = map<nat, Pte>

  /** Every table in use is a page of 1024 entries, and no page serves as two tables. */
  ghost predicate WellFormed(dir: Directory, mem: TableMemory) {
    && |dir| == USER_TABLES
    && (forall i | 0 <= i < |dir| && dir[i] != 0 :: dir[i] in mem && |mem[dir[i]]| == 1024)
    && (forall i, j | 0 <= i < j < |dir| && dir[i] != 0 :: dir[i] != dir[j])
  }

  /** The entry of page v; an absent table reads as an empty entry. */
  function EntryAt(dir: Directory, mem: TableMemory, v: nat): Pte
    requires WellFormed(dir, mem) && v < USER_PAGES
  {
    if dir[v / 1024] == 0 then EMPTY else mem[dir[v / 1024]][v % 1024]
  }

  ghost function FlatOf(dir: Directory, mem: TableMemory): FlatMap
    requires WellFormed(dir, mem)
  {
    map v: nat | v < USER_PAGES && EntryAt(dir, mem, v).flags.present :: EntryAt(dir, mem, v)
  }

  ghost function TablesOf(dir: Directory): set<nat> {
    set i | 0 <= i < |dir| && dir[i] != 0 :: dir[i]
  }

  lemma TablesStep(dir: Directory, i: nat)
    requires i < |dir|
    ensures TablesOf(dir[..i + 1]) == TablesOf(dir[..i]) + (if dir[i] == 0 then {} else {dir[i]})
  {
    var d, e := dir[..i], dir[..i + 1];
    assert e[i] == dir[i];
    forall f | f in TablesOf(d)
      ensures f in TablesOf(e)
    {
      var k :| 0 <= k < |d| && d[k] != 0 && d[k] == f;
      assert e[k] == f;
    }
    forall f | f in TablesOf(e)
      ensures f in TablesOf(d) || f == dir[i]
    {
      var k :| 0 <= k < |e| && e[k] != 0 && e[k] == f;
      assert k < i ==> d[k] == f;
    }
  }

  /** What the hardware finds for page v: the directory entry first, then the table it points to. */
  ghost function HardwareWalk(pgdir: seq<Pte>, mem: TableMemory, v: nat): Pte
    requires v / 1024 < |pgdir|
  {
    var pde := pgdir[v / 1024];
    if pde.flags.present && pde.frame in mem && v % 1024 < |mem[pde.frame]| then mem[pde.frame][v % 1024] else EMPTY
  }

  /** The directory entries mirror the kernel's table pointers. */
  ghost predicate Mirrors(pgdir: seq<Pte>, dir: Directory) {
    && |pgdir| == 1024 && |dir| == USER_TABLES
    && forall i | 0 <= i < USER_TABLES :: pgdir[i] == if dir[i] == 0 then EMPTY else Pte(dir[i], USER_RW)
  }

  /** The walk of the hardware and the flat map agree on every user page. */
  lemma HardwareSeesFlatMap(pgdir: seq<Pte>, dir: Directory, mem: TableMemory, v: nat)
    requires WellFormed(dir, mem) && Mirrors(pgdir, dir) && v < USER_PAGES
    ensures HardwareWalk(pgdir, mem, v).flags.present <==> v in FlatOf(dir, mem)
    ensures v in FlatOf(dir, mem) ==> HardwareWalk(pgdir, mem, v) == FlatOf(dir, mem)[v]
  {
    assert pgdir[v / 1024] == if dir[v / 1024] == 0 then EMPTY else Pte(dir[v / 1024], USER_RW);
  }

  /** Storing one entry changes one page of the flat map. */
  lemma StoreEntry(dir: Directory, mem: TableMemory, v: nat, e: Pte)
    requires WellFormed(dir, mem) && v < USER_PAGES && dir[v / 1024] != 0
    ensures var t := dir[v / 1024];
            var mem' := mem[t := mem[t][v % 1024 := e]];
            && WellFormed(dir, mem')
            && FlatOf(dir, mem') == if e.flags.present then FlatOf(dir, mem)[v := e] else FlatOf(dir, mem) - {v}
  {
    var t := dir[v / 1024];
    var mem' := mem[t := mem[t][v % 1024 := e]];
    forall w: nat | w < USER_PAGES
      ensures EntryAt(dir, mem', w) == if w == v then e else EntryAt(dir, mem, w)
    {
      if dir[w / 1024] == t {
        assert w / 1024 == v / 1024;
      }
    }
  }

  /** A new empty table maps nothing. */
  lemma AddTable(dir: Directory, mem: TableMemory, i: nat, t: nat)
    requires WellFormed(dir, mem) && i < USER_TABLES && dir[i] == 0
    requires t != 0 && t !in TablesOf(dir)
    ensures WellFormed(dir[i := t], mem[t := EMPTY_TABLE])
    ensures FlatOf(dir[i := t], mem[t := EMPTY_TABLE]) == FlatOf(dir, mem)
    ensures TablesOf(dir[i := t]) == TablesOf(dir) + {t}
  {
    var dir', mem' := dir[i := t], mem[t := EMPTY_TABLE];
    assert forall j | 0 <= j < USER_TABLES && dir[j] != 0 :: dir[j] in TablesOf(dir);
    assert WellFormed(dir', mem');
    forall w: nat | w < USER_PAGES
      ensures EntryAt(dir', mem', w) == EntryAt(dir, mem, w)
    {
    }
    assert dir'[i] == t;
    forall f | f in TablesOf(dir) + {t}
      ensures f in TablesOf(dir')
    {
      if f != t {
        var j :| 0 <= j < |dir| && dir[j] != 0 && dir[j] == f;
        assert dir'[j] == f;
      }
    }
  }

  /** Writes to pages that are not tables of this directory do not show in it. */
  lemma OtherPages(dir: Directory, mem: TableMemory, mem': TableMemory)
    requires WellFormed(dir, mem)
    requires forall t | t in TablesOf(dir) :: t in mem' && mem'[t] == mem[t]
    ensures WellFormed(dir, mem') && FlatOf(dir, mem') == FlatOf(dir, mem)
  {
    assert forall j | 0 <= j < USER_TABLES && dir[j] != 0 :: dir[j] in TablesOf(dir);
    assert WellFormed(dir, mem');
    forall w: nat | w < USER_PAGES
      ensures EntryAt(dir, mem', w) == EntryAt(dir, mem, w)
    {
    }
  }

  /** The frames a flat map sends the pages from start up to end to. */
  ghost function FramesIn(m: FlatMap, start: nat, end: nat): set<nat> {
    set v | v in m && start <= v < end :: m[v].frame
  }

  ghost function AllFrames(m: FlatMap): set<nat> {
    set v | v in m :: m[v].frame
  }

  /** No two pages share a frame. */
  ghost predicate Injective(m: FlatMap) {
    forall v, w {:trigger m[v], m[w]} | v in m && w in m && m[v].frame == m[w].frame :: v == w
  }

  /** The map without the pages from start up to end. */
  ghost function Cut(m: FlatMap, start: nat, end: nat): FlatMap {
    map v | v in m && !(start <= v < end) :: m[v]
  }

  /** Cutting one more page: what goes from the map and from the frames. */
  lemma CutStep(m: FlatMap, start: nat, p: nat)
    requires start <= p
    ensures Cut(m, start, p) - {p} == Cut(m, start, p + 1)
    ensures p !in m ==> FramesIn(m, start, p + 1) == FramesIn(m, start, p)
    ensures p in m ==> FramesIn(m, start, p + 1) == FramesIn(m, start, p) + {m[p].frame}
    ensures p in m ==> p in Cut(m, start, p) && Cut(m, start, p)[p] == m[p]
  {
  }

  /** Pages [start / PAGE_SIZE, EndPage(end)) are those a loop by pages from start up to end visits. */
  function EndPage(end: nat): nat {
    (end + PAGE_SIZE - 1) / PAGE_SIZE
  }

  lemma PageBeforeEnd(p: nat, end: nat)
    ensures p * PAGE_SIZE < end <==> p < EndPage(end)
    ensures p * PAGE_SIZE / PAGE_SIZE == p
  {
  }

  /** A loop by pages stops at the end of the range, or at once when the range is empty. */
  lemma LoopEnd(m: FlatMap, start: nat, p: nat, end: nat)
    requires p == end || (p == start && end <= start)
    ensures Cut(m, start, p) == Cut(m, start, end)
    ensures FramesIn(m, start, p) == FramesIn(m, start, end)
    ensures Cut(m, start, start) == m && FramesIn(m, start, start) == {}
  {
  }

  /** Removing pages takes away their frames and no others. */
  lemma CutOwns(m: FlatMap, start: nat, end: nat)
    requires Injective(m)
    ensures Injective(Cut(m, start, end))
    ensures AllFrames(Cut(m, start, end)) == AllFrames(m) - FramesIn(m, start, end)
  {
    var c := Cut(m, start, end);
    forall f | f in AllFrames(m) - FramesIn(m, start, end)
      ensures f in AllFrames(c)
    {
      var v :| v in m && m[v].frame == f;
      assert v in c;
    }
    forall f | f in AllFrames(c)
      ensures f in AllFrames(m) - FramesIn(m, start, end)
    {
      var v :| v in c && c[v].frame == f;
      assert m[v].frame == f;
    }
  }
}

/** Per-process address spaces (arch/i386/paging.c, arch_mm_*). */
module AddressSpace {
  import opened Layout
  import opened Ram
  import opened PageTables

  class AddressSpace {
    const ram: Ram
    /** The page directory the hardware walks. */
    const pgdir: array<Pte>
    /** The kernel's pointers to the user page tables: the frame of each table, 0 for NULL. */
    const tables: array<nat>

    ghost function Repr(): set<object> {
      {pgdir, tables}
    }

    ghost predicate Valid()
      reads Repr(), ram, ram.Repr()
    {
      && ram.Valid()
      && (pgdir as object) !in ram.Repr() && (tables as object) !in ram.Repr()
      && WellFormed(tables[..], ram.tables)
      && Mirrors(pgdir[..], tables[..])
      && TableFrames() <= ram.Frames()
    }

    ghost function Flat(): FlatMap
      requires Valid()
      reads Repr(), ram, ram.Repr()
    {
      FlatOf(tables[..], ram.tables)
    }

    ghost function TableFrames(): set<nat>
      reads tables
    {
      TablesOf(tables[..])
    }

    /** Every frame this address space holds: data pages and page tables. */
    ghost function Owned(): set<nat>
      requires Valid()
      reads Repr(), ram, ram.Repr()
    {
      AllFrames(Flat()) + TableFrames()
    }

    /** Each page has an allocated data frame of its own, none of them a page table. */
    ghost predicate Owns()
      requires Valid()
      reads Repr(), ram, ram.Repr()
    {
      && Injective(Flat())
      && AllFrames(Flat()) <= ram.Frames()
      && AllFrames(Flat()) !! TableFrames()
      && AllFrames(Flat()) <= ram.bytes.Keys
    }

    /** arch_mm_init: an empty user half. */
    constructor (ram: Ram)
      requires ram.Valid()
      ensures Valid() && Owns() && this.ram == ram && Flat() == map[] && TableFrames() == {}
      ensures fresh(pgdir) && fresh(tables)
    {
      this.ram := ram;
      pgdir := new Pte[1024](_ => EMPTY);
      tables := new nat[USER_TABLES](_ => 0);
    }

    /** Nothing but tables of this address space was allocated, and no page outside them was written. */
    twostate predicate OnlyTablesAdded()
      requires old(Valid()) && Valid()
      reads Repr(), ram, ram.Repr()
    {
      && ram.bytes == old(ram.bytes)
      && old(TableFrames()) <= TableFrames()
      && (TableFrames() - old(TableFrames())) !! old(ram.Frames())
      && ram.Frames() == old(ram.Frames()) + TableFrames()
      && (forall t | t in old(ram.tables) && t in old(ram.Frames()) && t !in old(TableFrames()) ::
            t in ram.tables && ram.tables[t] == old(ram.tables[t]))
    }

    /** The on-demand table allocation of arch_mm_map_user and arch_mm_copy_user. */
    method EnsureTable(pdi: nat) returns (ok: bool)
      requires Valid() && pdi < USER_TABLES
      modifies pgdir, tables, ram, ram.Repr()
      ensures Valid() && OnlyTablesAdded()
      ensures ok <==> tables[pdi] != 0
      ensures !ok ==> ram.alloc.freePages == 0
      ensures Flat() == old(Flat())
    {
      if tables[pdi] != 0 {
        return true;
      }
      var pt := ram.AllocPage();
      if pt == 0 {
        return false;
      }
      AddTable(tables[..], ram.tables, pdi, pt);
      ram.tables := ram.tables[pt := EMPTY_TABLE];
      tables[pdi] := pt;
      pgdir[pdi] := Pte(pt, USER_RW);
      assert tables[..] == old(tables[..])[pdi := pt];
      assert pgdir[..] == old(pgdir[..])[pdi := Pte(pt, USER_RW)];
      ok := true;
    }

    /** One store into an existing table. */
    method Store(v: nat, e: Pte)
      requires Valid() && v < USER_PAGES && tables[v / 1024] != 0
      modifies ram
      ensures Valid() && OnlyTablesAdded()
      ensures Flat() == if e.flags.present then old(Flat())[v := e] else old(Flat()) - {v}
    {
      var t := tables[v / 1024];
      StoreEntry(tables[..], ram.tables, v, e);
      assert t in TableFrames();
      ram.tables := ram.tables[t := ram.tables[t][v % 1024 := e]];
    }

    /** arch_mm_map_user: kernel addresses and an exhausted allocator are refused. */
    method MapUser(vaddr: Word, phys: Word, flags: Flags) returns (ok: bool)
      requires Valid()
      modifies pgdir, tables, ram, ram.Repr()
      ensures Valid() && OnlyTablesAdded()
      ensures !ok ==> vaddr >= USER_STACK_TOP || ram.alloc.freePages == 0
      ensures vaddr >= USER_STACK_TOP ==> !ok
      ensures Flat() == if !ok then old(Flat())
                        else if flags.present then old(Flat())[vaddr / PAGE_SIZE := Pte(phys / PAGE_SIZE, flags)]
                        else old(Flat()) - {vaddr / PAGE_SIZE}
    {
      var pdi := vaddr / (1024 * PAGE_SIZE);
      var page := vaddr / PAGE_SIZE;
      if pdi >= USER_TABLES {
        return false;
      }
      assert page / 1024 == pdi;
      ok := EnsureTable(pdi);
      if !ok {
        return;
      }
      Store(page, Pte(phys / PAGE_SIZE, flags));
    }

    /** arch_mm_user_present */
    method UserPresent(vaddr: Word) returns (present: bool)
      requires Valid()
      ensures present <==> vaddr / PAGE_SIZE in Flat()
    {
      var pdi := vaddr / (1024 * PAGE_SIZE);
      if pdi >= USER_TABLES {
        return false;
      }
      var page := vaddr / PAGE_SIZE;
      assert page / 1024 == pdi;
      if tables[pdi] == 0 {
        return false;
      }
      present := ram.tables[tables[pdi]][page % 1024].flags.present;
      assert present <==> EntryAt(tables[..], ram.tables, page).flags.present;
    }

    /** arch_mm_set_user_writable: changes the R/W bit of a mapped page and maps nothing new. */
    method SetUserWritable(vaddr: Word, writable: bool)
      requires Valid() && vaddr < USER_STACK_TOP
      modifies ram
      ensures Valid() && OnlyTablesAdded()
      ensures var page := vaddr / PAGE_SIZE;
              var was := old(Flat());
              Flat() == if page in was then was[page := Pte(was[page].frame, was[page].flags.(writable := writable))] else was
    {
      var page := vaddr / PAGE_SIZE;
      if tables[page / 1024] == 0 {
        assert !EntryAt(tables[..], ram.tables, page).flags.present;
        return;
      }
      var e := ram.tables[tables[page / 1024]][page % 1024];
      assert e == EntryAt(tables[..], ram.tables, page);
      Store(page, Pte(e.frame, e.flags.(writable := writable)));
    }

    /** Clear the entry of one page if it is present; returns the frame it had. */
    method ClearEntry(v: nat) returns (present: bool, frame: nat)
      requires Valid() && v < USER_PAGES
      modifies ram
      ensures Valid() && ram.bytes == old(ram.bytes)
      ensures TableFrames() == old(TableFrames()) && ram.Frames() == old(ram.Frames())
      ensures present <==> v in old(Flat())
      ensures present ==> frame == old(Flat())[v].frame
      ensures Flat() == old(Flat()) - {v}
    {
      frame := 0;
      var pt := tables[v / 1024];
      if pt == 0 {
        assert !EntryAt(tables[..], ram.tables, v).flags.present;
        return false, 0;
      }
      var e := ram.tables[pt][v % 1024];
      assert e == EntryAt(tables[..], ram.tables, v);
      if !e.flags.present {
        return false, 0;
      }
      Store(v, EMPTY);
      return true, e.frame;
    }

    /** arch_mm_unmap_user_range: the pages lose their entries but their frames stay allocated. */
    method UnmapUserRange(start: Word, end: Word)
      requires Valid() && end <= USER_STACK_TOP
      modifies ram
      ensures Valid() && TableFrames() == old(TableFrames()) && ram.Frames() == old(ram.Frames()) && ram.bytes == old(ram.bytes)
      ensures Flat() == Cut(old(Flat()), start / PAGE_SIZE, EndPage(end))
    {
      var a := AlignDown(start);
      ghost var first, p := start / PAGE_SIZE, start / PAGE_SIZE;
      ghost var was := Flat();
      ghost var last := EndPage(end);
      LoopEnd(was, first, first, first);
      while a < end
        invariant a == p * PAGE_SIZE && first <= p && (p <= last || p == first)
        invariant Valid() && TableFrames() == old(TableFrames()) && ram.Frames() == old(ram.Frames()) && ram.bytes == old(ram.bytes)
        invariant Flat() == Cut(was, first, p)
      {
        PageBeforeEnd(p, end);
        var _, _ := ClearEntry(a / PAGE_SIZE);
        CutStep(was, first, p);
        a := a + PAGE_SIZE;
        p := p + 1;
      }
      PageBeforeEnd(p, end);
      LoopEnd(was, first, p, last);
    }

    /** The body of the loop in arch_mm_free_user_pages: clear the entry, then free its frame. */
    method FreeUserPage(v: nat)
      requires Valid() && Owns() && v < USER_PAGES
      modifies ram, ram.Repr()
      ensures Valid() && Owns() && TableFrames() == old(TableFrames()) && ram.bytes == old(ram.bytes)
      ensures Flat() == old(Flat()) - {v}
      ensures ram.Frames() == old(ram.Frames()) - (if v in old(Flat()) then {old(Flat())[v].frame} else {})
    {
      var present, frame := ClearEntry(v);
      if present {
        assert frame in AllFrames(old(Flat()));
        assert frame !in AllFrames(Flat());
        ram.FrameBound(frame);
        ram.FreePage(frame);
      }
    }

    /** The state when the pages from first below p are freed; was, frames and held describe the start. */
    ghost predicate Freeing(was: FlatMap, frames: set<nat>, held: set<nat>, bytes: map<nat, seq<byte>>, first: nat, p: nat)
      reads Repr(), ram, ram.Repr()
    {
      && Valid() && Owns() && TableFrames() == held && ram.bytes == bytes
      && Flat() == Cut(was, first, p)
      && ram.Frames() == frames - FramesIn(was, first, p)
    }

    method FreeNext(ghost was: FlatMap, ghost frames: set<nat>, ghost held: set<nat>, ghost bytes: map<nat, seq<byte>>,
                    ghost first: nat, p: nat)
      requires Freeing(was, frames, held, bytes, first, p) && first <= p < USER_PAGES
      modifies ram, ram.Repr()
      ensures Freeing(was, frames, held, bytes, first, p + 1)
    {
      FreeUserPage(p);
      CutStep(was, first, p);
    }

    /** arch_mm_free_user_pages: the pages of the range are unmapped and their frames freed, once each. */
    method FreeUserPages(start: Word, end: Word)
      requires Valid() && Owns() && end <= USER_STACK_TOP
      modifies ram, ram.Repr()
      ensures Valid() && Owns() && TableFrames() == old(TableFrames()) && ram.bytes == old(ram.bytes)
      ensures Flat() == Cut(old(Flat()), start / PAGE_SIZE, EndPage(end))
      ensures ram.Frames() == old(ram.Frames()) - FramesIn(old(Flat()), start / PAGE_SIZE, EndPage(end))
    {
      var a := AlignDown(start);
      ghost var first, p := start / PAGE_SIZE, start / PAGE_SIZE;
      ghost var was, frames, held, bytes := Flat(), ram.Frames(), TableFrames(), ram.bytes;
      ghost var last := EndPage(end);
      LoopEnd(was, first, first, first);
      while a < end
        invariant a == p * PAGE_SIZE && first <= p && (p <= last || p == first)
        invariant Freeing(was, frames, held, bytes, first, p)
      {
        PageBeforeEnd(p, end);
        FreeNext(was, frames, held, bytes, first, a / PAGE_SIZE);
        a := a + PAGE_SIZE;
        p := p + 1;
      }
      PageBeforeEnd(p, end);
      LoopEnd(was, first, p, last);
    }

    /** arch_mm_free_user_tables: every page table is freed, once each, and the user half is empty. */
    method FreeUserTables()
      requires Valid() && Owns()
      modifies pgdir, tables, ram.Repr()
      ensures Valid() && Owns()
      ensures Flat() == map[] && TableFrames() == {}
      ensures ram.Frames() == old(ram.Frames()) - old(TableFrames())
      ensures ram.bytes == old(ram.bytes)
    {
      ghost var dir := tables[..];
      for i := 0 to USER_TABLES
        invariant ram.Valid() && ram.tables == old(ram.tables) && ram.bytes == old(ram.bytes)
        invariant forall k | 0 <= k < USER_TABLES :: tables[k] == if k < i then 0 else dir[k]
        invariant Mirrors(pgdir[..], tables[..])
        invariant ram.Frames() == old(ram.Frames()) - TablesOf(dir[..i])
      {
        if tables[i] != 0 {
          assert dir[i] in TablesOf(dir);
          assert tables[i] in ram.Frames() by {
            assert dir[i] !in TablesOf(dir[..i]);
          }
          ram.FrameBound(tables[i]);
          ram.FreePage(tables[i]);
          tables[i] := 0;
          pgdir[i] := EMPTY;
        }
        TablesStep(dir, i);
      }
      assert dir[..USER_TABLES] == dir;
      assert forall k | 0 <= k < USER_TABLES :: tables[..][k] == 0;
    }
  }
}
