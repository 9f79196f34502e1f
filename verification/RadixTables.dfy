/** Four-level page tables as values: how a tree of tables reads as one flat map (arch/x86_64/paging.c). */
module RadixTables {
  import opened Ram
  import opened PageTables

  /** Entries of a table, and top-level entries of the user half. */
  const FANOUT := 512
  const USER_SLOTS := 256

  /** The pages of the user half. */
  const USER_SPAN := 0x8_0000_0000

  const NO_ENTRIES: seq<Pte> := seq(FANOUT, _ => EMPTY)

  /** The indices that lead from the top-level table to a table: none for itself, three for a table of pages. */
  type Path = seq<nat>

  datatype Found = Nothing | Table(frame: nat)

  /** One step down the tree. */
  function Down(mem: TableMemory, t: Found, i: nat): Found {
    if t.Table? && t.frame in mem && i < |mem[t.frame]| && mem[t.frame][i].flags.present then Table(mem[t.frame][i].frame)
    else Nothing
  }

  /** The table at the end of a path. */
  function At(mem: TableMemory, root: nat, p: Path): Found {
    if p == [] then Table(root) else Down(mem, At(mem, root, p[..|p| - 1]), p[|p| - 1])
  }

  predicate UserPath(p: Path) {
    |p| <= 3 && (forall i | 0 <= i < |p| :: p[i] < FANOUT) && (p != [] ==> p[0] < USER_SLOTS)
  }

  /** Every table of the user half is a page of 512 entries, and no page serves as two tables. */
  ghost predicate TreeOk(mem: TableMemory, root: nat) {
    && (forall p {:trigger At(mem, root, p)} | UserPath(p) && At(mem, root, p).Table? ::
          At(mem, root, p).frame in mem && |mem[At(mem, root, p).frame]| == FANOUT)
    && (forall p, q {:trigger At(mem, root, p), At(mem, root, q)} |
          UserPath(p) && UserPath(q) && At(mem, root, p).Table? && At(mem, root, p) == At(mem, root, q) :: p == q)
  }

  /** The path to the table that has the entry of page v. */
  function TablePath(v: nat): Path {
    [v / FANOUT / FANOUT / FANOUT, v / FANOUT / FANOUT % FANOUT, v / FANOUT % FANOUT]
  }

  function PageAt(p: Path, m: nat): nat
    requires |p| == 3
  {
    ((p[0] * FANOUT + p[1]) * FANOUT + p[2]) * FANOUT + m
  }

  lemma DivideBack(a: nat, m: nat)
    requires m < FANOUT
    ensures (a * FANOUT + m) / FANOUT == a && (a * FANOUT + m) % FANOUT == m
  {
  }

  /** Page numbers are paths with a last index. */
  lemma PageOfPath(p: Path, m: nat)
    requires UserPath(p) && |p| == 3 && m < FANOUT
    ensures PageAt(p, m) < USER_SPAN && TablePath(PageAt(p, m)) == p && PageAt(p, m) % FANOUT == m
  {
    DivideBack((p[0] * FANOUT + p[1]) * FANOUT + p[2], m);
    DivideBack(p[0] * FANOUT + p[1], p[2]);
    DivideBack(p[0], p[1]);
  }

  lemma PathOfPage(v: nat)
    requires v < USER_SPAN
    ensures UserPath(TablePath(v)) && PageAt(TablePath(v), v % FANOUT) == v
    ensures var p := TablePath(v); |p| == 3 && v == 512 * 512 * 512 * p[0] + 512 * 512 * p[1] + 512 * p[2] + v % 512
  {
  }

  /** The entry of page v; where a table is missing it reads as empty. */
  function EntryOf(mem: TableMemory, root: nat, v: nat): Pte {
    var t := At(mem, root, TablePath(v));
    if t.Table? && t.frame in mem && |mem[t.frame]| == FANOUT then mem[t.frame][v % FANOUT] else EMPTY
  }

  ghost function Flat(mem: TableMemory, root: nat): FlatMap {
    map v: nat | v < USER_SPAN && EntryOf(mem, root, v).flags.present :: EntryOf(mem, root, v)
  }

  ghost predicate IsTable(mem: TableMemory, root: nat, f: nat) {
    exists p :: UserPath(p) && At(mem, root, p) == Table(f)
  }

  /** The pages that serve as tables, the top-level one included. */
  ghost function TableFrames(mem: TableMemory, root: nat): set<nat> {
    set f | f in mem && IsTable(mem, root, f)
  }

  lemma AtPush(mem: TableMemory, root: nat, p: Path, i: nat)
    ensures At(mem, root, p + [i]) == Down(mem, At(mem, root, p), i)
  {
    assert (p + [i])[..|p|] == p;
  }

  /** Where no table is, none is below. */
  lemma {:induction false} NothingBelow(mem: TableMemory, root: nat, p: Path, q: Path)
    requires p <= q && At(mem, root, p) == Nothing
    ensures At(mem, root, q) == Nothing
    decreases |q|
  {
    if p != q {
      NothingBelow(mem, root, p, q[..|q| - 1]);
    }
  }

  /** mem' has the tables of mem, but for entry k of table t. */
  ghost predicate OneEntry(mem: TableMemory, mem': TableMemory, root: nat, t: nat, k: nat) {
    forall p {:trigger At(mem, root, p)} | UserPath(p) && At(mem, root, p).Table? ::
      var f := At(mem, root, p).frame;
      f in mem && f in mem' && |mem[f]| == |mem'[f]| == FANOUT
      && forall i | 0 <= i < FANOUT && (f != t || i != k) :: mem'[f][i] == mem[f][i]
  }

  lemma SameDown(mem: TableMemory, mem': TableMemory, root: nat, t: nat, k: nat, p: Path, i: nat)
    requires UserPath(p) && OneEntry(mem, mem', root, t, k) && i < FANOUT && (At(mem, root, p) != Table(t) || i != k)
    ensures Down(mem', At(mem, root, p), i) == Down(mem, At(mem, root, p), i)
  {
  }

  lemma FrontOf(q: Path)
    requires UserPath(q) && q != []
    ensures UserPath(q[..|q| - 1]) && q[|q| - 1] < FANOUT
  {
  }

  lemma NotBelow(p: Path, k: nat, q: Path)
    requires q != [] && !(p + [k] <= q)
    ensures !(p + [k] <= q[..|q| - 1]) && (q[..|q| - 1] == p ==> q[|q| - 1] != k)
  {
    assert q == q[..|q| - 1] + [q[|q| - 1]];
  }

  /** Changing entry k of the table at p matters below that entry only. */
  lemma {:induction false} SameBeside(mem: TableMemory, mem': TableMemory, root: nat, p: Path, t: nat, k: nat, q: Path)
    requires TreeOk(mem, root) && UserPath(p) && At(mem, root, p) == Table(t) && OneEntry(mem, mem', root, t, k)
    requires UserPath(q) && !(p + [k] <= q)
    ensures At(mem', root, q) == At(mem, root, q)
    decreases |q|
  {
    if q != [] {
      var front := q[..|q| - 1];
      FrontOf(q);
      NotBelow(p, k, q);
      SameBeside(mem, mem', root, p, t, k, front);
      SameDown(mem, mem', root, t, k, front, q[|q| - 1]);
    }
  }

  /** The same tables at the same places. */
  lemma SameTables(mem: TableMemory, mem': TableMemory, root: nat)
    requires TreeOk(mem, root) && forall q | UserPath(q) :: At(mem', root, q) == At(mem, root, q)
    requires forall f | f in TableFrames(mem, root) :: f in mem' && |mem'[f]| == FANOUT
    ensures TreeOk(mem', root) && TableFrames(mem', root) == TableFrames(mem, root)
  {
    forall q | UserPath(q) && At(mem', root, q).Table?
      ensures At(mem', root, q).frame in TableFrames(mem, root)
    {
      assert IsTable(mem, root, At(mem, root, q).frame);
    }
    forall f
      ensures IsTable(mem', root, f) <==> IsTable(mem, root, f)
    {
    }
    forall f | IsTable(mem, root, f)
      ensures f in mem && f in mem'
    {
      var q :| UserPath(q) && At(mem, root, q) == Table(f);
      assert f in TableFrames(mem, root);
    }
  }

  lemma OneEntryOf(mem: TableMemory, root: nat, t: nat, k: nat, e: Pte)
    requires TreeOk(mem, root) && IsTable(mem, root, t) && t in mem && k < |mem[t]| == FANOUT
    ensures OneEntry(mem, mem[t := mem[t][k := e]], root, t, k)
  {
  }

  /** Storing an entry of a table of pages changes one page of the flat map and no table. */
  lemma StoreLeaf(mem: TableMemory, root: nat, p: Path, t: nat, k: nat, e: Pte)
    requires TreeOk(mem, root) && UserPath(p) && |p| == 3 && At(mem, root, p) == Table(t) && k < FANOUT
    ensures t in mem && |mem[t]| == FANOUT
    ensures var mem', v := mem[t := mem[t][k := e]], PageAt(p, k);
            && TreeOk(mem', root) && TableFrames(mem', root) == TableFrames(mem, root)
            && (forall q | UserPath(q) :: At(mem', root, q) == At(mem, root, q))
            && Flat(mem', root) == if e.flags.present then Flat(mem, root)[v := e] else Flat(mem, root) - {v}
  {
    var mem' := mem[t := mem[t][k := e]];
    OneEntryOf(mem, root, t, k, e);
    forall q | UserPath(q)
      ensures At(mem', root, q) == At(mem, root, q)
    {
      SameBeside(mem, mem', root, p, t, k, q);
    }
    SameTables(mem, mem', root);
    PageOfPath(p, k);
    forall w: nat | w < USER_SPAN
      ensures EntryOf(mem', root, w) == if w == PageAt(p, k) then e else EntryOf(mem, root, w)
    {
      LeafEntry(mem, root, p, t, k, e, w);
    }
    OnePage(mem, mem', root, PageAt(p, k), e);
  }

  lemma OnePage(mem: TableMemory, mem': TableMemory, root: nat, v: nat, e: Pte)
    requires v < USER_SPAN
    requires forall w: nat | w < USER_SPAN :: EntryOf(mem', root, w) == if w == v then e else EntryOf(mem, root, w)
    ensures Flat(mem', root) == if e.flags.present then Flat(mem, root)[v := e] else Flat(mem, root) - {v}
  {
  }

  lemma LeafEntry(mem: TableMemory, root: nat, p: Path, t: nat, k: nat, e: Pte, w: nat)
    requires TreeOk(mem, root) && UserPath(p) && |p| == 3 && At(mem, root, p) == Table(t) && k < FANOUT && w < USER_SPAN
    requires t in mem && |mem[t]| == FANOUT
    requires At(mem[t := mem[t][k := e]], root, TablePath(w)) == At(mem, root, TablePath(w))
    ensures EntryOf(mem[t := mem[t][k := e]], root, w) == if w == PageAt(p, k) then e else EntryOf(mem, root, w)
  {
    PathOfPage(w);
    PageOfPath(p, k);
    if At(mem, root, TablePath(w)) == Table(t) {
      assert TablePath(w) == p;
    }
  }

  /** Hanging an empty table below an absent entry changes no page. */
  lemma HangTable(mem: TableMemory, root: nat, p: Path, t: nat, k: nat, n: nat, flags: Flags)
    requires TreeOk(mem, root) && UserPath(p) && UserPath(p + [k]) && At(mem, root, p) == Table(t)
    requires At(mem, root, p + [k]) == Nothing && flags.present && !IsTable(mem, root, n)
    ensures t in mem && k < |mem[t]|
    ensures var mem' := mem[t := mem[t][k := Pte(n, flags)]][n := NO_ENTRIES];
            && TreeOk(mem', root) && Flat(mem', root) == Flat(mem, root)
            && TableFrames(mem', root) == TableFrames(mem, root) + {n}
            && At(mem', root, p + [k]) == Table(n)
            && (forall q | UserPath(q) && !(p + [k] <= q) :: At(mem', root, q) == At(mem, root, q))
  {
    assert t in mem && k < |mem[t]| by {
      assert (p + [k])[|p|] == k;
    }
    var mem' := mem[t := mem[t][k := Pte(n, flags)]][n := NO_ENTRIES];
    AddedEntry(mem, root, t, k, Pte(n, flags), n);
    forall q | UserPath(q)
      ensures At(mem', root, q) == if q == p + [k] then Table(n) else if p + [k] <= q then Nothing else At(mem, root, q)
    {
      AddedAt(mem, mem', root, p, t, k, n, q);
    }
    AddedTables(mem, mem', root, p + [k], n);
    forall v: nat | v < USER_SPAN
      ensures EntryOf(mem', root, v) == EntryOf(mem, root, v)
    {
      AddedPage(mem, mem', root, p, t, k, n, v);
    }
    SameFlat(mem, mem', root);
  }

  lemma SameFlat(mem: TableMemory, mem': TableMemory, root: nat)
    requires forall v: nat | v < USER_SPAN :: EntryOf(mem', root, v) == EntryOf(mem, root, v)
    ensures Flat(mem', root) == Flat(mem, root)
  {
  }

  lemma AddedEntry(mem: TableMemory, root: nat, t: nat, k: nat, e: Pte, n: nat)
    requires TreeOk(mem, root) && IsTable(mem, root, t) && !IsTable(mem, root, n) && t in mem && k < |mem[t]|
    ensures OneEntry(mem, mem[t := mem[t][k := e]][n := NO_ENTRIES], root, t, k)
  {
    forall q | UserPath(q) && At(mem, root, q).Table?
      ensures IsTable(mem, root, At(mem, root, q).frame)
    {
    }
  }

  lemma {:induction false} AddedAt(mem: TableMemory, mem': TableMemory, root: nat, p: Path, t: nat, k: nat, n: nat, q: Path)
    requires TreeOk(mem, root) && UserPath(p) && At(mem, root, p) == Table(t) && OneEntry(mem, mem', root, t, k)
    requires t in mem' && k < |mem'[t]| && mem'[t][k].flags.present && mem'[t][k].frame == n
    requires n in mem' && mem'[n] == NO_ENTRIES && UserPath(q)
    ensures At(mem', root, q) == if q == p + [k] then Table(n) else if p + [k] <= q then Nothing else At(mem, root, q)
    decreases |q|
  {
    if !(p + [k] <= q) {
      SameBeside(mem, mem', root, p, t, k, q);
    } else if q == p + [k] {
      AddedHere(mem, mem', root, p, t, k, n);
    } else {
      FrontBelow(p + [k], q);
      AddedAt(mem, mem', root, p, t, k, n, q[..|q| - 1]);
      AddedBelow(mem', root, n, q);
    }
  }

  /** The new table is found where it was hung. */
  lemma AddedHere(mem: TableMemory, mem': TableMemory, root: nat, p: Path, t: nat, k: nat, n: nat)
    requires TreeOk(mem, root) && UserPath(p) && At(mem, root, p) == Table(t) && OneEntry(mem, mem', root, t, k)
    requires t in mem' && k < |mem'[t]| && mem'[t][k].flags.present && mem'[t][k].frame == n
    ensures At(mem', root, p + [k]) == Table(n)
  {
    SameBeside(mem, mem', root, p, t, k, p);
    AtPush(mem', root, p, k);
  }

  lemma FrontBelow(at: Path, q: Path)
    requires at <= q && at != q && UserPath(q)
    ensures at <= q[..|q| - 1] && UserPath(q[..|q| - 1])
  {
  }

  /** Below an empty table, and below nothing, nothing is found. */
  lemma AddedBelow(mem: TableMemory, root: nat, n: nat, q: Path)
    requires q != [] && n in mem && mem[n] == NO_ENTRIES
    requires At(mem, root, q[..|q| - 1]) == Nothing || At(mem, root, q[..|q| - 1]) == Table(n)
    ensures At(mem, root, q) == Nothing
  {
  }

  lemma AddedTables(mem: TableMemory, mem': TableMemory, root: nat, at: Path, n: nat)
    requires TreeOk(mem, root) && UserPath(at) && At(mem, root, at) == Nothing && !IsTable(mem, root, n)
    requires mem'.Keys == mem.Keys + {n} && |mem'[n]| == FANOUT && forall f | f in mem && f != n :: |mem'[f]| == |mem[f]|
    requires forall q | UserPath(q) :: At(mem', root, q) == if q == at then Table(n) else if at <= q then Nothing else At(mem, root, q)
    ensures TreeOk(mem', root) && TableFrames(mem', root) == TableFrames(mem, root) + {n}
  {
    forall q | UserPath(q) && at <= q
      ensures At(mem, root, q) == Nothing
    {
      NothingBelow(mem, root, at, q);
    }
    forall q | UserPath(q) && At(mem, root, q).Table?
      ensures IsTable(mem, root, At(mem, root, q).frame) && At(mem', root, q) == At(mem, root, q)
    {
    }
    forall f
      ensures IsTable(mem', root, f) <==> IsTable(mem, root, f) || f == n
    {
      if IsTable(mem, root, f) {
        var q :| UserPath(q) && At(mem, root, q) == Table(f);
        assert At(mem', root, q) == Table(f);
      }
      if f == n {
        assert At(mem', root, at) == Table(n);
      }
    }
  }

  lemma AddedPage(mem: TableMemory, mem': TableMemory, root: nat, p: Path, t: nat, k: nat, n: nat, v: nat)
    requires TreeOk(mem, root) && UserPath(p) && UserPath(p + [k]) && At(mem, root, p) == Table(t) && !IsTable(mem, root, n)
    requires At(mem, root, p + [k]) == Nothing && OneEntry(mem, mem', root, t, k) && v < USER_SPAN
    requires n in mem' && mem'[n] == NO_ENTRIES
    requires forall q | UserPath(q) ::
               At(mem', root, q) == if q == p + [k] then Table(n) else if p + [k] <= q then Nothing else At(mem, root, q)
    ensures EntryOf(mem', root, v) == EntryOf(mem, root, v)
  {
    PathOfPage(v);
    var q := TablePath(v);
    if p + [k] <= q {
      NothingBelow(mem, root, p + [k], q);
    } else {
      assert At(mem, root, q) != Table(t) || q == p;
    }
  }

  /** f serves as a table below p, behind an entry before k. */
  ghost predicate IsBelow(mem: TableMemory, root: nat, p: Path, k: nat, f: nat) {
    exists q :: UserPath(q) && p < q && q[|p|] < k && At(mem, root, q) == Table(f)
  }

  /** The tables below p behind the entries before k. */
  ghost function Below(mem: TableMemory, root: nat, p: Path, k: nat): set<nat> {
    set f | f in mem && IsBelow(mem, root, p, k, f)
  }

  /** The tables behind entry k: the one it points to, and those below that. */
  ghost function Behind(mem: TableMemory, root: nat, p: Path, k: nat): set<nat> {
    if At(mem, root, p + [k]).Table? then Below(mem, root, p + [k], FANOUT) + {At(mem, root, p + [k]).frame} else {}
  }

  lemma BehindIs(mem: TableMemory, root: nat, p: Path, k: nat, f: nat)
    requires TreeOk(mem, root) && UserPath(p + [k])
    ensures f in Behind(mem, root, p, k) <==> exists q :: UserPath(q) && p + [k] <= q && At(mem, root, q) == Table(f)
  {
    if f in Behind(mem, root, p, k) {
      if f == At(mem, root, p + [k]).frame {
        assert At(mem, root, p + [k]) == Table(f);
      } else {
        var q :| UserPath(q) && p + [k] < q && At(mem, root, q) == Table(f);
      }
    }
    if q :| UserPath(q) && p + [k] <= q && At(mem, root, q) == Table(f) {
      if At(mem, root, p + [k]) == Nothing {
        NothingBelow(mem, root, p + [k], q);
      } else if q != p + [k] {
        assert q[|p + [k]|] < FANOUT;
        assert IsBelow(mem, root, p + [k], FANOUT, f);
      }
    }
  }

  /** Going on to the next entry adds the tables behind it, none of which were there. */
  lemma BelowStep(mem: TableMemory, root: nat, p: Path, k: nat)
    requires TreeOk(mem, root) && UserPath(p + [k])
    ensures Below(mem, root, p, k + 1) == Below(mem, root, p, k) + Behind(mem, root, p, k)
    ensures Below(mem, root, p, k) !! Behind(mem, root, p, k)
  {
    forall f
      ensures f in Below(mem, root, p, k + 1) <==> f in Below(mem, root, p, k) || f in Behind(mem, root, p, k)
      ensures !(f in Below(mem, root, p, k) && f in Behind(mem, root, p, k))
    {
      BehindIs(mem, root, p, k, f);
      BelowStepAt(mem, root, p, k, f);
    }
  }

  lemma BelowStepAt(mem: TableMemory, root: nat, p: Path, k: nat, f: nat)
    requires TreeOk(mem, root) && UserPath(p + [k])
    requires f in Behind(mem, root, p, k) <==> exists q :: UserPath(q) && p + [k] <= q && At(mem, root, q) == Table(f)
    ensures f in Below(mem, root, p, k + 1) <==> f in Below(mem, root, p, k) || f in Behind(mem, root, p, k)
    ensures !(f in Below(mem, root, p, k) && f in Behind(mem, root, p, k))
  {
    if f in Below(mem, root, p, k + 1) {
      var q :| UserPath(q) && p < q && q[|p|] < k + 1 && At(mem, root, q) == Table(f);
      if q[|p|] == k {
        assert p + [k] == q[..|p| + 1];
      }
    }
    if f in Behind(mem, root, p, k) {
      var q :| UserPath(q) && p + [k] <= q && At(mem, root, q) == Table(f);
      assert q[|p|] == k && p < q;
    }
  }

  lemma NothingBelowPages(mem: TableMemory, root: nat, p: Path)
    requires |p| == 3
    ensures Below(mem, root, p, FANOUT) == {}
  {
  }

  lemma BelowNothing(mem: TableMemory, root: nat, p: Path)
    ensures Below(mem, root, p, 0) == {}
  {
  }

  /** All tables but the top-level one are below it. */
  lemma AllBelow(mem: TableMemory, root: nat)
    requires TreeOk(mem, root)
    ensures Below(mem, root, [], USER_SLOTS) == TableFrames(mem, root) - {root} && root in TableFrames(mem, root)
  {
    assert At(mem, root, []) == Table(root) && IsTable(mem, root, root);
    forall f
      ensures f in Below(mem, root, [], USER_SLOTS) <==> f in TableFrames(mem, root) && f != root
    {
      if f in TableFrames(mem, root) && f != root {
        var q :| UserPath(q) && At(mem, root, q) == Table(f);
        assert [] < q && q[0] < USER_SLOTS;
      }
    }
  }

  /** With an empty user half in the top-level table nothing is mapped and no other table is left. */
  lemma EmptyTree(mem: TableMemory, root: nat)
    requires root in mem && |mem[root]| == FANOUT && forall i | 0 <= i < USER_SLOTS :: !mem[root][i].flags.present
    ensures TreeOk(mem, root) && TableFrames(mem, root) == {root} && Flat(mem, root) == map[]
  {
    forall q | UserPath(q) && q != []
      ensures At(mem, root, q) == Nothing
    {
      assert q[..1] == [] + [q[0]];
      AtPush(mem, root, [], q[0]);
      NothingBelow(mem, root, q[..1], q);
    }
    assert At(mem, root, []) == Table(root) && IsTable(mem, root, root);
    forall v: nat | v < USER_SPAN
      ensures !EntryOf(mem, root, v).flags.present
    {
      PathOfPage(v);
    }
  }

  /** How many pages lie below a table that is d steps down. */
  function Span(d: nat): nat
    requires d <= 4
  {
    match d
    case 0 => 512 * 0x800_0000
    case 1 => 0x800_0000
    case 2 => 0x4_0000
    case 3 => FANOUT
    case 4 => 1
  }

  /** The number that the indices of a path spell. */
  function Number(p: Path): nat {
    if p == [] then 0 else Number(p[..|p| - 1]) * FANOUT + p[|p| - 1]
  }

  /** The first page below a path. */
  function FirstPage(p: Path): nat
    requires |p| <= 4
  {
    Number(p) * Span(|p|)
  }

  lemma NextSibling(p: Path, k: nat)
    requires |p| <= 3
    ensures FirstPage(p + [k]) == FirstPage(p) + k * Span(|p| + 1)
    ensures Span(|p|) == FANOUT * Span(|p| + 1)
  {
    assert (p + [k])[..|p|] == p;
    var s := Span(|p| + 1);
    assert (Number(p) * FANOUT + k) * s == Number(p) * (FANOUT * s) + k * s;
  }

  lemma NumberOfTable(p: Path)
    requires 1 <= |p| <= 3
    ensures Number(p) == if |p| == 1 then p[0] else if |p| == 2 then p[0] * FANOUT + p[1] else (p[0] * FANOUT + p[1]) * FANOUT + p[2]
  {
    assert p[..1][..0] == [];
    assert |p| == 3 ==> p[..2][..1] == p[..1];
  }

  /** Division by the span, one level at a time. */
  lemma DivideSpan(a: nat, v: nat, s: nat)
    requires s > 0 && a * (s * FANOUT) <= v < a * (s * FANOUT) + s * FANOUT
    ensures a * s <= v / FANOUT < a * s + s
  {
    assert a * (s * FANOUT) == a * s * FANOUT;
  }

  /** The pages below a path are those whose own path goes on from it. */
  lemma BelowPath(p: Path, v: nat)
    requires UserPath(p) && FirstPage(p) <= v < FirstPage(p) + Span(|p|)
    ensures p <= TablePath(v)
  {
    var q := v / FANOUT;
    if |p| == 1 {
      NumberOfTable(p);
      DivideSpan(p[0], v, 0x4_0000);
      DivideSpan(p[0], q, FANOUT);
      DivideSpan(p[0], q / FANOUT, 1);
    } else if |p| == 2 {
      NumberOfTable(p);
      DivideSpan(p[0] * FANOUT + p[1], v, FANOUT);
      DivideSpan(p[0] * FANOUT + p[1], q, 1);
      DivideBack(p[0], p[1]);
    } else if |p| == 3 {
      NumberOfTable(p);
      DivideSpan((p[0] * FANOUT + p[1]) * FANOUT + p[2], v, 1);
      DivideBack(p[0] * FANOUT + p[1], p[2]);
      DivideBack(p[0], p[1]);
    }
  }

  /** Where a table is missing no page is mapped. */
  lemma NoPagesBelow(mem: TableMemory, root: nat, p: Path, v: nat)
    requires UserPath(p) && At(mem, root, p) == Nothing && FirstPage(p) <= v < FirstPage(p) + Span(|p|)
    ensures v !in Flat(mem, root)
  {
    BelowPath(p, v);
    NothingBelow(mem, root, p, TablePath(v));
  }
}
