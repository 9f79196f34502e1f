/** Runs of brk, mmap, munmap and page faults on one process (kernel/syscall.c, mm/pagefault.c). */
module MmRuns {
  import opened Runs
  import opened Layout
  import opened VmaList
  import opened MmStruct

  /** A call or a fault, with how its allocation comes out. */
  datatype Step =
    | BrkStep(addr: Word, memory: bool)
    | MmapStep(hint: Word, length: Word, flags: VmFlags, anonymous: bool, fdOpen: bool, memory: bool)
    | MunmapStep(addr: Word, length: Word)
    | FaultStep(addr: Word, write: bool, protection: bool, memory: bool)

  /** mmap never makes an area that grows down, and the request must stay below 4 GB from where the search starts. */
  predicate Allowable(step: Step) {
    step.MmapStep? ==> !step.flags.growsDown && Fits(step.hint, step.length)
  }

  /** The areas, the heap's start and end, and its limit. */
  datatype World = World(areas: seq<Vma>, brkStart: Word, brkEnd: Word, limit: Limit)

  /** A new mapping is at the lowest gap; there is none only when no gap is long enough or memory ran out. */
  ghost predicate Mapped(areas: seq<Vma>, hint: Word, length: Word, flags: VmFlags, memory: bool, areas': seq<Vma>) {
    || (areas' == areas && (memory ==> LowestGap(areas, SearchStart(hint), AlignUp(length), 0)))
    || exists c: Word :: c != 0 && LowestGap(areas, SearchStart(hint), AlignUp(length), c)
                         && Inserted(areas, areas', Vma(c, c + AlignUp(length), flags, Mmap))
  }

  /** Exactly the area with the given bounds goes, if there is one. */
  ghost predicate Unmapped(areas: seq<Vma>, start: nat, end: nat, areas': seq<Vma>) {
    if exists k :: 0 <= k < |areas| && areas[k].start == start < end == areas[k].end then
      exists k :: 0 <= k < |areas| && areas[k].start == start < end == areas[k].end && areas' == areas[..k] + areas[k + 1..]
    else areas' == areas
  }

  /** The heap is [brkStart, addr) rounded up to pages, and no other area changed. */
  ghost predicate Broken(w: World, addr: Word, w': World) {
    && w'.brkEnd == addr && WithoutHeap(w'.areas) == WithoutHeap(w.areas)
    && HeapIs(w'.areas, w.brkStart, AlignUp(addr), HeapFlags(w.areas))
  }

  /** A stack that is last grows down to the page of the address, within 8 MB of the top; nothing else changes. */
  ghost predicate Faulted(areas: seq<Vma>, addr: Word, areas': seq<Vma>) {
    var n := |areas| - 1;
    if n >= 0 && areas[n].vmType == Stack && USER_STACK_TOP - STACK_LIMIT <= addr < areas[n].start
    then areas' == areas[..n] + [Vma(AlignDown(addr), areas[n].end, areas[n].flags, Stack)]
    else areas' == areas
  }

  /** What a step leads to. */
  ghost predicate Follows(w: World, step: Step, w': World) {
    && w' == w.(areas := w'.areas, brkEnd := w'.brkEnd)
    && match step
       case BrkStep(addr, memory) =>
         if addr == 0 || BrkRefused(w.areas, w.brkStart, w.limit, addr, memory) then w' == w else Broken(w, addr, w')
       case MmapStep(hint, length, flags, anonymous, fdOpen, memory) =>
         && w'.brkEnd == w.brkEnd
         && (if length == 0 || !(anonymous || fdOpen) then w'.areas == w.areas else Mapped(w.areas, hint, length, flags, memory, w'.areas))
       case MunmapStep(addr, length) =>
         w'.brkEnd == w.brkEnd && Unmapped(w.areas, UnmapRange(addr, length).0, UnmapRange(addr, length).1, w'.areas)
       case FaultStep(addr, write, protection, memory) => w'.brkEnd == w.brkEnd && Faulted(w.areas, addr, w'.areas)
  }

  /** A step from well-placed areas; a step that is not allowable does not happen. */
  ghost predicate Next(w: World, step: Step, w': World) {
    WellPlaced(w.areas, w.brkStart) && if Allowable(step) then Follows(w, step, w') else w' == w
  }

  ghost function Now(mm: MmStruct): World
    reads mm, mm.vmas
  {
    World(mm.vmas.areas, mm.brkStart, mm.brkEnd, mm.limit)
  }

  method Do(mm: MmStruct, step: Step)
    requires mm.Valid() && Allowable(step)
    modifies mm`brkEnd, mm.vmas
    ensures mm.Valid() && Follows(old(Now(mm)), step, Now(mm))
  {
    match step
    case BrkStep(addr, memory) =>
      var r := mm.Brk(addr, memory);
    case MmapStep(_, _, _, _, _, _) =>
      DoMap(mm, step);
    case MunmapStep(addr, length) =>
      DoUnmap(mm, addr, length);
    case FaultStep(addr, write, protection, memory) =>
      var outcome := mm.Fault(addr, write, protection, memory);
  }

  method DoMap(mm: MmStruct, step: Step)
    requires mm.Valid() && Allowable(step) && step.MmapStep?
    modifies mm.vmas
    ensures mm.Valid() && Follows(old(Now(mm)), step, Now(mm))
  {
    var r := mm.Map(step.hint, step.length, step.flags, step.anonymous, step.fdOpen, step.memory);
  }

  method DoUnmap(mm: MmStruct, addr: Word, length: Word)
    requires mm.Valid()
    modifies mm.vmas
    ensures mm.Valid() && Follows(old(Now(mm)), MunmapStep(addr, length), Now(mm))
  {
    var r := mm.Unmap(addr, length);
  }

  /** In every run, by its states, the areas stay page-aligned, in address order and disjoint, so vma_find returns the
      area that contains an address whenever there is one. */
  method Run(mm: MmStruct, steps: seq<Step>, addr: Word) returns (found: int, ghost worlds: seq<World>)
    requires mm.Valid()
    modifies mm`brkEnd, mm.vmas
    ensures IsRun(Next, worlds, steps) && worlds[0] == old(Now(mm)) && worlds[|steps|] == Now(mm)
    ensures mm.Valid() && Aligned(mm.vmas.areas) && SortedDisjoint(mm.vmas.areas)
    ensures forall k: nat | k < |mm.vmas.areas| && Contains(mm.vmas.areas[k], addr) :: found == k
  {
    worlds := [Now(mm)];
    for i := 0 to |steps|
      invariant mm.Valid() && IsRun(Next, worlds, steps[..i]) && worlds[0] == old(Now(mm)) && worlds[i] == Now(mm)
    {
      if Allowable(steps[i]) {
        Do(mm, steps[i]);
      }
      assert steps[..i + 1] == steps[..i] + [steps[i]];
      ExtendRun(Next, worlds, steps[..i], steps[i], Now(mm));
      worlds := worlds + [Now(mm)];
    }
    assert steps[..|steps|] == steps;
    found := mm.vmas.Find(addr);
    forall k: nat | k < |mm.vmas.areas| && Contains(mm.vmas.areas[k], addr)
      ensures found == k
    {
      assert Answers(mm.vmas.areas[k], addr);
      FindIsContaining(mm.vmas.areas, addr, found, k);
    }
  }
}
