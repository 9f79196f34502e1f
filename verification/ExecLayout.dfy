/** From a loaded image to a process whose areas brk, mmap and munmap can work on
    (kernel/elf.c, kernel/process.c, kernel/spawn.c). */
module ExecLayout {
  import opened Layout
  import opened VmaList
  import opened MmStruct
  import opened ElfImage
  import opened SegmentOrder
  import opened ElfRegions
  import opened ElfExec

  /** No two segments have a page in common. */
  ghost predicate NoSharedPage(segs: seq<Seg>) {
    forall i, j | 0 <= i < j < |segs| :: LastPage(segs[i]) <= FirstPage(segs[j]) || LastPage(segs[j]) <= FirstPage(segs[i])
  }

  const STACK_FLAGS := VmFlags(true, true, false, false, true)

  /** The stack area exec and spawn add. */
  const STACK_AREA := Vma(USER_STACK_TOP - USER_STACK_SIZE, USER_STACK_TOP, STACK_FLAGS, Stack)

  lemma AreaOfSegment(segs: seq<Seg>, i: nat, brkStart: nat)
    requires AllValidated(segs, WORD) && i < |segs| && AlignUp(segs[i].vaddr + segs[i].memsz) <= brkStart
    ensures var a := VmasOf(segs)[i];
            && a.start == FirstPage(segs[i]) * PAGE_SIZE && a.end == LastPage(segs[i]) * PAGE_SIZE
            && FirstPage(segs[i]) < LastPage(segs[i]) && a.end <= brkStart && Placed(a, brkStart)
            && a.vmType == Code
  {
    assert Validated(segs[i], WORD);
    assert VmasOf(segs)[i] == VmaOf(segs[i]);
    RegionOfFacts(segs[i]);
  }

  /** The areas of the segments in their order, one beside the other and below brkStart. */
  ghost predicate Mirrored(areas: seq<Vma>, segs: seq<Seg>, brkStart: nat) {
    && |areas| == |segs|
    && forall i {:trigger areas[i]} | 0 <= i < |segs| ::
         && areas[i].start == FirstPage(segs[i]) * PAGE_SIZE && areas[i].end == LastPage(segs[i]) * PAGE_SIZE
         && FirstPage(segs[i]) < LastPage(segs[i]) && areas[i].end <= brkStart && Placed(areas[i], brkStart)
         && areas[i].vmType == Code
  }

  lemma MirroredAll(segs: seq<Seg>, brkStart: nat)
    requires AllValidated(segs, WORD)
    requires forall i | 0 <= i < |segs| :: AlignUp(segs[i].vaddr + segs[i].memsz) <= brkStart
    ensures Mirrored(VmasOf(segs), segs, brkStart)
  {
    forall i | 0 <= i < |segs|
      ensures var a := VmasOf(segs)[i];
              && a.start == FirstPage(segs[i]) * PAGE_SIZE && a.end == LastPage(segs[i]) * PAGE_SIZE
              && FirstPage(segs[i]) < LastPage(segs[i]) && a.end <= brkStart && Placed(a, brkStart) && a.vmType == Code
    {
      AreaOfSegment(segs, i, brkStart);
    }
  }

  lemma ApartIfNoSharedPage(areas: seq<Vma>, segs: seq<Seg>, brkStart: nat)
    requires Mirrored(areas, segs, brkStart) && ByAddress(segs) && NoSharedPage(segs)
    requires brkStart % PAGE_SIZE == 0 && brkStart <= MMAP_BASE
    ensures WellPlaced(areas + [STACK_AREA], brkStart)
  {
    var all := areas + [STACK_AREA];
    forall i | 0 <= i < |all|
      ensures Placed(all[i], brkStart) && all[i].start <= all[i].end && all[i].start % PAGE_SIZE == 0 && all[i].end % PAGE_SIZE == 0
    {
      assert i < |areas| ==> all[i] == areas[i];
    }
    forall i, j | 0 <= i < j < |all|
      ensures all[i].end <= all[j].start && (all[i].vmType != Heap || all[j].vmType != Heap)
    {
      assert all[i] == areas[i];
      if j < |segs| {
        assert all[j] == areas[j] && FirstPage(segs[i]) <= FirstPage(segs[j]);
      }
    }
  }

  lemma NoSharedPageIfApart(areas: seq<Vma>, segs: seq<Seg>, brkStart: nat)
    requires Mirrored(areas, segs, brkStart) && WellPlaced(areas + [STACK_AREA], brkStart)
    ensures NoSharedPage(segs)
  {
    var all := areas + [STACK_AREA];
    forall i, j | 0 <= i < j < |segs|
      ensures LastPage(segs[i]) <= FirstPage(segs[j])
    {
      assert all[i] == areas[i] && all[j] == areas[j];
      assert all[i].end <= all[j].start;
    }
  }

  /** The areas of an image whose segments share no page, below the mmap region, together with the
      stack, are the well-placed starting point of every run; and with a shared page they are not. */
  lemma ImageIsWellPlaced(segs: seq<Seg>, brkStart: nat)
    requires AllValidated(segs, WORD) && ByAddress(segs)
    requires brkStart % PAGE_SIZE == 0 && brkStart <= MMAP_BASE
    requires forall i | 0 <= i < |segs| :: AlignUp(segs[i].vaddr + segs[i].memsz) <= brkStart
    ensures WellPlaced(VmasOf(segs) + [STACK_AREA], brkStart) <==> NoSharedPage(segs)
  {
    MirroredAll(segs, brkStart);
    if NoSharedPage(segs) {
      ApartIfNoSharedPage(VmasOf(segs), segs, brkStart);
    }
    if WellPlaced(VmasOf(segs) + [STACK_AREA], brkStart) {
      NoSharedPageIfApart(VmasOf(segs), segs, brkStart);
    }
  }

  /** Two segments of 256 bytes on one page: their areas overlap. */
  lemma SharedPageOverlaps()
    ensures var segs := [Seg(0x1000, 0, 0x100, 0, SegFlags(true, false, true)), Seg(0x1200, 0, 0x100, 0, SegFlags(true, true, false))];
            && AllValidated(segs, 0) && ByAddress(segs) && !WellPlaced(VmasOf(segs) + [STACK_AREA], 0x2000)
  {
    var segs := [Seg(0x1000, 0, 0x100, 0, SegFlags(true, false, true)), Seg(0x1200, 0, 0x100, 0, SegFlags(true, true, false))];
    assert AllValidated(segs, WORD);
    ImageIsWellPlaced(segs, 0x2000);
    assert LastPage(segs[0]) > FirstPage(segs[1]) && LastPage(segs[1]) > FirstPage(segs[0]);
  }
}
