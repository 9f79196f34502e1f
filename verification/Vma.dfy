/** The list of virtual memory areas of a process (mm/vma.c). */
module VmaList {
  import opened Layout

  datatype VmFlags = VmFlags(read: bool, write: bool, exec: bool, shared: bool, growsDown: bool)
  datatype VmType = Code | Heap | Stack | Mmap

  datatype Vma = Vma(start: Word, end: Word, flags: VmFlags, vmType: VmType)

  const STACK_LIMIT := 8 * 1024 * 1024

  /** PAGE_ALIGN on 32-bit words: addresses in the last page wrap to zero. */
  function PageAlign(a: Word): Word {
    AlignUp(a) % WORD
  }

  predicate Contains(a: Vma, addr: nat) {
    a.start <= addr < a.end
  }

  /** vma_find's test: a stack also answers for the 8 MB below it. */
  predicate Answers(a: Vma, addr: Word) {
    if a.flags.growsDown then
      (if a.start > STACK_LIMIT then a.start - STACK_LIMIT else 0) <= addr < a.end
    else Contains(a, addr)
  }

  /** vma_overlaps' test. */
  predicate Overlaps(a: Vma, start: nat, end: nat) {
    start < a.end && end > a.start
  }

  /** The test finds exactly the areas that share a byte with a range. */
  lemma OverlapIsSharedByte(a: Vma, start: nat, end: nat)
    requires a.start < a.end && start < end
    ensures Overlaps(a, start, end) <==> exists x: nat :: Contains(a, x) && start <= x < end
  {
    var x := if start < a.start then a.start else start;
    assert Overlaps(a, start, end) ==> Contains(a, x) && start <= x < end;
  }

  ghost predicate Aligned(areas: seq<Vma>) {
    forall i | 0 <= i < |areas| :: areas[i].start <= areas[i].end && areas[i].start % PAGE_SIZE == 0 && areas[i].end % PAGE_SIZE == 0
  }

  /** In address order, each area ending before the next begins. */
  ghost predicate SortedDisjoint(areas: seq<Vma>) {
    forall i, j | 0 <= i < j < |areas| :: areas[i].end <= areas[j].start
  }

  /** Where vma_insert puts an area: before the first area that starts later. */
  ghost predicate InsertionPoint(areas: seq<Vma>, start: nat, i: nat) {
    && i <= |areas|
    && (forall k | 0 <= k < i :: areas[k].start <= start)
    && (i < |areas| ==> start < areas[i].start)
  }

  /** vma_create: page-aligned bounds, no list yet. */
  function Create(start: Word, end: Word, flags: VmFlags, vmType: VmType): Vma {
    Vma(AlignDown(start), PageAlign(end), flags, vmType)
  }

  class VmaList {
    var areas: seq<Vma>

    constructor ()
      ensures areas == []
    {
      areas := [];
    }

    /** vma_find: the first area that answers for the address. */
    method Find(addr: Word) returns (i: int)
      ensures i == -1 ==> forall k | 0 <= k < |areas| :: !Answers(areas[k], addr)
      ensures i != -1 ==> 0 <= i < |areas| && Answers(areas[i], addr) && forall k | 0 <= k < i :: !Answers(areas[k], addr)
    {
      for k := 0 to |areas|
        invariant forall n | 0 <= n < k :: !Answers(areas[n], addr)
      {
        if areas[k].flags.growsDown {
          var limit := if areas[k].start > STACK_LIMIT then areas[k].start - STACK_LIMIT else 0;
          if addr >= limit && addr < areas[k].end {
            return k;
          }
        } else if addr >= areas[k].start && addr < areas[k].end {
          return k;
        }
      }
      return -1;
    }

    /** vma_insert */
    method Insert(vma: Vma) returns (ghost i: nat)
      modifies this
      ensures InsertionPoint(old(areas), vma.start, i)
      ensures areas == old(areas)[..i] + [vma] + old(areas)[i..]
    {
      var pos := 0;
      while pos < |areas| && areas[pos].start <= vma.start
        invariant pos <= |areas|
        invariant forall k | 0 <= k < pos :: areas[k].start <= vma.start
      {
        pos := pos + 1;
      }
      i := pos;
      areas := areas[..pos] + [vma] + areas[pos..];
    }

    /** vma_overlaps */
    method OverlapsAny(start: Word, end: Word) returns (b: bool)
      ensures b <==> exists k | 0 <= k < |areas| :: Overlaps(areas[k], start, end)
    {
      for k := 0 to |areas|
        invariant forall n | 0 <= n < k :: !Overlaps(areas[n], start, end)
      {
        if start < areas[k].end && end > areas[k].start {
          return true;
        }
      }
      return false;
    }
  }

  /** In an ordered list the first area that answers is the one that contains the address, if any does. */
  lemma FindIsContaining(areas: seq<Vma>, addr: Word, i: nat, k: nat)
    requires Aligned(areas) && SortedDisjoint(areas)
    requires i < |areas| && Answers(areas[i], addr) && forall n | 0 <= n < i :: !Answers(areas[n], addr)
    requires k < |areas|
    ensures Contains(areas[k], addr) ==> i == k
  {
    assert Contains(areas[k], addr) ==> Answers(areas[k], addr);
  }

  /** Inserting an area that overlaps nothing keeps the list ordered. */
  lemma InsertKeepsOrder(areas: seq<Vma>, vma: Vma, i: nat)
    requires Aligned(areas) && SortedDisjoint(areas) && Aligned([vma])
    requires InsertionPoint(areas, vma.start, i)
    requires forall k | 0 <= k < |areas| :: areas[k].end <= vma.start || vma.end <= areas[k].start
    requires forall k | 0 <= k < i :: areas[k].end <= vma.start
    ensures var after := areas[..i] + [vma] + areas[i..];
            Aligned(after) && SortedDisjoint(after)
  {
    var after := areas[..i] + [vma] + areas[i..];
    assert forall k | 0 <= k < |after| :: after[k] == if k < i then areas[k] else if k == i then vma else areas[k - 1];
    assert [vma][0] == vma;
  }
}
