/** brk, mmap, munmap and stack growth as steps on one process's areas
    (mm/vma.c, mm/pagefault.c, kernel/syscall.c). */
module MmStruct {
  import opened Layout
  import opened VmaList

  const MMAP_BASE := 0x4000_0000
  const MMAP_END := 0xBF00_0000
  const ENOMEM := 12
  const EINVAL := 22
  const EBADF := 9

  datatype Result = Ok(addr: Word) | Err(errno: nat)

  /** What the page-fault handler does with a user fault. */
  datatype FaultOutcome = Resolved | Killed

  /** The heap limit: none, or a bound on the distance from the text start. */
  datatype Limit = Infinite | AtMost(bytes: Word)

  /** No area overlaps [start, end). */
  ghost predicate Free(areas: seq<Vma>, start: nat, end: nat) {
    forall k | 0 <= k < |areas| :: !Overlaps(areas[k], start, end)
  }

  /** A page-aligned place for length bytes in the mmap region, at or above from, that no area touches. */
  ghost predicate Gap(areas: seq<Vma>, from: nat, length: nat, c: nat) {
    c % PAGE_SIZE == 0 && from <= c && c + length <= MMAP_END && Free(areas, c, c + length)
  }

  /** c is the lowest gap, or 0 when there is none. */
  ghost predicate LowestGap(areas: seq<Vma>, from: nat, length: nat, c: nat) {
    if c == 0 then forall d: nat :: !Gap(areas, from, length, d)
    else Gap(areas, from, length, c) && forall d: nat | d < c :: !Gap(areas, from, length, d)
  }

  /** Where the search for a free region begins. */
  function SearchStart(hint: Word): (from: Word)
    ensures from % PAGE_SIZE == 0 && MMAP_BASE <= from <= MMAP_END
    ensures if MMAP_BASE <= hint < MMAP_END then hint <= from < hint + PAGE_SIZE else from == MMAP_BASE
  {
    if hint == 0 || hint < MMAP_BASE || hint >= MMAP_END then MMAP_BASE else PageAlign(hint)
  }

  /** The request, rounded to pages and placed at the search start, stays below 4 GB. */
  predicate Fits(hint: Word, length: Word) {
    SearchStart(hint) + AlignUp(length) < WORD
  }

  /** Each kind of area has its own part of the address space. */
  ghost predicate Placed(a: Vma, brkStart: nat) {
    && (a.flags.growsDown <==> a.vmType == Stack)
    && match a.vmType
       case Code => a.start < a.end <= brkStart
       case Heap => a.start == brkStart && a.end <= MMAP_BASE
       case Mmap => MMAP_BASE <= a.start < a.end <= MMAP_END
       case Stack => USER_STACK_TOP - STACK_LIMIT <= a.start < a.end == USER_STACK_TOP
  }

  ghost predicate WellPlaced(areas: seq<Vma>, brkStart: nat) {
    && Aligned(areas) && SortedDisjoint(areas)
    && brkStart % PAGE_SIZE == 0 && brkStart <= MMAP_BASE
    && (forall i | 0 <= i < |areas| :: Placed(areas[i], brkStart))
    && (forall i, j | 0 <= i < j < |areas| :: areas[i].vmType != Heap || areas[j].vmType != Heap)
  }

  /** The areas other than the heap. */
  function WithoutHeap(areas: seq<Vma>): seq<Vma> {
    if areas == [] then []
    else (if areas[0].vmType == Heap then [] else [areas[0]]) + WithoutHeap(areas[1..])
  }

  lemma {:induction false} WithoutHeapConcat(a: seq<Vma>, b: seq<Vma>)
    ensures WithoutHeap(a + b) == WithoutHeap(a) + WithoutHeap(b)
  {
    if a == [] {
      assert a + b == b;
    } else {
      var first := if a[0].vmType == Heap then [] else [a[0]];
      WithoutHeapConcat(a[1..], b);
      calc {
        WithoutHeap(a + b);
        { assert (a + b)[0] == a[0] && (a + b)[1..] == a[1..] + b; }
        first + WithoutHeap(a[1..] + b);
        first + (WithoutHeap(a[1..]) + WithoutHeap(b));
        (first + WithoutHeap(a[1..])) + WithoutHeap(b);
        WithoutHeap(a) + WithoutHeap(b);
      }
    }
  }

  /** Replacing, at position i, a heap by another heap leaves the rest. */
  lemma ReplaceHeap(areas: seq<Vma>, i: nat, heap: Vma)
    requires i < |areas| && areas[i].vmType == Heap && heap.vmType == Heap
    ensures WithoutHeap(areas[i := heap]) == WithoutHeap(areas)
  {
    assert areas == areas[..i] + ([areas[i]] + areas[i + 1..]);
    assert areas[i := heap] == areas[..i] + ([heap] + areas[i + 1..]);
    WithoutHeapConcat(areas[..i], [areas[i]] + areas[i + 1..]);
    WithoutHeapConcat(areas[..i], [heap] + areas[i + 1..]);
  }

  lemma AddHeap(areas: seq<Vma>, i: nat, heap: Vma)
    requires i <= |areas| && heap.vmType == Heap
    ensures WithoutHeap(areas[..i] + [heap] + areas[i..]) == WithoutHeap(areas)
  {
    assert areas == areas[..i] + areas[i..];
    AddHeapBetween(areas[..i], areas[i..], heap);
  }

  lemma AddHeapBetween(a: seq<Vma>, b: seq<Vma>, heap: Vma)
    requires heap.vmType == Heap
    ensures WithoutHeap(a + [heap] + b) == WithoutHeap(a + b)
  {
    WithoutHeapConcat(a + [heap], b);
    WithoutHeapConcat(a, [heap]);
    JustHeap(heap);
    WithoutHeapConcat(a, b);
    assert WithoutHeap(a) + [] == WithoutHeap(a);
  }

  lemma JustHeap(heap: Vma)
    requires heap.vmType == Heap
    ensures WithoutHeap([heap]) == []
  {
    assert [heap][1..] == [];
  }

  /** The candidate of the search and its 32-bit sum, for a request of L bytes in whole pages. */
  lemma SumFacts(length: Word, candidate: nat)
    requires candidate <= MMAP_END
    ensures var L := AlignUp(length);
            var sum := (candidate + PageAlign(length)) % WORD;
            && (candidate + L < WORD ==> sum == candidate + L)
            && (candidate + L >= WORD ==> sum == candidate + L - WORD)
  {
    assert AlignUp(length) <= WORD;
  }

  /** A taken candidate and no gap below it: no gap below the next page either. */
  lemma NoGapBelow(areas: seq<Vma>, from: nat, length: nat, c: nat)
    requires c % PAGE_SIZE == 0
    requires !Free(areas, c, c + length)
    requires forall d: nat | d < c :: !Gap(areas, from, length, d)
    ensures forall d: nat | d < c + PAGE_SIZE :: !Gap(areas, from, length, d)
  {
    forall d: nat | d < c + PAGE_SIZE
      ensures !Gap(areas, from, length, d)
    {
      if d > c {
        assert d % PAGE_SIZE != 0;
      }
    }
  }

  /** No area reaches from below the end of the mmap region to above it. */
  lemma NothingAtMmapEnd(areas: seq<Vma>, brkStart: nat, end: nat)
    requires WellPlaced(areas, brkStart) && end <= MMAP_END
    ensures Free(areas, MMAP_END, end)
  {
    assert forall k | 0 <= k < |areas| :: Placed(areas[k], brkStart);
  }

  /** Where the search for a free region stands: as long as the sums do not wrap, there is no gap below the candidate. */
  ghost predicate Searching(areas: seq<Vma>, hint: Word, length: Word, candidate: nat) {
    var from, L := SearchStart(hint), AlignUp(length);
    && candidate % PAGE_SIZE == 0 && from <= candidate <= MMAP_END
    && (Fits(hint, length) ==> candidate == from || candidate + L <= MMAP_END + PAGE_SIZE)
    && (Fits(hint, length) ==> forall d: nat | d < candidate :: !Gap(areas, from, L, d))
  }

  lemma NextCandidate(areas: seq<Vma>, brkStart: nat, hint: Word, length: Word, candidate: nat)
    requires WellPlaced(areas, brkStart) && Searching(areas, hint, length, candidate)
    requires var end := (candidate + PageAlign(length)) % WORD; end <= MMAP_END && !Free(areas, candidate, end)
    ensures Searching(areas, hint, length, candidate + PAGE_SIZE)
  {
    SumFacts(length, candidate);
    NothingAtMmapEnd(areas, brkStart, (candidate + PageAlign(length)) % WORD);
    if Fits(hint, length) {
      NoGapBelow(areas, SearchStart(hint), AlignUp(length), candidate);
    }
  }

  lemma FoundRegion(areas: seq<Vma>, brkStart: nat, hint: Word, length: Word, candidate: nat)
    requires WellPlaced(areas, brkStart) && Searching(areas, hint, length, candidate)
    requires var end := (candidate + PageAlign(length)) % WORD; end <= MMAP_END && Free(areas, candidate, end)
    ensures LowestGap(areas, SearchStart(hint), AlignUp(length), candidate) <==> Fits(hint, length)
  {
    SumFacts(length, candidate);
  }

  lemma NoRegion(areas: seq<Vma>, hint: Word, length: Word, candidate: nat)
    requires Searching(areas, hint, length, candidate) && (candidate + PageAlign(length)) % WORD > MMAP_END
    ensures Fits(hint, length) && LowestGap(areas, SearchStart(hint), AlignUp(length), 0)
  {
    SumFacts(length, candidate);
  }

  lemma PageAlignExact(addr: Word)
    requires addr < MMAP_BASE
    ensures PageAlign(addr) == AlignUp(addr) <= MMAP_BASE
    ensures addr <= AlignUp(addr) && AlignUp(addr) % PAGE_SIZE == 0
  {
  }

  /** The list with one more area. */
  lemma WithOneMore(areas: seq<Vma>, a: Vma, i: nat)
    requires i <= |areas|
    ensures var after := areas[..i] + [a] + areas[i..];
            && |after| == |areas| + 1 && after[i] == a
            && (forall k | 0 <= k < i :: after[k] == areas[k]) && (forall k | i < k < |after| :: after[k] == areas[k - 1])
  {
  }

  /** A new area in its place, where no other is, keeps the list well placed. */
  lemma InsertedPlaced(areas: seq<Vma>, brkStart: nat, a: Vma, i: nat)
    requires WellPlaced(areas, brkStart) && Placed(a, brkStart) && Aligned([a]) && InsertionPoint(areas, a.start, i)
    requires forall k | 0 <= k < |areas| :: areas[k].end <= a.start || a.end <= areas[k].start
    requires forall k | 0 <= k < i :: areas[k].end <= a.start
    requires a.vmType == Heap ==> forall k | 0 <= k < |areas| :: areas[k].vmType != Heap
    ensures WellPlaced(areas[..i] + [a] + areas[i..], brkStart)
  {
    var after := areas[..i] + [a] + areas[i..];
    WithOneMore(areas, a, i);
    InsertKeepsOrder(areas, a, i);
    forall k | 0 <= k < |after|
      ensures Placed(after[k], brkStart)
    {
    }
  }

  /** A first heap goes above the code and below the mmap region. */
  lemma HeapCreated(areas: seq<Vma>, brkStart: nat, heap: Vma, i: nat)
    requires WellPlaced(areas, brkStart) && Placed(heap, brkStart) && heap.vmType == Heap && Aligned([heap])
    requires brkStart < MMAP_BASE
    requires forall k | 0 <= k < |areas| :: areas[k].vmType != Heap
    requires InsertionPoint(areas, brkStart, i)
    ensures WellPlaced(areas[..i] + [heap] + areas[i..], brkStart)
    ensures WithoutHeap(areas[..i] + [heap] + areas[i..]) == WithoutHeap(areas)
    ensures (areas[..i] + [heap] + areas[i..])[i] == heap
  {
    forall k | 0 <= k < |areas|
      ensures areas[k].end <= brkStart || heap.end <= areas[k].start
      ensures k < i ==> areas[k].end <= brkStart
    {
      assert Placed(areas[k], brkStart);
    }
    InsertedPlaced(areas, brkStart, heap, i);
    AddHeap(areas, i, heap);
  }

  /** Growing the heap within its range runs into no other area. */
  lemma HeapExpanded(areas: seq<Vma>, brkStart: nat, h: nat, newEnd: Word)
    requires WellPlaced(areas, brkStart) && h < |areas| && areas[h].vmType == Heap
    requires areas[h].end <= newEnd <= MMAP_BASE && newEnd % PAGE_SIZE == 0
    ensures WellPlaced(areas[h := areas[h].(end := newEnd)], brkStart)
    ensures WithoutHeap(areas[h := areas[h].(end := newEnd)]) == WithoutHeap(areas)
  {
    ReplaceHeap(areas, h, areas[h].(end := newEnd));
    forall j | h < j < |areas|
      ensures newEnd <= areas[j].start
    {
      assert Placed(areas[j], brkStart) && Placed(areas[h], brkStart) && areas[h].end <= areas[j].start;
    }
  }

  /** The flags of the heap; a new one is readable and writable. */
  function HeapFlags(areas: seq<Vma>): (flags: VmFlags)
    ensures (exists k :: 0 <= k < |areas| && areas[k].vmType == Heap && areas[k].flags == flags)
            || (flags == VmFlags(true, true, false, false, false) && forall k | 0 <= k < |areas| :: areas[k].vmType != Heap)
  {
    if areas == [] then VmFlags(true, true, false, false, false)
    else if areas[0].vmType == Heap then areas[0].flags
    else HeapFlags(areas[1..])
  }

  ghost predicate HeapIs(areas: seq<Vma>, start: nat, end: nat, flags: VmFlags) {
    exists k :: 0 <= k < |areas| && areas[k].vmType == Heap && areas[k].start == start && areas[k].end == end && areas[k].flags == flags
  }

  /** When sys_brk turns a request down: outside the heap's range, over the limit, out of kernel memory
      for a first heap, or below the page the heap already ends on. */
  ghost predicate BrkRefused(areas: seq<Vma>, brkStart: nat, limit: Limit, addr: Word, memory: bool) {
    || addr < brkStart || addr >= MMAP_BASE
    || (limit.AtMost? && (addr - USER_TEXT_START) % WORD > limit.bytes)
    || !HeapFits(areas, AlignUp(addr), memory)
  }

  /** The heap does not shrink, or there is memory for a first one. */
  ghost predicate HeapFits(areas: seq<Vma>, end: nat, memory: bool) {
    && (forall k | 0 <= k < |areas| && areas[k].vmType == Heap :: areas[k].end <= end)
    && (memory || exists k :: 0 <= k < |areas| && areas[k].vmType == Heap)
  }

  /** There is one heap, with its own bounds and flags. */
  lemma OneHeap(areas: seq<Vma>, brkStart: nat, h: nat, end: nat, memory: bool)
    requires WellPlaced(areas, brkStart) && h < |areas| && areas[h].vmType == Heap
    ensures HeapFits(areas, end, memory) <==> areas[h].end <= end
    ensures HeapFlags(areas) == areas[h].flags
  {
  }

  /** after is before with one area put where vma_insert puts it. */
  ghost predicate Inserted(before: seq<Vma>, after: seq<Vma>, a: Vma) {
    exists i: nat :: InsertionPoint(before, a.start, i) && after == before[..i] + [a] + before[i..]
  }

  /** after is before with a mapping of length bytes, rounded to pages, at c; of a request that wraps, what Create makes. */
  ghost predicate Added(before: seq<Vma>, after: seq<Vma>, c: Word, length: Word, hint: Word, flags: VmFlags) {
    if Fits(hint, length) then c + AlignUp(length) < WORD && Inserted(before, after, Vma(c, c + AlignUp(length), flags, Mmap))
    else Inserted(before, after, Create(c, (c + length) % WORD, flags, Mmap))
  }

  /** The page range of a munmap call. */
  function UnmapRange(addr: Word, length: Word): (Word, Word) {
    (AlignDown(addr), AlignDown((addr + length + PAGE_SIZE - 1) % WORD))
  }

  /** It goes from the page of the first byte to the next page boundary after the last, which may wrap. */
  lemma UnmapRangeIs(addr: Word, length: Word)
    ensures var (start, end) := UnmapRange(addr, length);
            && start % PAGE_SIZE == 0 && start <= addr < start + PAGE_SIZE
            && end % PAGE_SIZE == 0 && (end - addr - length) % WORD < PAGE_SIZE
  {
    var sum := (addr + length + PAGE_SIZE - 1) % WORD;
    assert (AlignDown(sum) - addr - length) % WORD == PAGE_SIZE - 1 - sum % PAGE_SIZE;
  }

  /** The areas after a fault at addr: only a stack that is last, and only within 8 MB of the top, grows. */
  function Grown(areas: seq<Vma>, addr: Word): seq<Vma> {
    var n := |areas| - 1;
    if n >= 0 && areas[n].vmType == Stack && USER_STACK_TOP - STACK_LIMIT <= addr < areas[n].start
    then areas[n := areas[n].(start := AlignDown(addr))]
    else areas
  }

  /** Some area contains the address and permits the access. */
  ghost predicate Allowed(areas: seq<Vma>, addr: nat, write: bool) {
    exists k :: 0 <= k < |areas| && Contains(areas[k], addr) && if write then areas[k].flags.write else areas[k].flags.read
  }

  lemma MappingBounds(c: Word, length: Word)
    requires c % PAGE_SIZE == 0 && length != 0 && c + AlignUp(length) < WORD
    ensures AlignDown(c) == c && PageAlign((c + length) % WORD) == c + AlignUp(length) > c
    ensures (c + AlignUp(length)) % PAGE_SIZE == 0
  {
    assert length <= AlignUp(length);
    assert AlignUp(c + length) == c + AlignUp(length);
  }

  /** A mapping in a gap of the mmap region keeps the layout. */
  lemma MappingPlaced(areas: seq<Vma>, brkStart: nat, a: Vma, c: Word, length: Word, i: nat)
    requires WellPlaced(areas, brkStart) && length != 0
    requires c >= MMAP_BASE && Gap(areas, c, AlignUp(length), c)
    requires a.vmType == Mmap && !a.flags.growsDown && a.start == AlignDown(c) && a.end == PageAlign((c + length) % WORD)
    requires InsertionPoint(areas, a.start, i)
    ensures a.start == c && a.end == c + AlignUp(length)
    ensures WellPlaced(areas[..i] + [a] + areas[i..], brkStart)
  {
    MappingBounds(c, length);
    assert [a][0] == a;
    forall k | 0 <= k < |areas|
      ensures areas[k].end <= c || a.end <= areas[k].start
      ensures k < i ==> areas[k].end <= c
    {
      assert !Overlaps(areas[k], c, a.end) && Placed(areas[k], brkStart);
    }
    InsertedPlaced(areas, brkStart, a, i);
  }

  /** When the 32-bit sum wraps the area created ends at or before its start. */
  lemma WrappedMapping(c: Word, length: Word, a: Vma)
    requires c % PAGE_SIZE == 0 && c <= MMAP_END && c + AlignUp(length) >= WORD
    requires a.start == AlignDown(c) && a.end == PageAlign((c + length) % WORD)
    ensures a.end <= a.start
  {
    if c + length < WORD {
      assert AlignUp(c + length) == c + AlignUp(length);
    } else {
      var rest := c + length - WORD;
      assert (c + length) % WORD == rest && rest < c;
      AlignUpBelow(rest, c);
    }
  }

  /** Rounding up does not pass a page boundary. */
  lemma AlignUpBelow(a: nat, c: nat)
    requires a <= c && c % PAGE_SIZE == 0
    ensures AlignUp(a) <= c
  {
    assert AlignUp(a) % PAGE_SIZE == 0 && AlignUp(a) < a + PAGE_SIZE;
  }

  /** A wrapped area spoils the list. */
  lemma NotAligned(areas: seq<Vma>, i: nat)
    requires i < |areas| && areas[i].end <= areas[i].start && areas[i].vmType == Mmap
    ensures forall brkStart: nat :: !WellPlaced(areas, brkStart)
  {
    forall brkStart: nat
      ensures !WellPlaced(areas, brkStart)
    {
      assert !Placed(areas[i], brkStart);
    }
  }

  /** No other area overlaps one of the list. */
  lemma OthersAreApart(areas: seq<Vma>, brkStart: nat, k: nat)
    requires WellPlaced(areas, brkStart) && k < |areas|
    ensures Free(areas[..k] + areas[k + 1..], areas[k].start, areas[k].end)
  {
    var rest := areas[..k] + areas[k + 1..];
    forall n | 0 <= n < |rest|
      ensures !Overlaps(rest[n], areas[k].start, areas[k].end)
    {
      assert rest[n] == areas[if n < k then n else n + 1];
    }
  }

  /** A range that overlaps an area with other bounds is not the range of any area. */
  lemma OverlapIsNotExact(areas: seq<Vma>, brkStart: nat, k: nat, start: nat, end: nat)
    requires WellPlaced(areas, brkStart) && k < |areas| && Overlaps(areas[k], start, end)
    requires areas[k].start != start || areas[k].end != end
    ensures !Free(areas, start, end) && forall n | 0 <= n < |areas| :: !(areas[n].start == start < end == areas[n].end)
  {
  }

  lemma RemovedOne(areas: seq<Vma>, brkStart: nat, k: nat)
    requires WellPlaced(areas, brkStart) && k < |areas|
    ensures WellPlaced(areas[..k] + areas[k + 1..], brkStart)
  {
    var after := areas[..k] + areas[k + 1..];
    assert forall n | 0 <= n < |after| :: after[n] == if n < k then areas[n] else areas[n + 1];
  }

  /** A stack is the last area. */
  lemma StackIsLast(areas: seq<Vma>, brkStart: nat)
    requires WellPlaced(areas, brkStart)
    ensures forall i | 0 <= i < |areas| - 1 :: areas[i].vmType != Stack
  {
    forall i | 0 <= i < |areas| - 1
      ensures areas[i].vmType != Stack
    {
      assert Placed(areas[i], brkStart);
      assert Placed(areas[i + 1], brkStart);
      assert areas[i].end <= areas[i + 1].start;
    }
  }

  /** Everything but the stack lies below where a stack can grow to. */
  lemma OthersAreBelow(areas: seq<Vma>, brkStart: nat)
    requires WellPlaced(areas, brkStart)
    ensures forall k | 0 <= k < |areas| - 1 :: areas[k].end <= USER_STACK_TOP - STACK_LIMIT
  {
    StackIsLast(areas, brkStart);
    forall k | 0 <= k < |areas| - 1
      ensures areas[k].end <= USER_STACK_TOP - STACK_LIMIT
    {
      assert Placed(areas[k], brkStart);
    }
  }

  /** The 8 MB limit keeps a grown stack above the mmap region, so it runs into nothing. */
  lemma GrownIsPlaced(areas: seq<Vma>, brkStart: nat, addr: Word)
    requires WellPlaced(areas, brkStart)
    ensures WellPlaced(Grown(areas, addr), brkStart)
  {
    var n := |areas| - 1;
    if n >= 0 && areas[n].vmType == Stack && USER_STACK_TOP - STACK_LIMIT <= addr < areas[n].start {
      assert AlignDown(addr) >= USER_STACK_TOP - STACK_LIMIT;
      OthersAreBelow(areas, brkStart);
    }
  }

  lemma FindMisses(areas: seq<Vma>, brkStart: nat, addr: Word)
    requires WellPlaced(areas, brkStart)
    requires forall k | 0 <= k < |areas| :: !Answers(areas[k], addr)
    ensures Grown(areas, addr) == areas && forall write :: !Allowed(areas, addr, write)
  {
    var n := |areas| - 1;
    if n >= 0 && areas[n].vmType == Stack {
      assert Placed(areas[n], brkStart) && !Answers(areas[n], addr);
    }
    forall k | 0 <= k < |areas|
      ensures !Contains(areas[k], addr)
    {
      assert !Answers(areas[k], addr);
    }
  }

  /** The area vma_find returns contains the address, or is the stack and no area contains it. */
  lemma FindHits(areas: seq<Vma>, brkStart: nat, addr: Word, i: nat)
    requires WellPlaced(areas, brkStart)
    requires i < |areas| && Answers(areas[i], addr) && forall k | 0 <= k < i :: !Answers(areas[k], addr)
    ensures Contains(areas[i], addr) || (areas[i].vmType == Stack && addr < areas[i].start && i == |areas| - 1)
    ensures Contains(areas[i], addr) ==> Grown(areas, addr) == areas
    ensures !Contains(areas[i], addr) ==> forall k | 0 <= k < |areas| :: !Contains(areas[k], addr)
  {
    assert Placed(areas[i], brkStart);
    StackIsLast(areas, brkStart);
    if !Contains(areas[i], addr) {
      forall k | 0 <= k < |areas|
        ensures !Contains(areas[k], addr)
      {
        FindIsContaining(areas, addr, i, k);
      }
    } else {
      var n := |areas| - 1;
      assert Placed(areas[n], brkStart);
    }
  }

  /** With at most one area containing the address, that area alone decides the access. */
  lemma AllowedIn(areas: seq<Vma>, addr: nat, write: bool, i: nat)
    requires Aligned(areas) && SortedDisjoint(areas) && i < |areas| && Contains(areas[i], addr)
    ensures Allowed(areas, addr, write) <==> if write then areas[i].flags.write else areas[i].flags.read
  {
    forall k | 0 <= k < |areas| && Contains(areas[k], addr)
      ensures k == i
    {
    }
  }

  class MmStruct {
    const vmas: VmaList
    var brkStart: Word
    var brkEnd: Word
    var limit: Limit

    ghost predicate Valid()
      reads this, vmas
    {
      WellPlaced(vmas.areas, brkStart)
    }

    /** The state exec and spawn leave: the code areas below brkStart and the 1 MB stack. */
    constructor (vmas: VmaList, brkStart: Word, limit: Limit)
      requires WellPlaced(vmas.areas, brkStart)
      ensures Valid() && this.vmas == vmas && this.brkStart == brkStart && brkEnd == brkStart && this.limit == limit
    {
      this.vmas := vmas;
      this.brkStart := brkStart;
      this.brkEnd := brkStart;
      this.limit := limit;
    }

    ghost predicate HasHeap(h: int)
      reads vmas
    {
      0 <= h < |vmas.areas| && vmas.areas[h].vmType == Heap
    }

    method FindHeap() returns (h: int)
      ensures h == -1 ==> forall k | 0 <= k < |vmas.areas| :: vmas.areas[k].vmType != Heap
      ensures h != -1 ==> HasHeap(h)
    {
      for k := 0 to |vmas.areas|
        invariant forall n | 0 <= n < k :: vmas.areas[n].vmType != Heap
      {
        if vmas.areas[k].vmType == Heap {
          return k;
        }
      }
      return -1;
    }

    /** The first heap. */
    method CreateHeap(addr: Word)
      requires Valid() && brkStart <= addr < MMAP_BASE && forall k | 0 <= k < |vmas.areas| :: vmas.areas[k].vmType != Heap
      modifies vmas
      ensures Valid() && WithoutHeap(vmas.areas) == WithoutHeap(old(vmas.areas))
      ensures HeapIs(vmas.areas, brkStart, AlignUp(addr), VmFlags(true, true, false, false, false))
    {
      PageAlignExact(addr);
      var vma := Create(brkStart, addr, VmFlags(true, true, false, false, false), Heap);
      ghost var i := vmas.Insert(vma);
      assert [vma][0] == vma;
      HeapCreated(old(vmas.areas), brkStart, vma, i);
      assert HasHeap(i) && vmas.areas[i] == vma;
    }

    /** vma_expand for an area that grows upwards. */
    method ExpandHeap(h: nat, newEnd: Word)
      requires Valid() && HasHeap(h) && vmas.areas[h].end <= newEnd <= MMAP_BASE && newEnd % PAGE_SIZE == 0
      modifies vmas
      ensures Valid() && WithoutHeap(vmas.areas) == WithoutHeap(old(vmas.areas))
      ensures HeapIs(vmas.areas, brkStart, newEnd, old(vmas.areas[h].flags))
    {
      HeapExpanded(vmas.areas, brkStart, h, newEnd);
      vmas.areas := vmas.areas[h := vmas.areas[h].(end := newEnd)];
      assert HasHeap(h) && Placed(vmas.areas[h], brkStart);
    }

    /** The heap up to addr, unless it would shrink or there is no memory for a first one. */
    method SetHeap(addr: Word, memory: bool) returns (ok: bool)
      requires Valid() && brkStart <= addr < MMAP_BASE
      modifies vmas
      ensures Valid()
      ensures ok <==> HeapFits(old(vmas.areas), AlignUp(addr), memory)
      ensures if ok then WithoutHeap(vmas.areas) == WithoutHeap(old(vmas.areas)) && HeapIs(vmas.areas, brkStart, AlignUp(addr), HeapFlags(old(vmas.areas)))
              else vmas.areas == old(vmas.areas)
    {
      PageAlignExact(addr);
      var h := FindHeap();
      if h == -1 {
        ok := memory;
        if memory {
          CreateHeap(addr);
        }
      } else {
        ok := PageAlign(addr) >= vmas.areas[h].end;
        OneHeap(vmas.areas, brkStart, h, PageAlign(addr), memory);
        if ok {
          ExpandHeap(h, PageAlign(addr));
        }
      }
    }

    /** sys_brk: on success the heap is exactly [brkStart, addr) rounded up and no other area changed;
        otherwise nothing changed. memory says whether kalloc succeeds. */
    method Brk(addr: Word, memory: bool) returns (r: Result)
      requires Valid()
      modifies this`brkEnd, vmas
      ensures Valid()
      ensures addr == 0 ==> r == Ok(brkEnd)
      ensures addr != 0 ==> r == if BrkRefused(old(vmas.areas), brkStart, limit, addr, memory) then Err(ENOMEM) else Ok(addr)
      ensures addr != 0 ==> (r.Ok? <==> brkStart <= addr < MMAP_BASE && (limit.AtMost? ==> (addr - USER_TEXT_START) % WORD <= limit.bytes)
                                         && HeapFits(old(vmas.areas), AlignUp(addr), memory))
      ensures addr == 0 || r.Err? ==> brkEnd == old(brkEnd) && vmas.areas == old(vmas.areas)
      ensures addr != 0 && r.Ok? ==> brkEnd == addr && WithoutHeap(vmas.areas) == WithoutHeap(old(vmas.areas))
      ensures addr != 0 && r.Ok? ==> HeapIs(vmas.areas, brkStart, AlignUp(addr), HeapFlags(old(vmas.areas)))
    {
      if addr == 0 {
        return Ok(brkEnd);
      }
      if addr < brkStart {
        return Err(ENOMEM);
      }
      if addr >= MMAP_BASE {
        return Err(ENOMEM);
      }
      if limit.AtMost? && (addr - USER_TEXT_START) % WORD > limit.bytes {
        return Err(ENOMEM);
      }
      var ok := SetHeap(addr, memory);
      if !ok {
        return Err(ENOMEM);
      }
      brkEnd := addr;
      return Ok(addr);
    }

    /** vma_find_free_region. The result is the lowest gap exactly when the request fits below 4 GB
        from the search start; when it does not, the 32-bit sum wraps and a non-gap is returned. */
    method FindFreeRegion(length: Word, hint: Word) returns (r: Word)
      requires Valid()
      ensures LowestGap(vmas.areas, SearchStart(hint), AlignUp(length), r) <==> Fits(hint, length)
      ensures !Fits(hint, length) ==> SearchStart(hint) <= r <= MMAP_END && r % PAGE_SIZE == 0
    {
      var len := PageAlign(length);
      var searchStart := if hint != 0 then PageAlign(hint) else MMAP_BASE;
      if hint != 0 && (hint < MMAP_BASE || hint >= MMAP_END) {
        searchStart := MMAP_BASE;
      }
      var candidate := searchStart;
      while (candidate + len) % WORD <= MMAP_END
        invariant Searching(vmas.areas, hint, length, candidate)
        decreases MMAP_END - candidate
      {
        var taken := vmas.OverlapsAny(candidate, (candidate + len) % WORD);
        if !taken {
          FoundRegion(vmas.areas, brkStart, hint, length, candidate);
          return candidate;
        }
        NextCandidate(vmas.areas, brkStart, hint, length, candidate);
        candidate := candidate + PAGE_SIZE;
      }
      NoRegion(vmas.areas, hint, length, candidate);
      return 0;
    }

    /** sys_mmap. The list stays well placed exactly when the call fails or the request fits below 4 GB. */
    method Map(hint: Word, length: Word, flags: VmFlags, anonymous: bool, fdOpen: bool, memory: bool) returns (r: Result)
      requires Valid() && !flags.growsDown
      modifies vmas
      ensures length == 0 ==> r == Err(EINVAL)
      ensures length != 0 && !anonymous && !fdOpen ==> r == Err(EBADF)
      ensures length != 0 && (anonymous || fdOpen) && r.Err? ==>
                r == Err(ENOMEM) && (memory ==> Fits(hint, length) && LowestGap(old(vmas.areas), SearchStart(hint), AlignUp(length), 0))
      ensures r.Err? ==> vmas.areas == old(vmas.areas)
      ensures r.Ok? ==> r.addr != 0 && Added(old(vmas.areas), vmas.areas, r.addr, length, hint, flags)
      ensures r.Ok? && Fits(hint, length) ==> LowestGap(old(vmas.areas), SearchStart(hint), AlignUp(length), r.addr)
      ensures Valid() <==> r.Err? || Fits(hint, length)
    {
      if length == 0 {
        return Err(EINVAL);
      }
      if !anonymous && !fdOpen {
        return Err(EBADF);
      }
      var mapAddr := FindFreeRegion(length, hint);
      if mapAddr == 0 {
        return Err(ENOMEM);
      }
      if !memory {
        return Err(ENOMEM);
      }
      AddMapping(mapAddr, length, hint, flags);
      return Ok(mapAddr);
    }

    /** vma_create and vma_insert for a mapping at the region found. */
    method AddMapping(mapAddr: Word, length: Word, ghost hint: Word, flags: VmFlags)
      requires Valid() && !flags.growsDown && length != 0 && mapAddr != 0
      requires LowestGap(vmas.areas, SearchStart(hint), AlignUp(length), mapAddr) <==> Fits(hint, length)
      requires !Fits(hint, length) ==> SearchStart(hint) <= mapAddr <= MMAP_END && mapAddr % PAGE_SIZE == 0
      modifies vmas
      ensures Added(old(vmas.areas), vmas.areas, mapAddr, length, hint, flags)
      ensures Valid() <==> Fits(hint, length)
    {
      var vma := Create(mapAddr, (mapAddr + length) % WORD, flags, Mmap);
      ghost var i := vmas.Insert(vma);
      assert Inserted(old(vmas.areas), vmas.areas, vma);
      if Fits(hint, length) {
        MappingPlaced(old(vmas.areas), brkStart, vma, mapAddr, length, i);
      } else {
        WrappedMapping(mapAddr, length, vma);
        NotAligned(vmas.areas, i);
      }
    }

    /** sys_munmap: removes the one area with exactly these bounds, or changes nothing; a partial overlap is refused. */
    method Unmap(addr: Word, length: Word) returns (r: Result)
      requires Valid()
      modifies vmas
      ensures Valid()
      ensures var (start, end) := UnmapRange(addr, length);
              var was := old(vmas.areas);
              if exists k :: 0 <= k < |was| && was[k].start == start < end == was[k].end then
                r.Ok? && exists k :: 0 <= k < |was| && was[k].start == start < end == was[k].end && vmas.areas == was[..k] + was[k + 1..]
              else
                vmas.areas == was && (r.Ok? <==> Free(was, start, end))
      ensures r.Err? ==> r == Err(EINVAL)
    {
      var (start, end) := UnmapRange(addr, length);
      var ok := RemoveExact(start, end);
      r := if ok then Ok(addr) else Err(EINVAL);
    }

    /** The loop of sys_munmap. */
    method RemoveExact(start: Word, end: Word) returns (ok: bool)
      requires Valid()
      modifies vmas
      ensures Valid()
      ensures var was := old(vmas.areas);
              if exists k :: 0 <= k < |was| && was[k].start == start < end == was[k].end then
                ok && exists k :: 0 <= k < |was| && was[k].start == start < end == was[k].end && vmas.areas == was[..k] + was[k + 1..]
              else
                vmas.areas == was && (ok <==> Free(was, start, end))
    {
      var pos := 0;
      ghost var was := vmas.areas;
      ghost var removed := -1;
      while pos < |vmas.areas|
        invariant 0 <= pos <= |vmas.areas|
        invariant removed == -1 ==> vmas.areas == was && forall n | 0 <= n < pos :: !Overlaps(was[n], start, end)
        invariant removed != -1 ==> 0 <= removed < |was| && vmas.areas == was[..removed] + was[removed + 1..]
        invariant removed != -1 ==> was[removed].start == start < end == was[removed].end
        invariant removed != -1 ==> Free(vmas.areas, start, end)
        decreases |vmas.areas| - pos
      {
        var a := vmas.areas[pos];
        if start < a.end && end > a.start {
          if start == a.start && end == a.end {
            OthersAreApart(was, brkStart, pos);
            removed := pos;
            vmas.areas := vmas.areas[..pos] + vmas.areas[pos + 1..];
          } else {
            OverlapIsNotExact(was, brkStart, pos, start, end);
            return false;
          }
        } else {
          pos := pos + 1;
        }
      }
      if removed != -1 {
        RemovedOne(was, brkStart, removed);
      }
      ok := true;
    }

    /** page_fault_handler for a user fault: the stack may grow down to 8 MB, and the page is then
        mapped if the area that contains the address allows the access. */
    method Fault(addr: Word, write: bool, protection: bool, memory: bool) returns (outcome: FaultOutcome)
      requires Valid()
      modifies vmas
      ensures Valid()
      ensures var was, n := old(vmas.areas), |old(vmas.areas)| - 1;
              if n >= 0 && was[n].vmType == Stack && USER_STACK_TOP - STACK_LIMIT <= addr < was[n].start then
                && vmas.areas == was[..n] + [Vma(AlignDown(addr), was[n].end, was[n].flags, Stack)]
                && (outcome == Resolved <==> !protection && memory && if write then was[n].flags.write else was[n].flags.read)
              else
                && vmas.areas == was
                && (outcome == Resolved <==> !protection && memory && Allowed(was, addr, write))
    {
      GrownIsPlaced(vmas.areas, brkStart, addr);
      var i := vmas.Find(addr);
      if i == -1 {
        FindMisses(vmas.areas, brkStart, addr);
        return Killed;
      }
      FindHits(vmas.areas, brkStart, addr, i);
      var vma := vmas.areas[i];
      if vma.flags.growsDown && addr < vma.start {
        var newStart := AlignDown(addr);
        if vma.end - newStart > STACK_LIMIT {
          return Killed;
        }
        vmas.areas := vmas.areas[i := vma.(start := newStart)];
        vma := vmas.areas[i];
      }
      assert vmas.areas == Grown(old(vmas.areas), addr);
      AllowedIn(vmas.areas, addr, write, i);
      if (write && !vma.flags.write) || (!write && !vma.flags.read) {
        return Killed;
      }
      if protection {
        return Killed;
      }
      if !memory {
        return Killed;
      }
      return Resolved;
    }
  }
}
