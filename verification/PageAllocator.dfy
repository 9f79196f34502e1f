/** The bitmap of 32-bit words under the page allocator (mm/buddy.c). */
module PageBitmap {
  /** Maximum pages tracked: 1 GB in 4 KB pages. */
  const MAX_PAGES := 262144

  /** A 32-bit word as its bits, bit 0 first: w[b := true] is w | (1 << b), w[b := false] is w & ~(1 << b). */
  type Bits32 = w: seq<bool> | |w| == 32 witness ZERO_WORD

  const ZERO_WORD: seq<bool> := seq(32, _ => false)

  class Bitmap {
    const words: array<Bits32>
    /** The pages whose bit is set. */
    ghost var marked: set<nat>

    predicate Has(page: nat)
      requires page < MAX_PAGES && words.Length == MAX_PAGES / 32
      reads words
    {
      words[page / 32][page % 32]
    }

    ghost predicate Valid()
      reads this, words
    {
      && words.Length == MAX_PAGES / 32
      && (forall i | i in marked :: i < MAX_PAGES)
      && (forall i: nat {:trigger Has(i)} | i < MAX_PAGES :: Has(i) <==> i in marked)
    }

    /** All pages free. */
    constructor ()
      ensures Valid() && fresh(words) && marked == {}
    {
      words := new Bits32[MAX_PAGES / 32];
      new;
      for i := 0 to MAX_PAGES / 32
        invariant forall k | 0 <= k < i :: words[k] == ZERO_WORD
      {
        words[i] := ZERO_WORD;
      }
      marked := {};
    }

    /** bitmap_test */
    method Test(page: nat) returns (b: bool)
      requires Valid() && page < MAX_PAGES
      ensures b <==> page in marked
    {
      b := words[page / 32][page % 32];
      assert b <==> Has(page);
    }

    /** bitmap_set */
    method Set(page: nat)
      requires Valid() && page < MAX_PAGES
      modifies this, words
      ensures Valid() && marked == old(marked) + {page}
    {
      words[page / 32] := words[page / 32][page % 32 := true];
      marked := marked + {page};
      forall i: nat | i < MAX_PAGES
        ensures Has(i) <==> i in marked
      {
        assert old(Has(i)) <==> i in old(marked);
      }
    }

    /** bitmap_clear */
    method Clear(page: nat)
      requires Valid() && page < MAX_PAGES
      modifies this, words
      ensures Valid() && marked == old(marked) - {page}
    {
      words[page / 32] := words[page / 32][page % 32 := false];
      marked := marked - {page};
      forall i: nat | i < MAX_PAGES
        ensures Has(i) <==> i in marked
      {
        assert old(Has(i)) <==> i in old(marked);
      }
    }
  }
}

/** First-fit allocation and freeing of physical pages (mm/buddy.c). */
module PageAllocator {
  import opened Layout
  import opened PageBitmap

  /** The pages start, start + 1, ..., start + count - 1. */
  function Run(start: nat, count: nat): set<nat> {
    set i: nat {:trigger Id(i)} | start <= i < start + count && Id(i)
  }

  /** Always true; gives the quantifiers over plain integers a trigger. */
  predicate Id(i: int) { true }

  /** A block of count pages inside the managed range of which none is in use. */
  predicate FreeRun(used: set<nat>, total: nat, start: nat, count: nat) {
    start + count <= total && forall i: nat | start <= i < start + count :: i !in used
  }

  /** The outcome of first fit: the lowest free run, or -1 when there is none at all. */
  ghost predicate FirstFit(used: set<nat>, total: nat, count: nat, start: int) {
    if start < 0 then forall s: nat :: !FreeRun(used, total, s, count)
    else FreeRun(used, total, start, count) && forall s: nat | s < start :: !FreeRun(used, total, s, count)
  }

  /** Pages for a request: the 32-bit addition wraps for sizes within a page of 4 GB. */
  function PagesNeeded(size: Word): (n: nat)
    ensures if size <= WORD - PAGE_SIZE then (n - 1) * PAGE_SIZE < size <= n * PAGE_SIZE else n == 0
  {
    (size + PAGE_SIZE - 1) % WORD / PAGE_SIZE
  }

  lemma {:induction false} RunSize(start: nat, count: nat)
    ensures |Run(start, count)| == count
  {
    if count > 0 {
      RunSize(start, count - 1);
      var last := start + count - 1;
      assert Id(last);
      assert Run(start, count) == Run(start, count - 1) + {last};
    }
  }

  /** Pages below total that are used number at most total. */
  lemma UsedIsBounded(used: set<nat>, total: nat)
    requires forall i | i in used :: i < total
    ensures |used| <= total
  {
    RunSize(0, total);
    assert forall i | i in used :: Id(i);
    assert used <= Run(0, total);
    var rest := Run(0, total) - used;
    assert Run(0, total) == used + rest;
  }

  /** A free run never holds more pages than are free. */
  lemma FreeRunIsCounted(used: set<nat>, total: nat, start: nat, count: nat)
    requires forall i | i in used :: i < total
    requires FreeRun(used, total, start, count)
    ensures used !! Run(start, count)
    ensures |used + Run(start, count)| == |used| + count <= total
  {
    RunSize(start, count);
    UsedIsBounded(used + Run(start, count), total);
  }

  function Capped(pages: nat): nat {
    if pages > MAX_PAGES then MAX_PAGES else pages
  }

  /** How much memory the kernel maps directly at most. */
  const DIRECT_MAP_LIMIT := 896 * 1024 * 1024

  /** The size in KB that the boot code passes on: the directly mapped memory behind the first free page. */
  function BootKb(mapped: nat, firstFree: nat): nat
    requires firstFree <= mapped
  {
    (mapped - firstFree) / 1024
  }

  /** At boot, with the kernel inside the direct map, the pages lie in the direct map and their number is not cut. */
  lemma BootIsInDirectMap(mapped: nat, firstFree: nat)
    requires 0 < firstFree <= mapped <= DIRECT_MAP_LIMIT
    ensures var pages := BootKb(mapped, firstFree) * 1024 % WORD / PAGE_SIZE;
            && Capped(pages) == pages && firstFree + Capped(pages) * PAGE_SIZE <= mapped <= WORD - KERNEL_VMA
  {
  }

  /** A size of 1 GB is not cut, and one more page is; neither fits behind 4 MB into the direct map. */
  lemma GigabyteDoesNotFit()
    ensures Capped(0x10_0000 * 1024 % WORD / PAGE_SIZE) == MAX_PAGES && Capped(0x10_0004 * 1024 % WORD / PAGE_SIZE) == MAX_PAGES
    ensures 0x10_0004 * 1024 % WORD / PAGE_SIZE > MAX_PAGES && 0x40_0000 + MAX_PAGES * PAGE_SIZE > WORD - KERNEL_VMA
  {
  }

  class PageAllocator {
    const basePhys: nat
    const totalPages: nat
    var freePages: nat
    const bitmap: Bitmap

    ghost predicate Valid()
      reads this, bitmap, bitmap.words
    {
      && bitmap.Valid()
      && totalPages <= MAX_PAGES
      && 0 < basePhys && basePhys % PAGE_SIZE == 0
      && basePhys + totalPages * PAGE_SIZE <= WORD - KERNEL_VMA
      && (forall i | i in Used() :: i < totalPages)
      && freePages == totalPages - |Used()|
    }

    /** The pages that are allocated. */
    ghost function Used(): set<nat>
      reads bitmap
    {
      bitmap.marked
    }

    /** The page whose physical or direct-mapped address is given, or -1 if it is not managed here. */
    function PageOf(addr: Word): (page: int)
      ensures var phys := if addr >= KERNEL_VMA then addr - KERNEL_VMA else addr;
              if basePhys <= phys < basePhys + totalPages * PAGE_SIZE
              then 0 <= page < totalPages && basePhys + page * PAGE_SIZE <= phys < basePhys + (page + 1) * PAGE_SIZE
              else page == -1
    {
      var phys := if addr >= KERNEL_VMA then addr - KERNEL_VMA else addr;
      if phys < basePhys then -1
      else
        var page := (phys - basePhys) / PAGE_SIZE;
        if page >= totalPages then -1 else page
    }

    /** The direct-mapped address of a page. */
    function VirtOf(page: nat): nat {
      basePhys + page * PAGE_SIZE + KERNEL_VMA
    }

    /** buddy_init, on 32-bit words: the allocator is sound exactly if the pages lie in the direct map, so never when their
        number had to be cut. */
    constructor (basePhys: Word, totalKb: Word)
      requires 0 < basePhys && basePhys % PAGE_SIZE == 0
      ensures fresh(bitmap) && fresh(bitmap.words) && bitmap.Valid()
      ensures this.basePhys == basePhys && freePages == totalPages && Used() == {}
      ensures var pages := totalKb * 1024 % WORD / PAGE_SIZE; totalPages == if pages > MAX_PAGES then MAX_PAGES else pages
      ensures Valid() <==> basePhys + totalPages * PAGE_SIZE <= WORD - KERNEL_VMA
      ensures Valid() ==> totalKb * 1024 % WORD / PAGE_SIZE < MAX_PAGES
    {
      this.basePhys := basePhys;
      var pages := totalKb * 1024 % WORD / PAGE_SIZE;
      if pages > MAX_PAGES {
        pages := MAX_PAGES;
      }
      totalPages := pages;
      freePages := pages;
      bitmap := new Bitmap();
    }

    method FindFreePages(count: nat) returns (start: int)
      requires Valid()
      ensures count == 0 ==> start == -1
      ensures count > 0 ==> FirstFit(Used(), totalPages, count, start)
    {
      var consecutive, startIdx := 0, 0;
      for i := 0 to totalPages
        invariant consecutive == 0 || startIdx + consecutive == i
        invariant 0 <= consecutive <= i
        invariant count > 0 ==> consecutive < count
        invariant consecutive > 0 ==> forall k: nat | startIdx <= k < i :: k !in Used()
        invariant count > 0 ==> forall s: nat | s < i - consecutive :: !FreeRun(Used(), totalPages, s, count)
      {
        var taken := bitmap.Test(i);
        if !taken {
          if consecutive == 0 {
            startIdx := i;
          }
          consecutive := consecutive + 1;
          if consecutive == count {
            return startIdx;
          }
        } else {
          consecutive := 0;
        }
      }
      return -1;
    }

    /** The marking loop of page_alloc_flags. */
    method MarkRun(start: nat, count: nat)
      requires bitmap.Valid() && start + count <= MAX_PAGES
      modifies bitmap, bitmap.words
      ensures bitmap.Valid() && Used() == old(Used()) + Run(start, count)
    {
      for i := 0 to count
        invariant bitmap.Valid()
        invariant Used() == old(Used()) + Run(start, i)
      {
        bitmap.Set(start + i);
        assert Id(start + i);
        assert Run(start, i + 1) == Run(start, i) + {start + i};
      }
    }

    /** page_alloc_flags: 0 stands for NULL. It fails exactly when there is no free run of that length. */
    method AllocFlags(size: Word, memPhy: bool) returns (addr: Word, ghost start: nat)
      requires Valid()
      modifies this, bitmap, bitmap.words
      ensures Valid()
      ensures addr == 0 <==> (PagesNeeded(size) == 0 || FirstFit(old(Used()), totalPages, PagesNeeded(size), -1))
      ensures addr == 0 ==> Used() == old(Used())
      ensures addr != 0 ==> FirstFit(old(Used()), totalPages, PagesNeeded(size), start)
      ensures addr != 0 ==> Used() == old(Used()) + Run(start, PagesNeeded(size))
      ensures addr != 0 ==> addr == basePhys + start * PAGE_SIZE + if memPhy then 0 else KERNEL_VMA
    {
      start := 0;
      if size == 0 {
        return 0, 0;
      }
      var needed := (size + PAGE_SIZE - 1) % WORD / PAGE_SIZE;
      if needed > freePages {
        forall s: nat
          ensures !FreeRun(Used(), totalPages, s, needed)
        {
          if FreeRun(Used(), totalPages, s, needed) {
            FreeRunIsCounted(Used(), totalPages, s, needed);
          }
        }
        return 0, 0;
      }
      var startIdx := FindFreePages(needed);
      if startIdx < 0 {
        return 0, 0;
      }
      start := startIdx;
      FreeRunIsCounted(Used(), totalPages, start, needed);
      MarkRun(startIdx, needed);
      freePages := freePages - needed;
      var phys := basePhys + startIdx * PAGE_SIZE;
      addr := if memPhy then phys else phys + KERNEL_VMA;
    }

    /** page_alloc(PAGE_SIZE): the address of a page that was free, or 0 when every page is in use. */
    method AllocPage() returns (addr: Word, ghost page: nat)
      requires Valid()
      modifies this, bitmap, bitmap.words
      ensures Valid()
      ensures addr == 0 <==> old(freePages) == 0
      ensures addr == 0 ==> Used() == old(Used())
      ensures addr != 0 ==> page < totalPages && page !in old(Used()) && Used() == old(Used()) + {page} && addr == VirtOf(page)
      ensures freePages == old(freePages) - if addr != 0 then 1 else 0
    {
      ghost var used := Used();
      addr, page := AllocFlags(PAGE_SIZE, false);
      if addr == 0 {
        forall p: nat | p < totalPages
          ensures p in used
        {
          assert !FreeRun(used, totalPages, p, 1);
        }
        RunSize(0, totalPages);
        assert forall p | p in used :: Id(p);
        assert used == Run(0, totalPages);
      } else {
        FreeRunIsCounted(used, totalPages, page, 1);
        assert Id(page);
        assert Run(page, 1) == {page};
      }
    }

    /** page_free: frees the one page at addr; unmanaged, free and NULL addresses are left alone. */
    method Free(addr: Word)
      requires Valid()
      modifies this, bitmap, bitmap.words
      ensures Valid()
      ensures Used() == if addr == 0 || PageOf(addr) < 0 then old(Used()) else old(Used()) - {PageOf(addr)}
      ensures freePages <= old(freePages) + 1
    {
      if addr == 0 {
        return;
      }
      var phys := if addr >= KERNEL_VMA then addr - KERNEL_VMA else addr;
      if phys < basePhys {
        return;
      }
      var page := (phys - basePhys) / PAGE_SIZE;
      if page >= totalPages {
        return;
      }
      var taken := bitmap.Test(page);
      if !taken {
        return;
      }
      bitmap.Clear(page);
      freePages := freePages + 1;
    }

    /** An address handed out for a page leads back to that page, whichever way it was mapped. */
    lemma AddressRoundTrip(page: nat)
      requires Valid() && page < totalPages
      ensures VirtOf(page) < WORD && VirtOf(page) % PAGE_SIZE == 0 && PageOf(VirtOf(page)) == page
      ensures PageOf(VirtOf(page) - KERNEL_VMA) == page
    {
    }
  }
}
