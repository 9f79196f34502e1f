/** Physical memory: the page allocator together with what the pages hold. */
module Ram {
  import opened Layout
  import opened PageAllocator

  newtype byte = b: int | 0 <= b < 256

  datatype Flags = Flags(present: bool, writable: bool, user: bool)

  /** A page-table entry: a 32-bit word split into its frame number and the flag bits the kernel uses. */
  datatype Pte = Pte(frame: nat, flags: Flags)

  const EMPTY := Pte(0, Flags(false, false, false))

  class Ram {
    const alloc: PageAllocator
    /** The contents of pages used as page tables, by frame number. */
    var tables: map<nat, seq<Pte>>
    /** The contents of pages used for user data, by frame number. */
    var bytes: map<nat, seq<byte>>

    ghost function Repr(): set<object> {
      {this, alloc, alloc.bitmap, alloc.bitmap.words}
    }

    ghost predicate Valid()
      reads Repr()
    {
      && alloc.Valid()
      && (forall t | t in tables :: |tables[t]| == 1024)
      && (forall f | f in bytes :: |bytes[f]| == PAGE_SIZE)
    }

    /** The frame numbers of the allocated pages. */
    ghost function Frames(): set<nat>
      reads alloc.bitmap
    {
      FramesOf(alloc.Used())
    }

    /** The frames of some pages. */
    ghost function FramesOf(used: set<nat>): set<nat> {
      set p | p in used :: FrameOf(p)
    }

    function FrameOf(page: nat): nat {
      alloc.basePhys / PAGE_SIZE + page
    }

    /** The frame numbers determine the allocated pages. */
    lemma SameFramesSameUse(used: set<nat>)
      requires Valid() && Frames() == FramesOf(used)
      ensures alloc.Used() == used
    {
      forall p
        ensures p in used <==> p in alloc.Used()
      {
        if p in used {
          assert FrameOf(p) in Frames();
        }
        if p in alloc.Used() {
          assert FrameOf(p) in Frames();
        }
      }
    }

    lemma FrameBound(frame: nat)
      requires Valid() && frame in Frames()
      ensures 0 < frame && frame * PAGE_SIZE < WORD - KERNEL_VMA
    {
    }

    constructor (alloc: PageAllocator)
      requires alloc.Valid()
      ensures Valid() && this.alloc == alloc && tables == map[] && bytes == map[]
    {
      this.alloc := alloc;
      tables := map[];
      bytes := map[];
    }

    /** page_alloc(PAGE_SIZE): the frame of a page that was free, or 0 when every page is in use. */
    method AllocPage() returns (frame: nat)
      requires Valid()
      modifies alloc, alloc.bitmap, alloc.bitmap.words
      ensures Valid()
      ensures frame == 0 <==> old(alloc.freePages) == 0
      ensures frame == 0 ==> Frames() == old(Frames()) && alloc.freePages == 0
      ensures frame != 0 ==> frame !in old(Frames()) && Frames() == old(Frames()) + {frame}
    {
      ghost var used := alloc.Used();
      var addr, page := alloc.AllocPage();
      frame := 0;
      if addr != 0 {
        alloc.AddressRoundTrip(page);
        frame := (addr - KERNEL_VMA) / PAGE_SIZE;
        assert frame == FrameOf(page);
        assert Frames() == old(Frames()) + {frame} by {
          assert alloc.Used() == used + {page};
        }
      }
    }

    /** page_free(PHYS_TO_VIRT(frame)) */
    method FreePage(frame: nat)
      requires Valid() && frame * PAGE_SIZE < WORD - KERNEL_VMA
      modifies alloc, alloc.bitmap, alloc.bitmap.words
      ensures Valid() && Frames() == old(Frames()) - {frame} && alloc.freePages <= old(alloc.freePages) + 1
    {
      ghost var used := alloc.Used();
      alloc.Free(frame * PAGE_SIZE + KERNEL_VMA);
      PageOfFrame(frame);
      FramesLess(used, alloc.Used(), alloc.PageOf(frame * PAGE_SIZE + KERNEL_VMA), frame);
    }

    lemma PageOfFrame(frame: nat)
      requires alloc.Valid() && frame * PAGE_SIZE < WORD - KERNEL_VMA
      ensures var page := alloc.PageOf(frame * PAGE_SIZE + KERNEL_VMA);
              if page >= 0 then FrameOf(page) == frame
              else forall p: nat | p < alloc.totalPages :: FrameOf(p) != frame
    {
    }

    lemma FramesLess(before: set<nat>, after: set<nat>, page: int, frame: nat)
      requires after == if page < 0 then before else before - {page}
      requires if page >= 0 then FrameOf(page) == frame else forall p | p in before :: FrameOf(p) != frame
      ensures (set p | p in after :: FrameOf(p)) == (set p | p in before :: FrameOf(p)) - {frame}
    {
    }
  }
}
