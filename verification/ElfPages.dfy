/** Filling and mapping the pages of an image (the page loop of elf_load_common). */
module ElfPages {
  import opened Layout
  import opened Ram
  import opened ElfImage

  const ENOMEM := 12
  const EIO := 5

  /** The executable; reads may come back short or fail. */
  class File {
    const data: seq<byte>
    /** Whether reads inside the file always make progress. */
    const readable: bool

    constructor (data: seq<byte>, readable: bool)
      ensures this.data == data && this.readable == readable
    {
      this.data := data;
      this.readable := readable;
    }

    /** fs_pread: a nonempty piece of what was asked for, or n <= 0 for end of file or an error. */
    method Pread(off: nat, count: nat) returns (n: int, got: seq<byte>)
      ensures n <= 0 ==> got == []
      ensures n > 0 ==> n <= count && off + n <= |data| && got == data[off..off + n]
      ensures readable && count > 0 && off < |data| ==> n > 0
    {
      var available := if off >= |data| then 0 else if |data| - off < count then |data| - off else count;
      var least := if readable && available > 0 then 1 else -1;
      n :| least <= n <= available;
      got := if n <= 0 then [] else data[off..off + n];
    }
  }

  const ZERO_PAGE: seq<byte> := seq(PAGE_SIZE, _ => 0)

  /** page with the bytes put at position at. */
  function Splice(page: seq<byte>, at: nat, bytes: seq<byte>): (r: seq<byte>)
    requires at + |bytes| <= |page|
    ensures |r| == |page|
    ensures forall b | 0 <= b < |page| :: r[b] == if at <= b < at + |bytes| then bytes[b - at] else page[b]
  {
    page[..at] + bytes + page[at + |bytes|..]
  }

  /** The page holds what the segments so far say. */
  ghost predicate Holds(page: seq<byte>, segs: seq<Seg>, file: seq<byte>, cur: nat)
    requires AllValidated(segs, |file|)
  {
    |page| == PAGE_SIZE && forall b | 0 <= b < PAGE_SIZE :: page[b] == ByteAt(segs, file, cur + b)
  }

  /** Overwriting the part of the page that one more segment backs. */
  lemma CoverStep(before: seq<byte>, after: seq<byte>, segs: seq<Seg>, i: nat, file: seq<byte>, cur: nat)
    requires AllValidated(segs, |file|) && i < |segs|
    requires AllValidated(segs[..i], |file|) && Holds(before, segs[..i], file, cur)
    requires |after| == PAGE_SIZE
    requires forall b | 0 <= b < PAGE_SIZE ::
               after[b] == if Backed(segs[i], cur + b) then file[segs[i].offset + (cur + b - segs[i].vaddr)] else before[b]
    ensures AllValidated(segs[..i + 1], |file|) && Holds(after, segs[..i + 1], file, cur)
  {
    assert segs[..i + 1][..i] == segs[..i] && segs[..i + 1][i] == segs[i];
  }

  /** The read loop: fill [at, at + count) of the page from file offset foff, however short the reads are. */
  method ReadInto(ram: Ram, page: nat, at: nat, count: nat, file: File, foff: nat) returns (ok: bool)
    requires ram.Valid() && page in ram.bytes && at + count <= PAGE_SIZE && foff + count <= |file.data|
    modifies ram`bytes
    ensures ram.Valid() && ram.bytes.Keys == old(ram.bytes.Keys)
    ensures forall f | f in ram.bytes && f != page :: ram.bytes[f] == old(ram.bytes[f])
    ensures ok ==> forall b | 0 <= b < PAGE_SIZE ::
              ram.bytes[page][b] == if at <= b < at + count then file.data[foff + (b - at)] else old(ram.bytes[page][b])
    ensures file.readable ==> ok
  {
    var done := 0;
    while done < count
      invariant 0 <= done <= count
      invariant ram.Valid() && ram.bytes.Keys == old(ram.bytes.Keys)
      invariant forall f | f in ram.bytes && f != page :: ram.bytes[f] == old(ram.bytes[f])
      invariant forall b | 0 <= b < PAGE_SIZE ::
                  ram.bytes[page][b] == if at <= b < at + done then file.data[foff + (b - at)] else old(ram.bytes[page][b])
    {
      var n, got := file.Pread(foff + done, count - done);
      if n <= 0 {
        return false;
      }
      ram.bytes := ram.bytes[page := Splice(ram.bytes[page], at + done, got)];
      done := done + n;
    }
    ok := true;
  }

  /** Zero the page and copy every segment's file bytes that fall into it, in order. */
  method FillPage(ram: Ram, page: nat, cur: nat, segs: seq<Seg>, file: File) returns (ok: bool)
    requires ram.Valid() && AllValidated(segs, |file.data|) && cur % PAGE_SIZE == 0
    modifies ram`bytes
    ensures ram.Valid() && ram.bytes.Keys == old(ram.bytes.Keys) + {page}
    ensures forall f | f in old(ram.bytes) && f != page :: ram.bytes[f] == old(ram.bytes[f])
    ensures ok ==> Holds(ram.bytes[page], segs, file.data, cur)
    ensures file.readable ==> ok
  {
    ram.bytes := ram.bytes[page := ZERO_PAGE];
    assert segs[..0] == [];
    for i := 0 to |segs|
      invariant ram.Valid() && ram.bytes.Keys == old(ram.bytes.Keys) + {page}
      invariant forall f | f in old(ram.bytes) && f != page :: ram.bytes[f] == old(ram.bytes[f])
      invariant AllValidated(segs[..i], |file.data|) && Holds(ram.bytes[page], segs[..i], file.data, cur)
    {
      var s := segs[i];
      assert Validated(s, |file.data|);
      ghost var before := ram.bytes[page];
      var sEnd := s.vaddr + s.filesz;
      var lo := if s.vaddr > cur then s.vaddr else cur;
      var hi := if sEnd < cur + PAGE_SIZE then sEnd else cur + PAGE_SIZE;
      if !(sEnd <= cur || s.vaddr >= cur + PAGE_SIZE) && hi > lo {
        ok := ReadInto(ram, page, lo - cur, hi - lo, file, s.offset + (lo - s.vaddr));
        if !ok {
          return;
        }
      }
      CoverStep(before, ram.bytes[page], segs, i, file.data, cur);
    }
    assert segs[..|segs|] == segs;
    ok := true;
  }

  /** The permission loop: some segment whose memory image covers the page is writable. */
  method PageWritable(segs: seq<Seg>, cur: nat) returns (w: bool)
    requires AllValidated(segs, WORD) && cur % PAGE_SIZE == 0
    ensures w <==> Writable(segs, cur / PAGE_SIZE)
  {
    w := false;
    for i := 0 to |segs|
      invariant w <==> exists k :: 0 <= k < i && Touches(segs[k], cur / PAGE_SIZE) && segs[k].flags.write
    {
      assert Validated(segs[i], WORD);
      TouchesInAddresses(segs[i], cur / PAGE_SIZE);
      if segs[i].vaddr < cur + PAGE_SIZE && segs[i].vaddr + segs[i].memsz > cur {
        w := w || segs[i].flags.write;
      }
    }
  }
}
