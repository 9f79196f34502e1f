/** What a table of program headers means (kernel/elf.c; System V gABI, chapter 5, Program Header). */
module ElfHeaders {
  import opened Layout
  import opened Ram
  import opened VmaList
  import opened ElfImage
  import opened SegmentOrder

  const PT_LOAD := 1

  /** A program header as read from the file. */
  datatype Phdr = Phdr(pType: Word, offset: Word, vaddr: Word, filesz: Word, memsz: Word, flags: SegFlags)

  function SegOf(ph: Phdr): Seg {
    Seg(ph.vaddr, ph.filesz, ph.memsz, ph.offset, ph.flags)
  }

  predicate Loadable(ph: Phdr) {
    ph.pType == PT_LOAD && ph.memsz != 0
  }

  /** The segments of a program header table, in table order. */
  function SegsOf(phdrs: seq<Phdr>): seq<Seg> {
    if phdrs == [] then []
    else
      var last := phdrs[|phdrs| - 1];
      SegsOf(phdrs[..|phdrs| - 1]) + if Loadable(last) then [SegOf(last)] else []
  }

  lemma {:induction false} SegsOfMembers(phdrs: seq<Phdr>, fileSize: nat)
    ensures |SegsOf(phdrs)| <= |phdrs|
    ensures AllValidated(SegsOf(phdrs), fileSize) <==>
            forall i | 0 <= i < |phdrs| && Loadable(phdrs[i]) :: Validated(SegOf(phdrs[i]), fileSize)
  {
    if phdrs != [] {
      var n := |phdrs| - 1;
      SegsOfMembers(phdrs[..n], fileSize);
      var front := SegsOf(phdrs[..n]);
      assert SegsOf(phdrs)[..|front|] == front;
      if AllValidated(SegsOf(phdrs), fileSize) {
        assert forall i | 0 <= i < |front| :: front[i] == SegsOf(phdrs)[i];
        assert AllValidated(front, fileSize);
        forall i | 0 <= i < |phdrs| && Loadable(phdrs[i])
          ensures Validated(SegOf(phdrs[i]), fileSize)
        {
          if i < n {
            assert phdrs[..n][i] == phdrs[i];
          } else {
            assert SegsOf(phdrs)[|front|] == SegOf(phdrs[n]);
          }
        }
      }
      if forall i | 0 <= i < |phdrs| && Loadable(phdrs[i]) :: Validated(SegOf(phdrs[i]), fileSize) {
        assert forall i | 0 <= i < n :: phdrs[..n][i] == phdrs[i];
        assert AllValidated(front, fileSize);
      }
    }
  }

  /** The checks of elf32_load on a header that it keeps. */
  predicate InRange(ph: Phdr, fileSize: nat) {
    ph.filesz <= ph.memsz && ph.vaddr + ph.memsz <= 0xBFF0_0000 && ph.offset + ph.filesz <= fileSize
  }

  /** No nonempty PT_LOAD header is out of range. */
  ghost predicate AllInRange(phdrs: seq<Phdr>, fileSize: nat) {
    forall i | 0 <= i < |phdrs| && phdrs[i].pType == 1 && phdrs[i].memsz != 0 :: InRange(phdrs[i], fileSize)
  }

  /** A nonempty PT_LOAD header with bytes on the page. */
  predicate LoadsOn(ph: Phdr, page: nat) {
    ph.pType == 1 && ph.memsz != 0 && ph.vaddr < (page + 1) * PAGE_SIZE && page * PAGE_SIZE < ph.vaddr + ph.memsz
  }

  /** The header loads a byte of the file at the address. */
  predicate LoadsAt(ph: Phdr, addr: nat) {
    ph.pType == 1 && ph.memsz != 0 && ph.vaddr <= addr < ph.vaddr + ph.filesz
  }

  /** Of the headers that load a byte at the address, the one that is last in address order, and in the table. */
  ghost predicate LastAt(phdrs: seq<Phdr>, addr: nat, i: nat) {
    && i < |phdrs| && LoadsAt(phdrs[i], addr)
    && forall j | 0 <= j < |phdrs| && LoadsAt(phdrs[j], addr) :: phdrs[j].vaddr < phdrs[i].vaddr || (phdrs[j].vaddr == phdrs[i].vaddr && j <= i)
  }

  /** The byte that the headers give the address: the file's byte, through the last header there, or zero. */
  ghost predicate ByteOf(phdrs: seq<Phdr>, file: seq<byte>, addr: nat, b: byte)
    requires AllInRange(phdrs, |file|)
  {
    || IsFileByte(phdrs, file, addr, b)
    || (b == 0 && NoneAt(phdrs, addr))
  }

  ghost predicate IsFileByte(phdrs: seq<Phdr>, file: seq<byte>, addr: nat, b: byte)
    requires AllInRange(phdrs, |file|)
  {
    exists i: nat :: LastAt(phdrs, addr, i) && b == file[phdrs[i].offset + (addr - phdrs[i].vaddr)]
  }

  ghost predicate NoneAt(phdrs: seq<Phdr>, addr: nat) {
    forall i | 0 <= i < |phdrs| :: !LoadsAt(phdrs[i], addr)
  }

  lemma RangeIsValidated(phdrs: seq<Phdr>, fileSize: nat)
    ensures AllInRange(phdrs, fileSize) <==> AllValidated(SegsOf(phdrs), fileSize)
  {
    SegsOfMembers(phdrs, fileSize);
    assert forall ph: Phdr | Loadable(ph) :: InRange(ph, fileSize) <==> Validated(SegOf(ph), fileSize);
  }

  /** No segment with a byte at the address starts above v. */
  ghost predicate NoneAbove(segs: seq<Seg>, addr: nat, v: nat) {
    forall k | 0 <= k < |segs| && Backed(segs[k], addr) :: segs[k].vaddr <= v
  }

  /** The byte after one more segment: its own, unless one that starts later has a byte there. */
  lemma {:induction false} InsertedByte(sorted: seq<Seg>, key: Seg, file: seq<byte>, addr: nat)
    requires ByAddress(sorted) && AllValidated(sorted, |file|) && Validated(key, |file|)
    ensures AllValidated(InsertSeg(sorted, key), |file|)
    ensures ByteAt(InsertSeg(sorted, key), file, addr) ==
            if Backed(key, addr) && NoneAbove(sorted, addr, key.vaddr)
            then file[key.offset + (addr - key.vaddr)] else ByteAt(sorted, file, addr)
  {
    var n := |sorted| - 1;
    var r := InsertSeg(sorted, key);
    if sorted == [] || sorted[n].vaddr <= key.vaddr {
      assert r[..|r| - 1] == sorted;
    } else {
      InsertedByte(sorted[..n], key, file, addr);
      assert r[..|r| - 1] == InsertSeg(sorted[..n], key) && r[|r| - 1] == sorted[n];
    }
  }

  /** The segment is that of some nonempty PT_LOAD header. */
  ghost predicate FromHeader(phdrs: seq<Phdr>, s: Seg) {
    exists i :: 0 <= i < |phdrs| && Loadable(phdrs[i]) && SegOf(phdrs[i]) == s
  }

  lemma FromOneMore(phdrs: seq<Phdr>, s: Seg)
    requires phdrs != []
    ensures var last := phdrs[|phdrs| - 1];
            FromHeader(phdrs, s) <==> FromHeader(phdrs[..|phdrs| - 1], s) || (Loadable(last) && SegOf(last) == s)
  {
    var n := |phdrs| - 1;
    if i :| 0 <= i < n && Loadable(phdrs[..n][i]) && SegOf(phdrs[..n][i]) == s {
      assert phdrs[i] == phdrs[..n][i];
    }
    if i :| 0 <= i <= n && Loadable(phdrs[i]) && SegOf(phdrs[i]) == s {
      assert i < n ==> phdrs[..n][i] == phdrs[i];
    }
  }

  /** The segments are those of the nonempty PT_LOAD headers. */
  lemma {:induction false} SegsAreOfHeaders(phdrs: seq<Phdr>, s: Seg)
    ensures s in SegsOf(phdrs) <==> FromHeader(phdrs, s)
  {
    if phdrs != [] {
      SegsAreOfHeaders(phdrs[..|phdrs| - 1], s);
      FromOneMore(phdrs, s);
    }
  }

  lemma SortedAreOfHeaders(phdrs: seq<Phdr>, s: Seg)
    ensures s in SortSegs(SegsOf(phdrs)) <==> FromHeader(phdrs, s)
  {
    SegsAreOfHeaders(phdrs, s);
    SortSegsSorts(SegsOf(phdrs));
    assert s in SortSegs(SegsOf(phdrs)) <==> s in multiset(SortSegs(SegsOf(phdrs)));
    assert s in SegsOf(phdrs) <==> s in multiset(SegsOf(phdrs));
  }

  /** Some header that passes the test loads on the page. */
  ghost predicate SomeOn(phdrs: seq<Phdr>, page: nat, writable: bool) {
    exists i :: 0 <= i < |phdrs| && LoadsOn(phdrs[i], page) && (writable ==> phdrs[i].flags.write)
  }

  /** A header's segment is among the sorted ones. */
  lemma SegOfHeader(phdrs: seq<Phdr>, i: nat, page: nat) returns (k: nat)
    requires i < |phdrs| && LoadsOn(phdrs[i], page)
    ensures var sorted := SortSegs(SegsOf(phdrs));
            k < |sorted| && Touches(sorted[k], page) && sorted[k].flags == phdrs[i].flags
  {
    SortedAreOfHeaders(phdrs, SegOf(phdrs[i]));
    k :| k < |SortSegs(SegsOf(phdrs))| && SortSegs(SegsOf(phdrs))[k] == SegOf(phdrs[i]);
    TouchesInAddresses(SegOf(phdrs[i]), page);
  }

  /** A sorted segment is a header's. */
  lemma HeaderOfSeg(phdrs: seq<Phdr>, k: nat) returns (i: nat)
    requires k < |SortSegs(SegsOf(phdrs))|
    ensures i < |phdrs| && Loadable(phdrs[i]) && SortSegs(SegsOf(phdrs))[k] == SegOf(phdrs[i])
    ensures forall page: nat :: LoadsOn(phdrs[i], page) <==> Touches(SegOf(phdrs[i]), page)
    ensures forall addr: nat :: LoadsAt(phdrs[i], addr) <==> Backed(SegOf(phdrs[i]), addr)
  {
    SortedAreOfHeaders(phdrs, SortSegs(SegsOf(phdrs))[k]);
    i :| i < |phdrs| && Loadable(phdrs[i]) && SegOf(phdrs[i]) == SortSegs(SegsOf(phdrs))[k];
    forall page: nat
      ensures LoadsOn(phdrs[i], page) <==> Touches(SegOf(phdrs[i]), page)
    {
      TouchesInAddresses(SegOf(phdrs[i]), page);
    }
  }

  lemma PagesOfHeaders(phdrs: seq<Phdr>, page: nat)
    ensures InImage(SortSegs(SegsOf(phdrs)), page) <==> SomeOn(phdrs, page, false)
    ensures Writable(SortSegs(SegsOf(phdrs)), page) <==> SomeOn(phdrs, page, true)
  {
    var sorted := SortSegs(SegsOf(phdrs));
    forall i: nat | i < |phdrs| && LoadsOn(phdrs[i], page)
      ensures InImage(sorted, page) && (phdrs[i].flags.write ==> Writable(sorted, page))
    {
      var k := SegOfHeader(phdrs, i, page);
    }
    forall k: nat | k < |sorted| && Touches(sorted[k], page)
      ensures SomeOn(phdrs, page, false) && (sorted[k].flags.write ==> SomeOn(phdrs, page, true))
    {
      var i := HeaderOfSeg(phdrs, k);
      assert LoadsOn(phdrs[i], page);
    }
  }

  /** The segments with a byte at the address start no higher than the last header there. */
  lemma HighestBacked(phdrs: seq<Phdr>, addr: nat, i: nat, v: nat)
    requires LastAt(phdrs, addr, i)
    ensures NoneAbove(SortSegs(SegsOf(phdrs)), addr, v) <==> phdrs[i].vaddr <= v
  {
    var sorted := SortSegs(SegsOf(phdrs));
    SortedAreOfHeaders(phdrs, SegOf(phdrs[i]));
    assert exists k :: 0 <= k < |sorted| && sorted[k] == SegOf(phdrs[i]);
    forall k: nat | k < |sorted| && Backed(sorted[k], addr)
      ensures sorted[k].vaddr <= phdrs[i].vaddr
    {
      var j := HeaderOfSeg(phdrs, k);
      assert LoadsAt(phdrs[j], addr);
    }
  }

  lemma NoneBacked(phdrs: seq<Phdr>, addr: nat)
    requires NoneAt(phdrs, addr)
    ensures forall v :: NoneAbove(SortSegs(SegsOf(phdrs)), addr, v)
  {
    var sorted := SortSegs(SegsOf(phdrs));
    forall k: nat | k < |sorted|
      ensures !Backed(sorted[k], addr)
    {
      var i := HeaderOfSeg(phdrs, k);
    }
  }

  /** The last of the headers at an address stays the last when one more does not come after it. */
  lemma OneMoreHeader(phdrs: seq<Phdr>, addr: nat, i: nat)
    requires phdrs != [] && LastAt(phdrs[..|phdrs| - 1], addr, i)
    ensures var last := phdrs[|phdrs| - 1];
            if LoadsAt(last, addr) && phdrs[i].vaddr <= last.vaddr then LastAt(phdrs, addr, |phdrs| - 1) else LastAt(phdrs, addr, i)
  {
    var front := phdrs[..|phdrs| - 1];
    forall j | 0 <= j < |phdrs| - 1 && LoadsAt(phdrs[j], addr)
      ensures phdrs[j].vaddr < phdrs[i].vaddr || (phdrs[j].vaddr == phdrs[i].vaddr && j <= i)
    {
      assert front[j] == phdrs[j] && front[i] == phdrs[i];
    }
    assert front[i] == phdrs[i];
  }

  /** The byte of the sorted segments is that of the last header at the address. */
  lemma {:induction false} ByteOfHeaders(phdrs: seq<Phdr>, file: seq<byte>, addr: nat)
    requires AllInRange(phdrs, |file|)
    ensures AllValidated(SortSegs(SegsOf(phdrs)), |file|)
    ensures ByteOf(phdrs, file, addr, ByteAt(SortSegs(SegsOf(phdrs)), file, addr))
  {
    RangeIsValidated(phdrs, |file|);
    SortKeepsImage(SegsOf(phdrs), |file|, 0);
    if phdrs != [] {
      var n := |phdrs| - 1;
      assert forall i | 0 <= i < n :: phdrs[..n][i] == phdrs[i];
      ByteOfHeaders(phdrs[..n], file, addr);
      OneMoreByte(phdrs, file, addr);
    }
  }

  /** When the headers before the last one have a byte at the address. */
  lemma ByteBehind(phdrs: seq<Phdr>, file: seq<byte>, addr: nat, i: nat)
    requires phdrs != [] && AllInRange(phdrs, |file|)
    requires AllValidated(SortSegs(SegsOf(phdrs[..|phdrs| - 1])), |file|) && AllValidated(SortSegs(SegsOf(phdrs)), |file|)
    requires LastAt(phdrs[..|phdrs| - 1], addr, i)
    requires ByteAt(SortSegs(SegsOf(phdrs[..|phdrs| - 1])), file, addr) == (assert InRange(phdrs[i], |file|); file[phdrs[i].offset + (addr - phdrs[i].vaddr)])
    ensures ByteOf(phdrs, file, addr, ByteAt(SortSegs(SegsOf(phdrs)), file, addr))
  {
    SortedByte(phdrs, file, addr);
    HighestBacked(phdrs[..|phdrs| - 1], addr, i, phdrs[|phdrs| - 1].vaddr);
    OneMoreHeader(phdrs, addr, i);
    assert LoadsAt(phdrs[i], addr);
  }

  /** When they have none. */
  lemma ByteAlone(phdrs: seq<Phdr>, file: seq<byte>, addr: nat)
    requires phdrs != [] && AllInRange(phdrs, |file|)
    requires AllValidated(SortSegs(SegsOf(phdrs[..|phdrs| - 1])), |file|) && AllValidated(SortSegs(SegsOf(phdrs)), |file|)
    requires NoneAt(phdrs[..|phdrs| - 1], addr) && ByteAt(SortSegs(SegsOf(phdrs[..|phdrs| - 1])), file, addr) == 0
    ensures ByteOf(phdrs, file, addr, ByteAt(SortSegs(SegsOf(phdrs)), file, addr))
  {
    var n := |phdrs| - 1;
    SortedByte(phdrs, file, addr);
    NoneBacked(phdrs[..n], addr);
    forall i | 0 <= i < n
      ensures !LoadsAt(phdrs[i], addr)
    {
      assert phdrs[..n][i] == phdrs[i];
    }
    assert LoadsAt(phdrs[n], addr) ==> LastAt(phdrs, addr, n);
  }

  lemma OneMoreByte(phdrs: seq<Phdr>, file: seq<byte>, addr: nat)
    requires phdrs != [] && AllInRange(phdrs, |file|) && AllInRange(phdrs[..|phdrs| - 1], |file|)
    requires AllValidated(SortSegs(SegsOf(phdrs[..|phdrs| - 1])), |file|) && AllValidated(SortSegs(SegsOf(phdrs)), |file|)
    requires ByteOf(phdrs[..|phdrs| - 1], file, addr, ByteAt(SortSegs(SegsOf(phdrs[..|phdrs| - 1])), file, addr))
    ensures ByteOf(phdrs, file, addr, ByteAt(SortSegs(SegsOf(phdrs)), file, addr))
  {
    var front := phdrs[..|phdrs| - 1];
    var b := ByteAt(SortSegs(SegsOf(front)), file, addr);
    if IsFileByte(front, file, addr, b) {
      var i: nat :| LastAt(front, addr, i) && b == file[front[i].offset + (addr - front[i].vaddr)];
      ByteBehind(phdrs, file, addr, i);
    } else {
      ByteAlone(phdrs, file, addr);
    }
  }

  lemma HeaderIsValidated(phdrs: seq<Phdr>, i: nat, fileSize: nat)
    requires AllInRange(phdrs, fileSize) && i < |phdrs| && Loadable(phdrs[i])
    ensures Validated(SegOf(phdrs[i]), fileSize)
  {
    assert InRange(phdrs[i], fileSize);
  }

  /** The sorted segments with those of one more header. */
  function WithHeader(sorted: seq<Seg>, last: Phdr): seq<Seg> {
    if Loadable(last) then InsertSeg(sorted, SegOf(last)) else sorted
  }

  /** The last header is inserted last. */
  lemma SortedStep(phdrs: seq<Phdr>)
    requires phdrs != []
    ensures SortSegs(SegsOf(phdrs)) == WithHeader(SortSegs(SegsOf(phdrs[..|phdrs| - 1])), phdrs[|phdrs| - 1])
  {
    var front, last := phdrs[..|phdrs| - 1], phdrs[|phdrs| - 1];
    if Loadable(last) {
      assert SegsOf(phdrs)[..|SegsOf(phdrs)| - 1] == SegsOf(front);
    } else {
      assert SegsOf(phdrs) == SegsOf(front);
    }
  }

  lemma WithHeaderByte(sorted: seq<Seg>, last: Phdr, file: seq<byte>, addr: nat)
    requires ByAddress(sorted) && AllValidated(sorted, |file|) && (Loadable(last) ==> Validated(SegOf(last), |file|))
    ensures AllValidated(WithHeader(sorted, last), |file|)
    ensures ByteAt(WithHeader(sorted, last), file, addr) ==
            if LoadsAt(last, addr) && NoneAbove(sorted, addr, last.vaddr)
            then file[last.offset + (addr - last.vaddr)] else ByteAt(sorted, file, addr)
  {
    if Loadable(last) {
      InsertedByte(sorted, SegOf(last), file, addr);
    }
  }

  /** How the last header changes the byte. */
  lemma SortedByte(phdrs: seq<Phdr>, file: seq<byte>, addr: nat)
    requires phdrs != [] && AllInRange(phdrs, |file|)
    requires AllValidated(SortSegs(SegsOf(phdrs[..|phdrs| - 1])), |file|) && AllValidated(SortSegs(SegsOf(phdrs)), |file|)
    ensures var last, sorted := phdrs[|phdrs| - 1], SortSegs(SegsOf(phdrs[..|phdrs| - 1]));
            ByteAt(SortSegs(SegsOf(phdrs)), file, addr) ==
            if LoadsAt(last, addr) && NoneAbove(sorted, addr, last.vaddr)
            then file[last.offset + (addr - last.vaddr)] else ByteAt(sorted, file, addr)
  {
    var n := |phdrs| - 1;
    SortedStep(phdrs);
    SortSegsSorts(SegsOf(phdrs[..n]));
    if Loadable(phdrs[n]) {
      HeaderIsValidated(phdrs, n, |file|);
    }
    WithHeaderByte(SortSegs(SegsOf(phdrs[..n])), phdrs[n], file, addr);
  }
}
