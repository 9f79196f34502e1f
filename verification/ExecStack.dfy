/** The argument block on a new program's stack, and how the program reads it back (kernel/process.c). */
module ExecStack {
  import opened ExecStrings

  const STACK_BYTES := 8192
  const USER_STACK_TOP := 0xC000_0000
  const STACK_BASE := 0xBFFF_E000
  const WORD := 0x1_0000_0000

  /** A little-endian 32-bit word of the two stack pages. */
  function Word(mem: seq<byte>, i: nat): nat
    requires i + 4 <= |mem|
  {
    mem[i] as nat + 256 * (mem[i + 1] as nat) + 65536 * (mem[i + 2] as nat) + 16777216 * (mem[i + 3] as nat)
  }

  /** The consecutive words from i on. */
  ghost predicate WordsAt(mem: seq<byte>, i: nat, words: seq<nat>) {
    && i + 4 * |words| <= |mem|
    && forall k {:trigger words[k]} | 0 <= k < |words| :: Word(mem, i + 4 * k) == words[k]
  }

  function Pointers(ptrs: seq<nat>, base: nat): (r: seq<nat>)
    ensures |r| == |ptrs|
  {
    seq(|ptrs|, i requires 0 <= i < |ptrs| => base + ptrs[i])
  }

  /** argc, the argv pointers, NULL, the envp pointers, NULL. */
  function Slots(argv: Table, envp: Table, strVa: nat): (r: seq<nat>)
    ensures |r| == |argv.ptrs| + |envp.ptrs| + 3
  {
    [|argv.ptrs|] + Pointers(argv.ptrs, strVa) + [0] + Pointers(envp.ptrs, strVa + |argv.data|) + [0]
  }

  lemma SlotsLayout(argv: Table, envp: Table, strVa: nat)
    ensures var slots, argc, envc := Slots(argv, envp, strVa), |argv.ptrs|, |envp.ptrs|;
            && slots[0] == argc && slots[1..1 + argc] == Pointers(argv.ptrs, strVa) && slots[1 + argc] == 0
            && slots[argc + 2..argc + 2 + envc] == Pointers(envp.ptrs, strVa + |argv.data|) && slots[argc + 2 + envc] == 0
            && slots[argc + 2..argc + envc + 3] == Pointers(envp.ptrs, strVa + |argv.data|) + [0]
  {
  }

  function StringBytes(argv: Table, envp: Table): nat {
    |argv.data| + |envp.data|
  }

  function PointerBytes(argv: Table, envp: Table): nat {
    4 * (|argv.ptrs| + |envp.ptrs| + 3)
  }

  function StringVa(argv: Table, envp: Table): int {
    USER_STACK_TOP - StringBytes(argv, envp)
  }

  predicate Fits(argv: Table, envp: Table) {
    StringBytes(argv, envp) + PointerBytes(argv, envp) + 16 <= STACK_BYTES
  }

  /** The block as it lies in the stack pages: the slots from esp on, below the strings at the very top. */
  ghost predicate Laid(mem: seq<byte>, esp: int, argv: Table, envp: Table) {
    && |mem| == STACK_BYTES && Fits(argv, envp)
    && STACK_BASE <= esp && esp % 16 == 0 && esp + PointerBytes(argv, envp) <= StringVa(argv, envp)
    && mem[StringVa(argv, envp) - STACK_BASE..] == argv.data + envp.data
    && WordsAt(mem, esp - STACK_BASE, Slots(argv, envp, StringVa(argv, envp)))
  }

  method StoreWord(mem: array<byte>, i: nat, w: nat)
    requires i + 4 <= mem.Length && w < WORD
    modifies mem
    ensures Word(mem[..], i) == w
    ensures mem[..i] == old(mem[..i]) && mem[i + 4..] == old(mem[i + 4..])
  {
    BytesOfWord(w);
    var b0, b1, b2, b3 := w % 256, w / 256 % 256, w / 65536 % 256, w / 16777216;
    mem[i] := b0 as byte;
    mem[i + 1] := b1 as byte;
    mem[i + 2] := b2 as byte;
    mem[i + 3] := b3 as byte;
  }

  lemma BytesOfWord(w: nat)
    requires w < WORD
    ensures w / 16777216 < 256 && w % 256 + 256 * (w / 256 % 256) + 65536 * (w / 65536 % 256) + 16777216 * (w / 16777216) == w
  {
    assert w / 65536 == w / 256 / 256 && w / 16777216 == w / 65536 / 256;
  }

  /** q[idx] = w, for the next slot. */
  method StoreSlot(mem: array<byte>, q: nat, idx: nat, w: nat, ghost slots: seq<nat>, ghost limit: nat)
    requires idx < |slots| && slots[idx] == w < WORD && q + 4 * |slots| <= limit <= mem.Length
    requires WordsAt(mem[..], q, slots[..idx])
    modifies mem
    ensures WordsAt(mem[..], q, slots[..idx + 1]) && mem[limit..] == old(mem[limit..])
  {
    ghost var before := mem[..];
    StoreWord(mem, q + 4 * idx, w);
    forall k | 0 <= k < idx
      ensures Word(mem[..], q + 4 * k) == slots[..idx + 1][k]
    {
      var at := q + 4 * k;
      assert slots[..idx][k] == slots[k] && Word(before, at) == slots[k];
      assert forall j | at <= j < at + 4 :: mem[..q + 4 * idx][j] == before[j];
    }
    forall j | limit <= j < mem.Length
      ensures mem[j] == before[j]
    {
      assert mem[j] == mem[q + 4 * idx + 4..][j - (q + 4 * idx + 4)];
    }
  }

  /** memcpy into the stack pages. */
  method CopyBytes(mem: array<byte>, at: nat, data: seq<byte>)
    requires at + |data| <= mem.Length
    modifies mem
    ensures mem[at..at + |data|] == data
    ensures mem[..at] == old(mem[..at]) && mem[at + |data|..] == old(mem[at + |data|..])
  {
    for i := 0 to |data|
      invariant mem[at..at + i] == data[..i]
      invariant mem[..at] == old(mem[..at]) && mem[at + |data|..] == old(mem[at + |data|..])
    {
      mem[at + i] := data[i];
      assert mem[at..at + i + 1] == mem[at..at + i] + [data[i]];
    }
  }

  /** Each pointer of a table is inside its data. */
  predicate PointsInside(t: Table) {
    forall p | p in t.ptrs :: p < |t.data|
  }

  /** The pointers of one table into consecutive slots. */
  method StorePointers(mem: array<byte>, q: nat, from: nat, ptrs: seq<nat>, base: nat, ghost slots: seq<nat>, ghost limit: nat)
    returns (idx: nat)
    requires from + |ptrs| <= |slots| && slots[from..from + |ptrs|] == Pointers(ptrs, base)
    requires q + 4 * |slots| <= limit <= mem.Length && forall p | p in ptrs :: base + p < WORD
    requires WordsAt(mem[..], q, slots[..from])
    modifies mem
    ensures idx == from + |ptrs| && WordsAt(mem[..], q, slots[..idx]) && mem[limit..] == old(mem[limit..])
  {
    idx := from;
    for i := 0 to |ptrs|
      invariant idx == from + i && WordsAt(mem[..], q, slots[..idx]) && mem[limit..] == old(mem[limit..])
    {
      assert slots[idx] == slots[from..from + |ptrs|][i];
      assert ptrs[i] in ptrs;
      StoreSlot(mem, q, idx, base + ptrs[i], slots, limit);
      idx := idx + 1;
    }
  }

  /** The strings at the very top. */
  method PackStrings(mem: array<byte>, at: nat, argv: Table, envp: Table)
    requires at + StringBytes(argv, envp) == mem.Length
    modifies mem
    ensures mem[at..] == argv.data + envp.data
  {
    CopyBytes(mem, at, argv.data);
    ghost var first := mem[..at + |argv.data|];
    assert first[at..] == argv.data;
    CopyBytes(mem, at + |argv.data|, envp.data);
    assert mem[at..] == first[at..] + mem[at + |argv.data|..];
  }

  /** Rounding the block's start down to 16 keeps it in the pages. */
  lemma StartFits(strBytes: nat, ptrBytes: nat)
    requires strBytes + ptrBytes + 16 <= STACK_BYTES
    ensures var esp := (USER_STACK_TOP - strBytes - ptrBytes) / 16 * 16;
            STACK_BASE <= esp <= USER_STACK_TOP - strBytes - ptrBytes && esp % 16 == 0
  {
  }

  /** setup_initial_stack: it fails exactly when the block does not fit in the two stack pages. */
  method SetupInitialStack(mem: array<byte>, argv: Table, envp: Table) returns (ok: bool, esp: int)
    requires mem.Length == STACK_BYTES && PointsInside(argv) && PointsInside(envp)
    modifies mem
    ensures ok <==> |argv.data| + |envp.data| + 4 * (|argv.ptrs| + |envp.ptrs| + 3) + 16 <= STACK_BYTES
    ensures ok ==> Laid(mem[..], esp, argv, envp)
  {
    var strBytes := |argv.data| + |envp.data|;
    var ptrBytes := 4 * (|argv.ptrs| + |envp.ptrs| + 3);
    ok, esp := strBytes + ptrBytes + 16 <= STACK_BYTES, 0;
    if ok {
      StartFits(strBytes, ptrBytes);
      var strVa := USER_STACK_TOP - strBytes;
      esp := (strVa - ptrBytes) / 16 * 16;
      var at := strVa - STACK_BASE;
      PackStrings(mem, at, argv, envp);
      WriteSlots(mem, esp - STACK_BASE, argv, envp, strVa, at);
    }
  }

  /** The pointer block, slot by slot. */
  method WriteSlots(mem: array<byte>, q: nat, argv: Table, envp: Table, strVa: nat, ghost limit: nat)
    requires mem.Length == STACK_BYTES && PointsInside(argv) && PointsInside(envp)
    requires q + PointerBytes(argv, envp) <= limit <= mem.Length && strVa + StringBytes(argv, envp) == USER_STACK_TOP
    modifies mem
    ensures WordsAt(mem[..], q, Slots(argv, envp, strVa)) && mem[limit..] == old(mem[limit..])
  {
    ghost var slots := Slots(argv, envp, strVa);
    SlotsLayout(argv, envp, strVa);
    WriteRow(mem, q, argv, envp, strVa, slots, limit);
    assert slots[..|slots|] == slots;
  }

  method WriteRow(mem: array<byte>, q: nat, argv: Table, envp: Table, strVa: nat, ghost slots: seq<nat>, ghost limit: nat)
    requires PointsInside(argv) && PointsInside(envp) && strVa + |argv.data| + |envp.data| == USER_STACK_TOP
    requires |slots| == |argv.ptrs| + |envp.ptrs| + 3 && q + 4 * |slots| <= limit <= mem.Length == STACK_BYTES
    requires slots[0] == |argv.ptrs| && slots[1..1 + |argv.ptrs|] == Pointers(argv.ptrs, strVa) && slots[1 + |argv.ptrs|] == 0
    requires slots[|argv.ptrs| + 2..|argv.ptrs| + 2 + |envp.ptrs|] == Pointers(envp.ptrs, strVa + |argv.data|)
    requires slots[|argv.ptrs| + 2 + |envp.ptrs|] == 0
    modifies mem
    ensures WordsAt(mem[..], q, slots[..|slots|]) && mem[limit..] == old(mem[limit..])
  {
    StoreSlot(mem, q, 0, |argv.ptrs|, slots, limit);
    var idx := StorePointers(mem, q, 1, argv.ptrs, strVa, slots, limit);
    StoreSlot(mem, q, idx, 0, slots, limit);
    idx := StorePointers(mem, q, idx + 1, envp.ptrs, strVa + |argv.data|, slots, limit);
    StoreSlot(mem, q, idx, 0, slots, limit);
  }

  // ---- How the new program reads the block.

  /** The NUL-terminated string at a position. */
  function CString(mem: seq<byte>, i: nat): seq<byte>
    decreases |mem| - i
  {
    if i >= |mem| || mem[i] == 0 then [] else [mem[i]] + CString(mem, i + 1)
  }

  /** The strings that n consecutive pointers lead to. */
  function StringsAt(mem: seq<byte>, i: nat, n: nat): seq<seq<byte>>
    decreases n
  {
    if n == 0 || i + 4 > |mem| then []
    else [CString(mem, if Word(mem, i) >= STACK_BASE then Word(mem, i) - STACK_BASE else |mem|)] + StringsAt(mem, i + 4, n - 1)
  }

  /** The number of pointers before the next NULL. */
  function CountToNull(mem: seq<byte>, i: nat): nat
    decreases |mem| - i
  {
    if i + 4 > |mem| || Word(mem, i) == 0 then 0 else 1 + CountToNull(mem, i + 4)
  }

  datatype Arguments = Arguments(argc: nat, argv: seq<seq<byte>>, argvEnds: bool, envp: seq<seq<byte>>)

  /** Walk the block from esp: argc, that many argv pointers, whether NULL follows them, and envp up to its NULL. */
  function Parse(mem: seq<byte>, esp: int): Arguments
    requires STACK_BASE <= esp && esp + 4 <= STACK_BASE + |mem|
  {
    var e := esp - STACK_BASE;
    var argc := Word(mem, e);
    var env := e + 4 * (argc + 2);
    Arguments(argc, StringsAt(mem, e + 4, argc), env <= |mem| && Word(mem, env - 4) == 0,
              StringsAt(mem, env, CountToNull(mem, env)))
  }

  lemma {:induction false} CStringIs(mem: seq<byte>, i: nat, s: seq<byte>)
    requires i + |s| < |mem| && mem[i..i + |s|] == s && mem[i + |s|] == 0 && NoNul(s)
    ensures CString(mem, i) == s
    decreases |s|
  {
    if s != [] {
      assert mem[i] == mem[i..i + |s|][0] == s[0] && s[0] in s;
      assert mem[i + 1..i + 1 + |s[1..]|] == mem[i..i + |s|][1..] == s[1..];
      assert forall b | b in s[1..] :: b in s;
      CStringIs(mem, i + 1, s[1..]);
    }
  }

  /** At its offset in the packed data, each string can be read. */
  lemma StringAtOffset(mem: seq<byte>, lo: nat, strs: seq<seq<byte>>, n: nat)
    requires n < |strs| && NoNul(strs[n])
    requires lo + |Pack(strs)| <= |mem| && mem[lo..lo + |Pack(strs)|] == Pack(strs)
    ensures CString(mem, lo + |Pack(strs[..n])|) == strs[n]
  {
    PackAt(strs, n);
    var at, s := |Pack(strs[..n])|, strs[n];
    var packed := mem[lo..lo + |Pack(strs)|];
    forall j | 0 <= j < |s|
      ensures mem[lo + at..lo + at + |s|][j] == s[j]
    {
      assert mem[lo + at + j] == packed[at + j] == Pack(strs)[at..at + |s|][j];
    }
    assert mem[lo + at + |s|] == packed[at + |s|];
    CStringIs(mem, lo + at, s);
  }

  /** The pointer leads to the string. */
  ghost predicate Leads(mem: seq<byte>, p: nat, s: seq<byte>) {
    p >= STACK_BASE && CString(mem, p - STACK_BASE) == s
  }

  lemma {:induction false} StringsAtIs(mem: seq<byte>, q: nat, ptrs: seq<nat>, strs: seq<seq<byte>>)
    requires |ptrs| == |strs| && WordsAt(mem, q, ptrs)
    requires forall i {:trigger ptrs[i]} | 0 <= i < |ptrs| :: Leads(mem, ptrs[i], strs[i])
    ensures StringsAt(mem, q, |strs|) == strs
    decreases |strs|
  {
    if strs != [] {
      assert Word(mem, q) == ptrs[0] && Leads(mem, ptrs[0], strs[0]);
      WordsSlice(mem, q, ptrs, 1, |ptrs|);
      forall i | 0 <= i < |ptrs[1..]|
        ensures Leads(mem, ptrs[1..][i], strs[1..][i])
      {
        assert ptrs[1..][i] == ptrs[i + 1];
      }
      StringsAtIs(mem, q + 4, ptrs[1..], strs[1..]);
    }
  }

  lemma {:induction false} CountToNullIs(mem: seq<byte>, q: nat, ptrs: seq<nat>)
    requires WordsAt(mem, q, ptrs + [0]) && forall p | p in ptrs :: p != 0
    ensures CountToNull(mem, q) == |ptrs|
    decreases |ptrs|
  {
    var all := ptrs + [0];
    assert Word(mem, q) == all[0];
    if ptrs != [] {
      assert ptrs[0] in ptrs;
      WordsSlice(mem, q, all, 1, |all|);
      assert all[1..] == ptrs[1..] + [0];
      assert forall p | p in ptrs[1..] :: p in ptrs;
      CountToNullIs(mem, q + 4, ptrs[1..]);
    }
  }

  lemma WordsSlice(mem: seq<byte>, q: nat, words: seq<nat>, from: nat, to: nat)
    requires WordsAt(mem, q, words) && from <= to <= |words|
    ensures WordsAt(mem, q + 4 * from, words[from..to])
  {
    forall k | 0 <= k < to - from
      ensures Word(mem, q + 4 * from + 4 * k) == words[from..to][k]
    {
      assert Word(mem, q + 4 * (from + k)) == words[from + k];
    }
  }

  lemma WordAt(mem: seq<byte>, e: nat, words: seq<nat>, k: nat)
    requires WordsAt(mem, e, words) && k < |words|
    ensures e + 4 * k + 4 <= |mem| && Word(mem, e + 4 * k) == words[k]
  {
  }

  lemma StringsSplit(mem: seq<byte>, at: nat, a: seq<byte>, b: seq<byte>)
    requires at <= |mem| && mem[at..] == a + b
    ensures a <= mem[at..] && at + |a| <= |mem| && mem[at + |a|..] == b
  {
    assert mem[at + |a|..] == mem[at..][|a|..];
  }

  lemma ArgvRoundTrip(mem: seq<byte>, q: nat, base: nat, strs: seq<seq<byte>>)
    requires |mem| == STACK_BYTES && (forall s | s in strs :: NoNul(s)) && WordsAt(mem, q, Pointers(TableOf(strs).ptrs, base))
    requires STACK_BASE <= base <= USER_STACK_TOP && Pack(strs) <= mem[base - STACK_BASE..]
    ensures StringsAt(mem, q, |strs|) == strs
  {
    var ptrs := Pointers(TableOf(strs).ptrs, base);
    var lo := base - STACK_BASE;
    assert mem[lo..lo + |Pack(strs)|] == mem[lo..][..|Pack(strs)|];
    forall i | 0 <= i < |ptrs|
      ensures Leads(mem, ptrs[i], strs[i])
    {
      assert strs[i] in strs;
      StringAtOffset(mem, lo, strs, i);
    }
    StringsAtIs(mem, q, ptrs, strs);
  }

  lemma EnvpRoundTrip(mem: seq<byte>, q: nat, base: nat, strs: seq<seq<byte>>)
    requires |mem| == STACK_BYTES && (forall s | s in strs :: NoNul(s)) && WordsAt(mem, q, Pointers(TableOf(strs).ptrs, base) + [0])
    requires STACK_BASE <= base <= USER_STACK_TOP && mem[base - STACK_BASE..] == Pack(strs)
    ensures StringsAt(mem, q, CountToNull(mem, q)) == strs
  {
    var ptrs := Pointers(TableOf(strs).ptrs, base);
    CountToNullIs(mem, q, ptrs);
    WordsSlice(mem, q, ptrs + [0], 0, |ptrs|);
    assert (ptrs + [0])[0..|ptrs|] == ptrs;
    ArgvRoundTrip(mem, q, base, strs);
  }

  lemma LaidHead(mem: seq<byte>, e: nat, a: Table, b: Table)
    requires Laid(mem, STACK_BASE + e, a, b)
    ensures var env := e + 4 * (|a.ptrs| + 2); env <= |mem| && Word(mem, e) == |a.ptrs| && Word(mem, env - 4) == 0
  {
    SlotsLayout(a, b, StringVa(a, b));
    LaidWord(mem, e, a, b, 0);
    LaidWord(mem, e, a, b, 1 + |a.ptrs|);
  }

  lemma LaidWord(mem: seq<byte>, e: nat, a: Table, b: Table, i: nat)
    requires Laid(mem, STACK_BASE + e, a, b) && i < |Slots(a, b, StringVa(a, b))|
    ensures e + 4 * i + 4 <= |mem| && Word(mem, e + 4 * i) == Slots(a, b, StringVa(a, b))[i]
  {
    WordAt(mem, e, Slots(a, b, StringVa(a, b)), i);
  }

  lemma LaidArgv(mem: seq<byte>, e: nat, argv: seq<seq<byte>>, b: Table)
    requires Laid(mem, STACK_BASE + e, TableOf(argv), b) && forall s | s in argv :: NoNul(s)
    ensures StringsAt(mem, e + 4, |argv|) == argv
  {
    var a := TableOf(argv);
    var strVa := StringVa(a, b);
    SlotsLayout(a, b, strVa);
    StringsSplit(mem, strVa - STACK_BASE, a.data, b.data);
    WordsSlice(mem, e, Slots(a, b, strVa), 1, 1 + |a.ptrs|);
    ArgvRoundTrip(mem, e + 4, strVa, argv);
  }

  lemma EnvpRow(mem: seq<byte>, e: nat, a: Table, b: Table)
    requires Laid(mem, STACK_BASE + e, a, b)
    ensures WordsAt(mem, e + 4 * (|a.ptrs| + 2), Pointers(b.ptrs, StringVa(a, b) + |a.data|) + [0])
  {
    var slots := Slots(a, b, StringVa(a, b));
    SlotsLayout(a, b, StringVa(a, b));
    WordsSlice(mem, e, slots, |a.ptrs| + 2, |a.ptrs| + |b.ptrs| + 3);
  }

  lemma LaidEnvp(mem: seq<byte>, e: nat, a: Table, envp: seq<seq<byte>>)
    requires Laid(mem, STACK_BASE + e, a, TableOf(envp)) && forall s | s in envp :: NoNul(s)
    ensures var env := e + 4 * (|a.ptrs| + 2); StringsAt(mem, env, CountToNull(mem, env)) == envp
  {
    var b := TableOf(envp);
    EnvpRow(mem, e, a, b);
    StringsSplit(mem, StringVa(a, b) - STACK_BASE, a.data, b.data);
    EnvpRoundTrip(mem, e + 4 * (|a.ptrs| + 2), StringVa(a, b) + |a.data|, envp);
  }

  /** Printing and reading are inverse: the program finds exactly the argument and environment strings. */
  lemma StackRoundTrip(mem: seq<byte>, esp: int, argv: seq<seq<byte>>, envp: seq<seq<byte>>)
    requires Laid(mem, esp, TableOf(argv), TableOf(envp))
    requires (forall s | s in argv :: NoNul(s)) && (forall s | s in envp :: NoNul(s))
    ensures Parse(mem, esp) == Arguments(|argv|, argv, true, envp)
  {
    var e := esp - STACK_BASE;
    LaidStrings(mem, e, argv, envp);
    ParseIs(mem, e, argv, envp);
  }

  lemma LaidStrings(mem: seq<byte>, e: nat, argv: seq<seq<byte>>, envp: seq<seq<byte>>)
    requires Laid(mem, STACK_BASE + e, TableOf(argv), TableOf(envp))
    requires (forall s | s in argv :: NoNul(s)) && (forall s | s in envp :: NoNul(s))
    ensures e + 4 * (|argv| + 2) <= |mem| && Word(mem, e) == |argv| && Word(mem, e + 4 * (|argv| + 2) - 4) == 0
    ensures StringsAt(mem, e + 4, |argv|) == argv
    ensures StringsAt(mem, e + 4 * (|argv| + 2), CountToNull(mem, e + 4 * (|argv| + 2))) == envp
  {
    LaidHead(mem, e, TableOf(argv), TableOf(envp));
    LaidArgv(mem, e, argv, TableOf(envp));
    LaidEnvp(mem, e, TableOf(argv), envp);
  }

  lemma ParseIs(mem: seq<byte>, e: nat, argv: seq<seq<byte>>, envp: seq<seq<byte>>)
    requires e + 4 * (|argv| + 2) <= |mem| && Word(mem, e) == |argv| && Word(mem, e + 4 * (|argv| + 2) - 4) == 0
    requires StringsAt(mem, e + 4, |argv|) == argv
    requires StringsAt(mem, e + 4 * (|argv| + 2), CountToNull(mem, e + 4 * (|argv| + 2))) == envp
    ensures Parse(mem, STACK_BASE + e) == Arguments(|argv|, argv, true, envp)
  {
  }

  lemma TablePointsInside(strs: seq<seq<byte>>)
    ensures PointsInside(TableOf(strs))
  {
    forall p | p in TableOf(strs).ptrs
      ensures p < |Pack(strs)|
    {
      var i :| 0 <= i < |strs| && TableOf(strs).ptrs[i] == p;
      PackAt(strs, i);
    }
  }

  /** A NULL array, or one with strings that can all be read and fit together. */
  ghost predicate CanCopy(user: UserMemory, ptrs: nat) {
    ptrs == 0 || (UserStrings(user, ptrs, 0).Some? && |Pack(UserStrings(user, ptrs, 0).value)| <= EXEC_MAX_DATA)
  }

  /** From user memory of the old program to the arguments of the new one: when both arrays can be copied, the new program
      gets exactly their strings, or its path as its only argument when there were none. The block always fits. */
  method PassArguments(user: UserMemory, userArgv: nat, userEnvp: nat, path: seq<byte>, mem: array<byte>)
    returns (ok: bool, esp: int, ghost argv: seq<seq<byte>>, ghost envp: seq<seq<byte>>)
    requires mem.Length == STACK_BYTES && NoNul(path) && |path| < 256
    modifies mem
    ensures ok <==> CanCopy(user, userArgv) && CanCopy(user, userEnvp)
    ensures ok ==> argv == (if userArgv == 0 || UserStrings(user, userArgv, 0) == Some([]) then [path] else UserStrings(user, userArgv, 0).value)
    ensures ok ==> envp == if userEnvp == 0 then [] else UserStrings(user, userEnvp, 0).value
    ensures ok ==> STACK_BASE <= esp < USER_STACK_TOP - 4 && esp % 16 == 0 && Parse(mem[..], esp) == Arguments(|argv|, argv, true, envp)
  {
    var a, b;
    a, ok, argv := CopyExecStrings(user, userArgv);
    envp, esp := [], 0;
    if ok {
      b, ok, envp := CopyExecStrings(user, userEnvp);
      if ok {
        if |a.ptrs| == 0 {
          a, argv := DefaultArgv(path);
        }
        esp := Build(mem, a, b, argv, envp);
      }
    }
  }

  /** The table with the path as only argument. */
  method DefaultArgv(path: seq<byte>) returns (t: Table, ghost argv: seq<seq<byte>>)
    requires NoNul(path) && |path| < 256
    ensures argv == [path] && t == TableOf(argv) && |t.data| <= EXEC_MAX_DATA && forall s | s in argv :: NoNul(s)
  {
    t, argv := Table([0], path + [0]), [path];
    PushString([], path);
    assert [] + [path] == [path];
    assert [] + path == path;
  }

  /** Tables that copy_exec_strings can make always fit, and are read back. */
  method Build(mem: array<byte>, a: Table, b: Table, ghost argv: seq<seq<byte>>, ghost envp: seq<seq<byte>>) returns (esp: int)
    requires mem.Length == STACK_BYTES && a == TableOf(argv) && b == TableOf(envp)
    requires |argv| < EXEC_MAX_ARGS && |envp| < EXEC_MAX_ARGS && |a.data| <= EXEC_MAX_DATA && |b.data| <= EXEC_MAX_DATA
    requires (forall s | s in argv :: NoNul(s)) && (forall s | s in envp :: NoNul(s))
    modifies mem
    ensures STACK_BASE <= esp < USER_STACK_TOP - 4 && esp % 16 == 0 && Parse(mem[..], esp) == Arguments(|argv|, argv, true, envp)
  {
    TablePointsInside(argv);
    TablePointsInside(envp);
    var ok;
    ok, esp := SetupInitialStack(mem, a, b);
    StackRoundTrip(mem[..], esp, argv, envp);
  }
}
