/** Copying the argument and environment strings of exec into kernel tables (kernel/process.c). */
module ExecStrings {
  newtype byte = x: int | 0 <= x < 256

  const EXEC_MAX_ARGS := 32
  const EXEC_MAX_STR := 128
  const EXEC_MAX_DATA := 1024

  /** The readable bytes of user memory; reading any other address faults. */
  type UserMemory = map<nat, byte>

  datatype Option<T> = None | Some(value: T)

  /** exec_strings_t: where each string starts in the packed data. */
  datatype Table = Table(ptrs: seq<nat>, data: seq<byte>)

  /** Strings packed one after the other, each with its NUL. */
  function Pack(strs: seq<seq<byte>>): seq<byte> {
    if strs == [] then [] else Pack(strs[..|strs| - 1]) + strs[|strs| - 1] + [0]
  }

  /** The table of a list of strings. */
  function TableOf(strs: seq<seq<byte>>): (t: Table)
    ensures |t.ptrs| == |strs|
  {
    Table(seq(|strs|, i requires 0 <= i < |strs| => |Pack(strs[..i])|), Pack(strs))
  }

  lemma {:induction false} PackConcat(a: seq<seq<byte>>, b: seq<seq<byte>>)
    ensures Pack(a + b) == Pack(a) + Pack(b)
    decreases |b|
  {
    if b == [] {
      assert a + b == a;
    } else {
      assert (a + b)[..|a + b| - 1] == a + b[..|b| - 1];
      PackConcat(a, b[..|b| - 1]);
    }
  }

  /** String i lies at its offset, followed by its NUL. */
  lemma PackAt(strs: seq<seq<byte>>, i: nat)
    requires i < |strs|
    ensures var at := |Pack(strs[..i])|;
            && at + |strs[i]| < |Pack(strs)|
            && Pack(strs)[at..at + |strs[i]|] == strs[i] && Pack(strs)[at + |strs[i]|] == 0
  {
    assert strs == strs[..i + 1] + strs[i + 1..];
    PackConcat(strs[..i + 1], strs[i + 1..]);
    assert strs[..i + 1][..i] == strs[..i];
    assert Pack(strs[..i + 1]) == Pack(strs[..i]) + strs[i] + [0];
  }

  lemma {:induction false} PackGrows(strs: seq<seq<byte>>, n: nat)
    requires n <= |strs|
    ensures |Pack(strs[..n])| <= |Pack(strs)|
  {
    assert strs == strs[..n] + strs[n..];
    PackConcat(strs[..n], strs[n..]);
  }

  /** A word of user memory. */
  function UserWord(user: UserMemory, a: nat): (w: Option<nat>)
    ensures w.Some? <==> a in user && a + 1 in user && a + 2 in user && a + 3 in user
  {
    if a in user && a + 1 in user && a + 2 in user && a + 3 in user
    then Some(user[a] as nat + 256 * (user[a + 1] as nat) + 65536 * (user[a + 2] as nat) + 16777216 * (user[a + 3] as nat))
    else None
  }

  /** The word's bytes, the lowest first. */
  lemma UserWordBytes(user: UserMemory, a: nat)
    requires UserWord(user, a).Some?
    ensures var w := UserWord(user, a).value;
            && w % 256 == user[a] as nat && w / 256 % 256 == user[a + 1] as nat
            && w / 256 / 256 % 256 == user[a + 2] as nat && w / 256 / 256 / 256 == user[a + 3] as nat
  {
    var b0, b1, b2, b3 := user[a] as nat, user[a + 1] as nat, user[a + 2] as nat, user[a + 3] as nat;
    LowByte(b0, b1 + 256 * (b2 + 256 * b3));
    LowByte(b1, b2 + 256 * b3);
    LowByte(b2, b3);
  }

  lemma LowByte(b: nat, rest: nat)
    requires b < 256
    ensures (b + 256 * rest) % 256 == b && (b + 256 * rest) / 256 == rest
  {
  }

  /** The user string at p from its byte n on, cut off at the length limit. */
  function UserString(user: UserMemory, p: nat, n: nat): Option<seq<byte>>
    requires n < EXEC_MAX_STR
    decreases EXEC_MAX_STR - n
  {
    if n == EXEC_MAX_STR - 1 then Some([])
    else if p + n !in user then None
    else if user[p + n] == 0 then Some([])
    else Prefixed([user[p + n]], UserString(user, p, n + 1))
  }

  /** The strings of a NULL-terminated array from entry i on, cut off at the table size. */
  function UserStrings(user: UserMemory, ptrs: nat, i: nat): Option<seq<seq<byte>>>
    requires i < EXEC_MAX_ARGS
    decreases EXEC_MAX_ARGS - i
  {
    if i == EXEC_MAX_ARGS - 1 then Some([])
    else match UserWord(user, ptrs + 4 * i)
         case None => None
         case Some(p) =>
           if p == 0 then Some([])
           else match UserString(user, p, 0)
                case None => None
                case Some(s) => Prefixed([s], UserStrings(user, ptrs, i + 1))
  }

  predicate NoNul(s: seq<byte>) {
    forall b | b in s :: b != 0
  }

  /** What can be in a table: no NUL inside a string, and bounded lengths. */
  predicate IsArg(s: seq<byte>) {
    NoNul(s) && |s| < EXEC_MAX_STR
  }

  lemma {:induction false} UserStringIsArg(user: UserMemory, p: nat, n: nat)
    requires n < EXEC_MAX_STR
    ensures UserString(user, p, n).Some? ==> NoNul(UserString(user, p, n).value) && |UserString(user, p, n).value| + n < EXEC_MAX_STR
    decreases EXEC_MAX_STR - n
  {
    if n < EXEC_MAX_STR - 1 {
      UserStringIsArg(user, p, n + 1);
    }
  }

  lemma {:induction false} UserStringsAreArgs(user: UserMemory, ptrs: nat, i: nat)
    requires i < EXEC_MAX_ARGS && UserStrings(user, ptrs, i).Some?
    ensures var strs := UserStrings(user, ptrs, i).value;
            |strs| + i < EXEC_MAX_ARGS && forall s | s in strs :: IsArg(s)
    decreases EXEC_MAX_ARGS - i
  {
    if i < EXEC_MAX_ARGS - 1 && UserWord(user, ptrs + 4 * i).value != 0 {
      UserStringIsArg(user, UserWord(user, ptrs + 4 * i).value, 0);
      UserStringsAreArgs(user, ptrs, i + 1);
    }
  }

  function Prefixed<T>(a: seq<T>, o: Option<seq<T>>): Option<seq<T>> {
    match o
    case None => None
    case Some(rest) => Some(a + rest)
  }

  lemma PrefixedTwice<T>(a: seq<T>, x: T, o: Option<seq<T>>)
    ensures Prefixed(a, Prefixed([x], o)) == Prefixed(a + [x], o)
    ensures Prefixed([], o) == o
    ensures Prefixed(a, Some([])) == Some(a)
  {
    if o.Some? {
      assert a + ([x] + o.value) == a + [x] + o.value;
      assert [] + o.value == o.value;
    }
    assert a + [] == a;
  }

  ghost predicate HasByte(user: UserMemory, a: nat, c: byte) {
    a in user && user[a] == c && c != 0
  }

  /** The bytes, none of them NUL, lie in user memory from p on. */
  ghost predicate StandsAt(user: UserMemory, p: nat, s: seq<byte>) {
    |s| <= 127 && forall k | 0 <= k < |s| :: HasByte(user, p + k, s[k])
  }

  lemma OneByteMore(user: UserMemory, p: nat, s: seq<byte>, c: byte)
    requires StandsAt(user, p, s) && |s| < 127 && HasByte(user, p + |s|, c)
    ensures StandsAt(user, p, s + [c])
  {
    forall k | 0 <= k < |s| + 1
      ensures HasByte(user, p + k, (s + [c])[k])
    {
      assert k < |s| ==> HasByte(user, p + k, s[k]);
    }
  }

  /** Pointer k of an array leads to this string. */
  ghost predicate PointsTo(user: UserMemory, ptrs: nat, k: nat, s: seq<byte>) {
    var w := UserWord(user, ptrs + 4 * k);
    w.Some? && w.value != 0 && UserString(user, w.value, 0) == Some(s)
  }

  ghost predicate HasString(user: UserMemory, ptrs: nat, k: nat) {
    exists s :: PointsTo(user, ptrs, k, s)
  }

  /** The strings that the pointers lead to, up to a NULL pointer or the size of the table. */
  ghost predicate IsArray(user: UserMemory, ptrs: nat, strs: seq<seq<byte>>) {
    && |strs| <= 31 && (forall k | 0 <= k < |strs| :: PointsTo(user, ptrs, k, strs[k]))
    && (|strs| == 31 || UserWord(user, ptrs + 4 * |strs|) == Some(0))
  }

  /** The strings are those of the pointers in order, up to a NULL pointer or the size of the table. */
  lemma {:induction false} StringsOfPointers(user: UserMemory, ptrs: nat, i: nat)
    requires i < EXEC_MAX_ARGS && UserStrings(user, ptrs, i).Some?
    ensures var strs := UserStrings(user, ptrs, i).value;
            && (forall k | 0 <= k < |strs| :: PointsTo(user, ptrs, i + k, strs[k]))
            && i + |strs| <= 31 && (i + |strs| == 31 || UserWord(user, ptrs + 4 * (i + |strs|)) == Some(0))
    decreases EXEC_MAX_ARGS - i
  {
    if i < EXEC_MAX_ARGS - 1 && UserWord(user, ptrs + 4 * i).value != 0 {
      StringsOfPointers(user, ptrs, i + 1);
      var strs, rest := UserStrings(user, ptrs, i).value, UserStrings(user, ptrs, i + 1).value;
      assert strs[1..] == rest;
      assert PointsTo(user, ptrs, i, strs[0]);
      forall k | 0 < k < |strs|
        ensures PointsTo(user, ptrs, i + k, strs[k])
      {
        assert strs[k] == rest[k - 1] && PointsTo(user, ptrs, i + 1 + (k - 1), rest[k - 1]);
      }
    }
  }

  /** When they cannot be had, some pointer before the end of the array cannot be read, or its string cannot. */
  lemma {:induction false} UnreadableStrings(user: UserMemory, ptrs: nat, i: nat) returns (k: nat)
    requires i < EXEC_MAX_ARGS && UserStrings(user, ptrs, i).None?
    ensures i <= k < 31 && forall j | i <= j < k :: HasString(user, ptrs, j)
    ensures var w := UserWord(user, ptrs + 4 * k); w == None || (w.value != 0 && UserString(user, w.value, 0) == None)
    decreases EXEC_MAX_ARGS - i
  {
    k := i;
    var w := UserWord(user, ptrs + 4 * i);
    if w.Some? && UserString(user, w.value, 0).Some? {
      assert PointsTo(user, ptrs, i, UserString(user, w.value, 0).value);
      assert HasString(user, ptrs, i);
      k := UnreadableStrings(user, ptrs, i + 1);
    }
  }

  /** The inner loop: one string, byte by byte. */
  method CopyString(user: UserMemory, p: nat) returns (s: Option<seq<byte>>)
    ensures s == UserString(user, p, 0)
    ensures s.Some? ==> StandsAt(user, p, s.value) && (|s.value| == 127 || (p + |s.value| in user && user[p + |s.value|] == 0))
    ensures s.None? ==> exists t :: StandsAt(user, p, t) && |t| < 127 && p + |t| !in user
  {
    var tmp: seq<byte> := [];
    var more := true;
    PrefixedTwice(tmp, 0, UserString(user, p, 0));
    while |tmp| < EXEC_MAX_STR - 1 && more
      invariant |tmp| < EXEC_MAX_STR && StandsAt(user, p, tmp)
      invariant !more ==> p + |tmp| in user && user[p + |tmp|] == 0
      invariant UserString(user, p, 0) == if more then Prefixed(tmp, UserString(user, p, |tmp|)) else Some(tmp)
      decreases more, EXEC_MAX_STR - |tmp|
    {
      if p + |tmp| !in user {
        return None;
      }
      var c := user[p + |tmp|];
      PrefixedTwice(tmp, c, UserString(user, p, |tmp| + 1));
      if c == 0 {
        more := false;
      } else {
        OneByteMore(user, p, tmp, c);
        tmp := tmp + [c];
      }
    }
    PrefixedTwice(tmp, 0, None);
    s := Some(tmp);
  }

  /** How one turn of the loop of copy_exec_strings ends. */
  datatype Turn = Stop | Fail | Next(table: Table)

  /** One turn of the loop of copy_exec_strings, with strs already packed. */
  method CopyNext(user: UserMemory, ptrs: nat, table: Table, ghost strs: seq<seq<byte>>) returns (turn: Turn, ghost s: seq<byte>)
    requires |strs| < EXEC_MAX_ARGS - 1 && table == TableOf(strs) && |table.data| <= EXEC_MAX_DATA
    ensures match turn
            case Stop => UserStrings(user, ptrs, |strs|) == Some([])
            case Fail => UserStrings(user, ptrs, |strs|).Some? ==> |Pack(strs + UserStrings(user, ptrs, |strs|).value)| > EXEC_MAX_DATA
            case Next(t) => UserStrings(user, ptrs, |strs|) == Prefixed([s], UserStrings(user, ptrs, |strs| + 1))
                            && t == TableOf(strs + [s]) && |t.data| <= EXEC_MAX_DATA
  {
    turn, s := Fail, [];
    var word := UserWord(user, ptrs + 4 * |table.ptrs|);
    if word.Some? {
      if word.value == 0 {
        turn := Stop;
      } else {
        var r := CopyString(user, word.value);
        if r.Some? {
          s := r.value;
          PushString(strs, s);
          if |table.data| + |r.value| + 1 <= EXEC_MAX_DATA {
            turn := Next(Table(table.ptrs + [|table.data|], table.data + r.value + [0]));
          } else {
            var all := UserStrings(user, ptrs, |table.ptrs|);
            if all.Some? {
              PackGrows(strs + all.value, |strs| + 1);
              assert (strs + all.value)[..|strs| + 1] == strs + [s];
            }
          }
        }
      }
    }
  }

  lemma ArrayOf(user: UserMemory, ptrs: nat)
    requires UserStrings(user, ptrs, 0).Some?
    ensures IsArray(user, ptrs, UserStrings(user, ptrs, 0).value)
  {
    StringsOfPointers(user, ptrs, 0);
    var strs := UserStrings(user, ptrs, 0).value;
    forall k | 0 <= k < |strs|
      ensures PointsTo(user, ptrs, k, strs[k])
    {
      assert PointsTo(user, ptrs, 0 + k, strs[k]);
    }
  }

  /** The loop of copy_exec_strings. */
  method CopyAll(user: UserMemory, ptrs: nat) returns (table: Table, ok: bool, ghost strs: seq<seq<byte>>)
    ensures ok <==> UserStrings(user, ptrs, 0).Some? && |Pack(UserStrings(user, ptrs, 0).value)| <= EXEC_MAX_DATA
    ensures ok ==> table == TableOf(strs) && strs == UserStrings(user, ptrs, 0).value && |table.data| <= EXEC_MAX_DATA
  {
    table, ok, strs := Table([], []), true, [];
    assert TableOf([]) == Table([], []);
    var more := true;
    PrefixedTwice(strs, [], UserStrings(user, ptrs, 0));
    while |table.ptrs| < EXEC_MAX_ARGS - 1 && more
      invariant |strs| == |table.ptrs| < EXEC_MAX_ARGS && table == TableOf(strs) && |table.data| <= EXEC_MAX_DATA
      invariant ok ==> UserStrings(user, ptrs, 0) == if more then Prefixed(strs, UserStrings(user, ptrs, |strs|)) else Some(strs)
      invariant !ok ==> !more && (UserStrings(user, ptrs, 0).Some? ==> |Pack(UserStrings(user, ptrs, 0).value)| > EXEC_MAX_DATA)
      decreases more, EXEC_MAX_ARGS - |table.ptrs|
    {
      ghost var s;
      var turn;
      turn, s := CopyNext(user, ptrs, table, strs);
      PrefixedTwice(strs, s, UserStrings(user, ptrs, |strs| + 1));
      match turn
      case Stop =>
        more := false;
      case Fail =>
        more, ok := false, false;
      case Next(t) =>
        table := t;
        strs := strs + [s];
    }
    PrefixedTwice(strs, [], None);
  }

  /** copy_exec_strings: it succeeds exactly when no read faults and the strings fit, and then packs the strings that the
      pointers lead to, in order, up to a NULL pointer or the size of the table. */
  method CopyExecStrings(user: UserMemory, ptrs: nat) returns (table: Table, ok: bool, ghost strs: seq<seq<byte>>)
    ensures ok <==> ptrs == 0 || (UserStrings(user, ptrs, 0).Some? && |Pack(UserStrings(user, ptrs, 0).value)| <= EXEC_MAX_DATA)
    ensures ok ==> table == TableOf(strs) && strs == (if ptrs == 0 then [] else UserStrings(user, ptrs, 0).value)
    ensures ok ==> |strs| < EXEC_MAX_ARGS && |table.data| <= EXEC_MAX_DATA && forall s | s in strs :: IsArg(s)
    ensures ok && ptrs != 0 ==> IsArray(user, ptrs, strs)
  {
    table, ok, strs := Table([], []), true, [];
    assert TableOf([]) == Table([], []);
    if ptrs != 0 {
      table, ok, strs := CopyAll(user, ptrs);
      if ok {
        ArrayOf(user, ptrs);
        UserStringsAreArgs(user, ptrs, 0);
      }
    }
  }

  /** Appending a string to a table. */
  lemma PushString(strs: seq<seq<byte>>, s: seq<byte>)
    ensures var t := TableOf(strs);
            && TableOf(strs + [s]) == Table(t.ptrs + [|t.data|], t.data + s + [0])
            && |Pack(strs + [s])| == |t.data| + |s| + 1
  {
    assert (strs + [s])[..|strs|] == strs;
    forall i | 0 <= i < |strs|
      ensures (strs + [s])[..i] == strs[..i]
    {
    }
  }
}
