/** The mount table: longest-prefix resolution (fs/vfs.c). */
module Mounts {
  import opened PathNames
  import opened PathText
  import opened ResolvePath

  const MAX_MOUNT_POINTS := 16

  datatype Slot = Free | Mounted(path: string, fs: int)

  /** A mount path matches when it is "/" or a prefix that ends where a component ends. */
  predicate Matches(abs: string, m: string) {
    m == "/" || (m <= abs && (|m| == |abs| || abs[|m|] == '/'))
  }

  lemma PrefixMatches(abs: string, a: seq<string>, m: seq<string>)
    requires Denotes(abs, a) && m <= a && m != []
    ensures Matches(abs, Text(m))
  {
    var rest := a[|m|..];
    assert a == m + rest;
    JoinConcat(m, rest);
    MatchesBySlash(abs, Text(m), Join(rest));
  }

  lemma MatchesBySlash(abs: string, t: string, rest: string)
    requires rest == "" || rest[0] == '/'
    requires abs == t + rest || abs == t + rest + "/"
    ensures Matches(abs, t)
  {
  }

  lemma MatchIsPrefix(abs: string, a: seq<string>, m: seq<string>)
    requires Denotes(abs, a) && AllPlain(a) && AllPlain(m) && m != [] && Matches(abs, Text(m))
    ensures m <= a
  {
    PlainAreNames(a);
    PlainAreNames(m);
    JoinEndsPlain(m);
    DenotesComponents(abs, a);
    DenotesComponents(Text(m), m);
    MatchSplits(abs, Text(m));
  }

  lemma MatchSplits(abs: string, t: string)
    requires Matches(abs, t) && t != "/"
    ensures Components(t) <= Components(abs)
  {
    var rest := abs[|t|..];
    assert abs == t + rest;
    ComponentsConcat(t, rest);
  }

  /** For normalised paths, matching is being a prefix by components. */
  lemma MatchIsComponentPrefix(abs: string, a: seq<string>, m: seq<string>)
    requires Denotes(abs, a) && AllPlain(a) && AllPlain(m)
    ensures Matches(abs, Text(m)) <==> m <= a
  {
    if m != [] {
      if m <= a {
        PrefixMatches(abs, a, m);
      }
      if Matches(abs, Text(m)) {
        MatchIsPrefix(abs, a, m);
      }
    }
  }

  /** Two matching paths of the same length are the same: the longest match does not depend on the slot order. */
  lemma MatchOfLengthIsUnique(abs: string, m: string, n: string)
    requires Matches(abs, m) && Matches(abs, n) && |m| == |n| && abs != "" && abs[0] == '/'
    ensures m == n
  {
  }

  /** The in-use slot with the longest match, or -1. */
  ghost predicate IsBest(table: seq<Slot>, abs: string, best: int) {
    if best < 0 then forall i | 0 <= i < |table| && table[i].Mounted? :: !Matches(abs, table[i].path)
    else best < |table| && table[best].Mounted? && Matches(abs, table[best].path)
         && forall i | 0 <= i < |table| && table[i].Mounted? && Matches(abs, table[i].path) :: |table[i].path| <= |table[best].path|
  }

  /** No two slots have the same path, and each has a text that resolve_path could give. */
  ghost predicate TableOk(table: seq<Slot>) {
    && |table| == MAX_MOUNT_POINTS
    && (forall i | 0 <= i < |table| && table[i].Mounted? :: table[i].path != "")
    && (forall i, j | 0 <= i < j < |table| && table[i].Mounted? && table[j].Mounted? :: table[i].path != table[j].path)
  }

  /** Any two best slots are the same slot. */
  lemma BestIsUnique(table: seq<Slot>, abs: string, b: int, c: int)
    requires TableOk(table) && abs != "" && abs[0] == '/' && IsBest(table, abs, b) && IsBest(table, abs, c)
    ensures b == c || (b < 0 && c < 0)
  {
    if b >= 0 && c >= 0 {
      MatchOfLengthIsUnique(abs, table[b].path, table[c].path);
    }
  }

  /** find_mount_point */
  method FindMountPoint(table: seq<Slot>, abs: string) returns (best: int, matchLen: nat)
    requires TableOk(table)
    ensures IsBest(table, abs, best)
    ensures matchLen == if best < 0 then 0 else |table[best].path|
  {
    best, matchLen := -1, 0;
    for i := 0 to |table|
      invariant best < i && (best >= 0 ==> table[best].Mounted? && Matches(abs, table[best].path))
      invariant matchLen == if best < 0 then 0 else |table[best].path|
      invariant forall k | 0 <= k < i && table[k].Mounted? && Matches(abs, table[k].path) :: best >= 0 && |table[k].path| <= matchLen
    {
      if table[i].Mounted? {
        var m := table[i].path;
        if |m| == 1 && m[0] == '/' {
          if |m| > matchLen {
            best, matchLen := i, |m|;
          }
        } else if m <= abs {
          if |m| == |abs| || abs[|m|] == '/' {
            if |m| > matchLen {
              best, matchLen := i, |m|;
            }
          }
        }
      }
    }
  }

  /** resolve_mount: for normalised paths, the mount with the longest component prefix of the path, and what is left of
      the path below it. */
  method ResolveMount(table: seq<Slot>, abs: string, ghost a: seq<string>, ghost stacks: seq<seq<string>>) returns (best: int, rel: string)
    requires TableOk(table) && Denotes(abs, a) && AllPlain(a)
    requires |stacks| == |table| && forall i | 0 <= i < |table| && table[i].Mounted? :: AllPlain(stacks[i]) && table[i].path == Text(stacks[i])
    ensures IsBest(table, abs, best)
    ensures best < 0 ==> forall i | 0 <= i < |table| && table[i].Mounted? :: !(stacks[i] <= a)
    ensures best >= 0 ==> stacks[best] <= a && Components(rel) == a[|stacks[best]|..]
    ensures best >= 0 ==> forall i | 0 <= i < |table| && table[i].Mounted? && stacks[i] <= a :: |stacks[i]| <= |stacks[best]|
  {
    var matchLen;
    best, matchLen := FindMountPoint(table, abs);
    rel := "";
    forall i | 0 <= i < |table| && table[i].Mounted?
      ensures Matches(abs, table[i].path) <==> stacks[i] <= a
    {
      MatchIsComponentPrefix(abs, a, stacks[i]);
    }
    if best >= 0 {
      rel := if matchLen >= |abs| then "/" else abs[matchLen..];
      RelativePart(abs, a, stacks[best]);
      forall i | 0 <= i < |table| && table[i].Mounted? && stacks[i] <= a
        ensures |stacks[i]| <= |stacks[best]|
      {
        if |stacks[i]| > |stacks[best]| {
          LongerStackLongerText(stacks[best], stacks[i]);
        }
      }
    }
  }

  lemma LongerStackLongerText(m: seq<string>, n: seq<string>)
    requires AllPlain(n) && m <= n && |m| < |n|
    ensures |Text(m)| < |Text(n)|
  {
    assert n == m + n[|m|..];
    JoinConcat(m, n[|m|..]);
    var c := n[|m|];
    assert c in n && IsPlain(c);
    assert |Join(n[|m|..])| >= 2;
  }

  /** What is left behind the mount path has the remaining components. */
  lemma RelativePart(abs: string, a: seq<string>, m: seq<string>)
    requires Denotes(abs, a) && AllPlain(a) && AllPlain(m) && m <= a && Matches(abs, Text(m))
    ensures var n := |Text(m)|; Components(if n >= |abs| then "/" else abs[n..]) == a[|m|..]
  {
    PlainAreNames(a);
    DenotesComponents(abs, a);
    SlashHasNoComponents();
    var n := |Text(m)|;
    if m == [] {
      RestAfter("/", abs, [], a);
    } else {
      PlainAreNames(m);
      DenotesComponents(Text(m), m);
      RestAfter(Text(m), abs, m, a);
    }
    assert n >= |abs| ==> abs[n..] == "" && Components("") == [];
  }

  lemma RestAfter(t: string, abs: string, m: seq<string>, a: seq<string>)
    requires t <= abs && Components(t) == m && Components(abs) == a
    requires t != "" && (t[|t| - 1] == '/' || |t| == |abs| || abs[|t|] == '/')
    ensures m <= a && Components(abs[|t|..]) == a[|m|..]
  {
    assert abs == t + abs[|t|..];
    ComponentsConcat(t, abs[|t|..]);
  }

  /** fs_mount: paths stay distinct. */
  method Mount(table: seq<Slot>, path: string, fs: int, driverOk: bool) returns (table': seq<Slot>, ok: bool)
    requires TableOk(table) && path != ""
    ensures TableOk(table')
    ensures ok <==> (forall i | 0 <= i < |table| :: table[i] == Free || table[i].path != path) && driverOk && Free in table
    ensures if ok then exists i :: 0 <= i < |table| && table[i] == Free && (forall j | 0 <= j < i :: table[j] != Free)
                                   && table' == table[i := Mounted(path, fs)]
            else table' == table
  {
    table', ok := table, false;
    var mounted := false;
    for i := 0 to |table|
      invariant mounted <==> exists k :: 0 <= k < i && table[k].Mounted? && table[k].path == path
    {
      if table[i].Mounted? && table[i].path == path {
        mounted := true;
      }
    }
    if !mounted {
      var slot := 0;
      while slot < |table| && table[slot] != Free
        invariant slot <= |table| && forall k | 0 <= k < slot :: table[k] != Free
      {
        slot := slot + 1;
      }
      if slot < |table| && driverOk {
        table', ok := table[slot := Mounted(path, fs)], true;
      }
    }
  }
}
