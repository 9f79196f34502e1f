/** resolve_path: normalising a path in one buffer under a chroot boundary (fs/vfs.c). */
module ResolvePath {
  import opened PathNames
  import opened PathText

  const MAX_PATH_LEN := 256

  /** The raw absolute path before normalisation. */
  function Raw(root: string, cwd: string, input: string): string
    requires root != ""
  {
    if input != "" && input[0] == '/' then
      (if |root| > 1 then (if input == "/" then root else root + input) else input)
    else
      (if cwd != "" && cwd[|cwd| - 1] != '/' then cwd + "/" else cwd) + input
  }

  /** Whether the raw path is short enough to go on. */
  function RawFits(root: string, cwd: string, input: string): bool
    requires root != ""
  {
    if input != "" && input[0] == '/' then |Raw(root, cwd, input)| < MAX_PATH_LEN
    else |cwd| + 1 + |input| + 1 < MAX_PATH_LEN
  }

  /** The directory that the input is relative to. */
  ghost function Base(rootStack: seq<string>, cwdStack: seq<string>, input: string): seq<string> {
    if input != "" && input[0] == '/' then rootStack else cwdStack
  }

  lemma SlashHasNoComponents()
    ensures Components("/") == []
  {
    NoComponents("/");
    assert DropSlashes("/") == DropSlashes("/"[1..]) == "";
  }

  lemma RawAbsolute(root: string, input: string, r: seq<string>)
    requires Denotes(root, r) && AllPlain(r) && input != "" && input[0] == '/'
    ensures var raw := if |root| > 1 then (if input == "/" then root else root + input) else input;
            Components(raw) == r + Components(input) && raw != "" && raw[0] == '/' && root <= raw
  {
    PlainAreNames(r);
    DenotesComponents(root, r);
    SlashHasNoComponents();
    if |root| > 1 {
      ComponentsConcat(root, input);
      assert r + [] == r;
    } else {
      if r != [] {
        JoinEndsPlain(r);
      }
      assert root == "/" && r == [];
      assert [] + Components(input) == Components(input);
    }
  }

  lemma RawRelative(cwd: string, input: string, c: seq<string>)
    requires Denotes(cwd, c) && AllPlain(c)
    ensures var raw := (if cwd != "" && cwd[|cwd| - 1] != '/' then cwd + "/" else cwd) + input;
            Components(raw) == c + Components(input) && raw != "" && raw[0] == '/'
  {
    PlainAreNames(c);
    DenotesComponents(cwd, c);
    SlashHasNoComponents();
    var a := if cwd[|cwd| - 1] != '/' then cwd + "/" else cwd;
    ComponentsConcat(cwd, "/");
    assert c + [] == c;
    ComponentsConcat(a, input);
  }

  /** The raw path is the base followed by the input. */
  lemma RawComponents(root: string, cwd: string, input: string, r: seq<string>, c: seq<string>)
    requires Denotes(root, r) && Denotes(cwd, c) && AllPlain(r) && AllPlain(c)
    ensures Components(Raw(root, cwd, input)) == Base(r, c, input) + Components(input)
    ensures Raw(root, cwd, input) != "" && Raw(root, cwd, input)[0] == '/'
    ensures r <= Base(r, c, input) ==> root <= Raw(root, cwd, input)
  {
    if input != "" && input[0] == '/' {
      RawAbsolute(root, input, r);
    } else {
      RawRelative(cwd, input, c);
      if r <= c {
        PrefixText(root, r, cwd, c);
      }
    }
  }

  lemma PlainAreNames(s: seq<string>)
    requires AllPlain(s)
    ensures forall c | c in s :: IsName(c)
  {
    forall c | c in s
      ensures IsName(c)
    {
      assert IsPlain(c);
    }
  }

  lemma TextOfMore(r: seq<string>, c: seq<string>)
    requires r <= c && r != c && r != []
    ensures Text(r) + "/" <= Text(c)
  {
    var more := c[|r|..];
    assert c == r + more;
    JoinConcat(r, more);
    PrefixPlus(Text(r), Join(more));
  }

  lemma PrefixPlus(a: string, b: string)
    requires b != "" && b[0] == '/'
    ensures a + "/" <= a + b
  {
  }

  /** A directory inside the root has the root's text as a prefix once it ends in a slash. */
  lemma PrefixText(root: string, r: seq<string>, cwd: string, c: seq<string>)
    requires Denotes(root, r) && Denotes(cwd, c) && r <= c && AllPlain(c)
    ensures root <= (if cwd[|cwd| - 1] != '/' then cwd + "/" else cwd)
  {
    if c != [] {
      EndsInSlash(cwd, c);
      if r == [] {
        assert Text(c)[0] == '/';
      } else if r != c {
        TextOfMore(r, c);
      }
    }
  }

  lemma EndsInSlash(cwd: string, c: seq<string>)
    requires Denotes(cwd, c) && AllPlain(c) && c != []
    ensures (if cwd[|cwd| - 1] != '/' then cwd + "/" else cwd) == Text(c) + "/"
  {
    PlainAreNames(c);
    JoinEndsPlain(c);
  }

  /** Appending a component, with a separator if one is missing. */
  method AppendComponent(buf: array<char>, dst: nat, c: string) returns (dst': nat, ok: bool)
    requires 0 < dst < buf.Length && c != ""
    modifies buf
    ensures 0 < dst' < buf.Length
    ensures ok <==> |Pushed(old(buf[..dst]), c)| < buf.Length
    ensures ok ==> buf[..dst'] == Pushed(old(buf[..dst]), c)
  {
    dst', ok := dst, true;
    ghost var s := buf[..dst];
    var end := buf.Length - 1;
    if dst > 1 && buf[dst - 1] != '/' {
      if dst >= end {
        ok := false;
      } else {
        buf[dst] := '/';
        dst' := dst + 1;
        assert buf[..dst'] == s + "/";
      }
    }
    if ok {
      if dst' + |c| > end {
        ok := false;
      } else {
        ghost var before := buf[..dst'];
        for i := 0 to |c|
          invariant buf[..dst' + i] == before + c[..i]
        {
          buf[dst' + i] := c[i];
          assert buf[..dst' + i + 1] == buf[..dst' + i] + [c[i]];
          assert c[..i + 1] == c[..i] + [c[i]];
        }
        assert c[..|c|] == c;
        dst' := dst' + |c|;
      }
    }
  }

  /** One component of the normalisation loop, edited into the buffer; it fails when the buffer is too small. */
  method EditComponent(buf: array<char>, dst: nat, boundary: nat, c: string) returns (dst': nat, ok: bool)
    requires 0 < dst < buf.Length && IsName(c) && boundary > 0
    modifies buf
    ensures 0 < dst' < buf.Length
    ensures ok <==> c == "." || c == ".." || |Pushed(old(buf[..dst]), c)| < buf.Length
    ensures ok ==> buf[..dst'] == if c == "." then old(buf[..dst]) else if c == ".." then Popped(old(buf[..dst]), boundary)
                                 else Pushed(old(buf[..dst]), c)
  {
    dst', ok := dst, true;
    if c == "." {
    } else if c == ".." {
      if dst > boundary {
        dst' := dst - 1;
        ghost var s := buf[..dst];
        assert s[..dst - 1] == buf[..dst'];
        while dst' > boundary && buf[dst' - 1] != '/'
          invariant dst' <= dst && BackToSlash(buf[..dst'], boundary) == BackToSlash(s[..dst - 1], boundary) && buf[..dst] == s
        {
          assert buf[..dst'][..dst' - 1] == buf[..dst' - 1];
          dst' := dst' - 1;
        }
      }
    } else {
      dst', ok := AppendComponent(buf, dst, c);
    }
  }

  /** The text boundary that a root gives: its length, with or without a trailing slash. */
  predicate IsBoundary(boundary: nat, root: seq<string>) {
    |Text(root)| <= boundary <= |Text(root)| + (if root == [] then 0 else 1)
  }

  /** The components of a text that begins with the root's text: the root's, or the last one only begins with the root's
      last one. */
  ghost predicate Under(stack: seq<string>, root: seq<string>, boundary: nat) {
    && |root| <= |stack|
    && (root <= stack || Beside(stack, root, boundary))
  }

  ghost predicate Beside(stack: seq<string>, root: seq<string>, boundary: nat)
    requires |root| <= |stack|
  {
    && root != [] && boundary == |Text(root)|
    && stack[..|root| - 1] == root[..|root| - 1] && root[|root| - 1] <= stack[|root| - 1]
  }

  /** A raw path that begins with the root's text. */
  lemma RawUnder(root: string, raw: string, r: seq<string>)
    requires Denotes(root, r) && AllPlain(r) && root <= raw
    ensures Under(Components(raw), r, |root|) && AllPlain(Components(raw)[..|r|]) && IsBoundary(|root|, r)
  {
    var rest := raw[|root|..];
    assert raw == root + rest;
    if root[|root| - 1] == '/' || rest == "" || rest[0] == '/' {
      RawAligned(root, rest, r);
    } else {
      RawBeside(raw, r, rest);
    }
  }

  lemma RawAligned(root: string, rest: string, r: seq<string>)
    requires Denotes(root, r) && AllPlain(r) && (root[|root| - 1] == '/' || rest == "" || rest[0] == '/')
    ensures r <= Components(root + rest) && Components(root + rest)[..|r|] == r
  {
    PlainAreNames(r);
    DenotesComponents(root, r);
    ComponentsConcat(root, rest);
  }

  lemma RawBeside(raw: string, r: seq<string>, rest: string)
    requires AllPlain(r) && r != [] && raw == Text(r) + rest && rest != "" && rest[0] != '/'
    ensures Under(Components(raw), r, |Text(r)|) && AllPlain(Components(raw)[..|r|])
  {
    var k := |r| - 1;
    var a := UpToLast(r, k);
    assert r[k] in r && IsPlain(r[k]);
    RawBehind(raw, a, r[..k], r[k], rest);
    BesideByParts(Components(raw), r, k);
  }

  lemma BesideByParts(names: seq<string>, r: seq<string>, k: nat)
    requires |r| == k + 1 && AllPlain(r) && k < |names| && names[..k] == r[..k] && r[k] <= names[k] && IsPlain(names[k])
    ensures Under(names, r, |Text(r)|) && AllPlain(names[..k + 1])
  {
    assert names[..k + 1] == names[..k] + [names[k]];
  }

  lemma UpToLast(r: seq<string>, k: nat) returns (a: string)
    requires |r| == k + 1 && AllPlain(r)
    ensures Text(r) == a + r[k] && Denotes(a, r[..k]) && a[|a| - 1] == '/' && forall c | c in r[..k] :: IsName(c)
  {
    LastText(r, k);
    PlainAreNames(r);
    a := if k == 0 then "/" else Text(r[..k]) + "/";
  }

  lemma Associates<T>(a: seq<T>, b: seq<T>, c: seq<T>)
    ensures a + b + c == a + (b + c)
  {
  }

  lemma RawBehind(raw: string, a: string, below: seq<string>, n: string, rest: string)
    requires raw == a + n + rest
    requires Denotes(a, below) && a[|a| - 1] == '/' && IsPlain(n) && forall c | c in below :: IsName(c)
    ensures |below| < |Components(raw)| && Components(raw)[..|below|] == below
    ensures n <= Components(raw)[|below|] && IsPlain(Components(raw)[|below|])
  {
    Associates(a, n, rest);
    DenotesComponents(a, below);
    assert n[0] in n && (n + rest)[0] == n[0];
    ComponentsConcat(a, n + rest);
    FirstComponent(n + rest);
    NameStartsHead(n, rest);
    HeadIsName(n + rest);
    BeginsPlain(n, Head(n + rest));
  }

  /** What begins with a plain name is neither "." nor "..". */
  lemma BeginsPlain(n: string, c: string)
    requires IsPlain(n) && n <= c && '/' !in c
    ensures IsPlain(c)
  {
    assert c == ".." && |n| == 1 ==> n == ".";
  }

  /** The text of a stack at the root's height that begins with the root's text. */
  lemma BesideText(stack: seq<string>, root: seq<string>, boundary: nat) returns (tail: string)
    requires |stack| == |root| && Beside(stack, root, boundary) && AllPlain(stack)
    ensures Text(stack) == Text(root) + tail && '/' !in tail && (tail == "" ==> stack == root)
  {
    var k := |root| - 1;
    assert stack[..k] == root[..k];
    LastText(root, k);
    LastText(stack, k);
    assert stack[k] in stack && IsPlain(stack[k]);
    tail := BeyondPrefix(if k == 0 then "/" else Text(root[..k]) + "/", root[k], stack[k]);
    if tail == "" {
      SameByParts(stack, root, k);
    }
  }

  lemma SameByParts(stack: seq<string>, root: seq<string>, k: nat)
    requires |stack| == |root| == k + 1 && stack[..k] == root[..k] && stack[k] == root[k]
    ensures stack == root
  {
    assert root == root[..k] + [root[k]] && stack == stack[..k] + [stack[k]];
  }

  lemma LastText(stack: seq<string>, k: nat)
    requires |stack| == k + 1
    ensures Text(stack) == (if k == 0 then "/" else Text(stack[..k]) + "/") + stack[k]
  {
    assert stack == stack[..k] + [stack[k]];
    TextPush(stack[..k], stack[k]);
  }

  lemma BeyondPrefix(a: string, n: string, c: string) returns (tail: string)
    requires n <= c && '/' !in c
    ensures a + c == a + n + tail && '/' !in tail && (tail == "" ==> n == c)
  {
    tail := c[|n|..];
    assert c == n + tail;
    assert forall x | x in tail :: x in c;
  }

  /** How far the loop has come: the text denotes the stack of the components done, which is at the root or above it once
      as many components are done as the root has. */
  ghost predicate Underway(s: string, done: seq<string>, names: seq<string>, root: seq<string>, boundary: nat) {
    var stack := NormalIn([], done, root);
    && done <= names && Under(names, root, boundary) && AllPlain(names[..|root|])
    && Denotes(s, stack) && AllPlain(stack)
    && (Under(stack, root, boundary) || (stack == done && |done| < |root|))
  }

  /** The part of the turn that ".." takes. */
  lemma PopInPlace(s: string, stack: seq<string>, root: seq<string>, boundary: nat)
    requires Denotes(s, stack) && AllPlain(stack) && AllPlain(root) && Under(stack, root, boundary) && IsBoundary(boundary, root)
    ensures var next := StepIn(stack, "..", root);
            Denotes(Popped(s, boundary), next) && AllPlain(next) && Under(next, root, boundary)
  {
    if |stack| > |root| {
      PopAbove(s, stack, root, boundary);
    } else if root <= stack {
      assert stack == root;
      ClampKeepsText(s, root, boundary);
    } else {
      var tail := BesideText(stack, root, boundary);
      CutKeepsText(s, stack, root, tail);
    }
  }

  lemma PopAbove(s: string, stack: seq<string>, root: seq<string>, boundary: nat)
    requires Denotes(s, stack) && AllPlain(stack) && Under(stack, root, boundary) && IsBoundary(boundary, root) && |stack| > |root|
    ensures var next := stack[..|stack| - 1];
            Denotes(Popped(s, boundary), next) && AllPlain(next) && Under(next, root, boundary)
  {
    var next, k := stack[..|stack| - 1], |root|;
    if root <= stack {
      TextIsMonotone(root, next);
    } else {
      TextIsMonotone(stack[..k], next);
      assert stack[..k][..k - 1] == stack[..k - 1];
      var tail := BesideText(stack[..k], root, boundary);
    }
    PopKeepsText(s, stack, boundary);
  }

  lemma NormalInPush(done: seq<string>, c: string, root: seq<string>)
    ensures NormalIn([], done + [c], root) == StepIn(NormalIn([], done, root), c, root)
  {
    NormalInConcat([], done, [c], root);
    assert [c][1..] == [];
  }

  lemma EditKeeps(s: string, done: seq<string>, names: seq<string>, root: seq<string>, boundary: nat, c: string)
    requires Underway(s, done, names, root, boundary) && done + [c] <= names && IsName(c)
    requires AllPlain(root) && IsBoundary(boundary, root)
    ensures Underway(if c == "." then s else if c == ".." then Popped(s, boundary) else Pushed(s, c), done + [c], names, root, boundary)
  {
    var stack := NormalIn([], done, root);
    NormalInPush(done, c, root);
    if !Under(stack, root, boundary) {
      FirstOnes(done, names, root, boundary, c);
      PushKeepsText(s, stack, c);
    } else if c == ".." {
      PopInPlace(s, stack, root, boundary);
    } else if c != "." {
      PushKeepsText(s, stack, c);
    }
  }

  /** The components before the root's height are plain, and with the last of them the stack is under the root. */
  lemma FirstOnes(done: seq<string>, names: seq<string>, root: seq<string>, boundary: nat, c: string)
    requires done + [c] <= names && |done| < |root| && Under(names, root, boundary) && AllPlain(names[..|root|])
    ensures IsPlain(c) && (|done| + 1 == |root| ==> Under(done + [c], root, boundary))
  {
    assert c == names[|done|] == names[..|root|][|done|];
    assert c in names[..|root|];
    assert done + [c] == names[..|done| + 1];
  }

  /** One turn of the normalisation loop at a component. */
  method NormaliseStep(tmp: string, start: nat, buf: array<char>, dst: nat, boundary: nat, ghost root: seq<string>, ghost done: seq<string>)
    returns (p: nat, dst': nat, ok: bool, ghost done': seq<string>)
    requires start < |tmp| && tmp[start] != '/' && 0 < dst < buf.Length && AllPlain(root)
    requires 0 < boundary && IsBoundary(boundary, root)
    requires Components(tmp) == done + Components(tmp[start..]) && Underway(buf[..dst], done, Components(tmp), root, boundary)
    modifies buf
    ensures start < p <= |tmp| && (p < |tmp| ==> tmp[p] == '/') && 0 < dst' < buf.Length
    ensures ok ==> Components(tmp) == done' + Components(tmp[p..]) && Underway(buf[..dst'], done', Components(tmp), root, boundary)
    ensures dst + 1 + (p - start) < buf.Length ==> ok
    ensures dst == 1 && p - start + 1 < buf.Length ==> ok
    ensures ok ==> dst' <= dst + 1 + (p - start) && (dst == 1 ==> dst' <= 1 + (p - start))
  {
    p := SkipName(tmp, start);
    var c := tmp[start..p];
    NextComponent(tmp, start, p, done);
    EditKeeps(buf[..dst], done, Components(tmp), root, boundary, c);
    dst', ok := EditComponent(buf, dst, boundary, c);
    done' := done + [c];
  }

  lemma NextComponent(tmp: string, start: nat, p: nat, done: seq<string>)
    requires start < |tmp| && tmp[start] != '/' && p == start + |Head(tmp[start..])|
    requires Components(tmp) == done + Components(tmp[start..])
    ensures start < p <= |tmp| && (p < |tmp| ==> tmp[p] == '/') && IsName(tmp[start..p])
    ensures Components(tmp) == done + [tmp[start..p]] + Components(tmp[p..])
  {
    HeadIsName(tmp[start..]);
    assert tmp[start..][|Head(tmp[start..])|..] == tmp[p..] && tmp[start..p] == Head(tmp[start..]);
    SplitFirst(tmp[start..], tmp[p..]);
    Associates(done, [tmp[start..p]], Components(tmp[p..]));
  }

  lemma SplitFirst(s: string, rest: string)
    requires s != "" && s[0] != '/' && rest == s[|Head(s)|..]
    ensures Components(s) == [Head(s)] + Components(rest)
  {
    FirstComponent(s);
    ComponentsDropSlashes(rest);
  }

  /** The normalisation loop. It fails only when the buffer is too small for a text on the way, which cannot happen when
      the raw path itself fits. */
  method Normalise(tmp: string, buf: array<char>, boundary: nat, ghost root: seq<string>) returns (dst: nat, ok: bool)
    requires buf.Length >= 2 && tmp != "" && tmp[0] == '/' && AllPlain(root) && IsBoundary(boundary, root)
    requires Under(Components(tmp), root, boundary) && AllPlain(Components(tmp)[..|root|])
    modifies buf
    ensures 0 < dst < buf.Length
    ensures |tmp| < buf.Length ==> ok
    ensures ok ==> buf[dst] == '\0' && Denotes(buf[..dst], NormalIn([], Components(tmp), root))
    ensures ok ==> AllPlain(NormalIn([], Components(tmp), root))
  {
    buf[0] := '/';
    dst, ok := 1, true;
    var p := 0;
    ghost var done: seq<string> := [];
    assert tmp[0..] == tmp && buf[..1] == "/";
    while p < |tmp| && ok
      invariant p <= |tmp| && 0 < dst < buf.Length
      invariant p < |tmp| ==> tmp[p] == '/'
      invariant ok ==> Components(tmp) == done + Components(tmp[p..]) && Underway(buf[..dst], done, Components(tmp), root, boundary)
      invariant ok ==> dst <= p || dst == 1
      invariant |tmp| < buf.Length ==> ok
      decreases |tmp| - p
    {
      ghost var from := p;
      ComponentsDropSlashes(tmp[p..]);
      DropSlashesFacts(tmp[p..]);
      p := SkipSlashes(tmp, p);
      assert p > from;
      if p < |tmp| {
        p, dst, ok, done := NormaliseStep(tmp, p, buf, dst, boundary, root, done);
      }
    }
    if ok {
      NoComponents(tmp[p..]);
      assert done == Components(tmp);
      ghost var s := buf[..dst];
      buf[dst] := '\0';
      assert buf[..dst] == s;
    }
  }

  /** The stack that a path should resolve to: its components after the root or the current directory, with ".." stopped at
      the root for a process inside it. */
  ghost function Resolved(r: seq<string>, c: seq<string>, input: string): seq<string> {
    Normal(Base(r, c, input), Components(input), if r <= Base(r, c, input) then |r| else 0)
  }

  /** What the code takes for a path under the root: it compares the texts. A process outside its root is taken for one
      inside when the raw path begins with the root's text, and then ".." does not go below the root's height. */
  ghost predicate ResolvesRight(root: string, cwd: string, input: string, r: seq<string>, c: seq<string>)
    requires root != ""
  {
    var base := Base(r, c, input);
    r <= base || !(root <= Raw(root, cwd, input)) || !Dips([], base + Components(input), |r|)
  }

  /** The outcome of the buffer edit against the stack normalisation. */
  lemma Outcome(root: string, cwd: string, input: string, r: seq<string>, c: seq<string>)
    requires Denotes(root, r) && Denotes(cwd, c) && AllPlain(r) && AllPlain(c)
    ensures var floor := if root <= Raw(root, cwd, input) then r else [];
            NormalIn([], Components(Raw(root, cwd, input)), floor) == Resolved(r, c, input) <==> ResolvesRight(root, cwd, input, r, c)
  {
    var raw, base, names := Raw(root, cwd, input), Base(r, c, input), Components(input);
    RawComponents(root, cwd, input, r, c);
    var floor := if root <= raw then r else [];
    NormalInConcat([], base, names, floor);
    NormalInOfPlain([], base, floor);
    assert [] + base == base;
    if r <= base || floor == [] {
      NormalInside(base, names, floor);
      assert floor == [] && r <= base ==> r == [] || floor == r;
    } else {
      OutcomeOutside(root, raw, r, base, names);
    }
  }

  lemma OutcomeOutside(root: string, raw: string, r: seq<string>, base: seq<string>, names: seq<string>)
    requires Denotes(root, r) && AllPlain(r) && AllPlain(base) && root <= raw && r != [] && Components(raw) == base + names
    ensures NormalIn([], base + names, r) == Normal(base, names, 0) <==> !Dips([], base + names, |r|)
  {
    RawUnder(root, raw, r);
    var all, k := base + names, |r|;
    var a, b := all[..k], all[k..];
    assert all == a + b && [] + a == a && [] + base == base;
    NormalInConcat([], a, b, r);
    NormalInOfPlain([], a, r);
    NormalConcat([], a, b, 0);
    NormalOfPlain([], a, 0);
    NormalConcat([], base, names, 0);
    NormalOfPlain([], base, 0);
    DipsAfterPlain([], a, b, k);
    DifferIfDips(a, b, r);
  }

  /** Where the code takes a path: the normalisation of the raw path, stopped at the root if the text of the root begins it. */
  ghost function Reached(root: string, cwd: string, input: string, r: seq<string>): seq<string>
    requires root != ""
  {
    NormalIn([], Components(Raw(root, cwd, input)), if root <= Raw(root, cwd, input) then r else [])
  }

  /** strcpy to a place in the buffer; fits says that the text and its NUL stay inside. */
  method CopyText(tmp: array<char>, at: nat, s: string) returns (fits: bool)
    requires at <= tmp.Length
    modifies tmp
    ensures fits <==> at + |s| < tmp.Length
    ensures fits ==> tmp[..at + |s|] == old(tmp[..at]) + s && tmp[at + |s|] == '\0'
  {
    var i := 0;
    while i < |s| && at + i < tmp.Length
      invariant 0 <= i <= |s| && at + i <= tmp.Length
      invariant tmp[..at + i] == old(tmp[..at]) + s[..i]
    {
      tmp[at + i] := s[i];
      i := i + 1;
      assert s[..i] == s[..i - 1] + [s[i - 1]];
    }
    fits := at + |s| < tmp.Length;
    if fits {
      ghost var text := tmp[..at + |s|];
      tmp[at + |s|] := '\0';
      assert s[..i] == s && tmp[..at + |s|] == text;
    }
  }

  /** How the raw path is built: it is there, it was refused before anything was copied, or the copy left the buffer. */
  datatype Built = Ready(raw: string) | TooLong | Overrun

  /** The first part of resolve_path. Only under a chroot is an absolute path copied before its length is tested. */
  method BuildRaw(root: string, cwd: string, input: string) returns (built: Built)
    requires root != ""
    ensures built == if RawFits(root, cwd, input) then Ready(Raw(root, cwd, input))
                     else if input != "" && input[0] == '/' && |root| > 1 then Overrun else TooLong
  {
    if input == "" || input[0] != '/' {
      built := BuildRelative(cwd, input);
    } else {
      var tmp := new char[MAX_PATH_LEN];
      var fits;
      if |root| > 1 {
        fits := CopyText(tmp, 0, root);
        if fits && input != "/" {
          fits := CopyText(tmp, |root|, input);
        }
        if !fits {
          return Overrun;
        }
      } else {
        if |input| >= MAX_PATH_LEN {
          return TooLong;
        }
        fits := CopyText(tmp, 0, input);
      }
      built := Ready(tmp[..|Raw(root, cwd, input)|]);
    }
  }

  /** The branch for a path relative to the current directory. */
  method BuildRelative(cwd: string, input: string) returns (built: Built)
    requires input == "" || input[0] != '/'
    ensures built == if |cwd| + 1 + |input| + 1 < MAX_PATH_LEN then Ready(Raw("/", cwd, input)) else TooLong
  {
    if |cwd| + 1 + |input| + 1 >= MAX_PATH_LEN {
      return TooLong;
    }
    var tmp := new char[MAX_PATH_LEN];
    var fits := CopyText(tmp, 0, cwd);
    var n := |cwd|;
    if n > 0 && tmp[n - 1] != '/' {
      fits := CopyText(tmp, n, "/");
      n := n + 1;
    }
    fits := CopyText(tmp, n, input);
    built := Ready(tmp[..n + |input|]);
  }

  /** resolve_path. The root of a process that is not in a chroot can be the empty string. The call fails exactly when the
      raw path is too long, and under a chroot and for an absolute path it has then written past its buffer. The output
      denotes the stack normalisation exactly when ResolvesRight holds, which it does for every process inside its root. */
  method Resolve(taskRoot: string, cwd: string, input: string, buf: array<char>, ghost r: seq<string>, ghost c: seq<string>)
    returns (ok: bool, dst: nat, overrun: bool)
    requires buf.Length == MAX_PATH_LEN
    requires Denotes(if taskRoot == "" then "/" else taskRoot, r) && AllPlain(r) && Denotes(cwd, c) && AllPlain(c)
    modifies buf
    ensures ok <==> RawFits(if taskRoot == "" then "/" else taskRoot, cwd, input)
    ensures ok <==> (if input != "" && input[0] == '/' then (if |taskRoot| <= 1 then |input| else if input == "/" then |taskRoot| else |taskRoot| + |input|)
                     else |cwd| + |input| + 2) < MAX_PATH_LEN
    ensures overrun <==> !ok && input != "" && input[0] == '/' && |taskRoot| > 1
    ensures ok ==> 0 < dst < MAX_PATH_LEN && buf[dst] == '\0'
    ensures ok ==> var s := Reached(if taskRoot == "" then "/" else taskRoot, cwd, input, r); Denotes(buf[..dst], s) && AllPlain(s)
    ensures ok ==> (Denotes(buf[..dst], Resolved(r, c, input))
                    <==> ResolvesRight(if taskRoot == "" then "/" else taskRoot, cwd, input, r, c))
    ensures AllPlain(Resolved(r, c, input)) && (r <= Base(r, c, input) ==> r <= Resolved(r, c, input))
  {
    var root := if taskRoot == "" then "/" else taskRoot;
    RawComponents(root, cwd, input, r, c);
    ResolvedFacts(r, c, input);
    var built := BuildRaw(root, cwd, input);
    ok, dst, overrun := built.Ready?, 0, built == Overrun;
    if ok {
      var tmp := built.raw;
      var boundary := 1;
      ghost var floor: seq<string> := [];
      if root <= tmp {
        RawUnder(root, tmp, r);
        boundary := |root|;
        floor := r;
      }
      dst, ok := Normalise(tmp, buf, boundary, floor);
      Outcome(root, cwd, input, r, c);
      SameIfDenotes(buf[..dst], NormalIn([], Components(tmp), floor), Resolved(r, c, input));
    }
  }

  /** Some path takes the process out of its root. */
  ghost predicate CanLeave(root: string, cwd: string, r: seq<string>)
    requires root != ""
  {
    exists path :: RawFits(root, cwd, path) && !(r <= Reached(root, cwd, path, r))
  }

  /** A process can leave its root exactly if its current directory is outside, unless that is so long that no relative
      path can be resolved at all. */
  lemma CanLeaveIff(root: string, cwd: string, r: seq<string>, c: seq<string>)
    requires Denotes(root, r) && Denotes(cwd, c) && AllPlain(r) && AllPlain(c)
    ensures CanLeave(root, cwd, r) <==> !(r <= c) && |cwd| + 2 < MAX_PATH_LEN
  {
    if !(r <= c) && |cwd| + 2 < MAX_PATH_LEN {
      StayingPut(root, cwd, r, c);
    }
    forall path | RawFits(root, cwd, path) && r <= Base(r, c, path)
      ensures r <= Reached(root, cwd, path, r)
    {
      StaysInside(root, cwd, path, r, c);
    }
  }

  lemma StaysInside(root: string, cwd: string, path: string, r: seq<string>, c: seq<string>)
    requires Denotes(root, r) && Denotes(cwd, c) && AllPlain(r) && AllPlain(c) && r <= Base(r, c, path)
    ensures r <= Reached(root, cwd, path, r) && Reached(root, cwd, path, r) == Resolved(r, c, path)
  {
    RawComponents(root, cwd, path, r, c);
    ResolvedFacts(r, c, path);
    Outcome(root, cwd, path, r, c);
  }

  /** The empty path takes a process to where it is. */
  lemma StayingPut(root: string, cwd: string, r: seq<string>, c: seq<string>)
    requires Denotes(root, r) && Denotes(cwd, c) && AllPlain(r) && AllPlain(c)
    ensures Reached(root, cwd, "", r) == c
  {
    RawComponents(root, cwd, "", r, c);
    NoComponents("");
    assert c + [] == c && [] + c == c;
    NormalInOfPlain([], c, if root <= Raw(root, cwd, "") then r else []);
  }

  /** A text denotes one stack. */
  lemma SameIfDenotes(s: string, a: seq<string>, b: seq<string>)
    requires Denotes(s, a) && AllPlain(a) && AllPlain(b)
    ensures Denotes(s, b) <==> a == b
  {
    PlainAreNames(a);
    PlainAreNames(b);
    DenotesComponents(s, a);
    if Denotes(s, b) {
      DenotesComponents(s, b);
    }
  }

  lemma ResolvedFacts(r: seq<string>, c: seq<string>, input: string)
    requires AllPlain(r) && AllPlain(c)
    ensures AllPlain(Resolved(r, c, input)) && (r <= Base(r, c, input) ==> r <= Resolved(r, c, input))
  {
    ComponentsAreNames(input);
    var base := Base(r, c, input);
    NormalIsPlain(base, Components(input), if r <= base then |r| else 0);
    if r <= base {
      NormalKeepsFloor(base, Components(input), |r|);
    }
  }

  lemma DotDotComponents()
    ensures Components("..") == [".."]
  {
    var s := "..";
    assert s[1..] == "." && "."[1..] == "";
    assert Head(s) == ['.'] + Head(".") == s;
    assert s[|Head(s)|..] == "";
    SplitFirst(s, "");
  }

  lemma OneName(n: string)
    requires IsName(n)
    ensures Denotes("/" + n, [n])
  {
    assert [n][1..] == [] && Join([n]) == "/" + n + "";
  }

  /** Why the text test is not enough: with root /jail and current directory /jailbreak, ".." stops at /jail instead of
      going up to the root directory. */
  lemma TextPrefixIsNotInside()
    ensures var r, c := ["jail"], ["jailbreak"];
            && Denotes("/jail", r) && Denotes("/jailbreak", c) && AllPlain(r) && AllPlain(c)
            && !ResolvesRight("/jail", "/jailbreak", "..", r, c)
            && Resolved(r, c, "..") == [] && NormalIn([], c + Components(".."), r) == r
  {
    var r, c, names := ["jail"], ["jailbreak"], [".."];
    OneName("jail");
    OneName("jailbreak");
    assert "/jail" == "/" + "jail" && "/jailbreak" == "/" + "jailbreak";
    DotDotComponents();
    NormalInConcat([], c, names, r);
    NormalInOfPlain([], c, r);
    DipsAfterPlain([], c, names, 1);
    assert [] + c == c && names[1..] == [];
  }

  /** The root and current directory of a process, and calls that change them (fs_chdir, fs_chroot). */
  class Process {
    var root: string
    var cwd: string
    ghost var rootStack: seq<string>
    ghost var cwdStack: seq<string>

    /** Both are normalised. */
    ghost predicate Placed()
      reads this
    {
      Denotes(root, rootStack) && Denotes(cwd, cwdStack) && AllPlain(rootStack) && AllPlain(cwdStack)
    }

    /** The current directory is inside the root. */
    ghost predicate Confined()
      reads this
    {
      Placed() && rootStack <= cwdStack
    }

    constructor ()
      ensures Confined() && rootStack == [] && cwdStack == []
    {
      root, cwd, rootStack, cwdStack := "/", "/", [], [];
    }

    /** fs_chdir: whatever the path, a process inside its root stays inside. */
    method Chdir(path: string, isDirectory: bool) returns (ok: bool)
      requires Placed()
      modifies this`cwd, this`cwdStack
      ensures Placed()
      ensures ok <==> RawFits(root, old(cwd), path) && isDirectory
      ensures cwdStack == if ok then Reached(root, old(cwd), path, rootStack) else old(cwdStack)
      ensures old(Confined()) ==> Confined() && (ok ==> cwdStack == Resolved(rootStack, old(cwdStack), path))
    {
      var buf := new char[MAX_PATH_LEN];
      var dst, overrun;
      ok, dst, overrun := Resolve(root, cwd, path, buf, rootStack, cwdStack);
      ok := ok && isDirectory;
      if ok {
        if rootStack <= cwdStack {
          StaysInside(root, cwd, path, rootStack, cwdStack);
        }
        cwdStack := Reached(root, cwd, path, rootStack);
        cwd := buf[..dst];
      }
    }

    /** fs_chroot: the path becomes the root, and the current directory stays what it was. Afterwards some path leads out of
        the new root exactly if that does not contain the current directory. */
    method Chroot(path: string, isDirectory: bool) returns (ok: bool)
      requires Placed()
      modifies this`root, this`rootStack
      ensures Placed()
      ensures ok <==> RawFits(old(root), cwd, path) && isDirectory
      ensures rootStack == if ok then Reached(old(root), cwd, path, old(rootStack)) else old(rootStack)
      ensures ok ==> (CanLeave(root, cwd, rootStack) <==>
                        !(Reached(old(root), cwd, path, old(rootStack)) <= cwdStack) && |cwd| + 2 < MAX_PATH_LEN)
      ensures old(Confined()) ==> old(rootStack) <= rootStack && (ok ==> rootStack == Resolved(old(rootStack), cwdStack, path))
    {
      var buf := new char[MAX_PATH_LEN];
      var dst, overrun;
      ok, dst, overrun := Resolve(root, cwd, path, buf, rootStack, cwdStack);
      ok := ok && isDirectory;
      if ok {
        if rootStack <= cwdStack {
          StaysInside(root, cwd, path, rootStack, cwdStack);
        }
        rootStack := Reached(root, cwd, path, rootStack);
        root := buf[..dst];
        CanLeaveIff(root, cwd, rootStack, cwdStack);
      }
    }
  }

  /** A process in /home that makes /jail its root can still go to /home. */
  lemma ChrootLeavesHome()
    ensures Denotes("/jail", ["jail"]) && Denotes("/home", ["home"]) && CanLeave("/jail", "/home", ["jail"])
  {
    OneName("jail");
    OneName("home");
    assert "/jail" == "/" + "jail" && "/home" == "/" + "home";
    CanLeaveIff("/jail", "/home", ["jail"], ["home"]);
  }
}
