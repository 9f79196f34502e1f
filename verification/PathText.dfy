/** Normalised paths as text and as component stacks (fs/vfs.c). */
module PathText {
  import opened PathNames

  /** Neither "." nor "..", and a name. */
  predicate IsPlain(c: string) {
    IsName(c) && c != "." && c != ".."
  }

  predicate AllPlain(stack: seq<string>) {
    forall c | c in stack :: IsPlain(c)
  }

  /** The text of a stack without a trailing slash. */
  function Text(stack: seq<string>): (s: string)
    ensures s != ""
  {
    if stack == [] then "/" else Join(stack)
  }

  /** The text of a stack; after ".." a trailing slash can remain. */
  predicate Denotes(s: string, stack: seq<string>) {
    s == Text(stack) || (stack != [] && s == Text(stack) + "/")
  }

  /** One component of the stack normalisation: ".." does not go below the floor. */
  function Step(stack: seq<string>, c: string, floor: nat): seq<string> {
    if c == "." then stack
    else if c == ".." then (if |stack| > floor then stack[..|stack| - 1] else stack)
    else stack + [c]
  }

  /** The stack normalisation of components after a stack. */
  function Normal(stack: seq<string>, names: seq<string>, floor: nat): seq<string>
    decreases names
  {
    if names == [] then stack else Normal(Step(stack, names[0], floor), names[1..], floor)
  }

  lemma {:induction false} NormalConcat(stack: seq<string>, a: seq<string>, b: seq<string>, floor: nat)
    ensures Normal(stack, a + b, floor) == Normal(Normal(stack, a, floor), b, floor)
    decreases a
  {
    if a == [] {
      assert a + b == b;
    } else {
      assert (a + b)[0] == a[0] && (a + b)[1..] == a[1..] + b;
      NormalConcat(Step(stack, a[0], floor), a[1..], b, floor);
    }
  }

  /** A dot says nothing, a dot-dot takes back the component before it, and at the floor it says nothing either. */
  lemma DotsInPath(stack: seq<string>, a: seq<string>, c: string, b: seq<string>, floor: nat)
    requires IsPlain(c)
    ensures Normal(stack, a + ["."] + b, floor) == Normal(stack, a + b, floor)
    ensures floor <= |Normal(stack, a, floor)| ==> Normal(stack, a + [c, ".."] + b, floor) == Normal(stack, a + b, floor)
    ensures floor == |Normal(stack, a, floor)| ==> Normal(stack, a + [".."] + b, floor) == Normal(stack, a + b, floor)
  {
    var s := Normal(stack, a, floor);
    NormalConcat(stack, a, b, floor);
    AfterOne(stack, a, ".", b, floor);
    AfterOne(stack, a, "..", b, floor);
    AfterOne(stack, a, c, [".."] + b, floor);
    AfterOne(s + [c], [], "..", b, floor);
    assert a + [c] + ([".."] + b) == a + [c, ".."] + b && [] + [".."] + b == [".."] + b;
    assert (s + [c])[..|s|] == s;
  }

  lemma AfterOne(stack: seq<string>, a: seq<string>, c: string, b: seq<string>, floor: nat)
    ensures Normal(stack, a + [c] + b, floor) == Normal(Step(Normal(stack, a, floor), c, floor), b, floor)
  {
    assert a + [c] + b == a + ([c] + b) && ([c] + b)[1..] == b;
    NormalConcat(stack, a, [c] + b, floor);
  }

  /** Plain components are pushed one by one. */
  lemma {:induction false} NormalOfPlain(stack: seq<string>, names: seq<string>, floor: nat)
    requires AllPlain(names)
    ensures Normal(stack, names, floor) == stack + names
    decreases names
  {
    if names == [] {
      assert stack + names == stack;
    } else {
      assert IsPlain(names[0]);
      NormalOfPlain(stack + [names[0]], names[1..], floor);
      assert stack + [names[0]] + names[1..] == stack + names;
    }
  }

  /** One component as the buffer edit sees it: a ".." that is not above the root's height leaves the root. */
  function StepIn(stack: seq<string>, c: string, root: seq<string>): seq<string> {
    if c == "." then stack
    else if c == ".." then (if |stack| > |root| then stack[..|stack| - 1] else root)
    else stack + [c]
  }

  /** What the buffer edit makes of components after a stack. */
  function NormalIn(stack: seq<string>, names: seq<string>, root: seq<string>): seq<string>
    decreases names
  {
    if names == [] then stack else NormalIn(StepIn(stack, names[0], root), names[1..], root)
  }

  lemma {:induction false} NormalInConcat(stack: seq<string>, a: seq<string>, b: seq<string>, root: seq<string>)
    ensures NormalIn(stack, a + b, root) == NormalIn(NormalIn(stack, a, root), b, root)
    decreases a
  {
    if a == [] {
      assert a + b == b;
    } else {
      assert (a + b)[0] == a[0] && (a + b)[1..] == a[1..] + b;
      NormalInConcat(StepIn(stack, a[0], root), a[1..], b, root);
    }
  }

  lemma {:induction false} NormalInOfPlain(stack: seq<string>, names: seq<string>, root: seq<string>)
    requires AllPlain(names)
    ensures NormalIn(stack, names, root) == stack + names
    decreases names
  {
    if names == [] {
      assert stack + names == stack;
    } else {
      assert IsPlain(names[0]);
      NormalInOfPlain(stack + [names[0]], names[1..], root);
      assert stack + [names[0]] + names[1..] == stack + names;
    }
  }

  /** Inside the root the edit is the stack normalisation with the root as its floor. */
  lemma {:induction false} NormalInside(stack: seq<string>, names: seq<string>, root: seq<string>)
    requires root <= stack
    ensures NormalIn(stack, names, root) == Normal(stack, names, |root|)
    decreases names
  {
    if names != [] {
      assert |stack| == |root| ==> stack == root;
      NormalInside(Step(stack, names[0], |root|), names[1..], root);
    }
  }

  /** Whether ".." is met at or below a height on the way. */
  predicate Dips(stack: seq<string>, names: seq<string>, height: nat)
    decreases names
  {
    names != [] && ((names[0] == ".." && |stack| <= height) || Dips(Step(stack, names[0], 0), names[1..], height))
  }

  lemma {:induction false} DipsAfterPlain(stack: seq<string>, a: seq<string>, b: seq<string>, height: nat)
    requires AllPlain(a)
    ensures Dips(stack, a + b, height) <==> Dips(stack + a, b, height)
    decreases a
  {
    if a == [] {
      assert a + b == b && stack + a == stack;
    } else {
      assert IsPlain(a[0]);
      assert (a + b)[0] == a[0] && (a + b)[1..] == a[1..] + b;
      DipsAfterPlain(stack + [a[0]], a[1..], b, height);
      assert stack + [a[0]] + a[1..] == stack + a;
    }
  }

  /** A stack kept at the root's height stays higher than one that is not. */
  lemma {:induction false} StaysHigher(high: seq<string>, low: seq<string>, names: seq<string>, root: seq<string>)
    requires |high| > |low| && |high| >= |root| > 0
    ensures |NormalIn(high, names, root)| > |Normal(low, names, 0)|
    decreases names
  {
    if names != [] {
      StaysHigher(StepIn(high, names[0], root), Step(low, names[0], 0), names[1..], root);
    }
  }

  /** For a process outside its root the edit differs from the stack normalisation exactly when ".." is met at or below
      the root's height. */
  lemma {:induction false} DifferIfDips(stack: seq<string>, names: seq<string>, root: seq<string>)
    requires |stack| >= |root| > 0
    ensures NormalIn(stack, names, root) == Normal(stack, names, 0) <==> !Dips(stack, names, |root|)
    decreases names
  {
    if names != [] {
      if names[0] == ".." && |stack| <= |root| {
        StaysHigher(root, Step(stack, names[0], 0), names[1..], root);
      } else {
        DifferIfDips(Step(stack, names[0], 0), names[1..], root);
      }
    }
  }

  /** What is below the floor stays. */
  lemma {:induction false} NormalKeepsFloor(stack: seq<string>, names: seq<string>, floor: nat)
    requires floor <= |stack|
    ensures floor <= |Normal(stack, names, floor)| && Normal(stack, names, floor)[..floor] == stack[..floor]
    decreases names
  {
    if names != [] {
      NormalKeepsFloor(Step(stack, names[0], floor), names[1..], floor);
    }
  }

  lemma {:induction false} NormalIsPlain(stack: seq<string>, names: seq<string>, floor: nat)
    requires AllPlain(stack) && forall c | c in names :: IsName(c)
    ensures AllPlain(Normal(stack, names, floor))
    decreases names
  {
    if names != [] {
      assert IsName(names[0]);
      var next := Step(stack, names[0], floor);
      forall c | c in next
        ensures IsPlain(c)
      {
      }
      NormalIsPlain(next, names[1..], floor);
    }
  }

  lemma {:induction false} JoinConcat(a: seq<string>, b: seq<string>)
    ensures Join(a + b) == Join(a) + Join(b)
  {
    if a == [] {
      assert a + b == b;
    } else {
      assert (a + b)[0] == a[0] && (a + b)[1..] == a[1..] + b;
      JoinConcat(a[1..], b);
    }
  }

  /** Appending one component to a non-empty stack. */
  lemma TextPush(stack: seq<string>, c: string)
    ensures Text(stack + [c]) == if stack == [] then "/" + c else Text(stack) + "/" + c
  {
    JoinConcat(stack, [c]);
    assert [c][1..] == [] && Join([c]) == "/" + c + "";
  }

  /** Components of two parts that meet at a slash. */
  lemma {:induction false} ComponentsConcat(a: string, b: string)
    requires b == "" || b[0] == '/' || a == "" || a[|a| - 1] == '/'
    ensures Components(a + b) == Components(a) + Components(b)
    decreases |a|
  {
    if a == "" {
      assert a + b == b;
    } else if a[0] == '/' {
      assert (a + b)[0] == '/' && (a + b)[1..] == a[1..] + b;
      assert DropSlashes(a) == DropSlashes(a[1..]) && DropSlashes(a + b) == DropSlashes(a[1..] + b);
      ComponentsConcat(a[1..], b);
      SameAfterSlashes(a, a[1..]);
      SameAfterSlashes(a + b, a[1..] + b);
    } else {
      HeadIsName(a);
      HeadOfConcat(a, b);
      var h := Head(a);
      assert (a + b)[|h|..] == a[|h|..] + b;
      ComponentsConcat(a[|h|..], b);
    }
  }

  lemma SameAfterSlashes(s: string, r: string)
    requires DropSlashes(s) == DropSlashes(r)
    ensures Components(s) == Components(r)
  {
  }

  lemma {:induction false} HeadOfConcat(a: string, b: string)
    requires a != "" && (b == "" || b[0] == '/' || a[|a| - 1] == '/')
    ensures Head(a + b) == Head(a)
  {
    if a[0] != '/' {
      assert (a + b)[0] == a[0] && (a + b)[1..] == a[1..] + b;
      if |a| > 1 {
        HeadOfConcat(a[1..], b);
      } else {
        assert a[1..] + b == b;
      }
    }
  }

  /** The components of a text are its stack. */
  lemma DenotesComponents(s: string, stack: seq<string>)
    requires Denotes(s, stack) && forall c | c in stack :: IsName(c)
    ensures Components(s) == stack
    ensures s != "" && s[0] == '/'
  {
    SplitJoin(stack);
    assert Components("/") == [] by {
      NoComponents("/");
      assert DropSlashes("/") == DropSlashes("/"[1..]) == "";
    }
    if s != Text(stack) {
      ComponentsConcat(Text(stack), "/");
    }
  }

  /** The inner loop of "..": back to a slash, but not below the boundary. */
  function BackToSlash(s: string, boundary: nat): (r: string)
    ensures r <= s
  {
    if |s| > boundary && s[|s| - 1] != '/' then BackToSlash(s[..|s| - 1], boundary) else s
  }

  /** What the text edit for ".." leaves. */
  function Popped(s: string, boundary: nat): (r: string)
    ensures r <= s
  {
    if |s| > boundary then BackToSlash(s[..|s| - 1], boundary) else s
  }

  /** What appending a component makes of the text. */
  function Pushed(s: string, c: string): string
    requires s != ""
  {
    (if |s| > 1 && s[|s| - 1] != '/' then s + "/" else s) + c
  }

  lemma {:induction false} BackOverName(a: string, c: string, boundary: nat)
    requires a != "" && (a[|a| - 1] == '/' || boundary == |a|) && '/' !in c && boundary <= |a|
    ensures BackToSlash(a + c, boundary) == a
  {
    if c == "" {
      assert a + c == a;
    } else {
      assert (a + c)[..|a + c| - 1] == a + c[..|c| - 1];
      assert (a + c)[|a + c| - 1] == c[|c| - 1];
      BackOverName(a, c[..|c| - 1], boundary);
    }
  }

  lemma {:induction false} JoinEndsPlain(stack: seq<string>)
    requires stack != [] && forall c | c in stack :: IsName(c)
    ensures Join(stack) != "" && Join(stack)[|Join(stack)| - 1] != '/' && |Join(stack)| > 1
  {
    var c := stack[|stack| - 1];
    assert c in stack;
    assert stack == stack[..|stack| - 1] + [c];
    TextPush(stack[..|stack| - 1], c);
    assert c[|c| - 1] in c;
  }

  /** Pushing keeps the text in step with the stack. */
  lemma PushKeepsText(s: string, stack: seq<string>, c: string)
    requires Denotes(s, stack) && AllPlain(stack) && IsPlain(c)
    ensures Pushed(s, c) == Text(stack + [c])
  {
    TextPush(stack, c);
    if stack != [] {
      forall x | x in stack
        ensures IsName(x)
      {
        assert IsPlain(x);
      }
      JoinEndsPlain(stack);
    }
  }

  /** Popping keeps the text in step when the boundary is not above what remains. */
  lemma PopKeepsText(s: string, stack: seq<string>, boundary: nat)
    requires Denotes(s, stack) && AllPlain(stack) && stack != []
    requires var below := stack[..|stack| - 1]; boundary <= |Text(below)| + (if below == [] then 0 else 1)
    ensures Denotes(Popped(s, boundary), stack[..|stack| - 1])
  {
    var below, c := stack[..|stack| - 1], stack[|stack| - 1];
    assert stack == below + [c];
    assert c in stack && IsPlain(c);
    TextPush(below, c);
    PopText(s, below, c, boundary);
  }

  lemma PopText(s: string, below: seq<string>, c: string, boundary: nat)
    requires IsName(c) && boundary <= |Text(below)| + (if below == [] then 0 else 1)
    requires var t := if below == [] then "/" + c else Text(below) + "/" + c; s == t || s == t + "/"
    ensures Denotes(Popped(s, boundary), below)
  {
    var a := if below == [] then "/" else Text(below) + "/";
    if s == a + c {
      assert s[..|s| - 1] == a + c[..|c| - 1];
      BackOverName(a, c[..|c| - 1], boundary);
    } else {
      assert s[..|s| - 1] == a + c;
      BackOverName(a, c, boundary);
    }
  }

  lemma TextIsMonotone(a: seq<string>, b: seq<string>)
    requires a <= b
    ensures |Text(a)| <= |Text(b)|
  {
    assert b == a + b[|a|..];
    JoinConcat(a, b[|a|..]);
  }

  /** At the root ".." changes at most a trailing slash. */
  lemma ClampKeepsText(s: string, root: seq<string>, boundary: nat)
    requires Denotes(s, root)
    requires |Text(root)| <= boundary <= |Text(root)| + (if root == [] then 0 else 1)
    ensures Denotes(Popped(s, boundary), root)
  {
    if s != Text(root) && boundary == |Text(root)| {
      assert s[..|s| - 1] == Text(root);
    }
  }

  /** A component that begins with the root's last one is cut back to it. */
  lemma CutKeepsText(s: string, stack: seq<string>, root: seq<string>, tail: string)
    requires root != [] && tail != "" && '/' !in tail
    requires Denotes(s, stack) && stack != [] && Text(stack) == Text(root) + tail
    ensures Popped(s, |Text(root)|) == Text(root)
  {
    CutBack(Text(root), tail, s);
  }

  lemma CutBack(a: string, tail: string, s: string)
    requires a != "" && tail != "" && '/' !in tail && (s == a + tail || s == a + tail + "/")
    ensures Popped(s, |a|) == a
  {
    if s == a + tail {
      assert s[..|s| - 1] == a + tail[..|tail| - 1];
      BackOverName(a, tail[..|tail| - 1], |a|);
    } else {
      assert s[..|s| - 1] == a + tail;
      BackOverName(a, tail, |a|);
    }
  }

  /** A name at the front of a text is at the front of its first component. */
  lemma {:induction false} NameStartsHead(n: string, rest: string)
    requires '/' !in n
    ensures n <= Head(n + rest)
  {
    if n != "" {
      assert n[0] in n && (n + rest)[0] == n[0] && (n + rest)[1..] == n[1..] + rest;
      NameStartsHead(n[1..], rest);
    }
  }
}
