/** Slash-separated path names as kernel strings. */
module PathNames {
  function DropSlashes(s: string): (r: string) {
    if s != "" && s[0] == '/' then DropSlashes(s[1..]) else s
  }

  /** The characters before the next slash. */
  function Head(s: string): (r: string)
    ensures |r| <= |s| && r == s[..|r|]
  {
    if s == "" || s[0] == '/' then "" else [s[0]] + Head(s[1..])
  }

  lemma {:induction false} DropSlashesFacts(s: string)
    ensures |DropSlashes(s)| <= |s|
    ensures DropSlashes(s) == "" || DropSlashes(s)[0] != '/'
    ensures DropSlashes(DropSlashes(s)) == DropSlashes(s)
  {
    if s != "" && s[0] == '/' {
      DropSlashesFacts(s[1..]);
    }
  }

  /** The non-empty components of a path; repeated, leading and trailing slashes do not matter. */
  function Components(s: string): seq<string>
    decreases |s|
  {
    DropSlashesFacts(s);
    var r := DropSlashes(s);
    if r == "" then [] else [Head(r)] + Components(r[|Head(r)|..])
  }

  /** What a component can be. */
  predicate IsName(c: string) {
    c != "" && '/' !in c
  }

  /** Every component is a name. */
  lemma {:induction false} ComponentsAreNames(s: string)
    ensures forall c | c in Components(s) :: IsName(c)
    decreases |s|
  {
    DropSlashesFacts(s);
    var r := DropSlashes(s);
    if r != "" {
      HeadIsName(r);
      ComponentsAreNames(r[|Head(r)|..]);
    }
  }

  lemma {:induction false} HeadIsName(s: string)
    ensures '/' !in Head(s)
    ensures s != "" && s[0] != '/' ==> Head(s) != ""
    ensures |Head(s)| < |s| ==> s[|Head(s)|] == '/'
  {
    if s != "" && s[0] != '/' {
      HeadIsName(s[1..]);
    }
  }

  lemma {:induction false} HeadOfName(c: string, s: string)
    requires '/' !in c && (s == "" || s[0] == '/')
    ensures Head(c + s) == c
  {
    if c == "" {
      assert c + s == s;
    } else {
      assert (c + s)[0] == c[0] && (c + s)[1..] == c[1..] + s;
      assert forall x | x in c[1..] :: x in c;
      HeadOfName(c[1..], s);
    }
  }

  /** Leading slashes do not matter. */
  lemma ComponentsDropSlashes(s: string)
    ensures Components(DropSlashes(s)) == Components(s)
  {
    DropSlashesFacts(s);
  }

  /** Splitting off the first component. */
  lemma FirstComponent(s: string)
    requires s != "" && s[0] != '/'
    ensures Components(s) == [Head(s)] + Components(DropSlashes(s[|Head(s)|..]))
    ensures Components(s)[0] == Head(s) && Components(s)[1..] == Components(DropSlashes(s[|Head(s)|..]))
  {
    ComponentsDropSlashes(s[|Head(s)|..]);
  }

  /** Only the empty path and slashes have no component. */
  lemma NoComponents(s: string)
    ensures Components(s) == [] <==> DropSlashes(s) == ""
  {
  }

  /** The path with exactly the given components. */
  function Join(names: seq<string>): string {
    if names == [] then "" else "/" + names[0] + Join(names[1..])
  }

  /** Splitting inverts joining. */
  lemma {:induction false} SplitJoin(names: seq<string>)
    requires forall c | c in names :: IsName(c)
    ensures Components(Join(names)) == names
  {
    if names != [] {
      var c, rest := names[0], Join(names[1..]);
      assert Join(names) == "/" + (c + rest);
      assert c in names;
      assert Join(names)[1..] == c + rest;
      assert (c + rest)[0] == c[0];
      assert DropSlashes(Join(names)) == c + rest;
      HeadOfName(c, rest);
      assert (c + rest)[|c|..] == rest;
      SplitJoin(names[1..]);
    }
  }

  /** Skips slashes. */
  method SkipSlashes(s: string, p: nat) returns (q: nat)
    requires p <= |s|
    ensures p <= q <= |s| && s[q..] == DropSlashes(s[p..])
  {
    q := p;
    while q < |s| && s[q] == '/'
      invariant p <= q <= |s| && DropSlashes(s[q..]) == DropSlashes(s[p..])
    {
      assert s[q..][1..] == s[q + 1..];
      q := q + 1;
    }
  }

  lemma HeadStep(s: string, p: nat, q: nat)
    requires p <= q < |s| && s[q] != '/'
    requires Head(s[p..]) == s[p..q] + Head(s[q..])
    ensures Head(s[p..]) == s[p..q + 1] + Head(s[q + 1..])
  {
    assert s[q..][1..] == s[q + 1..];
    OneCharMore(s, p, q, Head(s[q + 1..]));
  }

  lemma OneCharMore(s: string, p: nat, q: nat, rest: string)
    requires p <= q < |s|
    ensures s[p..q] + ([s[q]] + rest) == s[p..q + 1] + rest
  {
  }

  /** Skips the rest of a component. */
  method SkipName(s: string, p: nat) returns (q: nat)
    requires p <= |s|
    ensures p <= q <= |s| && s[p..q] == Head(s[p..]) && s[q..] == s[p..][|Head(s[p..])|..]
  {
    q := p;
    while q < |s| && s[q] != '/'
      invariant p <= q <= |s| && Head(s[p..]) == s[p..q] + Head(s[q..])
    {
      HeadStep(s, p, q);
      q := q + 1;
    }
    assert Head(s[q..]) == "";
  }
}
