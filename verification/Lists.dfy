/** The kernel's intrusive lists as sequences (lib/list.h). */
module Lists {
  ghost predicate NoDuplicates<T>(s: seq<T>) {
    forall i, j | 0 <= i < j < |s| :: s[i] != s[j]
  }

  /** list_del: the list without the node. */
  function Without<T(==)>(s: seq<T>, n: T): seq<T> {
    if s == [] then []
    else (if s[0] == n then [] else [s[0]]) + Without(s[1..], n)
  }

  /** One node is taken out and the others keep their order; a node that is not there changes nothing. */
  ghost predicate Removed<T>(s: seq<T>, s': seq<T>, n: T) {
    if n in s then exists i: nat :: i < |s| && s[i] == n && s' == s[..i] + s[i + 1..] else s' == s
  }

  lemma RemovedFacts<T>(s: seq<T>, s': seq<T>, n: T)
    requires NoDuplicates(s) && Removed(s, s', n)
    ensures forall x :: x in s' <==> x in s && x != n
  {
    if n in s {
      var i: nat :| i < |s| && s[i] == n && s' == s[..i] + s[i + 1..];
      forall x | x in s && x != n
        ensures x in s'
      {
        var k :| 0 <= k < |s| && s[k] == x;
        assert k < i ==> x == s[..i][k];
        assert k > i ==> x == s[i + 1..][k - i - 1];
      }
    }
  }

  /** Taking one node out of a list without duplicates. */
  lemma {:induction false} WithoutAt<T>(s: seq<T>, i: nat)
    requires NoDuplicates(s) && i < |s|
    ensures Without(s, s[i]) == s[..i] + s[i + 1..]
  {
    if i == 0 {
      assert s[0] !in s[1..];
      WithoutFacts(s[1..], s[0]);
    } else {
      assert NoDuplicates(s[1..]) && s[1..][i - 1] == s[i] && s[0] != s[i];
      WithoutAt(s[1..], i - 1);
      assert s[1..][..i - 1] == s[1..i] && s[1..][i..] == s[i + 1..];
      assert [s[0]] + s[1..i] == s[..i];
    }
  }

  lemma WithoutRemoves<T>(s: seq<T>, n: T)
    requires NoDuplicates(s)
    ensures Removed(s, Without(s, n), n)
  {
    WithoutFacts(s, n);
    if n in s {
      var i: nat :| i < |s| && s[i] == n;
      WithoutAt(s, i);
    }
  }

  lemma {:induction false} WithoutFacts<T>(s: seq<T>, n: T)
    ensures forall x :: x in Without(s, n) <==> x in s && x != n
    ensures NoDuplicates(s) ==> NoDuplicates(Without(s, n))
    ensures n !in s ==> Without(s, n) == s
  {
    if s != [] {
      WithoutFacts(s[1..], n);
      if NoDuplicates(s) {
        assert s[0] !in s[1..];
        assert NoDuplicates(s[1..]);
      }
    }
  }
}
