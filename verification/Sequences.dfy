/** Small facts about sequences and sets of numbers that several components share. */
module Sequences {

  /** The null link of every table of indices. */
  const NULL: int := -1

  ghost predicate Distinct<T>(s: seq<T>) {
    forall i, j :: 0 <= i < j < |s| ==> s[i] != s[j]
  }

  lemma AppendDistinct<T>(a: seq<T>, b: seq<T>)
    requires Distinct(a) && Distinct(b) && forall x :: x in a ==> x !in b
    ensures Distinct(a + b)
  {
    forall i, j | 0 <= i < j < |a + b| ensures (a + b)[i] != (a + b)[j] {
      assert i < |a| ==> a[i] in a;
      assert j >= |a| ==> b[j - |a|] in b;
    }
  }

  /** A list that contains the first `n` numbers has at least `n` elements. */
  lemma {:induction false} ContainsAllIsLong(s: seq<int>, n: nat)
    requires forall e :: 0 <= e < n ==> e in s
    ensures n <= |s|
    decreases n
  {
    if n > 0 {
      assert n - 1 in s;
      var i :| 0 <= i < |s| && s[i] == n - 1;
      var t := s[..i] + s[i + 1..];
      forall e | 0 <= e < n - 1 ensures e in t {
        assert e in s;
        var k :| 0 <= k < |s| && s[k] == e;
        assert t[if k < i then k else k - 1] == e;
      }
      ContainsAllIsLong(t, n - 1);
    }
  }

  /** The numbers below `n`. */
  ghost function Below(n: nat): (s: set<nat>)
    ensures forall x: nat :: x in s <==> x < n
  {
    if n == 0 then {} else Below(n - 1) + {n - 1}
  }

  lemma {:induction false} BelowHasAtMost(s: set<nat>, n: nat)
    requires forall x :: x in s ==> x < n
    ensures |s| <= n
    decreases n
  {
    if n > 0 {
      BelowHasAtMost(s - {n - 1}, n - 1);
      if n - 1 in s {
        assert s == s - {n - 1} + {n - 1};
      }
    } else {
      assert s == {};
    }
  }
}
